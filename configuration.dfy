/** The experiment configuration read by fitness sharing and offspring allocation. */
module Configuration {

  datatype Conf = Conf(
    totalPopulationSize: nat,
    crossover: bool,
    youngAgeThreshold: nat,     // a species younger than this (in generations) is boosted
    oldAgeThreshold: nat,       // a species older than this (in generations) is penalised
    speciesMaxStagnation: nat,  // more generations without improvement than this is stagnation
    youngAgeFitnessBoost: real,
    oldAgeFitnessPenalty: real)

  /** The defaults of the source's `Conf` record. */
  const Default: Conf := Conf(100, true, 10, 40, 400, 1.1, 0.9)

  /** The ranges the record documents for its multipliers: the boost is
      above 1, the penalty strictly between 0 and 1. */
  predicate Sensible(conf: Conf) {
    conf.youngAgeFitnessBoost > 1.0 && 0.0 < conf.oldAgeFitnessPenalty < 1.0
  }
}

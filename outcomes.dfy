/** Optional values and the error outcomes of the speciation engine.
    The source signals failures by throwing `invalid_fitness` (Species::adjust_fitness)
    or `std::runtime_error` (offspring counting, next_generation checks), or stops
    at a failed assertion (get_worst); here they are values of `Error`. */
module Outcomes {

  datatype Option<+T> = None | Some(value: T) {
    function GetOr(default: T): T {
      match this
      case Some(v) => v
      case None => default
    }
  }

  /** The failures the engine reports to its caller. */
  datatype Error =
    | InvalidFitness(fitness: real)                    // negative raw fitness
    | OffspringSumMismatch(sum: int, expected: nat)    // _count_offsprings after correction
    | DuplicateSpeciesId(id: nat)                      // next_generation id check
    | PopulationSizeMismatch(count: nat, expected: nat) // next_generation size check
    | SpeciesIndexOutOfRange(index: nat)               // next_generation reads past the old species
    | MissingFitness(index: nat)                       // get_worst meets a species without a fitness

  datatype Outcome = Pass | Fail(error: Error)

  datatype Result<+T> = Ok(value: T) | Err(error: Error)
}

/** A species: an ordered group of compatible individuals sharing one lineage
    id, with its age, the best fitness it has seen, and the fitness-sharing
    pass that turns raw fitness into adjusted fitness. */
module SpeciesGroups {
  import opened Outcomes
  import opened Individuals
  import opened Configuration
  import opened AgeCounters

  /** Stand-in for a zero fitness, so that no species is allotted nothing. */
  const Epsilon: real := 0.0001
  /** Multiplier applied to a species that stagnated for too long. */
  const StagnationPenalty: real := 0.0000001

  /** The raw fitness the sharing pass reads: an unevaluated individual counts as 0. */
  function RawFitness(x: Individual): (r: real)
    ensures x.fitness.None? ==> r == 0.0
    ensures x.fitness.Some? ==> r == x.fitness.value
  {
    x.fitness.GetOr(0.0)
  }

  /** A zero fitness is replaced by Epsilon; every other value is kept, so
      the result is never zero and a fitness that is not negative becomes
      positive. */
  function Effective(f: real): (r: real)
    ensures r != 0.0
    ensures f != 0.0 ==> r == f
    ensures f >= 0.0 ==> r > 0.0
  {
    if f == 0.0 then Epsilon else f
  }

  function Effs(ms: seq<Member>): (r: seq<real>)
    ensures |r| == |ms|
    ensures forall i | 0 <= i < |ms| :: r[i] == Effective(RawFitness(ms[i].individual))
  {
    seq(|ms|, i requires 0 <= i < |ms| => Effective(RawFitness(ms[i].individual)))
  }

  /** The two values a sharing pass updates as it walks the members: the
      species' best fitness so far and its stagnation counter. */
  datatype Tally = Tally(lastBest: real, noImprovements: nat)

  /** One member's effect: a fitness at least as good as the best so far
      becomes the new best and ends the stagnation; a lower one changes
      nothing. The best is then the larger of the two. */
  function Track(t: Tally, f: real): (r: Tally)
    ensures r.lastBest >= t.lastBest && r.lastBest >= f
    ensures r.lastBest == t.lastBest || r.lastBest == f
    ensures f >= t.lastBest ==> r.noImprovements == 0
    ensures f < t.lastBest ==> r == t
  {
    if f >= t.lastBest then Tally(f, 0) else t
  }

  /** A pass over the fitnesses fs: the best so far is the running maximum
      of the starting best and the fitnesses seen, and is one of them. */
  function TrackAll(t: Tally, fs: seq<real>): (r: Tally)
    ensures r.lastBest >= t.lastBest
    ensures forall j | 0 <= j < |fs| :: r.lastBest >= fs[j]
    ensures r.lastBest == t.lastBest || r.lastBest in fs
    decreases |fs|
  {
    if |fs| == 0 then t
    else
      var init := fs[..|fs| - 1];
      assert forall j | 0 <= j < |init| :: init[j] == fs[j];
      Track(TrackAll(t, init), fs[|fs| - 1])
  }

  /** The age and stagnation multipliers, before division by the species
      size. A species neither young nor old, and not stagnating (or the
      best), keeps its fitness. */
  function Weight(f: real, generations: nat, noImprovements: nat, isBest: bool, conf: Conf): (r: real)
    ensures (conf.youngAgeThreshold <= generations <= conf.oldAgeThreshold
             && (isBest || noImprovements <= conf.speciesMaxStagnation)) ==> r == f
  {
    var boosted := if generations < conf.youngAgeThreshold then f * conf.youngAgeFitnessBoost else f;
    var aged := if generations > conf.oldAgeThreshold then boosted * conf.oldAgeFitnessPenalty else boosted;
    if !isBest && noImprovements > conf.speciesMaxStagnation then aged * StagnationPenalty else aged
  }

  /** With the documented multiplier ranges a positive fitness stays
      positive and is at most boosted: no multiplier but the young boost
      raises it. */
  lemma WeightBounds(f: real, generations: nat, noImprovements: nat, isBest: bool, conf: Conf)
    requires Sensible(conf) && f > 0.0
    ensures 0.0 < Weight(f, generations, noImprovements, isBest, conf) <= f * conf.youngAgeFitnessBoost
  {
    var young := generations < conf.youngAgeThreshold;
    var aging := generations > conf.oldAgeThreshold;
    var stagnating := !isBest && noImprovements > conf.speciesMaxStagnation;
    Multipliers(f, conf.youngAgeFitnessBoost, conf.oldAgeFitnessPenalty, young, aging, stagnating);
  }

  /** The three multipliers of Weight applied in turn, the first at least 1
      and the others at most 1, keep a positive value positive and at most
      boosted. */
  lemma Multipliers(f: real, b: real, p: real, young: bool, aging: bool, stagnating: bool)
    requires f > 0.0 && b >= 1.0 && 0.0 < p <= 1.0
    ensures var boosted := if young then f * b else f;
            var aged := if aging then boosted * p else boosted;
            var r := if stagnating then aged * StagnationPenalty else aged;
            0.0 < r <= f * b
  {
    var u := f * b;
    Grows(f, b);
    var boosted := if young then u else f;
    ShrinksBelow(boosted, p, u);
    var aged := if aging then boosted * p else boosted;
    ShrinksBelow(aged, StagnationPenalty, u);
  }

  lemma Grows(x: real, b: real)
    requires x > 0.0 && b >= 1.0
    ensures 0.0 < x <= x * b
  {
    assert x * b - x == x * (b - 1.0);
  }

  lemma ShrinksBelow(x: real, c: real, u: real)
    requires 0.0 < x <= u && 0.0 < c <= 1.0
    ensures 0.0 < x * c <= u
  {
    assert x - x * c == x * (1.0 - c);
  }

  /** Position of the first member whose raw fitness is negative, or the size. */
  function FirstNegative(ms: seq<Member>): (k: nat)
    ensures k <= |ms|
    ensures forall j | 0 <= j < k :: RawFitness(ms[j].individual) >= 0.0
    ensures k < |ms| ==> RawFitness(ms[k].individual) < 0.0
  {
    if |ms| == 0 then 0
    else if RawFitness(ms[0].individual) < 0.0 then 0
    else 1 + FirstNegative(ms[1..])
  }

  /** The adjusted member the pass writes at position i (i is before the
      first negative fitness). */
  function SharedMember(ms: seq<Member>, i: nat, t0: Tally, generations: nat, isBest: bool, conf: Conf): (r: Member)
    requires i < |ms|
    ensures r.individual == ms[i].individual && r.adjusted.Some?
  {
    var fs := Effs(ms);
    Member(Some(Weight(fs[i], generations, TrackAll(t0, fs[..i + 1]).noImprovements, isBest, conf)
                / (|ms| as real)),
           ms[i].individual)
  }

  /** One step of the pass: tracking member i's fitness extends the running
      tally by one, and the weight computed with the tracked counter, shared
      by the size, is the member SharedMember describes. */
  lemma ShareStep(ms: seq<Member>, i: nat, t0: Tally, before: Tally, generations: nat, isBest: bool,
                  conf: Conf, adjusted: real)
    requires i < |ms| && before == TrackAll(t0, Effs(ms)[..i])
    requires var f := Effective(RawFitness(ms[i].individual));
             adjusted == Weight(f, generations, Track(before, f).noImprovements, isBest, conf)
    ensures Track(before, Effs(ms)[i]) == TrackAll(t0, Effs(ms)[..i + 1])
    ensures Member(Some(adjusted / (|ms| as real)), ms[i].individual)
         == SharedMember(ms, i, t0, generations, isBest, conf)
  {
    var fs := Effs(ms);
    assert fs[..i + 1][..i] == fs[..i];
  }

  /** The member list once the pass has adjusted the first i members. */
  function PartlyShared(ms: seq<Member>, i: nat, t0: Tally, generations: nat, isBest: bool, conf: Conf): (r: seq<Member>)
    requires i <= |ms|
    ensures |r| == |ms|
  {
    seq(|ms|, j requires 0 <= j < |ms| => if j < i then SharedMember(ms, j, t0, generations, isBest, conf) else ms[j])
  }

  /** Adjusting member i extends the adjusted prefix by one. */
  lemma PartlySharedStep(ms: seq<Member>, i: nat, t0: Tally, generations: nat, isBest: bool, conf: Conf)
    requires i < |ms|
    ensures PartlyShared(ms, i, t0, generations, isBest, conf)[i] == ms[i]
    ensures PartlyShared(ms, i + 1, t0, generations, isBest, conf)
         == PartlyShared(ms, i, t0, generations, isBest, conf)[i := SharedMember(ms, i, t0, generations, isBest, conf)]
  {
  }

  datatype SharingResult = SharingResult(members: seq<Member>, tally: Tally, outcome: Outcome)

  /** The whole fitness-sharing pass over a member list, including the state
      it leaves behind when it stops at a negative fitness. The pass succeeds
      iff no raw fitness is negative; members keep their order and
      individuals, and on success every member is adjusted. */
  function Sharing(ms: seq<Member>, t0: Tally, generations: nat, isBest: bool, conf: Conf): (r: SharingResult)
    ensures r.outcome == Pass <==> forall j | 0 <= j < |ms| :: RawFitness(ms[j].individual) >= 0.0
    ensures |r.members| == |ms|
    ensures IndividualsOf(r.members) == IndividualsOf(ms)
    ensures r.outcome == Pass ==> forall j | 0 <= j < |ms| :: r.members[j].adjusted.Some?
  {
    var k := FirstNegative(ms);
    SharingResult(
      PartlyShared(ms, k, t0, generations, isBest, conf),
      TrackAll(t0, Effs(ms)[..k]),
      if k < |ms| then Fail(InvalidFitness(RawFitness(ms[k].individual))) else Pass)
  }

  class Species {
    var members: seq<Member>
    /** Id of the species, conserved across generations. */
    const id: nat
    const age: Age
    var lastBestFitness: real

    constructor (xs: seq<Individual>, speciesId: nat, bestFitness: real)
      ensures members == Unadjusted(xs) && id == speciesId && lastBestFitness == bestFitness
      ensures fresh(age) && age.generations == 0 && age.evaluations == 0 && age.noImprovements == 0
    {
      members := Unadjusted(xs);
      id := speciesId;
      lastBestFitness := bestFitness;
      age := new Age();
    }

    /** A species that starts from a copy of an existing age. */
    constructor WithAge(xs: seq<Individual>, speciesId: nat, from: Age, bestFitness: real)
      ensures members == Unadjusted(xs) && id == speciesId && lastBestFitness == bestFitness
      ensures fresh(age)
      ensures age.generations == from.generations && age.evaluations == from.evaluations
      ensures age.noImprovements == from.noImprovements
    {
      members := Unadjusted(xs);
      id := speciesId;
      lastBestFitness := bestFitness;
      age := new Age.Copy(from);
    }

    /** A new species founded by one individual, which becomes its representative. */
    constructor Singleton(x: Individual, speciesId: nat)
      ensures members == [Member(None, x)] && id == speciesId && lastBestFitness == 0.0
      ensures fresh(age) && age.generations == 0 && age.evaluations == 0 && age.noImprovements == 0
    {
      members := [Member(None, x)];
      id := speciesId;
      lastBestFitness := 0.0;
      age := new Age();
    }

    /** The next generation's species: same id, age and best fitness, new members. */
    method CloneWithNewIndividuals(xs: seq<Individual>) returns (s: Species)
      ensures fresh(s) && fresh(s.age)
      ensures s.id == id && s.lastBestFitness == lastBestFitness && s.members == Unadjusted(xs)
      ensures s.age.generations == age.generations && s.age.evaluations == age.evaluations
      ensures s.age.noImprovements == age.noImprovements
    {
      s := new Species.WithAge(xs, id, age, lastBestFitness);
    }

    /** The number of individuals the species holds. */
    function Size(): (n: nat)
      reads this
      ensures n == |IndividualsOf(members)|
    {
      |members|
    }

    /** The representative is the first member's individual: one of the
        species' individuals, and the one compatibility is tested against. */
    function Representative(): (r: Individual)
      reads this
      requires |members| > 0
      ensures r == IndividualsOf(members)[0]
      ensures r in IndividualsOf(members)
    {
      members[0].individual
    }

    /** Compatibility is tested against the representative; an empty species accepts nobody. */
    function IsCompatible(compat: (Individual, Individual) -> bool, candidate: Individual): (r: bool)
      reads this
      ensures r ==> |members| > 0
      ensures |members| > 0 ==> (r <==> compat(members[0].individual, candidate))
    {
      |members| > 0 && compat(Representative(), candidate)
    }

    /** Position of the best member: the first one whose fitness no other member exceeds. */
    function GetBestIndividual(): (k: nat)
      reads this
      requires |members| > 0
      ensures k < |members|
      ensures forall j | 0 <= j < |members| ::
        !ScoreLess(FitnessScore(members[k].individual), FitnessScore(members[j].individual))
      ensures forall j | 0 <= j < k ::
        ScoreLess(FitnessScore(members[j].individual), FitnessScore(members[k].individual))
    {
      FirstMaxIndex(Scores(members))
    }

    /** The best fitness in the species; negative infinity when it is empty. */
    function GetBestFitness(): (r: Score)
      reads this
      ensures |members| == 0 ==> r == NegInfinity
      ensures |members| > 0 ==> r in Scores(members)
      ensures forall j | 0 <= j < |members| :: !ScoreLess(r, FitnessScore(members[j].individual))
    {
      if |members| == 0 then NegInfinity else FitnessScore(members[GetBestIndividual()].individual)
    }

    method Insert(x: Individual)
      modifies this
      ensures members == old(members) + [Member(None, x)]
      ensures lastBestFitness == old(lastBestFitness)
    {
      members := members + [Member(None, x)];
    }

    /** Replaces the whole member list; no member keeps an adjusted fitness. */
    method SetIndividuals(xs: seq<Individual>)
      modifies this
      ensures members == Unadjusted(xs)
      ensures lastBestFitness == old(lastBestFitness)
    {
      members := Unadjusted(xs);
    }

    /** Fitness sharing for one member's raw fitness (not yet divided by the
        size); records a new best and ends stagnation on the way. */
    method IndividualAdjustedFitness(fitness: real, isBest: bool, conf: Conf) returns (adjusted: real)
      modifies this, age
      ensures members == old(members)
      ensures Tally(lastBestFitness, age.noImprovements)
           == Track(Tally(old(lastBestFitness), old(age.noImprovements)), Effective(fitness))
      ensures age.generations == old(age.generations) && age.evaluations == old(age.evaluations)
      ensures adjusted == Weight(Effective(fitness), age.generations, age.noImprovements, isBest, conf)
    {
      var f := fitness;
      if f == 0.0 {
        f := Epsilon;
      }
      if f >= lastBestFitness {
        lastBestFitness := f;
        age.ResetNoImprovements();
      }
      var generations := age.generations;
      if generations < conf.youngAgeThreshold {
        f := f * conf.youngAgeFitnessBoost;
      }
      if generations > conf.oldAgeThreshold {
        f := f * conf.oldAgeFitnessPenalty;
      }
      if !isBest && age.noImprovements > conf.speciesMaxStagnation {
        f := f * StagnationPenalty;
      }
      adjusted := f;
    }

    /** The fitness-sharing pass: walks the members in order, stops with
        InvalidFitness at the first negative raw fitness (earlier members
        keep their new values), and otherwise adjusts every member. */
    method AdjustFitness(isBest: bool, conf: Conf) returns (outcome: Outcome)
      requires |members| > 0
      modifies this, age
      ensures age.generations == old(age.generations) && age.evaluations == old(age.evaluations)
      ensures var r := Sharing(old(members), Tally(old(lastBestFitness), old(age.noImprovements)),
                               old(age.generations), isBest, conf);
              members == r.members && outcome == r.outcome
              && Tally(lastBestFitness, age.noImprovements) == r.tally
    {
      ghost var ms0 := members;
      ghost var t0 := Tally(lastBestFitness, age.noImprovements);
      ghost var fs := Effs(ms0);
      ghost var k := FirstNegative(ms0);
      var n := |members|;
      var i := 0;
      while i < n
        invariant n == |ms0| == |members| && i <= k
        invariant age.generations == old(age.generations) && age.evaluations == old(age.evaluations)
        invariant Tally(lastBestFitness, age.noImprovements) == TrackAll(t0, fs[..i])
        invariant members == PartlyShared(ms0, i, t0, old(age.generations), isBest, conf)
      {
        var fitness := RawFitness(members[i].individual);
        if fitness < 0.0 {
          assert k == i;
          outcome := Fail(InvalidFitness(fitness));
          assert members == Sharing(ms0, t0, old(age.generations), isBest, conf).members;
          return;
        }
        PartlySharedStep(ms0, i, t0, old(age.generations), isBest, conf);
        ghost var before := Tally(lastBestFitness, age.noImprovements);
        var adjusted := IndividualAdjustedFitness(fitness, isBest, conf);
        ShareStep(ms0, i, t0, before, old(age.generations), isBest, conf, adjusted);
        members := members[i := Member(Some(adjusted / (n as real)), members[i].individual)];
        i := i + 1;
      }
      assert k == n;
      assert fs[..n] == fs[..k];
      outcome := Pass;
      assert members == Sharing(ms0, t0, old(age.generations), isBest, conf).members;
    }

    // Age relays

    method IncreaseGenerations()
      modifies age
      ensures age.generations == old(age.generations) + 1
      ensures age.evaluations == old(age.evaluations) && age.noImprovements == old(age.noImprovements)
    {
      age.IncreaseGenerations();
    }

    method IncreaseEvaluations()
      modifies age
      ensures age.evaluations == old(age.evaluations) + 1
      ensures age.generations == old(age.generations) && age.noImprovements == old(age.noImprovements)
    {
      age.IncreaseEvaluations();
    }

    method IncreaseNoImprovementsGenerations()
      modifies age
      ensures age.noImprovements == old(age.noImprovements) + 1
      ensures age.generations == old(age.generations) && age.evaluations == old(age.evaluations)
    {
      age.IncreaseNoImprovements();
    }

    /** Full rejuvenation: generations and stagnation back to zero. */
    method ResetAge()
      modifies age
      ensures age.generations == 0 && age.noImprovements == 0
      ensures age.evaluations == old(age.evaluations)
    {
      age.ResetGenerations();
      age.ResetNoImprovements();
    }
  }

  // Properties of the sharing pass

  /** Stagnation ends exactly when some fitness reaches the best the species
      had before the pass; otherwise the counter is untouched. */
  lemma {:induction false} TrackAllResetsIffImproved(t: Tally, fs: seq<real>)
    ensures TrackAll(t, fs).noImprovements
         == if exists j | 0 <= j < |fs| :: fs[j] >= t.lastBest then 0 else t.noImprovements
    decreases |fs|
  {
    if |fs| > 0 {
      var init := fs[..|fs| - 1];
      TrackAllResetsIffImproved(t, init);
      assert forall j | 0 <= j < |fs| - 1 :: fs[j] == init[j];
      if !(exists j | 0 <= j < |fs| - 1 :: init[j] >= t.lastBest) {
        assert TrackAll(t, init).lastBest == t.lastBest;
      }
    }
  }

  /** A negative fitness in front stops the pass before anything changes. */
  lemma SharingRejectsLeadingNegative(ms: seq<Member>, t0: Tally, generations: nat, isBest: bool, conf: Conf)
    requires |ms| > 0 && RawFitness(ms[0].individual) < 0.0
    ensures var r := Sharing(ms, t0, generations, isBest, conf);
      r.outcome == Fail(InvalidFitness(RawFitness(ms[0].individual))) && r.tally == t0 && r.members == ms
  {
    var fs := Effs(ms);
    assert fs[..0] == [];
  }

  /** The best fitness never decreases, and when it moves it moves to a
      positive fitness: it never becomes negative. */
  lemma SharingLastBestNeverNegative(ms: seq<Member>, t0: Tally, generations: nat, isBest: bool, conf: Conf)
    ensures var r := Sharing(ms, t0, generations, isBest, conf);
      r.tally.lastBest >= t0.lastBest && (r.tally.lastBest == t0.lastBest || r.tally.lastBest > 0.0)
      && (t0.lastBest >= 0.0 ==> r.tally.lastBest >= 0.0)
  {
    var k := FirstNegative(ms);
    var fs := Effs(ms)[..k];
    assert forall j | 0 <= j < k :: fs[j] > 0.0;
  }

  /** With the documented multiplier ranges every adjusted fitness of a
      successful pass is positive. */
  lemma SharingPositive(ms: seq<Member>, t0: Tally, generations: nat, isBest: bool, conf: Conf)
    requires Sensible(conf)
    requires Sharing(ms, t0, generations, isBest, conf).outcome == Pass
    ensures var r := Sharing(ms, t0, generations, isBest, conf);
      forall j | 0 <= j < |ms| :: r.members[j].adjusted.Some? && r.members[j].adjusted.value > 0.0
  {
    var r := Sharing(ms, t0, generations, isBest, conf);
    assert FirstNegative(ms) == |ms|;
    var all := PartlyShared(ms, |ms|, t0, generations, isBest, conf);
    assert r.members == all;
    forall j | 0 <= j < |ms|
      ensures r.members[j].adjusted.Some? && r.members[j].adjusted.value > 0.0
    {
      assert all[j] == SharedMember(ms, j, t0, generations, isBest, conf);
      SharedMemberPositive(ms, j, t0, generations, isBest, conf);
    }
  }

  /** A member with a non-negative raw fitness gets a positive share. */
  lemma SharedMemberPositive(ms: seq<Member>, j: nat, t0: Tally, generations: nat, isBest: bool, conf: Conf)
    requires Sensible(conf) && j < |ms| && RawFitness(ms[j].individual) >= 0.0
    ensures SharedMember(ms, j, t0, generations, isBest, conf).adjusted.value > 0.0
  {
    var fs := Effs(ms);
    assert fs[j] > 0.0;
    var n := TrackAll(t0, fs[..j + 1]).noImprovements;
    WeightBounds(fs[j], generations, n, isBest, conf);
    var w := Weight(fs[j], generations, n, isBest, conf);
    assert SharedMember(ms, j, t0, generations, isBest, conf).adjusted.value == w / (|ms| as real);
  }

  /** Three young members with fitness 22, 21.1 and 22.1, a boost of 1.1 and
      no stagnation: the shares are 22*1.1/3, 21.1*1.1/3 and 22.1*1.1/3, and
      22.1 becomes the best fitness. */
  lemma SharingExample(g1: nat, g2: nat, g3: nat)
    ensures var ms := [Member(None, Individual(g1, Some(22.0))),
                       Member(None, Individual(g2, Some(21.1))),
                       Member(None, Individual(g3, Some(22.1)))];
            var conf := Conf(3, true, 1, 3, 100, 1.1, 0.9);
            var r := Sharing(ms, Tally(0.0, 0), 0, false, conf);
            && r.outcome == Pass
            && r.tally == Tally(22.1, 0)
            && IndividualsOf(r.members) == IndividualsOf(ms)
            && r.members[0].adjusted == Some(121.0 / 15.0)
            && r.members[1].adjusted == Some(2321.0 / 300.0)
            && r.members[2].adjusted == Some(2431.0 / 300.0)
  {
    var ms := [Member(None, Individual(g1, Some(22.0))),
               Member(None, Individual(g2, Some(21.1))),
               Member(None, Individual(g3, Some(22.1)))];
    var fs := Effs(ms);
    assert fs == [22.0, 21.1, 22.1];
    assert fs[..1] == [22.0] && fs[..2] == [22.0, 21.1] && fs[..3] == fs;
    assert [22.0, 21.1][..1] == [22.0] && [22.0, 21.1, 22.1][..2] == [22.0, 21.1];
    assert TrackAll(Tally(0.0, 0), [22.0]) == Tally(22.0, 0);
    assert TrackAll(Tally(0.0, 0), [22.0, 21.1]) == Tally(22.0, 0);
    assert TrackAll(Tally(0.0, 0), fs) == Tally(22.1, 0);
  }
}

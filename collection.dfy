/** The species of one generation, in order, with a lazily recomputed
    position of the best species and the flag that says the cached position
    is stale. */
module SpeciesCollections {
  import opened Outcomes
  import opened Individuals
  import opened Configuration
  import opened AgeCounters
  import opened SpeciesGroups
  import opened FirstFit
  import opened Correction

  /** The species as values: id and members, in order. */
  function Clusters(ss: seq<Species>): (r: seq<Cluster>)
    reads ss
    ensures |r| == |ss|
    ensures forall i | 0 <= i < |ss| :: r[i] == Cluster(ss[i].id, ss[i].members)
  {
    seq(|ss|, i requires 0 <= i < |ss| reads ss => Cluster(ss[i].id, ss[i].members))
  }

  ghost function AgesOf(ss: seq<Species>): set<Age> {
    set s | s in ss :: s.age
  }

  /** Distinct species each owning a distinct age: what keeping the species
      by value in a vector guarantees. */
  ghost predicate Distinct(ss: seq<Species>) {
    forall i, j | 0 <= i < |ss| && 0 <= j < |ss| && i != j :: ss[i] != ss[j] && ss[i].age != ss[j].age
  }

  predicate UniqueIds(ss: seq<Species>) {
    forall i, j | 0 <= i < j < |ss| :: ss[i].id != ss[j].id
  }

  predicate AllNonEmpty(ss: seq<Species>)
    reads ss
  {
    forall i | 0 <= i < |ss| :: |ss[i].members| > 0
  }

  /** What `_update_cache` needs to rank the species by their best members:
      every species has one, unless there is only one species, which
      `std::max_element` returns without a comparison. */
  predicate BestComparable(ss: seq<Species>)
    reads ss
  {
    |ss| == 1 || AllNonEmpty(ss)
  }

  /** The value `_update_cache` and `get_worst` compare: each species' best fitness. */
  function BestScores(ss: seq<Species>): (r: seq<Score>)
    reads ss
    ensures |r| == |ss|
    ensures forall i | 0 <= i < |ss| :: r[i] == ss[i].GetBestFitness()
  {
    seq(|ss|, i requires 0 <= i < |ss| reads ss => ss[i].GetBestFitness())
  }

  /** The species that survive `cleanup`: the non-empty ones, in order.
      Cleanup only drops species (NonEmptyMembers says which ones survive). */
  function NonEmpty(ss: seq<Species>): (r: seq<Species>)
    reads ss
    ensures |r| <= |ss|
    decreases |ss|
  {
    if |ss| == 0 then []
    else
      var init := ss[..|ss| - 1];
      assert ss == init + [ss[|ss| - 1]];
      NonEmpty(init) + (if |ss[|ss| - 1].members| > 0 then [ss[|ss| - 1]] else [])
  }

  /** What a species holds, as a value: its members, its best fitness with
      the generations since it last improved, and its age counters. */
  datatype SpeciesState = SpeciesState(members: seq<Member>, tally: Tally, generations: nat, evaluations: nat)

  function StateOf(sp: Species): SpeciesState
    reads sp, sp.age
  {
    SpeciesState(sp.members, Tally(sp.lastBestFitness, sp.age.noImprovements), sp.age.generations, sp.age.evaluations)
  }

  function States(ss: seq<Species>): (r: seq<SpeciesState>)
    reads ss, AgesOf(ss)
    ensures |r| == |ss|
    ensures forall i | 0 <= i < |ss| :: r[i] == StateOf(ss[i])
  {
    seq(|ss|, i requires 0 <= i < |ss| reads ss, AgesOf(ss) => StateOf(ss[i]))
  }

  /** The species holding the members of cs, position by position: those
      already present in sts keep their best fitness, stagnation and age
      counters; the ones beyond were founded since, with best fitness 0.0
      and a new age (Species.h:63-68). */
  function Settled(cs: seq<Cluster>, sts: seq<SpeciesState>): (r: seq<SpeciesState>)
    ensures |r| == |cs|
    ensures forall j | 0 <= j < |cs| :: r[j].members == cs[j].members
    ensures forall j | 0 <= j < |cs| && j < |sts| :: r[j] == sts[j].(members := cs[j].members)
    ensures forall j | |sts| <= j < |cs| :: r[j] == SpeciesState(cs[j].members, Tally(0.0, 0), 0, 0)
  {
    seq(|cs|, j requires 0 <= j < |cs| =>
      if j < |sts| then sts[j].(members := cs[j].members) else SpeciesState(cs[j].members, Tally(0.0, 0), 0, 0))
  }

  /** Settling twice is settling once on the later members, as long as the
      first settling already covered every known species. */
  lemma SettledTwice(c2: seq<Cluster>, c1: seq<Cluster>, sts: seq<SpeciesState>)
    requires |sts| <= |c1|
    ensures Settled(c2, Settled(c1, sts)) == Settled(c2, sts)
  {
  }

  /** The states that survive `cleanup`: the non-empty ones, in order. */
  function NonEmptyStates(sts: seq<SpeciesState>): (r: seq<SpeciesState>)
    ensures |r| <= |sts|
    ensures forall k | 0 <= k < |r| :: |r[k].members| > 0
    decreases |sts|
  {
    if |sts| == 0 then []
    else NonEmptyStates(sts[..|sts| - 1]) + (if |sts[|sts| - 1].members| > 0 then [sts[|sts| - 1]] else [])
  }

  /** One species after its fitness-sharing pass: its age counters and its
      individuals stay as they were. */
  function SharedState(st: SpeciesState, isBest: bool, conf: Conf): (r: SpeciesState)
    ensures r.generations == st.generations && r.evaluations == st.evaluations
    ensures IndividualsOf(r.members) == IndividualsOf(st.members)
  {
    var r := Sharing(st.members, st.tally, st.generations, isBest, conf);
    assert IndividualsOf(r.members) == IndividualsOf(st.members);
    SpeciesState(r.members, r.tally, st.generations, st.evaluations)
  }

  /** Index of the first species whose fitness-sharing pass fails. */
  function FirstInvalid(sts: seq<SpeciesState>): (k: nat)
    ensures k <= |sts|
    ensures forall j | 0 <= j < k :: FirstNegative(sts[j].members) == |sts[j].members|
    ensures k < |sts| ==> FirstNegative(sts[k].members) < |sts[k].members|
  {
    if |sts| == 0 then 0
    else if FirstNegative(sts[0].members) < |sts[0].members| then 0
    else 1 + FirstInvalid(sts[1..])
  }

  /** The error the collection's fitness-sharing pass reports, if any. */
  function SharingOutcome(sts: seq<SpeciesState>): Outcome {
    var k := FirstInvalid(sts);
    if k < |sts| then Fail(InvalidFitness(RawFitness(sts[k].members[FirstNegative(sts[k].members)].individual)))
    else Pass
  }

  /** The collection after its fitness-sharing pass: every species up to and
      including the first failing one has run its pass, the rest are as
      before (SharedStatesAt states this position by position). */
  function SharedStates(sts: seq<SpeciesState>, best: nat, conf: Conf): (r: seq<SpeciesState>)
    ensures |r| == |sts|
    ensures forall j | 0 <= j < |sts| ::
      && r[j].generations == sts[j].generations && r[j].evaluations == sts[j].evaluations
      && IndividualsOf(r[j].members) == IndividualsOf(sts[j].members)
  {
    SharedUpTo(sts, FirstInvalid(sts), best, conf)
  }

  function SharedUpTo(sts: seq<SpeciesState>, k: nat, best: nat, conf: Conf): (r: seq<SpeciesState>)
    ensures |r| == |sts|
    ensures forall j | 0 <= j < |sts| ::
      && r[j].generations == sts[j].generations && r[j].evaluations == sts[j].evaluations
      && IndividualsOf(r[j].members) == IndividualsOf(sts[j].members)
    decreases |sts|
  {
    if |sts| == 0 then []
    else
      var j := |sts| - 1;
      SharedUpTo(sts[..j], k, best, conf) + [if j <= k then SharedState(sts[j], j == best, conf) else sts[j]]
  }

  lemma {:induction false} SharedUpToAt(sts: seq<SpeciesState>, k: nat, best: nat, conf: Conf, j: nat)
    requires j < |sts|
    ensures SharedUpTo(sts, k, best, conf)[j] == if j <= k then SharedState(sts[j], j == best, conf) else sts[j]
    decreases |sts|
  {
    if j < |sts| - 1 {
      SharedUpToAt(sts[..|sts| - 1], k, best, conf, j);
    }
  }

  lemma SharedStatesAt(sts: seq<SpeciesState>, best: nat, conf: Conf)
    ensures forall j | 0 <= j < |sts| ::
      SharedStates(sts, best, conf)[j] == if j <= FirstInvalid(sts) then SharedState(sts[j], j == best, conf) else sts[j]
  {
    forall j | 0 <= j < |sts|
      ensures SharedStates(sts, best, conf)[j] == if j <= FirstInvalid(sts) then SharedState(sts[j], j == best, conf) else sts[j]
    {
      SharedUpToAt(sts, FirstInvalid(sts), best, conf, j);
    }
  }

  /** One aging step: a generation older and one more generation without
      improvement, or, for the rejuvenated species, both back to zero. */
  function Older(st: SpeciesState, rejuvenated: bool): SpeciesState {
    if rejuvenated then SpeciesState(st.members, Tally(st.tally.lastBest, 0), 0, st.evaluations)
    else SpeciesState(st.members, Tally(st.tally.lastBest, st.tally.noImprovements + 1), st.generations + 1, st.evaluations)
  }

  /** The collection after aging: every species keeps its members, best
      fitness and evaluations; the one at best is back to zero generations
      and stagnation, every other one is a generation older and a generation
      more stagnant. */
  function AgedStates(sts: seq<SpeciesState>, best: nat): (r: seq<SpeciesState>)
    ensures |r| == |sts|
    ensures forall j | 0 <= j < |sts| :: r[j] == Older(sts[j], j == best)
    ensures forall j | 0 <= j < |sts| ::
      && r[j].members == sts[j].members && r[j].tally.lastBest == sts[j].tally.lastBest
      && r[j].evaluations == sts[j].evaluations
      && r[j].generations == (if j == best then 0 else sts[j].generations + 1)
      && r[j].tally.noImprovements == (if j == best then 0 else sts[j].tally.noImprovements + 1)
  {
    seq(|sts|, j requires 0 <= j < |sts| => Older(sts[j], j == best))
  }

  /** The aging loop of `update`: every species a generation older and one
      more generation without improvement (no species is rejuvenated). */
  method AgeEach(ss: seq<Species>, ghost sts: seq<SpeciesState>)
    requires Distinct(ss) && sts == States(ss)
    modifies AgesOf(ss)
    ensures States(ss) == AgedStates(sts, |ss|)
  {
    var i := 0;
    while i < |ss|
      invariant i <= |ss|
      invariant forall j | 0 <= j < |ss| :: StateOf(ss[j]) == if j < i then Older(sts[j], false) else sts[j]
    {
      ss[i].IncreaseGenerations();
      ss[i].IncreaseNoImprovementsGenerations();
      i := i + 1;
    }
    StatesAre(ss, AgedStates(sts, |ss|));
  }

  /** The fitness-sharing loop of `adjust_fitness`: each species in order,
      told whether it sits at position best, until one fails. */
  method ShareEach(ss: seq<Species>, best: nat, conf: Conf, ghost sts: seq<SpeciesState>) returns (outcome: Outcome)
    requires Distinct(ss) && AllNonEmpty(ss) && sts == States(ss)
    modifies ss, AgesOf(ss)
    ensures outcome == SharingOutcome(sts)
    ensures States(ss) == SharedStates(sts, best, conf)
  {
    assert forall j | 0 <= j < |ss| :: |sts[j].members| > 0;
    var i := 0;
    while i < |ss|
      invariant i <= |ss| && i <= FirstInvalid(sts)
      invariant forall j | 0 <= j < |ss| :: |sts[j].members| > 0
      invariant forall j | 0 <= j < |ss| :: StateOf(ss[j]) == if j < i then SharedStates(sts, best, conf)[j] else sts[j]
    {
      outcome := ShareOne(ss, i, best, conf, sts);
      if outcome.Fail? {
        return;
      }
      i := i + 1;
    }
    outcome := Pass;
    StatesAre(ss, SharedStates(sts, best, conf));
  }

  /** One step of the fitness-sharing loop: species i runs its pass; when
      it fails, the collection-wide pass is complete. */
  method ShareOne(ss: seq<Species>, i: nat, best: nat, conf: Conf, ghost sts: seq<SpeciesState>) returns (outcome: Outcome)
    requires Distinct(ss) && |sts| == |ss| && i < |ss| && i <= FirstInvalid(sts) && |sts[i].members| > 0
    requires forall j | 0 <= j < |ss| :: StateOf(ss[j]) == if j < i then SharedStates(sts, best, conf)[j] else sts[j]
    modifies ss[i], ss[i].age
    ensures outcome.Pass? ==> i + 1 <= FirstInvalid(sts)
    ensures forall j | 0 <= j < |ss| :: StateOf(ss[j]) == if j < i + 1 then SharedStates(sts, best, conf)[j] else sts[j]
    ensures outcome.Fail? ==> outcome == SharingOutcome(sts) && States(ss) == SharedStates(sts, best, conf)
  {
    ghost var target := SharedStates(sts, best, conf);
    var sp := ss[i];
    outcome := AdjustSpecies(sp, i == best, conf, sts[i]);
    SharedStep(sts, i, best, conf, outcome);
    forall j | 0 <= j < |ss| && j != i ensures StateOf(ss[j]) == old(StateOf(ss[j])) {
      assert ss[j] != sp && ss[j].age != sp.age;
    }
    if outcome.Fail? {
      StatesAre(ss, target);
    }
  }

  /** The rejuvenation step of `update`: after every species has aged, the
      species at position b gets its generation counts reset. */
  method Rejuvenate(ss: seq<Species>, b: nat, ghost sts: seq<SpeciesState>)
    requires Distinct(ss) && b < |ss| && |sts| == |ss| && States(ss) == AgedStates(sts, |ss|)
    modifies ss[b].age
    ensures States(ss) == AgedStates(sts, b)
  {
    ghost var older := States(ss);
    ss[b].ResetAge();
    forall j | 0 <= j < |ss| ensures StateOf(ss[j]) == AgedStates(sts, b)[j] {
      if j != b {
        assert ss[j].age != ss[b].age;
        assert StateOf(ss[j]) == older[j];
      }
    }
    StatesAre(ss, AgedStates(sts, b));
  }

  class SpeciesCollection {
    var collection: seq<Species>
    /** Position of the best species; meaningful while the cache is fresh.
        The value |collection| stands for the end position. */
    var best: nat
    var cacheNeedsUpdating: bool

    ghost predicate Valid()
      reads this
    {
      Distinct(collection)
    }

    constructor ()
      ensures collection == [] && cacheNeedsUpdating && Valid()
    {
      collection := [];
      best := 0;
      cacheNeedsUpdating := true;
    }

    /** The number of species. Once every species has a member, there are
        no more species than individuals. */
    function Size(): (n: nat)
      reads this, collection
      ensures n == |Clusters(collection)|
      ensures AllNonEmpty(collection) ==> n <= CountIndividuals()
    {
      MemberCountOfNonEmpty(Clusters(collection));
      |collection|
    }

    /** The number of individuals over all species. */
    function CountIndividuals(): (n: nat)
      reads this, collection
      ensures n == |Pool(Clusters(collection))|
    {
      MemberCountIsPoolSize(Clusters(collection));
      MemberCount(Clusters(collection))
    }

    /** Appends a new species founded by x. */
    method CreateSpecies(x: Individual, speciesId: nat)
      requires Valid()
      modifies this
      ensures Valid()
      ensures |collection| == |old(collection)| + 1 && collection[..|old(collection)|] == old(collection)
      ensures var s := collection[|old(collection)|];
        && fresh(s) && fresh(s.age)
        && s.members == [Member(None, x)] && s.id == speciesId && s.lastBestFitness == 0.0
        && s.age.generations == 0 && s.age.evaluations == 0 && s.age.noImprovements == 0
      ensures cacheNeedsUpdating && best == old(best)
    {
      var s := new Species.Singleton(x, speciesId);
      collection := collection + [s];
      cacheNeedsUpdating := true;
    }

    /** Moves a species in at the end. */
    method AddSpecies(s: Species)
      requires Valid() && s !in collection && s.age !in AgesOf(collection)
      modifies this
      ensures Valid()
      ensures collection == old(collection) + [s]
      ensures cacheNeedsUpdating && best == old(best)
    {
      collection := collection + [s];
      cacheNeedsUpdating := true;
    }

    /** Replaces the members of species i; nothing else changes. */
    method SetIndividuals(i: nat, xs: seq<Individual>)
      requires Valid() && i < |collection|
      modifies this, collection[i]
      ensures collection == old(collection) && Valid()
      ensures Clusters(collection) == old(Clusters(collection))[i := Cluster(collection[i].id, Unadjusted(xs))]
      ensures collection[i].lastBestFitness == old(collection[i].lastBestFitness)
      ensures cacheNeedsUpdating && best == old(best)
    {
      collection[i].SetIndividuals(xs);
      cacheNeedsUpdating := true;
    }

    /** Removes the empty species, keeping the order of the others. The
        cache is left as it was. */
    method Cleanup()
      requires Valid()
      modifies this
      ensures collection == NonEmpty(old(collection)) && Valid()
      ensures Clusters(collection) == Survivors(old(Clusters(collection)))
      ensures States(collection) == NonEmptyStates(old(States(collection)))
      ensures best == old(best) && cacheNeedsUpdating == old(cacheNeedsUpdating)
    {
      var ss := collection;
      var kept: seq<Species> := [];
      var i := 0;
      while i < |ss|
        invariant i <= |ss|
        invariant kept == NonEmpty(ss[..i])
      {
        assert ss[..i + 1][..i] == ss[..i];
        if |ss[i].members| > 0 {
          kept := kept + [ss[i]];
        }
        i := i + 1;
      }
      assert ss[..i] == ss;
      NonEmptyDistinct(ss);
      ClustersOfNonEmpty(ss);
      StatesOfNonEmpty(ss);
      collection := kept;
    }

    /** Removes every species. The cache is left as it was. */
    method Clear()
      modifies this
      ensures collection == [] && Valid()
      ensures best == old(best) && cacheNeedsUpdating == old(cacheNeedsUpdating)
    {
      collection := [];
    }

    /** Runs the fitness-sharing pass of every species in order, telling
        each whether it sits at the cached best position (the cache is not
        refreshed first). Stops at the first species that fails. */
    method AdjustFitness(conf: Conf) returns (outcome: Outcome)
      requires Valid() && AllNonEmpty(collection)
      modifies collection, AgesOf(collection)
      ensures collection == old(collection) && best == old(best) && cacheNeedsUpdating == old(cacheNeedsUpdating)
      ensures outcome == SharingOutcome(old(States(collection)))
      ensures States(collection) == SharedStates(old(States(collection)), best, conf)
    {
      outcome := ShareEach(collection, best, conf, States(collection));
    }

    /** The position `_update_cache` stores: the first species whose best
        member is not beaten by any other species' best member. */
    method UpdateCache()
      requires |collection| > 0 && BestComparable(collection)
      modifies this
      ensures collection == old(collection) && !cacheNeedsUpdating
      ensures best == FirstMaxIndex(old(BestScores(collection))) && best < |collection|
    {
      best := FirstMaxIndex(BestScores(collection));
      cacheNeedsUpdating := false;
    }

    /** The best species' position, refreshing the cache when it is stale. */
    method GetBest() returns (b: nat)
      requires |collection| > 0
      requires cacheNeedsUpdating ==> BestComparable(collection)
      modifies this
      ensures collection == old(collection) && !cacheNeedsUpdating && b == best
      ensures old(cacheNeedsUpdating) ==> b == FirstMaxIndex(old(BestScores(collection))) && b < |collection|
      ensures !old(cacheNeedsUpdating) ==> b == old(best)
    {
      if cacheNeedsUpdating {
        UpdateCache();
      }
      b := best;
    }

    /** Ages every species by one generation and one generation without
        improvement, then rejuvenates the species that was best before. */
    method Update()
      requires Valid() && |collection| > 0
      requires cacheNeedsUpdating ==> BestComparable(collection)
      modifies this, AgesOf(collection)
      ensures collection == old(collection) && !cacheNeedsUpdating
      ensures old(cacheNeedsUpdating) ==> best == FirstMaxIndex(old(BestScores(collection)))
      ensures !old(cacheNeedsUpdating) ==> best == old(best)
      ensures States(collection) == AgedStates(old(States(collection)), best)
    {
      var ss := collection;
      ghost var sts := States(ss);
      assert Distinct(ss);
      var oldBest := GetBest();
      assert States(ss) == sts;
      AgeEach(ss, sts);
      if oldBest < |ss| {
        Rejuvenate(ss, oldBest, sts);
      } else {
        assert AgedStates(sts, best) == AgedStates(sts, |ss|);
      }
    }

    /** `get_worst` as written: the running minimum starts at negative
        infinity and only a strictly smaller fitness replaces it. A species
        with a fitness is never smaller, so the scan either stops at the
        assertion on the first eligible species without any fitness, or
        returns the end position, even when eligible species exist. */
    method GetWorstAsWritten(minimalSize: nat, excluded: set<nat>) returns (r: Result<nat>)
      requires |collection| > 0
      ensures var cs := Clusters(collection);
        var scores := BestScores(collection);
        && (r.Ok? <==> forall j | 0 <= j < |cs| && EligibleCluster(cs[j], minimalSize, excluded) :: scores[j] != Absent)
        && (r.Ok? ==> r.value == |cs|)
        && (r.Err? ==>
              && r.error.MissingFitness? && r.error.index < |cs|
              && EligibleCluster(cs[r.error.index], minimalSize, excluded) && scores[r.error.index] == Absent
              && forall j | 0 <= j < r.error.index && EligibleCluster(cs[j], minimalSize, excluded) :: scores[j] != Absent)
    {
      var cs := Clusters(collection);
      var scores := BestScores(collection);
      var worstFitness := NegInfinity;
      var w := |cs|;
      var i := 0;
      while i < |cs|
        invariant i <= |cs| && w == |cs| && worstFitness == NegInfinity
        invariant forall j | 0 <= j < i && EligibleCluster(cs[j], minimalSize, excluded) :: scores[j] != Absent
      {
        var f := scores[i];
        if EligibleCluster(cs[i], minimalSize, excluded) && ScoreLess(f, worstFitness) {
          if f.Absent? {
            return Err(MissingFitness(i));
          }
          worstFitness := f;
          w := i;
        }
        i := i + 1;
      }
      r := Ok(w);
    }

    /** `get_worst` as intended: the first eligible species whose best
        fitness no other eligible species undercuts, or the end position
        when no species is eligible. */
    method GetWorst(minimalSize: nat, excluded: set<nat>) returns (w: nat)
      requires |collection| > 0
      ensures w == WorstIndex(Clusters(collection), BestScores(collection), minimalSize, excluded)
    {
      w := FindWorst(Clusters(collection), BestScores(collection), minimalSize, excluded);
    }
  }

  /** The scan of `get_worst` over the species' values and best fitnesses. */
  method FindWorst(cs: seq<Cluster>, scores: seq<Score>, minimalSize: nat, excluded: set<nat>) returns (w: nat)
    requires |scores| == |cs|
    ensures IsWorst(cs, scores, minimalSize, excluded, w)
    ensures w == WorstIndex(cs, scores, minimalSize, excluded)
  {
    var worstFitness := NegInfinity;
    w := |cs|;
    var i := 0;
    while i < |cs|
      invariant i <= |cs| && (w == |cs| || w < i)
      invariant w == |cs| <==> forall j | 0 <= j < i :: !EligibleCluster(cs[j], minimalSize, excluded)
      invariant w < |cs| ==> EligibleCluster(cs[w], minimalSize, excluded) && worstFitness == scores[w]
      invariant w < |cs| ==> forall j | 0 <= j < i && EligibleCluster(cs[j], minimalSize, excluded) ::
        !ScoreLess(scores[j], scores[w])
      invariant w < |cs| ==> forall j | 0 <= j < w && EligibleCluster(cs[j], minimalSize, excluded) ::
        ScoreLess(scores[w], scores[j])
    {
      if EligibleCluster(cs[i], minimalSize, excluded) {
        var f := scores[i];
        if w == |cs| || ScoreLess(f, worstFitness) {
          if w < |cs| {
            forall j | 0 <= j < i && EligibleCluster(cs[j], minimalSize, excluded)
              ensures ScoreLess(f, scores[j])
            {
              ScoreLessTotal(scores[j], scores[w]);
              if scores[j] != scores[w] {
                ScoreLessTransitive(f, scores[w], scores[j]);
              }
            }
          }
          worstFitness := f;
          w := i;
        } else {
          ScoreLessTotal(f, worstFitness);
        }
      }
      i := i + 1;
    }
    IsWorstUnique(cs, scores, minimalSize, excluded, w, WorstIndex(cs, scores, minimalSize, excluded));
  }

  /** One species' fitness-sharing pass, stated on its value. */
  method AdjustSpecies(sp: Species, isBest: bool, conf: Conf, ghost before: SpeciesState) returns (outcome: Outcome)
    requires |sp.members| > 0 && StateOf(sp) == before
    modifies sp, sp.age
    ensures StateOf(sp) == SharedState(before, isBest, conf)
    ensures outcome == SharingOutcome([before])
  {
    outcome := sp.AdjustFitness(isBest, conf);
  }

  lemma StatesAre(ss: seq<Species>, sts: seq<SpeciesState>)
    requires |ss| == |sts| && forall j | 0 <= j < |ss| :: StateOf(ss[j]) == sts[j]
    ensures States(ss) == sts
  {
  }

  /** The pass of species i, reached because every earlier species passed,
      is the i-th step of the collection-wide pass. */
  lemma SharedStep(sts: seq<SpeciesState>, i: nat, best: nat, conf: Conf, o: Outcome)
    requires i < |sts| && i <= FirstInvalid(sts)
    requires o == SharingOutcome([sts[i]])
    ensures SharedStates(sts, best, conf)[i] == SharedState(sts[i], i == best, conf)
    ensures o.Pass? ==> i < FirstInvalid(sts)
    ensures o.Fail? ==> i == FirstInvalid(sts) && o == SharingOutcome(sts)
    ensures o.Fail? ==> forall j | i < j < |sts| :: SharedStates(sts, best, conf)[j] == sts[j]
  {
    SharedStatesAt(sts, best, conf);
  }

  /** The collection-wide fitness-sharing pass succeeds exactly when no
      member of any species has a negative fitness, and it only annotates
      members: every species keeps its individuals, in order. */
  lemma SharedStatesPassIffNoNegative(sts: seq<SpeciesState>, best: nat, conf: Conf)
    ensures SharingOutcome(sts) == Pass <==>
      forall j, i | 0 <= j < |sts| && 0 <= i < |sts[j].members| :: RawFitness(sts[j].members[i].individual) >= 0.0
    ensures forall j | 0 <= j < |sts| ::
      IndividualsOf(SharedStates(sts, best, conf)[j].members) == IndividualsOf(sts[j].members)
  {
    var k := FirstInvalid(sts);
    if k < |sts| {
      var i := FirstNegative(sts[k].members);
      assert RawFitness(sts[k].members[i].individual) < 0.0;
    }
    SharedStatesAt(sts, best, conf);
  }

  /** Cleanup keeps exactly the non-empty species. */
  lemma {:induction false} NonEmptyMembers(ss: seq<Species>)
    ensures forall s | s in NonEmpty(ss) :: s in ss && |s.members| > 0
    ensures forall s | s in ss && |s.members| > 0 :: s in NonEmpty(ss)
    ensures AllNonEmpty(NonEmpty(ss))
    decreases |ss|
  {
    if |ss| > 0 {
      NonEmptyMembers(ss[..|ss| - 1]);
      assert ss == ss[..|ss| - 1] + [ss[|ss| - 1]];
    }
    var r := NonEmpty(ss);
    assert forall i | 0 <= i < |r| :: r[i] in r;
  }

  lemma {:induction false} NonEmptyDistinct(ss: seq<Species>)
    requires Distinct(ss)
    ensures Distinct(NonEmpty(ss))
    decreases |ss|
  {
    if |ss| > 0 {
      var init := ss[..|ss| - 1];
      var last := ss[|ss| - 1];
      assert Distinct(init);
      NonEmptyDistinct(init);
      NonEmptyMembers(init);
      var ri := NonEmpty(init);
      if |last.members| > 0 {
        forall i | 0 <= i < |ri| ensures ri[i] != last && ri[i].age != last.age {
          assert ri[i] in ri;
          assert ri[i] in init;
          var k :| 0 <= k < |init| && init[k] == ri[i];
          assert ss[k] == ri[i];
        }
        assert NonEmpty(ss) == ri + [last];
      }
    }
  }

  /** The clusters of the species `cleanup` keeps are the surviving clusters. */
  lemma {:induction false} ClustersOfNonEmpty(ss: seq<Species>)
    ensures Clusters(NonEmpty(ss)) == Survivors(Clusters(ss))
    decreases |ss|
  {
    if |ss| > 0 {
      var n := |ss| - 1;
      ClustersOfNonEmpty(ss[..n]);
      assert Clusters(ss)[..n] == Clusters(ss[..n]);
      var ri := NonEmpty(ss[..n]);
      if |ss[n].members| > 0 {
        assert Clusters(ri + [ss[n]]) == Clusters(ri) + [Cluster(ss[n].id, ss[n].members)];
      }
    }
  }

  /** No individual is lost by cleanup. */
  lemma CleanupKeepsCount(ss: seq<Species>)
    ensures Pool(Clusters(NonEmpty(ss))) == Pool(Clusters(ss))
    ensures MemberCount(Clusters(NonEmpty(ss))) == MemberCount(Clusters(ss))
  {
    ClustersOfNonEmpty(ss);
    SurvivorsKeepMembers(Clusters(ss));
  }

  /** Once every species is non-empty, cleanup changes nothing. */
  lemma {:induction false} CleanupIdempotent(ss: seq<Species>)
    requires AllNonEmpty(ss)
    ensures NonEmpty(ss) == ss
    decreases |ss|
  {
    if |ss| > 0 {
      CleanupIdempotent(ss[..|ss| - 1]);
      assert ss == ss[..|ss| - 1] + [ss[|ss| - 1]];
    }
  }

  /** The species `cleanup` keeps are in the states they were in. */
  lemma {:induction false} StatesOfNonEmpty(ss: seq<Species>)
    ensures States(NonEmpty(ss)) == NonEmptyStates(States(ss))
    decreases |ss|
  {
    if |ss| > 0 {
      var n := |ss| - 1;
      StatesOfNonEmpty(ss[..n]);
      assert States(ss)[..n] == States(ss[..n]);
      var ri := NonEmpty(ss[..n]);
      if |ss[n].members| > 0 {
        assert States(ri + [ss[n]]) == States(ri) + [StateOf(ss[n])];
      }
    }
  }
}

/** The genus: the species of the current generation together with the id
    allocator, and the generation step built on them (speciation,
    offspring allocation, breeding, orphan adoption, population management
    and the final checks). */
module Genera {
  import opened Outcomes
  import opened Individuals
  import opened Configuration
  import opened SpeciesGroups
  import opened FirstFit
  import opened Allocation
  import opened Correction
  import opened SpeciesCollections
  import opened Generations

  /** First-fit placement of one individual into a collection: it joins the
      first species whose representative accepts it, or founds a species
      with id nextId, best fitness 0.0 and a new age. Returns the id the
      next founded species receives. */
  method PlaceIndividual(coll: SpeciesCollection, compat: (Individual, Individual) -> bool,
                         x: Individual, nextId: nat) returns (newId: nat)
    requires coll.Valid()
    modifies coll, coll.collection
    ensures coll.Valid()
    ensures Placement(Clusters(coll.collection), newId)
            == Place(compat, Placement(old(Clusters(coll.collection)), nextId), x)
    ensures States(coll.collection) == Settled(Clusters(coll.collection), old(States(coll.collection)))
    ensures |coll.collection| >= |old(coll.collection)|
    ensures coll.collection[..|old(coll.collection)|] == old(coll.collection)
    ensures forall j | |old(coll.collection)| <= j < |coll.collection| ::
      fresh(coll.collection[j]) && fresh(coll.collection[j].age)
    ensures coll.best == old(coll.best)
    ensures coll.cacheNeedsUpdating == (old(coll.cacheNeedsUpdating) || |coll.collection| > |old(coll.collection)|)
  {
    var ss := coll.collection;
    ghost var cs := Clusters(ss);
    ghost var sts := States(ss);
    var i := 0;
    while i < |ss|
      invariant i <= |ss|
      invariant forall j | 0 <= j < i :: !Accepts(compat, cs[j], x)
    {
      if ss[i].IsCompatible(compat, x) {
        assert FirstAccepting(compat, cs, x) == i;
        ss[i].Insert(x);
        forall j | 0 <= j < |ss| && j != i ensures ss[j].members == old(ss[j].members) {
          assert ss[j] != ss[i];
        }
        assert Clusters(ss) == cs[i := Cluster(cs[i].id, cs[i].members + [Member(None, x)])];
        forall j | 0 <= j < |ss| ensures StateOf(ss[j]) == Settled(Clusters(ss), sts)[j] {
          if j != i {
            assert ss[j] != ss[i];
          }
        }
        StatesAre(ss, Settled(Clusters(ss), sts));
        newId := nextId;
        return;
      }
      i := i + 1;
    }
    assert FirstAccepting(compat, cs, x) == |cs|;
    coll.CreateSpecies(x, nextId);
    assert Clusters(coll.collection) == cs + [Cluster(nextId, [Member(None, x)])];
    forall j | 0 <= j < |coll.collection| ensures StateOf(coll.collection[j]) == Settled(Clusters(coll.collection), sts)[j] {
      if j < |ss| {
        assert coll.collection[j] == ss[j];
      }
    }
    StatesAre(coll.collection, Settled(Clusters(coll.collection), sts));
    newId := nextId + 1;
  }

  /** One pass of the adoption loop: individual i is placed, and the
      collection stays the placement of the individuals so far, settled on
      the states sts0 the loop started from. */
  method AdoptOne(coll: SpeciesCollection, compat: (Individual, Individual) -> bool, xs: seq<Individual>, i: nat,
                  nextId: nat, ghost start: Placement, ghost sts0: seq<SpeciesState>) returns (newId: nat)
    requires coll.Valid() && i < |xs| && |sts0| <= |coll.collection|
    requires Placement(Clusters(coll.collection), nextId) == PlaceAll(compat, start, xs[..i])
    requires States(coll.collection) == Settled(Clusters(coll.collection), sts0)
    modifies coll, coll.collection
    ensures coll.Valid()
    ensures Placement(Clusters(coll.collection), newId) == PlaceAll(compat, start, xs[..i + 1])
    ensures States(coll.collection) == Settled(Clusters(coll.collection), sts0)
    ensures |coll.collection| >= |old(coll.collection)|
    ensures coll.collection[..|old(coll.collection)|] == old(coll.collection)
    ensures forall s | s in coll.collection && s !in old(coll.collection) :: fresh(s) && fresh(s.age)
    ensures coll.best == old(coll.best)
    ensures coll.cacheNeedsUpdating == (old(coll.cacheNeedsUpdating) || |coll.collection| > |old(coll.collection)|)
  {
    assert xs[..i + 1][..i] == xs[..i];
    ghost var prevClusters := Clusters(coll.collection);
    ghost var prev := coll.collection;
    newId := PlaceIndividual(coll, compat, xs[i], nextId);
    forall s | s in coll.collection && s !in prev ensures fresh(s) && fresh(s.age) {
      var j :| 0 <= j < |coll.collection| && coll.collection[j] == s;
    }
    SettledTwice(Clusters(coll.collection), prevClusters, sts0);
  }

  /** First-fit placement of a sequence of individuals, in order. */
  method AdoptAll(coll: SpeciesCollection, compat: (Individual, Individual) -> bool,
                  xs: seq<Individual>, nextId: nat) returns (newId: nat)
    requires coll.Valid()
    modifies coll, coll.collection
    ensures coll.Valid()
    ensures Placement(Clusters(coll.collection), newId)
            == PlaceAll(compat, Placement(old(Clusters(coll.collection)), nextId), xs)
    ensures States(coll.collection) == Settled(Clusters(coll.collection), old(States(coll.collection)))
    ensures |coll.collection| >= |old(coll.collection)|
    ensures forall s | s in coll.collection && s !in old(coll.collection) :: fresh(s) && fresh(s.age)
    ensures coll.best == old(coll.best)
    ensures coll.cacheNeedsUpdating == (old(coll.cacheNeedsUpdating) || |coll.collection| > |old(coll.collection)|)
  {
    ghost var start := Placement(Clusters(coll.collection), nextId);
    ghost var before := coll.collection;
    ghost var sts0 := States(coll.collection);
    assert States(coll.collection) == Settled(Clusters(coll.collection), sts0);
    newId := nextId;
    var i := 0;
    while i < |xs|
      invariant i <= |xs| && coll.Valid()
      invariant Placement(Clusters(coll.collection), newId) == PlaceAll(compat, start, xs[..i])
      invariant States(coll.collection) == Settled(Clusters(coll.collection), sts0)
      invariant |coll.collection| >= |before|
      invariant forall s | s in coll.collection && s !in before :: fresh(s) && fresh(s.age)
      invariant coll.best == old(coll.best)
      invariant coll.cacheNeedsUpdating == (old(coll.cacheNeedsUpdating) || |coll.collection| > |before|)
    {
      newId := AdoptOne(coll, compat, xs, i, newId, start, sts0);
      i := i + 1;
    }
    assert xs[..i] == xs;
  }

  /** The placement of `speciate` into an emptied collection: every
      individual is placed once, and the species it founds are new and
      non-empty, each with best fitness 0.0 and a new age. */
  method Populate(coll: SpeciesCollection, compat: (Individual, Individual) -> bool,
                  xs: seq<Individual>, firstId: nat) returns (newId: nat)
    requires coll.Valid() && coll.collection == [] && |xs| > 0
    modifies coll
    ensures coll.Valid()
    ensures Placement(Clusters(coll.collection), newId) == PlaceAll(compat, Placement([], firstId), xs)
    ensures Pool(Clusters(coll.collection)) == multiset(xs)
    ensures States(coll.collection) == Settled(Clusters(coll.collection), [])
    ensures AllNonEmpty(coll.collection)
    ensures forall s | s in coll.collection :: fresh(s) && fresh(s.age)
    ensures coll.best == old(coll.best) && coll.cacheNeedsUpdating
  {
    ghost var empty := Clusters(coll.collection);
    assert empty == [] && States(coll.collection) == [];
    newId := AdoptAll(coll, compat, xs, firstId);
    SpeciationPlacesAll(compat, firstId, xs);
  }

  /** The body of `speciate` on a collection: it is emptied, then every
      individual is placed first-fit with ids from firstId on. */
  method Respeciate(coll: SpeciesCollection, compat: (Individual, Individual) -> bool,
                    xs: seq<Individual>, firstId: nat) returns (newId: nat)
    requires coll.Valid() && |xs| > 0
    modifies coll
    ensures coll.Valid()
    ensures Placement(Clusters(coll.collection), newId) == PlaceAll(compat, Placement([], firstId), xs)
    ensures States(coll.collection) == Settled(Clusters(coll.collection), [])
    ensures coll.best == old(coll.best) && coll.cacheNeedsUpdating
  {
    coll.Clear();
    newId := Populate(coll, compat, xs, firstId);
  }

  /** The best position `get_best` reports: recomputed when the cache is
      stale, the cached one otherwise. */
  function BestPosition(stale: bool, cached: nat, scores: seq<Score>): (r: nat)
    ensures !stale || |scores| == 0 ==> r == cached
    ensures stale && |scores| > 0 ==> r < |scores| && forall j | 0 <= j < |scores| :: !ScoreLess(scores[r], scores[j])
  {
    if stale && |scores| > 0 then FirstMaxIndex(scores) else cached
  }

  /** What breeding hands to the next step: the children no species kept,
      the cloned species with the children they kept, every child (to be
      evaluated) and each old species' individuals. */
  datatype GenusSeed = GenusSeed(orphans: seq<Individual>, newSpecies: SpeciesCollection,
                                 needEvaluation: seq<Individual>, oldSpeciesIndividuals: seq<seq<Individual>>)

  /** The inner loop of `generate_new_individuals`: species sp breeds count
      children, the first with draw number draw, and sorts each into kept
      (its representative accepts it) or rejected. */
  method BreedSpecies(sp: Species, count: nat, draw: int, crossover: bool, st: Strategies,
                      compat: (Individual, Individual) -> bool)
    returns (kept: seq<Individual>, rejected: seq<Individual>, bred: seq<Individual>)
    requires |sp.members| > 0 && SelectsFromPool(st)
    ensures var c := Cluster(sp.id, sp.members);
      && bred == Children(c, count, draw, crossover, st)
      && kept == Kept(c, compat, bred) && rejected == Rejected(c, compat, bred)
  {
    ghost var c := Cluster(sp.id, sp.members);
    kept, rejected, bred := [], [], [];
    var k := 0;
    while k < count
      invariant k <= count
      invariant bred == Children(c, k, draw, crossover, st)
      invariant kept == Kept(c, compat, bred) && rejected == Rejected(c, compat, bred)
    {
      var child := NewIndividual(crossover, IndividualsOf(sp.members), st, draw + k);
      KeptRejectedStep(c, compat, bred, child);
      if sp.IsCompatible(compat, child) {
        kept := kept + [child];
      } else {
        rejected := rejected + [child];
      }
      bred := bred + [child];
      k := k + 1;
    }
  }

  /** The species as they are cloned: each state with the members replaced. */
  function WithMembers(sts: seq<SpeciesState>, xss: seq<seq<Individual>>): (r: seq<SpeciesState>)
    requires |xss| == |sts|
    ensures |r| == |sts| && forall j | 0 <= j < |sts| :: r[j] == sts[j].(members := Unadjusted(xss[j]))
  {
    seq(|sts|, j requires 0 <= j < |sts| && |xss| == |sts| => sts[j].(members := Unadjusted(xss[j])))
  }

  lemma PrefixStep<T>(s: seq<T>, n: nat)
    requires 0 < n <= |s|
    ensures s[..n] == s[..n - 1] + [s[n - 1]] && s[..n][..n - 1] == s[..n - 1]
  {
  }

  /** The draw numbers run on: the species after species i starts after its amount. */
  lemma DrawnStep(amounts: seq<nat>, i: nat)
    requires i < |amounts|
    ensures Sum(amounts[..i + 1]) == Sum(amounts[..i]) + amounts[i]
  {
    PrefixStep(amounts, i + 1);
  }

  lemma WholeSlice<T>(s: seq<T>)
    ensures s[..|s|] == s
  {
  }

  /** What breeding the first n species yields, species by species, given
      the children each breeds: the clones with their kept children, their
      states, the orphans and every child bred. */
  datatype Brood = Brood(clones: seq<Cluster>, states: seq<SpeciesState>, orphans: seq<Individual>,
                         bred: seq<Individual>, previous: seq<seq<Individual>>)

  function BroodUpTo(cs: seq<Cluster>, sts: seq<SpeciesState>, children: seq<seq<Individual>>,
                     compat: (Individual, Individual) -> bool, n: nat): (b: Brood)
    requires n <= |cs| && |sts| == |cs| && |children| == |cs|
    ensures |b.clones| == n && |b.states| == n
  {
    if n == 0 then Brood([], [], [], [], [])
    else
      var b := BroodUpTo(cs, sts, children, compat, n - 1);
      var kept := Kept(cs[n - 1], compat, children[n - 1]);
      Brood(b.clones + [Cluster(cs[n - 1].id, Unadjusted(kept))],
            b.states + [sts[n - 1].(members := Unadjusted(kept))],
            b.orphans + Rejected(cs[n - 1], compat, children[n - 1]),
            b.bred + children[n - 1], b.previous + [IndividualsOf(cs[n - 1].members)])
  }

  /** The collection and sequences built so far hold exactly brood b. */
  ghost predicate Gathered(newSpecies: SpeciesCollection, orphans: seq<Individual>, needEvaluation: seq<Individual>,
                           previous: seq<seq<Individual>>, b: Brood)
    reads newSpecies, newSpecies.collection, AgesOf(newSpecies.collection)
  {
    && newSpecies.Valid() && newSpecies.cacheNeedsUpdating
    && Clusters(newSpecies.collection) == b.clones && States(newSpecies.collection) == b.states
    && orphans == b.orphans && needEvaluation == b.bred && previous == b.previous
  }

  /** The species-by-species brood is the whole-generation breeding. */
  lemma {:induction false} BroodIsBreeding(cs: seq<Cluster>, sts: seq<SpeciesState>, children: seq<seq<Individual>>,
                                           compat: (Individual, Individual) -> bool, n: nat)
    requires n <= |cs| && |sts| == |cs| && |children| == |cs|
    ensures var kept := KeptAll(cs, children, compat);
      var b := BroodUpTo(cs, sts, children, compat, n);
      && b.clones == Clones(cs, kept)[..n]
      && b.states == WithMembers(sts, kept)[..n]
      && b.orphans == Concat(RejectedAll(cs, children, compat)[..n])
      && b.bred == Concat(children[..n])
      && b.previous == PreviousGenerations(cs)[..n]
  {
    var kept := KeptAll(cs, children, compat);
    var rejected := RejectedAll(cs, children, compat);
    if n > 0 {
      BroodIsBreeding(cs, sts, children, compat, n - 1);
      PrefixStep(children, n);
      PrefixStep(rejected, n);
      PrefixStep(Clones(cs, kept), n);
      PrefixStep(WithMembers(sts, kept), n);
      PrefixStep(PreviousGenerations(cs), n);
    }
  }

  /** The brood of all the species is the breeding `Bred` states. */
  lemma BroodIsBred(cs: seq<Cluster>, sts: seq<SpeciesState>, children: seq<seq<Individual>>,
                    compat: (Individual, Individual) -> bool)
    requires |sts| == |cs| && |children| == |cs|
    ensures var kept := KeptAll(cs, children, compat);
      var b := BroodUpTo(cs, sts, children, compat, |cs|);
      && b.clones == Clones(cs, kept)
      && b.states == WithMembers(sts, kept)
      && b.orphans == Concat(RejectedAll(cs, children, compat))
      && b.bred == Concat(children)
      && b.previous == PreviousGenerations(cs)
  {
    var kept := KeptAll(cs, children, compat);
    BroodIsBreeding(cs, sts, children, compat, |cs|);
    WholeSlice(Clones(cs, kept));
    WholeSlice(WithMembers(sts, kept));
    WholeSlice(RejectedAll(cs, children, compat));
    WholeSlice(children);
    WholeSlice(PreviousGenerations(cs));
  }

  /** One pass of the loop of `generate_new_individuals`: species sp, the
      i-th, records its individuals, breeds, and its clone with the kept
      children joins the new collection; the rejected children join the
      orphans. What the pass appends is the i-th step of the brood. */
  method BreedOne(newSpecies: SpeciesCollection, sp: Species, count: nat, draw: int, crossover: bool,
                  st: Strategies, compat: (Individual, Individual) -> bool,
                  orphans: seq<Individual>, needEvaluation: seq<Individual>, previous: seq<seq<Individual>>,
                  ghost cs: seq<Cluster>, ghost sts: seq<SpeciesState>, ghost children: seq<seq<Individual>>,
                  ghost i: nat)
    returns (orphansAfter: seq<Individual>, needEvaluationAfter: seq<Individual>,
             previousAfter: seq<seq<Individual>>)
    requires |sp.members| > 0 && SelectsFromPool(st)
    requires i < |cs| && |sts| == |cs| && |children| == |cs|
    requires cs[i] == Cluster(sp.id, sp.members) && sts[i] == StateOf(sp)
    requires children[i] == Children(cs[i], count, draw, crossover, st)
    requires Gathered(newSpecies, orphans, needEvaluation, previous, BroodUpTo(cs, sts, children, compat, i))
    modifies newSpecies
    ensures Gathered(newSpecies, orphansAfter, needEvaluationAfter, previousAfter,
                     BroodUpTo(cs, sts, children, compat, i + 1))
    ensures forall s | s in newSpecies.collection && s !in old(newSpecies.collection) :: fresh(s) && fresh(s.age)
  {
    var kept, rejected, bred := BreedSpecies(sp, count, draw, crossover, st, compat);
    var clone := sp.CloneWithNewIndividuals(kept);
    ghost var prev := newSpecies.collection;
    newSpecies.AddSpecies(clone);
    assert newSpecies.collection == prev + [clone];
    orphansAfter := orphans + rejected;
    needEvaluationAfter := needEvaluation + bred;
    previousAfter := previous + [IndividualsOf(sp.members)];
  }

  /** The loop of `generate_new_individuals` over the species: each
      species records its individuals as the previous generation, breeds
      its amount of children (draws numbered on across species) and is
      cloned with the children it keeps; the rest become orphans. */
  method BreedEach(ss: seq<Species>, amounts: seq<nat>, crossover: bool, st: Strategies,
                   compat: (Individual, Individual) -> bool, ghost cs: seq<Cluster>, ghost sts: seq<SpeciesState>,
                   ghost children: seq<seq<Individual>>)
    returns (seed: GenusSeed)
    requires |amounts| == |ss| && AllNonEmpty(ss) && SelectsFromPool(st)
    requires cs == Clusters(ss) && sts == States(ss) && |children| == |ss|
    requires forall j | 0 <= j < |ss| :: children[j] == Children(cs[j], amounts[j], Sum(amounts[..j]), crossover, st)
    ensures |cs| == |ss| && |sts| == |ss|
    ensures fresh(seed.newSpecies)
    ensures forall s | s in seed.newSpecies.collection :: fresh(s) && fresh(s.age)
    ensures Gathered(seed.newSpecies, seed.orphans, seed.needEvaluation, seed.oldSpeciesIndividuals,
                     BroodUpTo(cs, sts, children, compat, |ss|))
  {
    var newSpecies := new SpeciesCollection();
    var orphans: seq<Individual> := [];
    var needEvaluation: seq<Individual> := [];
    var previous: seq<seq<Individual>> := [];
    var drawn := 0;
    var i := 0;
    while i < |ss|
      invariant i <= |ss|
      invariant fresh(newSpecies)
      invariant forall s | s in newSpecies.collection :: fresh(s) && fresh(s.age)
      invariant Gathered(newSpecies, orphans, needEvaluation, previous, BroodUpTo(cs, sts, children, compat, i))
      invariant drawn == Sum(amounts[..i])
    {
      orphans, needEvaluation, previous :=
        BreedOne(newSpecies, ss[i], amounts[i], drawn, crossover, st, compat,
                 orphans, needEvaluation, previous, cs, sts, children, i);
      DrawnStep(amounts, i);
      drawn := drawn + amounts[i];
      i := i + 1;
    }
    seed := GenusSeed(orphans, newSpecies, needEvaluation, previous);
  }

  /** What breeding species cs (in states sts) with the given amounts
      hands on: the new species are clones of the old ones, in order, with
      the children they accept and the age and best fitness they had; the
      orphans are the rest, every child bred awaits evaluation, and each old
      species' individuals are kept apart. */
  ghost predicate Bred(seed: GenusSeed, cs: seq<Cluster>, sts: seq<SpeciesState>, amounts: seq<nat>,
                       crossover: bool, st: Strategies, compat: (Individual, Individual) -> bool)
    reads seed.newSpecies, seed.newSpecies.collection, AgesOf(seed.newSpecies.collection)
  {
    && |amounts| == |cs| && |sts| == |cs| && SelectsFromPool(st)
    && (forall j | 0 <= j < |cs| :: |cs[j].members| > 0)
    && var children := AllChildren(cs, amounts, crossover, st);
    var kept := KeptAll(cs, children, compat);
    && seed.newSpecies.Valid() && seed.newSpecies.cacheNeedsUpdating
    && Clusters(seed.newSpecies.collection) == Clones(cs, kept)
    && States(seed.newSpecies.collection) == WithMembers(sts, kept)
    && seed.orphans == Concat(RejectedAll(cs, children, compat))
    && seed.needEvaluation == Concat(children)
    && seed.oldSpeciesIndividuals == PreviousGenerations(cs)
  }

  /** `generate_new_individuals` once the amounts are known: the new
      species are clones of the old ones, in order, with the children
      they accept; the orphans are the rest, every child bred awaits
      evaluation, and each old species' individuals are kept apart. */
  method BreedAll(ss: seq<Species>, amounts: seq<nat>, crossover: bool, st: Strategies,
                  compat: (Individual, Individual) -> bool) returns (seed: GenusSeed)
    requires |amounts| == |ss| && AllNonEmpty(ss) && SelectsFromPool(st)
    ensures fresh(seed.newSpecies) && Bred(seed, old(Clusters(ss)), old(States(ss)), amounts, crossover, st, compat)
    ensures forall s | s in seed.newSpecies.collection :: fresh(s) && fresh(s.age)
  {
    ghost var cs := Clusters(ss);
    ghost var sts := States(ss);
    ghost var children := AllChildren(cs, amounts, crossover, st);
    seed := BreedEach(ss, amounts, crossover, st, compat, cs, sts, children);
    BroodIsBred(cs, sts, children, compat);
  }

  /** Population management in `next_generation`, with the guard stopping
      at the first species that has no previous generation: species j below
      |olds| gets what manage returns for its current individuals, its
      previous generation and its amount; the species after it (founded by
      orphans) keep their individuals. Only members change: every species
      keeps its best fitness and age counters. */
  method ManagePopulations(coll: SpeciesCollection, olds: seq<seq<Individual>>, amounts: seq<nat>,
                           manage: (seq<Individual>, seq<Individual>, nat) -> seq<Individual>)
    requires coll.Valid() && |amounts| == |olds|
    modifies coll.collection
    ensures Clusters(coll.collection) == Managed(old(Clusters(coll.collection)), olds, amounts, manage)
    ensures States(coll.collection) == Settled(Clusters(coll.collection), old(States(coll.collection)))
  {
    ghost var cs := Clusters(coll.collection);
    ghost var sts := States(coll.collection);
    ghost var m := Managed(cs, olds, amounts, manage);
    var ss := coll.collection;
    var i := 0;
    while i < |ss|
      invariant i <= |ss|
      invariant forall j | 0 <= j < i :: ss[j].members == m[j].members
      invariant forall j | i <= j < |ss| :: ss[j].members == cs[j].members
      invariant forall j | 0 <= j < |ss| :: ss[j].lastBestFitness == sts[j].tally.lastBest
    {
      if i >= |olds| {
        break;
      }
      var xs := manage(IndividualsOf(ss[i].members), olds[i], amounts[i]);
      label before:
      ss[i].SetIndividuals(xs);
      forall j | 0 <= j < |ss| && j != i
        ensures ss[j].members == old@before(ss[j].members) && ss[j].lastBestFitness == old@before(ss[j].lastBestFitness)
      {
        assert ss[j] != ss[i];
      }
      i := i + 1;
    }
    assert forall j | i <= j < |ss| :: m[j] == cs[j];
    assert Clusters(ss) == m;
    StatesAre(ss, Settled(m, sts));
  }

  /** The same loop with the guard as `next_generation` writes it,
      `species_i > species_collection.size()`: the species at position
      |olds|, the first one an orphan founded, is not stopped, and its
      previous generation and amount are read past their end. */
  method ManagePopulationsAsWritten(coll: SpeciesCollection, olds: seq<seq<Individual>>, amounts: seq<nat>,
                                    manage: (seq<Individual>, seq<Individual>, nat) -> seq<Individual>)
    returns (outcome: Outcome)
    requires coll.Valid() && |amounts| == |olds|
    modifies coll.collection
    ensures outcome == if |coll.collection| > |olds| then Fail(SpeciesIndexOutOfRange(|olds|)) else Pass
    ensures Clusters(coll.collection) == Managed(old(Clusters(coll.collection)), olds, amounts, manage)
    ensures States(coll.collection) == Settled(Clusters(coll.collection), old(States(coll.collection)))
  {
    ghost var cs := Clusters(coll.collection);
    ghost var sts := States(coll.collection);
    ghost var m := Managed(cs, olds, amounts, manage);
    var ss := coll.collection;
    var i := 0;
    while i < |ss|
      invariant i <= |ss| && i <= |olds|
      invariant forall j | 0 <= j < i :: ss[j].members == m[j].members
      invariant forall j | i <= j < |ss| :: ss[j].members == cs[j].members
      invariant forall j | 0 <= j < |ss| :: ss[j].lastBestFitness == sts[j].tally.lastBest
    {
      if i > |olds| {
        break;
      }
      if i == |olds| {
        // old_species_individuals[i] and offspring_amounts[i] do not exist
        assert forall j | i <= j < |ss| :: m[j] == cs[j];
        assert Clusters(ss) == m;
        StatesAre(ss, Settled(m, sts));
        return Fail(SpeciesIndexOutOfRange(i));
      }
      var xs := manage(IndividualsOf(ss[i].members), olds[i], amounts[i]);
      label before:
      ss[i].SetIndividuals(xs);
      forall j | 0 <= j < |ss| && j != i
        ensures ss[j].members == old@before(ss[j].members) && ss[j].lastBestFitness == old@before(ss[j].lastBestFitness)
      {
        assert ss[j] != ss[i];
      }
      i := i + 1;
    }
    assert Clusters(ss) == m;
    StatesAre(ss, Settled(m, sts));
    outcome := Pass;
  }

  /** The id check of `next_generation`: scanning the species in order,
      the first id met for the second time. */
  method FindDuplicateId(ids: seq<nat>) returns (d: Option<nat>)
    ensures d == FirstDuplicate(ids)
  {
    var seen: set<nat> := {};
    var i := 0;
    while i < |ids|
      invariant i <= |ids|
      invariant seen == set k | 0 <= k < i :: ids[k]
      invariant FirstDuplicate(ids[..i]).None?
    {
      assert ids[..i + 1][..i] == ids[..i];
      if ids[i] in seen {
        assert ids[i] in ids[..i];
        assert ids[..i + 1] == ids[..i] + [ids[i]];
        FirstDuplicatePrefix(ids, i + 1);
        return Some(ids[i]);
      }
      assert ids[i] !in ids[..i];
      seen := seen + {ids[i]};
      i := i + 1;
    }
    assert ids[..i] == ids;
    d := None;
  }

  /** The checks that close `next_generation`: a species id present twice
      is an error; the empty species are dropped; a population that is not
      the target size is an error; otherwise a genus is built on the
      species with the given id counter. */
  method ConcludeGeneration(coll: SpeciesCollection, nextId: nat, total: nat) returns (r: Result<Genus>)
    requires coll.Valid()
    modifies coll
    ensures var m := old(Clusters(coll.collection));
      && (FirstDuplicate(Ids(m)).Some? ==> r == Err(DuplicateSpeciesId(FirstDuplicate(Ids(m)).value)))
      && (FirstDuplicate(Ids(m)).None? && MemberCount(Survivors(m)) != total ==>
            r == Err(PopulationSizeMismatch(MemberCount(Survivors(m)), total)))
      && (FirstDuplicate(Ids(m)).None? && MemberCount(Survivors(m)) == total ==>
            && r.Ok? && fresh(r.value) && r.value.Valid() && r.value.speciesCollection == coll
            && Clusters(coll.collection) == Survivors(m) && r.value.nextSpeciesId == nextId
            && States(coll.collection) == NonEmptyStates(old(States(coll.collection))))
  {
    ghost var m := Clusters(coll.collection);
    ghost var sts := States(coll.collection);
    var duplicate := FindDuplicateId(Ids(Clusters(coll.collection)));
    if duplicate.Some? {
      return Err(DuplicateSpeciesId(duplicate.value));
    }
    assert States(coll.collection) == sts;
    coll.Cleanup();
    ghost var kept := States(coll.collection);
    assert kept == NonEmptyStates(sts);
    var n := coll.CountIndividuals();
    MemberCountIsPoolSize(Survivors(m));
    if n != total {
      return Err(PopulationSizeMismatch(n, total));
    }
    var next := new Genus.FromCollection(coll, nextId);
    assert States(coll.collection) == kept;
    r := Ok(next);
  }

  /** The part of `next_generation` after the recount: population
      management with the given amounts, then the closing checks. */
  method ManageAndConclude(coll: SpeciesCollection, olds: seq<seq<Individual>>, amounts: seq<nat>,
                           manage: (seq<Individual>, seq<Individual>, nat) -> seq<Individual>,
                           nextId: nat, total: nat) returns (r: Result<Genus>)
    requires coll.Valid() && |amounts| == |olds|
    modifies coll, coll.collection
    ensures var m := Managed(old(Clusters(coll.collection)), olds, amounts, manage);
      && (FirstDuplicate(Ids(m)).Some? ==> r == Err(DuplicateSpeciesId(FirstDuplicate(Ids(m)).value)))
      && (FirstDuplicate(Ids(m)).None? && MemberCount(Survivors(m)) != total ==>
            r == Err(PopulationSizeMismatch(MemberCount(Survivors(m)), total)))
      && (FirstDuplicate(Ids(m)).None? && MemberCount(Survivors(m)) == total ==>
            && r.Ok? && fresh(r.value) && r.value.Valid() && r.value.speciesCollection == coll
            && Clusters(coll.collection) == Survivors(m) && r.value.nextSpeciesId == nextId
            && States(coll.collection) == NonEmptyStates(Settled(m, old(States(coll.collection)))))
  {
    ManagePopulations(coll, olds, amounts, manage);
    r := ConcludeGeneration(coll, nextId, total);
  }

  /** The rest of `next_generation` once the offspring amounts are known:
      the orphans are adopted into the new collection, then an error in the
      recount is passed on, or the populations are managed and checked. */
  method AdoptAndSettle(coll: SpeciesCollection, compat: (Individual, Individual) -> bool,
                        orphans: seq<Individual>, olds: seq<seq<Individual>>, counted: Result<seq<nat>>,
                        manage: (seq<Individual>, seq<Individual>, nat) -> seq<Individual>,
                        nextId: nat, total: nat, ghost others: seq<Species>) returns (r: Result<Genus>)
    requires coll.Valid() && (counted.Ok? ==> |counted.value| == |olds|)
    requires forall s | s in coll.collection :: s !in others
    modifies coll, coll.collection
    ensures States(others) == old(States(others))
    ensures var adopted := PlaceAll(compat, Placement(old(Clusters(coll.collection)), nextId), orphans);
      && (counted.Err? ==> r == Err(counted.error))
      && (counted.Ok? ==>
            var m := Managed(adopted.clusters, olds, counted.value, manage);
            && (FirstDuplicate(Ids(m)).Some? ==> r == Err(DuplicateSpeciesId(FirstDuplicate(Ids(m)).value)))
            && (FirstDuplicate(Ids(m)).None? && MemberCount(Survivors(m)) != total ==>
                  r == Err(PopulationSizeMismatch(MemberCount(Survivors(m)), total)))
            && (FirstDuplicate(Ids(m)).None? && MemberCount(Survivors(m)) == total ==>
                  && r.Ok? && fresh(r.value) && r.value.Valid() && r.value.speciesCollection == coll
                  && Clusters(coll.collection) == Survivors(m) && r.value.nextSpeciesId == adopted.nextId
                  && States(coll.collection) == NonEmptyStates(Settled(m, old(States(coll.collection))))))
  {
    ghost var start := Clusters(coll.collection);
    ghost var sts := States(coll.collection);
    ghost var untouched := States(others);
    var localNextId := AdoptAll(coll, compat, orphans, nextId);
    ghost var adopted := Clusters(coll.collection);
    assert Placement(adopted, localNextId) == PlaceAll(compat, Placement(start, nextId), orphans);
    if counted.Err? {
      r := Err(counted.error);
    } else {
      SettledTwice(Managed(adopted, olds, counted.value, manage), adopted, sts);
      r := ManageAndConclude(coll, olds, counted.value, manage, localNextId, total);
    }
    forall j | 0 <= j < |others| ensures StateOf(others[j]) == untouched[j] {
      assert others[j] !in old(coll.collection);
    }
    StatesAre(others, untouched);
  }

  class Genus {
    /** The id the next founded species receives. */
    var nextSpeciesId: nat
    const speciesCollection: SpeciesCollection

    ghost predicate Valid()
      reads this, speciesCollection
    {
      speciesCollection.Valid()
    }

    /** A new genus has no species and hands out id 1 first. */
    constructor ()
      ensures Valid() && fresh(speciesCollection)
      ensures nextSpeciesId == 1 && speciesCollection.collection == [] && speciesCollection.cacheNeedsUpdating
    {
      nextSpeciesId := 1;
      speciesCollection := new SpeciesCollection();
    }

    /** A genus taking over an existing collection. */
    constructor FromCollection(coll: SpeciesCollection, speciesId: nat)
      requires coll.Valid()
      ensures Valid() && speciesCollection == coll && nextSpeciesId == speciesId
    {
      nextSpeciesId := speciesId;
      speciesCollection := coll;
    }

    /** The number of species. */
    function Size(): (n: nat)
      reads this, speciesCollection, speciesCollection.collection
      ensures n == |Clusters(speciesCollection.collection)|
      ensures AllNonEmpty(speciesCollection.collection) ==> n <= CountIndividuals()
    {
      speciesCollection.Size()
    }

    /** The number of individuals over all species. */
    function CountIndividuals(): (n: nat)
      reads this, speciesCollection, speciesCollection.collection
      ensures n == |Pool(Clusters(speciesCollection.collection))|
    {
      speciesCollection.CountIndividuals()
    }

    /** `speciate`: the species are rebuilt from scratch by first-fit
        placement of the individuals, in order, with ids from the
        allocator; every species is founded afresh, with best fitness 0.0
        and a new age. `SpeciationPlacesAll` says what that placement holds. */
    method Speciate(xs: seq<Individual>, compat: (Individual, Individual) -> bool)
      requires Valid() && |xs| > 0
      modifies this, speciesCollection
      ensures Valid()
      ensures Placement(Clusters(speciesCollection.collection), nextSpeciesId)
              == PlaceAll(compat, Placement([], old(nextSpeciesId)), xs)
      ensures States(speciesCollection.collection) == Settled(Clusters(speciesCollection.collection), [])
      ensures speciesCollection.best == old(speciesCollection.best)
      ensures speciesCollection.cacheNeedsUpdating
    {
      var newId := Respeciate(speciesCollection, compat, xs, nextSpeciesId);
      nextSpeciesId := newId;
    }

    /** `update`: ages the species (rejuvenating the best one), then runs
        the fitness-sharing pass, which is told the best position the aging
        step left in the cache. */
    method Update(conf: Conf) returns (outcome: Outcome)
      requires Valid() && |speciesCollection.collection| > 0 && AllNonEmpty(speciesCollection.collection)
      modifies speciesCollection, speciesCollection.collection, AgesOf(speciesCollection.collection)
      ensures Valid() && speciesCollection.collection == old(speciesCollection.collection)
      ensures !speciesCollection.cacheNeedsUpdating
      ensures speciesCollection.best
              == BestPosition(old(speciesCollection.cacheNeedsUpdating), old(speciesCollection.best),
                              old(BestScores(speciesCollection.collection)))
      ensures var aged := AgedStates(old(States(speciesCollection.collection)), speciesCollection.best);
        && outcome == SharingOutcome(aged)
        && States(speciesCollection.collection) == SharedStates(aged, speciesCollection.best, conf)
    {
      speciesCollection.Update();
      ghost var aged := States(speciesCollection.collection);
      forall j | 0 <= j < |speciesCollection.collection| ensures |speciesCollection.collection[j].members| > 0 {
        assert aged[j].members == old(States(speciesCollection.collection))[j].members;
      }
      outcome := speciesCollection.AdjustFitness(conf);
    }

    /** One pass of the excess loop of `_correct_population_size`: the worst
        species not yet visited gives up as much of the excess as its amount
        holds and is then excluded. */
    method GiveUpWorst(current: seq<nat>, left: nat, excluded: set<nat>) returns (w: nat, next: seq<nat>, rest: nat)
      requires |current| == |speciesCollection.collection| > 0 && left > 0
      ensures var cs := Clusters(speciesCollection.collection);
        var scores := BestScores(speciesCollection.collection);
        && w == WorstIndex(cs, scores, 1, excluded)
        && |next| == |current|
        && (w < |cs| ==>
              && Trim(cs, scores, current, left, excluded) == Trim(cs, scores, next, rest, excluded + {cs[w].id})
              && EligibleCount(cs, excluded + {cs[w].id}) < EligibleCount(cs, excluded))
    {
      w := speciesCollection.GetWorst(1, excluded);
      ghost var cs := Clusters(speciesCollection.collection);
      ghost var scores := BestScores(speciesCollection.collection);
      next, rest := current, left;
      if w < |current| {
        EligibleCountShrinks(cs, excluded, w);
        var amount: nat := current[w];
        if amount > left {
          amount := amount - left;
          rest := 0;
        } else {
          rest := left - amount;
          amount := 0;
        }
        next := current[w := amount];
        TrimStep(cs, scores, current, left, excluded, w, next, rest);
      }
    }

    /** The excess branch of `_correct_population_size`: species give up
        their amounts, worst first, until nothing is left; running out of
        species is an error. */
    method TrimExcess(amounts: seq<nat>, excess: nat) returns (r: Result<seq<nat>>)
      requires |amounts| == |speciesCollection.collection| > 0
      ensures r == Trim(Clusters(speciesCollection.collection), BestScores(speciesCollection.collection), amounts, excess, {})
    {
      var cs := Clusters(speciesCollection.collection);
      ghost var scores := BestScores(speciesCollection.collection);
      var left: nat := excess;
      var excluded: set<nat> := {};
      var current: seq<nat> := amounts;
      while left > 0
        invariant |current| == |cs|
        invariant Trim(cs, scores, current, left, excluded) == Trim(cs, scores, amounts, excess, {})
        decreases EligibleCount(cs, excluded)
      {
        var w;
        w, current, left := GiveUpWorst(current, left, excluded);
        if w == |cs| {
          return Err(SpeciesIndexOutOfRange(w));
        }
        excluded := excluded + {cs[w].id};
      }
      r := Ok(current);
    }

    /** `_correct_population_size`: a deficit goes to the best species (the
        cache is refreshed first when stale); an excess is taken from the
        worst species, one after another, each excluded once visited. */
    method CorrectPopulationSize(amounts: seq<nat>, missing: int) returns (r: Result<seq<nat>>)
      requires |amounts| == |speciesCollection.collection|
      requires missing != 0 ==> |speciesCollection.collection| > 0
      requires missing > 0 && speciesCollection.cacheNeedsUpdating ==> BestComparable(speciesCollection.collection)
      modifies speciesCollection
      ensures speciesCollection.collection == old(speciesCollection.collection)
      ensures var cs := old(Clusters(speciesCollection.collection));
        var scores := old(BestScores(speciesCollection.collection));
        missing > 0 ==> r == Corrected(cs, scores, BestPosition(old(speciesCollection.cacheNeedsUpdating),
                                                                  old(speciesCollection.best), scores), amounts, missing)
      ensures missing <= 0 ==>
        r == Corrected(old(Clusters(speciesCollection.collection)), old(BestScores(speciesCollection.collection)),
                       0, amounts, missing)
      ensures missing > 0 ==>
        && !speciesCollection.cacheNeedsUpdating
        && speciesCollection.best == BestPosition(old(speciesCollection.cacheNeedsUpdating),
                                                  old(speciesCollection.best), old(BestScores(speciesCollection.collection)))
      ensures missing <= 0 ==> unchanged(speciesCollection)
    {
      ghost var cs := Clusters(speciesCollection.collection);
      ghost var scores := BestScores(speciesCollection.collection);
      if missing > 0 {
        r := AddToBest(amounts, missing);
      } else if missing < 0 {
        r := TrimExcess(amounts, -missing);
        assert Clusters(speciesCollection.collection) == cs;
        assert BestScores(speciesCollection.collection) == scores;
        assert r == Corrected(cs, scores, 0, amounts, missing);
      } else {
        r := Ok(amounts);
        assert r == Corrected(cs, scores, 0, amounts, missing);
      }
    }

    /** The deficit branch of `_correct_population_size`: the best species,
        as `get_best` reports it, receives the whole deficit. */
    method AddToBest(amounts: seq<nat>, missing: nat) returns (r: Result<seq<nat>>)
      requires |amounts| == |speciesCollection.collection| > 0 && missing > 0
      requires speciesCollection.cacheNeedsUpdating ==> BestComparable(speciesCollection.collection)
      modifies speciesCollection
      ensures speciesCollection.collection == old(speciesCollection.collection)
      ensures r == Corrected(old(Clusters(speciesCollection.collection)), old(BestScores(speciesCollection.collection)),
                             BestPosition(old(speciesCollection.cacheNeedsUpdating), old(speciesCollection.best),
                                          old(BestScores(speciesCollection.collection))),
                             amounts, missing)
      ensures !speciesCollection.cacheNeedsUpdating
      ensures speciesCollection.best == BestPosition(old(speciesCollection.cacheNeedsUpdating),
                                                     old(speciesCollection.best), old(BestScores(speciesCollection.collection)))
    {
      ghost var cs := Clusters(speciesCollection.collection);
      ghost var scores := BestScores(speciesCollection.collection);
      var b := speciesCollection.GetBest();
      if b < |amounts| {
        r := Ok(amounts[b := amounts[b] + missing]);
      } else {
        r := Err(SpeciesIndexOutOfRange(b));
      }
    }

    /** The correction step of `_count_offsprings(n)`: the amounts are
        corrected by the missing number, and the corrected amounts must
        add up to n. */
    method CorrectAndCheck(amounts: seq<nat>, missing: int, n: nat) returns (r: Result<seq<nat>>)
      requires |amounts| == |speciesCollection.collection| > 0 && missing != 0
      requires missing > 0 && speciesCollection.cacheNeedsUpdating ==> BestComparable(speciesCollection.collection)
      modifies speciesCollection
      ensures speciesCollection.collection == old(speciesCollection.collection)
      ensures r == CheckedCorrection(old(Clusters(speciesCollection.collection)), old(BestScores(speciesCollection.collection)),
                                     BestPosition(old(speciesCollection.cacheNeedsUpdating), old(speciesCollection.best),
                                                  old(BestScores(speciesCollection.collection))),
                                     amounts, missing, n)
      ensures speciesCollection.cacheNeedsUpdating ==> unchanged(speciesCollection)
      ensures !speciesCollection.cacheNeedsUpdating ==>
        speciesCollection.best == BestPosition(old(speciesCollection.cacheNeedsUpdating), old(speciesCollection.best),
                                               old(BestScores(speciesCollection.collection)))
    {
      var corrected := CorrectPopulationSize(amounts, missing);
      if corrected.Err? {
        return Err(corrected.error);
      }
      var sum := Sum(corrected.value);
      if sum != n {
        return Err(OffspringSumMismatch(sum, n));
      }
      r := corrected;
    }

    /** `_count_offsprings(n)`: the rounded shares of n, corrected when they
        miss n, and an error when the corrected amounts still miss it. The
        cache is refreshed only when a deficit sends the correction to the
        best species. */
    method CountOffsprings(n: nat) returns (r: Result<seq<nat>>)
      requires n > 0
      requires var cs := Clusters(speciesCollection.collection);
        && Adjusted(cs) && TotalAdjusted(cs) > 0.0
        && (speciesCollection.cacheNeedsUpdating && n > Sum(PopulationSizes(cs, AverageFitness(cs)))
            ==> BestComparable(speciesCollection.collection))
      modifies speciesCollection
      ensures speciesCollection.collection == old(speciesCollection.collection)
      ensures r == Offsprings(old(Clusters(speciesCollection.collection)), old(BestScores(speciesCollection.collection)),
                              BestPosition(old(speciesCollection.cacheNeedsUpdating), old(speciesCollection.best),
                                           old(BestScores(speciesCollection.collection))), n)
      ensures speciesCollection.cacheNeedsUpdating ==> unchanged(speciesCollection)
      ensures !speciesCollection.cacheNeedsUpdating ==>
        speciesCollection.best == BestPosition(old(speciesCollection.cacheNeedsUpdating), old(speciesCollection.best),
                                               old(BestScores(speciesCollection.collection)))
    {
      var cs := Clusters(speciesCollection.collection);
      var average := AverageFitness(cs);
      var amounts := PopulationSizes(cs, average);
      r := Allot(amounts, n);
    }

    /** The tail of `_count_offsprings`: the amounts as they are when they
        add up to n, otherwise corrected and checked. */
    method Allot(amounts: seq<nat>, n: nat) returns (r: Result<seq<nat>>)
      requires |amounts| == |speciesCollection.collection| > 0
      requires n > Sum(amounts) && speciesCollection.cacheNeedsUpdating ==> BestComparable(speciesCollection.collection)
      modifies speciesCollection
      ensures speciesCollection.collection == old(speciesCollection.collection)
      ensures r == Allotted(old(Clusters(speciesCollection.collection)), old(BestScores(speciesCollection.collection)),
                            BestPosition(old(speciesCollection.cacheNeedsUpdating), old(speciesCollection.best),
                                         old(BestScores(speciesCollection.collection))),
                            amounts, n)
      ensures speciesCollection.cacheNeedsUpdating ==> unchanged(speciesCollection)
      ensures !speciesCollection.cacheNeedsUpdating ==>
        speciesCollection.best == BestPosition(old(speciesCollection.cacheNeedsUpdating), old(speciesCollection.best),
                                               old(BestScores(speciesCollection.collection)))
    {
      var sum := Sum(amounts);
      var missing := n - sum;
      if missing != 0 {
        r := CorrectAndCheck(amounts, missing, n);
      } else {
        r := Ok(amounts);
      }
    }

    /** `generate_new_individuals`: the amounts `_count_offsprings` gives
        for the configured population size, then one breeding pass over the
        species. The species are left as they were. */
    method GenerateNewIndividuals(conf: Conf, st: Strategies, compat: (Individual, Individual) -> bool)
      returns (r: Result<GenusSeed>)
      requires Valid() && AllNonEmpty(speciesCollection.collection) && SelectsFromPool(st)
      requires conf.totalPopulationSize > 0
      requires var cs := Clusters(speciesCollection.collection);
        Adjusted(cs) && TotalAdjusted(cs) > 0.0
      modifies speciesCollection
      ensures Valid() && speciesCollection.collection == old(speciesCollection.collection)
      ensures var offs := Offsprings(old(Clusters(speciesCollection.collection)),
                                     old(BestScores(speciesCollection.collection)),
                                     BestPosition(old(speciesCollection.cacheNeedsUpdating), old(speciesCollection.best),
                                                  old(BestScores(speciesCollection.collection))),
                                     conf.totalPopulationSize);
        && (offs.Err? ==> r == Err(offs.error))
        && (offs.Ok? ==> && r.Ok? && fresh(r.value.newSpecies)
                         && (forall s | s in r.value.newSpecies.collection :: fresh(s) && fresh(s.age))
                         && Bred(r.value, old(Clusters(speciesCollection.collection)),
                                 old(States(speciesCollection.collection)), offs.value, conf.crossover, st, compat))
    {
      ghost var cs := Clusters(speciesCollection.collection);
      ghost var sts := States(speciesCollection.collection);
      var counted := CountOffsprings(conf.totalPopulationSize);
      if counted.Err? {
        return Err(counted.error);
      }
      assert Clusters(speciesCollection.collection) == cs && States(speciesCollection.collection) == sts;
      var seed := BreedAll(speciesCollection.collection, counted.value, conf.crossover, st, compat);
      r := Ok(seed);
    }

    /** `next_generation`: the orphans are placed first-fit among the new
        species (founding species with fresh ids when none adopts them);
        the amounts are counted again on this generation; population
        management runs on the species that have a previous generation; a
        species id present twice is an error; the empty species are
        dropped; and a population that is not the configured size is an
        error. Otherwise the new genus holds the surviving species and the
        id counter as placement left it. */
    method NextGeneration(conf: Conf, seed: GenusSeed, compat: (Individual, Individual) -> bool,
                          manage: (seq<Individual>, seq<Individual>, nat) -> seq<Individual>)
      returns (r: Result<Genus>)
      requires Valid() && seed.newSpecies.Valid() && seed.newSpecies != speciesCollection
      requires forall s | s in seed.newSpecies.collection :: s !in speciesCollection.collection
      requires |seed.oldSpeciesIndividuals| == |speciesCollection.collection|
      requires conf.totalPopulationSize > 0
      requires var cs := Clusters(speciesCollection.collection);
        && Adjusted(cs) && TotalAdjusted(cs) > 0.0
        && (speciesCollection.cacheNeedsUpdating && conf.totalPopulationSize > Sum(PopulationSizes(cs, AverageFitness(cs)))
            ==> BestComparable(speciesCollection.collection))
      modifies speciesCollection, seed.newSpecies, seed.newSpecies.collection
      ensures speciesCollection.collection == old(speciesCollection.collection)
      ensures States(speciesCollection.collection) == old(States(speciesCollection.collection))
      ensures var adopted := PlaceAll(compat, Placement(old(Clusters(seed.newSpecies.collection)), nextSpeciesId),
                                      seed.orphans);
        var offs := Offsprings(old(Clusters(speciesCollection.collection)),
                               old(BestScores(speciesCollection.collection)),
                               BestPosition(old(speciesCollection.cacheNeedsUpdating), old(speciesCollection.best),
                                            old(BestScores(speciesCollection.collection))),
                               conf.totalPopulationSize);
        && (offs.Err? ==> r == Err(offs.error))
        && (offs.Ok? ==>
              var m := Managed(adopted.clusters, seed.oldSpeciesIndividuals, offs.value, manage);
              var total := conf.totalPopulationSize;
              && (FirstDuplicate(Ids(m)).Some? ==> r == Err(DuplicateSpeciesId(FirstDuplicate(Ids(m)).value)))
              && (FirstDuplicate(Ids(m)).None? && MemberCount(Survivors(m)) != total ==>
                    r == Err(PopulationSizeMismatch(MemberCount(Survivors(m)), total)))
              && (FirstDuplicate(Ids(m)).None? && MemberCount(Survivors(m)) == total ==>
                    && r.Ok? && fresh(r.value) && r.value.Valid()
                    && r.value.speciesCollection == seed.newSpecies
                    && Clusters(seed.newSpecies.collection) == Survivors(m)
                    && States(seed.newSpecies.collection)
                       == NonEmptyStates(Settled(m, old(States(seed.newSpecies.collection))))
                    && r.value.nextSpeciesId == adopted.nextId))
      ensures nextSpeciesId == old(nextSpeciesId)
    {
      ghost var ss := speciesCollection.collection;
      ghost var sts := States(ss);
      ghost var seedStates := States(seed.newSpecies.collection);
      ghost var seedClusters := Clusters(seed.newSpecies.collection);
      ghost var offs := Offsprings(Clusters(ss), BestScores(ss),
                                   BestPosition(speciesCollection.cacheNeedsUpdating, speciesCollection.best, BestScores(ss)),
                                   conf.totalPopulationSize);
      // the species founded by orphans are not subtracted from the target
      var newPopulationSize := 0;
      var counted := CountOffsprings(conf.totalPopulationSize - newPopulationSize);
      assert counted == offs;

      assert States(seed.newSpecies.collection) == seedStates && Clusters(seed.newSpecies.collection) == seedClusters;
      r := AdoptAndSettle(seed.newSpecies, compat, seed.orphans, seed.oldSpeciesIndividuals, counted, manage,
                          nextSpeciesId, conf.totalPopulationSize, ss);
    }
  }
}

/** What one generation step produces, stated on values: the children each
    species breeds and where they go (`generate_new_individuals`), the
    members population management hands back (`next_generation`), and the
    duplicate-id check that guards the next genus. */
module Generations {
  import opened Outcomes
  import opened Individuals
  import opened FirstFit
  import opened Allocation

  /** The caller-supplied strategies. Selection and parent selection return
      positions in the parent pool; the draw number (how many children were
      bred before) stands for the state of the random generator. */
  datatype Strategies = Strategies(
    select: (seq<Individual>, int) -> nat,
    selectPair: (seq<Individual>, int) -> (nat, nat),
    reproduce1: Individual -> Individual,
    reproduce2: (Individual, Individual) -> Individual,
    mutate: Individual -> Individual)

  /** Selection picks from the pool it is given. */
  ghost predicate SelectsFromPool(st: Strategies) {
    && (forall pool: seq<Individual>, draw: int | |pool| > 0 :: st.select(pool, draw) < |pool|)
    && (forall pool: seq<Individual>, draw: int | |pool| > 1 ::
          st.selectPair(pool, draw).0 < |pool| && st.selectPair(pool, draw).1 < |pool|)
  }

  datatype Parents = One(parent: Individual) | Two(first: Individual, second: Individual)

  /** The branch `_generate_new_individual` takes: crossover of two parents
      when crossover is on and the pool holds more than one individual,
      otherwise reproduction from one. Parents always come from the pool. */
  function ChooseParents(crossover: bool, pool: seq<Individual>, st: Strategies, draw: int): (p: Parents)
    requires |pool| > 0 && SelectsFromPool(st)
    ensures p.Two? <==> crossover && |pool| > 1
    ensures p.One? ==> p.parent in pool
    ensures p.Two? ==> p.first in pool && p.second in pool
  {
    if crossover && |pool| > 1 then
      var (i, j) := st.selectPair(pool, draw);
      Two(pool[i], pool[j])
    else
      One(pool[st.select(pool, draw)])
  }

  /** A child: reproduced from the chosen parents, then mutated. */
  function NewIndividual(crossover: bool, pool: seq<Individual>, st: Strategies, draw: int): Individual
    requires |pool| > 0 && SelectsFromPool(st)
  {
    var child := match ChooseParents(crossover, pool, st, draw)
      case One(p) => st.reproduce1(p)
      case Two(p1, p2) => st.reproduce2(p1, p2);
    st.mutate(child)
  }

  /** Every child is a mutation of a reproduction from parents in the pool:
      of two parents exactly when crossover is on and the pool holds more
      than one individual, of one parent otherwise. */
  lemma NewIndividualFromPool(crossover: bool, pool: seq<Individual>, st: Strategies, draw: int)
    requires |pool| > 0 && SelectsFromPool(st)
    ensures var r := NewIndividual(crossover, pool, st, draw);
      && (crossover && |pool| > 1 ==>
            exists p1, p2 | p1 in pool && p2 in pool :: r == st.mutate(st.reproduce2(p1, p2)))
      && (!(crossover && |pool| > 1) ==>
            exists p | p in pool :: r == st.mutate(st.reproduce1(p)))
  {
    match ChooseParents(crossover, pool, st, draw)
    case One(p) =>
      assert NewIndividual(crossover, pool, st, draw) == st.mutate(st.reproduce1(p));
    case Two(p1, p2) =>
      assert NewIndividual(crossover, pool, st, draw) == st.mutate(st.reproduce2(p1, p2));
  }

  /** The count children bred from species c, the first with draw number draw. */
  function Children(c: Cluster, count: nat, draw: int, crossover: bool, st: Strategies): (xs: seq<Individual>)
    requires |c.members| > 0 && SelectsFromPool(st)
    ensures |xs| == count
    decreases count
  {
    if count == 0 then []
    else Children(c, count - 1, draw, crossover, st) + [NewIndividual(crossover, IndividualsOf(c.members), st, draw + count - 1)]
  }

  /** The children species c keeps: those its representative accepts, in
      order; never more than the children (KeptAccepted says which ones are
      kept). */
  function Kept(c: Cluster, compat: (Individual, Individual) -> bool, xs: seq<Individual>): (r: seq<Individual>)
    ensures |r| <= |xs|
    decreases |xs|
  {
    if |xs| == 0 then []
    else
      var init := xs[..|xs| - 1];
      assert xs == init + [xs[|xs| - 1]];
      Kept(c, compat, init) + (if Accepts(compat, c, xs[|xs| - 1]) then [xs[|xs| - 1]] else [])
  }

  /** The children species c turns into orphans, in order
      (RejectedNotAccepted says which ones). */
  function Rejected(c: Cluster, compat: (Individual, Individual) -> bool, xs: seq<Individual>): (r: seq<Individual>)
    ensures |r| <= |xs|
    decreases |xs|
  {
    if |xs| == 0 then []
    else
      var init := xs[..|xs| - 1];
      assert xs == init + [xs[|xs| - 1]];
      Rejected(c, compat, init) + (if Accepts(compat, c, xs[|xs| - 1]) then [] else [xs[|xs| - 1]])
  }

  /** Every kept child is accepted by the species, every orphan is rejected
      by it, and together they are exactly the children. */
  lemma KeptRejectedSplit(c: Cluster, compat: (Individual, Individual) -> bool, xs: seq<Individual>)
    ensures forall x | x in Kept(c, compat, xs) :: Accepts(compat, c, x)
    ensures forall x | x in Rejected(c, compat, xs) :: !Accepts(compat, c, x)
    ensures multiset(Kept(c, compat, xs)) + multiset(Rejected(c, compat, xs)) == multiset(xs)
  {
    KeptAccepted(c, compat, xs);
    RejectedNotAccepted(c, compat, xs);
    KeptRejectedPartition(c, compat, xs);
  }

  /** A child is kept iff it is one of the children and accepted. */
  lemma {:induction false} KeptAccepted(c: Cluster, compat: (Individual, Individual) -> bool, xs: seq<Individual>)
    ensures forall x | x in Kept(c, compat, xs) :: x in xs && Accepts(compat, c, x)
    ensures forall x | x in xs && Accepts(compat, c, x) :: x in Kept(c, compat, xs)
    decreases |xs|
  {
    if |xs| > 0 {
      KeptAccepted(c, compat, xs[..|xs| - 1]);
      assert xs == xs[..|xs| - 1] + [xs[|xs| - 1]];
    }
  }

  /** A child is an orphan iff it is one of the children and rejected. */
  lemma {:induction false} RejectedNotAccepted(c: Cluster, compat: (Individual, Individual) -> bool, xs: seq<Individual>)
    ensures forall x | x in Rejected(c, compat, xs) :: x in xs && !Accepts(compat, c, x)
    ensures forall x | x in xs && !Accepts(compat, c, x) :: x in Rejected(c, compat, xs)
    decreases |xs|
  {
    if |xs| > 0 {
      RejectedNotAccepted(c, compat, xs[..|xs| - 1]);
      assert xs == xs[..|xs| - 1] + [xs[|xs| - 1]];
    }
  }

  lemma {:induction false} KeptRejectedPartition(c: Cluster, compat: (Individual, Individual) -> bool, xs: seq<Individual>)
    ensures multiset(Kept(c, compat, xs)) + multiset(Rejected(c, compat, xs)) == multiset(xs)
    decreases |xs|
  {
    if |xs| > 0 {
      var init, y := xs[..|xs| - 1], xs[|xs| - 1];
      KeptRejectedPartition(c, compat, init);
      KeptRejectedLast(c, compat, xs);
      MultisetLast(xs);
    }
  }

  lemma KeptRejectedLast(c: Cluster, compat: (Individual, Individual) -> bool, xs: seq<Individual>)
    requires |xs| > 0
    ensures multiset(Kept(c, compat, xs)) + multiset(Rejected(c, compat, xs))
            == multiset(Kept(c, compat, xs[..|xs| - 1])) + multiset(Rejected(c, compat, xs[..|xs| - 1])) + multiset{xs[|xs| - 1]}
  {
  }

  lemma MultisetLast<T>(xs: seq<T>)
    requires |xs| > 0
    ensures multiset(xs) == multiset(xs[..|xs| - 1]) + multiset{xs[|xs| - 1]}
  {
    assert xs == xs[..|xs| - 1] + [xs[|xs| - 1]];
  }

  /** Breeding one more child extends the kept or the rejected children by it. */
  lemma KeptRejectedStep(c: Cluster, compat: (Individual, Individual) -> bool, xs: seq<Individual>, y: Individual)
    ensures Kept(c, compat, xs + [y]) == Kept(c, compat, xs) + (if Accepts(compat, c, y) then [y] else [])
    ensures Rejected(c, compat, xs + [y]) == Rejected(c, compat, xs) + (if Accepts(compat, c, y) then [] else [y])
  {
    assert (xs + [y])[..|xs|] == xs;
  }

  /** The children of every species, in order: species j breeds its amount
      of children, numbering the draws on from the children the species
      before it bred. */
  function AllChildren(cs: seq<Cluster>, amounts: seq<nat>, crossover: bool, st: Strategies): (r: seq<seq<Individual>>)
    requires |amounts| == |cs| && SelectsFromPool(st)
    requires forall j | 0 <= j < |cs| :: |cs[j].members| > 0
    ensures |r| == |cs| && forall j | 0 <= j < |cs| :: |r[j]| == amounts[j]
    ensures forall j | 0 <= j < |cs| :: r[j] == Children(cs[j], amounts[j], Sum(amounts[..j]), crossover, st)
  {
    seq(|cs|, j requires 0 <= j < |cs| && |amounts| == |cs| && SelectsFromPool(st)
                        && (forall j | 0 <= j < |cs| :: |cs[j].members| > 0) =>
      Children(cs[j], amounts[j], Sum(amounts[..j]), crossover, st))
  }

  /** All children, one species after the other. */
  function Concat(xss: seq<seq<Individual>>): seq<Individual>
    decreases |xss|
  {
    if |xss| == 0 then [] else Concat(xss[..|xss| - 1]) + xss[|xss| - 1]
  }

  /** When species j breeds exactly its amount, the children number the total. */
  lemma {:induction false} ConcatCount(r: seq<seq<Individual>>, amounts: seq<nat>)
    requires |r| == |amounts| && forall j | 0 <= j < |r| :: |r[j]| == amounts[j]
    ensures |Concat(r)| == Sum(amounts)
    decreases |r|
  {
    if |r| > 0 {
      var n := |r| - 1;
      ConcatCount(r[..n], amounts[..n]);
    }
  }

  /** The children kept by each species. */
  function KeptAll(cs: seq<Cluster>, children: seq<seq<Individual>>,
                   compat: (Individual, Individual) -> bool): (r: seq<seq<Individual>>)
    requires |children| == |cs|
    ensures |r| == |cs| && forall j | 0 <= j < |cs| :: r[j] == Kept(cs[j], compat, children[j])
  {
    seq(|cs|, j requires 0 <= j < |cs| && |children| == |cs| => Kept(cs[j], compat, children[j]))
  }

  /** The children each species rejects; the orphans are these one species
      after the other. */
  function RejectedAll(cs: seq<Cluster>, children: seq<seq<Individual>>,
                       compat: (Individual, Individual) -> bool): (r: seq<seq<Individual>>)
    requires |children| == |cs|
    ensures |r| == |cs| && forall j | 0 <= j < |cs| :: r[j] == Rejected(cs[j], compat, children[j])
  {
    seq(|cs|, j requires 0 <= j < |cs| && |children| == |cs| => Rejected(cs[j], compat, children[j]))
  }

  /** The previous generation of each species: its current individuals. */
  function PreviousGenerations(cs: seq<Cluster>): (r: seq<seq<Individual>>)
    ensures |r| == |cs| && forall j | 0 <= j < |cs| :: r[j] == IndividualsOf(cs[j].members)
  {
    seq(|cs|, j requires 0 <= j < |cs| => IndividualsOf(cs[j].members))
  }

  /** Every species keeps only children it accepts. */
  lemma KeptAllAccepted(cs: seq<Cluster>, children: seq<seq<Individual>>,
                        compat: (Individual, Individual) -> bool)
    requires |children| == |cs|
    ensures forall j, x | 0 <= j < |cs| && x in KeptAll(cs, children, compat)[j] :: Accepts(compat, cs[j], x)
  {
    forall j | 0 <= j < |cs| ensures forall x | x in Kept(cs[j], compat, children[j]) :: Accepts(compat, cs[j], x) {
      KeptRejectedSplit(cs[j], compat, children[j]);
    }
  }

  /** Splitting every group in two splits the concatenation in two. */
  lemma {:induction false} ConcatSplit(k: seq<seq<Individual>>, o: seq<seq<Individual>>, c: seq<seq<Individual>>)
    requires |k| == |o| == |c|
    requires forall j | 0 <= j < |c| :: multiset(k[j]) + multiset(o[j]) == multiset(c[j])
    ensures multiset(Concat(k)) + multiset(Concat(o)) == multiset(Concat(c))
    decreases |c|
  {
    if |c| > 0 {
      var n := |c| - 1;
      ConcatSplit(k[..n], o[..n], c[..n]);
    }
  }

  /** Every child is either kept by the species that bred it or an orphan. */
  lemma OffspringConserved(cs: seq<Cluster>, children: seq<seq<Individual>>,
                           compat: (Individual, Individual) -> bool)
    requires |children| == |cs|
    ensures multiset(Concat(KeptAll(cs, children, compat))) + multiset(Concat(RejectedAll(cs, children, compat)))
            == multiset(Concat(children))
  {
    forall j | 0 <= j < |cs|
      ensures multiset(Kept(cs[j], compat, children[j])) + multiset(Rejected(cs[j], compat, children[j])) == multiset(children[j])
    {
      KeptRejectedSplit(cs[j], compat, children[j]);
    }
    ConcatSplit(KeptAll(cs, children, compat), RejectedAll(cs, children, compat), children);
  }

  /** The new species as values: the old ids with the kept children. */
  function Clones(cs: seq<Cluster>, kept: seq<seq<Individual>>): (r: seq<Cluster>)
    requires |kept| == |cs|
    ensures |r| == |cs| && forall j | 0 <= j < |cs| :: r[j] == Cluster(cs[j].id, Unadjusted(kept[j]))
  {
    seq(|cs|, j requires 0 <= j < |cs| && |kept| == |cs| => Cluster(cs[j].id, Unadjusted(kept[j])))
  }

  /** The species after population management: species j, for each j below
      |olds|, holds what manage returns for its current individuals, its
      previous generation and its amount; later species are as they were. */
  function Managed(cs: seq<Cluster>, olds: seq<seq<Individual>>, amounts: seq<nat>,
                   manage: (seq<Individual>, seq<Individual>, nat) -> seq<Individual>): (r: seq<Cluster>)
    requires |amounts| == |olds|
    ensures |r| == |cs| && Ids(r) == Ids(cs)
  {
    seq(|cs|, j requires 0 <= j < |cs| && |amounts| == |olds| =>
      if j < |olds| then Cluster(cs[j].id, Unadjusted(manage(IndividualsOf(cs[j].members), olds[j], amounts[j])))
      else cs[j])
  }

  /** When management returns exactly the target number of individuals for
      every species, the managed species hold exactly the allotted total,
      before and after dropping the empty ones. */
  lemma ExactManagementFills(cs: seq<Cluster>, olds: seq<seq<Individual>>, amounts: seq<nat>,
                             manage: (seq<Individual>, seq<Individual>, nat) -> seq<Individual>)
    requires |cs| == |olds| == |amounts|
    requires forall a, b, t :: |manage(a, b, t)| == t
    ensures MemberCount(Survivors(Managed(cs, olds, amounts, manage))) == Sum(amounts)
  {
    var m := Managed(cs, olds, amounts, manage);
    forall j | 0 <= j < |m| ensures |m[j].members| == amounts[j] {
      var xs := manage(IndividualsOf(cs[j].members), olds[j], amounts[j]);
      assert |xs| == amounts[j];
      assert m[j].members == Unadjusted(xs);
    }
    ManagedCount(m, amounts);
    SurvivorsKeepMembers(m);
  }

  /** Species founded by orphans lie beyond the previous generations, so
      management leaves them as they are: the managed species hold the
      allotted total plus every member of the founded species. */
  lemma FoundedSpeciesCount(cs: seq<Cluster>, olds: seq<seq<Individual>>, amounts: seq<nat>,
                            manage: (seq<Individual>, seq<Individual>, nat) -> seq<Individual>)
    requires |olds| == |amounts| <= |cs|
    requires forall a, b, t :: |manage(a, b, t)| == t
    ensures MemberCount(Survivors(Managed(cs, olds, amounts, manage))) == Sum(amounts) + MemberCount(cs[|olds|..])
  {
    var m := Managed(cs, olds, amounts, manage);
    var k := |olds|;
    var head, tail := m[..k], m[k..];
    assert m == head + tail;
    assert MemberCount(head) == Sum(amounts) by {
      ManagedHead(cs, olds, amounts, manage);
    }
    assert tail == cs[k..] by {
      ManagedTail(cs, olds, amounts, manage);
    }
    assert MemberCount(m) == MemberCount(head) + MemberCount(tail) by {
      MemberCountSplit(head, tail);
    }
    SurvivorsKeepMembers(m);
  }

  /** The managed species below |olds| hold the allotted total. */
  lemma ManagedHead(cs: seq<Cluster>, olds: seq<seq<Individual>>, amounts: seq<nat>,
                    manage: (seq<Individual>, seq<Individual>, nat) -> seq<Individual>)
    requires |olds| == |amounts| <= |cs|
    requires forall a, b, t :: |manage(a, b, t)| == t
    ensures MemberCount(Managed(cs, olds, amounts, manage)[..|olds|]) == Sum(amounts)
  {
    var m := Managed(cs, olds, amounts, manage)[..|olds|];
    forall j | 0 <= j < |m| ensures |m[j].members| == amounts[j] {
      var xs := manage(IndividualsOf(cs[j].members), olds[j], amounts[j]);
      assert |xs| == amounts[j];
    }
    ManagedCount(m, amounts);
  }

  /** The managed species from |olds| on are the species as they were. */
  lemma ManagedTail(cs: seq<Cluster>, olds: seq<seq<Individual>>, amounts: seq<nat>,
                    manage: (seq<Individual>, seq<Individual>, nat) -> seq<Individual>)
    requires |olds| == |amounts| <= |cs|
    ensures Managed(cs, olds, amounts, manage)[|olds|..] == cs[|olds|..]
  {
  }

  /** When an orphan founded a species, the managed species overshoot the
      allotted total, so a population the offspring amounts fill exactly
      fails the size check that ends next_generation. */
  lemma FoundedSpeciesOverfill(cs: seq<Cluster>, olds: seq<seq<Individual>>, amounts: seq<nat>,
                               manage: (seq<Individual>, seq<Individual>, nat) -> seq<Individual>, total: nat)
    requires |olds| == |amounts| < |cs| && Sum(amounts) == total
    requires forall j | |olds| <= j < |cs| :: |cs[j].members| > 0
    requires forall a, b, t :: |manage(a, b, t)| == t
    ensures MemberCount(Survivors(Managed(cs, olds, amounts, manage))) > total
  {
    FoundedSpeciesCount(cs, olds, amounts, manage);
    var founded := cs[|olds|..];
    var n := |founded| - 1;
    assert |founded[n].members| > 0;
    assert MemberCount(founded) == MemberCount(founded[..n]) + |founded[n].members|;
  }

  lemma {:induction false} MemberCountSplit(a: seq<Cluster>, b: seq<Cluster>)
    ensures MemberCount(a + b) == MemberCount(a) + MemberCount(b)
    decreases |b|
  {
    if |b| == 0 {
      assert a + b == a;
    } else {
      var n := |b| - 1;
      MemberCountSplit(a, b[..n]);
      assert (a + b)[..|a + b| - 1] == a + b[..n];
    }
  }

  lemma {:induction false} ManagedCount(m: seq<Cluster>, amounts: seq<nat>)
    requires |m| == |amounts| && forall j | 0 <= j < |m| :: |m[j].members| == amounts[j]
    ensures MemberCount(m) == Sum(amounts)
    decreases |m|
  {
    if |m| > 0 {
      var n := |m| - 1;
      ManagedCount(m[..n], amounts[..n]);
    }
  }

  /** The first species id seen for the second time, scanning in order. */
  function FirstDuplicate(ids: seq<nat>): Option<nat>
    decreases |ids|
  {
    if |ids| == 0 then None
    else
      var n := |ids| - 1;
      match FirstDuplicate(ids[..n])
      case Some(d) => Some(d)
      case None => if ids[n] in ids[..n] then Some(ids[n]) else None
  }

  /** Once a prefix holds a duplicate, scanning further reports the same one. */
  lemma {:induction false} FirstDuplicatePrefix(ids: seq<nat>, k: nat)
    requires k <= |ids| && FirstDuplicate(ids[..k]).Some?
    ensures FirstDuplicate(ids) == FirstDuplicate(ids[..k])
    decreases |ids|
  {
    if k < |ids| {
      var n := |ids| - 1;
      assert ids[..n][..k] == ids[..k];
      FirstDuplicatePrefix(ids[..n], k);
    } else {
      assert ids[..k] == ids;
    }
  }

  /** A duplicate is reported exactly when two positions carry the same id,
      and what is reported occurs twice. */
  lemma {:induction false} FirstDuplicateIffRepeated(ids: seq<nat>)
    ensures FirstDuplicate(ids).None? <==> forall i, j | 0 <= i < j < |ids| :: ids[i] != ids[j]
    ensures FirstDuplicate(ids).Some? ==> multiset(ids)[FirstDuplicate(ids).value] >= 2
    decreases |ids|
  {
    if |ids| > 0 {
      var n := |ids| - 1;
      var init := ids[..n];
      FirstDuplicateIffRepeated(init);
      assert ids == init + [ids[n]];
      assert forall i | 0 <= i < n :: init[i] == ids[i];
      if FirstDuplicate(init).None? && ids[n] in init {
        var k :| 0 <= k < n && init[k] == ids[n];
        assert ids[k] == ids[n];
        assert multiset(init)[ids[n]] >= 1;
      }
      if FirstDuplicate(init).None? && ids[n] !in init {
        forall i, j | 0 <= i < j < |ids| ensures ids[i] != ids[j] {
          if j == n {
            assert ids[i] == init[i];
            assert init[i] in init;
          }
        }
      }
    }
  }
}

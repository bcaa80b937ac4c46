/** First-fit clustering, the rule both `speciate` and orphan adoption follow:
    an individual joins the first cluster whose representative (first member)
    accepts it, or founds a new cluster with the next free id. */
module FirstFit {
  import opened Outcomes
  import opened Individuals

  /** A species seen as a value: its id and its members. */
  datatype Cluster = Cluster(id: nat, members: seq<Member>)

  /** An empty cluster accepts nobody; otherwise its representative decides. */
  predicate Accepts(compat: (Individual, Individual) -> bool, c: Cluster, x: Individual) {
    |c.members| > 0 && compat(c.members[0].individual, x)
  }

  function FirstAccepting(compat: (Individual, Individual) -> bool, cs: seq<Cluster>, x: Individual): (k: nat)
    ensures k <= |cs|
    ensures forall j | 0 <= j < k :: !Accepts(compat, cs[j], x)
    ensures k < |cs| ==> Accepts(compat, cs[k], x)
  {
    if |cs| == 0 then 0
    else if Accepts(compat, cs[0], x) then 0
    else 1 + FirstAccepting(compat, cs[1..], x)
  }

  /** The clusters together with the id the next founded cluster receives. */
  datatype Placement = Placement(clusters: seq<Cluster>, nextId: nat)

  /** One first-fit placement: x joins the first accepting cluster k, at
      the end of its members, or founds a cluster with id nextId exactly when
      none accepts; every other cluster is left as it was. */
  function Place(compat: (Individual, Individual) -> bool, p: Placement, x: Individual): (r: Placement)
    ensures var k := FirstAccepting(compat, p.clusters, x);
      && |r.clusters| == (if k < |p.clusters| then |p.clusters| else |p.clusters| + 1)
      && r.nextId == p.nextId + (|r.clusters| - |p.clusters|)
      && (forall j | 0 <= j < |p.clusters| && j != k :: r.clusters[j] == p.clusters[j])
      && r.clusters[k].id == (if k < |p.clusters| then p.clusters[k].id else p.nextId)
      && r.clusters[k].members == (if k < |p.clusters| then p.clusters[k].members else []) + [Member(None, x)]
  {
    var k := FirstAccepting(compat, p.clusters, x);
    if k < |p.clusters| then
      Placement(p.clusters[k := Cluster(p.clusters[k].id, p.clusters[k].members + [Member(None, x)])], p.nextId)
    else
      Placement(p.clusters + [Cluster(p.nextId, [Member(None, x)])], p.nextId + 1)
  }

  /** Places the individuals one after another, in order. Clusters are
      only ever added, and the id counter advances by the number founded. */
  function PlaceAll(compat: (Individual, Individual) -> bool, p: Placement, xs: seq<Individual>): (r: Placement)
    ensures |r.clusters| >= |p.clusters|
    ensures r.nextId == p.nextId + (|r.clusters| - |p.clusters|)
    decreases |xs|
  {
    if |xs| == 0 then p else Place(compat, PlaceAll(compat, p, xs[..|xs| - 1]), xs[|xs| - 1])
  }

  /** The multiset of individuals held by the clusters. */
  function Pool(cs: seq<Cluster>): multiset<Individual>
    decreases |cs|
  {
    if |cs| == 0 then multiset{}
    else Pool(cs[..|cs| - 1]) + multiset(IndividualsOf(cs[|cs| - 1].members))
  }

  function MemberCount(cs: seq<Cluster>): nat
    decreases |cs|
  {
    if |cs| == 0 then 0 else MemberCount(cs[..|cs| - 1]) + |cs[|cs| - 1].members|
  }

  /** Clusters that each hold a member hold at least as many members as
      there are clusters. */
  lemma {:induction false} MemberCountOfNonEmpty(cs: seq<Cluster>)
    ensures (forall i | 0 <= i < |cs| :: |cs[i].members| > 0) ==> |cs| <= MemberCount(cs)
    decreases |cs|
  {
    if |cs| > 0 && forall i | 0 <= i < |cs| :: |cs[i].members| > 0 {
      var n := |cs| - 1;
      assert forall i | 0 <= i < n :: cs[..n][i] == cs[i];
      MemberCountOfNonEmpty(cs[..n]);
    }
  }

  lemma {:induction false} MemberCountIsPoolSize(cs: seq<Cluster>)
    ensures MemberCount(cs) == |Pool(cs)|
    decreases |cs|
  {
    if |cs| > 0 {
      MemberCountIsPoolSize(cs[..|cs| - 1]);
    }
  }

  lemma {:induction false} PoolAppend(cs: seq<Cluster>, c: Cluster)
    ensures Pool(cs + [c]) == Pool(cs) + multiset(IndividualsOf(c.members))
  {
    assert (cs + [c])[..|cs|] == cs;
  }

  /** Appending a member to one cluster adds exactly that individual to the pool. */
  lemma {:induction false} PoolAddMember(cs: seq<Cluster>, k: nat, m: Member)
    requires k < |cs|
    ensures Pool(cs[k := Cluster(cs[k].id, cs[k].members + [m])]) == Pool(cs) + multiset{m.individual}
    decreases |cs|
  {
    var last := |cs| - 1;
    var c := Cluster(cs[k].id, cs[k].members + [m]);
    assert IndividualsOf(c.members) == IndividualsOf(cs[k].members) + [m.individual];
    if k == last {
      assert cs[k := c][..last] == cs[..last];
    } else {
      assert cs[k := c][..last] == cs[..last][k := c];
      PoolAddMember(cs[..last], k, m);
      calc {
        Pool(cs[k := c]);
        Pool(cs[..last][k := c]) + multiset(IndividualsOf(cs[last].members));
        Pool(cs[..last]) + multiset{m.individual} + multiset(IndividualsOf(cs[last].members));
        Pool(cs[..last]) + multiset(IndividualsOf(cs[last].members)) + multiset{m.individual};
      }
    }
  }

  /** Placing one individual adds exactly that individual to the pool. */
  lemma PlaceConserves(compat: (Individual, Individual) -> bool, p: Placement, x: Individual)
    ensures Pool(Place(compat, p, x).clusters) == Pool(p.clusters) + multiset{x}
  {
    var k := FirstAccepting(compat, p.clusters, x);
    if k < |p.clusters| {
      PoolAddMember(p.clusters, k, Member(None, x));
    } else {
      PoolAppend(p.clusters, Cluster(p.nextId, [Member(None, x)]));
      assert IndividualsOf([Member(None, x)]) == [x];
    }
  }

  /** Partition: first-fit placement loses and duplicates nobody. */
  lemma {:induction false} PlaceAllConserves(compat: (Individual, Individual) -> bool, p: Placement, xs: seq<Individual>)
    ensures Pool(PlaceAll(compat, p, xs).clusters) == Pool(p.clusters) + multiset(xs)
    decreases |xs|
  {
    if |xs| > 0 {
      var init := xs[..|xs| - 1];
      var x := xs[|xs| - 1];
      assert xs == init + [x];
      assert multiset(xs) == multiset(init) + multiset{x};
      PlaceAllConserves(compat, p, init);
      PlaceConserves(compat, PlaceAll(compat, p, init), x);
      calc {
        Pool(PlaceAll(compat, p, xs).clusters);
        Pool(PlaceAll(compat, p, init).clusters) + multiset{x};
        Pool(p.clusters) + multiset(init) + multiset{x};
        Pool(p.clusters) + multiset(xs);
      }
    }
  }

  /** Hence the member count grows by exactly the number placed. */
  lemma PlaceAllCount(compat: (Individual, Individual) -> bool, p: Placement, xs: seq<Individual>)
    ensures MemberCount(PlaceAll(compat, p, xs).clusters) == MemberCount(p.clusters) + |xs|
  {
    PlaceAllConserves(compat, p, xs);
    MemberCountIsPoolSize(p.clusters);
    MemberCountIsPoolSize(PlaceAll(compat, p, xs).clusters);
  }

  /** Existing clusters keep their ids, the founded ones take consecutive
      ids from nextId on, and nextId advances by the number founded. */
  lemma {:induction false} PlaceAllIds(compat: (Individual, Individual) -> bool, p: Placement, xs: seq<Individual>)
    ensures var r := PlaceAll(compat, p, xs);
      && |r.clusters| >= |p.clusters|
      && r.nextId == p.nextId + (|r.clusters| - |p.clusters|)
      && (forall j | 0 <= j < |p.clusters| :: r.clusters[j].id == p.clusters[j].id)
      && (forall j | |p.clusters| <= j < |r.clusters| :: r.clusters[j].id == p.nextId + (j - |p.clusters|))
    decreases |xs|
  {
    if |xs| > 0 {
      PlaceAllIds(compat, p, xs[..|xs| - 1]);
    }
  }

  /** Accepting is decided by the representative, which placing never changes. */
  lemma PlaceKeepsAccepts(compat: (Individual, Individual) -> bool, p: Placement, x: Individual, i: nat, y: Individual)
    requires i < |p.clusters|
    ensures var r := Place(compat, p, x);
      i < |r.clusters| && r.clusters[i].id == p.clusters[i].id
      && |r.clusters[i].members| >= |p.clusters[i].members|
      && r.clusters[i].members[..|p.clusters[i].members|] == p.clusters[i].members
      && (Accepts(compat, r.clusters[i], y) <==> Accepts(compat, p.clusters[i], y))
  {
    var k := FirstAccepting(compat, p.clusters, x);
    if k < |p.clusters| && i == k {
      var ms := p.clusters[k].members;
      assert (ms + [Member(None, x)])[..|ms|] == ms;
      assert (ms + [Member(None, x)])[0] == ms[0];
    }
  }

  function Start(starts: seq<nat>, j: nat): nat {
    if j < |starts| then starts[j] else 0
  }

  /** Every member placed from position Start(starts, j) on in cluster j got
      there by first fit: every earlier cluster rejects it, and, unless it
      founded the cluster, the representative accepts it. */
  predicate FirstFitFrom(compat: (Individual, Individual) -> bool, cs: seq<Cluster>, starts: seq<nat>) {
    && (forall j | 0 <= j < |cs| :: Start(starts, j) <= |cs[j].members|)
    && (forall j, q | 0 <= j < |cs| && Start(starts, j) <= q < |cs[j].members| ::
          q > 0 ==> compat(cs[j].members[0].individual, cs[j].members[q].individual))
    && (forall j, q, i | 0 <= i < j < |cs| && Start(starts, j) <= q < |cs[j].members| ::
          !Accepts(compat, cs[i], cs[j].members[q].individual))
  }

  function Sizes(cs: seq<Cluster>): (r: seq<nat>)
    ensures |r| == |cs| && forall j | 0 <= j < |cs| :: r[j] == |cs[j].members|
  {
    seq(|cs|, j requires 0 <= j < |cs| => |cs[j].members|)
  }

  lemma PlaceIsFirstFit(compat: (Individual, Individual) -> bool, p: Placement, x: Individual, starts: seq<nat>)
    requires FirstFitFrom(compat, p.clusters, starts)
    requires |starts| <= |p.clusters|
    ensures FirstFitFrom(compat, Place(compat, p, x).clusters, starts)
  {
    var cs := p.clusters;
    var r := Place(compat, p, x).clusters;
    var k := FirstAccepting(compat, cs, x);
    forall i | 0 <= i < |cs|
      ensures i < |r| && r[i].members[..|cs[i].members|] == cs[i].members
      ensures forall y :: Accepts(compat, r[i], y) <==> Accepts(compat, cs[i], y)
    {
      forall y ensures Accepts(compat, r[i], y) <==> Accepts(compat, cs[i], y) {
        PlaceKeepsAccepts(compat, p, x, i, y);
      }
      PlaceKeepsAccepts(compat, p, x, i, x);
    }
    forall j, q | 0 <= j < |r| && Start(starts, j) <= q < |r[j].members|
      ensures q > 0 ==> compat(r[j].members[0].individual, r[j].members[q].individual)
      ensures forall i | 0 <= i < j :: !Accepts(compat, r[i], r[j].members[q].individual)
    {
      if j < |cs| && q < |cs[j].members| {
        assert r[j].members[..|cs[j].members|] == cs[j].members;
        assert r[j].members[q] == cs[j].members[q];
        if q > 0 { assert r[j].members[0] == cs[j].members[0]; }
      } else {
        assert r[j].members[q].individual == x;
        if j < |cs| {
          assert j == k;
          assert r[j].members[0] == cs[j].members[0];
        } else {
          assert j == |cs| == k && q == 0;
        }
      }
    }
  }

  lemma {:induction false} PlaceAllIsFirstFit(compat: (Individual, Individual) -> bool, p: Placement, xs: seq<Individual>)
    ensures FirstFitFrom(compat, PlaceAll(compat, p, xs).clusters, Sizes(p.clusters))
    decreases |xs|
  {
    if |xs| == 0 {
    } else {
      var init := xs[..|xs| - 1];
      PlaceAllIsFirstFit(compat, p, init);
      PlaceAllIds(compat, p, init);
      PlaceIsFirstFit(compat, PlaceAll(compat, p, init), xs[|xs| - 1], Sizes(p.clusters));
    }
  }

  /** Clustering from nothing: every member of cluster j is rejected by all
      earlier clusters and accepted by cluster j's representative (its founder). */
  lemma SpeciationIsFirstFit(compat: (Individual, Individual) -> bool, firstId: nat, xs: seq<Individual>)
    ensures var cs := PlaceAll(compat, Placement([], firstId), xs).clusters;
      && (forall j | 0 <= j < |cs| :: |cs[j].members| > 0)
      && (forall j, q | 0 <= j < |cs| && 0 < q < |cs[j].members| ::
            compat(cs[j].members[0].individual, cs[j].members[q].individual))
      && (forall j, q, i | 0 <= i < j < |cs| && 0 <= q < |cs[j].members| ::
            !Accepts(compat, cs[i], cs[j].members[q].individual))
  {
    PlaceAllIsFirstFit(compat, Placement([], firstId), xs);
    PlaceAllNonEmpty(compat, Placement([], firstId), xs);
  }

  /** Clustering from nothing places every individual exactly once, in
      non-empty clusters, and founds at least one cluster when there is an
      individual to place. */
  lemma SpeciationPlacesAll(compat: (Individual, Individual) -> bool, firstId: nat, xs: seq<Individual>)
    ensures var cs := PlaceAll(compat, Placement([], firstId), xs).clusters;
      && Pool(cs) == multiset(xs) && MemberCount(cs) == |xs|
      && (forall j | 0 <= j < |cs| :: |cs[j].members| > 0)
      && (|xs| > 0 ==> |cs| > 0)
  {
    PlaceAllConserves(compat, Placement([], firstId), xs);
    PlaceAllCount(compat, Placement([], firstId), xs);
    PlaceAllNonEmpty(compat, Placement([], firstId), xs);
  }

  /** Placing never empties a cluster and founds only non-empty ones. */
  lemma {:induction false} PlaceAllNonEmpty(compat: (Individual, Individual) -> bool, p: Placement, xs: seq<Individual>)
    requires forall j | 0 <= j < |p.clusters| :: |p.clusters[j].members| > 0
    ensures forall j | 0 <= j < |PlaceAll(compat, p, xs).clusters| :: |PlaceAll(compat, p, xs).clusters[j].members| > 0
    decreases |xs|
  {
    if |xs| > 0 {
      var q := PlaceAll(compat, p, xs[..|xs| - 1]);
      PlaceAllNonEmpty(compat, p, xs[..|xs| - 1]);
      var k := FirstAccepting(compat, q.clusters, xs[|xs| - 1]);
      var r := Place(compat, q, xs[|xs| - 1]).clusters;
      forall j | 0 <= j < |r| ensures |r[j].members| > 0 {
        if j < |q.clusters| && j != k {
          assert r[j] == q.clusters[j];
        } else if j < |q.clusters| {
          assert r[j].members == q.clusters[k].members + [Member(None, xs[|xs| - 1])];
        } else {
          assert r[j].members == [Member(None, xs[|xs| - 1])];
        }
      }
    }
  }

  /** Placing a sequence keeps every existing cluster's id and leaves what it
      accepts unchanged. */
  lemma {:induction false} PlaceAllKeepsAccepts(compat: (Individual, Individual) -> bool, p: Placement, xs: seq<Individual>, i: nat, y: Individual)
    requires i < |p.clusters|
    ensures var r := PlaceAll(compat, p, xs);
      i < |r.clusters| && r.clusters[i].id == p.clusters[i].id
      && (Accepts(compat, r.clusters[i], y) <==> Accepts(compat, p.clusters[i], y))
    decreases |xs|
  {
    if |xs| > 0 {
      var q := PlaceAll(compat, p, xs[..|xs| - 1]);
      PlaceAllKeepsAccepts(compat, p, xs[..|xs| - 1], i, y);
      PlaceKeepsAccepts(compat, q, xs[|xs| - 1], i, y);
    }
  }

  /** First fit depends only on what each cluster accepts. */
  lemma {:induction false} FirstAcceptingSame(compat: (Individual, Individual) -> bool, cs1: seq<Cluster>, cs2: seq<Cluster>, x: Individual)
    requires |cs1| == |cs2|
    requires forall i | 0 <= i < |cs1| :: Accepts(compat, cs1[i], x) == Accepts(compat, cs2[i], x)
    ensures FirstAccepting(compat, cs1, x) == FirstAccepting(compat, cs2, x)
    decreases |cs1|
  {
    if |cs1| > 0 && !Accepts(compat, cs1[0], x) {
      FirstAcceptingSame(compat, cs1[1..], cs2[1..], x);
    }
  }

  /** An individual that no cluster of the start accepts founds a cluster:
      placing ends with more clusters than it started from. */
  lemma OrphanFoundsSpecies(compat: (Individual, Individual) -> bool, p: Placement, xs: seq<Individual>, j: nat)
    requires j < |xs| && FirstAccepting(compat, p.clusters, xs[j]) == |p.clusters|
    ensures |PlaceAll(compat, p, xs).clusters| > |p.clusters|
  {
    PlaceAllFoundsNoneIff(compat, p, xs);
    PlaceAllIds(compat, p, xs);
  }

  /** No cluster is founded exactly when every individual is accepted by
      one of the clusters placing started from. */
  lemma {:induction false} PlaceAllFoundsNoneIff(compat: (Individual, Individual) -> bool, p: Placement, xs: seq<Individual>)
    ensures |PlaceAll(compat, p, xs).clusters| == |p.clusters| <==>
      forall j | 0 <= j < |xs| :: FirstAccepting(compat, p.clusters, xs[j]) < |p.clusters|
    decreases |xs|
  {
    if |xs| > 0 {
      var n := |xs| - 1;
      var x := xs[n];
      var q := PlaceAll(compat, p, xs[..n]);
      var r := Place(compat, q, x);
      assert PlaceAll(compat, p, xs) == r;
      PlaceAllFoundsNoneIff(compat, p, xs[..n]);
      var k := FirstAccepting(compat, q.clusters, x);
      assert |r.clusters| == |q.clusters| <==> k < |q.clusters|;
      var before := forall j | 0 <= j < n :: FirstAccepting(compat, p.clusters, xs[j]) < |p.clusters|;
      assert before <==> |q.clusters| == |p.clusters| by {
        assert forall j | 0 <= j < n :: xs[..n][j] == xs[j];
      }
      var all := forall j | 0 <= j < |xs| :: FirstAccepting(compat, p.clusters, xs[j]) < |p.clusters|;
      assert all <==> before && FirstAccepting(compat, p.clusters, x) < |p.clusters|;
      if |q.clusters| == |p.clusters| {
        UnfoundedSameFirst(compat, p, xs[..n], x);
      }
    }
  }

  /** While placing has founded nothing, the first cluster accepting x is
      the same as at the start. */
  lemma UnfoundedSameFirst(compat: (Individual, Individual) -> bool, p: Placement, xs: seq<Individual>, x: Individual)
    requires |PlaceAll(compat, p, xs).clusters| == |p.clusters|
    ensures FirstAccepting(compat, PlaceAll(compat, p, xs).clusters, x) == FirstAccepting(compat, p.clusters, x)
  {
    var q := PlaceAll(compat, p, xs);
    forall i | 0 <= i < |p.clusters| ensures Accepts(compat, q.clusters[i], x) == Accepts(compat, p.clusters[i], x) {
      PlaceAllKeepsAccepts(compat, p, xs, i, x);
    }
    FirstAcceptingSame(compat, q.clusters, p.clusters, x);
  }

  function Ids(cs: seq<Cluster>): (r: seq<nat>)
    ensures |r| == |cs| && forall j | 0 <= j < |cs| :: r[j] == cs[j].id
  {
    seq(|cs|, j requires 0 <= j < |cs| => cs[j].id)
  }

  predicate DistinctIds(cs: seq<Cluster>) {
    forall i, j | 0 <= i < j < |cs| :: cs[i].id != cs[j].id
  }

  /** The clusters `cleanup` keeps: the non-empty ones, in order
      (SurvivorsAreNonEmpty and SurvivorsKeepNonEmpty state which). */
  function Survivors(cs: seq<Cluster>): (r: seq<Cluster>)
    ensures |r| <= |cs|
    decreases |cs|
  {
    if |cs| == 0 then []
    else Survivors(cs[..|cs| - 1]) + (if |cs[|cs| - 1].members| > 0 then [cs[|cs| - 1]] else [])
  }

  /** Dropping the empty clusters loses no individual. */
  lemma {:induction false} SurvivorsKeepMembers(cs: seq<Cluster>)
    ensures Pool(Survivors(cs)) == Pool(cs)
    ensures MemberCount(Survivors(cs)) == MemberCount(cs)
    decreases |cs|
  {
    if |cs| > 0 {
      var n := |cs| - 1;
      var init := cs[..n];
      var last := cs[n];
      SurvivorsKeepMembers(init);
      var ri := Survivors(init);
      assert cs == init + [last];
      PoolAppend(init, last);
      var m := multiset(IndividualsOf(last.members));
      assert Pool(cs) == Pool(init) + m;
      if |last.members| > 0 {
        assert Survivors(cs) == ri + [last];
        PoolAppend(ri, last);
      } else {
        assert Survivors(cs) == ri;
        assert IndividualsOf(last.members) == [];
        assert m == multiset{};
      }
    }
    MemberCountIsPoolSize(cs);
    MemberCountIsPoolSize(Survivors(cs));
  }

  /** The surviving clusters were there before, are non-empty and keep
      distinct ids distinct. */
  lemma {:induction false} SurvivorsAreNonEmpty(cs: seq<Cluster>)
    ensures forall c | c in Survivors(cs) :: c in cs && |c.members| > 0
    ensures DistinctIds(cs) ==> DistinctIds(Survivors(cs))
    decreases |cs|
  {
    if |cs| > 0 {
      var n := |cs| - 1;
      var init := cs[..n];
      SurvivorsAreNonEmpty(init);
      var ri := Survivors(init);
      assert forall c | c in init :: c in cs;
      if |cs[n].members| > 0 && DistinctIds(cs) {
        forall i | 0 <= i < |ri| ensures ri[i].id != cs[n].id {
          assert ri[i] in ri;
          var k :| 0 <= k < n && init[k] == ri[i];
        }
      }
    }
  }

  /** Every non-empty cluster survives. */
  lemma {:induction false} SurvivorsKeepNonEmpty(cs: seq<Cluster>)
    ensures forall c | c in cs && |c.members| > 0 :: c in Survivors(cs)
    decreases |cs|
  {
    if |cs| > 0 {
      var n := |cs| - 1;
      var init := cs[..n];
      SurvivorsKeepNonEmpty(init);
      var ri := Survivors(init);
      assert cs == init + [cs[n]];
      forall c | c in cs && |c.members| > 0 ensures c in Survivors(cs) {
        if c != cs[n] {
          assert c in init;
          assert c in ri;
        }
      }
    }
  }
}

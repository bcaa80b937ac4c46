/** Offspring allocation: every species receives offspring in proportion to
    the adjusted fitness of its members, rounded to the nearest count.
    These are the pure parts of `_count_offsprings`: the average adjusted
    fitness and the rounded per-species amounts. */
module Allocation {
  import opened Outcomes
  import opened Individuals
  import opened FirstFit

  function Sum(xs: seq<int>): int
    decreases |xs|
  {
    if |xs| == 0 then 0 else Sum(xs[..|xs| - 1]) + xs[|xs| - 1]
  }

  lemma {:induction false} SumUpdate(xs: seq<int>, i: nat, v: int)
    requires i < |xs|
    ensures Sum(xs[i := v]) == Sum(xs) - xs[i] + v
    decreases |xs|
  {
    var last := |xs| - 1;
    if i < last {
      assert xs[i := v][..last] == xs[..last][i := v];
      SumUpdate(xs[..last], i, v);
    } else {
      assert xs[i := v][..last] == xs[..last];
    }
  }

  lemma {:induction false} SumOfNats(xs: seq<nat>)
    ensures Sum(xs) >= 0
    ensures forall i | 0 <= i < |xs| :: xs[i] <= Sum(xs)
    decreases |xs|
  {
    if |xs| > 0 {
      SumOfNats(xs[..|xs| - 1]);
    }
  }

  function SumReals(xs: seq<real>): real
    decreases |xs|
  {
    if |xs| == 0 then 0.0 else SumReals(xs[..|xs| - 1]) + xs[|xs| - 1]
  }

  lemma Distribute(s: real, s1: real, s2: real, t: real, t1: real, t2: real, c: real)
    requires s == s1 + s2 && t == t1 + t2
    requires s1 * c == t1 && s2 * c == t2
    ensures s * c == t
  {
  }

  /** Scaling every term scales the sum. */
  lemma {:induction false} ScaledSum(xs: seq<real>, ys: seq<real>, c: real)
    requires |xs| == |ys|
    requires forall i | 0 <= i < |xs| :: xs[i] * c == ys[i]
    ensures SumReals(xs) * c == SumReals(ys)
    decreases |xs|
  {
    if |xs| > 0 {
      var n := |xs| - 1;
      ScaledSum(xs[..n], ys[..n], c);
      Distribute(SumReals(xs), SumReals(xs[..n]), xs[n], SumReals(ys), SumReals(ys[..n]), ys[n], c);
    }
  }

  lemma {:induction false} SumNonNegative(xs: seq<real>)
    requires forall i | 0 <= i < |xs| :: xs[i] >= 0.0
    ensures SumReals(xs) >= 0.0
    decreases |xs|
  {
    if |xs| > 0 {
      SumNonNegative(xs[..|xs| - 1]);
    }
  }

  lemma {:induction false} SumOfZeros(xs: seq<real>)
    requires forall i | 0 <= i < |xs| :: xs[i] == 0.0
    ensures SumReals(xs) == 0.0
    decreases |xs|
  {
    if |xs| > 0 {
      SumOfZeros(xs[..|xs| - 1]);
    }
  }

  /** Every member carries a non-negative adjusted fitness, as a completed
      fitness-sharing pass leaves it. */
  predicate AdjustedMembers(ms: seq<Member>) {
    forall q | 0 <= q < |ms| :: ms[q].adjusted.Some? && ms[q].adjusted.value >= 0.0
  }

  predicate Adjusted(cs: seq<Cluster>) {
    forall i | 0 <= i < |cs| :: AdjustedMembers(cs[i].members)
  }

  function Values(ms: seq<Member>): (r: seq<real>)
    requires AdjustedMembers(ms)
    ensures |r| == |ms| && forall q | 0 <= q < |ms| :: r[q] == ms[q].adjusted.value
  {
    seq(|ms|, q requires 0 <= q < |ms| && AdjustedMembers(ms) => ms[q].adjusted.value)
  }

  /** One quotient per member, as the source accumulates them. */
  function Quotients(ms: seq<Member>, avg: real): (r: seq<real>)
    requires AdjustedMembers(ms) && avg > 0.0
    ensures |r| == |ms| && forall q | 0 <= q < |ms| :: r[q] == ms[q].adjusted.value / avg
  {
    seq(|ms|, q requires 0 <= q < |ms| && AdjustedMembers(ms) && avg > 0.0 => ms[q].adjusted.value / avg)
  }

  function AdjustedSum(ms: seq<Member>): real
    requires AdjustedMembers(ms)
  {
    SumReals(Values(ms))
  }

  function AdjustedSums(cs: seq<Cluster>): (r: seq<real>)
    requires Adjusted(cs)
    ensures |r| == |cs| && forall i | 0 <= i < |cs| :: AdjustedMembers(cs[i].members) && r[i] == AdjustedSum(cs[i].members)
  {
    seq(|cs|, i requires 0 <= i < |cs| && Adjusted(cs) => AdjustedSum(cs[i].members))
  }

  /** The total adjusted fitness of the population: never negative, and 0
      when there are no members, so a positive total implies members. */
  function TotalAdjusted(cs: seq<Cluster>): (r: real)
    requires Adjusted(cs)
    ensures r >= 0.0
    ensures MemberCount(cs) == 0 ==> r == 0.0
  {
    SumsNonNegative(cs);
    EmptySumsAreZero(cs);
    SumReals(AdjustedSums(cs))
  }

  lemma SumsNonNegative(cs: seq<Cluster>)
    requires Adjusted(cs)
    ensures SumReals(AdjustedSums(cs)) >= 0.0
  {
    var ts := AdjustedSums(cs);
    forall i | 0 <= i < |cs| ensures ts[i] >= 0.0 {
      SumNonNegative(Values(cs[i].members));
    }
    SumNonNegative(ts);
  }

  lemma {:induction false} NoMembersNoClusterMembers(cs: seq<Cluster>)
    requires MemberCount(cs) == 0
    ensures forall i | 0 <= i < |cs| :: |cs[i].members| == 0
    decreases |cs|
  {
    if |cs| > 0 {
      NoMembersNoClusterMembers(cs[..|cs| - 1]);
      assert forall i | 0 <= i < |cs| - 1 :: cs[i] == cs[..|cs| - 1][i];
    }
  }

  lemma EmptySumsAreZero(cs: seq<Cluster>)
    requires Adjusted(cs)
    ensures MemberCount(cs) == 0 ==> SumReals(AdjustedSums(cs)) == 0.0
  {
    if MemberCount(cs) == 0 {
      NoMembersNoClusterMembers(cs);
      forall i | 0 <= i < |cs| ensures AdjustedSums(cs)[i] == 0.0 {
        assert Values(cs[i].members) == [];
      }
      SumOfZeros(AdjustedSums(cs));
    }
  }

  /** The mean adjusted fitness over all members of all species. */
  function AverageFitness(cs: seq<Cluster>): (avg: real)
    requires Adjusted(cs) && TotalAdjusted(cs) > 0.0
    ensures MemberCount(cs) > 0
    ensures avg > 0.0 && avg * (MemberCount(cs) as real) == TotalAdjusted(cs)
  {
    TotalAdjusted(cs) / (MemberCount(cs) as real)
  }

  /** A species' unrounded share: one quotient per member, accumulated as
      the source does. It is the species' adjusted fitness over the
      average, and never negative. */
  function Share(ms: seq<Member>, avg: real): (r: real)
    requires AdjustedMembers(ms) && avg > 0.0
    ensures r >= 0.0
    ensures r == AdjustedSum(ms) / avg
  {
    QuotientsNonNegative(ms, avg);
    QuotientsScale(ms, avg);
    DivideBack(SumReals(Quotients(ms, avg)), AdjustedSum(ms), avg);
    SumReals(Quotients(ms, avg))
  }

  lemma QuotientsNonNegative(ms: seq<Member>, avg: real)
    requires AdjustedMembers(ms) && avg > 0.0
    ensures SumReals(Quotients(ms, avg)) >= 0.0
  {
    var qs := Quotients(ms, avg);
    forall q | 0 <= q < |ms| ensures qs[q] >= 0.0 {
      assert ms[q].adjusted.value >= 0.0;
    }
    SumNonNegative(qs);
  }

  lemma QuotientsScale(ms: seq<Member>, avg: real)
    requires AdjustedMembers(ms) && avg > 0.0
    ensures SumReals(Quotients(ms, avg)) * avg == AdjustedSum(ms)
  {
    var qs, vs := Quotients(ms, avg), Values(ms);
    forall q | 0 <= q < |ms| ensures qs[q] * avg == vs[q] {
      var a := ms[q].adjusted.value;
      assert (a / avg) * avg == a;
    }
    ScaledSum(qs, vs, avg);
  }

  lemma DivideBack(r: real, s: real, c: real)
    requires c > 0.0 && r * c == s
    ensures r == s / c
  {
  }

  /** `std::lround` on a non-negative value: the nearest count, halves rounded up. */
  function Round(x: real): (n: nat)
    requires x >= 0.0
    ensures x - 0.5 < n as real <= x + 0.5
  {
    (x + 0.5).Floor
  }

  /** A species' offspring amount: its share rounded to the nearest count. */
  function RoundedShare(ms: seq<Member>, avg: real): (n: nat)
    requires AdjustedMembers(ms) && avg > 0.0
    ensures Share(ms, avg) - 0.5 < n as real <= Share(ms, avg) + 0.5
  {
    Round(Share(ms, avg))
  }

  /** The rounded offspring amount of every species, in order. */
  function PopulationSizes(cs: seq<Cluster>, avg: real): (r: seq<nat>)
    requires Adjusted(cs) && avg > 0.0
    ensures |r| == |cs|
    ensures forall i | 0 <= i < |cs| :: AdjustedMembers(cs[i].members) && r[i] == RoundedShare(cs[i].members, avg)
  {
    seq(|cs|, i requires 0 <= i < |cs| && Adjusted(cs) && avg > 0.0 => RoundedShare(cs[i].members, avg))
  }

  function Shares(cs: seq<Cluster>, avg: real): (r: seq<real>)
    requires Adjusted(cs) && avg > 0.0
    ensures |r| == |cs| && forall i | 0 <= i < |cs| :: AdjustedMembers(cs[i].members) && r[i] == Share(cs[i].members, avg)
  {
    seq(|cs|, i requires 0 <= i < |cs| && Adjusted(cs) && avg > 0.0 => Share(cs[i].members, avg))
  }

  function ShareSum(cs: seq<Cluster>, avg: real): real
    requires Adjusted(cs) && avg > 0.0
  {
    SumReals(Shares(cs, avg))
  }

  lemma ShareSumIsQuotient(cs: seq<Cluster>, avg: real)
    requires Adjusted(cs) && avg > 0.0
    ensures ShareSum(cs, avg) * avg == TotalAdjusted(cs)
  {
    var ss, ts := Shares(cs, avg), AdjustedSums(cs);
    SharesAreQuotients(cs, avg, ss, ts);
    ScaledSum(ss, ts, avg);
    assert ShareSum(cs, avg) == SumReals(ss) && TotalAdjusted(cs) == SumReals(ts);
  }

  lemma SharesAreQuotients(cs: seq<Cluster>, avg: real, ss: seq<real>, ts: seq<real>)
    requires Adjusted(cs) && avg > 0.0 && ss == Shares(cs, avg) && ts == AdjustedSums(cs)
    ensures |ss| == |ts| && forall i | 0 <= i < |ss| :: ss[i] * avg == ts[i]
  {
    forall i | 0 <= i < |cs| ensures ss[i] * avg == ts[i] {
      QuotientsScale(cs[i].members, avg);
    }
  }

  lemma Cancel(a: real, b: real, c: real)
    requires c > 0.0 && a * c == b * c
    ensures a == b
  {
  }

  /** Against the true average, the unrounded shares add up to the number of members. */
  lemma SharesAddUpToMembers(cs: seq<Cluster>)
    requires Adjusted(cs) && TotalAdjusted(cs) > 0.0
    ensures ShareSum(cs, AverageFitness(cs)) == MemberCount(cs) as real
  {
    var avg := AverageFitness(cs);
    ShareSumIsQuotient(cs, avg);
    Cancel(ShareSum(cs, avg), MemberCount(cs) as real, avg);
  }

  lemma {:induction false} RoundingGapTerms(ns: seq<nat>, xs: seq<real>)
    requires |ns| == |xs|
    requires forall i | 0 <= i < |xs| :: xs[i] - 0.5 < ns[i] as real <= xs[i] + 0.5
    ensures SumReals(xs) - 0.5 * (|xs| as real) <= Sum(ns) as real <= SumReals(xs) + 0.5 * (|xs| as real)
    decreases |xs|
  {
    if |xs| > 0 {
      RoundingGapTerms(ns[..|ns| - 1], xs[..|xs| - 1]);
    }
  }

  /** Rounding moves each species by at most one half. */
  lemma RoundingGap(cs: seq<Cluster>, avg: real)
    requires Adjusted(cs) && avg > 0.0
    ensures ShareSum(cs, avg) - 0.5 * (|cs| as real) <= Sum(PopulationSizes(cs, avg)) as real
    ensures Sum(PopulationSizes(cs, avg)) as real <= ShareSum(cs, avg) + 0.5 * (|cs| as real)
  {
    RoundingGapTerms(PopulationSizes(cs, avg), Shares(cs, avg));
  }

  /** So the rounded amounts miss the population they stand for by at most
      half the number of species: the correction `_correct_population_size`
      has to make is that small. */
  lemma RoundedAmountsNearCount(cs: seq<Cluster>)
    requires Adjusted(cs) && TotalAdjusted(cs) > 0.0
    ensures var avg := AverageFitness(cs);
      var missing := MemberCount(cs) - Sum(PopulationSizes(cs, avg));
      -0.5 * (|cs| as real) <= missing as real <= 0.5 * (|cs| as real)
  {
    SharesAddUpToMembers(cs);
    RoundingGap(cs, AverageFitness(cs));
  }

  /** Three single-member species with adjusted fitness 10, 20 and 30: the
      average is 20, the shares 0.5, 1 and 1.5 round to 1, 1 and 2, one more
      than the three members. */
  lemma AllocationExample(x: Individual, y: Individual, z: Individual)
    ensures var cs := [Cluster(1, [Member(Some(10.0), x)]),
                       Cluster(2, [Member(Some(20.0), y)]),
                       Cluster(3, [Member(Some(30.0), z)])];
      && Adjusted(cs) && TotalAdjusted(cs) == 60.0
      && AverageFitness(cs) == 20.0
      && PopulationSizes(cs, 20.0) == [1, 1, 2]
      && Sum(PopulationSizes(cs, 20.0)) == MemberCount(cs) + 1
  {
    var m0, m1, m2 := [Member(Some(10.0), x)], [Member(Some(20.0), y)], [Member(Some(30.0), z)];
    var cs := [Cluster(1, m0), Cluster(2, m1), Cluster(3, m2)];
    assert cs[..2] == [cs[0], cs[1]] && cs[..2][..1] == [cs[0]] && [cs[0]][..0] == [];
    assert MemberCount([cs[0]]) == 1;
    assert MemberCount(cs[..2]) == 2;
    assert MemberCount(cs) == 3;
    SingletonSum(10.0);
    SingletonSum(20.0);
    SingletonSum(30.0);
    assert Values(m0) == [10.0] && Values(m1) == [20.0] && Values(m2) == [30.0];
    assert AdjustedSums(cs) == [10.0, 20.0, 30.0];
    TripleSum(10.0, 20.0, 30.0);
    assert TotalAdjusted(cs) == 60.0;
    assert Quotients(m0, 20.0) == [0.5] && Quotients(m1, 20.0) == [1.0] && Quotients(m2, 20.0) == [1.5];
    SingletonSum(0.5);
    SingletonSum(1.0);
    SingletonSum(1.5);
    var sizes := PopulationSizes(cs, 20.0);
    assert sizes == [1, 1, 2];
    assert sizes[..2] == [1, 1] && sizes[..2][..1] == [1] && [1][..0] == [];
    assert Sum([1]) == 1 && Sum([1, 1]) == 2 && Sum(sizes) == 4;
  }

  lemma SingletonSum(a: real)
    ensures SumReals([a]) == a
  {
    assert [a][..0] == [];
  }

  lemma TripleSum(a: real, b: real, c: real)
    ensures SumReals([a, b, c]) == a + b + c
  {
    assert [a, b, c][..2] == [a, b] && [a, b][..1] == [a] && [a][..0] == [];
    assert SumReals([a]) == a;
    assert SumReals([a, b]) == a + b;
  }
}

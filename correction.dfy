/** The correction `_correct_population_size` applies when the rounded
    amounts do not add up to the requested number of offspring, and the whole
    result of `_count_offsprings`.

    A deficit goes entirely to the best species. An excess is taken back
    greedily: from the worst species that is neither empty nor already
    visited, as much as it has, then from the next worst, until nothing is
    left over. */
module Correction {
  import opened Outcomes
  import opened Individuals
  import opened FirstFit
  import opened Allocation

  /** A species `get_worst` may choose: not excluded and large enough. */
  predicate EligibleCluster(c: Cluster, minimalSize: nat, excluded: set<nat>) {
    c.id !in excluded && |c.members| >= minimalSize
  }

  /** w is the position `get_worst` is meant to return: the first eligible
      species whose best fitness no other eligible species undercuts, or the
      end position when none is eligible. */
  predicate IsWorst(cs: seq<Cluster>, scores: seq<Score>, minimalSize: nat, excluded: set<nat>, w: nat)
    requires |scores| == |cs|
  {
    && w <= |cs|
    && (w == |cs| <==> forall j | 0 <= j < |cs| :: !EligibleCluster(cs[j], minimalSize, excluded))
    && (w < |cs| ==> EligibleCluster(cs[w], minimalSize, excluded))
    && (w < |cs| ==> forall j | 0 <= j < |cs| && EligibleCluster(cs[j], minimalSize, excluded) ::
          !ScoreLess(scores[j], scores[w]))
    && (w < |cs| ==> forall j | 0 <= j < w && EligibleCluster(cs[j], minimalSize, excluded) ::
          ScoreLess(scores[w], scores[j]))
  }

  /** The intended `get_worst` result is determined: two positions that both
      satisfy IsWorst are the same. */
  lemma IsWorstUnique(cs: seq<Cluster>, scores: seq<Score>, minimalSize: nat, excluded: set<nat>, w1: nat, w2: nat)
    requires |scores| == |cs|
    requires IsWorst(cs, scores, minimalSize, excluded, w1) && IsWorst(cs, scores, minimalSize, excluded, w2)
    ensures w1 == w2
  {
    if w1 < |cs| && w2 < |cs| {
      ScoreLessTotal(scores[w1], scores[w2]);
    }
  }

  /** The intended `get_worst` position, scanning from the front. */
  function WorstIndex(cs: seq<Cluster>, scores: seq<Score>, minimalSize: nat, excluded: set<nat>): (w: nat)
    requires |scores| == |cs|
    ensures IsWorst(cs, scores, minimalSize, excluded, w)
    decreases |cs|
  {
    if |cs| == 0 then 0
    else
      var n := |cs| - 1;
      var w := WorstIndex(cs[..n], scores[..n], minimalSize, excluded);
      assert forall j | 0 <= j < n :: cs[..n][j] == cs[j] && scores[..n][j] == scores[j];
      if !EligibleCluster(cs[n], minimalSize, excluded) then
        if w == n then n + 1 else w
      else if w == n || ScoreLess(scores[n], scores[w]) then
        assert w < n ==> forall j | 0 <= j < |cs| && EligibleCluster(cs[j], minimalSize, excluded) ::
          !ScoreLess(scores[j], scores[n]) && (j < n ==> ScoreLess(scores[n], scores[j])) by {
          if w < n {
            forall j | 0 <= j < |cs| && EligibleCluster(cs[j], minimalSize, excluded)
              ensures !ScoreLess(scores[j], scores[n]) && (j < n ==> ScoreLess(scores[n], scores[j]))
            {
              ScoreLessTotal(scores[j], scores[n]);
              if j < n {
                ScoreLessTotal(scores[j], scores[w]);
                if scores[j] != scores[w] {
                  ScoreLessTransitive(scores[n], scores[w], scores[j]);
                }
              }
            }
          }
        }
        n
      else
        ScoreLessTotal(scores[n], scores[w]);
        w
  }

  /** When every eligible species has a best fitness and one is eligible,
      the intended position is a species with a fitness, never the end. */
  lemma ScoredWorstIsFound(cs: seq<Cluster>, scores: seq<Score>, minimalSize: nat, excluded: set<nat>, j: nat)
    requires |scores| == |cs| && j < |cs| && EligibleCluster(cs[j], minimalSize, excluded)
    requires forall i | 0 <= i < |cs| && EligibleCluster(cs[i], minimalSize, excluded) :: scores[i] != Absent
    ensures WorstIndex(cs, scores, minimalSize, excluded) < |cs|
    ensures scores[WorstIndex(cs, scores, minimalSize, excluded)] != Absent
  {
  }

  /** The number of eligible (non-empty, not excluded) species. */
  function EligibleCount(cs: seq<Cluster>, excluded: set<nat>): nat
    decreases |cs|
  {
    if |cs| == 0 then 0
    else EligibleCount(cs[..|cs| - 1], excluded) + (if EligibleCluster(cs[|cs| - 1], 1, excluded) then 1 else 0)
  }

  /** Excluding the id of an eligible species makes fewer species eligible. */
  lemma {:induction false} EligibleCountShrinks(cs: seq<Cluster>, excluded: set<nat>, w: nat)
    requires w < |cs| && EligibleCluster(cs[w], 1, excluded)
    ensures EligibleCount(cs, excluded + {cs[w].id}) < EligibleCount(cs, excluded)
    decreases |cs|
  {
    var n := |cs| - 1;
    if w < n {
      EligibleCountShrinks(cs[..n], excluded, w);
    } else {
      EligibleCountMonotone(cs[..n], excluded, excluded + {cs[w].id});
    }
  }

  lemma {:induction false} EligibleCountMonotone(cs: seq<Cluster>, excluded: set<nat>, more: set<nat>)
    requires excluded <= more
    ensures EligibleCount(cs, more) <= EligibleCount(cs, excluded)
    decreases |cs|
  {
    if |cs| > 0 {
      EligibleCountMonotone(cs[..|cs| - 1], excluded, more);
    }
  }

  /** The offspring the eligible species hold between them. */
  function EligibleAmount(cs: seq<Cluster>, amounts: seq<nat>, excluded: set<nat>): nat
    requires |amounts| == |cs|
    decreases |cs|
  {
    if |cs| == 0 then 0
    else
      var n := |cs| - 1;
      EligibleAmount(cs[..n], amounts[..n], excluded) + (if EligibleCluster(cs[n], 1, excluded) then amounts[n] else 0)
  }

  lemma {:induction false} NoneEligibleNoAmount(cs: seq<Cluster>, amounts: seq<nat>, excluded: set<nat>)
    requires |amounts| == |cs|
    requires forall j | 0 <= j < |cs| :: !EligibleCluster(cs[j], 1, excluded)
    ensures EligibleAmount(cs, amounts, excluded) == 0
    decreases |cs|
  {
    if |cs| > 0 {
      var n := |cs| - 1;
      assert forall j | 0 <= j < n :: cs[..n][j] == cs[j];
      NoneEligibleNoAmount(cs[..n], amounts[..n], excluded);
    }
  }

  /** Before anything is excluded, the eligible species hold every offspring
      as long as empty species hold none. */
  lemma {:induction false} EligibleAmountOfAll(cs: seq<Cluster>, amounts: seq<nat>)
    requires |amounts| == |cs|
    requires forall j | 0 <= j < |cs| && |cs[j].members| == 0 :: amounts[j] == 0
    ensures EligibleAmount(cs, amounts, {}) == Sum(amounts)
    decreases |cs|
  {
    if |cs| > 0 {
      var n := |cs| - 1;
      assert forall j | 0 <= j < n :: cs[..n][j] == cs[j] && amounts[..n][j] == amounts[j];
      EligibleAmountOfAll(cs[..n], amounts[..n]);
    }
  }

  /** Emptying species w and excluding its id removes exactly its amount from
      the eligible total: no other species carries that id. */
  lemma {:induction false} EligibleAmountStep(cs: seq<Cluster>, amounts: seq<nat>, excluded: set<nat>, w: nat)
    requires |amounts| == |cs| && DistinctIds(cs)
    requires w < |cs| && EligibleCluster(cs[w], 1, excluded)
    ensures EligibleAmount(cs, amounts[w := 0], excluded + {cs[w].id}) == EligibleAmount(cs, amounts, excluded) - amounts[w]
    decreases |cs|
  {
    var n := |cs| - 1;
    var ex := excluded + {cs[w].id};
    assert forall j | 0 <= j < n :: cs[..n][j] == cs[j];
    if w < n {
      assert amounts[w := 0][..n] == amounts[..n][w := 0];
      EligibleAmountStep(cs[..n], amounts[..n], excluded, w);
      assert cs[n].id != cs[w].id;
    } else {
      assert amounts[w := 0][..n] == amounts[..n];
      EligibleAmountUnaffected(cs[..n], amounts[..n], excluded, cs[w].id);
    }
  }

  /** Excluding an id no species carries changes nothing. */
  lemma {:induction false} EligibleAmountUnaffected(cs: seq<Cluster>, amounts: seq<nat>, excluded: set<nat>, id: nat)
    requires |amounts| == |cs| && forall j | 0 <= j < |cs| :: cs[j].id != id
    ensures EligibleAmount(cs, amounts, excluded + {id}) == EligibleAmount(cs, amounts, excluded)
    decreases |cs|
  {
    if |cs| > 0 {
      var n := |cs| - 1;
      assert forall j | 0 <= j < n :: cs[..n][j] == cs[j];
      EligibleAmountUnaffected(cs[..n], amounts[..n], excluded, id);
    }
  }

  /** The excess branch of `_correct_population_size`: repeatedly take the
      worst eligible species and lower its amount by as much of the excess as
      it holds, excluding it afterwards. Indexing with the end position, which
      the source does when no species is eligible, is an error here. */
  function Trim(cs: seq<Cluster>, scores: seq<Score>, amounts: seq<nat>, excess: nat, excluded: set<nat>): (t: Result<seq<nat>>)
    requires |scores| == |cs| && |amounts| == |cs|
    ensures t.Ok? ==> |t.value| == |amounts| && forall j | 0 <= j < |amounts| :: t.value[j] <= amounts[j]
    ensures excess == 0 ==> t == Ok(amounts)
    ensures t.Err? ==> t.error.SpeciesIndexOutOfRange? && t.error.index == |cs|
    decreases EligibleCount(cs, excluded)
  {
    if excess == 0 then Ok(amounts)
    else
      var w := WorstIndex(cs, scores, 1, excluded);
      if w == |cs| then Err(SpeciesIndexOutOfRange(w))
      else if amounts[w] > excess then Ok(amounts[w := amounts[w] - excess])
      else
        EligibleCountShrinks(cs, excluded, w);
        Trim(cs, scores, amounts[w := 0], excess - amounts[w], excluded + {cs[w].id})
  }

  /** One step of trimming: the worst eligible species gives up what it
      can and is excluded; what remains is trimmed from the new state. */
  lemma TrimStep(cs: seq<Cluster>, scores: seq<Score>, amounts: seq<nat>, excess: nat, excluded: set<nat>,
                 w: nat, next: seq<nat>, rest: nat)
    requires |scores| == |cs| && |amounts| == |cs| && excess > 0
    requires w == WorstIndex(cs, scores, 1, excluded) && w < |cs|
    requires amounts[w] > excess ==> next == amounts[w := amounts[w] - excess] && rest == 0
    requires amounts[w] <= excess ==> next == amounts[w := 0] && rest == excess - amounts[w]
    ensures Trim(cs, scores, amounts, excess, excluded) == Trim(cs, scores, next, rest, excluded + {cs[w].id})
  {
  }

  /** With distinct ids and no more excess than the eligible species hold,
      trimming succeeds, removes exactly the excess, never raises an amount
      and leaves the ineligible species alone. */
  lemma {:induction false} TrimRemovesExcess(cs: seq<Cluster>, scores: seq<Score>, amounts: seq<nat>, excess: nat, excluded: set<nat>)
    requires |scores| == |cs| && |amounts| == |cs| && DistinctIds(cs)
    requires excess <= EligibleAmount(cs, amounts, excluded)
    ensures Trim(cs, scores, amounts, excess, excluded).Ok?
    ensures var r := Trim(cs, scores, amounts, excess, excluded).value;
      && |r| == |amounts|
      && Sum(r) == Sum(amounts) - excess
      && (forall j | 0 <= j < |r| :: r[j] <= amounts[j])
      && (forall j | 0 <= j < |r| && !EligibleCluster(cs[j], 1, excluded) :: r[j] == amounts[j])
    decreases EligibleCount(cs, excluded)
  {
    if excess > 0 {
      var w := WorstIndex(cs, scores, 1, excluded);
      if w == |cs| {
        NoneEligibleNoAmount(cs, amounts, excluded);
        assert false;
      }
      if amounts[w] > excess {
        SumUpdate(amounts, w, amounts[w] - excess);
      } else {
        var next := amounts[w := 0];
        EligibleCountShrinks(cs, excluded, w);
        EligibleAmountStep(cs, amounts, excluded, w);
        TrimRemovesExcess(cs, scores, next, excess - amounts[w], excluded + {cs[w].id});
        SumUpdate(amounts, w, 0);
      }
    }
  }

  /** `_correct_population_size`: a deficit (positive missing) goes to
      position best, which must be a species; an excess (negative missing) is
      trimmed from the worst species; nothing missing changes nothing. */
  function Corrected(cs: seq<Cluster>, scores: seq<Score>, best: nat, amounts: seq<nat>, missing: int): (r: Result<seq<nat>>)
    requires |scores| == |cs| && |amounts| == |cs|
    ensures r.Ok? ==> |r.value| == |cs|
    ensures missing == 0 ==> r == Ok(amounts)
    ensures missing > 0 ==> (r.Ok? <==> best < |cs|)
    ensures missing < 0 && r.Ok? ==> forall j | 0 <= j < |cs| :: r.value[j] <= amounts[j]
  {
    if missing > 0 then
      if best < |amounts| then Ok(amounts[best := amounts[best] + missing]) else Err(SpeciesIndexOutOfRange(best))
    else if missing < 0 then Trim(cs, scores, amounts, -missing, {})
    else Ok(amounts)
  }

  /** When the amounts can absorb the correction (their total plus missing
      is not negative, species without members hold nothing and ids are
      distinct) and the best position is a species, the correction succeeds
      and the total becomes exactly the total plus missing. A deficit changes
      only the best species' amount; an excess only lowers amounts. */
  lemma CorrectionAddsMissing(cs: seq<Cluster>, scores: seq<Score>, best: nat, amounts: seq<nat>, missing: int)
    requires |scores| == |cs| && |amounts| == |cs| && DistinctIds(cs) && best < |cs|
    requires forall j | 0 <= j < |cs| && |cs[j].members| == 0 :: amounts[j] == 0
    requires Sum(amounts) + missing >= 0
    ensures Corrected(cs, scores, best, amounts, missing).Ok?
    ensures var r := Corrected(cs, scores, best, amounts, missing).value;
      && Sum(r) == Sum(amounts) + missing
      && (missing >= 0 ==> forall j | 0 <= j < |cs| && j != best :: r[j] == amounts[j])
      && (missing <= 0 ==> forall j | 0 <= j < |cs| :: r[j] <= amounts[j])
  {
    var r := Corrected(cs, scores, best, amounts, missing);
    if missing > 0 {
      assert r == Ok(amounts[best := amounts[best] + missing]);
      DeficitGoesToBest(amounts, best, missing);
    } else if missing < 0 {
      assert r == Trim(cs, scores, amounts, -missing, {});
      ExcessIsTrimmed(cs, scores, amounts, -missing);
    }
  }

  /** A deficit is added to the best species' amount alone. */
  lemma DeficitGoesToBest(amounts: seq<nat>, best: nat, missing: nat)
    requires best < |amounts|
    ensures var r := amounts[best := amounts[best] + missing];
      && Sum(r) == Sum(amounts) + missing
      && forall j | 0 <= j < |amounts| && j != best :: r[j] == amounts[j]
  {
    SumUpdate(amounts, best, amounts[best] + missing);
  }

  /** An excess no larger than the total is trimmed away completely. */
  lemma ExcessIsTrimmed(cs: seq<Cluster>, scores: seq<Score>, amounts: seq<nat>, excess: nat)
    requires |scores| == |cs| && |amounts| == |cs| && DistinctIds(cs) && excess <= Sum(amounts)
    requires forall j | 0 <= j < |cs| && |cs[j].members| == 0 :: amounts[j] == 0
    ensures Trim(cs, scores, amounts, excess, {}).Ok?
    ensures var r := Trim(cs, scores, amounts, excess, {}).value;
      && Sum(r) == Sum(amounts) - excess
      && forall j | 0 <= j < |cs| :: r[j] <= amounts[j]
  {
    EligibleAmountOfAll(cs, amounts);
    TrimRemovesExcess(cs, scores, amounts, excess, {});
  }

  /** The result of `_count_offsprings(n)`: the rounded amounts, corrected
      when they miss n, and rejected when the corrected amounts still do. */
  function Offsprings(cs: seq<Cluster>, scores: seq<Score>, best: nat, n: nat): (r: Result<seq<nat>>)
    requires Adjusted(cs) && TotalAdjusted(cs) > 0.0 && |scores| == |cs|
    ensures r.Ok? ==> |r.value| == |cs| && Sum(r.value) == n
  {
    Allotted(cs, scores, best, PopulationSizes(cs, AverageFitness(cs)), n)
  }

  /** The rounded amounts as they are when they add up to n, corrected and
      checked otherwise. */
  function Allotted(cs: seq<Cluster>, scores: seq<Score>, best: nat, amounts: seq<nat>, n: nat): (r: Result<seq<nat>>)
    requires |scores| == |cs| && |amounts| == |cs|
    ensures r.Ok? ==> |r.value| == |cs| && Sum(r.value) == n
  {
    var missing := n - Sum(amounts);
    if missing == 0 then Ok(amounts) else CheckedCorrection(cs, scores, best, amounts, missing, n)
  }

  /** The corrected amounts, rejected when they still do not add up to n. */
  function CheckedCorrection(cs: seq<Cluster>, scores: seq<Score>, best: nat, amounts: seq<nat>, missing: int, n: nat)
    : (r: Result<seq<nat>>)
    requires |scores| == |cs| && |amounts| == |cs|
    ensures r.Ok? ==> |r.value| == |cs| && Sum(r.value) == n
  {
    match Corrected(cs, scores, best, amounts, missing)
    case Err(e) => Err(e)
    case Ok(a) => if Sum(a) != n then Err(OffspringSumMismatch(Sum(a), n)) else Ok(a)
  }

  /** A species without members is allotted no offspring. */
  lemma EmptySpeciesGetNothing(cs: seq<Cluster>, avg: real)
    requires Adjusted(cs) && avg > 0.0
    ensures forall j | 0 <= j < |cs| && |cs[j].members| == 0 :: PopulationSizes(cs, avg)[j] == 0
  {
    forall j | 0 <= j < |cs| && |cs[j].members| == 0 ensures PopulationSizes(cs, avg)[j] == 0 {
      assert Quotients(cs[j].members, avg) == [];
    }
  }

  /** With distinct species ids and the best position in range, the amounts
      add up to exactly n, one per species: the final check of
      `_count_offsprings` never fails. */
  lemma OffspringsAddUp(cs: seq<Cluster>, scores: seq<Score>, best: nat, n: nat)
    requires Adjusted(cs) && TotalAdjusted(cs) > 0.0 && |scores| == |cs|
    requires DistinctIds(cs) && best < |cs|
    ensures Offsprings(cs, scores, best, n).Ok?
  {
    var avg := AverageFitness(cs);
    EmptySpeciesGetNothing(cs, avg);
    AllottedSucceeds(cs, scores, best, PopulationSizes(cs, avg), n);
  }

  /** Amounts that give species without members nothing always pass the
      correction and its final check. */
  lemma AllottedSucceeds(cs: seq<Cluster>, scores: seq<Score>, best: nat, amounts: seq<nat>, n: nat)
    requires |scores| == |cs| && |amounts| == |cs| && DistinctIds(cs) && best < |cs|
    requires forall j | 0 <= j < |cs| && |cs[j].members| == 0 :: amounts[j] == 0
    ensures Allotted(cs, scores, best, amounts, n).Ok?
  {
    if Sum(amounts) != n {
      CorrectionAddsMissing(cs, scores, best, amounts, n - Sum(amounts));
    }
  }
}

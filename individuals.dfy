/** Individuals as the engine sees them, the member records a species keeps,
    and the fitness order used by every "best" and "worst" search.

    An individual is an abstract value: the engine only reads its fitness
    (absent until it is evaluated); its genome is an opaque handle that only
    the caller's strategies (compatibility, reproduction, mutation) interpret. */
module Individuals {
  import opened Outcomes

  datatype Individual = Individual(genome: nat, fitness: Option<real>)

  /** One entry of a species: the adjusted fitness (absent until a
      fitness-sharing pass has run) and the individual itself. */
  datatype Member = Member(adjusted: Option<real>, individual: Individual)

  /** The values the source compares when it looks for a best or worst
      species: `std::optional<F>` where F has a negative infinity.
      An absent fitness sorts below every value, negative infinity below
      every finite value. */
  datatype Score = Absent | NegInfinity | Finite(value: real)

  predicate ScoreLess(a: Score, b: Score) {
    match a
    case Absent => !b.Absent?
    case NegInfinity => b.Finite?
    case Finite(x) => b.Finite? && x < b.value
  }

  /** The order is a strict total order: any two different scores are comparable. */
  lemma ScoreLessTotal(a: Score, b: Score)
    ensures !ScoreLess(a, a)
    ensures a != b ==> ScoreLess(a, b) || ScoreLess(b, a)
    ensures ScoreLess(a, b) ==> !ScoreLess(b, a)
  {
  }

  lemma ScoreLessTransitive(a: Score, b: Score, c: Score)
    requires ScoreLess(a, b) && ScoreLess(b, c)
    ensures ScoreLess(a, c)
  {
  }

  function FitnessScore(x: Individual): Score {
    match x.fitness
    case None => Absent
    case Some(f) => Finite(f)
  }

  function Scores(ms: seq<Member>): (r: seq<Score>)
    ensures |r| == |ms|
    ensures forall i | 0 <= i < |ms| :: r[i] == FitnessScore(ms[i].individual)
  {
    seq(|ms|, i requires 0 <= i < |ms| => FitnessScore(ms[i].individual))
  }

  /** The position `std::max_element` returns for the comparator `a < b`:
      the first element that nothing exceeds. */
  function FirstMaxIndex(s: seq<Score>): (k: nat)
    requires |s| > 0
    ensures k < |s|
    ensures forall j | 0 <= j < |s| :: !ScoreLess(s[k], s[j])
    ensures forall j | 0 <= j < k :: ScoreLess(s[j], s[k])
    decreases |s|
  {
    if |s| == 1 then 0
    else
      var k := FirstMaxIndex(s[..|s| - 1]);
      assert forall j | 0 <= j < |s| - 1 :: s[..|s| - 1][j] == s[j];
      if ScoreLess(s[k], s[|s| - 1]) then
        assert forall j | 0 <= j < |s| - 1 :: ScoreLess(s[j], s[|s| - 1]) by {
          forall j | 0 <= j < |s| - 1 ensures ScoreLess(s[j], s[|s| - 1]) {
            ScoreLessTotal(s[j], s[k]);
            if s[j] != s[k] { ScoreLessTransitive(s[j], s[k], s[|s| - 1]); }
          }
        }
        |s| - 1
      else
        ScoreLessTotal(s[k], s[|s| - 1]);
        k
  }

  /** The two properties of FirstMaxIndex determine it: the first maximum is unique. */
  lemma FirstMaxIndexUnique(s: seq<Score>, k: nat)
    requires k < |s|
    requires forall j | 0 <= j < |s| :: !ScoreLess(s[k], s[j])
    requires forall j | 0 <= j < k :: ScoreLess(s[j], s[k])
    ensures k == FirstMaxIndex(s)
  {
    var m := FirstMaxIndex(s);
    ScoreLessTotal(s[k], s[m]);
  }

  /** Fresh members for a list of individuals, in order, none adjusted yet. */
  function Unadjusted(xs: seq<Individual>): (r: seq<Member>)
    ensures |r| == |xs|
    ensures forall i | 0 <= i < |xs| :: r[i].adjusted == None && r[i].individual == xs[i]
  {
    seq(|xs|, i requires 0 <= i < |xs| => Member(None, xs[i]))
  }

  function IndividualsOf(ms: seq<Member>): (r: seq<Individual>)
    ensures |r| == |ms|
    ensures forall i | 0 <= i < |ms| :: r[i] == ms[i].individual
  {
    seq(|ms|, i requires 0 <= i < |ms| => ms[i].individual)
  }

  /** Taking the individuals back out of fresh members gives the list that went in. */
  lemma UnadjustedRoundTrip(xs: seq<Individual>)
    ensures IndividualsOf(Unadjusted(xs)) == xs
  {
  }
}

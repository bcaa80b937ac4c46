/** The age of a species: three counters that only the increase and reset
    operations change, each touching exactly the counters it names. */
module AgeCounters {

  class Age {
    /** Age of the species in generations. */
    var generations: nat
    /** Age of the species in evaluations. */
    var evaluations: nat
    /** Generations in which the species saw no improvement. */
    var noImprovements: nat

    constructor ()
      ensures generations == 0 && evaluations == 0 && noImprovements == 0
    {
      generations, evaluations, noImprovements := 0, 0, 0;
    }

    /** The copy an owner makes when it takes an age by value. */
    constructor Copy(other: Age)
      ensures generations == other.generations
      ensures evaluations == other.evaluations
      ensures noImprovements == other.noImprovements
    {
      generations, evaluations, noImprovements :=
        other.generations, other.evaluations, other.noImprovements;
    }

    method IncreaseGenerations()
      modifies this
      ensures generations == old(generations) + 1
      ensures evaluations == old(evaluations) && noImprovements == old(noImprovements)
    {
      generations := generations + 1;
    }

    method IncreaseEvaluations()
      modifies this
      ensures evaluations == old(evaluations) + 1
      ensures generations == old(generations) && noImprovements == old(noImprovements)
    {
      evaluations := evaluations + 1;
    }

    method IncreaseNoImprovements()
      modifies this
      ensures noImprovements == old(noImprovements) + 1
      ensures generations == old(generations) && evaluations == old(evaluations)
    {
      noImprovements := noImprovements + 1;
    }

    /** Makes the age young again: a full rejuvenation also forgets stagnation. */
    method ResetGenerations()
      modifies this
      ensures generations == 0 && noImprovements == 0
      ensures evaluations == old(evaluations)
    {
      generations := 0;
      noImprovements := 0;
    }

    method ResetNoImprovements()
      modifies this
      ensures noImprovements == 0
      ensures generations == old(generations) && evaluations == old(evaluations)
    {
      noImprovements := 0;
    }

    method ResetEvaluations()
      modifies this
      ensures evaluations == 0
      ensures generations == old(generations) && noImprovements == old(noImprovements)
    {
      evaluations := 0;
    }

    /** The three counters as one value. */
    function Counters(): (nat, nat, nat)
      reads this
    {
      (generations, evaluations, noImprovements)
    }

    /** `operator==` compares values, not identity: two ages are equal iff
        all three counters agree, so every age equals itself. */
    function Equals(other: Age): (r: bool)
      reads this, other
      ensures r <==> Counters() == other.Counters()
      ensures this == other ==> r
    {
      generations == other.generations
      && evaluations == other.evaluations
      && noImprovements == other.noImprovements
    }

    /** `operator!=`, defined as the negation of `operator==`. */
    function NotEquals(other: Age): (r: bool)
      reads this, other
      ensures r <==> Counters() != other.Counters()
      ensures this == other ==> !r
    {
      !Equals(other)
    }
  }

  /** Equality is an equivalence: reflexive, symmetric, and `!=` is its exact negation. */
  lemma EqualsIsEquivalence(a: Age, b: Age, c: Age)
    ensures a.Equals(a)
    ensures a.Equals(b) <==> b.Equals(a)
    ensures a.Equals(b) && b.Equals(c) ==> a.Equals(c)
    ensures a.NotEquals(b) <==> !a.Equals(b)
  {
  }

  /** Whatever the stagnation counter held, one more stagnant generation
      followed by a reset leaves it at zero, and nothing else moves. */
  method StagnateThenReset(a: Age)
    modifies a
    ensures a.noImprovements == 0
    ensures a.generations == old(a.generations) && a.evaluations == old(a.evaluations)
  {
    a.IncreaseNoImprovements();
    a.ResetNoImprovements();
  }
}

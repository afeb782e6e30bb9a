/**
 * A unit of work with a probability of success and two values: the value
 * it yields whatever the outcome, and the larger value it yields on success.
 */
module WorkUnits {
  import opened Wrappers

  /** Why a work unit is refused. */
  datatype WorkUnitError =
    | ProbabilityBelowMinimum
    | ProbabilityAboveMaximum
    | SuccessBelowUnconditional

  /** Probabilities are whole percentages. */
  const MinProbability: int := 0
  const MaxProbability: int := 100

  datatype WorkUnit = WorkUnit(
    id: int,
    dependentOnSuccess: seq<int>,
    dependentOnUnconditionally: seq<int>,
    probabilityOfSuccess: int,
    successValue: int,
    unconditionalValue: int)
  {
    /** What construction guarantees of every work unit. */
    predicate Valid() {
      MinProbability <= probabilityOfSuccess <= MaxProbability && successValue >= unconditionalValue
    }

    /**
     * The expected value: the unconditional value plus the extra value of
     * success weighted by its probability. Scaled by 100 it is a whole number.
     */
    function RiskWeightedValue(): (r: real)
      ensures 100.0 * r == (100 * unconditionalValue + (successValue - unconditionalValue) * probabilityOfSuccess) as real
    {
      unconditionalValue as real + (successValue - unconditionalValue) as real * (probabilityOfSuccess as real / 100.0)
    }
  }

  /**
   * Construction: the probability must lie in 0..100 (checked first, so an
   * out-of-range probability is reported on its own), then the success value
   * must be at least the unconditional value.
   */
  function NewWorkUnit(
    id: int, dependentOnSuccess: seq<int>, dependentOnUnconditionally: seq<int>,
    probabilityOfSuccess: int, successValue: int, unconditionalValue: int): (r: Result<WorkUnit, WorkUnitError>)
    ensures r.Success? <==> 0 <= probabilityOfSuccess <= 100 && successValue >= unconditionalValue
    ensures r.Success? ==> r.value.Valid()
    ensures r.Success? ==> r.value == WorkUnit(id, dependentOnSuccess, dependentOnUnconditionally,
                                                 probabilityOfSuccess, successValue, unconditionalValue)
    ensures probabilityOfSuccess < 0 ==> r == Failure(ProbabilityBelowMinimum)
    ensures probabilityOfSuccess > 100 ==> r == Failure(ProbabilityAboveMaximum)
    ensures 0 <= probabilityOfSuccess <= 100 && successValue < unconditionalValue ==>
              r == Failure(SuccessBelowUnconditional)
  {
    if probabilityOfSuccess < MinProbability then Failure(ProbabilityBelowMinimum)
    else if probabilityOfSuccess > MaxProbability then Failure(ProbabilityAboveMaximum)
    else if successValue < unconditionalValue then Failure(SuccessBelowUnconditional)
    else Success(WorkUnit(id, dependentOnSuccess, dependentOnUnconditionally,
                          probabilityOfSuccess, successValue, unconditionalValue))
  }

  /** The risk-weighted value of a valid unit lies between its two values. */
  lemma RiskWeightedValueBounds(w: WorkUnit)
    requires w.Valid()
    ensures w.unconditionalValue as real <= w.RiskWeightedValue() <= w.successValue as real
  {
    var gain := w.successValue - w.unconditionalValue;
    var p := w.probabilityOfSuccess;
    assert 0 <= gain * p <= gain * 100 by {
      assert gain >= 0 && 0 <= p <= 100;
      assert gain * (100 - p) >= 0;
    }
  }

  /** At probability 0 it is the unconditional value; at 100 the success value. */
  lemma RiskWeightedValueAtExtremes(w: WorkUnit)
    ensures w.probabilityOfSuccess == 0 ==> w.RiskWeightedValue() == w.unconditionalValue as real
    ensures w.probabilityOfSuccess == 100 ==> w.RiskWeightedValue() == w.successValue as real
  {
  }

  /** With both values fixed and success worth at least as much, a likelier unit is worth at least as much. */
  lemma RiskWeightedValueMonotonic(w: WorkUnit, v: WorkUnit)
    requires w.successValue == v.successValue && w.unconditionalValue == v.unconditionalValue
    requires w.successValue >= w.unconditionalValue
    requires w.probabilityOfSuccess <= v.probabilityOfSuccess
    ensures w.RiskWeightedValue() <= v.RiskWeightedValue()
  {
    var gain := w.successValue - w.unconditionalValue;
    assert gain * w.probabilityOfSuccess <= gain * v.probabilityOfSuccess by {
      assert gain * (v.probabilityOfSuccess - w.probabilityOfSuccess) >= 0;
    }
  }

  /** The values of the project's own examples: 30 and 60 at 20, 50 and 90 percent. */
  lemma RiskWeightedValueExamples()
    ensures WorkUnit(5, [], [], 20, 60, 30).RiskWeightedValue() == 36.0
    ensures WorkUnit(5, [], [], 50, 60, 30).RiskWeightedValue() == 45.0
    ensures WorkUnit(5, [], [], 90, 60, 30).RiskWeightedValue() == 57.0
  {
  }

  /**
   * The project's rejected examples: success 60 below unconditional 61, and
   * probabilities -1 and 101, which are reported before the value ordering.
   */
  lemma NewWorkUnitRejections()
    ensures NewWorkUnit(5, [], [], 50, 60, 61) == Failure(SuccessBelowUnconditional)
    ensures NewWorkUnit(5, [], [], -1, 60, 61) == Failure(ProbabilityBelowMinimum)
    ensures NewWorkUnit(5, [], [], 101, 60, 61) == Failure(ProbabilityAboveMaximum)
  {
  }
}

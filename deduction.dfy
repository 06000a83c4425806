/**
 * The overtime ("OBBBA") deduction: the premium part of overtime pay,
 * `(ot_rate - reg_rate) * ot_hours`, floored at zero and guarded against
 * non-positive inputs.  Amounts are exact reals rather than IEEE doubles.
 */
module Deduction {

  /** The three pay-stub figures both extraction strategies produce. */
  datatype StubValues = StubValues(regRate: real, otRate: real, otHours: real)

  const NoValues := StubValues(0.0, 0.0, 0.0)

  /** A stub is usable by the calculator only when every figure is strictly positive. */
  predicate AllPositive(v: StubValues) {
    v.regRate > 0.0 && v.otRate > 0.0 && v.otHours > 0.0
  }

  /** `calculate_obbba(reg_rate, ot_rate, ot_hours)`. */
  function Calculate(regRate: real, otRate: real, otHours: real): (d: real)
    ensures d >= 0.0
    ensures regRate <= 0.0 || otRate <= 0.0 || otHours <= 0.0 ==> d == 0.0
    ensures otRate <= regRate ==> d == 0.0
    ensures regRate > 0.0 && otHours > 0.0 && otRate > regRate ==> d == (otRate - regRate) * otHours
  {
    if regRate <= 0.0 || otRate <= 0.0 || otHours <= 0.0 then 0.0
    else
      var deduction := (otRate - regRate) * otHours;
      if deduction > 0.0 then deduction else 0.0
  }

  function CalculateStub(v: StubValues): (r: real)
    ensures r >= 0.0
    ensures !AllPositive(v) ==> r == 0.0
  {
    Calculate(v.regRate, v.otRate, v.otHours)
  }

  /** The deduction is positive exactly when all inputs are positive and the overtime rate beats the regular rate. */
  lemma PositiveDeductionIff(regRate: real, otRate: real, otHours: real)
    ensures Calculate(regRate, otRate, otHours) > 0.0
        <==> regRate > 0.0 && otHours > 0.0 && otRate > regRate
  {
    if regRate > 0.0 && otHours > 0.0 && otRate > regRate {
      ProductPositive(otRate - regRate, otHours);
    }
  }

  /** Never more than the whole overtime pay, `ot_rate * ot_hours`. */
  lemma DeductionBelowOvertimePay(regRate: real, otRate: real, otHours: real)
    requires regRate > 0.0 && otRate > 0.0 && otHours > 0.0
    ensures Calculate(regRate, otRate, otHours) < otRate * otHours
  {
    ProductPositive(regRate, otHours);
    assert otRate * otHours - (otRate - regRate) * otHours == regRate * otHours;
  }

  /** More overtime hours never lower the deduction. */
  lemma DeductionMonotoneInHours(regRate: real, otRate: real, h1: real, h2: real)
    requires 0.0 < h1 <= h2
    ensures Calculate(regRate, otRate, h1) <= Calculate(regRate, otRate, h2)
  {
    if regRate > 0.0 && otRate > regRate {
      assert (otRate - regRate) * h2 - (otRate - regRate) * h1 == (otRate - regRate) * (h2 - h1);
      ProductNonNegative(otRate - regRate, h2 - h1);
    }
  }

  lemma ProductPositive(a: real, b: real)
    requires a > 0.0 && b > 0.0
    ensures a * b > 0.0
  {
  }

  lemma ProductNonNegative(a: real, b: real)
    requires a >= 0.0 && b >= 0.0
    ensures a * b >= 0.0
  {
  }
}

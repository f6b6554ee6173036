/** The glide path: the fraction of the portfolio held in equity at a given
    age, gliding linearly from a start allocation to an end allocation. */
module GlidePath {

  /** The parameters the simulation always uses (the defaults of the
      allocation function): 85% equity up to age 27, 20% from age 60 on. */
  const DefaultStartAge: int := 27
  const DefaultEndAge: int := 60
  const DefaultStartPct: real := 0.85
  const DefaultEndPct: real := 0.2

  /** Equity fraction at `age`: `startPct` at or before `startAge`, `endPct`
      at or after `endAge` (when past `startAge`), and the straight line
      between the two points otherwise. The interpolation branch is only
      taken when `startAge < age < endAge`, so its divisor is positive. */
  function EquityAllocation(age: int, startAge: int, endAge: int, startPct: real, endPct: real): (pct: real)
    ensures age <= startAge ==> pct == startPct
    ensures startAge < age && endAge <= age ==> pct == endPct
    ensures endPct <= startPct ==> endPct <= pct <= startPct
    ensures startPct <= endPct ==> startPct <= pct <= endPct
  {
    if age <= startAge then startPct
    else if age >= endAge then endPct
    else
      var t := (age - startAge) as real / (endAge - startAge) as real;
      FractionInsideUnit((age - startAge) as real, (endAge - startAge) as real);
      ScaleWithinUnit(t, startPct - endPct);
      startPct - t * (startPct - endPct)
  }

  /** A ratio of a positive amount to a larger one lies strictly between 0
      and 1. */
  lemma FractionInsideUnit(a: real, d: real)
    requires 0.0 < a < d
    ensures 0.0 < a / d < 1.0
  {
    var t := a / d;
    assert t * d == a;
    if t >= 1.0 {
      assert false;
    }
  }

  /** Scaling by a fraction between 0 and 1 keeps an amount between zero and
      itself, whatever its sign. */
  lemma ScaleWithinUnit(t: real, d: real)
    requires 0.0 <= t <= 1.0
    ensures d >= 0.0 ==> 0.0 <= t * d <= d
    ensures d <= 0.0 ==> d <= t * d <= 0.0
  {
  }

  /** The share of the glide already travelled at `age` grows with `age`. */
  lemma GlideFractionGrows(a1: int, a2: int, startAge: int, endAge: int)
    requires startAge < a1 <= a2 < endAge
    ensures (a1 - startAge) as real / (endAge - startAge) as real
         <= (a2 - startAge) as real / (endAge - startAge) as real
  {
    var d := (endAge - startAge) as real;
    var t1 := (a1 - startAge) as real / d;
    var t2 := (a2 - startAge) as real / d;
    assert t2 - t1 == (a2 - a1) as real / d;
  }

  /** A glide from a higher to a lower allocation never increases the
      equity fraction as the investor ages. */
  lemma {:induction false} AllocationNonIncreasing(a1: int, a2: int, startAge: int, endAge: int, startPct: real, endPct: real)
    requires a1 <= a2
    requires endPct <= startPct
    ensures EquityAllocation(a2, startAge, endAge, startPct, endPct)
         <= EquityAllocation(a1, startAge, endAge, startPct, endPct)
  {
    if startAge < a1 && a2 < endAge {
      GlideFractionGrows(a1, a2, startAge, endAge);
      var d := (endAge - startAge) as real;
      var t1 := (a1 - startAge) as real / d;
      var t2 := (a2 - startAge) as real / d;
      assert t1 * (startPct - endPct) <= t2 * (startPct - endPct);
    }
  }

  /** Between the two ages the allocation lies on a straight line: each year
      it falls by the same step, the total glide divided by the years it
      spans. The first and last steps join the line to the flat parts. */
  lemma GlideStep(a: int, startAge: int, endAge: int, startPct: real, endPct: real)
    requires startAge <= a && a + 1 <= endAge
    ensures EquityAllocation(a, startAge, endAge, startPct, endPct)
          - EquityAllocation(a + 1, startAge, endAge, startPct, endPct)
         == (startPct - endPct) / (endAge - startAge) as real
  {
    var d := (endAge - startAge) as real;
    var step := (startPct - endPct) / d;
    if a == startAge && a + 1 == endAge {
      assert d == 1.0;
    } else if a == startAge {
      assert EquityAllocation(a + 1, startAge, endAge, startPct, endPct)
          == startPct - (1.0 / d) * (startPct - endPct);
      assert (1.0 / d) * (startPct - endPct) == step;
    } else if a + 1 == endAge {
      var t := (a - startAge) as real / d;
      assert EquityAllocation(a, startAge, endAge, startPct, endPct)
          == startPct - t * (startPct - endPct);
      assert t == (d - 1.0) / d;
      assert t * (startPct - endPct) == (startPct - endPct) - step;
    } else {
      var t1 := (a - startAge) as real / d;
      var t2 := (a + 1 - startAge) as real / d;
      assert t2 - t1 == 1.0 / d;
      assert t2 * (startPct - endPct) - t1 * (startPct - endPct) == step;
    }
  }

  /** The allocation the simulation uses stays between 20% and 85% equity at
      every age, so the blended return is a true weighted average. */
  lemma DefaultAllocationBounds(age: int)
    ensures var pct := EquityAllocation(age, DefaultStartAge, DefaultEndAge, DefaultStartPct, DefaultEndPct);
            0.2 <= pct <= 0.85
  {
  }
}

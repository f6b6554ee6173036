/** Compound growth over whole periods. Every `(1 + rate) ** n` of the
    calculator has a non-negative integer exponent, so a recursive power on
    reals is all that is needed. */
module Compounding {

  /** x raised to the n-th power. */
  function Pow(x: real, n: nat): (r: real)
    ensures x > 0.0 ==> r > 0.0
    ensures x >= 1.0 ==> r >= 1.0
    decreases n
  {
    if n == 0 then 1.0
    else
      var rest := Pow(x, n - 1);
      assert x > 0.0 ==> x * rest > 0.0;
      assert x >= 1.0 ==> x * rest >= rest;
      x * rest
  }

  /** Compounding at a positive rate for at least one period strictly grows
      the amount. */
  lemma {:induction false} PowAboveOne(x: real, n: nat)
    requires x > 1.0 && n > 0
    ensures Pow(x, n) > 1.0
  {
    if n > 1 {
      PowAboveOne(x, n - 1);
      var rest := Pow(x, n - 1);
      assert x * rest > rest;
    }
  }

  /** `amount` grown by the factor `g` once per period for `n` periods, the
      way a running total is multiplied year after year. */
  function Compounded(amount: real, g: real, n: nat): real
    decreases n
  {
    if n == 0 then amount else Compounded(amount, g, n - 1) * g
  }

  lemma Regroup(amount: real, g: real, c: real, power: real)
    requires c == amount * power
    ensures c * g == amount * (g * power)
  {
  }

  /** Growing period by period is growing once by the power of the factor. */
  lemma {:induction false} CompoundedIsPow(amount: real, g: real, n: nat)
    ensures Compounded(amount, g, n) == amount * Pow(g, n)
  {
    if n > 0 {
      CompoundedIsPow(amount, g, n - 1);
      Regroup(amount, g, Compounded(amount, g, n - 1), Pow(g, n - 1));
    }
  }
}

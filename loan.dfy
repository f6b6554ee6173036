/** The home-loan payment: the standard level-payment (annuity) formula,
    computed monthly and reported per year. */
module Loan {
  import opened Compounding

  /** The level monthly payment that repays `principal` in `months` months
      at `monthlyRate` per month: P * r * (1+r)^n / ((1+r)^n - 1). The
      divisor is zero when the rate is zero or there are no months; callers
      must not ask for either. */
  function MonthlyEmi(principal: real, monthlyRate: real, months: nat): (emi: real)
    requires monthlyRate > 0.0 && months > 0
    ensures principal > 0.0 ==> emi > 0.0
    ensures principal == 0.0 ==> emi == 0.0
    ensures principal < 0.0 ==> emi < 0.0
  {
    var growth := Pow(1.0 + monthlyRate, months);
    PowAboveOne(1.0 + monthlyRate, months);
    assert principal > 0.0 ==> principal * monthlyRate * growth > 0.0;
    assert principal < 0.0 ==> principal * monthlyRate * growth < 0.0;
    (principal * monthlyRate * growth) / (growth - 1.0)
  }

  /** The yearly loan payment: twelve monthly payments at one twelfth of the
      annual rate over `years * 12` months. */
  function AnnualEmi(principal: real, annualRate: real, years: int): (emi: real)
    requires annualRate > 0.0 && years > 0
    ensures principal > 0.0 ==> emi > 0.0
    ensures principal == 0.0 ==> emi == 0.0
    ensures principal < 0.0 ==> emi < 0.0
  {
    MonthlyEmi(principal, annualRate / 12.0, years * 12) * 12.0
  }

  /** What is still owed after `months` monthly payments of `payment` on a
      loan of `principal` accruing `monthlyRate` interest each month. */
  function OutstandingBalance(principal: real, monthlyRate: real, payment: real, months: nat): real
    decreases months
  {
    if months == 0 then principal
    else OutstandingBalance(principal, monthlyRate, payment, months - 1) * (1.0 + monthlyRate) - payment
  }

  /** The closed form of the outstanding balance `b` after the months that
      grew the principal by `g`, multiplied through by the rate so that no
      division is needed: r * b == r * P * g - m * (g - 1). */
  predicate ClosedForm(r: real, principal: real, m: real, b: real, g: real)
  {
    r * b == r * principal * g - m * (g - 1.0)
  }

  /** One month of the closed-form induction, on plain reals. */
  lemma ClosedFormStep(r: real, principal: real, m: real, b: real, g: real, bn: real, gn: real)
    requires ClosedForm(r, principal, m, b, g)
    requires bn == b * (1.0 + r) - m && gn == (1.0 + r) * g
    ensures ClosedForm(r, principal, m, bn, gn)
  {
    assert r * bn == (r * b) * (1.0 + r) - r * m;
  }

  /** Every month keeps the balance in closed form. */
  lemma {:induction false} ClosedFormInduction(principal: real, monthlyRate: real, payment: real, months: nat)
    ensures ClosedForm(monthlyRate, principal, payment, OutstandingBalance(principal, monthlyRate, payment, months),
                       Pow(1.0 + monthlyRate, months))
  {
    if months > 0 {
      ClosedFormInduction(principal, monthlyRate, payment, months - 1);
      ClosedFormStep(monthlyRate, principal, payment,
                     OutstandingBalance(principal, monthlyRate, payment, months - 1),
                     Pow(1.0 + monthlyRate, months - 1),
                     OutstandingBalance(principal, monthlyRate, payment, months),
                     Pow(1.0 + monthlyRate, months));
    }
  }

  /** Closed form of the outstanding balance, multiplied through by the rate
      so that no division is needed:
      r * B(k) == r * P * (1+r)^k - m * ((1+r)^k - 1). */
  lemma OutstandingBalanceClosedForm(principal: real, monthlyRate: real, payment: real, months: nat)
    ensures monthlyRate * OutstandingBalance(principal, monthlyRate, payment, months)
         == monthlyRate * principal * Pow(1.0 + monthlyRate, months)
            - payment * (Pow(1.0 + monthlyRate, months) - 1.0)
  {
    ClosedFormInduction(principal, monthlyRate, payment, months);
  }

  /** The payment times the growth it must cancel equals the compounded
      interest on the principal. */
  lemma MonthlyEmiCancelsGrowth(principal: real, r: real, months: nat)
    requires r > 0.0 && months > 0
    ensures MonthlyEmi(principal, r, months) * (Pow(1.0 + r, months) - 1.0)
         == principal * r * Pow(1.0 + r, months)
  {
    PowAboveOne(1.0 + r, months);
  }

  /** Algebra of the final month: with such a payment, the closed form of
      the balance is zero. */
  lemma AnnuityRepays(r: real, principal: real, g: real, m: real, b: real)
    requires r > 0.0
    requires m * (g - 1.0) == principal * r * g
    requires r * b == r * principal * g - m * (g - 1.0)
    ensures b == 0.0
  {
    assert r * b == 0.0;
  }

  /** A product with a factor larger than one exceeds the other factor when
      that one is positive. */
  lemma GrowsByRatio(x: real, g: real)
    requires x > 0.0 && g > 1.0
    ensures x * g / (g - 1.0) > x
  {
    var k := g / (g - 1.0);
    assert 1.0 / (g - 1.0) > 0.0;
    assert k == 1.0 + 1.0 / (g - 1.0);
    assert x * g / (g - 1.0) == x * k;
    assert x * k == x + x * (1.0 / (g - 1.0));
  }

  /** The defining property of the payment: paying one twelfth of the
      annual payment every month for `years * 12` months leaves nothing
      owed. */
  lemma EmiRepaysLoan(principal: real, annualRate: real, years: int)
    requires annualRate > 0.0 && years > 0
    ensures OutstandingBalance(principal, annualRate / 12.0, AnnualEmi(principal, annualRate, years) / 12.0, years * 12) == 0.0
  {
    MonthlyEmiRepays(principal, annualRate / 12.0, years * 12);
  }

  /** Any payment that cancels the compounded interest over `months`
      months clears the loan in exactly that many months. */
  lemma CancellingPaymentRepays(principal: real, r: real, m: real, months: nat)
    requires r > 0.0
    requires m * (Pow(1.0 + r, months) - 1.0) == principal * r * Pow(1.0 + r, months)
    ensures OutstandingBalance(principal, r, m, months) == 0.0
  {
    OutstandingBalanceClosedForm(principal, r, m, months);
    AnnuityRepays(r, principal, Pow(1.0 + r, months), m, OutstandingBalance(principal, r, m, months));
  }

  /** The monthly payment clears the loan in exactly `months` months. */
  lemma MonthlyEmiRepays(principal: real, r: real, months: nat)
    requires r > 0.0 && months > 0
    ensures OutstandingBalance(principal, r, MonthlyEmi(principal, r, months), months) == 0.0
  {
    MonthlyEmiCancelsGrowth(principal, r, months);
    CancellingPaymentRepays(principal, r, MonthlyEmi(principal, r, months), months);
  }

  /** A positive loan's monthly payment exceeds the first month's interest;
      `EmiReducesBalance` draws the consequence for every month. */
  lemma EmiCoversInterest(principal: real, annualRate: real, years: int)
    requires annualRate > 0.0 && years > 0
    requires principal > 0.0
    ensures AnnualEmi(principal, annualRate, years) / 12.0 > principal * (annualRate / 12.0)
  {
    MonthlyEmiCoversInterest(principal, annualRate / 12.0, years * 12);
  }

  lemma MonthlyEmiCoversInterest(principal: real, r: real, months: nat)
    requires r > 0.0 && months > 0
    requires principal > 0.0
    ensures MonthlyEmi(principal, r, months) > principal * r
  {
    var g := Pow(1.0 + r, months);
    PowAboveOne(1.0 + r, months);
    var interest := principal * r;
    assert interest > 0.0;
    assert MonthlyEmi(principal, r, months) == interest * g / (g - 1.0);
    GrowsByRatio(interest, g);
  }

  /** One month on plain reals: a balance no larger than the principal,
      charged less interest than the payment, falls. */
  lemma PaymentStep(r: real, principal: real, m: real, b: real, bn: real)
    requires r > 0.0 && m > principal * r && b <= principal
    requires bn == b * (1.0 + r) - m
    ensures bn < b
  {
    assert r * b <= r * principal;
  }

  /** A payment above the interest on the principal lowers the balance
      every month, so the balance never climbs back above the principal. */
  lemma {:induction false} BalanceFalls(principal: real, r: real, m: real, k: nat)
    requires r > 0.0 && m > principal * r
    ensures OutstandingBalance(principal, r, m, k + 1) < OutstandingBalance(principal, r, m, k) <= principal
  {
    if k > 0 {
      BalanceFalls(principal, r, m, k - 1);
    }
    PaymentStep(r, principal, m, OutstandingBalance(principal, r, m, k), OutstandingBalance(principal, r, m, k + 1));
  }

  /** Paying the monthly instalment on a positive loan reduces what is owed
      in every month. */
  lemma MonthlyEmiReducesBalance(principal: real, r: real, months: nat, k: nat)
    requires r > 0.0 && months > 0
    requires principal > 0.0
    ensures OutstandingBalance(principal, r, MonthlyEmi(principal, r, months), k + 1)
          < OutstandingBalance(principal, r, MonthlyEmi(principal, r, months), k)
  {
    MonthlyEmiCoversInterest(principal, r, months);
    BalanceFalls(principal, r, MonthlyEmi(principal, r, months), k);
  }

  /** Paying one twelfth of the yearly payment each month on a positive loan
      reduces what is owed in every month. */
  lemma EmiReducesBalance(principal: real, annualRate: real, years: int, k: nat)
    requires annualRate > 0.0 && years > 0
    requires principal > 0.0
    ensures OutstandingBalance(principal, annualRate / 12.0, AnnualEmi(principal, annualRate, years) / 12.0, k + 1)
          < OutstandingBalance(principal, annualRate / 12.0, AnnualEmi(principal, annualRate, years) / 12.0, k)
  {
    EmiCoversInterest(principal, annualRate, years);
    BalanceFalls(principal, annualRate / 12.0, AnnualEmi(principal, annualRate, years) / 12.0, k);
  }
}

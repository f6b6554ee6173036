/** What the projection promises, proved about its specification: the shape
    of the output, the balance recurrence, the contribution schedule, the
    make-up of each year's expense and the one-off computation of the loan
    payment. */
module SimulationFacts {
  import opened Optional
  import opened Compounding
  import GlidePath
  import Loan
  import opened Simulation

  /** Years with age below the retirement age among the first `k` simulated
      years. */
  function WorkingYearsWithin(p: Params, k: nat): nat
  {
    var working := p.retirementAge - p.currentAge;
    if working <= 0 then 0 else if k < working then k else working
  }

  /** One step of the running contribution: grown in a working year,
      unchanged in a retired one. */
  lemma ContribStep(p: Params, k: nat)
    requires k > 0
    ensures p.currentAge + k - 1 < p.retirementAge ==>
              ContribAt(p, k) == ContribAt(p, k - 1) * (1.0 + p.annualContribIncrease)
    ensures p.currentAge + k - 1 >= p.retirementAge ==> ContribAt(p, k) == ContribAt(p, k - 1)
  {
  }

  /** The running contribution compounds once per working year and is
      frozen from retirement on. */
  lemma {:induction false} ContribAfter(p: Params, k: nat)
    ensures ContribAt(p, k)
         == Compounded(p.monthlyContribution * 12.0, 1.0 + p.annualContribIncrease, WorkingYearsWithin(p, k))
  {
    if k > 0 {
      ContribAfter(p, k - 1);
      ContribStep(p, k);
      if p.currentAge + k - 1 < p.retirementAge {
        assert WorkingYearsWithin(p, k) == WorkingYearsWithin(p, k - 1) + 1;
      } else {
        assert WorkingYearsWithin(p, k) == WorkingYearsWithin(p, k - 1);
      }
    }
  }

  /** The contribution of each year: nothing from the retirement age on,
      and before it the annual amount `monthlyContribution * 12` grown by
      `annualContribIncrease` once for every year already simulated. */
  lemma ContributionSchedule(p: Params, k: nat)
    ensures p.currentAge + k >= p.retirementAge ==> ContributionAt(p, k) == 0.0
    ensures p.currentAge + k < p.retirementAge ==>
              ContributionAt(p, k) == p.monthlyContribution * 12.0 * Pow(1.0 + p.annualContribIncrease, k)
  {
    ContribAfter(p, k);
    CompoundedIsPow(p.monthlyContribution * 12.0, 1.0 + p.annualContribIncrease, k);
  }

  /** In every other year the loan step leaves the known payment alone. */
  lemma EmiKeptOtherwise(p: Params, age: int, emi: real)
    requires LoanTermsValid(p) && age >= p.currentAge
    requires p.homeLoan.None? || age != p.homeLoan.value.startAge || emi >= 0.0
    ensures EmiAfter(p, age, emi) == emi
  {
  }

  /** The induction behind `EmiAfterYears`, with the payment left as what
      the loan step of the start year computes. */
  lemma {:induction false} EmiKnownAfter(p: Params, k: nat)
    requires LoanTermsValid(p)
    ensures p.homeLoan.None? ==> EmiKnown(p, k) == NotComputed
    ensures p.homeLoan.Some? ==>
              var start := p.homeLoan.value.startAge;
              EmiKnown(p, k) == if p.currentAge <= start < p.currentAge + k
                                then EmiAfter(p, start, NotComputed) else NotComputed
  {
    if k > 0 {
      EmiKnownAfter(p, k - 1);
      var age := p.currentAge + k - 1;
      assert EmiKnown(p, k) == EmiAfter(p, age, EmiKnown(p, k - 1));
      if p.homeLoan.None? || age != p.homeLoan.value.startAge {
        EmiKeptOtherwise(p, age, EmiKnown(p, k - 1));
      }
    }
  }

  /** The loan payment known after `k` simulated years: the payment on the
      principal inflated to the start age once that year has been simulated
      (and only if it lies within the simulation), the sentinel otherwise. */
  lemma EmiAfterYears(p: Params, k: nat)
    requires LoanTermsValid(p)
    ensures p.homeLoan.None? ==> EmiKnown(p, k) == NotComputed
    ensures p.homeLoan.Some? ==>
              var loan := p.homeLoan.value;
              EmiKnown(p, k) == if p.currentAge <= loan.startAge < p.currentAge + k
                                then LoanPayment(p, loan) else NotComputed
  {
    EmiKnownAfter(p, k);
    if p.homeLoan.Some? && p.currentAge <= p.homeLoan.value.startAge {
      var loan := p.homeLoan.value;
      EmiComputedOnce(p, loan, loan.startAge, NotComputed);
    }
  }

  /** The loan payment charged in the year at `age`, stated without the
      simulation state: the payment computed once on the principal inflated
      to the start age, charged in each year of the term when positive, and
      never when the loan starts before the simulation does. */
  function ScheduledLoanCharge(p: Params, age: int): real
    requires LoanTermsValid(p)
  {
    match p.homeLoan
    case None => 0.0
    case Some(loan) =>
      if p.currentAge <= loan.startAge <= age < loan.startAge + loan.years then
        var emi := LoanPayment(p, loan);
        if emi > 0.0 then emi else 0.0
      else 0.0
  }

  /** The loan payment charged by the simulation in the `k`-th year is the
      scheduled one. */
  lemma LoanChargeFollowsSchedule(p: Params, k: nat)
    requires LoanTermsValid(p)
    ensures LoanCharge(p, p.currentAge + k, EmiKnown(p, k + 1)) == ScheduledLoanCharge(p, p.currentAge + k)
  {
    EmiAfterYears(p, k + 1);
  }

  /** Each year's expense is the inflated retirement expense (retired years
      only), plus every one-time expense listed for that age inflated the
      same way, plus the scheduled loan payment. */
  lemma ExpenseBreakdown(p: Params, k: nat)
    requires LoanTermsValid(p)
    ensures var age := p.currentAge + k;
            var inflation := Pow(1.0 + p.expInflationRate, age - p.currentAge);
            ExpenseAt(p, k)
              == (if age >= p.retirementAge then p.annualRetExpenses * inflation else 0.0)
                 + OneTimeDue(p.oneTimeExpenses, age, inflation)
                 + ScheduledLoanCharge(p, age)
  {
    var age := p.currentAge + k;
    LoanChargeFollowsSchedule(p, k);
    ExpenseParts(p, age, EmiKnown(p, k + 1), ScheduledLoanCharge(p, age));
    assert ExpenseAt(p, k) == Expense(p, age, EmiKnown(p, k + 1));
  }

  /** The three parts of a year's expense, with the inflation factor
      written out and the loan payment charged given as `charge`. */
  lemma ExpenseParts(p: Params, age: int, emi: real, charge: real)
    requires age >= p.currentAge && LoanCharge(p, age, emi) == charge
    ensures var inflation := Pow(1.0 + p.expInflationRate, age - p.currentAge);
            Expense(p, age, emi)
              == (if age >= p.retirementAge then p.annualRetExpenses * inflation else 0.0)
                 + OneTimeDue(p.oneTimeExpenses, age, inflation)
                 + charge
  {
  }

  /** Rows chain: each row's net worth is the balance the next year starts
      from, and the first year starts from the current savings. */
  lemma OpeningBalance(p: Params, k: nat)
    requires LoanTermsValid(p)
    ensures BalanceAt(p, 0) == p.currentSavings
    ensures k > 0 ==> BalanceAt(p, k) == RecordAt(p, k - 1).netWorth
  {
  }

  /** The balance recurrence: each year's growth is the opening balance
      times the blended return at the glide-path allocation, and the
      closing balance is the opening balance plus growth plus contribution
      minus expense. */
  lemma NetWorthRecurrence(p: Params, k: nat)
    requires LoanTermsValid(p)
    ensures GrowthAt(p, k) == BalanceAt(p, k) * BlendedReturn(p, p.currentAge + k)
    ensures BalanceAt(p, k + 1) == BalanceAt(p, k) + GrowthAt(p, k) + ContributionAt(p, k) - ExpenseAt(p, k)
  {
  }

  /** Each row's equity allocation follows the default glide path and stays
      between 20% and 85%. */
  lemma RowAllocation(p: Params, k: nat)
    requires LoanTermsValid(p)
    ensures RecordAt(p, k).age == p.currentAge + k
    ensures RecordAt(p, k).equityAllocation == Allocation(p.currentAge + k)
    ensures 0.2 <= RecordAt(p, k).equityAllocation <= 0.85
  {
    GlidePath.DefaultAllocationBounds(p.currentAge + k);
  }

  /** The blended return is positive when both asset classes return
      something, whatever the allocation on the glide path. */
  lemma PositiveBlendedReturn(p: Params, age: int)
    requires p.equityReturn > 0.0 && p.fixedIncomeReturn > 0.0
    ensures BlendedReturn(p, age) > 0.0
  {
    var a := Allocation(age);
    GlidePath.DefaultAllocationBounds(age);
    assert a * p.equityReturn > 0.0;
    assert (1.0 - a) * p.fixedIncomeReturn > 0.0;
    assert BlendedReturn(p, age) == a * p.equityReturn + (1.0 - a) * p.fixedIncomeReturn;
  }

  /** With nothing paid in and nothing spent, no year has a contribution or
      an expense. */
  lemma NoCashFlows(p: Params, k: nat)
    requires LoanTermsValid(p)
    requires p.monthlyContribution == 0.0 && p.annualRetExpenses == 0.0
    requires p.oneTimeExpenses == [] && p.homeLoan == None
    ensures ContributionAt(p, k) == 0.0 && ExpenseAt(p, k) == 0.0
  {
    ContribAfter(p, k);
    CompoundedIsPow(0.0, 1.0 + p.annualContribIncrease, WorkingYearsWithin(p, k));
  }

  /** An amount plus its growth at `rate`. */
  function Grown(amount: real, rate: real): real
  {
    amount + amount * rate
  }

  /** A positive amount grows at a positive rate. */
  lemma GrowthAlone(amount: real, rate: real)
    requires amount > 0.0 && rate > 0.0
    ensures amount < Grown(amount, rate)
  {
  }

  /** Without contributions or expenses, a year only adds its growth. */
  lemma OnlyGrowthWithoutCashFlows(p: Params, k: nat)
    requires LoanTermsValid(p)
    requires p.monthlyContribution == 0.0 && p.annualRetExpenses == 0.0
    requires p.oneTimeExpenses == [] && p.homeLoan == None
    ensures BalanceAt(p, k + 1) == Grown(BalanceAt(p, k), BlendedReturn(p, p.currentAge + k))
  {
    NetWorthRecurrence(p, k);
    NoCashFlows(p, k);
  }

  /** Without contributions or expenses, a year that opens with a positive
      balance closes higher when both asset classes return something. */
  lemma RisesWithoutCashFlows(p: Params, k: nat)
    requires LoanTermsValid(p)
    requires p.monthlyContribution == 0.0 && p.annualRetExpenses == 0.0
    requires p.oneTimeExpenses == [] && p.homeLoan == None
    requires p.equityReturn > 0.0 && p.fixedIncomeReturn > 0.0
    requires BalanceAt(p, k) > 0.0
    ensures BalanceAt(p, k) < BalanceAt(p, k + 1)
  {
    OnlyGrowthWithoutCashFlows(p, k);
    PositiveBlendedReturn(p, p.currentAge + k);
    GrowthAlone(BalanceAt(p, k), BlendedReturn(p, p.currentAge + k));
  }

  /** With no contributions and no expenses of any kind, positive returns
      keep a positive balance positive. */
  lemma {:induction false} StaysPositive(p: Params, k: nat)
    requires LoanTermsValid(p)
    requires p.monthlyContribution == 0.0 && p.annualRetExpenses == 0.0
    requires p.oneTimeExpenses == [] && p.homeLoan == None
    requires p.equityReturn > 0.0 && p.fixedIncomeReturn > 0.0 && p.currentSavings > 0.0
    ensures BalanceAt(p, k) > 0.0
  {
    if k > 0 {
      StaysPositive(p, k - 1);
      RisesWithoutCashFlows(p, k - 1);
    }
  }

  /** With no contributions and no expenses of any kind, positive returns
      make a positive balance grow strictly every year. */
  lemma GrowthOnlyRises(p: Params, k: nat)
    requires LoanTermsValid(p)
    requires p.monthlyContribution == 0.0 && p.annualRetExpenses == 0.0
    requires p.oneTimeExpenses == [] && p.homeLoan == None
    requires p.equityReturn > 0.0 && p.fixedIncomeReturn > 0.0 && p.currentSavings > 0.0
    ensures 0.0 < BalanceAt(p, k) < BalanceAt(p, k + 1)
  {
    StaysPositive(p, k);
    RisesWithoutCashFlows(p, k);
  }

  /** Listing more one-time expenses adds their amounts: the expenses due
      at an age from two lists together are the sum of each list's. In
      particular an age listed twice is charged twice. */
  lemma {:induction false} OneTimeDueConcat(s: seq<OneTimeExpense>, t: seq<OneTimeExpense>, age: int, factor: real)
    ensures OneTimeDue(s + t, age, factor) == OneTimeDue(s, age, factor) + OneTimeDue(t, age, factor)
    decreases |t|
  {
    if t == [] {
      assert s + t == s;
    } else {
      var front := t[..|t| - 1];
      assert (s + t)[..|s + t| - 1] == s + front;
      assert (s + t)[|s + t| - 1] == t[|t| - 1];
      OneTimeDueConcat(s, front, age, factor);
    }
  }

  /** Only entries listed for the age count: with none listed for it,
      nothing is due. */
  lemma {:induction false} OneTimeDueAbsent(entries: seq<OneTimeExpense>, age: int, factor: real)
    requires forall i :: 0 <= i < |entries| ==> entries[i].age != age
    ensures OneTimeDue(entries, age, factor) == 0.0
    decreases |entries|
  {
    if entries != [] {
      OneTimeDueAbsent(entries[..|entries| - 1], age, factor);
    }
  }

  /** Every entry is scaled by the same factor, so the total due is the
      factor times the sum of the listed amounts. */
  lemma {:induction false} OneTimeDueScales(entries: seq<OneTimeExpense>, age: int, factor: real)
    ensures OneTimeDue(entries, age, factor) == factor * OneTimeDue(entries, age, 1.0)
    decreases |entries|
  {
    if entries != [] {
      var front := entries[..|entries| - 1];
      var last := entries[|entries| - 1];
      OneTimeDueScales(front, age, factor);
      var rest := OneTimeDue(front, age, 1.0);
      var own := if last.age == age then last.amount as real else 0.0;
      assert OneTimeDue(entries, age, 1.0) == rest + own;
      assert OneTimeDue(entries, age, factor) == factor * rest + factor * own;
      assert factor * (rest + own) == factor * rest + factor * own;
    }
  }
}

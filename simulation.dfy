/** The year-by-year net-worth projection: from the current age to the life
    expectancy, each year applies investment growth at the glide-path
    blend, then the working-years contribution, then the inflated
    retirement expense, the inflated one-time expenses due that year and
    the home-loan payment, and records the outcome. */
module Simulation {
  import opened Optional
  import opened Compounding
  import GlidePath
  import Loan

  /** A one-time expense: an amount in today's money due at an age. */
  datatype OneTimeExpense = OneTimeExpense(age: int, amount: int)

  /** A home loan taken at `startAge`, with the principal in today's money. */
  datatype HomeLoan = HomeLoan(startAge: int, principal: real, years: int, annualRate: real)

  /** Everything one run of the projection depends on. */
  datatype Params = Params(
    currentAge: int,
    retirementAge: int,
    lifeExpectancy: int,
    currentSavings: real,
    monthlyContribution: real,
    equityReturn: real,
    fixedIncomeReturn: real,
    annualRetExpenses: real,
    expInflationRate: real,
    annualContribIncrease: real,
    oneTimeExpenses: seq<OneTimeExpense>,
    homeLoan: Option<HomeLoan>)

  /** One row of the output. Amounts are in currency units and the equity
      allocation is a fraction. */
  datatype YearRecord = YearRecord(
    age: int,
    netWorth: real,
    contribution: real,
    expense: real,
    growth: real,
    equityAllocation: real)

  /** The running state carried from one year to the next: the balance, the
      contribution for the next working year, and the yearly loan payment,
      which is -1 until it has been computed. */
  datatype Carry = Carry(balance: real, contrib: real, emi: real)

  /** Marks a loan payment that has not been computed yet. */
  const NotComputed: real := -1.0

  /** The loan payment formula needs a positive rate and a non-empty term. */
  predicate LoanTermsValid(p: Params)
  {
    p.homeLoan.Some? ==> p.homeLoan.value.annualRate > 0.0 && p.homeLoan.value.years > 0
  }

  /** Number of simulated years: one per age from the current age to the
      life expectancy inclusive, none when the range is empty. */
  function YearCount(p: Params): nat
  {
    if p.lifeExpectancy - p.currentAge + 1 > 0 then p.lifeExpectancy - p.currentAge + 1 else 0
  }

  /** The equity fraction the simulation uses: the default glide path,
      whatever the current age. */
  function Allocation(age: int): real
  {
    GlidePath.EquityAllocation(age, GlidePath.DefaultStartAge, GlidePath.DefaultEndAge,
                               GlidePath.DefaultStartPct, GlidePath.DefaultEndPct)
  }

  /** The portfolio return at `age`: equity and fixed income weighted by the
      allocation. */
  function BlendedReturn(p: Params, age: int): real
  {
    Allocation(age) * p.equityReturn + (1.0 - Allocation(age)) * p.fixedIncomeReturn
  }

  /** Price growth from the start of the simulation to `age`. */
  function InflationFactor(p: Params, age: int): real
    requires age >= p.currentAge
  {
    Pow(1.0 + p.expInflationRate, age - p.currentAge)
  }

  /** The ongoing expense of a retired year, in that year's money; nothing
      while working. */
  function RetirementExpense(p: Params, age: int): real
    requires age >= p.currentAge
  {
    if age >= p.retirementAge then p.annualRetExpenses * InflationFactor(p, age) else 0.0
  }

  /** Sum of the one-time expenses listed for `age`, each scaled by
      `factor`; an age listed several times contributes every entry. */
  function OneTimeDue(entries: seq<OneTimeExpense>, age: int, factor: real): real
    decreases |entries|
  {
    if entries == [] then 0.0
    else
      var last := entries[|entries| - 1];
      OneTimeDue(entries[..|entries| - 1], age, factor)
        + (if last.age == age then last.amount as real * factor else 0.0)
  }

  /** The yearly loan payment on the principal inflated to the loan's
      start age. */
  function LoanPayment(p: Params, loan: HomeLoan): real
    requires loan.annualRate > 0.0 && loan.years > 0 && loan.startAge >= p.currentAge
  {
    Loan.AnnualEmi(loan.principal * InflationFactor(p, loan.startAge), loan.annualRate, loan.years)
  }

  /** The loan payment after the loan step of the year at `age`: computed
      from the principal inflated to that age when the loan starts now and
      no payment is known yet, otherwise unchanged. */
  function EmiAfter(p: Params, age: int, emi: real): real
    requires LoanTermsValid(p) && age >= p.currentAge
  {
    match p.homeLoan
    case None => emi
    case Some(loan) =>
      if age == loan.startAge && emi < 0.0 then LoanPayment(p, loan) else emi
  }

  /** The loan payment charged in the year at `age`, given the payment known
      after that year's loan step. */
  function LoanCharge(p: Params, age: int, emi: real): real
  {
    match p.homeLoan
    case None => 0.0
    case Some(loan) =>
      if loan.startAge <= age < loan.startAge + loan.years && emi > 0.0 then emi else 0.0
  }

  /** The investment return of the year at `age` on `balance`. */
  function Growth(p: Params, age: int, balance: real): real
  {
    balance * BlendedReturn(p, age)
  }

  /** The contribution paid in the year at `age`: the running amount while
      working, nothing once retired. */
  function Contribution(p: Params, age: int, contrib: real): real
  {
    if age < p.retirementAge then contrib else 0.0
  }

  /** The running contribution for the following year: grown while
      working, frozen once retired. */
  function NextContrib(p: Params, age: int, contrib: real): real
  {
    if age < p.retirementAge then contrib * (1.0 + p.annualContribIncrease) else contrib
  }

  /** Everything taken out in the year at `age`, given the loan payment
      known after that year's loan step. */
  function Expense(p: Params, age: int, emi: real): real
    requires age >= p.currentAge
  {
    RetirementExpense(p, age)
      + OneTimeDue(p.oneTimeExpenses, age, InflationFactor(p, age))
      + LoanCharge(p, age, emi)
  }

  /** The balance at the end of the year at `age`, from the balance and
      running contribution at its start and the loan payment known after
      its loan step. */
  function NextBalance(p: Params, age: int, balance: real, contrib: real, emi: real): real
    requires age >= p.currentAge
  {
    balance + Growth(p, age, balance) + Contribution(p, age, contrib) - Expense(p, age, emi)
  }

  /** The state after the year at `age`, starting from `c`. */
  function NextCarry(p: Params, age: int, c: Carry): Carry
    requires LoanTermsValid(p) && age >= p.currentAge
  {
    var emi := EmiAfter(p, age, c.emi);
    Carry(NextBalance(p, age, c.balance, c.contrib, emi), NextContrib(p, age, c.contrib), emi)
  }

  /** The row of the year at `age`, starting from `c`. */
  function Row(p: Params, age: int, c: Carry): YearRecord
    requires LoanTermsValid(p) && age >= p.currentAge
  {
    YearRecord(age, NextCarry(p, age, c).balance, Contribution(p, age, c.contrib),
               Expense(p, age, EmiAfter(p, age, c.emi)), Growth(p, age, c.balance), Allocation(age))
  }

  /** The running contribution at the start of the `k`-th simulated year. */
  function ContribAt(p: Params, k: nat): real
    decreases k
  {
    if k == 0 then p.monthlyContribution * 12.0
    else NextContrib(p, p.currentAge + k - 1, ContribAt(p, k - 1))
  }

  /** The loan payment known at the start of the `k`-th simulated year
      (`NotComputed` until the loan's start year has been simulated). */
  function EmiKnown(p: Params, k: nat): real
    requires LoanTermsValid(p)
    decreases k
  {
    if k == 0 then NotComputed
    else EmiAfter(p, p.currentAge + k - 1, EmiKnown(p, k - 1))
  }

  /** The balance at the start of the `k`-th simulated year. */
  function BalanceAt(p: Params, k: nat): real
    requires LoanTermsValid(p)
    decreases k
  {
    if k == 0 then p.currentSavings
    else NextBalance(p, p.currentAge + k - 1, BalanceAt(p, k - 1), ContribAt(p, k - 1), EmiKnown(p, k))
  }

  /** The state after the first `k` simulated years. */
  function CarryAfter(p: Params, k: nat): Carry
    requires LoanTermsValid(p)
  {
    Carry(BalanceAt(p, k), ContribAt(p, k), EmiKnown(p, k))
  }

  /** Simulating one more year from the state after `k` years gives the
      state after `k + 1` years. */
  lemma CarryAfterStep(p: Params, k: nat)
    requires LoanTermsValid(p)
    ensures CarryAfter(p, k + 1) == NextCarry(p, p.currentAge + k, CarryAfter(p, k))
  {
  }

  /** The investment return of the `k`-th simulated year. */
  function GrowthAt(p: Params, k: nat): real
    requires LoanTermsValid(p)
  {
    Growth(p, p.currentAge + k, BalanceAt(p, k))
  }

  /** The contribution of the `k`-th simulated year. */
  function ContributionAt(p: Params, k: nat): real
  {
    Contribution(p, p.currentAge + k, ContribAt(p, k))
  }

  /** The expense of the `k`-th simulated year. */
  function ExpenseAt(p: Params, k: nat): real
    requires LoanTermsValid(p)
  {
    Expense(p, p.currentAge + k, EmiKnown(p, k + 1))
  }

  /** The row of the `k`-th simulated year (counting from 0); its net worth
      is the balance at the start of the next year. */
  function RecordAt(p: Params, k: nat): YearRecord
    requires LoanTermsValid(p)
  {
    var age := p.currentAge + k;
    YearRecord(age, BalanceAt(p, k + 1), ContributionAt(p, k), ExpenseAt(p, k), GrowthAt(p, k), Allocation(age))
  }

  /** The row of the `k`-th year is the row that simulating that year from
      the state after `k` years produces. */
  lemma RecordAtStep(p: Params, k: nat)
    requires LoanTermsValid(p)
    ensures RecordAt(p, k) == Row(p, p.currentAge + k, CarryAfter(p, k))
  {
  }

  /** The whole projection: one row per age from the current age to the
      life expectancy, in order. */
  function Projection(p: Params): (rows: seq<YearRecord>)
    requires LoanTermsValid(p)
    ensures |rows| == YearCount(p)
    ensures forall k :: 0 <= k < |rows| ==> rows[k].age == p.currentAge + k
  {
    seq(YearCount(p), k requires 0 <= k < YearCount(p) => RecordAt(p, k))
  }

  /** The inner loop over the one-time expenses of one year: every entry
      due at `age` is inflated by `factor`, taken from the balance and added
      to the year's expense. */
  method ApplyOneTimeExpenses(entries: seq<OneTimeExpense>, age: int, factor: real, balance0: real, expense0: real)
    returns (balance: real, expense: real)
    ensures balance == balance0 - OneTimeDue(entries, age, factor)
    ensures expense == expense0 + OneTimeDue(entries, age, factor)
  {
    balance, expense := balance0, expense0;
    var j := 0;
    while j < |entries|
      invariant 0 <= j <= |entries|
      invariant balance == balance0 - OneTimeDue(entries[..j], age, factor)
      invariant expense == expense0 + OneTimeDue(entries[..j], age, factor)
    {
      var entry := entries[j];
      assert entries[..j + 1][..j] == entries[..j];
      if age == entry.age {
        var inflatedAmount := entry.amount as real * factor;
        balance := balance - inflatedAmount;
        expense := expense + inflatedAmount;
      }
      j := j + 1;
    }
    assert entries[..j] == entries;
  }

  /** In the loan's start year, with no payment known yet, the loan step
      computes the payment on the principal inflated to that year. */
  lemma EmiComputedOnce(p: Params, loan: HomeLoan, age: int, emi: real)
    requires LoanTermsValid(p) && age >= p.currentAge
    requires p.homeLoan == Some(loan) && age == loan.startAge && emi < 0.0
    ensures EmiAfter(p, age, emi) == LoanPayment(p, loan)
  {
  }

  /** The loan step of one year: the payment is computed once, in the
      year the loan starts, and charged in every year of the term once it
      is positive. */
  method ApplyHomeLoan(p: Params, age: int, emi0: real, balance0: real, expense0: real)
    returns (emiAmount: real, balance: real, expense: real)
    requires LoanTermsValid(p) && age >= p.currentAge
    ensures emiAmount == EmiAfter(p, age, emi0)
    ensures balance == balance0 - LoanCharge(p, age, emiAmount)
    ensures expense == expense0 + LoanCharge(p, age, emiAmount)
  {
    emiAmount, balance, expense := emi0, balance0, expense0;
    match p.homeLoan {
      case None =>
      case Some(loan) =>
        if age == loan.startAge && emiAmount < 0.0 {
          var effectivePrincipal := loan.principal * InflationFactor(p, age);
          emiAmount := Loan.AnnualEmi(effectivePrincipal, loan.annualRate, loan.years);
          EmiComputedOnce(p, loan, age, emi0);
        } else {
          assert emiAmount == EmiAfter(p, age, emi0);
        }
        if loan.startAge <= age < loan.startAge + loan.years && emiAmount > 0.0 {
          balance := balance - emiAmount;
          expense := expense + emiAmount;
          assert LoanCharge(p, age, emiAmount) == emiAmount;
        } else {
          assert LoanCharge(p, age, emiAmount) == 0.0;
        }
    }
  }

  /** One pass of the simulation loop for the year at `age`: growth, then
      the contribution, the retirement expense, the one-time expenses and the
      loan payment, updating the balance, the running contribution and the
      loan payment in place and producing the year's row. */
  method SimulateYear(p: Params, age: int, balance0: real, contrib0: real, emi0: real)
    returns (balance: real, contrib: real, emiAmount: real, row: YearRecord)
    requires LoanTermsValid(p) && age >= p.currentAge
    ensures Carry(balance, contrib, emiAmount) == NextCarry(p, age, Carry(balance0, contrib0, emi0))
    ensures row == Row(p, age, Carry(balance0, contrib0, emi0))
  {
    balance, contrib, emiAmount := balance0, contrib0, emi0;
    var equityAllocation := Allocation(age);
    var fixedAllocation := 1.0 - equityAllocation;
    var annualReturn := equityAllocation * p.equityReturn + fixedAllocation * p.fixedIncomeReturn;

    var growth := balance * annualReturn;
    balance := balance + growth;

    // The contribution, in working years only
    var contribution := 0.0;
    if age < p.retirementAge {
      contribution := contrib;
      balance := balance + contribution;
      contrib := contrib * (1.0 + p.annualContribIncrease);
    }

    // The inflated living expense, from the retirement age on
    var expense := 0.0;
    if age >= p.retirementAge {
      expense := p.annualRetExpenses * InflationFactor(p, age);
      balance := balance - expense;
    }

    // Entries of the one-time list due this year
    balance, expense := ApplyOneTimeExpenses(p.oneTimeExpenses, age, InflationFactor(p, age), balance, expense);

    // The loan step
    emiAmount, balance, expense := ApplyHomeLoan(p, age, emiAmount, balance, expense);

    row := YearRecord(age, balance, contribution, expense, growth, equityAllocation);
    assert growth == Growth(p, age, balance0);
    assert contribution == Contribution(p, age, contrib0);
    assert expense == Expense(p, age, emiAmount);
  }

  /** The simulation loop, as the calculator runs it: the balance, the
      compounding contribution and the loan-payment sentinel are updated in
      place and one row is appended per age. */
  method RetirementCalculator(p: Params) returns (data: seq<YearRecord>)
    requires LoanTermsValid(p)
    ensures data == Projection(p)
    ensures |data| == YearCount(p)
    ensures forall k :: 0 <= k < |data| ==> data[k].age == p.currentAge + k && data[k] == RecordAt(p, k)
  {
    var years := p.lifeExpectancy - p.currentAge + 1;
    data := [];
    var balance := p.currentSavings;
    var contrib := p.monthlyContribution * 12.0;
    var emiAmount := NotComputed;
    var i := 0;
    while i < years
      invariant 0 <= i <= YearCount(p)
      invariant |data| == i
      invariant forall k :: 0 <= k < i ==> data[k] == RecordAt(p, k)
      invariant Carry(balance, contrib, emiAmount) == CarryAfter(p, i)
    {
      var age := p.currentAge + i;
      var row;
      balance, contrib, emiAmount, row := SimulateYear(p, age, balance, contrib, emiAmount);
      CarryAfterStep(p, i);
      RecordAtStep(p, i);
      data := data + [row];
      i := i + 1;
    }
  }
}

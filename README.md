# Retirement simulator with a glide path: a Dafny model

The retirement simulator projects a household's net worth year by year, from
the current age to the life expectancy. Each year the balance grows at a
return blended from equity and fixed income, where the equity share follows
a glide path that falls from 85% at age 27 to 20% at age 60. Then:

- before retirement, a yearly contribution is added, and it grows by a fixed
  rate each year;
- from retirement on, an inflated living expense is taken out;
- one-time expenses due that year are taken out after inflation;
- once a home loan starts, its yearly payment (EMI, the equated monthly
  instalment times twelve) is taken out for the loan's term.

One-time expenses are typed as `age,amount` lines and parsed leniently: lines
that do not parse are skipped.

The model has these modules:

- `Compounding` (`compounding.dfy`): the power `(1+x)**n` used throughout,
  and a year-by-year compounded amount.
- `GlidePath` (`glide_path.dfy`): the equity allocation.
- `Loan` (`loan.dfy`): the EMI formula, and the monthly amortisation that
  the formula is meant to clear.
- `Simulation` (`simulation.dfy`): the parameters, the carried state and the
  rows. It gives a pure specification of every year (`RecordAt`,
  `Projection`) and the imperative simulation loop (`RetirementCalculator`,
  `SimulateYear` and the two inner steps), proved equal to that
  specification.
- `SimulationFacts` (`simulation_facts.dfy`): what the projection
  guarantees. This covers the net-worth recurrence, the contribution
  schedule, the three-part expense, when the EMI is computed and charged,
  and growth when there are no cash flows.
- `ExpenseText` (`expense_text.dfy`): Python's `str.strip`, `str.split` and
  `int()` on strings, as the parser uses them. It also has the imperative
  parse loop, its specification and a print-then-parse round trip.
- `Optional` (`optional.dfy`): an option type.

Money, rates and returns are `real`, so arithmetic is exact. Ages and the
one-time amounts are `int`.

## Model

| member | source | states |
|---|---|---|
| Compounding.Pow | retirement_app.py:54 | `x ** n` is positive for a positive base and at least 1 for a base of at least 1 |
| Compounding.PowAboveOne | retirement_app.py:18 | `(1+r) ** n` exceeds 1 for a positive rate and at least one month, so the EMI divisor is never zero |
| Compounding.CompoundedIsPow | retirement_app.py:32-48 | multiplying an amount by `g` year after year for `n` years gives `amount * g ** n` |
| GlidePath.EquityAllocation | retirement_app.py:7-13 | start percentage up to the start age; end percentage from the end age on; otherwise it lies between the two |
| GlidePath.GlideStep | retirement_app.py:13 | from the start age to the end age the allocation falls by the same step each year, `(start_pct - end_pct) / (end_age - start_age)`, so it is the straight line of line 13, joined to the flat parts at both ends |
| GlidePath.AllocationNonIncreasing | retirement_app.py:7-13 | when the end percentage is at most the start one, the allocation never rises with age |
| GlidePath.DefaultAllocationBounds | retirement_app.py:7-13 | with the default path, the equity share stays within [0.2, 0.85] at every age |
| Loan.MonthlyEmi | retirement_app.py:16-18 | the monthly instalment has the sign of the principal |
| Loan.AnnualEmi | retirement_app.py:15-19 | the yearly EMI has the sign of the principal; it is positive for a positive principal |
| Loan.OutstandingBalanceClosedForm | retirement_app.py:15-19 | the balance owed after k monthly payments satisfies r*B(k) = r*P*(1+r)^k - m*((1+r)^k - 1) |
| Loan.MonthlyEmiCancelsGrowth | retirement_app.py:18 | instalment times ((1+r)^n - 1) equals principal times r times (1+r)^n |
| Loan.CancellingPaymentRepays | retirement_app.py:18 | any payment that meets the annuity equation leaves nothing owed after the n months |
| Loan.MonthlyEmiRepays | retirement_app.py:16-18 | paying the monthly instalment for `months` months leaves a balance of exactly 0 |
| Loan.EmiRepaysLoan | retirement_app.py:15-19 | paying one twelfth of the yearly EMI each month for `years*12` months amortises the loan to 0 |
| Loan.MonthlyEmiCoversInterest | retirement_app.py:18 | for a positive principal the instalment exceeds the first month's interest |
| Loan.EmiCoversInterest | retirement_app.py:15-19 | for a positive principal, one twelfth of the yearly EMI exceeds the first month's interest |
| Loan.BalanceFalls | retirement_app.py:18 | a payment above the interest on the principal lowers the balance every month, and the balance never exceeds the principal |
| Loan.MonthlyEmiReducesBalance | retirement_app.py:16-18 | for a positive principal, each monthly instalment lowers what is owed, in every month |
| Loan.EmiReducesBalance | retirement_app.py:15-19 | for a positive principal, paying one twelfth of the yearly EMI lowers what is owed, in every month |
| Simulation.CarryAfterStep | retirement_app.py:35-72 | the state after k+1 years is one simulated year applied to the state after k years |
| Simulation.RecordAtStep | retirement_app.py:74-81 | the k-th row is the row that the year at age `current_age + k` produces from the state after k years |
| Simulation.Projection | retirement_app.py:27-28 | there are `life_expectancy - current_age + 1` rows (none for an empty range), and row k is for age `current_age + k` |
| Simulation.ApplyOneTimeExpenses | retirement_app.py:57-62 | the balance drops, and the expense rises, by the inflated total of the entries due at this age, duplicates included |
| Simulation.EmiComputedOnce | retirement_app.py:67-69 | in the start year, with no EMI known yet, the EMI is computed on the principal inflated to that age (`LoanPayment`) |
| Simulation.ApplyHomeLoan | retirement_app.py:64-72 | the EMI becomes the one computed in the start year (or stays as it was); the charge leaves the balance and joins the expense |
| Simulation.SimulateYear | retirement_app.py:35-81 | one loop pass moves the balance, the running contribution and the EMI to the next year's state and yields that year's row |
| Simulation.RetirementCalculator | retirement_app.py:21-83 | the loop's rows are exactly the projection: one per age in order, row k equal to the specified record of year k |
| SimulationFacts.OpeningBalance | retirement_app.py:31 | the first year starts from the current savings; every later year starts from the previous row's net worth |
| SimulationFacts.NetWorthRecurrence | retirement_app.py:36-72 | growth is the opening balance times the blended return; net worth = opening + growth + contribution - expense |
| SimulationFacts.PositiveBlendedReturn | retirement_app.py:36-38 | with positive equity and fixed-income returns, the blended return is positive |
| SimulationFacts.RowAllocation | retirement_app.py:36 | row k is for age `current_age + k`; its equity share is the glide path's, within [0.2, 0.85] |
| SimulationFacts.ContribStep | retirement_app.py:45-48 | the running contribution grows by `1 + annual_contrib_increase` after each working year and is frozen after retirement |
| SimulationFacts.ContribAfter | retirement_app.py:32-48 | after k years, the running contribution is `monthly_contribution * 12` compounded once per working year so far |
| SimulationFacts.ContributionSchedule | retirement_app.py:43-48 | year k's contribution is `m*12*(1+g)^k` before the retirement age and 0 from it on |
| SimulationFacts.EmiKeptOtherwise | retirement_app.py:67 | outside the start year, or once an EMI is known, the loan step leaves the EMI unchanged |
| SimulationFacts.EmiAfterYears | retirement_app.py:33-69 | after k years the EMI is the payment computed at the start age if that year has been simulated; otherwise it is -1. It is never computed when the start precedes the current age |
| SimulationFacts.LoanChargeFollowsSchedule | retirement_app.py:64-72 | the loan charge each year equals the schedule: the EMI in years inside the term, if it is positive, and 0 otherwise |
| SimulationFacts.ExpenseParts | retirement_app.py:50-72 | a year's expense is the inflated retirement expense (from retirement on), plus the inflated one-time entries due, plus the loan charge |
| SimulationFacts.ExpenseBreakdown | retirement_app.py:50-72 | year k's expense is those three parts, inflated by `(1+inflation)^(age - current_age)`, with the scheduled loan charge |
| SimulationFacts.NoCashFlows | retirement_app.py:43-72 | with no contribution, no expenses, no one-time entries and no loan, every year's contribution and expense are 0 |
| SimulationFacts.OnlyGrowthWithoutCashFlows | retirement_app.py:40-72 | with no contribution, no expenses, no one-time entries and no loan, a year's net worth is the opening balance plus its growth at the blended return |
| SimulationFacts.RisesWithoutCashFlows | retirement_app.py:40-41 | with no cash flows and positive returns, a positive balance strictly rises over the year |
| SimulationFacts.StaysPositive | retirement_app.py:31-41 | with no cash flows, positive returns and positive savings, the balance stays positive in every year |
| SimulationFacts.GrowthOnlyRises | retirement_app.py:40-41 | under the same conditions, the net worth strictly rises every year |
| SimulationFacts.OneTimeDueConcat | retirement_app.py:58-62 | the one-time total over two lists is the sum of their totals |
| SimulationFacts.OneTimeDueAbsent | retirement_app.py:58-62 | when no entry is due at the age, nothing is charged |
| SimulationFacts.OneTimeDueScales | retirement_app.py:60 | the inflated total is the inflation factor times the raw total of the entries due |
| ExpenseText.StripLeftSpec | retirement_app.py:105-107 | left strip, by a given whitespace set, removes a prefix made only of whitespace and leaves a result that starts with non-whitespace (or is empty) |
| ExpenseText.StripRightSpec | retirement_app.py:105-107 | right strip, by a given whitespace set, removes a suffix made only of whitespace and leaves a result that ends with non-whitespace (or is empty) |
| ExpenseText.StripNoOp | retirement_app.py:105-107 | a string with no whitespace at either end is left unchanged by trimming |
| ExpenseText.StripAllSpace | retirement_app.py:105 | a string made only of whitespace strips to the empty string |
| ExpenseText.Split | retirement_app.py:105-107 | splitting gives at least one piece; no piece holds the separator; joining the pieces restores the string |
| ExpenseText.SplitNoSeparator | retirement_app.py:105 | a string without the separator splits into itself alone |
| ExpenseText.SplitFirstPiece | retirement_app.py:105 | splitting `a + sep + rest` gives `a`, then the pieces of `rest` |
| ExpenseText.SplitJoin | retirement_app.py:105-107 | splitting the join of separator-free pieces gives those pieces back |
| ExpenseText.DigitsValueShowNat | retirement_app.py:107 | the decimal digits of n are well formed, and their value is n |
| ExpenseText.ParseUnsigned | retirement_app.py:107 | `int()` of well-formed digits is their value |
| ExpenseText.ParseNegative | retirement_app.py:107 | `int()` of a minus sign followed by well-formed digits is minus their value |
| ExpenseText.ParseIntAcceptsOnlyNumbers | retirement_app.py:107 | whatever `int()` accepts is, after its own whitespace is trimmed, a digit or sign followed by digits and underscores, ending in a digit |
| ExpenseText.StripRemovesSeparatorControl | retirement_app.py:105 | `str.strip` removes the information separator U+001C |
| ExpenseText.IntRefusesSeparatorControl | retirement_app.py:107 | `int()` does not skip U+001C: `int("28\x1c")` fails |
| ExpenseText.PairRefusesSeparatorControl | retirement_app.py:107-110 | the line `28<U+001C>,100` gives no entry |
| ExpenseText.ParsePairOneComma | retirement_app.py:107 | a line that gives an entry has exactly one comma; it is two pieces around it, and the entry holds the two pieces' values, age first |
| ExpenseText.ParsePairOfPieces | retirement_app.py:107 | conversely, two comma-free pieces that both parse, joined by a comma, give the entry of their values |
| ExpenseText.ParseShowInt | retirement_app.py:107 | the decimal text of any integer n reads back to n (Python's 4300-digit limit aside, see "## Left out") |
| ExpenseText.KeepParsed | retirement_app.py:104-110 | the kept entries are never more than the lines |
| ExpenseText.ParseOneTimeExpenses | retirement_app.py:104-110 | the loop's list is exactly the entries of the stripped, split lines that parse, in order |
| ExpenseText.KeepParsedAppend | retirement_app.py:104-110 | parsing two runs of lines gives the first run's entries followed by the second's |
| ExpenseText.KeepParsedOne | retirement_app.py:106-110 | one line contributes its entry if it parses and nothing otherwise |
| ExpenseText.SkipsBadLine | retirement_app.py:106-110 | a line that fails to parse is dropped without disturbing the lines around it |
| ExpenseText.KeptEntriesComeFromLines | retirement_app.py:104-110 | every kept entry is the parse of some input line |
| ExpenseText.ParsedLinesAreKept | retirement_app.py:104-110 | every line with two integers yields an entry that is kept |
| ExpenseText.BlankInputGivesNothing | retirement_app.py:104-105 | blank or empty text gives an empty list |
| ExpenseText.FormatLineParses | retirement_app.py:107 | the line `age,amount` parses back to the entry |
| ExpenseText.FormatLinesParse | retirement_app.py:104-110 | the formatted lines of a list of entries parse back to exactly that list |
| ExpenseText.FormattedTextTrimmed | retirement_app.py:105 | the text formed by joining the formatted lines with newlines has no surrounding whitespace |
| ExpenseText.FormatThenParse | retirement_app.py:103-110 | writing entries one `age,amount` per line and parsing the text gives the entries back |

## Left out

- The user interface is outside the model: the sidebar inputs, the
  `Simulate` button, the data frame, the tables and the charts. The
  parameters arrive as a `Params` value, and the text typed for one-time
  expenses arrives as a string.
- Rows hold raw amounts and the equity share as a fraction. Dividing the
  amounts by 1e7 and multiplying the share by 100 for display
  (retirement_app.py:76-80) are only a change of units.
- Floating point is modelled as exact real arithmetic, so rounding is not
  modelled.
- Simulation.RetirementCalculator: requires, when there is a loan, a rate
  above 0 and a term of at least 1 year. The input form guarantees both: it
  offers rates from 4% and terms from 1 year (retirement_app.py:117-118). It
  also starts the loan no earlier than the current age (line 115). The
  requirement excludes some inputs on which the source would not fail:
  - a zero rate or term, where the EMI formula would divide by zero, but
    only if the start year is simulated;
  - a negative rate with a positive term, or a negative term with a
    non-zero rate, where `calculate_annual_emi` returns a value. The
    exceptions raise ZeroDivisionError: a rate of -24 with any non-zero term
    (the monthly rate is -2, `(1 + -2) ** months` is 1 and the divisor is
    0), and a rate of -12 with a negative term (`0.0` raised to a negative
    power);
  - any rate or term on a loan whose start age is never simulated (for
    example, one before the current age), because line 67 never prices it.
- The simulation always uses the default glide path (27, 60, 85%, 20%),
  whatever the current age, because retirement_app.py:36 calls it with no
  other arguments.
- The body of the yearly loop is split into `SimulateYear`,
  `ApplyOneTimeExpenses` and `ApplyHomeLoan`. They run in the same order and
  keep the same variables.
- ExpenseText.ParseInt: `int()` is modelled on ASCII digits with optional
  single underscores between them. Other Unicode decimal digits, which
  Python also accepts, are not modelled. The whitespace `int()` skips is
  tab to carriage return and the space in ASCII, and `str.strip`'s set
  beyond ASCII. Python's 4300-digit limit on `int()` and `str()` is not
  modelled: the source drops a line with a longer number, the model keeps
  it. For the same reason ParseShowInt, FormatLineParses, FormatLinesParse
  and FormatThenParse hold in Python only for numbers of at most 4300
  digits.
- A bare `except` swallows any failure to parse a line. It is modelled as
  "this line gives no entry".

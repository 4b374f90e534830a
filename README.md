# Compound-interest engine

This project models the calculation engine of a small financial chat
assistant. A chat front end sends it four numbers: a principal, an annual
interest rate in percent, a term in years and a monthly expense. The engine
returns two things:

- the final balance after the term;
- a schedule with one `[year, balance]` pair for each year from 0 to the term.

The balance compounds monthly at `yearly_rate / 12 / 100`. After each
month's interest, the fixed monthly expense is subtracted. The result is
clamped at zero only once, after the last month. Mid-way balances may be
negative.

Everything is in module `CompoundInterest` (`compound_interest.dfy`):

- Specification functions:
  - `RawBalance` is the unclamped running balance, defined by the monthly recurrence.
  - `BalanceAfter` is the clamped result.
  - `IsScheduleOf` describes the schedule.
- Imperative methods that follow the source's loops:
  - `CalculateMonthlyCompoundInterest` is a `while` loop over the months.
  - `GenerateSchedule` is a `while` loop that appends one entry per year.
  - `Calculate` returns the pair (final amount, schedule).
  - Each method is proved against the specification functions.
- Lemmas. They relate the recurrence to some independent reference forms:
  - a closed form;
  - the annuity formula;
  - the zero-rate formula.

  They also prove the engine's properties: non-negativity, the zero-month
  case, monotonicity without expenses, clamp-once behaviour, and that the
  final amount agrees with the last schedule entry.

Amounts are Dafny `real`s, so the arithmetic is exact. The source's Python
floats round on every operation. The model claims nothing about that
rounding.

A negative term is not rejected: `range(years + 1)` is empty, so the
schedule is `[]` and the final amount is `max(0, principal)`.
`GenerateSchedule` and `Calculate` model exactly that.

## Model

| member | source | states |
|---|---|---|
| CompoundInterest.MonthlyRate | compound_interest.py:14 | the monthly rate is one twelve-hundredth of the annual percentage |
| CompoundInterest.Growth | compound_interest.py:20 | the factor `(1 + monthly_rate)` each month's balance is multiplied by |
| CompoundInterest.RawBalance | compound_interest.py:15-22 | the balance after `months` loop passes before the clamp: `principal` at 0, then `b * (1 + yearly_rate/12/100) - monthly_expense` each pass; it may be negative |
| CompoundInterest.IsScheduleOf | compound_interest.py:39-46 | the list `generate_schedule` returns: `max(0, years + 1)` entries, entry `i` being `[i, balance after 12 * i months]` |
| CompoundInterest.BalancePoint | compound_interest.py:44 | one `[year, balance]` pair appended to the schedule |
| CompoundInterest.Steps | compound_interest.py:18 | `range(months)` runs `months` times when `months >= 0` and not at all otherwise |
| CompoundInterest.Max0 | compound_interest.py:24 | `max(0, x)` is non-negative, at least `x`, and is either `x` or 0 |
| CompoundInterest.BalanceAfter | compound_interest.py:14-24 | the routine's result is non-negative, at least the unclamped balance, and is either that balance or 0 |
| CompoundInterest.CalculateMonthlyCompoundInterest | compound_interest.py:1-24 | the loop's result is `max(0, RawBalance)` after `max(0, months)` recurrence steps; it is never negative; for `months <= 0` it is `max(0, principal)` |
| CompoundInterest.GenerateSchedule | compound_interest.py:26-46 | the schedule has `years + 1` entries for `years >= 0` and none otherwise; entry `i` is year `i` with the balance after `12 * i` months; years strictly increase |
| CompoundInterest.Calculate | compound_interest.py:52-78 | the final amount is the balance after `time * 12` months and the schedule is the one for `time` years; for `time >= 0`, entry `time` holds the final amount; for `time < 0` the schedule is empty and the amount is `max(0, principal)` |
| CompoundInterest.NoMonthsGivesClampedPrincipal | compound_interest.py:15-24 | with `months <= 0` the result is `max(0, principal)` for any rate and expense |
| CompoundInterest.RawBalanceStep | compound_interest.py:18-22 | each month takes the unclamped balance `b` to `b * (1 + yearly_rate/1200) - monthly_expense` |
| CompoundInterest.GeomSumTimesRatio | compound_interest.py:18-22 | the accumulated expense factor `1 + g + ... + g^(m-1)` times `g - 1` is `g^m - 1` |
| CompoundInterest.RawBalanceClosedForm | compound_interest.py:14-22 | after `m` months the unclamped balance is `P*g^m - E*(1 + g + ... + g^(m-1))`, with `g = 1 + yearly_rate/1200` |
| CompoundInterest.AnnuityFormula | compound_interest.py:14-22 | for a non-zero rate the unclamped balance is `P*g^m - E*(g^m - 1)/(g - 1)` |
| CompoundInterest.ZeroRate | compound_interest.py:14-24 | at a zero rate the result is `max(0, principal - months * monthly_expense)` for `months >= 0` |
| CompoundInterest.ExhaustedAfterOneYear | compound_interest.py:14-24 | 1000 at 0% with 100 a month gives 0 after 12 months, because the result is clamped |
| CompoundInterest.NoExpenseGrowsOneMonth | compound_interest.py:18-22 | with no expense, a non-negative rate and a non-negative principal, the unclamped balance is non-negative and does not fall from one month to the next |
| CompoundInterest.NoExpenseMonotone | compound_interest.py:18-24 | with no expense and a non-negative rate, the result is non-decreasing in `months` for any principal (from a negative principal it is 0 throughout) |
| CompoundInterest.ScheduleNonDecreasing | compound_interest.py:39-46 | with no expense and a non-negative rate, the schedule's balances are non-decreasing from year to year, for any principal |
| CompoundInterest.ExhaustedStaysExhausted | compound_interest.py:18-24 | with a non-negative expense and a non-negative growth factor, a balance that reaches zero or below stays there, and the result is 0 |
| CompoundInterest.ClampOnceMatchesClampEachMonth | compound_interest.py:15-24 | with a non-negative expense and a rate of at least -1200%, the single final clamp gives the same result as clamping the principal and every month's balance at zero |
| CompoundInterest.ClampAppliedOnlyAtEnd | compound_interest.py:15-24 | the clamp applies only to the final value: the balance -100 with a deposit of 50 a month (expense -50) at 0% is -50 after one month, yet ends at 50 after three months, where clamping every month would give 150 |
| CompoundInterest.FinalAmountIsLastEntry | compound_interest.py:41-44 | for `time >= 0` the last of the `time + 1` schedule entries holds year `time` and the balance after `time * 12` months, which is `calculate`'s final amount |

## Left out

- The report text of `calculate` is left out, and so is `format_currency`. That means the currency strings, their `,.2f` rounding and the line layout. Only the numeric pair (final amount, schedule) is modelled.
- IEEE-754 floating point is left out: rounding, NaN and infinities. Amounts are exact reals, and the model claims no bit-exact agreement with Python floats.
- The worked example of 100000 at 5% for 10 years with 500 a month is not stated as a lemma. In exact arithmetic its value is a rational number with a very large numerator and denominator, and the source's floats round it anyway; `AnnuityFormula` gives its closed form.
- The `main` example driver is left out because it only prints.
- The chat application is not part of this model: the LLM client, environment loading, the input loop and the tool-call wrapper `calculate_investment`. It is I/O and calls into an external SDK.
- Idempotence of `calculate` is not stated as a lemma. Dafny's methods here have no state other than their parameters, and every result is fixed by the specification functions.

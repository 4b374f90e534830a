/** The compound-interest engine: a balance that compounds monthly while a
    fixed expense is withdrawn after each month's interest, clamped at zero
    once at the end, and a yearly schedule of such balances.

    Amounts are modelled as mathematical reals, not as IEEE floats. */
module CompoundInterest {

  /** One `[year, balance]` pair of the yearly schedule. */
  datatype BalancePoint = BalancePoint(year: int, balance: real)

  // ---------------------------------------------------------------------------
  // Specification functions
  // ---------------------------------------------------------------------------

  /** The monthly rate as a decimal fraction, from an annual percentage. */
  function MonthlyRate(yearlyRate: real): (rate: real)
    ensures rate * 1200.0 == yearlyRate
  {
    yearlyRate / 12.0 / 100.0
  }

  /** The factor a balance is multiplied by each month. */
  function Growth(yearlyRate: real): real
  {
    1.0 + MonthlyRate(yearlyRate)
  }

  /** How many times `for _ in range(months)` runs its body. */
  function Steps(months: int): (n: nat)
    ensures months >= 0 ==> n == months
    ensures months <= 0 ==> n == 0
  {
    if months < 0 then 0 else months
  }

  /** Python's `max(0, x)`. */
  function Max0(x: real): (r: real)
    ensures r >= 0.0 && r >= x
    ensures r == x || r == 0.0
  {
    if x > 0.0 then x else 0.0
  }

  /** The running balance after `months` passes of the loop, before the
      final clamp: it may be negative. */
  function RawBalance(principal: real, yearlyRate: real, months: nat, monthlyExpense: real): real
  {
    if months == 0 then principal
    else RawBalance(principal, yearlyRate, months - 1, monthlyExpense) * Growth(yearlyRate) - monthlyExpense
  }

  /** What `calculate_monthly_compound_interest` returns. */
  function BalanceAfter(principal: real, yearlyRate: real, months: int, monthlyExpense: real): (r: real)
    ensures r >= 0.0
    ensures r >= RawBalance(principal, yearlyRate, Steps(months), monthlyExpense)
    ensures r == RawBalance(principal, yearlyRate, Steps(months), monthlyExpense) || r == 0.0
  {
    Max0(RawBalance(principal, yearlyRate, Steps(months), monthlyExpense))
  }

  /** `s` is the schedule `generate_schedule` builds for these inputs: one
      entry per year 0..years, entry i for year i after 12*i months. */
  ghost predicate IsScheduleOf(s: seq<BalancePoint>, principal: real, yearlyRate: real, years: int, monthlyExpense: real)
  {
    && |s| == Steps(years + 1)
    && forall i :: 0 <= i < |s| ==> s[i] == BalancePoint(i, BalanceAfter(principal, yearlyRate, 12 * i, monthlyExpense))
  }

  // ---------------------------------------------------------------------------
  // The operations
  // ---------------------------------------------------------------------------

  /** `calculate_monthly_compound_interest`: compound monthly, subtract the
      expense each month, clamp the final value at zero. */
  method CalculateMonthlyCompoundInterest(principal: real, yearlyRate: real, months: int, monthlyExpense: real)
    returns (result: real)
    ensures result == Max0(RawBalance(principal, yearlyRate, Steps(months), monthlyExpense))
    ensures result >= 0.0
    ensures months <= 0 ==> result == Max0(principal)
  {
    var monthlyRate := yearlyRate / 12.0 / 100.0;
    var balance := principal;
    var i := 0;
    while i < months
      invariant 0 <= i <= Steps(months)
      invariant balance == RawBalance(principal, yearlyRate, i, monthlyExpense)
    {
      balance := balance * (1.0 + monthlyRate);
      balance := balance - monthlyExpense;
      i := i + 1;
    }
    result := if balance > 0.0 then balance else 0.0;
  }

  /** `generate_schedule`: append one `[year, balance]` pair per year from 0
      to `years` inclusive; nothing when `years < 0`. */
  method GenerateSchedule(principal: real, yearlyRate: real, years: int, monthlyExpense: real)
    returns (schedule: seq<BalancePoint>)
    ensures |schedule| == (if years >= 0 then years + 1 else 0)
    ensures forall i :: 0 <= i < |schedule| ==>
      schedule[i].year == i &&
      schedule[i].balance == BalanceAfter(principal, yearlyRate, 12 * i, monthlyExpense)
    ensures forall i, j :: 0 <= i < j < |schedule| ==> schedule[i].year < schedule[j].year
    ensures IsScheduleOf(schedule, principal, yearlyRate, years, monthlyExpense)
  {
    schedule := [];
    var year := 0;
    while year < years + 1
      invariant 0 <= year <= Steps(years + 1)
      invariant |schedule| == year
      invariant forall i :: 0 <= i < year ==>
        schedule[i] == BalancePoint(i, BalanceAfter(principal, yearlyRate, 12 * i, monthlyExpense))
    {
      var months := year * 12;
      var balance := CalculateMonthlyCompoundInterest(principal, yearlyRate, months, monthlyExpense);
      schedule := schedule + [BalancePoint(year, balance)];
      year := year + 1;
    }
  }

  /** The numeric part of `calculate`: the final amount after `time` years
      and the yearly schedule. */
  method Calculate(principal: real, rate: real, time: int, monthlyExpense: real)
    returns (finalAmount: real, schedule: seq<BalancePoint>)
    ensures finalAmount == BalanceAfter(principal, rate, time * 12, monthlyExpense)
    ensures IsScheduleOf(schedule, principal, rate, time, monthlyExpense)
    ensures time >= 0 ==> |schedule| == time + 1 && schedule[time] == BalancePoint(time, finalAmount)
    ensures time < 0 ==> schedule == [] && finalAmount == Max0(principal)
  {
    finalAmount := CalculateMonthlyCompoundInterest(principal, rate, time * 12, monthlyExpense);
    schedule := GenerateSchedule(principal, rate, time, monthlyExpense);
  }

  // ---------------------------------------------------------------------------
  // Properties
  // ---------------------------------------------------------------------------

  /** With no months to run, the result is the clamped principal, whatever
      the rate and the expense. */
  lemma NoMonthsGivesClampedPrincipal(principal: real, yearlyRate: real, months: int, monthlyExpense: real)
    requires months <= 0
    ensures BalanceAfter(principal, yearlyRate, months, monthlyExpense) == Max0(principal)
  {
  }

  /** One more month of the unclamped balance is one more step of the
      recurrence b(k+1) = b(k) * (1 + yearlyRate/1200) - expense. */
  lemma RawBalanceStep(principal: real, yearlyRate: real, k: nat, monthlyExpense: real)
    ensures RawBalance(principal, yearlyRate, k + 1, monthlyExpense)
         == RawBalance(principal, yearlyRate, k, monthlyExpense) * (1.0 + yearlyRate / 1200.0) - monthlyExpense
  {
  }

  /** x^n for a natural exponent. */
  function Pow(x: real, n: nat): real
  {
    if n == 0 then 1.0 else Pow(x, n - 1) * x
  }

  /** 1 + x + ... + x^(n-1), in Horner form. */
  function GeomSum(x: real, n: nat): real
  {
    if n == 0 then 0.0 else GeomSum(x, n - 1) * x + 1.0
  }

  lemma {:induction false} GeomSumTimesRatio(x: real, n: nat)
    ensures GeomSum(x, n) * (x - 1.0) == Pow(x, n) - 1.0
  {
    if n > 0 {
      GeomSumTimesRatio(x, n - 1);
      var s, p := GeomSum(x, n - 1), Pow(x, n - 1);
      calc {
        GeomSum(x, n) * (x - 1.0);
        (s * x + 1.0) * (x - 1.0);
        (s * (x - 1.0)) * x + x - 1.0;
        (p - 1.0) * x + x - 1.0;
        p * x - 1.0;
      }
    }
  }

  lemma {:induction false} PowOne(n: nat)
    ensures Pow(1.0, n) == 1.0
  {
    if n > 0 { PowOne(n - 1); }
  }

  lemma {:induction false} GeomSumOne(n: nat)
    ensures GeomSum(1.0, n) == n as real
  {
    if n > 0 { GeomSumOne(n - 1); }
  }

  /** The unclamped balance in closed form: the principal grown for `months`
      months, less the expenses each grown for the months left after it. */
  lemma {:induction false} RawBalanceClosedForm(principal: real, yearlyRate: real, months: nat, monthlyExpense: real)
    ensures RawBalance(principal, yearlyRate, months, monthlyExpense)
         == principal * Pow(Growth(yearlyRate), months) - monthlyExpense * GeomSum(Growth(yearlyRate), months)
  {
    if months > 0 {
      RawBalanceClosedForm(principal, yearlyRate, months - 1, monthlyExpense);
      var g := Growth(yearlyRate);
      var p, s := Pow(g, months - 1), GeomSum(g, months - 1);
      var a, e := principal * p, monthlyExpense * s;
      assert (a - e) * g == a * g - e * g;
      assert a * g == principal * (p * g);
      assert e * g == monthlyExpense * (s * g);
      assert monthlyExpense * (s * g) + monthlyExpense == monthlyExpense * (s * g + 1.0);
    }
  }

  lemma QuotientOfProduct(s: real, n: real, d: real)
    requires d != 0.0 && s * d == n
    ensures s == n / d
  {
    var q := n / d;
    assert q * d == n;
    assert (s - q) * d == 0.0;
  }

  /** The annuity formula: for a non-zero rate, the balance before the clamp
      is P*g^m - E*(g^m - 1)/(g - 1) with g = 1 + yearlyRate/1200. */
  lemma AnnuityFormula(principal: real, yearlyRate: real, months: nat, monthlyExpense: real)
    requires yearlyRate != 0.0
    ensures RawBalance(principal, yearlyRate, months, monthlyExpense)
         == principal * Pow(Growth(yearlyRate), months)
            - monthlyExpense * ((Pow(Growth(yearlyRate), months) - 1.0) / (Growth(yearlyRate) - 1.0))
  {
    var g := Growth(yearlyRate);
    var p, s := Pow(g, months), GeomSum(g, months);
    RawBalanceClosedForm(principal, yearlyRate, months, monthlyExpense);
    GeomSumTimesRatio(g, months);
    assert g - 1.0 == MonthlyRate(yearlyRate) != 0.0;
    QuotientOfProduct(s, p - 1.0, g - 1.0);
    assert monthlyExpense * s == monthlyExpense * ((p - 1.0) / (g - 1.0));
  }

  /** At a zero rate the balance is the principal less all the expenses. */
  lemma ZeroRate(principal: real, months: int, monthlyExpense: real)
    requires months >= 0
    ensures BalanceAfter(principal, 0.0, months, monthlyExpense) == Max0(principal - months as real * monthlyExpense)
  {
    RawBalanceClosedForm(principal, 0.0, months, monthlyExpense);
    PowOne(months);
    GeomSumOne(months);
  }

  /** 1000 at 0% with 100 a month is exhausted after a year, and the result
      clamps to zero. */
  lemma ExhaustedAfterOneYear()
    ensures BalanceAfter(1000.0, 0.0, 12, 100.0) == 0.0
  {
    ZeroRate(1000.0, 12, 100.0);
  }

  /** Without expenses, at a non-negative rate, a non-negative balance does
      not shrink from one month to the next. */
  lemma {:induction false} NoExpenseGrowsOneMonth(principal: real, yearlyRate: real, k: nat)
    requires principal >= 0.0 && yearlyRate >= 0.0
    ensures 0.0 <= RawBalance(principal, yearlyRate, k, 0.0) <= RawBalance(principal, yearlyRate, k + 1, 0.0)
  {
    if k > 0 { NoExpenseGrowsOneMonth(principal, yearlyRate, k - 1); }
    var b := RawBalance(principal, yearlyRate, k, 0.0);
    var g := Growth(yearlyRate);
    assert g >= 1.0;
    assert b * g - b == b * (g - 1.0);
    assert b * (g - 1.0) >= 0.0;
  }

  /** Without expenses, at a non-negative rate, the result is non-decreasing
      in the number of months. From a negative principal it is 0 throughout. */
  lemma {:induction false} NoExpenseMonotone(principal: real, yearlyRate: real, m1: int, m2: int)
    requires yearlyRate >= 0.0 && m1 <= m2
    ensures BalanceAfter(principal, yearlyRate, m1, 0.0) <= BalanceAfter(principal, yearlyRate, m2, 0.0)
    decreases m2 - m1
  {
    if principal < 0.0 {
      ExhaustedStaysExhausted(principal, yearlyRate, 0, Steps(m1), 0.0);
      ExhaustedStaysExhausted(principal, yearlyRate, 0, Steps(m2), 0.0);
    } else if m1 < m2 {
      NoExpenseMonotone(principal, yearlyRate, m1, m2 - 1);
      if m2 > 0 {
        NoExpenseGrowsOneMonth(principal, yearlyRate, m2 - 1);
        assert Steps(m2) == Steps(m2 - 1) + 1;
      }
    }
  }

  /** Hence the balances of an expense-free schedule are non-decreasing. */
  lemma ScheduleNonDecreasing(s: seq<BalancePoint>, principal: real, yearlyRate: real, years: int)
    requires yearlyRate >= 0.0
    requires IsScheduleOf(s, principal, yearlyRate, years, 0.0)
    ensures forall i, j :: 0 <= i <= j < |s| ==> s[i].balance <= s[j].balance
  {
    forall i, j | 0 <= i <= j < |s| ensures s[i].balance <= s[j].balance {
      NoExpenseMonotone(principal, yearlyRate, 12 * i, 12 * j);
    }
  }

  /** With a non-negative expense and a growth factor that is not negative,
      an exhausted balance stays exhausted. */
  lemma {:induction false} ExhaustedStaysExhausted(principal: real, yearlyRate: real, k: nat, m: nat, monthlyExpense: real)
    requires yearlyRate >= -1200.0 && monthlyExpense >= 0.0 && k <= m
    requires RawBalance(principal, yearlyRate, k, monthlyExpense) <= 0.0
    ensures RawBalance(principal, yearlyRate, m, monthlyExpense) <= 0.0
    ensures BalanceAfter(principal, yearlyRate, m, monthlyExpense) == 0.0
    decreases m - k
  {
    if k < m {
      var b := RawBalance(principal, yearlyRate, k, monthlyExpense);
      var g := Growth(yearlyRate);
      assert g >= 0.0;
      assert b * g <= 0.0;
      ExhaustedStaysExhausted(principal, yearlyRate, k + 1, m, monthlyExpense);
    }
  }

  /** For contrast with the source's single final clamp: the balance if the
      principal and the balance after every month were each clamped at zero. */
  function ClampedEachMonth(principal: real, yearlyRate: real, months: nat, monthlyExpense: real): real
  {
    if months == 0 then Max0(principal)
    else Max0(ClampedEachMonth(principal, yearlyRate, months - 1, monthlyExpense) * Growth(yearlyRate) - monthlyExpense)
  }

  /** With a non-negative expense and a growth factor that is not negative,
      clamping once at the end gives the same result as clamping every month. */
  lemma {:induction false} ClampOnceMatchesClampEachMonth(principal: real, yearlyRate: real, months: nat, monthlyExpense: real)
    requires yearlyRate >= -1200.0 && monthlyExpense >= 0.0
    ensures ClampedEachMonth(principal, yearlyRate, months, monthlyExpense)
         == Max0(RawBalance(principal, yearlyRate, months, monthlyExpense))
  {
    if months > 0 {
      ClampOnceMatchesClampEachMonth(principal, yearlyRate, months - 1, monthlyExpense);
      ClampedEachMonthStep(principal, yearlyRate, months - 1, monthlyExpense);
    }
  }

  lemma ClampedEachMonthStep(principal: real, yearlyRate: real, k: nat, monthlyExpense: real)
    requires yearlyRate >= -1200.0 && monthlyExpense >= 0.0
    requires ClampedEachMonth(principal, yearlyRate, k, monthlyExpense)
          == Max0(RawBalance(principal, yearlyRate, k, monthlyExpense))
    ensures ClampedEachMonth(principal, yearlyRate, k + 1, monthlyExpense)
         == Max0(RawBalance(principal, yearlyRate, k + 1, monthlyExpense))
  {
    var b := RawBalance(principal, yearlyRate, k, monthlyExpense);
    var c := ClampedEachMonth(principal, yearlyRate, k, monthlyExpense);
    var g := Growth(yearlyRate);
    assert RawBalance(principal, yearlyRate, k + 1, monthlyExpense) == b * g - monthlyExpense;
    assert ClampedEachMonth(principal, yearlyRate, k + 1, monthlyExpense) == Max0(c * g - monthlyExpense);
    ClampCommutesWithStep(b, c, g, monthlyExpense);
  }

  /** One month's step, from a balance already clamped or not, ends at the
      same clamped value when the factor and the expense are non-negative. */
  lemma ClampCommutesWithStep(b: real, c: real, g: real, e: real)
    requires g >= 0.0 && e >= 0.0 && c == Max0(b)
    ensures Max0(c * g - e) == Max0(b * g - e)
  {
    if b <= 0.0 {
      assert c * g == 0.0;
      assert b * g <= 0.0;
    }
  }

  /** The clamp is applied only once: a balance that is negative after the
      first month can still end positive, here with a negative principal and
      a negative expense (a deposit), and then clamping every month would give
      a different result. */
  lemma ClampAppliedOnlyAtEnd()
    ensures RawBalance(-100.0, 0.0, 1, -50.0) == -50.0
    ensures BalanceAfter(-100.0, 0.0, 3, -50.0) == 50.0
    ensures ClampedEachMonth(-100.0, 0.0, 3, -50.0) == 150.0
  {
    ZeroRate(-100.0, 3, -50.0);
    assert ClampedEachMonth(-100.0, 0.0, 1, -50.0) == 50.0;
    assert ClampedEachMonth(-100.0, 0.0, 2, -50.0) == 100.0;
  }

  /** The final amount `calculate` reports is the balance of the last
      schedule entry. */
  lemma FinalAmountIsLastEntry(s: seq<BalancePoint>, principal: real, rate: real, time: int, monthlyExpense: real)
    requires time >= 0
    requires IsScheduleOf(s, principal, rate, time, monthlyExpense)
    ensures |s| == time + 1
    ensures s[time] == BalancePoint(time, BalanceAfter(principal, rate, time * 12, monthlyExpense))
  {
  }
}

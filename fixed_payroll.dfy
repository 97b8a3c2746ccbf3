/**
 * The fixed 30-day payroll of the hosted variant (`generate_monthly_payroll` in core.py):
 * every month counts 30 days, the daily rate is a thirtieth of the salary, the hourly rate
 * a ninth of the daily rate, a project scope only filters the attendance rows, and a month
 * without rows (or without rows on the project) gives every worker an all-zero row.
 * Amounts are exact, before the rounding of `net_pay`.
 */
module FixedPayroll {
  import opened Wrappers
  import opened Calendar
  import opened Ledger
  import Clock
  import CalendarPayroll

  /** `days_in_month = 30`, whatever the calendar month. */
  const FixedMonthDays: int := 30

  const OvertimeMultiplier: real := 1.0

  /** `deductions = 0` for every row. */
  const Deductions: real := 0.0

  /** This variant computes a row's hours with `hours_between`. */
  const Rule: Clock.HoursRule := Clock.Guarded

  /** An output row (the worker carries code, name, role, trade, salary). */
  datatype FixedRow = FixedRow(worker: Worker, daysInMonth: int, daysPresent: nat,
                               totalHours: real, overtimeHours: real, hourlyRate: real,
                               overtimePay: real, deductions: real, netPay: real)

  /** The `ValueError` of an impossible month, or the returned frame (empty for an empty directory). */
  datatype FixedPayroll = InvalidMonth | Rows(rows: seq<FixedRow>)

  /** `daily_rate = salary / 30`. */
  function DailyRate(salary: real): real {
    salary / FixedMonthDays as real
  }

  /** `base_earned = daily_rate * days_present`. */
  function BaseEarned(salary: real, daysPresent: nat): real {
    DailyRate(salary) * daysPresent as real
  }

  /** `hourly_rate = daily_rate / STANDARD_DAILY_HOURS`. */
  function HourlyRate(salary: real): real {
    DailyRate(salary) / Clock.StandardDailyHours
  }

  /** `overtime_pay = hourly_rate * overtime_hours * OVERTIME_MULTIPLIER`. */
  function OvertimePay(hourlyRate: real, overtimeHours: real): real {
    hourlyRate * overtimeHours * OvertimeMultiplier
  }

  /** A row of the all-zero frame: even the hourly rate is 0. */
  function ZeroRow(w: Worker): FixedRow {
    FixedRow(w, FixedMonthDays, 0, 0.0, 0.0, 0.0, 0.0, Deductions, 0.0)
  }

  /** A worker's row, computed from the (possibly project-filtered) month's rows `att`. */
  function RowFor(w: Worker, att: seq<Record>): FixedRow {
    var s := Summarize(Rule, att, w.id);
    var rate := HourlyRate(w.salary);
    var otPay := OvertimePay(rate, s.overtimeHours);
    FixedRow(w, FixedMonthDays, s.daysPresent, s.totalHours, s.overtimeHours, rate, otPay,
             Deductions, BaseEarned(w.salary, s.daysPresent) + otPay - Deductions)
  }

  /**
   * The month range computed as this variant does, with `date(year + month // 12,
   * month % 12 + 1, 1)` as its end; it is the same range (and the same error) as the
   * calendar variant's.
   */
  function MonthRange(year: int, month: int): (r: Option<(Date, Date)>)
    ensures r == Calendar.MonthRange(year, month)
  {
    match MakeDate(year, month, 1)
    case None => None
    case Some(start) =>
      NextMonthStartFormsAgree(year, month);
      match NextMonthStartByModulo(year, month)
      case None => None
      case Some(end) => Some((start, end))
  }

  /** `if project_id:` — only a present, non-zero project id filters. */
  predicate Filters(scope: Option<int>) {
    scope.Some? && scope.value != 0
  }

  /** The rows the aggregation sees: the month's rows, restricted to the project when it filters. */
  function Scoped(att: seq<Record>, scope: Option<int>): seq<Record> {
    if Filters(scope) then OnProject(att, scope.value) else att
  }

  /** The month's present rows, from the half-open range query. */
  function MonthAttendance(ledger: seq<Record>, year: int, month: int): seq<Record>
    requires MonthRange(year, month).Some?
  {
    var (start, end) := MonthRange(year, month).value;
    InRange(ledger, start, end)
  }

  /**
   * `generate_monthly_payroll(year, month, project_id)`: one row per directory worker, in
   * directory order; the all-zero frame exactly when no row survives the scope.
   */
  function MonthlyPayroll(dir: seq<Worker>, ledger: seq<Record>, year: int, month: int, scope: Option<int>): (r: FixedPayroll)
    ensures r.InvalidMonth? <==> Calendar.MonthRange(year, month).None?
    ensures r.Rows? ==> |r.rows| == |dir| && forall i :: 0 <= i < |dir| ==>
      && r.rows[i].worker == dir[i]
      && r.rows[i].daysInMonth == FixedMonthDays
      && r.rows[i].deductions == 0.0
      && r.rows[i] == (if Scoped(MonthAttendance(ledger, year, month), scope) == [] then ZeroRow(dir[i])
                       else RowFor(dir[i], Scoped(MonthAttendance(ledger, year, month), scope)))
  {
    match MonthRange(year, month)
    case None => InvalidMonth
    case Some(_) =>
      var att := MonthAttendance(ledger, year, month);
      if dir == [] then Rows([])
      else if att == [] then Rows(seq(|dir|, i requires 0 <= i < |dir| => ZeroRow(dir[i])))
      else
        var mine := Scoped(att, scope);
        if mine == [] then Rows(seq(|dir|, i requires 0 <= i < |dir| => ZeroRow(dir[i])))
        else Rows(seq(|dir|, i requires 0 <= i < |dir| => RowFor(dir[i], mine)))
  }

  /**
   * With no row left after the scope, every worker still gets a row, and it is all
   * zeros, hourly rate included.
   */
  lemma ZeroFrame(dir: seq<Worker>, ledger: seq<Record>, year: int, month: int, scope: Option<int>, i: int)
    requires Calendar.MonthRange(year, month).Some? && 0 <= i < |dir|
    requires Scoped(MonthAttendance(ledger, year, month), scope) == []
    ensures var r := MonthlyPayroll(dir, ledger, year, month, scope);
      var row := r.rows[i];
      && r.Rows? && row.worker == dir[i]
      && row.daysPresent == 0 && row.totalHours == 0.0 && row.overtimeHours == 0.0
      && row.hourlyRate == 0.0 && row.overtimePay == 0.0 && row.deductions == 0.0 && row.netPay == 0.0
  {
  }

  /** An empty directory gives an empty table, never `InvalidMonth` for a real month. */
  lemma EmptyDirectoryEmptyTable(ledger: seq<Record>, year: int, month: int, scope: Option<int>)
    requires Calendar.MonthRange(year, month).Some?
    ensures MonthlyPayroll([], ledger, year, month, scope) == Rows([])
  {
  }

  /**
   * The pay formulas of a month with rows: `hourly_rate = salary / 30 / 9`, net pay is
   * the base earned plus overtime pay less zero deductions, overtime is within the hours,
   * at most the month's days are present for a ledger of valid dates, and a non-negative
   * salary gives a non-negative net pay.
   */
  lemma PayFormulas(dir: seq<Worker>, ledger: seq<Record>, year: int, month: int, scope: Option<int>, i: int)
    requires Calendar.MonthRange(year, month).Some? && 0 <= i < |dir|
    requires Scoped(MonthAttendance(ledger, year, month), scope) != []
    ensures var row := MonthlyPayroll(dir, ledger, year, month, scope).rows[i];
      && row.hourlyRate == HourlyRate(dir[i].salary)
      && row.overtimePay == OvertimePay(row.hourlyRate, row.overtimeHours)
      && row.netPay == BaseEarned(dir[i].salary, row.daysPresent) + row.overtimePay - row.deductions
      && 0.0 <= row.overtimeHours <= row.totalHours
      && ((forall r :: r in ledger ==> r.date.Valid()) ==> row.daysPresent <= MonthLength(year, month))
      && (dir[i].salary >= 0.0 ==> row.netPay >= 0.0)
  {
    var att := MonthAttendance(ledger, year, month);
    var row := MonthlyPayroll(dir, ledger, year, month, scope).rows[i];
    if forall r :: r in ledger ==> r.date.Valid() {
      ScopedDaysWithinMonth(ledger, year, month, scope, dir[i].id);
    }
    if dir[i].salary >= 0.0 {
      PayNonNegative(dir[i].salary, row.daysPresent, row.overtimeHours);
    }
  }

  /** The scope never adds present days beyond the month's. */
  lemma ScopedDaysWithinMonth(ledger: seq<Record>, year: int, month: int, scope: Option<int>, w: int)
    requires Calendar.MonthRange(year, month).Some?
    requires forall r :: r in ledger ==> r.date.Valid()
    ensures Summarize(Rule, Scoped(MonthAttendance(ledger, year, month), scope), w).daysPresent <= MonthLength(year, month)
  {
    var (start, end) := Calendar.MonthRange(year, month).value;
    if Filters(scope) {
      InRangeOnProject(ledger, start, end, scope.value);
      DaysPresentWithinMonth(Rule, OnProject(ledger, scope.value), year, month, w);
    } else {
      DaysPresentWithinMonth(Rule, ledger, year, month, w);
    }
  }

  /** With a non-negative salary, base and overtime pay are non-negative. */
  lemma PayNonNegative(salary: real, daysPresent: nat, overtimeHours: real)
    requires salary >= 0.0 && overtimeHours >= 0.0
    ensures BaseEarned(salary, daysPresent) >= 0.0
    ensures OvertimePay(HourlyRate(salary), overtimeHours) >= 0.0
  {
    var daily := DailyRate(salary);
    assert daily >= 0.0;
    assert daily * daysPresent as real >= 0.0;
    var rate := HourlyRate(salary);
    assert rate >= 0.0;
    assert rate * overtimeHours >= 0.0;
  }

  /** A worker with no row in the scoped month gets zeros everywhere but the hourly rate. */
  lemma AbsentWorkerZeros(dir: seq<Worker>, ledger: seq<Record>, year: int, month: int, scope: Option<int>, i: int)
    requires Calendar.MonthRange(year, month).Some? && 0 <= i < |dir|
    requires !HasRow(Scoped(MonthAttendance(ledger, year, month), scope), dir[i].id)
    ensures var row := MonthlyPayroll(dir, ledger, year, month, scope).rows[i];
      row.daysPresent == 0 && row.totalHours == 0.0 && row.overtimeHours == 0.0 &&
      row.overtimePay == 0.0 && row.netPay == 0.0
  {
    var mine := Scoped(MonthAttendance(ledger, year, month), scope);
    if mine != [] {
      assert forall r :: r in mine ==> r.workerId != dir[i].id;
      assert Summarize(Rule, mine, dir[i].id) == Summary(0, 0.0, 0.0);
      ZeroPays(dir[i].salary);
    }
  }

  lemma ZeroPays(salary: real)
    ensures BaseEarned(salary, 0) == 0.0
    ensures OvertimePay(HourlyRate(salary), 0.0) == 0.0
  {
  }

  /** Restricting the ledger to a project commutes with the range query. */
  lemma {:induction false} InRangeOnProject(ledger: seq<Record>, start: Date, end: Date, p: int)
    ensures InRange(OnProject(ledger, p), start, end) == OnProject(InRange(ledger, start, end), p)
  {
    if ledger != [] {
      InRangeOnProject(ledger[1..], start, end, p);
    }
  }

  /**
   * The scope only filters: the payroll for project `p` (non-zero) is the unscoped payroll
   * of the ledger restricted to `p`, with no re-allocation of base pay.
   */
  lemma ScopeOnlyFilters(dir: seq<Worker>, ledger: seq<Record>, year: int, month: int, p: int)
    requires p != 0
    ensures MonthlyPayroll(dir, ledger, year, month, Some(p)) == MonthlyPayroll(dir, OnProject(ledger, p), year, month, None)
  {
    if Calendar.MonthRange(year, month).Some? {
      var (start, end) := Calendar.MonthRange(year, month).value;
      InRangeOnProject(ledger, start, end, p);
    }
  }

  /** A zero project id is falsy: it selects nothing and gives the company-wide table. */
  lemma ZeroProjectIsUnscoped(dir: seq<Worker>, ledger: seq<Record>, year: int, month: int)
    ensures MonthlyPayroll(dir, ledger, year, month, Some(0)) == MonthlyPayroll(dir, ledger, year, month, None)
  {
  }

  /** `salary / 30 * d` is `salary * (d / 30)`, and `salary / 30 / 9` is `salary / (30 * 9)`. */
  lemma SameFormulasAt30(salary: real, daysPresent: nat)
    ensures BaseEarned(salary, daysPresent) == CalendarPayroll.BaseEarned(salary, daysPresent, 30)
    ensures HourlyRate(salary) == CalendarPayroll.HourlyRate(salary, 30)
  {
  }

  /**
   * In a 30-day month with attendance, the fixed variant's company-wide rows agree with
   * the calendar variant's in every amount.
   */
  lemma AgreesWithCalendarIn30DayMonths(dir: seq<Worker>, ledger: seq<Record>, year: int, month: int, i: int)
    requires Calendar.MonthRange(year, month).Some? && 0 <= i < |dir|
    requires MonthLength(year, month) == 30
    requires MonthAttendance(ledger, year, month) != []
    ensures var f := MonthlyPayroll(dir, ledger, year, month, None).rows[i];
      var c := CalendarPayroll.MonthlyPayroll(dir, ledger, year, month, None).rows[i];
      && f.daysInMonth == c.daysInMonth && f.daysPresent == c.daysPresent
      && f.totalHours == c.totalHours && f.overtimeHours == c.overtimeHours
      && f.hourlyRate == c.hourlyRate && f.overtimePay == c.overtimePay && f.netPay == c.netPay
  {
    var att := MonthAttendance(ledger, year, month);
    SummarySameUnderBothRules(att, dir[i].id);
    var s := Summarize(Rule, att, dir[i].id);
    SameFormulasAt30(dir[i].salary, s.daysPresent);
  }

  /**
   * In a 31-day month the fixed variant pays more base for the same attended days than
   * the calendar variant, for a positive salary and at least one day.
   */
  lemma MoreBaseIn31DayMonths(salary: real, daysPresent: nat)
    requires salary > 0.0 && daysPresent > 0
    ensures BaseEarned(salary, daysPresent) > CalendarPayroll.BaseEarned(salary, daysPresent, 31)
  {
    var d := daysPresent as real;
    assert BaseEarned(salary, daysPresent) == salary * d / 30.0;
    assert CalendarPayroll.BaseEarned(salary, daysPresent, 31) == salary * d / 31.0;
    assert salary * d > 0.0;
  }

  /**
   * A fixed-month base stays within the salary exactly when at most 30 days are present:
   * a worker present on all 31 days of a month earns more than the monthly salary.
   */
  lemma BaseWithinSalaryIff(salary: real, daysPresent: nat)
    requires salary > 0.0
    ensures BaseEarned(salary, daysPresent) <= salary <==> daysPresent <= 30
  {
    var d := daysPresent as real;
    assert BaseEarned(salary, daysPresent) == salary * (d / 30.0);
    if daysPresent <= 30 {
      assert d / 30.0 <= 1.0;
      assert salary * (d / 30.0) <= salary * 1.0;
    } else {
      assert d / 30.0 > 1.0;
      assert salary * (d / 30.0) > salary * 1.0;
    }
  }
}

/**
 * The calendar-month payroll of the SQLite dashboard (`generate_monthly_payroll` in
 * app.py): days in month from the calendar, base pay pro-rated by days present,
 * overtime at the hourly rate, and a per-project mode that apportions the worker's
 * company-wide base pay by share of hours. All amounts are exact, before display rounding.
 */
module CalendarPayroll {
  import opened Wrappers
  import opened Calendar
  import opened Ledger
  import Clock

  const OvertimeMultiplier: real := 1.0

  /** This variant computes a row's hours with `_hours_between`. */
  const Rule: Clock.HoursRule := Clock.Clamped

  /** A company-wide row (the output columns; the worker carries code, name, role, trade, salary). */
  datatype CompanyRow = CompanyRow(worker: Worker, daysInMonth: int, daysPresent: nat,
                                   totalHours: real, overtimeHours: real, hourlyRate: real,
                                   overtimePay: real, netPay: real)

  /** A per-project row: days, hours and overtime are on that project only. */
  datatype ProjectRow = ProjectRow(worker: Worker, daysInMonth: int, daysPresent: nat,
                                   totalHours: real, overtimeHours: real, hourlyRate: real,
                                   baseShare: real, overtimePay: real, netPay: real)

  /**
   * What the function returns: the `ValueError` of an impossible month, the `None` of an
   * empty directory, or a table of rows of one of the two shapes.
   */
  datatype Payroll = InvalidMonth | NoData | CompanyWide(rows: seq<CompanyRow>) | PerProject(projectRows: seq<ProjectRow>)

  /** `salary / (days_in_month * STANDARD_DAILY_HOURS)`. */
  function HourlyRate(salary: real, daysInMonth: int): real
    requires daysInMonth > 0
  {
    salary / (daysInMonth as real * Clock.StandardDailyHours)
  }

  /** `salary * (days_present / days_in_month)`. */
  function BaseEarned(salary: real, daysPresent: nat, daysInMonth: int): real
    requires daysInMonth > 0
  {
    salary * (daysPresent as real / daysInMonth as real)
  }

  /** `hourly_rate * overtime_hours * OVERTIME_MULTIPLIER`. */
  function OvertimePay(hourlyRate: real, overtimeHours: real): real {
    hourlyRate * overtimeHours * OvertimeMultiplier
  }

  /** `_base_share`: 0.0 when the worker's total hours are not positive. */
  function BaseShare(baseEarnedTotal: real, projectHours: real, totalHoursAll: real): (share: real)
    ensures totalHoursAll <= 0.0 ==> share == 0.0
    ensures baseEarnedTotal >= 0.0 && 0.0 <= projectHours <= totalHoursAll ==> 0.0 <= share <= baseEarnedTotal
  {
    if totalHoursAll <= 0.0 then 0.0
    else
      assert 0.0 <= projectHours <= totalHoursAll ==> 0.0 <= projectHours / totalHoursAll <= 1.0;
      baseEarnedTotal * (projectHours / totalHoursAll)
  }

  /** The row of the "no attendance at all" frame. */
  function ZeroRow(w: Worker, daysInMonth: int): CompanyRow
    requires daysInMonth > 0
  {
    CompanyRow(w, daysInMonth, 0, 0.0, 0.0, HourlyRate(w.salary, daysInMonth), 0.0, 0.0)
  }

  /** A worker's company-wide row, computed from the month's present rows `att`. */
  function CompanyRowFor(w: Worker, att: seq<Record>, daysInMonth: int): (row: CompanyRow)
    requires daysInMonth > 0
  {
    var s := Summarize(Rule, att, w.id);
    var rate := HourlyRate(w.salary, daysInMonth);
    var otPay := OvertimePay(rate, s.overtimeHours);
    CompanyRow(w, daysInMonth, s.daysPresent, s.totalHours, s.overtimeHours, rate, otPay,
               BaseEarned(w.salary, s.daysPresent, daysInMonth) + otPay)
  }

  /** The worker's company-wide earned base: `base_earned_total`. */
  function BaseEarnedTotal(w: Worker, att: seq<Record>, daysInMonth: int): real
    requires daysInMonth > 0
  {
    BaseEarned(w.salary, Summarize(Rule, att, w.id).daysPresent, daysInMonth)
  }

  /** A worker's row for project `p`. */
  function ProjectRowFor(w: Worker, att: seq<Record>, p: int, daysInMonth: int): (row: ProjectRow)
    requires daysInMonth > 0
  {
    var all := Summarize(Rule, att, w.id);
    var mine := Summarize(Rule, OnProject(att, p), w.id);
    var rate := HourlyRate(w.salary, daysInMonth);
    var share := BaseShare(BaseEarnedTotal(w, att, daysInMonth), mine.totalHours, all.totalHours);
    var otPay := OvertimePay(rate, mine.overtimeHours);
    ProjectRow(w, daysInMonth, mine.daysPresent, mine.totalHours, mine.overtimeHours, rate, share, otPay, share + otPay)
  }

  /**
   * The inner join of the directory with project `p`'s summary: one row per directory
   * worker with a row on `p`, in directory order.
   */
  function ProjectRows(dir: seq<Worker>, att: seq<Record>, p: int, daysInMonth: int): (rows: seq<ProjectRow>)
    requires daysInMonth > 0
    ensures |rows| <= |dir|
    ensures forall row :: row in rows ==>
      row.worker in dir && HasRow(OnProject(att, p), row.worker.id) && row == ProjectRowFor(row.worker, att, p, daysInMonth)
    ensures forall w :: w in dir && HasRow(OnProject(att, p), w.id) ==> ProjectRowFor(w, att, p, daysInMonth) in rows
    ensures |rows| == |Joined(dir, OnProject(att, p))|
    ensures forall i :: 0 <= i < |rows| ==> rows[i] == ProjectRowFor(Joined(dir, OnProject(att, p))[i], att, p, daysInMonth)
  {
    var ws := Joined(dir, OnProject(att, p));
    var rows := seq(|ws|, i requires 0 <= i < |ws| => ProjectRowFor(ws[i], att, p, daysInMonth));
    RowsCoverWorkers(ws, rows, att, p, daysInMonth);
    rows
  }

  /** Rows built position by position from `ws` are exactly the rows of the workers in `ws`. */
  lemma RowsCoverWorkers(ws: seq<Worker>, rows: seq<ProjectRow>, att: seq<Record>, p: int, daysInMonth: int)
    requires daysInMonth > 0 && |rows| == |ws|
    requires forall i :: 0 <= i < |ws| ==> rows[i] == ProjectRowFor(ws[i], att, p, daysInMonth)
    ensures forall row :: row in rows ==> row.worker in ws && row == ProjectRowFor(row.worker, att, p, daysInMonth)
    ensures forall w :: w in ws ==> ProjectRowFor(w, att, p, daysInMonth) in rows
  {
    forall row | row in rows
      ensures row.worker in ws && row == ProjectRowFor(row.worker, att, p, daysInMonth)
    {
      var i :| 0 <= i < |rows| && rows[i] == row;
      assert row.worker == ws[i];
    }
    forall w | w in ws
      ensures ProjectRowFor(w, att, p, daysInMonth) in rows
    {
      var i :| 0 <= i < |ws| && ws[i] == w;
      assert rows[i] == ProjectRowFor(w, att, p, daysInMonth);
    }
  }

  /** The directory workers, in order, that have a row in `att`: the inner join's left side. */
  function Joined(dir: seq<Worker>, att: seq<Record>): (ws: seq<Worker>)
    ensures |ws| <= |dir|
    ensures forall w :: w in ws <==> w in dir && HasRow(att, w.id)
  {
    if dir == [] then []
    else
      var rest := Joined(dir[1..], att);
      assert forall w :: w in dir <==> w == dir[0] || w in dir[1..];
      if HasRow(att, dir[0].id) then [dir[0]] + rest else rest
  }

  /** The join key test as a filter on directory rows. */
  function Attended(att: seq<Record>): Worker -> bool {
    (w: Worker) => HasRow(att, w.id)
  }

  /**
   * The join keeps directory order and multiplicity: its rows are the directory rows
   * with a row in `att`, each once, in the order of the directory.
   */
  lemma {:induction false} JoinedKeepsOrder(dir: seq<Worker>, att: seq<Record>)
    ensures FilterOf(Joined(dir, att), dir, Attended(att))
  {
    if dir == [] {
      assert PickedAt(Joined(dir, att), dir, Attended(att), []);
    } else {
      JoinedKeepsOrder(dir[1..], att);
      var idx :| PickedAt(Joined(dir[1..], att), dir[1..], Attended(att), idx);
      var idx' := PickedCons(dir[0], Joined(dir[1..], att), dir[1..], Attended(att), idx);
      assert [dir[0]] + dir[1..] == dir;
    }
  }

  /** Days in the payroll month: `(month_end - month_start).days`. */
  function DaysInMonth(year: int, month: int): (n: int)
    requires MonthRange(year, month).Some?
    ensures n == MonthLength(year, month) && 28 <= n <= 31
  {
    MonthRangeLength(year, month);
    var (start, end) := MonthRange(year, month).value;
    DaysBetween(start, end)
  }

  /** The month's present rows: the attendance query of the payroll. */
  function MonthAttendance(ledger: seq<Record>, year: int, month: int): seq<Record>
    requires MonthRange(year, month).Some?
  {
    var (start, end) := MonthRange(year, month).value;
    InRange(ledger, start, end)
  }

  /**
   * `generate_monthly_payroll(year, month, project_id)`: `scope == None` is the
   * company-wide mode, `Some(p)` the per-project mode.
   */
  function MonthlyPayroll(dir: seq<Worker>, ledger: seq<Record>, year: int, month: int, scope: Option<int>): (r: Payroll)
    ensures r.InvalidMonth? <==> MonthRange(year, month).None?
    ensures r.NoData? <==> MonthRange(year, month).Some? && dir == []
    ensures r.CompanyWide? || r.PerProject? ==> MonthRange(year, month).Some? && dir != []
    ensures r.CompanyWide? ==> |r.rows| == |dir| && forall i :: 0 <= i < |dir| ==>
      r.rows[i] == CompanyRowFor(dir[i], MonthAttendance(ledger, year, month), DaysInMonth(year, month))
    ensures scope.None? && MonthRange(year, month).Some? && dir != [] ==> r.CompanyWide?
    ensures r.PerProject? ==> scope.Some? && r.projectRows == ProjectRows(dir, MonthAttendance(ledger, year, month), scope.value, DaysInMonth(year, month))
  {
    match MonthRange(year, month)
    case None => InvalidMonth
    case Some(_) =>
      var dim := DaysInMonth(year, month);
      var att := MonthAttendance(ledger, year, month);
      if dir == [] then NoData
      else if att == [] then
        var rows := seq(|dir|, i requires 0 <= i < |dir| => ZeroRow(dir[i], dim));
        assert forall i :: 0 <= i < |dir| ==> rows[i] == CompanyRowFor(dir[i], att, dim) by {
          forall i | 0 <= i < |dir| ensures rows[i] == CompanyRowFor(dir[i], att, dim) {
            NoAttendanceZeroRow(dir[i], dim);
          }
        }
        CompanyWide(rows)
      else
        match scope
        case None => CompanyWide(seq(|dir|, i requires 0 <= i < |dir| => CompanyRowFor(dir[i], att, dim)))
        case Some(p) =>
          if OnProject(att, p) == [] then
            NoProjectRowsWithoutAttendance(dir, att, p, dim);
            PerProject([])
          else PerProject(ProjectRows(dir, att, p, dim))
  }

  /** The "no attendance at all" frame holds the rows the general formulas give. */
  lemma NoAttendanceZeroRow(w: Worker, daysInMonth: int)
    requires daysInMonth > 0
    ensures ZeroRow(w, daysInMonth) == CompanyRowFor(w, [], daysInMonth)
  {
  }

  /** With no row on the project, the inner join is empty. */
  lemma {:induction false} NoProjectRowsWithoutAttendance(dir: seq<Worker>, att: seq<Record>, p: int, daysInMonth: int)
    requires daysInMonth > 0 && OnProject(att, p) == []
    ensures ProjectRows(dir, att, p, daysInMonth) == []
  {
    if dir != [] {
      NoProjectRowsWithoutAttendance(dir[1..], att, p, daysInMonth);
    }
  }

  /**
   * Company-wide mode is a left join: every directory worker gets exactly one row, in
   * directory order, and a worker with no present row in the month gets zeros.
   */
  lemma LeftJoinZeroRow(dir: seq<Worker>, ledger: seq<Record>, year: int, month: int, i: int)
    requires MonthRange(year, month).Some? && 0 <= i < |dir|
    requires !HasRow(MonthAttendance(ledger, year, month), dir[i].id)
    ensures var r := MonthlyPayroll(dir, ledger, year, month, None);
      r.CompanyWide? && |r.rows| == |dir| && r.rows[i].worker == dir[i] &&
      r.rows[i].daysPresent == 0 && r.rows[i].totalHours == 0.0 && r.rows[i].overtimeHours == 0.0 &&
      r.rows[i].overtimePay == 0.0 && r.rows[i].netPay == 0.0
  {
    var att := MonthAttendance(ledger, year, month);
    var dim := DaysInMonth(year, month);
    assert forall r :: r in att ==> r.workerId != dir[i].id;
    ZeroOvertimeZeroPay(HourlyRate(dir[i].salary, dim));
    ZeroDaysZeroBase(dir[i].salary, dim);
  }

  /**
   * The company-wide formulas: the month has 28 to 31 days, at most that many days
   * present (for a ledger of valid dates), the hourly rate is the salary over the
   * month's standard hours, and net pay is the pro-rated base plus overtime pay. With a
   * non-negative salary the base lies between 0 and the salary.
   */
  lemma CompanyPayFormulas(dir: seq<Worker>, ledger: seq<Record>, year: int, month: int, scope: Option<int>, i: int)
    requires MonthlyPayroll(dir, ledger, year, month, scope).CompanyWide? && 0 <= i < |dir|
    ensures var row := MonthlyPayroll(dir, ledger, year, month, scope).rows[i];
      && row.worker == dir[i]
      && row.daysInMonth == MonthLength(year, month) && 28 <= row.daysInMonth <= 31
      && ((forall r :: r in ledger ==> r.date.Valid()) ==> row.daysPresent <= row.daysInMonth)
      && row.hourlyRate == HourlyRate(dir[i].salary, row.daysInMonth)
      && row.overtimePay == OvertimePay(row.hourlyRate, row.overtimeHours)
      && row.netPay == BaseEarned(dir[i].salary, row.daysPresent, row.daysInMonth) + row.overtimePay
      && 0.0 <= row.overtimeHours <= row.totalHours
      && (dir[i].salary >= 0.0 ==> row.netPay >= 0.0)
      && (dir[i].salary >= 0.0 && row.daysPresent <= row.daysInMonth ==>
            BaseEarned(dir[i].salary, row.daysPresent, row.daysInMonth) <= dir[i].salary)
  {
    var row := MonthlyPayroll(dir, ledger, year, month, scope).rows[i];
    if forall r :: r in ledger ==> r.date.Valid() {
      DaysPresentWithinMonth(Rule, ledger, year, month, dir[i].id);
    }
    if dir[i].salary >= 0.0 {
      BaseWithinSalary(dir[i].salary, row.daysPresent, row.daysInMonth);
      OvertimePayNonNegative(dir[i].salary, row.daysInMonth, row.overtimeHours);
    }
  }

  /**
   * A month with no present row at all gives the company-wide zero frame whatever the
   * scope, also when a project is selected.
   */
  lemma NoAttendanceAnyScope(dir: seq<Worker>, ledger: seq<Record>, year: int, month: int, scope: Option<int>)
    requires MonthRange(year, month).Some? && dir != []
    requires MonthAttendance(ledger, year, month) == []
    ensures var r := MonthlyPayroll(dir, ledger, year, month, scope);
      r.CompanyWide? && |r.rows| == |dir| &&
      forall i :: 0 <= i < |dir| ==> r.rows[i].worker == dir[i] && r.rows[i].daysPresent == 0 && r.rows[i].netPay == 0.0
  {
  }

  /** A month with attendance but none on project `p` gives an empty per-project table. */
  lemma EmptyProjectNoRows(dir: seq<Worker>, ledger: seq<Record>, year: int, month: int, p: int)
    requires MonthRange(year, month).Some? && dir != []
    requires MonthAttendance(ledger, year, month) != []
    requires OnProject(MonthAttendance(ledger, year, month), p) == []
    ensures MonthlyPayroll(dir, ledger, year, month, Some(p)) == PerProject([])
  {
  }

  /**
   * Per-project mode lists exactly the directory workers with a row on the project, each
   * with its project row.
   */
  lemma ProjectModeRows(dir: seq<Worker>, ledger: seq<Record>, year: int, month: int, p: int, w: Worker)
    requires MonthRange(year, month).Some? && w in dir
    requires MonthAttendance(ledger, year, month) != []
    ensures var r := MonthlyPayroll(dir, ledger, year, month, Some(p));
      var att := MonthAttendance(ledger, year, month);
      var row := ProjectRowFor(w, att, p, DaysInMonth(year, month));
      r.PerProject? &&
      (row in r.projectRows <==> HasRow(OnProject(att, p), w.id))
  {
    var att := MonthAttendance(ledger, year, month);
    var dim := DaysInMonth(year, month);
    if OnProject(att, p) == [] {
      NoProjectRowsWithoutAttendance(dir, att, p, dim);
      assert !HasRow(OnProject(att, p), w.id);
    }
  }

  /**
   * A project row: the base share lies between 0 and the company-wide earned base, the
   * project's hours and overtime are within the worker's totals, and net pay is the
   * share plus this project's overtime pay.
   */
  lemma ProjectRowBounds(w: Worker, att: seq<Record>, p: int, daysInMonth: int)
    requires daysInMonth > 0 && w.salary >= 0.0
    ensures var row := ProjectRowFor(w, att, p, daysInMonth);
      var all := Summarize(Rule, att, w.id);
      && 0.0 <= row.overtimeHours <= row.totalHours <= all.totalHours
      && row.overtimeHours <= all.overtimeHours
      && row.hourlyRate == HourlyRate(w.salary, daysInMonth)
      && row.overtimePay == OvertimePay(row.hourlyRate, row.overtimeHours)
      && row.netPay == row.baseShare + row.overtimePay
      && (all.totalHours <= 0.0 ==> row.baseShare == 0.0)
      && (all.daysPresent <= daysInMonth ==> 0.0 <= row.baseShare <= BaseEarnedTotal(w, att, daysInMonth))
  {
    ProjectSumsWithinWorker(w.id, att, p);
    var all := Summarize(Rule, att, w.id);
    BaseWithinSalary(w.salary, all.daysPresent, daysInMonth);
  }

  /** A worker's hours and overtime on one project are within the worker's totals. */
  lemma ProjectSumsWithinWorker(w: int, att: seq<Record>, p: int)
    ensures Summarize(Rule, OnProject(att, p), w).totalHours <= Summarize(Rule, att, w).totalHours
    ensures Summarize(Rule, OnProject(att, p), w).overtimeHours <= Summarize(Rule, att, w).overtimeHours
  {
    WorkerProjectCommute(att, w, p);
    ProjectSumWithinTotal(Rule, Hours, OfWorker(att, w), p);
    ProjectSumWithinTotal(Rule, OvertimeHours, OfWorker(att, w), p);
  }

  /** The base shares of worker `w` over the projects `ps`. */
  function SharesOver(w: Worker, att: seq<Record>, daysInMonth: int, ps: seq<int>): real
    requires daysInMonth > 0
  {
    if ps == [] then 0.0 else ProjectRowFor(w, att, ps[0], daysInMonth).baseShare + SharesOver(w, att, daysInMonth, ps[1..])
  }

  /** The per-project overtime pay of worker `w` over the projects `ps`. */
  function OvertimePayOver(w: Worker, att: seq<Record>, daysInMonth: int, ps: seq<int>): real
    requires daysInMonth > 0
  {
    if ps == [] then 0.0 else ProjectRowFor(w, att, ps[0], daysInMonth).overtimePay + OvertimePayOver(w, att, daysInMonth, ps[1..])
  }

  /** The per-project net pay of worker `w` over the projects `ps`. */
  function NetPayOver(w: Worker, att: seq<Record>, daysInMonth: int, ps: seq<int>): real
    requires daysInMonth > 0
  {
    if ps == [] then 0.0 else ProjectRowFor(w, att, ps[0], daysInMonth).netPay + NetPayOver(w, att, daysInMonth, ps[1..])
  }

  /** Base shares against the same total add up like the hours they are computed from. */
  lemma BaseShareAdds(b: real, h1: real, h2: real, total: real)
    ensures BaseShare(b, h1, total) + BaseShare(b, h2, total) == BaseShare(b, h1 + h2, total)
  {
    if total > 0.0 {
      assert (h1 + h2) / total == h1 / total + h2 / total;
      assert b * (h1 / total) + b * (h2 / total) == b * (h1 / total + h2 / total);
    }
  }

  /** Overtime pay at one rate adds up like the overtime hours. */
  lemma OvertimePayAdds(rate: real, o1: real, o2: real)
    ensures OvertimePay(rate, o1) + OvertimePay(rate, o2) == OvertimePay(rate, o1 + o2)
  {
    assert rate * o1 + rate * o2 == rate * (o1 + o2);
  }

  /** A project row's share and overtime pay, in terms of the worker's rows on the project. */
  lemma ProjectRowParts(w: Worker, att: seq<Record>, p: int, daysInMonth: int)
    requires daysInMonth > 0
    ensures ProjectRowFor(w, att, p, daysInMonth).baseShare ==
      BaseShare(BaseEarnedTotal(w, att, daysInMonth), Sum(Rule, Hours, OnProject(OfWorker(att, w.id), p)), Summarize(Rule, att, w.id).totalHours)
    ensures ProjectRowFor(w, att, p, daysInMonth).overtimePay ==
      OvertimePay(HourlyRate(w.salary, daysInMonth), Sum(Rule, OvertimeHours, OnProject(OfWorker(att, w.id), p)))
  {
    WorkerProjectCommute(att, w.id, p);
  }

  lemma {:induction false} SharesOverIsProportional(w: Worker, att: seq<Record>, daysInMonth: int, ps: seq<int>)
    requires daysInMonth > 0
    ensures SharesOver(w, att, daysInMonth, ps) ==
      BaseShare(BaseEarnedTotal(w, att, daysInMonth), SumByProject(Rule, Hours, OfWorker(att, w.id), ps), Summarize(Rule, att, w.id).totalHours)
  {
    var b := BaseEarnedTotal(w, att, daysInMonth);
    var total := Summarize(Rule, att, w.id).totalHours;
    if ps == [] {
      BaseShareAdds(b, 0.0, 0.0, total);
    } else {
      SharesOverIsProportional(w, att, daysInMonth, ps[1..]);
      ProjectRowParts(w, att, ps[0], daysInMonth);
      var h0 := Sum(Rule, Hours, OnProject(OfWorker(att, w.id), ps[0]));
      var rest := SumByProject(Rule, Hours, OfWorker(att, w.id), ps[1..]);
      assert SumByProject(Rule, Hours, OfWorker(att, w.id), ps) == h0 + rest;
      assert SharesOver(w, att, daysInMonth, ps) == BaseShare(b, h0, total) + BaseShare(b, rest, total);
      BaseShareAdds(b, h0, rest, total);
    }
  }

  lemma {:induction false} OvertimePayOverIsRate(w: Worker, att: seq<Record>, daysInMonth: int, ps: seq<int>)
    requires daysInMonth > 0
    ensures OvertimePayOver(w, att, daysInMonth, ps) ==
      OvertimePay(HourlyRate(w.salary, daysInMonth), SumByProject(Rule, OvertimeHours, OfWorker(att, w.id), ps))
  {
    var rate := HourlyRate(w.salary, daysInMonth);
    if ps == [] {
      ZeroOvertimeZeroPay(rate);
    } else {
      OvertimePayOverIsRate(w, att, daysInMonth, ps[1..]);
      ProjectRowParts(w, att, ps[0], daysInMonth);
      var o0 := Sum(Rule, OvertimeHours, OnProject(OfWorker(att, w.id), ps[0]));
      var rest := SumByProject(Rule, OvertimeHours, OfWorker(att, w.id), ps[1..]);
      assert SumByProject(Rule, OvertimeHours, OfWorker(att, w.id), ps) == o0 + rest;
      assert OvertimePayOver(w, att, daysInMonth, ps) == OvertimePay(rate, o0) + OvertimePay(rate, rest);
      OvertimePayAdds(rate, o0, rest);
    }
  }

  lemma {:induction false} NetPayOverSplits(w: Worker, att: seq<Record>, daysInMonth: int, ps: seq<int>)
    requires daysInMonth > 0
    ensures NetPayOver(w, att, daysInMonth, ps) == SharesOver(w, att, daysInMonth, ps) + OvertimePayOver(w, att, daysInMonth, ps)
  {
    if ps != [] {
      NetPayOverSplits(w, att, daysInMonth, ps[1..]);
    }
  }

  /**
   * Base-share conservation: when the worker has positive hours and `ps` lists each
   * project the worker attended once, the base shares add up to the company-wide earned
   * base, and the per-project net pays add up to the company-wide net pay.
   */
  lemma ProjectPayrollsAddUp(w: Worker, att: seq<Record>, daysInMonth: int, ps: seq<int>)
    requires daysInMonth > 0
    requires Distinct(ps)
    requires forall r :: r in att && r.workerId == w.id ==> r.projectId in ps
    requires Summarize(Rule, att, w.id).totalHours > 0.0
    ensures SharesOver(w, att, daysInMonth, ps) == BaseEarnedTotal(w, att, daysInMonth)
    ensures NetPayOver(w, att, daysInMonth, ps) == CompanyRowFor(w, att, daysInMonth).netPay
  {
    var mine := OfWorker(att, w.id);
    SumPartitionByProject(Rule, Hours, mine, ps);
    SumPartitionByProject(Rule, OvertimeHours, mine, ps);
    SharesOverIsProportional(w, att, daysInMonth, ps);
    OvertimePayOverIsRate(w, att, daysInMonth, ps);
    NetPayOverSplits(w, att, daysInMonth, ps);
    FullShare(BaseEarnedTotal(w, att, daysInMonth), Summarize(Rule, att, w.id).totalHours);
  }

  /** All of the hours carry all of the base. */
  lemma FullShare(b: real, total: real)
    requires total > 0.0
    ensures BaseShare(b, total, total) == b
  {
    assert total / total == 1.0;
  }

  /**
   * A worker present on some days but with no worked hours (times missing or inverted)
   * earns a company-wide base yet gets no base share and no pay on any project.
   */
  lemma NoHoursNoProjectPay(w: Worker, att: seq<Record>, daysInMonth: int, p: int)
    requires daysInMonth > 0
    requires Summarize(Rule, att, w.id).totalHours == 0.0
    ensures ProjectRowFor(w, att, p, daysInMonth).baseShare == 0.0
    ensures ProjectRowFor(w, att, p, daysInMonth).netPay == 0.0
  {
    ProjectSumsWithinWorker(w.id, att, p);
    var mine := Summarize(Rule, OnProject(att, p), w.id);
    assert mine.overtimeHours == 0.0;
    ZeroOvertimeZeroPay(HourlyRate(w.salary, daysInMonth));
  }

  lemma ZeroOvertimeZeroPay(rate: real)
    ensures OvertimePay(rate, 0.0) == 0.0
  {
  }

  lemma ZeroDaysZeroBase(salary: real, daysInMonth: int)
    requires daysInMonth > 0
    ensures BaseEarned(salary, 0, daysInMonth) == 0.0
  {
  }

  /** With a non-negative salary the earned base is non-negative, and at most the salary. */
  lemma BaseWithinSalary(salary: real, daysPresent: nat, daysInMonth: int)
    requires daysInMonth > 0 && salary >= 0.0
    ensures 0.0 <= BaseEarned(salary, daysPresent, daysInMonth)
    ensures daysPresent <= daysInMonth ==> BaseEarned(salary, daysPresent, daysInMonth) <= salary
  {
    var frac := daysPresent as real / daysInMonth as real;
    assert 0.0 <= frac;
    assert daysPresent <= daysInMonth ==> frac <= 1.0;
    assert salary * frac >= 0.0;
    assert frac <= 1.0 ==> salary * frac <= salary * 1.0;
  }

  lemma OvertimePayNonNegative(salary: real, daysInMonth: int, overtimeHours: real)
    requires daysInMonth > 0 && salary >= 0.0 && overtimeHours >= 0.0
    ensures OvertimePay(HourlyRate(salary, daysInMonth), overtimeHours) >= 0.0
  {
    var rate := HourlyRate(salary, daysInMonth);
    assert rate >= 0.0;
    assert rate * overtimeHours >= 0.0;
  }
}

/**
 * The two read-only inputs of the payroll engine, the worker directory and the
 * attendance ledger, with the row selections the SQL queries make and the
 * per-worker aggregation (`groupby("worker_id").agg(...)`) both payroll variants use.
 */
module Ledger {
  import opened Wrappers
  import opened Calendar
  import Clock

  /** One row of the worker directory, with the columns the payroll reads. */
  datatype Worker = Worker(id: int, code: Option<string>, name: string, role: string, trade: string, salary: real)

  /** One attendance row; `signedIn` is the INTEGER flag, 1 meaning present. */
  datatype Record = Record(workerId: int, projectId: int, date: Date, signedIn: int,
                           timeIn: Option<string>, timeOut: Option<string>)

  /** The rows of `recs` that `keep` accepts, in their order (`SelectKeepsOrder`): a SQL WHERE clause. */
  function Select(recs: seq<Record>, keep: Record -> bool): (r: seq<Record>)
    ensures |r| <= |recs|
    ensures forall x :: x in r <==> x in recs && keep(x)
    ensures forall x :: multiset(r)[x] == if keep(x) then multiset(recs)[x] else 0
  {
    if recs == [] then []
    else
      var rest := Select(recs[1..], keep);
      assert recs == [recs[0]] + recs[1..];
      if keep(recs[0]) then [recs[0]] + rest else rest
  }

  /**
   * `r` is `s` filtered by `keep` as witnessed by `idx`: `r[i]` is `s[idx[i]]`, the
   * indices increase, and they are exactly the positions of `s` that `keep` accepts.
   */
  ghost predicate PickedAt<T>(r: seq<T>, s: seq<T>, keep: T -> bool, idx: seq<int>) {
    && |idx| == |r|
    && (forall i :: 0 <= i < |idx| ==> 0 <= idx[i] < |s| && r[i] == s[idx[i]])
    && (forall i, j :: 0 <= i < j < |idx| ==> idx[i] < idx[j])
    && (forall j :: 0 <= j < |s| ==> (keep(s[j]) <==> j in idx))
  }

  /** `r` holds the elements of `s` that `keep` accepts, each once, in their order in `s`. */
  ghost predicate FilterOf<T>(r: seq<T>, s: seq<T>, keep: T -> bool) {
    exists idx: seq<int> :: PickedAt(r, s, keep, idx)
  }

  /** Putting `x` in front of the source extends a filter witness. */
  lemma PickedCons<T>(x: T, r: seq<T>, s: seq<T>, keep: T -> bool, idx: seq<int>) returns (idx': seq<int>)
    requires PickedAt(r, s, keep, idx)
    ensures PickedAt(if keep(x) then [x] + r else r, [x] + s, keep, idx')
  {
    ShiftedPicks(x, r, s, keep, idx);
    if keep(x) {
      idx' := PickedConsKept(x, r, s, keep, idx);
    } else {
      idx' := Shifted(idx);
    }
  }

  /** An accepted `x` in front: its position 0 goes in front of the shifted witness. */
  lemma PickedConsKept<T>(x: T, r: seq<T>, s: seq<T>, keep: T -> bool, idx: seq<int>) returns (idx': seq<int>)
    requires PickedAt(r, s, keep, idx) && keep(x)
    ensures PickedAt([x] + r, [x] + s, keep, idx')
  {
    var shifted := Shifted(idx);
    ShiftedPicks(x, r, s, keep, idx);
    idx' := ZeroThen(shifted);
    var r' := [x] + r;
    var s' := [x] + s;
    forall i | 0 <= i < |idx'| ensures 0 <= idx'[i] < |s'| && r'[i] == s'[idx'[i]] {
      if i > 0 {
        assert r'[i] == r[i - 1];
      }
    }
    forall i, j | 0 <= i < j < |idx'| ensures idx'[i] < idx'[j] {
      if i > 0 {
        assert shifted[i - 1] < shifted[j - 1];
      }
    }
    forall j | 0 <= j < |s'| ensures keep(s'[j]) <==> j in idx' {
      if j == 0 {
        assert s'[0] == x;
      }
    }
  }

  /** Position 0 followed by the indices `rest`. */
  function ZeroThen(rest: seq<int>): (r: seq<int>)
    ensures |r| == |rest| + 1 && r[0] == 0
    ensures forall i :: 0 < i < |r| ==> r[i] == rest[i - 1]
    ensures forall j :: j in r <==> j == 0 || j in rest
  {
    [0] + rest
  }

  /** Every index moved up by one. */
  function Shifted(idx: seq<int>): (r: seq<int>)
    ensures |r| == |idx| && forall i :: 0 <= i < |idx| ==> r[i] == idx[i] + 1
  {
    seq(|idx|, i requires 0 <= i < |idx| => idx[i] + 1)
  }

  /** The shifted witness picks `r` out of `[x] + s` at every position but the first. */
  lemma ShiftedPicks<T>(x: T, r: seq<T>, s: seq<T>, keep: T -> bool, idx: seq<int>)
    requires PickedAt(r, s, keep, idx)
    ensures forall i :: 0 <= i < |idx| ==> 1 <= Shifted(idx)[i] < |s| + 1 && r[i] == ([x] + s)[Shifted(idx)[i]]
    ensures forall i, j :: 0 <= i < j < |idx| ==> Shifted(idx)[i] < Shifted(idx)[j]
    ensures 0 !in Shifted(idx)
    ensures forall j :: 1 <= j <= |s| ==> (keep(([x] + s)[j]) <==> j in Shifted(idx))
    ensures !keep(x) ==> PickedAt(r, [x] + s, keep, Shifted(idx))
  {
    var sh := Shifted(idx);
    var s' := [x] + s;
    forall j | 1 <= j <= |s| ensures keep(s'[j]) <==> j in sh {
      assert s'[j] == s[j - 1];
      if j - 1 in idx {
        var i :| 0 <= i < |idx| && idx[i] == j - 1;
        assert sh[i] == j;
      }
      if j in sh {
        var i :| 0 <= i < |sh| && sh[i] == j;
        assert idx[i] == j - 1;
      }
    }
  }

  /** A WHERE clause keeps the accepted rows in their order, each as often as it occurs. */
  lemma {:induction false} SelectKeepsOrder(recs: seq<Record>, keep: Record -> bool)
    ensures FilterOf(Select(recs, keep), recs, keep)
  {
    if recs == [] {
      assert PickedAt([], recs, keep, []);
    } else {
      SelectKeepsOrder(recs[1..], keep);
      var idx :| PickedAt(Select(recs[1..], keep), recs[1..], keep, idx);
      var idx' := PickedCons(recs[0], Select(recs[1..], keep), recs[1..], keep, idx);
      assert [recs[0]] + recs[1..] == recs;
    }
  }

  /** `att_date >= start AND att_date < end AND signed_in = 1`. */
  function InRange(recs: seq<Record>, start: Date, end: Date): seq<Record> {
    Select(recs, (r: Record) => r.signedIn == 1 && InHalfOpen(r.date, start, end))
  }

  /** `att_date = d`, whatever the signed-in flag. */
  function OnDate(recs: seq<Record>, d: Date): seq<Record> {
    Select(recs, (r: Record) => r.date == d)
  }

  /** `attendance[attendance["project_id"] == p]`. */
  function OnProject(recs: seq<Record>, p: int): seq<Record> {
    Select(recs, (r: Record) => r.projectId == p)
  }

  /** Rows on any project other than `p`. */
  function OffProject(recs: seq<Record>, p: int): seq<Record> {
    Select(recs, (r: Record) => r.projectId != p)
  }

  /** One worker's group of rows. */
  function OfWorker(recs: seq<Record>, w: int): seq<Record> {
    Select(recs, (r: Record) => r.workerId == w)
  }

  /** The distinct dates of `recs` (what `nunique` counts). */
  function Dates(recs: seq<Record>): (d: set<Date>)
    ensures |d| <= |recs|
    ensures forall r :: r in recs ==> r.date in d
    ensures forall x :: x in d ==> exists i :: 0 <= i < |recs| && recs[i].date == x
  {
    if recs == [] then {}
    else
      var rest := Dates(recs[1..]);
      assert forall r :: r in recs ==> r == recs[0] || r in recs[1..];
      assert forall x :: x in rest ==> exists i :: 0 <= i < |recs| && recs[i].date == x by {
        forall x | x in rest ensures exists i :: 0 <= i < |recs| && recs[i].date == x {
          var j :| 0 <= j < |recs[1..]| && recs[1..][j].date == x;
          assert recs[j + 1].date == x;
        }
      }
      rest + {recs[0].date}
  }

  /** The two per-row columns that are summed per worker: `hours` and `ot_hours`. */
  datatype Measure = Hours | OvertimeHours

  /** A row's value in column `m` under the variant's hours rule. */
  function RowValue(rule: Clock.HoursRule, m: Measure, r: Record): (v: real)
    ensures v >= 0.0
  {
    var h := Clock.WorkedHours(rule, r.timeIn, r.timeOut);
    match m
    case Hours => h
    case OvertimeHours => Clock.Overtime(h)
  }

  /** Column `m` summed over `recs`. */
  function Sum(rule: Clock.HoursRule, m: Measure, recs: seq<Record>): (total: real)
    ensures total >= 0.0
  {
    if recs == [] then 0.0 else RowValue(rule, m, recs[0]) + Sum(rule, m, recs[1..])
  }

  /** Summed overtime never exceeds summed hours. */
  lemma {:induction false} OvertimeWithinHours(rule: Clock.HoursRule, recs: seq<Record>)
    ensures Sum(rule, OvertimeHours, recs) <= Sum(rule, Hours, recs)
  {
    if recs != [] {
      OvertimeWithinHours(rule, recs[1..]);
    }
  }

  /** Both variants' hours functions give every column the same sum. */
  lemma {:induction false} SumSameUnderBothRules(m: Measure, recs: seq<Record>)
    ensures Sum(Clock.Clamped, m, recs) == Sum(Clock.Guarded, m, recs)
  {
    if recs != [] {
      Clock.HoursFunctionsAgree(recs[0].timeIn, recs[0].timeOut);
      SumSameUnderBothRules(m, recs[1..]);
    }
  }

  /** The aggregates of one worker's group. */
  datatype Summary = Summary(daysPresent: nat, totalHours: real, overtimeHours: real)

  /**
   * `days_present = nunique(att_date)`, `total_hours = sum(hours)`,
   * `overtime_hours = sum(ot_hours)` over the rows of worker `w`; a worker without rows
   * gets the zeros that `fillna(0)` gives.
   */
  function Summarize(rule: Clock.HoursRule, recs: seq<Record>, w: int): (s: Summary)
    ensures 0.0 <= s.overtimeHours <= s.totalHours
    ensures s.daysPresent <= |OfWorker(recs, w)|
    ensures (forall r :: r in recs ==> r.workerId != w) ==> s == Summary(0, 0.0, 0.0)
    ensures (exists r :: r in recs && r.workerId == w) ==> s.daysPresent >= 1
  {
    var mine := OfWorker(recs, w);
    OvertimeWithinHours(rule, mine);
    assert mine != [] ==> mine[0] in mine && mine[0].date in Dates(mine);
    Summary(|Dates(mine)|, Sum(rule, Hours, mine), Sum(rule, OvertimeHours, mine))
  }

  /** Both variants aggregate a worker's rows to the same summary. */
  lemma SummarySameUnderBothRules(recs: seq<Record>, w: int)
    ensures Summarize(Clock.Clamped, recs, w) == Summarize(Clock.Guarded, recs, w)
  {
    SumSameUnderBothRules(Hours, OfWorker(recs, w));
    SumSameUnderBothRules(OvertimeHours, OfWorker(recs, w));
  }

  /** Whether worker `w` has a row in `recs` (the inner join's key test). */
  predicate HasRow(recs: seq<Record>, w: int) {
    exists r :: r in recs && r.workerId == w
  }

  /** A month's present rows, for a valid ledger, fall on at most as many dates as the month has. */
  lemma DaysPresentWithinMonth(rule: Clock.HoursRule, ledger: seq<Record>, year: int, month: int, w: int)
    requires MonthRange(year, month).Some?
    requires forall r :: r in ledger ==> r.date.Valid()
    ensures var (start, end) := MonthRange(year, month).value;
      Summarize(rule, InRange(ledger, start, end), w).daysPresent <= MonthLength(year, month)
  {
    var (start, end) := MonthRange(year, month).value;
    var mine := OfWorker(InRange(ledger, start, end), w);
    forall d | d in Dates(mine) ensures d.Valid() && InHalfOpen(d, start, end) {
      var i :| 0 <= i < |mine| && mine[i].date == d;
      assert mine[i] in mine;
    }
    DistinctDatesInMonth(Dates(mine), year, month);
  }

  /** A column split into one project's rows and the rest. */
  lemma {:induction false} SumSplit(rule: Clock.HoursRule, m: Measure, recs: seq<Record>, p: int)
    ensures Sum(rule, m, recs) == Sum(rule, m, OnProject(recs, p)) + Sum(rule, m, OffProject(recs, p))
  {
    if recs != [] {
      SumSplit(rule, m, recs[1..], p);
    }
  }

  /** One project's share of a column never exceeds the whole column. */
  lemma ProjectSumWithinTotal(rule: Clock.HoursRule, m: Measure, recs: seq<Record>, p: int)
    ensures Sum(rule, m, OnProject(recs, p)) <= Sum(rule, m, recs)
  {
    SumSplit(rule, m, recs, p);
  }

  /** Dropping project `p` does not change the rows of another project `q`. */
  lemma {:induction false} OffProjectKeepsOthers(recs: seq<Record>, p: int, q: int)
    requires p != q
    ensures OnProject(OffProject(recs, p), q) == OnProject(recs, q)
  {
    if recs != [] {
      OffProjectKeepsOthers(recs[1..], p, q);
    }
  }

  /** A worker's rows on a project are the project's rows of that worker. */
  lemma {:induction false} WorkerProjectCommute(recs: seq<Record>, w: int, p: int)
    ensures OnProject(OfWorker(recs, w), p) == OfWorker(OnProject(recs, p), w)
  {
    if recs != [] {
      WorkerProjectCommute(recs[1..], w, p);
    }
  }

  /** Column `m` summed project by project over the projects `ps`. */
  function SumByProject(rule: Clock.HoursRule, m: Measure, recs: seq<Record>, ps: seq<int>): real {
    if ps == [] then 0.0 else Sum(rule, m, OnProject(recs, ps[0])) + SumByProject(rule, m, recs, ps[1..])
  }

  /** The project-by-project sum depends only on each listed project's rows. */
  lemma {:induction false} SumByProjectSameRows(rule: Clock.HoursRule, m: Measure, a: seq<Record>, b: seq<Record>, ps: seq<int>)
    requires forall q :: q in ps ==> OnProject(a, q) == OnProject(b, q)
    ensures SumByProject(rule, m, a, ps) == SumByProject(rule, m, b, ps)
  {
    if ps != [] {
      SumByProjectSameRows(rule, m, a, b, ps[1..]);
    }
  }

  /** No two entries of `ps` are the same project. */
  predicate Distinct(ps: seq<int>) {
    forall i, j :: 0 <= i < j < |ps| ==> ps[i] != ps[j]
  }

  /**
   * When `ps` lists each project of `recs` exactly once, the per-project sums of a
   * column add up to the column's total.
   */
  lemma {:induction false} SumPartitionByProject(rule: Clock.HoursRule, m: Measure, recs: seq<Record>, ps: seq<int>)
    requires Distinct(ps)
    requires forall r :: r in recs ==> r.projectId in ps
    ensures SumByProject(rule, m, recs, ps) == Sum(rule, m, recs)
    decreases ps
  {
    if ps == [] {
      assert forall x :: x !in recs;
    } else {
      var p := ps[0];
      var rest := OffProject(recs, p);
      forall r | r in rest ensures r.projectId in ps[1..] {
        assert r.projectId in ps && r.projectId != p;
      }
      assert Distinct(ps[1..]);
      SumPartitionByProject(rule, m, rest, ps[1..]);
      forall q | q in ps[1..] ensures OnProject(rest, q) == OnProject(recs, q) {
        OffProjectKeepsOthers(recs, p, q);
      }
      SumByProjectSameRows(rule, m, rest, recs, ps[1..]);
      SumSplit(rule, m, recs, p);
    }
  }
}

/**
 * The local SQLite store of the dashboard (app.py): attendance toggling and assignment
 * updates, the project status light, and today's headline counts. SQLite does not
 * enforce the declared foreign keys here, so rows may name workers or projects that do
 * not exist; the date of "today" is a parameter.
 */
module Dashboard {
  import opened Wrappers
  import opened Calendar
  import opened Ledger
  import opened Tables

  datatype Color = Gray | Red | Green | Yellow

  /** The (color, label) pair `get_project_status` returns. */
  datatype Status = Status(color: Color, caption: string)

  /** Today's counts, in the order `get_global_today_stats` returns them. */
  datatype TodayStats = TodayStats(totalWorkers: nat, present: nat, absent: nat, active: nat, held: nat)

  /** `SELECT ... FROM projects WHERE id = p`, first row. */
  function FindProject(ps: seq<Project>, p: int): (r: Option<Project>)
    ensures r.Some? ==> r.value in ps && r.value.id == p
    ensures r.None? <==> p !in ProjectIds(ps)
  {
    if ps == [] then None
    else if ps[0].id == p then Some(ps[0])
    else
      var r := FindProject(ps[1..], p);
      assert ProjectIds(ps) == {ps[0].id} + ProjectIds(ps[1..]) by {
        assert forall x :: x in ps <==> x == ps[0] || x in ps[1..];
      }
      r
  }

  /**
   * The priority classification: an unknown project is gray, a held one red, one with
   * anyone signed in today green, and otherwise yellow, labelled by whether anyone is
   * assigned.
   */
  function Classify(project: Option<Project>, assignees: nat, present: nat): (s: Status)
    ensures s.color == Gray <==> project.None?
    ensures s.color == Red <==> project.Some? && project.value.held != 0
    ensures s.color == Green <==> project.Some? && project.value.held == 0 && present > 0
    ensures s.color == Yellow <==> project.Some? && project.value.held == 0 && present == 0
    ensures s.caption == "No Attendance Today" <==> s.color == Yellow && assignees > 0
    ensures s.caption == "No Workers" <==> s.color == Yellow && assignees == 0
  {
    if project.None? then Status(Gray, "Unknown project")
    else if project.value.held != 0 then Status(Red, "Held")
    else if present > 0 then Status(Green, "Active (Attendance Today)")
    else if assignees > 0 then Status(Yellow, "No Attendance Today")
    else Status(Yellow, "No Workers")
  }

  /** The distinct workers signed in on `day`, on project `p` or, for `None`, on any project. */
  function PresentWorkers(att: seq<Record>, p: Option<int>, day: Date): set<int> {
    set r | r in att && (p.None? || r.projectId == p.value) && r.date == day && r.signedIn == 1 :: r.workerId
  }

  /** The workers assigned to `p`: `COUNT(*) FROM project_workers WHERE project_id = p` counts these. */
  function AssignedTo(assigns: set<(int, int)>, p: int): set<int> {
    set a | a in assigns && a.0 == p :: a.1
  }

  /** `SUM(CASE WHEN held = 1 THEN 1 ELSE 0 END)`, 0 for an empty table. */
  function HeldCount(ps: seq<Project>): (n: nat)
    ensures n <= |ps|
  {
    if ps == [] then 0 else (if ps[0].held == 1 then 1 else 0) + HeldCount(ps[1..])
  }

  /** `max(a - b, 0)`. */
  function ClampedDifference(a: int, b: int): (d: nat)
    ensures d >= a - b
    ensures a >= b ==> d == a - b
    ensures a <= b ==> d == 0
  {
    if a - b > 0 then a - b else 0
  }

  /** A directory lists at most as many distinct ids as it has rows. */
  lemma {:induction false} WorkerIdsWithinRows(ws: seq<Worker>)
    ensures |WorkerIds(ws)| <= |ws|
  {
    if ws != [] {
      WorkerIdsWithinRows(ws[1..]);
      assert WorkerIds(ws) == {ws[0].id} + WorkerIds(ws[1..]) by {
        assert forall x :: x in ws <==> x == ws[0] || x in ws[1..];
      }
    }
  }

  /** A set with a positive cardinality has a member. */
  lemma NonEmptyHasMember(s: set<int>)
    ensures |s| > 0 ==> exists x :: x in s
  {
    if !exists x :: x in s {
      assert s == {};
    }
  }

  /** The dashboard's SQLite tables, held in memory. */
  class LocalStore {
    var workers: seq<Worker>
    var projects: seq<Project>
    var assignments: set<(int, int)>
    var attendance: seq<Record>

    constructor ()
      ensures workers == [] && projects == [] && assignments == {} && attendance == []
    {
      workers := [];
      projects := [];
      assignments := {};
      attendance := [];
    }

    /**
     * `toggle_attendance(w, p, d, present, time_in, time_out)`: delete every row of
     * (w, d), then insert one signed-in row when `present`; no foreign key is checked.
     */
    method ToggleAttendance(w: int, p: int, d: Date, present: bool, timeIn: Option<string>, timeOut: Option<string>)
      modifies this
      ensures attendance == Marked(old(attendance), w, p, d, present, timeIn, timeOut)
      ensures workers == old(workers) && projects == old(projects) && assignments == old(assignments)
      ensures old(OnePerWorkerDate(attendance)) ==> OnePerWorkerDate(attendance)
    {
      ghost var before := attendance;
      attendance := Select(attendance, NotPair(w, d));
      if present {
        attendance := attendance + [PresentRecord(w, p, d, timeIn, timeOut)];
      }
      if OnePerWorkerDate(before) {
        MarkedKeepsOnePerWorkerDate(before, w, p, d, present, timeIn, timeOut);
      }
    }

    /**
     * `assign_worker_to_project(p, w, assign)`: `INSERT OR IGNORE` of the pair when
     * `assign`, its `DELETE` otherwise.
     */
    method SetAssignment(p: int, w: int, assign: bool)
      modifies this
      ensures assignments == if assign then old(assignments) + {(p, w)} else old(assignments) - {(p, w)}
      ensures (p, w) in assignments <==> assign
      ensures forall a :: a != (p, w) ==> (a in assignments <==> a in old(assignments))
      ensures workers == old(workers) && projects == old(projects) && attendance == old(attendance)
    {
      if assign {
        assignments := assignments + {(p, w)};
      } else {
        assignments := assignments - {(p, w)};
      }
    }

    /** `get_project_status(p)` on day `today`. */
    function ProjectStatus(p: int, today: Date): (s: Status)
      reads this
      ensures s.color == Gray <==> p !in ProjectIds(projects)
      ensures s.color == Green ==> exists r :: r in attendance && r.projectId == p && r.date == today && r.signedIn == 1
      ensures s.color == Yellow && s.caption == "No Attendance Today" ==> exists w :: (p, w) in assignments
      ensures s == Classify(FindProject(projects, p), |AssignedTo(assignments, p)|, |PresentWorkers(attendance, Some(p), today)|)
    {
      var present := PresentWorkers(attendance, Some(p), today);
      var assignees := AssignedTo(assignments, p);
      var s := Classify(FindProject(projects, p), |assignees|, |present|);
      NonEmptyHasMember(present);
      NonEmptyHasMember(assignees);
      s
    }

    /** `get_global_today_stats()` on day `today`: the two differences are clamped at 0. */
    function Stats(today: Date): (t: TodayStats)
      reads this
      ensures t.totalWorkers == |workers| && t.held == HeldCount(projects)
      ensures t.present == |PresentWorkers(attendance, None, today)|
      ensures t.absent == ClampedDifference(|workers|, t.present)
      ensures t.present + t.absent == |workers| || (t.absent == 0 && t.present > |workers|)
      ensures t.active == |projects| - HeldCount(projects)
    {
      var present := |PresentWorkers(attendance, None, today)|;
      var held := HeldCount(projects);
      TodayStats(|workers|, present, ClampedDifference(|workers|, present), ClampedDifference(|projects|, held), held)
    }
  }

  /**
   * When every worker signed in today is in a directory without duplicate ids, no more
   * workers are present than exist, so the absent count is exact.
   */
  lemma AbsentExact(ws: seq<Worker>, att: seq<Record>, today: Date)
    requires forall i, j :: 0 <= i < j < |ws| ==> ws[i].id != ws[j].id
    requires PresentWorkers(att, None, today) <= WorkerIds(ws)
    ensures |PresentWorkers(att, None, today)| <= |ws|
    ensures ClampedDifference(|ws|, |PresentWorkers(att, None, today)|) == |ws| - |PresentWorkers(att, None, today)|
  {
    WorkerIdsWithinRows(ws);
    SubsetCardinality(PresentWorkers(att, None, today), WorkerIds(ws));
  }

  lemma SubsetCardinality(a: set<int>, b: set<int>)
    requires a <= b
    ensures |a| <= |b|
  {
    assert b == a + (b - a);
  }

  /**
   * Without enforced foreign keys a row may name a worker missing from the directory:
   * then the present count can exceed the directory and the clamp reports 0 absent.
   */
  lemma AbsentClampFires(today: Date)
    ensures var att := [Record(7, 1, today, 1, None, None)];
      |PresentWorkers(att, None, today)| == 1 &&
      ClampedDifference(0, |PresentWorkers(att, None, today)|) == 0
  {
    var att := [Record(7, 1, today, 1, None, None)];
    assert PresentWorkers(att, None, today) == {7};
  }

  /** The held status wins over attendance: a held project is red even with workers present. */
  lemma HeldWins(project: Project, assignees: nat, present: nat)
    requires project.held != 0
    ensures Classify(Some(project), assignees, present) == Status(Red, "Held")
  {
  }
}

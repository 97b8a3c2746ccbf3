/**
 * The hosted database's tables (db.py): workers, projects, the `project_workers`
 * assignment table keyed by (project, worker), and the attendance ledger. Foreign keys
 * are enforced, so an insert naming a missing worker or project fails and its
 * transaction is discarded, and deleting a worker or a project cascades to the rows
 * that reference it.
 */
module Tables {
  import opened Wrappers
  import opened Calendar
  import opened Ledger

  /** One row of `projects`; `held` is the INTEGER flag. */
  datatype Project = Project(id: int, name: string, held: int)

  function WorkerIds(ws: seq<Worker>): set<int> {
    set x | x in ws :: x.id
  }

  function ProjectIds(ps: seq<Project>): set<int> {
    set x | x in ps :: x.id
  }

  /** Every attendance and assignment row names an existing worker and project. */
  predicate Integrity(ws: seq<Worker>, ps: seq<Project>, assigns: set<(int, int)>, att: seq<Record>) {
    && (forall r :: r in att ==> r.workerId in WorkerIds(ws) && r.projectId in ProjectIds(ps))
    && (forall a :: a in assigns ==> a.0 in ProjectIds(ps) && a.1 in WorkerIds(ws))
  }

  /** The row filter `worker_id = w AND att_date = d`. */
  function IsPair(w: int, d: Date): Record -> bool {
    (r: Record) => r.workerId == w && r.date == d
  }

  function NotPair(w: int, d: Date): Record -> bool {
    (r: Record) => !(r.workerId == w && r.date == d)
  }

  /** The rows of worker `w` on date `d`, on any project. */
  function PairRows(recs: seq<Record>, w: int, d: Date): seq<Record> {
    Select(recs, IsPair(w, d))
  }

  /** The ledger invariant the payroll relies on: at most one row per (worker, date). */
  ghost predicate OnePerWorkerDate(recs: seq<Record>) {
    forall w: int, d: Date {:trigger PairRows(recs, w, d)} :: |PairRows(recs, w, d)| <= 1
  }

  /** The row `mark_attendance` inserts. */
  function PresentRecord(w: int, p: int, d: Date, timeIn: Option<string>, timeOut: Option<string>): Record {
    Record(w, p, d, 1, timeIn, timeOut)
  }

  /**
   * The ledger after `DELETE ... WHERE worker_id = w AND att_date = d` followed, when
   * `present`, by the insert of one signed-in row.
   */
  function Marked(recs: seq<Record>, w: int, p: int, d: Date, present: bool,
                  timeIn: Option<string>, timeOut: Option<string>): seq<Record> {
    Select(recs, NotPair(w, d)) + (if present then [PresentRecord(w, p, d, timeIn, timeOut)] else [])
  }

  lemma {:induction false} SelectAppend(a: seq<Record>, b: seq<Record>, keep: Record -> bool)
    ensures Select(a + b, keep) == Select(a, keep) + Select(b, keep)
  {
    if a == [] {
      assert a + b == b;
    } else {
      assert (a + b)[1..] == a[1..] + b;
      SelectAppend(a[1..], b, keep);
    }
  }

  /** Selecting with `g` after a weaker `f` is selecting with `g` alone. */
  lemma {:induction false} SelectWithin(recs: seq<Record>, f: Record -> bool, g: Record -> bool)
    requires forall x :: g(x) ==> f(x)
    ensures Select(Select(recs, f), g) == Select(recs, g)
  {
    if recs != [] {
      SelectWithin(recs[1..], f, g);
    }
  }

  /** Selecting from rows none of which qualify gives nothing. */
  lemma {:induction false} SelectDisjoint(recs: seq<Record>, f: Record -> bool, g: Record -> bool)
    requires forall x :: g(x) ==> !f(x)
    ensures Select(Select(recs, f), g) == []
  {
    if recs != [] {
      SelectDisjoint(recs[1..], f, g);
    }
  }

  /**
   * After marking, the pair (w, d) has no earlier row left on any project: it has exactly
   * the new signed-in row when `present`, and no row otherwise.
   */
  lemma MarkedPairRows(recs: seq<Record>, w: int, p: int, d: Date, present: bool,
                       timeIn: Option<string>, timeOut: Option<string>)
    ensures PairRows(Marked(recs, w, p, d, present, timeIn, timeOut), w, d) ==
      if present then [PresentRecord(w, p, d, timeIn, timeOut)] else []
  {
    var added: seq<Record> := if present then [PresentRecord(w, p, d, timeIn, timeOut)] else [];
    SelectAppend(Select(recs, NotPair(w, d)), added, IsPair(w, d));
    SelectDisjoint(recs, NotPair(w, d), IsPair(w, d));
  }

  /** Marking (w, d) leaves the rows of every other (worker, date) pair as they were. */
  lemma MarkedOtherPairs(recs: seq<Record>, w: int, p: int, d: Date, present: bool,
                         timeIn: Option<string>, timeOut: Option<string>, w2: int, d2: Date)
    requires w2 != w || d2 != d
    ensures PairRows(Marked(recs, w, p, d, present, timeIn, timeOut), w2, d2) == PairRows(recs, w2, d2)
  {
    var added: seq<Record> := if present then [PresentRecord(w, p, d, timeIn, timeOut)] else [];
    SelectAppend(Select(recs, NotPair(w, d)), added, IsPair(w2, d2));
    SelectWithin(recs, NotPair(w, d), IsPair(w2, d2));
  }

  /** Marking keeps the ledger at one row per (worker, date). */
  lemma MarkedKeepsOnePerWorkerDate(recs: seq<Record>, w: int, p: int, d: Date, present: bool,
                                    timeIn: Option<string>, timeOut: Option<string>)
    requires OnePerWorkerDate(recs)
    ensures OnePerWorkerDate(Marked(recs, w, p, d, present, timeIn, timeOut))
  {
    var after := Marked(recs, w, p, d, present, timeIn, timeOut);
    forall w2: int, d2: Date ensures |PairRows(after, w2, d2)| <= 1 {
      if w2 == w && d2 == d {
        MarkedPairRows(recs, w, p, d, present, timeIn, timeOut);
      } else {
        MarkedOtherPairs(recs, w, p, d, present, timeIn, timeOut, w2, d2);
      }
    }
  }

  /** `DELETE FROM <table> WHERE id = k`, for a table whose id column is `key`. */
  function Without<T(!new)>(xs: seq<T>, key: T -> int, k: int): (r: seq<T>)
    ensures forall x :: x in r <==> x in xs && key(x) != k
  {
    if xs == [] then []
    else
      assert xs == [xs[0]] + xs[1..];
      if key(xs[0]) == k then Without(xs[1..], key, k) else [xs[0]] + Without(xs[1..], key, k)
  }

  function WorkerKey(x: Worker): int {
    x.id
  }

  function ProjectKey(x: Project): int {
    x.id
  }

  /** The cascade of a worker's deletion through a table with a `worker_id` column. */
  function DropWorkerRows(recs: seq<Record>, w: int): seq<Record> {
    Select(recs, (r: Record) => r.workerId != w)
  }

  function DropWorkerAssignments(assigns: set<(int, int)>, w: int): set<(int, int)> {
    set a | a in assigns && a.1 != w
  }

  function DropProjectAssignments(assigns: set<(int, int)>, p: int): set<(int, int)> {
    set a | a in assigns && a.0 != p
  }

  /**
   * Deleting a worker with its cascade: no row mentions the worker afterwards, every
   * other worker keeps exactly its rows and assignments, and integrity is kept.
   */
  lemma DeleteWorkerCascade(ws: seq<Worker>, ps: seq<Project>, assigns: set<(int, int)>, att: seq<Record>, w: int, v: int)
    requires v != w
    ensures WorkerIds(Without(ws, WorkerKey, w)) == WorkerIds(ws) - {w}
    ensures OfWorker(DropWorkerRows(att, w), w) == []
    ensures OfWorker(DropWorkerRows(att, w), v) == OfWorker(att, v)
    ensures forall q :: (q, w) !in DropWorkerAssignments(assigns, w)
    ensures forall q :: (q, v) in DropWorkerAssignments(assigns, w) <==> (q, v) in assigns
    ensures Integrity(ws, ps, assigns, att) ==>
      Integrity(Without(ws, WorkerKey, w), ps, DropWorkerAssignments(assigns, w), DropWorkerRows(att, w))
  {
    SelectDisjoint(att, (r: Record) => r.workerId != w, (r: Record) => r.workerId == w);
    SelectWithin(att, (r: Record) => r.workerId != w, (r: Record) => r.workerId == v);
    var ws' := Without(ws, WorkerKey, w);
    assert forall i :: i in WorkerIds(ws') <==> i in WorkerIds(ws) && i != w by {
      forall i ensures i in WorkerIds(ws') <==> i in WorkerIds(ws) && i != w {
        if i in WorkerIds(ws) && i != w {
          var x :| x in ws && x.id == i;
          assert x in ws';
        }
      }
    }
  }

  /** Deleting a project cascades the same way to its attendance and assignment rows. */
  lemma DeleteProjectCascade(ws: seq<Worker>, ps: seq<Project>, assigns: set<(int, int)>, att: seq<Record>, p: int, q: int)
    requires q != p
    ensures ProjectIds(Without(ps, ProjectKey, p)) == ProjectIds(ps) - {p}
    ensures OnProject(OffProject(att, p), p) == []
    ensures OnProject(OffProject(att, p), q) == OnProject(att, q)
    ensures forall w :: (p, w) !in DropProjectAssignments(assigns, p)
    ensures forall w :: (q, w) in DropProjectAssignments(assigns, p) <==> (q, w) in assigns
    ensures Integrity(ws, ps, assigns, att) ==>
      Integrity(ws, Without(ps, ProjectKey, p), DropProjectAssignments(assigns, p), OffProject(att, p))
  {
    SelectDisjoint(att, (r: Record) => r.projectId != p, (r: Record) => r.projectId == p);
    OffProjectKeepsOthers(att, p, q);
    var ps' := Without(ps, ProjectKey, p);
    assert forall i :: i in ProjectIds(ps') <==> i in ProjectIds(ps) && i != p by {
      forall i ensures i in ProjectIds(ps') <==> i in ProjectIds(ps) && i != p {
        if i in ProjectIds(ps) && i != p {
          var x :| x in ps && x.id == i;
          assert x in ps';
        }
      }
    }
  }

  /** The hosted database, its four tables held in memory. */
  class HrDatabase {
    var workers: seq<Worker>
    var projects: seq<Project>
    var assignments: set<(int, int)>
    var attendance: seq<Record>

    predicate Valid()
      reads this
    {
      Integrity(workers, projects, assignments, attendance)
    }

    constructor ()
      ensures workers == [] && projects == [] && assignments == {} && attendance == []
      ensures Valid()
    {
      workers := [];
      projects := [];
      assignments := {};
      attendance := [];
    }

    /**
     * `mark_attendance(w, p, d, present, time_in, time_out)`: delete every row of (w, d),
     * then insert one signed-in row when `present`. The insert fails on a missing worker
     * or project, and then nothing changes (`ok` is false).
     */
    method MarkAttendance(w: int, p: int, d: Date, present: bool, timeIn: Option<string>, timeOut: Option<string>)
      returns (ok: bool)
      modifies this
      ensures ok <==> !present || (w in WorkerIds(workers) && p in ProjectIds(projects))
      ensures ok ==> attendance == Marked(old(attendance), w, p, d, present, timeIn, timeOut)
      ensures !ok ==> attendance == old(attendance)
      ensures workers == old(workers) && projects == old(projects) && assignments == old(assignments)
      ensures old(Valid()) ==> Valid()
      ensures old(OnePerWorkerDate(attendance)) ==> OnePerWorkerDate(attendance)
    {
      if present && !(w in WorkerIds(workers) && p in ProjectIds(projects)) {
        return false;
      }
      var before := attendance;
      attendance := Select(attendance, NotPair(w, d));
      if present {
        attendance := attendance + [PresentRecord(w, p, d, timeIn, timeOut)];
      }
      if OnePerWorkerDate(before) {
        MarkedKeepsOnePerWorkerDate(before, w, p, d, present, timeIn, timeOut);
      }
      ok := true;
    }

    /** `get_attendance_range(start, end)`: the signed-in rows with `start <= att_date < end`. */
    function AttendanceRange(start: Date, end: Date): (rows: seq<Record>)
      reads this
      ensures forall r :: r in rows <==> r in attendance && r.signedIn == 1 && InHalfOpen(r.date, start, end)
      ensures forall r :: multiset(rows)[r] == if r.signedIn == 1 && InHalfOpen(r.date, start, end) then multiset(attendance)[r] else 0
    {
      InRange(attendance, start, end)
    }

    /** `get_attendance(d)`: the rows dated `d`, signed in or not. */
    function AttendanceOn(d: Date): (rows: seq<Record>)
      reads this
      ensures forall r :: r in rows <==> r in attendance && r.date == d
      ensures forall r :: multiset(rows)[r] == if r.date == d then multiset(attendance)[r] else 0
    {
      OnDate(attendance, d)
    }

    /**
     * `assign_worker_to_project(p, w)`: `INSERT ... ON CONFLICT DO NOTHING` into a table
     * keyed by (project, worker), so assigning twice is assigning once; a missing worker
     * or project makes the insert fail and nothing changes.
     */
    method AssignWorkerToProject(p: int, w: int) returns (ok: bool)
      modifies this
      ensures ok <==> p in ProjectIds(projects) && w in WorkerIds(workers)
      ensures assignments == if ok then old(assignments) + {(p, w)} else old(assignments)
      ensures (p, w) in old(assignments) ==> assignments == old(assignments)
      ensures workers == old(workers) && projects == old(projects) && attendance == old(attendance)
      ensures old(Valid()) ==> Valid()
    {
      ok := p in ProjectIds(projects) && w in WorkerIds(workers);
      if ok {
        assignments := assignments + {(p, w)};
      }
    }

    /** `unassign_worker(p, w)`: removes the pair (p, w) only, and nothing when it is absent. */
    method UnassignWorker(p: int, w: int)
      modifies this
      ensures assignments == old(assignments) - {(p, w)}
      ensures (p, w) !in old(assignments) ==> assignments == old(assignments)
      ensures workers == old(workers) && projects == old(projects) && attendance == old(attendance)
      ensures old(Valid()) ==> Valid()
    {
      assignments := assignments - {(p, w)};
    }

    /**
     * `delete_worker(w)`: the worker's row goes, and ON DELETE CASCADE takes every
     * attendance and assignment row of the worker with it.
     */
    method DeleteWorker(w: int)
      modifies this
      ensures workers == Without(old(workers), WorkerKey, w)
      ensures attendance == DropWorkerRows(old(attendance), w)
      ensures assignments == DropWorkerAssignments(old(assignments), w)
      ensures projects == old(projects)
      ensures w !in WorkerIds(workers)
      ensures forall r :: r in attendance ==> r.workerId != w
      ensures old(Valid()) ==> Valid()
    {
      DeleteWorkerCascade(workers, projects, assignments, attendance, w, w + 1);
      workers := Without(workers, WorkerKey, w);
      attendance := DropWorkerRows(attendance, w);
      assignments := DropWorkerAssignments(assignments, w);
    }

    /** `delete_project(p)`: the project's row and, by cascade, its attendance and assignments. */
    method DeleteProject(p: int)
      modifies this
      ensures projects == Without(old(projects), ProjectKey, p)
      ensures attendance == OffProject(old(attendance), p)
      ensures assignments == DropProjectAssignments(old(assignments), p)
      ensures workers == old(workers)
      ensures p !in ProjectIds(projects)
      ensures forall r :: r in attendance ==> r.projectId != p
      ensures old(Valid()) ==> Valid()
    {
      DeleteProjectCascade(workers, projects, assignments, attendance, p, p + 1);
      projects := Without(projects, ProjectKey, p);
      attendance := OffProject(attendance, p);
      assignments := DropProjectAssignments(assignments, p);
    }
  }
}

/**
 One run of an apply job in the worker wrapper: job row, delta rows and job-delta rows are written
 step by step, from the concurrency check to the final status.
 */
module ApplyJob {
  import opened Prelude
  import JobProtocol
  import DeltaModel

  type JobId = JobProtocol.JobId

  /** `Delta.Status`. */
  datatype DbStatus = Pending | Started | Applied | Conflict | NotApplied | Error | Ignored | Unpermitted

  /** A row linking the job to one of its deltas. */
  datatype JobDelta = JobDelta(deltaId: string, status: DbStatus)

  datatype Tables = Tables(jobs: JobProtocol.Rows, deltas: map<string, DbStatus>, jobDeltas: map<JobId, seq<JobDelta>>)

  /** What the wrapper reads from `feedback.json`: whether there is an error, and the delta feedback
      if the outputs have one. */
  datatype FeedbackFile = FeedbackFile(error: bool, deltaFeedback: Option<seq<DeltaModel.Entry>>)

  /** `before_docker_run` may raise before or after it has listed the deltas. */
  datatype Preparation = Ready | FailsEarly | FailsLate

  /** `file` is None if the feedback cannot be read. */
  datatype Container = Exited(code: int, file: Option<FeedbackFile>) | CannotRun

  /** `crons`: when the clean-up cron ran while the container ran; `grace` and `applyJobs` are its own.
      `deleted`: the project and its rows were deleted while the container ran.
      `interrupted`: an exception stops the recording of the delta feedback before this entry. */
  datatype World = World(now: int, later: int, preparation: Preparation, container: Container, crons: seq<int>,
                         grace: nat, applyJobs: set<JobId>, deleted: bool, interrupted: Option<nat>)

  datatype Ended = TurnedAway | Vanished | Finished | Failed

  const SIGKILL := 137
  const TIMEOUT := -1

  // ---- the statements on the tables ----

  function IdsOf(rows: seq<JobDelta>): set<string> {
    set i | 0 <= i < |rows| :: rows[i].deltaId
  }

  function RowsOf(t: Tables, j: JobId): seq<JobDelta> {
    if j in t.jobDeltas then t.jobDeltas[j] else []
  }

  function Mark(deltas: map<string, DbStatus>, ids: set<string>, s: DbStatus): map<string, DbStatus> {
    map id | id in deltas :: if id in ids then s else deltas[id]
  }

  function MarkRows(rows: seq<JobDelta>, ids: set<string>, s: DbStatus): (r: seq<JobDelta>)
    ensures |r| == |rows|
    ensures forall i :: 0 <= i < |r| ==>
      r[i] == if rows[i].deltaId in ids then JobDelta(rows[i].deltaId, s) else rows[i]
  {
    seq(|rows|, i requires 0 <= i < |rows| => if rows[i].deltaId in ids then JobDelta(rows[i].deltaId, s) else rows[i])
  }

  /** Both updates of the hooks: the deltas `ids` and the rows of the job for them get status `s`. */
  function MarkAll(t: Tables, j: JobId, ids: set<string>, s: DbStatus): Tables {
    t.(deltas := Mark(t.deltas, ids, s),
       jobDeltas := if j in t.jobDeltas then t.jobDeltas[j := MarkRows(t.jobDeltas[j], ids, s)] else t.jobDeltas)
  }

  function ToDbStatus(s: DeltaModel.Status): DbStatus {
    match s
    case Applied => Applied
    case Conflict => Conflict
    case ApplyFailed => NotApplied
    case UnknownError => Error
  }

  /** The first `n` entries of the delta feedback recorded in order. */
  function Recorded(t: Tables, j: JobId, log: seq<DeltaModel.Entry>, n: nat): Tables
    requires n <= |log|
  {
    if n == 0 then t
    else MarkAll(Recorded(t, j, log, n - 1), j, {log[n - 1].deltaId}, ToDbStatus(log[n - 1].status))
  }

  // ---- the cron ----

  function StaleJobs(t: Tables, now: int, grace: nat): set<JobId> {
    set j | j in t.jobs && JobProtocol.Stale(t.jobs[j], now, grace)
  }

  /** A delta of one of the jobs `js`. */
  predicate DeltaOf(t: Tables, js: set<JobId>, id: string) {
    exists j :: j in js && id in IdsOf(RowsOf(t, j))
  }

  /** The deltas and the rows of the jobs `js` set to ERROR. */
  function FailDeltas(t: Tables, js: set<JobId>): Tables {
    Tables(t.jobs,
           map id | id in t.deltas :: if DeltaOf(t, js, id) then Error else t.deltas[id],
           map j | j in t.jobDeltas :: if j in js then MarkRows(t.jobDeltas[j], IdsOf(t.jobDeltas[j]), Error)
                                       else t.jobDeltas[j])
  }

  /** One pass of the cron: every stale job is failed, and the deltas of a stale apply job are set to
      ERROR. */
  function AfterCron(t: Tables, now: int, grace: nat, applyJobs: set<JobId>): Tables {
    FailDeltas(t, StaleJobs(t, now, grace) * applyJobs).(jobs := JobProtocol.FailStale(t.jobs, now, grace))
  }

  function AfterCrons(t: Tables, times: seq<int>, grace: nat, applyJobs: set<JobId>): Tables {
    if times == [] then t
    else AfterCron(AfterCrons(t, times[..|times| - 1], grace, applyJobs), times[|times| - 1], grace, applyJobs)
  }

  // ---- the run ----

  /** The wrapper sees a failure of the container or in its feedback. */
  predicate ContainerFailed(c: Container) {
    c.Exited? && (c.code != 0 || c.file.None? || c.file.value.error)
  }

  function Removed(t: Tables, j: JobId): Tables {
    Tables(t.jobs - {j}, t.deltas - IdsOf(RowsOf(t, j)), t.jobDeltas - {j})
  }

  function End(t: Tables, j: JobId, e: JobProtocol.Ending, w: World): Tables {
    t.(jobs := JobProtocol.SaveEnding(t.jobs, j, e, w.later))
  }

  /** Everything after a passed concurrency check. */
  function RunPrepared(t: Tables, j: JobId, w: World): (Tables, Ended) {
    var ids := IdsOf(RowsOf(t, j));
    if w.preparation.FailsEarly? then (End(t, j, JobProtocol.Exception, w), Failed)
    else if w.preparation.FailsLate? then (End(MarkAll(t, j, ids, Error), j, JobProtocol.Exception, w), Failed)
    else
      AfterContainer(AfterCrons(MarkAll(t, j, ids, Started), w.crons, w.grace, w.applyJobs), j, ids, w)
  }

  /** Everything after the container on the tables as they are by then. */
  function AfterContainer(t: Tables, j: JobId, ids: set<string>, w: World): (Tables, Ended) {
    if w.container.CannotRun? then (End(MarkAll(t, j, ids, Error), j, JobProtocol.Exception, w), Failed)
    else if w.deleted then (Removed(t, j), Vanished)
    else if ContainerFailed(w.container) then
      (MarkAll(End(t, j, JobProtocol.ContainerFailure, w), j, ids, Error), Failed)
    else
      var feedback := w.container.file.value.deltaFeedback;
      if feedback.None? then (End(MarkAll(t, j, ids, Error), j, JobProtocol.Exception, w), Failed)
      else if w.interrupted.Some? && w.interrupted.value <= |feedback.value| then
        (End(MarkAll(Recorded(t, j, feedback.value, w.interrupted.value), j, ids, Error), j, JobProtocol.Exception, w),
         Failed)
      else (End(Recorded(t, j, feedback.value, |feedback.value|), j, JobProtocol.Success, w), Finished)
  }

  function RunOn(t: Tables, j: JobId, w: World): (Tables, Ended) {
    var t0 := t.(jobs := JobProtocol.SaveStarted(t.jobs, j, w.now));
    if JobProtocol.Others(t0.jobs, j) != {} then (t0.(jobs := JobProtocol.ResetToPending(t0.jobs, j)), TurnedAway)
    else RunPrepared(t0, j, w)
  }

  lemma FailNone(t: Tables)
    ensures FailDeltas(t, {}) == t
  {
    assert FailDeltas(t, {}).deltas == t.deltas && FailDeltas(t, {}).jobDeltas == t.jobDeltas;
  }

  lemma FailKeepsJobs(t: Tables, js: set<JobId>)
    ensures FailDeltas(t, js).jobs == t.jobs
  {
  }

  lemma FailOneMore(t: Tables, js: set<JobId>, j: JobId)
    requires j !in js
    ensures var t1 := FailDeltas(t, js);
            MarkAll(t1, j, IdsOf(RowsOf(t1, j)), Error) == FailDeltas(t, js + {j})
  {
    var t1, t2 := FailDeltas(t, js), FailDeltas(t, js + {j});
    assert RowsOf(t1, j) == RowsOf(t, j);
    var ids := IdsOf(RowsOf(t, j));
    forall id ensures DeltaOf(t, js + {j}, id) <==> DeltaOf(t, js, id) || id in ids {
    }
    assert Mark(t1.deltas, ids, Error) == t2.deltas;
    assert MarkAll(t1, j, ids, Error).jobDeltas == t2.jobDeltas;
  }

  lemma MarkedRowsStay(t: Tables, j: JobId, ids: set<string>, s: DbStatus)
    ensures IdsOf(RowsOf(MarkAll(t, j, ids, s), j)) == IdsOf(RowsOf(t, j))
  {
    assert forall i :: 0 <= i < |RowsOf(t, j)| ==>
      RowsOf(MarkAll(t, j, ids, s), j)[i].deltaId == RowsOf(t, j)[i].deltaId;
  }

  /** Every row of the job and every delta keeps its status or gets ERROR. */
  ghost predicate OnlyErrors(t: Tables, r: Tables, j: JobId) {
    && r.deltas.Keys == t.deltas.Keys
    && (forall id :: id in t.deltas ==> r.deltas[id] in {t.deltas[id], Error})
    && |RowsOf(r, j)| == |RowsOf(t, j)|
    && (forall i :: 0 <= i < |RowsOf(t, j)| ==>
          RowsOf(r, j)[i].deltaId == RowsOf(t, j)[i].deltaId
            && RowsOf(r, j)[i].status in {RowsOf(t, j)[i].status, Error})
  }

  lemma SameIds(t: Tables, r: Tables, j: JobId)
    requires OnlyErrors(t, r, j)
    ensures IdsOf(RowsOf(r, j)) == IdsOf(RowsOf(t, j))
  {
  }

  lemma CronKeepsRows(t: Tables, now: int, grace: nat, applyJobs: set<JobId>, j: JobId)
    ensures OnlyErrors(t, AfterCron(t, now, grace, applyJobs), j)
  {
    hide StaleJobs, DeltaOf, IdsOf;
  }

  lemma {:induction false} CronsKeepRows(t: Tables, times: seq<int>, grace: nat, applyJobs: set<JobId>, j: JobId)
    ensures var r := AfterCrons(t, times, grace, applyJobs);
      OnlyErrors(t, r, j) && IdsOf(RowsOf(r, j)) == IdsOf(RowsOf(t, j))
  {
    if times != [] {
      var init := times[..|times| - 1];
      CronsKeepRows(t, init, grace, applyJobs, j);
      CronKeepsRows(AfterCrons(t, init, grace, applyJobs), times[|times| - 1], grace, applyJobs, j);
    }
    SameIds(t, AfterCrons(t, times, grace, applyJobs), j);
  }

  // ---- the classes ----

  class Database {
    var jobs: JobProtocol.Rows
    var deltas: map<string, DbStatus>
    var jobDeltas: map<JobId, seq<JobDelta>>

    function Contents(): Tables
      reads this
    {
      Tables(jobs, deltas, jobDeltas)
    }

    constructor (t: Tables)
      ensures Contents() == t
    {
      jobs, deltas, jobDeltas := t.jobs, t.deltas, t.jobDeltas;
    }

    /** The two `update` statements of the hooks. */
    method SetStatus(j: JobId, ids: set<string>, s: DbStatus)
      modifies this`deltas, this`jobDeltas
      ensures Contents() == MarkAll(old(Contents()), j, ids, s)
    {
      deltas := Mark(deltas, ids, s);
      if j in jobDeltas {
        jobDeltas := jobDeltas[j := MarkRows(jobDeltas[j], ids, s)];
      }
    }

    /** The cron goes through the stale jobs one by one and then fails them in one update. */
    method FailTerminatedJobs(now: int, grace: nat, applyJobs: set<JobId>)
      modifies this
      ensures Contents() == AfterCron(old(Contents()), now, grace, applyJobs)
    {
      ghost var t := Contents();
      var rest := StaleJobs(Contents(), now, grace);
      ghost var done: set<JobId> := {};
      FailNone(t);
      hide FailDeltas, MarkAll;
      assert done * applyJobs == {};
      while rest != {}
        invariant done !! rest && done + rest == StaleJobs(t, now, grace)
        invariant Contents() == FailDeltas(t, done * applyJobs)
        decreases rest
      {
        var j :| j in rest;
        rest := rest - {j};
        FailOneMore(t, done * applyJobs, j);
        if j in applyJobs {
          var ids := IdsOf(if j in jobDeltas then jobDeltas[j] else []);
          SetStatus(j, ids, Error);
          assert (done + {j}) * applyJobs == done * applyJobs + {j};
        } else {
          assert (done + {j}) * applyJobs == done * applyJobs;
        }
        done := done + {j};
      }
      assert done == StaleJobs(t, now, grace);
      FailKeepsJobs(t, done * applyJobs);
      jobs := JobProtocol.FailStale(jobs, now, grace);
    }

    /** What the cron does to the tables while a container runs. */
    method CronPasses(times: seq<int>, grace: nat, applyJobs: set<JobId>)
      modifies this
      ensures Contents() == AfterCrons(old(Contents()), times, grace, applyJobs)
    {
      hide AfterCron;
      for i := 0 to |times|
        invariant Contents() == AfterCrons(old(Contents()), times[..i], grace, applyJobs)
      {
        FailTerminatedJobs(times[i], grace, applyJobs);
        assert times[..i + 1][..i] == times[..i];
      }
      assert times[..|times|] == times;
    }
  }

  class ApplyDeltaJobRun {
    const jobId: JobId
    const db: Database
    var deltaIds: Option<set<string>>

    constructor (jobId: JobId, db: Database)
      ensures this.jobId == jobId && this.db == db && deltaIds == None
    {
      this.jobId := jobId;
      this.db := db;
      deltaIds := None;
    }

    /** Atomic: an exception leaves the tables alone, though `deltaIds` may have been assigned. */
    method BeforeDockerRun(p: Preparation) returns (raised: bool)
      modifies this, db`deltas, db`jobDeltas
      ensures raised <==> !p.Ready?
      ensures var ids := IdsOf(RowsOf(old(db.Contents()), jobId));
        && deltaIds == (if p.FailsEarly? then old(deltaIds) else Some(ids))
        && db.Contents() == if raised then old(db.Contents()) else MarkAll(old(db.Contents()), jobId, ids, Started)
    {
      if p.FailsEarly? { return true; }
      var ids := IdsOf(if jobId in db.jobDeltas then db.jobDeltas[jobId] else []);
      deltaIds := Some(ids);
      if p.FailsLate? { return true; }
      db.SetStatus(jobId, ids, Started);
      raised := false;
    }

    method AfterDockerRun(feedback: Option<seq<DeltaModel.Entry>>, interrupted: Option<nat>) returns (raised: bool)
      modifies db`deltas, db`jobDeltas
      ensures raised <==> feedback.None? || (interrupted.Some? && interrupted.value <= |feedback.value|)
      ensures db.Contents() ==
        if feedback.None? then old(db.Contents())
        else Recorded(old(db.Contents()), jobId, feedback.value, if raised then interrupted.value else |feedback.value|)
    {
      if feedback.None? { return true; }
      var log := feedback.value;
      for i := 0 to |log|
        invariant db.Contents() == Recorded(old(db.Contents()), jobId, log, i)
        invariant interrupted.Some? ==> i <= interrupted.value
      {
        if interrupted == Some(i) { return true; }
        db.SetStatus(jobId, {log[i].deltaId}, ToDbStatus(log[i].status));
      }
      raised := interrupted == Some(|log|);
    }

    /** Without `deltaIds` the hook raises, which its caller only logs. */
    method AfterDockerException()
      modifies db`deltas, db`jobDeltas
      ensures db.Contents() == if deltaIds.None? then old(db.Contents())
                               else MarkAll(old(db.Contents()), jobId, deltaIds.value, Error)
    {
      if deltaIds.Some? {
        db.SetStatus(jobId, deltaIds.value, Error);
      }
    }

    /** The global exception handler. */
    method HandleException(later: int)
      modifies db
      ensures db.Contents() ==
        var t := if deltaIds.None? then old(db.Contents())
                 else MarkAll(old(db.Contents()), jobId, deltaIds.value, Error);
        t.(jobs := JobProtocol.SaveEnding(t.jobs, jobId, JobProtocol.Exception, later))
    {
      AfterDockerException();
      db.jobs := JobProtocol.SaveEnding(db.jobs, jobId, JobProtocol.Exception, later);
    }

    method Run(w: World) returns (ended: Ended)
      requires deltaIds.None?
      modifies this, db
      ensures (db.Contents(), ended) == RunOn(old(db.Contents()), jobId, w)
    {
      hide MarkAll, Recorded, AfterCrons;
      db.jobs := JobProtocol.SaveStarted(db.jobs, jobId, w.now);
      ghost var t0 := db.Contents();
      if JobProtocol.Others(db.jobs, jobId) != {} {
        db.jobs := JobProtocol.ResetToPending(db.jobs, jobId);
        return TurnedAway;
      }
      var raised := BeforeDockerRun(w.preparation);
      if raised {
        HandleException(w.later);
        return Failed;
      }
      db.CronPasses(w.crons, w.grace, w.applyJobs);
      CronsKeepRows(MarkAll(t0, jobId, deltaIds.value, Started), w.crons, w.grace, w.applyJobs, jobId);
      MarkedRowsStay(t0, jobId, deltaIds.value, Started);
      if w.container.CannotRun? {
        HandleException(w.later);
        return Failed;
      }
      if w.deleted {
        var ids := IdsOf(if jobId in db.jobDeltas then db.jobDeltas[jobId] else []);
        db.jobs, db.deltas, db.jobDeltas := db.jobs - {jobId}, db.deltas - ids, db.jobDeltas - {jobId};
        return Vanished;
      }
      var code, file := w.container.code, w.container.file;
      var error := code == SIGKILL || code == TIMEOUT || file.None? || file.value.error;
      if code != 0 || error {
        db.jobs := JobProtocol.SaveEnding(db.jobs, jobId, JobProtocol.ContainerFailure, w.later);
        AfterDockerException();
        return Failed;
      }
      raised := AfterDockerRun(file.value.deltaFeedback, w.interrupted);
      if raised {
        HandleException(w.later);
        return Failed;
      }
      db.jobs := JobProtocol.SaveEnding(db.jobs, jobId, JobProtocol.Success, w.later);
      ended := Finished;
    }
  }
}

/** How a run of an apply job ends and which status it leaves where, in terms of what it met. */
module ApplyJobLaws {
  import opened Prelude
  import JobProtocol
  import DeltaModel
  import opened ApplyJob
  import opened ApplyJobProofs

  /** Another job of the project is waiting for a worker or has one. */
  ghost predicate OtherIsActive(t: Tables, j: JobId) {
    j in t.jobs && exists k :: k in t.jobs && k != j && t.jobs[k].project == t.jobs[j].project
                               && (t.jobs[k].status == JobProtocol.Queued || t.jobs[k].status == JobProtocol.Started)
  }

  lemma TurnedAwayIff(t: Tables, j: JobId, w: World)
    ensures RunOn(t, j, w).1 == TurnedAway <==> OtherIsActive(t, j)
  {
    var t0 := t.(jobs := JobProtocol.SaveStarted(t.jobs, j, w.now));
    JobProtocol.OthersIff(t0.jobs, j);
    if k :| k in t.jobs && k != j && j in t.jobs && t.jobs[k].project == t.jobs[j].project
            && (t.jobs[k].status == JobProtocol.Queued || t.jobs[k].status == JobProtocol.Started) {
      assert t0.jobs[k] == t.jobs[k] && t0.jobs[j].project == t.jobs[j].project;
    }
    if k :| k in t0.jobs && k != j && j in t0.jobs && t0.jobs[k].project == t0.jobs[j].project
            && (t0.jobs[k].status == JobProtocol.Queued || t0.jobs[k].status == JobProtocol.Started) {
      assert t0.jobs[k] == t.jobs[k] && t0.jobs[j].project == t.jobs[j].project;
    }
    hide JobProtocol.Others, JobProtocol.SaveStarted, MarkAll, AfterCrons, Recorded, IdsOf;
  }

  /** How a run ends: turned away exactly if another job of the project is QUEUED or STARTED; FINISHED
      exactly if the hook before it does not raise, the container exits with 0 and leaves a readable
      file without error and with a delta feedback, and its recording is not interrupted; and FAILED
      in every other case but the deletion of the project. */
  lemma EndsIff(t: Tables, j: JobId, w: World)
    ensures var ended, c := RunOn(t, j, w).1, w.container;
      && (ended == TurnedAway <==> OtherIsActive(t, j))
      && (ended == Vanished <==> !OtherIsActive(t, j) && w.preparation.Ready? && c.Exited? && w.deleted)
      && (ended == Finished <==>
            && !OtherIsActive(t, j) && w.preparation.Ready? && !w.deleted
            && c.Exited? && c.code == 0 && c.file.Some? && !c.file.value.error && c.file.value.deltaFeedback.Some?
            && (w.interrupted.Some? ==> w.interrupted.value > |c.file.value.deltaFeedback.value|))
  {
    TurnedAwayIff(t, j, w);
    hide OtherIsActive, JobProtocol.Others, MarkAll, AfterCrons, Recorded, IdsOf;
  }

  // ---- the statuses of a finished run ----

  /** Entry `k` is the last one for the delta. */
  predicate IsLast(log: seq<DeltaModel.Entry>, k: nat, id: string) {
    k < |log| && log[k].deltaId == id && forall m :: k < m < |log| ==> log[m].deltaId != id
  }

  /** The database's names for the statuses of the log. */
  predicate Corresponds(db: DbStatus, s: DeltaModel.Status) {
    && (db == Applied <==> s == DeltaModel.Applied)
    && (db == Conflict <==> s == DeltaModel.Conflict)
    && (db == NotApplied <==> s == DeltaModel.ApplyFailed)
    && (db == Error <==> s == DeltaModel.UnknownError)
  }

  lemma {:induction false} LastStatusIs(log: seq<DeltaModel.Entry>, n: nat, k: nat, id: string)
    requires k < n <= |log| && IsLast(log, k, id)
    ensures LastStatus(log, n, id).Some? && Corresponds(LastStatus(log, n, id).value, log[k].status)
  {
    if k < n - 1 {
      LastStatusIs(log, n - 1, k, id);
    }
  }

  /** Main result: after a FINISHED run a delta of the job, and its row, is APPLIED, CONFLICT, NOT_APPLIED
      or ERROR exactly if the status of its last entry is Applied, Conflict, ApplyFailed or UnknownError,
      whatever the cron has written. */
  lemma FinishedStatusIff(t: Tables, j: JobId, w: World, i: nat, k: nat)
    requires j in t.jobs && j in w.applyJobs && i < |RowsOf(t, j)| && RowsOf(t, j)[i].deltaId in t.deltas
    requires RunOn(t, j, w).1 == Finished && IsLast(FeedbackOf(w), k, RowsOf(t, j)[i].deltaId)
    ensures var t' := RunOn(t, j, w).0; var id, status := RowsOf(t, j)[i].deltaId, FeedbackOf(w)[k].status;
      && id in t'.deltas && Corresponds(t'.deltas[id], status)
      && |RowsOf(t', j)| == |RowsOf(t, j)| && RowsOf(t', j)[i].deltaId == id
      && Corresponds(RowsOf(t', j)[i].status, status)
  {
    FinishedAfterCron(t, j, w, i);
    LastStatusIs(FeedbackOf(w), |FeedbackOf(w)|, k, RowsOf(t, j)[i].deltaId);
    hide RunOn, LastStatus, RowsOf, Corresponds, FeedbackOf, IsLast;
  }

  // ---- the statuses of a failed run ----

  lemma MarkedError(t: Tables, j: JobId, ids: set<string>, i: nat)
    requires ids == IdsOf(RowsOf(t, j)) && i < |RowsOf(t, j)| && RowsOf(t, j)[i].deltaId in t.deltas
    ensures var r, id := MarkAll(t, j, ids, Error), RowsOf(t, j)[i].deltaId;
      && id in r.deltas && r.deltas[id] == Error
      && |RowsOf(r, j)| == |RowsOf(t, j)| && RowsOf(r, j)[i] == JobDelta(id, Error)
  {
    assert RowsOf(t, j)[i].deltaId in ids;
  }

  lemma AfterContainerErrors(t: Tables, j: JobId, ids: set<string>, w: World, i: nat)
    requires ids == IdsOf(RowsOf(t, j)) && i < |RowsOf(t, j)| && RowsOf(t, j)[i].deltaId in t.deltas
    requires AfterContainer(t, j, ids, w).1 == Failed
    ensures var t', id := AfterContainer(t, j, ids, w).0, RowsOf(t, j)[i].deltaId;
      && id in t'.deltas && t'.deltas[id] == Error
      && |RowsOf(t', j)| == |RowsOf(t, j)| && RowsOf(t', j)[i] == JobDelta(id, Error)
  {
    var log := FeedbackOf(w);
    MarkedError(t, j, ids, i);
    MarkedError(End(t, j, JobProtocol.ContainerFailure, w), j, ids, i);
    if w.interrupted.Some? && w.interrupted.value <= |log| {
      RecordedIsLast(t, j, log, w.interrupted.value);
      RecordedKeepsIds(t, j, log, w.interrupted.value);
      MarkedError(Recorded(t, j, log, w.interrupted.value), j, ids, i);
    }
    hide MarkAll, Recorded, IdsOf, LastStatus;
  }

  /** A FAILED run leaves all its deltas and rows at ERROR, unless the hook before it raised before the
      deltas were listed: then they are as they were. */
  lemma FailedStatus(t: Tables, j: JobId, w: World, i: nat)
    requires i < |RowsOf(t, j)| && RowsOf(t, j)[i].deltaId in t.deltas && RunOn(t, j, w).1 == Failed
    ensures var t' := RunOn(t, j, w).0; var id := RowsOf(t, j)[i].deltaId;
      && id in t'.deltas && |RowsOf(t', j)| == |RowsOf(t, j)|
      && if w.preparation.FailsEarly? then t'.deltas == t.deltas && t'.jobDeltas == t.jobDeltas
         else t'.deltas[id] == Error && RowsOf(t', j)[i] == JobDelta(id, Error)
  {
    var t0 := t.(jobs := JobProtocol.SaveStarted(t.jobs, j, w.now));
    assert RowsOf(t0, j) == RowsOf(t, j);
    var ids := IdsOf(RowsOf(t0, j));
    MarkedError(t0, j, ids, i);
    if w.preparation.Ready? {
      var t1 := MarkAll(t0, j, ids, Started);
      MarkedRowsStay(t0, j, ids, Started);
      assert RowsOf(t1, j)[i].deltaId == RowsOf(t0, j)[i].deltaId && |RowsOf(t1, j)| == |RowsOf(t0, j)|;
      assert t1.deltas.Keys == t0.deltas.Keys;
      CronsKeepRows(t1, w.crons, w.grace, w.applyJobs, j);
      var t2 := AfterCrons(t1, w.crons, w.grace, w.applyJobs);
      assert RunOn(t, j, w) == AfterContainer(t2, j, ids, w);
      hide RunOn, MarkAll, AfterCrons, AfterContainer, IdsOf, RowsOf;
      AfterContainerErrors(t2, j, ids, w, i);
    } else {
      assert RowsOf(RunOn(t, j, w).0, j)
        == RowsOf(if w.preparation.FailsEarly? then t0 else MarkAll(t0, j, ids, Error), j);
      hide MarkAll, IdsOf;
    }
  }

  // ---- one pass of the cron ----

  /** The job is QUEUED or STARTED since more than the grace period. */
  predicate RunsTooLong(t: Tables, j: JobId, now: int, grace: nat) {
    && j in t.jobs && (t.jobs[j].status == JobProtocol.Queued || t.jobs[j].status == JobProtocol.Started)
    && t.jobs[j].startedAt.Some? && now - t.jobs[j].startedAt.value > grace
  }

  /** A pass of the cron fails exactly these jobs, and sets to ERROR exactly the rows and the deltas of
      the apply jobs among them; everything else stays. */
  lemma CronSets(t: Tables, now: int, grace: nat, applyJobs: set<JobId>)
    ensures var r := AfterCron(t, now, grace, applyJobs);
      && r.jobs.Keys == t.jobs.Keys && r.deltas.Keys == t.deltas.Keys && r.jobDeltas.Keys == t.jobDeltas.Keys
      && (forall j :: j in t.jobs ==>
            r.jobs[j] == if RunsTooLong(t, j, now, grace)
                         then t.jobs[j].(status := JobProtocol.Failed, finishedAt := Some(now)) else t.jobs[j])
      && (forall j :: j in t.jobDeltas ==>
            && |r.jobDeltas[j]| == |t.jobDeltas[j]|
            && forall i :: 0 <= i < |t.jobDeltas[j]| ==>
                 r.jobDeltas[j][i] == if j in applyJobs && RunsTooLong(t, j, now, grace)
                                      then JobDelta(t.jobDeltas[j][i].deltaId, Error) else t.jobDeltas[j][i])
      && (forall id :: id in t.deltas ==>
            r.deltas[id] == if exists j, i :: j in applyJobs && RunsTooLong(t, j, now, grace) && j in t.jobDeltas
                                              && 0 <= i < |t.jobDeltas[j]| && t.jobDeltas[j][i].deltaId == id
                            then Error else t.deltas[id])
  {
    var js := StaleJobs(t, now, grace) * applyJobs;
    forall j ensures j in StaleJobs(t, now, grace) <==> RunsTooLong(t, j, now, grace) {
    }
    forall id
      ensures DeltaOf(t, js, id) <==>
        exists j, i :: j in applyJobs && RunsTooLong(t, j, now, grace) && j in t.jobDeltas
                       && 0 <= i < |t.jobDeltas[j]| && t.jobDeltas[j][i].deltaId == id
    {
      DeltaOfIff(t, js, id);
    }
    hide StaleJobs, DeltaOf, RunsTooLong;
    assert forall j :: j in t.jobDeltas ==>
      forall i :: 0 <= i < |t.jobDeltas[j]| ==> t.jobDeltas[j][i].deltaId in IdsOf(t.jobDeltas[j]);
  }

  lemma DeltaOfIff(t: Tables, js: set<JobId>, id: string)
    ensures DeltaOf(t, js, id) <==>
      exists j, i :: j in js && j in t.jobDeltas && 0 <= i < |t.jobDeltas[j]| && t.jobDeltas[j][i].deltaId == id
  {
    if j, i :| j in js && j in t.jobDeltas && 0 <= i < |t.jobDeltas[j]| && t.jobDeltas[j][i].deltaId == id {
      assert id in IdsOf(RowsOf(t, j));
    }
  }

  // ---- what stays ----

  /** The tables agree on delta `id`, on the rows of job `k`, on all other jobs than `j`, and on which
      deltas every job has. */
  ghost predicate SameElsewhere(t: Tables, r: Tables, j: JobId, id: string, k: JobId) {
    && id in t.deltas && id in r.deltas && r.deltas[id] == t.deltas[id]
    && r.jobDeltas.Keys == t.jobDeltas.Keys && (k in t.jobDeltas ==> r.jobDeltas[k] == t.jobDeltas[k])
    && (forall x :: x in t.jobDeltas ==> SameDeltaIds(t.jobDeltas[x], r.jobDeltas[x]))
    && r.jobs.Keys == t.jobs.Keys && (forall x :: x in t.jobs && x != j ==> r.jobs[x] == t.jobs[x])
  }

  ghost predicate SameDeltaIds(a: seq<JobDelta>, b: seq<JobDelta>) {
    |a| == |b| && forall i :: 0 <= i < |a| ==> a[i].deltaId == b[i].deltaId
  }

  lemma MarkedElsewhere(t: Tables, j: JobId, ids: set<string>, s: DbStatus, id: string, k: JobId)
    requires id in t.deltas && id !in ids && k != j
    ensures SameElsewhere(t, MarkAll(t, j, ids, s), j, id, k)
  {
  }

  lemma ElsewhereIsTransitive(t: Tables, r: Tables, q: Tables, j: JobId, id: string, k: JobId)
    requires SameElsewhere(t, r, j, id, k) && SameElsewhere(r, q, j, id, k)
    ensures SameElsewhere(t, q, j, id, k)
  {
  }

  lemma EndElsewhere(t: Tables, j: JobId, e: JobProtocol.Ending, w: World, id: string, k: JobId)
    requires id in t.deltas
    ensures SameElsewhere(t, End(t, j, e, w), j, id, k)
  {
  }

  lemma {:induction false} RecordedElsewhere(t: Tables, j: JobId, log: seq<DeltaModel.Entry>, n: nat, id: string,
                                             k: JobId)
    requires id in t.deltas && k != j && n <= |log| && forall m :: 0 <= m < |log| ==> log[m].deltaId != id
    ensures SameElsewhere(t, Recorded(t, j, log, n), j, id, k)
  {
    if n > 0 {
      hide MarkAll;
      var before, entry := Recorded(t, j, log, n - 1), log[n - 1];
      RecordedElsewhere(t, j, log, n - 1, id, k);
      MarkedElsewhere(before, j, {entry.deltaId}, ToDbStatus(entry.status), id, k);
      ElsewhereIsTransitive(t, before, Recorded(t, j, log, n), j, id, k);
    }
  }

  /** The cron does not tell such tables apart, if it knows the job to be equally old. */
  lemma CronElsewhere(t: Tables, r: Tables, j: JobId, id: string, k: JobId, now: int, grace: nat, applyJobs: set<JobId>)
    requires SameElsewhere(t, r, j, id, k) && r.jobs == t.jobs
    ensures var t', r' := AfterCron(t, now, grace, applyJobs), AfterCron(r, now, grace, applyJobs);
      SameElsewhere(t', r', j, id, k) && r'.jobs == t'.jobs
  {
    CronSets(t, now, grace, applyJobs);
    CronSets(r, now, grace, applyJobs);
    var t', r' := AfterCron(t, now, grace, applyJobs), AfterCron(r, now, grace, applyJobs);
    forall x | x in t.jobDeltas ensures SameDeltaIds(t'.jobDeltas[x], r'.jobDeltas[x]) {
    }
    assert k in t.jobDeltas ==> r'.jobDeltas[k] == t'.jobDeltas[k];
    hide AfterCron, RunsTooLong;
  }

  lemma {:induction false} CronsElsewhere(t: Tables, r: Tables, j: JobId, id: string, k: JobId, times: seq<int>,
                                          grace: nat, applyJobs: set<JobId>)
    requires SameElsewhere(t, r, j, id, k) && r.jobs == t.jobs
    ensures var t', r' := AfterCrons(t, times, grace, applyJobs), AfterCrons(r, times, grace, applyJobs);
      SameElsewhere(t', r', j, id, k) && r'.jobs == t'.jobs
  {
    if times != [] {
      hide AfterCron, SameElsewhere;
      var init := times[..|times| - 1];
      CronsElsewhere(t, r, j, id, k, init, grace, applyJobs);
      CronElsewhere(AfterCrons(t, init, grace, applyJobs), AfterCrons(r, init, grace, applyJobs), j, id, k,
                    times[|times| - 1], grace, applyJobs);
    }
  }

  lemma AfterContainerElsewhere(t: Tables, j: JobId, ids: set<string>, w: World, id: string, k: JobId)
    requires id in t.deltas && id !in ids && k != j && AfterContainer(t, j, ids, w).1 != Vanished
    requires forall m :: 0 <= m < |FeedbackOf(w)| ==> FeedbackOf(w)[m].deltaId != id
    ensures SameElsewhere(t, AfterContainer(t, j, ids, w).0, j, id, k)
  {
    var log := FeedbackOf(w);
    var recorded := if w.interrupted.Some? && w.interrupted.value <= |log| then w.interrupted.value else |log|;
    var r := Recorded(t, j, log, recorded);
    var e := End(t, j, JobProtocol.ContainerFailure, w);
    RecordedElsewhere(t, j, log, recorded, id, k);
    EndElsewhere(t, j, JobProtocol.ContainerFailure, w, id, k);
    MarkedElsewhere(t, j, ids, Error, id, k);
    MarkedElsewhere(e, j, ids, Error, id, k);
    MarkedElsewhere(r, j, ids, Error, id, k);
    EndElsewhere(MarkAll(t, j, ids, Error), j, JobProtocol.Exception, w, id, k);
    EndElsewhere(MarkAll(r, j, ids, Error), j, JobProtocol.Exception, w, id, k);
    EndElsewhere(r, j, JobProtocol.Success, w, id, k);
    ElsewhereIsTransitive(t, e, MarkAll(e, j, ids, Error), j, id, k);
    hide MarkAll, Recorded, End, SameElsewhere;
    ElsewhereIsTransitive(t, MarkAll(t, j, ids, Error), End(MarkAll(t, j, ids, Error), j, JobProtocol.Exception, w),
                          j, id, k);
    ElsewhereIsTransitive(t, r, MarkAll(r, j, ids, Error), j, id, k);
    ElsewhereIsTransitive(t, MarkAll(r, j, ids, Error), End(MarkAll(r, j, ids, Error), j, JobProtocol.Exception, w),
                          j, id, k);
    ElsewhereIsTransitive(t, r, End(r, j, JobProtocol.Success, w), j, id, k);
  }

  /** A run changes no other delta than its own and those that the feedback names, no row of another
      job and no other job: these are as the cron leaves them. */
  lemma OthersStay(t: Tables, j: JobId, w: World, id: string, k: JobId)
    requires RunOn(t, j, w).1 != Vanished && k != j && id in t.deltas && id !in IdsOf(RowsOf(t, j))
    requires forall m :: 0 <= m < |FeedbackOf(w)| ==> FeedbackOf(w)[m].deltaId != id
    ensures var started := t.(jobs := JobProtocol.SaveStarted(t.jobs, j, w.now));
      var others := if OtherIsActive(t, j) || !w.preparation.Ready? then started
                    else AfterCrons(started, w.crons, w.grace, w.applyJobs);
      SameElsewhere(others, RunOn(t, j, w).0, j, id, k)
  {
    var t0 := t.(jobs := JobProtocol.SaveStarted(t.jobs, j, w.now));
    TurnedAwayIff(t, j, w);
    assert RowsOf(t0, j) == RowsOf(t, j);
    var ids := IdsOf(RowsOf(t0, j));
    var t1, failed := MarkAll(t0, j, ids, Started), MarkAll(t0, j, ids, Error);
    MarkedElsewhere(t0, j, ids, Started, id, k);
    MarkedElsewhere(t0, j, ids, Error, id, k);
    EndElsewhere(t0, j, JobProtocol.Exception, w, id, k);
    EndElsewhere(failed, j, JobProtocol.Exception, w, id, k);
    ElsewhereIsTransitive(t0, failed, End(failed, j, JobProtocol.Exception, w), j, id, k);
    assert t1.jobs == t0.jobs;
    if OtherIsActive(t, j) {
      assert SameElsewhere(t0, RunOn(t, j, w).0, j, id, k);
    } else if w.preparation.Ready? {
      CronsElsewhere(t0, t1, j, id, k, w.crons, w.grace, w.applyJobs);
      var c0, c1 := AfterCrons(t0, w.crons, w.grace, w.applyJobs), AfterCrons(t1, w.crons, w.grace, w.applyJobs);
      assert RunOn(t, j, w) == AfterContainer(c1, j, ids, w);
      AfterContainerElsewhere(c1, j, ids, w, id, k);
      ElsewhereIsTransitive(c0, c1, RunOn(t, j, w).0, j, id, k);
    }
    hide MarkAll, End, AfterCrons, AfterContainer, SameElsewhere, IdsOf, RowsOf, OtherIsActive;
  }
}

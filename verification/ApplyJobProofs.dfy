/** What a delta's status in the database says about the run that set it. */
module ApplyJobProofs {
  import opened Prelude
  import JobProtocol
  import DeltaModel
  import opened ApplyJob

  /** The status the first `n` entries give to delta `id`: that of its last entry. */
  function LastStatus(log: seq<DeltaModel.Entry>, n: nat, id: string): Option<DbStatus>
    requires n <= |log|
  {
    if n == 0 then None
    else if log[n - 1].deltaId == id then Some(ToDbStatus(log[n - 1].status))
    else LastStatus(log, n - 1, id)
  }

  /** Recording gives each delta, and each row of the job for it, the status of its last entry. */
  lemma {:induction false} RecordedIsLast(t: Tables, j: JobId, log: seq<DeltaModel.Entry>, n: nat)
    requires n <= |log|
    ensures var r := Recorded(t, j, log, n);
      && r.jobs == t.jobs && r.deltas.Keys == t.deltas.Keys && |RowsOf(r, j)| == |RowsOf(t, j)|
      && (forall id :: id in t.deltas ==>
            r.deltas[id] == if LastStatus(log, n, id).Some? then LastStatus(log, n, id).value else t.deltas[id])
      && (forall i :: 0 <= i < |RowsOf(t, j)| ==>
            var id := RowsOf(t, j)[i].deltaId;
            RowsOf(r, j)[i] == JobDelta(id, if LastStatus(log, n, id).Some? then LastStatus(log, n, id).value
                                            else RowsOf(t, j)[i].status))
  {
    if n > 0 {
      RecordedIsLast(t, j, log, n - 1);
    }
  }

  lemma {:induction false} LastStatusIsOfAnEntry(log: seq<DeltaModel.Entry>, n: nat, id: string)
    requires n <= |log|
    ensures LastStatus(log, n, id).Some? <==> exists k :: 0 <= k < n && log[k].deltaId == id
    ensures LastStatus(log, n, id).Some? ==>
      exists k :: 0 <= k < n && log[k].deltaId == id && ToDbStatus(log[k].status) == LastStatus(log, n, id).value
  {
    if n > 0 && log[n - 1].deltaId != id {
      LastStatusIsOfAnEntry(log, n - 1, id);
    }
  }

  /** The delta feedback that a run records, if it gets that far. */
  function FeedbackOf(w: World): seq<DeltaModel.Entry> {
    if w.container.Exited? && w.container.file.Some? && w.container.file.value.deltaFeedback.Some?
    then w.container.file.value.deltaFeedback.value else []
  }

  /** A run gives a delta the status APPLIED exactly if it ends FINISHED and the delta's last entry
      in the feedback says so; ending FINISHED means exit code 0 and no error in the feedback. */
  lemma AppliedIff(t: Tables, j: JobId, w: World, id: string)
    requires id in t.deltas && id in IdsOf(RowsOf(t, j)) && t.deltas[id] != Applied
    ensures var (t', ended) := RunOn(t, j, w);
      && (id in t'.deltas && t'.deltas[id] == Applied
          <==> ended == Finished && LastStatus(FeedbackOf(w), |FeedbackOf(w)|, id) == Some(Applied))
      && (ended == Finished ==> !ContainerFailed(w.container) && w.container.Exited?)
  {
    var t0 := t.(jobs := JobProtocol.SaveStarted(t.jobs, j, w.now));
    if JobProtocol.Others(t0.jobs, j) == {} {
      assert RowsOf(t0, j) == RowsOf(t, j);
      PreparedAppliedIff(t0, j, w, id);
    }
  }

  lemma PreparedAppliedIff(t: Tables, j: JobId, w: World, id: string)
    requires id in t.deltas && id in IdsOf(RowsOf(t, j)) && t.deltas[id] != Applied
    ensures var (t', ended) := RunPrepared(t, j, w);
      && (id in t'.deltas && t'.deltas[id] == Applied
          <==> ended == Finished && LastStatus(FeedbackOf(w), |FeedbackOf(w)|, id) == Some(Applied))
      && (ended == Finished ==> !ContainerFailed(w.container) && w.container.Exited?)
  {
    var ids := IdsOf(RowsOf(t, j));
    if w.preparation.Ready? {
      var t1 := MarkAll(t, j, ids, Started);
      MarkedRowsStay(t, j, ids, Started);
      CronsKeepRows(t1, w.crons, w.grace, w.applyJobs, j);
      var t2 := AfterCrons(t1, w.crons, w.grace, w.applyJobs);
      assert t1.deltas[id] == Started && t2.deltas[id] in {Started, Error};
      hide AfterCrons, MarkAll, RowsOf, IdsOf, AfterContainer;
      AfterContainerAppliedIff(t2, j, ids, w, id);
    }
  }

  lemma AfterContainerAppliedIff(t: Tables, j: JobId, ids: set<string>, w: World, id: string)
    requires id in t.deltas && id in ids && ids == IdsOf(RowsOf(t, j)) && t.deltas[id] != Applied
    ensures var (t', ended) := AfterContainer(t, j, ids, w);
      && (id in t'.deltas && t'.deltas[id] == Applied
          <==> ended == Finished && LastStatus(FeedbackOf(w), |FeedbackOf(w)|, id) == Some(Applied))
      && (ended == Finished ==> !ContainerFailed(w.container) && w.container.Exited?)
  {
    var log := FeedbackOf(w);
    RecordedIsLast(t, j, log, |log|);
    if w.interrupted.Some? && w.interrupted.value <= |log| {
      RecordedIsLast(t, j, log, w.interrupted.value);
    }
    hide Recorded, MarkRows, RowsOf, IdsOf;
  }

  lemma FinishedNeedsCleanContainer(t: Tables, j: JobId, w: World)
    requires RunOn(t, j, w).1 == Finished
    ensures w.container.Exited? && !ContainerFailed(w.container) && w.container.file.value.deltaFeedback.Some?
  {
  }

  /** No row of the job and none of its deltas has this status. */
  ghost predicate NoneOf(t: Tables, j: JobId, s: DbStatus) {
    && (forall i :: 0 <= i < |RowsOf(t, j)| ==> RowsOf(t, j)[i].status != s)
    && (forall id :: id in IdsOf(RowsOf(t, j)) && id in t.deltas ==> t.deltas[id] != s)
  }

  lemma MarkedAll(t: Tables, j: JobId, s: DbStatus)
    ensures var ids := IdsOf(RowsOf(t, j)); var r := MarkAll(t, j, ids, s);
      && IdsOf(RowsOf(r, j)) == ids
      && (forall id :: id in ids && id in r.deltas ==> r.deltas[id] == s)
      && (forall i :: 0 <= i < |RowsOf(r, j)| ==> RowsOf(r, j)[i].status == s)
  {
    var ids := IdsOf(RowsOf(t, j));
    var r := MarkAll(t, j, ids, s);
    assert forall i :: 0 <= i < |RowsOf(t, j)| ==> RowsOf(t, j)[i].deltaId in ids;
    assert forall i :: 0 <= i < |RowsOf(t, j)| ==> RowsOf(r, j)[i].deltaId == RowsOf(t, j)[i].deltaId;
  }

  lemma MarkingErrorLeavesNoneStarted(t: Tables, j: JobId, ids: set<string>)
    requires ids == IdsOf(RowsOf(t, j))
    ensures NoneOf(MarkAll(t, j, ids, Error), j, Started)
  {
    MarkedAll(t, j, Error);
  }

  lemma JobsDoNotMatter(t: Tables, jobs: JobProtocol.Rows, j: JobId, s: DbStatus)
    ensures NoneOf(t, j, s) <==> NoneOf(t.(jobs := jobs), j, s)
  {
    assert RowsOf(t, j) == RowsOf(t.(jobs := jobs), j);
  }

  lemma RecordedKeepsIds(t: Tables, j: JobId, log: seq<DeltaModel.Entry>, n: nat)
    requires n <= |log|
    ensures IdsOf(RowsOf(Recorded(t, j, log, n), j)) == IdsOf(RowsOf(t, j))
  {
    RecordedIsLast(t, j, log, n);
    var r := Recorded(t, j, log, n);
    assert forall i :: 0 <= i < |RowsOf(t, j)| ==> RowsOf(r, j)[i].deltaId == RowsOf(t, j)[i].deltaId;
  }

  lemma LastStatusIsNotStarted(log: seq<DeltaModel.Entry>, id: string)
    requires exists k :: 0 <= k < |log| && log[k].deltaId == id
    ensures LastStatus(log, |log|, id).Some? && LastStatus(log, |log|, id).value != Started
  {
    LastStatusIsOfAnEntry(log, |log|, id);
  }

  ghost predicate AllRecorded(ids: set<string>, log: seq<DeltaModel.Entry>) {
    forall id :: id in ids ==> exists k :: 0 <= k < |log| && log[k].deltaId == id
  }

  lemma RecordedStatuses(ids: set<string>, log: seq<DeltaModel.Entry>)
    requires AllRecorded(ids, log)
    ensures forall id :: id in ids ==> LastStatus(log, |log|, id).Some? && LastStatus(log, |log|, id).value != Started
  {
    hide LastStatus;
    forall id | id in ids
      ensures LastStatus(log, |log|, id).Some? && LastStatus(log, |log|, id).value != Started
    {
      LastStatusIsNotStarted(log, id);
    }
  }

  lemma RecordingAllLeavesNoneStarted(t: Tables, j: JobId, log: seq<DeltaModel.Entry>)
    requires AllRecorded(IdsOf(RowsOf(t, j)), log)
    ensures NoneOf(Recorded(t, j, log, |log|), j, Started)
  {
    RecordedIsLast(t, j, log, |log|);
    RecordedKeepsIds(t, j, log, |log|);
    var ids := IdsOf(RowsOf(t, j));
    assert forall i :: 0 <= i < |RowsOf(t, j)| ==> RowsOf(t, j)[i].deltaId in ids;
    RecordedStatuses(ids, log);
  }

  lemma PreparedLeavesNoneStarted(t: Tables, j: JobId, w: World)
    requires NoneOf(t, j, Started)
    requires w.container.Exited? && !ContainerFailed(w.container) && w.container.file.value.deltaFeedback.Some? ==>
      AllRecorded(IdsOf(RowsOf(t, j)), FeedbackOf(w))
    ensures var (t', ended) := RunPrepared(t, j, w);
      ended in {Finished, Failed} ==> NoneOf(t', j, Started)
  {
    var ids := IdsOf(RowsOf(t, j));
    var (t', ended) := RunPrepared(t, j, w);
    hide NoneOf, MarkAll, IdsOf, AllRecorded, RowsOf, JobProtocol.SaveEnding, AfterCrons, AfterContainer;
    if w.preparation.FailsEarly? {
      JobsDoNotMatter(t, t'.jobs, j, Started);
    } else if w.preparation.FailsLate? {
      MarkingErrorEndsNoneStarted(t, j, ids, t');
    } else {
      var t1 := MarkAll(t, j, ids, Started);
      MarkedRowsStay(t, j, ids, Started);
      CronsKeepRows(t1, w.crons, w.grace, w.applyJobs, j);
      AfterContainerLeavesNoneStarted(AfterCrons(t1, w.crons, w.grace, w.applyJobs), j, ids, w);
    }
  }

  lemma AfterContainerLeavesNoneStarted(t: Tables, j: JobId, ids: set<string>, w: World)
    requires ids == IdsOf(RowsOf(t, j))
    requires w.container.Exited? && !ContainerFailed(w.container) && w.container.file.value.deltaFeedback.Some? ==>
      AllRecorded(ids, FeedbackOf(w))
    ensures var (t', ended) := AfterContainer(t, j, ids, w);
      ended in {Finished, Failed} ==> NoneOf(t', j, Started)
  {
    var log := FeedbackOf(w);
    var (t', ended) := AfterContainer(t, j, ids, w);
    hide NoneOf, MarkAll, Recorded, IdsOf, AllRecorded, RowsOf, JobProtocol.SaveEnding, Removed;
    if w.container.CannotRun? || FeedbackMissing(w) {
      MarkingErrorEndsNoneStarted(t, j, ids, t');
    } else if w.deleted {
    } else if ContainerFailed(w.container) {
      MarkedEnd(t, j, w, ids);
      MarkingErrorEndsNoneStarted(t, j, ids, t');
    } else if w.interrupted.Some? && w.interrupted.value <= |log| {
      RecordedKeepsIds(t, j, log, w.interrupted.value);
      MarkingErrorEndsNoneStarted(Recorded(t, j, log, w.interrupted.value), j, ids, t');
    } else {
      RecordingAllLeavesNoneStarted(t, j, log);
      JobsDoNotMatter(Recorded(t, j, log, |log|), t'.jobs, j, Started);
    }
  }

  predicate FeedbackMissing(w: World) {
    !w.deleted && !ContainerFailed(w.container) && w.container.Exited? && w.container.file.value.deltaFeedback.None?
  }

  lemma MarkedEnd(t: Tables, j: JobId, w: World, ids: set<string>)
    ensures var marked := MarkAll(t, j, ids, Error);
      MarkAll(End(t, j, JobProtocol.ContainerFailure, w), j, ids, Error)
      == marked.(jobs := End(t, j, JobProtocol.ContainerFailure, w).jobs)
  {
  }

  lemma MarkingErrorEndsNoneStarted(t: Tables, j: JobId, ids: set<string>, t': Tables)
    requires ids == IdsOf(RowsOf(t, j)) && t' == MarkAll(t, j, ids, Error).(jobs := t'.jobs)
    ensures NoneOf(t', j, Started)
  {
    hide NoneOf, MarkAll, IdsOf;
    MarkingErrorLeavesNoneStarted(t, j, ids);
    JobsDoNotMatter(MarkAll(t, j, ids, Error), t'.jobs, j, Started);
  }

  /** If the recorded feedback has an entry for every delta of the job, a run that ends FINISHED or
      FAILED leaves none of them STARTED. */
  lemma EndedLeavesNoneStarted(t: Tables, j: JobId, w: World)
    requires NoneOf(t, j, Started)
    requires w.container.Exited? && !ContainerFailed(w.container) && w.container.file.value.deltaFeedback.Some? ==>
      AllRecorded(IdsOf(RowsOf(t, j)), FeedbackOf(w))
    ensures var (t', ended) := RunOn(t, j, w);
      ended in {Finished, Failed} ==> NoneOf(t', j, Started)
  {
    var t0 := t.(jobs := JobProtocol.SaveStarted(t.jobs, j, w.now));
    assert RowsOf(t0, j) == RowsOf(t, j);
    JobsDoNotMatter(t, t0.jobs, j, Started);
    if JobProtocol.Others(t0.jobs, j) == {} {
      PreparedLeavesNoneStarted(t0, j, w);
    }
  }

  // ---- the job row and the cron ----

  /** The job rows after these passes of the cron, whatever the deltas. */
  function FailedBy(rows: JobProtocol.Rows, times: seq<int>, grace: nat): JobProtocol.Rows {
    if times == [] then rows
    else JobProtocol.FailStale(FailedBy(rows, times[..|times| - 1], grace), times[|times| - 1], grace)
  }

  lemma {:induction false} CronsFailJobs(t: Tables, times: seq<int>, grace: nat, applyJobs: set<JobId>)
    ensures AfterCrons(t, times, grace, applyJobs).jobs == FailedBy(t.jobs, times, grace)
  {
    hide FailDeltas, JobProtocol.FailStale;
    if times != [] {
      CronsFailJobs(t, times[..|times| - 1], grace, applyJobs);
    }
  }

  /** The cron changes a row's status and end only. */
  lemma {:induction false} FailedByKeeps(rows: JobProtocol.Rows, times: seq<int>, grace: nat)
    ensures var r := FailedBy(rows, times, grace);
      r.Keys == rows.Keys && forall k :: k in rows ==>
        r[k] == rows[k].(status := r[k].status, finishedAt := r[k].finishedAt)
  {
    if times != [] {
      FailedByKeeps(rows, times[..|times| - 1], grace);
    }
  }

  /** How the job row ends, all others being as the cron leaves them: FAILED after a failed container
      does not set `finished_at`, every other final status does, whatever the cron has written.  A run
      that is turned away leaves only the job row changed, to PENDING. */
  lemma FinalRow(t: Tables, j: JobId, w: World)
    requires j in t.jobs
    ensures var (t', ended) := RunOn(t, j, w);
      var started := t.jobs[j := t.jobs[j].(status := JobProtocol.Started, startedAt := Some(w.now))];
      var rows := if w.preparation.Ready? then FailedBy(started, w.crons, w.grace) else started;
      && j in rows
      && (ended == TurnedAway ==>
            && t'.deltas == t.deltas && t'.jobDeltas == t.jobDeltas
            && t'.jobs == t.jobs[j := t.jobs[j].(status := JobProtocol.Pending, startedAt := None)])
      && (ended == Finished ==>
            t'.jobs == rows[j := JobProtocol.Row(t.jobs[j].project, JobProtocol.Finished, Some(w.now), Some(w.later))])
      && (ended == Failed ==>
            t'.jobs == rows[j := JobProtocol.Row(t.jobs[j].project, JobProtocol.Failed, Some(w.now),
              if w.preparation.Ready? && ContainerFailed(w.container) then rows[j].finishedAt else Some(w.later))])
  {
    var t0 := t.(jobs := JobProtocol.SaveStarted(t.jobs, j, w.now));
    FailedByKeeps(t0.jobs, w.crons, w.grace);
    hide MarkAll, Recorded, AfterCrons, FailedBy, IdsOf, RowsOf;
    if JobProtocol.Others(t0.jobs, j) == {} && w.preparation.Ready? {
      var t1 := MarkAll(t0, j, IdsOf(RowsOf(t0, j)), Started);
      MarkingKeepsJobs(t0, j, IdsOf(RowsOf(t0, j)), Started);
      CronsFailJobs(t1, w.crons, w.grace, w.applyJobs);
      AfterContainerRow(AfterCrons(t1, w.crons, w.grace, w.applyJobs), j, IdsOf(RowsOf(t0, j)), w);
    } else {
      MarkingKeepsJobs(t0, j, IdsOf(RowsOf(t0, j)), Error);
    }
  }

  lemma MarkingKeepsJobs(t: Tables, j: JobId, ids: set<string>, s: DbStatus)
    ensures MarkAll(t, j, ids, s).jobs == t.jobs
  {
  }

  lemma AfterContainerRow(t: Tables, j: JobId, ids: set<string>, w: World)
    requires j in t.jobs
    ensures var (t', ended) := AfterContainer(t, j, ids, w);
      && (ended == Finished ==> t'.jobs == JobProtocol.SaveEnding(t.jobs, j, JobProtocol.Success, w.later))
      && (ended == Failed ==>
            t'.jobs == t.jobs[j := t.jobs[j].(status := JobProtocol.Failed,
              finishedAt := if ContainerFailed(w.container) then t.jobs[j].finishedAt else Some(w.later))])
      && ended != TurnedAway
  {
    var log := FeedbackOf(w);
    RecordedIsLast(t, j, log, |log|);
    if w.interrupted.Some? && w.interrupted.value <= |log| {
      RecordedIsLast(t, j, log, w.interrupted.value);
    }
    hide Recorded;
  }

  /** The cron comes by when the job has been running for longer than the grace period. */
  ghost predicate Outlived(w: World) {
    exists k :: 0 <= k < |w.crons| && w.crons[k] > w.now + w.grace
  }

  /** All rows of the job and all these deltas are ERROR. */
  ghost predicate FailedOn(t: Tables, j: JobId, ids: set<string>) {
    && (forall i :: 0 <= i < |RowsOf(t, j)| ==> RowsOf(t, j)[i].status == Error)
    && (forall id :: id in ids && id in t.deltas ==> t.deltas[id] == Error)
  }

  /** One pass of the cron on a job that is STARTED: it fails exactly a job that has outlived the grace
      period, with all its rows and deltas. */
  lemma CronOnStarted(t: Tables, j: JobId, now: int, later: int, grace: nat, applyJobs: set<JobId>)
    requires j in t.jobs && j in applyJobs
    requires t.jobs[j].status == JobProtocol.Started && t.jobs[j].startedAt == Some(now)
    ensures var r := AfterCron(t, later, grace, applyJobs);
      if later > now + grace then FailedOn(r, j, IdsOf(RowsOf(t, j)))
      else j in r.jobs && r.jobs[j] == t.jobs[j] && RowsOf(r, j) == RowsOf(t, j)
  {
    var js := StaleJobs(t, later, grace) * applyJobs;
    assert j in js <==> later > now + grace;
    forall id | id in IdsOf(RowsOf(t, j)) && j in js ensures DeltaOf(t, js, id) {
    }
    hide StaleJobs;
    assert forall i :: 0 <= i < |RowsOf(t, j)| ==> RowsOf(t, j)[i].deltaId in IdsOf(RowsOf(t, j));
  }

  lemma {:induction false} CronsOnStarted(t: Tables, j: JobId, now: int, times: seq<int>, grace: nat,
                                          applyJobs: set<JobId>)
    requires j in t.jobs && j in applyJobs
    requires t.jobs[j].status == JobProtocol.Started && t.jobs[j].startedAt == Some(now)
    ensures var r := AfterCrons(t, times, grace, applyJobs);
      if exists k :: 0 <= k < |times| && times[k] > now + grace then FailedOn(r, j, IdsOf(RowsOf(t, j)))
      else j in r.jobs && r.jobs[j] == t.jobs[j] && RowsOf(r, j) == RowsOf(t, j)
  {
    if times != [] {
      var init, last := times[..|times| - 1], times[|times| - 1];
      var before := AfterCrons(t, init, grace, applyJobs);
      CronsOnStarted(t, j, now, init, grace, applyJobs);
      CronsKeepRows(t, init, grace, applyJobs, j);
      hide AfterCron, IdsOf, RowsOf, FailedOn;
      if k :| 0 <= k < |init| && init[k] > now + grace {
        assert times[k] == init[k];
        CronKeepsFailed(before, j, IdsOf(RowsOf(t, j)), last, grace, applyJobs);
      } else {
        CronOnStarted(before, j, now, last, grace, applyJobs);
        assert forall k :: 0 <= k < |times| - 1 ==> times[k] == init[k];
      }
    }
  }

  lemma CronKeepsFailed(t: Tables, j: JobId, ids: set<string>, now: int, grace: nat, applyJobs: set<JobId>)
    requires FailedOn(t, j, ids)
    ensures FailedOn(AfterCron(t, now, grace, applyJobs), j, ids)
  {
    CronKeepsRows(t, now, grace, applyJobs, j);
    hide AfterCron;
  }

  /** What a late worker leaves of the cron's ERROR: a run that ends FINISHED gives every row of the job
      the status of its delta's last entry, and a row without an entry is ERROR if the cron came by after
      the grace period and STARTED if it did not.  The same holds of the deltas, but that the cron may
      also fail them for another job. */
  lemma FinishedAfterCron(t: Tables, j: JobId, w: World, i: nat)
    requires j in t.jobs && j in w.applyJobs && i < |RowsOf(t, j)| && RowsOf(t, j)[i].deltaId in t.deltas
    ensures var (t', ended) := RunOn(t, j, w);
      var id := RowsOf(t, j)[i].deltaId;
      var last := LastStatus(FeedbackOf(w), |FeedbackOf(w)|, id);
      ended == Finished ==>
        && |RowsOf(t', j)| == |RowsOf(t, j)| && id in t'.deltas
        && RowsOf(t', j)[i] == JobDelta(id, if last.Some? then last.value else if Outlived(w) then Error else Started)
        && (last.Some? ==> t'.deltas[id] == last.value)
        && (last.None? ==> t'.deltas[id] == Error || (t'.deltas[id] == Started && !Outlived(w)))
  {
    if RunOn(t, j, w).1 == Finished {
      var t0 := t.(jobs := JobProtocol.SaveStarted(t.jobs, j, w.now));
      assert RowsOf(t0, j) == RowsOf(t, j);
      var t1 := MarkAll(t0, j, IdsOf(RowsOf(t0, j)), Started);
      var t2 := AfterCrons(t1, w.crons, w.grace, w.applyJobs);
      assert RunOn(t, j, w) == AfterContainer(t2, j, IdsOf(RowsOf(t0, j)), w);
      assert j in t0.jobs && t0.jobs[j].status == JobProtocol.Started && t0.jobs[j].startedAt == Some(w.now);
      hide RunOn, MarkAll, AfterCrons, IdsOf, RowsOf, LastStatus, AfterContainer;
      BeforeRecording(t0, j, w, i);
      FinishedRecords(t2, j, IdsOf(RowsOf(t0, j)), w);
      RecordedIsLast(t2, j, FeedbackOf(w), |FeedbackOf(w)|);
    }
  }

  lemma FinishedRecords(t: Tables, j: JobId, ids: set<string>, w: World)
    requires AfterContainer(t, j, ids, w).1 == Finished
    ensures var r := Recorded(t, j, FeedbackOf(w), |FeedbackOf(w)|); var t' := AfterContainer(t, j, ids, w).0;
      t'.deltas == r.deltas && RowsOf(t', j) == RowsOf(r, j)
  {
  }

  lemma BeforeRecording(t: Tables, j: JobId, w: World, i: nat)
    requires j in t.jobs && j in w.applyJobs && i < |RowsOf(t, j)| && RowsOf(t, j)[i].deltaId in t.deltas
    requires t.jobs[j].status == JobProtocol.Started && t.jobs[j].startedAt == Some(w.now)
    ensures var r := AfterCrons(MarkAll(t, j, IdsOf(RowsOf(t, j)), Started), w.crons, w.grace, w.applyJobs);
      var id := RowsOf(t, j)[i].deltaId;
      && |RowsOf(r, j)| == |RowsOf(t, j)| && id in r.deltas
      && RowsOf(r, j)[i] == JobDelta(id, if Outlived(w) then Error else Started)
      && r.deltas[id] in {Started, Error} && (Outlived(w) ==> r.deltas[id] == Error)
  {
    var ids, id := IdsOf(RowsOf(t, j)), RowsOf(t, j)[i].deltaId;
    var t1 := MarkAll(t, j, ids, Started);
    MarkedAll(t, j, Started);
    assert id in ids && RowsOf(t1, j)[i] == JobDelta(id, Started) && id in t1.deltas;
    assert |RowsOf(t1, j)| == |RowsOf(t, j)| && t1.jobs == t.jobs;
    hide MarkAll, AfterCrons, IdsOf, RowsOf;
    CronsOnStarted(t1, j, w.now, w.crons, w.grace, w.applyJobs);
    CronsKeepRows(t1, w.crons, w.grace, w.applyJobs, j);
  }
}

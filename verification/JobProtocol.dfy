/**
 The job protocol: any number of workers run `JobRun.run` on a shared job table, with the
 dequeue command, project deletion and the clean-up cron interleaved at every point.
 One statement on the table is one step.  A worker that dies is a worker that never steps again.
 */
module JobProtocol {
  import opened Prelude

  type JobId = nat
  type ProjectId = nat

  datatype Status = Pending | Queued | Started | Finished | Failed

  datatype Row = Row(project: ProjectId, status: Status, startedAt: Option<int>, finishedAt: Option<int>)

  type Rows = map<JobId, Row>

  /** Program counter of the worker that holds a job; `startedAt` is the worker's own copy. */
  datatype Pc =
    | NoWorker
    | Dequeued
    | Announced(startedAt: int)   // STARTED saved, others not counted yet
    | MustBackOff(startedAt: int) // counted at least one other active job
    | Running(startedAt: int)     // past the concurrency check

  datatype State = State(now: int, rows: Rows, pcs: map<JobId, Pc>)

  function PcOf(s: State, j: JobId): Pc {
    if j in s.pcs then s.pcs[j] else NoWorker
  }

  /** How a worker ends: the FAILED branch after the container does not set `finished_at`,
      the global exception handler does. */
  datatype Ending = Success | ContainerFailure | Exception

  datatype Action =
    | Tick(later: int)
    | Create(job: JobId, project: ProjectId)
    | DeleteProject(project: ProjectId)
    | Dequeue(job: JobId)
    | Announce(job: JobId)
    | Check(job: JobId)
    | BackOff(job: JobId)
    | End(job: JobId, ending: Ending)
    | Cron

  // ---- the table statements ----

  function SaveStarted(rows: Rows, j: JobId, now: int): Rows {
    if j in rows then rows[j := rows[j].(status := Started, startedAt := Some(now))] else rows
  }

  /** Other jobs of the project that are QUEUED or STARTED. */
  function Others(rows: Rows, j: JobId): set<JobId> {
    set k | k in rows && k != j && j in rows && rows[k].project == rows[j].project
      && rows[k].status in {Queued, Started}
  }

  function ResetToPending(rows: Rows, j: JobId): Rows {
    if j in rows then rows[j := rows[j].(status := Pending, startedAt := None)] else rows
  }

  function SaveEnding(rows: Rows, j: JobId, e: Ending, now: int): Rows {
    if j !in rows then rows
    else match e
      case Success => rows[j := rows[j].(status := Finished, finishedAt := Some(now))]
      case ContainerFailure => rows[j := rows[j].(status := Failed)]
      case Exception => rows[j := rows[j].(status := Failed, finishedAt := Some(now))]
  }

  /** `grace` is WORKER_TIMEOUT_S + 10. */
  predicate Stale(r: Row, now: int, grace: nat) {
    r.status in {Queued, Started} && r.startedAt.Some? && r.startedAt.value < now - grace
  }

  function FailStale(rows: Rows, now: int, grace: nat): Rows {
    map k | k in rows :: if Stale(rows[k], now, grace)
                         then rows[k].(status := Failed, finishedAt := Some(now)) else rows[k]
  }

  // ---- the transition system ----

  predicate Enabled(s: State, a: Action) {
    match a
    case Tick(later) => s.now <= later
    case Create(j, _) => j !in s.rows && PcOf(s, j) == NoWorker
    case DeleteProject(_) => true
    case Dequeue(j) => j in s.rows && s.rows[j].status == Pending
    case Announce(j) => PcOf(s, j).Dequeued?
    case Check(j) => PcOf(s, j).Announced?
    case BackOff(j) => PcOf(s, j).MustBackOff?
    case End(j, _) => PcOf(s, j).Running?
    case Cron => true
  }

  function Next(s: State, a: Action, grace: nat): State
    requires Enabled(s, a)
  {
    match a
    case Tick(later) => s.(now := later)
    case Create(j, p) => s.(rows := s.rows[j := Row(p, Pending, None, None)])
    case DeleteProject(p) => s.(rows := map k | k in s.rows && s.rows[k].project != p :: s.rows[k])
    case Dequeue(j) => s.(rows := s.rows[j := s.rows[j].(status := Queued)], pcs := s.pcs[j := Dequeued])
    case Announce(j) => s.(rows := SaveStarted(s.rows, j, s.now), pcs := s.pcs[j := Announced(s.now)])
    case Check(j) =>
      var t := PcOf(s, j).startedAt;
      s.(pcs := s.pcs[j := if Others(s.rows, j) == {} then Running(t) else MustBackOff(t)])
    case BackOff(j) => s.(rows := ResetToPending(s.rows, j), pcs := s.pcs[j := NoWorker])
    case End(j, e) => s.(rows := SaveEnding(s.rows, j, e, s.now), pcs := s.pcs[j := NoWorker])
    case Cron => s.(rows := FailStale(s.rows, s.now, grace))
  }

  predicate Initial(s: State) {
    s.rows == map[] && s.pcs == map[]
  }

  /** The states of a run: the initial one, then one per action. */
  ghost predicate IsRun(states: seq<State>, actions: seq<Action>, grace: nat) {
    && |states| == |actions| + 1
    && Initial(states[0])
    && forall i :: 0 <= i < |actions| ==>
                     Enabled(states[i], actions[i]) && states[i + 1] == Next(states[i], actions[i], grace)
  }

  /** `s` is a state of some run. */
  ghost predicate Reachable(s: State, grace: nat) {
    exists states, actions :: IsRun(states, actions, grace) && states[|actions|] == s
  }

  lemma ReachInitial(s: State, grace: nat)
    requires Initial(s)
    ensures Reachable(s, grace)
  {
    assert IsRun([s], [], grace);
  }

  lemma ReachNext(s: State, a: Action, grace: nat)
    requires Reachable(s, grace) && Enabled(s, a)
    ensures Reachable(Next(s, a, grace), grace)
  {
    var states, actions :| IsRun(states, actions, grace) && states[|actions|] == s;
    assert IsRun(states + [Next(s, a, grace)], actions + [a], grace);
  }

  // ---- what every run keeps ----

  /** The worker of `j` is past the concurrency check. */
  predicate PastCheck(s: State, j: JobId) {
    PcOf(s, j).Running?
  }

  ghost predicate SameProject(s: State, j: JobId, k: JobId) {
    j in s.rows && k in s.rows && j != k && s.rows[j].project == s.rows[k].project
  }

  /** At most one job per project is past the check and still STARTED. */
  ghost predicate Exclusive(s: State) {
    forall j, k :: SameProject(s, j, k) && PastCheck(s, j) && PastCheck(s, k) ==>
                     s.rows[j].status != Started || s.rows[k].status != Started
  }

  predicate StartedOrFailed(r: Row, startedAt: int, now: int, grace: nat) {
    r.startedAt == Some(startedAt) && (r.status == Started || (r.status == Failed && startedAt < now - grace))
  }

  /** A held job's row says what its worker wrote, unless the cron failed a stale row. */
  ghost predicate RowsMatchWorkers(s: State, grace: nat) {
    forall j :: j in s.rows ==>
      var r := s.rows[j];
      match PcOf(s, j)
      case NoWorker => r.status !in {Queued, Started} && (r.status == Pending ==> r.startedAt == None)
      case Dequeued => r.status == Queued && r.startedAt == None
      case Announced(t) => StartedOrFailed(r, t, s.now, grace)
      case MustBackOff(t) => StartedOrFailed(r, t, s.now, grace)
      case Running(t) => StartedOrFailed(r, t, s.now, grace)
  }

  ghost predicate Inv(s: State, grace: nat) {
    Exclusive(s) && RowsMatchWorkers(s, grace)
  }

  lemma StepKeepsRows(s: State, a: Action, grace: nat)
    requires Inv(s, grace) && Enabled(s, a)
    ensures RowsMatchWorkers(Next(s, a, grace), grace)
  {
    var s' := Next(s, a, grace);
    assert s.now <= s'.now;
  }

  lemma CheckKeepsExclusive(s: State, j: JobId, grace: nat)
    requires Inv(s, grace) && Enabled(s, Check(j))
    ensures Exclusive(Next(s, Check(j), grace))
  {
    var s' := Next(s, Check(j), grace);
    if PastCheck(s', j) {
      forall k | SameProject(s', j, k)
        ensures s.rows[k].status != Started
      {
        assert k !in Others(s.rows, j);
      }
    }
  }

  lemma StepKeepsExclusive(s: State, a: Action, grace: nat)
    requires Inv(s, grace) && Enabled(s, a)
    ensures Exclusive(Next(s, a, grace))
  {
    if a.Check? {
      CheckKeepsExclusive(s, a.job, grace);
    } else {
      var s' := Next(s, a, grace);
      forall j, k | SameProject(s', j, k) && PastCheck(s', j) && PastCheck(s', k)
        ensures s'.rows[j].status != Started || s'.rows[k].status != Started
      {
        if SameProject(s, j, k) {
          assert PastCheck(s, j) && PastCheck(s, k);
        }
      }
    }
  }

  lemma {:induction false} RunsKeepInv(states: seq<State>, actions: seq<Action>, grace: nat, i: nat)
    requires IsRun(states, actions, grace) && i < |states|
    ensures Inv(states[i], grace)
  {
    if i > 0 {
      RunsKeepInv(states, actions, grace, i - 1);
      StepKeepsRows(states[i - 1], actions[i - 1], grace);
      StepKeepsExclusive(states[i - 1], actions[i - 1], grace);
    }
  }

  lemma ReachableKeepsInv(s: State, grace: nat)
    requires Reachable(s, grace)
    ensures Inv(s, grace)
  {
    var states, actions :| IsRun(states, actions, grace) && states[|actions|] == s;
    RunsKeepInv(states, actions, grace, |actions|);
  }

  // ---- main results ----

  /** In every reachable state, of two jobs of one project whose workers are past the check,
      at least one is no longer STARTED. */
  lemma AtMostOneActiveJobPerProject(s: State, grace: nat, j: JobId, k: JobId)
    requires Reachable(s, grace) && SameProject(s, j, k) && PastCheck(s, j) && PastCheck(s, k)
    ensures s.rows[j].status != Started || s.rows[k].status != Started
  {
    ReachableKeepsInv(s, grace);
  }

  /** Two workers of one project are past the check together only after the cron has failed the
      row of one that has been running for longer than the grace period. */
  lemma OverlapNeedsStaleJob(s: State, grace: nat, j: JobId, k: JobId)
    requires Reachable(s, grace) && SameProject(s, j, k) && PastCheck(s, j) && PastCheck(s, k)
    ensures exists x :: x in {j, k} && s.rows[x].status == Failed && PcOf(s, x).startedAt < s.now - grace
  {
    ReachableKeepsInv(s, grace);
    var x := if s.rows[j].status == Failed then j else k;
    assert x in {j, k} && s.rows[x].status == Failed;
  }

  /** What the check counts: a job backs off exactly if some other job of its project is QUEUED or
      STARTED, and runs on otherwise. */
  lemma {:induction false} CheckCountsIff(s: State, j: JobId, grace: nat)
    requires Enabled(s, Check(j))
    ensures var next := Next(s, Check(j), grace); var pc := PcOf(next, j);
      && next.rows == s.rows && next.now == s.now
      && (pc.MustBackOff? <==>
            j in s.rows && exists k :: k in s.rows && k != j && s.rows[k].project == s.rows[j].project
                                       && (s.rows[k].status == Queued || s.rows[k].status == Started))
      && (pc.MustBackOff? || pc.Running?) && pc.startedAt == PcOf(s, j).startedAt
  {
    OthersIff(s.rows, j);
    hide Others;
  }

  lemma OthersIff(rows: Rows, j: JobId)
    ensures Others(rows, j) == {} <==>
      !(j in rows && exists k :: k in rows && k != j && rows[k].project == rows[j].project
                                 && (rows[k].status == Queued || rows[k].status == Started))
  {
    if k :| k in rows && k != j && j in rows && rows[k].project == rows[j].project
            && (rows[k].status == Queued || rows[k].status == Started) {
      assert k in Others(rows, j);
    }
  }

  /** The cron fails exactly the rows that are QUEUED or STARTED since more than the grace period. */
  lemma CronFailsIff(s: State, grace: nat, j: JobId)
    requires j in s.rows
    ensures var r, next := s.rows[j], Next(s, Cron, grace);
      next.rows.Keys == s.rows.Keys && next.pcs == s.pcs
      && next.rows[j] == if (r.status == Queued || r.status == Started)
                            && r.startedAt.Some? && s.now - r.startedAt.value > grace
                         then Row(r.project, Failed, r.startedAt, Some(s.now)) else r
  {
  }

  /** A project can be deleted at any time; its rows are gone, and their workers do not notice. */
  lemma DeletionLeavesWorkers(s: State, p: ProjectId, grace: nat)
    ensures Enabled(s, DeleteProject(p))
    ensures var next := Next(s, DeleteProject(p), grace);
      && (forall j :: j in next.rows <==> j in s.rows && s.rows[j].project != p)
      && (forall j :: j in next.rows ==> next.rows[j] == s.rows[j])
      && next.pcs == s.pcs && next.now == s.now
  {
  }

  /** The check is what excludes: while a job is past it and STARTED, every other job of the
      project that counts must back off, and backing off leaves its row as it was when created. */
  lemma ActiveJobTurnsOthersAway(s: State, j: JobId, k: JobId, grace: nat)
    requires Reachable(s, grace) && SameProject(s, j, k)
    requires PastCheck(s, k) && s.rows[k].status == Started && Enabled(s, Check(j))
    ensures var s1 := Next(s, Check(j), grace);
            && Enabled(s1, BackOff(j))
            && var s2 := Next(s1, BackOff(j), grace);
               && s2.rows == s.rows[j := s.rows[j].(status := Pending, startedAt := None)]
               && PcOf(s2, j) == NoWorker
  {
    assert k in Others(s.rows, j);
  }

  /** The dequeue command never takes a job that a worker still holds. */
  lemma DequeueTakesFreeJob(s: State, grace: nat, j: JobId)
    requires Reachable(s, grace) && Enabled(s, Dequeue(j))
    ensures PcOf(s, j) == NoWorker
  {
    ReachableKeepsInv(s, grace);
  }

  // ---- final statuses ----

  /** The worker of `j` announced the job and has outlived the grace period since. */
  predicate OutlivedGrace(s: State, j: JobId, grace: nat) {
    var pc := PcOf(s, j);
    (pc.Announced? || pc.MustBackOff? || pc.Running?) && pc.startedAt < s.now - grace
  }

  /** A final status is replaced in exactly one situation: the cron failed the row of a worker that was
      still alive after the grace period, and this worker now backs off or finishes the job. */
  lemma FinalStatusChangesIff(s: State, a: Action, grace: nat, j: JobId)
    requires Reachable(s, grace) && Enabled(s, a)
    requires j in s.rows && (s.rows[j].status == Finished || s.rows[j].status == Failed)
    requires j in Next(s, a, grace).rows
    ensures Next(s, a, grace).rows[j].status != s.rows[j].status <==>
      s.rows[j].status.Failed? && OutlivedGrace(s, j, grace) && a in {BackOff(j), End(j, Success)}
  {
    ReachableKeepsInv(s, grace);
  }

  // ---- what the protocol does not give ----

  /** Two jobs of one project, both waiting. */
  lemma TwoPending(grace: nat) returns (s: State)
    ensures Reachable(s, grace)
    ensures s == State(0, map[1 := Row(7, Pending, None, None), 2 := Row(7, Pending, None, None)], map[])
  {
    hide Reachable;
    s := State(0, map[], map[]);
    ReachInitial(s, grace);
    ReachNext(s, Create(1, 7), grace);
    s := Next(s, Create(1, 7), grace);
    ReachNext(s, Create(2, 7), grace);
    s := Next(s, Create(2, 7), grace);
  }

  /** Two jobs of one project, both created, and the first one past the check. */
  lemma FirstRunning(grace: nat) returns (s: State)
    ensures Reachable(s, grace) && SameProject(s, 1, 2) && s.rows[2] == Row(7, Pending, None, None)
    ensures PcOf(s, 1) == Running(0) && s.rows[1] == Row(7, Started, Some(0), None) && s.now == 0
    ensures PcOf(s, 2) == NoWorker && s.rows.Keys == {1, 2}
  {
    hide Reachable;
    s := TwoPending(grace);
    ReachNext(s, Dequeue(1), grace);
    s := Next(s, Dequeue(1), grace);
    ReachNext(s, Announce(1), grace);
    s := Next(s, Announce(1), grace);
    assert Others(s.rows, 1) == {};
    ReachNext(s, Check(1), grace);
    s := Next(s, Check(1), grace);
  }

  /** For every grace period, a job that outlives it can overlap with another of its project, and
      its final status then replaces the cron's: final statuses are not absorbing. */
  lemma OutlivingTheGracePeriod(grace: nat) returns (s: State, s': State)
    ensures Reachable(s, grace) && SameProject(s, 1, 2) && PastCheck(s, 1) && PastCheck(s, 2)
    ensures s.rows[1].status == Failed
    ensures Reachable(s', grace) && s' == Next(s, End(1, Success), grace) && s'.rows[1].status == Finished
  {
    hide Reachable;
    s := FirstRunning(grace);
    ReachNext(s, Tick(grace + 1), grace);
    s := Next(s, Tick(grace + 1), grace);
    ReachNext(s, Cron, grace);
    s := Next(s, Cron, grace);
    ReachNext(s, Dequeue(2), grace);
    s := Next(s, Dequeue(2), grace);
    ReachNext(s, Announce(2), grace);
    s := Next(s, Announce(2), grace);
    assert Others(s.rows, 2) == {};
    ReachNext(s, Check(2), grace);
    s := Next(s, Check(2), grace);
    ReachNext(s, End(1, Success), grace);
    s' := Next(s, End(1, Success), grace);
  }

  /** The check gives safety, not progress: two jobs of a project can turn each other away. */
  lemma BothCanBackOff(grace: nat) returns (s: State)
    ensures Reachable(s, grace) && SameProject(s, 1, 2)
    ensures PcOf(s, 1).MustBackOff? && PcOf(s, 2).MustBackOff?
  {
    hide Reachable;
    s := TwoPending(grace);
    ReachNext(s, Dequeue(1), grace);
    s := Next(s, Dequeue(1), grace);
    ReachNext(s, Dequeue(2), grace);
    s := Next(s, Dequeue(2), grace);
    ReachNext(s, Announce(1), grace);
    s := Next(s, Announce(1), grace);
    ReachNext(s, Announce(2), grace);
    s := Next(s, Announce(2), grace);
    assert 2 in Others(s.rows, 1) && 1 in Others(s.rows, 2);
    ReachNext(s, Check(1), grace);
    s := Next(s, Check(1), grace);
    ReachNext(s, Check(2), grace);
    s := Next(s, Check(2), grace);
  }
}

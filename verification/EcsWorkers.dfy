/**
 Workers as ECS tasks: jobs start tasks and save their ids, while cleaners of any number of processes
 list the running tasks, read the saved ids and stop what no job knows.
 */
module EcsWorkers {
  import opened Prelude

  type JobId = nat
  type TaskId = nat
  type ProcessId = nat

  // ---- the protocol ----

  /** A job row; `savedAt` is the step that saved its container id. */
  datatype Row = Row(container: Option<TaskId>, savedAt: nat)

  datatype Cleaner =
    | Idle
    | Listing(seen: set<TaskId>)
    | Stopping(orphans: set<TaskId>, readAt: nat)

  /** `started`: the step at which each task was started; `unsaved`: tasks whose job has not saved
      their id yet. */
  datatype State = State(step: nat, started: map<TaskId, nat>, running: set<TaskId>, rows: map<JobId, Row>,
                         unsaved: map<JobId, TaskId>, cleaners: map<ProcessId, Cleaner>)

  function CleanerOf(s: State, c: ProcessId): Cleaner {
    if c in s.cleaners then s.cleaners[c] else Idle
  }

  /** The container ids saved in the job table. */
  function Known(rows: map<JobId, Row>): set<TaskId> {
    set j | j in rows && rows[j].container.Some? :: rows[j].container.value
  }

  datatype Action =
    | CreateRow(j: JobId)
    | DeleteRow(j: JobId)
    | StartTask(j: JobId, t: TaskId)
    | SaveId(j: JobId)
    | TaskEnds(t: TaskId)
    | Begin(c: ProcessId)
    | Page(c: ProcessId, ids: set<TaskId>)
    | ListFails(c: ProcessId)
    | ReadIds(c: ProcessId)
    | Stop(c: ProcessId, t: TaskId, fails: bool)

  predicate Enabled(s: State, a: Action) {
    match a
    case CreateRow(j) => j !in s.rows
    case DeleteRow(j) => j in s.rows
    case StartTask(j, t) => t !in s.started && j !in s.unsaved
    case SaveId(j) => j in s.unsaved
    case TaskEnds(t) => t in s.running
    case Begin(c) => CleanerOf(s, c).Idle?
    case Page(c, ids) => CleanerOf(s, c).Listing? && ids <= s.running
    case ListFails(c) => CleanerOf(s, c).Listing?
    case ReadIds(c) => CleanerOf(s, c).Listing?
    case Stop(c, t, _) => CleanerOf(s, c).Stopping? && t in CleanerOf(s, c).orphans
  }

  function WithCleaner(s: State, c: ProcessId, cleaner: Cleaner): State {
    s.(cleaners := s.cleaners[c := cleaner])
  }

  function Effect(s: State, a: Action): State
    requires Enabled(s, a)
  {
    match a
    case CreateRow(j) => s.(rows := s.rows[j := Row(None, 0)])
    case DeleteRow(j) => s.(rows := s.rows - {j})
    case StartTask(j, t) =>
      s.(started := s.started[t := s.step], running := s.running + {t}, unsaved := s.unsaved[j := t])
    case SaveId(j) =>
      s.(unsaved := s.unsaved - {j},
         rows := if j in s.rows then s.rows[j := Row(Some(s.unsaved[j]), s.step)] else s.rows)
    case TaskEnds(t) => s.(running := s.running - {t})
    case Begin(c) => WithCleaner(s, c, Listing({}))
    case Page(c, ids) => WithCleaner(s, c, Listing(CleanerOf(s, c).seen + ids))
    case ListFails(c) => WithCleaner(s, c, Idle)
    case ReadIds(c) =>
      var orphans := CleanerOf(s, c).seen - Known(s.rows);
      WithCleaner(s, c, if orphans == {} then Idle else Stopping(orphans, s.step))
    case Stop(c, t, fails) =>
      var left := CleanerOf(s, c).orphans - {t};
      WithCleaner(s, c, if left == {} then Idle else CleanerOf(s, c).(orphans := left))
        .(running := if fails then s.running else s.running - {t})
  }

  function Next(s: State, a: Action): State
    requires Enabled(s, a)
  {
    Effect(s, a).(step := s.step + 1)
  }

  predicate Initial(s: State) {
    s.started == map[] && s.running == {} && s.rows == map[] && s.unsaved == map[] && s.cleaners == map[]
  }

  /** The states of a run: the initial one, then one per action. */
  ghost predicate IsRun(states: seq<State>, actions: seq<Action>) {
    && |states| == |actions| + 1
    && Initial(states[0])
    && forall i :: 0 <= i < |actions| ==> Enabled(states[i], actions[i]) && states[i + 1] == Next(states[i], actions[i])
  }

  ghost predicate Reachable(s: State) {
    exists states, actions :: IsRun(states, actions) && states[|actions|] == s
  }

  lemma ReachInitial(s: State)
    requires Initial(s)
    ensures Reachable(s)
  {
    assert IsRun([s], []);
  }

  lemma ReachNext(s: State, a: Action)
    requires Reachable(s) && Enabled(s, a)
    ensures Reachable(Next(s, a))
  {
    var states, actions :| IsRun(states, actions) && states[|actions|] == s;
    assert IsRun(states + [Next(s, a)], actions + [a]);
  }

  // ---- what every run keeps ----

  /** Saved and unsaved ids are of started tasks, each saved after its start. */
  ghost predicate IdsAreStarted(s: State) {
    && s.running <= s.started.Keys
    && (forall t :: t in s.started ==> s.started[t] < s.step)
    && (forall j :: j in s.unsaved ==> s.unsaved[j] in s.started)
    && (forall j :: j in s.rows && s.rows[j].container.Some? ==>
          s.rows[j].container.value in s.started && s.started[s.rows[j].container.value] < s.rows[j].savedAt < s.step)
  }

  /** What a cleaner has seen was started before; what it will stop was started before it read the
      job table and is in a row only if it was saved after. */
  ghost predicate CleanerOk(s: State, c: Cleaner) {
    match c
    case Idle => true
    case Listing(seen) => seen <= s.started.Keys
    case Stopping(orphans, readAt) =>
      readAt < s.step &&
      forall t :: t in orphans ==>
        && t in s.started && s.started[t] < readAt
        && forall j :: j in s.rows && s.rows[j].container == Some(t) ==> readAt < s.rows[j].savedAt
  }

  ghost predicate Inv(s: State) {
    IdsAreStarted(s) && forall c :: c in s.cleaners ==> CleanerOk(s, s.cleaners[c])
  }

  lemma StepKeepsIds(s: State, a: Action)
    requires IdsAreStarted(s) && Enabled(s, a)
    ensures IdsAreStarted(Next(s, a))
  {
  }

  /** A listed task is stopped exactly if no row has its id when the table is read. */
  lemma OrphansAreUnknownTasks(s: State, c: ProcessId, t: TaskId)
    requires CleanerOf(s, c).Listing?
    ensures var next := Next(s, ReadIds(c));
      CleanerOf(next, c).Stopping? && t in CleanerOf(next, c).orphans
      <==> t in CleanerOf(s, c).seen && forall j :: j in s.rows ==> s.rows[j].container != Some(t)
  {
    var orphans := CleanerOf(s, c).seen - Known(s.rows);
    assert t in orphans ==> orphans != {};
    assert t in Known(s.rows) <==> !forall j :: j in s.rows ==> s.rows[j].container != Some(t);
  }

  lemma StepKeepsCleaner(s: State, a: Action, c: ProcessId)
    requires Inv(s) && Enabled(s, a) && c in Next(s, a).cleaners
    ensures CleanerOk(Next(s, a), Next(s, a).cleaners[c])
  {
    assert CleanerOk(s, CleanerOf(s, c));
    if a == ReadIds(c) {
      forall t | CleanerOf(Next(s, a), c).Stopping? && t in CleanerOf(Next(s, a), c).orphans
        ensures t in CleanerOf(s, c).seen && forall j :: j in s.rows ==> s.rows[j].container != Some(t)
      {
        OrphansAreUnknownTasks(s, c, t);
      }
    }
  }

  lemma {:induction false} RunsKeepInv(states: seq<State>, actions: seq<Action>, i: nat)
    requires IsRun(states, actions) && i < |states|
    ensures Inv(states[i])
  {
    if i > 0 {
      RunsKeepInv(states, actions, i - 1);
      hide Next, CleanerOk, IdsAreStarted;
      StepKeepsIds(states[i - 1], actions[i - 1]);
      forall c | c in states[i].cleaners ensures CleanerOk(states[i], states[i].cleaners[c]) {
        StepKeepsCleaner(states[i - 1], actions[i - 1], c);
      }
    }
  }

  lemma ReachableKeepsInv(s: State)
    requires Reachable(s)
    ensures Inv(s)
  {
    var states, actions :| IsRun(states, actions) && states[|actions|] == s;
    RunsKeepInv(states, actions, |actions|);
  }

  /** Main result: a task that a cleaner stops is in the row of a job only if it was started before
      the cleaner read the job table and its id was saved after; no task whose id was saved before
      the read, in a row that still exists, is ever stopped. */
  lemma CleanupSparesSavedTasks(s: State, c: ProcessId, t: TaskId, fails: bool, j: JobId)
    requires Reachable(s) && Enabled(s, Stop(c, t, fails)) && j in s.rows && s.rows[j].container == Some(t)
    ensures t in s.started && s.started[t] < CleanerOf(s, c).readAt < s.rows[j].savedAt
  {
    ReachableKeepsInv(s);
    assert CleanerOk(s, CleanerOf(s, c));
  }

  // ---- a pass is complete ----

  /** While a pass is stopping, only its own requests change what is left of it. */
  lemma StoppingStep(s: State, a: Action, c: ProcessId)
    requires Enabled(s, a) && CleanerOf(s, c).Stopping? && CleanerOf(s, c).orphans != {}
    ensures var left, next := CleanerOf(s, c).orphans, CleanerOf(Next(s, a), c);
      if a.Stop? && a.c == c then
        a.t in left && if left - {a.t} == {} then next.Idle? else next.Stopping? && next.orphans == left - {a.t}
      else next == CleanerOf(s, c)
  {
  }

  /** Cleaner `c` sends a request for task `t` from step `i` on, before step `k`. */
  ghost predicate Requested(actions: seq<Action>, c: ProcessId, i: nat, k: nat, t: TaskId)
    requires k <= |actions|
  {
    exists m :: i <= m < k && IsRequest(actions[m], c, t)
  }

  predicate IsRequest(a: Action, c: ProcessId, t: TaskId) {
    a.Stop? && a.c == c && a.t == t
  }

  lemma RequestedNext(actions: seq<Action>, c: ProcessId, i: nat, k: nat, t: TaskId)
    requires i < k <= |actions|
    ensures Requested(actions, c, i, k, t) <==> IsRequest(actions[i], c, t) || Requested(actions, c, i + 1, k, t)
  {
    hide IsRequest;
    if m :| i <= m < k && IsRequest(actions[m], c, t) {
      assert m > i ==> Requested(actions, c, i + 1, k, t);
    }
  }

  /** Main result: a pass that comes to its end has sent a request for every task that it found unknown,
      and for no other, whatever else happened and whichever requests failed. */
  lemma {:induction false} PassStopsItsOrphans(states: seq<State>, actions: seq<Action>, c: ProcessId, i: nat, k: nat)
    requires IsRun(states, actions) && i < k < |states|
    requires (forall m :: i <= m < k ==> CleanerOf(states[m], c).Stopping?) && CleanerOf(states[k], c).Idle?
    requires CleanerOf(states[i], c).orphans != {}
    ensures forall t :: t in CleanerOf(states[i], c).orphans <==> Requested(actions, c, i, k, t)
    decreases k - i
  {
    StoppingStep(states[i], actions[i], c);
    hide Next, Enabled, CleanerOf;
    if i + 1 < k {
      PassStopsItsOrphans(states, actions, c, i + 1, k);
    }
    forall t ensures t in CleanerOf(states[i], c).orphans <==> Requested(actions, c, i, k, t) {
      RequestedNext(actions, c, i, k, t);
      assert i + 1 == k ==> !Requested(actions, c, i + 1, k, t);
      hide Requested, IsRun;
    }
  }

  /** What a pass finds unknown is what it has listed and no row has: all of it. */
  lemma OrphansAreFound(s: State, c: ProcessId)
    requires CleanerOf(s, c).Listing?
    ensures var next := CleanerOf(Next(s, ReadIds(c)), c);
      var unknown := set t | t in CleanerOf(s, c).seen && forall j :: j in s.rows ==> s.rows[j].container != Some(t);
      if unknown == {} then next.Idle? else next.Stopping? && next.orphans == unknown
  {
    forall t ensures t in Known(s.rows) <==> !forall j :: j in s.rows ==> s.rows[j].container != Some(t) {
    }
    hide Known;
    var unknown := set t | t in CleanerOf(s, c).seen && forall j :: j in s.rows ==> s.rows[j].container != Some(t);
    assert CleanerOf(s, c).seen - Known(s.rows) == unknown;
  }

  lemma StartedButNotSaved() returns (s: State)
    ensures Reachable(s)
    ensures s == State(3, map[9 := 1], {9}, map[1 := Row(None, 0)], map[1 := 9], map[0 := Listing({})])
  {
    hide Reachable;
    s := State(0, map[], {}, map[], map[], map[]);
    ReachInitial(s);
    ReachNext(s, CreateRow(1));
    s := Next(s, CreateRow(1));
    ReachNext(s, StartTask(1, 9));
    s := Next(s, StartTask(1, 9));
    ReachNext(s, Begin(0));
    s := Next(s, Begin(0));
  }

  lemma ReadBeforeSave() returns (s: State)
    ensures Reachable(s)
    ensures s == State(5, map[9 := 1], {9}, map[1 := Row(None, 0)], map[1 := 9], map[0 := Stopping({9}, 4)])
  {
    hide Reachable;
    s := StartedButNotSaved();
    ReachNext(s, Page(0, {9}));
    s := Next(s, Page(0, {9}));
    assert CleanerOf(s, 0) == Listing({9}) && Known(s.rows) == {};
    ReachNext(s, ReadIds(0));
    s := Next(s, ReadIds(0));
  }

  /** The window between start and save is real: the task of an existing row is stopped. */
  lemma UnsavedTaskIsStopped() returns (s: State)
    ensures Reachable(s) && 1 in s.rows && s.rows[1].container == Some(9) && 9 in s.running
    ensures Enabled(s, Stop(0, 9, false)) && 9 !in Next(s, Stop(0, 9, false)).running
  {
    hide Reachable;
    s := ReadBeforeSave();
    ReachNext(s, SaveId(1));
    s := Next(s, SaveId(1));
  }

  /** What the cleanup is for: the task of a job whose row is deleted while it runs is stopped. */
  lemma LeftoverIsStopped() returns (s: State)
    ensures Reachable(s) && 1 !in s.rows && 9 in s.running
    ensures Enabled(s, Stop(0, 9, false)) && 9 !in Next(s, Stop(0, 9, false)).running
  {
    hide Reachable;
    s := State(0, map[], {}, map[], map[], map[]);
    ReachInitial(s);
    ReachNext(s, CreateRow(1));
    s := Next(s, CreateRow(1));
    ReachNext(s, StartTask(1, 9));
    s := Next(s, StartTask(1, 9));
    ReachNext(s, SaveId(1));
    s := Next(s, SaveId(1));
    ReachNext(s, DeleteRow(1));
    s := Next(s, DeleteRow(1));
    s := StoppingLeftover(s);
  }

  lemma StoppingLeftover(s0: State) returns (s: State)
    requires Reachable(s0) && s0.rows == map[] && s0.running == {9} && s0.cleaners == map[]
    ensures Reachable(s) && s.rows == map[] && s.running == {9}
    ensures CleanerOf(s, 0).Stopping? && CleanerOf(s, 0).orphans == {9}
  {
    hide Reachable;
    s := s0;
    ReachNext(s, Begin(0));
    s := Next(s, Begin(0));
    ReachNext(s, Page(0, {9}));
    s := Next(s, Page(0, {9}));
    assert CleanerOf(s, 0) == Listing({9}) && Known(s.rows) == {};
    ReachNext(s, ReadIds(0));
    s := Next(s, ReadIds(0));
  }

  // ---- one process ----

  type Time = int

  const CLEANUP_INTERVAL := 60
  const POLL_INTERVAL := 5

  class OrphanCleanup {
    var last: Option<Time>
    var passes: seq<Time>
    ghost var calls: seq<Time>

    ghost predicate Valid()
      reads this
    {
      && passes == Passes(calls)
      && (last.None? <==> passes == [])
      && (last.Some? ==> passes[|passes| - 1] == last.value)
      && forall i :: 0 <= i < |passes| - 1 ==> passes[i + 1] - passes[i] >= CLEANUP_INTERVAL
    }

    constructor ()
      ensures Valid() && passes == [] && calls == []
    {
      last, passes, calls := None, [], [];
    }

    /** Whether a pass begins; a pass counts even if the listing then fails. */
    method TryBegin(now: Time) returns (begins: bool)
      requires Valid()
      modifies this
      ensures Valid() && calls == old(calls) + [now]
      ensures begins <==> old(last).None? || now - old(last).value >= 60
      ensures passes == old(passes) + if begins then [now] else []
      ensures last == if begins then Some(now) else old(last)
    {
      calls := calls + [now];
      assert calls[..|calls| - 1] == old(calls);
      if last.Some? && now - last.value < CLEANUP_INTERVAL { return false; }
      last := Some(now);
      passes := passes + [now];
      begins := true;
    }
  }

  /** The passes among calls at these times. */
  function Passes(calls: seq<Time>): seq<Time> {
    if calls == [] then []
    else
      var before, now := Passes(calls[..|calls| - 1]), calls[|calls| - 1];
      if before != [] && now - before[|before| - 1] < CLEANUP_INTERVAL then before else before + [now]
  }

  /** Two passes of one process are at least the interval apart, and every call is within the
      interval of a pass. */
  lemma {:induction false} PassesAreApart(calls: seq<Time>)
    ensures forall i, k :: 0 <= i < k < |Passes(calls)| ==> Passes(calls)[k] - Passes(calls)[i] >= 60
    ensures forall x :: x in calls ==> exists i :: 0 <= i < |Passes(calls)| && x - Passes(calls)[i] < 60
  {
    if calls != [] {
      var init, now := calls[..|calls| - 1], calls[|calls| - 1];
      PassesAreApart(init);
      var before, all := Passes(init), Passes(calls);
      assert calls == init + [now];
      forall x | x in calls ensures exists i :: 0 <= i < |all| && x - all[i] < CLEANUP_INTERVAL {
        if x in init {
          var i :| 0 <= i < |before| && x - before[i] < CLEANUP_INTERVAL;
          assert all[i] == before[i];
        } else {
          assert x - all[|all| - 1] < CLEANUP_INTERVAL;
        }
      }
    }
  }

  // ---- waiting for a task ----

  datatype Status = Missing | Active | Stopped(exitCode: Option<int>)

  /** `polls(i)` and `clock(i)` are the answer of poll `i` and the time after it.  Every poll but the
      last is followed by a sleep, so the time to the deadline is a measure of the loop. */
  method WaitUntilStopped(polls: nat -> Status, clock: nat -> Time, start: Time, timeout: nat)
    returns (r: Option<Status>, n: nat)
    requires forall i: nat :: clock(i + 1) >= clock(i) + POLL_INTERVAL
    requires clock(0) >= start
    ensures polls(n).Stopped? || clock(n) >= start + timeout
    ensures forall i :: 0 <= i < n ==> !polls(i).Stopped? && clock(i) < start + timeout
    ensures r == if polls(n).Stopped? then Some(polls(n)) else None
    ensures n == 0 || 5 * (n - 1) < timeout
  {
    var deadline := start + timeout;
    n := 0;
    while true
      invariant forall i :: 0 <= i < n ==> !polls(i).Stopped? && clock(i) < deadline
      invariant clock(n) >= start + POLL_INTERVAL * n
      invariant n > 0 ==> clock(n - 1) >= start + POLL_INTERVAL * (n - 1)
      decreases deadline - clock(n)
    {
      var status := polls(n);
      assert n > 0 ==> !polls(n - 1).Stopped? && clock(n - 1) < deadline;
      if status.Stopped? { return Some(status), n; }
      if clock(n) >= deadline { return None, n; }
      n := n + 1;
    }
  }
}

/**
 The subscriptions of one account: creating a trial with its follow-up, activating a draft, and the
 two overlap checks, `clean()` and the database constraint.
 */
module Subscriptions {
  import opened Prelude
  import opened Ranges

  type SubId = nat

  /** A subscription without `since` is a draft. */
  datatype Sub = Sub(status: string, since: Option<Time>, until: Option<Time>)

  type Rows = map<SubId, Sub>

  const CANCELLED := "inactive_cancelled"

  function SpanOf(s: Sub): Range
    requires s.since.Some?
  {
    Range(s.since.value, s.until)
  }

  predicate Covers(s: Sub, x: Time) {
    s.since.Some? && Contains(SpanOf(s), x)
  }

  predicate Clash(s: Sub, r: Sub) {
    s.since.Some? && r.since.Some? && Overlapping(SpanOf(s), SpanOf(r))
  }

  lemma ClashIffSharedInstant(s: Sub, r: Sub)
    ensures Clash(s, r) <==> exists x :: Covers(s, x) && Covers(r, x)
  {
    if s.since.Some? && r.since.Some? {
      OverlappingIffSharedInstant(SpanOf(s), SpanOf(r));
      if x :| Contains(SpanOf(s), x) && Contains(SpanOf(r), x) {
        assert Covers(s, x) && Covers(r, x);
      }
    }
  }

  /** What the exclusion constraint keeps. */
  ghost predicate Disjoint(rows: Rows) {
    forall i, j :: i in rows && j in rows && i != j ==> !Clash(rows[i], rows[j])
  }

  // ---- saving one row ----

  /** The range of `r` goes on strictly around instant `x`. */
  predicate StrictlyAround(r: Sub, x: Time) {
    r.since.Some? && r.since.value < x && (r.until.None? || r.until.value > x)
  }

  /** `clean()` raises for `s` as row `id`. */
  predicate CleanRejects(rows: Rows, id: SubId, s: Sub) {
    s.since.Some? && exists k :: k in rows && k != id && StrictlyAround(rows[k], s.since.value)
  }

  predicate Clashes(rows: Rows, id: SubId, s: Sub) {
    exists k :: k in rows && k != id && Clash(s, rows[k])
  }

  datatype Result = Stored(rows: Rows) | NoSuchRow | NoStart | Unclean | BadRange | Excluded

  /** `save()`: first `clean()`, then the database. */
  function Saved(rows: Rows, id: SubId, s: Sub): Result {
    if CleanRejects(rows, id, s) then Unclean
    else if s.since.Some? && !Proper(SpanOf(s)) then BadRange
    else if Clashes(rows, id, s) then Excluded
    else Stored(rows[id := s])
  }

  // ---- create_subscription ----

  /** A trial of length `period` from `since` on and its follow-up; not a transaction, so the trial
      stays if the follow-up cannot be stored. */
  function TrialPair(rows: Rows, newId: SubId, since: Time, period: Time, trialStatus: string,
                     status: string): (Result, Rows) {
    var end := Floor(since) + period;
    var trial := Saved(rows, newId, Sub(trialStatus, Some(Floor(since)), Some(end)));
    if !trial.Stored? then (trial, rows)
    else
      var regular := Saved(trial.rows, newId + 1, Sub(status, Some(end), None));
      (regular, if regular.Stored? then regular.rows else trial.rows)
  }

  function Single(rows: Rows, newId: SubId, since: Option<Time>, status: string): Result {
    Saved(rows, newId, Sub(status, if since.Some? then Some(Floor(since.value)) else None, None))
  }

  // ---- update_subscription ----

  /** The keyword arguments; None stands for an absent one. */
  datatype Update = Update(status: Option<string>, since: Option<Option<Time>>, until: Option<Option<Time>>)

  function With(s: Sub, u: Update): Sub {
    Sub(if u.status.Some? then u.status.value else s.status,
        if u.since.Some? then u.since.value else s.since,
        if u.until.Some? then u.until.value else s.until)
  }

  /** `current()`: both comparisons are closed. */
  predicate IsCurrent(s: Sub, now: Time) {
    s.since.Some? && s.since.value <= now && (s.until.None? || s.until.value >= now)
  }

  function OtherCurrent(rows: Rows, id: SubId, now: Time): set<SubId> {
    set k | k in rows && k != id && IsCurrent(rows[k], now)
  }

  /** The bulk update; it bypasses `clean()`. */
  function Cancelled(rows: Rows, ids: set<SubId>, t: Time): Rows {
    map k | k in rows :: if k in ids then Sub(CANCELLED, rows[k].since, Some(t)) else rows[k]
  }

  predicate Activates(s: Sub, u: Update) {
    s.since.None? && u.since.Some? && u.since.value.Some?
  }

  /** The database checks every updated row; in which order makes no difference. */
  function BulkResult(rows: Rows, id: SubId, now: Time, t: Time): Result {
    var ids := OtherCurrent(rows, id, now);
    var cut := Cancelled(rows, ids, t);
    if exists k :: k in ids && k in cut && cut[k].since.Some? && !Proper(SpanOf(cut[k])) then BadRange
    else if exists k :: k in ids && k in cut && Clashes(cut, k, cut[k]) then Excluded
    else Stored(cut)
  }

  /** One transaction. */
  function Updated(rows: Rows, id: SubId, u: Update, now: Time): Result {
    if u == Update(None, None, None) then Stored(rows)
    else if id !in rows then NoSuchRow
    else
      var bulk := if Activates(rows[id], u) then BulkResult(rows, id, now, u.since.value.value) else Stored(rows);
      if bulk.Stored? then Saved(bulk.rows, id, With(rows[id], u)) else bulk
  }

  class AccountSubscriptions {
    var rows: Rows
    var nextId: SubId

    predicate Valid()
      reads this
    {
      forall i :: i in rows ==> i < nextId
    }

    constructor ()
      ensures Valid() && rows == map[]
    {
      rows, nextId := map[], 0;
    }

    method Save(id: SubId, s: Sub) returns (r: Result)
      modifies this`rows
      ensures r == Saved(old(rows), id, s) && rows == if r.Stored? then r.rows else old(rows)
    {
      if s.since.Some? && exists k :: k in rows && k != id && StrictlyAround(rows[k], s.since.value) { return Unclean; }
      if s.since.Some? && !Proper(SpanOf(s)) { return BadRange; }
      if Clashes(rows, id, s) { return Excluded; }
      rows := rows[id := s];
      r := Stored(rows);
    }

    method CreateSubscription(trial: bool, since: Option<Time>, period: Time, trialStatus: string, status: string)
      returns (r: Result)
      requires Valid()
      modifies this
      ensures Valid()
      ensures trial && since.None? ==> r == NoStart && rows == old(rows)
      ensures trial && since.Some? ==>
        (r, rows) == TrialPair(old(rows), old(nextId), since.value, period, trialStatus, status)
      ensures !trial ==>
        r == Single(old(rows), old(nextId), since, status) && rows == if r.Stored? then r.rows else old(rows)
    {
      var start := if since.Some? then Some(Floor(since.value)) else None;
      var regularSince := start;
      if trial {
        if start.None? { return NoStart; }
        var end := start.value + period;
        r := Save(nextId, Sub(trialStatus, start, Some(end)));
        if !r.Stored? { return; }
        nextId := nextId + 1;
        regularSince := Some(end);
      }
      r := Save(nextId, Sub(status, regularSince, None));
      if r.Stored? {
        nextId := nextId + 1;
      }
    }

    method UpdateSubscription(id: SubId, u: Update, now: Time) returns (r: Result)
      requires Valid()
      modifies this`rows
      ensures Valid()
      ensures r == Updated(old(rows), id, u, now) && rows == if r.Stored? then r.rows else old(rows)
    {
      if u.status.None? && u.since.None? && u.until.None? { return Stored(rows); }
      if id !in rows { return NoSuchRow; }
      var before, s := rows, rows[id];
      if s.since.None? && u.since.Some? && u.since.value.Some? {
        r := BulkResult(rows, id, now, u.since.value.value);
        if !r.Stored? { return; }
        rows := r.rows;
      }
      if u.status.Some? { s := s.(status := u.status.value); }
      if u.since.Some? { s := s.(since := u.since.value); }
      if u.until.Some? { s := s.(until := u.until.value); }
      r := Save(id, s);
      if !r.Stored? {
        rows := before;
      }
    }
  }

  // ---- clean() against the constraint ----

  /** For a non-empty range, `clean()` rejects nothing that the constraint accepts; for an empty one,
      everything it rejects is accepted by the constraint.  And it overlooks an overlap exactly if
      every overlapping range starts at or after the new one. */
  lemma CleanAgainstConstraint(rows: Rows, id: SubId, s: Sub)
    requires s.since.Some?
    ensures CleanRejects(rows, id, s) && !Clashes(rows, id, s) <==> CleanRejects(rows, id, s) && IsEmpty(SpanOf(s))
    ensures !CleanRejects(rows, id, s) && Clashes(rows, id, s)
      <==> Clashes(rows, id, s)
           && forall k :: k in rows && k != id && Clash(s, rows[k]) ==> rows[k].since.value >= s.since.value
  {
    if CleanRejects(rows, id, s) && !IsEmpty(SpanOf(s)) {
      var k :| k in rows && k != id && StrictlyAround(rows[k], s.since.value);
      assert Clash(s, rows[k]);
    }
    if Clashes(rows, id, s) {
      forall k | k in rows && k != id && Clash(s, rows[k])
        ensures rows[k].since.value < s.since.value ==> StrictlyAround(rows[k], s.since.value)
      {
      }
    }
  }

  lemma EmptyIsRejectedForNothing() returns (rows: Rows, s: Sub)
    ensures Disjoint(rows) && Proper(Range(5, Some(5))) && s == Sub("", Some(5), Some(5))
    ensures CleanRejects(rows, 1, s) && !Clashes(rows, 1, s)
  {
    rows := map[0 := Sub("", Some(0), None)];
    s := Sub("", Some(5), Some(5));
    assert 0 in rows && StrictlyAround(rows[0], 5);
  }

  // ---- trial pairs ----

  /** Exactly one row covers `x`. */
  ghost predicate OneCovers(rows: Rows, x: Time) {
    exists k :: k in rows && Covers(rows[k], x) && forall j :: j in rows && Covers(rows[j], x) ==> j == k
  }

  predicate Over(s: Sub, x: Time) {
    s.since.Some? && !IsEmpty(SpanOf(s)) ==> s.until.Some? && s.until.value <= x
  }

  ghost predicate AllOver(rows: Rows, x: Time) {
    forall k :: k in rows ==> Over(rows[k], x)
  }

  lemma OverIffNothingLater(s: Sub, x: Time)
    ensures Over(s, x) <==> forall y :: y >= x ==> !Covers(s, y)
  {
    if !Over(s, x) {
      var y := if s.since.value < x then x else s.since.value;
      assert y >= x && Covers(s, y);
    }
  }

  /** A trial pair can be stored exactly if every existing range is over when it starts. */
  lemma TrialPairSucceedsIff(rows: Rows, newId: SubId, since: Time, period: Time, trialStatus: string, status: string)
    requires Disjoint(rows) && newId !in rows && newId + 1 !in rows && period >= 0
    ensures TrialPair(rows, newId, since, period, trialStatus, status).0.Stored? <==> AllOver(rows, Floor(since))
  {
    var start, end := Floor(since), Floor(since) + period;
    var trial, regular := Sub(trialStatus, Some(start), Some(end)), Sub(status, Some(end), None);
    hide Floor;
    if AllOver(rows, start) {
      forall k | k in rows ensures !StrictlyAround(rows[k], start) && !Clash(trial, rows[k])
        && !StrictlyAround(rows[k], end) && !Clash(regular, rows[k])
      {
        assert Over(rows[k], start);
      }
      assert !Clashes(rows, newId, trial);
      var stored := rows[newId := trial];
      assert !StrictlyAround(trial, end) && !Clash(regular, trial);
      assert !Clashes(stored, newId + 1, regular);
    } else {
      var k :| k in rows && !Over(rows[k], start);
      var stored := rows[newId := trial];
      assert k in stored && k != newId + 1;
      assert Clash(trial, rows[k]) || Clash(regular, stored[k]);
    }
  }

  /** From its start on, a stored trial pair covers every instant exactly once; before, nothing changes. */
  lemma TrialPairCovers(rows: Rows, newId: SubId, since: Time, period: Time, trialStatus: string, status: string,
                        x: Time)
    requires Disjoint(rows) && newId !in rows && newId + 1 !in rows && period >= 0 && AllOver(rows, Floor(since))
    ensures var (r, rows') := TrialPair(rows, newId, since, period, trialStatus, status);
      && r.Stored? && Disjoint(rows')
      && (x >= Floor(since) ==> OneCovers(rows', x))
      && (x < Floor(since) ==> forall k :: k in rows' && Covers(rows'[k], x) <==> k in rows && Covers(rows[k], x))
  {
    TrialPairSucceedsIff(rows, newId, since, period, trialStatus, status);
    var (r, rows') := TrialPair(rows, newId, since, period, trialStatus, status);
    var start, end := Floor(since), Floor(since) + period;
    var trial, regular := Sub(trialStatus, Some(start), Some(end)), Sub(status, Some(end), None);
    assert rows' == rows[newId := trial][newId + 1 := regular];
    forall k | k in rows ensures forall y :: y >= start ==> !Covers(rows[k], y) {
      assert Over(rows[k], start);
      OverIffNothingLater(rows[k], start);
    }
    hide TrialPair, Floor, AllOver, Over;
    PairIsDisjoint(rows, newId, trial, regular, start, end);
    if x >= start {
      PairCovers(rows, newId, trial, regular, start, end, x);
    }
  }

  lemma PairIsDisjoint(rows: Rows, newId: SubId, trial: Sub, regular: Sub, start: Time, end: Time)
    requires Disjoint(rows) && start <= end
    requires trial.since == Some(start) && trial.until == Some(end) && regular.since == Some(end)
    requires forall k :: k in rows ==> forall y :: y >= start ==> !Covers(rows[k], y)
    ensures Disjoint(rows[newId := trial][newId + 1 := regular])
  {
    var rows' := rows[newId := trial][newId + 1 := regular];
    forall i, j | i in rows' && j in rows' && i != j ensures !Clash(rows'[i], rows'[j]) {
      ClashIffSharedInstant(rows'[i], rows'[j]);
      if i !in {newId, newId + 1} && j !in {newId, newId + 1} {
        assert !Clash(rows[i], rows[j]);
      }
      hide Clash;
    }
  }

  lemma PairCovers(rows: Rows, newId: SubId, trial: Sub, regular: Sub, start: Time, end: Time, x: Time)
    requires start <= x && trial.since == Some(start) && trial.until == Some(end)
    requires regular.since == Some(end) && regular.until.None?
    requires forall k :: k in rows ==> forall y :: y >= start ==> !Covers(rows[k], y)
    ensures OneCovers(rows[newId := trial][newId + 1 := regular], x)
  {
    var rows' := rows[newId := trial][newId + 1 := regular];
    var k := if x < end then newId else newId + 1;
    assert k in rows' && Covers(rows'[k], x);
    assert forall j :: j in rows' && Covers(rows'[j], x) ==> j == k;
  }

  // ---- activation ----

  /** Other current rows that start before `t`, so that they are not emptied by ending at `t`. */
  ghost predicate CutAt(rows: Rows, id: SubId, now: Time, t: Time, k: SubId) {
    k in OtherCurrent(rows, id, now) && rows[k].since.value < t
  }

  ghost predicate Upcoming(rows: Rows, id: SubId, now: Time, k: SubId) {
    k in rows && k != id && rows[k].since.Some? && rows[k].since.value > now && !IsEmpty(SpanOf(rows[k]))
  }

  /** The condition under which a draft can be activated. */
  ghost predicate CanActivate(rows: Rows, id: SubId, now: Time, t: Time) {
    && (forall i, j :: CutAt(rows, id, now, t, i) && CutAt(rows, id, now, t, j) ==> i == j)
    && (forall k :: Upcoming(rows, id, now, k) ==> rows[k].until.Some? && rows[k].until.value <= t)
    && (forall i, k :: CutAt(rows, id, now, t, i) ==> !Upcoming(rows, id, now, k))
  }

  ghost predicate IsDraft(rows: Rows, id: SubId) {
    id in rows && rows[id].since.None? && rows[id].until.None?
  }

  function Activation(status: Option<string>, t: Time): Update {
    Update(status, Some(Some(t)), None)
  }

  /** An open-ended draft can be activated from `t >= now` on exactly if at most one other current
      subscription started before `t`, and every upcoming one is over by `t` and then meets no
      current one. */
  lemma ActivationSucceedsIff(rows: Rows, id: SubId, status: Option<string>, now: Time, t: Time)
    requires Disjoint(rows) && IsDraft(rows, id) && t >= now
    ensures Updated(rows, id, Activation(status, t), now).Stored? <==> CanActivate(rows, id, now, t)
  {
    var u := Activation(status, t);
    var ids := OtherCurrent(rows, id, now);
    var cut := Cancelled(rows, ids, t);
    var active := With(rows[id], u);
    hide CanActivate;
    BulkSucceedsIff(rows, id, now, t);
    if BulkResult(rows, id, now, t).Stored? {
      SaveSucceedsIff(rows, id, active, now, t);
    }
    BothPartsIff(rows, id, now, t);
  }

  ghost predicate BulkOk(rows: Rows, id: SubId, now: Time, t: Time) {
    && (forall i, j :: CutAt(rows, id, now, t, i) && CutAt(rows, id, now, t, j) ==> i == j)
    && (forall i, k :: CutAt(rows, id, now, t, i) && Upcoming(rows, id, now, k) ==> rows[k].since.value >= t)
  }

  ghost predicate SaveOk(rows: Rows, id: SubId, now: Time, t: Time) {
    forall k :: Upcoming(rows, id, now, k) ==> rows[k].until.Some? && rows[k].until.value <= t
  }

  lemma BothPartsIff(rows: Rows, id: SubId, now: Time, t: Time)
    ensures CanActivate(rows, id, now, t) <==> BulkOk(rows, id, now, t) && SaveOk(rows, id, now, t)
  {
  }

  lemma BulkSucceeds(rows: Rows, id: SubId, now: Time, t: Time)
    requires Disjoint(rows) && IsDraft(rows, id) && t >= now && BulkOk(rows, id, now, t)
    ensures var ids := OtherCurrent(rows, id, now); var cut := Cancelled(rows, ids, t);
      forall i, j :: i in ids && j in cut && i != j ==> !Clash(cut[i], cut[j])
  {
    var ids := OtherCurrent(rows, id, now);
    var cut := Cancelled(rows, ids, t);
    forall i, j | i in ids && j in cut && i != j ensures !Clash(cut[i], cut[j]) {
      assert !Clash(rows[i], rows[j]);
      if j in ids {
        assert !CutAt(rows, id, now, t, i) || !CutAt(rows, id, now, t, j);
      } else if Upcoming(rows, id, now, j) {
        assert CutAt(rows, id, now, t, i) ==> rows[j].since.value >= t;
      }
    }
  }

  lemma BulkSucceedsIff(rows: Rows, id: SubId, now: Time, t: Time)
    requires Disjoint(rows) && IsDraft(rows, id) && t >= now
    ensures BulkResult(rows, id, now, t).Stored? <==> BulkOk(rows, id, now, t)
  {
    var ids := OtherCurrent(rows, id, now);
    var cut := Cancelled(rows, ids, t);
    assert forall k :: k in ids ==> k in cut && cut[k].since.Some? && Proper(SpanOf(cut[k]));
    if BulkOk(rows, id, now, t) {
      BulkSucceeds(rows, id, now, t);
      hide BulkOk, Disjoint, Clash, Cancelled, OtherCurrent, Proper;
    } else {
      var i, j := BulkFails(rows, id, now, t);
      hide BulkOk, Disjoint, Clash, Cancelled, OtherCurrent, Proper;
      assert Clashes(cut, i, cut[i]);
    }
  }

  lemma BulkFails(rows: Rows, id: SubId, now: Time, t: Time) returns (i: SubId, j: SubId)
    requires IsDraft(rows, id) && t >= now && !BulkOk(rows, id, now, t)
    ensures var ids := OtherCurrent(rows, id, now); var cut := Cancelled(rows, ids, t);
      i in ids && j in cut && i != j && Clash(cut[i], cut[j])
  {
    if some, other :| CutAt(rows, id, now, t, some) && CutAt(rows, id, now, t, other) && some != other {
      i, j := some, other;
    } else {
      i, j :| CutAt(rows, id, now, t, i) && Upcoming(rows, id, now, j) && rows[j].since.value < t;
    }
  }

  lemma SaveSucceedsIff(rows: Rows, id: SubId, active: Sub, now: Time, t: Time)
    requires Disjoint(rows) && IsDraft(rows, id) && t >= now && active.since == Some(t) && active.until == None
    ensures Saved(Cancelled(rows, OtherCurrent(rows, id, now), t), id, active).Stored? <==> SaveOk(rows, id, now, t)
  {
    var ids := OtherCurrent(rows, id, now);
    var cut := Cancelled(rows, ids, t);
    CleanAgainstConstraint(cut, id, active);
    forall k | k in cut && k != id
      ensures Clash(active, cut[k]) <==> Upcoming(rows, id, now, k) && (rows[k].until.None? || rows[k].until.value > t)
    {
    }
  }

  /** With nothing upcoming and no range ending exactly now, a draft can always be activated, and from
      `t` on it alone covers every instant. */
  lemma ActivationCovers(rows: Rows, id: SubId, status: Option<string>, now: Time, t: Time, x: Time)
    requires Disjoint(rows) && IsDraft(rows, id) && t >= now
    requires forall k :: k in rows && rows[k].since.Some? ==> rows[k].since.value <= now && rows[k].until != Some(now)
    ensures var r := Updated(rows, id, Activation(status, t), now);
      && r.Stored? && Disjoint(r.rows)
      && (x >= t ==> forall k :: k in r.rows && Covers(r.rows[k], x) <==> k == id)
      && (x < now ==> forall k :: k in r.rows && Covers(r.rows[k], x) <==> k in rows && Covers(rows[k], x))
  {
    assert CanActivate(rows, id, now, t) by {
      forall i, j | CutAt(rows, id, now, t, i) && CutAt(rows, id, now, t, j) ensures i == j {
        ClashIffSharedInstant(rows[i], rows[j]);
        assert Covers(rows[i], now) && Covers(rows[j], now);
      }
    }
    hide CanActivate, Disjoint, BulkResult, Saved, Cancelled, OtherCurrent, Covers;
    ActivationSucceedsIff(rows, id, status, now, t);
    StoredIsDisjoint(rows, id, status, now, t);
    StoredRows(rows, id, status, now, t);
    StoredCovers(rows, id, With(rows[id], Activation(status, t)), now, t, x);
  }

  lemma StoredRows(rows: Rows, id: SubId, status: Option<string>, now: Time, t: Time)
    requires IsDraft(rows, id) && Updated(rows, id, Activation(status, t), now).Stored?
    ensures Updated(rows, id, Activation(status, t), now).rows
         == Cancelled(rows, OtherCurrent(rows, id, now), t)[id := With(rows[id], Activation(status, t))]
  {
    hide Cancelled, OtherCurrent, CleanRejects, Clashes;
  }

  lemma StoredCovers(rows: Rows, id: SubId, active: Sub, now: Time, t: Time, x: Time)
    requires IsDraft(rows, id) && t >= now && active.since == Some(t) && active.until == None
    requires forall k :: k in rows && rows[k].since.Some? ==> rows[k].since.value <= now && rows[k].until != Some(now)
    ensures var rows' := Cancelled(rows, OtherCurrent(rows, id, now), t)[id := active];
      && (x >= t ==> forall k :: k in rows' && Covers(rows'[k], x) <==> k == id)
      && (x < now ==> forall k :: k in rows' && Covers(rows'[k], x) <==> k in rows && Covers(rows[k], x))
  {
  }

  lemma StoredIsDisjoint(rows: Rows, id: SubId, status: Option<string>, now: Time, t: Time)
    requires Disjoint(rows) && IsDraft(rows, id) && t >= now
    requires Updated(rows, id, Activation(status, t), now).Stored?
    ensures Disjoint(Updated(rows, id, Activation(status, t), now).rows)
  {
    var u := Activation(status, t);
    var ids := OtherCurrent(rows, id, now);
    var cut := Cancelled(rows, ids, t);
    assert !exists k :: k in ids && Clashes(cut, k, cut[k]);
    assert !Clashes(cut, id, With(rows[id], u));
    var stored := cut[id := With(rows[id], u)];
    hide With, Clash, IsCurrent;
    forall i, j | i in stored && j in stored && i != j ensures !Clash(stored[i], stored[j]) {
      ClashIsSymmetric(stored[i], stored[j]);
      if i != id && j != id {
        assert !Clash(rows[i], rows[j]);
      }
    }
  }

  lemma ClashIsSymmetric(s: Sub, r: Sub)
    ensures Clash(s, r) == Clash(r, s)
  {
  }

  /** At an exact end instant with a successor, the activation fails although nothing is upcoming:
      the bulk update would extend the ended range into its successor. */
  lemma EndInstantBlocksActivation() returns (rows: Rows)
    ensures Disjoint(rows) && IsDraft(rows, 2)
    ensures forall k :: k in rows && rows[k].since.Some? ==> rows[k].since.value <= 5
    ensures !Updated(rows, 2, Activation(None, 10), 5).Stored?
  {
    rows := map[0 := Sub("", Some(0), Some(5)), 1 := Sub("", Some(5), None), 2 := Sub("", None, None)];
    hide Updated;
    ActivationSucceedsIff(rows, 2, None, 5, 10);
    assert CutAt(rows, 2, 5, 10, 0) && CutAt(rows, 2, 5, 10, 1);
  }
}

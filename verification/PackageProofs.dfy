/** Storage packages as a timeline of quantities, over one call and over any run of calls. */
module PackageProofs {
  import opened Prelude
  import opened Ranges
  import opened Packages

  /** What the database accepts: ranges that do not end before they start, and do not overlap. */
  ghost predicate Sound(rows: Rows) {
    && Disjoint(rows)
    && forall i :: i in rows && rows[i].until.Some? ==> rows[i].since <= rows[i].until.value
  }

  ghost predicate WholeStamps(rows: Rows) {
    forall i :: i in rows ==> Whole(rows[i].since) && (rows[i].until.Some? ==> Whole(rows[i].until.value))
  }

  /** Packages that are still to start have no end. */
  ghost predicate FutureOpen(rows: Rows, now: Time) {
    forall i :: i in rows && IsFuture(rows[i], now) ==> rows[i].until.None?
  }

  /** Packages are created in the order of their starts, but for empty ones. */
  ghost predicate StartsInOrder(rows: Rows) {
    forall i, k :: i in rows && k in rows && i < k && !Empty(rows[i]) && !Empty(rows[k]) ==>
      rows[i].since <= rows[k].since
  }

  ghost predicate EmptyArePast(rows: Rows, now: Time) {
    forall i :: i in rows && Empty(rows[i]) ==> rows[i].since < now
  }

  /** Row `i` is in force just before `now`. */
  ghost predicate WasInForce(rows: Rows, now: Time, i: PackageId) {
    CoversAt(rows, now - 1, i)
  }

  // ---- one call ----

  lemma AtMostOne(s: set<PackageId>)
    requires forall i, j :: i in s && j in s ==> i == j
    ensures |s| <= 1
  {
    if i :| i in s {
      assert s == {i};
    }
  }

  lemma SameIfShared(rows: Rows, i: PackageId, j: PackageId, x: Time)
    requires Disjoint(rows) && CoversAt(rows, x, i) && CoversAt(rows, x, j)
    ensures i == j
  {
    OverlappingIffSharedInstant(Span(rows[i]), Span(rows[j]));
    assert Contains(Span(rows[i]), x) && Contains(Span(rows[j]), x);
  }

  /** A package that is active after the deletion was in force just before it. */
  lemma ActiveWasInForce(rows: Rows, deletedAt: Time, queriedAt: Time, i: PackageId)
    requires deletedAt <= queriedAt && i in Active(WithoutFuture(rows, deletedAt), queriedAt)
    ensures WasInForce(rows, deletedAt, i)
  {
  }

  /** Once the future packages are deleted, never two are active, although both comparisons with
      "now" are closed. */
  lemma NeverTwoActive(rows: Rows, deletedAt: Time, queriedAt: Time)
    requires Disjoint(rows) && deletedAt <= queriedAt
    ensures |Active(WithoutFuture(rows, deletedAt), queriedAt)| <= 1
  {
    var active := Active(WithoutFuture(rows, deletedAt), queriedAt);
    forall i, j | i in active && j in active ensures i == j {
      ActiveWasInForce(rows, deletedAt, queriedAt, i);
      ActiveWasInForce(rows, deletedAt, queriedAt, j);
      SameIfShared(rows, i, j, deletedAt - 1);
    }
    AtMostOne(active);
  }

  /** Every package that stays beside the ended one is over before that one started. */
  lemma OthersAreOver(rows: Rows, deletedAt: Time, queriedAt: Time, e: PackageId, k: PackageId)
    requires Disjoint(rows) && deletedAt <= queriedAt && e in Active(WithoutFuture(rows, deletedAt), queriedAt)
    requires k in WithoutFuture(rows, deletedAt) && k != e && !Empty(rows[k])
    ensures rows[k].until.Some? && rows[k].until.value <= rows[e].since
  {
    ActiveWasInForce(rows, deletedAt, queriedAt, e);
    assert !Overlap(rows[e], rows[k]);
  }

  /** Every package that stays is over at `t`, or is the ended one. */
  ghost predicate NothingAfter(rows: Rows, t: Time, deletedAt: Time, queriedAt: Time) {
    && (Ended(rows, deletedAt, queriedAt).Some? ==> rows[Ended(rows, deletedAt, queriedAt).value].since <= t)
    && (Ended(rows, deletedAt, queriedAt).None? ==>
          forall k :: k in WithoutFuture(rows, deletedAt) ==>
                        Empty(rows[k]) || (rows[k].until.Some? && rows[k].until.value <= t))
  }

  lemma CutNeverClashes(rows: Rows, since: Time, deletedAt: Time, queriedAt: Time)
    requires Disjoint(rows) && deletedAt <= queriedAt && Ended(rows, deletedAt, queriedAt).Some?
    ensures !Clashes(Cut(rows, since, deletedAt, queriedAt), Ended(rows, deletedAt, queriedAt).value)
  {
    var e := Ended(rows, deletedAt, queriedAt).value;
    var cut := Cut(rows, since, deletedAt, queriedAt);
    forall k | k in cut && k != e ensures !Overlap(cut[e], cut[k]) {
      if !Empty(rows[k]) {
        OthersAreOver(rows, deletedAt, queriedAt, e, k);
      }
    }
  }

  lemma NewClashesIff(rows: Rows, newId: PackageId, quantity: int, since: Time, deletedAt: Time, queriedAt: Time)
    requires Disjoint(rows) && deletedAt <= queriedAt && newId !in rows && quantity > 0
    requires Ended(rows, deletedAt, queriedAt).Some? ==> rows[Ended(rows, deletedAt, queriedAt).value].since <= since
    ensures Clashes(Grown(Cut(rows, since, deletedAt, queriedAt), newId, quantity, since), newId)
       <==> !NothingAfter(rows, since, deletedAt, queriedAt)
  {
    var cut := Cut(rows, since, deletedAt, queriedAt);
    var grown := Grown(cut, newId, quantity, since);
    match Ended(rows, deletedAt, queriedAt)
    case Some(e) =>
      forall k | k in grown && k != newId ensures !Overlap(grown[newId], grown[k]) {
        if k != e && !Empty(rows[k]) {
          OthersAreOver(rows, deletedAt, queriedAt, e, k);
        }
      }
    case None =>
      if k :| k in cut && !Empty(rows[k]) && (rows[k].until.None? || rows[k].until.value > since) {
        assert k in grown && k != newId && Overlap(grown[newId], grown[k]);
      }
  }

  /** A premium call succeeds exactly if the requested start is not before the start of the package
      it ends and, when it ends none, no package that stays goes on after it. */
  lemma SucceedsIff(rows: Rows, newId: PackageId, quantity: int, t: Time, deletedAt: Time, queriedAt: Time)
    requires Disjoint(rows) && deletedAt <= queriedAt && newId !in rows
    ensures var e := Ended(rows, deletedAt, queriedAt);
      SetQuantity(rows, newId, true, quantity, t, deletedAt, queriedAt).Set?
      <==> (e.Some? ==> rows[e.value].since <= Floor(t))
           && (quantity > 0 ==> NothingAfter(rows, Floor(t), deletedAt, queriedAt))
  {
    NeverTwoActive(rows, deletedAt, queriedAt);
    var e := Ended(rows, deletedAt, queriedAt);
    hide NothingAfter, Clashes, Active, WithoutFuture, Disjoint;
    if e.Some? {
      CutNeverClashes(rows, Floor(t), deletedAt, queriedAt);
    }
    if quantity > 0 && (e.Some? ==> rows[e.value].since <= Floor(t)) {
      NewClashesIff(rows, newId, quantity, Floor(t), deletedAt, queriedAt);
    }
  }

  /** With whole-second stamps, a call whose start is not in a second before "now" never fails. */
  lemma WholeSecondsSucceed(rows: Rows, newId: PackageId, quantity: int, t: Time, deletedAt: Time, queriedAt: Time)
    requires Disjoint(rows) && WholeStamps(rows) && deletedAt <= queriedAt && newId !in rows
    requires Floor(t) >= Floor(queriedAt)
    ensures SetQuantity(rows, newId, true, quantity, t, deletedAt, queriedAt).Set?
  {
    var e := Ended(rows, deletedAt, queriedAt);
    var kept := WithoutFuture(rows, deletedAt);
    forall k | k in kept
      ensures rows[k].since <= Floor(t)
      ensures e.None? ==> rows[k].until.Some? && rows[k].until.value <= Floor(t)
    {
      WholeBefore(rows[k].since, queriedAt);
      if e.None? {
        assert k !in Active(kept, queriedAt);
        WholeBefore(rows[k].until.value, queriedAt);
      }
    }
    SucceedsIff(rows, newId, quantity, t, deletedAt, queriedAt);
  }

  /** How a call fails: without a premium plan; if the package it would end starts later; or if, ending
      none, it would create one while another goes on.  Two active packages it never finds.  And what a
      successful call reports as ended and as created. */
  lemma OutcomeIff(rows: Rows, newId: PackageId, premium: bool, quantity: int, t: Time, deletedAt: Time,
                   queriedAt: Time)
    requires Disjoint(rows) && deletedAt <= queriedAt && newId !in rows
    ensures var r := SetQuantity(rows, newId, premium, quantity, t, deletedAt, queriedAt);
      var startsLater := exists i :: RunsOn(rows, deletedAt, queriedAt, i) && Floor(t) < rows[i].since;
      && (r == NotPremium <==> !premium)
      && r != MultipleActive
      && (r == BadRange <==> premium && startsLater)
      && (r == Clashing <==>
            premium && !startsLater && quantity > 0 && !NothingAfter(rows, Floor(t), deletedAt, queriedAt))
      && (r.Set? ==>
            && (forall i: PackageId :: r.ended == Some(i) <==> RunsOn(rows, deletedAt, queriedAt, i))
            && r.created == if quantity > 0 then Some(newId) else None)
  {
    NeverTwoActive(rows, deletedAt, queriedAt);
    EndedIff(rows, deletedAt, queriedAt);
    var e := Ended(rows, deletedAt, queriedAt);
    hide NothingAfter, Clashes, Active, WithoutFuture, Disjoint, RunsOn, Ended, Cut, Grown, Floor;
    if e.Some? {
      CutNeverClashes(rows, Floor(t), deletedAt, queriedAt);
    }
    if quantity > 0 && (e.Some? ==> rows[e.value].since <= Floor(t)) {
      NewClashesIff(rows, newId, quantity, Floor(t), deletedAt, queriedAt);
    }
  }

  /** The package had started when the future ones were deleted, and is not over when the query comes. */
  ghost predicate RunsOn(rows: Rows, deletedAt: Time, queriedAt: Time, i: PackageId) {
    && i in rows && rows[i].since < deletedAt && (rows[i].until.Some? ==> queriedAt <= rows[i].until.value)
  }

  lemma EndedIff(rows: Rows, deletedAt: Time, queriedAt: Time)
    requires Disjoint(rows) && deletedAt <= queriedAt
    ensures var e := Ended(rows, deletedAt, queriedAt);
      && (forall i: PackageId :: e == Some(i) <==> RunsOn(rows, deletedAt, queriedAt, i))
      && (e.Some? ==> e.value in WithoutFuture(rows, deletedAt)
                      && WithoutFuture(rows, deletedAt)[e.value] == rows[e.value])
  {
    var active := Active(WithoutFuture(rows, deletedAt), queriedAt);
    forall i ensures i in active <==> RunsOn(rows, deletedAt, queriedAt, i) {
    }
    NeverTwoActive(rows, deletedAt, queriedAt);
    hide Active, WithoutFuture, RunsOn;
    forall i, k | i in active && k in active ensures i == k {
      OneMember(active, i);
    }
  }

  /** `rows'` are the rows `kept`, with the ended one cut at `since`, and the new one. */
  ghost predicate Becomes(kept: Rows, e: Option<PackageId>, rows': Rows, newId: PackageId, quantity: int, since: Time) {
    && rows'.Keys == kept.Keys + (if quantity > 0 then {newId} else {})
    && (quantity > 0 ==> rows'[newId] == Package(quantity, since, None))
    && (forall k :: k in kept ==> rows'[k] == if e == Some(k) then kept[k].(until := Some(since)) else kept[k])
    && (e.Some? ==> e.value in kept && kept[e.value].since <= since)
  }

  lemma RowsAfter(rows: Rows, newId: PackageId, quantity: int, t: Time, deletedAt: Time, queriedAt: Time)
    requires SetQuantity(rows, newId, true, quantity, t, deletedAt, queriedAt).Set? && newId !in rows
    ensures var rows' := SetQuantity(rows, newId, true, quantity, t, deletedAt, queriedAt).rows;
      Becomes(WithoutFuture(rows, deletedAt), Ended(rows, deletedAt, queriedAt), rows', newId, quantity, Floor(t))
  {
    hide Clashes;
  }

  lemma KeptIsPast(rows: Rows, deletedAt: Time)
    ensures forall k :: k in WithoutFuture(rows, deletedAt) ==> k in rows && rows[k].since < deletedAt
  {
  }

  /** What a successful call keeps; afterwards at most one package is still to start. */
  lemma SetKeepsSound(rows: Rows, newId: PackageId, quantity: int, t: Time, deletedAt: Time, queriedAt: Time)
    requires Sound(rows) && deletedAt <= queriedAt && newId !in rows
    requires SetQuantity(rows, newId, true, quantity, t, deletedAt, queriedAt).Set?
    ensures var rows' := SetQuantity(rows, newId, true, quantity, t, deletedAt, queriedAt).rows;
      && Sound(rows') && FutureOpen(rows', queriedAt) && |Future(rows', queriedAt)| <= 1
      && (WholeStamps(rows) ==> WholeStamps(rows'))
  {
    var kept, e := WithoutFuture(rows, deletedAt), Ended(rows, deletedAt, queriedAt);
    var rows' := SetQuantity(rows, newId, true, quantity, t, deletedAt, queriedAt).rows;
    RowsAfter(rows, newId, quantity, t, deletedAt, queriedAt);
    SetKeepsDisjoint(rows, newId, quantity, t, deletedAt, queriedAt);
    KeptIsPast(rows, deletedAt);
    FloorIsWhole(t);
    BecomesKeeps(kept, e, rows', newId, quantity, Floor(t), queriedAt);
    if WholeStamps(rows) {
      BecomesWhole(kept, e, rows', newId, quantity, Floor(t));
    }
    hide SetQuantity, Ended, Disjoint, Floor, Whole, Becomes;
  }

  lemma BecomesKeeps(kept: Rows, e: Option<PackageId>, rows': Rows, newId: PackageId, quantity: int, since: Time,
                     now: Time)
    requires Becomes(kept, e, rows', newId, quantity, since)
    requires forall k :: k in kept ==>
      kept[k].since < now && (kept[k].until.Some? ==> kept[k].since <= kept[k].until.value)
    ensures forall k :: k in rows' && rows'[k].until.Some? ==> rows'[k].since <= rows'[k].until.value
    ensures FutureOpen(rows', now) && |Future(rows', now)| <= 1
  {
    assert forall k :: k in rows' ==> k in kept || k == newId;
    assert Future(rows', now) <= {newId};
    AtMostOne(Future(rows', now));
  }

  lemma BecomesWhole(kept: Rows, e: Option<PackageId>, rows': Rows, newId: PackageId, quantity: int, since: Time)
    requires Becomes(kept, e, rows', newId, quantity, since) && Whole(since) && WholeStamps(kept)
    ensures WholeStamps(rows')
  {
    hide Whole;
    assert forall k :: k in rows' ==> k in kept || k == newId;
  }

  lemma SetKeepsDisjoint(rows: Rows, newId: PackageId, quantity: int, t: Time, deletedAt: Time, queriedAt: Time)
    requires Disjoint(rows) && deletedAt <= queriedAt && newId !in rows
    requires SetQuantity(rows, newId, true, quantity, t, deletedAt, queriedAt).Set?
    ensures Disjoint(SetQuantity(rows, newId, true, quantity, t, deletedAt, queriedAt).rows)
  {
    var kept := WithoutFuture(rows, deletedAt);
    var e := Ended(rows, deletedAt, queriedAt);
    var cut := Cut(rows, Floor(t), deletedAt, queriedAt);
    assert Disjoint(cut) by {
      hide SetQuantity;
      if e.Some? {
        CutNeverClashes(rows, Floor(t), deletedAt, queriedAt);
      }
      forall i, j | i in cut && j in cut && i != j ensures !Overlap(cut[i], cut[j]) {
        if e == Some(j) {
          assert Overlap(cut[i], cut[j]) == Overlap(cut[j], cut[i]);
        } else if e != Some(i) {
          assert !Overlap(rows[i], rows[j]);
        }
      }
    }
    hide WithoutFuture, Ended, Active;
    var grown := Grown(cut, newId, quantity, Floor(t));
    assert forall i :: i in grown && i != newId ==> i in cut && grown[i] == cut[i];
    assert quantity > 0 ==> !Clashes(grown, newId);
  }

  /** The package in force just before a call whose query comes at `queriedAt` gives this at `x`:
      its quantity, held on unless it ended before the query. */
  function Held(p: Package, queriedAt: Time, x: Time): int {
    if p.until.Some? && p.until.value < queriedAt && p.until.value <= x then 0 else p.quantity
  }

  /** The timeline after a successful call: the history up to the call or to `t`, the quantity in
      force just before the call held until `t`, and the new quantity from `t` on. */
  lemma SetTimeline(rows: Rows, newId: PackageId, quantity: int, t: Time, deletedAt: Time, queriedAt: Time, x: Time)
    requires Sound(rows) && WholeStamps(rows) && deletedAt <= queriedAt && newId !in rows
    requires Floor(t) >= Floor(queriedAt)
    ensures SetQuantity(rows, newId, true, quantity, t, deletedAt, queriedAt).Set?
    ensures var rows' := SetQuantity(rows, newId, true, quantity, t, deletedAt, queriedAt).rows;
      && (x >= Floor(t) ==> QuantityAt(rows', x) == if quantity > 0 then quantity else 0)
      && (x < Floor(t) && x < deletedAt ==> QuantityAt(rows', x) == QuantityAt(rows, x))
      && (deletedAt <= x < Floor(t) ==>
            && (forall i :: WasInForce(rows, deletedAt, i) ==> QuantityAt(rows', x) == Held(rows[i], queriedAt, x))
            && ((forall i :: !WasInForce(rows, deletedAt, i)) ==> QuantityAt(rows', x) == 0))
  {
    WholeSecondsSucceed(rows, newId, quantity, t, deletedAt, queriedAt);
    RowsAfter(rows, newId, quantity, t, deletedAt, queriedAt);
    SetKeepsDisjoint(rows, newId, quantity, t, deletedAt, queriedAt);
    if x >= Floor(t) {
      FromStartOn(rows, newId, quantity, t, deletedAt, queriedAt, x);
    } else if x < deletedAt {
      HistoryStays(rows, newId, quantity, t, deletedAt, queriedAt, x);
    } else {
      HeldUntilStart(rows, newId, quantity, t, deletedAt, queriedAt, x);
    }
  }

  lemma FromStartOn(rows: Rows, newId: PackageId, quantity: int, t: Time, deletedAt: Time, queriedAt: Time, x: Time)
    requires Sound(rows) && WholeStamps(rows) && deletedAt <= queriedAt && newId !in rows
    requires SetQuantity(rows, newId, true, quantity, t, deletedAt, queriedAt).Set?
    requires Floor(t) >= Floor(queriedAt) && x >= Floor(t)
    ensures QuantityAt(SetQuantity(rows, newId, true, quantity, t, deletedAt, queriedAt).rows, x)
         == if quantity > 0 then quantity else 0
  {
    var rows' := SetQuantity(rows, newId, true, quantity, t, deletedAt, queriedAt).rows;
    RowsAfter(rows, newId, quantity, t, deletedAt, queriedAt);
    SetKeepsDisjoint(rows, newId, quantity, t, deletedAt, queriedAt);
    hide SetQuantity;
    if quantity > 0 {
      CoveringQuantity(rows', x, newId);
    } else {
      var e := Ended(rows, deletedAt, queriedAt);
      forall k | k in rows' ensures !Covers(rows'[k], x) {
        if e == None {
          assert k !in Active(WithoutFuture(rows, deletedAt), queriedAt);
          WholeBefore(rows[k].until.value, queriedAt);
        } else if e != Some(k) && !Empty(rows[k]) {
          OthersAreOver(rows, deletedAt, queriedAt, e.value, k);
        }
      }
      NoQuantity(rows', x);
    }
  }

  lemma HistoryStays(rows: Rows, newId: PackageId, quantity: int, t: Time, deletedAt: Time, queriedAt: Time, x: Time)
    requires Disjoint(rows) && deletedAt <= queriedAt && newId !in rows
    requires SetQuantity(rows, newId, true, quantity, t, deletedAt, queriedAt).Set?
    requires x < Floor(t) && x < deletedAt
    ensures QuantityAt(SetQuantity(rows, newId, true, quantity, t, deletedAt, queriedAt).rows, x) == QuantityAt(rows, x)
  {
    var rows' := SetQuantity(rows, newId, true, quantity, t, deletedAt, queriedAt).rows;
    RowsAfter(rows, newId, quantity, t, deletedAt, queriedAt);
    SetKeepsDisjoint(rows, newId, quantity, t, deletedAt, queriedAt);
    hide SetQuantity;
    if i :| CoversAt(rows, x, i) {
      CoveringQuantity(rows, x, i);
      CoveringQuantity(rows', x, i);
    } else {
      forall k | k in rows' ensures !Covers(rows'[k], x) {
        assert k != newId ==> !CoversAt(rows, x, k);
      }
      NoQuantity(rows', x);
    }
  }

  lemma HeldUntilStart(rows: Rows, newId: PackageId, quantity: int, t: Time, deletedAt: Time, queriedAt: Time, x: Time)
    requires Disjoint(rows) && deletedAt <= queriedAt && newId !in rows
    requires SetQuantity(rows, newId, true, quantity, t, deletedAt, queriedAt).Set?
    requires deletedAt <= x < Floor(t)
    ensures var rows' := SetQuantity(rows, newId, true, quantity, t, deletedAt, queriedAt).rows;
      && (forall i :: WasInForce(rows, deletedAt, i) ==> QuantityAt(rows', x) == Held(rows[i], queriedAt, x))
      && ((forall i :: !WasInForce(rows, deletedAt, i)) ==> QuantityAt(rows', x) == 0)
  {
    RowsAfter(rows, newId, quantity, t, deletedAt, queriedAt);
    SetKeepsDisjoint(rows, newId, quantity, t, deletedAt, queriedAt);
    var rows' := SetQuantity(rows, newId, true, quantity, t, deletedAt, queriedAt).rows;
    hide SetQuantity, Disjoint, Becomes, WasInForce, Held;
    if Ended(rows, deletedAt, queriedAt).Some? {
      HeldByEnded(rows, rows', newId, quantity, Floor(t), deletedAt, queriedAt, x);
    } else {
      HeldToItsEnd(rows, rows', newId, quantity, Floor(t), deletedAt, queriedAt, x);
    }
  }

  lemma HeldByEnded(rows: Rows, rows': Rows, newId: PackageId, quantity: int, since: Time, deletedAt: Time,
                    queriedAt: Time, x: Time)
    requires Disjoint(rows) && Disjoint(rows') && deletedAt <= queriedAt && deletedAt <= x < since
    requires Ended(rows, deletedAt, queriedAt).Some?
    requires Becomes(WithoutFuture(rows, deletedAt), Ended(rows, deletedAt, queriedAt), rows', newId, quantity, since)
    ensures forall i :: WasInForce(rows, deletedAt, i) ==> QuantityAt(rows', x) == Held(rows[i], queriedAt, x)
    ensures exists i :: WasInForce(rows, deletedAt, i)
  {
    var e := Ended(rows, deletedAt, queriedAt).value;
    ActiveWasInForce(rows, deletedAt, queriedAt, e);
    assert CoversAt(rows', x, e) && rows'[e].quantity == rows[e].quantity;
    assert Held(rows[e], queriedAt, x) == rows[e].quantity;
    hide WithoutFuture, Active, Becomes, Ended, Held, QuantityAt;
    CoveringQuantity(rows', x, e);
    forall i | WasInForce(rows, deletedAt, i) ensures i == e {
      SameIfShared(rows, i, e, deletedAt - 1);
    }
  }

  lemma HeldToItsEnd(rows: Rows, rows': Rows, newId: PackageId, quantity: int, since: Time, deletedAt: Time,
                     queriedAt: Time, x: Time)
    requires Disjoint(rows) && Disjoint(rows') && deletedAt <= queriedAt && deletedAt <= x < since
    requires Ended(rows, deletedAt, queriedAt).None?
    requires Becomes(WithoutFuture(rows, deletedAt), None, rows', newId, quantity, since)
    ensures forall i :: WasInForce(rows, deletedAt, i) ==> QuantityAt(rows', x) == Held(rows[i], queriedAt, x)
    ensures (forall i :: !WasInForce(rows, deletedAt, i)) ==> QuantityAt(rows', x) == 0
  {
    forall k | k in rows' && Covers(rows'[k], x) ensures WasInForce(rows, deletedAt, k) && rows'[k] == rows[k] {
      assert k != newId || quantity <= 0;
    }
    forall i | WasInForce(rows, deletedAt, i)
      ensures i in rows' && rows'[i] == rows[i] && rows[i].until.Some? && rows[i].until.value < queriedAt
    {
      assert i !in Active(WithoutFuture(rows, deletedAt), queriedAt);
    }
    hide WithoutFuture, Active, Becomes, Ended, QuantityAt, Disjoint;
    forall i | WasInForce(rows, deletedAt, i) ensures QuantityAt(rows', x) == Held(rows[i], queriedAt, x) {
      if x < rows[i].until.value {
        CoveringQuantity(rows', x, i);
      } else {
        forall k | k in rows' ensures !Covers(rows'[k], x) {
          if Covers(rows'[k], x) {
            SameIfShared(rows, i, k, deletedAt - 1);
          }
        }
        NoQuantity(rows', x);
      }
    }
    if forall i :: !WasInForce(rows, deletedAt, i) {
      NoQuantity(rows', x);
    }
  }

  /** At one instant "now": the quantity in force at "now" is held on exactly if it is the one in
      force just before.  It is, unless a package starts or ends at "now". */
  lemma InForceIsHeldIff(rows: Rows, newId: PackageId, quantity: int, t: Time, now: Time)
    requires Sound(rows) && WholeStamps(rows) && newId !in rows && Floor(t) > now
    ensures SetQuantity(rows, newId, true, quantity, t, now, now).Set?
    ensures var rows' := SetQuantity(rows, newId, true, quantity, t, now, now).rows;
      QuantityAt(rows', now) == QuantityAt(rows, now) <==> QuantityAt(rows, now - 1) == QuantityAt(rows, now)
    ensures (forall i :: i in rows ==> rows[i].since != now && rows[i].until != Some(now)) ==>
      QuantityAt(rows, now - 1) == QuantityAt(rows, now)
  {
    SetTimeline(rows, newId, quantity, t, now, now, now);
    hide SetQuantity;
    JustBefore(rows, now);
  }

  lemma JustBefore(rows: Rows, now: Time)
    requires Disjoint(rows)
    ensures forall i :: WasInForce(rows, now, i) ==> QuantityAt(rows, now - 1) == rows[i].quantity
    ensures (forall i :: !WasInForce(rows, now, i)) ==> QuantityAt(rows, now - 1) == 0
    ensures (forall i :: i in rows ==> rows[i].since != now && rows[i].until != Some(now)) ==>
      QuantityAt(rows, now - 1) == QuantityAt(rows, now)
  {
    forall i | WasInForce(rows, now, i) ensures QuantityAt(rows, now - 1) == rows[i].quantity {
      CoveringQuantity(rows, now - 1, i);
    }
    if forall i :: !WasInForce(rows, now, i) {
      forall i | i in rows ensures !Covers(rows[i], now - 1) {
        assert !WasInForce(rows, now, i);
      }
      NoQuantity(rows, now - 1);
    }
    if forall i :: i in rows ==> rows[i].since != now && rows[i].until != Some(now) {
      forall i | i in rows ensures Covers(rows[i], now - 1) <==> Covers(rows[i], now) {
      }
      if k :| CoversAt(rows, now, k) {
        CoveringQuantity(rows, now, k);
        CoveringQuantity(rows, now - 1, k);
      } else {
        forall i | i in rows ensures !Covers(rows[i], now - 1) {
          assert !CoversAt(rows, now, i);
        }
        NoQuantity(rows, now - 1);
      }
    }
  }

  /** The closed comparison at an exact end instant: a package that is over at "now" is taken for
      the active one and runs on until the new one starts. */
  lemma EndInstantRevivesPackage()
    ensures var rows: Rows := map[0 := Package(2, 0, Some(5 * SECOND))];
      var now, t := 5 * SECOND, 10 * SECOND;
      && Sound(rows) && WholeStamps(rows) && QuantityAt(rows, now) == 0
      && var r := SetQuantity(rows, 1, true, 1, t, now, now);
         r.Set? && QuantityAt(r.rows, now) == 2
  {
    var rows: Rows := map[0 := Package(2, 0, Some(5 * SECOND))];
    var now, t := 5 * SECOND, 10 * SECOND;
    assert Floor(t) == t && Floor(now) == now;
    NoQuantity(rows, now);
    SetTimeline(rows, 1, 1, t, now, now, now);
    assert WasInForce(rows, now, 0);
  }

  // ---- runs of calls ----

  datatype Call = Call(premium: bool, quantity: int, t: Time, deletedAt: Time, queriedAt: Time)

  /** The clock never runs backwards. */
  ghost predicate Ordered(calls: seq<Call>) {
    && (forall i :: 0 <= i < |calls| ==> calls[i].deletedAt <= calls[i].queriedAt)
    && (forall i, j :: 0 <= i < j < |calls| ==> calls[i].queriedAt <= calls[j].deletedAt)
  }

  datatype Stored = Stored(rows: Rows, nextId: PackageId)

  /** The stored packages after these calls; a call that fails changes nothing. */
  ghost function After(calls: seq<Call>): Stored {
    if calls == [] then Stored(map[], 0)
    else
      var s, c := After(calls[..|calls| - 1]), calls[|calls| - 1];
      var r := SetQuantity(s.rows, s.nextId, c.premium, c.quantity, c.t, c.deletedAt, c.queriedAt);
      if r.Set? then Stored(r.rows, if c.quantity > 0 then s.nextId + 1 else s.nextId) else s
  }

  ghost predicate Inv(s: Stored, now: Time) {
    && Sound(s.rows) && WholeStamps(s.rows) && FutureOpen(s.rows, now)
    && StartsInOrder(s.rows) && EmptyArePast(s.rows, now)
    && forall i :: i in s.rows ==> i < s.nextId
  }

  lemma InvLater(s: Stored, now: Time, later: Time)
    requires Inv(s, now) && now <= later
    ensures Inv(s, later)
  {
  }

  /** The new package starts after all that are not empty. */
  lemma SetKeepsOrder(rows: Rows, newId: PackageId, quantity: int, t: Time, deletedAt: Time, queriedAt: Time)
    requires Sound(rows) && StartsInOrder(rows) && deletedAt <= queriedAt && forall i :: i in rows ==> i < newId
    requires SetQuantity(rows, newId, true, quantity, t, deletedAt, queriedAt).Set?
    ensures var rows' := SetQuantity(rows, newId, true, quantity, t, deletedAt, queriedAt).rows;
      StartsInOrder(rows') && (EmptyArePast(rows, deletedAt) ==> EmptyArePast(rows', queriedAt))
  {
    var kept, e := WithoutFuture(rows, deletedAt), Ended(rows, deletedAt, queriedAt);
    RowsAfter(rows, newId, quantity, t, deletedAt, queriedAt);
    SucceedsIff(rows, newId, quantity, t, deletedAt, queriedAt);
    KeptIsPast(rows, deletedAt);
    forall k | k in kept && !Empty(kept[k]) && quantity > 0 ensures kept[k].since <= Floor(t) {
      if e.Some? && e.value != k {
        OthersAreOver(rows, deletedAt, queriedAt, e.value, k);
      }
    }
    if e.Some? {
      ActiveWasInForce(rows, deletedAt, queriedAt, e.value);
    }
    var rows' := SetQuantity(rows, newId, true, quantity, t, deletedAt, queriedAt).rows;
    hide SetQuantity, Ended, Disjoint, Floor;
    BecomesOrdered(kept, e, rows', newId, quantity, Floor(t), deletedAt, queriedAt);
  }

  lemma BecomesOrdered(kept: Rows, e: Option<PackageId>, rows': Rows, newId: PackageId, quantity: int, since: Time,
                       deletedAt: Time, queriedAt: Time)
    requires Becomes(kept, e, rows', newId, quantity, since) && deletedAt <= queriedAt
    requires StartsInOrder(kept) && forall k :: k in kept ==> k < newId && kept[k].since < deletedAt
    requires e.Some? ==> !Empty(kept[e.value])
    requires forall k :: k in kept && !Empty(kept[k]) && quantity > 0 ==> kept[k].since <= since
    ensures StartsInOrder(rows') && EmptyArePast(rows', queriedAt)
  {
    forall k | k in rows' && !Empty(rows'[k])
      ensures k == newId || (k in kept && !Empty(kept[k]) && rows'[k].since == kept[k].since)
    {
    }
  }

  lemma CallKeepsInv(s: Stored, c: Call, now: Time)
    requires Inv(s, now) && now <= c.deletedAt <= c.queriedAt
    ensures var r := SetQuantity(s.rows, s.nextId, c.premium, c.quantity, c.t, c.deletedAt, c.queriedAt);
      r.Set? ==> Inv(Stored(r.rows, if c.quantity > 0 then s.nextId + 1 else s.nextId), c.queriedAt)
  {
    var r := SetQuantity(s.rows, s.nextId, c.premium, c.quantity, c.t, c.deletedAt, c.queriedAt);
    if r.Set? {
      assert c.premium;
      SetKeepsSound(s.rows, s.nextId, c.quantity, c.t, c.deletedAt, c.queriedAt);
      SetKeepsOrder(s.rows, s.nextId, c.quantity, c.t, c.deletedAt, c.queriedAt);
      RowsAfter(s.rows, s.nextId, c.quantity, c.t, c.deletedAt, c.queriedAt);
      hide SetQuantity, Sound, WholeStamps, FutureOpen, Ended, StartsInOrder;
    }
  }

  /** Every reachable state is sound, and its packages that are still to start are open-ended. */
  lemma {:induction false} RunsKeepInv(calls: seq<Call>, now: Time)
    requires Ordered(calls) && (calls != [] ==> calls[|calls| - 1].queriedAt <= now)
    ensures Inv(After(calls), now)
  {
    if calls != [] {
      var before, c := calls[..|calls| - 1], calls[|calls| - 1];
      RunsKeepInv(before, c.deletedAt);
      hide SetQuantity, Inv;
      CallKeepsInv(After(before), c, c.deletedAt);
      InvLater(After(before), c.deletedAt, now);
      InvLater(After(calls), c.queriedAt, now);
    }
  }

  /** From some instant on the timeline shows this quantity. */
  ghost predicate EventuallyIs(rows: Rows, quantity: int) {
    exists h :: IsFrom(rows, h, quantity)
  }

  ghost predicate IsFrom(rows: Rows, h: Time, quantity: int) {
    forall x :: x >= h ==> QuantityAt(rows, x) == quantity
  }

  lemma {:induction false} Horizon(rows: Rows) returns (h: Time)
    ensures forall i :: i in rows ==> rows[i].since <= h && (rows[i].until.Some? ==> rows[i].until.value <= h)
    decreases |rows|
  {
    if i :| i in rows {
      h := Horizon(rows - {i});
      assert forall k :: k in rows && k != i ==> k in rows - {i};
      var p := rows[i];
      h := if h < p.since then p.since else h;
      h := if p.until.Some? && h < p.until.value then p.until.value else h;
    } else {
      h := 0;
    }
  }

  lemma OpenPackageIsEventual(rows: Rows, i: PackageId)
    requires Disjoint(rows) && i in rows && rows[i].until.None?
    ensures EventuallyIs(rows, rows[i].quantity)
  {
    forall x | x >= rows[i].since ensures QuantityAt(rows, x) == rows[i].quantity {
      CoveringQuantity(rows, x, i);
    }
    assert IsFrom(rows, rows[i].since, rows[i].quantity);
  }

  lemma NoOpenPackageIsZero(rows: Rows)
    requires forall i :: i in rows ==> rows[i].until.Some?
    ensures EventuallyIs(rows, 0)
  {
    var h := Horizon(rows);
    forall x | x >= h ensures QuantityAt(rows, x) == 0 {
      NoQuantity(rows, x);
    }
    assert IsFrom(rows, h, 0);
  }

  lemma {:induction false} LowestExists(s: set<PackageId>) returns (i: PackageId)
    requires s != {}
    ensures i in s && forall k :: k in s ==> i <= k
    decreases s
  {
    var start :| start in s;
    var below := set j | j in s && j < start;
    i := start;
    if below != {} {
      assert start !in below;
      i := LowestExists(below);
    }
    forall k | k in s ensures i <= k {
      assert k in below || start <= k;
    }
  }

  lemma FirstActiveExists(rows: Rows, now: Time)
    requires Active(rows, now) != {}
    ensures FirstActive(rows, now).Some?
  {
    var i := LowestExists(Active(rows, now));
    assert Lowest(rows, now, i);
  }

  lemma TwoOpenAreOne(rows: Rows, i: PackageId, k: PackageId)
    requires Disjoint(rows) && i in rows && k in rows && rows[i].until.None? && rows[k].until.None?
    ensures i == k
  {
    assert Overlap(rows[i], rows[k]);
  }

  /** An open-ended package that has started is the only active one. */
  lemma OpenIsOnlyActive(rows: Rows, now: Time, i: PackageId)
    requires Sound(rows) && FutureOpen(rows, now) && i in rows && rows[i].until.None? && rows[i].since < now
    ensures FirstActive(rows, now) == Some(i)
  {
    assert i in Active(rows, now);
    FirstActiveExists(rows, now);
    var k := FirstActive(rows, now).value;
    if k != i {
      TwoOpenAreOne(rows, i, if rows[k].until.None? then k else i);
      assert Contains(Span(rows[i]), now - 1) && Contains(Span(rows[k]), now - 1);
      OverlappingIffSharedInstant(Span(rows[i]), Span(rows[k]));
    }
  }

  /** In every reachable state and at every instant, the future quantity is what the timeline shows in
      the end, if the plan is premium or the timeline shows none. */
  lemma FutureQuantityIsEventual(calls: seq<Call>, premium: bool, now: Time)
    requires Ordered(calls) && (calls != [] ==> calls[|calls| - 1].queriedAt <= now)
    ensures var rows := After(calls).rows;
      EventuallyIs(rows, FutureQuantity(rows, premium, now)) <==> premium || EventuallyIs(rows, 0)
  {
    RunsKeepInv(calls, now);
    FutureIsEventual(After(calls).rows, now);
  }

  lemma FutureIsEventual(rows: Rows, now: Time)
    requires Sound(rows) && FutureOpen(rows, now)
    ensures EventuallyIs(rows, FutureQuantity(rows, true, now))
  {
    hide EventuallyIs;
    if i :| i in rows && rows[i].until.None? {
      OpenPackageIsEventual(rows, i);
      if rows[i].since >= now {
        OnlyFuture(rows, now, i);
      } else {
        OpenIsOnlyActive(rows, now, i);
        forall k | k in Future(rows, now) ensures false {
          TwoOpenAreOne(rows, i, k);
        }
      }
    } else {
      NoOpenPackageIsZero(rows);
    }
  }

  lemma OnlyFuture(rows: Rows, now: Time, i: PackageId)
    requires Sound(rows) && FutureOpen(rows, now) && i in Future(rows, now)
    ensures FirstFuture(rows, now) == Some(i)
  {
    forall k | k in Future(rows, now) ensures k == i {
      TwoOpenAreOne(rows, i, k);
    }
    assert Earliest(rows, now, i);
  }

  ghost predicate EndsAt(rows: Rows, now: Time, i: PackageId) {
    i in rows && rows[i].until == Some(now)
  }

  /** In every reachable state the changed quantity is the future one less the active one.  For a premium
      plan the active one is the quantity in force; but at an instant at which a package ends it is the
      quantity of that package, which was in force just before. */
  lemma ChangedQuantityIsDifference(calls: seq<Call>, premium: bool, now: Time)
    requires Ordered(calls) && (calls != [] ==> calls[|calls| - 1].queriedAt <= now)
    ensures var rows := After(calls).rows;
      && ChangedQuantity(rows, premium, now) == FutureQuantity(rows, premium, now) - ActiveQuantity(rows, premium, now)
      && ActiveQuantity(rows, premium, now)
         == (if !premium then 0
             else if exists i :: EndsAt(rows, now, i) then QuantityAt(rows, now - 1)
             else QuantityAt(rows, now))
  {
    RunsKeepInv(calls, now);
    var s := After(calls);
    hide After;
    if premium {
      if i :| EndsAt(s.rows, now, i) {
        EndingIsActive(s, now, i);
        CoveringQuantity(s.rows, now - 1, i);
      } else {
        ActiveIsInForce(s.rows, now);
      }
    }
    if FirstFuture(s.rows, now).None? && FirstActive(s.rows, now).None? {
      assert ActiveQuantity(s.rows, premium, now) == 0 == FutureQuantity(s.rows, premium, now);
    }
  }

  /** Of a package that ends now and one that starts now, the first is the one found. */
  lemma EndingIsActive(s: Stored, now: Time, i: PackageId)
    requires Inv(s, now) && EndsAt(s.rows, now, i)
    ensures FirstActive(s.rows, now) == Some(i) && CoversAt(s.rows, now - 1, i)
  {
    assert !Empty(s.rows[i]);
    forall k | k in Active(s.rows, now) ensures i <= k {
      if k != i {
        assert !Overlap(s.rows[k], s.rows[i]) && !Empty(s.rows[k]);
      }
    }
    assert Lowest(s.rows, now, i);
  }

  lemma ActiveIsInForce(rows: Rows, now: Time)
    requires Disjoint(rows) && forall i :: !EndsAt(rows, now, i)
    ensures ActiveQuantity(rows, true, now) == QuantityAt(rows, now)
  {
    if FirstActive(rows, now).Some? {
      assert !EndsAt(rows, now, FirstActive(rows, now).value);
      CoveringQuantity(rows, now, FirstActive(rows, now).value);
    } else {
      if Active(rows, now) != {} {
        FirstActiveExists(rows, now);
      }
      forall i | i in rows ensures !Covers(rows[i], now) {
        assert i !in Active(rows, now);
      }
      NoQuantity(rows, now);
    }
  }

  lemma OneCall()
    ensures After([Call(true, 2, 0, 0, 0)]) == Stored(map[0 := Package(2, 0, None)], 1)
  {
    var first := Call(true, 2, 0, 0, 0);
    assert [first][..0] == [];
    WholeSecondsSucceed(map[], 0, 2, 0, 0, 0);
    RowsAfter(map[], 0, 2, 0, 0, 0);
    hide SetQuantity;
  }

  lemma SecondCall()
    ensures var one := map[0 := Package(2, 0, None)];
      var r := SetQuantity(one, 1, true, 3, 5 * SECOND, 1, 1);
      r.Set? && r.rows == map[0 := Package(2, 0, Some(5 * SECOND)), 1 := Package(3, 5 * SECOND, None)]
  {
    var one := map[0 := Package(2, 0, None)];
    WholeSecondsSucceed(one, 1, 3, 5 * SECOND, 1, 1);
    RowsAfter(one, 1, 3, 5 * SECOND, 1, 1);
    assert 0 in Active(WithoutFuture(one, 1), 1);
    hide SetQuantity;
  }

  /** Two packages of 2, and then of 3 from second 5 on. */
  lemma TwoCalls() returns (calls: seq<Call>)
    ensures Ordered(calls) && |calls| == 2 && calls[1].queriedAt == 1
    ensures After(calls).rows == map[0 := Package(2, 0, Some(5 * SECOND)), 1 := Package(3, 5 * SECOND, None)]
  {
    hide SetQuantity;
    calls := [Call(true, 2, 0, 0, 0), Call(true, 3, 5 * SECOND, 1, 1)];
    assert calls[..1] == [Call(true, 2, 0, 0, 0)];
    OneCall();
    SecondCall();
  }

  /** At an exact end instant the package that is over still counts as the active one. */
  lemma EndInstantShowsOldPackage() returns (calls: seq<Call>)
    ensures Ordered(calls)
    ensures var rows, now := After(calls).rows, 5 * SECOND;
      && QuantityAt(rows, now) == 3 && FutureQuantity(rows, true, now) == 3 && ActiveQuantity(rows, true, now) == 2
      && ChangedQuantity(rows, true, now) == 1
  {
    calls := TwoCalls();
    ShowsOldPackage(calls, After(calls));
  }

  lemma ShowsOldPackage(calls: seq<Call>, s: Stored)
    requires Ordered(calls) && |calls| == 2 && calls[1].queriedAt == 1 && s == After(calls)
    requires s.rows == map[0 := Package(2, 0, Some(5 * SECOND)), 1 := Package(3, 5 * SECOND, None)]
    ensures var now := 5 * SECOND;
      && QuantityAt(s.rows, now) == 3 && FutureQuantity(s.rows, true, now) == 3
      && ActiveQuantity(s.rows, true, now) == 2 && ChangedQuantity(s.rows, true, now) == 1
  {
    var now := 5 * SECOND;
    RunsKeepInv(calls, now);
    hide After;
    EndingIsActive(s, now, 0);
    OnlyFuture(s.rows, now, 1);
    CoveringQuantity(s.rows, now, 1);
    hide Inv, QuantityAt, Active, Future;
  }
}

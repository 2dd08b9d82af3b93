/** Which rows the calls on subscriptions leave, and why a row is refused. */
module SubscriptionRows {
  import opened Prelude
  import opened Ranges
  import opened Subscriptions

  // ---- activation and update ----

  /** The subscription is running at `now`, both ends of its range included. */
  predicate RunsAt(s: Sub, now: Time) {
    s.since.Some? && s.since.value <= now && (s.until.Some? ==> now <= s.until.value)
  }

  /** A successful activation from `t` on: every other subscription that is running is cancelled and ends
      at `t`; the draft starts at `t`, with the status and the end that are given or else its own; no
      other row changes. */
  lemma ActivatedRows(rows: Rows, id: SubId, u: Update, now: Time, t: Time)
    requires id in rows && rows[id].since.None? && u.since == Some(Some(t)) && Updated(rows, id, u, now).Stored?
    ensures var rows' := Updated(rows, id, u, now).rows;
      && rows'.Keys == rows.Keys
      && (forall k :: k in rows && k != id ==>
            rows'[k] == if RunsAt(rows[k], now) then Sub("inactive_cancelled", rows[k].since, Some(t)) else rows[k])
      && rows'[id].since == Some(t)
      && rows'[id].status == (if u.status.Some? then u.status.value else rows[id].status)
      && rows'[id].until == (if u.until.Some? then u.until.value else rows[id].until)
  {
    hide CleanRejects, Clashes;
  }

  /** Every other successful update changes the given fields of its row alone. */
  lemma UpdatedRows(rows: Rows, id: SubId, u: Update, now: Time)
    requires id in rows && Updated(rows, id, u, now).Stored?
    requires rows[id].since.Some? || u.since.None? || u.since.value.None?
    ensures var rows' := Updated(rows, id, u, now).rows;
      && rows'.Keys == rows.Keys && (forall k :: k in rows && k != id ==> rows'[k] == rows[k])
      && rows'[id].status == (if u.status.Some? then u.status.value else rows[id].status)
      && rows'[id].since == (if u.since.Some? then u.since.value else rows[id].since)
      && rows'[id].until == (if u.until.Some? then u.until.value else rows[id].until)
  {
    hide CleanRejects, Clashes;
  }

  /** An update with no field changes nothing; any other of a row that does not exist is refused. */
  lemma NoSuchRowIff(rows: Rows, id: SubId, u: Update, now: Time)
    ensures u.status.None? && u.since.None? && u.until.None? ==> Updated(rows, id, u, now) == Stored(rows)
    ensures Updated(rows, id, u, now) == NoSuchRow <==>
      id !in rows && (u.status.Some? || u.since.Some? || u.until.Some?)
  {
  }

  // ---- creation ----

  /** A trial runs for the period from the whole second on, with its status, and what follows it runs from
      its end on without one, with the other status; a stored trial stays if its follow-up is refused. */
  lemma TrialRows(rows: Rows, newId: SubId, since: Time, period: Time, trialStatus: string, status: string)
    requires newId !in rows && newId + 1 !in rows
    ensures var (r, rows') := TrialPair(rows, newId, since, period, trialStatus, status);
      var end := Floor(since) + period;
      var trial, regular := Sub(trialStatus, Some(Floor(since)), Some(end)), Sub(status, Some(end), None);
      && (r.Stored? ==> rows' == rows[newId := trial][newId + 1 := regular])
      && (!r.Stored? ==> rows' == rows || rows' == rows[newId := trial])
  {
    hide CleanRejects, Clashes, Floor;
  }

  lemma SingleRows(rows: Rows, newId: SubId, since: Option<Time>, status: string)
    requires newId !in rows && Single(rows, newId, since, status).Stored?
    ensures var rows' := Single(rows, newId, since, status).rows;
      && rows'.Keys == rows.Keys + {newId} && (forall k :: k in rows ==> rows'[k] == rows[k])
      && rows'[newId].status == status && rows'[newId].until == None
      && rows'[newId].since == (if since.Some? then Some(Floor(since.value)) else None)
  {
    hide CleanRejects, Clashes, Floor;
  }

  // ---- refusals ----

  /** A row is refused by `clean()` exactly if another range goes on on both sides of its start; else by
      the database exactly if it would end before it starts, or shares an instant with another one. */
  lemma RefusedIff(rows: Rows, id: SubId, s: Sub)
    ensures var r := Saved(rows, id, s);
      var unclean := s.since.Some? && exists k ::
        k in rows && k != id && rows[k].since.Some? && rows[k].since.value < s.since.value
        && (rows[k].until.Some? ==> s.since.value < rows[k].until.value);
      var reversed := s.since.Some? && s.until.Some? && s.until.value < s.since.value;
      && (r == Unclean <==> unclean)
      && (r == BadRange <==> !unclean && reversed)
      && (r == Excluded <==>
            !unclean && !reversed && exists k, x :: k in rows && k != id && Covers(s, x) && Covers(rows[k], x))
      && (r.Stored? || r == Unclean || r == BadRange || r == Excluded)
      && (r.Stored? ==> r.rows == rows[id := s])
  {
    forall k | k in rows
      ensures Clash(s, rows[k]) <==> exists x :: Covers(s, x) && Covers(rows[k], x)
      ensures s.since.Some? ==> (StrictlyAround(rows[k], s.since.value) <==>
        rows[k].since.Some? && rows[k].since.value < s.since.value
        && (rows[k].until.Some? ==> s.since.value < rows[k].until.value))
    {
      ClashIffSharedInstant(s, rows[k]);
    }
    hide Clash, Covers, StrictlyAround;
  }

  /** Every other subscription that is running, cancelled and ended at `t`. */
  function CutRows(rows: Rows, id: SubId, now: Time, t: Time): Rows {
    map k | k in rows ::
      if k != id && RunsAt(rows[k], now) then Sub("inactive_cancelled", rows[k].since, Some(t)) else rows[k]
  }

  /** Why an activation is refused, from whatever `t` on: a running subscription would end before it starts;
      else one that was ended shares an instant with another; else the draft itself is refused. */
  lemma ActivationRefusedIff(rows: Rows, id: SubId, u: Update, now: Time, t: Time)
    requires id in rows && rows[id].since.None? && u.since == Some(Some(t))
    ensures var r, cut := Updated(rows, id, u, now), CutRows(rows, id, now, t);
      var reversed := exists k :: k in rows && k != id && RunsAt(rows[k], now) && rows[k].since.value > t;
      var shared := exists k, j, x :: k in rows && k != id && RunsAt(rows[k], now) && j in rows && j != k
                                      && Covers(cut[k], x) && Covers(cut[j], x);
      && (reversed ==> r == BadRange)
      && (!reversed && shared ==> r == Excluded)
      && (!reversed && !shared ==> r == Saved(cut, id, With(rows[id], u)))
  {
    var cut, ids := CutRows(rows, id, now, t), OtherCurrent(rows, id, now);
    assert forall k :: k in ids <==> k in rows && k != id && RunsAt(rows[k], now);
    assert Cancelled(rows, ids, t) == cut;
    forall k | k in ids ensures cut[k].since.Some? && (Proper(SpanOf(cut[k])) <==> rows[k].since.value <= t) {
    }
    forall k | k in ids
      ensures Clashes(cut, k, cut[k]) <==> exists j, x :: j in rows && j != k && Covers(cut[k], x) && Covers(cut[j], x)
    {
      ClashesIff(cut, k);
    }
    hide Cancelled, OtherCurrent, RunsAt, Clashes, Covers, CutRows, Proper, Saved;
  }

  lemma ClashesIff(rows: Rows, k: SubId)
    requires k in rows
    ensures Clashes(rows, k, rows[k]) <==>
      exists j, x :: j in rows && j != k && Covers(rows[k], x) && Covers(rows[j], x)
  {
    forall j | j in rows ensures Clash(rows[k], rows[j]) <==> exists x :: Covers(rows[k], x) && Covers(rows[j], x) {
      ClashIffSharedInstant(rows[k], rows[j]);
    }
    hide Clash, Covers;
  }
}

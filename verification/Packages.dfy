/**
 Storage packages of one subscription: time ranges kept disjoint by a database constraint and edited
 relative to "now".  The clock is read again by every query.
 */
module Packages {
  import opened Prelude
  import opened Ranges

  type PackageId = nat

  datatype Package = Package(quantity: int, since: Time, until: Option<Time>)

  type Rows = map<PackageId, Package>

  // ---- ranges ----

  function Span(p: Package): Range {
    Range(p.since, p.until)
  }

  predicate Covers(p: Package, x: Time) {
    Contains(Span(p), x)
  }

  predicate Empty(p: Package) {
    IsEmpty(Span(p))
  }

  predicate Overlap(p: Package, q: Package) {
    Overlapping(Span(p), Span(q))
  }

  /** What the exclusion constraint accepts. */
  ghost predicate Disjoint(rows: Rows) {
    forall i, j :: i in rows && j in rows && i != j ==> !Overlap(rows[i], rows[j])
  }

  ghost predicate CoversAt(rows: Rows, x: Time, i: PackageId) {
    i in rows && Covers(rows[i], x)
  }

  /** The quantity in force at `x`. */
  ghost function QuantityAt(rows: Rows, x: Time): int {
    if exists i :: CoversAt(rows, x, i) then var i :| CoversAt(rows, x, i); rows[i].quantity else 0
  }

  lemma CoveringQuantity(rows: Rows, x: Time, i: PackageId)
    requires Disjoint(rows) && CoversAt(rows, x, i)
    ensures QuantityAt(rows, x) == rows[i].quantity
  {
    assert exists k :: CoversAt(rows, x, k) && QuantityAt(rows, x) == rows[k].quantity;
    var k :| CoversAt(rows, x, k) && QuantityAt(rows, x) == rows[k].quantity;
    assert CoversAt(rows, x, k);
    OverlappingIffSharedInstant(Span(rows[i]), Span(rows[k]));
    assert Contains(Span(rows[i]), x) && Contains(Span(rows[k]), x);
  }

  lemma NoQuantity(rows: Rows, x: Time)
    requires forall i :: i in rows ==> !Covers(rows[i], x)
    ensures QuantityAt(rows, x) == 0
  {
  }

  // ---- the queries ----

  predicate IsFuture(p: Package, now: Time) {
    p.since >= now
  }

  /** The comparison with `until` is closed. */
  predicate IsActive(p: Package, now: Time) {
    p.since <= now && (p.until.None? || p.until.value >= now)
  }

  function Active(rows: Rows, now: Time): set<PackageId> {
    set i | i in rows && IsActive(rows[i], now)
  }

  function Future(rows: Rows, now: Time): set<PackageId> {
    set i | i in rows && IsFuture(rows[i], now)
  }

  predicate Lowest(rows: Rows, now: Time, i: PackageId) {
    i in Active(rows, now) && forall k :: k in Active(rows, now) ==> i <= k
  }

  predicate Earliest(rows: Rows, now: Time, i: PackageId) {
    i in Future(rows, now) && forall k :: k in Future(rows, now) ==> rows[i].since <= rows[k].since
  }

  /** `.first()` of an unordered query: the lowest primary key. */
  ghost function FirstActive(rows: Rows, now: Time): (r: Option<PackageId>)
    ensures r.Some? ==> r.value in rows && Lowest(rows, now, r.value)
  {
    if exists i :: Lowest(rows, now, i) then var i :| Lowest(rows, now, i); Some(i) else None
  }

  /** `.first()` ordered by `active_since`. */
  ghost function FirstFuture(rows: Rows, now: Time): (r: Option<PackageId>)
    ensures r.Some? ==> r.value in rows && Earliest(rows, now, r.value)
  {
    if exists i :: Earliest(rows, now, i) then var i :| Earliest(rows, now, i); Some(i) else None
  }

  /** The queries see the packages of a premium plan only. */
  function Seen(rows: Rows, premium: bool): Rows {
    if premium then rows else map[]
  }

  ghost function ActiveQuantity(rows: Rows, premium: bool, now: Time): int {
    var active := FirstActive(Seen(rows, premium), now);
    if active.Some? then rows[active.value].quantity else 0
  }

  ghost function FutureQuantity(rows: Rows, premium: bool, now: Time): int {
    var future, active := FirstFuture(Seen(rows, premium), now), FirstActive(Seen(rows, premium), now);
    if future.Some? then rows[future.value].quantity
    else if active.Some? && rows[active.value].until.None? then rows[active.value].quantity
    else 0
  }

  /** `future_storage_package_changed_quantity`. */
  ghost function ChangedQuantity(rows: Rows, premium: bool, now: Time): int {
    var future, active := FirstFuture(Seen(rows, premium), now), FirstActive(Seen(rows, premium), now);
    if future.Some? || (active.Some? && rows[active.value].until.Some?)
    then FutureQuantity(rows, premium, now) - ActiveQuantity(rows, premium, now)
    else 0
  }

  // ---- set_package_quantity ----

  datatype Outcome =
    | Set(rows: Rows, ended: Option<PackageId>, created: Option<PackageId>)
    | NotPremium
    | MultipleActive
    | BadRange      // the old package would end before it starts
    | Clashing      // the exclusion constraint rejects a row

  function WithoutFuture(rows: Rows, now: Time): Rows {
    map i | i in rows && !IsFuture(rows[i], now) :: rows[i]
  }

  /** Row `i` overlaps another row. */
  ghost predicate Clashes(rows: Rows, i: PackageId)
    requires i in rows
  {
    exists k :: k in rows && k != i && Overlap(rows[i], rows[k])
  }

  /** A package that is active once the future ones are deleted. */
  ghost function Ended(rows: Rows, deletedAt: Time, queriedAt: Time): (r: Option<PackageId>)
    ensures r.Some? ==> r.value in Active(WithoutFuture(rows, deletedAt), queriedAt)
    ensures r.None? ==> Active(WithoutFuture(rows, deletedAt), queriedAt) == {}
  {
    var active := Active(WithoutFuture(rows, deletedAt), queriedAt);
    if active != {} then var i :| i in active; Some(i) else None
  }

  class StoragePackages {
    var premium: bool
    var rows: Rows
    var nextId: PackageId

    predicate Valid()
      reads this
    {
      forall i :: i in rows ==> i < nextId
    }

    constructor (premium: bool)
      ensures Valid() && rows == map[] && this.premium == premium
    {
      this.premium, rows, nextId := premium, map[], 0;
    }

    /** A transaction: on every error the rows stay as they were. */
    method SetPackageQuantity(quantity: int, activeSince: Option<Time>, calledAt: Time, deletedAt: Time,
                              queriedAt: Time)
      returns (r: Outcome)
      requires Valid()
      modifies this`rows, this`nextId
      ensures Valid()
      ensures r == SetQuantity(old(rows), old(nextId), premium, quantity,
                               if activeSince.Some? then activeSince.value else calledAt, deletedAt, queriedAt)
      ensures rows == if r.Set? then r.rows else old(rows)
    {
      if !premium { return NotPremium; }
      var since := Floor(if activeSince.Some? then activeSince.value else calledAt);
      var before := rows;
      rows := WithoutFuture(rows, deletedAt);
      var active := Active(rows, queriedAt);
      var ended: Option<PackageId>, created: Option<PackageId> := None, None;
      if |active| > 1 {
        rows := before;
        return MultipleActive;
      }
      if active != {} {
        var i :| i in active;
        OneMember(active, i);
        ended := Some(i);
        if since < rows[i].since {
          rows := before;
          return BadRange;
        }
        rows := rows[i := rows[i].(until := Some(since))];
        if exists k :: k in rows && k != i && Overlap(rows[i], rows[k]) {
          rows := before;
          return Clashing;
        }
      }
      if quantity > 0 {
        created := Some(nextId);
        rows := rows[nextId := Package(quantity, since, None)];
        if exists k :: k in rows && k != nextId && Overlap(rows[nextId], rows[k]) {
          rows := before;
          return Clashing;
        }
        nextId := nextId + 1;
      }
      r := Set(rows, ended, created);
    }
  }

  lemma OneMember(s: set<PackageId>, i: PackageId)
    requires i in s && |s| <= 1
    ensures s == {i}
  {
    assert |s - {i}| == 0;
  }

  /** The rows once the ended package ends at `since`. */
  ghost function Cut(rows: Rows, since: Time, deletedAt: Time, queriedAt: Time): Rows {
    var kept := WithoutFuture(rows, deletedAt);
    match Ended(rows, deletedAt, queriedAt)
    case None => kept
    case Some(i) => kept[i := kept[i].(until := Some(since))]
  }

  ghost function Grown(rows: Rows, newId: PackageId, quantity: int, since: Time): Rows {
    if quantity > 0 then rows[newId := Package(quantity, since, None)] else rows
  }

  /** The call as a function of the rows; `t` is the requested start. */
  ghost function SetQuantity(rows: Rows, newId: PackageId, premium: bool, quantity: int, t: Time,
                             deletedAt: Time, queriedAt: Time): Outcome {
    var since := Floor(t);
    var kept := WithoutFuture(rows, deletedAt);
    var ended := Ended(rows, deletedAt, queriedAt);
    var cut := Cut(rows, since, deletedAt, queriedAt);
    var grown := Grown(cut, newId, quantity, since);
    if !premium then NotPremium
    else if |Active(kept, queriedAt)| > 1 then MultipleActive
    else if ended.Some? && since < kept[ended.value].since then BadRange
    else if ended.Some? && Clashes(cut, ended.value) then Clashing
    else if quantity > 0 && Clashes(grown, newId) then Clashing
    else Set(grown, ended, if quantity > 0 then Some(newId) else None)
  }
}

/** Half-open time ranges as PostgreSQL's `tstzrange` has them; times are microseconds. */
module Ranges {
  import opened Prelude

  type Time = int

  const SECOND := 1_000_000

  /** `until` None is an open end. */
  datatype Range = Range(since: Time, until: Option<Time>)

  /** `replace(microsecond=0)`. */
  function Floor(t: Time): Time {
    t - t % SECOND
  }

  predicate Whole(t: Time) {
    t % SECOND == 0
  }

  lemma WholeBefore(x: Time, t: Time)
    requires Whole(x) && x <= t
    ensures x <= Floor(t)
  {
    assert x == SECOND * (x / SECOND) && Floor(t) == SECOND * (t / SECOND);
  }

  lemma FloorIsWhole(t: Time)
    ensures Whole(Floor(t)) && Floor(t) <= t < Floor(t) + 1_000_000
  {
    assert Floor(t) == SECOND * (t / SECOND);
  }

  predicate Contains(r: Range, x: Time) {
    r.since <= x && (r.until.None? || x < r.until.value)
  }

  predicate IsEmpty(r: Range) {
    r.until.Some? && r.until.value <= r.since
  }

  /** The database refuses a range that ends before it starts. */
  predicate Proper(r: Range) {
    r.until.Some? ==> r.since <= r.until.value
  }

  /** The `&&` operator; an empty range overlaps nothing. */
  predicate Overlapping(r: Range, q: Range) {
    && !IsEmpty(r) && !IsEmpty(q)
    && (r.until.None? || q.since < r.until.value)
    && (q.until.None? || r.since < q.until.value)
  }

  lemma OverlappingIffSharedInstant(r: Range, q: Range)
    ensures Overlapping(r, q) <==> exists x :: Contains(r, x) && Contains(q, x)
  {
    if Overlapping(r, q) {
      var x := if r.since < q.since then q.since else r.since;
      assert Contains(r, x) && Contains(q, x);
    }
  }
}

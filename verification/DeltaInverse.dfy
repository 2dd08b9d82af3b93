/**
 Undoing a run as the code does it: the same file once more with `inverse`, in the same order.
 Whether that works depends, attribute by attribute, on the values the patches swap.
 */
module DeltaInverse {
  import opened Prelude
  import opened DeltaModel
  import opened DeltaSafety
  import opened DeltaUndo
  import DeltaLimits

  /** One attribute of one feature. */
  datatype Slot = Slot(layerId: string, fid: Fid, name: string)

  datatype Change = Change(before: Value, after: Value)

  function ValueAt(layers: map<string, Layer>, s: Slot): Value {
    if s.layerId in layers && s.fid in layers[s.layerId].committed
    then Current(layers[s.layerId].committed[s.fid], s.name) else NullValue
  }

  /** The feature that the delta addresses. */
  ghost function Target(layers: map<string, Layer>, d: Delta, ctx: Context): Found {
    if d.layerId in layers && layers[d.layerId].pk.Some?
    then FindFeature(layers[d.layerId].committed, layers[d.layerId].pk.value, ResolvePk(d, ctx)) else NotFound
  }

  /** The patch names the attribute, on the feature it addresses. */
  ghost predicate Touches(layers: map<string, Layer>, d: Delta, ctx: Context, s: Slot) {
    && d.layerId == s.layerId && Target(layers, d, ctx) == One(s.fid)
    && s.name in layers[s.layerId].fields && d.before.Present? && Names(d.before.attributes, s.name)
  }

  function ChangeOf(d: Delta, name: string): Change
    requires d.before.Present? && d.after.Present?
  {
    Change(Get(d.before.attributes, name), Get(d.after.attributes, name))
  }

  /** What the first `n` patches say of one attribute, in file order. */
  ghost function History(layers: map<string, Layer>, ds: seq<Delta>, ctx: Context, n: nat, s: Slot): seq<Change>
    requires n <= |ds|
  {
    if n == 0 then []
    else
      History(layers, ds, ctx, n - 1, s)
      + if Touches(layers, ds[n - 1], ctx, s) && ds[n - 1].after.Present? then [ChangeOf(ds[n - 1], s.name)] else []
  }

  /** The value before change `k`: what the one before it left, the first starts from `v`. */
  function Expected(h: seq<Change>, v: Value, k: nat): Value
    requires k <= |h|
  {
    if k == 0 then v else h[k - 1].after
  }

  predicate Linked(h: seq<Change>, v: Value) {
    forall k :: 0 <= k < |h| ==> h[k].before == Expected(h, v, k)
  }

  function Last(h: seq<Change>, v: Value): Value {
    Expected(h, v, |h|)
  }

  lemma LinkedNext(h: seq<Change>, c: Change, v: Value)
    ensures Linked(h + [c], v) <==> Linked(h, v) && c.before == Last(h, v)
  {
    var all := h + [c];
    forall k: nat | k <= |h| ensures Expected(all, v, k) == Expected(h, v, k) {
    }
    forall k | 0 <= k < |h| ensures h[k].before == all[k].before {
    }
    assert all[|h|].before == c.before;
    if Linked(all, v) {
      forall k | 0 <= k < |h| ensures h[k].before == Expected(h, v, k) {
        assert all[k].before == Expected(all, v, k);
      }
    }
  }

  // ---- one patch ----

  /** A file of patches that can only fail by a conflict: well formed, each with one feature to
      address, changing fields of the layer but not its primary key. */
  ghost predicate Ready(layers: map<string, Layer>, ds: seq<Delta>, ctx: Context) {
    && !ctx.inverse && !ctx.overwrite && Clean(layers)
    && forall d :: d in ds ==> IsReady(layers, d, ctx)
  }

  ghost predicate IsReady(layers: map<string, Layer>, d: Delta, ctx: Context) {
    && Undoable(d) && d.layerId in layers && layers[d.layerId].vector && layers[d.layerId].valid
    && Target(layers, d, ctx).One? && PkKept(layers, d)
    && forall n :: n in Changed(d.after.attributes, d.before.attributes) ==> n in layers[d.layerId].fields
  }

  ghost predicate SamePks(v: Layer, w: Layer) {
    && v.(committed := map[]) == w.(committed := map[]) && v.committed.Keys == w.committed.Keys
    && (v.pk.Some? ==> forall f :: f in v.committed ==>
          Current(v.committed[f], v.pk.value) == Current(w.committed[f], v.pk.value))
  }

  /** The same layers and features, with the same primary keys. */
  ghost predicate SameShape(v: map<string, Layer>, w: map<string, Layer>) {
    v.Keys == w.Keys && forall id :: id in v ==> SamePks(v[id], w[id])
  }

  lemma SameTarget(v: map<string, Layer>, w: map<string, Layer>, d: Delta, ctx: Context)
    requires SameShape(v, w)
    ensures Target(v, d, ctx) == Target(w, d, ctx)
    ensures d.layerId in v ==> v[d.layerId].fields == w[d.layerId].fields && v[d.layerId].pk == w[d.layerId].pk
  {
    if d.layerId in v {
      var l, m := v[d.layerId], w[d.layerId];
      assert SamePks(l, m) && l.(committed := map[]).pk == m.(committed := map[]).pk;
      assert l.(committed := map[]).fields == m.(committed := map[]).fields;
      if l.pk.Some? {
        FoundIsThere(l.committed, l.pk.value, ResolvePk(d, ctx));
        FoundIsThere(m.committed, l.pk.value, ResolvePk(d, ctx));
      }
    }
  }

  /** The old values of the patch are those of its feature. */
  ghost predicate Agrees(l: Layer, f: Feature, d: Delta)
    requires d.before.Present?
  {
    forall n :: n in l.fields && Names(d.before.attributes, n) ==> Current(f, n) == Get(d.before.attributes, n)
  }

  lemma AgreesIff(l: Layer, f: Feature, d: Delta)
    requires Undoable(d)
    ensures Agrees(l, f, d) <==>
      forall i :: 0 <= i < |d.before.attributes| ==> !Disagrees(l.fields, f, d.before.attributes[i])
  {
    var before := d.before.attributes;
    forall i | 0 <= i < |before|
      ensures Get(before, before[i].name) == before[i].value && Names(before, before[i].name)
    {
      GetAt(before, i);
    }
    forall n | n in l.fields && Names(before, n)
      ensures exists i :: 0 <= i < |before| && before[i] == Attr(n, Get(before, n))
    {
      NamedAt(before, n);
    }
  }

  /** A patched feature has the new value wherever the patch names a field, else the old one. */
  lemma PatchedValue(l: Layer, f: Feature, d: Delta, n: string)
    requires Undoable(d) && Agrees(l, f, d)
    requires forall n :: n in Changed(d.after.attributes, d.before.attributes) ==> n in l.fields
    ensures Current(PatchedFeature(l, f, d), n)
         == if n in l.fields && Names(d.before.attributes, n) then Get(d.after.attributes, n) else Current(f, n)
  {
    var after, before := d.after.attributes, d.before.attributes;
    ChangedNames(after, before);
    if Names(after, n) {
      ChangedIff(after, before, n);
      var i :| 0 <= i < |after| && after[i].name == n;
      assert Names(before, after[i].name);
    }
    if Names(before, n) {
      var i :| 0 <= i < |before| && before[i].name == n;
      assert Names(after, before[i].name);
    }
  }

  /** What an applied patch says of every attribute, and that it keeps the shape. */
  lemma AppliedValues(v: map<string, Layer>, d: Delta, ctx: Context, a: Answers)
    requires Clean(v) && d.layerId in v && !ctx.inverse && !ctx.overwrite && Undoable(d)
    requires AttemptOn(v[d.layerId], d, ctx, a).Committed?
    ensures var w := v[d.layerId := AttemptOn(v[d.layerId], d, ctx, a).layer];
      && v[d.layerId].vector && v[d.layerId].valid && Target(v, d, ctx).One?
      && (forall n :: n in Changed(d.after.attributes, d.before.attributes) ==> n in v[d.layerId].fields)
      && (forall s :: Touches(v, d, ctx, s) ==> ValueAt(v, s) == Get(d.before.attributes, s.name))
      && (forall s :: ValueAt(w, s) == if Touches(v, d, ctx, s) then Get(d.after.attributes, s.name) else ValueAt(v, s))
      && (PkKept(v, d) ==> SameShape(w, v))
  {
    var l := v[d.layerId];
    AppliedPatch(l, d, ctx, a);
    AgreesIff(l, l.committed[Target(v, d, ctx).fid], d);
    var m := AttemptOn(l, d, ctx, a).layer;
    hide AttemptOn, Disagrees, Changed, Undoable, FindFeature, PatchedFeature, PkKept;
    ReplacedValues(v, d, ctx, m);
  }

  lemma ReplacedValues(v: map<string, Layer>, d: Delta, ctx: Context, m: Layer)
    requires d.layerId in v && Undoable(d) && Target(v, d, ctx).One?
    requires var l := v[d.layerId]; var fid := Target(v, d, ctx).fid;
      && fid in l.committed && Agrees(l, l.committed[fid], d)
      && (forall n :: n in Changed(d.after.attributes, d.before.attributes) ==> n in l.fields)
      && m == l.(committed := l.committed[fid := PatchedFeature(l, l.committed[fid], d)])
    ensures var w := v[d.layerId := m];
      && (forall s :: Touches(v, d, ctx, s) ==> ValueAt(v, s) == Get(d.before.attributes, s.name))
      && (forall s :: ValueAt(w, s) == if Touches(v, d, ctx, s) then Get(d.after.attributes, s.name) else ValueAt(v, s))
      && (PkKept(v, d) ==> SameShape(w, v))
  {
    var l, fid := v[d.layerId], Target(v, d, ctx).fid;
    var f := l.committed[fid];
    var g := PatchedFeature(l, f, d);
    forall n ensures Current(g, n) == if n in l.fields && Names(d.before.attributes, n) then Get(d.after.attributes, n)
                                      else Current(f, n)
    {
      PatchedValue(l, f, d, n);
    }
    if PkKept(v, d) {
      KeptPk(l, f, d);
    }
    hide Changed, PatchedFeature, Undoable, FindFeature, ChangesPk, Names, Get, Current;
  }

  lemma KeptPk(l: Layer, f: Feature, d: Delta)
    requires Undoable(d) && l.pk.Some? && Agrees(l, f, d) && !ChangesPk(l, d)
    requires forall n :: n in Changed(d.after.attributes, d.before.attributes) ==> n in l.fields
    ensures Current(PatchedFeature(l, f, d), l.pk.value) == Current(f, l.pk.value)
  {
    var pk := l.pk.value;
    PatchedValue(l, f, d, pk);
    if Names(d.before.attributes, pk) {
      var i :| 0 <= i < |d.before.attributes| && d.before.attributes[i].name == pk;
      assert Names(d.after.attributes, d.before.attributes[i].name);
    }
  }

  /** With QGIS obliging, a ready patch is applied if its old values are those of its feature. */
  lemma AgreeingPatchApplies(v: map<string, Layer>, d: Delta, ctx: Context, a: Answers)
    requires Clean(v) && !ctx.inverse && !ctx.overwrite && IsReady(v, d, ctx) && Obliging(a)
    requires forall s :: Touches(v, d, ctx, s) ==> ValueAt(v, s) == Get(d.before.attributes, s.name)
    ensures AttemptOn(v[d.layerId], d, ctx, a).Committed?
  {
    var l := v[d.layerId];
    var fid := Target(v, d, ctx).fid;
    FoundIsThere(l.committed, l.pk.value, ResolvePk(d, ctx));
    forall n | n in l.fields && Names(d.before.attributes, n)
      ensures Current(l.committed[fid], n) == Get(d.before.attributes, n)
    {
      assert Touches(v, d, ctx, Slot(d.layerId, fid, n));
    }
    AgreesIff(l, l.committed[fid], d);
    hide AttemptOn, Disagrees, Touches, Obliging;
    ObligedPatch(l, d, ctx, a);
  }

  // ---- runs ----

  /** After `n` patches of a run that applied all so far: each attribute's changes are linked, it has
      the last new value, and the layers have their shape. */
  ghost predicate Follows(layers: map<string, Layer>, ds: seq<Delta>, ctx: Context, n: nat, w: map<string, Layer>)
    requires n <= |ds|
  {
    && Clean(w) && SameShape(w, layers)
    && forall s :: Linked(History(layers, ds, ctx, n, s), ValueAt(layers, s))
                   && ValueAt(w, s) == Last(History(layers, ds, ctx, n, s), ValueAt(layers, s))
  }

  ghost predicate AllLinked(layers: map<string, Layer>, ds: seq<Delta>, ctx: Context, n: nat)
    requires n <= |ds|
  {
    forall s :: Linked(History(layers, ds, ctx, n, s), ValueAt(layers, s))
  }

  lemma SameTouch(v: map<string, Layer>, w: map<string, Layer>, d: Delta, ctx: Context, s: Slot)
    requires SameShape(v, w)
    ensures Touches(v, d, ctx, s) <==> Touches(w, d, ctx, s)
  {
    SameTarget(v, w, d, ctx);
    hide SameShape, FindFeature;
  }

  lemma HistoryNext(layers: map<string, Layer>, ds: seq<Delta>, ctx: Context, n: nat, s: Slot)
    requires n < |ds| && Undoable(ds[n])
    ensures var h, more := History(layers, ds, ctx, n, s), History(layers, ds, ctx, n + 1, s);
      var v := ValueAt(layers, s);
      && (Touches(layers, ds[n], ctx, s) ==>
            && (Linked(more, v) <==> Linked(h, v) && Get(ds[n].before.attributes, s.name) == Last(h, v))
            && Last(more, v) == Get(ds[n].after.attributes, s.name))
      && (!Touches(layers, ds[n], ctx, s) ==> more == h)
  {
    hide Touches, Linked;
    if Touches(layers, ds[n], ctx, s) {
      LinkedNext(History(layers, ds, ctx, n, s), ChangeOf(ds[n], s.name), ValueAt(layers, s));
    }
  }

  lemma FollowsNext(layers: map<string, Layer>, ds: seq<Delta>, ctx: Context, n: nat, v: map<string, Layer>, a: Answers)
    requires n < |ds| && Follows(layers, ds, ctx, n, v) && !ctx.inverse && !ctx.overwrite
    requires Undoable(ds[n]) && ds[n].layerId in v && PkKept(layers, ds[n])
    requires AttemptOn(v[ds[n].layerId], ds[n], ctx, a).Committed?
    requires Clean(v[ds[n].layerId := AttemptOn(v[ds[n].layerId], ds[n], ctx, a).layer])
    ensures IsReady(layers, ds[n], ctx)
    ensures Follows(layers, ds, ctx, n + 1, v[ds[n].layerId := AttemptOn(v[ds[n].layerId], ds[n], ctx, a).layer])
  {
    var d := ds[n];
    AppliedValues(v, d, ctx, a);
    SameTarget(v, layers, d, ctx);
    ShapeKeepsSetup(v, layers, d.layerId);
    var w := v[d.layerId := AttemptOn(v[d.layerId], d, ctx, a).layer];
    assert PkKept(v, d);
    ShapeIsTransitive(w, v, layers);
    hide AttemptOn, SameShape, Touches, Linked, Last, History, Undoable, Changed, ValueAt, Clean, ChangesPk;
    forall s
      ensures Linked(History(layers, ds, ctx, n + 1, s), ValueAt(layers, s))
      ensures ValueAt(w, s) == Last(History(layers, ds, ctx, n + 1, s), ValueAt(layers, s))
    {
      SameTouch(v, layers, d, ctx, s);
      HistoryNext(layers, ds, ctx, n, s);
    }
  }

  lemma ShapeKeepsSetup(v: map<string, Layer>, w: map<string, Layer>, id: string)
    requires SameShape(v, w) && id in v
    ensures id in w && v[id].vector == w[id].vector && v[id].valid == w[id].valid && v[id].fields == w[id].fields
            && v[id].pk == w[id].pk
  {
    var l, m := v[id], w[id];
    assert SamePks(l, m);
    assert l.(committed := map[]).vector == m.(committed := map[]).vector;
    assert l.(committed := map[]).valid == m.(committed := map[]).valid;
    assert l.(committed := map[]).fields == m.(committed := map[]).fields;
    assert l.(committed := map[]).pk == m.(committed := map[]).pk;
  }

  lemma ShapeIsTransitive(u: map<string, Layer>, v: map<string, Layer>, w: map<string, Layer>)
    requires SameShape(u, v) && SameShape(v, w)
    ensures SameShape(u, w)
  {
    forall id | id in u ensures SamePks(u[id], w[id]) {
      assert SamePks(u[id], v[id]) && SamePks(v[id], w[id]);
      assert u[id].(committed := map[]).pk == v[id].(committed := map[]).pk;
    }
  }

  lemma FollowsFirst(layers: map<string, Layer>, ds: seq<Delta>, ctx: Context)
    requires Clean(layers)
    ensures Follows(layers, ds, ctx, 0, layers)
  {
  }

  /** A run that applied every patch so far, whatever QGIS answered. */
  lemma {:induction false} AppliedRunFollows(layers: map<string, Layer>, ds: seq<Delta>, ctx: Context,
                                             answers: nat -> Answers, n: nat)
    requires n <= |ds| && Clean(layers) && !ctx.inverse && !ctx.overwrite && PksKept(layers, ds, 0)
    requires forall d :: d in ds ==> Undoable(d)
    requires Successful(RunPrefix(Start(layers), ds, ctx, answers, n))
    ensures Follows(layers, ds, ctx, n, RunPrefix(Start(layers), ds, ctx, answers, n).layers)
    ensures forall i :: 0 <= i < n ==> IsReady(layers, ds[i], ctx)
  {
    hide Step, AttemptOn, Clean, Follows, Undoable, IsReady, PkKept;
    if n == 0 {
      FollowsFirst(layers, ds, ctx);
    } else {
      var s := RunPrefix(Start(layers), ds, ctx, answers, n - 1);
      assert RunPrefix(Start(layers), ds, ctx, answers, n) == Step(s, n - 1, ds[n - 1], ctx, answers(n - 1));
      AppliedStep(s, n - 1, ds[n - 1], ctx, answers(n - 1));
      AppliedRunFollows(layers, ds, ctx, answers, n - 1);
      AppliedRun(layers, ds, ctx, answers, n);
      assert ds[n - 1] in ds;
      FollowsNext(layers, ds, ctx, n - 1, s.layers, answers(n - 1));
    }
  }

  lemma LinkedPrefix(layers: map<string, Layer>, ds: seq<Delta>, ctx: Context, n: nat)
    requires n < |ds| && Undoable(ds[n]) && AllLinked(layers, ds, ctx, n + 1)
    ensures AllLinked(layers, ds, ctx, n)
    ensures forall s :: Touches(layers, ds[n], ctx, s) ==>
      Get(ds[n].before.attributes, s.name) == Last(History(layers, ds, ctx, n, s), ValueAt(layers, s))
  {
    hide History, Linked, Touches, Last, ValueAt;
    forall s
      ensures Linked(History(layers, ds, ctx, n, s), ValueAt(layers, s))
      ensures Touches(layers, ds[n], ctx, s) ==>
        Get(ds[n].before.attributes, s.name) == Last(History(layers, ds, ctx, n, s), ValueAt(layers, s))
    {
      assert Linked(History(layers, ds, ctx, n + 1, s), ValueAt(layers, s));
      HistoryNext(layers, ds, ctx, n, s);
    }
  }

  /** With QGIS obliging, a file of ready patches is applied as far as its changes are linked. */
  lemma {:induction false} LinkedRunSucceeds(layers: map<string, Layer>, ds: seq<Delta>, ctx: Context,
                                             answers: nat -> Answers, n: nat)
    requires n <= |ds| && Ready(layers, ds, ctx) && AllLinked(layers, ds, ctx, n)
    requires forall i: nat :: Obliging(answers(i))
    ensures Successful(RunPrefix(Start(layers), ds, ctx, answers, n))
  {
    hide Step, AttemptOn, Clean, Follows, Undoable, AllLinked, Obliging, PkKept;
    if n > 0 {
      var d := ds[n - 1];
      assert d in ds;
      hide IsReady;
      ReadyIsUndoable(layers, ds, ctx);
      LinkedPrefix(layers, ds, ctx, n - 1);
      LinkedRunSucceeds(layers, ds, ctx, answers, n - 1);
      AppliedRunFollows(layers, ds, ctx, answers, n - 1);
      var s := RunPrefix(Start(layers), ds, ctx, answers, n - 1);
      NextPatchApplies(layers, ds, ctx, n - 1, s.layers, answers(n - 1));
      assert RunPrefix(Start(layers), ds, ctx, answers, n) == Step(s, n - 1, d, ctx, answers(n - 1));
      CommittedStep(s, n - 1, d, ctx, answers(n - 1));
    }
  }

  lemma ReadyIsUndoable(layers: map<string, Layer>, ds: seq<Delta>, ctx: Context)
    requires Ready(layers, ds, ctx)
    ensures PksKept(layers, ds, 0) && forall d :: d in ds ==> Undoable(d)
  {
    hide PkKept, Undoable;
    forall i | 0 <= i < |ds| ensures PkKept(layers, ds[i]) {
      assert ds[i] in ds;
    }
  }

  lemma CommittedStep(s: RunState, i: nat, d: Delta, ctx: Context, a: Answers)
    requires Successful(s) && d.layerId in s.layers && AttemptOn(s.layers[d.layerId], d, ctx, a).Committed?
    ensures Successful(Step(s, i, d, ctx, a))
  {
    hide AttemptOn;
  }

  lemma NextPatchApplies(layers: map<string, Layer>, ds: seq<Delta>, ctx: Context, n: nat, v: map<string, Layer>,
                         a: Answers)
    requires n < |ds| && Ready(layers, ds, ctx) && Follows(layers, ds, ctx, n, v) && Obliging(a)
    requires forall s :: Touches(layers, ds[n], ctx, s) ==>
      Get(ds[n].before.attributes, s.name) == Last(History(layers, ds, ctx, n, s), ValueAt(layers, s))
    ensures ds[n].layerId in v && AttemptOn(v[ds[n].layerId], ds[n], ctx, a).Committed?
  {
    var d := ds[n];
    assert d in ds && IsReady(layers, d, ctx);
    SameTarget(v, layers, d, ctx);
    ShapeKeepsSetup(v, layers, d.layerId);
    assert PkKept(v, d) && IsReady(v, d, ctx);
    hide AttemptOn, SameShape, Touches, Linked, Last, History, Undoable, Changed, ValueAt, ChangesPk, IsReady, Ready;
    forall s | Touches(v, d, ctx, s) ensures ValueAt(v, s) == Get(d.before.attributes, s.name) {
      SameTouch(v, layers, d, ctx, s);
    }
    AgreeingPatchApplies(v, d, ctx, a);
  }

  // ---- the same file with `inverse` ----

  function Inverses(ds: seq<Delta>): (us: seq<Delta>)
    ensures |us| == |ds| && forall i :: 0 <= i < |ds| ==> us[i] == InverseDelta(ds[i])
  {
    seq(|ds|, i requires 0 <= i < |ds| => InverseDelta(ds[i]))
  }

  /** Applying a delta with `inverse` is applying its inverse. */
  lemma InverseStep(s: RunState, i: nat, d: Delta, ctx: Context, a: Answers)
    requires !ctx.inverse && d.op in {CREATE, PATCH, DELETE}
    ensures Step(s, i, d, ctx.(inverse := true), a) == Step(s, i, InverseDelta(d), ctx, a)
  {
    InverseKeepsMethod(d);
    if d.layerId in s.layers {
      InverseAttempt(s.layers[d.layerId], d, ctx, a);
    }
    hide AttemptOn;
  }

  lemma InverseAttempt(l: Layer, d: Delta, ctx: Context, a: Answers)
    requires !ctx.inverse
    ensures AttemptOn(l, d, ctx.(inverse := true), a) == AttemptOn(l, InverseDelta(d), ctx, a)
  {
    var open := l.(edits := Some(Seen(l)));
    if open.pk.Some? {
      InverseEdit(open, Seen(l), d, ctx, a);
    }
    hide EditOf;
  }

  lemma InverseEdit(l: Layer, work: Features, d: Delta, ctx: Context, a: Answers)
    requires !ctx.inverse && l.pk.Some?
    ensures EditOf(l, work, d, ctx.(inverse := true), a) == EditOf(l, work, InverseDelta(d), ctx, a)
  {
    var u, c := InverseDelta(d), ctx.(inverse := true);
    assert ResolvePk(u, c) == ResolvePk(u, ctx);
    hide FindFeature, PatchAttrs, PatchGeometry, Conflicts, InverseDelta;
  }

  lemma {:induction false} InverseRun(s: RunState, ds: seq<Delta>, ctx: Context, answers: nat -> Answers, n: nat)
    requires n <= |ds| && !ctx.inverse && forall d :: d in ds ==> Undoable(d)
    ensures RunPrefix(s, ds, ctx.(inverse := true), answers, n) == RunPrefix(s, Inverses(ds), ctx, answers, n)
  {
    hide Step, InverseDelta;
    if n > 0 {
      InverseRun(s, ds, ctx, answers, n - 1);
      assert ds[n - 1] in ds;
      InverseStep(RunPrefix(s, ds, ctx, answers, n - 1), n - 1, ds[n - 1], ctx, answers(n - 1));
      InverseStep(RunPrefix(s, Inverses(ds), ctx, answers, n - 1), n - 1, ds[n - 1], ctx, answers(n - 1));
    }
  }

  function Swapped(c: Change): Change {
    Change(c.after, c.before)
  }

  function SwappedAll(h: seq<Change>): (r: seq<Change>)
    ensures |r| == |h| && forall k :: 0 <= k < |h| ==> r[k] == Swapped(h[k])
  {
    seq(|h|, k requires 0 <= k < |h| => Swapped(h[k]))
  }

  /** The changes of one attribute swap between two values and end as the first does. */
  predicate Swings(h: seq<Change>) {
    && (forall k :: 0 <= k < |h| ==> h[k] == if k % 2 == 0 then h[0] else Swapped(h[0]))
    && (h != [] ==> h[|h| - 1].after == h[0].after)
  }

  lemma LinkedAt(h: seq<Change>, v: Value, k: nat)
    requires Linked(h, v) && k < |h|
    ensures h[k].before == Expected(h, v, k)
  {
  }

  /** Changes can be undone first to last exactly if they swing, and then the first value is back. */
  lemma SwappedLinkedIff(h: seq<Change>, v: Value)
    requires Linked(h, v)
    ensures Linked(SwappedAll(h), Last(h, v)) <==> Swings(h)
    ensures Swings(h) ==> Last(SwappedAll(h), Last(h, v)) == v
  {
    hide Linked;
    if Linked(SwappedAll(h), Last(h, v)) {
      SwappedSwings(h, v);
    }
    if Swings(h) {
      SwingsLinked(h, v);
    }
  }

  lemma SwappedSwings(h: seq<Change>, v: Value)
    requires Linked(h, v) && Linked(SwappedAll(h), Last(h, v))
    ensures Swings(h)
  {
    hide Linked;
    forall k | 0 <= k < |h| ensures h[k] == if k % 2 == 0 then h[0] else Swapped(h[0]) {
      SwingAt(h, v, k);
    }
    if h != [] {
      LinkedAt(SwappedAll(h), Last(h, v), 0);
    }
  }

  lemma SwingsLinked(h: seq<Change>, v: Value)
    requires Linked(h, v) && Swings(h)
    ensures Linked(SwappedAll(h), Last(h, v)) && Last(SwappedAll(h), Last(h, v)) == v
  {
    var r, e := SwappedAll(h), Last(h, v);
    if h != [] {
      LinkedAt(h, v, 0);
    }
    forall k | 0 <= k < |r| ensures r[k].before == Expected(r, e, k) {
      assert r[k] == Swapped(h[k]) && (k > 0 ==> r[k - 1] == Swapped(h[k - 1]));
    }
    hide Linked;
    assert Linked(r, e) by { LinkedIf(r, e); }
  }

  lemma LinkedIf(h: seq<Change>, v: Value)
    requires forall k :: 0 <= k < |h| ==> h[k].before == Expected(h, v, k)
    ensures Linked(h, v)
  {
  }

  lemma {:induction false} SwingAt(h: seq<Change>, v: Value, k: nat)
    requires k < |h| && Linked(h, v) && Linked(SwappedAll(h), Last(h, v))
    ensures h[k] == if k % 2 == 0 then h[0] else Swapped(h[0])
  {
    hide Linked;
    if k > 0 {
      SwingAt(h, v, k - 1);
      LinkedAt(h, v, k);
      LinkedAt(SwappedAll(h), Last(h, v), k);
      assert SwappedAll(h)[k] == Swapped(h[k]) && SwappedAll(h)[k - 1] == Swapped(h[k - 1]);
    }
  }

  lemma InverseIsUndoable(d: Delta)
    requires Undoable(d)
    ensures Undoable(InverseDelta(d))
  {
    InverseKeepsMethod(d);
  }

  lemma InverseTouches(v: map<string, Layer>, w: map<string, Layer>, d: Delta, ctx: Context, s: Slot)
    requires Undoable(d) && SameShape(v, w)
    ensures Touches(v, InverseDelta(d), ctx, s) <==> Touches(w, d, ctx, s)
    ensures Touches(w, d, ctx, s) ==> ChangeOf(InverseDelta(d), s.name) == Swapped(ChangeOf(d, s.name))
  {
    SameTouch(v, w, d, ctx, s);
    var u := InverseDelta(d);
    assert Target(v, u, ctx) == Target(v, d, ctx);
    NamedOnBothSides(d, s.name);
    hide SameShape, FindFeature, Names;
  }

  lemma NamedOnBothSides(d: Delta, n: string)
    requires Undoable(d)
    ensures Names(d.before.attributes, n) <==> Names(d.after.attributes, n)
  {
    var before, after := d.before.attributes, d.after.attributes;
    if Names(before, n) {
      var i :| 0 <= i < |before| && before[i].name == n;
      assert Names(after, before[i].name);
    }
    if Names(after, n) {
      var i :| 0 <= i < |after| && after[i].name == n;
      assert Names(before, after[i].name);
    }
  }

  /** The inverses say the same of every attribute, with the values swapped. */
  lemma {:induction false} InverseHistory(v: map<string, Layer>, w: map<string, Layer>, ds: seq<Delta>, ctx: Context,
                                          n: nat, s: Slot)
    requires n <= |ds| && SameShape(v, w) && forall d :: d in ds ==> Undoable(d)
    ensures History(v, Inverses(ds), ctx, n, s) == SwappedAll(History(w, ds, ctx, n, s))
  {
    hide Touches, SameShape, InverseDelta;
    if n > 0 {
      InverseHistory(v, w, ds, ctx, n - 1, s);
      var d := ds[n - 1];
      assert d in ds && Inverses(ds)[n - 1] == InverseDelta(d);
      InverseIsUndoable(d);
      InverseTouches(v, w, d, ctx, s);
    }
  }

  /** The inverses of a file that was applied are ready on the layers that it left. */
  lemma InversesAreReady(layers: map<string, Layer>, ds: seq<Delta>, ctx: Context, end: map<string, Layer>)
    requires !ctx.inverse && !ctx.overwrite && Clean(end) && SameShape(end, layers)
    requires forall i :: 0 <= i < |ds| ==> IsReady(layers, ds[i], ctx)
    ensures Ready(end, Inverses(ds), ctx)
  {
    var us := Inverses(ds);
    hide IsReady, SameShape, InverseDelta, Clean;
    forall u | u in us ensures IsReady(end, u, ctx) {
      var i :| 0 <= i < |us| && us[i] == u;
      InverseIsReady(layers, ds[i], ctx, end);
    }
  }

  lemma InverseIsReady(layers: map<string, Layer>, d: Delta, ctx: Context, end: map<string, Layer>)
    requires SameShape(end, layers) && IsReady(layers, d, ctx)
    ensures IsReady(end, InverseDelta(d), ctx)
  {
    var u := InverseDelta(d);
    InverseIsUndoable(d);
    SameTarget(end, layers, d, ctx);
    ShapeKeepsSetup(end, layers, d.layerId);
    assert Target(end, u, ctx) == Target(end, d, ctx);
    BothChanged(d.after.attributes, d.before.attributes);
    var l := layers[d.layerId];
    NamedOnBothSides(d, l.pk.value);
    assert !ChangesPk(end[d.layerId], u);
    hide SameShape, FindFeature, Changed, Names, Get, WellFormed, SameNames;
  }

  /** A patch and its inverse that are both applied, on any two states, do not change a primary key. */
  lemma BothAppliedKeepPk(l: Layer, w: Layer, d: Delta, ctx: Context, a: Answers, b: Answers)
    requires l.edits.None? && w.edits.None? && w.pk == l.pk && w.fields == l.fields
    requires CheckedPatch(d, ctx) && Undoable(d)
    requires AttemptOn(l, d, ctx, a).Committed? && AttemptOn(w, InverseDelta(d), ctx, b).Committed?
    ensures !ChangesPk(l, d)
  {
    var u := InverseDelta(d);
    InverseIsUndoable(d);
    InverseKeepsMethod(d);
    AppliedPatch(l, d, ctx, a);
    AppliedPatch(w, u, ctx, b);
    hide AttemptOn, PatchedFeature, PatchAttrs;
    var pk, key := l.pk.value, ResolvePk(d, ctx);
    var f, g := FindFeature(l.committed, pk, key).fid, FindFeature(w.committed, pk, key).fid;
    FoundIsThere(l.committed, pk, key);
    FoundIsThere(w.committed, pk, key);
    AgreesIff(l, l.committed[f], d);
    AgreesIff(w, w.committed[g], u);
    if ChangesPk(l, d) {
      NamedOnBothSides(d, pk);
      ChangedIff(d.after.attributes, d.before.attributes, pk);
    }
  }

  lemma InverseRunKeepsPks(layers: map<string, Layer>, ds: seq<Delta>, ctx: Context, answers: nat -> Answers,
                           back: nat -> Answers)
    requires Clean(layers) && !ctx.inverse && !ctx.overwrite && forall d :: d in ds ==> Undoable(d)
    requires Successful(RunPrefix(Start(layers), ds, ctx, answers, |ds|))
    requires var end := RunPrefix(Start(layers), ds, ctx, answers, |ds|).layers;
      Successful(RunPrefix(Start(end), Inverses(ds), ctx, back, |ds|))
    ensures PksKept(layers, ds, 0)
  {
    hide Step, AttemptOn, Clean, Undoable, RunPrefix, Successful, ChangesPk, InverseDelta;
    var end := RunPrefix(Start(layers), ds, ctx, answers, |ds|).layers;
    AppliedRunIsClean(layers, ds, ctx, answers);
    forall i | 0 <= i < |ds| ensures PkKept(layers, ds[i]) {
      assert ds[i] in ds;
      SuccessMeans(RunPrefix(Start(layers), ds, ctx, answers, |ds|));
      SuccessMeans(RunPrefix(Start(end), Inverses(ds), ctx, back, |ds|));
      ForwardAt(layers, ds, ctx, answers, i);
      ForwardAt(end, Inverses(ds), ctx, back, i);
      var s := RunPrefix(Start(layers), ds, ctx, answers, i).layers;
      var w := RunPrefix(Start(end), Inverses(ds), ctx, back, i).layers;
      SameLayer(ds[i]);
      PatchKeepsPk(layers, end, s, w, ds[i], ctx, answers(i), back(i));
    }
  }

  lemma SameLayer(d: Delta)
    ensures InverseDelta(d).layerId == d.layerId
  {
  }

  lemma SuccessMeans(r: RunState)
    requires Successful(r)
    ensures r.allApplied && !r.raised
  {
  }

  lemma AppliedRunIsClean(layers: map<string, Layer>, ds: seq<Delta>, ctx: Context, answers: nat -> Answers)
    requires Clean(layers) && Successful(RunPrefix(Start(layers), ds, ctx, answers, |ds|))
    ensures var end := RunPrefix(Start(layers), ds, ctx, answers, |ds|).layers; Clean(end) && SameSetup(end, layers)
  {
    AppliedRun(layers, ds, ctx, answers, |ds|);
  }

  lemma PatchKeepsPk(layers: map<string, Layer>, end: map<string, Layer>, s: map<string, Layer>, w: map<string, Layer>,
                     d: Delta, ctx: Context, a: Answers, b: Answers)
    requires SameSetup(s, layers) && SameSetup(end, layers) && SameSetup(w, end) && Clean(s) && Clean(w)
    requires !ctx.inverse && !ctx.overwrite && Undoable(d) && d.layerId in s && InverseDelta(d).layerId in w
    requires AttemptOn(s[d.layerId], d, ctx, a).Committed?
      && AttemptOn(w[d.layerId], InverseDelta(d), ctx, b).Committed?
    ensures PkKept(layers, d)
  {
    var id := d.layerId;
    assert s[id].(committed := map[]) == layers[id].(committed := map[]);
    assert w[id].(committed := map[]) == end[id].(committed := map[]) == layers[id].(committed := map[]);
    assert s[id].pk == s[id].(committed := map[]).pk && w[id].pk == w[id].(committed := map[]).pk;
    assert s[id].fields == s[id].(committed := map[]).fields && w[id].fields == w[id].(committed := map[]).fields;
    hide AttemptOn;
    BothAppliedKeepPk(s[id], w[id], d, ctx, a, b);
    assert layers[id].pk == layers[id].(committed := map[]).pk;
  }

  ghost predicate AllSwing(layers: map<string, Layer>, ds: seq<Delta>, ctx: Context) {
    forall s :: Swings(History(layers, ds, ctx, |ds|, s))
  }

  /** Main result on `inverse`: after a run that applied every patch of a file, the same file run
      with `inverse` is applied exactly if no patch changed a primary key and, for every attribute of
      every feature, the patches that name it swap between two values and end as the first does
      (one patch alone always does).  And then every attribute of every feature is back. */
  lemma InverseRunSucceedsIff(layers: map<string, Layer>, ds: seq<Delta>, ctx: Context, answers: nat -> Answers,
                              back: nat -> Answers)
    requires Clean(layers) && !ctx.inverse && !ctx.overwrite && forall d :: d in ds ==> Undoable(d)
    requires forall i: nat :: Obliging(back(i))
    requires Successful(RunPrefix(Start(layers), ds, ctx, answers, |ds|))
    ensures var end := RunPrefix(Start(layers), ds, ctx, answers, |ds|).layers;
      var undone := RunPrefix(Start(end), ds, ctx.(inverse := true), back, |ds|);
      && (Successful(undone) <==> PksKept(layers, ds, 0) && AllSwing(layers, ds, ctx))
      && (Successful(undone) ==> AlikeLayers(undone.layers, layers))
  {
    var end := RunPrefix(Start(layers), ds, ctx, answers, |ds|).layers;
    InverseRun(Start(end), ds, ctx, back, |ds|);
    hide RunPrefix, Undoable, Obliging, Successful, PksKept, AllSwing, AlikeLayers, Clean;
    var undone := RunPrefix(Start(end), Inverses(ds), ctx, back, |ds|);
    if Successful(undone) {
      InverseRunKeepsPks(layers, ds, ctx, answers, back);
    }
    if PksKept(layers, ds, 0) {
      KeptRunSucceedsIff(layers, ds, ctx, answers, back);
    }
  }

  lemma KeptRunSucceedsIff(layers: map<string, Layer>, ds: seq<Delta>, ctx: Context, answers: nat -> Answers,
                           back: nat -> Answers)
    requires Clean(layers) && !ctx.inverse && !ctx.overwrite && forall d :: d in ds ==> Undoable(d)
    requires (forall i: nat :: Obliging(back(i))) && PksKept(layers, ds, 0)
    requires Successful(RunPrefix(Start(layers), ds, ctx, answers, |ds|))
    ensures var end := RunPrefix(Start(layers), ds, ctx, answers, |ds|).layers;
      var undone := RunPrefix(Start(end), Inverses(ds), ctx, back, |ds|);
      && (Successful(undone) <==> AllSwing(layers, ds, ctx))
      && (Successful(undone) ==> AlikeLayers(undone.layers, layers))
  {
    var n, us := |ds|, Inverses(ds);
    var end := RunPrefix(Start(layers), ds, ctx, answers, n).layers;
    AppliedRunFollows(layers, ds, ctx, answers, n);
    FollowsMeans(layers, ds, ctx, n, end);
    InversesAreReady(layers, ds, ctx, end);
    ReadyIsUndoable(end, us, ctx);
    SwingsAreLinked(layers, ds, ctx, end);
    var undone := RunPrefix(Start(end), us, ctx, back, n);
    hide RunPrefix, Undoable, Obliging, Successful, PksKept, AllSwing, AllLinked, AlikeLayers, Clean, Ready, IsReady,
      SameShape, Follows, InverseDelta;
    if AllSwing(layers, ds, ctx) {
      LinkedRunSucceeds(end, us, ctx, back, n);
    }
    if Successful(undone) {
      AppliedRunFollows(end, us, ctx, back, n);
      FollowsMeans(end, us, ctx, n, undone.layers);
      ShapeIsTransitive(undone.layers, end, layers);
      RestoredValues(layers, ds, ctx, end, undone.layers);
    }
  }

  lemma FollowsMeans(layers: map<string, Layer>, ds: seq<Delta>, ctx: Context, n: nat, w: map<string, Layer>)
    requires n <= |ds| && Follows(layers, ds, ctx, n, w)
    ensures Clean(w) && SameShape(w, layers) && AllLinked(layers, ds, ctx, n)
  {
    hide Linked, SameShape, History, ValueAt, Last;
  }

  lemma SwingsAreLinked(layers: map<string, Layer>, ds: seq<Delta>, ctx: Context, end: map<string, Layer>)
    requires Follows(layers, ds, ctx, |ds|, end) && forall d :: d in ds ==> Undoable(d)
    ensures AllLinked(end, Inverses(ds), ctx, |ds|) <==> AllSwing(layers, ds, ctx)
  {
    hide Linked, SameShape, History, ValueAt, Last, Swings, Undoable;
    forall s
      ensures Linked(History(end, Inverses(ds), ctx, |ds|, s), ValueAt(end, s))
        <==> Swings(History(layers, ds, ctx, |ds|, s))
    {
      InverseHistory(end, layers, ds, ctx, |ds|, s);
      SwappedLinkedIff(History(layers, ds, ctx, |ds|, s), ValueAt(layers, s));
    }
  }

  lemma RestoredValues(layers: map<string, Layer>, ds: seq<Delta>, ctx: Context, end: map<string, Layer>,
                       undone: map<string, Layer>)
    requires Follows(layers, ds, ctx, |ds|, end) && Follows(end, Inverses(ds), ctx, |ds|, undone)
    requires SameShape(undone, layers) && forall d :: d in ds ==> Undoable(d)
    ensures AlikeLayers(undone, layers)
  {
    hide Linked, SameShape, History, ValueAt, Last, Undoable;
    forall s ensures ValueAt(undone, s) == ValueAt(layers, s) {
      InverseHistory(end, layers, ds, ctx, |ds|, s);
      SwappedLinkedIff(History(layers, ds, ctx, |ds|, s), ValueAt(layers, s));
    }
    SameValuesAlike(undone, layers);
  }

  lemma SameValuesAlike(v: map<string, Layer>, w: map<string, Layer>)
    requires SameShape(v, w) && forall s :: ValueAt(v, s) == ValueAt(w, s)
    ensures AlikeLayers(v, w)
  {
    forall id, f, n | id in v && f in v[id].committed
      ensures Current(v[id].committed[f], n) == Current(w[id].committed[f], n)
    {
      assert SamePks(v[id], w[id]);
      assert ValueAt(v, Slot(id, f, n)) == ValueAt(w, Slot(id, f, n));
    }
    forall id | id in v ensures AlikeLayer(v[id], w[id]) {
      assert SamePks(v[id], w[id]);
    }
    hide Current;
  }

  /** So patches can be undone this way if no attribute of a feature that one of them changes is named
      by another one of that feature. */
  lemma SeparatePatchesAreUndone(layers: map<string, Layer>, ds: seq<Delta>, ctx: Context, answers: nat -> Answers,
                                 back: nat -> Answers)
    requires Clean(layers) && !ctx.inverse && !ctx.overwrite && forall d :: d in ds ==> Undoable(d)
    requires (forall i: nat :: Obliging(back(i))) && PksKept(layers, ds, 0)
    requires Successful(RunPrefix(Start(layers), ds, ctx, answers, |ds|))
    requires forall s :: var h := History(layers, ds, ctx, |ds|, s);
      |h| > 1 ==> forall k :: 0 <= k < |h| ==> h[k].before == h[k].after
    ensures var end := RunPrefix(Start(layers), ds, ctx, answers, |ds|).layers;
      Successful(RunPrefix(Start(end), ds, ctx.(inverse := true), back, |ds|))
  {
    AppliedRunFollows(layers, ds, ctx, answers, |ds|);
    hide RunPrefix, Undoable, Obliging, Successful, PksKept, Clean, History, SameShape, ValueAt;
    forall s ensures Swings(History(layers, ds, ctx, |ds|, s)) {
      ConstantSwings(History(layers, ds, ctx, |ds|, s), ValueAt(layers, s));
    }
    InverseRunSucceedsIff(layers, ds, ctx, answers, back);
  }

  lemma ConstantSwings(h: seq<Change>, v: Value)
    requires Linked(h, v) && (|h| > 1 ==> forall k :: 0 <= k < |h| ==> h[k].before == h[k].after)
    ensures Swings(h)
  {
    if |h| > 1 {
      forall k | 0 <= k < |h| ensures h[k] == Change(v, v) {
        ConstantAt(h, v, k);
      }
    }
  }

  lemma {:induction false} ConstantAt(h: seq<Change>, v: Value, k: nat)
    requires k < |h| && Linked(h, v) && forall k :: 0 <= k < |h| ==> h[k].before == h[k].after
    ensures h[k] == Change(v, v)
  {
    assert h[k].before == Expected(h, v, k);
    if k > 0 {
      ConstantAt(h, v, k - 1);
    }
  }

  /** And they cannot if an even number of patches name an attribute of a feature that the first of
      them changes; two patches of one attribute are the simplest case. */
  lemma EvenChangesAreNotUndone(layers: map<string, Layer>, ds: seq<Delta>, ctx: Context, answers: nat -> Answers,
                                back: nat -> Answers, s: Slot)
    requires Clean(layers) && !ctx.inverse && !ctx.overwrite && forall d :: d in ds ==> Undoable(d)
    requires forall i: nat :: Obliging(back(i))
    requires Successful(RunPrefix(Start(layers), ds, ctx, answers, |ds|))
    requires var h := History(layers, ds, ctx, |ds|, s); h != [] && |h| % 2 == 0 && h[0].before != h[0].after
    ensures var end := RunPrefix(Start(layers), ds, ctx, answers, |ds|).layers;
      !Successful(RunPrefix(Start(end), ds, ctx.(inverse := true), back, |ds|))
  {
    hide RunPrefix, Undoable, Obliging, Successful, PksKept, Clean, History;
    InverseRunSucceedsIff(layers, ds, ctx, answers, back);
    var h := History(layers, ds, ctx, |ds|, s);
    assert Swings(h) ==> h[|h| - 1] == Swapped(h[0]);
  }

  // ---- a file that goes back and forth ----

  const FIELD := "a"

  function Flip(id: string, before: string, after: string): Delta {
    DeltaLimits.PatchOf(id, [Attr(FIELD, Text(before))], [Attr(FIELD, Text(after))])
  }

  function ThereAndBack(): seq<Delta> {
    [Flip("d1", "0", "1"), Flip("d2", "1", "0"), Flip("d3", "0", "1")]
  }

  function OneFeature(): map<string, Layer> {
    map["layer" := DeltaLimits.OneRow("0", "0")]
  }

  lemma FlipIsReady(id: string, before: string, after: string)
    ensures IsReady(OneFeature(), Flip(id, before, after), DeltaLimits.Plain())
    ensures forall s ::
      Touches(OneFeature(), Flip(id, before, after), DeltaLimits.Plain(), s) <==> s == Slot("layer", 7, FIELD)
    ensures ChangeOf(Flip(id, before, after), FIELD) == Change(Text(before), Text(after))
  {
    var d, l := Flip(id, before, after), DeltaLimits.OneRow("0", "0");
    assert DeltaLimits.A == FIELD && FIELD != DeltaLimits.ID && FIELD != DeltaLimits.B
      && DeltaLimits.B != DeltaLimits.ID;
    DeltaLimits.RowIsFound(l.committed, "0", "0");
    assert Target(OneFeature(), d, DeltaLimits.Plain()) == One(7);
    hide FindFeature;
    GetAt(d.before.attributes, 0);
    GetAt(d.after.attributes, 0);
    assert d.before.attributes[0].name == FIELD && d.after.attributes[0].name == FIELD;
    assert FIELD in l.fields;
    assert forall n :: Names(d.before.attributes, n) <==> n == FIELD;
    assert forall n :: Names(d.after.attributes, n) <==> n == FIELD;
    assert WellFormed(d) && SameNames(d.before.attributes, d.after.attributes);
  }

  lemma HistoryOfFlips(s: Slot)
    ensures var zero, one := Text("0"), Text("1");
      History(OneFeature(), ThereAndBack(), DeltaLimits.Plain(), 3, s)
      == if s == Slot("layer", 7, FIELD) then [Change(zero, one), Change(one, zero), Change(zero, one)] else []
  {
    FlipIsReady("d1", "0", "1");
    FlipIsReady("d2", "1", "0");
    FlipIsReady("d3", "0", "1");
    var ctx, ds := DeltaLimits.Plain(), ThereAndBack();
    assert ds[0].after.Present? && ds[1].after.Present? && ds[2].after.Present?;
    hide Touches, IsReady, ChangeOf;
    var before := History(OneFeature(), ds, ctx, 0, s);
    assert before == [];
    assert History(OneFeature(), ds, ctx, 1, s)
        == if s == Slot("layer", 7, FIELD) then [Change(Text("0"), Text("1"))] else [];
    assert History(OneFeature(), ds, ctx, 2, s)
        == if s == Slot("layer", 7, FIELD) then [Change(Text("0"), Text("1")), Change(Text("1"), Text("0"))] else [];
  }

  /** Three patches that change one field back and forth are undone in file order, although each names
      what the others change. */
  lemma ThereAndBackIsUndone(answers: nat -> Answers)
    requires forall i: nat :: Obliging(answers(i))
    ensures var ctx := DeltaLimits.Plain();
      var end := RunPrefix(Start(OneFeature()), ThereAndBack(), ctx, answers, 3);
      Successful(end) && Successful(RunPrefix(Start(end.layers), ThereAndBack(), ctx.(inverse := true), answers, 3))
  {
    var ctx, ds, layers := DeltaLimits.Plain(), ThereAndBack(), OneFeature();
    FlipIsReady("d1", "0", "1");
    FlipIsReady("d2", "1", "0");
    FlipIsReady("d3", "0", "1");
    var zero, one := Text("0"), Text("1");
    FlipsSwing();
    assert Clean(layers) && ValueAt(layers, Slot("layer", 7, FIELD)) == zero;
    hide Touches, IsReady, RunPrefix, Obliging, Successful, ValueAt, Clean, PkKept, Undoable, History, Swings, Linked;
    forall d | d in ds ensures IsReady(layers, d, ctx) {
    }
    forall s
      ensures Linked(History(layers, ds, ctx, 3, s), ValueAt(layers, s)) && Swings(History(layers, ds, ctx, 3, s))
    {
      HistoryOfFlips(s);
      EmptySwings(ValueAt(layers, s));
    }
    assert Ready(layers, ds, ctx) && AllLinked(layers, ds, ctx, 3) && AllSwing(layers, ds, ctx);
    ReadyIsUndoable(layers, ds, ctx);
    LinkedRunSucceeds(layers, ds, ctx, answers, 3);
    InverseRunSucceedsIff(layers, ds, ctx, answers, answers);
  }

  lemma FlipsSwing()
    ensures var h := [Change(Text("0"), Text("1")), Change(Text("1"), Text("0")), Change(Text("0"), Text("1"))];
      Linked(h, Text("0")) && Swings(h)
  {
  }

  lemma EmptySwings(v: Value)
    ensures Linked([], v) && Swings([])
  {
  }
}

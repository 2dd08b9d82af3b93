/**
 Conflict detection and undoing: an applied patch is a compare-and-set, and applied patches are
 undone by their inverses in reverse order exactly if none of them changes a primary key.
 */
module DeltaUndo {
  import opened Prelude
  import opened DeltaModel
  import opened DeltaSafety

  // ---- conflicts ----

  /** The reported names are exactly the fields on which the feature and the delta disagree. */
  lemma {:induction false} ConflictsAreDisagreements(fields: seq<string>, f: Feature, attrs: Attrs, name: string)
    ensures name in Conflicts(fields, f, attrs)
       <==> exists i :: 0 <= i < |attrs| && attrs[i].name == name && Disagrees(fields, f, attrs[i])
    decreases |attrs|
  {
    if attrs != [] {
      var rest := attrs[1..];
      ConflictsAreDisagreements(fields, f, rest, name);
      assert forall i :: 0 <= i < |rest| ==> rest[i] == attrs[i + 1];
      assert forall i :: 1 <= i < |attrs| ==> attrs[i] == rest[i - 1];
    }
  }

  lemma NoConflictsIff(fields: seq<string>, f: Feature, attrs: Attrs)
    ensures Conflicts(fields, f, attrs) == []
       <==> forall i :: 0 <= i < |attrs| ==> !Disagrees(fields, f, attrs[i])
  {
    if Conflicts(fields, f, attrs) != [] {
      ConflictsAreDisagreements(fields, f, attrs, Conflicts(fields, f, attrs)[0]);
    }
    forall i | 0 <= i < |attrs| && Disagrees(fields, f, attrs[i])
      ensures Conflicts(fields, f, attrs) != []
    {
      ConflictsAreDisagreements(fields, f, attrs, attrs[i].name);
    }
  }

  /** A patch that checks for conflicts: not overwriting, not inverted. */
  predicate CheckedPatch(d: Delta, ctx: Context) {
    !ctx.inverse && !ctx.overwrite && d.op == PATCH && WellFormed(d)
  }

  /** An applied patch is a compare-and-set: one feature matched; every attribute named in `old` had
      the old value; every attribute named on both sides now has the new value; an attribute not
      named in `new` and every other feature are unchanged. */
  lemma PatchIsCompareAndSet(l: Layer, work: Features, d: Delta, ctx: Context, a: Answers)
    requires CheckedPatch(d, ctx) && l.pk.Some? && EditOf(l, work, d, ctx, a).Edited?
    ensures d.before.Present? && d.after.Present?
    ensures var work' := EditOf(l, work, d, ctx, a).work;
      exists fid :: fid in work && FindFeature(work, l.pk.value, ResolvePk(d, ctx)) == One(fid)
        && work'.Keys == work.Keys
        && (forall g :: g in work && g != fid ==> work'[g] == work[g])
        && (forall n :: n in l.fields && Names(d.before.attributes, n) ==>
              Current(work[fid], n) == Get(d.before.attributes, n)
              && (Names(d.after.attributes, n) ==> Current(work'[fid], n) == Get(d.after.attributes, n)))
        && (forall n :: !Names(d.after.attributes, n) ==> Current(work'[fid], n) == Current(work[fid], n))
  {
    var after, before := d.after.attributes, d.before.attributes;
    var found := FindFeature(work, l.pk.value, ResolvePk(d, ctx));
    FoundIsThere(work, l.pk.value, ResolvePk(d, ctx));
    EditIsEffect(l, work, d, ctx, a);
    var f := work[found.fid];
    NoConflictsIff(l.fields, f, before);
    ChangedNames(after, before);
    forall n | n in l.fields && Names(before, n)
      ensures Current(f, n) == Get(before, n)
      ensures Names(after, n) && Get(after, n) != Get(before, n) ==> n in Changed(after, before)
    {
      NamedAt(before, n);
      if Names(after, n) { NamedAt(after, n); }
    }
    assert found == One(found.fid);
  }

  lemma NamedAt(attrs: Attrs, name: string)
    requires UniqueNames(attrs) && Names(attrs, name)
    ensures exists i :: 0 <= i < |attrs| && attrs[i] == Attr(name, Get(attrs, name))
  {
    var i :| 0 <= i < |attrs| && attrs[i].name == name;
    GetAt(attrs, i);
    assert attrs[i] == Attr(name, Get(attrs, name));
  }

  // ---- inverting ----

  /** The lower-case methods never swap: the inverse of a create is a create of what was before. */
  lemma InverseKeepsMethod(d: Delta)
    requires d.op in {CREATE, PATCH, DELETE}
    ensures InverseDelta(d).op == d.op
  {
    assert CREATE[0] == 'c' && PATCH[0] == 'p' && DELETE[0] == 'd';
  }

  predicate SameNames(before: Attrs, after: Attrs) {
    (forall i :: 0 <= i < |before| ==> Names(after, before[i].name))
    && (forall i :: 0 <= i < |after| ==> Names(before, after[i].name))
  }

  /** A patch whose two sides are present and name the same attributes. */
  predicate Undoable(d: Delta) {
    d.op == PATCH && WellFormed(d) && d.before.Present? && d.after.Present?
    && SameNames(d.before.attributes, d.after.attributes)
  }

  predicate SameAttributes(f: Feature, g: Feature) {
    forall n :: n in f.attrs.Keys + g.attrs.Keys ==> Current(f, n) == Current(g, n)
  }

  lemma SameEverywhere(f: Feature, g: Feature, n: string)
    requires SameAttributes(f, g)
    ensures Current(f, n) == Current(g, n)
  {
  }

  /** The same features up to geometry. */
  predicate Alike(v: Features, w: Features) {
    v.Keys == w.Keys && forall f :: f in v ==> SameAttributes(v[f], w[f])
  }

  lemma AlikeFind(v: Features, w: Features, pkName: string, pk: string)
    requires Alike(v, w)
    ensures FindFeature(v, pkName, pk) == FindFeature(w, pkName, pk)
  {
    forall f | f in v ensures Matches(v[f], pkName, pk) <==> Matches(w[f], pkName, pk) {
      SameEverywhere(v[f], w[f], pkName);
    }
    FoundIsThere(v, pkName, pk);
    FoundIsThere(w, pkName, pk);
  }

  /** QGIS declines nothing. */
  predicate Obliging(a: Answers) {
    a.startEditing.Done? && a.parseGeometry.Done? && a.changeGeometry.Done? && a.refusedAttrs == {}
    && a.raisingAttrs == {} && a.commit.Done? && a.afterCommit.Done?
  }

  /** The patch gives the layer's primary key a new value. */
  predicate ChangesPk(l: Layer, d: Delta) {
    l.pk.Some? && d.before.Present? && d.after.Present?
    && Names(d.after.attributes, l.pk.value)
    && Get(d.after.attributes, l.pk.value) != Get(d.before.attributes, l.pk.value)
  }

  /** A patched feature agrees with the `new` side of its patch. */
  lemma PatchedAgrees(l: Layer, f: Feature, d: Delta, g: Feature)
    requires Undoable(d) && SameAttributes(g, PatchedFeature(l, f, d))
    requires forall i :: 0 <= i < |d.before.attributes| ==> !Disagrees(l.fields, f, d.before.attributes[i])
    ensures forall i :: 0 <= i < |d.after.attributes| ==> !Disagrees(l.fields, g, d.after.attributes[i])
  {
    forall i | 0 <= i < |d.after.attributes|
      ensures !Disagrees(l.fields, g, d.after.attributes[i])
    {
      GetAt(d.after.attributes, i);
      NamedAt(d.before.attributes, d.after.attributes[i].name);
      SameEverywhere(g, PatchedFeature(l, f, d), d.after.attributes[i].name);
    }
  }

  /** Putting the old values over the patched ones gives back every old value. */
  lemma OverlayBack(l: Layer, f: Feature, d: Delta, g: Feature, n: string)
    requires Undoable(d) && SameAttributes(g, PatchedFeature(l, f, d))
    requires forall i :: 0 <= i < |d.before.attributes| ==> !Disagrees(l.fields, f, d.before.attributes[i])
    requires forall n :: n in Changed(d.after.attributes, d.before.attributes) ==> n in l.fields
    ensures Current(Feature(Overlay(g.attrs, d.before.attributes, d.after.attributes), g.geometry), n) == Current(f, n)
  {
    var after, before := d.after.attributes, d.before.attributes;
    BothChanged(after, before);
    ChangedNames(before, after);
    SameEverywhere(g, PatchedFeature(l, f, d), n);
    if n in Changed(before, after) { NamedAt(before, n); }
  }

  lemma UndoFeature(l: Layer, f: Feature, d: Delta, g: Feature, a: Answers)
    requires Undoable(d) && Obliging(a)
    requires forall i :: 0 <= i < |d.before.attributes| ==> !Disagrees(l.fields, f, d.before.attributes[i])
    requires forall n :: n in Changed(d.after.attributes, d.before.attributes) ==> n in l.fields
    requires SameAttributes(g, PatchedFeature(l, f, d))
    ensures forall i :: 0 <= i < |d.after.attributes| ==> !Disagrees(l.fields, g, d.after.attributes[i])
    ensures var p := PatchAttrs(l.fields, g, d.before.attributes, d.after.attributes, a);
            p.Patched? && SameAttributes(p.feature, f)
  {
    var after, before := d.after.attributes, d.before.attributes;
    PatchedAgrees(l, f, d, g);
    BothChanged(after, before);
    ObligingPatch(l.fields, g, before, after, a);
    PatchAttrsIsOverlay(l.fields, g, before, after, a);
    var p := PatchAttrs(l.fields, g, before, after, a).feature;
    hide Overlay, Changed, PatchedFeature, Disagrees, PatchAttrs;
    forall n | n in p.attrs.Keys + f.attrs.Keys
      ensures Current(p, n) == Current(f, n)
    {
      OverlayBack(l, f, d, g, n);
    }
  }

  lemma BothChanged(after: Attrs, before: Attrs)
    requires UniqueNames(after) && UniqueNames(before) && SameNames(before, after)
    ensures Changed(after, before) == Changed(before, after)
  {
    ChangedNames(after, before);
    ChangedNames(before, after);
    forall n
      ensures n in Changed(after, before) <==> n in Changed(before, after)
    {
      if n in Changed(after, before) || n in Changed(before, after) {
        var i :| (0 <= i < |after| && after[i].name == n) || (0 <= i < |before| && before[i].name == n);
        assert Names(after, n) && Names(before, n);
        NamedAt(after, n);
        NamedAt(before, n);
        var j :| 0 <= j < |after| && after[j] == Attr(n, Get(after, n));
        var k :| 0 <= k < |before| && before[k] == Attr(n, Get(before, n));
        ChangedIff(after, before, n);
        ChangedIff(before, after, n);
      }
    }
  }

  lemma ChangedIff(after: Attrs, before: Attrs, n: string)
    requires UniqueNames(after) && Names(after, n)
    ensures n in Changed(after, before) <==> Get(after, n) != Get(before, n)
  {
    NamedAt(after, n);
    forall i | 0 <= i < |after| && after[i].name == n
      ensures after[i].value == Get(after, n)
    {
      GetAt(after, i);
    }
  }

  lemma {:induction false} ObligingPatch(fields: seq<string>, f: Feature, after: Attrs, before: Attrs, a: Answers)
    requires Obliging(a)
    requires forall i :: 0 <= i < |after| ==> Names(before, after[i].name)
    requires forall n :: n in Changed(after, before) ==> n in fields
    ensures PatchAttrs(fields, f, after, before, a).Patched?
    decreases |after|
  {
    if after != [] {
      ChangedHead(after, before);
      assert forall i :: 0 <= i < |after| - 1 ==> after[1..][i] == after[i + 1];
      var g := if after[0].value == Get(before, after[0].name) then f
               else f.(attrs := f.attrs[after[0].name := after[0].value]);
      ObligingPatch(fields, g, after[1..], before, a);
    }
  }

  /** The same layers up to feature geometry. */
  ghost predicate AlikeLayer(v: Layer, w: Layer) {
    v.(committed := map[]) == w.(committed := map[]) && Alike(v.committed, w.committed)
  }

  ghost predicate AlikeLayers(v: map<string, Layer>, w: map<string, Layer>) {
    v.Keys == w.Keys && forall id :: id in v ==> AlikeLayer(v[id], w[id])
  }

  /** What an applied patch found and did. */
  lemma AppliedPatch(l: Layer, d: Delta, ctx: Context, a: Answers)
    requires l.edits.None? && CheckedPatch(d, ctx) && Undoable(d) && AttemptOn(l, d, ctx, a).Committed?
    ensures l.vector && l.valid && l.pk.Some?
    ensures var found := FindFeature(l.committed, l.pk.value, ResolvePk(d, ctx));
      && found.One? && found.fid in l.committed
      && (forall i :: 0 <= i < |d.before.attributes| ==>
            !Disagrees(l.fields, l.committed[found.fid], d.before.attributes[i]))
      && (forall n :: n in Changed(d.after.attributes, d.before.attributes) ==> n in l.fields)
      && AttemptOn(l, d, ctx, a).layer
         == l.(committed := l.committed[found.fid := PatchedFeature(l, l.committed[found.fid], d)])
  {
    var open := l.(edits := Some(l.committed));
    FoundIsThere(l.committed, l.pk.value, ResolvePk(d, ctx));
    EditIsEffect(open, l.committed, d, ctx, a);
    var fid := FindFeature(l.committed, l.pk.value, ResolvePk(d, ctx)).fid;
    NoConflictsIff(l.fields, l.committed[fid], d.before.attributes);
    var g := PatchGeometry(open, l.committed[fid], d.after.geometry, d.before.geometry, a);
    PatchAttrsIsOverlay(l.fields, g.feature, d.after.attributes, d.before.attributes, a);
  }

  /** With QGIS obliging, a well-formed patch is applied exactly if it finds one feature that agrees. */
  lemma ObligedPatch(l: Layer, d: Delta, ctx: Context, a: Answers)
    requires l.edits.None? && l.vector && l.valid && l.pk.Some? && CheckedPatch(d, ctx) && Undoable(d) && Obliging(a)
    requires forall n :: n in Changed(d.after.attributes, d.before.attributes) ==> n in l.fields
    ensures var found := FindFeature(l.committed, l.pk.value, ResolvePk(d, ctx));
      && (found.NotFound? ==> AttemptOn(l, d, ctx, a) == Stopped(Error, l.(edits := Some(l.committed))))
      && (found.One? && (forall i :: 0 <= i < |d.before.attributes| ==>
            !Disagrees(l.fields, l.committed[found.fid], d.before.attributes[i]))
          ==> AttemptOn(l, d, ctx, a).Committed?)
  {
    var open := l.(edits := Some(l.committed));
    var found := FindFeature(l.committed, l.pk.value, ResolvePk(d, ctx));
    if found.One? {
      FoundIsThere(l.committed, l.pk.value, ResolvePk(d, ctx));
      var f := l.committed[found.fid];
      NoConflictsIff(l.fields, f, d.before.attributes);
      var g := PatchGeometry(open, f, d.after.geometry, d.before.geometry, a);
      ObligingPatch(l.fields, g.feature, d.after.attributes, d.before.attributes, a);
    }
  }

  lemma FoundIff(work: Features, pk: string, key: string, fid: Fid)
    requires forall x :: x in work && x != fid ==> !Matches(work[x], pk, key)
    requires fid in work
    ensures FindFeature(work, pk, key) == if Matches(work[fid], pk, key) then One(fid) else NotFound
  {
    if Matches(work[fid], pk, key) {
      var f :| f in work && Matches(work[f], pk, key);
      assert f == fid;
      FoundIsThere(work, pk, key);
    }
  }

  lemma OneFeatureReplaced(work: Features, fid: Fid, g: Feature, pk: string, key: string)
    requires FindFeature(work, pk, key) == One(fid) && fid in work
    ensures FindFeature(work[fid := g], pk, key) == if Matches(g, pk, key) then One(fid) else NotFound
  {
    FoundIsThere(work, pk, key);
    var work' := work[fid := g];
    assert forall x :: x in work' && x != fid ==> work'[x] == work[x];
    assert fid in work' && work'[fid] == g;
    FoundIff(work', pk, key, fid);
  }

  /** After a patch, the lookup that found its feature finds it again, exactly if the patch kept the
      primary key; otherwise it finds nothing. */
  lemma LookupAfterPatch(l: Layer, d: Delta, ctx: Context, a: Answers)
    requires l.edits.None? && CheckedPatch(d, ctx) && Undoable(d) && AttemptOn(l, d, ctx, a).Committed?
    ensures l.pk.Some? && FindFeature(AttemptOn(l, d, ctx, a).layer.committed, l.pk.value, ResolvePk(d, ctx))
         == if ChangesPk(l, d) then NotFound else FindFeature(l.committed, l.pk.value, ResolvePk(d, ctx))
  {
    AppliedPatch(l, d, ctx, a);
    hide AttemptOn;
    var pk, key := l.pk.value, ResolvePk(d, ctx);
    var fid := FindFeature(l.committed, pk, key).fid;
    FoundIsThere(l.committed, pk, key);
    var f := l.committed[fid];
    var g := PatchedFeature(l, f, d);
    var after, before := d.after.attributes, d.before.attributes;
    ChangedNames(after, before);
    if Names(after, pk) {
      ChangedIff(after, before, pk);
      NamedAt(before, pk);
    }
    assert Matches(g, pk, key) <==> !ChangesPk(l, d);
    OneFeatureReplaced(l.committed, fid, g, pk, key);
  }

  /** One inverse patch on a layer that looks as the patch left it. */
  lemma UndoLayer(l: Layer, d: Delta, ctx: Context, a: Answers, w: Layer, b: Answers)
    requires l.edits.None? && CheckedPatch(d, ctx) && Undoable(d) && AttemptOn(l, d, ctx, a).Committed?
    requires AlikeLayer(w, AttemptOn(l, d, ctx, a).layer) && Obliging(b)
    ensures var t := AttemptOn(w, InverseDelta(d), ctx, b);
      if ChangesPk(l, d) then t.Stopped? && t.failure == Error
      else t.Committed? && AlikeLayer(t.layer, l)
  {
    AppliedPatch(l, d, ctx, a);
    LookupAfterPatch(l, d, ctx, a);
    var l1 := AttemptOn(l, d, ctx, a).layer;
    hide AttemptOn, FindFeature, PatchedFeature, PatchAttrs, Changed, SameAttributes, WellFormed, Names;
    var u := InverseDelta(d);
    InverseKeepsMethod(d);
    BothChanged(d.after.attributes, d.before.attributes);
    AlikeFind(w.committed, l1.committed, l.pk.value, ResolvePk(d, ctx));
    ObligedPatch(w, u, ctx, b);
    if !ChangesPk(l, d) {
      var fid := FindFeature(l.committed, l.pk.value, ResolvePk(d, ctx)).fid;
      UndoFeature(l, l.committed[fid], d, w.committed[fid], b);
      AppliedPatch(w, u, ctx, b);
      UndoneFeature(l, l.committed[fid], d, w.committed[fid], w, b);
      UndoneRest(l.committed, w.committed, fid, PatchedFeature(l, l.committed[fid], d),
                 PatchedFeature(w, w.committed[fid], u));
    }
  }

  lemma UndoneRest(v: Features, w: Features, fid: Fid, g: Feature, h: Feature)
    requires fid in v && Alike(w, v[fid := g]) && SameAttributes(h, v[fid])
    ensures Alike(w[fid := h], v)
  {
    forall x | x in w && x != fid ensures SameAttributes(w[x], v[x]) {
      assert v[fid := g][x] == v[x];
    }
  }

  lemma UndoneFeature(l: Layer, f: Feature, d: Delta, g: Feature, w: Layer, a: Answers)
    requires Undoable(d) && Obliging(a)
    requires forall i :: 0 <= i < |d.before.attributes| ==> !Disagrees(l.fields, f, d.before.attributes[i])
    requires forall n :: n in Changed(d.after.attributes, d.before.attributes) ==> n in l.fields
    requires SameAttributes(g, PatchedFeature(l, f, d))
    ensures SameAttributes(PatchedFeature(w, g, InverseDelta(d)), f)
  {
    UndoFeature(l, f, d, g, a);
    PatchAttrsIsOverlay(l.fields, g, d.before.attributes, d.after.attributes, a);
    var p := PatchAttrs(l.fields, g, d.before.attributes, d.after.attributes, a).feature;
    assert PatchedFeature(w, g, InverseDelta(d)).attrs == p.attrs;
    forall n | n in p.attrs.Keys + f.attrs.Keys
      ensures Current(PatchedFeature(w, g, InverseDelta(d)), n) == Current(f, n)
    {
      SameEverywhere(p, f, n);
    }
  }

  // ---- undoing a list of patches ----

  lemma {:induction false} AppliedRun(layers: map<string, Layer>, ds: seq<Delta>, ctx: Context,
                                      answers: nat -> Answers, n: nat)
    requires n <= |ds| && Clean(layers)
    requires RunPrefix(Start(layers), ds, ctx, answers, n).allApplied
      && !RunPrefix(Start(layers), ds, ctx, answers, n).raised
    ensures Clean(RunPrefix(Start(layers), ds, ctx, answers, n).layers)
    ensures SameSetup(RunPrefix(Start(layers), ds, ctx, answers, n).layers, layers)
  {
    hide Step, AttemptOn, Clean;
    if n > 0 {
      var s := RunPrefix(Start(layers), ds, ctx, answers, n - 1);
      assert RunPrefix(Start(layers), ds, ctx, answers, n) == Step(s, n - 1, ds[n - 1], ctx, answers(n - 1));
      AppliedStep(s, n - 1, ds[n - 1], ctx, answers(n - 1));
      AppliedRun(layers, ds, ctx, answers, n - 1);
    }
  }

  /** Equal except for features. */
  ghost predicate SameSetup(v: map<string, Layer>, w: map<string, Layer>) {
    v.Keys == w.Keys && forall id :: id in v ==> v[id].(committed := map[]) == w[id].(committed := map[])
  }

  lemma AppliedStep(s: RunState, i: nat, d: Delta, ctx: Context, a: Answers)
    requires Step(s, i, d, ctx, a).allApplied && !Step(s, i, d, ctx, a).raised
    ensures s.allApplied && !s.raised && d.layerId in s.layers
    ensures AttemptOn(s.layers[d.layerId], d, ctx, a).Committed?
    ensures Step(s, i, d, ctx, a).layers == s.layers[d.layerId := AttemptOn(s.layers[d.layerId], d, ctx, a).layer]
    ensures Clean(s.layers) ==> Clean(Step(s, i, d, ctx, a).layers) && SameSetup(Step(s, i, d, ctx, a).layers, s.layers)
  {
  }

  /** The inverses of `ds` in reverse order. */
  function Undo(ds: seq<Delta>): (us: seq<Delta>)
    ensures |us| == |ds| && forall i :: 0 <= i < |ds| ==> us[i] == InverseDelta(ds[|ds| - 1 - i])
  {
    seq(|ds|, i requires 0 <= i < |ds| => InverseDelta(ds[|ds| - 1 - i]))
  }

  ghost predicate PkKept(layers: map<string, Layer>, d: Delta) {
    d.layerId in layers ==> !ChangesPk(layers[d.layerId], d)
  }

  /** Undoing one more patch, given that the later ones have been undone. */
  lemma UndoStep(v: map<string, Layer>, d: Delta, i: nat, ctx: Context, a: Answers, r: RunState, j: nat, b: Answers)
    requires Clean(v) && d.layerId in v && !ctx.inverse && !ctx.overwrite && Undoable(d) && Obliging(b)
    requires AttemptOn(v[d.layerId], d, ctx, a).Committed?
    requires AlikeLayers(r.layers, v[d.layerId := AttemptOn(v[d.layerId], d, ctx, a).layer])
    requires r.allApplied && !r.raised
    ensures var t := Step(r, j, InverseDelta(d), ctx, b);
      && (PkKept(v, d) <==> t.allApplied && !t.raised)
      && (PkKept(v, d) ==> AlikeLayers(t.layers, v))
  {
    UndoLayer(v[d.layerId], d, ctx, a, r.layers[d.layerId], b);
    hide AttemptOn, CheckedPatch, Undoable;
  }

  /** Every delta so far was applied. */
  ghost predicate Successful(r: RunState) {
    r.allApplied && !r.raised
  }

  /** No patch from `k` on changes a primary key. */
  ghost predicate PksKept(layers: map<string, Layer>, ds: seq<Delta>, k: nat) {
    forall i :: k <= i < |ds| ==> PkKept(layers, ds[i])
  }

  lemma OneMoreKept(layers: map<string, Layer>, ds: seq<Delta>, k: nat)
    requires k < |ds|
    ensures PksKept(layers, ds, k) <==> PkKept(layers, ds[k]) && PksKept(layers, ds, k + 1)
  {
    hide PkKept;
  }

  lemma NoneLeft(r: RunState, layers: map<string, Layer>, ds: seq<Delta>)
    requires r == Start(r.layers)
    ensures Successful(r) && PksKept(layers, ds, |ds|)
  {
  }

  lemma UndoNext(layers: map<string, Layer>, ds: seq<Delta>, ctx: Context, answers: nat -> Answers,
                 k: nat, r: RunState, j: nat, b: Answers)
    requires k < |ds| && Clean(layers) && !ctx.inverse && !ctx.overwrite && Undoable(ds[k]) && Obliging(b)
    requires Successful(RunPrefix(Start(layers), ds, ctx, answers, |ds|))
    requires Successful(r) ==> AlikeLayers(r.layers, RunPrefix(Start(layers), ds, ctx, answers, k + 1).layers)
    ensures var t := Step(r, j, InverseDelta(ds[k]), ctx, b);
      && (Successful(t) <==> Successful(r) && PkKept(layers, ds[k]))
      && (Successful(t) ==> AlikeLayers(t.layers, RunPrefix(Start(layers), ds, ctx, answers, k).layers))
  {
    hide Step, AttemptOn, Obliging, Undoable, AlikeLayers, ChangesPk, Clean, RunPrefix;
    var s := RunPrefix(Start(layers), ds, ctx, answers, k);
    if Successful(r) {
      ForwardAt(layers, ds, ctx, answers, k);
      UndoStep(s.layers, ds[k], k, ctx, answers(k), r, j, b);
      PkKeptAnywhere(s.layers, layers, ds[k]);
    } else if Successful(Step(r, j, InverseDelta(ds[k]), ctx, b)) {
      AppliedStep(r, j, InverseDelta(ds[k]), ctx, b);
    }
  }

  /** Main result on undoing: after a run that applied every patch, the inverses in reverse order
      are all applied exactly if no patch changed a primary key, and then every attribute of every
      feature is back. */
  lemma {:induction false} UndoRestores(layers: map<string, Layer>, ds: seq<Delta>, ctx: Context,
                                        answers: nat -> Answers, back: nat -> Answers, m: nat)
    requires m <= |ds| && Clean(layers) && !ctx.inverse && !ctx.overwrite
    requires forall d :: d in ds ==> Undoable(d)
    requires forall i: nat :: Obliging(back(i))
    requires Successful(RunPrefix(Start(layers), ds, ctx, answers, |ds|))
    ensures var forward := RunPrefix(Start(layers), ds, ctx, answers, |ds|);
      var undone := RunPrefix(Start(forward.layers), Undo(ds), ctx, back, m);
      && (PksKept(layers, ds, |ds| - m) <==> Successful(undone))
      && (Successful(undone) ==>
            AlikeLayers(undone.layers, RunPrefix(Start(layers), ds, ctx, answers, |ds| - m).layers))
  {
    hide Step, AttemptOn, Obliging, Undoable, AlikeLayers, PkKept, PksKept, Clean, Successful;
    var n := |ds|;
    var end := RunPrefix(Start(layers), ds, ctx, answers, n).layers;
    if m == 0 {
      AlikeItself(end);
      NoneLeft(Start(end), layers, ds);
    } else {
      UndoRestores(layers, ds, ctx, answers, back, m - 1);
      assert ds[n - m] in ds;
      var r := RunPrefix(Start(end), Undo(ds), ctx, back, m - 1);
      UndoNext(layers, ds, ctx, answers, n - m, r, m - 1, back(m - 1));
      OneMoreKept(layers, ds, n - m);
      assert RunPrefix(Start(end), Undo(ds), ctx, back, m) == Step(r, m - 1, InverseDelta(ds[n - m]), ctx, back(m - 1));
    }
  }

  lemma AlikeItself(v: map<string, Layer>)
    ensures AlikeLayers(v, v)
  {
  }

  lemma PkKeptAnywhere(v: map<string, Layer>, w: map<string, Layer>, d: Delta)
    requires SameSetup(v, w)
    ensures PkKept(v, d) <==> PkKept(w, d)
  {
    if d.layerId in v {
      assert v[d.layerId].(committed := map[]).pk == w[d.layerId].(committed := map[]).pk;
    }
  }

  /** Step `k` of a run that applied everything. */
  lemma ForwardAt(layers: map<string, Layer>, ds: seq<Delta>, ctx: Context, answers: nat -> Answers, k: nat)
    requires k < |ds| && Clean(layers)
    requires var r := RunPrefix(Start(layers), ds, ctx, answers, |ds|); r.allApplied && !r.raised
    ensures var s := RunPrefix(Start(layers), ds, ctx, answers, k);
      && Clean(s.layers) && SameSetup(s.layers, layers) && ds[k].layerId in s.layers
      && AttemptOn(s.layers[ds[k].layerId], ds[k], ctx, answers(k)).Committed?
      && RunPrefix(Start(layers), ds, ctx, answers, k + 1).layers
         == s.layers[ds[k].layerId := AttemptOn(s.layers[ds[k].layerId], ds[k], ctx, answers(k)).layer]
  {
    hide Step, AttemptOn, Clean;
    AppliedSoFar(Start(layers), ds, ctx, answers, k + 1, |ds|);
    var s := RunPrefix(Start(layers), ds, ctx, answers, k);
    assert RunPrefix(Start(layers), ds, ctx, answers, k + 1) == Step(s, k, ds[k], ctx, answers(k));
    AppliedStep(s, k, ds[k], ctx, answers(k));
    AppliedRun(layers, ds, ctx, answers, k);
  }

  lemma {:induction false} AppliedSoFar(s: RunState, ds: seq<Delta>, ctx: Context, answers: nat -> Answers, m: nat,
                                        n: nat)
    requires m <= n <= |ds|
    requires RunPrefix(s, ds, ctx, answers, n).allApplied && !RunPrefix(s, ds, ctx, answers, n).raised
    ensures RunPrefix(s, ds, ctx, answers, m).allApplied && !RunPrefix(s, ds, ctx, answers, m).raised
  {
    hide Step;
    if m < n {
      var r := RunPrefix(s, ds, ctx, answers, n - 1);
      assert RunPrefix(s, ds, ctx, answers, n) == Step(r, n - 1, ds[n - 1], ctx, answers(n - 1));
      AppliedStep(r, n - 1, ds[n - 1], ctx, answers(n - 1));
      AppliedSoFar(s, ds, ctx, answers, m, n - 1);
    }
  }
}

/**
 Exactly when an edit goes through, when it is a conflict and when it raises, and what it does then,
 said of the fields of the delta and of the features alone.
 */
module DeltaLaws {
  import opened Prelude
  import opened DeltaModel
  import opened DeltaSafety
  import opened DeltaUndo

  // ---- what the laws speak of ----

  /** An attribute that the feature does not have reads as null. */
  predicate Holds(f: Feature, name: string, value: Value) {
    if name in f.attrs then f.attrs[name] == value else value == NullValue
  }

  /** The primary key that is searched for: the one known for the client's key, else `sourcePk`. */
  predicate SearchesFor(d: Delta, ctx: Context, key: string) {
    && (d.clientKey in ctx.clientPks ==> key == ctx.clientPks[d.clientKey])
    && (d.clientKey !in ctx.clientPks ==> key == d.sourcePk)
  }

  /** Feature `fid` is the only one with this primary key. */
  ghost predicate Only(work: Features, pk: string, key: string, fid: Fid) {
    && fid in work && Holds(work[fid], pk, Text(key))
    && forall g :: g in work && g != fid ==> !Holds(work[g], pk, Text(key))
  }

  ghost predicate Several(work: Features, pk: string, key: string) {
    exists f, g :: f in work && g in work && f != g && Holds(work[f], pk, Text(key)) && Holds(work[g], pk, Text(key))
  }

  /** The feature has every value that is given for a field of the layer. */
  predicate AgreesWith(fields: seq<string>, f: Feature, attrs: Attrs) {
    forall i :: 0 <= i < |attrs| && attrs[i].name in fields ==> Holds(f, attrs[i].name, attrs[i].value)
  }

  /** Feature `fid` is found and its conflicts, if it has any, are overwritten. */
  ghost predicate MayEdit(l: Layer, work: Features, d: Delta, ctx: Context, key: string, fid: Fid)
    requires l.pk.Some?
  {
    && Only(work, l.pk.value, key, fid) && d.before.Present?
    && (ctx.overwrite || AgreesWith(l.fields, work[fid], d.before.attributes))
  }

  lemma FoundIff(work: Features, pk: string, key: string)
    ensures forall fid :: FindFeature(work, pk, key) == One(fid) <==> Only(work, pk, key, fid)
    ensures FindFeature(work, pk, key).Ambiguous? <==> Several(work, pk, key)
  {
    forall f | f in work ensures Matches(work[f], pk, key) <==> Holds(work[f], pk, Text(key)) {
    }
    hide Matches, Holds;
  }

  /** The lookup in the terms of the laws; at most one feature is the only one. */
  lemma Lookups(l: Layer, work: Features, d: Delta, ctx: Context, key: string)
    requires l.pk.Some? && SearchesFor(d, ctx, key)
    ensures var found := FindFeature(work, l.pk.value, ResolvePk(d, ctx));
      && (found.Ambiguous? <==> Several(work, l.pk.value, key))
      && (found.One? <==> exists fid :: Only(work, l.pk.value, key, fid))
      && (forall fid :: Only(work, l.pk.value, key, fid) ==> found == One(fid))
      && (found.One? ==> found.fid in work && Only(work, l.pk.value, key, found.fid))
      && ((exists fid :: MayEdit(l, work, d, ctx, key, fid)) <==>
            found.One? && d.before.Present?
            && (ctx.overwrite || Conflicts(l.fields, work[found.fid], d.before.attributes) == []))
  {
    FoundIff(work, l.pk.value, key);
    var found := FindFeature(work, l.pk.value, key);
    if found.One? {
      assert Only(work, l.pk.value, key, found.fid);
      NoConflictMeansAgreement(l.fields, work[found.fid], if d.before.Present? then d.before.attributes else []);
      assert MayEdit(l, work, d, ctx, key, found.fid) <==>
        d.before.Present? && (ctx.overwrite || Conflicts(l.fields, work[found.fid], d.before.attributes) == []);
    }
    hide FindFeature, Several, Conflicts, AgreesWith;
  }

  lemma NoConflictMeansAgreement(fields: seq<string>, f: Feature, attrs: Attrs)
    ensures Conflicts(fields, f, attrs) == [] <==> AgreesWith(fields, f, attrs)
  {
    NoConflictsIff(fields, f, attrs);
    forall i | 0 <= i < |attrs|
      ensures Disagrees(fields, f, attrs[i])
         <==> attrs[i].name in fields && !Holds(f, attrs[i].name, attrs[i].value)
    {
    }
    hide Conflicts, Disagrees, Holds;
  }

  // ---- delete ----

  /** A delete completes exactly if the old side is there, one feature has the key, it agrees with the
      old values or conflicts are overwritten, and QGIS deletes it; then that feature alone is gone. */
  lemma {:induction false} DeleteCompletesIff(l: Layer, work: Features, d: Delta, ctx: Context, a: Answers, key: string)
    requires l.pk.Some? && !ctx.inverse && d.op == "delete" && SearchesFor(d, ctx, key)
    ensures var e := EditOf(l, work, d, ctx, a);
      && (e.Edited? <==> a.deleteFeature.Done? && exists fid :: MayEdit(l, work, d, ctx, key, fid))
      && (forall fid :: e.Edited? && Only(work, l.pk.value, key, fid) ==>
            e.work.Keys == work.Keys - {fid} && forall g :: g in e.work ==> e.work[g] == work[g])
  {
    Lookups(l, work, d, ctx, key);
    assert CREATE[0] == 'c' && PATCH[0] == 'p' && d.op[0] == 'd';
    hide FindFeature, ResolvePk, Only, Several, MayEdit, Conflicts;
  }

  /** A delete raises exactly if it has no `old`, several features have the key, or the one that has it
      may be deleted and QGIS raises; an explicit null raises too, once the feature is found. */
  lemma {:induction false} DeleteRaisesIff(l: Layer, work: Features, d: Delta, ctx: Context, a: Answers, key: string)
    requires l.pk.Some? && !ctx.inverse && d.op == "delete" && SearchesFor(d, ctx, key)
    ensures var e := EditOf(l, work, d, ctx, a);
      e.Failed? && e.failure.Unknown? <==>
        || d.before.MissingKey?
        || Several(work, l.pk.value, key)
        || (d.before.NullSide? && exists fid :: Only(work, l.pk.value, key, fid))
        || (a.deleteFeature.Raises? && exists fid :: MayEdit(l, work, d, ctx, key, fid))
  {
    Lookups(l, work, d, ctx, key);
    assert CREATE[0] == 'c' && PATCH[0] == 'p' && d.op[0] == 'd';
    hide FindFeature, ResolvePk, Only, Several, MayEdit, Conflicts;
  }

  // ---- conflicts ----

  /** An edit is refused as a conflict exactly if it is a patch or a delete, does not overwrite, and
      the one feature with the key differs from a value of the old side; the names are those that
      differ, and no feature is touched. */
  lemma {:induction false} ConflictIff(l: Layer, work: Features, d: Delta, ctx: Context, a: Answers, key: string)
    requires l.pk.Some? && !ctx.inverse && SearchesFor(d, ctx, key)
    ensures var e := EditOf(l, work, d, ctx, a);
      && (e.Failed? && e.failure.Conflicting? <==>
            && (d.op == "delete" || (d.op == "patch" && !d.after.MissingKey?))
            && !ctx.overwrite && d.before.Present?
            && exists fid :: Only(work, l.pk.value, key, fid)
                             && !AgreesWith(l.fields, work[fid], d.before.attributes))
      && (e.Failed? && e.failure.Conflicting? ==> e.work == work)
  {
    FoundIff(work, l.pk.value, key);
    assert CREATE[0] == 'c' && PATCH[0] == 'p' && DELETE[0] == 'd';
    if fid :| Only(work, l.pk.value, key, fid) {
      assert FindFeature(work, l.pk.value, key) == One(fid) && work[fid := work[fid]] == work;
      if d.before.Present? {
        NoConflictMeansAgreement(l.fields, work[fid], d.before.attributes);
      }
      if d.before.Present? && d.after.Present? {
        AttrsNeverConflict(l.fields, PatchGeometry(l, work[fid], d.after.geometry, d.before.geometry, a).feature,
                           d.after.attributes, d.before.attributes, a);
      }
    }
    hide FindFeature, Only, Conflicts, AgreesWith, PatchAttrs;
  }

  lemma {:induction false} AttrsNeverConflict(fields: seq<string>, f: Feature, after: Attrs, before: Attrs, a: Answers)
    ensures var p := PatchAttrs(fields, f, after, before, a); p.Broken? ==> !p.failure.Conflicting?
    decreases |after|
  {
    if after != [] {
      AttrsNeverConflict(fields, f, after[1..], before, a);
      AttrsNeverConflict(fields, f.(attrs := f.attrs[after[0].name := after[0].value]), after[1..], before, a);
    }
  }

  lemma ConflictNames(l: Layer, work: Features, d: Delta, ctx: Context, a: Answers, key: string, fid: Fid, name: string)
    requires l.pk.Some? && !ctx.inverse && SearchesFor(d, ctx, key) && Only(work, l.pk.value, key, fid)
    requires EditOf(l, work, d, ctx, a).Failed? && EditOf(l, work, d, ctx, a).failure.Conflicting?
    ensures d.before.Present?
    ensures name in EditOf(l, work, d, ctx, a).failure.names <==>
      exists i :: 0 <= i < |d.before.attributes| && d.before.attributes[i].name == name && name in l.fields
                  && !Holds(work[fid], name, d.before.attributes[i].value)
  {
    ConflictIff(l, work, d, ctx, a, key);
    FoundIff(work, l.pk.value, key);
    assert FindFeature(work, l.pk.value, key) == One(fid);
    var attrs := d.before.attributes;
    if d.before.Present? && d.after.Present? {
      AttrsNeverConflict(l.fields, PatchGeometry(l, work[fid], d.after.geometry, d.before.geometry, a).feature,
                         d.after.attributes, attrs, a);
    }
    ConflictsAreDisagreements(l.fields, work[fid], attrs, name);
    assert EditOf(l, work, d, ctx, a).failure.names == Conflicts(l.fields, work[fid], attrs);
    forall i | 0 <= i < |attrs| && attrs[i].name == name
      ensures Disagrees(l.fields, work[fid], attrs[i]) <==> name in l.fields && !Holds(work[fid], name, attrs[i].value)
    {
    }
    hide EditOf, FindFeature, Only, Conflicts, Disagrees, Holds, PatchAttrs;
  }

  // ---- create ----

  predicate IsShape(g: Geometry, field: GeometryField) {
    if field.Wkt? then g == Shape(field.wkt) else g == NoGeometry
  }

  /** The new feature has the delta's value for every field that the delta names, the default of QGIS
      for every other field, no other attribute, and the delta's geometry. */
  ghost predicate IsCreated(l: Layer, f: Feature, side: Side, a: Answers)
    requires side.Present? && a.defaults.Some?
  {
    && (forall n :: n in f.attrs <==> n in l.fields)
    && (forall i :: 0 <= i < |side.attributes| && side.attributes[i].name in l.fields ==>
          Holds(f, side.attributes[i].name, side.attributes[i].value))
    && (forall n :: n in l.fields && (forall i :: 0 <= i < |side.attributes| ==> side.attributes[i].name != n) ==>
          f.attrs[n] == if n in a.defaults.value then a.defaults.value[n] else NullValue)
    && IsShape(f.geometry, side.geometry)
  }

  /** A create completes exactly if its geometry can be parsed, QGIS can make the feature and adds it
      under a new id; then that feature is there and every other is as it was. */
  lemma {:induction false} CreateCompletesIff(l: Layer, work: Features, d: Delta, ctx: Context, a: Answers)
    requires l.pk.Some? && !ctx.inverse && d.op == "create" && WellFormed(d)
    ensures var e := EditOf(l, work, d, ctx, a);
      && (e.Edited? <==>
            && d.after.Present? && (d.after.geometry.Wkt? ==> a.parseGeometry.Done?)
            && a.defaults.Some? && a.addFeature.Done? && a.newFid !in work)
      && (e.Edited? ==>
            && e.work.Keys == work.Keys + {a.newFid}
            && IsCreated(l, e.work[a.newFid], d.after, a)
            && forall g :: g in work ==> e.work[g] == work[g])
  {
    if d.after.Present? {
      forall i | 0 <= i < |d.after.attributes|
        ensures Names(d.after.attributes, d.after.attributes[i].name)
        ensures Get(d.after.attributes, d.after.attributes[i].name) == d.after.attributes[i].value
      {
        GetAt(d.after.attributes, i);
      }
      hide Get;
    }
  }

  /** It raises exactly if there is no new side, or QGIS raises where it gets. */
  lemma CreateRaisesIff(l: Layer, work: Features, d: Delta, ctx: Context, a: Answers)
    requires l.pk.Some? && !ctx.inverse && d.op == "create"
    ensures var e := EditOf(l, work, d, ctx, a);
      e.Failed? && e.failure.Unknown? <==>
        || !d.after.Present?
        || (d.after.geometry.Wkt? && a.parseGeometry.Raises?)
        || ((d.after.geometry.Wkt? ==> a.parseGeometry.Done?) && a.defaults.Some? && a.addFeature.Raises?)
  {
  }

  // ---- patch ----

  /** The attribute has the value that the old side gives for it; a missing one reads as null. */
  ghost predicate IsOld(before: Attrs, x: Attr) {
    x in before || (x.value == NullValue && !Names(before, x.name))
  }

  lemma OldIff(before: Attrs, x: Attr)
    requires UniqueNames(before)
    ensures IsOld(before, x) <==> Get(before, x.name) == x.value
  {
    if x in before {
      var i :| 0 <= i < |before| && before[i] == x;
      GetAt(before, i);
    }
    if Names(before, x.name) {
      NamedAt(before, x.name);
    }
  }

  /** The layer can hold a geometry, and the new side gives another than the old one. */
  predicate NewGeometry(l: Layer, after: GeometryField, before: GeometryField) {
    && l.spatial
    && ((after.Wkt? && after != before) || (after.NullGeometry? && before.Wkt?))
  }

  predicate GeometryGoesThrough(l: Layer, d: Delta, a: Answers)
    requires d.before.Present? && d.after.Present?
  {
    NewGeometry(l, d.after.geometry, d.before.geometry) ==>
      (d.after.geometry.Wkt? ==> a.parseGeometry.Done?) && a.changeGeometry.Done?
  }

  predicate GeometryRaises(l: Layer, d: Delta, a: Answers)
    requires d.before.Present? && d.after.Present?
  {
    && NewGeometry(l, d.after.geometry, d.before.geometry)
    && if d.after.geometry.Wkt? && !a.parseGeometry.Done? then a.parseGeometry.Raises? else a.changeGeometry.Raises?
  }

  /** The attribute need not be changed, or it has an old value, is a field, and QGIS changes it. */
  ghost predicate GoesThrough(fields: seq<string>, x: Attr, before: Attrs, a: Answers) {
    IsOld(before, x)
    || (Names(before, x.name) && x.name in fields && x.name !in a.refusedAttrs + a.raisingAttrs)
  }

  ghost predicate Raising(x: Attr, before: Attrs, a: Answers) {
    !IsOld(before, x) && (!Names(before, x.name) || x.name in a.raisingAttrs)
  }

  ghost predicate AllGoThrough(fields: seq<string>, after: Attrs, before: Attrs, a: Answers, n: nat)
    requires n <= |after|
  {
    forall i :: 0 <= i < n ==> GoesThrough(fields, after[i], before, a)
  }

  /** The first attribute that does not go through is one that raises. */
  ghost predicate FirstRaises(fields: seq<string>, after: Attrs, before: Attrs, a: Answers) {
    exists i :: 0 <= i < |after| && AllGoThrough(fields, after, before, a, i) && Raising(after[i], before, a)
  }

  lemma {:induction false} AttrsIff(fields: seq<string>, f: Feature, after: Attrs, before: Attrs, a: Answers)
    requires UniqueNames(before)
    ensures var p := PatchAttrs(fields, f, after, before, a);
      && (p.Patched? <==> AllGoThrough(fields, after, before, a, |after|))
      && (p.Broken? && p.failure.Unknown? <==> FirstRaises(fields, after, before, a))
    decreases |after|
  {
    if after != [] {
      var x, rest := after[0], after[1..];
      OldIff(before, x);
      AttrsIff(fields, f, rest, before, a);
      AttrsIff(fields, f.(attrs := f.attrs[x.name := x.value]), rest, before, a);
      RestGoesThrough(fields, after, before, a);
    }
  }

  lemma RestGoesThrough(fields: seq<string>, after: Attrs, before: Attrs, a: Answers)
    requires after != []
    ensures AllGoThrough(fields, after, before, a, |after|) <==>
      GoesThrough(fields, after[0], before, a) && AllGoThrough(fields, after[1..], before, a, |after| - 1)
    ensures FirstRaises(fields, after, before, a) <==>
      || Raising(after[0], before, a)
      || (GoesThrough(fields, after[0], before, a) && FirstRaises(fields, after[1..], before, a))
  {
    var rest := after[1..];
    assert forall i :: 0 <= i < |rest| ==> rest[i] == after[i + 1];
    assert forall i :: 1 <= i < |after| ==> after[i] == rest[i - 1];
    hide GoesThrough, Raising;
    if i :| 0 <= i < |after| && AllGoThrough(fields, after, before, a, i) && Raising(after[i], before, a) {
      if i > 0 {
        assert AllGoThrough(fields, rest, before, a, i - 1) && Raising(rest[i - 1], before, a);
      }
    }
    if Raising(after[0], before, a) {
      assert AllGoThrough(fields, after, before, a, 0);
    }
    if i :| 0 <= i < |rest| && AllGoThrough(fields, rest, before, a, i) && Raising(rest[i], before, a) {
      if GoesThrough(fields, after[0], before, a) {
        assert AllGoThrough(fields, after, before, a, i + 1) && Raising(after[i + 1], before, a);
      }
    }
  }

  /** `g` is `f` with the new value of every attribute whose value is not the old one, and with the
      new geometry if there is one. */
  ghost predicate IsPatched(l: Layer, f: Feature, g: Feature, d: Delta)
    requires d.before.Present? && d.after.Present?
  {
    var after, before := d.after.attributes, d.before.attributes;
    && (forall i :: 0 <= i < |after| && !IsOld(before, after[i]) ==>
          after[i].name in g.attrs && g.attrs[after[i].name] == after[i].value)
    && (forall n :: (forall i :: 0 <= i < |after| && after[i].name == n ==> IsOld(before, after[i])) ==>
          (n in g.attrs <==> n in f.attrs) && (n in f.attrs ==> g.attrs[n] == f.attrs[n]))
    && if NewGeometry(l, d.after.geometry, d.before.geometry) then IsShape(g.geometry, d.after.geometry)
       else g.geometry == f.geometry
  }

  /** A patch completes exactly if both sides are there, one feature has the key, it agrees with the
      old values or conflicts are overwritten, and geometry and every changed attribute go through;
      then that feature is patched and every other is as it was. */
  lemma {:induction false} PatchCompletesIff(l: Layer, work: Features, d: Delta, ctx: Context, a: Answers, key: string)
    requires l.pk.Some? && !ctx.inverse && d.op == "patch" && WellFormed(d) && SearchesFor(d, ctx, key)
    ensures var e := EditOf(l, work, d, ctx, a);
      && (e.Edited? <==>
            && d.before.Present? && d.after.Present? && GeometryGoesThrough(l, d, a)
            && AllGoThrough(l.fields, d.after.attributes, d.before.attributes, a, |d.after.attributes|)
            && exists fid :: MayEdit(l, work, d, ctx, key, fid))
      && (forall fid :: e.Edited? && Only(work, l.pk.value, key, fid) ==>
            && e.work.Keys == work.Keys && IsPatched(l, work[fid], e.work[fid], d)
            && forall g :: g in work && g != fid ==> e.work[g] == work[g])
  {
    Lookups(l, work, d, ctx, key);
    assert CREATE[0] == 'c' && d.op[0] == 'p';
    var found := FindFeature(work, l.pk.value, ResolvePk(d, ctx));
    hide FindFeature, ResolvePk, Only, Several, MayEdit, Conflicts, GeometryGoesThrough, AllGoThrough, IsPatched;
    if found.One? && d.before.Present? && d.after.Present? {
      PatchFoundIff(l, work[found.fid], d, ctx, a);
      hide PatchFound;
    }
  }

  lemma PatchFoundIff(l: Layer, f: Feature, d: Delta, ctx: Context, a: Answers)
    requires WellFormed(d) && d.before.Present? && d.after.Present?
    ensures var p := PatchFound(l, f, d, ctx, a); var after, before := d.after.attributes, d.before.attributes;
      var may := ctx.overwrite || Conflicts(l.fields, f, before) == [];
      && (p.Patched? <==> may && GeometryGoesThrough(l, d, a) && AllGoThrough(l.fields, after, before, a, |after|))
      && (p.Patched? ==> IsPatched(l, f, p.feature, d))
      && (p.Broken? && p.failure.Unknown? <==>
            may && (GeometryRaises(l, d, a)
                    || (GeometryGoesThrough(l, d, a) && FirstRaises(l.fields, after, before, a))))
  {
    var after, before := d.after.attributes, d.before.attributes;
    var g := PatchGeometry(l, f, d.after.geometry, d.before.geometry, a);
    AttrsIff(l.fields, g.feature, after, before, a);
    if g.Patched? && PatchAttrs(l.fields, g.feature, after, before, a).Patched? {
      PatchAttrsIsOverlay(l.fields, g.feature, after, before, a);
      OverlayIsPatched(l, f, PatchedFeature(l, f, d), d);
    }
    hide AllGoThrough, FirstRaises, PatchAttrs, Conflicts, IsPatched, Overlay;
  }

  lemma OverlayIsPatched(l: Layer, f: Feature, g: Feature, d: Delta)
    requires WellFormed(d) && d.before.Present? && d.after.Present? && g == PatchedFeature(l, f, d)
    ensures IsPatched(l, f, g, d)
  {
    hide IsOld, Overlay, Changed, Get, UniqueNames;
    var after, before := d.after.attributes, d.before.attributes;
    forall i | 0 <= i < |after| && !IsOld(before, after[i])
      ensures after[i].name in g.attrs && g.attrs[after[i].name] == after[i].value
    {
      NewIsSet(f.attrs, after, before, i);
    }
    forall n | forall i :: 0 <= i < |after| && after[i].name == n ==> IsOld(before, after[i])
      ensures (n in g.attrs <==> n in f.attrs) && (n in f.attrs ==> g.attrs[n] == f.attrs[n])
    {
      OldStays(f.attrs, after, before, n);
    }
  }

  lemma OldStays(attrs: map<string, Value>, after: Attrs, before: Attrs, n: string)
    requires UniqueNames(before) && forall i :: 0 <= i < |after| && after[i].name == n ==> IsOld(before, after[i])
    ensures var overlay := Overlay(attrs, after, before);
      (n in overlay <==> n in attrs) && (n in attrs ==> overlay[n] == attrs[n])
  {
    UnchangedIfOld(after, before, n);
    hide IsOld, Get, Changed;
  }

  lemma NewIsSet(attrs: map<string, Value>, after: Attrs, before: Attrs, i: nat)
    requires UniqueNames(after) && UniqueNames(before) && i < |after| && !IsOld(before, after[i])
    ensures after[i].name in Overlay(attrs, after, before)
    ensures Overlay(attrs, after, before)[after[i].name] == after[i].value
  {
    OldIff(before, after[i]);
    GetAt(after, i);
    assert after[i].name in Changed(after, before);
    hide IsOld, Get;
  }

  lemma UnchangedIfOld(after: Attrs, before: Attrs, n: string)
    requires UniqueNames(before) && forall i :: 0 <= i < |after| && after[i].name == n ==> IsOld(before, after[i])
    ensures n !in Changed(after, before)
  {
    if i :| 0 <= i < |after| && after[i].value != Get(before, after[i].name) && after[i].name == n {
      OldIff(before, after[i]);
    }
  }

  /** A patch raises exactly if a side is missing, several features have the key, or the one that has it
      may be patched and a side is null, its geometry raises, or its first attribute that does not go
      through raises. */
  lemma {:induction false} PatchRaisesIff(l: Layer, work: Features, d: Delta, ctx: Context, a: Answers, key: string)
    requires l.pk.Some? && !ctx.inverse && d.op == "patch" && WellFormed(d) && SearchesFor(d, ctx, key)
    ensures var e := EditOf(l, work, d, ctx, a);
      e.Failed? && e.failure.Unknown? <==>
        || d.before.MissingKey? || d.after.MissingKey?
        || Several(work, l.pk.value, key)
        || (d.before.NullSide? && exists fid :: Only(work, l.pk.value, key, fid))
        || (d.before.Present? && (exists fid :: MayEdit(l, work, d, ctx, key, fid))
            && (d.after.NullSide? || GeometryRaises(l, d, a)
                || (GeometryGoesThrough(l, d, a) && FirstRaises(l.fields, d.after.attributes, d.before.attributes, a))))
  {
    Lookups(l, work, d, ctx, key);
    assert CREATE[0] == 'c' && d.op[0] == 'p';
    var found := FindFeature(work, l.pk.value, ResolvePk(d, ctx));
    hide FindFeature, ResolvePk, Only, Several, MayEdit, Conflicts, GeometryGoesThrough, GeometryRaises, AllGoThrough,
      FirstRaises;
    if found.One? && d.before.Present? && d.after.Present? {
      PatchFoundIff(l, work[found.fid], d, ctx, a);
      hide PatchFound;
    }
  }

  lemma UnknownMethodFails(l: Layer, work: Features, d: Delta, ctx: Context, a: Answers)
    requires l.pk.Some? && !ctx.inverse && d.op !in {"create", "patch", "delete"}
    ensures EditOf(l, work, d, ctx, a) == Failed(Error, work)
  {
  }

  // ---- inverse ----

  /** With `inverse` the loop works with the delta whose sides are swapped, a missing one read as null;
      create and delete are not swapped for each other. */
  lemma InverseSwapsSides(l: Layer, work: Features, d: Delta, u: Delta, ctx: Context, a: Answers)
    requires l.pk.Some? && !ctx.inverse && d.op in {"create", "patch", "delete"}
    requires u == d.(before := u.before, after := u.after)
    requires u.before == if d.after.MissingKey? then NullSide else d.after
    requires u.after == if d.before.MissingKey? then NullSide else d.before
    ensures EditOf(l, work, d, ctx.(inverse := true), a) == EditOf(l, work, u, ctx, a)
  {
    InverseKeepsMethod(d);
    assert ResolvePk(u, ctx.(inverse := true)) == ResolvePk(u, ctx);
    assert InverseDelta(d) == u;
  }

  // ---- one iteration ----

  /** The layer can be edited. */
  predicate IsReady(s: RunState, d: Delta, a: Answers) {
    && d.layerId in s.layers
    && var l := s.layers[d.layerId]; l.vector && l.valid && l.pk.Some? && a.startEditing.Done?
  }

  ghost function EditIn(s: RunState, d: Delta, ctx: Context, a: Answers): Edit
    requires IsReady(s, d, a)
  {
    var l := s.layers[d.layerId];
    EditOf(l.(edits := Some(l.committed)), l.committed, d, ctx, a)
  }

  ghost predicate Succeeds(s: RunState, d: Delta, ctx: Context, a: Answers) {
    IsReady(s, d, a) && EditIn(s, d, ctx, a).Edited? && a.commit.Done? && !a.afterCommit.Raises?
  }

  ghost predicate Raises(s: RunState, d: Delta, ctx: Context, a: Answers) {
    && d.layerId in s.layers && s.layers[d.layerId].vector && s.layers[d.layerId].valid
    && (a.startEditing.Raises?
        || (IsReady(s, d, a)
            && match EditIn(s, d, ctx, a)
               case Failed(f, _) => f.Unknown?
               case Edited(_) => a.commit.Raises? || (a.commit.Done? && a.afterCommit.Raises?)))
  }

  ghost predicate IsConflict(s: RunState, d: Delta, ctx: Context, a: Answers) {
    IsReady(s, d, a) && EditIn(s, d, ctx, a).Failed? && EditIn(s, d, ctx, a).failure.Conflicting?
  }

  /** The handler of a failed delta raises: it rolls back what is no vector layer, or QGIS raises. */
  ghost predicate RollbackRaises(s: RunState, d: Delta, a: Answers) {
    d.layerId in s.layers && (!s.layers[d.layerId].vector || a.rollBack.Raises?)
  }

  /** Which entry an iteration from clean layers appends, if any, and what it leaves of the layers. */
  lemma StatusIff(s: RunState, i: nat, d: Delta, ctx: Context, a: Answers)
    requires !s.raised && Clean(s.layers)
    ensures var r := Step(s, i, d, ctx, a);
      var succeeds, raises := Succeeds(s, d, ctx, a), Raises(s, d, ctx, a);
      var handled := !succeeds && !raises && !RollbackRaises(s, d, a);
      && (r.raised <==> !succeeds && (raises || RollbackRaises(s, d, a)))
      && r.log == s.log
           + (if succeeds then [Entry(i, d.id, d.layerId, Applied, [])]
              else if raises then [Entry(i, d.id, d.layerId, UnknownError, [])]
              else if !handled then []
              else if IsConflict(s, d, ctx, a)
              then [Entry(i, d.id, d.layerId, Conflict, EditIn(s, d, ctx, a).failure.names)]
              else [Entry(i, d.id, d.layerId, ApplyFailed, [])])
      && (succeeds ==> r.layers == s.layers[d.layerId := s.layers[d.layerId].(committed := EditIn(s, d, ctx, a).work)])
      && (handled && a.rollBack.Done? ==> r.layers == s.layers)
  {
    hide EditOf;
    if d.layerId in s.layers {
      var l := s.layers[d.layerId];
      assert s.layers[d.layerId := l] == s.layers && l.(edits := None) == l;
    }
  }
}

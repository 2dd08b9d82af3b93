/**
 Values of the delta pipeline and what one delta does to one layer.

 A layer is its committed features plus, while it is in edit mode, the edited ones.  Everything QGIS
 decides (a call that declines or raises, default values, feature ids) is in `Answers`; a statement
 for all answers is a statement for every behaviour of QGIS.
 */
module DeltaModel {
  import opened Prelude

  datatype Value = NullValue | Text(s: string)

  datatype Attr = Attr(name: string, value: Value)

  /** A JSON object of attributes, in key order. */
  type Attrs = seq<Attr>

  predicate UniqueNames(attrs: Attrs) {
    forall i, j :: 0 <= i < j < |attrs| ==> attrs[i].name != attrs[j].name
  }

  predicate Names(attrs: Attrs, name: string) {
    exists i :: 0 <= i < |attrs| && attrs[i].name == name
  }

  function Lookup(attrs: Attrs, name: string): (r: Option<Value>)
    ensures r.Some? <==> Names(attrs, name)
    ensures r.Some? ==> exists i :: 0 <= i < |attrs| && attrs[i] == Attr(name, r.value)
  {
    if attrs == [] then None
    else if attrs[0].name == name then assert attrs[0] == Attr(name, attrs[0].value); Some(attrs[0].value)
    else
      var r := Lookup(attrs[1..], name);
      assert forall i :: 0 <= i < |attrs| - 1 ==> attrs[1..][i] == attrs[i + 1];
      r
  }

  /** `attrs.get(name)`: a missing name reads as None. */
  function Get(attrs: Attrs, name: string): Value {
    if Lookup(attrs, name).Some? then Lookup(attrs, name).value else NullValue
  }

  lemma GetAt(attrs: Attrs, i: nat)
    requires UniqueNames(attrs) && i < |attrs|
    ensures Lookup(attrs, attrs[i].name) == Some(attrs[i].value)
    ensures Get(attrs, attrs[i].name) == attrs[i].value
  {
    assert Names(attrs, attrs[i].name);
    var j :| 0 <= j < |attrs| && attrs[j] == Attr(attrs[i].name, Lookup(attrs, attrs[i].name).value);
    assert j == i;
  }

  datatype GeometryField = Unset | NullGeometry | Wkt(wkt: string)

  datatype Geometry = NoGeometry | Shape(wkt: string)

  /** The `old` (here `before`) or `new` (here `after`) part of a delta: no such key, a null, or an object. */
  datatype Side = MissingKey | NullSide | Present(geometry: GeometryField, attributes: Attrs)

  datatype Delta = Delta(id: string, layerId: string, sourcePk: string, clientKey: string,
                         op: string, before: Side, after: Side)

  const CREATE := "create"
  const PATCH := "patch"
  const DELETE := "delete"

  type Fid = int

  datatype Feature = Feature(attrs: map<string, Value>, geometry: Geometry)

  type Features = map<Fid, Feature>

  function Current(f: Feature, name: string): Value {
    if name in f.attrs then f.attrs[name] else NullValue
  }

  /** `stamped`: fields whose default value QGIS also applies on update. */
  datatype Layer = Layer(vector: bool, valid: bool, pk: Option<string>, fields: seq<string>, spatial: bool,
                         stamped: set<string>, committed: Features, edits: Option<Features>)

  /** What a reader of the layer sees: the edited features in edit mode, else the committed ones. */
  function Seen(l: Layer): Features {
    if l.edits.Some? then l.edits.value else l.committed
  }

  datatype Answers = Answers(
    startEditing: Call,
    parseGeometry: Call,
    defaults: Option<map<string, Value>>, // None: QGIS cannot make a valid feature
    newFid: Fid,
    addFeature: Call,
    changeGeometry: Call,
    refusedAttrs: set<string>,
    raisingAttrs: set<string>,
    deleteFeature: Call,
    commit: Call,
    afterCommit: Call,                    // Raises: an exception between the commit and the log entry
    rollBack: Call)

  datatype Context = Context(inverse: bool, overwrite: bool, clientPks: map<string, string>)

  datatype Failure = Error | Conflicting(names: seq<string>) | Unknown

  /** Features after an edit, complete or broken off. */
  datatype Edit = Edited(work: Features) | Failed(failure: Failure, work: Features)

  // ---- inverse_delta ----

  /** `delta.get(...)` turns a missing key into an explicit null. */
  function Fetched(s: Side): Side {
    if s.MissingKey? then NullSide else s
  }

  /** Methods (`op`) are lower case in deltas, but compared here with the upper-case enum names. */
  function InverseDelta(d: Delta): Delta {
    d.(before := Fetched(d.after), after := Fetched(d.before),
       op := if d.op == "CREATE" then "DELETE" else if d.op == "DELETE" then "CREATE" else d.op)
  }

  // ---- get_feature ----

  datatype Found = NotFound | Ambiguous | One(fid: Fid)

  function ResolvePk(d: Delta, ctx: Context): string {
    if d.clientKey in ctx.clientPks then ctx.clientPks[d.clientKey] else d.sourcePk
  }

  predicate Matches(f: Feature, pkName: string, pk: string) {
    Current(f, pkName) == Text(pk)
  }

  ghost function FindFeature(work: Features, pkName: string, pk: string): Found {
    if forall f :: f in work ==> !Matches(work[f], pkName, pk) then NotFound
    else
      var f :| f in work && Matches(work[f], pkName, pk);
      if exists g :: g in work && g != f && Matches(work[g], pkName, pk) then Ambiguous else One(f)
  }

  // ---- compare_feature ----

  predicate Disagrees(fields: seq<string>, f: Feature, a: Attr) {
    a.name in fields && Current(f, a.name) != a.value
  }

  function Conflicts(fields: seq<string>, f: Feature, attrs: Attrs): seq<string> {
    if attrs == [] then []
    else (if Disagrees(fields, f, attrs[0]) then [attrs[0].name] else []) + Conflicts(fields, f, attrs[1..])
  }

  lemma ConflictsFrom(fields: seq<string>, f: Feature, attrs: Attrs, i: nat)
    requires i < |attrs|
    ensures Conflicts(fields, f, attrs[i..])
         == if Disagrees(fields, f, attrs[i]) then [attrs[i].name] + Conflicts(fields, f, attrs[i + 1..])
            else Conflicts(fields, f, attrs[i + 1..])
  {
    assert attrs[i..][0] == attrs[i] && attrs[i..][1..] == attrs[i + 1..];
  }

  // ---- create_feature ----

  function Default(a: Answers, name: string): Value {
    if a.defaults.Some? && name in a.defaults.value then a.defaults.value[name] else NullValue
  }

  /** The new feature: the delta's value for every field it names, the default for the others. */
  function NewAttrs(fields: seq<string>, given: Attrs, a: Answers): map<string, Value> {
    map n | n in fields :: if Names(given, n) then Get(given, n) else Default(a, n)
  }

  function ParsedGeometry(g: GeometryField): Geometry {
    if g.Wkt? then Shape(g.wkt) else NoGeometry
  }

  function CreateEdit(l: Layer, work: Features, d: Delta, a: Answers): Edit {
    if !d.after.Present? then Failed(Unknown, work)
    else if d.after.geometry.Wkt? && a.parseGeometry.Refused? then Failed(Error, work)
    else if d.after.geometry.Wkt? && a.parseGeometry.Raises? then Failed(Unknown, work)
    else if a.defaults.None? then Failed(Error, work)
    else if a.addFeature.Raises? then Failed(Unknown, work)
    else if a.addFeature.Refused? || a.newFid in work then Failed(Error, work)
    else Edited(work[a.newFid := Feature(NewAttrs(l.fields, d.after.attributes, a), ParsedGeometry(d.after.geometry))])
  }

  // ---- patch_feature ----

  /** One feature after a patch, complete or broken off. */
  datatype Patch = Patched(feature: Feature) | Broken(failure: Failure, feature: Feature)

  function PatchAttrs(fields: seq<string>, f: Feature, after: Attrs, before: Attrs, a: Answers): Patch
    decreases |after|
  {
    if after == [] then Patched(f)
    else
      var name := after[0].name;
      if after[0].value == Get(before, name) then PatchAttrs(fields, f, after[1..], before, a)
      else if !Names(before, name) then Broken(Unknown, f)
      else if name in a.raisingAttrs then Broken(Unknown, f)
      else if name !in fields || name in a.refusedAttrs then Broken(Error, f)
      else PatchAttrs(fields, f.(attrs := f.attrs[name := after[0].value]), after[1..], before, a)
  }

  /** The delta names a geometry that differs from the old one and the layer can hold one. */
  predicate ChangesGeometry(l: Layer, after: GeometryField, before: GeometryField) {
    l.spatial && !after.Unset? && !(after == before || (after.NullGeometry? && before.Unset?))
  }

  function PatchGeometry(l: Layer, f: Feature, after: GeometryField, before: GeometryField, a: Answers): Patch {
    if !ChangesGeometry(l, after, before) then Patched(f)
    else if after.Wkt? && a.parseGeometry.Refused? then Broken(Error, f)
    else if after.Wkt? && a.parseGeometry.Raises? then Broken(Unknown, f)
    else if a.changeGeometry.Refused? then Broken(Error, f)
    else if a.changeGeometry.Raises? then Broken(Unknown, f)
    else Patched(f.(geometry := ParsedGeometry(after)))
  }

  function PatchFound(l: Layer, f: Feature, d: Delta, ctx: Context, a: Answers): Patch {
    if !d.before.Present? then Broken(Unknown, f)
    else
      var conflicts := Conflicts(l.fields, f, d.before.attributes);
      if conflicts != [] && !ctx.overwrite then Broken(Conflicting(conflicts), f)
      else if !d.after.Present? then Broken(Unknown, f)
      else
        var g := PatchGeometry(l, f, d.after.geometry, d.before.geometry, a);
        if g.Broken? then g
        else PatchAttrs(l.fields, g.feature, d.after.attributes, d.before.attributes, a)
  }

  ghost function PatchEdit(l: Layer, work: Features, d: Delta, ctx: Context, a: Answers): Edit
    requires l.pk.Some?
  {
    if d.after.MissingKey? || d.before.MissingKey? then Failed(Unknown, work)
    else match FindFeature(work, l.pk.value, ResolvePk(d, ctx))
      case NotFound => Failed(Error, work)
      case Ambiguous => Failed(Unknown, work)
      case One(fid) =>
        match PatchFound(l, work[fid], d, ctx, a)
        case Patched(f) => Edited(work[fid := f])
        case Broken(e, f) => Failed(e, work[fid := f])
  }

  // ---- delete_feature ----

  ghost function DeleteEdit(l: Layer, work: Features, d: Delta, ctx: Context, a: Answers): Edit
    requires l.pk.Some?
  {
    if d.before.MissingKey? then Failed(Unknown, work)
    else match FindFeature(work, l.pk.value, ResolvePk(d, ctx))
      case NotFound => Failed(Error, work)
      case Ambiguous => Failed(Unknown, work)
      case One(fid) =>
        if !d.before.Present? then Failed(Unknown, work)
        else
          var conflicts := Conflicts(l.fields, work[fid], d.before.attributes);
          if conflicts != [] && !ctx.overwrite then Failed(Conflicting(conflicts), work)
          else match a.deleteFeature
            case Done => Edited(work - {fid})
            case Refused => Failed(Error, work)
            case Raises => Failed(Unknown, work)
  }

  /** Dispatch on the method, after an inversion if one was requested. */
  ghost function EditOf(l: Layer, work: Features, d0: Delta, ctx: Context, a: Answers): Edit
    requires l.pk.Some?
  {
    var d := if ctx.inverse then InverseDelta(d0) else d0;
    if d.op == CREATE then CreateEdit(l, work, d, a)
    else if d.op == PATCH then PatchEdit(l, work, d, ctx, a)
    else if d.op == DELETE then DeleteEdit(l, work, d, ctx, a)
    else Failed(Error, work)
  }

  // ---- one iteration of the loop ----

  datatype Status = Applied | Conflict | ApplyFailed | UnknownError

  datatype Entry = Entry(index: nat, deltaId: string, layerId: string, status: Status, conflicts: seq<string>)

  /** A layer after an attempt, or the failure that stopped it and the layer as it then is. */
  datatype Attempt = Committed(layer: Layer) | Stopped(failure: Failure, layer: Layer)

  ghost function AttemptOn(l: Layer, d: Delta, ctx: Context, a: Answers): Attempt {
    if !l.vector || !l.valid then Stopped(Error, l)
    else if l.edits.None? && a.startEditing.Refused? then Stopped(Error, l)
    else if l.edits.None? && a.startEditing.Raises? then Stopped(Unknown, l)
    else
      var open := l.(edits := Some(Seen(l)));
      if open.pk.None? then Stopped(Error, open)
      else
        var e := EditOf(open, Seen(l), d, ctx, a);
        var edited := open.(edits := Some(e.work));
        if e.Failed? then Stopped(e.failure, edited)
        else match a.commit
          case Refused => Stopped(Error, edited)
          case Raises => Stopped(Unknown, edited)
          case Done =>
            var done := edited.(committed := e.work, edits := None);
            if a.afterCommit.Raises? then Stopped(Unknown, done) else Committed(done)
  }

  /** `rollBack()`: without an edit session it answers false and does nothing. */
  function RolledBack(l: Layer, a: Answers): Layer {
    if a.rollBack.Done? then l.(edits := None) else l
  }

  datatype RunState = RunState(layers: map<string, Layer>, log: seq<Entry>, allApplied: bool, raised: bool)

  function StatusOf(f: Failure): Status {
    match f
    case Error => ApplyFailed
    case Conflicting(_) => Conflict
    case Unknown => UnknownError
  }

  function NamesOf(f: Failure): seq<string> {
    if f.Conflicting? then f.names else []
  }

  function EntryOf(i: nat, d: Delta, status: Status, names: seq<string>): Entry {
    Entry(i, d.id, d.layerId, status, names)
  }

  /** One loop iteration.  A handler that itself raises (`rollBack` of a layer that is not a vector
      layer does not exist) leaves the loop without a log entry. */
  ghost function Step(s: RunState, i: nat, d: Delta, ctx: Context, a: Answers): RunState {
    if s.raised then s
    else if d.layerId !in s.layers then
      s.(log := s.log + [EntryOf(i, d, ApplyFailed, [])], allApplied := false)
    else
      match AttemptOn(s.layers[d.layerId], d, ctx, a)
      case Committed(l) =>
        s.(layers := s.layers[d.layerId := l], log := s.log + [EntryOf(i, d, Applied, [])])
      case Stopped(f, l) =>
        if f.Unknown? then
          s.(layers := s.layers[d.layerId := l], log := s.log + [EntryOf(i, d, UnknownError, [])],
             raised := true)
        else if !l.vector || a.rollBack.Raises? then
          s.(layers := s.layers[d.layerId := l], raised := true)
        else
          s.(layers := s.layers[d.layerId := RolledBack(l, a)],
             log := s.log + [EntryOf(i, d, StatusOf(f), NamesOf(f))], allApplied := false)
  }

  /** The loop over the first `n` deltas. */
  ghost function RunPrefix(s: RunState, ds: seq<Delta>, ctx: Context, answers: nat -> Answers, n: nat): RunState
    requires n <= |ds|
  {
    if n == 0 then s else Step(RunPrefix(s, ds, ctx, answers, n - 1), n - 1, ds[n - 1], ctx, answers(n - 1))
  }

  function Start(layers: map<string, Layer>): RunState {
    RunState(layers, [], true, false)
  }
}

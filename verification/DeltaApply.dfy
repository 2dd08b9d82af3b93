/**
 The apply loop as the worker runs it: layers and the delta log are updated in place, call by call.
 Every method is proved equal to the functions of DeltaModel, on every path including the failing ones.
 */
module DeltaApply {
  import opened Prelude
  import opened DeltaModel

  function SetAttr(f: Feature, name: string, value: Value): Feature {
    f.(attrs := f.attrs[name := value])
  }

  /** The layers once feature `fid` of layer `id`, in edit mode, is `f`. */
  function PutFeature(layers: map<string, Layer>, id: string, fid: Fid, f: Feature): (r: map<string, Layer>)
    requires id in layers && layers[id].edits.Some?
    ensures id in r && r[id] == layers[id].(edits := Some(layers[id].edits.value[fid := f]))
  {
    layers[id := layers[id].(edits := Some(layers[id].edits.value[fid := f]))]
  }

  lemma PutTwice(layers: map<string, Layer>, id: string, fid: Fid, f: Feature, g: Feature)
    requires id in layers && layers[id].edits.Some?
    ensures PutFeature(PutFeature(layers, id, fid, f), id, fid, g) == PutFeature(layers, id, fid, g)
  {
    var work := layers[id].edits.value;
    assert work[fid := f][fid := g] == work[fid := g];
  }

  lemma PutBack(layers: map<string, Layer>, id: string, fid: Fid)
    requires id in layers && layers[id].edits.Some? && fid in layers[id].edits.value
    ensures PutFeature(layers, id, fid, layers[id].edits.value[fid]) == layers
  {
    var work := layers[id].edits.value;
    assert work[fid := work[fid]] == work && layers[id := layers[id]] == layers;
  }

  class DeltaApplier {
    var layers: map<string, Layer>
    var log: seq<Entry>

    constructor (layers: map<string, Layer>)
      ensures this.layers == layers && log == []
    {
      this.layers := layers;
      log := [];
    }

    /** The edited features of a layer that is in edit mode. */
    function Work(id: string): Features
      requires id in layers && layers[id].edits.Some?
      reads this
    {
      layers[id].edits.value
    }

    /** The layers once the edited features of `id` are `work`. */
    function WithWork(id: string, work: Features): map<string, Layer>
      requires id in layers
      reads this
    {
      layers[id := layers[id].(edits := Some(work))]
    }

    method GetFeature(work: Features, pkName: string, pk: string) returns (found: Found)
      ensures found == FindFeature(work, pkName, pk)
    {
      found := NotFound;
      var rest: set<Fid> := work.Keys;
      while rest != {}
        invariant rest <= work.Keys
        invariant found.NotFound? ==> forall f :: f in work && f !in rest ==> !Matches(work[f], pkName, pk)
        invariant found.One? ==> found.fid in work && found.fid !in rest && Matches(work[found.fid], pkName, pk)
        invariant found.One? ==>
                    forall f :: f in work && f !in rest && f != found.fid ==> !Matches(work[f], pkName, pk)
        invariant !found.Ambiguous?
        decreases rest
      {
        SomeMember(rest);
        var f :| f in rest;
        rest := rest - {f};
        if Matches(work[f], pkName, pk) {
          if found.One? {
            assert f != found.fid && Matches(work[f], pkName, pk);
            return Ambiguous;
          }
          found := One(f);
        }
      }
    }

    method CompareFeature(fields: seq<string>, f: Feature, attrs: Attrs) returns (conflicts: seq<string>)
      ensures conflicts == Conflicts(fields, f, attrs)
    {
      conflicts := [];
      var i := 0;
      while i < |attrs|
        invariant 0 <= i <= |attrs|
        invariant Conflicts(fields, f, attrs) == conflicts + Conflicts(fields, f, attrs[i..])
      {
        ghost var rest := Conflicts(fields, f, attrs[i + 1..]);
        ConflictsFrom(fields, f, attrs, i);
        hide Conflicts;
        if Disagrees(fields, f, attrs[i]) {
          assert conflicts + ([attrs[i].name] + rest) == (conflicts + [attrs[i].name]) + rest;
          conflicts := conflicts + [attrs[i].name];
        }
        i := i + 1;
      }
    }

    /** The values handed to QGIS: those of the delta whose names are fields of the layer. */
    method PassedAttrs(fields: seq<string>, given: Attrs) returns (passed: map<string, Value>)
      ensures passed == map n | n in fields && Names(given, n) :: Get(given, n)
    {
      passed := map[];
      for i := 0 to |fields|
        invariant passed == map n | n in fields[..i] && Names(given, n) :: Get(given, n)
      {
        var n := fields[i];
        assert fields[..i + 1] == fields[..i] + [n];
        if Lookup(given, n).Some? {
          passed := passed[n := Get(given, n)];
        }
      }
      assert fields[..|fields|] == fields;
    }

    /** What QGIS makes of them: a default that also applies on update wins over a passed value. */
    function MakeFeature(fields: seq<string>, passed: map<string, Value>, stamped: set<string>, a: Answers)
      : map<string, Value>
    {
      map n | n in fields :: if n in passed && n !in stamped then passed[n] else Default(a, n)
    }

    /** Puts back the delta's values that a default applied on update has overwritten. */
    method RestoreStamped(fields: seq<string>, given: Attrs, stamped: set<string>, made: map<string, Value>)
      returns (attrs: map<string, Value>)
      requires made.Keys == set n | n in fields
      ensures attrs.Keys == made.Keys
      ensures forall n :: n in attrs ==>
                attrs[n] == if Names(given, n) && n in stamped then Get(given, n) else made[n]
    {
      attrs := made;
      for i := 0 to |fields|
        invariant attrs.Keys == made.Keys
        invariant forall n :: n in attrs ==>
                    attrs[n] == if Names(given, n) && n in stamped && n in fields[..i] then Get(given, n) else made[n]
      {
        var n := fields[i];
        if Lookup(given, n).Some? && n in stamped {
          attrs := attrs[n := Get(given, n)];
        }
      }
    }

    method CreateFeature(id: string, d: Delta, a: Answers) returns (failure: Option<Failure>)
      requires id in layers && layers[id].edits.Some?
      modifies this`layers
      ensures var e := CreateEdit(old(layers)[id], old(Work(id)), d, a);
              && layers == old(WithWork(id, e.work))
              && failure == (if e.Edited? then None else Some(e.failure))
    {
      assert layers == WithWork(id, Work(id));
      if !d.after.Present? { return Some(Unknown); }
      if d.after.geometry.Wkt? {
        if a.parseGeometry.Refused? { return Some(Error); }
        if a.parseGeometry.Raises? { return Some(Unknown); }
      }
      var fields, given := layers[id].fields, d.after.attributes;
      var passed := PassedAttrs(fields, given);
      if a.defaults.None? { return Some(Error); }
      var attrs := RestoreStamped(fields, given, layers[id].stamped,
                                  MakeFeature(fields, passed, layers[id].stamped, a));
      assert attrs == NewAttrs(fields, given, a);
      if a.addFeature.Raises? { return Some(Unknown); }
      if a.addFeature.Refused? || a.newFid in Work(id) { return Some(Error); }
      var work := Work(id)[a.newFid := Feature(attrs, ParsedGeometry(d.after.geometry))];
      layers := WithWork(id, work);
      failure := None;
    }

    method PatchGeometryOf(id: string, fid: Fid, d: Delta, a: Answers) returns (failure: Option<Failure>)
      requires id in layers && layers[id].edits.Some? && fid in Work(id)
      requires d.before.Present? && d.after.Present?
      modifies this`layers
      ensures var p := PatchGeometry(old(layers)[id], old(Work(id))[fid], d.after.geometry, d.before.geometry, a);
              && layers == old(WithWork(id, Work(id)[fid := p.feature]))
              && failure == (if p.Patched? then None else Some(p.failure))
    {
      assert Work(id)[fid := Work(id)[fid]] == Work(id) && layers == WithWork(id, Work(id));
      failure := None;
      if ChangesGeometry(layers[id], d.after.geometry, d.before.geometry) {
        if d.after.geometry.Wkt? {
          if a.parseGeometry.Refused? { return Some(Error); }
          if a.parseGeometry.Raises? { return Some(Unknown); }
        }
        if a.changeGeometry.Refused? { return Some(Error); }
        if a.changeGeometry.Raises? { return Some(Unknown); }
        layers := WithWork(id, Work(id)[fid := Work(id)[fid].(geometry := ParsedGeometry(d.after.geometry))]);
      }
    }

    /** The call of the same name on a layer. */
    method ChangeAttributeValue(id: string, fid: Fid, name: string, value: Value, a: Answers) returns (answer: Call)
      requires id in layers && layers[id].edits.Some? && fid in Work(id)
      modifies this`layers
      ensures answer == if name in a.raisingAttrs then Raises
                        else if name !in old(layers)[id].fields || name in a.refusedAttrs then Refused else Done
      ensures layers == if !answer.Done? then old(layers) else
                        PutFeature(old(layers), id, fid, SetAttr(old(Work(id))[fid], name, value))
    {
      if name in a.raisingAttrs { return Raises; }
      if name !in layers[id].fields || name in a.refusedAttrs { return Refused; }
      layers := WithWork(id, Work(id)[fid := SetAttr(Work(id)[fid], name, value)]);
      answer := Done;
    }

    /** Changes the attributes one by one; a failure leaves the earlier ones changed. */
    method PatchAttrsOf(id: string, fid: Fid, after: Attrs, before: Attrs, a: Answers)
      returns (failure: Option<Failure>)
      requires id in layers && layers[id].edits.Some? && fid in Work(id)
      modifies this`layers
      ensures var p := PatchAttrs(old(layers)[id].fields, old(Work(id))[fid], after, before, a);
              && layers == PutFeature(old(layers), id, fid, p.feature)
              && failure == (if p.Patched? then None else Some(p.failure))
    {
      ghost var layers0, f0 := layers, Work(id)[fid];
      ghost var f := f0;
      var fields := layers[id].fields;
      hide PatchAttrs, Get, Lookup, PutFeature, WithWork;
      PutBack(layers, id, fid);
      PatchAttrsEnd(fields, f, after, before, a);
      var i := 0;
      while i < |after|
        invariant 0 <= i <= |after|
        invariant layers == PutFeature(layers0, id, fid, f)
        invariant PatchAttrs(fields, f0, after, before, a) == PatchAttrs(fields, f, after[i..], before, a)
      {
        var name, value := after[i].name, after[i].value;
        PatchAttrsAt(fields, f, after, i, before, a);
        if value != Get(before, name) {
          if Lookup(before, name).None? { return Some(Unknown); }
          var answer := ChangeAttributeValue(id, fid, name, value, a);
          if answer.Raises? { return Some(Unknown); }
          if answer.Refused? { return Some(Error); }
          PutTwice(layers0, id, fid, f, SetAttr(f, name, value));
          f := SetAttr(f, name, value);
        }
        i := i + 1;
      }
      PatchAttrsEnd(fields, f, after, before, a);
      failure := None;
    }

    /** Everything once the feature is found. */
    method PatchFoundOf(id: string, fid: Fid, d: Delta, ctx: Context, a: Answers) returns (failure: Option<Failure>)
      requires id in layers && layers[id].edits.Some? && fid in Work(id)
      modifies this`layers
      ensures var p := PatchFound(old(layers)[id], old(Work(id))[fid], d, ctx, a);
              && layers == old(WithWork(id, Work(id)[fid := p.feature]))
              && failure == (if p.Patched? then None else Some(p.failure))
    {
      hide PatchAttrs, PatchGeometry, Conflicts;
      ghost var work0, f0 := Work(id), Work(id)[fid];
      assert work0[fid := f0] == work0 && layers == WithWork(id, work0);
      if !d.before.Present? { return Some(Unknown); }
      var conflicts := CompareFeature(layers[id].fields, Work(id)[fid], d.before.attributes);
      if conflicts != [] && !ctx.overwrite { return Some(Conflicting(conflicts)); }
      if !d.after.Present? { return Some(Unknown); }
      failure := PatchGeometryOf(id, fid, d, a);
      if failure.Some? { return; }
      ghost var g := Work(id)[fid];
      failure := PatchAttrsOf(id, fid, d.after.attributes, d.before.attributes, a);
      assert work0[fid := g][fid := Work(id)[fid]] == work0[fid := Work(id)[fid]];
    }

    method PatchFeature(id: string, d: Delta, ctx: Context, a: Answers) returns (failure: Option<Failure>)
      requires id in layers && layers[id].edits.Some? && layers[id].pk.Some?
      modifies this`layers
      ensures var e := PatchEdit(old(layers)[id], old(Work(id)), d, ctx, a);
              && layers == old(WithWork(id, e.work))
              && failure == (if e.Edited? then None else Some(e.failure))
    {
      hide PatchFound, ResolvePk;
      assert layers == WithWork(id, Work(id));
      if d.after.MissingKey? || d.before.MissingKey? { return Some(Unknown); }
      var found := GetFeature(Work(id), layers[id].pk.value, ResolvePk(d, ctx));
      if found.NotFound? { return Some(Error); }
      if found.Ambiguous? { return Some(Unknown); }
      failure := PatchFoundOf(id, found.fid, d, ctx, a);
    }

    method DeleteFeature(id: string, d: Delta, ctx: Context, a: Answers) returns (failure: Option<Failure>)
      requires id in layers && layers[id].edits.Some? && layers[id].pk.Some?
      modifies this`layers
      ensures var e := DeleteEdit(old(layers)[id], old(Work(id)), d, ctx, a);
              && layers == old(WithWork(id, e.work))
              && failure == (if e.Edited? then None else Some(e.failure))
    {
      assert layers == WithWork(id, Work(id));
      if d.before.MissingKey? { return Some(Unknown); }
      var layer := layers[id];
      var found := GetFeature(Work(id), layer.pk.value, ResolvePk(d, ctx));
      if found.NotFound? { return Some(Error); }
      if found.Ambiguous? { return Some(Unknown); }
      if !d.before.Present? { return Some(Unknown); }
      var conflicts := CompareFeature(layer.fields, Work(id)[found.fid], d.before.attributes);
      if conflicts != [] && !ctx.overwrite { return Some(Conflicting(conflicts)); }
      if a.deleteFeature.Refused? { return Some(Error); }
      if a.deleteFeature.Raises? { return Some(Unknown); }
      layers := WithWork(id, Work(id) - {found.fid});
      failure := None;
    }

    /** Dispatch on the method of the delta, inverted first if requested. */
    method EditFeature(id: string, d0: Delta, ctx: Context, a: Answers) returns (failure: Option<Failure>)
      requires id in layers && layers[id].edits.Some? && layers[id].pk.Some?
      modifies this`layers
      ensures var e := EditOf(old(layers)[id], old(Work(id)), d0, ctx, a);
              && layers == old(WithWork(id, e.work))
              && failure == (if e.Edited? then None else Some(e.failure))
    {
      var d := if ctx.inverse then InverseDelta(d0) else d0;
      if d.op == CREATE {
        failure := CreateFeature(id, d, a);
      } else if d.op == PATCH {
        failure := PatchFeature(id, d, ctx, a);
      } else if d.op == DELETE {
        failure := DeleteFeature(id, d, ctx, a);
      } else {
        assert layers == WithWork(id, Work(id));
        failure := Some(Error);
      }
    }

    /** The `try` body of one iteration. */
    method TryDelta(d: Delta, ctx: Context, a: Answers) returns (failure: Option<Failure>)
      requires d.layerId in layers
      modifies this`layers
      ensures var t := AttemptOn(old(layers)[d.layerId], d, ctx, a);
              && layers == old(layers)[d.layerId := t.layer]
              && failure == (if t.Committed? then None else Some(t.failure))
    {
      var id := d.layerId;
      ghost var layers0, l := layers, layers[d.layerId];
      assert layers == layers0[id := l];
      if !layers[id].vector || !layers[id].valid { return Some(Error); }
      if layers[id].edits.None? {
        if a.startEditing.Refused? { return Some(Error); }
        if a.startEditing.Raises? { return Some(Unknown); }
        layers := WithWork(id, layers[id].committed);
      }
      ghost var open := l.(edits := Some(Seen(l)));
      assert layers == layers0[id := open];
      if layers[id].pk.None? { return Some(Error); }
      failure := EditFeature(id, d, ctx, a);
      ghost var edited := open.(edits := Some(EditOf(open, Seen(l), d, ctx, a).work));
      assert layers == layers0[id := edited];
      if failure.Some? { return; }
      if a.commit.Refused? { return Some(Error); }
      if a.commit.Raises? { return Some(Unknown); }
      layers := layers[id := layers[id].(committed := Work(id), edits := None)];
      assert layers == layers0[id := edited.(committed := edited.edits.value, edits := None)];
      if a.afterCommit.Raises? { return Some(Unknown); }
    }

    /** One iteration: the `try` body and its two handlers. */
    method ApplyDelta(i: nat, d: Delta, ctx: Context, a: Answers, allApplied: bool)
      returns (allApplied': bool, raised: bool)
      modifies this
      ensures RunState(layers, log, allApplied', raised)
           == Step(RunState(old(layers), old(log), allApplied, false), i, d, ctx, a)
    {
      allApplied', raised := allApplied, false;
      if d.layerId !in layers {
        log := log + [EntryOf(i, d, ApplyFailed, [])];
        allApplied' := false;
        return;
      }
      var failure := TryDelta(d, ctx, a);
      if failure.None? {
        log := log + [EntryOf(i, d, Applied, [])];
      } else if failure.value.Unknown? {
        log := log + [EntryOf(i, d, UnknownError, [])];
        raised := true;
      } else {
        if !layers[d.layerId].vector || a.rollBack.Raises? {
          raised := true;
          return;
        }
        layers := layers[d.layerId := RolledBack(layers[d.layerId], a)];
        allApplied' := false;
        log := log + [EntryOf(i, d, StatusOf(failure.value), NamesOf(failure.value))];
      }
    }

    /** `apply_deltas_without_transaction`; `raised` stands for an exception leaving it. */
    method ApplyDeltasWithoutTransaction(ds: seq<Delta>, ctx: Context, answers: nat -> Answers)
      returns (allApplied: bool, raised: bool)
      modifies this
      ensures RunState(layers, log, allApplied, raised)
           == RunPrefix(RunState(old(layers), old(log), true, false), ds, ctx, answers, |ds|)
    {
      ghost var s0 := RunState(layers, log, true, false);
      hide Step;
      allApplied, raised := true, false;
      var i := 0;
      while i < |ds|
        invariant 0 <= i <= |ds| && !raised
        invariant RunState(layers, log, allApplied, raised) == RunPrefix(s0, ds, ctx, answers, i)
      {
        allApplied, raised := ApplyDelta(i, ds[i], ctx, answers(i), allApplied);
        i := i + 1;
        if raised {
          StoppedStaysStopped(s0, ds, ctx, answers, i, |ds|);
          return;
        }
      }
    }
  }

  lemma PatchAttrsAt(fields: seq<string>, f: Feature, after: Attrs, i: nat, before: Attrs, a: Answers)
    requires i < |after|
    ensures var name, value := after[i].name, after[i].value;
      PatchAttrs(fields, f, after[i..], before, a)
      == if value == Get(before, name) then PatchAttrs(fields, f, after[i + 1..], before, a)
         else if Lookup(before, name).None? || name in a.raisingAttrs then Broken(Unknown, f)
         else if name !in fields || name in a.refusedAttrs then Broken(Error, f)
         else PatchAttrs(fields, SetAttr(f, name, value), after[i + 1..], before, a)
  {
    assert after[i..][0] == after[i] && after[i..][1..] == after[i + 1..];
  }

  lemma PatchAttrsEnd(fields: seq<string>, f: Feature, after: Attrs, before: Attrs, a: Answers)
    ensures PatchAttrs(fields, f, after[|after|..], before, a) == Patched(f)
    ensures after[0..] == after
  {
  }

  lemma SomeMember(s: set<Fid>)
    ensures s == {} || exists f :: f in s
  {
    if forall f: Fid :: f !in s {
      assert s == {};
    }
  }

  /** Nothing happens after an exception has left the loop. */
  lemma {:induction false} StoppedStaysStopped(s: RunState, ds: seq<Delta>, ctx: Context, answers: nat -> Answers,
                                               m: nat, n: nat)
    requires m <= n <= |ds| && RunPrefix(s, ds, ctx, answers, m).raised
    ensures RunPrefix(s, ds, ctx, answers, n) == RunPrefix(s, ds, ctx, answers, m)
  {
    if m < n {
      StoppedStaysStopped(s, ds, ctx, answers, m, n - 1);
    }
  }
}

/**
 What the apply loop guarantees: a complete log, one atomic effect per applied delta, none for the
 others.  And when it does not: a refused rollback.
 */
module DeltaSafety {
  import opened Prelude
  import opened DeltaModel

  // ---- the log ----

  /** The exception handler of iteration `i` raises itself, so the delta gets no log entry. */
  ghost predicate HandlerRaises(s: RunState, d: Delta, ctx: Context, a: Answers) {
    && d.layerId in s.layers
    && var t := AttemptOn(s.layers[d.layerId], d, ctx, a);
       t.Stopped? && !t.failure.Unknown? && (!t.layer.vector || a.rollBack.Raises?)
  }

  ghost predicate EntryFor(e: Entry, i: nat, d: Delta) {
    e.index == i && e.deltaId == d.id && e.layerId == d.layerId
  }

  ghost predicate AllApplied(log: seq<Entry>) {
    forall i :: 0 <= i < |log| ==> log[i].status == Applied
  }

  /** Iterations among the first `n` that an exception did not leave. */
  ghost function Completed(s: RunState, ds: seq<Delta>, ctx: Context, answers: nat -> Answers, n: nat): (k: nat)
    requires n <= |ds|
    ensures k <= n
    ensures !RunPrefix(s, ds, ctx, answers, n).raised ==> k == n
  {
    if n == 0 || !RunPrefix(s, ds, ctx, answers, n).raised then n
    else Completed(s, ds, ctx, answers, n - 1)
  }

  lemma StepExtendsLog(s: RunState, i: nat, d: Delta, ctx: Context, a: Answers)
    requires !s.raised
    ensures var r := Step(s, i, d, ctx, a);
      if r.raised && HandlerRaises(s, d, ctx, a) then r.log == s.log
      else |r.log| == |s.log| + 1 && r.log[..|s.log|] == s.log && EntryFor(r.log[|s.log|], i, d)
           && (r.raised <==> r.log[|s.log|].status == UnknownError)
           && (r.allApplied <==> s.allApplied && (r.raised || r.log[|s.log|].status == Applied))
  {
  }

  /** One entry per delta in order; the loop answers true iff all are Applied; after an exception
      the log stops at the delta it hit, whose entry is the only UnknownError, unless the exception
      came from the handler: then that delta has no entry at all. */
  lemma {:induction false} LogIsComplete(layers: map<string, Layer>, ds: seq<Delta>, ctx: Context,
                                         answers: nat -> Answers, n: nat)
    requires n <= |ds|
    ensures var r := RunPrefix(Start(layers), ds, ctx, answers, n);
            var k := Completed(Start(layers), ds, ctx, answers, n);
      && |r.log| <= n
      && (forall i :: 0 <= i < |r.log| ==> EntryFor(r.log[i], i, ds[i]))
      && (forall i :: 0 <= i < |r.log| && i < k ==> r.log[i].status != UnknownError)
      && (!r.raised ==> |r.log| == n && (r.allApplied <==> AllApplied(r.log)))
      && (r.raised ==> k < n)
      && (r.raised ==>
            if HandlerRaises(RunPrefix(Start(layers), ds, ctx, answers, k), ds[k], ctx, answers(k))
            then |r.log| == k
            else |r.log| == k + 1 && r.log[k].status == UnknownError)
  {
    hide Step, AttemptOn, HandlerRaises;
    if n > 0 {
      LogIsComplete(layers, ds, ctx, answers, n - 1);
      var s := RunPrefix(Start(layers), ds, ctx, answers, n - 1);
      var r := RunPrefix(Start(layers), ds, ctx, answers, n);
      if s.raised {
        assert r == s by { StepAfterException(s, n - 1, ds[n - 1], ctx, answers(n - 1)); }
      } else {
        StepExtendsLog(s, n - 1, ds[n - 1], ctx, answers(n - 1));
        assert r == Step(s, n - 1, ds[n - 1], ctx, answers(n - 1));
      }
    }
  }

  lemma StepAfterException(s: RunState, i: nat, d: Delta, ctx: Context, a: Answers)
    requires s.raised
    ensures Step(s, i, d, ctx, a) == s
  {
  }

  // ---- the meaning of a delta ----

  /** Names whose value the patch changes. */
  function Changed(after: Attrs, before: Attrs): set<string> {
    set i | 0 <= i < |after| && after[i].value != Get(before, after[i].name) :: after[i].name
  }

  function Overlay(attrs: map<string, Value>, after: Attrs, before: Attrs): map<string, Value> {
    map n | n in attrs.Keys + Changed(after, before) ::
      if n in Changed(after, before) then Get(after, n) else attrs[n]
  }

  function PatchedFeature(l: Layer, f: Feature, d: Delta): Feature
    requires d.before.Present? && d.after.Present?
  {
    Feature(Overlay(f.attrs, d.after.attributes, d.before.attributes),
            if ChangesGeometry(l, d.after.geometry, d.before.geometry) then ParsedGeometry(d.after.geometry)
            else f.geometry)
  }

  /** The features after delta `d0` as one atomic change, without buffers or call order. */
  ghost function Effect(l: Layer, work: Features, d0: Delta, ctx: Context, a: Answers): Features {
    var d := if ctx.inverse then InverseDelta(d0) else d0;
    if d.op == CREATE && d.after.Present? then
      work[a.newFid := Feature(NewAttrs(l.fields, d.after.attributes, a), ParsedGeometry(d.after.geometry))]
    else if l.pk.Some? && FindFeature(work, l.pk.value, ResolvePk(d, ctx)).One? then
      var fid := FindFeature(work, l.pk.value, ResolvePk(d, ctx)).fid;
      if fid !in work then work
      else if d.op == DELETE then work - {fid}
      else if d.op == PATCH && d.before.Present? && d.after.Present? then
        work[fid := PatchedFeature(l, work[fid], d)]
      else work
    else work
  }

  predicate UniqueKeys(s: Side) {
    s.Present? ==> UniqueNames(s.attributes)
  }

  /** The attribute objects of a delta come from JSON, so their keys are unique. */
  predicate WellFormed(d: Delta) {
    UniqueKeys(d.before) && UniqueKeys(d.after)
  }

  lemma {:induction false} PatchAttrsIsOverlay(fields: seq<string>, f: Feature, after: Attrs, before: Attrs, a: Answers)
    requires UniqueNames(after) && PatchAttrs(fields, f, after, before, a).Patched?
    ensures PatchAttrs(fields, f, after, before, a).feature == Feature(Overlay(f.attrs, after, before), f.geometry)
    ensures forall n :: n in Changed(after, before) ==> n in fields
    decreases |after|
  {
    ChangedNames(after, before);
    if after == [] {
      assert Overlay(f.attrs, after, before) == f.attrs;
    } else {
      OverlayHead(f.attrs, after, before);
      PatchAttrsIsOverlay(fields, f.(attrs := Put(f.attrs, after[0], before)), after[1..], before, a);
      ChangedHead(after, before);
    }
  }

  lemma ChangedNames(after: Attrs, before: Attrs)
    ensures forall n :: n in Changed(after, before) ==> Names(after, n)
  {
  }

  function Put(attrs: map<string, Value>, a: Attr, before: Attrs): map<string, Value> {
    if a.value == Get(before, a.name) then attrs else attrs[a.name := a.value]
  }

  /** Overlaying all changes is putting the first and overlaying the rest. */
  lemma OverlayHead(attrs: map<string, Value>, after: Attrs, before: Attrs)
    requires UniqueNames(after) && after != []
    ensures Overlay(attrs, after, before) == Overlay(Put(attrs, after[0], before), after[1..], before)
  {
    var rest := after[1..];
    ChangedHead(after, before);
    ChangedLookup(after, before);
    var put := Put(attrs, after[0], before);
    var all, tail := Changed(after, before), Changed(rest, before);
    assert attrs.Keys + all == put.Keys + tail;
    forall n | n in attrs.Keys + all
      ensures Overlay(attrs, after, before)[n] == Overlay(put, rest, before)[n]
    {
      hide Changed, Get;
    }
  }

  lemma ChangedLookup(after: Attrs, before: Attrs)
    requires UniqueNames(after) && after != []
    ensures Get(after, after[0].name) == after[0].value
    ensures forall n :: n in Changed(after[1..], before) ==> n != after[0].name && Get(after, n) == Get(after[1..], n)
  {
    var rest := after[1..];
    GetAt(after, 0);
    forall n | n in Changed(rest, before)
      ensures n != after[0].name && Get(after, n) == Get(rest, n)
    {
      var i :| 0 <= i < |rest| && rest[i].value != Get(before, rest[i].name) && rest[i].name == n;
      assert rest[i] == after[i + 1];
    }
  }

  lemma ChangedHead(after: Attrs, before: Attrs)
    requires after != []
    ensures Changed(after, before)
         == Changed(after[1..], before) + if after[0].value == Get(before, after[0].name) then {} else {after[0].name}
  {
    var rest := after[1..];
    assert forall i :: 0 <= i < |rest| ==> rest[i] == after[i + 1];
    assert forall i :: 1 <= i < |after| ==> after[i] == rest[i - 1];
    forall n | n in Changed(after, before)
      ensures n in Changed(rest, before) || (n == after[0].name && after[0].value != Get(before, n))
    {
      var i :| 0 <= i < |after| && after[i].value != Get(before, after[i].name) && after[i].name == n;
      if i > 0 { assert rest[i - 1].name == n; }
    }
    forall n | n in Changed(rest, before)
      ensures n in Changed(after, before)
    {
      var i :| 0 <= i < |rest| && rest[i].value != Get(before, rest[i].name) && rest[i].name == n;
      assert after[i + 1].name == n;
    }
  }

  lemma FoundIsThere(work: Features, pkName: string, pk: string)
    ensures var r := FindFeature(work, pkName, pk);
            r.One? ==> r.fid in work && Matches(work[r.fid], pkName, pk)
                       && forall g :: g in work && g != r.fid ==> !Matches(work[g], pkName, pk)
  {
  }

  /** A completed edit is the atomic effect of its delta. */
  lemma EditIsEffect(l: Layer, work: Features, d: Delta, ctx: Context, a: Answers)
    requires l.pk.Some? && WellFormed(d) && EditOf(l, work, d, ctx, a).Edited?
    ensures EditOf(l, work, d, ctx, a).work == Effect(l, work, d, ctx, a)
  {
    var dd := if ctx.inverse then InverseDelta(d) else d;
    if dd.op == PATCH {
      FoundIsThere(work, l.pk.value, ResolvePk(dd, ctx));
      var fid := FindFeature(work, l.pk.value, ResolvePk(dd, ctx)).fid;
      var g := PatchGeometry(l, work[fid], dd.after.geometry, dd.before.geometry, a);
      PatchAttrsIsOverlay(l.fields, g.feature, dd.after.attributes, dd.before.attributes, a);
    }
  }

  // ---- atomicity ----

  /** No layer is in edit mode. */
  ghost predicate Clean(layers: map<string, Layer>) {
    forall id :: id in layers ==> layers[id].edits.None?
  }

  /** The delta fails while its layer is in edit mode, and `rollBack` answers false. */
  ghost predicate LeavesOpen(s: RunState, d: Delta, ctx: Context, a: Answers) {
    && d.layerId in s.layers
    && var t := AttemptOn(s.layers[d.layerId], d, ctx, a);
       t.Stopped? && !t.failure.Unknown? && t.layer.vector && a.rollBack.Refused? && t.layer.edits.Some?
  }

  /** No delta before `n` has left a layer open. */
  ghost predicate NoneLeftOpen(s: RunState, ds: seq<Delta>, ctx: Context, answers: nat -> Answers, n: nat)
    requires n <= |ds|
  {
    forall k :: 0 <= k < n ==> !LeavesOpen(RunPrefix(s, ds, ctx, answers, k), ds[k], ctx, answers(k))
  }

  /** Every loop head up to `n` finds all layers out of edit mode. */
  ghost predicate HeadsClean(s: RunState, ds: seq<Delta>, ctx: Context, answers: nat -> Answers, n: nat)
    requires n <= |ds|
  {
    forall k :: 0 <= k <= n && !RunPrefix(s, ds, ctx, answers, k).raised ==>
                  Clean(RunPrefix(s, ds, ctx, answers, k).layers)
  }

  lemma StepCleanAt(s: RunState, ds: seq<Delta>, ctx: Context, answers: nat -> Answers, n: nat)
    requires n < |ds| && !RunPrefix(s, ds, ctx, answers, n + 1).raised
    ensures !RunPrefix(s, ds, ctx, answers, n).raised
    ensures Clean(RunPrefix(s, ds, ctx, answers, n).layers) ==>
      (Clean(RunPrefix(s, ds, ctx, answers, n + 1).layers)
       <==> !LeavesOpen(RunPrefix(s, ds, ctx, answers, n), ds[n], ctx, answers(n)))
  {
    hide Step, AttemptOn, LeavesOpen, Clean;
    var before := RunPrefix(s, ds, ctx, answers, n);
    assert RunPrefix(s, ds, ctx, answers, n + 1) == Step(before, n, ds[n], ctx, answers(n));
    if before.raised {
      StepAfterException(before, n, ds[n], ctx, answers(n));
    } else if Clean(before.layers) {
      StepCleanIff(before, n, ds[n], ctx, answers(n));
    }
  }

  /** While no exception has left the loop, all loop heads are clean exactly if no delta has left a
      layer open. */
  lemma {:induction false} HeadsAreCleanIff(s: RunState, ds: seq<Delta>, ctx: Context, answers: nat -> Answers, n: nat)
    requires n <= |ds| && Clean(s.layers) && !RunPrefix(s, ds, ctx, answers, n).raised
    ensures HeadsClean(s, ds, ctx, answers, n) <==> NoneLeftOpen(s, ds, ctx, answers, n)
  {
    hide RunPrefix, LeavesOpen, Clean;
    if n == 0 {
      assert RunPrefix(s, ds, ctx, answers, 0) == s by { NoSteps(s, ds, ctx, answers); }
    } else {
      StepCleanAt(s, ds, ctx, answers, n - 1);
      HeadsAreCleanIff(s, ds, ctx, answers, n - 1);
    }
  }

  lemma NoSteps(s: RunState, ds: seq<Delta>, ctx: Context, answers: nat -> Answers)
    ensures RunPrefix(s, ds, ctx, answers, 0) == s
  {
  }

  lemma StepCleanIff(s: RunState, i: nat, d: Delta, ctx: Context, a: Answers)
    requires Clean(s.layers) && !Step(s, i, d, ctx, a).raised
    ensures Clean(Step(s, i, d, ctx, a).layers) <==> !LeavesOpen(s, d, ctx, a)
  {
    if LeavesOpen(s, d, ctx, a) {
      assert Step(s, i, d, ctx, a).layers[d.layerId].edits.Some?;
    }
  }

  /** The layers as their committed features alone. */
  function CommittedOnly(layers: map<string, Layer>): map<string, Layer> {
    map id | id in layers :: layers[id].(edits := None)
  }

  ghost function ApplyEffect(layers: map<string, Layer>, d: Delta, ctx: Context, a: Answers): map<string, Layer> {
    if d.layerId in layers then
      var l := layers[d.layerId];
      layers[d.layerId := l.(committed := Effect(l, l.committed, d, ctx, a))]
    else layers
  }

  /** The pure fold: the effects of the first `n` deltas that the log calls Applied, in order. */
  ghost function Folded(layers: map<string, Layer>, ds: seq<Delta>, ctx: Context, answers: nat -> Answers,
                        log: seq<Entry>, n: nat): map<string, Layer>
    requires n <= |ds|
  {
    if n == 0 then layers
    else
      var prev := Folded(layers, ds, ctx, answers, log, n - 1);
      if n <= |log| && log[n - 1].status == Applied then ApplyEffect(prev, ds[n - 1], ctx, answers(n - 1)) else prev
  }

  /** An attempt on a clean layer commits the whole effect or leaves the committed features alone. */
  lemma AttemptIsAtomic(l: Layer, d: Delta, ctx: Context, a: Answers)
    requires l.edits.None? && WellFormed(d)
    ensures var t := AttemptOn(l, d, ctx, a);
      var done := l.(committed := Effect(l, l.committed, d, ctx, a));
      if t.Committed? then t.layer == done
      else || t.layer.(edits := None) == l
           || (t.failure.Unknown? && a.afterCommit.Raises? && t.layer.(edits := None) == done)
  {
    var open := l.(edits := Some(l.committed));
    if l.pk.Some? && EditOf(open, l.committed, d, ctx, a).Edited? {
      EditIsEffect(open, l.committed, d, ctx, a);
      assert Effect(open, l.committed, d, ctx, a) == Effect(l, l.committed, d, ctx, a) by { hide EditOf, AttemptOn; }
    }
    hide EditOf, Effect;
  }

  /** One step from clean layers: an applied delta has its whole effect, any other none, except one
      that raised after its commit. */
  lemma StepIsAtomic(s: RunState, i: nat, d: Delta, ctx: Context, a: Answers)
    requires Clean(s.layers) && !s.raised && |s.log| == i && WellFormed(d)
    ensures var r := Step(s, i, d, ctx, a);
      if |r.log| == i + 1 && r.log[i].status == Applied
      then !r.raised && r.layers == ApplyEffect(s.layers, d, ctx, a)
      else
        || CommittedOnly(r.layers) == s.layers
        || (r.raised && a.afterCommit.Raises? && CommittedOnly(r.layers) == ApplyEffect(s.layers, d, ctx, a))
  {
    hide AttemptOn, Effect, WellFormed, CommittedOnly;
    if d.layerId in s.layers {
      AttemptIsAtomic(s.layers[d.layerId], d, ctx, a);
      CommittedOfOne(s.layers, d.layerId, Step(s, i, d, ctx, a).layers[d.layerId]);
    } else {
      CleanIsCommitted(s.layers);
    }
  }

  lemma CommittedOfOne(layers: map<string, Layer>, id: string, l: Layer)
    requires Clean(layers) && id in layers
    ensures CommittedOnly(layers[id := l]) == layers[id := l.(edits := None)]
    ensures layers[id := layers[id]] == layers
  {
  }

  lemma CleanIsCommitted(layers: map<string, Layer>)
    requires Clean(layers)
    ensures CommittedOnly(layers) == layers
  {
  }

  lemma {:induction false} FoldUsesPrefix(layers: map<string, Layer>, ds: seq<Delta>, ctx: Context,
                                          answers: nat -> Answers, log: seq<Entry>, more: seq<Entry>, n: nat)
    requires n <= |ds| && n <= |log| && log <= more
    ensures Folded(layers, ds, ctx, answers, log, n) == Folded(layers, ds, ctx, answers, more, n)
  {
    if n > 0 {
      FoldUsesPrefix(layers, ds, ctx, answers, log, more, n - 1);
    }
  }

  /** After `k` of `n` iterations without exception, run state `r` holds the fold of its log; a raising
      delta `k` has added nothing, or all of its effect. */
  ghost predicate HoldsFold(layers: map<string, Layer>, ds: seq<Delta>, ctx: Context, answers: nat -> Answers,
                            r: RunState, k: nat, n: nat)
    requires k <= n <= |ds|
  {
    var fold := Folded(layers, ds, ctx, answers, r.log, k);
    && (k == n ==> r.layers == fold)
    && (k < n ==>
          || CommittedOnly(r.layers) == fold
          || (answers(k).afterCommit.Raises? && CommittedOnly(r.layers) == ApplyEffect(fold, ds[k], ctx, answers(k))))
  }

  lemma FoldStep(layers: map<string, Layer>, ds: seq<Delta>, ctx: Context, answers: nat -> Answers,
                 s: RunState, i: nat)
    requires i < |ds| && !s.raised && Clean(s.layers) && |s.log| == i && WellFormed(ds[i])
    requires HoldsFold(layers, ds, ctx, answers, s, i, i)
    requires !LeavesOpen(s, ds[i], ctx, answers(i))
    ensures var r := Step(s, i, ds[i], ctx, answers(i));
            HoldsFold(layers, ds, ctx, answers, r, if r.raised then i else i + 1, i + 1)
  {
    hide AttemptOn, ApplyEffect;
    var r := Step(s, i, ds[i], ctx, answers(i));
    StepIsAtomic(s, i, ds[i], ctx, answers(i));
    StepExtendsLog(s, i, ds[i], ctx, answers(i));
    FoldUsesPrefix(layers, ds, ctx, answers, s.log, r.log, i);
    hide Step;
    if !r.raised {
      StepCleanIff(s, i, ds[i], ctx, answers(i));
      CleanIsCommitted(r.layers);
    }
  }

  lemma HeadFacts(layers: map<string, Layer>, ds: seq<Delta>, ctx: Context, answers: nat -> Answers, n: nat)
    requires n < |ds| && Clean(layers) && !RunPrefix(Start(layers), ds, ctx, answers, n).raised
    requires NoneLeftOpen(Start(layers), ds, ctx, answers, n + 1)
    ensures var s := RunPrefix(Start(layers), ds, ctx, answers, n);
            Clean(s.layers) && |s.log| == n && !LeavesOpen(s, ds[n], ctx, answers(n))
  {
    hide RunPrefix, LeavesOpen, Clean, HandlerRaises, EntryFor, AllApplied;
    LogIsComplete(layers, ds, ctx, answers, n);
    HeadsAreCleanIff(Start(layers), ds, ctx, answers, n);
  }

  lemma CompletedStep(s: RunState, ds: seq<Delta>, ctx: Context, answers: nat -> Answers, n: nat)
    requires n < |ds|
    ensures var before, r := RunPrefix(s, ds, ctx, answers, n), RunPrefix(s, ds, ctx, answers, n + 1);
      && r == Step(before, n, ds[n], ctx, answers(n))
      && if before.raised
         then r == before && Completed(s, ds, ctx, answers, n + 1) == Completed(s, ds, ctx, answers, n)
         else Completed(s, ds, ctx, answers, n + 1) == if r.raised then n else n + 1
  {
    hide Step;
    var before := RunPrefix(s, ds, ctx, answers, n);
    if before.raised {
      StepAfterException(before, n, ds[n], ctx, answers(n));
    }
  }

  /** Main result: if no rollback is refused, the loop refines the fold.  Committed layers hold the
      effects of exactly the Applied deltas, in order; a delta that failed after a partial edit is
      the identity.  After an exception the same holds of the deltas before it, and the delta it hit
      has no effect or, if the exception came after its commit, all of it. */
  lemma {:induction false} LoopRefinesFold(layers: map<string, Layer>, ds: seq<Delta>, ctx: Context,
                                           answers: nat -> Answers, n: nat)
    requires n <= |ds| && Clean(layers)
    requires forall d :: d in ds ==> WellFormed(d)
    requires NoneLeftOpen(Start(layers), ds, ctx, answers, n)
    ensures HoldsFold(layers, ds, ctx, answers, RunPrefix(Start(layers), ds, ctx, answers, n),
                      Completed(Start(layers), ds, ctx, answers, n), n)
  {
    if n > 0 {
      hide Step, AttemptOn, LeavesOpen, Clean, WellFormed, Folded, Completed, RunPrefix;
      LoopRefinesFold(layers, ds, ctx, answers, n - 1);
      CompletedStep(Start(layers), ds, ctx, answers, n - 1);
      var s := RunPrefix(Start(layers), ds, ctx, answers, n - 1);
      if !s.raised {
        HeadFacts(layers, ds, ctx, answers, n - 1);
        assert ds[n - 1] in ds;
        FoldStep(layers, ds, ctx, answers, s, n - 1);
      } else {
        RaisedIsIncomplete(Start(layers), ds, ctx, answers, n - 1);
      }
    }
  }

  lemma {:induction false} RaisedIsIncomplete(s: RunState, ds: seq<Delta>, ctx: Context, answers: nat -> Answers,
                                              n: nat)
    requires n <= |ds| && !s.raised && RunPrefix(s, ds, ctx, answers, n).raised
    ensures Completed(s, ds, ctx, answers, n) < n
  {
    hide Step;
  }
}

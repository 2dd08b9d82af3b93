/** Inputs on which the apply loop does less than one might expect of it. */
module DeltaLimits {
  import opened Prelude
  import opened DeltaModel
  import opened DeltaSafety

  const ID := "id"
  const A := "a"
  const B := "b"

  function Row(a: string, b: string): Feature {
    Feature(map[ID := Text("1"), A := Text(a), B := Text(b)], NoGeometry)
  }

  function OneRow(a: string, b: string): Layer {
    Layer(true, true, Some(ID), [ID, A, B], false, {}, map[7 := Row(a, b)], None)
  }

  function Quiet(): Answers {
    Answers(Done, Done, None, 0, Done, Done, {}, {}, Done, Done, Done, Done)
  }

  function PatchOf(id: string, before: Attrs, after: Attrs): Delta {
    Delta(id, "layer", "1", "key", PATCH, Present(Unset, before), Present(Unset, after))
  }

  lemma RowIsFound(work: Features, a: string, b: string)
    requires work == map[7 := Row(a, b)]
    ensures FindFeature(work, ID, "1") == One(7)
  {
    assert A != ID && B != ID;
    assert Matches(work[7], ID, "1");
  }

  function Both(a: string, b: string): Attrs {
    [Attr(A, Text(a)), Attr(B, Text(b))]
  }

  /** The first patch is refused `b` after it has changed `a`, and so is its rollback. */
  function Refusing(): Answers {
    Quiet().(refusedAttrs := {B}, rollBack := Refused)
  }

  function Plain(): Context {
    Context(false, false, map[])
  }

  lemma BreaksOff()
    ensures AttemptOn(OneRow("0", "0"), PatchOf("d1", Both("0", "0"), Both("9", "9")), Plain(), Refusing())
         == Stopped(Error, OneRow("0", "0").(edits := Some(map[7 := Row("9", "0")])))
  {
    var before, after, l := Both("0", "0"), Both("9", "9"), OneRow("0", "0");
    var d := PatchOf("d1", before, after);
    assert A != ID && B != ID && A != B;
    RowIsFound(l.committed, "0", "0");
    assert after[1..] == [Attr(B, Text("9"))] && before[1..] == [Attr(B, Text("0"))];
    assert Lookup(before, B) == Lookup(before[1..], B);
    assert Conflicts(l.fields, Row("0", "0"), before[1..]) == [];
    assert Conflicts(l.fields, Row("0", "0"), before) == [];
    assert PatchAttrs(l.fields, Row("9", "0"), after[1..], before, Refusing()) == Broken(Error, Row("9", "0"));
    assert PatchAttrs(l.fields, Row("0", "0"), after, before, Refusing()) == Broken(Error, Row("9", "0"));
    var open := l.(edits := Some(l.committed));
    assert PatchFound(open, Row("0", "0"), d, Plain(), Refusing())
        == PatchAttrs(l.fields, Row("0", "0"), after, before, Refusing());
    assert l.committed[7 := Row("9", "0")] == map[7 := Row("9", "0")];
    assert PatchEdit(open, l.committed, d, Plain(), Refusing()) == Failed(Error, map[7 := Row("9", "0")]);
  }

  lemma CommitsBoth()
    ensures var l := OneRow("0", "0").(edits := Some(map[7 := Row("9", "0")]));
            var d := PatchOf("d2", [Attr(B, Text("0"))], [Attr(B, Text("5"))]);
            AttemptOn(l, d, Plain(), Quiet()) == Committed(OneRow("9", "5"))
  {
    var l := OneRow("0", "0").(edits := Some(map[7 := Row("9", "0")]));
    var d := PatchOf("d2", [Attr(B, Text("0"))], [Attr(B, Text("5"))]);
    assert A != ID && B != ID && A != B;
    RowIsFound(l.edits.value, "9", "0");
    assert Conflicts(l.fields, Row("9", "0"), d.before.attributes) == [];
    assert PatchAttrs(l.fields, Row("9", "0"), d.after.attributes, d.before.attributes, Quiet())
      == Patched(Row("9", "5"));
    assert l.edits.value[7 := Row("9", "5")] == map[7 := Row("9", "5")];
    assert PatchEdit(l, l.edits.value, d, Plain(), Quiet()) == Edited(map[7 := Row("9", "5")]);
  }

  /** After a refused rollback the next delta of the layer commits what the failed one left behind:
      the log says failed, applied, and an attribute only the failed delta names has changed. */
  lemma RefusedRollbackLeaks()
    ensures var ds := [PatchOf("d1", Both("0", "0"), Both("9", "9")),
                       PatchOf("d2", [Attr(B, Text("0"))], [Attr(B, Text("5"))])];
      var answers := (i: nat) => if i == 0 then Refusing() else Quiet();
      var r := RunPrefix(Start(map["layer" := OneRow("0", "0")]), ds, Plain(), answers, 2);
      && !r.raised && |r.log| == 2 && r.log[0].status == ApplyFailed && r.log[1].status == Applied
      && r.layers == map["layer" := OneRow("9", "5")]
  {
    hide AttemptOn;
    BreaksOff();
    CommitsBoth();
    var ds := [PatchOf("d1", Both("0", "0"), Both("9", "9")),
               PatchOf("d2", [Attr(B, Text("0"))], [Attr(B, Text("5"))])];
    var answers := (i: nat) => if i == 0 then Refusing() else Quiet();
    var s0 := Start(map["layer" := OneRow("0", "0")]);
    var s1 := RunPrefix(s0, ds, Plain(), answers, 1);
    assert s1 == Step(RunPrefix(s0, ds, Plain(), answers, 0), 0, ds[0], Plain(), Refusing());
    assert RunPrefix(s0, ds, Plain(), answers, 2) == Step(s1, 1, ds[1], Plain(), Quiet());
  }

  /** A delta on a layer that is not a vector layer ends the whole run and leaves no log entry. */
  lemma NonVectorLayerEndsRun(layers: map<string, Layer>, ds: seq<Delta>, ctx: Context, answers: nat -> Answers, n: nat)
    requires n < |ds| && !RunPrefix(Start(layers), ds, ctx, answers, n).raised
    requires ds[n].layerId in RunPrefix(Start(layers), ds, ctx, answers, n).layers
    requires !RunPrefix(Start(layers), ds, ctx, answers, n).layers[ds[n].layerId].vector
    ensures var r := RunPrefix(Start(layers), ds, ctx, answers, n + 1); r.raised && |r.log| == n
  {
    LogIsComplete(layers, ds, ctx, answers, n);
  }
}

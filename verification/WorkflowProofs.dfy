/** What validation promises a run, what insertion keeps, and what the feedback tells. */
module WorkflowProofs {
  import opened Prelude
  import opened Workflows

  // ---- validation is sound ----

  /** Every method that returns gives at least as many values as it has names for. */
  ghost predicate EnoughValues<V(!new)>(defs: seq<StepDef<V>>, w: World<V>) {
    forall i: nat, args :: i < |defs| && |defs[i].returnNames| > 1 && w.perform(i, args).Returned? ==>
      var items := w.perform(i, args).items;
      items.Some? && |items.value| >= |defs[i].returnNames|
  }

  /** The results of the first `n` steps hold all their return names and no other. */
  ghost predicate AllReturned<V>(defs: seq<StepDef<V>>, n: nat, results: Returns<V>)
    requires n <= |defs|
  {
    forall j :: 0 <= j < n ==> defs[j].id in results
                               && forall m :: m in results[defs[j].id] <==> m in defs[j].returnNames
  }

  lemma BindsAllNames<V>(names: seq<string>, o: Outcome<V>)
    requires o.Returned? && (|names| > 1 ==> o.items.Some? && |o.items.value| >= |names|)
    ensures Bind(names, o).Some? && forall m :: m in Bind(names, o).value <==> m in names
  {
    if |names| > 1 {
      assert names[..|names|] == names;
    }
  }

  lemma ValidStepIsCallable<V(!new)>(defs: seq<StepDef<V>>, i: nat, results: Returns<V>, w: World<V>)
    requires Valid(defs) && EnoughValues(defs, w) && i < |defs| && AllReturned(defs, i, results)
    ensures forall n :: n in defs[i].arguments ==> Available(results, defs[i].arguments[n])
    ensures match RunStep(defs[i], i, results, w)
      case Failed(e) => e.FromMethod? || e.Interruption?
      case Completed(values) => AllReturned(defs, i + 1, results[defs[i].id := values])
  {
    var d := defs[i];
    assert StepOk(defs[..i], d);
    forall n | n in d.arguments ensures Available(results, d.arguments[n]) {
      assert Resolves(defs[..i], d.arguments[n]);
    }
    var args := map n | n in d.arguments :: Resolve(results, d.arguments[n], w.path);
    assert args.Keys == d.arguments.Keys;
    if w.perform(i, args).Returned? {
      BindsAllNames(d.returnNames, w.perform(i, args));
      var values := Bind(d.returnNames, w.perform(i, args)).value;
      assert forall j :: 0 <= j < i ==> defs[j].id != d.id;
      assert AllReturned(defs, i + 1, results[d.id := values]);
    }
  }

  lemma {:induction false} ValidRunFrom<V(!new)>(defs: seq<StepDef<V>>, i: nat, results: Returns<V>, w: World<V>)
    requires Valid(defs) && EnoughValues(defs, w) && i <= |defs| && AllReturned(defs, i, results)
    ensures var p := RunFrom(defs, i, results, w);
      AllReturned(defs, p.done, p.results)
        && (p.error.Some? ==> p.error.value.FromMethod? || p.error.value.Interruption?)
    decreases |defs| - i
  {
    hide RunStep, Valid, AllReturned;
    if i < |defs| {
      ValidStepIsCallable(defs, i, results, w);
      var end := RunStep(defs[i], i, results, w);
      if end.Completed? {
        ValidRunFrom(defs, i + 1, results[defs[i].id := end.values], w);
      } else {
        RunFromIsRunError(defs, i, results, w);
      }
    }
  }

  /** In a validated workflow whose methods return enough values, no lookup of an earlier return
      value fails and no call is rejected for its arguments: a run can only be stopped by a method
      that raises or is interrupted, or before the first step by a missing temporary directory. */
  lemma ValidationIsSound<V(!new)>(defs: seq<StepDef<V>>, w: World<V>)
    requires Valid(defs) && EnoughValues(defs, w)
    ensures var p := Run(defs, w);
      && (p.error.Some? ==>
            p.error.value.FromMethod? || p.error.value.Interruption? || (p.error.value.NoTempDir? && p.done == 0))
      && AllReturned(defs, p.done, p.results)
  {
    ValidRunFrom(defs, 0, map[], w);
  }

  /** What an error of the validation can be: a step may follow the ones before it under its id exactly if
      it has none of the faults. */
  lemma FaultlessIff<V>(earlier: seq<StepDef<V>>, d: StepDef<V>)
    ensures Fresh(earlier, d.id) && StepOk(earlier, d) <==> forall e :: !Fault(earlier, d, e)
  {
    if forall e :: !Fault(earlier, d, e) {
      assert !Fault(earlier, d, DuplicateId) && !Fault(earlier, d, NonKeywordParameter);
      assert !Fault(earlier, d, MissingArgument) && !Fault(earlier, d, UnknownParameter);
      assert !Fault(earlier, d, NoSuchStep) && !Fault(earlier, d, NoSuchReturn);
    }
  }

  // ---- insertion ----

  function Inserted<V>(defs: seq<StepDef<V>>, d: StepDef<V>, at: nat): seq<StepDef<V>>
    requires at <= |defs|
  {
    defs[..at] + [d] + defs[at..]
  }

  lemma StepOkAmongMore<V>(earlier: seq<StepDef<V>>, more: seq<StepDef<V>>, d: StepDef<V>)
    requires StepOk(earlier, d) && forall e :: e in earlier ==> e in more
    ensures StepOk(more, d)
  {
    forall n | n in d.arguments ensures Resolves(more, d.arguments[n]) {
      assert Resolves(earlier, d.arguments[n]);
      var a := d.arguments[n];
      if a.FromStep? {
        var j :| 0 <= j < |earlier| && earlier[j].id == a.stepId && a.returnName in earlier[j].returnNames;
        assert earlier[j] in more;
      }
    }
  }

  function Shift(i: nat, at: nat): nat {
    if i < at then i else i + 1
  }

  lemma InsertedAt<V>(defs: seq<StepDef<V>>, d: StepDef<V>, at: nat)
    requires at <= |defs|
    ensures var all := Inserted(defs, d, at);
      && |all| == |defs| + 1 && all[..at] == defs[..at] && all[at] == d
      && forall i: nat :: i < |defs| ==> all[Shift(i, at)] == defs[i]
  {
  }

  lemma UnusedIfValid<V>(defs: seq<StepDef<V>>, d: StepDef<V>, at: nat)
    requires at <= |defs| && Valid(Inserted(defs, d, at))
    ensures Fresh(defs, d.id) && StepOk(defs[..at], d)
  {
    var all := Inserted(defs, d, at);
    InsertedAt(defs, d, at);
    hide StepOk;
    assert StepOk(all[..at], all[at]);
    forall i | 0 <= i < |defs| ensures defs[i].id != d.id {
      assert all[Shift(i, at)].id != all[at].id;
    }
  }

  lemma LaterStepStaysOk<V>(defs: seq<StepDef<V>>, d: StepDef<V>, at: nat, i: nat)
    requires Valid(defs) && at < i <= |defs|
    ensures var all := Inserted(defs, d, at); StepOk(all[..i], all[i])
  {
    var all := Inserted(defs, d, at);
    InsertedAt(defs, d, at);
    hide StepOk;
    assert StepOk(defs[..i - 1], defs[i - 1]);
    forall e | e in defs[..i - 1] ensures e in all[..i] {
      var k: nat :| k < i - 1 && defs[k] == e;
      assert all[..i][Shift(k, at)] == e;
    }
    StepOkAmongMore(defs[..i - 1], all[..i], defs[i - 1]);
  }

  lemma IdsStayDistinct<V>(defs: seq<StepDef<V>>, d: StepDef<V>, at: nat)
    requires Valid(defs) && at <= |defs| && Fresh(defs, d.id)
    ensures var all := Inserted(defs, d, at); forall i, j :: 0 <= i < j < |all| ==> all[i].id != all[j].id
  {
    hide StepOk;
  }

  /** Inserting keeps a valid workflow valid exactly if the new id is unused and everything the new
      step refers to comes before it. */
  lemma InsertKeepsValidIff<V>(defs: seq<StepDef<V>>, d: StepDef<V>, at: nat)
    requires Valid(defs) && at <= |defs|
    ensures Valid(Inserted(defs, d, at)) <==> Fresh(defs, d.id) && StepOk(defs[..at], d)
  {
    hide StepOk;
    var all := Inserted(defs, d, at);
    if Valid(all) {
      UnusedIfValid(defs, d, at);
    }
    if Fresh(defs, d.id) && StepOk(defs[..at], d) {
      IdsStayDistinct(defs, d, at);
      forall i | 0 <= i < |all| ensures StepOk(all[..i], all[i]) {
        if i < at {
          assert all[..i] == defs[..i];
        } else if i == at {
          InsertedAt(defs, d, at);
        } else {
          LaterStepStaysOk(defs, d, at, i);
        }
      }
    }
  }

  // ---- the feedback ----

  /** The stages after a run of steps that had not run before. */
  function FreshStages<V>(defs: seq<StepDef<V>>, p: Progress<V>): seq<int> {
    seq(|defs|, i requires 0 <= i < |defs| => StageAfter(p, i, 0))
  }

  lemma {:induction false} StopsAtStep<V>(defs: seq<StepDef<V>>, i: nat, results: Returns<V>, w: World<V>)
    requires i <= |defs|
    ensures RunFrom(defs, i, results, w).error != Some(NoTempDir)
    decreases |defs| - i
  {
    if i < |defs| {
      var end := RunStep(defs[i], i, results, w);
      assert end.Failed? ==> end.error != NoTempDir;
      hide RunStep;
      if end.Completed? {
        StopsAtStep(defs, i + 1, results[defs[i].id := end.values], w);
      }
    }
  }

  /** A run of fresh steps leaves stages 2..2, then 1 for the step that stopped it, then 0..0, and all 0
      without a temporary directory; the feedback lists every step in order with its stage and has outputs
      for exactly the steps at stage 2.  If it has an error, some step is not at stage 2; if it has none
      although some step is not, the run was interrupted. */
  lemma FeedbackTellsStages<V>(defs: seq<StepDef<V>>, w: World<V>)
    requires defs != []
    ensures var p := Run(defs, w);
      var stages := FreshStages(defs, p);
      var f := FeedbackOf(defs, stages, p);
      && (forall i :: 0 <= i < |defs| ==>
            (i < p.done ==> stages[i] == 2) && (i > p.done ==> stages[i] == 0)
            && (i == p.done ==> stages[i] == if w.tempDir then 1 else 0))
      && (f.Some? ==>
            && |f.value.steps| == |defs|
            && (forall i :: 0 <= i < |defs| ==>
                f.value.steps[i].id == defs[i].id && f.value.steps[i].stage == stages[i])
            && (f.value.error.Some? ==> exists i :: 0 <= i < |defs| && f.value.steps[i].stage != 2)
            && (p.error == Some(Interruption)
                <==> f.value.error.None? && exists i :: 0 <= i < |defs| && f.value.steps[i].stage != 2)
            && f.value.outputs.Keys == set i | 0 <= i < |defs| && stages[i] == 2 :: defs[i].id)
  {
    var p := Run(defs, w);
    var stages := FreshStages(defs, p);
    StopsAtStep(defs, 0, map[], w);
    if FeedbackOf(defs, stages, p).Some? {
      OutputsOfStageTwo(defs, stages, p.results, |defs|);
      var f := FeedbackOf(defs, stages, p).value;
      if p.done < |defs| {
        assert f.steps[p.done].stage != 2;
      }
    }
  }

  lemma {:induction false} OutputsOfStageTwo<V>(defs: seq<StepDef<V>>, stages: seq<int>, results: Returns<V>, n: nat)
    requires n <= |defs| == |stages|
    requires forall i :: 0 <= i < n ==> Reportable(defs[i], stages[i], results)
    ensures Outputs(defs, stages, results, n).Keys == set i | 0 <= i < n && stages[i] == 2 :: defs[i].id
  {
    if n > 0 {
      OutputsOfStageTwo(defs, stages, results, n - 1);
    }
  }

  /** With validation and enough values, the feedback is returned exactly if every completed step
      names its outputs among its return values; otherwise a lookup raises while it is built. */
  lemma FeedbackIsReturnedIff<V(!new)>(defs: seq<StepDef<V>>, w: World<V>)
    requires Valid(defs) && EnoughValues(defs, w)
    ensures var p := Run(defs, w);
      FeedbackOf(defs, FreshStages(defs, p), p).Some?
      <==> forall i, m :: 0 <= i < p.done && m in defs[i].outputs ==> m in defs[i].returnNames
  {
    ValidationIsSound(defs, w);
    var p := Run(defs, w);
    var stages := FreshStages(defs, p);
    forall i | 0 <= i < |defs|
      ensures Reportable(defs[i], stages[i], p.results)
         <==> (i < p.done ==> forall m :: m in defs[i].outputs ==> m in defs[i].returnNames)
    {
    }
  }
}

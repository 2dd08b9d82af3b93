/** What the methods of a workflow receive, and what the feedback says that they returned. */
module WorkflowCalls {
  import opened Prelude
  import opened Workflows
  import opened WorkflowProofs

  // ---- return values and arguments ----

  /** `v` is the value that a method with these return names gave under `name`: its whole result if there
      is one name, else the value at the place of the name, the last one if it is repeated. */
  ghost predicate Gave<V>(names: seq<string>, o: Outcome<V>, name: string, v: V) {
    && o.Returned?
    && if |names| == 1 then name == names[0] && v == o.whole
       else exists k :: IsPlaceOf(names, o, name, k) && v == o.items.value[k]
  }

  ghost predicate IsPlaceOf<V>(names: seq<string>, o: Outcome<V>, name: string, k: int) {
    && o.Returned? && o.items.Some? && 0 <= k < |names| && k < |o.items.value| && names[k] == name
    && forall m :: k < m < |names| && m < |o.items.value| ==> names[m] != name
  }

  /** What one argument is: the constant, the path, or what an earlier step gave under the name. */
  ghost predicate IsArgument<V>(defs: seq<StepDef<V>>, w: World<V>, calls: seq<map<string, V>>, i: nat,
                                a: Argument<V>, v: V)
    requires i <= |defs| && i <= |calls|
  {
    match a
    case Const(c) => v == c
    case WorkDir(parts) => v == w.path(parts)
    case FromStep(id, name) =>
      exists j :: 0 <= j < i && defs[j].id == id && Gave(defs[j].returnNames, w.perform(j, calls[j]), name, v)
  }

  /** Call `i` has exactly the arguments of step `i`. */
  ghost predicate IsCall<V>(defs: seq<StepDef<V>>, w: World<V>, calls: seq<map<string, V>>, i: nat)
    requires i < |defs| && i < |calls|
  {
    && calls[i].Keys == defs[i].arguments.Keys
    && forall n :: n in calls[i] ==> IsArgument(defs, w, calls, i, defs[i].arguments[n], calls[i][n])
  }

  /** The results have what call `i` gave under each of its return names, and no other value. */
  ghost predicate HasResults<V>(defs: seq<StepDef<V>>, w: World<V>, calls: seq<map<string, V>>, i: nat,
                                results: Returns<V>)
    requires i < |defs| && i < |calls|
  {
    var d, o := defs[i], w.perform(i, calls[i]);
    && o.Returned? && d.id in results
    && (forall name :: name in results[d.id] <==> name in d.returnNames)
    && (forall name :: name in results[d.id] ==> Gave(d.returnNames, o, name, results[d.id][name]))
  }

  lemma {:induction false} ZipHasPlaces<V>(names: seq<string>, values: seq<V>, n: nat, name: string) returns (k: nat)
    requires n <= |names| && n <= |values| && name in Zip(names, values, n)
    ensures k < n && names[k] == name && Zip(names, values, n)[name] == values[k]
    ensures forall m :: k < m < n ==> names[m] != name
  {
    if names[n - 1] == name {
      k := n - 1;
    } else {
      k := ZipHasPlaces(names, values, n - 1, name);
    }
  }

  lemma BoundValuesAreGiven<V>(names: seq<string>, o: Outcome<V>)
    requires o.Returned? && (|names| > 1 ==> o.items.Some? && |o.items.value| >= |names|)
    ensures Bind(names, o).Some?
    ensures forall name :: name in Bind(names, o).value <==> name in names
    ensures forall name :: name in Bind(names, o).value ==> Gave(names, o, name, Bind(names, o).value[name])
  {
    BindsAllNames(names, o);
    if |names| > 1 {
      forall name | name in Bind(names, o).value ensures Gave(names, o, name, Bind(names, o).value[name]) {
        var k := ZipHasPlaces(names, o.items.value, |names|, name);
        assert IsPlaceOf(names, o, name, k);
      }
    }
  }

  // ---- the calls of a run ----

  /** The first `i` calls and what they gave. */
  ghost predicate Traced<V>(defs: seq<StepDef<V>>, w: World<V>, calls: seq<map<string, V>>, i: nat,
                            results: Returns<V>)
    requires i <= |defs| && i <= |calls|
  {
    forall k :: 0 <= k < i ==> IsCall(defs, w, calls, k) && HasResults(defs, w, calls, k, results)
  }

  lemma MoreCalls<V>(defs: seq<StepDef<V>>, w: World<V>, calls: seq<map<string, V>>, args: map<string, V>, k: nat)
    requires k < |defs| && k < |calls| && IsCall(defs, w, calls, k)
    ensures IsCall(defs, w, calls + [args], k)
  {
    forall n | n in calls[k] ensures IsArgument(defs, w, calls + [args], k, defs[k].arguments[n], calls[k][n]) {
      var a, v := defs[k].arguments[n], calls[k][n];
      assert IsArgument(defs, w, calls, k, a, v);
      if a.FromStep? {
        var j :| 0 <= j < k && defs[j].id == a.stepId
          && Gave(defs[j].returnNames, w.perform(j, calls[j]), a.returnName, v);
        assert (calls + [args])[j] == calls[j];
      }
      hide Gave;
    }
  }

  /** The arguments that step `i` resolves are those that `IsCall` asks for. */
  lemma ResolvedIsCall<V(!new)>(defs: seq<StepDef<V>>, i: nat, results: Returns<V>, w: World<V>,
                                calls: seq<map<string, V>>)
    requires Valid(defs) && i < |defs| && i == |calls| && Traced(defs, w, calls, i, results)
    requires forall n :: n in defs[i].arguments ==> Available(results, defs[i].arguments[n])
    ensures var args := map n | n in defs[i].arguments :: Resolve(results, defs[i].arguments[n], w.path);
      IsCall(defs, w, calls + [args], i)
  {
    var args := map n | n in defs[i].arguments :: Resolve(results, defs[i].arguments[n], w.path);
    var more := calls + [args];
    forall n | n in args ensures IsArgument(defs, w, more, i, defs[i].arguments[n], args[n]) {
      var a := defs[i].arguments[n];
      if a.FromStep? {
        assert Resolves(defs[..i], a) by { assert StepOk(defs[..i], defs[i]); }
        var j :| 0 <= j < i && defs[..i][j].id == a.stepId && a.returnName in defs[..i][j].returnNames;
        assert HasResults(defs, w, calls, j, results) && more[j] == calls[j];
        assert Gave(defs[j].returnNames, w.perform(j, more[j]), a.returnName, args[n]);
      }
      hide Gave;
    }
  }

  /** How a run ends at step `p.done`, if it does: as the method does that is called there. */
  ghost predicate EndsAt<V>(w: World<V>, calls: seq<map<string, V>>, p: Progress<V>) {
    if p.error.None? then |calls| == p.done
    else |calls| == p.done + 1
         && match w.perform(p.done, calls[p.done])
            case Raised(message) => p.error == Some(FromMethod(message))
            case Interrupted => p.error == Some(Interruption)
            case Returned(_, _) => false
  }

  lemma StepEndsAs<V(!new)>(defs: seq<StepDef<V>>, i: nat, results: Returns<V>, w: World<V>)
    requires Valid(defs) && EnoughValues(defs, w) && i < |defs| && AllReturned(defs, i, results)
    requires forall n :: n in defs[i].arguments ==> Available(results, defs[i].arguments[n])
    ensures var args := map n | n in defs[i].arguments :: Resolve(results, defs[i].arguments[n], w.path);
      match w.perform(i, args)
      case Raised(message) => RunStep(defs[i], i, results, w) == Failed(FromMethod(message))
      case Interrupted => RunStep(defs[i], i, results, w) == Failed(Interruption)
      case Returned(whole, items) =>
        var b := Bind(defs[i].returnNames, Returned(whole, items));
        b.Some? && RunStep(defs[i], i, results, w) == Completed(b.value)
  {
    var args := map n | n in defs[i].arguments :: Resolve(results, defs[i].arguments[n], w.path);
    assert args.Keys == defs[i].arguments.Keys;
    assert StepOk(defs[..i], defs[i]);
    if w.perform(i, args).Returned? {
      BindsAllNames(defs[i].returnNames, w.perform(i, args));
    }
    hide Resolves, Bind;
  }

  /** The call of step `i` and what comes of it. */
  lemma NextCall<V(!new)>(defs: seq<StepDef<V>>, i: nat, results: Returns<V>, w: World<V>, calls: seq<map<string, V>>)
    returns (more: seq<map<string, V>>)
    requires Valid(defs) && EnoughValues(defs, w) && i < |defs| && i == |calls|
    requires AllReturned(defs, i, results) && Traced(defs, w, calls, i, results)
    ensures |more| == i + 1 && forall k :: 0 <= k <= i ==> IsCall(defs, w, more, k)
    ensures match RunStep(defs[i], i, results, w)
      case Completed(values) =>
        AllReturned(defs, i + 1, results[defs[i].id := values])
        && Traced(defs, w, more, i + 1, results[defs[i].id := values])
      case Failed(e) => Traced(defs, w, more, i, results) && EndsAt(w, more, Progress(i, results, Some(e)))
  {
    ValidStepIsCallable(defs, i, results, w);
    ResolvedIsCall(defs, i, results, w, calls);
    var args := map n | n in defs[i].arguments :: Resolve(results, defs[i].arguments[n], w.path);
    more := calls + [args];
    StepEndsAs(defs, i, results, w);
    TracedNow(defs, w, calls, args, i, results);
    assert forall k :: 0 <= k < i ==> IsCall(defs, w, more, k);
    var d, o := defs[i], w.perform(i, args);
    if o.Returned? {
      assert |d.returnNames| > 1 ==> o.items.Some? && |o.items.value| >= |d.returnNames|;
      BoundValuesAreGiven(d.returnNames, o);
      hide RunStep, AllReturned, IsCall, HasResults, EnoughValues, Gave, Bind;
      TracedNext(defs, w, calls, args, i, results, results[d.id := Bind(d.returnNames, o).value]);
    }
    hide RunStep, Valid, AllReturned, IsCall, HasResults, EnoughValues, Traced;
  }

  lemma {:induction false} CallsFrom<V(!new)>(defs: seq<StepDef<V>>, i: nat, results: Returns<V>, w: World<V>,
                                              calls: seq<map<string, V>>) returns (all: seq<map<string, V>>)
    requires Valid(defs) && EnoughValues(defs, w) && i <= |defs| && i == |calls|
    requires AllReturned(defs, i, results) && Traced(defs, w, calls, i, results)
    ensures var p := RunFrom(defs, i, results, w);
      && p.done <= |all| <= |defs| && (forall k :: 0 <= k < |all| ==> IsCall(defs, w, all, k))
      && Traced(defs, w, all, p.done, p.results) && EndsAt(w, all, p)
    decreases |defs| - i
  {
    if i == |defs| {
      all := calls;
    } else {
      all := NextCall(defs, i, results, w, calls);
      hide RunStep, Valid, EnoughValues, AllReturned, Traced, IsCall, EndsAt;
      match RunStep(defs[i], i, results, w)
      case Completed(values) => all := CallsFrom(defs, i + 1, results[defs[i].id := values], w, all);
      case Failed(_) => RunFromIsRunError(defs, i, results, w);
    }
  }

  lemma TracedNow<V>(defs: seq<StepDef<V>>, w: World<V>, calls: seq<map<string, V>>, args: map<string, V>, i: nat,
                     results: Returns<V>)
    requires i <= |defs| && i == |calls| && Traced(defs, w, calls, i, results)
    ensures Traced(defs, w, calls + [args], i, results)
  {
    forall k | 0 <= k < i
      ensures IsCall(defs, w, calls + [args], k) && HasResults(defs, w, calls + [args], k, results)
    {
      MoreCalls(defs, w, calls, args, k);
      assert (calls + [args])[k] == calls[k] && HasResults(defs, w, calls, k, results);
    }
  }

  lemma TracedNext<V>(defs: seq<StepDef<V>>, w: World<V>, calls: seq<map<string, V>>, args: map<string, V>, i: nat,
                      results: Returns<V>, next: Returns<V>)
    requires Valid(defs) && i < |defs| && i == |calls| && Traced(defs, w, calls, i, results)
    requires IsCall(defs, w, calls + [args], i) && w.perform(i, args).Returned?
    requires defs[i].id in next && next == results[defs[i].id := next[defs[i].id]]
    requires forall name :: name in next[defs[i].id] <==> name in defs[i].returnNames
    requires forall name :: name in next[defs[i].id] ==>
      Gave(defs[i].returnNames, w.perform(i, args), name, next[defs[i].id][name])
    ensures Traced(defs, w, calls + [args], i + 1, next)
  {
    var more := calls + [args];
    TracedNow(defs, w, calls, args, i, results);
    assert forall k :: 0 <= k < i ==> defs[k].id != defs[i].id;
    forall k | 0 <= k < i + 1 ensures IsCall(defs, w, more, k) && HasResults(defs, w, more, k, next) {
      if k < i {
        assert HasResults(defs, w, more, k, results);
      }
    }
    hide Gave, IsCall, Valid;
  }

  /** Main result: in a validated workflow whose methods return enough values, every method that is
      called receives for each argument the constant, the path, or the value that the earlier step gave
      under the name; the run keeps what each method gave under its names; and it ends with the first
      method that raises or is interrupted. */
  lemma CallsAreConnected<V(!new)>(defs: seq<StepDef<V>>, w: World<V>) returns (calls: seq<map<string, V>>)
    requires Valid(defs) && EnoughValues(defs, w) && w.tempDir
    ensures var p := Run(defs, w);
      && p.done <= |calls| <= |defs|
      && (forall i :: 0 <= i < |calls| ==> IsCall(defs, w, calls, i))
      && (forall i :: 0 <= i < p.done ==> HasResults(defs, w, calls, i, p.results))
      && EndsAt(w, calls, p)
  {
    calls := CallsFrom(defs, 0, map[], w, []);
    hide IsCall, HasResults, EndsAt;
  }

  /** Why a step of any workflow fails without its method being called: a value that it refers to is not
      there, or the method does not take the arguments.  And a called method that returned fails the step
      exactly if there are several names for a result that cannot be iterated. */
  lemma StepFailsIff<V>(d: StepDef<V>, i: nat, results: Returns<V>, w: World<V>)
    ensures var end := RunStep(d, i, results, w);
      var missing := exists n ::
        n in d.arguments && d.arguments[n].FromStep?
        && !(d.arguments[n].stepId in results && d.arguments[n].returnName in results[d.arguments[n].stepId]);
      var rejected := (exists k :: 0 <= k < |d.params| && !d.params[k].keyword)
        || (exists k :: 0 <= k < |d.params| && d.params[k].required && d.params[k].name !in d.arguments)
        || (exists n :: n in d.arguments && forall k :: 0 <= k < |d.params| ==> d.params[k].name != n);
      && (end == Failed(LookupFailed) <==> missing)
      && (end == Failed(CallRejected) <==> !missing && rejected)
      && (end == Failed(NotIterable) <==>
            !missing && !rejected && |d.returnNames| > 1
            && var o := w.perform(i, map n | n in d.arguments :: Resolve(results, d.arguments[n], w.path));
               o.Returned? && o.items.None?)
  {
    if forall n :: n in d.arguments ==> Available(results, d.arguments[n]) {
      var args := map n | n in d.arguments :: Resolve(results, d.arguments[n], w.path);
      assert args.Keys == d.arguments.Keys;
      forall n | n in d.arguments
        ensures !ParamNamed(d.params, n) <==> forall k :: 0 <= k < |d.params| ==> d.params[k].name != n
      {
      }
      hide ParamNamed;
    }
  }

  // ---- the feedback ----

  /** Main result: the feedback of a run of steps that had not run before has for every step its id and
      name; for each one that returned, what its method gave under its return names, and under `outputs`
      those of its output names; and for the others nothing. */
  lemma FeedbackReports<V(!new)>(defs: seq<StepDef<V>>, w: World<V>, calls: seq<map<string, V>>, i: nat)
    requires Valid(defs) && EnoughValues(defs, w) && w.tempDir && i < |defs|
    requires var p := Run(defs, w);
      && p.done <= |calls| && (forall k :: 0 <= k < p.done ==> HasResults(defs, w, calls, k, p.results))
      && FeedbackOf(defs, FreshStages(defs, p), p).Some?
    ensures var p, d := Run(defs, w), defs[i]; var f := FeedbackOf(defs, FreshStages(defs, p), p).value;
      && |f.steps| == |defs| && f.steps[i].id == d.id && f.steps[i].name == d.name
      && (i < p.done ==>
            && (forall name :: name in f.steps[i].results <==> name in d.returnNames)
            && (forall name :: name in f.steps[i].results ==>
                  Gave(d.returnNames, w.perform(i, calls[i]), name, f.steps[i].results[name]))
            && d.id in f.outputs
            && (forall name :: name in f.outputs[d.id] <==> name in d.outputs)
            && (forall name :: name in f.outputs[d.id] ==>
                  name in f.steps[i].results && f.outputs[d.id][name] == f.steps[i].results[name]))
      && (i >= p.done ==> f.steps[i].results == map[] && d.id !in f.outputs)
  {
    var p := Run(defs, w);
    var stages := FreshStages(defs, p);
    assert Reportable(defs[i], stages[i], p.results);
    assert forall a, b :: 0 <= a < b < |defs| ==> defs[a].id != defs[b].id;
    hide Valid, EnoughValues, Run, Gave;
    if i < p.done {
      assert HasResults(defs, w, calls, i, p.results);
      OutputsAre(defs, stages, p.results, |defs|, i);
    } else {
      OutputsOfStageTwo(defs, stages, p.results, |defs|);
    }
    hide Outputs;
  }

  /** With distinct ids, the outputs of each step at stage 2 stay. */
  lemma {:induction false} OutputsAre<V>(defs: seq<StepDef<V>>, stages: seq<int>, results: Returns<V>, n: nat, k: nat)
    requires k < n <= |defs| == |stages| && stages[k] == 2
    requires forall i :: 0 <= i < n ==> Reportable(defs[i], stages[i], results)
    requires forall a, b :: 0 <= a < b < |defs| ==> defs[a].id != defs[b].id
    ensures var outputs := Outputs(defs, stages, results, n);
      && defs[k].id in outputs
      && (forall name :: name in outputs[defs[k].id] <==> name in defs[k].outputs)
      && (forall name :: name in defs[k].outputs ==>
            name in results[defs[k].id] && outputs[defs[k].id][name] == results[defs[k].id][name])
  {
    if k < n - 1 {
      OutputsAre(defs, stages, results, n - 1, k);
    }
  }

  // ---- what validation asks for ----

  /** What a valid workflow is, spelled out: steps with distinct ids, whose methods take keyword
      parameters only, get every required one and no other, and refer only to return values of earlier
      steps. */
  lemma {:induction false} ValidIff<V>(defs: seq<StepDef<V>>)
    ensures Valid(defs) <==>
      && |defs| > 0
      && (forall i, j :: 0 <= i < j < |defs| ==> defs[i].id != defs[j].id)
      && (forall i, k :: 0 <= i < |defs| && 0 <= k < |defs[i].params| ==>
            var param := defs[i].params[k]; param.keyword && (param.required ==> param.name in defs[i].arguments))
      && (forall i, n :: 0 <= i < |defs| && n in defs[i].arguments ==>
            exists k :: 0 <= k < |defs[i].params| && defs[i].params[k].name == n)
      && (forall i, n :: 0 <= i < |defs| && n in defs[i].arguments && defs[i].arguments[n].FromStep? ==>
            exists j :: 0 <= j < i && defs[j].id == defs[i].arguments[n].stepId
                        && defs[i].arguments[n].returnName in defs[j].returnNames)
  {
    forall i | 0 <= i < |defs|
      ensures StepOk(defs[..i], defs[i]) <==>
        && (forall k :: 0 <= k < |defs[i].params| ==>
              var param := defs[i].params[k]; param.keyword && (param.required ==> param.name in defs[i].arguments))
        && (forall n :: n in defs[i].arguments ==>
              exists k :: 0 <= k < |defs[i].params| && defs[i].params[k].name == n)
        && (forall n :: n in defs[i].arguments && defs[i].arguments[n].FromStep? ==>
              exists j :: 0 <= j < i && defs[j].id == defs[i].arguments[n].stepId
                          && defs[i].arguments[n].returnName in defs[j].returnNames)
    {
      StepOkIff(defs, i);
    }
    hide StepOk;
  }

  lemma StepOkIff<V>(defs: seq<StepDef<V>>, i: nat)
    requires i < |defs|
    ensures StepOk(defs[..i], defs[i]) <==>
      && (forall k :: 0 <= k < |defs[i].params| ==>
            var param := defs[i].params[k]; param.keyword && (param.required ==> param.name in defs[i].arguments))
      && (forall n :: n in defs[i].arguments ==>
            exists k :: 0 <= k < |defs[i].params| && defs[i].params[k].name == n)
      && (forall n :: n in defs[i].arguments && defs[i].arguments[n].FromStep? ==>
            exists j :: 0 <= j < i && defs[j].id == defs[i].arguments[n].stepId
                        && defs[i].arguments[n].returnName in defs[j].returnNames)
  {
    forall n | n in defs[i].arguments
      ensures Resolves(defs[..i], defs[i].arguments[n]) <==>
        (defs[i].arguments[n].FromStep? ==>
           exists j :: 0 <= j < i && defs[j].id == defs[i].arguments[n].stepId
                       && defs[i].arguments[n].returnName in defs[j].returnNames)
    {
      var a := defs[i].arguments[n];
      if a.FromStep? {
        assert forall j :: 0 <= j < i ==> defs[..i][j] == defs[j];
      }
    }
    hide Resolves;
  }
}

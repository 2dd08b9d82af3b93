/**
 Workflows of the QGIS worker: validation, insertion of a step, and the run that writes the feedback.
 `V` is the type of the values that steps receive and return.
 */
module Workflows {
  import opened Prelude

  datatype Param = Param(name: string, keyword: bool, required: bool)

  datatype Argument<V> = Const(value: V) | FromStep(stepId: string, returnName: string) | WorkDir(parts: seq<string>)

  /** What a step is; only its stage changes. */
  datatype StepDef<V> = StepDef(id: string, name: string, params: seq<Param>, arguments: map<string, Argument<V>>,
                                returnNames: seq<string>, outputs: seq<string>)

  // ---- validity ----

  predicate ParamNamed(params: seq<Param>, name: string) {
    exists i :: 0 <= i < |params| && params[i].name == name
  }

  /** A call with exactly these keyword arguments is acceptable to a method with these parameters. */
  predicate Accepts(params: seq<Param>, names: set<string>) {
    && (forall i :: 0 <= i < |params| ==> params[i].keyword && (params[i].required ==> params[i].name in names))
    && (forall n :: n in names ==> ParamNamed(params, n))
  }

  /** Some step of `defs` returns this value. */
  predicate Provides<V>(defs: seq<StepDef<V>>, stepId: string, returnName: string) {
    exists j :: 0 <= j < |defs| && defs[j].id == stepId && returnName in defs[j].returnNames
  }

  ghost predicate Resolves<V>(earlier: seq<StepDef<V>>, a: Argument<V>) {
    a.FromStep? ==> Provides(earlier, a.stepId, a.returnName)
  }

  predicate Fresh<V>(defs: seq<StepDef<V>>, id: string) {
    forall i :: 0 <= i < |defs| ==> defs[i].id != id
  }

  /** `d` may follow the steps `earlier`. */
  ghost predicate StepOk<V>(earlier: seq<StepDef<V>>, d: StepDef<V>) {
    && Accepts(d.params, d.arguments.Keys)
    && forall n :: n in d.arguments ==> Resolves(earlier, d.arguments[n])
  }

  /** The first `n` steps have distinct ids and may follow each other. */
  ghost predicate ValidUpTo<V>(defs: seq<StepDef<V>>, n: nat)
    requires n <= |defs|
  {
    && (forall i, j :: 0 <= i < j < n ==> defs[i].id != defs[j].id)
    && (forall i :: 0 <= i < n ==> StepOk(defs[..i], defs[i]))
  }

  ghost predicate Valid<V>(defs: seq<StepDef<V>>) {
    defs != [] && ValidUpTo(defs, |defs|)
  }

  lemma ValidNext<V>(defs: seq<StepDef<V>>, n: nat)
    requires n < |defs|
    ensures ValidUpTo(defs, n + 1) <==> ValidUpTo(defs, n) && Fresh(defs[..n], defs[n].id) && StepOk(defs[..n], defs[n])
    ensures Valid(defs) ==> ValidUpTo(defs, n + 1)
  {
    hide StepOk;
    if ValidUpTo(defs, n) && Fresh(defs[..n], defs[n].id) {
      assert forall i :: 0 <= i < n ==> defs[..n][i].id != defs[n].id;
    }
  }

  lemma NoStepsYet<V>(defs: seq<StepDef<V>>)
    ensures ValidUpTo(defs, 0)
  {
  }

  /** `results` has the return names of exactly the steps `earlier`. */
  ghost predicate Knows<V>(results: map<string, seq<string>>, earlier: seq<StepDef<V>>) {
    && (forall i :: 0 <= i < |earlier| ==> earlier[i].id in results && results[earlier[i].id] == earlier[i].returnNames)
    && (forall id :: id in results ==> !Fresh(earlier, id))
  }

  lemma KnowsNone<V>(defs: seq<StepDef<V>>)
    ensures Knows(map[], defs[..0])
  {
  }

  lemma KnowsFresh<V>(results: map<string, seq<string>>, earlier: seq<StepDef<V>>, id: string)
    requires Knows(results, earlier)
    ensures id in results <==> !Fresh(earlier, id)
  {
  }

  lemma KnowsNext<V>(results: map<string, seq<string>>, defs: seq<StepDef<V>>, i: nat)
    requires i < |defs| && Knows(results, defs[..i]) && Fresh(defs[..i], defs[i].id)
    ensures Knows(results[defs[i].id := defs[i].returnNames], defs[..i + 1])
  {
    var more := results[defs[i].id := defs[i].returnNames];
    assert forall k :: 0 <= k < i ==> defs[..i + 1][k] == defs[..i][k];
    assert defs[..i + 1][i] == defs[i];
    forall id | id in more ensures !Fresh(defs[..i + 1], id) {
      if id != defs[i].id {
        var k :| 0 <= k < i && defs[..i][k].id == id;
        assert defs[..i + 1][k].id == id;
      }
    }
  }

  datatype ValidationError = NoSteps | DuplicateId | NonKeywordParameter | MissingArgument
                           | NoSuchStep | NoSuchReturn | UnknownParameter

  /** Error `e` names a fault that step `d` has after the steps `earlier`. */
  ghost predicate Fault<V>(earlier: seq<StepDef<V>>, d: StepDef<V>, e: ValidationError) {
    match e
    case NoSteps => false
    case DuplicateId => !Fresh(earlier, d.id)
    case NonKeywordParameter => exists i :: 0 <= i < |d.params| && !d.params[i].keyword
    case MissingArgument => exists i :: 0 <= i < |d.params| && d.params[i].required && d.params[i].name !in d.arguments
    case NoSuchStep => exists n :: n in d.arguments && d.arguments[n].FromStep? && Fresh(earlier, d.arguments[n].stepId)
    case NoSuchReturn =>
      exists n :: n in d.arguments && d.arguments[n].FromStep? && !Fresh(earlier, d.arguments[n].stepId)
                  && !Provides(earlier, d.arguments[n].stepId, d.arguments[n].returnName)
    case UnknownParameter => exists n :: n in d.arguments && !ParamNamed(d.params, n)
  }

  /** Some step, the first that is not in order, has the fault `e`. */
  ghost predicate FirstFault<V>(defs: seq<StepDef<V>>, e: ValidationError) {
    exists i :: 0 <= i < |defs| && ValidUpTo(defs, i) && Fault(defs[..i], defs[i], e)
  }

  datatype InsertionError = BothOrNeither | StepNotFound

  /** Among the first `n` steps, the index of the last one with each id. */
  ghost predicate IndexesOfFirst<V>(defs: seq<StepDef<V>>, idx: map<string, nat>, n: nat)
    requires n <= |defs|
  {
    && (forall i :: 0 <= i < n ==> defs[i].id in idx)
    && (forall id :: id in idx ==> idx[id] < n && defs[idx[id]].id == id
                                   && forall i :: idx[id] < i < n ==> defs[i].id != id)
  }

  ghost predicate IndexesOf<V>(defs: seq<StepDef<V>>, idx: map<string, nat>) {
    IndexesOfFirst(defs, idx, |defs|)
  }

  lemma IndexesNext<V>(defs: seq<StepDef<V>>, idx: map<string, nat>, n: nat)
    requires n < |defs| && IndexesOfFirst(defs, idx, n)
    ensures IndexesOfFirst(defs, idx[defs[n].id := n], n + 1)
  {
  }

  // ---- running ----

  /** How a method call ends; `items` is the result as a sequence if it can be iterated.  `Interrupted`
      is an exception that is no `Exception`: KeyboardInterrupt or SystemExit. */
  datatype Outcome<V> = Returned(whole: V, items: Option<seq<V>>) | Raised(message: string) | Interrupted

  datatype RunError = FromMethod(message: string) | LookupFailed | CallRejected | NotIterable | NoTempDir | Interruption

  /** The error that the handler catches; the `return` in the `finally` block drops an interruption. */
  function Caught(error: Option<RunError>): Option<RunError> {
    if error == Some(Interruption) then None else error
  }

  type Returns<V> = map<string, map<string, V>>

  /** What the world does during a run: each method by step index and arguments. */
  datatype World<!V> = World(tempDir: bool, path: seq<string> -> V, perform: (nat, map<string, V>) -> Outcome<V>)

  function Zip<V>(names: seq<string>, values: seq<V>, n: nat): (r: map<string, V>)
    requires n <= |names| && n <= |values|
    ensures forall k :: k in r <==> k in names[..n]
  {
    if n == 0 then map[]
    else
      assert names[..n] == names[..n - 1] + [names[n - 1]];
      Zip(names, values, n - 1)[names[n - 1] := values[n - 1]]
  }

  /** The named return values; None if there are several names and the result cannot be iterated. */
  function Bind<V>(names: seq<string>, o: Outcome<V>): Option<map<string, V>>
    requires o.Returned?
  {
    if names == [] then Some(map[])
    else if |names| == 1 then Some(map[names[0] := o.whole])
    else if o.items.None? then None
    else Some(Zip(names, o.items.value, if |names| <= |o.items.value| then |names| else |o.items.value|))
  }

  predicate Available<V>(results: Returns<V>, a: Argument<V>) {
    a.FromStep? ==> a.stepId in results && a.returnName in results[a.stepId]
  }

  function Resolve<V>(results: Returns<V>, a: Argument<V>, path: seq<string> -> V): V
    requires Available(results, a)
  {
    match a
    case Const(v) => v
    case FromStep(id, name) => results[id][name]
    case WorkDir(parts) => path(parts)
  }

  /** One step: its named return values, or the error that stopped it at stage 1. */
  datatype StepEnd<V> = Completed(values: map<string, V>) | Failed(error: RunError)

  function RunStep<V>(d: StepDef<V>, i: nat, results: Returns<V>, w: World<V>): StepEnd<V> {
    if exists n :: n in d.arguments && !Available(results, d.arguments[n]) then Failed(LookupFailed)
    else
      var args := map n | n in d.arguments :: Resolve(results, d.arguments[n], w.path);
      if !Accepts(d.params, args.Keys) then Failed(CallRejected)
      else
        var o := w.perform(i, args);
        if o.Raised? then Failed(FromMethod(o.message))
        else if o.Interrupted? then Failed(Interruption)
        else
          var b := Bind(d.returnNames, o);
          if b.None? then Failed(NotIterable) else Completed(b.value)
  }

  /** How far a run gets: `done` steps completed, and the error that stopped it, if any. */
  datatype Progress<V> = Progress(done: nat, results: Returns<V>, error: Option<RunError>)

  function RunFrom<V>(defs: seq<StepDef<V>>, i: nat, results: Returns<V>, w: World<V>): (p: Progress<V>)
    requires i <= |defs|
    ensures i <= p.done <= |defs|
    ensures p.error.None? <==> p.done == |defs|
    decreases |defs| - i
  {
    if i == |defs| then Progress(i, results, None)
    else
      match RunStep(defs[i], i, results, w)
      case Failed(e) => Progress(i, results, Some(e))
      case Completed(values) => RunFrom(defs, i + 1, results[defs[i].id := values], w)
  }

  function Run<V>(defs: seq<StepDef<V>>, w: World<V>): Progress<V> {
    if w.tempDir then RunFrom(defs, 0, map[], w) else Progress(0, map[], Some(NoTempDir))
  }

  /** The stage of step `i` after a run that got as far as `p`. */
  function StageAfter<V>(p: Progress<V>, i: nat, before: int): int {
    if i < p.done then 2 else if i == p.done && p.error.Some? && p.error != Some(NoTempDir) then 1 else before
  }

  datatype StepFeedback<V> = StepFeedback(id: string, name: string, stage: int, results: map<string, V>)

  datatype Feedback<V> = Feedback(error: Option<RunError>, steps: seq<StepFeedback<V>>, outputs: Returns<V>)

  /** A completed step's return values and outputs can all be found. */
  predicate Reportable<V>(d: StepDef<V>, stage: int, results: Returns<V>) {
    stage == 2 ==> d.id in results && forall n :: n in d.outputs ==> n in results[d.id]
  }

  function Report<V>(d: StepDef<V>, stage: int, results: Returns<V>): StepFeedback<V>
    requires Reportable(d, stage, results)
  {
    StepFeedback(d.id, d.name, stage, if stage == 2 then results[d.id] else map[])
  }

  function OutputsOf<V>(d: StepDef<V>, results: Returns<V>): map<string, V>
    requires d.id in results
  {
    map m | m in d.outputs && m in results[d.id] :: results[d.id][m]
  }

  /** The outputs of the steps at stage 2 among the first `n`; a repeated id reports its last. */
  function Outputs<V>(defs: seq<StepDef<V>>, stages: seq<int>, results: Returns<V>, n: nat): Returns<V>
    requires n <= |defs| == |stages|
    requires forall i :: 0 <= i < n ==> Reportable(defs[i], stages[i], results)
  {
    if n == 0 then map[]
    else
      var d, before := defs[n - 1], Outputs(defs, stages, results, n - 1);
      assert Reportable(d, stages[n - 1], results);
      if stages[n - 1] == 2 then before[d.id := OutputsOf(d, results)] else before
  }

  /** The feedback after the steps have reached `stages`; None if a lookup raises while it is built. */
  function FeedbackOf<V>(defs: seq<StepDef<V>>, stages: seq<int>, p: Progress<V>): Option<Feedback<V>>
    requires |defs| == |stages|
  {
    if exists i :: 0 <= i < |defs| && !Reportable(defs[i], stages[i], p.results) then None
    else Some(Feedback(Caught(p.error),
                       seq(|defs|, i requires 0 <= i < |defs| => Report(defs[i], stages[i], p.results)),
                       Outputs(defs, stages, p.results, |defs|)))
  }

  lemma OutputsNext<V>(defs: seq<StepDef<V>>, stages: seq<int>, results: Returns<V>, n: nat)
    requires n < |defs| == |stages|
    requires forall i :: 0 <= i <= n ==> Reportable(defs[i], stages[i], results)
    ensures var before := Outputs(defs, stages, results, n);
      Outputs(defs, stages, results, n + 1)
      == if stages[n] == 2 then before[defs[n].id := OutputsOf(defs[n], results)] else before
  {
  }

  lemma FeedbackIs<V>(defs: seq<StepDef<V>>, stages: seq<int>, p: Progress<V>, reports: seq<StepFeedback<V>>)
    requires |defs| == |stages| == |reports|
    requires forall i :: 0 <= i < |defs| ==> Reportable(defs[i], stages[i], p.results)
    requires forall i :: 0 <= i < |defs| ==> reports[i] == Report(defs[i], stages[i], p.results)
    ensures FeedbackOf(defs, stages, p)
         == Some(Feedback(Caught(p.error), reports, Outputs(defs, stages, p.results, |defs|)))
  {
    hide Report, Outputs;
    assert FeedbackOf(defs, stages, p).value.steps == reports;
  }

  // ---- the classes ----

  class Step<V> {
    const def: StepDef<V>
    var stage: int

    constructor (def: StepDef<V>)
      ensures this.def == def && stage == 0
    {
      this.def := def;
      stage := 0;
    }
  }

  class Workflow<V> {
    var steps: seq<Step<V>>
    var stepIdxById: map<string, nat>

    function Defs(): (defs: seq<StepDef<V>>)
      reads this`steps
      ensures |defs| == |steps| && forall i :: 0 <= i < |defs| ==> defs[i] == steps[i].def
    {
      var all := steps;
      seq(|all|, i requires 0 <= i < |all| => all[i].def)
    }

    function Stages(): (stages: seq<int>)
      reads this`steps, steps
      ensures |stages| == |steps| && forall i :: 0 <= i < |stages| ==> stages[i] == steps[i].stage
    {
      var all := steps;
      seq(|all|, i requires 0 <= i < |all| reads all => all[i].stage)
    }

    /** No step object occurs twice. */
    ghost predicate Distinct()
      reads this`steps
    {
      forall i, j :: 0 <= i < j < |steps| ==> steps[i] != steps[j]
    }

    constructor (steps: seq<Step<V>>)
      ensures this.steps == steps && IndexesOf(Defs(), stepIdxById)
    {
      this.steps := steps;
      stepIdxById := map[];
      new;
      Reindex();
    }

    method Reindex()
      modifies this`stepIdxById
      ensures IndexesOf(Defs(), stepIdxById)
    {
      stepIdxById := map[];
      ghost var defs := Defs();
      for i := 0 to |steps|
        invariant Defs() == defs
        invariant IndexesOfFirst(defs, stepIdxById, i)
      {
        IndexesNext(defs, stepIdxById, i);
        hide IndexesOfFirst;
        stepIdxById := stepIdxById[steps[i].def.id := i];
      }
    }

    /** The checks of one step against the return names of the steps before it. */
    method ValidateStep(d: StepDef<V>, results: map<string, seq<string>>, ghost earlier: seq<StepDef<V>>)
      returns (error: Option<ValidationError>)
      requires Knows(results, earlier)
      ensures error.None? <==> StepOk(earlier, d)
      ensures error.Some? ==> Fault(earlier, d, error.value)
    {
      for i := 0 to |d.params|
        invariant forall k :: 0 <= k < i ==>
                    d.params[k].keyword && (d.params[k].required ==> d.params[k].name in d.arguments)
      {
        if !d.params[i].keyword { return Some(NonKeywordParameter); }
        if d.params[i].required && d.params[i].name !in d.arguments { return Some(MissingArgument); }
      }
      var rest := d.arguments.Keys;
      while rest != {}
        invariant rest <= d.arguments.Keys
        invariant forall n :: n in d.arguments && n !in rest ==>
                    ParamNamed(d.params, n) && Resolves(earlier, d.arguments[n])
        decreases rest
      {
        var name :| name in rest;
        var value := d.arguments[name];
        if value.FromStep? {
          if value.stepId !in results { return Some(NoSuchStep); }
          if value.returnName !in results[value.stepId] {
            assert !Provides(earlier, value.stepId, value.returnName);
            return Some(NoSuchReturn);
          }
          ghost var j :| 0 <= j < |earlier| && earlier[j].id == value.stepId;
        }
        if !ParamNamed(d.params, name) { return Some(UnknownParameter); }
        rest := rest - {name};
      }
      error := None;
    }

    method Validate() returns (error: Option<ValidationError>)
      ensures error.None? <==> Valid(Defs())
      ensures error == Some(NoSteps) <==> steps == []
      ensures error.Some? && !error.value.NoSteps? ==> FirstFault(Defs(), error.value)
    {
      if steps == [] { return Some(NoSteps); }
      ghost var defs := Defs();
      NoStepsYet(defs);
      KnowsNone(defs);
      hide StepOk, Fresh, ValidUpTo, Knows;
      var ids: set<string> := {};
      var results: map<string, seq<string>> := map[];
      for i := 0 to |steps|
        invariant results.Keys == ids && Knows(results, defs[..i])
        invariant ValidUpTo(defs, i)
      {
        var d := steps[i].def;
        assert d == defs[i];
        KnowsFresh(results, defs[..i], d.id);
        ValidNext(defs, i);
        if d.id in ids {
          assert Fault(defs[..i], defs[i], DuplicateId);
          return Some(DuplicateId);
        }
        ids := ids + {d.id};
        error := ValidateStep(d, results, defs[..i]);
        if error.Some? { return; }
        KnowsNext(results, defs, i);
        results := results[d.id := d.returnNames];
      }
      error := None;
    }

    method InsertStep(step: Step<V>, beforeId: Option<string>, afterId: Option<string>)
      returns (error: Option<InsertionError>)
      requires IndexesOf(Defs(), stepIdxById)
      modifies this
      ensures IndexesOf(Defs(), stepIdxById)
      ensures error == Some(BothOrNeither) <==> beforeId.Some? == afterId.Some?
      ensures error == Some(StepNotFound) <==>
        beforeId.Some? != afterId.Some? && Fresh(old(Defs()), if beforeId.Some? then beforeId.value else afterId.value)
      ensures error.Some? ==> steps == old(steps)
      ensures error.None? ==>
        var id := if beforeId.Some? then beforeId.value else afterId.value;
        && id in old(stepIdxById)
        && var at := old(stepIdxById)[id] + if beforeId.Some? then 0 else 1;
           at <= |old(steps)| && steps == old(steps)[..at] + [step] + old(steps)[at..]
    {
      if beforeId.Some? == afterId.Some? { return Some(BothOrNeither); }
      var id := if beforeId.Some? then beforeId.value else afterId.value;
      if id !in stepIdxById { return Some(StepNotFound); }
      assert Defs()[stepIdxById[id]].id == id;
      var at := if beforeId.Some? then stepIdxById[id] else stepIdxById[id] + 1;
      steps := steps[..at] + [step] + steps[at..];
      Reindex();
      error := None;
    }

    /** The keyword arguments of a call; None if a referenced value is missing. */
    method ResolveArguments(d: StepDef<V>, results: Returns<V>, path: seq<string> -> V)
      returns (arguments: Option<map<string, V>>)
      ensures arguments.None? <==> exists n :: n in d.arguments && !Available(results, d.arguments[n])
      ensures arguments.Some? ==>
        && arguments.value.Keys == d.arguments.Keys
        && forall n :: n in d.arguments ==> arguments.value[n] == Resolve(results, d.arguments[n], path)
    {
      var resolved: map<string, V> := map[];
      var rest := d.arguments.Keys;
      while rest != {}
        invariant rest <= d.arguments.Keys && resolved.Keys == d.arguments.Keys - rest
        invariant forall n :: n in resolved ==>
          Available(results, d.arguments[n]) && resolved[n] == Resolve(results, d.arguments[n], path)
        decreases rest
      {
        var n :| n in rest;
        if !Available(results, d.arguments[n]) { return None; }
        resolved := resolved[n := Resolve(results, d.arguments[n], path)];
        rest := rest - {n};
      }
      arguments := Some(resolved);
    }

    /** The body of the `with logger_context(step)` block. */
    method CallStep(d: StepDef<V>, i: nat, results: Returns<V>, w: World<V>) returns (end: StepEnd<V>)
      ensures end == RunStep(d, i, results, w)
    {
      var arguments := ResolveArguments(d, results, w.path);
      if arguments.None? { return Failed(LookupFailed); }
      assert arguments.value == map n | n in d.arguments :: Resolve(results, d.arguments[n], w.path);
      if !Accepts(d.params, arguments.value.Keys) { return Failed(CallRejected); }
      var o := w.perform(i, arguments.value);
      if o.Raised? { return Failed(FromMethod(o.message)); }
      if o.Interrupted? { return Failed(Interruption); }
      var bound := Bind(d.returnNames, o);
      end := if bound.None? then Failed(NotIterable) else Completed(bound.value);
    }

    /** The steps in order, each at stage 1 while it runs and at stage 2 once it has returned. */
    method RunSteps(w: World<V>) returns (p: Progress<V>)
      requires Distinct()
      modifies steps
      ensures p == Run(Defs(), w)
      ensures forall i :: 0 <= i < |steps| ==> steps[i].stage == StageAfter(p, i, old(steps[i].stage))
    {
      ghost var defs := Defs();
      if !w.tempDir { return Progress(0, map[], Some(NoTempDir)); }
      var results: Returns<V> := map[];
      hide RunStep;
      for i := 0 to |steps|
        invariant RunFrom(defs, 0, map[], w) == RunFrom(defs, i, results, w)
        invariant forall k :: 0 <= k < |steps| ==> steps[k].stage == if k < i then 2 else old(steps[k].stage)
      {
        var step := steps[i];
        step.stage := 1;
        var end := CallStep(step.def, i, results, w);
        if end.Failed? {
          RunFromIsRunError(defs, i, results, w);
          return Progress(i, results, Some(end.error));
        }
        results := results[step.def.id := end.values];
        step.stage := 2;
      }
      p := Progress(|steps|, results, None);
    }

    /** The outputs of one completed step; None if one of them is missing. */
    method StepOutputs(d: StepDef<V>, results: Returns<V>) returns (outputs: Option<map<string, V>>)
      ensures outputs.Some? <==> Reportable(d, 2, results)
      ensures outputs.Some? ==> outputs.value == OutputsOf(d, results)
    {
      if d.id !in results { return None; }
      var found: map<string, V> := map[];
      for i := 0 to |d.outputs|
        invariant forall m :: m in d.outputs[..i] ==> m in results[d.id]
        invariant found == map m | m in d.outputs[..i] && m in results[d.id] :: results[d.id][m]
      {
        var m := d.outputs[i];
        assert d.outputs[..i + 1] == d.outputs[..i] + [m];
        if m !in results[d.id] {
          assert m in d.outputs;
          return None;
        }
        found := found[m := results[d.id][m]];
      }
      assert d.outputs[..|d.outputs|] == d.outputs;
      outputs := Some(found);
    }

    /** The `finally` block; None stands for a lookup that raises in it. */
    method WriteFeedback(p: Progress<V>) returns (feedback: Option<Feedback<V>>)
      ensures feedback == FeedbackOf(Defs(), Stages(), p)
    {
      var reports: seq<StepFeedback<V>> := [];
      var outputs: Returns<V> := map[];
      ghost var defs, stages := Defs(), Stages();
      assert outputs == Outputs(defs, stages, p.results, 0);
      hide Report, Outputs, OutputsOf;
      for i := 0 to |steps|
        invariant |reports| == i
        invariant forall k :: 0 <= k < i ==> Reportable(defs[k], stages[k], p.results)
        invariant forall k :: 0 <= k < i ==> reports[k] == Report(defs[k], stages[k], p.results)
        invariant outputs == Outputs(defs, stages, p.results, i)
      {
        var d, stage := steps[i].def, steps[i].stage;
        if stage == 2 {
          var found := StepOutputs(d, p.results);
          if found.None? {
            assert !Reportable(defs[i], stages[i], p.results);
            return None;
          }
          outputs := outputs[d.id := found.value];
        }
        OutputsNext(defs, stages, p.results, i);
        reports := reports + [Report(d, stage, p.results)];
      }
      FeedbackIs(defs, stages, p, reports);
      feedback := Some(Feedback(Caught(p.error), reports, outputs));
    }

    /** `run_workflow`: runs the steps and writes the feedback. */
    method RunWorkflow(w: World<V>) returns (feedback: Option<Feedback<V>>)
      requires Distinct()
      modifies steps
      ensures forall i :: 0 <= i < |steps| ==>
        steps[i].stage == StageAfter(Run(Defs(), w), i, old(steps[i].stage))
      ensures feedback == FeedbackOf(Defs(), Stages(), Run(Defs(), w))
    {
      var p := RunSteps(w);
      feedback := WriteFeedback(p);
    }
  }

  lemma RunFromIsRunError<V>(defs: seq<StepDef<V>>, i: nat, results: Returns<V>, w: World<V>)
    requires i < |defs| && RunStep(defs[i], i, results, w).Failed?
    ensures RunFrom(defs, i, results, w) == Progress(i, results, Some(RunStep(defs[i], i, results, w).error))
  {
  }
}

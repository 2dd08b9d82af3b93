/**
 The apply job end to end: wrapper, workflow and apply loop.  What the delta statuses in the
 database say about the project that was uploaded.
 */
module DeltaPipeline {
  import opened Prelude
  import DeltaModel
  import DeltaSafety
  import opened Workflows
  import WorkflowProofs
  import JobProtocol
  import ApplyJob
  import ApplyJobProofs

  /** The values that the steps of the workflow pass around. */
  datatype Val = Nothing | Text(s: string) | Flag(on: bool) | Path(parts: seq<string>)
    | Log(entries: seq<DeltaModel.Entry>)

  const START := "start_qgis_app"
  const DOWNLOAD := "download_project_directory"
  const APPLY := "apply_deltas"
  const STOP := "stop_qgis_app"
  const UPLOAD := "upload_project_directory"
  const DELTA_FEEDBACK := "delta_feedback"

  function Required(name: string): Param {
    Param(name, true, true)
  }

  function Optional(name: string): Param {
    Param(name, true, false)
  }

  /** The workflow of the apply command. */
  function ApplyChanges(projectId: string, projectFile: string, deltaFile: string,
                        ctx: DeltaModel.Context): seq<StepDef<Val>> {
    [StepDef(START, "Start QGIS Application", [], map[], ["qgis_version"], []),
     StepDef(DOWNLOAD, "Download Project Directory",
             [Required("project_id"), Optional("destination"), Optional("skip_attachments")],
             map["project_id" := Const(Text(projectId)), "destination" := WorkDir([]),
                 "skip_attachments" := Const(Flag(true))],
             ["tmp_project_dir"], []),
     StepDef(APPLY, "Apply Deltas",
             [Required("the_qgis_file_name"), Required("delta_filename"), Required("inverse"),
              Required("overwrite_conflicts")],
             map["the_qgis_file_name" := WorkDir(["files", projectFile]), "delta_filename" := Const(Text(deltaFile)),
                 "inverse" := Const(Flag(ctx.inverse)), "overwrite_conflicts" := Const(Flag(ctx.overwrite))],
             [DELTA_FEEDBACK], [DELTA_FEEDBACK]),
     StepDef(STOP, "Stop QGIS Application", [], map[], [], []),
     StepDef(UPLOAD, "Upload Project", [Required("project_id"), Required("project_dir")],
             map["project_id" := Const(Text(projectId)), "project_dir" := WorkDir(["files"])], [], [])]
  }

  /** How a call ends; an interruption is an exception that is no `Exception`. */
  datatype CallEnd = Well | WithException | ByInterruption

  /** What happens in one container: how the calls end, the layers of the project as QGIS reads it, the
      deltas of the file and all answers of QGIS while they are applied.  `opens` is the apply step up to
      its loop, `clears` the rest of it; an interruption of the loop counts as one of `opens`. */
  datatype Container = Container(
    tempDir: bool, starts: CallEnd, downloads: CallEnd, opens: CallEnd, layers: map<string, DeltaModel.Layer>,
    deltas: seq<DeltaModel.Delta>, ctx: DeltaModel.Context, answers: nat -> DeltaModel.Answers, clears: CallEnd,
    stops: CallEnd, uploads: CallEnd)

  /** The apply loop over all deltas of the file. */
  ghost function LoopWith(c: Container, inverse: bool, overwrite: bool): DeltaModel.RunState {
    DeltaModel.RunPrefix(DeltaModel.Start(c.layers), c.deltas, c.ctx.(inverse := inverse, overwrite := overwrite),
                         c.answers, |c.deltas|)
  }

  /** The loop as the job asks for it. */
  ghost function Loop(c: Container): DeltaModel.RunState {
    DeltaModel.RunPrefix(DeltaModel.Start(c.layers), c.deltas, c.ctx, c.answers, |c.deltas|)
  }

  function Done(end: CallEnd, v: Val): Outcome<Val> {
    match end
    case Well => Returned(v, None)
    case WithException => Raised("")
    case ByInterruption => Interrupted
  }

  /** The end of the apply loop with these two flags. */
  type Runs = (bool, bool) -> DeltaModel.RunState

  predicate HasFlags(args: map<string, Val>) {
    && "inverse" in args && args["inverse"].Flag?
    && "overwrite_conflicts" in args && args["overwrite_conflicts"].Flag?
  }

  /** The outcome of each step; the apply step runs the loop with the flags that it receives. */
  function Perform(c: Container, runs: Runs, i: nat, args: map<string, Val>): Outcome<Val> {
    if i == 0 then Done(c.starts, Text("version"))
    else if i == 1 then Done(c.downloads, Path(["files"]))
    else if i == 2 then
      if c.opens != Well then Done(c.opens, Nothing)
      else if !HasFlags(args) then Raised("")
      else
        var run := runs(args["inverse"].on, args["overwrite_conflicts"].on);
        if run.raised then Raised("") else Done(c.clears, Log(run.log))
    else if i == 3 then Done(c.stops, Nothing)
    else Done(c.uploads, Nothing)
  }

  ghost function WorldOf(c: Container): World<Val> {
    World(c.tempDir, parts => Path(parts),
          (i, args) => Perform(c, (inverse, overwrite) => LoopWith(c, inverse, overwrite), i, args))
  }

  /** The feedback file as the wrapper reads it. */
  function FileOf(f: Feedback<Val>): ApplyJob.FeedbackFile {
    ApplyJob.FeedbackFile(f.error.Some?,
                          if APPLY in f.outputs && DELTA_FEEDBACK in f.outputs[APPLY]
                            && f.outputs[APPLY][DELTA_FEEDBACK].Log?
                          then Some(f.outputs[APPLY][DELTA_FEEDBACK].entries) else None)
  }

  ghost function ProgressOf(c: Container, defs: seq<StepDef<Val>>): Progress<Val> {
    Run(defs, WorldOf(c))
  }

  ghost function Feedback(c: Container, defs: seq<StepDef<Val>>): Option<Feedback<Val>> {
    FeedbackOf(defs, WorkflowProofs.FreshStages(defs, ProgressOf(c, defs)), ProgressOf(c, defs))
  }

  /** If the wrapper can read a feedback file, it is the one that the workflow of `c` wrote. */
  ghost predicate Wrote(c: Container, defs: seq<StepDef<Val>>, seen: ApplyJob.Container) {
    seen.Exited? && seen.file.Some? ==> Feedback(c, defs).Some? && seen.file.value == FileOf(Feedback(c, defs).value)
  }

  // ---- runs of any workflow ----

  /** The constants among the arguments are as the step has them. */
  ghost predicate Fits<V>(d: StepDef<V>, args: map<string, V>) {
    args.Keys == d.arguments.Keys
    && forall n :: n in d.arguments && d.arguments[n].Const? ==> args[n] == d.arguments[n].value
  }

  lemma {:induction false} DoneStepReturned<V(!new)>(defs: seq<StepDef<V>>, i: nat, results: Returns<V>, w: World<V>,
                                                     k: nat)
    requires i <= |defs| && i <= k < RunFrom(defs, i, results, w).done
    requires forall a, b :: 0 <= a < b < |defs| ==> defs[a].id != defs[b].id
    ensures defs[k].id in RunFrom(defs, i, results, w).results
    ensures exists args ::
      Fits(defs[k], args) && w.perform(k, args).Returned?
      && Bind(defs[k].returnNames, w.perform(k, args)) == Some(RunFrom(defs, i, results, w).results[defs[k].id])
    decreases k - i
  {
    var more := results[defs[i].id := RunStep(defs[i], i, results, w).values];
    if i == k {
      var args := map n | n in defs[i].arguments :: Resolve(results, defs[i].arguments[n], w.path);
      assert Fits(defs[i], args) && w.perform(i, args).Returned?;
      EarlierResultStays(defs, i + 1, more, w, i);
    } else {
      DoneStepReturned(defs, i + 1, more, w, k);
    }
  }

  /** An interrupted run was interrupted in the first step that is not done. */
  lemma {:induction false} InterruptedIn<V(!new)>(defs: seq<StepDef<V>>, i: nat, results: Returns<V>, w: World<V>)
    requires i <= |defs| && RunFrom(defs, i, results, w).error == Some(Interruption)
    ensures var p := RunFrom(defs, i, results, w);
      p.done < |defs| && exists args :: w.perform(p.done, args).Interrupted?
    decreases |defs| - i
  {
    var end := RunStep(defs[i], i, results, w);
    if end.Completed? {
      hide RunStep;
      InterruptedIn(defs, i + 1, results[defs[i].id := end.values], w);
    } else {
      var args := map n | n in defs[i].arguments :: Resolve(results, defs[i].arguments[n], w.path);
      assert w.perform(i, args).Interrupted?;
    }
  }

  /** A valid workflow whose first `n` steps return gets as far as step `n`; if that is interrupted, it
      ends there. */
  lemma {:induction false} RunReaches<V(!new)>(defs: seq<StepDef<V>>, i: nat, results: Returns<V>, w: World<V>, n: nat)
    requires i <= n < |defs| && Valid(defs) && WorkflowProofs.EnoughValues(defs, w)
    requires WorkflowProofs.AllReturned(defs, i, results)
    requires forall k: nat, args :: i <= k < n && Fits(defs[k], args) ==> w.perform(k, args).Returned?
    requires forall args :: w.perform(n, args).Interrupted?
    ensures RunFrom(defs, i, results, w).done == n && RunFrom(defs, i, results, w).error == Some(Interruption)
    decreases n - i
  {
    WorkflowProofs.ValidStepIsCallable(defs, i, results, w);
    var end := RunStep(defs[i], i, results, w);
    var args := map m | m in defs[i].arguments :: Resolve(results, defs[i].arguments[m], w.path);
    assert Fits(defs[i], args);
    assert i < n ==> w.perform(i, args).Returned?;
    if i < n {
      hide RunStep, Valid, WorkflowProofs.EnoughValues;
      RunReaches(defs, i + 1, results[defs[i].id := end.values], w, n);
    }
  }

  lemma {:induction false} EarlierResultStays<V>(defs: seq<StepDef<V>>, i: nat, results: Returns<V>, w: World<V>,
                                                 k: nat)
    requires k < i <= |defs| && defs[k].id in results
    requires forall a, b :: 0 <= a < b < |defs| ==> defs[a].id != defs[b].id
    ensures var p := RunFrom(defs, i, results, w);
      defs[k].id in p.results && p.results[defs[k].id] == results[defs[k].id]
    decreases |defs| - i
  {
    hide RunStep;
    if i < |defs| && RunStep(defs[i], i, results, w).Completed? {
      EarlierResultStays(defs, i + 1, results[defs[i].id := RunStep(defs[i], i, results, w).values], w, k);
    }
  }

  lemma {:induction false} OutputsOfStep<V>(defs: seq<StepDef<V>>, stages: seq<int>, results: Returns<V>, n: nat,
                                            k: nat)
    requires k < n <= |defs| == |stages| && stages[k] == 2
    requires forall i :: 0 <= i < n ==> Reportable(defs[i], stages[i], results)
    requires forall a, b :: 0 <= a < b < |defs| ==> defs[a].id != defs[b].id
    ensures defs[k].id in Outputs(defs, stages, results, n)
    ensures forall m :: m in defs[k].outputs ==>
      m in Outputs(defs, stages, results, n)[defs[k].id]
      && Outputs(defs, stages, results, n)[defs[k].id][m] == results[defs[k].id][m]
  {
    if k < n - 1 {
      OutputsOfStep(defs, stages, results, n - 1, k);
    }
  }

  // ---- the apply workflow ----

  lemma ApplyChangesIsValid(projectId: string, projectFile: string, deltaFile: string, ctx: DeltaModel.Context)
    ensures var defs := ApplyChanges(projectId, projectFile, deltaFile, ctx);
      Valid(defs) && |defs| == 5 && forall i :: 0 <= i < 5 ==> |defs[i].returnNames| <= 1
  {
    var defs := ApplyChanges(projectId, projectFile, deltaFile, ctx);
    forall i | 0 <= i < 5 ensures StepOk(defs[..i], defs[i]) {
      StepAccepts(projectId, projectFile, deltaFile, ctx, i);
    }
    IdsDiffer(projectId, projectFile, deltaFile, ctx);
  }

  lemma IdsDiffer(projectId: string, projectFile: string, deltaFile: string, ctx: DeltaModel.Context)
    ensures var defs := ApplyChanges(projectId, projectFile, deltaFile, ctx);
      forall i, j :: 0 <= i < j < |defs| ==> defs[i].id != defs[j].id
  {
    assert START[2] == 'a' && DOWNLOAD[0] == 'd' && APPLY[0] == 'a' && STOP[2] == 'o' && UPLOAD[0] == 'u'
      && START[0] == 's' && STOP[0] == 's';
  }

  lemma StepAccepts(projectId: string, projectFile: string, deltaFile: string, ctx: DeltaModel.Context, i: nat)
    requires i < 5
    ensures var d := ApplyChanges(projectId, projectFile, deltaFile, ctx)[i];
      Accepts(d.params, d.arguments.Keys) && forall n :: n in d.arguments ==> !d.arguments[n].FromStep?
  {
    var d := ApplyChanges(projectId, projectFile, deltaFile, ctx)[i];
    if i == 1 {
      assert d.params[0].name == "project_id" && d.params[1].name == "destination"
        && d.params[2].name == "skip_attachments";
    } else if i == 2 {
      assert d.params[0].name == "the_qgis_file_name" && d.params[1].name == "delta_filename"
          && d.params[2].name == "inverse" && d.params[3].name == "overwrite_conflicts";
    } else if i == 4 {
      assert d.params[0].name == "project_id" && d.params[1].name == "project_dir";
    }
  }

  predicate Uninterrupted(c: Container) {
    ByInterruption !in {c.starts, c.downloads, c.opens, c.clears, c.stops, c.uploads}
  }

  /** A readable feedback file without error comes from a run in which all five steps, the upload
      included, have returned, exactly if none was interrupted.  It has a delta feedback exactly if the
      apply step has returned, and this is the whole log of a loop that no exception has left. */
  lemma CleanFileMeansAllDone(projectId: string, projectFile: string, deltaFile: string, c: Container,
                              seen: ApplyJob.Container)
    requires var defs := ApplyChanges(projectId, projectFile, deltaFile, c.ctx);
      Wrote(c, defs, seen) && seen.Exited? && seen.file.Some? && !seen.file.value.error
    ensures var p := ProgressOf(c, ApplyChanges(projectId, projectFile, deltaFile, c.ctx));
      && (p.done == 5 <==> Uninterrupted(c)) && (p.done == 5 ==> c.uploads == Well)
      && (seen.file.value.deltaFeedback.Some? <==> p.done >= 3)
      && (p.done >= 3 ==> seen.file.value.deltaFeedback == Some(Loop(c).log) && !Loop(c).raised)
      && (p.done >= 3 ==> (p.done == 5 <==> c.stops != ByInterruption && c.uploads != ByInterruption))
  {
    var defs := ApplyChanges(projectId, projectFile, deltaFile, c.ctx);
    ApplyChangesIsValid(projectId, projectFile, deltaFile, c.ctx);
    var p := ProgressOf(c, defs);
    ApplyChangesOutputs(projectId, projectFile, deltaFile, c.ctx);
    ApplyChangesPassesFlags(projectId, projectFile, deltaFile, c);
    hide ApplyChanges, Loop, PassesFlags;
    DoneStepsEndWell(c, defs);
    InterruptedStep(c, defs);
    FileHasFeedback(c, defs);
  }

  lemma ApplyChangesOutputs(projectId: string, projectFile: string, deltaFile: string, ctx: DeltaModel.Context)
    ensures var defs := ApplyChanges(projectId, projectFile, deltaFile, ctx);
      && defs[2].id == APPLY && defs[2].returnNames == [DELTA_FEEDBACK] && defs[2].outputs == [DELTA_FEEDBACK]
  {
  }

  /** The apply step passes the two flags of the job. */
  predicate PassesFlags(c: Container, defs: seq<StepDef<Val>>) {
    && |defs| == 5
    && "inverse" in defs[2].arguments && defs[2].arguments["inverse"] == Const(Flag(c.ctx.inverse))
    && "overwrite_conflicts" in defs[2].arguments
    && defs[2].arguments["overwrite_conflicts"] == Const(Flag(c.ctx.overwrite))
  }

  lemma ApplyChangesPassesFlags(projectId: string, projectFile: string, deltaFile: string, c: Container)
    ensures PassesFlags(c, ApplyChanges(projectId, projectFile, deltaFile, c.ctx))
  {
  }

  lemma DoneStepsEndWell(c: Container, defs: seq<StepDef<Val>>)
    requires Valid(defs) && PassesFlags(c, defs)
    ensures var done := ProgressOf(c, defs).done;
      && (done > 0 ==> c.starts == Well) && (done > 1 ==> c.downloads == Well)
      && (done > 2 ==> c.opens == Well && !Loop(c).raised && c.clears == Well)
      && (done > 3 ==> c.stops == Well) && (done > 4 ==> c.uploads == Well)
  {
    hide Loop, LoopWith;
    forall k: nat | k < ProgressOf(c, defs).done ensures ReturnsIf(c, k) {
      DoneStepReturned(defs, 0, map[], WorldOf(c), k);
      var args :| Fits(defs[k], args) && WorldOf(c).perform(k, args).Returned?;
      EndOfStep(c, defs, k, args);
    }
    hide ProgressOf;
    assert ProgressOf(c, defs).done > 0 ==> ReturnsIf(c, 0);
    assert ProgressOf(c, defs).done > 1 ==> ReturnsIf(c, 1);
    assert ProgressOf(c, defs).done > 2 ==> ReturnsIf(c, 2);
    assert ProgressOf(c, defs).done > 3 ==> ReturnsIf(c, 3);
    assert ProgressOf(c, defs).done > 4 ==> ReturnsIf(c, 4);
  }

  /** When step `k` returns. */
  ghost predicate ReturnsIf(c: Container, k: nat) {
    if k == 0 then c.starts == Well
    else if k == 1 then c.downloads == Well
    else if k == 2 then c.opens == Well && !Loop(c).raised && c.clears == Well
    else if k == 3 then c.stops == Well
    else c.uploads == Well
  }

  lemma EndOfStep(c: Container, defs: seq<StepDef<Val>>, k: nat, args: map<string, Val>)
    requires PassesFlags(c, defs) && k < 5 && Fits(defs[k], args)
    ensures WorldOf(c).perform(k, args).Returned? <==> ReturnsIf(c, k)
    ensures k == 2 && ReturnsIf(c, k) ==> WorldOf(c).perform(k, args) == Returned(Log(Loop(c).log), None)
  {
    assert LoopWith(c, c.ctx.inverse, c.ctx.overwrite) == Loop(c) by {
      assert c.ctx.(inverse := c.ctx.inverse, overwrite := c.ctx.overwrite) == c.ctx;
    }
    hide Loop, LoopWith;
    if k == 2 {
      assert args["inverse"] == Flag(c.ctx.inverse) && args["overwrite_conflicts"] == Flag(c.ctx.overwrite);
    }
  }

  /** Without an error in the file the run is complete, or the step it ended in was interrupted. */
  lemma InterruptedStep(c: Container, defs: seq<StepDef<Val>>)
    requires |defs| == 5 && Feedback(c, defs).Some? && Feedback(c, defs).value.error.None?
    ensures var done := ProgressOf(c, defs).done;
      && (done == 0 ==> c.starts == ByInterruption) && (done == 1 ==> c.downloads == ByInterruption)
      && (done == 2 ==> ByInterruption in {c.opens, c.clears})
      && (done == 3 ==> c.stops == ByInterruption) && (done == 4 ==> c.uploads == ByInterruption)
  {
    hide LoopWith, RunStep;
    var p := ProgressOf(c, defs);
    if p.done < 5 {
      assert p.error == Some(Interruption);
      InterruptedIn(defs, 0, map[], WorldOf(c));
      var args :| WorldOf(c).perform(p.done, args).Interrupted?;
    }
    hide ProgressOf;
  }

  lemma FileHasFeedback(c: Container, defs: seq<StepDef<Val>>)
    requires Valid(defs) && PassesFlags(c, defs) && Feedback(c, defs).Some?
    requires defs[2].id == APPLY && defs[2].returnNames == [DELTA_FEEDBACK] && defs[2].outputs == [DELTA_FEEDBACK]
    ensures FileOf(Feedback(c, defs).value).deltaFeedback
      == if ProgressOf(c, defs).done >= 3 then Some(Loop(c).log) else None
  {
    hide Loop, LoopWith;
    var p, w := ProgressOf(c, defs), WorldOf(c);
    var stages := WorkflowProofs.FreshStages(defs, p);
    assert DELTA_FEEDBACK in defs[2].outputs;
    if p.done >= 3 {
      DoneStepReturned(defs, 0, map[], w, 2);
      var args :| Fits(defs[2], args) && w.perform(2, args).Returned?
        && Bind(defs[2].returnNames, w.perform(2, args)) == Some(p.results[defs[2].id]);
      EndOfStep(c, defs, 2, args);
      OutputsOfStep(defs, stages, p.results, 5, 2);
    } else {
      WorkflowProofs.OutputsOfStageTwo(defs, stages, p.results, 5);
      forall i | 0 <= i < 5 && stages[i] == 2 ensures defs[i].id != APPLY {
        assert defs[i].id != defs[2].id;
      }
    }
  }

  // ---- the database and the uploaded project ----

  /** The job's rows are for exactly the deltas of the file, and ids are unique. */
  ghost predicate SameDeltas(t: ApplyJob.Tables, j: ApplyJob.JobId, ds: seq<DeltaModel.Delta>) {
    && (forall a, b :: 0 <= a < b < |ds| ==> ds[a].id != ds[b].id)
    && (forall id :: id in ApplyJob.IdsOf(ApplyJob.RowsOf(t, j)) <==> exists i :: 0 <= i < |ds| && ds[i].id == id)
    && (forall i :: 0 <= i < |ds| ==> ds[i].id in t.deltas)
  }

  lemma {:induction false} LastStatusAt(log: seq<DeltaModel.Entry>, ds: seq<DeltaModel.Delta>, n: nat, i: nat)
    requires i < n <= |log| == |ds|
    requires forall a, b :: 0 <= a < b < |ds| ==> ds[a].id != ds[b].id
    requires forall k :: 0 <= k < |log| ==> log[k].deltaId == ds[k].id
    ensures ApplyJobProofs.LastStatus(log, n, ds[i].id) == Some(ApplyJob.ToDbStatus(log[i].status))
  {
    if i < n - 1 {
      assert ds[i].id != ds[n - 1].id;
      LastStatusAt(log, ds, n - 1, i);
    }
  }

  lemma WholeLog(c: Container)
    requires !Loop(c).raised
    ensures var r := Loop(c);
      |r.log| == |c.deltas| && forall k :: 0 <= k < |r.log| ==> r.log[k].deltaId == c.deltas[k].id
  {
    DeltaSafety.LogIsComplete(c.layers, c.deltas, c.ctx, c.answers, |c.deltas|);
    hide DeltaModel.RunPrefix, DeltaSafety.Completed, DeltaSafety.HandlerRaises;
  }

  lemma {:induction false} AppliedEntryIsCommit(c: Container, i: nat)
    requires !Loop(c).raised && i < |c.deltas| && |Loop(c).log| == |c.deltas|
      && Loop(c).log[i].status == DeltaModel.Applied
    ensures var s := DeltaModel.RunPrefix(DeltaModel.Start(c.layers), c.deltas, c.ctx, c.answers, i);
      c.deltas[i].layerId in s.layers
      && DeltaModel.AttemptOn(s.layers[c.deltas[i].layerId], c.deltas[i], c.ctx, c.answers(i)).Committed?
  {
    EntryIsOfItsStep(c, |c.deltas|, i);
    hide DeltaModel.AttemptOn;
  }

  lemma LogLength(c: Container, n: nat)
    requires n <= |c.deltas| && !DeltaModel.RunPrefix(DeltaModel.Start(c.layers), c.deltas, c.ctx, c.answers, n).raised
    ensures |DeltaModel.RunPrefix(DeltaModel.Start(c.layers), c.deltas, c.ctx, c.answers, n).log| == n
  {
    DeltaSafety.LogIsComplete(c.layers, c.deltas, c.ctx, c.answers, n);
    hide DeltaModel.RunPrefix, DeltaSafety.Completed, DeltaSafety.HandlerRaises;
  }

  /** The entry that iteration `i` appends is still there after `n` iterations. */
  lemma {:induction false} EntryIsOfItsStep(c: Container, n: nat, i: nat)
    requires i < n <= |c.deltas|
    requires !DeltaModel.RunPrefix(DeltaModel.Start(c.layers), c.deltas, c.ctx, c.answers, n).raised
    ensures var r := DeltaModel.RunPrefix(DeltaModel.Start(c.layers), c.deltas, c.ctx, c.answers, n);
      var s := DeltaModel.RunPrefix(DeltaModel.Start(c.layers), c.deltas, c.ctx, c.answers, i);
      var next := DeltaModel.Step(s, i, c.deltas[i], c.ctx, c.answers(i));
      && |r.log| == n && |s.log| == i && !s.raised && !next.raised && |next.log| == i + 1 && r.log[i] == next.log[i]
  {
    var start := DeltaModel.Start(c.layers);
    var before := DeltaModel.RunPrefix(start, c.deltas, c.ctx, c.answers, n - 1);
    assert !before.raised;
    assert DeltaModel.RunPrefix(start, c.deltas, c.ctx, c.answers, n)
        == DeltaModel.Step(before, n - 1, c.deltas[n - 1], c.ctx, c.answers(n - 1));
    hide DeltaModel.RunPrefix, DeltaModel.Step, DeltaSafety.HandlerRaises;
    DeltaSafety.StepExtendsLog(before, n - 1, c.deltas[n - 1], c.ctx, c.answers(n - 1));
    LogLength(c, n - 1);
    if i < n - 1 {
      EntryIsOfItsStep(c, n - 1, i);
    }
  }

  /** The upload, the last step, has returned. */
  ghost predicate UploadDone(projectId: string, projectFile: string, deltaFile: string, c: Container) {
    ProgressOf(c, ApplyChanges(projectId, projectFile, deltaFile, c.ctx)).done == 5
  }

  /** Main result: a run sets a delta to APPLIED exactly if it ends FINISHED and the delta's log entry
      says so, and then its edit was committed.  All five workflow steps have returned by then, so that
      the project was uploaded afterwards, exactly if neither of the last two was interrupted. */
  lemma AppliedMeansUploaded(t: ApplyJob.Tables, j: ApplyJob.JobId, w: ApplyJob.World,
                             projectId: string, projectFile: string, deltaFile: string, c: Container, i: nat)
    requires Wrote(c, ApplyChanges(projectId, projectFile, deltaFile, c.ctx), w.container)
    requires SameDeltas(t, j, c.deltas) && i < |c.deltas| && t.deltas[c.deltas[i].id] != ApplyJob.Applied
    ensures var (t', ended) := ApplyJob.RunOn(t, j, w);
      var id := c.deltas[i].id;
      && (id in t'.deltas && t'.deltas[id] == ApplyJob.Applied
          <==> ended == ApplyJob.Finished && i < |Loop(c).log| && Loop(c).log[i].status == DeltaModel.Applied)
      && (ended == ApplyJob.Finished ==>
            !Loop(c).raised && (UploadDone(projectId, projectFile, deltaFile, c)
                                <==> c.stops != ByInterruption && c.uploads != ByInterruption))
      && (id in t'.deltas && t'.deltas[id] == ApplyJob.Applied ==>
            var s := DeltaModel.RunPrefix(DeltaModel.Start(c.layers), c.deltas, c.ctx, c.answers, i);
            c.deltas[i].layerId in s.layers
            && DeltaModel.AttemptOn(s.layers[c.deltas[i].layerId], c.deltas[i], c.ctx, c.answers(i)).Committed?)
  {
    var id := c.deltas[i].id;
    hide ApplyJob.RunOn, Wrote, ApplyChanges, ProgressOf, Loop, ApplyJob.IdsOf, ApplyJobProofs.LastStatus,
      DeltaModel.AttemptOn, DeltaModel.RunPrefix;
    ApplyJobProofs.AppliedIff(t, j, w, id);
    var (t', ended) := ApplyJob.RunOn(t, j, w);
    if ended == ApplyJob.Finished {
      ApplyJobProofs.FinishedNeedsCleanContainer(t, j, w);
      CleanFileMeansAllDone(projectId, projectFile, deltaFile, c, w.container);
      WholeLog(c);
      LastStatusAt(Loop(c).log, c.deltas, |c.deltas|, i);
      if Loop(c).log[i].status == DeltaModel.Applied {
        AppliedEntryIsCommit(c, i);
      }
    }
  }

  /** The committed features of the layers that the upload sends. */
  ghost function Uploaded(c: Container): map<string, DeltaModel.Layer> {
    DeltaSafety.CommittedOnly(Loop(c).layers)
  }

  /** The effects of the deltas that the database calls APPLIED, in file order. */
  ghost function FoldApplied(c: Container, deltas: map<string, ApplyJob.DbStatus>,
                             n: nat): map<string, DeltaModel.Layer>
    requires n <= |c.deltas|
  {
    if n == 0 then c.layers
    else
      var before := FoldApplied(c, deltas, n - 1);
      var d := c.deltas[n - 1];
      if d.id in deltas && deltas[d.id] == ApplyJob.Applied
      then DeltaSafety.ApplyEffect(before, d, c.ctx, c.answers(n - 1))
      else before
  }

  lemma {:induction false} SameFolds(c: Container, log: seq<DeltaModel.Entry>, deltas: map<string, ApplyJob.DbStatus>,
                                     n: nat)
    requires n <= |c.deltas| == |log|
    requires forall k :: 0 <= k < n ==>
      (log[k].status == DeltaModel.Applied <==> c.deltas[k].id in deltas && deltas[c.deltas[k].id] == ApplyJob.Applied)
    ensures DeltaSafety.Folded(c.layers, c.deltas, c.ctx, c.answers, log, n) == FoldApplied(c, deltas, n)
  {
    hide DeltaSafety.ApplyEffect;
    if n > 0 {
      SameFolds(c, log, deltas, n - 1);
    }
  }

  /** Main result: when a run ends FINISHED and no rollback was refused, the layers to upload are the
      downloaded ones with the effects of exactly the deltas that the database now calls APPLIED; and
      they have been uploaded exactly if neither of the last two steps was interrupted. */
  lemma FinishedUploadMatchesDatabase(t: ApplyJob.Tables, j: ApplyJob.JobId, w: ApplyJob.World,
                                      projectId: string, projectFile: string, deltaFile: string, c: Container)
    requires Wrote(c, ApplyChanges(projectId, projectFile, deltaFile, c.ctx), w.container)
    requires SameDeltas(t, j, c.deltas)
    requires forall i :: 0 <= i < |c.deltas| ==> t.deltas[c.deltas[i].id] != ApplyJob.Applied
    requires DeltaSafety.Clean(c.layers) && forall d :: d in c.deltas ==> DeltaSafety.WellFormed(d)
    requires DeltaSafety.NoneLeftOpen(DeltaModel.Start(c.layers), c.deltas, c.ctx, c.answers, |c.deltas|)
    ensures var (t', ended) := ApplyJob.RunOn(t, j, w);
      ended == ApplyJob.Finished ==>
        && Uploaded(c) == FoldApplied(c, t'.deltas, |c.deltas|)
        && (UploadDone(projectId, projectFile, deltaFile, c)
            <==> c.stops != ByInterruption && c.uploads != ByInterruption)
  {
    var (t', ended) := ApplyJob.RunOn(t, j, w);
    if ended == ApplyJob.Finished {
      var n := |c.deltas|;
      FinishedFacts(t, j, w, projectId, projectFile, deltaFile, c);
      DeltaSafety.LoopRefinesFold(c.layers, c.deltas, c.ctx, c.answers, n);
      hide ApplyJob.RunOn, Wrote, ApplyChanges, SameDeltas, DeltaModel.RunPrefix, DeltaSafety.Folded, FoldApplied,
        DeltaSafety.NoneLeftOpen;
      SameFolds(c, Loop(c).log, t'.deltas, n);
      DeltaSafety.HeadsAreCleanIff(DeltaModel.Start(c.layers), c.deltas, c.ctx, c.answers, n);
      DeltaSafety.CleanIsCommitted(Loop(c).layers);
    }
  }

  /** After a FINISHED run the statuses in the database and in the log agree. */
  lemma FinishedFacts(t: ApplyJob.Tables, j: ApplyJob.JobId, w: ApplyJob.World,
                      projectId: string, projectFile: string, deltaFile: string, c: Container)
    requires Wrote(c, ApplyChanges(projectId, projectFile, deltaFile, c.ctx), w.container)
    requires SameDeltas(t, j, c.deltas)
    requires forall i :: 0 <= i < |c.deltas| ==> t.deltas[c.deltas[i].id] != ApplyJob.Applied
    requires ApplyJob.RunOn(t, j, w).1 == ApplyJob.Finished
    ensures var deltas := ApplyJob.RunOn(t, j, w).0.deltas;
      && !Loop(c).raised && |Loop(c).log| == |c.deltas|
      && (UploadDone(projectId, projectFile, deltaFile, c)
          <==> c.stops != ByInterruption && c.uploads != ByInterruption)
      && forall k :: 0 <= k < |c.deltas| ==>
           (Loop(c).log[k].status == DeltaModel.Applied
            <==> c.deltas[k].id in deltas && deltas[c.deltas[k].id] == ApplyJob.Applied)
  {
    hide ApplyJob.RunOn, Wrote, ApplyChanges, ProgressOf, Loop, ApplyJob.IdsOf, DeltaModel.AttemptOn,
      DeltaModel.RunPrefix;
    var deltas := ApplyJob.RunOn(t, j, w).0.deltas;
    ApplyJobProofs.FinishedNeedsCleanContainer(t, j, w);
    CleanFileMeansAllDone(projectId, projectFile, deltaFile, c, w.container);
    WholeLog(c);
    forall k | 0 <= k < |c.deltas|
      ensures Loop(c).log[k].status == DeltaModel.Applied
         <==> c.deltas[k].id in deltas && deltas[c.deltas[k].id] == ApplyJob.Applied
    {
      AppliedMeansUploaded(t, j, w, projectId, projectFile, deltaFile, c, k);
    }
  }

  /** An interrupted upload is not noticed: if everything else goes well and the file can be read, the
      run ends FINISHED, although the upload has not returned. */
  lemma InterruptedUploadFinishes(t: ApplyJob.Tables, j: ApplyJob.JobId, w: ApplyJob.World,
                                  projectId: string, projectFile: string, deltaFile: string, c: Container)
    requires Wrote(c, ApplyChanges(projectId, projectFile, deltaFile, c.ctx), w.container)
    requires c.tempDir && c.starts == c.downloads == c.opens == c.clears == c.stops == Well && !Loop(c).raised
    requires c.uploads == ByInterruption
    requires w.container.Exited? && w.container.code == 0 && w.container.file.Some?
    requires w.preparation.Ready? && !w.deleted && w.interrupted.None?
    requires JobProtocol.Others(JobProtocol.SaveStarted(t.jobs, j, w.now), j) == {}
    ensures ApplyJob.RunOn(t, j, w).1 == ApplyJob.Finished
    ensures !UploadDone(projectId, projectFile, deltaFile, c)
  {
    var defs := ApplyChanges(projectId, projectFile, deltaFile, c.ctx);
    ApplyChangesIsValid(projectId, projectFile, deltaFile, c.ctx);
    ApplyChangesOutputs(projectId, projectFile, deltaFile, c.ctx);
    ApplyChangesPassesFlags(projectId, projectFile, deltaFile, c);
    hide ApplyChanges, Loop;
    UploadIsReached(c, defs);
    FileHasFeedback(c, defs);
    hide ProgressOf, ApplyJob.AfterCrons, ApplyJob.MarkAll, ApplyJob.Recorded, ApplyJob.IdsOf;
  }

  lemma UploadIsReached(c: Container, defs: seq<StepDef<Val>>)
    requires Valid(defs) && PassesFlags(c, defs) && forall i :: 0 <= i < 5 ==> |defs[i].returnNames| <= 1
    requires c.tempDir && c.starts == c.downloads == c.opens == c.clears == c.stops == Well && !Loop(c).raised
    requires c.uploads == ByInterruption
    ensures ProgressOf(c, defs).done == 4 && ProgressOf(c, defs).error == Some(Interruption)
  {
    hide Loop, LoopWith, Valid;
    forall k: nat, args | k < 4 && Fits(defs[k], args) ensures WorldOf(c).perform(k, args).Returned? {
      EndOfStep(c, defs, k, args);
    }
    RunReaches(defs, 0, map[], WorldOf(c), 4);
  }

  /** A run that ends FINISHED or FAILED leaves none of its deltas STARTED. */
  lemma EndedRunLeavesNoneStarted(t: ApplyJob.Tables, j: ApplyJob.JobId, w: ApplyJob.World,
                                  projectId: string, projectFile: string, deltaFile: string, c: Container)
    requires Wrote(c, ApplyChanges(projectId, projectFile, deltaFile, c.ctx), w.container)
    requires SameDeltas(t, j, c.deltas) && ApplyJobProofs.NoneOf(t, j, ApplyJob.Started)
    ensures var (t', ended) := ApplyJob.RunOn(t, j, w);
      ended in {ApplyJob.Finished, ApplyJob.Failed} ==> ApplyJobProofs.NoneOf(t', j, ApplyJob.Started)
  {
    var ids := ApplyJob.IdsOf(ApplyJob.RowsOf(t, j));
    hide ApplyJob.RunOn, Wrote, ApplyChanges, ProgressOf, Loop, ApplyJob.IdsOf, ApplyJobProofs.NoneOf;
    if w.container.Exited? && !ApplyJob.ContainerFailed(w.container) && w.container.file.value.deltaFeedback.Some? {
      CleanFileMeansAllDone(projectId, projectFile, deltaFile, c, w.container);
      WholeLog(c);
      var log := ApplyJobProofs.FeedbackOf(w);
      forall id | id in ids ensures exists k :: 0 <= k < |log| && log[k].deltaId == id {
        var i :| 0 <= i < |c.deltas| && c.deltas[i].id == id;
        assert log[i].deltaId == id;
      }
    }
    ApplyJobProofs.EndedLeavesNoneStarted(t, j, w);
  }
}

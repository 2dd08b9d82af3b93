/** The statuses in the database after a FINISHED run, in terms of what the loop met in the project. */
module DeltaStatuses {
  import DeltaModel
  import DeltaSafety
  import DeltaLaws
  import ApplyJob
  import ApplyJobProofs
  import opened Workflows
  import WorkflowProofs
  import WorkflowCalls
  import opened ApplyJobLaws
  import opened DeltaPipeline

  /** The state that iteration `i` of the loop finds. */
  ghost function Before(c: Container, i: nat): DeltaModel.RunState
    requires i <= |c.deltas|
  {
    DeltaModel.RunPrefix(DeltaModel.Start(c.layers), c.deltas, c.ctx, c.answers, i)
  }

  lemma FinishedLog(t: ApplyJob.Tables, j: ApplyJob.JobId, w: ApplyJob.World,
                    projectId: string, projectFile: string, deltaFile: string, c: Container)
    requires Wrote(c, ApplyChanges(projectId, projectFile, deltaFile, c.ctx), w.container)
    requires ApplyJob.RunOn(t, j, w).1 == ApplyJob.Finished
    ensures !Loop(c).raised && ApplyJobProofs.FeedbackOf(w) == Loop(c).log && |Loop(c).log| == |c.deltas|
    ensures forall k :: 0 <= k < |c.deltas| ==> Loop(c).log[k].deltaId == c.deltas[k].id
  {
    hide ApplyJob.RunOn, Wrote, ApplyChanges, ProgressOf, Loop;
    ApplyJobProofs.FinishedNeedsCleanContainer(t, j, w);
    CleanFileMeansAllDone(projectId, projectFile, deltaFile, c, w.container);
    WholeLog(c);
  }

  /** After a FINISHED run every delta of the file, and its row, has the status of its log entry. */
  lemma StatusIsLogged(t: ApplyJob.Tables, j: ApplyJob.JobId, w: ApplyJob.World,
                       projectId: string, projectFile: string, deltaFile: string, c: Container, i: nat, row: nat)
    requires Wrote(c, ApplyChanges(projectId, projectFile, deltaFile, c.ctx), w.container)
    requires SameDeltas(t, j, c.deltas) && i < |c.deltas| && j in t.jobs && j in w.applyJobs
    requires row < |ApplyJob.RowsOf(t, j)| && ApplyJob.RowsOf(t, j)[row].deltaId == c.deltas[i].id
    requires ApplyJob.RunOn(t, j, w).1 == ApplyJob.Finished
    ensures var t' := ApplyJob.RunOn(t, j, w).0;
      && i < |Loop(c).log| && c.deltas[i].id in t'.deltas && row < |ApplyJob.RowsOf(t', j)|
      && Corresponds(t'.deltas[c.deltas[i].id], Loop(c).log[i].status)
      && Corresponds(ApplyJob.RowsOf(t', j)[row].status, Loop(c).log[i].status)
  {
    FinishedLog(t, j, w, projectId, projectFile, deltaFile, c);
    hide ApplyJob.RunOn, Wrote, ApplyChanges, Loop, Corresponds;
    assert IsLast(Loop(c).log, i, c.deltas[i].id);
    FinishedStatusIff(t, j, w, row, i);
  }

  /** Main result: when a run ends FINISHED and no rollback was refused, a delta is APPLIED exactly if its
      edit succeeded on the features as the earlier deltas had left them, CONFLICT exactly if it was
      refused as a conflict there, and NOT_APPLIED otherwise. */
  lemma DatabaseStatusIff(t: ApplyJob.Tables, j: ApplyJob.JobId, w: ApplyJob.World,
                          projectId: string, projectFile: string, deltaFile: string, c: Container, i: nat)
    requires Wrote(c, ApplyChanges(projectId, projectFile, deltaFile, c.ctx), w.container)
    requires SameDeltas(t, j, c.deltas) && i < |c.deltas| && j in t.jobs && j in w.applyJobs
    requires DeltaSafety.Clean(c.layers)
    requires DeltaSafety.NoneLeftOpen(DeltaModel.Start(c.layers), c.deltas, c.ctx, c.answers, |c.deltas|)
    requires ApplyJob.RunOn(t, j, w).1 == ApplyJob.Finished
    ensures var t', d, a := ApplyJob.RunOn(t, j, w).0, c.deltas[i], c.answers(i);
      && d.id in t'.deltas
      && t'.deltas[d.id] == (if DeltaLaws.Succeeds(Before(c, i), d, c.ctx, a) then ApplyJob.Applied
                             else if DeltaLaws.IsConflict(Before(c, i), d, c.ctx, a) then ApplyJob.Conflict
                             else ApplyJob.NotApplied)
  {
    hide ApplyJob.RunOn, Wrote, ApplyChanges, SameDeltas, ApplyJob.RowsOf, Loop, Before, DeltaSafety.Clean,
      DeltaSafety.NoneLeftOpen, DeltaLaws.Succeeds, DeltaLaws.IsConflict;
    var row := RowOfDelta(t, j, c, i);
    FinishedLog(t, j, w, projectId, projectFile, deltaFile, c);
    StatusIsLogged(t, j, w, projectId, projectFile, deltaFile, c, i, row);
    LoggedStatus(c, i);
  }

  lemma RowOfDelta(t: ApplyJob.Tables, j: ApplyJob.JobId, c: Container, i: nat) returns (row: nat)
    requires SameDeltas(t, j, c.deltas) && i < |c.deltas|
    ensures row < |ApplyJob.RowsOf(t, j)| && ApplyJob.RowsOf(t, j)[row].deltaId == c.deltas[i].id
  {
    assert c.deltas[i].id in ApplyJob.IdsOf(ApplyJob.RowsOf(t, j));
    row :| row < |ApplyJob.RowsOf(t, j)| && ApplyJob.RowsOf(t, j)[row].deltaId == c.deltas[i].id;
  }

  lemma LoggedStatus(c: Container, i: nat)
    requires i < |c.deltas| && !Loop(c).raised && DeltaSafety.Clean(c.layers)
    requires DeltaSafety.NoneLeftOpen(DeltaModel.Start(c.layers), c.deltas, c.ctx, c.answers, |c.deltas|)
    ensures var d, a := c.deltas[i], c.answers(i);
      && i < |Loop(c).log|
      && Loop(c).log[i].status == (if DeltaLaws.Succeeds(Before(c, i), d, c.ctx, a) then DeltaModel.Applied
                                   else if DeltaLaws.IsConflict(Before(c, i), d, c.ctx, a) then DeltaModel.Conflict
                                   else DeltaModel.ApplyFailed)
  {
    var n := |c.deltas|;
    EntryIsOfItsStep(c, n, i);
    DeltaSafety.HeadsAreCleanIff(DeltaModel.Start(c.layers), c.deltas, c.ctx, c.answers, n);
    assert Before(c, i) == DeltaModel.RunPrefix(DeltaModel.Start(c.layers), c.deltas, c.ctx, c.answers, i);
    hide DeltaModel.RunPrefix, DeltaModel.Step, DeltaSafety.NoneLeftOpen, DeltaSafety.Clean;
    DeltaLaws.StatusIff(Before(c, i), i, c.deltas[i], c.ctx, c.answers(i));
    hide DeltaLaws.Succeeds, DeltaLaws.IsConflict, DeltaLaws.Raises, DeltaLaws.RollbackRaises, Before;
  }

  // ---- what the steps receive ----

  /** Every step of the apply workflow that is called receives exactly these arguments. */
  lemma ApplyStepsReceive(projectId: string, projectFile: string, deltaFile: string, c: Container)
    returns (calls: seq<map<string, Val>>)
    requires c.tempDir
    ensures var defs := ApplyChanges(projectId, projectFile, deltaFile, c.ctx); var p := ProgressOf(c, defs);
      && p.done <= |calls| <= 5 && WorkflowCalls.EndsAt(WorldOf(c), calls, p)
    ensures |calls| > 0 ==> calls[0] == map[]
    ensures |calls| > 1 ==>
      calls[1] == map["project_id" := Text(projectId), "destination" := Path([]), "skip_attachments" := Flag(true)]
    ensures |calls| > 2 ==>
      calls[2] == map["the_qgis_file_name" := Path(["files", projectFile]), "delta_filename" := Text(deltaFile),
                      "inverse" := Flag(c.ctx.inverse), "overwrite_conflicts" := Flag(c.ctx.overwrite)]
    ensures |calls| > 3 ==> calls[3] == map[]
    ensures |calls| > 4 ==> calls[4] == map["project_id" := Text(projectId), "project_dir" := Path(["files"])]
  {
    var defs := ApplyChanges(projectId, projectFile, deltaFile, c.ctx);
    var w := WorldOf(c);
    ApplyChangesIsValid(projectId, projectFile, deltaFile, c.ctx);
    assert WorkflowProofs.EnoughValues(defs, w);
    hide WorkflowProofs.EnoughValues, Valid, WorldOf;
    calls := WorkflowCalls.CallsAreConnected(defs, w);
    hide WorkflowCalls.EndsAt, WorkflowCalls.HasResults, Run;
    ResolvedSteps(projectId, projectFile, deltaFile, c.ctx);
    forall i | 0 <= i < |calls| ensures calls[i] == Resolved(defs[i]) {
      CallIsResolved(c, defs, calls, i);
    }
    hide ApplyChanges, Resolved;
  }

  /** Constants and paths in place of the arguments. */
  ghost function Resolved(d: StepDef<Val>): map<string, Val> {
    map n | n in d.arguments && !d.arguments[n].FromStep? ::
      if d.arguments[n].Const? then d.arguments[n].value else Path(d.arguments[n].parts)
  }

  lemma CallIsResolved(c: Container, defs: seq<StepDef<Val>>, calls: seq<map<string, Val>>, i: nat)
    requires i < |calls| <= |defs| && WorkflowCalls.IsCall(defs, WorldOf(c), calls, i)
    requires forall n :: n in defs[i].arguments ==> !defs[i].arguments[n].FromStep?
    ensures calls[i] == Resolved(defs[i])
  {
    hide LoopWith;
    forall n | n in calls[i] ensures calls[i][n] == Resolved(defs[i])[n] {
      assert WorkflowCalls.IsArgument(defs, WorldOf(c), calls, i, defs[i].arguments[n], calls[i][n]);
    }
  }

  lemma ResolvedSteps(projectId: string, projectFile: string, deltaFile: string, ctx: DeltaModel.Context)
    ensures var defs := ApplyChanges(projectId, projectFile, deltaFile, ctx);
      && (forall i, n :: 0 <= i < 5 && n in defs[i].arguments ==> !defs[i].arguments[n].FromStep?)
      && Resolved(defs[0]) == map[] && Resolved(defs[3]) == map[]
      && Resolved(defs[1])
         == map["project_id" := Text(projectId), "destination" := Path([]), "skip_attachments" := Flag(true)]
      && Resolved(defs[2])
         == map["the_qgis_file_name" := Path(["files", projectFile]), "delta_filename" := Text(deltaFile),
                "inverse" := Flag(ctx.inverse), "overwrite_conflicts" := Flag(ctx.overwrite)]
      && Resolved(defs[4]) == map["project_id" := Text(projectId), "project_dir" := Path(["files"])]
  {
    var defs := ApplyChanges(projectId, projectFile, deltaFile, ctx);
    forall i | 0 <= i < 5 ensures forall n :: n in defs[i].arguments ==> !defs[i].arguments[n].FromStep? {
      StepAccepts(projectId, projectFile, deltaFile, ctx, i);
    }
    ResolvedDownload(projectId, projectFile, deltaFile, ctx);
    ResolvedApply(projectId, projectFile, deltaFile, ctx);
    ResolvedUpload(projectId, projectFile, deltaFile, ctx);
    assert defs[0].arguments == map[] && defs[3].arguments == map[];
    hide ApplyChanges;
  }

  lemma ResolvedDownload(projectId: string, projectFile: string, deltaFile: string, ctx: DeltaModel.Context)
    ensures Resolved(ApplyChanges(projectId, projectFile, deltaFile, ctx)[1])
         == map["project_id" := Text(projectId), "destination" := Path([]), "skip_attachments" := Flag(true)]
  {
  }

  lemma ResolvedApply(projectId: string, projectFile: string, deltaFile: string, ctx: DeltaModel.Context)
    ensures Resolved(ApplyChanges(projectId, projectFile, deltaFile, ctx)[2])
         == map["the_qgis_file_name" := Path(["files", projectFile]), "delta_filename" := Text(deltaFile),
                "inverse" := Flag(ctx.inverse), "overwrite_conflicts" := Flag(ctx.overwrite)]
  {
  }

  lemma ResolvedUpload(projectId: string, projectFile: string, deltaFile: string, ctx: DeltaModel.Context)
    ensures Resolved(ApplyChanges(projectId, projectFile, deltaFile, ctx)[4])
         == map["project_id" := Text(projectId), "project_dir" := Path(["files"])]
  {
  }
}

/**
 * From webhook to merge request: the orchestrator (cmd/kineticz/main.go) with the
 * commit step (internal/commit/coordinator.go) it ends in.
 */
module Pipeline {
  import opened Wrappers
  import opened GoBytes
  import opened Patch
  import opened PatchUndo
  import Diagnose
  import Gate
  import opened Signatures
  import Repair
  import RepairTheorems

  // ---- The patch as the repair loop applies it ------------------------------------------

  type DiffParser = Bytes -> Option<seq<Repair.DiffFile>>

  /** `commit.ApplyDiff`, which parses the diff again and needs exactly one file in it. */
  function ApplyDiffTo(parse: DiffParser, orig: Bytes, diff: Bytes): Option<Bytes> {
    match parse(diff)
    case None => None
    case Some(files) =>
      if |files| != 1 then None
      else if Patched(orig, files[0].hunks).Err? then None
      else Some(Patched(orig, files[0].hunks).value)
  }

  /** It succeeds exactly for a diff that parses to one file whose hunks apply. */
  lemma AppliesExactly(parse: DiffParser, orig: Bytes, diff: Bytes, content: Bytes)
    ensures ApplyDiffTo(parse, orig, diff) == Some(content) <==>
            parse(diff).Some? && |parse(diff).value| == 1 && Patched(orig, parse(diff).value[0].hunks) == Ok(content)
  {
    hide Patched;
  }

  // ---- Effects --------------------------------------------------------------------------

  datatype Stage =
    | ValidateConnector
    | RunDiagnose
    | ValidateDiagnosis
    | RunRepair
    | EvaluateBlock
    | RunCommit

  datatype Action =
    | PipelineComplete
    | PipelineFailed(stage: Stage)
    | CommitOk
    | CommitFailed
    | MrCreated
    | MrFailed

  /** Calls to GitLab and records attempted in the ledger. */
  datatype Event =
    | CreateCommit(path: Bytes, content: Bytes)
    | CreateMR
    | Wrote(action: Action)

  /** What one run of the orchestrator depends on. */
  datatype Inputs = Inputs(
    connectorName: Bytes,
    diagnosis: Option<Diagnose.Diagnosis>,  // None: the diagnose stage failed, or has not ended
    read: nat -> Option<Bytes>,
    generate: (nat, Bytes, Repair.Feedback) -> Option<Repair.Response>,
    parseDiff: DiffParser,
    maxIterations: int,
    commitSucceeds: bool,
    mrSucceeds: bool)

  function RepairWorld(i: Inputs): Repair.World {
    Repair.World(i.read, i.generate, i.parseDiff, (orig, diff) => ApplyDiffTo(i.parseDiff, orig, diff))
  }

  // ---- The target path ------------------------------------------------------------------

  const UNDERSCORE: byte := 95
  const SLASH: byte := 47

  /** `[A-Za-z0-9_-]` */
  predicate IsNameByte(b: byte) {
    65 <= b <= 90 || 97 <= b <= 122 || 48 <= b <= 57 || b == UNDERSCORE || b == DASH
  }

  predicate ValidConnectorName(name: Bytes) {
    name != [] && forall k :: 0 <= k < |name| ==> IsNameByte(name[k])
  }

  const TARGET_DIRECTORY: Bytes := Ascii("internal/pipeline/")
  const GO_SUFFIX: Bytes := Ascii(".go")

  function TargetPath(name: Bytes): Bytes {
    TARGET_DIRECTORY + name + GO_SUFFIX
  }

  // ---- The commit step ------------------------------------------------------------------

  /** The trace of `ApplyAndOpenMR`. */
  function CommitTrace(path: Bytes, content: Bytes, commitSucceeds: bool, mrSucceeds: bool): seq<Event> {
    [CreateCommit(path, content)]
    + if !commitSucceeds then [Wrote(CommitFailed)]
      else [Wrote(CommitOk), CreateMR, Wrote(if mrSucceeds then MrCreated else MrFailed)]
  }

  predicate EndsCommitStep(e: Event) {
    e == Wrote(CommitFailed) || e == Wrote(MrFailed) || e == Wrote(MrCreated)
  }

  /**
   * One commit call, first. A merge request call comes right after the record of the successful
   * commit and of nothing else. One of COMMIT_FAILED, MR_FAILED and MR_CREATED is written, last,
   * and MR_CREATED exactly when the caller gets no error.
   */
  method ApplyAndOpenMR(path: Bytes, content: Bytes, commitSucceeds: bool, mrSucceeds: bool)
    returns (ok: bool, trace: seq<Event>)
    ensures trace == CommitTrace(path, content, commitSucceeds, mrSucceeds)
    ensures forall k :: 0 <= k < |trace| ==> (trace[k].CreateCommit? <==> k == 0)
    ensures trace != [] && trace[0] == CreateCommit(path, content)
    ensures forall k :: 0 <= k < |trace| ==> (EndsCommitStep(trace[k]) <==> k == |trace| - 1)
    ensures forall k :: 0 <= k < |trace| - 1 ==> (trace[k] == Wrote(CommitOk) <==> trace[k + 1] == CreateMR)
    ensures Wrote(CommitOk) in trace <==> commitSucceeds
    ensures ok <==> trace[|trace| - 1] == Wrote(MrCreated)
    ensures ok <==> commitSucceeds && mrSucceeds
  {
    trace := [CreateCommit(path, content)];
    if !commitSucceeds {
      return false, trace + [Wrote(CommitFailed)];
    }
    trace := trace + [Wrote(CommitOk)];
    trace := trace + [CreateMR];
    assert trace[1] == Wrote(CommitOk);
    if !mrSucceeds {
      trace := trace + [Wrote(MrFailed)];
      return false, trace;
    }
    trace := trace + [Wrote(MrCreated)];
    return true, trace;
  }

  // ---- The orchestrator -----------------------------------------------------------------

  function RepairResult(i: Inputs): Result<Repair.Success, Repair.RepairError> {
    Repair.Outcome(RepairWorld(i), i.maxIterations).0
  }

  /** The whole trace of a run; `allows` is the gate's verdict on the repair's patch. */
  function Trace(i: Inputs, allows: bool): seq<Event> {
    if !ValidConnectorName(i.connectorName) then [Wrote(PipelineFailed(ValidateConnector))]
    else if i.diagnosis.None? then [Wrote(PipelineFailed(RunDiagnose))]
    else if Diagnose.Validate(i.diagnosis.value).Some? then [Wrote(PipelineFailed(ValidateDiagnosis))]
    else if RepairResult(i).Err? then [Wrote(PipelineFailed(RunRepair))]
    else if !allows then [Wrote(PipelineFailed(EvaluateBlock))]
    else
      CommitTrace(TargetPath(i.connectorName), RepairResult(i).value.patched, i.commitSucceeds, i.mrSucceeds)
      + [Wrote(if i.commitSucceeds && i.mrSucceeds then PipelineComplete else PipelineFailed(RunCommit))]
  }

  /** The gate may hold any hashes that runs beside this one have left in it. */
  method RunPipeline(i: Inputs, gate: Gate.Evaluator) returns (trace: seq<Event>, ghost allows: bool)
    modifies gate
    ensures trace == Trace(i, allows)
    ensures allows <==>
              && ValidConnectorName(i.connectorName)
              && i.diagnosis.Some? && Diagnose.Validate(i.diagnosis.value) == None
              && RepairResult(i).Ok?
              && gate.env.sha(RepairResult(i).value.patchDiff) !in old(gate.dedup)
              && Allowed(gate.env.parse, RepairResult(i).value.orig, RepairResult(i).value.patched)
  {
    allows := false;
    if !ValidConnectorName(i.connectorName) {
      return [Wrote(PipelineFailed(ValidateConnector))], false;
    }
    if i.diagnosis.None? {
      return [Wrote(PipelineFailed(RunDiagnose))], false;
    }
    if Diagnose.Validate(i.diagnosis.value).Some? {
      return [Wrote(PipelineFailed(ValidateDiagnosis))], false;
    }
    var repaired, records := Repair.Repair(true, RepairWorld(i), i.maxIterations);
    assert repaired == RepairResult(i);
    if repaired.Err? {
      return [Wrote(PipelineFailed(RunRepair))], false;
    }
    var s := repaired.value;
    var answer, reason := gate.Evaluate(s.orig, s.patched, s.patchDiff);
    if answer.verdict != Gate.Allow {
      return [Wrote(PipelineFailed(EvaluateBlock))], false;
    }
    allows := true;
    var ok, committed := ApplyAndOpenMR(TargetPath(i.connectorName), s.patched, i.commitSucceeds, i.mrSucceeds);
    if !ok {
      return committed + [Wrote(PipelineFailed(RunCommit))], true;
    }
    return committed + [Wrote(PipelineComplete)], true;
  }

  // ---- What every run guarantees --------------------------------------------------------

  predicate IsVerdict(e: Event) {
    e.Wrote? && (e.action == PipelineComplete || e.action.PipelineFailed?)
  }

  /** Every run attempts exactly one of PIPELINE_COMPLETE and PIPELINE_FAILED, as its last effect. */
  lemma OneVerdictPerRun(i: Inputs, allows: bool)
    ensures var t := Trace(i, allows);
            t != [] && forall k :: 0 <= k < |t| ==> (IsVerdict(t[k]) <==> k == |t| - 1)
  {
    hide RepairResult;
  }

  /** A run completes exactly when its last GitLab call opened the merge request. */
  lemma CompleteExactly(i: Inputs, allows: bool)
    ensures var t := Trace(i, allows);
            t[|t| - 1] == Wrote(PipelineComplete) <==> CreateMR in t && Wrote(MrFailed) !in t
  {
    hide RepairResult;
    var t := Trace(i, allows);
    if |t| == 5 {
      assert t[2] == CreateMR && t[3] == Wrote(if i.mrSucceeds then MrCreated else MrFailed);
    }
  }

  /** A merge request is opened only right after its commit succeeded and was recorded. */
  lemma MergeRequestNeedsCommit(i: Inputs, allows: bool, k: nat)
    requires k < |Trace(i, allows)| && Trace(i, allows)[k] == CreateMR
    ensures k == 2 && Trace(i, allows)[0].CreateCommit? && Trace(i, allows)[1] == Wrote(CommitOk)
    ensures i.commitSucceeds
  {
    hide RepairResult;
  }

  /** The diagnosis holds what the later stages need. */
  predicate IsUsable(d: Diagnose.Diagnosis) {
    d.hasContract && d.hasToken && (d.degraded || d.hasHealth)
  }

  predicate IsNameText(name: Bytes) {
    name != [] && forall k :: 0 <= k < |name| ==>
      var b := name[k] as int;
      'A' as int <= b <= 'Z' as int || 'a' as int <= b <= 'z' as int || '0' as int <= b <= '9' as int
      || b == '_' as int || b == '-' as int
  }

  /** The first stage that fails gives the verdict its name; without a failure the run completes. */
  lemma VerdictNamesTheStage(i: Inputs, allows: bool)
    ensures var t := Trace(i, allows);
            var last := t[|t| - 1];
            var named, told := IsNameText(i.connectorName), i.diagnosis.Some?;
            var usable := told && IsUsable(i.diagnosis.value);
            var repaired, merged := RepairResult(i).Ok?, i.commitSucceeds && i.mrSucceeds;
            && (last == Wrote(PipelineFailed(ValidateConnector)) <==> !named)
            && (last == Wrote(PipelineFailed(RunDiagnose)) <==> named && !told)
            && (last == Wrote(PipelineFailed(ValidateDiagnosis)) <==> named && told && !usable)
            && (last == Wrote(PipelineFailed(RunRepair)) <==> named && usable && !repaired)
            && (last == Wrote(PipelineFailed(EvaluateBlock)) <==> named && usable && repaired && !allows)
            && (last == Wrote(PipelineFailed(RunCommit)) <==> named && usable && repaired && allows && !merged)
            && (last == Wrote(PipelineComplete) <==> named && usable && repaired && allows && merged)
  {
    hide RepairResult, TargetPath;
    NameTextExactly(i.connectorName);
    hide ValidConnectorName, IsNameText;
    OneVerdictPerRun(i, allows);
  }

  lemma NameTextExactly(name: Bytes)
    ensures ValidConnectorName(name) <==> IsNameText(name)
  {
    if ValidConnectorName(name) {
      forall k | 0 <= k < |name|
        ensures var b := name[k] as int;
                'A' as int <= b <= 'Z' as int || 'a' as int <= b <= 'z' as int || '0' as int <= b <= '9' as int
                || b == '_' as int || b == '-' as int
      {
        assert IsNameByte(name[k]);
      }
    }
  }

  /** What an approved repair has been through. */
  ghost predicate Approved(i: Inputs, s: Repair.Success) {
    && 1 <= s.iterations <= i.maxIterations
    && i.read(s.iterations - 1) == Some(s.orig)
    && ApplyDiffTo(i.parseDiff, s.orig, s.patchDiff) == Some(s.patched)
    && i.parseDiff(s.patchDiff).Some? && i.parseDiff(s.patchDiff).value != []
    && Repair.StructuralFault(i.parseDiff(s.patchDiff).value) == None
  }

  lemma RepairIsApproved(i: Inputs)
    requires RepairResult(i).Ok?
    ensures Approved(i, RepairResult(i).value)
  {
    hide Repair.Outcome, ApplyDiffTo, Repair.StructuralFault;
    RepairTheorems.SuccessExactly(RepairWorld(i), i.maxIterations);
  }

  lemma CommitPlace(i: Inputs, allows: bool, k: nat)
    requires k < |Trace(i, allows)| && Trace(i, allows)[k].CreateCommit?
    ensures k == 0 && allows && RepairResult(i).Ok? && ValidConnectorName(i.connectorName)
    ensures Trace(i, allows)[k] == CreateCommit(TargetPath(i.connectorName), RepairResult(i).value.patched)
  {
    hide RepairResult, ValidConnectorName, TargetPath;
  }

  /** The patched bytes are the re-anchored application of the one file in the diff, which adds or removes a line. */
  ghost predicate IsThePatch(i: Inputs, s: Repair.Success) {
    var files := i.parseDiff(s.patchDiff);
    && files.Some? && |files.value| == 1
    && !files.value[0].isBinary && !Repair.Traverses(files.value[0].newName)
    && CountAll(files.value[0].hunks, Add) + CountAll(files.value[0].hunks, Delete) > 0
    && Patched(s.orig, files.value[0].hunks) == Ok(s.patched)
  }

  lemma ApprovedIsThePatch(i: Inputs, s: Repair.Success)
    requires Approved(i, s)
    ensures IsThePatch(i, s)
  {
    hide Patched, CountAll, Repair.Traverses;
  }

  /** The path leads to a file directly in the target directory. */
  predicate InDirectory(path: Bytes) {
    && TARGET_DIRECTORY <= path
    && forall k :: |TARGET_DIRECTORY| <= k < |path| ==> path[k] != SLASH
  }

  /** An accepted connector name cannot lead the path out of its directory. */
  lemma PathStaysInDirectory(name: Bytes)
    requires ValidConnectorName(name)
    ensures SLASH !in name && DOT !in name && InDirectory(TargetPath(name))
    ensures TargetPath(name) == Ascii("internal/pipeline/") + name + Ascii(".go")
  {
    var p, d := TargetPath(name), |TARGET_DIRECTORY|;
    forall k | 0 <= k < |name| ensures name[k] != SLASH && name[k] != DOT {
      assert IsNameByte(name[k]);
    }
    forall k | d <= k < |p| ensures p[k] != SLASH {
      assert p[k] == if k < d + |name| then name[k - d] else GO_SUFFIX[k - d - |name|];
    }
  }
}

/**
 * All of it at once: deliveries, the ledger they share, one pipeline goroutine for each
 * started event, and the one gate all pipelines call, interleaved at their atomic steps.
 */
module EndToEnd {
  import opened Wrappers
  import opened GoBytes
  import opened Audit
  import Diagnose
  import Gate
  import Ledger
  import LedgerTheorems
  import opened Pipeline
  import Receiver
  import Repair
  import opened Signatures

  // ---- The state -------------------------------------------------------------------------

  datatype Env = Env(crypto: Crypto, priv: Bytes, gate: Gate.Env)

  /** Where a pipeline goroutine stands. */
  datatype Pc =
    | Validating
    | Diagnosing(fan: Diagnose.State)
    | Repairing(turns: nat)                     // iterations done
    | Gating(call: nat, fix: Repair.Success)    // the number of its call at the gate
    | Committing(fix: Repair.Success)
    | RecordingCommit
    | OpeningMR
    | RecordingMR
    | Closing(verdict: Action)
    | Finished

  /**
   * A pipeline goroutine: the anomaly it was started with, what its surroundings will answer,
   * the diagnosis once it has one (in `inputs`), and whether the gate has let its patch pass.
   */
  datatype Thread = Thread(
    anomaly: Receiver.Anomaly,
    lookups: Diagnose.Inputs,
    hasToken: bool,
    inputs: Inputs,
    allowed: bool,
    pc: Pc)

  /** What pipeline `thread` called or recorded. */
  datatype Effect = Effect(thread: nat, event: Event)

  datatype State = State(receipts: Receiver.State, threads: seq<Thread>, gate: Gate.State, log: seq<Effect>)

  // ---- One step of a pipeline --------------------------------------------------------------

  function AfterDiagnose(th: Thread, outcome: Diagnose.Outcome): Thread {
    if outcome.Failed? then th.(pc := Closing(PipelineFailed(RunDiagnose)))
    else
      var d := Diagnose.ResultOf(th.lookups.es, th.lookups.dt, th.hasToken);
      var told := th.(inputs := th.inputs.(diagnosis := Some(d)));
      if Diagnose.Validate(d).Some? then told.(pc := Closing(PipelineFailed(ValidateDiagnosis)))
      else told.(pc := Repairing(0))
  }

  /** The repair loop's result, once it has one. */
  function RepairEnd(i: Inputs, turns: nat): Option<Result<Repair.Success, Repair.RepairError>> {
    var p := Repair.After(RepairWorld(i), turns);
    if p.Stopped? then Some(p.result)
    else if turns < Repair.Iterations(i.maxIterations) then None
    else Some(Err(Repair.MaxIterationsExceeded))
  }

  function AfterRepair(gate: Gate.State, th: Thread, turns: nat): Thread {
    match RepairEnd(th.inputs, turns)
    case None => th.(pc := Repairing(turns + 1))
    case Some(Err(_)) => th.(pc := Closing(PipelineFailed(RunRepair)))
    case Some(Ok(fix)) => th.(pc := Gating(|gate.calls|, fix))
  }

  function AfterGate(th: Thread, fix: Repair.Success, answer: Gate.Answer): Thread {
    if answer.verdict == Gate.Allow then th.(allowed := true, pc := Committing(fix))
    else th.(pc := Closing(PipelineFailed(EvaluateBlock)))
  }

  function NextThread(gate: Gate.State, th: Thread): Thread {
    match th.pc
    case Validating =>
      th.(pc := if ValidConnectorName(th.inputs.connectorName) then Diagnosing(Diagnose.Init())
                else Closing(PipelineFailed(ValidateConnector)))
    case Diagnosing(fan) => if fan.parent.Done? then AfterDiagnose(th, fan.parent.outcome) else th
    case Repairing(turns) => AfterRepair(gate, th, turns)
    case Gating(call, fix) =>
      if call < |gate.calls| && gate.calls[call].pc.Returned? then AfterGate(th, fix, gate.calls[call].pc.answer)
      else th
    case Committing(_) => th.(pc := RecordingCommit)
    case RecordingCommit =>
      th.(pc := if th.inputs.commitSucceeds then OpeningMR else Closing(PipelineFailed(RunCommit)))
    case OpeningMR => th.(pc := RecordingMR)
    case RecordingMR => th.(pc := Closing(if th.inputs.mrSucceeds then PipelineComplete else PipelineFailed(RunCommit)))
    case Closing(_) => th.(pc := Finished)
    case Finished => th
  }

  /** What the step calls or records. */
  function Emits(th: Thread): (es: seq<Event>)
    ensures |es| <= 1
  {
    match th.pc
    case Committing(fix) => [CreateCommit(TargetPath(th.inputs.connectorName), fix.patched)]
    case RecordingCommit => [Wrote(if th.inputs.commitSucceeds then CommitOk else CommitFailed)]
    case OpeningMR => [CreateMR]
    case RecordingMR => [Wrote(if th.inputs.mrSucceeds then MrCreated else MrFailed)]
    case Closing(verdict) => [Wrote(verdict)]
    case _ => []
  }

  /** A finished repair begins a call at the gate. */
  function NextGate(gate: Gate.State, th: Thread): Gate.State {
    if !th.pc.Repairing? then gate
    else
      match RepairEnd(th.inputs, th.pc.turns)
      case Some(Ok(fix)) => Gate.Arrive(gate, fix.orig, fix.patched, fix.patchDiff)
      case _ => gate
  }

  function Tag(k: nat, es: seq<Event>): seq<Effect> {
    seq(|es|, i requires 0 <= i < |es| => Effect(k, es[i]))
  }

  function Advance(s: State, k: nat): State
    requires k < |s.threads|
  {
    var th := s.threads[k];
    State(s.receipts, s.threads[k := NextThread(s.gate, th)], NextGate(s.gate, th), s.log + Tag(k, Emits(th)))
  }

  // ---- All steps ---------------------------------------------------------------------------

  predicate Fresh(th: Thread, a: Receiver.Anomaly) {
    && th.anomaly == a && th.inputs.connectorName == a.connectorName
    && th.inputs.diagnosis == None && !th.allowed && th.pc == Validating
  }

  /** A delivery stores its receipt and may start a pipeline, whatever its surroundings will do. */
  ghost predicate Delivers(env: Env, s: State, t: State) {
    && Receiver.Received(env.crypto, env.priv, s.receipts, t.receipts)
    && t.gate == s.gate && t.log == s.log
    && if t.receipts.started == s.receipts.started then t.threads == s.threads
       else exists th :: Fresh(th, t.receipts.started[|s.receipts.started|]) && t.threads == s.threads + [th]
  }

  /** Any other append to the ledger, by a stage of some pipeline. */
  ghost predicate Records(env: Env, s: State, t: State) {
    && Receiver.OtherAppend(env.crypto, env.priv, s.receipts, t.receipts)
    && t == s.(receipts := t.receipts)
  }

  /** The thread after a step of its fan-out. */
  function Looked(th: Thread, a: Diagnose.Action): Thread
    requires th.pc.Diagnosing? && Diagnose.Enabled(th.lookups, th.pc.fan, a)
  {
    th.(pc := Diagnosing(Diagnose.Apply(th.lookups, th.pc.fan, a)))
  }

  /** A step inside the diagnose fan-out of pipeline `k`. */
  ghost predicate LooksUp(s: State, t: State, k: nat, a: Diagnose.Action) {
    && k < |s.threads| && s.threads[k].pc.Diagnosing?
    && var th := s.threads[k];
       && Diagnose.Enabled(th.lookups, th.pc.fan, a)
       && t == s.(threads := s.threads[k := Looked(th, a)])
  }

  /** A step of a call at the gate, or of the indexing goroutine it left. */
  ghost predicate GateMoves(env: Env, s: State, t: State, call: nat) {
    call < |s.gate.calls| && t == s.(gate := Gate.Next(env.gate, s.gate, call))
  }

  ghost predicate Step(env: Env, s: State, t: State) {
    || t == s
    || Delivers(env, s, t)
    || Records(env, s, t)
    || (exists k: nat, a :: LooksUp(s, t, k, a))
    || (exists call: nat :: GateMoves(env, s, t, call))
    || (exists k: nat :: k < |s.threads| && t == Advance(s, k))
  }

  ghost predicate IsRun(env: Env, run: seq<State>) {
    && run != []
    && run[0] == State(Receiver.State([], []), [], Gate.State({}, [], []), [])
    && forall n :: 0 <= n < |run| - 1 ==> Step(env, run[n], run[n + 1])
  }

  // ---- What one pipeline has behind it ------------------------------------------------------

  /** The effects of pipeline `k`, in order. */
  function Of(log: seq<Effect>, k: nat): seq<Event> {
    if log == [] then []
    else
      var n := |log| - 1;
      Of(log[..n], k) + (if log[n].thread == k then [log[n].event] else [])
  }

  predicate Diagnosed(th: Thread) {
    && ValidConnectorName(th.inputs.connectorName)
    && th.inputs.diagnosis == Some(Diagnose.ResultOf(th.lookups.es, th.lookups.dt, th.hasToken))
    && !Diagnose.Decide(th.lookups.es, th.lookups.dt).Failed?
    && Diagnose.Validate(th.inputs.diagnosis.value) == None
  }

  predicate Repaired(th: Thread, fix: Repair.Success) {
    Diagnosed(th) && RepairResult(th.inputs) == Ok(fix)
  }

  /** The gate let the patch pass, and the local check allows it. */
  predicate Cleared(env: Env, th: Thread) {
    && th.allowed && Diagnosed(th) && RepairResult(th.inputs).Ok?
    && Allowed(env.gate.parse, RepairResult(th.inputs).value.orig, RepairResult(th.inputs).value.patched)
  }

  function LastOf(th: Thread): Event {
    var t := Trace(th.inputs, th.allowed);
    t[|t| - 1]
  }

  /** What holds of a pipeline at each point. */
  predicate ThreadFits(env: Env, gate: Gate.State, th: Thread) {
    && th.inputs.connectorName == th.anomaly.connectorName
    && (th.allowed ==> Cleared(env, th))
    && match th.pc
       case Validating => !th.allowed && th.inputs.diagnosis == None
       case Diagnosing(fan) =>
         && !th.allowed && th.inputs.diagnosis == None
         && ValidConnectorName(th.inputs.connectorName) && Diagnose.Inv(th.lookups, fan)
       case Repairing(turns) => !th.allowed && Diagnosed(th) && turns <= Repair.Iterations(th.inputs.maxIterations)
       case Gating(call, fix) =>
         && !th.allowed && Repaired(th, fix)
         && call < |gate.calls| && gate.calls[call].orig == fix.orig && gate.calls[call].patched == fix.patched
       case Committing(fix) => th.allowed && Repaired(th, fix)
       case RecordingCommit => th.allowed
       case OpeningMR => th.allowed && th.inputs.commitSucceeds
       case RecordingMR => th.allowed && th.inputs.commitSucceeds
       case Closing(verdict) => LastOf(th) == Wrote(verdict)
       case Finished => true
  }

  /** The effects of a pipeline that stands where `th` does. */
  function Written(th: Thread): seq<Event> {
    var t := Trace(th.inputs, th.allowed);
    match th.pc
    case RecordingCommit => t[..1]
    case OpeningMR => if |t| < 2 then t else t[..2]
    case RecordingMR => if |t| < 3 then t else t[..3]
    case Closing(_) => t[..|t| - 1]
    case Finished => t
    case _ => []
  }

  // ---- The invariant -------------------------------------------------------------------------

  ghost predicate Inv(env: Env, s: State) {
    && Receiver.StartedOnce(s.receipts)
    && |s.threads| == |s.receipts.started|
    && (forall k :: 0 <= k < |s.threads| ==> s.threads[k].anomaly == s.receipts.started[k])
    && Gate.Inv(env.gate, s.gate)
    && (forall k {:trigger s.threads[k]} :: 0 <= k < |s.threads| ==> ThreadFits(env, s.gate, s.threads[k]))
    && (forall k {:trigger Of(s.log, k)} :: 0 <= k < |s.threads| ==> Of(s.log, k) == Written(s.threads[k]))
    && (forall m :: 0 <= m < |s.log| ==> s.log[m].thread < |s.threads|)
  }

  lemma OfTagged(log: seq<Effect>, j: nat, es: seq<Event>, k: nat)
    requires |es| <= 1
    ensures Of(log + Tag(j, es), k) == Of(log, k) + (if j == k then es else [])
  {
    if es == [] {
      assert log + Tag(j, es) == log;
    } else {
      assert log + Tag(j, es) == log + [Effect(j, es[0])];
      assert (log + [Effect(j, es[0])])[..|log|] == log;
      assert es == [es[0]];
    }
  }

  /** A pipeline not yet started has no effects. */
  lemma {:induction false} OfNobody(log: seq<Effect>, k: nat)
    requires forall m :: 0 <= m < |log| ==> log[m].thread < k
    ensures Of(log, k) == []
  {
    if log != [] {
      OfNobody(log[..|log| - 1], k);
    }
  }

  // ---- Each step of a pipeline follows its trace -------------------------------------------------

  /** The trace of a pipeline whose patch has been let through, effect by effect. */
  lemma ClearedTrace(env: Env, th: Thread)
    requires th.allowed && Cleared(env, th)
    ensures var i, t := th.inputs, Trace(th.inputs, th.allowed);
            && t[0] == CreateCommit(TargetPath(i.connectorName), RepairResult(i).value.patched)
            && (!i.commitSucceeds ==>
                  && |t| == 3 && t[1] == Wrote(CommitFailed)
                  && LastOf(th) == Wrote(PipelineFailed(RunCommit)))
            && (i.commitSucceeds ==>
                  && |t| == 5 && t[1] == Wrote(CommitOk) && t[2] == CreateMR
                  && t[3] == Wrote(if i.mrSucceeds then MrCreated else MrFailed)
                  && LastOf(th) == Wrote(if i.mrSucceeds then PipelineComplete else PipelineFailed(RunCommit)))
  {
    hide RepairResult, Allowed, ValidConnectorName, TargetPath;
  }

  lemma TakeNext<T>(s: seq<T>, n: nat)
    requires n < |s|
    ensures s[..n + 1] == s[..n] + [s[n]]
  {}

  lemma CommitStep(env: Env, gate: Gate.State, th: Thread)
    requires ThreadFits(env, gate, th) && th.pc.Committing?
    ensures ThreadFits(env, NextGate(gate, th), NextThread(gate, th))
    ensures Written(NextThread(gate, th)) == Written(th) + Emits(th)
  {
    ClearedTrace(env, th);
    hide RepairResult, Diagnosed, Cleared, TargetPath, Trace, LastOf;
    TakeNext(Trace(th.inputs, th.allowed), 0);
  }

  /** COMMIT_OK or COMMIT_FAILED, the merge request call, and MR_CREATED or MR_FAILED. */
  lemma AfterCommitStep(env: Env, gate: Gate.State, th: Thread)
    requires ThreadFits(env, gate, th) && (th.pc.RecordingCommit? || th.pc.OpeningMR? || th.pc.RecordingMR?)
    ensures ThreadFits(env, NextGate(gate, th), NextThread(gate, th))
    ensures Written(NextThread(gate, th)) == Written(th) + Emits(th)
  {
    ClearedTrace(env, th);
    hide RepairResult, Cleared, TargetPath, Trace, LastOf;
    TakeNext(Trace(th.inputs, th.allowed), if th.pc.RecordingCommit? then 1 else if th.pc.OpeningMR? then 2 else 3);
  }

  lemma ClosingStep(env: Env, gate: Gate.State, th: Thread)
    requires ThreadFits(env, gate, th) && th.pc.Closing?
    ensures ThreadFits(env, NextGate(gate, th), NextThread(gate, th))
    ensures Written(NextThread(gate, th)) == Written(th) + Emits(th)
  {
    hide RepairResult, Allowed, ValidConnectorName, Diagnose.Validate, Diagnose.ResultOf;
    var t := Trace(th.inputs, th.allowed);
    assert |t| > 0;
    hide Trace;
    TakeNext(t, |t| - 1);
    assert t[..|t|] == t;
  }

  lemma DiagnoseStep(env: Env, gate: Gate.State, th: Thread)
    requires ThreadFits(env, gate, th) && (th.pc.Validating? || th.pc.Diagnosing?)
    ensures ThreadFits(env, NextGate(gate, th), NextThread(gate, th))
    ensures Written(NextThread(gate, th)) == Written(th) + Emits(th)
  {
    hide RepairResult, Allowed, ValidConnectorName, TargetPath, CommitTrace, Diagnose.InFlight, Diagnose.LegFits;
    if th.pc.Validating? {
      FanStarts(th.lookups);
    }
  }

  lemma FanStarts(lookups: Diagnose.Inputs)
    ensures Diagnose.Inv(lookups, Diagnose.Init())
  {}

  /** The loop's result is the one the whole run has. */
  lemma RepairEndIsResult(i: Inputs, turns: nat)
    requires turns <= Repair.Iterations(i.maxIterations) && RepairEnd(i, turns).Some?
    ensures RepairEnd(i, turns).value == RepairResult(i)
  {
    hide Repair.After, RepairWorld;
    var w := RepairWorld(i);
    if Repair.After(w, turns).Stopped? {
      Repair.StoppedStays(w, turns, Repair.Iterations(i.maxIterations));
    }
  }

  lemma RepairStep(env: Env, gate: Gate.State, th: Thread)
    requires ThreadFits(env, gate, th) && th.pc.Repairing?
    ensures ThreadFits(env, NextGate(gate, th), NextThread(gate, th))
    ensures Written(NextThread(gate, th)) == Written(th) + Emits(th)
  {
    if RepairEnd(th.inputs, th.pc.turns).Some? {
      RepairEndIsResult(th.inputs, th.pc.turns);
    }
    hide RepairResult, Allowed, ValidConnectorName, TargetPath, CommitTrace, Diagnose.Validate;
  }

  lemma GateStep(env: Env, gate: Gate.State, th: Thread)
    requires ThreadFits(env, gate, th) && th.pc.Gating? && Gate.Inv(env.gate, gate)
    ensures ThreadFits(env, NextGate(gate, th), NextThread(gate, th))
    ensures Written(NextThread(gate, th)) == Written(th) + Emits(th)
  {
    hide RepairResult, Allowed, ValidConnectorName, TargetPath, CommitTrace, Diagnose.Validate;
    assert Gate.CallFits(env.gate, gate, th.pc.call);
  }

  lemma ThreadStep(env: Env, gate: Gate.State, th: Thread)
    requires ThreadFits(env, gate, th) && Gate.Inv(env.gate, gate)
    ensures ThreadFits(env, NextGate(gate, th), NextThread(gate, th))
    ensures Written(NextThread(gate, th)) == Written(th) + Emits(th)
  {
    hide ThreadFits, Written, Gate.Inv;
    match th.pc
    case Validating => DiagnoseStep(env, gate, th);
    case Diagnosing(_) => DiagnoseStep(env, gate, th);
    case Repairing(_) => RepairStep(env, gate, th);
    case Gating(_, _) => GateStep(env, gate, th);
    case Committing(_) => CommitStep(env, gate, th);
    case Closing(_) => ClosingStep(env, gate, th);
    case Finished =>
    case _ => AfterCommitStep(env, gate, th);
  }

  /** The calls at the gate keep what they were made with. */
  predicate SameCalls(g: Gate.State, h: Gate.State) {
    && |g.calls| <= |h.calls|
    && forall i :: 0 <= i < |g.calls| ==>
         && h.calls[i].orig == g.calls[i].orig
         && h.calls[i].patched == g.calls[i].patched
         && h.calls[i].diff == g.calls[i].diff
  }

  lemma GateChangeKeepsFit(env: Env, g: Gate.State, h: Gate.State, th: Thread)
    requires ThreadFits(env, g, th) && SameCalls(g, h)
    ensures ThreadFits(env, h, th)
  {
    hide Cleared, Repaired, Diagnosed, ValidConnectorName, Diagnose.Inv, LastOf;
  }

  lemma GateNextSameCalls(env: Gate.Env, g: Gate.State, i: nat)
    requires i < |g.calls|
    ensures SameCalls(g, Gate.Next(env, g, i))
  {
    hide Allowed;
  }

  lemma ThreadGateMoves(env: Env, gate: Gate.State, th: Thread)
    requires Gate.Inv(env.gate, gate)
    ensures Gate.Inv(env.gate, NextGate(gate, th)) && SameCalls(gate, NextGate(gate, th))
  {
    hide Gate.Inv, Gate.Arrive, RepairEnd;
    if th.pc.Repairing? {
      match RepairEnd(th.inputs, th.pc.turns)
      case Some(Ok(fix)) =>
        Gate.ArriveKeepsInv(env.gate, gate, fix.orig, fix.patched, fix.patchDiff);
        ArriveSameCalls(gate, fix.orig, fix.patched, fix.patchDiff);
      case _ =>
    }
  }

  lemma ArriveSameCalls(g: Gate.State, orig: Bytes, patched: Bytes, diff: Bytes)
    ensures SameCalls(g, Gate.Arrive(g, orig, patched, diff))
  {}

  // ---- Every step keeps the invariant --------------------------------------------------------------

  lemma AdvanceKeepsInv(env: Env, s: State, k: nat)
    requires Inv(env, s) && k < |s.threads|
    ensures Inv(env, Advance(s, k))
  {
    hide ThreadFits, Written, Gate.Inv, NextThread, NextGate, Emits, Receiver.StartedOnce, Of;
    var t, th := Advance(s, k), s.threads[k];
    ThreadStep(env, s.gate, th);
    ThreadGateMoves(env, s.gate, th);
    KeepsAnomaly(s.gate, th);
    forall j | 0 <= j < |t.threads|
      ensures ThreadFits(env, t.gate, t.threads[j]) && Of(t.log, j) == Written(t.threads[j])
    {
      assert ThreadFits(env, s.gate, s.threads[j]) && Of(s.log, j) == Written(s.threads[j]);
      OfTagged(s.log, k, Emits(th), j);
      if j != k {
        GateChangeKeepsFit(env, s.gate, t.gate, s.threads[j]);
      }
    }
  }

  lemma KeepsAnomaly(gate: Gate.State, th: Thread)
    ensures NextThread(gate, th).anomaly == th.anomaly
  {
    hide RepairEnd, ValidConnectorName, Diagnose.ResultOf, Diagnose.Validate;
  }

  lemma LookedFits(env: Env, gate: Gate.State, th: Thread, a: Diagnose.Action)
    requires ThreadFits(env, gate, th) && th.pc.Diagnosing? && Diagnose.Enabled(th.lookups, th.pc.fan, a)
    ensures ThreadFits(env, gate, Looked(th, a)) && Written(Looked(th, a)) == Written(th)
    ensures Looked(th, a).anomaly == th.anomaly
  {
    hide Diagnose.Inv, Diagnose.Enabled, Diagnose.Apply, ValidConnectorName, Trace;
    Diagnose.ApplyKeepsInv(th.lookups, th.pc.fan, a);
  }

  lemma LookupKeepsInv(env: Env, s: State, t: State, k: nat, a: Diagnose.Action)
    requires Inv(env, s) && LooksUp(s, t, k, a)
    ensures Inv(env, t)
  {
    hide ThreadFits, Written, Gate.Inv, Receiver.StartedOnce, Of, Looked, Diagnose.Enabled;
    var th := s.threads[k];
    LookedFits(env, s.gate, th, a);
    assert t == s.(threads := s.threads[k := Looked(th, a)]);
    forall j | 0 <= j < |t.threads|
      ensures ThreadFits(env, t.gate, t.threads[j]) && Of(t.log, j) == Written(t.threads[j])
    {
      assert ThreadFits(env, s.gate, s.threads[j]) && Of(s.log, j) == Written(s.threads[j]);
    }
  }

  lemma GateKeepsInv(env: Env, s: State, t: State, call: nat)
    requires Inv(env, s) && GateMoves(env, s, t, call)
    ensures Inv(env, t)
  {
    hide ThreadFits, Written, Gate.Inv, Receiver.StartedOnce, Of, Gate.Next;
    Gate.NextKeepsInv(env.gate, s.gate, call);
    GateNextSameCalls(env.gate, s.gate, call);
    forall j | 0 <= j < |t.threads|
      ensures ThreadFits(env, t.gate, t.threads[j]) && Of(t.log, j) == Written(t.threads[j])
    {
      assert ThreadFits(env, s.gate, s.threads[j]) && Of(s.log, j) == Written(s.threads[j]);
      GateChangeKeepsFit(env, s.gate, t.gate, s.threads[j]);
    }
  }

  lemma DeliveryKeepsInv(env: Env, s: State, t: State)
    requires Inv(env, s) && Delivers(env, s, t)
    ensures Inv(env, t)
  {
    hide ThreadFits, Written, Gate.Inv, Receiver.StartedOnce, Receiver.Received, Of;
    ReceivedStarts(env, s.receipts, t.receipts);
    var n := |s.threads|;
    forall j | 0 <= j < |t.threads|
      ensures ThreadFits(env, t.gate, t.threads[j]) && Of(t.log, j) == Written(t.threads[j])
      ensures t.threads[j].anomaly == t.receipts.started[j]
    {
      if j < n {
        assert t.threads[j] == s.threads[j];
        assert ThreadFits(env, s.gate, s.threads[j]) && Of(s.log, j) == Written(s.threads[j]);
      } else {
        OfNobody(s.log, n);
        FreshFits(env, t.gate, t.threads[n], t.receipts.started[n]);
      }
    }
  }

  lemma ReceivedStarts(env: Env, r: Receiver.State, q: Receiver.State)
    requires Receiver.Received(env.crypto, env.priv, r, q) && Receiver.StartedOnce(r)
    ensures Receiver.StartedOnce(q)
    ensures q.started == r.started || (|q.started| == |r.started| + 1 && q.started[..|r.started|] == r.started)
  {
    hide Receiver.StartedOnce, Ledger.Appended, Ledger.HasEvent;
    Receiver.StepKeepsStartedOnce(env.crypto, env.priv, r, q);
  }

  lemma FreshFits(env: Env, gate: Gate.State, th: Thread, a: Receiver.Anomaly)
    requires Fresh(th, a)
    ensures ThreadFits(env, gate, th) && Written(th) == []
  {}

  lemma RecordKeepsInv(env: Env, s: State, t: State)
    requires Inv(env, s) && Records(env, s, t)
    ensures Inv(env, t)
  {
    hide ThreadFits, Written, Gate.Inv, Receiver.StartedOnce, Of;
    Receiver.StepKeepsStartedOnce(env.crypto, env.priv, s.receipts, t.receipts);
  }

  lemma StepKeepsInv(env: Env, s: State, t: State)
    requires Inv(env, s) && Step(env, s, t)
    ensures Inv(env, t)
  {
    hide Inv, Delivers, Records, LooksUp, GateMoves, Advance;
    if t == s {
    } else if Delivers(env, s, t) {
      DeliveryKeepsInv(env, s, t);
    } else if Records(env, s, t) {
      RecordKeepsInv(env, s, t);
    } else if k: nat, a :| LooksUp(s, t, k, a) {
      LookupKeepsInv(env, s, t, k, a);
    } else if call: nat :| GateMoves(env, s, t, call) {
      GateKeepsInv(env, s, t, call);
    } else {
      var k: nat :| k < |s.threads| && t == Advance(s, k);
      AdvanceKeepsInv(env, s, k);
    }
  }

  lemma {:induction false} RunKeepsInv(env: Env, run: seq<State>, n: nat)
    requires IsRun(env, run) && n < |run|
    ensures Inv(env, run[n])
  {
    if n > 0 {
      hide Inv, Step;
      RunKeepsInv(env, run, n - 1);
      assert Step(env, run[n - 1], run[n - 1 + 1]);
      StepKeepsInv(env, run[n - 1], run[n]);
    }
  }

  // ---- Positions in the common log ----------------------------------------------------------------

  /** Which of its pipeline's effects the one at `m` is. */
  function Place(log: seq<Effect>, m: nat): nat
    requires m < |log|
  {
    |Of(log[..m], log[m].thread)|
  }

  lemma {:induction false} OfSplit(log: seq<Effect>, m: nat, k: nat)
    requires m <= |log|
    ensures Of(log[..m], k) <= Of(log, k)
    decreases |log|
  {
    if m < |log| {
      var n := |log| - 1;
      OfSplit(log[..n], m, k);
      assert log[..n][..m] == log[..m];
    } else {
      assert log[..m] == log;
    }
  }

  lemma PlaceIs(log: seq<Effect>, m: nat)
    requires m < |log|
    ensures var own := Of(log, log[m].thread);
            Place(log, m) < |own| && own[Place(log, m)] == log[m].event
  {
    var k := log[m].thread;
    OfSplit(log, m + 1, k);
    assert log[..m + 1][..m] == log[..m];
  }

  lemma PlacesIncrease(log: seq<Effect>, a: nat, b: nat)
    requires a < b < |log| && log[a].thread == log[b].thread
    ensures Place(log, a) < Place(log, b)
  {
    var k := log[a].thread;
    OfSplit(log[..b], a + 1, k);
    assert log[..b][..a + 1] == log[..a + 1];
    assert log[..a + 1][..a] == log[..a];
  }

  /** Every effect of a pipeline has a position. */
  lemma {:induction false} PositionOf(log: seq<Effect>, k: nat, i: nat) returns (m: nat)
    requires i < |Of(log, k)|
    ensures m < |log| && log[m] == Effect(k, Of(log, k)[i]) && Place(log, m) == i
  {
    var n := |log| - 1;
    if i < |Of(log[..n], k)| {
      m := PositionOf(log[..n], k, i);
      assert log[..n][..m] == log[..m];
    } else {
      m := n;
    }
  }

  // ---- What every reachable state guarantees --------------------------------------------------------

  /** A pipeline's effects so far are the beginning of its trace, and the whole of it once it has finished. */
  lemma EachPipelineFollowsItsTrace(env: Env, run: seq<State>, n: nat, k: nat)
    requires IsRun(env, run) && n < |run| && k < |run[n].threads|
    ensures var th := run[n].threads[k];
            && Of(run[n].log, k) <= Trace(th.inputs, th.allowed)
            && (th.pc.Finished? ==> Of(run[n].log, k) == Trace(th.inputs, th.allowed))
  {
    RunKeepsInv(env, run, n);
    hide Trace, ThreadFits;
    assert Of(run[n].log, k) == Written(run[n].threads[k]);
  }

  lemma EffectIsInTrace(env: Env, run: seq<State>, n: nat, m: nat)
    requires IsRun(env, run) && n < |run| && m < |run[n].log|
    ensures run[n].log[m].thread < |run[n].threads|
    ensures var th := run[n].threads[run[n].log[m].thread];
            var t, i := Trace(th.inputs, th.allowed), Place(run[n].log, m);
            i < |t| && t[i] == run[n].log[m].event
  {
    RunKeepsInv(env, run, n);
    hide Trace, ThreadFits, Inv, Of;
    ThreadsExist(env, run[n], m);
    EachPipelineFollowsItsTrace(env, run, n, run[n].log[m].thread);
    PlaceIs(run[n].log, m);
  }

  lemma ThreadsExist(env: Env, s: State, m: nat)
    requires Inv(env, s) && m < |s.log|
    ensures s.log[m].thread < |s.threads|
  {}

  /** The event whose pipeline called or recorded what stands at `m`. */
  function EventOf(s: State, m: nat): Bytes
    requires m < |s.log| && s.log[m].thread < |s.threads|
  {
    Receiver.EventId(s.threads[s.log[m].thread].anomaly)
  }

  /** However deliveries and pipelines interleave, at most one commit is made for an event id. */
  lemma OneCommitPerEvent(env: Env, run: seq<State>, n: nat, a: nat, b: nat)
    requires IsRun(env, run) && n < |run| && a < |run[n].log| && b < |run[n].log|
    requires run[n].log[a].event.CreateCommit? && run[n].log[b].event.CreateCommit?
    ensures run[n].log[a].thread < |run[n].threads| && run[n].log[b].thread < |run[n].threads|
    ensures EventOf(run[n], a) == EventOf(run[n], b) ==> a == b
  {
    var s := run[n];
    EffectIsInTrace(env, run, n, a);
    EffectIsInTrace(env, run, n, b);
    RunKeepsInv(env, run, n);
    var j, k := s.log[a].thread, s.log[b].thread;
    hide Trace, ThreadFits, Written, Of, Receiver.EventId, Gate.Inv;
    if EventOf(s, a) == EventOf(s, b) {
      assert s.threads[j].anomaly == s.receipts.started[j] && s.threads[k].anomaly == s.receipts.started[k];
      assert j == k;
      CommitPlace(s.threads[j].inputs, s.threads[j].allowed, Place(s.log, a));
      CommitPlace(s.threads[j].inputs, s.threads[j].allowed, Place(s.log, b));
      if a < b {
        PlacesIncrease(s.log, a, b);
      } else if b < a {
        PlacesIncrease(s.log, b, a);
      }
    }
  }

  /** What stands behind the bytes `content` committed to `path` for pipeline `th`. */
  ghost predicate Vetted(env: Env, th: Thread, path: Bytes, content: Bytes, fix: Repair.Success) {
    && th.lookups.es == Diagnose.Contract(true) && th.hasToken
    && Approved(th.inputs, fix) && IsThePatch(th.inputs, fix) && fix.patched == content
    && Allowed(env.gate.parse, fix.orig, content)
    && ValidConnectorName(th.anomaly.connectorName) && path == TargetPath(th.anomaly.connectorName)
    && InDirectory(path)
  }

  /**
   * Whatever else runs: every commit's bytes are an approved diff applied to the source read in
   * the approving iteration, the local check allows them against that source, the path is the
   * connector's own file, the lookups found the contract, and the event has its receipt.
   */
  lemma CommitsAreVetted(env: Env, run: seq<State>, n: nat, m: nat)
    requires IsRun(env, run) && n < |run| && m < |run[n].log| && run[n].log[m].event.CreateCommit?
    ensures var s, e := run[n], run[n].log[m];
            && e.thread < |s.threads|
            && Ledger.HasEvent(s.receipts.ledger, EventOf(s, m))
            && exists fix :: Vetted(env, s.threads[e.thread], e.event.path, e.event.content, fix)
  {
    var s := run[n];
    var k := s.log[m].thread;
    EffectIsInTrace(env, run, n, m);
    RunKeepsInv(env, run, n);
    var th := s.threads[k];
    assert s.threads[k].anomaly == s.receipts.started[k];
    assert ThreadFits(env, s.gate, th);
    CommitPlace(th.inputs, th.allowed, Place(s.log, m));
    hide Trace, Written, Of, Receiver.EventId, Gate.Inv, Receiver.StartedOnce, Ledger.HasEvent;
    ReceiptStays(s.receipts, k);
    ClearedIsVetted(env, s.gate, th);
  }

  lemma ReceiptStays(r: Receiver.State, k: nat)
    requires Receiver.StartedOnce(r) && k < |r.started|
    ensures Ledger.HasEvent(r.ledger, Receiver.EventId(r.started[k]))
  {}

  lemma ClearedIsVetted(env: Env, gate: Gate.State, th: Thread)
    requires th.allowed && ThreadFits(env, gate, th)
    ensures RepairResult(th.inputs).Ok?
    ensures var fix := RepairResult(th.inputs).value;
            Vetted(env, th, TargetPath(th.inputs.connectorName), fix.patched, fix)
  {
    hide RepairResult, Allowed, ValidConnectorName, TargetPath, Approved, IsThePatch, InDirectory, LastOf;
    hide Diagnose.Inv, Repaired;
    assert Cleared(env, th);
    RepairIsApproved(th.inputs);
    ApprovedIsThePatch(th.inputs, RepairResult(th.inputs).value);
    PathStaysInDirectory(th.inputs.connectorName);
    Diagnose.ValidExactly(th.lookups.es, th.lookups.dt, th.hasToken);
  }

  /** A merge request is asked for only after the same pipeline's commit has succeeded and been recorded. */
  lemma MergeRequestsFollowCommits(env: Env, run: seq<State>, n: nat, m: nat) returns (a: nat, b: nat)
    requires IsRun(env, run) && n < |run| && m < |run[n].log| && run[n].log[m].event == CreateMR
    ensures a < b < m
    ensures var s, k := run[n], run[n].log[m].thread;
            && k < |s.threads| && s.threads[k].inputs.commitSucceeds
            && s.log[a].thread == k && s.log[a].event.CreateCommit?
            && s.log[b] == Effect(k, Wrote(CommitOk))
  {
    var log, k := run[n].log, run[n].log[m].thread;
    EffectIsInTrace(env, run, n, m);
    EachPipelineFollowsItsTrace(env, run, n, k);
    PlaceIs(log, m);
    var th := run[n].threads[k];
    MergeRequestNeedsCommit(th.inputs, th.allowed, Place(log, m));
    hide Trace, Of, Place;
    a := PositionOf(log, k, 0);
    b := PositionOf(log, k, 1);
    if b < a {
      PlacesIncrease(log, b, a);
    }
    if m < b {
      PlacesIncrease(log, m, b);
    }
  }

  /**
   * A pipeline has left exactly one of PIPELINE_COMPLETE and PIPELINE_FAILED, after all its other
   * effects, when it has finished, and none before.
   */
  lemma FinishedLeftOneVerdict(env: Env, run: seq<State>, n: nat, k: nat)
    requires IsRun(env, run) && n < |run| && k < |run[n].threads|
    ensures run[n].threads[k].pc.Finished? <==> exists m :: VerdictAt(run[n].log, k, m)
    ensures forall a, b :: VerdictAt(run[n].log, k, a) && VerdictAt(run[n].log, k, b) ==> a == b
    ensures forall a, b :: VerdictAt(run[n].log, k, a) && a < b < |run[n].log| ==> run[n].log[b].thread != k
  {
    var log, th := run[n].log, run[n].threads[k];
    OneVerdictPerRun(th.inputs, th.allowed);
    EachPipelineFollowsItsTrace(env, run, n, k);
    hide Trace, Of;
    if th.pc.Finished? {
      var m := PositionOf(log, k, |Of(log, k)| - 1);
      assert VerdictAt(log, k, m);
    }
    forall a | VerdictAt(log, k, a)
      ensures th.pc.Finished? && Place(log, a) == |Of(log, k)| - 1
    {
      VerdictIsLast(env, run, n, k, a);
    }
    forall a, b | VerdictAt(log, k, a) && a < b < |log| && log[b].thread == k ensures false {
      PlacesIncrease(log, a, b);
      PlaceIs(log, b);
    }
  }

  predicate VerdictAt(log: seq<Effect>, k: nat, m: int) {
    0 <= m < |log| && log[m].thread == k && IsVerdict(log[m].event)
  }

  lemma VerdictIsLast(env: Env, run: seq<State>, n: nat, k: nat, a: nat)
    requires IsRun(env, run) && n < |run| && k < |run[n].threads| && VerdictAt(run[n].log, k, a)
    ensures run[n].threads[k].pc.Finished? && Place(run[n].log, a) == |Of(run[n].log, k)| - 1
  {
    var log, th := run[n].log, run[n].threads[k];
    RunKeepsInv(env, run, n);
    OneVerdictPerRun(th.inputs, th.allowed);
    PlaceIs(log, a);
    assert Of(log, k) == Written(th);
    hide Trace, Of, ThreadFits;
    assert Place(log, a) == |Trace(th.inputs, th.allowed)| - 1;
  }

  /** It has left PIPELINE_COMPLETE exactly when it asked for a merge request that was opened. */
  lemma CompletedExactly(env: Env, run: seq<State>, n: nat, k: nat)
    requires IsRun(env, run) && n < |run| && k < |run[n].threads| && run[n].threads[k].pc.Finished?
    ensures Effect(k, Wrote(PipelineComplete)) in run[n].log
            <==> Effect(k, CreateMR) in run[n].log && Effect(k, Wrote(MrFailed)) !in run[n].log
  {
    var log, th := run[n].log, run[n].threads[k];
    var t := Trace(th.inputs, th.allowed);
    EachPipelineFollowsItsTrace(env, run, n, k);
    OneVerdictPerRun(th.inputs, th.allowed);
    CompleteExactly(th.inputs, th.allowed);
    hide Trace;
    InTrace(log, k, Wrote(PipelineComplete));
    InTrace(log, k, CreateMR);
    InTrace(log, k, Wrote(MrFailed));
    assert Wrote(PipelineComplete) in t <==> t[|t| - 1] == Wrote(PipelineComplete);
  }

  lemma InTrace(log: seq<Effect>, k: nat, e: Event)
    ensures Effect(k, e) in log <==> e in Of(log, k)
  {
    hide Of;
    if Effect(k, e) in log {
      var m :| 0 <= m < |log| && log[m] == Effect(k, e);
      PlaceIs(log, m);
    }
    if e in Of(log, k) {
      var i :| 0 <= i < |Of(log, k)| && Of(log, k)[i] == e;
      var m := PositionOf(log, k, i);
    }
  }

  /** The ledger all of them share stays a verified tree, and each receipt in it was stored once. */
  lemma {:induction false} LedgerStaysVerified(env: Env, run: seq<State>, n: nat)
    requires SignaturesVerify(env.crypto) && IsRun(env, run) && n < |run|
    ensures LedgerTheorems.LedgerInv(env.crypto, env.crypto.public(env.priv), run[n].receipts.ledger)
  {
    if n > 0 {
      hide LedgerTheorems.LedgerInv;
      LedgerStaysVerified(env, run, n - 1);
      assert Step(env, run[n - 1], run[n - 1 + 1]);
      var before, after := run[n - 1].receipts, run[n].receipts;
      LedgerSteps(env, run[n - 1], run[n]);
      if after.ledger != before.ledger {
        var req: Ledger.Request, now, id :|
          && !Ledger.HasEvent(before.ledger, req.eventId)
          && Ledger.Appended(env.crypto, env.priv, before.ledger, after.ledger, req, now, id);
        var prev :|
          && Ledger.LatestAnswer(before.ledger, prev)
          && after.ledger == before.ledger + [Ledger.NewEntry(env.crypto, env.priv, prev, req, now, id)];
        LedgerTheorems.AppendKeepsInv(env.crypto, env.priv, before.ledger, prev, req, now, id);
      }
    }
  }

  /** A step changes the ledger by an append or not at all. */
  lemma LedgerSteps(env: Env, s: State, t: State)
    requires Step(env, s, t)
    ensures LedgerTheorems.Step(env.crypto, env.priv, s.receipts.ledger, t.receipts.ledger)
  {
    hide Ledger.Appended, Ledger.HasEvent, Gate.Next, NextThread, NextGate, Emits, Diagnose.Apply, Diagnose.Enabled;
    if Receiver.OtherAppend(env.crypto, env.priv, s.receipts, t.receipts) {
      NoEventIsStored(s.receipts.ledger);
    }
  }

  lemma NoEventIsStored(es: seq<Entry>)
    ensures !Ledger.HasEvent(es, [])
  {}
}

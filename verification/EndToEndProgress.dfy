/**
 * What the whole system can still do: every pipeline can finish, and exactly the re-anchored
 * patches that the local check allows can be committed.
 */
module EndToEndProgress {
  import opened Wrappers
  import opened GoBytes
  import opened Timestamps
  import opened Audit
  import Diagnose
  import opened EndToEnd
  import Gate
  import Ledger
  import opened Patch
  import opened PatchUndo
  import opened Pipeline
  import Receiver
  import Repair
  import opened Signatures

  // ---- The steps a pipeline still has to take -------------------------------------------------

  /** The timers that have not fired, and the fan-out's own steps. */
  function FanWork(lookups: Diagnose.Inputs, fan: Diagnose.State): (w: nat)
    ensures w <= 9
  {
    Diagnose.Rank(lookups, fan) + (if fan.deadline then 0 else 1) + (if fan.budget then 0 else 1)
  }

  function CallWork(pc: Gate.Pc): (w: nat)
    ensures w <= 4
  {
    match pc
    case Start => 4
    case Checked => 3
    case Stored => 2
    case Audited => 1
    case Returned(_, _) => 0
  }

  function Work(gate: Gate.State, th: Thread): (w: nat)
    ensures w <= Repair.Iterations(th.inputs.maxIterations) + 22
  {
    var loop := Repair.Iterations(th.inputs.maxIterations);
    match th.pc
    case Validating => loop + 22
    case Diagnosing(fan) => loop + 12 + FanWork(th.lookups, fan)
    case Repairing(turns) => 11 + (if turns < loop then loop - turns else 0)
    case Gating(call, _) => 6 + (if call < |gate.calls| then CallWork(gate.calls[call].pc) else 0)
    case Committing(_) => 5
    case RecordingCommit => 4
    case OpeningMR => 3
    case RecordingMR => 2
    case Closing(_) => 1
    case Finished => 0
  }

  /** The pipeline itself has nothing to do until its fan-out or its call at the gate has ended. */
  predicate Waits(gate: Gate.State, th: Thread) {
    match th.pc
    case Diagnosing(fan) => !fan.parent.Done?
    case Gating(call, _) => !(call < |gate.calls| && gate.calls[call].pc.Returned?)
    case _ => false
  }

  lemma OwnStepWorks(gate: Gate.State, th: Thread)
    requires !Waits(gate, th) && !th.pc.Finished?
    ensures Work(NextGate(gate, th), NextThread(gate, th)) < Work(gate, th)
  {
    hide ValidConnectorName, Diagnose.ResultOf, Diagnose.Validate, Repair.After;
    if th.pc.Validating? {
      assert FanWork(th.lookups, Diagnose.Init()) <= 9;
    }
  }

  /** A timer that fires, or else a step of the collector or the watcher. */
  lemma FanStepWorks(lookups: Diagnose.Inputs, fan: Diagnose.State) returns (a: Diagnose.Action)
    requires Diagnose.Inv(lookups, fan) && !fan.parent.Done?
    ensures Diagnose.Enabled(lookups, fan, a)
    ensures FanWork(lookups, Diagnose.Apply(lookups, fan, a)) < FanWork(lookups, fan)
  {
    hide Diagnose.Inv, Diagnose.Rank;
    if !fan.deadline {
      a := Diagnose.DeadlineFires;
    } else if !fan.budget {
      a := Diagnose.BudgetFires;
    } else {
      a := Diagnose.TimersUnblock(lookups, fan);
    }
    Diagnose.IndependentStepsEnd(lookups, fan, a);
    TimersKeep(lookups, fan, a);
  }

  lemma TimersKeep(lookups: Diagnose.Inputs, fan: Diagnose.State, a: Diagnose.Action)
    requires Diagnose.Enabled(lookups, fan, a)
    ensures var t := Diagnose.Apply(lookups, fan, a);
            && (fan.deadline ==> t.deadline) && (fan.budget ==> t.budget)
            && (a.DeadlineFires? ==> t.deadline) && (a.BudgetFires? ==> t.budget)
  {
    hide Diagnose.Enabled;
  }

  lemma CallStepWorks(env: Gate.Env, gate: Gate.State, call: nat)
    requires call < |gate.calls| && !gate.calls[call].pc.Returned?
    ensures CallWork(Gate.Next(env, gate, call).calls[call].pc) < CallWork(gate.calls[call].pc)
  {
    hide Allowed;
  }

  /** Some step of the whole system brings pipeline `k` nearer to its end. */
  lemma Nudge(env: Env, s: State, k: nat) returns (t: State)
    requires Inv(env, s) && k < |s.threads| && !s.threads[k].pc.Finished?
    ensures Step(env, s, t) && k < |t.threads|
    ensures Work(t.gate, t.threads[k]) < Work(s.gate, s.threads[k])
  {
    hide Inv, Waits, NextThread, NextGate, Emits, Gate.Next, Diagnose.Apply, Diagnose.Enabled, FanWork, CallWork;
    var th := s.threads[k];
    FitsNow(env, s, k);
    if !Waits(s.gate, th) {
      OwnStepWorks(s.gate, th);
      t := Advance(s, k);
    } else if th.pc.Diagnosing? {
      WaitsFor(env, s.gate, th);
      var a := FanStepWorks(th.lookups, th.pc.fan);
      t := s.(threads := s.threads[k := Looked(th, a)]);
      assert LooksUp(s, t, k, a);
    } else {
      WaitsFor(env, s.gate, th);
      CallStepWorks(env.gate, s.gate, th.pc.call);
      t := s.(gate := Gate.Next(env.gate, s.gate, th.pc.call));
      assert GateMoves(env, s, t, th.pc.call);
    }
  }

  lemma FitsNow(env: Env, s: State, k: nat)
    requires Inv(env, s) && k < |s.threads|
    ensures ThreadFits(env, s.gate, s.threads[k])
  {}

  lemma WaitsFor(env: Env, gate: Gate.State, th: Thread)
    requires ThreadFits(env, gate, th) && Waits(gate, th)
    ensures th.pc.Diagnosing? ==> Diagnose.Inv(th.lookups, th.pc.fan) && !th.pc.fan.parent.Done?
    ensures !th.pc.Diagnosing? ==>
              th.pc.Gating? && th.pc.call < |gate.calls| && !gate.calls[th.pc.call].pc.Returned?
  {
    hide Diagnose.Inv, Cleared, Repaired, ValidConnectorName;
  }

  lemma Extended(env: Env, run: seq<State>, t: State)
    requires IsRun(env, run) && Step(env, run[|run| - 1], t)
    ensures IsRun(env, run + [t])
  {
    hide Step;
  }

  /** The work left for pipeline `k` at the end of a run. */
  function WorkLeft(run: seq<State>, k: nat): (w: nat)
    requires run != [] && k < |run[|run| - 1].threads|
    ensures w <= Repair.Iterations(run[|run| - 1].threads[k].inputs.maxIterations) + 22
  {
    Work(run[|run| - 1].gate, run[|run| - 1].threads[k])
  }

  /** A pipeline that a run has started. */
  ghost predicate Started(env: Env, run: seq<State>, k: nat) {
    run != [] && IsRun(env, run) && k < |run[|run| - 1].threads|
  }

  predicate HasFinished(run: seq<State>, k: nat)
    requires run != [] && k < |run[|run| - 1].threads|
  {
    run[|run| - 1].threads[k].pc.Finished?
  }

  lemma OneStepMore(env: Env, run: seq<State>, k: nat) returns (longer: seq<State>)
    requires Started(env, run, k) && !HasFinished(run, k)
    ensures Started(env, longer, k) && |longer| == |run| + 1 && run <= longer
    ensures WorkLeft(longer, k) < WorkLeft(run, k)
  {
    hide Inv, Step, Work, IsRun;
    RunKeepsInv(env, run, |run| - 1);
    var t := Nudge(env, run[|run| - 1], k);
    Extended(env, run, t);
    longer := run + [t];
  }

  lemma PrefixOfPrefix<T>(a: seq<T>, b: seq<T>, c: seq<T>)
    requires a <= b <= c
    ensures a <= c
  {}

  /**
   * From every reachable state, whatever never answers, an unfinished pipeline can be driven to
   * its end within a number of steps that only its iteration limit bounds.
   */
  lemma {:induction false} PipelinesCanFinish(env: Env, run: seq<State>, k: nat) returns (longer: seq<State>)
    requires Started(env, run, k)
    ensures Started(env, longer, k) && HasFinished(longer, k) && run <= longer
    ensures |longer| <= |run| + WorkLeft(run, k)
    decreases WorkLeft(run, k)
  {
    hide IsRun, WorkLeft, HasFinished;
    if HasFinished(run, k) {
      longer := run;
    } else {
      var next := OneStepMore(env, run, k);
      longer := PipelinesCanFinish(env, next, k);
      PrefixOfPrefix(run, next, longer);
    }
  }

  // ---- What can be committed ----------------------------------------------------------------------

  /** Lookups that find everything, with no Phoenix leg. */
  const HEALTHY := Diagnose.Inputs(Diagnose.Contract(true), Diagnose.Health(true), false, Diagnose.History)

  /** The steps of a fan-out in which both lookups answer in time. */
  const FAN: seq<Diagnose.Action> := [
    Diagnose.ElasticSends, Diagnose.DynatraceSends, Diagnose.ParentReceives, Diagnose.ParentReceives,
    Diagnose.ParentDecides, Diagnose.ParentAttaches, Diagnose.ParentRecords]

  function FanState(esSent: bool, dtSent: bool, results: seq<Diagnose.Message>, parent: Diagnose.Parent,
                    log: seq<Diagnose.Record>): Diagnose.State
  {
    Diagnose.State(esSent, dtSent, results, false, [], false, [], false, false, false, parent, log)
  }

  ghost predicate IsFan(fans: seq<Diagnose.State>) {
    && |fans| == |FAN| + 1 && fans[0] == Diagnose.Init()
    && forall i :: 0 <= i < |FAN| ==> FanMove(fans[i], FAN[i], fans[i + 1])
  }

  predicate FanMove(f: Diagnose.State, a: Diagnose.Action, g: Diagnose.State) {
    Diagnose.Enabled(HEALTHY, f, a) && g == Diagnose.Apply(HEALTHY, f, a)
  }

  const FOUND := Diagnose.Contract(true)
  const WELL := Diagnose.Health(true)
  const E_MESSAGE := Diagnose.FromElastic(FOUND)
  const D_MESSAGE := Diagnose.FromDynatrace(WELL)

  /** The states of that fan-out. */
  function Fan(n: nat): Diagnose.State {
    if n == 0 then Diagnose.Init()
    else if n == 1 then FanState(true, false, [E_MESSAGE], Diagnose.Collecting(0, None, None), [])
    else if n == 2 then FanState(true, true, [E_MESSAGE, D_MESSAGE], Diagnose.Collecting(0, None, None), [])
    else if n == 3 then FanState(true, true, [D_MESSAGE], Diagnose.Collecting(1, Some(FOUND), None), [])
    else if n == 4 then FanState(true, true, [], Diagnose.Collecting(2, Some(FOUND), Some(WELL)), [])
    else if n == 5 then FanState(true, true, [], Diagnose.Attaching(Diagnose.Diagnosed), [])
    else if n == 6 then FanState(true, true, [], Diagnose.Recording(Diagnose.Diagnosed), [])
    else FanState(true, true, [], Diagnose.Done(Diagnose.Diagnosed), [Diagnose.DiagnosisOk])
  }

  lemma LookupsAnswer()
    ensures FanMove(Fan(0), FAN[0], Fan(1)) && FanMove(Fan(1), FAN[1], Fan(2))
  {}

  lemma AnswersArrive()
    ensures FanMove(Fan(2), FAN[2], Fan(3)) && FanMove(Fan(3), FAN[3], Fan(4))
  {}

  lemma DecisionIsRecorded()
    ensures FanMove(Fan(4), FAN[4], Fan(5)) && FanMove(Fan(5), FAN[5], Fan(6)) && FanMove(Fan(6), FAN[6], Fan(7))
  {}

  lemma HealthyFan() returns (fans: seq<Diagnose.State>)
    ensures IsFan(fans) && fans[|FAN|].parent == Diagnose.Done(Diagnose.Diagnosed)
  {
    hide FanMove;
    LookupsAnswer();
    AnswersArrive();
    DecisionIsRecorded();
    fans := [Fan(0), Fan(1), Fan(2), Fan(3), Fan(4), Fan(5), Fan(6), Fan(7)];
  }

  /** The only pipeline goes through the first `n` steps of its fan-out. */
  lemma {:induction false} FanRuns(env: Env, run: seq<State>, th: Thread, fans: seq<Diagnose.State>, n: nat)
      returns (longer: seq<State>)
    requires IsRun(env, run) && IsFan(fans) && n <= |FAN|
    requires th.lookups == HEALTHY && th.pc == Diagnosing(fans[0]) && run[|run| - 1].threads == [th]
    ensures IsRun(env, longer) && longer != []
    ensures longer[|longer| - 1] == run[|run| - 1].(threads := [th.(pc := Diagnosing(fans[n]))])
  {
    if n == 0 {
      longer := run;
      assert th == th.(pc := Diagnosing(fans[0]));
    } else {
      hide IsRun, Diagnose.Apply, Diagnose.Enabled, Step;
      longer := FanRuns(env, run, th, fans, n - 1);
      var s := longer[|longer| - 1];
      assert FanMove(fans[n - 1], FAN[n - 1], fans[n - 1 + 1]);
      var t := s.(threads := [th.(pc := Diagnosing(fans[n]))]);
      assert s.threads[0 := Looked(s.threads[0], FAN[n - 1])] == t.threads;
      assert LooksUp(s, t, 0, FAN[n - 1]);
      LookupIsStep(env, s, t, 0, FAN[n - 1]);
      Extended(env, longer, t);
      longer := longer + [t];
    }
  }

  lemma LookupIsStep(env: Env, s: State, t: State, k: nat, a: Diagnose.Action)
    requires LooksUp(s, t, k, a)
    ensures Step(env, s, t)
  {
    hide LooksUp;
  }

  lemma OwnStep(env: Env, run: seq<State>, t: State)
    requires IsRun(env, run) && run[|run| - 1].threads != [] && t == Advance(run[|run| - 1], 0)
    ensures IsRun(env, run + [t])
  {
    hide IsRun, Advance;
    Extended(env, run, t);
  }

  lemma GateStepRun(env: Env, run: seq<State>, t: State)
    requires IsRun(env, run) && GateMoves(env, run[|run| - 1], t, 0)
    ensures IsRun(env, run + [t])
  {
    hide IsRun, GateMoves;
    Extended(env, run, t);
  }

  /** Surroundings in which one iteration proposes `hunks` for the source `orig`, and everything succeeds. */
  function SimpleInputs(name: Bytes, orig: Bytes, hunks: seq<Hunk>): Inputs {
    Inputs(
      name, Some(Diagnose.Diagnosis(true, true, false, true)),
      n => Some(orig),
      (n, source, feedback) => Some(Repair.Response([], [])),
      diff => Some([Repair.DiffFile(false, [], hunks)]),
      1, true, true)
  }

  /** The loop takes one turn and ends with the patch. */
  lemma SimpleRepair(name: Bytes, orig: Bytes, hunks: seq<Hunk>, content: Bytes) returns (fix: Repair.Success)
    requires Patched(orig, hunks) == Ok(content)
    requires CountAll(hunks, Add) + CountAll(hunks, Delete) > 0
    ensures fix.orig == orig && fix.patched == content
    ensures RepairEnd(SimpleInputs(name, orig, hunks), 0) == None
    ensures RepairEnd(SimpleInputs(name, orig, hunks), 1) == Some(Ok(fix))
  {
    hide Patched, CountAll, Repair.ExtractDiff;
    var i := SimpleInputs(name, orig, hunks);
    var w := RepairWorld(i);
    var file := Repair.DiffFile(false, [], hunks);
    var diff := Repair.ExtractDiff([]);
    fix := Repair.Success(diff, content, orig, 1, []);
    assert Repair.StructuralFault([file]) == None;
    assert ApplyDiffTo(i.parseDiff, orig, diff) == Some(content);
    assert Repair.Iterate(w, 0, Repair.NoFeedback) == Repair.Won(fix);
    assert Repair.After(w, 0).Running?;
    Repair.AfterOne(w, 0);
  }

  const NO_GATE := Gate.State({}, [], [])

  function FailedTransformation(name: Bytes): (a: Receiver.Anomaly)
    ensures Receiver.IsValid(a) && Receiver.TriggersRepair(a) && a.connectorName == name
  {
    Receiver.Anomaly(Ascii("transformation_failed"), [DASH], name, [DASH], false)
  }

  /** The first delivery of all stores its receipt. */
  lemma FirstReceipt(env: Env, a: Receiver.Anomaly) returns (e: Entry)
    requires Receiver.IsValid(a) && Receiver.TriggersRepair(a)
    ensures Receiver.Received(env.crypto, env.priv, Receiver.State([], []), Receiver.State([e], [a]))
  {
    hide Ledger.NewEntry, Receiver.EventId, Receiver.IsValid, Receiver.TriggersRepair;
    var now: Time :| true;
    var req := Ledger.Request([], Ledger.FIVETRAN_RECEIVED, [], [], Receiver.EventId(a));
    e := Ledger.NewEntry(env.crypto, env.priv, None, req, now, []);
    assert [] + [e] == [e] && Ledger.LatestAnswer([], None);
    assert Ledger.Appended(env.crypto, env.priv, [], [e], req, now, []);
    assert !Ledger.HasEvent([], Receiver.EventId(a));
  }

  /** The pipeline of a fresh event has just been started, and nothing else has happened. */
  lemma FirstDelivery(env: Env, name: Bytes, i: Inputs) returns (run: seq<State>, th: Thread)
    requires i.connectorName == name
    ensures IsRun(env, run) && run != [] && th.inputs == i.(diagnosis := None)
    ensures th.lookups == HEALTHY && th.hasToken && !th.allowed && th.pc == Validating
    ensures run[|run| - 1].threads == [th] && run[|run| - 1].gate == NO_GATE && run[|run| - 1].log == []
  {
    hide Receiver.Received, FailedTransformation;
    var a := FailedTransformation(name);
    var e := FirstReceipt(env, a);
    th := Thread(a, HEALTHY, true, i.(diagnosis := None), false, Validating);
    var s := State(Receiver.State([], []), [], NO_GATE, []);
    var t := State(Receiver.State([e], [a]), [th], NO_GATE, []);
    assert Fresh(th, t.receipts.started[0]) && s.threads + [th] == t.threads;
    assert Delivers(env, s, t);
    DeliveryIsStep(env, s, t);
    hide Delivers, Step;
    run := [s, t];
  }

  lemma DeliveryIsStep(env: Env, s: State, t: State)
    requires Delivers(env, s, t)
    ensures Step(env, s, t)
  {
    hide Delivers;
  }

  /** From the delivery to the repair loop. */
  lemma RunToRepair(env: Env, name: Bytes, i: Inputs) returns (run: seq<State>, th: Thread)
    requires ValidConnectorName(name) && i.connectorName == name
    requires i.diagnosis == Some(Diagnose.Diagnosis(true, true, false, true))
    ensures IsRun(env, run) && run != [] && th.inputs == i && !th.allowed && th.pc == Repairing(0)
    ensures run[|run| - 1].threads == [th] && run[|run| - 1].gate == NO_GATE && run[|run| - 1].log == []
  {
    hide IsRun, ValidConnectorName;
    var th0: Thread;
    run, th0 := FirstDelivery(env, name, i);
    var fans := HealthyFan();
    var th1 := th0.(pc := Diagnosing(fans[0]));
    var s := run[|run| - 1];
    assert s.threads[0 := th1] == [th1] && s.log + Tag(0, []) == [];
    assert Advance(s, 0) == s.(threads := [th1]);
    OwnStep(env, run, s.(threads := [th1]));
    run := FanRuns(env, run + [s.(threads := [th1])], th1, fans, |FAN|);
    var th2 := th1.(pc := Diagnosing(fans[|FAN|]));
    s := run[|run| - 1];
    th := th2.(inputs := i, pc := Repairing(0));
    assert NextThread(s.gate, th2) == th;
    assert s.threads[0 := th] == [th] && s.log + Tag(0, []) == [];
    assert Advance(s, 0) == s.(threads := [th]);
    OwnStep(env, run, s.(threads := [th]));
    run := run + [s.(threads := [th])];
  }

  /** From the repair loop to the call at the gate. */
  lemma RunToGate(env: Env, name: Bytes, orig: Bytes, hunks: seq<Hunk>, content: Bytes)
      returns (run: seq<State>, th: Thread, fix: Repair.Success)
    requires ValidConnectorName(name)
    requires Patched(orig, hunks) == Ok(content) && CountAll(hunks, Add) + CountAll(hunks, Delete) > 0
    ensures IsRun(env, run) && run != [] && th.inputs.connectorName == name && !th.allowed && th.pc == Gating(0, fix)
    ensures fix.orig == orig && fix.patched == content
    ensures run[|run| - 1].threads == [th] && run[|run| - 1].log == []
    ensures run[|run| - 1].gate == Gate.Arrive(NO_GATE, orig, content, fix.patchDiff)
  {
    hide IsRun, ValidConnectorName, RepairEnd, Patched, CountAll;
    var i := SimpleInputs(name, orig, hunks);
    fix := SimpleRepair(name, orig, hunks, content);
    var th0: Thread;
    run, th0 := RunToRepair(env, name, i);
    var s := run[|run| - 1];
    var th1 := th0.(pc := Repairing(1));
    assert s.threads[0 := th1] == [th1] && s.log + Tag(0, []) == [];
    assert Advance(s, 0) == s.(threads := [th1]);
    OwnStep(env, run, s.(threads := [th1]));
    run := run + [s.(threads := [th1])];
    th := th1.(pc := Gating(0, fix));
    s := run[|run| - 1];
    var gate := Gate.Arrive(NO_GATE, orig, content, fix.patchDiff);
    assert s.threads[0 := th] == [th] && s.log + Tag(0, []) == [];
    assert Advance(s, 0) == s.(threads := [th], gate := gate);
    OwnStep(env, run, s.(threads := [th], gate := gate));
    run := run + [s.(threads := [th], gate := gate)];
  }

  /** A gate that has seen nothing lets a patch pass that the local check allows. */
  lemma GateAllows(env: Gate.Env, orig: Bytes, content: Bytes, diff: Bytes) returns (g1: Gate.State, g2: Gate.State)
    requires Allowed(env.parse, orig, content)
    ensures g1 == Gate.Next(env, Gate.Arrive(NO_GATE, orig, content, diff), 0) && |g1.calls| == 1
    ensures g2 == Gate.Next(env, g1, 0) && |g2.calls| == 1
    ensures g2.calls[0].pc == Gate.Returned(Gate.Answer(Gate.Allow, false), false)
  {
    hide Allowed;
    g1 := Gate.Next(env, Gate.Arrive(NO_GATE, orig, content, diff), 0);
    g2 := Gate.Next(env, g1, 0);
  }

  /** Every allowed patch that changes a line is committed in some run. */
  lemma RunToCommit(env: Env, name: Bytes, orig: Bytes, hunks: seq<Hunk>, content: Bytes) returns (run: seq<State>)
    requires ValidConnectorName(name)
    requires Patched(orig, hunks) == Ok(content) && CountAll(hunks, Add) + CountAll(hunks, Delete) > 0
    requires Allowed(env.gate.parse, orig, content)
    ensures IsRun(env, run) && run != []
    ensures run[|run| - 1].log == [Effect(0, CreateCommit(TargetPath(name), content))]
  {
    hide IsRun, ValidConnectorName, Patched, CountAll, Allowed, TargetPath, Gate.Next, Gate.Arrive;
    var th: Thread, fix: Repair.Success;
    run, th, fix := RunToGate(env, name, orig, hunks, content);
    var s := run[|run| - 1];
    var g1, g2 := GateAllows(env.gate, orig, content, fix.patchDiff);
    GateStepRun(env, run, s.(gate := g1));
    run := run + [s.(gate := g1)];
    GateStepRun(env, run, s.(gate := g2));
    run := run + [s.(gate := g2)];
    var th1 := th.(allowed := true, pc := Committing(fix));
    var s1 := s.(gate := g2, threads := [th1]);
    assert s.threads[0 := th1] == [th1] && s.log + Tag(0, []) == [];
    assert Advance(s.(gate := g2), 0) == s1;
    OwnStep(env, run, s1);
    run := run + [s1];
    var th2 := th1.(pc := RecordingCommit);
    var done := [Effect(0, CreateCommit(TargetPath(name), content))];
    assert s1.threads[0 := th2] == [th2];
    assert s1.log + Tag(0, [CreateCommit(TargetPath(name), content)]) == done;
    assert Advance(s1, 0) == s1.(threads := [th2], log := done);
    OwnStep(env, run, s1.(threads := [th2], log := done));
    run := run + [s1.(threads := [th2], log := done)];
  }

  ghost predicate CommittedIn(env: Env, run: seq<State>, m: nat, name: Bytes, content: Bytes) {
    && run != [] && IsRun(env, run) && m < |run[|run| - 1].log|
    && run[|run| - 1].log[m].event == CreateCommit(TargetPath(name), content)
  }

  /** `content` is a source with a patch applied that changes a line, and the local check allows it. */
  ghost predicate AllowedPatch(env: Env, orig: Bytes, hunks: seq<Hunk>, content: Bytes) {
    && Patched(orig, hunks) == Ok(content)
    && CountAll(hunks, Add) + CountAll(hunks, Delete) > 0
    && Allowed(env.gate.parse, orig, content)
  }

  lemma SamePathSameName(a: Bytes, b: Bytes)
    requires TargetPath(a) == TargetPath(b)
    ensures a == b
  {
    var d := |TARGET_DIRECTORY|;
    assert a == TargetPath(a)[d..d + |a|] && b == TargetPath(b)[d..d + |b|];
  }

  /**
   * What can ever reach GitLab for a connector: over all runs, exactly the results of patches
   * that change a line and that the local check allows, for names of the safe charset.
   */
  lemma CommittableExactly(env: Env, name: Bytes, content: Bytes)
    ensures (exists run, m :: CommittedIn(env, run, m, name, content))
            <==> ValidConnectorName(name) && exists orig, hunks :: AllowedPatch(env, orig, hunks, content)
  {
    hide IsRun, ValidConnectorName, Patched, CountAll, Allowed, TargetPath;
    if run: seq<State>, m: nat :| CommittedIn(env, run, m, name, content) {
      var s := run[|run| - 1];
      CommitsAreVetted(env, run, |run| - 1, m);
      var th := s.threads[s.log[m].thread];
      var fix :| Vetted(env, th, TargetPath(name), content, fix);
      SamePathSameName(name, th.anomaly.connectorName);
      assert AllowedPatch(env, fix.orig, th.inputs.parseDiff(fix.patchDiff).value[0].hunks, content);
    }
    if ValidConnectorName(name) {
      forall orig, hunks | AllowedPatch(env, orig, hunks, content)
        ensures exists run, m :: CommittedIn(env, run, m, name, content)
      {
        var run := RunToCommit(env, name, orig, hunks, content);
        assert CommittedIn(env, run, 0, name, content);
      }
    }
  }
}

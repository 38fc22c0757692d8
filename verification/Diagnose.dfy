/**
 * The diagnose fan-out (internal/engine/diagnose/engine.go): two lookup goroutines, the
 * optional Phoenix leg and the collecting loop, interleaved at their channel operations.
 */
module Diagnose {
  import opened Wrappers

  /** How the two lookups can end. Dynatrace failures are soft (telemetry) or hard (anything else). */
  datatype EsResult = Contract(present: bool) | EsError

  datatype DtResult = Health(present: bool) | SoftError | HardError

  datatype Message = FromElastic(es: EsResult) | FromDynatrace(dt: DtResult)

  datatype PhoenixMode = History | EmptyOptional | TimedOut

  /** The ledger records of this stage. */
  datatype Record =
    | DiagnosisOk
    | DiagnosisDegraded
    | DiagnosisFailed
    | PhoenixHistoryOk
    | PhoenixHistoryDegraded

  datatype Failure = Timeout | ElasticFailed | DynatraceFailed

  datatype Outcome = Diagnosed | Degraded | Failed(failure: Failure)

  /** What the lookups would return, and whether the Phoenix leg is wired; fixed for a run. */
  datatype Inputs = Inputs(es: EsResult, dt: DtResult, phoenix: bool, query: PhoenixMode)

  /** The decision once both results are in: Elastic's failure dominates. */
  function Decide(es: EsResult, dt: DtResult): Outcome {
    if es.EsError? then Failed(ElasticFailed)
    else match dt
      case Health(_) => Diagnosed
      case SoftError => Degraded
      case HardError => Failed(DynatraceFailed)
  }

  function RecordOf(o: Outcome): Record {
    match o
    case Diagnosed => DiagnosisOk
    case Degraded => DiagnosisDegraded
    case Failed(_) => DiagnosisFailed
  }

  datatype Parent =
    | Collecting(received: nat, es: Option<EsResult>, dt: Option<DtResult>)
    | Attaching(outcome: Outcome)
    | Recording(outcome: Outcome)
    | Done(outcome: Outcome)

  datatype State = State(
    esSent: bool, dtSent: bool, results: seq<Message>,  // capacity 2
    querySent: bool, inner: seq<PhoenixMode>,           // capacity 1
    watcherSent: bool, leg: seq<PhoenixMode>,           // capacity 1
    deadline: bool, budget: bool, cancelled: bool,      // the three contexts
    parent: Parent,
    log: seq<Record>)

  const RESULTS_CAPACITY := 2
  const LEG_CAPACITY := 1

  function Init(): State {
    State(false, false, [], false, [], false, [], false, false, false, Collecting(0, None, None), [])
  }

  /** The atomic steps; each names the goroutine or timer that takes it. */
  datatype Action =
    | ElasticSends
    | DynatraceSends
    | QueryReturns          // may never happen
    | WatcherForwards
    | WatcherGivesUp
    | DeadlineFires
    | BudgetFires
    | ContextCancelled
    | ParentReceives
    | ParentTimesOut
    | ParentDecides
    | ParentAttaches
    | ParentAttachesCancelled
    | ParentRecords

  predicate Enabled(env: Inputs, s: State, a: Action) {
    match a
    case ElasticSends => !s.esSent && |s.results| < RESULTS_CAPACITY
    case DynatraceSends => !s.dtSent && |s.results| < RESULTS_CAPACITY
    case QueryReturns => env.phoenix && !s.querySent && |s.inner| < LEG_CAPACITY
    case WatcherForwards => env.phoenix && !s.watcherSent && s.inner != [] && |s.leg| < LEG_CAPACITY
    case WatcherGivesUp => env.phoenix && !s.watcherSent && s.budget && |s.leg| < LEG_CAPACITY
    case DeadlineFires => true
    case BudgetFires => true
    case ContextCancelled => true
    case ParentReceives => s.parent.Collecting? && s.parent.received < 2 && s.results != []
    case ParentTimesOut => s.parent.Collecting? && s.parent.received < 2 && s.deadline
    case ParentDecides => s.parent.Collecting? && s.parent.received == 2 && s.parent.es.Some? && s.parent.dt.Some?
    case ParentAttaches => s.parent.Attaching? && (!env.phoenix || s.leg != [])
    case ParentAttachesCancelled => s.parent.Attaching? && env.phoenix && s.cancelled
    case ParentRecords => s.parent.Recording?
  }

  function PhoenixRecord(mode: PhoenixMode): Record {
    if mode == History then PhoenixHistoryOk else PhoenixHistoryDegraded
  }

  function Receive(p: Parent, m: Message): Parent
    requires p.Collecting?
  {
    match m
    case FromElastic(es) => Collecting(p.received + 1, Some(es), p.dt)
    case FromDynatrace(dt) => Collecting(p.received + 1, p.es, Some(dt))
  }

  function NextResults(env: Inputs, s: State, a: Action): seq<Message>
    requires Enabled(env, s, a)
  {
    match a
    case ElasticSends => s.results + [FromElastic(env.es)]
    case DynatraceSends => s.results + [FromDynatrace(env.dt)]
    case ParentReceives => s.results[1..]
    case _ => s.results
  }

  function NextInner(env: Inputs, s: State, a: Action): seq<PhoenixMode>
    requires Enabled(env, s, a)
  {
    match a
    case QueryReturns => s.inner + [env.query]
    case WatcherForwards => s.inner[1..]
    case _ => s.inner
  }

  function NextLeg(env: Inputs, s: State, a: Action): seq<PhoenixMode>
    requires Enabled(env, s, a)
  {
    match a
    case WatcherForwards => s.leg + [s.inner[0]]
    case WatcherGivesUp => s.leg + [TimedOut]
    case ParentAttaches => if env.phoenix then s.leg[1..] else s.leg
    case _ => s.leg
  }

  function NextParent(env: Inputs, s: State, a: Action): Parent
    requires Enabled(env, s, a)
  {
    match a
    case ParentReceives => Receive(s.parent, s.results[0])
    case ParentTimesOut => Recording(Failed(Timeout))
    case ParentDecides =>
      var o := Decide(s.parent.es.value, s.parent.dt.value);
      if o.Failed? then Recording(o) else Attaching(o)
    case ParentAttaches => Recording(s.parent.outcome)
    case ParentAttachesCancelled => Recording(s.parent.outcome)
    case ParentRecords => Done(s.parent.outcome)
    case _ => s.parent
  }

  function NextLog(env: Inputs, s: State, a: Action): seq<Record>
    requires Enabled(env, s, a)
  {
    match a
    case ParentAttaches => if env.phoenix then s.log + [PhoenixRecord(s.leg[0])] else s.log
    case ParentAttachesCancelled => s.log + [PhoenixRecord(EmptyOptional)]
    case ParentRecords => s.log + [RecordOf(s.parent.outcome)]
    case _ => s.log
  }

  /** Cancelling the parent context ends the two derived ones. */
  function Apply(env: Inputs, s: State, a: Action): State
    requires Enabled(env, s, a)
  {
    State(
      s.esSent || a.ElasticSends?, s.dtSent || a.DynatraceSends?, NextResults(env, s, a),
      s.querySent || a.QueryReturns?, NextInner(env, s, a),
      s.watcherSent || a.WatcherForwards? || a.WatcherGivesUp?, NextLeg(env, s, a),
      s.deadline || a.DeadlineFires? || a.ContextCancelled?,
      s.budget || a.BudgetFires? || a.ContextCancelled?,
      s.cancelled || a.ContextCancelled?,
      NextParent(env, s, a), NextLog(env, s, a))
  }

  /** A run under some schedule. */
  ghost predicate IsRun(env: Inputs, run: seq<State>, actions: seq<Action>) {
    && |run| == |actions| + 1
    && run[0] == Init()
    && forall n :: 0 <= n < |actions| ==>
         Enabled(env, run[n], actions[n]) && run[n + 1] == Apply(env, run[n], actions[n])
  }

  // ---- The invariant ---------------------------------------------------------------------

  /** The messages that are out but not yet received. */
  predicate InFlight(env: Inputs, s: State) {
    var p := s.parent;
    && (forall m <- s.results :: m == FromElastic(env.es) || m == FromDynatrace(env.dt))
    && (FromElastic(env.es) in s.results ==> s.esSent)
    && (FromDynatrace(env.dt) in s.results ==> s.dtSent)
    && (forall k, l :: 0 <= k < l < |s.results| ==> s.results[k] != s.results[l])
    && (p.Collecting? ==>
          && (p.es.Some? ==> p.es == Some(env.es) && s.esSent && FromElastic(env.es) !in s.results)
          && (p.dt.Some? ==> p.dt == Some(env.dt) && s.dtSent && FromDynatrace(env.dt) !in s.results)
          && p.received == (if p.es.Some? then 1 else 0) + (if p.dt.Some? then 1 else 0))
    && |s.results| <= (if s.esSent then 1 else 0) + (if s.dtSent then 1 else 0)
  }

  predicate LegFits(env: Inputs, s: State) {
    && |s.inner| <= (if s.querySent then 1 else 0)
    && (forall m <- s.inner :: m == env.query)
    && (forall m <- s.leg :: m == env.query || m == TimedOut)
    && |s.leg| <= (if s.watcherSent then 1 else 0)
    && (env.phoenix && s.parent.Attaching? && s.watcherSent ==> |s.leg| == 1)
    && (env.phoenix && s.parent.Collecting? && s.watcherSent ==> |s.leg| == 1)
    && (s.cancelled ==> s.budget && s.deadline)
  }

  /** The records written so far. */
  predicate LogFits(env: Inputs, s: State) {
    match s.parent
    case Collecting(_, _, _) => s.log == []
    case Attaching(o) => s.log == [] && o == Decide(env.es, env.dt) && !o.Failed?
    case Recording(o) => LegLog(env, o, s.log) && (o == Decide(env.es, env.dt) || o == Failed(Timeout))
    case Done(o) =>
      && s.log != [] && s.log[|s.log| - 1] == RecordOf(o)
      && LegLog(env, o, s.log[..|s.log| - 1])
      && (o == Decide(env.es, env.dt) || o == Failed(Timeout))
  }

  /** Before the final record: one Phoenix record if the leg is wired and the stage did not fail, else nothing. */
  predicate LegLog(env: Inputs, o: Outcome, log: seq<Record>) {
    if env.phoenix && !o.Failed? then
      log == [PhoenixHistoryDegraded] || (log == [PhoenixHistoryOk] && env.query == History)
    else log == []
  }

  predicate Inv(env: Inputs, s: State) {
    InFlight(env, s) && LegFits(env, s) && LogFits(env, s)
  }

  /** A lookup's message joins the channel. */
  lemma SendKeepsInFlight(env: Inputs, s: State, a: Action)
    requires InFlight(env, s) && Enabled(env, s, a) && (a.ElasticSends? || a.DynatraceSends?)
    ensures InFlight(env, Apply(env, s, a))
  {
    hide NextInner, NextLeg, NextLog;
    var t := Apply(env, s, a);
    var m := if a.ElasticSends? then FromElastic(env.es) else FromDynatrace(env.dt);
    assert t.results == s.results + [m] && t.parent == s.parent;
    assert m !in s.results;
  }

  /** The collector takes a message from the channel. */
  lemma ReceiveKeepsInFlight(env: Inputs, s: State)
    requires InFlight(env, s) && Enabled(env, s, ParentReceives)
    ensures InFlight(env, Apply(env, s, ParentReceives))
  {
    hide NextInner, NextLeg, NextLog;
    var t, m := Apply(env, s, ParentReceives), s.results[0];
    assert m in s.results && s.results == [m] + t.results;
    assert forall k :: 0 <= k < |t.results| ==> t.results[k] == s.results[k + 1];
    assert m !in t.results;
    assert forall x <- t.results :: x in s.results;
  }

  lemma ApplyKeepsInFlight(env: Inputs, s: State, a: Action)
    requires InFlight(env, s) && Enabled(env, s, a)
    ensures InFlight(env, Apply(env, s, a))
  {
    if a.ElasticSends? || a.DynatraceSends? {
      SendKeepsInFlight(env, s, a);
    } else if a.ParentReceives? {
      ReceiveKeepsInFlight(env, s);
    } else {
      hide NextInner, NextLeg, NextLog;
      var t := Apply(env, s, a);
      assert t.results == s.results && t.esSent == s.esSent && t.dtSent == s.dtSent;
      assert t.parent == s.parent || !t.parent.Collecting?;
    }
  }

  lemma ApplyKeepsInv(env: Inputs, s: State, a: Action)
    requires Inv(env, s) && Enabled(env, s, a)
    ensures Inv(env, Apply(env, s, a))
  {
    ApplyKeepsInFlight(env, s, a);
    ApplyKeepsLeg(env, s, a);
    ApplyKeepsLog(env, s, a);
  }

  lemma ApplyKeepsLeg(env: Inputs, s: State, a: Action)
    requires LegFits(env, s) && Enabled(env, s, a)
    ensures LegFits(env, Apply(env, s, a))
  {
    hide NextLog, NextResults;
    var t := Apply(env, s, a);
    if a.WatcherForwards? {
      assert s.inner[0] in s.inner;
      assert t.leg == s.leg + [s.inner[0]];
    } else if a.WatcherGivesUp? {
      assert t.leg == s.leg + [TimedOut];
    } else {
      assert forall m <- t.leg :: m in s.leg;
    }
    if !a.QueryReturns? {
      assert forall m <- t.inner :: m in s.inner;
    }
  }

  predicate ByParent(a: Action) {
    a.ParentReceives? || a.ParentTimesOut? || a.ParentDecides?
    || a.ParentAttaches? || a.ParentAttachesCancelled? || a.ParentRecords?
  }

  lemma OthersLeaveParent(env: Inputs, s: State, a: Action)
    requires Enabled(env, s, a) && !ByParent(a)
    ensures Apply(env, s, a).parent == s.parent && Apply(env, s, a).log == s.log
  {
    hide NextInner, NextLeg, NextResults;
  }

  /** The decision is taken on the two lookups' own results. */
  lemma DecidesOnResults(env: Inputs, s: State)
    requires InFlight(env, s) && Enabled(env, s, ParentDecides)
    ensures s.parent.es == Some(env.es) && s.parent.dt == Some(env.dt)
  {}

  lemma AttachKeepsLog(env: Inputs, s: State, a: Action)
    requires LegFits(env, s) && LogFits(env, s)
    requires Enabled(env, s, a) && (a.ParentAttaches? || a.ParentAttachesCancelled?)
    ensures LogFits(env, Apply(env, s, a))
  {
    hide NextInner, NextLeg, NextResults, Decide;
    var o := s.parent.outcome;
    if a.ParentAttaches? && env.phoenix {
      assert s.leg[0] in s.leg;
    }
    assert LegLog(env, o, NextLog(env, s, a));
  }

  lemma RecordKeepsLog(env: Inputs, s: State)
    requires LogFits(env, s) && Enabled(env, s, ParentRecords)
    ensures LogFits(env, Apply(env, s, ParentRecords))
  {
    hide NextInner, NextLeg, NextResults, Decide, LegLog;
    var t := Apply(env, s, ParentRecords);
    assert t.log[..|t.log| - 1] == s.log;
  }

  lemma CollectKeepsLog(env: Inputs, s: State, a: Action)
    requires InFlight(env, s) && LogFits(env, s) && Enabled(env, s, a)
    requires a.ParentReceives? || a.ParentTimesOut? || a.ParentDecides?
    ensures LogFits(env, Apply(env, s, a))
  {
    if a.ParentDecides? {
      DecidesOnResults(env, s);
    }
    hide NextInner, NextLeg, NextResults, InFlight, Decide;
  }

  lemma ApplyKeepsLog(env: Inputs, s: State, a: Action)
    requires InFlight(env, s) && LegFits(env, s) && LogFits(env, s) && Enabled(env, s, a)
    ensures LogFits(env, Apply(env, s, a))
  {
    hide InFlight, LegFits, Apply;
    if a.ParentRecords? {
      RecordKeepsLog(env, s);
    } else if a.ParentAttaches? || a.ParentAttachesCancelled? {
      AttachKeepsLog(env, s, a);
    } else if ByParent(a) {
      CollectKeepsLog(env, s, a);
    } else {
      OthersLeaveParent(env, s, a);
    }
  }

  lemma {:induction false} RunKeepsInv(env: Inputs, run: seq<State>, actions: seq<Action>, n: nat)
    requires IsRun(env, run, actions) && n < |run|
    ensures Inv(env, run[n])
  {
    if n > 0 {
      hide Inv, Apply, Enabled;
      RunKeepsInv(env, run, actions, n - 1);
      ApplyKeepsInv(env, run[n - 1], actions[n - 1]);
    }
  }

  // ---- What every schedule guarantees ------------------------------------------------------

  /** No send ever finds its channel full: every goroutine about to send can. */
  lemma NoSendBlocks(env: Inputs, run: seq<State>, actions: seq<Action>, n: nat)
    requires IsRun(env, run, actions) && n < |run|
    ensures var s := run[n];
            && (!s.esSent ==> Enabled(env, s, ElasticSends))
            && (!s.dtSent ==> Enabled(env, s, DynatraceSends))
            && (env.phoenix && !s.querySent ==> Enabled(env, s, QueryReturns))
            && (env.phoenix && !s.watcherSent && s.inner != [] ==> Enabled(env, s, WatcherForwards))
            && (env.phoenix && !s.watcherSent && s.budget ==> Enabled(env, s, WatcherGivesUp))
  {
    RunKeepsInv(env, run, actions, n);
  }

  /** Unless the deadline branch was taken, the outcome depends on the two results only, not on who came first. */
  lemma OutcomeIsTheResults(env: Inputs, run: seq<State>, actions: seq<Action>, n: nat)
    requires IsRun(env, run, actions) && n < |run| && run[n].parent.Done?
    requires ParentTimesOut !in actions[..n]
    ensures run[n].parent.outcome == Decide(env.es, env.dt)
    ensures env.es.EsError? ==> run[n].parent.outcome == Failed(ElasticFailed)
    ensures env.es.Contract? && env.dt.HardError? ==> run[n].parent.outcome == Failed(DynatraceFailed)
    ensures env.es.Contract? && env.dt.SoftError? ==> run[n].parent.outcome == Degraded
    ensures env.es.Contract? && env.dt.Health? ==> run[n].parent.outcome == Diagnosed
  {
    RunKeepsInv(env, run, actions, n);
    NotTimedOut(env, run, actions, n);
  }

  lemma {:induction false} NotTimedOut(env: Inputs, run: seq<State>, actions: seq<Action>, n: nat)
    requires IsRun(env, run, actions) && n < |run| && ParentTimesOut !in actions[..n]
    ensures !run[n].parent.Collecting? ==> run[n].parent.outcome != Failed(Timeout)
  {
    if n > 0 {
      hide Apply, Enabled;
      assert actions[..n] == actions[..n - 1] + [actions[n - 1]];
      NotTimedOut(env, run, actions, n - 1);
      StepNotTimedOut(env, run[n - 1], actions[n - 1]);
    }
  }

  lemma StepNotTimedOut(env: Inputs, s: State, a: Action)
    requires Enabled(env, s, a) && a != ParentTimesOut
    requires !s.parent.Collecting? ==> s.parent.outcome != Failed(Timeout)
    ensures var p := Apply(env, s, a).parent; !p.Collecting? ==> p.outcome != Failed(Timeout)
  {
    hide NextInner, NextLeg, NextLog, NextResults;
  }

  /** A context is over only when its own timer has fired, or the caller has cancelled. */
  predicate OverBy(s: State, past: seq<Action>) {
    && (s.deadline ==> DeadlineFires in past || ContextCancelled in past)
    && (s.budget ==> BudgetFires in past || ContextCancelled in past)
    && (s.cancelled ==> ContextCancelled in past)
  }

  lemma {:induction false} ContextsEndByTimers(env: Inputs, run: seq<State>, actions: seq<Action>, n: nat)
    requires IsRun(env, run, actions) && n < |run|
    ensures OverBy(run[n], actions[..n])
  {
    if n > 0 {
      hide Enabled, NextInner, NextLeg, NextLog, NextParent, NextResults;
      assert actions[..n] == actions[..n - 1] + [actions[n - 1]];
      ContextsEndByTimers(env, run, actions, n - 1);
      assert run[n - 1 + 1] == Apply(env, run[n - 1], actions[n - 1]);
    }
  }

  /**
   * The collector times out, the watcher gives up, and the wait for the leg is cut short only
   * after the event that allows it.
   */
  lemma TimeoutsNeedTheirTimer(env: Inputs, run: seq<State>, actions: seq<Action>, n: nat)
    requires IsRun(env, run, actions) && n < |actions|
    ensures actions[n] == ParentTimesOut ==> DeadlineFires in actions[..n] || ContextCancelled in actions[..n]
    ensures actions[n] == WatcherGivesUp ==> BudgetFires in actions[..n] || ContextCancelled in actions[..n]
    ensures actions[n] == ParentAttachesCancelled ==> ContextCancelled in actions[..n]
  {
    hide Apply;
    ContextsEndByTimers(env, run, actions, n);
  }

  predicate IsDiagnosis(r: Record) {
    r == DiagnosisOk || r == DiagnosisDegraded || r == DiagnosisFailed
  }

  /**
   * The ledger trace of a finished run: exactly one DIAGNOSIS record, last; before it one
   * PHOENIX record exactly when the leg is wired and the diagnosis did not fail.
   */
  lemma FinishedTrace(env: Inputs, run: seq<State>, actions: seq<Action>, n: nat)
    requires IsRun(env, run, actions) && n < |run| && run[n].parent.Done?
    ensures var s := run[n];
            && (forall k :: 0 <= k < |s.log| ==> (IsDiagnosis(s.log[k]) <==> k == |s.log| - 1))
            && |s.log| == (if env.phoenix && !s.parent.outcome.Failed? then 2 else 1)
            && s.log[|s.log| - 1] == RecordOf(s.parent.outcome)
            && (s.parent.outcome == Diagnosed <==> s.log[|s.log| - 1] == DiagnosisOk)
            && (s.parent.outcome == Degraded <==> s.log[|s.log| - 1] == DiagnosisDegraded)
            && (s.parent.outcome.Failed? <==> s.log[|s.log| - 1] == DiagnosisFailed)
            && (s.log[0] == PhoenixHistoryOk ==> env.query == History)
  {
    RunKeepsInv(env, run, actions, n);
    var s := run[n];
    assert s.log == s.log[..|s.log| - 1] + [s.log[|s.log| - 1]];
  }

  // ---- A query that never returns cannot block the run --------------------------------------

  /** Steps the collector and the watcher still have to take. */
  function Rank(env: Inputs, s: State): (r: nat)
    ensures r <= 7
  {
    (match s.parent
     case Collecting(n, _, _) => if n < 2 then 6 - n else 4
     case Attaching(_) => 3
     case Recording(_) => 1
     case Done(_) => 0)
    + (if env.phoenix && !s.watcherSent then 1 else 0)
  }

  /** Steps of the collector and of the watcher: none of them waits for a lookup or the Phoenix query to return. */
  predicate Independent(a: Action) {
    a.WatcherForwards? || a.WatcherGivesUp? || a.ParentReceives? || a.ParentTimesOut? || a.ParentDecides?
    || a.ParentAttaches? || a.ParentAttachesCancelled? || a.ParentRecords?
  }

  /** Once the timers have fired, an unfinished state has an independent step. */
  lemma TimersUnblock(env: Inputs, s: State) returns (a: Action)
    requires Inv(env, s) && s.deadline && s.budget && !s.parent.Done?
    ensures Independent(a) && Enabled(env, s, a)
  {
    match s.parent
    case Collecting(k, _, _) => a := if k < 2 then ParentTimesOut else ParentDecides;
    case Attaching(_) => a := if !env.phoenix || s.leg != [] then ParentAttaches else WatcherGivesUp;
    case Recording(_) => a := ParentRecords;
  }

  /** Every independent step brings the end nearer, and the other steps do not push it away. */
  lemma IndependentStepsEnd(env: Inputs, s: State, a: Action)
    requires Enabled(env, s, a)
    ensures Independent(a) ==> Rank(env, Apply(env, s, a)) < Rank(env, s)
    ensures Rank(env, Apply(env, s, a)) <= Rank(env, s)
  {
    hide NextInner, NextLeg, NextLog, NextResults;
  }

  /**
   * After the timers have fired, the collector and the watcher alone finish the run within
   * `Rank` steps (at most seven), whatever the lookups and the Phoenix query do not do.
   */
  lemma {:induction false} FinishesWithoutQuery(env: Inputs, run: seq<State>, actions: seq<Action>)
      returns (longer: seq<State>, more: seq<Action>)
    requires IsRun(env, run, actions)
    requires run[|run| - 1].deadline && run[|run| - 1].budget
    ensures IsRun(env, longer, actions + more)
    ensures |more| <= Rank(env, run[|run| - 1])
    ensures forall a <- more :: Independent(a)
    ensures longer[|longer| - 1].parent.Done?
    decreases Rank(env, run[|run| - 1])
  {
    var s := run[|run| - 1];
    if s.parent.Done? {
      longer, more := run, [];
      assert actions + more == actions;
    } else {
      hide Apply, Enabled, IsRun, Rank, Independent, Inv;
      RunKeepsInv(env, run, actions, |run| - 1);
      var a := TimersUnblock(env, s);
      var t := Apply(env, s, a);
      IndependentStepsEnd(env, s, a);
      TimersStay(env, s, a);
      ExtendRun(env, run, actions, a);
      var rest: seq<Action>;
      longer, rest := FinishesWithoutQuery(env, run + [t], actions + [a]);
      more := [a] + rest;
      assert actions + more == actions + [a] + rest;
    }
  }

  lemma TimersStay(env: Inputs, s: State, a: Action)
    requires Enabled(env, s, a) && s.deadline && s.budget
    ensures Apply(env, s, a).deadline && Apply(env, s, a).budget
  {
    hide Enabled;
  }

  lemma ExtendRun(env: Inputs, run: seq<State>, actions: seq<Action>, a: Action)
    requires IsRun(env, run, actions) && Enabled(env, run[|run| - 1], a)
    ensures IsRun(env, run + [Apply(env, run[|run| - 1], a)], actions + [a])
  {
    hide Apply, Enabled;
  }

  // ---- The result crosses a checked boundary ------------------------------------------------

  datatype Diagnosis = Diagnosis(hasContract: bool, hasHealth: bool, degraded: bool, hasToken: bool)

  datatype ValidationError = NilContract | EmptyToken | MissingHealth

  function Validate(d: Diagnosis): Option<ValidationError> {
    if !d.hasContract then Some(NilContract)
    else if !d.hasToken then Some(EmptyToken)
    else if !d.degraded && !d.hasHealth then Some(MissingHealth)
    else None
  }

  /** What `Diagnose` hands on when it returns no error. */
  function ResultOf(es: EsResult, dt: DtResult, hasToken: bool): Diagnosis {
    Diagnosis(es.Contract? && es.present, dt.Health? && dt.present, dt.SoftError?, hasToken)
  }

  /** A returned diagnosis passes the boundary check exactly when both lookups really delivered what they reported. */
  lemma ValidExactly(es: EsResult, dt: DtResult, hasToken: bool)
    ensures !Decide(es, dt).Failed? && Validate(ResultOf(es, dt, hasToken)) == None
            <==> es == Contract(true) && hasToken && (dt == Health(true) || dt == SoftError)
  {}

  /** Which of the three faults is reported: the contract first, then the token, then the telemetry. */
  lemma FaultsExactly(d: Diagnosis)
    ensures var r := Validate(d);
            && (r == Some(NilContract) <==> !d.hasContract)
            && (r == Some(EmptyToken) <==> d.hasContract && !d.hasToken)
            && (r == Some(MissingHealth) <==> d.hasContract && d.hasToken && !d.degraded && !d.hasHealth)
  {}
}

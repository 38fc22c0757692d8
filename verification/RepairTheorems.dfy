/** What every run of the repair loop guarantees, for any iteration limit and any behaviour of its surroundings. */
module RepairTheorems {
  import opened Wrappers
  import opened GoBytes
  import opened Repair

  /** How iteration `i` ends, when the run gets that far. */
  function EndingAt(w: World, i: nat): Option<Ending> {
    match After(w, i)
    case Running(l, _) => Some(Iterate(w, i, l.feedback))
    case Stopped(_, _) => None
  }

  /** Iteration `i` took place, read its source and asked Gemini. */
  predicate Asked(w: World, i: nat) {
    After(w, i).Running? && w.read(i).Some?
  }

  /** What Gemini answered to the prompt of iteration `i`. */
  function AnswerAt(w: World, i: nat): Option<Response>
    requires Asked(w, i)
  {
    w.generate(i, w.read(i).value, After(w, i).loop.feedback)
  }

  /** Iteration `i` got no answer, or one that does not parse as a diff, or one with no file in it. */
  predicate EndedEmpty(w: World, i: nat) {
    && Asked(w, i)
    && match AnswerAt(w, i)
       case None => true
       case Some(answer) =>
         var files := w.parse(ExtractDiff(answer.parts));
         files.None? || files.value == []
  }

  lemma EmptyEnding(w: World, i: nat)
    ensures EndedEmpty(w, i) <==> EndingAt(w, i).Some? && EndingAt(w, i).value.Empty?
  {
    hide After, ExtractDiff, StructuralFault;
  }

  function Attempts(trace: seq<Record>): nat {
    if trace == [] then 0
    else Attempts(trace[..|trace| - 1]) + (if trace[|trace| - 1].Attempt? then 1 else 0)
  }

  /** Iterations before `n` that ended empty. */
  function Empties(w: World, n: nat): nat {
    if n == 0 then 0 else Empties(w, n - 1) + (if EndedEmpty(w, n - 1) then 1 else 0)
  }

  lemma {:induction false} AttemptsAppend(a: seq<Record>, b: seq<Record>)
    ensures Attempts(a + b) == Attempts(a) + Attempts(b)
    decreases |b|
  {
    if b == [] {
      assert a + b == a;
    } else {
      var n := |b| - 1;
      AttemptsAppend(a, b[..n]);
      assert (a + b)[..|a + b| - 1] == a + b[..n];
    }
  }

  lemma RecordsShape(i: nat, e: Ending)
    ensures var rs := Records(i, e);
            && Attempts(rs) <= 1
            && 1 <= |rs| <= 2
            && (rs[|rs| - 1].Approved? <==> e.Won?)
            && (forall k :: 0 <= k < |rs| - 1 ==> !rs[k].Approved?)
  {
    var rs := Records(i, e);
    AttemptsOne(rs[|rs| - 1]);
    AttemptsOne(Attempt(i));
    if |rs| == 2 {
      AttemptsAppend([rs[0]], [rs[1]]);
      assert rs == [rs[0]] + [rs[1]];
    } else {
      assert rs == [rs[0]];
    }
  }

  lemma AttemptsOne(r: Record)
    ensures Attempts([r]) == if r.Attempt? then 1 else 0
  {
    assert [r][..0] == [];
  }

  /** What holds after `n` iterations. */
  predicate LoopInv(w: World, n: nat) {
    var p := After(w, n);
    && Attempts(p.trace) <= n
    && (p.Running? ==>
          && p.loop.emptyCount == (if n > 0 && EndedEmpty(w, n - 1) then 1 else 0)
          && (forall k :: 0 <= k < |p.trace| ==> !p.trace[k].Approved?)
          && 2 * Empties(w, n) <= n + p.loop.emptyCount)
  }

  lemma {:induction false} LoopKeepsInv(w: World, n: nat)
    ensures LoopInv(w, n)
  {
    if n > 0 {
      LoopKeepsInv(w, n - 1);
      LoopStep(w, n - 1);
    }
  }

  lemma LoopStep(w: World, n: nat)
    requires LoopInv(w, n)
    ensures LoopInv(w, n + 1)
  {
    hide Iterate, Records, Attempts, EndedEmpty;
    EmptyEnding(w, n);
    var p := After(w, n);
    if p.Running? {
      var e := Iterate(w, n, p.loop.feedback);
      RecordsShape(n, e);
      AttemptsAppend(p.trace, Records(n, e));
      NoneApproved(p.trace, Records(n, e));
    }
  }

  lemma NoneApproved(a: seq<Record>, b: seq<Record>)
    requires forall k :: 0 <= k < |a| ==> !a[k].Approved?
    requires forall k :: 0 <= k < |b| - 1 ==> !b[k].Approved?
    ensures b == [] || !b[|b| - 1].Approved? ==> forall k :: 0 <= k < |a + b| ==> !(a + b)[k].Approved?
    ensures forall k :: 0 <= k < |a + b| - 1 && b != [] ==> !(a + b)[k].Approved?
  {}

  lemma RunningBefore(w: World, i: nat, n: nat)
    requires i <= n && After(w, n).Running?
    ensures After(w, i).Running?
  {
    hide After;
    if After(w, i).Stopped? {
      StoppedStays(w, i, n);
    }
  }

  /** The iteration that stopped the run. */
  lemma {:induction false} StoppingIteration(w: World, n: nat) returns (i: nat)
    requires After(w, n).Stopped?
    ensures i < n && After(w, i).Running? && After(w, i + 1) == After(w, n)
  {
    hide After;
    if n == 0 {
      AfterNone(w);
    } else if After(w, n - 1).Running? {
      i := n - 1;
    } else {
      TurnStopped(w, n - 1);
      i := StoppingIteration(w, n - 1);
    }
  }

  /** At most the allowed number of attempts is made. */
  lemma AttemptsAreBounded(w: World, maxIterations: int)
    ensures Attempts(Outcome(w, maxIterations).1) <= Iterations(maxIterations)
  {
    var n := Iterations(maxIterations);
    LoopKeepsInv(w, n);
    var p := After(w, n);
    if p.Running? {
      var last := [Rejected(maxIterations - 1, Reason.MaxIterations, p.loop.lastThought)];
      AttemptsAppend(p.trace, last);
      AttemptsOne(last[0]);
    }
  }

  /** A success is the last iteration's own: read, generated, checked and applied in that iteration. */
  ghost predicate WonAt(w: World, i: nat, s: Success) {
    && After(w, i).Running?
    && w.read(i) == Some(s.orig)
    && var resp := w.generate(i, s.orig, After(w, i).loop.feedback);
    && resp.Some? && s.patchDiff == ExtractDiff(resp.value.parts) && s.thought == resp.value.thought
    && w.parse(s.patchDiff).Some? && w.parse(s.patchDiff).value != []
    && StructuralFault(w.parse(s.patchDiff).value) == None
    && w.apply(s.orig, s.patchDiff) == Some(s.patched)
    && s.iterations == i + 1
  }

  /**
   * Success if and only if the last record is REPAIR_APPROVED, the only one of its kind; and then
   * the patched bytes are the diff applied to the source read in that same iteration.
   */
  lemma SuccessExactly(w: World, maxIterations: int)
    ensures var (r, trace) := Outcome(w, maxIterations);
            && (r.Ok? <==> trace != [] && trace[|trace| - 1].Approved?)
            && (forall k :: 0 <= k < |trace| - 1 ==> !trace[k].Approved?)
            && (r.Ok? ==>
                  && 1 <= r.value.iterations <= maxIterations
                  && WonAt(w, r.value.iterations - 1, r.value)
                  && trace[|trace| - 1] == Approved(r.value.iterations - 1, r.value.thought))
  {
    hide Iterate, Turn, After, WonAt;
    var n := Iterations(maxIterations);
    var p := After(w, n);
    if p.Running? {
      LoopKeepsInv(w, n);
    } else {
      var i := StoppingIteration(w, n);
      StoppedAt(w, i);
    }
  }

  lemma StoppedAt(w: World, i: nat)
    requires After(w, i).Running? && After(w, i + 1).Stopped?
    ensures var p := After(w, i + 1);
            && p.trace != []
            && (p.result.Ok? <==> p.trace[|p.trace| - 1].Approved?)
            && (forall k :: 0 <= k < |p.trace| - 1 ==> !p.trace[k].Approved?)
            && (p.result.Ok? ==>
                  && p.result.value.iterations == i + 1
                  && WonAt(w, i, p.result.value)
                  && p.trace[|p.trace| - 1] == Approved(i, p.result.value.thought))
  {
    var q := After(w, i);
    var e := Iterate(w, i, q.loop.feedback);
    LoopKeepsInv(w, i);
    RecordsShape(i, e);
    NoneApproved(q.trace, Records(i, e));
    WonFacts(w, i, q.loop.feedback);
    hide Iterate, LoopInv;
    var rs := Records(i, e);
    assert (q.trace + rs)[|q.trace + rs| - 1] == rs[|rs| - 1];
  }

  lemma WonFacts(w: World, i: nat, feedback: Feedback)
    ensures var e := Iterate(w, i, feedback);
            e.Won? && After(w, i).Running? && After(w, i).loop.feedback == feedback ==> WonAt(w, i, e.result)
  {
    hide After, ExtractDiff, StructuralFault;
  }

  /** ErrTwoConsecutiveEmpty if and only if two adjacent iterations ended empty. */
  lemma TwoEmptyExactly(w: World, maxIterations: int)
    ensures Outcome(w, maxIterations).0 == Err(TwoConsecutiveEmpty)
            <==> exists i :: 0 < i < maxIterations && EndedEmpty(w, i - 1) && EndedEmpty(w, i)
  {
    hide After, EndedEmpty;
    var n := Iterations(maxIterations);
    if After(w, n).Stopped? {
      var i := StoppingIteration(w, n);
      StopsOnEmpty(w, i);
    }
    forall i | 0 < i < maxIterations && EndedEmpty(w, i - 1) && EndedEmpty(w, i)
      ensures After(w, n) == After(w, i + 1) && After(w, n).Stopped? && After(w, n).result == Err(TwoConsecutiveEmpty)
    {
      StopsOnEmpty(w, i);
      StoppedStays(w, i + 1, n);
    }
  }

  lemma StopsOnEmpty(w: World, i: nat)
    ensures i > 0 && EndedEmpty(w, i - 1) && EndedEmpty(w, i)
            <==> After(w, i).Running? && After(w, i + 1).Stopped? && After(w, i + 1).result == Err(TwoConsecutiveEmpty)
  {
    hide Iterate, Records, Attempts, EndedEmpty;
    EmptyEnding(w, i);
    LoopKeepsInv(w, i);
  }

  /** Iteration `i` got a diff with files in it, which the structural checks or the applier refused. */
  predicate WasRefused(w: World, i: nat) {
    && Asked(w, i) && AnswerAt(w, i).Some?
    && var diff := ExtractDiff(AnswerAt(w, i).value.parts);
    && w.parse(diff).Some? && w.parse(diff).value != []
    && (StructuralFault(w.parse(diff).value).Some? || w.apply(w.read(i).value, diff).None?)
  }

  lemma RefusedEnding(w: World, i: nat)
    ensures WasRefused(w, i) <==> EndingAt(w, i).Some? && EndingAt(w, i).value.Refused?
  {
    hide After, ExtractDiff, StructuralFault;
  }

  /** A run that uses up its iterations had every one empty or refused, and at most half of them, rounded up, empty. */
  lemma ExhaustedRunsAreMostlyAnswered(w: World, maxIterations: int)
    requires Outcome(w, maxIterations).0 == Err(MaxIterationsExceeded)
    ensures var n := Iterations(maxIterations);
            && Empties(w, n) <= (n + 1) / 2
            && (forall i :: 0 <= i < n ==> EndedEmpty(w, i) || WasRefused(w, i))
  {
    hide Iterate, Turn, EndedEmpty, WasRefused;
    var n := Iterations(maxIterations);
    LoopKeepsInv(w, n);
    ExhaustedIsRunning(w, n);
    forall i | 0 <= i < n ensures EndedEmpty(w, i) || WasRefused(w, i) {
      RunningBefore(w, i, n);
      RunningBefore(w, i + 1, n);
      GoesOn(w, i);
      EmptyEnding(w, i);
      RefusedEnding(w, i);
    }
  }

  lemma {:induction false} ExhaustedIsRunning(w: World, n: nat)
    ensures After(w, n).Stopped? ==> After(w, n).result != Err(MaxIterationsExceeded)
  {
    if n > 0 {
      hide Iterate;
      ExhaustedIsRunning(w, n - 1);
    }
  }

  /** An iteration after which the loop goes on got no usable answer or refused it. */
  lemma GoesOn(w: World, i: nat)
    requires After(w, i).Running? && After(w, i + 1).Running?
    ensures EndingAt(w, i).Some? && (EndingAt(w, i).value.Empty? || EndingAt(w, i).value.Refused?)
  {
    hide Iterate;
  }

  // ---- Each iteration, from what its surroundings answered ---------------------------------

  /** What iteration `i` leaves behind, by what the target, Gemini, the parser, the checks and the applier said. */
  ghost predicate Leaves(w: World, i: nat, rs: seq<Record>, result: Option<Result<Success, RepairError>>)
    requires After(w, i).Running?
  {
    if w.read(i).None? then
      rs == [Rejected(i, TargetReadError, [])] && result == Some(Err(ReadTarget))
    else if AnswerAt(w, i).None? then
      rs == [Attempt(i), Rejected(i, GeminiError, [])] && result in EmptyResult(w, i)
    else
      var orig, answer := w.read(i).value, AnswerAt(w, i).value;
      var diff := ExtractDiff(answer.parts);
      var files := w.parse(diff);
      if files.None? then
        rs == [Attempt(i), Rejected(i, ParseError, answer.thought)] && result in EmptyResult(w, i)
      else if files.value == [] then
        rs == [Attempt(i), Rejected(i, NoHunks, answer.thought)] && result in EmptyResult(w, i)
      else if StructuralFault(files.value).Some? then
        rs == [Attempt(i), Rejected(i, Fault(StructuralFault(files.value).value), answer.thought)] && result == None
      else if w.apply(orig, diff).None? then
        rs == [Attempt(i), Rejected(i, ApplyConflict, answer.thought)] && result == None
      else
        && rs == [Attempt(i), Approved(i, answer.thought)]
        && result == Some(Ok(Success(diff, w.apply(orig, diff).value, orig, i + 1, answer.thought)))
  }

  /** An empty iteration ends the run when the one before it was empty too. */
  function EmptyResult(w: World, i: nat): set<Option<Result<Success, RepairError>>> {
    if i > 0 && EndedEmpty(w, i - 1) then {Some(Err(TwoConsecutiveEmpty))} else {None}
  }

  /** Every iteration is decided by its surroundings alone: its records, and whether and how it ends the run. */
  lemma IterationIsDecided(w: World, i: nat) returns (rs: seq<Record>, result: Option<Result<Success, RepairError>>)
    requires After(w, i).Running?
    ensures Leaves(w, i, rs, result)
    ensures After(w, i + 1).trace == After(w, i).trace + rs
    ensures result.Some? ==> After(w, i + 1).Stopped? && After(w, i + 1).result == result.value
    ensures result.None? ==> After(w, i + 1).Running?
  {
    hide ExtractDiff, StructuralFault, EndedEmpty, Attempts, Empties;
    LoopKeepsInv(w, i);
    var p := After(w, i);
    var e := Iterate(w, i, p.loop.feedback);
    rs := Records(i, e);
    var q := After(w, i + 1);
    assert q == Turn(w, i, p);
    hide After;
    result := if q.Stopped? then Some(q.result) else None;
  }

  /** The next prompt is told why the last diff was refused. */
  predicate Tells(feedback: Feedback, reason: Reason) {
    match reason
    case GeminiError => feedback == GeminiFailed
    case ParseError => feedback == ParseFailure
    case NoHunks => feedback == NoHunksFound
    case Fault(f) => feedback == RejectedFor(f)
    case ApplyConflict => feedback == FailedToApply
    case TargetReadError => false
    case MaxIterations => false
  }

  /** The first prompt carries no feedback; every later one the reason of the rejection just recorded. */
  lemma FeedbackIsLastRejection(w: World, i: nat)
    requires After(w, i).Running?
    ensures i == 0 ==> After(w, i).loop.feedback == NoFeedback && After(w, i).trace == []
    ensures i > 0 ==>
              var t := After(w, i).trace;
              && t != [] && t[|t| - 1].Rejected? && t[|t| - 1].iteration == i - 1
              && Tells(After(w, i).loop.feedback, t[|t| - 1].reason)
  {
    hide ExtractDiff, StructuralFault;
  }

  /** The thought of the last iteration before `n` that Gemini answered. */
  function LastThought(w: World, n: nat): Bytes {
    if n == 0 then []
    else if Asked(w, n - 1) && AnswerAt(w, n - 1).Some? then AnswerAt(w, n - 1).value.thought
    else LastThought(w, n - 1)
  }

  lemma ThoughtStep(w: World, i: nat)
    requires After(w, i).Running? && After(w, i + 1).Running?
    ensures After(w, i + 1).loop.lastThought
            == if w.read(i).Some? && AnswerAt(w, i).Some? then AnswerAt(w, i).value.thought
               else After(w, i).loop.lastThought
  {
    hide ExtractDiff, StructuralFault, Records, After;
    AfterOne(w, i);
  }

  lemma {:induction false} ThoughtIsLast(w: World, n: nat)
    requires After(w, n).Running?
    ensures After(w, n).loop.lastThought == LastThought(w, n)
  {
    hide After, AnswerAt;
    if n == 0 {
      AfterNone(w);
    } else {
      RunningBefore(w, n - 1, n);
      ThoughtIsLast(w, n - 1);
      ThoughtStep(w, n - 1);
    }
  }

  /** A run out of iterations records so once, last, under its last iteration's number and with the last thought. */
  lemma ExhaustionIsRecorded(w: World, maxIterations: int)
    requires Outcome(w, maxIterations).0 == Err(MaxIterationsExceeded)
    ensures var trace, n := Outcome(w, maxIterations).1, Iterations(maxIterations);
            && trace == After(w, n).trace + [Rejected(maxIterations - 1, Reason.MaxIterations, LastThought(w, n))]
            && After(w, n).Running?
  {
    hide Iterate, Turn, After, LastThought;
    var n := Iterations(maxIterations);
    ExhaustedIsRunning(w, n);
    if After(w, n).Running? {
      ThoughtIsLast(w, n);
    }
  }
}

/**
 * The evaluate gate and its deduplication of rejected diffs (internal/evaluate/gate.go):
 * one call on its own, and any number of calls interleaved at their atomic steps.
 */
module Gate {
  import opened Wrappers
  import opened GoBytes
  import opened Audit
  import opened Signatures

  datatype Env = Env(parse: Parser, sha: Bytes -> Digest)

  datatype Verdict = Allow | Block

  /** A gate call's visible effects: two ledger records and the call to the Elastic index. */
  datatype Event =
    | LocalBlock(call: nat, diff: Digest)
    | EvaluatePass(call: nat, diff: Digest)
    | IndexCall(call: nat, diff: Digest)

  datatype Answer = Answer(verdict: Verdict, deduplicated: bool)

  /** Where a call stands between its atomic steps. `Returned` may leave the indexing goroutine to run. */
  datatype Pc =
    | Start
    | Checked
    | Stored
    | Audited
    | Returned(answer: Answer, indexing: bool)

  datatype Call = Call(orig: Bytes, patched: Bytes, diff: Bytes, pc: Pc)

  datatype State = State(dedup: set<Digest>, calls: seq<Call>, log: seq<Event>)

  function Sha(env: Env, s: State, i: nat): Digest
    requires i < |s.calls|
  {
    env.sha(s.calls[i].diff)
  }

  function At(s: State, i: nat, pc: Pc): (r: State)
    requires i < |s.calls|
    ensures |r.calls| == |s.calls|
  {
    s.(calls := s.calls[i := s.calls[i].(pc := pc)])
  }

  /** The next atomic step of call `i`: a map operation, a record written, a goroutine's call. */
  function Next(env: Env, s: State, i: nat): (r: State)
    requires i < |s.calls|
    ensures |r.calls| == |s.calls|
  {
    var c, h := s.calls[i], Sha(env, s, i);
    match c.pc
    case Start =>  // dedup.Load
      At(s, i, if h in s.dedup then Returned(Answer(Block, true), false) else Checked)
    case Checked =>
      if Allowed(env.parse, c.orig, c.patched) then
        At(s, i, Returned(Answer(Allow, false), false)).(log := s.log + [EvaluatePass(i, h)])
      else if h in s.dedup then  // dedup.LoadOrStore
        At(s, i, Returned(Answer(Block, true), false))
      else
        At(s, i, Stored).(dedup := s.dedup + {h})
    case Stored =>
      At(s, i, Audited).(log := s.log + [LocalBlock(i, h)])
    case Audited =>
      At(s, i, Returned(Answer(Block, false), true))
    case Returned(a, indexing) =>
      if indexing then At(s, i, Returned(a, false)).(log := s.log + [IndexCall(i, h)]) else s
  }

  /** A further call of `Evaluate` begins. */
  function Arrive(s: State, orig: Bytes, patched: Bytes, diff: Bytes): State {
    s.(calls := s.calls + [Call(orig, patched, diff, Start)])
  }

  /** A run: calls arrive and advance in any order. */
  ghost predicate IsRun(env: Env, run: seq<State>) {
    && run != []
    && run[0] == State({}, [], [])
    && (forall n :: 0 <= n < |run| - 1 ==> Moves(env, run[n], run[n + 1]))
  }

  ghost predicate Moves(env: Env, s: State, t: State) {
    || (exists i :: 0 <= i < |s.calls| && t == Next(env, s, i))
    || (exists orig, patched, diff :: t == Arrive(s, orig, patched, diff))
  }

  // ---- The invariant ---------------------------------------------------------------------

  /** The call whose store of the hash succeeded. */
  predicate Won(pc: Pc) {
    pc == Stored || pc == Audited || (pc.Returned? && pc.answer == Answer(Block, false))
  }

  predicate Blocked(pc: Pc) {
    Won(pc) && pc != Stored
  }

  predicate Indexed(pc: Pc) {
    pc == Returned(Answer(Block, false), false)
  }

  predicate EventFits(env: Env, s: State, e: Event) {
    && e.call < |s.calls|
    && e.diff == Sha(env, s, e.call)
    && var pc := s.calls[e.call].pc;
    match e
    case LocalBlock(_, _) => Blocked(pc)
    case EvaluatePass(_, _) => pc == Returned(Answer(Allow, false), false)
    case IndexCall(_, _) => Indexed(pc)
  }

  /** The records call `i` has left. */
  predicate CallFits(env: Env, s: State, i: nat)
    requires i < |s.calls|
  {
    var c, h := s.calls[i], Sha(env, s, i);
    && (Won(c.pc) ==> h in s.dedup && !Allowed(env.parse, c.orig, c.patched))
    && (c.pc.Returned? && c.pc.answer.verdict == Block ==> h in s.dedup)
    && (Blocked(c.pc) ==> LocalBlock(i, h) in s.log)
    && (Indexed(c.pc) ==> IndexCall(i, h) in s.log)
    && (c.pc.Returned? && c.pc.answer.verdict == Allow ==> Allowed(env.parse, c.orig, c.patched))
    && (c.pc.Returned? && c.pc.indexing ==> Won(c.pc))
    && (c.pc.Returned? && c.pc.answer.verdict == Allow ==> !c.pc.answer.deduplicated)
  }

  ghost predicate Inv(env: Env, s: State) {
    && (forall i :: 0 <= i < |s.calls| ==> CallFits(env, s, i))
    && (forall k :: 0 <= k < |s.log| ==> EventFits(env, s, s.log[k]))
    && OneWinner(env, s)
    && StoredByWinner(env, s)
    && NoRepeats(s.log)
    && IndexAfterBlock(s.log)
  }

  predicate OneWinner(env: Env, s: State) {
    forall i, j :: 0 <= i < j < |s.calls| && Won(s.calls[i].pc) && Won(s.calls[j].pc) ==>
      Sha(env, s, i) != Sha(env, s, j)
  }

  predicate NoRepeats(log: seq<Event>) {
    forall k, l :: 0 <= k < l < |log| ==> log[k] != log[l]
  }

  predicate IndexAfterBlock(log: seq<Event>) {
    forall l :: 0 <= l < |log| && log[l].IndexCall? ==> LocalBlock(log[l].call, log[l].diff) in log[..l]
  }

  /** The record a step writes, if any. */
  function Writes(env: Env, s: State, i: nat): seq<Event>
    requires i < |s.calls|
  {
    var c, h := s.calls[i], Sha(env, s, i);
    match c.pc
    case Start => []
    case Checked => if Allowed(env.parse, c.orig, c.patched) then [EvaluatePass(i, h)] else []
    case Stored => [LocalBlock(i, h)]
    case Audited => []
    case Returned(_, indexing) => if indexing then [IndexCall(i, h)] else []
  }

  lemma NextFrame(env: Env, s: State, i: nat)
    requires i < |s.calls|
    ensures var t := Next(env, s, i);
            && t.log == s.log + Writes(env, s, i)
            && s.dedup <= t.dedup
            && (forall j :: 0 <= j < |s.calls| ==> Sha(env, t, j) == Sha(env, s, j))
            && (forall j :: 0 <= j < |s.calls| && j != i ==> t.calls[j] == s.calls[j])
  {
    hide Allowed;
  }

  lemma OldEventsFit(env: Env, s: State, i: nat, k: nat)
    requires Inv(env, s) && i < |s.calls| && k < |s.log|
    ensures EventFits(env, Next(env, s, i), s.log[k])
    ensures s.log[k] !in Writes(env, s, i)
  {
    hide Allowed, OneWinner, NoRepeats, IndexAfterBlock, CallFits;
    NextFrame(env, s, i);
    assert EventFits(env, s, s.log[k]);
  }

  lemma NewEventsFit(env: Env, s: State, i: nat)
    requires Inv(env, s) && i < |s.calls|
    ensures forall e <- Writes(env, s, i) :: EventFits(env, Next(env, s, i), e)
    ensures forall e <- Writes(env, s, i) :: e.IndexCall? ==> LocalBlock(e.call, e.diff) in s.log
  {
    hide Allowed, OneWinner, NoRepeats, IndexAfterBlock;
    NextFrame(env, s, i);
    assert CallFits(env, s, i);
  }

  lemma LogGrows(env: Env, s: State, i: nat)
    requires Inv(env, s) && i < |s.calls|
    ensures var t := Next(env, s, i);
            && NoRepeats(t.log) && IndexAfterBlock(t.log)
            && forall k :: 0 <= k < |t.log| ==> EventFits(env, t, t.log[k])
  {
    hide CallFits, EventFits, Next, OneWinner;
    var t, w := Next(env, s, i), Writes(env, s, i);
    NextFrame(env, s, i);
    NewEventsFit(env, s, i);
    forall k | 0 <= k < |s.log| ensures EventFits(env, t, s.log[k]) && s.log[k] !in w {
      OldEventsFit(env, s, i, k);
    }
    forall k | 0 <= k < |t.log| ensures EventFits(env, t, t.log[k]) {
      assert k >= |s.log| ==> t.log[k] == w[k - |s.log|];
    }
    AppendLog(s.log, w);
  }

  lemma AppendLog(log: seq<Event>, w: seq<Event>)
    requires NoRepeats(log) && IndexAfterBlock(log) && |w| <= 1
    requires forall k :: 0 <= k < |log| ==> log[k] !in w
    requires forall e <- w :: e.IndexCall? ==> LocalBlock(e.call, e.diff) in log
    ensures NoRepeats(log + w) && IndexAfterBlock(log + w)
  {
    forall l | 0 <= l < |log + w| && (log + w)[l].IndexCall?
      ensures LocalBlock((log + w)[l].call, (log + w)[l].diff) in (log + w)[..l]
    {
      if l < |log| {
        assert (log + w)[..l] == log[..l];
      } else {
        assert (log + w)[l] == w[0] && (log + w)[..l] == log;
      }
    }
  }

  lemma CallsFit(env: Env, s: State, i: nat)
    requires Inv(env, s) && i < |s.calls|
    ensures var t := Next(env, s, i);
            forall j :: 0 <= j < |t.calls| ==> CallFits(env, t, j)
  {
    hide Allowed, OneWinner, NoRepeats, IndexAfterBlock, EventFits;
    var t := Next(env, s, i);
    NextFrame(env, s, i);
    forall j | 0 <= j < |t.calls| ensures CallFits(env, t, j) {
      assert CallFits(env, s, j);
    }
  }

  /** Who may win in this step: the caller, on a hash not stored before. */
  lemma WinnersAre(env: Env, s: State, i: nat)
    requires i < |s.calls|
    ensures var t := Next(env, s, i);
            && (Won(s.calls[i].pc) ==> Won(t.calls[i].pc))
            && (Won(t.calls[i].pc) ==>
                  || (Won(s.calls[i].pc) && t.dedup == s.dedup)
                  || (Sha(env, s, i) !in s.dedup && t.dedup == s.dedup + {Sha(env, s, i)}))
            && (!Won(t.calls[i].pc) ==> t.dedup == s.dedup)
  {
    hide Allowed;
  }

  /** Every stored hash was stored by a call. */
  ghost predicate StoredByWinner(env: Env, s: State) {
    forall h <- s.dedup :: exists i :: 0 <= i < |s.calls| && Won(s.calls[i].pc) && Sha(env, s, i) == h
  }

  lemma OneWinnerStays(env: Env, s: State, i: nat)
    requires Inv(env, s) && i < |s.calls|
    ensures OneWinner(env, Next(env, s, i))
  {
    hide Allowed, NoRepeats, IndexAfterBlock, EventFits, StoredByWinner;
    var t := Next(env, s, i);
    NextFrame(env, s, i);
    WinnersAre(env, s, i);
    forall j | 0 <= j < |s.calls| && Won(s.calls[j].pc) ensures Sha(env, s, j) in s.dedup {
      assert CallFits(env, s, j);
    }
    hide Next, CallFits, Won;
  }

  lemma StoredStays(env: Env, s: State, i: nat)
    requires StoredByWinner(env, s) && i < |s.calls|
    ensures StoredByWinner(env, Next(env, s, i))
  {
    var t := Next(env, s, i);
    NextFrame(env, s, i);
    WinnersAre(env, s, i);
    hide Next, Won;
    forall h | h in t.dedup ensures exists j :: 0 <= j < |t.calls| && Won(t.calls[j].pc) && Sha(env, t, j) == h {
      if h in s.dedup {
        var j :| 0 <= j < |s.calls| && Won(s.calls[j].pc) && Sha(env, s, j) == h;
        assert Won(t.calls[j].pc) && Sha(env, t, j) == h;
      } else {
        assert Won(t.calls[i].pc) && Sha(env, t, i) == h;
      }
    }
  }

  lemma NextKeepsInv(env: Env, s: State, i: nat)
    requires Inv(env, s) && i < |s.calls|
    ensures Inv(env, Next(env, s, i))
  {
    hide CallFits, EventFits, Next, NoRepeats, IndexAfterBlock, OneWinner, StoredByWinner;
    LogGrows(env, s, i);
    CallsFit(env, s, i);
    OneWinnerStays(env, s, i);
    StoredStays(env, s, i);
  }

  lemma ArriveKeepsInv(env: Env, s: State, orig: Bytes, patched: Bytes, diff: Bytes)
    requires Inv(env, s)
    ensures Inv(env, Arrive(s, orig, patched, diff))
  {
    hide Allowed, NoRepeats, IndexAfterBlock;
    var t := Arrive(s, orig, patched, diff);
    assert forall i :: 0 <= i < |s.calls| ==> t.calls[i] == s.calls[i] && Sha(env, t, i) == Sha(env, s, i);
    forall i | 0 <= i < |t.calls| ensures CallFits(env, t, i) {
      assert i < |s.calls| ==> CallFits(env, s, i);
    }
    forall k | 0 <= k < |t.log| ensures EventFits(env, t, t.log[k]) {
      assert EventFits(env, s, s.log[k]);
    }
    forall h | h in t.dedup ensures exists i :: 0 <= i < |t.calls| && Won(t.calls[i].pc) && Sha(env, t, i) == h {
      var i :| 0 <= i < |s.calls| && Won(s.calls[i].pc) && Sha(env, s, i) == h;
      assert Won(t.calls[i].pc);
    }
  }

  lemma MoveKeepsInv(env: Env, s: State, t: State)
    requires Inv(env, s) && Moves(env, s, t)
    ensures Inv(env, t)
  {
    hide Inv, Next, Arrive;
    if i :| 0 <= i < |s.calls| && t == Next(env, s, i) {
      NextKeepsInv(env, s, i);
    } else {
      var orig, patched, diff :| t == Arrive(s, orig, patched, diff);
      ArriveKeepsInv(env, s, orig, patched, diff);
    }
  }

  lemma {:induction false} RunKeepsInv(env: Env, run: seq<State>, n: nat)
    requires IsRun(env, run) && n < |run|
    ensures Inv(env, run[n])
  {
    if n > 0 {
      hide Inv, Moves;
      RunKeepsInv(env, run, n - 1);
      assert Moves(env, run[n - 1], run[n - 1 + 1]);
      MoveKeepsInv(env, run[n - 1], run[n]);
    }
  }

  // ---- What every interleaving guarantees --------------------------------------------------

  /** Each diff hash gets at most one block record and one index call, the record first. */
  lemma OneBlockOneIndexPerDiff(env: Env, run: seq<State>, n: nat, k: nat, l: nat)
    requires IsRun(env, run) && n < |run|
    requires k < |run[n].log| && l < |run[n].log| && run[n].log[k].diff == run[n].log[l].diff
    ensures run[n].log[k].LocalBlock? && run[n].log[l].LocalBlock? ==> k == l
    ensures run[n].log[k].IndexCall? && run[n].log[l].IndexCall? ==> k == l
    ensures run[n].log[k].LocalBlock? && run[n].log[l].IndexCall? ==> k < l
    ensures run[n].log[k].call < |run[n].calls|
    ensures run[n].log[k].diff == env.sha(run[n].calls[run[n].log[k].call].diff)
  {
    var s := run[n];
    RunKeepsInv(env, run, n);
    var e, f := s.log[k], s.log[l];
    assert EventFits(env, s, e) && EventFits(env, s, f);
    if !e.EvaluatePass? && !f.EvaluatePass? {
      assert e.call == f.call;
      if e.LocalBlock? && f.IndexCall? {
        var m :| 0 <= m < l && s.log[..l][m] == LocalBlock(f.call, f.diff);
        assert s.log[m] == e;
      }
    }
  }

  /** Once every call has returned and been indexed, each rejected hash has exactly one of both. */
  lemma QuietGateRecordedEveryRejection(env: Env, run: seq<State>, n: nat, h: Digest)
    requires IsRun(env, run) && n < |run|
    requires forall i :: 0 <= i < |run[n].calls| ==> run[n].calls[i].pc.Returned? && !run[n].calls[i].pc.indexing
    ensures h in run[n].dedup <==> exists i :: LocalBlock(i, h) in run[n].log
    ensures h in run[n].dedup <==> exists i :: IndexCall(i, h) in run[n].log
  {
    var s := run[n];
    RunKeepsInv(env, run, n);
    if h in s.dedup {
      var i :| 0 <= i < |s.calls| && Won(s.calls[i].pc) && Sha(env, s, i) == h;
      assert CallFits(env, s, i);
      assert LocalBlock(i, h) in s.log && IndexCall(i, h) in s.log;
    }
    forall i | LocalBlock(i, h) in s.log || IndexCall(i, h) in s.log ensures h in s.dedup {
      var k :| 0 <= k < |s.log| && (s.log[k] == LocalBlock(i, h) || s.log[k] == IndexCall(i, h));
      assert EventFits(env, s, s.log[k]) && CallFits(env, s, i);
    }
  }

  /** A call that has not looked up its hash when the hash's block record exists returns a deduplicated BLOCK. */
  lemma {:induction false} LaterCallsAreBlocked(env: Env, run: seq<State>, a: nat, b: nat, i: nat, winner: nat)
    requires IsRun(env, run) && a <= b < |run| && i < |run[a].calls|
    requires run[a].calls[i].pc == Start && LocalBlock(winner, env.sha(run[a].calls[i].diff)) in run[a].log
    ensures i < |run[b].calls|
    ensures run[b].calls[i].pc == Start || run[b].calls[i].pc == Returned(Answer(Block, true), false)
  {
    RunKeepsInv(env, run, a);
    var k :| 0 <= k < |run[a].log| && run[a].log[k] == LocalBlock(winner, Sha(env, run[a], i));
    assert EventFits(env, run[a], run[a].log[k]) && CallFits(env, run[a], winner);
    StaysBlocked(env, run, a, b, i);
  }

  lemma {:induction false} StaysBlocked(env: Env, run: seq<State>, a: nat, b: nat, i: nat)
    requires IsRun(env, run) && a <= b < |run| && i < |run[a].calls|
    requires run[a].calls[i].pc == Start && Sha(env, run[a], i) in run[a].dedup
    ensures i < |run[b].calls| && Sha(env, run[b], i) in run[b].dedup
    ensures run[b].calls[i].pc == Start || run[b].calls[i].pc == Returned(Answer(Block, true), false)
    decreases b
  {
    if a < b {
      StaysBlocked(env, run, a, b - 1, i);
      hide Allowed;
      assert Moves(env, run[b - 1], run[b - 1 + 1]);
    }
  }

  /** Whatever runs beside it, a call answers ALLOW only for a patch the local check allows. */
  lemma AllowMeansAllowed(env: Env, run: seq<State>, n: nat, i: nat)
    requires IsRun(env, run) && n < |run| && i < |run[n].calls|
    requires run[n].calls[i].pc.Returned? && run[n].calls[i].pc.answer.verdict == Allow
    ensures Allowed(env.parse, run[n].calls[i].orig, run[n].calls[i].patched)
  {
    RunKeepsInv(env, run, n);
    assert CallFits(env, run[n], i);
  }

  /**
   * Whatever runs beside it, a call answers BLOCK only when some call with the same diff hash
   * carries a patch that the local check refuses; without deduplication it is the call itself.
   */
  lemma BlockIsJustified(env: Env, run: seq<State>, n: nat, i: nat) returns (j: nat)
    requires IsRun(env, run) && n < |run| && i < |run[n].calls|
    requires run[n].calls[i].pc.Returned? && run[n].calls[i].pc.answer.verdict == Block
    ensures j < |run[n].calls| && env.sha(run[n].calls[j].diff) == env.sha(run[n].calls[i].diff)
    ensures !Allowed(env.parse, run[n].calls[j].orig, run[n].calls[j].patched)
    ensures !run[n].calls[i].pc.answer.deduplicated ==> j == i
  {
    RunKeepsInv(env, run, n);
    hide Allowed, EventFits, NoRepeats, IndexAfterBlock, OneWinner;
    var s := run[n];
    assert CallFits(env, s, i);
    if !s.calls[i].pc.answer.deduplicated {
      j := i;
    } else {
      var k :| 0 <= k < |s.calls| && Won(s.calls[k].pc) && Sha(env, s, k) == Sha(env, s, i);
      assert CallFits(env, s, k);
      j := k;
    }
  }

  // ---- One call on its own -----------------------------------------------------------------

  /** The gate object. `log` collects what its calls write, by call number. */
  class Evaluator {
    const env: Env
    var dedup: set<Digest>
    var calls: nat
    var log: seq<Event>

    constructor (env: Env)
      ensures this.env == env && dedup == {} && calls == 0 && log == []
    {
      this.env, dedup, calls, log := env, {}, 0, [];
    }

    /** A call during which no other call runs; its indexing goroutine included. */
    method Evaluate(orig: Bytes, patched: Bytes, diff: Bytes) returns (a: Answer, reason: Option<Reason>)
      modifies this
      ensures calls == old(calls) + 1
      ensures var h := env.sha(diff);
              if h in old(dedup) then
                a == Answer(Block, true) && dedup == old(dedup) && log == old(log)
              else if Allowed(env.parse, orig, patched) then
                a == Answer(Allow, false) && dedup == old(dedup) && log == old(log) + [EvaluatePass(old(calls), h)]
              else
                && a == Answer(Block, false) && dedup == old(dedup) + {h}
                && log == old(log) + [LocalBlock(old(calls), h), IndexCall(old(calls), h)]
      ensures reason.Some? <==> a == Answer(Block, false)
    {
      var me, h := calls, env.sha(diff);
      calls := calls + 1;
      if h in dedup {
        return Answer(Block, true), None;
      }
      var local := RunLocal(env.parse, orig, patched);
      if !local.allow {
        dedup := dedup + {h};
        log := log + [LocalBlock(me, h)];
        log := log + [IndexCall(me, h)];
        return Answer(Block, false), local.reason;
      }
      log := log + [EvaluatePass(me, h)];
      return Answer(Allow, false), None;
    }
  }

  /** `k` steps of call `i` with nothing in between. */
  function Alone(env: Env, s: State, i: nat, k: nat): (r: State)
    requires i < |s.calls|
    ensures |r.calls| == |s.calls|
  {
    if k == 0 then s else Next(env, Alone(env, s, i, k - 1), i)
  }

  /** Run without interruption, a call of the state machine does what `Evaluate` does. */
  lemma AloneIsEvaluate(env: Env, s: State, i: nat)
    requires i < |s.calls| && s.calls[i].pc == Start
    ensures var t, c, h := Alone(env, s, i, 5), s.calls[i], env.sha(s.calls[i].diff);
            && t.calls[i].pc.Returned? && !t.calls[i].pc.indexing
            && if h in s.dedup then
                 t.calls[i].pc.answer == Answer(Block, true) && t.dedup == s.dedup && t.log == s.log
               else if Allowed(env.parse, c.orig, c.patched) then
                 && t.calls[i].pc.answer == Answer(Allow, false) && t.dedup == s.dedup
                 && t.log == s.log + [EvaluatePass(i, h)]
               else
                 && t.calls[i].pc.answer == Answer(Block, false) && t.dedup == s.dedup + {h}
                 && t.log == s.log + [LocalBlock(i, h), IndexCall(i, h)]
  {
    hide Allowed, Alone;
    AloneStep(env, s, i);
    var s1 := Next(env, s, i);
    var s2 := Next(env, s1, i);
    if s1.calls[i].pc.Returned? || s2.calls[i].pc.Returned? {
      assert Next(env, s2, i) == s2;
    } else {
      var s3 := Next(env, s2, i);
      var s4 := Next(env, s3, i);
      assert s3.log == s.log + [LocalBlock(i, Sha(env, s, i))];
      assert s4.log == s3.log && s4.calls[i].pc == Returned(Answer(Block, false), true);
    }
  }

  lemma AloneStep(env: Env, s: State, i: nat)
    requires i < |s.calls|
    ensures Alone(env, s, i, 5) ==
            Next(env, Next(env, Next(env, Next(env, Next(env, s, i), i), i), i), i)
  {
    hide Next;
    assert Alone(env, s, i, 1) == Next(env, s, i);
    assert Alone(env, s, i, 3) == Next(env, Next(env, Next(env, s, i), i), i);
  }
}

/**
 * The lazy Phoenix session with one reconnect (internal/phoenix/client.go): the
 * mutex-guarded client, and queries and closes interleaved at its critical sections.
 */
module Phoenix {
  import opened Wrappers

  type SessionId = nat

  /** The guarded field, with every session ever dialled (numbered from 0) and every close performed. */
  datatype Pool = Pool(session: Option<SessionId>, dialled: nat, closed: seq<SessionId>)

  /** Each dialled session is the current one or has been closed exactly once, and nothing else was closed. */
  ghost predicate Conserved(p: Pool) {
    && (p.session.Some? ==> p.session.value < p.dialled)
    && (forall k, l :: 0 <= k < l < |p.closed| ==> p.closed[k] != p.closed[l])
    && (forall id: nat :: id in p.closed <==> id < p.dialled && p.session != Some(id))
  }

  /** `ensure`: the current session, or a new one; nothing when dialling fails. */
  function EnsureSession(p: Pool, dialOk: bool): (Pool, Option<SessionId>) {
    if p.session.Some? then (p, p.session)
    else if dialOk then (Pool(Some(p.dialled), p.dialled + 1, p.closed), Some(p.dialled))
    else (p, None)
  }

  /** `reset`: close the current session, whoever dialled it. */
  function ResetSession(p: Pool): Pool {
    if p.session.Some? then Pool(None, p.dialled, p.closed + [p.session.value]) else p
  }

  lemma EnsureConserves(p: Pool, dialOk: bool)
    requires Conserved(p)
    ensures Conserved(EnsureSession(p, dialOk).0)
  {}

  lemma ResetConserves(p: Pool)
    requires Conserved(p)
    ensures Conserved(ResetSession(p))
  {
    var q := ResetSession(p);
    forall id: nat ensures id in q.closed <==> id < q.dialled && q.session != Some(id) {
      assert id in q.closed <==> id in p.closed || p.session == Some(id);
    }
  }

  /** How one `CallTool` can end. */
  datatype CallResult = Spans | TransportFailed | ProtocolRejected | ToolFailed | Unparsable

  datatype QueryResult = GotSpans | ConnectError | CallError | ToolError | ParseError

  function Outcome(r: CallResult): QueryResult {
    match r
    case Spans => GotSpans
    case TransportFailed => CallError
    case ProtocolRejected => CallError
    case ToolFailed => ToolError
    case Unparsable => ParseError
  }

  /** Reconnect only when the transport failed and the context is still alive. */
  predicate Retries(r: CallResult, expired: bool) {
    r == TransportFailed && !expired
  }

  /** The answer of a call and the result of the query that made it. */
  predicate Reports(call: CallResult, r: QueryResult) {
    && (r == GotSpans <==> call == Spans)
    && (r == CallError <==> call == TransportFailed || call == ProtocolRejected)
    && (r == ToolError <==> call == ToolFailed)
    && (r == ParseError <==> call == Unparsable)
    && r != ConnectError
  }

  // ---- The client object -------------------------------------------------------------------

  /** What the environment decides about one attempt. */
  datatype Attempt = Attempt(dialOk: bool, call: CallResult)

  class StdioClient {
    var pool: Pool
    var dials: nat
    var calls: nat

    constructor ()
      ensures pool == Pool(None, 0, []) && Conserved(pool) && dials == 0 && calls == 0
    {
      pool, dials, calls := Pool(None, 0, []), 0, 0;
    }

    method Ensure(dialOk: bool) returns (session: Option<SessionId>)
      modifies this
      ensures (pool, session) == EnsureSession(old(pool), dialOk)
      ensures dials == old(dials) + (if old(pool).session == None then 1 else 0)
      ensures calls == old(calls)
      ensures Conserved(old(pool)) ==> Conserved(pool)
    {
      if Conserved(pool) {
        EnsureConserves(pool, dialOk);
      }
      if pool.session.Some? {
        return pool.session;
      }
      dials := dials + 1;
      if !dialOk {
        return None;
      }
      session := Some(pool.dialled);
      pool := Pool(session, pool.dialled + 1, pool.closed);
    }

    method Reset()
      modifies this
      ensures pool == ResetSession(old(pool))
      ensures dials == old(dials) && calls == old(calls)
      ensures Conserved(old(pool)) ==> Conserved(pool)
    {
      if Conserved(pool) {
        ResetConserves(pool);
      }
      if pool.session.Some? {
        pool := Pool(None, pool.dialled, pool.closed + [pool.session.value]);
      }
    }

    method Close()
      modifies this
      ensures pool == ResetSession(old(pool))
      ensures Conserved(old(pool)) ==> Conserved(pool)
    {
      Reset();
    }

    method CallOnce(a: Attempt) returns (r: QueryResult)
      modifies this
      ensures pool == EnsureSession(old(pool), a.dialOk).0
      ensures r == if EnsureSession(old(pool), a.dialOk).1 == None then ConnectError else Outcome(a.call)
      ensures dials == old(dials) + (if old(pool).session == None then 1 else 0)
      ensures calls == old(calls) + (if EnsureSession(old(pool), a.dialOk).1 == None then 0 else 1)
      ensures Conserved(old(pool)) ==> Conserved(pool)
    {
      var session := Ensure(a.dialOk);
      if session == None {
        return ConnectError;
      }
      calls := calls + 1;
      return Outcome(a.call);
    }

    /** `expired` is the context's state when the first attempt fails. */
    method QuerySpans(first: Attempt, expired: bool, second: Attempt) returns (r: QueryResult)
      requires Conserved(pool)
      modifies this
      ensures Conserved(pool)
      ensures dials <= old(dials) + 2 && calls <= old(calls) + 2
      ensures var (p, session) := EnsureSession(old(pool), first.dialOk);
              if session == None then
                r == ConnectError && pool == p
              else if !Retries(first.call, expired) then
                r == Outcome(first.call) && pool == p && pool.session == session
              else
                && pool == EnsureSession(ResetSession(p), second.dialOk).0
                && session.value in pool.closed
                && r == if pool.session == None then ConnectError else Outcome(second.call)
      ensures old(pool).session == None && !first.dialOk ==> r == ConnectError && dials == old(dials) + 1
      ensures old(pool).session.Some? || first.dialOk ==>
                if first.call == TransportFailed && !expired then
                  && calls == old(calls) + (if second.dialOk then 2 else 1)
                  && if second.dialOk then Reports(second.call, r) else r == ConnectError
                else
                  calls == old(calls) + 1 && Reports(first.call, r)
    {
      r := CallOnce(first);
      if r == GotSpans {
        return;
      }
      if r == ConnectError || !Retries(first.call, expired) {
        return;
      }
      Reset();
      r := CallOnce(second);
    }
  }

  // ---- Any number of queries and closes at once -------------------------------------------

  /** Where a query or a close stands between its critical sections. */
  datatype Pc =
    | First               // before the first `ensure`
    | Calling(session: SessionId)
    | Resetting           // the first call failed on the transport
    | Second              // before the second `ensure`
    | Recalling(session: SessionId)
    | Finished(result: QueryResult)
    | Closing
    | Closed

  datatype Thread = Thread(pc: Pc, dials: nat, calls: nat)

  datatype State = State(pool: Pool, threads: seq<Thread>)

  /** The environment's choices for one step. */
  datatype Choice = Choice(dialOk: bool, call: CallResult, expired: bool)

  function Advance(s: State, i: nat, ch: Choice): (t: State)
    requires i < |s.threads|
    ensures |t.threads| == |s.threads|
  {
    var th := s.threads[i];
    match th.pc
    case First => Ensured(s, i, ch, (id: SessionId) => Calling(id))
    case Second => Ensured(s, i, ch, (id: SessionId) => Recalling(id))
    case Calling(_) =>
      var pc := if Retries(ch.call, ch.expired) then Resetting else Finished(Outcome(ch.call));
      State(s.pool, s.threads[i := Thread(pc, th.dials, th.calls + 1)])
    case Resetting => State(ResetSession(s.pool), s.threads[i := th.(pc := Second)])
    case Recalling(_) => State(s.pool, s.threads[i := Thread(Finished(Outcome(ch.call)), th.dials, th.calls + 1)])
    case Closing => State(ResetSession(s.pool), s.threads[i := th.(pc := Closed)])
    case Finished(_) => s
    case Closed => s
  }

  /** A step through `ensure`, which holds the mutex while it dials. */
  function Ensured(s: State, i: nat, ch: Choice, next: SessionId -> Pc): (t: State)
    requires i < |s.threads|
    ensures |t.threads| == |s.threads|
  {
    var th, (pool, session) := s.threads[i], EnsureSession(s.pool, ch.dialOk);
    var pc := if session.Some? then next(session.value) else Finished(ConnectError);
    State(pool, s.threads[i := Thread(pc, th.dials + (if s.pool.session == None then 1 else 0), th.calls)])
  }

  const QUERY := Thread(First, 0, 0)
  const CLOSE := Thread(Closing, 0, 0)

  /** Queries and closes that have not begun. */
  predicate AreCallers(threads: seq<Thread>) {
    forall i :: 0 <= i < |threads| ==> threads[i] == QUERY || threads[i] == CLOSE
  }

  /** The session a query is calling. */
  function Held(pc: Pc): Option<SessionId> {
    match pc
    case Calling(id) => Some(id)
    case Recalling(id) => Some(id)
    case _ => None
  }

  ghost predicate IsRun(run: seq<State>) {
    && run != []
    && run[0].pool == Pool(None, 0, [])
    && AreCallers(run[0].threads)
    && forall n :: 0 <= n < |run| - 1 ==> Moves(run[n], run[n + 1])
  }

  ghost predicate Moves(s: State, t: State) {
    exists i: nat, ch: Choice :: i < |s.threads| && t == Advance(s, i, ch)
  }

  /** Dials and calls a thread may have made by now, and sessions it may hold. */
  predicate ThreadFits(p: Pool, th: Thread) {
    match th.pc
    case First => th.dials == 0 && th.calls == 0
    case Calling(id) => th.dials <= 1 && th.calls == 0 && id < p.dialled
    case Resetting => th.dials <= 1 && th.calls == 1
    case Second => th.dials <= 1 && th.calls == 1
    case Recalling(id) => th.dials <= 2 && th.calls == 1 && id < p.dialled
    case Finished(_) => th.dials <= 2 && th.calls <= 2
    case Closing => th.dials == 0 && th.calls == 0
    case Closed => th.dials == 0 && th.calls == 0
  }

  ghost predicate Inv(s: State) {
    Conserved(s.pool) && forall i :: 0 <= i < |s.threads| ==> ThreadFits(s.pool, s.threads[i])
  }

  lemma AdvanceKeepsInv(s: State, i: nat, ch: Choice)
    requires Inv(s) && i < |s.threads|
    ensures Inv(Advance(s, i, ch))
  {
    hide Conserved;
    EnsureConserves(s.pool, ch.dialOk);
    ResetConserves(s.pool);
    EnsureInRange(s.pool, ch.dialOk);
    var t := Advance(s, i, ch);
    assert ThreadFits(s.pool, s.threads[i]);
    forall j | 0 <= j < |t.threads| ensures ThreadFits(t.pool, t.threads[j]) {
      assert ThreadFits(s.pool, s.threads[j]);
    }
  }

  lemma EnsureInRange(p: Pool, dialOk: bool)
    requires Conserved(p)
    ensures var (q, session) := EnsureSession(p, dialOk);
            p.dialled <= q.dialled && (session.Some? ==> session.value < q.dialled)
  {}

  /**
   * After a call a query resets and tries again exactly when its first call failed on the
   * transport and its context is alive.
   */
  lemma CallStep(s: State, i: nat, ch: Choice)
    requires i < |s.threads| && Held(s.threads[i].pc).Some?
    ensures var before, after := s.threads[i].pc, Advance(s, i, ch).threads[i].pc;
            && (after == Resetting <==> before.Calling? && ch.call == TransportFailed && !ch.expired)
            && (after != Resetting ==> after.Finished? && Reports(ch.call, after.result))
            && Advance(s, i, ch).pool == s.pool
            && Advance(s, i, ch).threads[i].calls == s.threads[i].calls + 1
  {}

  /**
   * One query on its own takes the same steps as `QuerySpans`: dial, call, and at most one reset,
   * dial and call more.
   */
  function Alone(s: State, i: nat, first: Choice, expired: bool, second: Choice): (r: State)
    requires i < |s.threads|
    ensures |r.threads| == |s.threads|
  {
    var call := first.(expired := expired);
    var s1 := Advance(s, i, first);
    var s2 := Advance(s1, i, call);
    var s3 := Advance(s2, i, second);
    var s4 := Advance(s3, i, second);
    Advance(s4, i, second)
  }

  lemma AloneIsQuerySpans(s: State, i: nat, first: Choice, expired: bool, second: Choice)
    requires i < |s.threads| && s.threads[i].pc == First
    ensures var t, (p, session) := Alone(s, i, first, expired, second), EnsureSession(s.pool, first.dialOk);
            && t.threads[i].pc.Finished?
            && var r := t.threads[i].pc.result;
               if session == None then r == ConnectError && t.pool == p
               else if !(first.call == TransportFailed && !expired) then Reports(first.call, r) && t.pool == p
               else
                 && t.pool == EnsureSession(ResetSession(p), second.dialOk).0
                 && if second.dialOk then Reports(second.call, r) else r == ConnectError
  {
    var call := first.(expired := expired);
    var s1 := Advance(s, i, first);
    var s2 := Advance(s1, i, call);
    if s1.threads[i].pc.Finished? || s2.threads[i].pc.Finished? {
      StaysFinished(s2, i, second);
    } else {
      var s3 := Advance(s2, i, second);
      assert s3.pool == ResetSession(s1.pool) && s3.threads[i].pc == Second;
      var s4 := Advance(s3, i, second);
      if s4.threads[i].pc.Finished? {
        assert Advance(s4, i, second) == s4;
      }
    }
  }

  lemma StaysFinished(s: State, i: nat, ch: Choice)
    requires i < |s.threads| && s.threads[i].pc.Finished?
    ensures Advance(Advance(Advance(s, i, ch), i, ch), i, ch) == s
  {}

  lemma {:induction false} RunKeepsInv(run: seq<State>, n: nat)
    requires IsRun(run) && n < |run|
    ensures Inv(run[n])
  {
    if n == 0 {
      forall i | 0 <= i < |run[0].threads| ensures ThreadFits(run[0].pool, run[0].threads[i]) {
        assert run[0].threads[i] == QUERY || run[0].threads[i] == CLOSE;
      }
    } else {
      hide Inv, Advance;
      RunKeepsInv(run, n - 1);
      assert Moves(run[n - 1], run[n - 1 + 1]);
      var i: nat, ch: Choice :| i < |run[n - 1].threads| && run[n] == Advance(run[n - 1], i, ch);
      AdvanceKeepsInv(run[n - 1], i, ch);
    }
  }

  /**
   * However queries and closes interleave: no session is lost or closed twice, and no query dials
   * or calls more than twice.
   */
  lemma SessionsAreConserved(run: seq<State>, n: nat)
    requires IsRun(run) && n < |run|
    ensures Conserved(run[n].pool)
    ensures forall i :: 0 <= i < |run[n].threads| ==> run[n].threads[i].dials <= 2 && run[n].threads[i].calls <= 2
  {
    RunKeepsInv(run, n);
    forall i | 0 <= i < |run[n].threads| ensures run[n].threads[i].dials <= 2 && run[n].threads[i].calls <= 2 {
      assert ThreadFits(run[n].pool, run[n].threads[i]);
    }
  }

  /** Right after a close, every session dialled so far has been closed. */
  lemma CloseLeavesNothingOpen(run: seq<State>, n: nat, i: nat, ch: Choice)
    requires IsRun(run) && n < |run| && i < |run[n].threads| && run[n].threads[i].pc == Closing
    ensures var p := Advance(run[n], i, ch).pool;
            p.session == None && |p.closed| == p.dialled && forall id: nat :: id in p.closed <==> id < p.dialled
  {
    RunKeepsInv(run, n);
    AdvanceKeepsInv(run[n], i, ch);
    var p := Advance(run[n], i, ch).pool;
    ClosedCount(p.closed, p.dialled);
  }

  /** Distinct numbers that are exactly those below `n` are `n` many. */
  lemma {:induction false} ClosedCount(s: seq<nat>, n: nat)
    requires forall k, l :: 0 <= k < l < |s| ==> s[k] != s[l]
    requires forall id: nat :: id in s <==> id < n
    ensures |s| == n
    decreases n
  {
    if n == 0 {
      assert forall k :: 0 <= k < |s| ==> s[k] in s;
    } else {
      assert n - 1 in s;
      var k :| 0 <= k < |s| && s[k] == n - 1;
      var t := s[..k] + s[k + 1..];
      forall id: nat ensures id in t <==> id < n - 1 {
        if id in t {
          var j :| 0 <= j < |t| && t[j] == id;
          var at := if j < k then j else j + 1;
          assert t[j] == s[at] && s[at] != s[k] && s[at] in s;
        }
        if id < n - 1 {
          assert id in s;
          var j :| 0 <= j < |s| && s[j] == id;
          assert t[if j < k then j else j - 1] == id;
        }
      }
      ClosedCount(t, n - 1);
    }
  }

  // ---- A reset closes whatever session is current ------------------------------------------

  /** No query is calling a session that has been closed under it. */
  predicate HeldAreOpen(s: State) {
    forall i :: 0 <= i < |s.threads| && Held(s.threads[i].pc).Some? ==> s.pool.session == Held(s.threads[i].pc)
  }

  /** At most one caller, or nothing but closes. */
  predicate Undisturbed(threads: seq<Thread>) {
    |threads| <= 1 || forall i :: 0 <= i < |threads| ==> threads[i] != QUERY
  }

  ghost predicate AlwaysOpen(threads: seq<Thread>) {
    forall run: seq<State>, n: nat :: IsRun(run) && run[0].threads == threads && n < |run| ==> HeldAreOpen(run[n])
  }

  /**
   * Whatever the environment does, no query's session is closed under it exactly when the query
   * has the client to itself: a second query's reset, or a close, can always do it.
   */
  lemma SessionsStayOpenExactly(threads: seq<Thread>)
    requires AreCallers(threads)
    ensures AlwaysOpen(threads) <==> Undisturbed(threads)
  {
    hide Moves, HeldAreOpen;
    if Undisturbed(threads) {
      forall run: seq<State>, n: nat | IsRun(run) && run[0].threads == threads && n < |run|
        ensures HeldAreOpen(run[n])
      {
        StaysOpen(run, n);
      }
    } else {
      var i :| 0 <= i < |threads| && threads[i] == QUERY;
      var j := if i == 0 then 1 else 0;
      var run := DisturbedRun(threads, i, j);
    }
  }

  /** Past its first step a close has closed; a thread that begins as a close never holds a session. */
  predicate OnlyCloses(s: State) {
    forall i :: 0 <= i < |s.threads| ==> s.threads[i].pc == Closing || s.threads[i].pc == Closed
  }

  lemma {:induction false} StaysOpen(run: seq<State>, n: nat)
    requires IsRun(run) && Undisturbed(run[0].threads) && n < |run|
    ensures HeldAreOpen(run[n]) && |run[n].threads| == |run[0].threads|
    ensures |run[0].threads| <= 1 || OnlyCloses(run[n])
  {
    if n > 0 {
      StaysOpen(run, n - 1);
      assert Moves(run[n - 1], run[n - 1 + 1]);
    }
  }

  /** Thread `i` is calling its session when thread `j` closes it. */
  lemma DisturbedRun(threads: seq<Thread>, i: nat, j: nat) returns (run: seq<State>)
    requires AreCallers(threads) && i < |threads| && j < |threads| && i != j && threads[i] == QUERY
    ensures IsRun(run) && run[0].threads == threads
    ensures !HeldAreOpen(run[|run| - 1])
  {
    var up := Choice(true, TransportFailed, false);
    var s0 := State(Pool(None, 0, []), threads);
    var s1 := Advance(s0, i, up);
    var s2 := Advance(s1, j, up);
    if threads[j] == CLOSE {
      run := [s0, s1, s2];
      assert s2.threads[i].pc == Calling(0) && s2.pool.session == None;
    } else {
      var s3 := Advance(s2, j, up);
      var s4 := Advance(s3, j, up);
      run := [s0, s1, s2, s3, s4];
      assert s4.threads[i].pc == Calling(0) && s4.pool.session == None;
    }
  }

  lemma Extended(run: seq<State>, i: nat, ch: Choice)
    requires IsRun(run) && i < |run[|run| - 1].threads|
    ensures IsRun(run + [Advance(run[|run| - 1], i, ch)])
  {
    hide Advance;
    var longer := run + [Advance(run[|run| - 1], i, ch)];
    forall n | 0 <= n < |longer| - 1 ensures Moves(longer[n], longer[n + 1]) {
      if n < |run| - 1 {
        assert Moves(run[n], run[n + 1]);
      }
    }
  }

  /** Two queries share a session, and both calls fail on the transport. */
  lemma BothFail() returns (run: seq<State>)
    ensures IsRun(run) && |run| == 5
    ensures run[4] == State(Pool(Some(0), 1, []), [Thread(Resetting, 1, 1), Thread(Resetting, 0, 1)])
  {
    var up := Choice(true, TransportFailed, false);
    run := [State(Pool(None, 0, []), [QUERY, QUERY])];
    Extended(run, 0, up);
    run := run + [State(Pool(Some(0), 1, []), [Thread(Calling(0), 1, 0), QUERY])];
    Extended(run, 1, up);
    run := run + [State(Pool(Some(0), 1, []), [Thread(Calling(0), 1, 0), Thread(Calling(0), 0, 0)])];
    Extended(run, 0, up);
    run := run + [State(Pool(Some(0), 1, []), [Thread(Resetting, 1, 1), Thread(Calling(0), 0, 0)])];
    Extended(run, 1, up);
    run := run + [State(Pool(Some(0), 1, []), [Thread(Resetting, 1, 1), Thread(Resetting, 0, 1)])];
  }

  /**
   * Even the session a reconnect has just dialled can be closed, by the reset of a query that
   * failed on the one before.
   */
  lemma ResetCanCloseAnotherQuerysSession()
    ensures exists run: seq<State> ::
              && IsRun(run) && |run| == 8
              && |run[7].threads| == 2
              && run[7].threads[0].pc == Recalling(1)
              && run[7].pool.closed == [0, 1]
  {
    hide IsRun;
    var up := Choice(true, TransportFailed, false);
    var run := BothFail();
    var s5 := State(Pool(None, 1, [0]), [Thread(Second, 1, 1), Thread(Resetting, 0, 1)]);
    assert Advance(run[4], 0, up) == s5;
    Extended(run, 0, up);
    run := run + [s5];
    var s6 := State(Pool(Some(1), 2, [0]), [Thread(Recalling(1), 2, 1), Thread(Resetting, 0, 1)]);
    assert Advance(run[5], 0, up) == s6;
    Extended(run, 0, up);
    run := run + [s6];
    var s7 := State(Pool(None, 2, [0, 1]), [Thread(Recalling(1), 2, 1), Thread(Second, 0, 1)]);
    assert Advance(run[6], 1, up) == s7;
    Extended(run, 1, up);
    run := run + [s7];
  }
}

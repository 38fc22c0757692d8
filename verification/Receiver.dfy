/** The webhook receiver (internal/fivetran/receiver.go): each event starts at most one pipeline. */
module Receiver {
  import opened Wrappers
  import opened GoBytes
  import opened Timestamps
  import opened Audit
  import opened Ledger

  datatype Anomaly = Anomaly(event: Bytes, connectorId: Bytes, connectorName: Bytes, syncId: Bytes, failureStatus: bool)

  predicate IsValid(a: Anomaly) {
    a.event != [] && a.connectorId != [] && a.syncId != []
  }

  function EventId(a: Anomaly): (id: Bytes)
    ensures id != []
  {
    a.event + [COLON] + a.syncId
  }

  predicate TriggersRepair(a: Anomaly) {
    a.event == Ascii("transformation_failed") || (a.event == Ascii("sync_end") && a.failureStatus)
  }

  /** A request as the handler sees it: a body too large to read, a bad HMAC, or a body that does or does not parse. */
  datatype Delivery = Delivery(readable: bool, signed: bool, anomaly: Option<Anomaly>, payload: Bytes)

  datatype Status = Accepted202 | Ok200 | BadRequest400 | Unauthorized401 | Internal500

  /** Refused before anything is stored. */
  function Refusal(d: Delivery): Option<Status> {
    if !d.readable then Some(BadRequest400)
    else if !d.signed then Some(Unauthorized401)
    else if d.anomaly.None? || !IsValid(d.anomaly.value) then Some(BadRequest400)
    else None
  }

  /** The answer, from the outcome of the append. */
  function Answer(d: Delivery, outcome: Option<AppendError>): Status
    requires d.anomaly.Some?
  {
    if outcome == Some(DuplicateEvent) then Ok200
    else if outcome.Some? then Internal500
    else if TriggersRepair(d.anomaly.value) then Accepted202
    else Ok200
  }

  /** The ledger in insertion order, and the events whose pipelines have been spawned. */
  datatype State = State(ledger: seq<Entry>, started: seq<Anomaly>)

  /** What one delivery answers and changes; a receiver without a pipeline answers 202 and starts nothing. */
  ghost predicate Served(c: Crypto, priv: Bytes, wired: bool, d: Delivery, s: State, t: State, status: Status,
                         token: Bytes, now: Time, id: Bytes, fault: Fault)
  {
    if Refusal(d).Some? then
      status == Refusal(d).value && t == s
    else
      var eventId := EventId(d.anomaly.value);
      var outcome := AppendOutcome(s.ledger, eventId, fault);
      && status == Answer(d, outcome)
      && t.started == s.started + (if status == Accepted202 && wired then [d.anomaly.value] else [])
      && (outcome.Some? ==> t.ledger == s.ledger)
      && (outcome.None? ==>
            Appended(c, priv, s.ledger, t.ledger, Request(token, FIVETRAN_RECEIVED, d.payload, [], eventId), now, id))
  }

  /** The handler; `started` lists the events whose pipelines have been spawned. */
  class Handler {
    const writer: Writer
    const wired: bool
    var started: seq<Anomaly>

    constructor (writer: Writer, wired: bool)
      ensures this.writer == writer && this.wired == wired && started == []
    {
      this.writer, this.wired, started := writer, wired, [];
    }

    method ServeHTTP(d: Delivery, token: Bytes, now: Time, id: Bytes, fault: Fault) returns (status: Status)
      modifies this, writer.store
      ensures Served(writer.crypto, writer.priv, wired, d, State(old(writer.store.entries), old(started)),
                     State(writer.store.entries, started), status, token, now, id, fault)
    {
      if !d.readable {
        return BadRequest400;
      }
      if !d.signed {
        return Unauthorized401;
      }
      if d.anomaly.None? || !IsValid(d.anomaly.value) {
        return BadRequest400;
      }
      var a := d.anomaly.value;
      var err := writer.AppendWithEvent(token, FIVETRAN_RECEIVED, d.payload, EventId(a), now, id, fault);
      if err == Some(DuplicateEvent) {
        return Ok200;
      }
      if err.Some? {
        return Internal500;
      }
      if !TriggersRepair(a) {
        return Ok200;
      }
      if wired {
        started := started + [a];
      }
      return Accepted202;
    }
  }

  // ---- Runs of deliveries, over all processes that share the ledger ------------------------

  /** A delivery that stored its receipt, with or without starting a pipeline. */
  ghost predicate Received(c: Crypto, priv: Bytes, s: State, t: State) {
    exists a: Anomaly, token: Bytes, payload: Bytes, now: Time, id: Bytes ::
      && IsValid(a) && !HasEvent(s.ledger, EventId(a))
      && Appended(c, priv, s.ledger, t.ledger, Request(token, FIVETRAN_RECEIVED, payload, [], EventId(a)), now, id)
      && (t.started == s.started || (TriggersRepair(a) && t.started == s.started + [a]))
  }

  /** Any other append: the records of running pipelines carry no event id. */
  ghost predicate OtherAppend(c: Crypto, priv: Bytes, s: State, t: State) {
    && t.started == s.started
    && exists req: Request, now: Time, id: Bytes ::
         req.eventId == [] && Appended(c, priv, s.ledger, t.ledger, req, now, id)
  }

  ghost predicate Step(c: Crypto, priv: Bytes, s: State, t: State) {
    t == s || Received(c, priv, s, t) || OtherAppend(c, priv, s, t)
  }

  ghost predicate IsRun(c: Crypto, priv: Bytes, run: seq<State>) {
    && run != [] && run[0] == State([], [])
    && forall n :: 0 <= n < |run| - 1 ==> Step(c, priv, run[n], run[n + 1])
  }

  /** What `ServeHTTP` does is one step of the run; a wired pipeline starts exactly with the answer 202. */
  lemma ServeIsStep(c: Crypto, priv: Bytes, wired: bool, d: Delivery, s: State, t: State, status: Status,
                    token: Bytes, now: Time, id: Bytes, fault: Fault)
    requires Served(c, priv, wired, d, s, t, status, token, now, id, fault)
    ensures Step(c, priv, s, t)
    ensures t.started != s.started <==> status == Accepted202 && wired
    ensures t.started != s.started ==> t.started == s.started + [d.anomaly.value] && TriggersRepair(d.anomaly.value)
  {
    hide Appended, HasEvent, EventId;
    if Refusal(d).None? {
      var a := d.anomaly.value;
      var outcome := AppendOutcome(s.ledger, EventId(a), fault);
      if outcome.None? {
        assert !HasEvent(s.ledger, EventId(a));
        assert Received(c, priv, s, t);
      }
    }
  }

  /** Every started event has its receipt in the ledger, and no event id was started twice. */
  predicate StartedOnce(s: State) {
    && (forall k :: 0 <= k < |s.started| ==> HasEvent(s.ledger, EventId(s.started[k])))
    && (forall k, l :: 0 <= k < l < |s.started| ==> EventId(s.started[k]) != EventId(s.started[l]))
  }

  lemma AppendedKeepsEvents(c: Crypto, priv: Bytes, before: seq<Entry>, after: seq<Entry>,
                            req: Request, now: Time, id: Bytes)
    requires Appended(c, priv, before, after, req, now, id)
    ensures |after| == |before| + 1 && after[..|before|] == before
    ensures after[|before|].sourceEventId == req.eventId
    ensures forall e :: HasEvent(before, e) ==> HasEvent(after, e)
    ensures req.eventId != [] ==> HasEvent(after, req.eventId)
  {
    forall e | HasEvent(before, e) ensures HasEvent(after, e) {
      var k :| 0 <= k < |before| && before[k].sourceEventId == e;
      assert after[k].sourceEventId == e;
    }
  }

  lemma StepKeepsStartedOnce(c: Crypto, priv: Bytes, s: State, t: State)
    requires StartedOnce(s) && Step(c, priv, s, t)
    ensures StartedOnce(t)
  {
    hide HasEvent, Appended;
    if t != s {
      if Received(c, priv, s, t) {
        var a: Anomaly, token: Bytes, payload: Bytes, now: Time, id: Bytes :|
          && IsValid(a) && !HasEvent(s.ledger, EventId(a))
          && Appended(c, priv, s.ledger, t.ledger, Request(token, FIVETRAN_RECEIVED, payload, [], EventId(a)), now, id)
          && (t.started == s.started || (TriggersRepair(a) && t.started == s.started + [a]));
        AppendedKeepsEvents(c, priv, s.ledger, t.ledger,
                            Request(token, FIVETRAN_RECEIVED, payload, [], EventId(a)), now, id);
      } else {
        var req: Request, now: Time, id: Bytes :|
          req.eventId == [] && Appended(c, priv, s.ledger, t.ledger, req, now, id);
        AppendedKeepsEvents(c, priv, s.ledger, t.ledger, req, now, id);
      }
    }
  }

  /** However deliveries interleave, at most one pipeline starts per event id. */
  lemma {:induction false} OnePipelinePerEvent(c: Crypto, priv: Bytes, run: seq<State>, n: nat)
    requires IsRun(c, priv, run) && n < |run|
    ensures StartedOnce(run[n])
  {
    if n > 0 {
      hide StartedOnce, Step;
      OnePipelinePerEvent(c, priv, run, n - 1);
      StepKeepsStartedOnce(c, priv, run[n - 1], run[n]);
    }
  }

  // ---- Every answer, from the delivery and the ledger ---------------------------------------

  /** An unreadable, unsigned or malformed delivery changes nothing, and each gets its own status, in this order. */
  lemma RefusedUnchanged(c: Crypto, priv: Bytes, wired: bool, d: Delivery, s: State, t: State, status: Status,
                         token: Bytes, now: Time, id: Bytes, fault: Fault)
    requires Served(c, priv, wired, d, s, t, status, token, now, id, fault)
    ensures !d.readable ==> status == BadRequest400 && t == s
    ensures d.readable && !d.signed ==> status == Unauthorized401 && t == s
    ensures d.readable && d.signed
            && (d.anomaly.None? || d.anomaly.value.event == [] || d.anomaly.value.connectorId == []
                || d.anomaly.value.syncId == [])
            ==> status == BadRequest400 && t == s
  {
    hide Appended, EventId;
  }

  /** A well-formed signed delivery: some stored document carries its event id already. */
  predicate IsStored(es: seq<Entry>, a: Anomaly) {
    exists k :: 0 <= k < |es| && es[k].sourceEventId == a.event + Ascii(":") + a.syncId
  }

  /** A failed transformation, or a sync that ended with a failed task. */
  predicate AsksForRepair(a: Anomaly) {
    a.event == Ascii("transformation_failed") || (a.event == Ascii("sync_end") && a.failureStatus)
  }

  /**
   * What a well-formed signed delivery is answered: 500 when the append fails, 200 for a stored event
   * id or an event that asks for nothing, 202 for a new event that asks for a repair; and only then,
   * in a receiver with a pipeline, is one started for it.
   */
  lemma AnsweredExactly(c: Crypto, priv: Bytes, wired: bool, d: Delivery, s: State, t: State, status: Status,
                        token: Bytes, now: Time, id: Bytes, fault: Fault)
    requires Served(c, priv, wired, d, s, t, status, token, now, id, fault)
    requires d.readable && d.signed && d.anomaly.Some? && IsValid(d.anomaly.value)
    ensures var a := d.anomaly.value;
            var stored := IsStored(s.ledger, a);
            var works, late := fault == NoFault, fault == CommitFails;
            && (status == Accepted202 <==> works && !stored && AsksForRepair(a))
            && (status == Ok200 <==> ((works || late) && stored) || (works && !stored && !AsksForRepair(a)))
            && (status == Internal500 <==> !works && !(late && stored))
            && t.started == (if status == Accepted202 && wired then s.started + [a] else s.started)
  {
    hide Appended, HasEvent, IsStored, EventId, AppendOutcome;
    var a := d.anomaly.value;
    OutcomeIs(s.ledger, a, fault);
  }

  /** The append's outcome for a delivery. */
  lemma OutcomeIs(es: seq<Entry>, a: Anomaly, fault: Fault)
    ensures var r, stored := AppendOutcome(es, EventId(a), fault), IsStored(es, a);
            && (r == None <==> fault == NoFault && !stored)
            && (r == Some(DuplicateEvent) <==> (fault == NoFault || fault == CommitFails) && stored)
  {
    hide IsStored, EventId;
    StoredIsEvent(es, a);
  }

  /** The ledger with the receipt of a delivery appended: under its event id, with its payload. */
  predicate HasReceipt(before: seq<Entry>, after: seq<Entry>, a: Anomaly, payload: Bytes, token: Bytes) {
    && |after| == |before| + 1 && after[..|before|] == before
    && var e := after[|before|];
    && e.sourceEventId == a.event + Ascii(":") + a.syncId
    && e.action == Ascii("FIVETRAN_RECEIVED") && e.payload == payload && e.token == token
  }

  lemma AppendedReceipt(c: Crypto, priv: Bytes, before: seq<Entry>, after: seq<Entry>, a: Anomaly, payload: Bytes,
                        token: Bytes, now: Time, id: Bytes)
    requires Appended(c, priv, before, after, Request(token, FIVETRAN_RECEIVED, payload, [], EventId(a)), now, id)
    ensures HasReceipt(before, after, a, payload, token)
  {
    hide Appended, EventId, IsHashed, IsLatest;
    AppendedExactly(c, priv, before, after, Request(token, FIVETRAN_RECEIVED, payload, [], EventId(a)), now, id);
    IdText(a);
  }

  /** The receipt is stored exactly for a new event id and a working store. */
  lemma ReceiptIsStored(c: Crypto, priv: Bytes, wired: bool, d: Delivery, s: State, t: State, status: Status,
                        token: Bytes, now: Time, id: Bytes, fault: Fault)
    requires Served(c, priv, wired, d, s, t, status, token, now, id, fault)
    requires d.readable && d.signed && d.anomaly.Some? && IsValid(d.anomaly.value)
    ensures fault != NoFault || IsStored(s.ledger, d.anomaly.value) ==> t.ledger == s.ledger
    ensures fault == NoFault && !IsStored(s.ledger, d.anomaly.value) ==>
              HasReceipt(s.ledger, t.ledger, d.anomaly.value, d.payload, token)
  {
    hide Appended, IsStored, EventId, AppendOutcome, Answer, HasReceipt, HasEvent;
    var a := d.anomaly.value;
    OutcomeIs(s.ledger, a, fault);
    if fault == NoFault && !IsStored(s.ledger, a) {
      AppendedReceipt(c, priv, s.ledger, t.ledger, a, d.payload, token, now, id);
    }
  }

  lemma IdText(a: Anomaly)
    ensures EventId(a) == a.event + Ascii(":") + a.syncId
  {}

  lemma StoredIsEvent(es: seq<Entry>, a: Anomaly)
    ensures HasEvent(es, EventId(a)) <==> IsStored(es, a)
  {
    assert EventId(a) == a.event + Ascii(":") + a.syncId;
  }

  // ---- Event ids --------------------------------------------------------------------------

  /**
   * A valid delivery shares its event id with no delivery of another event or sync exactly when
   * the colon between the two is the only one inside the id.
   */
  lemma EventIdSeparatesExactly(a: Anomaly)
    requires IsValid(a)
    ensures (forall b: Anomaly :: IsValid(b) && EventId(b) == EventId(a) ==> b.event == a.event && b.syncId == a.syncId)
            <==> (forall k :: 0 < k < |EventId(a)| - 1 && EventId(a)[k] == COLON ==> k == |a.event|)
  {
    var id := EventId(a);
    IdParts(a);
    forall b: Anomaly | IsValid(b) && EventId(b) == id && |b.event| == |a.event|
      ensures b.event == a.event && b.syncId == a.syncId
    {
      IdParts(b);
    }
    forall b: Anomaly | IsValid(b) && EventId(b) == id
      ensures 0 < |b.event| < |id| - 1 && id[|b.event|] == COLON
    {
      IdParts(b);
    }
    forall k | 0 < k < |id| - 1 && id[k] == COLON && k != |a.event|
      ensures exists b: Anomaly :: IsValid(b) && EventId(b) == id && b.event != a.event
    {
      var b := a.(event := id[..k], syncId := id[k + 1..]);
      assert EventId(b) == id;
      assert |b.event| != |a.event|;
    }
  }

  lemma IdParts(a: Anomaly)
    requires IsValid(a)
    ensures var id := EventId(a);
            && 0 < |a.event| < |id| - 1 && id[|a.event|] == COLON
            && a.event == id[..|a.event|] && a.syncId == id[|a.event| + 1..]
  {}

  /** With a colon in the event name or in the sync id two different deliveries can share an id. */
  lemma EventIdsCanClash(a: Bytes, b: Bytes, c: Bytes, connector: Bytes)
    requires a != [] && b != [] && c != [] && connector != []
    ensures var x := Anomaly(a + [COLON] + b, connector, [], c, false);
            var y := Anomaly(a, connector, [], b + [COLON] + c, false);
            IsValid(x) && IsValid(y) && x != y && EventId(x) == EventId(y)
  {
    var x := Anomaly(a + [COLON] + b, connector, [], c, false);
    var y := Anomaly(a, connector, [], b + [COLON] + c, false);
    assert |x.event| > |y.event|;
    assert EventId(x) == a + [COLON] + b + [COLON] + c == EventId(y);
  }
}

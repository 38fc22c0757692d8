/**
 * The ledger's writer and its store (internal/audit/mongodb). The store sorts by
 * timestamp and resolves ties arbitrarily; a transaction is one atomic step.
 */
module Ledger {
  import opened Wrappers
  import opened GoBytes
  import opened Timestamps
  import opened Audit

  // ---- The store's contract --------------------------------------------------------------

  /** The sort key: a place on the time line. */
  function When(e: Entry): nat {
    e.timestamp.Key()
  }

  /** A document that `sort timestamp -1, limit 1` may return. */
  predicate IsLatest(es: seq<Entry>, e: Entry) {
    e in es && forall k {:trigger When(es[k])} :: 0 <= k < |es| ==> When(es[k]) <= When(e)
  }

  /** A document that the same query with `skip 1` may return: another one is the latest. */
  predicate IsPenultimate(es: seq<Entry>, e: Entry) {
    exists i, j ::
      && 0 <= i < |es| && 0 <= j < |es| && i != j && es[j] == e
      && IsLatest(es, es[i])
      && forall k {:trigger When(es[k])} :: 0 <= k < |es| && k != i ==> When(es[k]) <= When(e)
  }

  /** `r` is the result of the query when it found a document, `None` when it could not. */
  predicate LatestAnswer(es: seq<Entry>, r: Option<Entry>) {
    match r
    case None => es == []
    case Some(e) => IsLatest(es, e)
  }

  predicate PenultimateAnswer(es: seq<Entry>, r: Option<Entry>) {
    match r
    case None => |es| < 2
    case Some(e) => IsPenultimate(es, e)
  }

  predicate SortedByTime(es: seq<Entry>) {
    forall i, j {:trigger When(es[i]), When(es[j])} :: 0 <= i < j < |es| ==> When(es[i]) <= When(es[j])
  }

  /** A list that `ReadAllEntries` may return. */
  predicate IsReading(es: seq<Entry>, r: seq<Entry>) {
    multiset(r) == multiset(es) && SortedByTime(r)
  }

  // ---- One append ------------------------------------------------------------------------

  datatype Request = Request(token: Bytes, action: Bytes, payload: Bytes, thought: Bytes, eventId: Bytes)

  /** What the environment of one append decides. */
  datatype Fault = NoFault | SessionFails | ReadFails | InsertFails | CommitFails

  datatype AppendError = TransactionFailed | ReadLatestFailed | InsertFailed | DuplicateEvent

  /** The unique partial index: an empty event id is not indexed. */
  predicate HasEvent(es: seq<Entry>, eventId: Bytes) {
    eventId != [] && exists k :: 0 <= k < |es| && es[k].sourceEventId == eventId
  }

  function AppendOutcome(es: seq<Entry>, eventId: Bytes, fault: Fault): Option<AppendError> {
    if fault == SessionFails then Some(TransactionFailed)
    else if fault == ReadFails then Some(ReadLatestFailed)
    else if fault == InsertFails then Some(InsertFailed)
    else if HasEvent(es, eventId) then Some(DuplicateEvent)
    else if fault == CommitFails then Some(TransactionFailed)
    else None
  }

  function NewEntry(c: Crypto, priv: Bytes, prev: Option<Entry>, req: Request, now: Time, id: Bytes): Entry {
    Chained(c, priv, Entry(
      id, req.token, req.action, req.payload, req.thought, req.eventId,
      if prev.Some? then prev.value.hash else [],
      [], [], TruncateToMillis(now)))
  }

  /** `after` is `before` with one entry appended that links to some latest entry. */
  ghost predicate Appended(c: Crypto, priv: Bytes, before: seq<Entry>, after: seq<Entry>,
                           req: Request, now: Time, id: Bytes)
  {
    exists prev :: LatestAnswer(before, prev) && after == before + [NewEntry(c, priv, prev, req, now, id)]
  }

  /** The action of a webhook's receipt. */
  const FIVETRAN_RECEIVED: Bytes := Ascii("FIVETRAN_RECEIVED")

  /** An append adds one entry: the request's fields, the link, the truncated clock, and its own hash and signature. */
  lemma AppendedExactly(c: Crypto, priv: Bytes, before: seq<Entry>, after: seq<Entry>,
                        req: Request, now: Time, id: Bytes)
    requires Appended(c, priv, before, after, req, now, id)
    ensures |after| == |before| + 1 && after[..|before|] == before
    ensures var e := after[|before|];
            && e.id == id && e.token == req.token && e.action == req.action && e.payload == req.payload
            && e.thought == req.thought && e.sourceEventId == req.eventId
            && e.timestamp == now.(nanos := now.nanos - now.nanos % 1_000_000)
            && IsHashed(c, e) && e.signature == c.sign(priv, e.hash)
            && (before == [] ==> e.previousHash == [])
            && (before != [] ==> exists p :: IsLatest(before, p) && e.previousHash == p.hash)
  {
    hide Canonical;
    var prev :| LatestAnswer(before, prev) && after == before + [NewEntry(c, priv, prev, req, now, id)];
    if before != [] {
      assert IsLatest(before, prev.value);
    }
  }

  /**
   * When an append fails, and with what: the session first, then the read, the insert, the unique
   * index and the commit.
   */
  lemma AppendFailsExactly(es: seq<Entry>, eventId: Bytes, fault: Fault)
    ensures var r := AppendOutcome(es, eventId, fault);
            var stored := eventId != [] && exists k :: 0 <= k < |es| && es[k].sourceEventId == eventId;
            && (r == None <==> fault == NoFault && !stored)
            && (r == Some(DuplicateEvent) <==> (fault == NoFault || fault == CommitFails) && stored)
            && (r == Some(ReadLatestFailed) <==> fault == ReadFails)
            && (r == Some(InsertFailed) <==> fault == InsertFails)
            && (r == Some(TransactionFailed) <==> fault == SessionFails || (fault == CommitFails && !stored))
  {}

  class Store {
    var entries: seq<Entry>  // in insertion order

    constructor ()
      ensures entries == []
    {
      entries := [];
    }

    method Latest() returns (r: Option<Entry>)
      ensures LatestAnswer(entries, r)
    {
      if entries == [] {
        return None;
      }
      var m := LatestExists(entries);
      var e :| e in entries && IsLatest(entries, e);
      return Some(e);
    }

    method Penultimate() returns (r: Option<Entry>)
      ensures PenultimateAnswer(entries, r)
    {
      if |entries| < 2 {
        return None;
      }
      var m := PenultimateExists(entries);
      var e :| e in entries && IsPenultimate(entries, e);
      return Some(e);
    }

    /** Also the duplicate-key check of the unique index. */
    method Insert(e: Entry, fails: bool) returns (err: Option<AppendError>)
      modifies this
      ensures err == if fails then Some(InsertFailed)
                     else if HasEvent(old(entries), e.sourceEventId) then Some(DuplicateEvent)
                     else None
      ensures entries == if err == None then old(entries) + [e] else old(entries)
    {
      if fails {
        return Some(InsertFailed);
      }
      if HasEvent(entries, e.sourceEventId) {
        return Some(DuplicateEvent);
      }
      entries := entries + [e];
      return None;
    }

    /**
     * Whether a receipt carries the event id; a planted document with another action does not
     * count. `None`: the lookup failed.
     */
    method HasEntry(eventId: Bytes, fails: bool) returns (found: Option<bool>)
      ensures eventId == [] ==> found == Some(false)
      ensures eventId != [] && fails ==> found == None
      ensures eventId != [] && !fails ==>
        found == Some(exists e :: e in entries && e.sourceEventId == eventId && e.action == FIVETRAN_RECEIVED)
    {
      if eventId == [] {
        return Some(false);
      }
      if fails {
        return None;
      }
      return Some(exists e <- entries :: e.sourceEventId == eventId && e.action == FIVETRAN_RECEIVED);
    }
  }

  datatype LoadError = LedgerEmpty | QueryFailed | HeadInvalid(reason: VerifyError)

  /** The link `LoadHead` expects of the head: its predecessor's hash, or the head's own link on a tie. */
  function ExpectedLink(head: Entry, prev: Option<Entry>): Bytes {
    match prev
    case None => []
    case Some(p) => if p.timestamp == head.timestamp then head.previousHash else p.hash
  }

  function HeadCheck(c: Crypto, pub: Bytes, head: Entry, prev: Option<Entry>): Option<VerifyError> {
    Verify(c, head, ExpectedLink(head, prev), pub)
  }

  /**
   * What the check asks of the link: nothing of a tied head, a genesis link of a lone one, else
   * its predecessor's hash.
   */
  predicate LinksTo(head: Entry, prev: Option<Entry>) {
    match prev
    case None => head.previousHash == []
    case Some(p) => p.timestamp == head.timestamp || head.previousHash == p.hash
  }

  /** The startup check, read off the fields of the two entries, and what it reports first. */
  lemma HeadCheckedExactly(c: Crypto, pub: Bytes, head: Entry, prev: Option<Entry>)
    ensures var r := HeadCheck(c, pub, head, prev);
            && (r == None <==> LinksTo(head, prev) && IsHashed(c, head) && IsSigned(c, head, pub))
            && (r == Some(BrokenChain) <==> !LinksTo(head, prev))
            && (r == Some(HashMismatch) <==> LinksTo(head, prev) && !IsHashed(c, head))
            && (r == Some(BadSignature) <==> LinksTo(head, prev) && IsHashed(c, head) && !IsSigned(c, head, pub))
  {
    hide Verify, IsHashed, IsSigned;
    VerifiedExactly(c, head, ExpectedLink(head, prev), pub);
  }

  class Writer {
    const store: Store
    const crypto: Crypto
    const priv: Bytes

    constructor (store: Store, crypto: Crypto, priv: Bytes)
      ensures this.store == store && this.crypto == crypto && this.priv == priv
    {
      this.store, this.crypto, this.priv := store, crypto, priv;
    }

    method AppendInternal(req: Request, now: Time, id: Bytes, fault: Fault) returns (err: Option<AppendError>)
      modifies store
      ensures err == AppendOutcome(old(store.entries), req.eventId, fault)
      ensures err.Some? ==> store.entries == old(store.entries)
      ensures err.None? ==> Appended(crypto, priv, old(store.entries), store.entries, req, now, id)
    {
      var before := store.entries;
      if fault == SessionFails {
        return Some(TransactionFailed);
      }
      if fault == ReadFails {
        return Some(ReadLatestFailed);
      }
      var prev := store.Latest();
      var timestamp := TruncateToMillis(now);
      var e := new EntryRef(
        Entry(id, req.token, req.action, req.payload, req.thought, req.eventId, [], [], [], timestamp));
      if prev.Some? {
        e.value := e.value.(previousHash := prev.value.hash);
      }
      e.Chain(crypto, priv);
      assert e.value == NewEntry(crypto, priv, prev, req, now, id);
      err := store.Insert(e.value, fault == InsertFails);
      if err == None && fault == CommitFails {
        store.entries := before;  // the transaction is rolled back
        err := Some(TransactionFailed);
      }
    }

    method Append(token: Bytes, action: Bytes, payload: Bytes, now: Time, id: Bytes, fault: Fault)
      returns (err: Option<AppendError>)
      modifies store
      ensures err == AppendOutcome(old(store.entries), [], fault) != Some(DuplicateEvent)
      ensures err.Some? ==> store.entries == old(store.entries)
      ensures err.None? ==>
        Appended(crypto, priv, old(store.entries), store.entries, Request(token, action, payload, [], []), now, id)
    {
      err := AppendInternal(Request(token, action, payload, [], []), now, id, fault);
    }

    method AppendWithThought(token: Bytes, action: Bytes, payload: Bytes, thought: Bytes,
                             now: Time, id: Bytes, fault: Fault)
      returns (err: Option<AppendError>)
      modifies store
      ensures err == AppendOutcome(old(store.entries), [], fault) != Some(DuplicateEvent)
      ensures err.Some? ==> store.entries == old(store.entries)
      ensures err.None? ==>
        Appended(crypto, priv, old(store.entries), store.entries, Request(token, action, payload, thought, []), now, id)
    {
      err := AppendInternal(Request(token, action, payload, thought, []), now, id, fault);
    }

    method AppendWithEvent(token: Bytes, action: Bytes, payload: Bytes, eventId: Bytes,
                           now: Time, id: Bytes, fault: Fault)
      returns (err: Option<AppendError>)
      modifies store
      ensures err == AppendOutcome(old(store.entries), eventId, fault)
      ensures err.Some? ==> store.entries == old(store.entries)
      ensures err.None? ==>
        Appended(crypto, priv, old(store.entries), store.entries, Request(token, action, payload, [], eventId), now, id)
    {
      err := AppendInternal(Request(token, action, payload, [], eventId), now, id, fault);
    }

    method LoadHead(pub: Bytes, latestFails: bool, penultimateFails: bool) returns (r: Result<Entry, LoadError>)
      ensures latestFails ==> r == Err(QueryFailed)
      ensures !latestFails && store.entries == [] ==> r == Err(LedgerEmpty)
      ensures !latestFails && store.entries != [] && penultimateFails ==> r == Err(QueryFailed)
      ensures !latestFails && store.entries != [] && !penultimateFails ==>
        exists head, prev ::
          && IsLatest(store.entries, head) && PenultimateAnswer(store.entries, prev)
          && r == match HeadCheck(crypto, pub, head, prev)
                  case None => Ok(head)
                  case Some(e) => Err(HeadInvalid(e))
      ensures r.Ok? ==> IsHashed(crypto, r.value) && IsSigned(crypto, r.value, pub)
    {
      if latestFails {
        return Err(QueryFailed);
      }
      var head := store.Latest();
      if head.None? {
        return Err(LedgerEmpty);
      }
      if penultimateFails {
        return Err(QueryFailed);
      }
      var prev := store.Penultimate();
      var prevHash: Bytes := [];
      if prev.Some? {
        if prev.value.timestamp == head.value.timestamp {
          prevHash := head.value.previousHash;
        } else {
          prevHash := prev.value.hash;
        }
      }
      var err := Verify(crypto, head.value, prevHash, pub);
      VerifiedExactly(crypto, head.value, prevHash, pub);
      assert err == HeadCheck(crypto, pub, head.value, prev);
      if err.Some? {
        return Err(HeadInvalid(err.value));
      }
      return Ok(head.value);
    }
  }

  // ---- Queries always have an answer -----------------------------------------------------

  lemma {:induction false} LatestExists(es: seq<Entry>) returns (i: nat)
    requires es != []
    ensures i < |es| && IsLatest(es, es[i])
  {
    hide When;
    if |es| == 1 {
      i := 0;
    } else {
      var n := |es| - 1;
      i := LatestExists(es[..n]);
      var was := es[..n][i];
      assert was == es[i];
      forall k | 0 <= k < n ensures When(es[k]) <= When(was) {
        assert es[..n][k] == es[k];
      }
      if When(was) < When(es[n]) {
        i := n;
      }
    }
  }

  lemma PenultimateExists(es: seq<Entry>) returns (j: nat)
    requires |es| >= 2
    ensures j < |es| && IsPenultimate(es, es[j])
  {
    hide When;
    var i := LatestExists(es);
    var rest := es[..i] + es[i + 1..];
    var m := LatestExists(rest);
    j := if m < i then m else m + 1;
    forall k | 0 <= k < |es| && k != i ensures When(es[k]) <= When(es[j]) {
      assert es[k] == rest[if k < i then k else k - 1];
    }
  }
}

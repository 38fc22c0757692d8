/** What the startup check of the newest entry accepts and refuses. */
module HeadTheorems {
  import opened Wrappers
  import opened GoBytes
  import opened Timestamps
  import opened Audit
  import opened Ledger
  import opened LedgerTheorems

  // ---- When the two queries leave no choice ------------------------------------------------

  /** `h` is the only newest entry. */
  predicate NewestAt(es: seq<Entry>, h: int) {
    0 <= h < |es| && forall k {:trigger When(es[k])} :: 0 <= k < |es| && k != h ==> When(es[k]) < When(es[h])
  }

  /** Apart from `h`, no entry is newer than `p`. */
  predicate SecondAt(es: seq<Entry>, h: int, p: int) {
    && 0 <= p < |es| && p != h
    && forall k {:trigger When(es[k])} :: 0 <= k < |es| && k != h ==> When(es[k]) <= When(es[p])
  }

  ghost predicate OnlySecondAt(es: seq<Entry>, h: int, p: int) {
    SecondAt(es, h, p) && forall q {:trigger SecondAt(es, h, q)} :: SecondAt(es, h, q) ==> q == p
  }

  /** Two entries share the newest timestamp. */
  predicate TopShared(es: seq<Entry>) {
    exists i, j {:trigger es[i], es[j]} :: 0 <= i < j < |es| && IsLatest(es, es[i]) && IsLatest(es, es[j])
  }

  /** The newest entry and the second newest are single, and were inserted in this order. */
  ghost predicate TopInOrder(es: seq<Entry>) {
    exists p, h {:trigger OnlySecondAt(es, h, p)} :: p < h && NewestAt(es, h) && OnlySecondAt(es, h, p)
  }

  /** What a caller can read off the timestamps and the order of insertion. */
  ghost predicate Steady(es: seq<Entry>) {
    |es| <= 1 || TopShared(es) || TopInOrder(es)
  }

  lemma LatestIsNewest(es: seq<Entry>, h: int, head: Entry)
    requires NewestAt(es, h) && IsLatest(es, head)
    ensures head == es[h]
  {
    hide When;
    var k :| 0 <= k < |es| && es[k] == head;
    assert When(es[h]) <= When(es[k]);
  }

  /** With a single newest entry, the second query answers with a second one. */
  lemma PenultimateIsSecond(es: seq<Entry>, h: int, prev: Entry) returns (p: int)
    requires NewestAt(es, h) && IsPenultimate(es, prev)
    ensures SecondAt(es, h, p) && es[p] == prev
  {
    hide When;
    var i, j :|
      && 0 <= i < |es| && 0 <= j < |es| && i != j && es[j] == prev
      && IsLatest(es, es[i])
      && forall k {:trigger When(es[k])} :: 0 <= k < |es| && k != i ==> When(es[k]) <= When(prev);
    assert When(es[h]) <= When(es[i]);
    p := j;
  }

  lemma SecondIsPenultimate(es: seq<Entry>, h: int, p: int)
    requires NewestAt(es, h) && SecondAt(es, h, p)
    ensures IsLatest(es, es[h]) && IsPenultimate(es, es[p])
  {
    hide When;
    assert forall k :: 0 <= k < |es| && k != h ==> When(es[k]) < When(es[h]);
  }

  lemma SharedTopSharesTime(es: seq<Entry>, head: Entry, prev: Entry)
    requires TopShared(es) && IsLatest(es, head) && IsPenultimate(es, prev)
    ensures head.timestamp == prev.timestamp
  {
    hide When, IsPenultimate;
    var x, y :| 0 <= x < y < |es| && IsLatest(es, es[x]) && IsLatest(es, es[y]);
    var i := AnotherIsPenultimate(es, prev);
    var other := if i == x then y else x;
    assert When(es[other]) <= When(prev);
    var k :| 0 <= k < |es| && es[k] == head;
    assert When(es[k]) <= When(es[other]);
    var m :| 0 <= m < |es| && es[m] == prev;
    assert When(es[m]) <= When(head);
    SameKeySameTime(head.timestamp, prev.timestamp) by { KeysAre(head, prev); }
  }

  lemma KeysAre(a: Entry, b: Entry)
    requires When(a) == When(b)
    ensures a.timestamp.Key() == b.timestamp.Key()
  {}

  lemma AnotherIsPenultimate(es: seq<Entry>, prev: Entry) returns (i: int)
    requires IsPenultimate(es, prev)
    ensures 0 <= i < |es| && prev in es
    ensures forall k {:trigger When(es[k])} :: 0 <= k < |es| && k != i ==> When(es[k]) <= When(prev)
  {
    hide When;
    var n, j :|
      && 0 <= n < |es| && 0 <= j < |es| && n != j && es[j] == prev
      && IsLatest(es, es[n])
      && forall k {:trigger When(es[k])} :: 0 <= k < |es| && k != n ==> When(es[k]) <= When(prev);
    i := n;
  }

  lemma NoPenultimate(es: seq<Entry>, prev: Option<Entry>)
    requires |es| < 2 && PenultimateAnswer(es, prev)
    ensures prev == None
  {}

  lemma DifferentTimes(a: Entry, b: Entry)
    requires When(a) != When(b)
    ensures a.timestamp != b.timestamp
  {}

  // ---- Acceptance ------------------------------------------------------------------------

  /** When `h` was inserted, the only second newest entry was the newest. */
  lemma OrderedLink(c: Crypto, pub: Bytes, es: seq<Entry>, p: int, h: int)
    requires LedgerInv(c, pub, es) && p < h && NewestAt(es, h) && OnlySecondAt(es, h, p)
    ensures es[h].previousHash == es[p].hash
  {
    hide When, SelfValid, UniqueEvents;
    assert LinksBack(es, h);
    var j :| 0 <= j < h && es[h].previousHash == es[j].hash && IsLatest(es[..h], es[j]);
    assert es[..h][p] == es[p];
    assert When(es[..h][p]) <= When(es[j]);
    assert SecondAt(es, h, j);
  }

  /** The link the check expects is the head's own. */
  lemma SteadyLink(c: Crypto, pub: Bytes, es: seq<Entry>, head: Entry, prev: Option<Entry>)
    requires LedgerInv(c, pub, es) && Steady(es)
    requires IsLatest(es, head) && PenultimateAnswer(es, prev)
    ensures head.previousHash == ExpectedLink(head, prev)
  {
    hide When, LedgerInv, IsPenultimate, OnlySecondAt, IsLatest;
    if |es| <= 1 {
      LoneHead(c, pub, es, head, prev);
    } else if TopShared(es) {
      SharedTopSharesTime(es, head, prev.value);
    } else {
      var p, h :| p < h && NewestAt(es, h) && OnlySecondAt(es, h, p);
      LatestIsNewest(es, h, head);
      var q := PenultimateIsSecond(es, h, prev.value);
      OnlyOneSecond(es, h, p, q);
      OrderedLink(c, pub, es, p, h);
      assert When(es[p]) < When(es[h]);
      DifferentTimes(prev.value, head);
    }
  }

  lemma OnlyOneSecond(es: seq<Entry>, h: int, p: int, q: int)
    requires OnlySecondAt(es, h, p) && SecondAt(es, h, q)
    ensures p == q
  {}

  lemma OnlyEntry(es: seq<Entry>, head: Entry)
    requires |es| <= 1 && IsLatest(es, head)
    ensures |es| == 1 && es[0] == head
  {}

  lemma LoneHead(c: Crypto, pub: Bytes, es: seq<Entry>, head: Entry, prev: Option<Entry>)
    requires LedgerInv(c, pub, es) && |es| <= 1 && IsLatest(es, head) && PenultimateAnswer(es, prev)
    ensures prev == None && head.previousHash == []
  {
    hide LedgerInv, IsLatest, PenultimateAnswer, Verify, ComputeHash;
    NoPenultimate(es, prev);
    OnlyEntry(es, head);
    SelfFacts(c, pub, es, 0);
  }

  lemma SteadyHeadIsAccepted(c: Crypto, pub: Bytes, es: seq<Entry>, head: Entry, prev: Option<Entry>)
    requires LedgerInv(c, pub, es) && Steady(es)
    requires IsLatest(es, head) && PenultimateAnswer(es, prev)
    ensures HeadCheck(c, pub, head, prev) == None
  {
    hide Verify, LedgerInv, Steady, PenultimateAnswer, ExpectedLink;
    SteadyLink(c, pub, es, head, prev);
    var k :| 0 <= k < |es| && es[k] == head;
    SelfFacts(c, pub, es, k);
  }

  /** Timestamps strictly increase, except that the last two entries may share one. */
  predicate StrictButLastTwo(es: seq<Entry>) {
    forall i, j {:trigger When(es[i]), When(es[j])} :: 0 <= i < j < |es| ==>
      When(es[i]) < When(es[j]) || (i == |es| - 2 && When(es[i]) == When(es[j]))
  }

  lemma StrictlySecond(es: seq<Entry>, h: int, p: int)
    requires 0 <= p < |es| && p != h
    requires forall k {:trigger When(es[k])} :: 0 <= k < |es| && k != h && k != p ==> When(es[k]) < When(es[p])
    ensures OnlySecondAt(es, h, p)
  {
    hide When;
    assert SecondAt(es, h, p);
    forall q {:trigger SecondAt(es, h, q)} | SecondAt(es, h, q) ensures q == p {
      assert When(es[p]) <= When(es[q]);
    }
  }

  lemma StrictIsSteady(es: seq<Entry>)
    requires StrictButLastTwo(es)
    ensures Steady(es)
  {
    hide When;
    var n := |es|;
    if n >= 2 {
      assert When(es[n - 2]) <= When(es[n - 1]);
      forall k | 0 <= k < n - 2 ensures When(es[k]) < When(es[n - 2]) && When(es[k]) < When(es[n - 1]) {}
      if When(es[n - 2]) == When(es[n - 1]) {
        assert IsLatest(es, es[n - 2]) && IsLatest(es, es[n - 1]);
      } else {
        StrictlySecond(es, n - 1, n - 2);
      }
    }
  }

  /** `LoadHead` accepts every ledger the writer built on a clock that ties at most in the last two entries. */
  lemma WriterBuiltHeadIsAccepted(c: Crypto, pub: Bytes, es: seq<Entry>, head: Entry, prev: Option<Entry>)
    requires LedgerInv(c, pub, es) && StrictButLastTwo(es)
    requires IsLatest(es, head) && PenultimateAnswer(es, prev)
    ensures HeadCheck(c, pub, head, prev) == None
  {
    hide Steady, StrictButLastTwo;
    StrictIsSteady(es);
    SteadyHeadIsAccepted(c, pub, es, head, prev);
  }

  // ---- Refusal ---------------------------------------------------------------------------

  /** Whichever entries the store answers with, the check passes. */
  ghost predicate HeadAlwaysAccepted(c: Crypto, pub: Bytes, es: seq<Entry>) {
    forall head, prev :: IsLatest(es, head) && PenultimateAnswer(es, prev) ==> HeadCheck(c, pub, head, prev) == None
  }

  /** Entries of a ledger with the same hash have the same covered fields, if none collide. */
  lemma SameHashSameFields(c: Crypto, pub: Bytes, es: seq<Entry>, i: nat, j: nat)
    requires LedgerInv(c, pub, es) && AllFit(es) && !Collision(c, es, es)
    requires i < |es| && j < |es| && es[i].hash == es[j].hash
    ensures Fields(es[i]) == Fields(es[j])
  {
    hide LedgerInv, Collide, Fits;
    SelfFacts(c, pub, es, i);
    SelfFacts(c, pub, es, j);
    assert Fits(Fields(es[i])) && Fits(Fields(es[j]));
    SameHash(c, es[i], es[j]);
  }

  /** The entry a later one links to. */
  lemma Parent(c: Crypto, pub: Bytes, es: seq<Entry>, i: nat) returns (j: nat)
    requires LedgerInv(c, pub, es) && 0 < i < |es|
    ensures j < i && es[i].previousHash == es[j].hash
    ensures forall k {:trigger When(es[k])} :: 0 <= k < i ==> When(es[k]) <= When(es[j])
  {
    hide When, SelfValid, UniqueEvents;
    assert LinksBack(es, i);
    var p :| 0 <= p < i && es[i].previousHash == es[p].hash && IsLatest(es[..i], es[p]);
    forall k | 0 <= k < i ensures When(es[k]) <= When(es[p]) {
      assert es[..i][k] == es[k];
    }
    j := p;
  }

  /** No entry links to its own hash: that would descend to the first entry. */
  lemma {:induction false} NoSelfLink(c: Crypto, pub: Bytes, es: seq<Entry>, i: nat)
    requires LedgerInv(c, pub, es) && AllFit(es) && !Collision(c, es, es) && i < |es|
    ensures es[i].previousHash != es[i].hash
  {
    hide LedgerInv, AllFit, Collision;
    SelfFacts(c, pub, es, i);
    if i > 0 && es[i].previousHash == es[i].hash {
      var j := Parent(c, pub, es, i);
      SameHashSameFields(c, pub, es, i, j);
      NoSelfLink(c, pub, es, j);
      assert false;
    }
  }

  lemma AcceptedSecondIsLinked(c: Crypto, pub: Bytes, es: seq<Entry>, h: int, p: int)
    requires HeadAlwaysAccepted(c, pub, es) && NewestAt(es, h) && SecondAt(es, h, p)
    ensures es[h].previousHash == es[p].hash
  {
    hide When, IsLatest, IsPenultimate;
    SecondIsPenultimate(es, h, p);
    assert When(es[p]) < When(es[h]);
    DifferentTimes(es[p], es[h]);
    assert PenultimateAnswer(es, Some(es[p]));
    assert HeadCheck(c, pub, es[h], Some(es[p])) == None;
  }

  /** An always accepted single newest entry links to a second newest one inserted before it. */
  lemma SecondBeforeNewest(c: Crypto, pub: Bytes, es: seq<Entry>, h: int, q: int) returns (p: int)
    requires LedgerInv(c, pub, es) && AllFit(es) && !Collision(c, es, es)
    requires HeadAlwaysAccepted(c, pub, es) && NewestAt(es, h) && SecondAt(es, h, q)
    ensures SecondAt(es, h, p) && p < h
  {
    hide When, LedgerInv, AllFit, Collision, HeadAlwaysAccepted;
    AcceptedSecondIsLinked(c, pub, es, h, q);
    SelfFacts(c, pub, es, h);
    SelfFacts(c, pub, es, q);
    p := Parent(c, pub, es, h);
    SameHashSameFields(c, pub, es, p, q);
    SameFieldsSameTime(es[p], es[q]);
  }

  lemma SameFieldsSameTime(a: Entry, b: Entry)
    requires Fields(a) == Fields(b)
    ensures When(a) == When(b) && a.previousHash == b.previousHash
  {}

  /** Two second newest entries cannot both carry the hash the newest one links to. */
  lemma NoTwins(c: Crypto, pub: Bytes, es: seq<Entry>, h: int, p: int, q: int)
    requires LedgerInv(c, pub, es) && AllFit(es) && !Collision(c, es, es)
    requires NewestAt(es, h) && SecondAt(es, h, p) && SecondAt(es, h, q) && p < q && p < h
    ensures exists x :: SecondAt(es, h, x) && es[x].hash != es[h].previousHash
  {
    hide When, LedgerInv, AllFit, Collision;
    if forall x :: SecondAt(es, h, x) ==> es[x].hash == es[h].previousHash {
      SelfFacts(c, pub, es, h);
      SameHashSameFields(c, pub, es, p, q);
      SameFieldsSameTime(es[p], es[q]);
      var r := Parent(c, pub, es, q);
      if q < h {
        assert When(es[p]) <= When(es[r]);
        assert SecondAt(es, h, r);
        NoSelfLink(c, pub, es, q);
        assert false;
      } else {
        assert When(es[h]) <= When(es[r]);
        assert r == h;
        SelfFacts(c, pub, es, p);
        var s := Parent(c, pub, es, p);
        SameHashSameFields(c, pub, es, s, h);
        SameFieldsSameTime(es[s], es[h]);
        assert false;
      }
    }
  }

  lemma AcceptedIsSteady(c: Crypto, pub: Bytes, es: seq<Entry>)
    requires LedgerInv(c, pub, es) && AllFit(es) && !Collision(c, es, es)
    requires HeadAlwaysAccepted(c, pub, es)
    ensures Steady(es)
  {
    hide When, LedgerInv, AllFit, Collision, HeadAlwaysAccepted, TopShared, IsPenultimate;
    if |es| >= 2 && !TopShared(es) {
      var h := SingleNewest(es);
      var m := PenultimateExists(es);
      var q := PenultimateIsSecond(es, h, es[m]);
      var p := SecondBeforeNewest(c, pub, es, h, q);
      forall x | SecondAt(es, h, x) ensures x == p {
        if x != p {
          NoTwins(c, pub, es, h, if x < p then x else p, if x < p then p else x);
          var y :| SecondAt(es, h, y) && es[y].hash != es[h].previousHash;
          AcceptedSecondIsLinked(c, pub, es, h, y);
          assert false;
        }
      }
      assert OnlySecondAt(es, h, p);
    }
  }

  lemma SingleNewest(es: seq<Entry>) returns (h: int)
    requires es != [] && !TopShared(es)
    ensures NewestAt(es, h)
  {
    hide When;
    var m := LatestExists(es);
    h := m;
    forall k | 0 <= k < |es| && k != h ensures When(es[k]) < When(es[h]) {
      assert When(es[k]) <= When(es[h]);
      if When(es[k]) == When(es[h]) {
        TiedTop(es, k, h);
        assert false;
      }
    }
  }

  lemma TiedTop(es: seq<Entry>, k: int, h: int)
    requires 0 <= k < |es| && 0 <= h < |es| && k != h && IsLatest(es, es[h]) && When(es[k]) == When(es[h])
    ensures TopShared(es)
  {
    hide When;
    assert IsLatest(es, es[k]);
    var i, j := if k < h then k else h, if k < h then h else k;
    assert 0 <= i < j < |es| && IsLatest(es, es[i]) && IsLatest(es, es[j]);
  }

  /**
   * The startup check accepts a writer-built ledger, however the store resolves ties, exactly
   * when it has at most one entry, or its newest timestamp is shared, or its newest entry and
   * its second newest entry are single and were inserted in this order; barring a collision.
   */
  lemma HeadAcceptedExactly(c: Crypto, pub: Bytes, es: seq<Entry>)
    requires LedgerInv(c, pub, es) && AllFit(es)
    ensures Collision(c, es, es) || (HeadAlwaysAccepted(c, pub, es) <==> Steady(es))
  {
    hide LedgerInv, AllFit, Collision, Steady, IsLatest, PenultimateAnswer, HeadCheck;
    if Steady(es) {
      forall head, prev | IsLatest(es, head) && PenultimateAnswer(es, prev)
        ensures HeadCheck(c, pub, head, prev) == None
      {
        SteadyHeadIsAccepted(c, pub, es, head, prev);
      }
    } else if HeadAlwaysAccepted(c, pub, es) && !Collision(c, es, es) {
      AcceptedIsSteady(c, pub, es);
    }
  }

  /**
   * A refusal can arise: three appends, the first two in the same millisecond, leave an intact
   * ledger whose startup check fails when the store answers with the first one.
   */
  lemma RefusedLedgerIsReachable(c: Crypto, priv: Bytes, req: Request, t0: Time, t1: Time,
                                 id0: Bytes, id1: Bytes, id2: Bytes)
    returns (run: seq<seq<Entry>>)
    requires SignaturesVerify(c) && req.eventId == []
    requires Fits(Covered([], req.action, req.payload, req.thought, t0))
    requires TruncateToMillis(t0).Key() < TruncateToMillis(t1).Key()
    ensures |run| == 4 && |run[3]| == 3 && IsRun(c, priv, run)
    ensures var es := run[3];
            && IsLatest(es, es[2]) && PenultimateAnswer(es, Some(es[0]))
            && (HeadCheck(c, c.public(priv), es[2], Some(es[0])) == Some(BrokenChain) || Collide(c, es[0], es[1]))
  {
    hide NewEntry, Verify, SignaturesVerify, IsLatest, PenultimateAnswer, Step, Collide, IsRun;
    var e0 := NewEntry(c, priv, None, req, t0, id0);
    var e1 := NewEntry(c, priv, Some(e0), req, t0, id1);
    var e2 := NewEntry(c, priv, Some(e1), req, t1, id2);
    run := [[], [e0], [e0, e1], [e0, e1, e2]];
    NewEntryFacts(c, priv, None, req, t0, id0);
    NewEntryFacts(c, priv, Some(e0), req, t0, id1);
    NewEntryFacts(c, priv, Some(e1), req, t1, id2);
    TiedPairAnswers(e0, e1, e2);
    FirstAppend(c, priv, req, t0, id0);
    NextAppend(c, priv, [e0], e0, req, t0, id1);
    NextAppend(c, priv, [e0, e1], e1, req, t1, id2);
    assert [e0] + [e1] == [e0, e1] && [e0, e1] + [e2] == [e0, e1, e2];
    FourStates(c, priv, [e0], [e0, e1], [e0, e1, e2]);
    if e0.hash == e1.hash {
      SameHash(c, e0, e1);
    } else {
      DifferentTimes(e0, e2);
      BrokenHead(c, c.public(priv), e2, e0);
    }
  }

  lemma FourStates(c: Crypto, priv: Bytes, a: seq<Entry>, b: seq<Entry>, d: seq<Entry>)
    requires Step(c, priv, [], a) && Step(c, priv, a, b) && Step(c, priv, b, d)
    ensures IsRun(c, priv, [[], a, b, d])
  {
    hide Step;
  }

  lemma NewEntryFacts(c: Crypto, priv: Bytes, prev: Option<Entry>, req: Request, now: Time, id: Bytes)
    ensures var e := NewEntry(c, priv, prev, req, now, id);
            && e.hash == ComputeHash(c, e) && |e.hash| == 32
            && e.previousHash == (if prev.Some? then prev.value.hash else [])
            && When(e) == TruncateToMillis(now).Key()
            && Fields(e) == Covered(e.previousHash, req.action, req.payload, req.thought, TruncateToMillis(now))
  {
    hide Canonical, TruncateToMillis;
    assert Fields(NewEntry(c, priv, prev, req, now, id))
        == Fields(NewEntry(c, priv, prev, req, now, id).(hash := [], signature := []));
  }

  lemma BrokenHead(c: Crypto, pub: Bytes, head: Entry, prev: Entry)
    requires head.previousHash != prev.hash && head.timestamp != prev.timestamp
    ensures HeadCheck(c, pub, head, Some(prev)) == Some(BrokenChain)
  {}

  lemma FirstAppend(c: Crypto, priv: Bytes, req: Request, now: Time, id: Bytes)
    requires req.eventId == []
    ensures Step(c, priv, [], [NewEntry(c, priv, None, req, now, id)])
  {
    hide NewEntry;
    var e := NewEntry(c, priv, None, req, now, id);
    assert [] + [e] == [e] && LatestAnswer([], None);
    assert Appended(c, priv, [], [e], req, now, id);
  }

  lemma NextAppend(c: Crypto, priv: Bytes, es: seq<Entry>, prev: Entry, req: Request, now: Time, id: Bytes)
    requires req.eventId == [] && IsLatest(es, prev)
    ensures Step(c, priv, es, es + [NewEntry(c, priv, Some(prev), req, now, id)])
  {
    hide NewEntry, IsLatest;
    assert LatestAnswer(es, Some(prev));
    assert Appended(c, priv, es, es + [NewEntry(c, priv, Some(prev), req, now, id)], req, now, id);
  }

  lemma TiedPairAnswers(e0: Entry, e1: Entry, e2: Entry)
    requires When(e0) == When(e1) < When(e2)
    ensures IsLatest([e0], e0) && IsLatest([e0, e1], e1)
    ensures IsLatest([e0, e1, e2], e2) && PenultimateAnswer([e0, e1, e2], Some(e0))
  {
    hide When;
    var es := [e0, e1, e2];
    assert NewestAt(es, 2) && SecondAt(es, 2, 0);
    SecondIsPenultimate(es, 2, 0);
  }

  // ---- Deletion --------------------------------------------------------------------------

  /** The ledger with entry `p` deleted. */
  function Without(es: seq<Entry>, p: nat): (rest: seq<Entry>)
    requires p < |es|
    ensures |rest| == |es| - 1
    ensures forall i :: 0 <= i < |rest| ==> rest[i] == es[if i < p then i else i + 1]
  {
    es[..p] + es[p + 1..]
  }

  /** Another entry has the same covered fields as `p`, and so the same hash. */
  predicate HasTwin(es: seq<Entry>, p: nat)
    requires p < |es|
  {
    exists k :: 0 <= k < |es| && k != p && Fields(es[k]) == Fields(es[p])
  }

  /** Whichever entries the store answers with, the check finds the link broken. */
  ghost predicate HeadAlwaysRefused(c: Crypto, pub: Bytes, es: seq<Entry>) {
    forall head, prev :: IsLatest(es, head) && PenultimateAnswer(es, prev) ==>
      HeadCheck(c, pub, head, prev) == Some(BrokenChain)
  }

  /**
   * Deleting the entry that a newest entry links to, on any clock: every answer of the store is
   * refused exactly when the newest timestamp left is unshared, and every answer is accepted when
   * it is shared; unless two entries collide, or the deleted entry has a twin to stand in for it.
   */
  lemma DeletionIsRefusedExactly(c: Crypto, pub: Bytes, es: seq<Entry>, p: nat, h: nat)
    requires LedgerInv(c, pub, es) && AllFit(es)
    requires p < h < |es| && es[h].previousHash == es[p].hash && IsLatest(Without(es, p), es[h])
    ensures Collision(c, es, es) || HasTwin(es, p)
            || (HeadAlwaysRefused(c, pub, Without(es, p)) <==> !TopShared(Without(es, p)))
    ensures TopShared(Without(es, p)) ==> HeadAlwaysAccepted(c, pub, Without(es, p))
  {
    hide LedgerInv, AllFit, Collision, IsLatest, PenultimateAnswer, HeadCheck, TopShared, Without, HasTwin, Verify;
    var rest := Without(es, p);
    if TopShared(rest) {
      forall head, prev | IsLatest(rest, head) && PenultimateAnswer(rest, prev)
        ensures HeadCheck(c, pub, head, prev) == None
      {
        SharedTopIsAccepted(c, pub, es, p, head, prev);
      }
      var prev := SomeAnswer(rest);
      assert HeadCheck(c, pub, es[h], prev) == None;
    } else if !Collision(c, es, es) && !HasTwin(es, p) {
      forall head, prev | IsLatest(rest, head) && PenultimateAnswer(rest, prev)
        ensures HeadCheck(c, pub, head, prev) == Some(BrokenChain)
      {
        MissingParentIsNoticed(c, pub, es, p, h, head, prev);
      }
    }
  }

  lemma SomeAnswer(es: seq<Entry>) returns (prev: Option<Entry>)
    ensures PenultimateAnswer(es, prev)
  {
    if |es| < 2 {
      prev := None;
    } else {
      var j := PenultimateExists(es);
      prev := Some(es[j]);
    }
  }

  lemma SharedTopIsAccepted(c: Crypto, pub: Bytes, es: seq<Entry>, p: nat, head: Entry, prev: Option<Entry>)
    requires LedgerInv(c, pub, es) && p < |es| && TopShared(Without(es, p))
    requires IsLatest(Without(es, p), head) && PenultimateAnswer(Without(es, p), prev)
    ensures HeadCheck(c, pub, head, prev) == None
  {
    hide LedgerInv, IsPenultimate, Verify, When;
    var rest := Without(es, p);
    SharedTopSharesTime(rest, head, prev.value);
    var i :| 0 <= i < |rest| && rest[i] == head;
    SelfFacts(c, pub, es, if i < p then i else i + 1);
  }

  /** The only newest entry left links to a hash that no entry left has. */
  lemma MissingParentIsNoticed(c: Crypto, pub: Bytes, es: seq<Entry>, p: nat, h: nat,
                               head: Entry, prev: Option<Entry>)
    requires LedgerInv(c, pub, es) && AllFit(es) && !Collision(c, es, es)
    requires p < h < |es| && es[h].previousHash == es[p].hash && !HasTwin(es, p)
    requires IsLatest(Without(es, p), es[h]) && !TopShared(Without(es, p))
    requires IsLatest(Without(es, p), head) && PenultimateAnswer(Without(es, p), prev)
    ensures HeadCheck(c, pub, head, prev) == Some(BrokenChain)
  {
    hide LedgerInv, AllFit, Collision, IsPenultimate, IsLatest, TopShared, When;
    var rest := Without(es, p);
    var n := SingleNewest(rest);
    LatestIsNewest(rest, n, es[h]);
    LatestIsNewest(rest, n, head);
    if prev == None {
      SelfFacts(c, pub, es, p);
    } else {
      var q := PenultimateIsSecond(rest, n, prev.value);
      assert When(rest[q]) < When(rest[n]);
      DifferentTimes(prev.value, head);
      NotItsHash(c, pub, es, p, if q < p then q else q + 1);
    }
  }

  lemma NotItsHash(c: Crypto, pub: Bytes, es: seq<Entry>, p: nat, k: nat)
    requires LedgerInv(c, pub, es) && AllFit(es) && !Collision(c, es, es) && p < |es| && !HasTwin(es, p)
    requires k < |es| && k != p
    ensures es[k].hash != es[p].hash
  {
    hide LedgerInv, AllFit, Collision;
    if es[k].hash == es[p].hash {
      SameHashSameFields(c, pub, es, k, p);
      assert false;
    }
  }

  /** On a strictly increasing clock the entry before the newest cannot be deleted unnoticed. */
  lemma DeletionUnderHeadIsRefused(c: Crypto, pub: Bytes, es: seq<Entry>, head: Entry, prev: Option<Entry>)
    requires LedgerInv(c, pub, es) && AllFit(es) && StrictTimes(es) && |es| >= 2
    requires IsLatest(Without(es, |es| - 2), head) && PenultimateAnswer(Without(es, |es| - 2), prev)
    ensures HeadCheck(c, pub, head, prev) == Some(BrokenChain) || Collision(c, es, es)
  {
    hide When, LedgerInv, AllFit, Collision, IsPenultimate, Verify, PenultimateAnswer, HeadCheck;
    var n := |es|;
    StrictLink(c, pub, es, n - 1) by { StrictBefore(es, n - 2); }
    StrictCut(es);
    if !Collision(c, es, es) {
      MissingParentIsNoticed(c, pub, es, n - 2, n - 1, head, prev);
    }
  }

  lemma StrictBefore(es: seq<Entry>, p: nat)
    requires StrictTimes(es) && p < |es|
    ensures forall k :: 0 <= k < p ==> When(es[k]) < When(es[p])
  {
    hide When;
  }

  lemma NewestIsUnshared(es: seq<Entry>, h: int)
    requires NewestAt(es, h)
    ensures IsLatest(es, es[h]) && !TopShared(es)
  {
    hide When;
    assert forall i {:trigger IsLatest(es, es[i])} :: 0 <= i < |es| && IsLatest(es, es[i]) ==> i == h by {
      forall i | 0 <= i < |es| && IsLatest(es, es[i]) ensures i == h {
        assert When(es[h]) <= When(es[i]);
      }
    }
  }

  lemma StrictHasNoTwin(es: seq<Entry>, p: nat)
    requires StrictTimes(es) && p < |es|
    ensures !HasTwin(es, p)
  {
    forall k | 0 <= k < |es| && k != p ensures Fields(es[k]) != Fields(es[p]) {
      assert When(es[k]) != When(es[p]);
    }
  }

  /** What is left has its last entry as the only newest one, and nothing like the deleted entry. */
  lemma StrictCut(es: seq<Entry>)
    requires StrictTimes(es) && |es| >= 2
    ensures var rest := Without(es, |es| - 2);
            IsLatest(rest, es[|es| - 1]) && !TopShared(rest) && !HasTwin(es, |es| - 2)
  {
    hide When, IsLatest, TopShared, HasTwin, Without;
    var n := |es|;
    var rest := Without(es, n - 2);
    StrictHasNoTwin(es, n - 2);
    forall k | 0 <= k < n - 2 ensures When(rest[k]) < When(rest[n - 2]) {
      assert When(es[k]) < When(es[n - 1]);
    }
    NewestIsUnshared(rest, n - 2);
  }
}

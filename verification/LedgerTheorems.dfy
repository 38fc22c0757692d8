/**
 * What every run of appends keeps, for any clock and any resolution of timestamp
 * ties, and exactly when the full walk and the startup check accept the result.
 */
module LedgerTheorems {
  import opened Wrappers
  import opened GoBytes
  import opened Timestamps
  import opened Audit
  import opened Ledger

  // ---- The invariant of all runs ---------------------------------------------------------

  /** Entry `i` links to an entry inserted earlier that was then a latest one. */
  predicate LinksBack(es: seq<Entry>, i: nat)
    requires i < |es|
  {
    exists j ::
      && 0 <= j < i
      && es[i].previousHash == es[j].hash
      && IsLatest(es[..i], es[j])
  }

  /** Hash and signature of an entry hold against its own link. */
  predicate SelfValid(c: Crypto, e: Entry, pub: Bytes) {
    Verify(c, e, e.previousHash, pub) == None
  }

  predicate UniqueEvents(es: seq<Entry>) {
    forall i, j :: 0 <= i < j < |es| && es[i].sourceEventId != [] ==> es[i].sourceEventId != es[j].sourceEventId
  }

  ghost predicate LedgerInv(c: Crypto, pub: Bytes, es: seq<Entry>) {
    && (forall i {:trigger SelfValid(c, es[i], pub)} :: 0 <= i < |es| ==> SelfValid(c, es[i], pub))
    && (forall i :: 0 <= i < |es| ==> es[i].timestamp.nanos % 1_000_000 == 0)
    && (es != [] ==> es[0].previousHash == [])
    && (forall i :: 1 <= i < |es| ==> LinksBack(es, i))
    && UniqueEvents(es)
  }

  /** One step of a run: an append that fails and changes nothing, or one that succeeds. */
  ghost predicate Step(c: Crypto, priv: Bytes, before: seq<Entry>, after: seq<Entry>) {
    || after == before
    || exists req: Request, now: Time, id: Bytes ::
         !HasEvent(before, req.eventId) && Appended(c, priv, before, after, req, now, id)
  }

  /** A run of the ledger from empty, over all writers and interleavings of their appends. */
  ghost predicate IsRun(c: Crypto, priv: Bytes, run: seq<seq<Entry>>) {
    && run != [] && run[0] == []
    && forall i :: 0 <= i < |run| - 1 ==> Step(c, priv, run[i], run[i + 1])
  }

  lemma AppendKeepsInv(c: Crypto, priv: Bytes, before: seq<Entry>, prev: Option<Entry>,
                       req: Request, now: Time, id: Bytes)
    requires SignaturesVerify(c) && LedgerInv(c, c.public(priv), before)
    requires LatestAnswer(before, prev) && !HasEvent(before, req.eventId)
    ensures LedgerInv(c, c.public(priv), before + [NewEntry(c, priv, prev, req, now, id)])
  {
    hide Canonical, Fields, When;
    var e, n := NewEntry(c, priv, prev, req, now, id), |before|;
    var after := before + [e];
    var bare := e.(hash := [], signature := []);
    ChainedVerifies(c, priv, bare);
    assert SelfValid(c, e, c.public(priv));
    forall i | 1 <= i < |after| ensures LinksBack(after, i) {
      assert after[..i] == before[..i];
      if i < n {
        assert LinksBack(before, i);
      } else {
        var j :| 0 <= j < n && before[j] == prev.value;
        assert after[j] == before[j] && before[..n] == before;
      }
    }
  }

  /** Every state of every run keeps the ledger's invariant. */
  lemma {:induction false} RunKeepsInv(c: Crypto, priv: Bytes, run: seq<seq<Entry>>, i: nat)
    requires SignaturesVerify(c) && IsRun(c, priv, run) && i < |run|
    ensures LedgerInv(c, c.public(priv), run[i])
  {
    if i > 0 {
      RunKeepsInv(c, priv, run, i - 1);
      var before, after := run[i - 1], run[i];
      assert Step(c, priv, run[i - 1], run[i - 1 + 1]);
      if after != before {
        var req: Request, now: Time, id: Bytes :|
          !HasEvent(before, req.eventId) && Appended(c, priv, before, after, req, now, id);
        var prev :| LatestAnswer(before, prev) && after == before + [NewEntry(c, priv, prev, req, now, id)];
        AppendKeepsInv(c, priv, before, prev, req, now, id);
      }
    }
  }

  lemma SelfFacts(c: Crypto, pub: Bytes, es: seq<Entry>, i: nat)
    requires LedgerInv(c, pub, es) && i < |es|
    ensures es[i].hash == ComputeHash(c, es[i]) && |es[i].hash| == 32
    ensures Verify(c, es[i], es[i].previousHash, pub) == None
    ensures i == 0 <==> es[i].previousHash == []
  {
    assert SelfValid(c, es[i], pub);
    if i > 0 {
      assert LinksBack(es, i);
      var j :| 0 <= j < i && es[i].previousHash == es[j].hash;
      assert SelfValid(c, es[j], pub);
    }
  }

  /**
   * The ledger is a tree: one root, and every other entry links to an earlier one; all verify,
   * event ids are unique.
   */
  lemma LedgerIsATree(c: Crypto, priv: Bytes, run: seq<seq<Entry>>, n: nat)
    requires SignaturesVerify(c) && IsRun(c, priv, run) && n < |run|
    ensures var es := run[n];
            && (forall i :: 0 <= i < |es| ==> (es[i].previousHash == [] <==> i == 0))
            && (forall i :: 1 <= i < |es| ==> exists j :: 0 <= j < i && es[i].previousHash == es[j].hash)
            && (forall i :: 0 <= i < |es| ==> Verify(c, es[i], es[i].previousHash, c.public(priv)) == None)
            && UniqueEvents(es)
  {
    hide SelfValid, Verify, UniqueEvents;
    var es := run[n];
    RunKeepsInv(c, priv, run, n);
    forall i | 0 <= i < |es|
      ensures es[i].previousHash == [] <==> i == 0
      ensures Verify(c, es[i], es[i].previousHash, c.public(priv)) == None
    {
      SelfFacts(c, c.public(priv), es, i);
    }
    forall i | 1 <= i < |es| ensures exists j :: 0 <= j < i && es[i].previousHash == es[j].hash {
      assert LinksBack(es, i);
    }
  }

  // ---- The trip through the database --------------------------------------------------------

  /** An entry as it comes back: BSON keeps milliseconds. */
  function ReadBack(e: Entry): Entry {
    e.(timestamp := TruncateToMillis(e.timestamp))
  }

  /** A stored hash still matches after the trip exactly when the timestamp was truncated before hashing. */
  lemma ReadBackVerifiesExactly(c: Crypto, e: Entry)
    requires e.hash == ComputeHash(c, e) && Fits(Fields(e))
    ensures Collide(c, e, ReadBack(e))
            || (ComputeHash(c, ReadBack(e)) == e.hash <==> e.timestamp.nanos % 1_000_000 == 0)
  {
    hide Canonical;
    var r := ReadBack(e);
    assert r.timestamp == e.timestamp <==> e.timestamp.nanos % 1_000_000 == 0;
    if Canonical(Fields(r)) == Canonical(Fields(e)) {
      CanonicalInjective(Fields(r), Fields(e));
    }
  }

  // ---- Time order and insertion order ------------------------------------------------------

  predicate StrictTimes(es: seq<Entry>) {
    forall i, j {:trigger When(es[i]), When(es[j])} :: 0 <= i < j < |es| ==> When(es[i]) < When(es[j])
  }

  /** Every entry links to the one inserted just before it. */
  predicate Linear(es: seq<Entry>) {
    forall i :: 0 <= i < |es| ==> es[i].previousHash == LinkOf(es, i)
  }

  lemma StrictIsLinear(c: Crypto, pub: Bytes, es: seq<Entry>)
    requires LedgerInv(c, pub, es) && StrictTimes(es)
    ensures Linear(es)
  {
    forall i | 0 <= i < |es| ensures es[i].previousHash == LinkOf(es, i) {
      if i > 0 {
        StrictLink(c, pub, es, i);
      }
    }
  }

  lemma StrictLink(c: Crypto, pub: Bytes, es: seq<Entry>, i: nat)
    requires LedgerInv(c, pub, es) && 1 <= i < |es|
    requires forall k :: 0 <= k < i - 1 ==> When(es[k]) < When(es[i - 1])
    ensures es[i].previousHash == es[i - 1].hash
  {
    hide When, SelfValid, UniqueEvents;
    assert LinksBack(es, i);
    var j :| 0 <= j < i && es[i].previousHash == es[j].hash && IsLatest(es[..i], es[j]);
    assert es[..i][i - 1] == es[i - 1];
  }

  /** In insertion order a ledger is an accepted chain exactly when every entry links to the one before it. */
  lemma LinearIsValid(c: Crypto, pub: Bytes, es: seq<Entry>)
    requires LedgerInv(c, pub, es)
    ensures ValidChain(c, es, pub) <==> Linear(es)
  {
    forall i | 0 <= i < |es| ensures ValidAt(c, es, pub, i) <==> es[i].previousHash == LinkOf(es, i) {
      SelfFacts(c, pub, es, i);
    }
  }

  lemma SameMembers(es: seq<Entry>, r: seq<Entry>)
    requires multiset(r) == multiset(es)
    ensures |r| == |es|
    ensures DrawnFrom(r, es) && DrawnFrom(es, r)
  {
    assert |multiset(r)| == |r| && |multiset(es)| == |es|;
    forall k | 0 <= k < |r| ensures r[k] in es {
      assert r[k] in multiset(r);
    }
    forall k | 0 <= k < |es| ensures es[k] in r {
      assert es[k] in multiset(es);
    }
  }

  lemma MemberOf(es: seq<Entry>, r: seq<Entry>, k: nat) returns (i: nat)
    requires multiset(r) == multiset(es) && k < |r|
    ensures i < |es| && es[i] == r[k]
  {
    SameMembers(es, r);
    i :| 0 <= i < |es| && es[i] == r[k];
  }

  lemma PrefixElements<T>(s: seq<T>, t: seq<T>, n: nat)
    requires n <= |s| && n <= |t| && s[..n] == t[..n]
    ensures forall x :: 0 <= x < n ==> s[x] == t[x]
  {
    assert forall x :: 0 <= x < n ==> s[x] == s[..n][x] && t[x] == t[..n][x];
  }

  lemma ReadingFits(es: seq<Entry>, r: seq<Entry>)
    requires DrawnFrom(r, es) && AllFit(es)
    ensures AllFit(r)
  {
    forall k | 0 <= k < |r| ensures Fits(Fields(r[k])) {
      var i :| 0 <= i < |es| && es[i] == r[k];
    }
  }

  lemma ReadingCollision(c: Crypto, es: seq<Entry>, r: seq<Entry>)
    requires DrawnFrom(r, es) && Collision(c, r, r)
    ensures Collision(c, es, es)
  {
    var i, j :| 0 <= i < |r| && 0 <= j < |r| && Collide(c, r[i], r[j]);
    var k :| 0 <= k < |es| && es[k] == r[i];
    var l :| 0 <= l < |es| && es[l] == r[j];
  }

  /**
   * An accepted reading is the insertion order: along an accepted chain each entry's only
   * possible parent was inserted before it.
   */
  lemma AcceptedReadingIsInsertionOrder(c: Crypto, pub: Bytes, es: seq<Entry>, r: seq<Entry>)
    requires LedgerInv(c, pub, es) && AllFit(es) && !Collision(c, es, es)
    requires IsReading(es, r) && ValidChain(c, r, pub)
    ensures r == es
  {
    SameMembers(es, r);
    ReadingFits(es, r);
    if Collision(c, r, r) {
      ReadingCollision(c, es, r);
      assert false;
    }
    AcceptedPrefix(c, pub, es, r, |es|);
    assert r[..|es|] == r && es[..|es|] == es;
  }

  lemma {:induction false} AcceptedPrefix(c: Crypto, pub: Bytes, es: seq<Entry>, r: seq<Entry>, n: nat)
    requires LedgerInv(c, pub, es) && multiset(r) == multiset(es) && |r| == |es|
    requires ValidChain(c, r, pub) && AllFit(r) && !Collision(c, r, r)
    requires n <= |es|
    ensures r[..n] == es[..n]
  {
    hide LedgerInv, ValidChain, AllFit, Collision;
    if n > 0 {
      AcceptedPrefix(c, pub, es, r, n - 1);
      AcceptedNext(c, pub, es, r, n - 1);
      assert r[..n] == r[..n - 1] + [r[n - 1]] && es[..n] == es[..n - 1] + [es[n - 1]];
    }
  }

  lemma AcceptedNext(c: Crypto, pub: Bytes, es: seq<Entry>, r: seq<Entry>, n: nat)
    requires LedgerInv(c, pub, es) && multiset(r) == multiset(es) && |r| == |es|
    requires ValidChain(c, r, pub) && AllFit(r) && !Collision(c, r, r)
    requires n < |es| && r[..n] == es[..n]
    ensures r[n] == es[n]
  {
    hide ValidChain, AllFit, Collision, SelfValid, UniqueEvents, IsLatest;
    var m := MemberOf(r, es, n);
    PrefixElements(r, es, n);
    var k := 0;
    if n > 0 {
      assert LinksBack(es, n);
      var j :| 0 <= j < n && es[n].previousHash == es[j].hash;
      k := j + 1;
    }
    PlaceInChain(c, r, pub, k, m);
    if m < n {
      DuplicateCarries(es, r, m, n);
      var x, y :| 0 <= x < y < |r| && r[x] == r[y];
      HashesDistinct(c, r, pub, x, y);
      assert false;
    }
  }

  /** A list with a repeated element has one in every rearrangement. */
  lemma DuplicateCarries<T>(s: seq<T>, t: seq<T>, i: nat, j: nat)
    requires multiset(s) == multiset(t) && i < j < |s| && s[i] == s[j]
    ensures exists x, y :: 0 <= x < y < |t| && t[x] == t[y]
  {
    var e := s[i];
    assert s == s[..j] + s[j..];
    assert s[..j][i] == e && s[j..][0] == e;
    assert multiset(s)[e] == multiset(s[..j])[e] + multiset(s[j..])[e] >= 2;
    assert e in multiset(t);
    var x :| 0 <= x < |t| && t[x] == e;
    assert t == t[..x] + [e] + t[x + 1..];
    if e in t[x + 1..] {
      var k :| 0 <= k < |t[x + 1..]| && t[x + 1..][k] == e;
      assert t[x + 1 + k] == e;
    } else {
      assert multiset(t)[e] == multiset(t[..x])[e] + 1;
      assert e in t[..x];
      var k :| 0 <= k < |t[..x]| && t[..x][k] == e;
      assert t[k] == e;
    }
  }

  /**
   * The full walk accepts a reading exactly when the reading is the insertion order and
   * every entry links to the one before it, unless two of the entries collide.
   */
  lemma ReadingAcceptedExactly(c: Crypto, pub: Bytes, es: seq<Entry>, r: seq<Entry>)
    requires LedgerInv(c, pub, es) && AllFit(es) && IsReading(es, r)
    ensures Collision(c, es, es) || (ValidChain(c, r, pub) <==> r == es && Linear(es))
  {
    LinearIsValid(c, pub, es);
    if !Collision(c, es, es) && ValidChain(c, r, pub) {
      AcceptedReadingIsInsertionOrder(c, pub, es, r);
    }
  }

  // ---- Every reading is accepted exactly on a strictly increasing clock --------------------

  lemma {:induction false} SortedExists(es: seq<Entry>) returns (r: seq<Entry>)
    ensures IsReading(es, r)
  {
    if es == [] {
      r := [];
    } else {
      var n := |es| - 1;
      var t := SortedExists(es[..n]);
      r := InsertSorted(t, es[n]);
      assert es == es[..n] + [es[n]];
    }
  }

  lemma {:induction false} InsertSorted(t: seq<Entry>, e: Entry) returns (r: seq<Entry>)
    requires SortedByTime(t)
    ensures multiset(r) == multiset(t) + multiset{e} && SortedByTime(r)
  {
    hide When;
    if t == [] || When(t[|t| - 1]) <= When(e) {
      r := t + [e];
    } else {
      var n := |t| - 1;
      var u := InsertSorted(t[..n], e);
      r := u + [t[n]];
      assert t == t[..n] + [t[n]];
      forall i | 0 <= i < |u| ensures When(u[i]) <= When(t[n]) {
        assert u[i] in multiset(u);
        if u[i] != e {
          assert u[i] in multiset(t[..n]);
        }
      }
    }
  }

  lemma SwapReading(es: seq<Entry>, i: nat)
    requires SortedByTime(es) && i + 1 < |es| && When(es[i]) == When(es[i + 1])
    ensures IsReading(es, es[i := es[i + 1]][i + 1 := es[i]])
  {
    hide When;
    var r := es[i := es[i + 1]][i + 1 := es[i]];
    SwapSameMembers(es, i);
    assert forall k :: 0 <= k < |es| ==> When(r[k]) == When(es[k]);
  }

  lemma SwapSameMembers<T>(s: seq<T>, i: nat)
    requires i + 1 < |s|
    ensures multiset(s[i := s[i + 1]][i + 1 := s[i]]) == multiset(s)
  {
    CutInThree(s, i);
    var r := s[i := s[i + 1]][i + 1 := s[i]];
    CutInThree(r, i);
    assert r[..i] == s[..i] && r[i + 2..] == s[i + 2..];
    assert [r[i], r[i + 1]] == [s[i + 1], s[i]];
  }

  lemma CutInThree<T>(s: seq<T>, i: nat)
    requires i + 1 < |s|
    ensures multiset(s) == multiset(s[..i]) + multiset{s[i], s[i + 1]} + multiset(s[i + 2..])
  {
    assert s == s[..i] + s[i..];
    assert s[i..] == [s[i], s[i + 1]] + s[i + 2..];
  }

  lemma {:induction false} StrictFromNeighbours(es: seq<Entry>)
    requires forall i :: 0 <= i < |es| - 1 ==> When(es[i]) < When(es[i + 1])
    ensures StrictTimes(es)
  {
    if es != [] {
      var n := |es| - 1;
      hide When;
      StrictFromNeighbours(es[..n]);
      forall i | 0 <= i < n ensures When(es[i]) < When(es[n]) {
        assert es[..n][i] == es[i] && es[..n][n - 1] == es[n - 1];
        assert When(es[n - 1]) < When(es[n - 1 + 1]);
      }
      forall i, j | 0 <= i < j < n ensures When(es[i]) < When(es[j]) {
        assert es[..n][i] == es[i] && es[..n][j] == es[j];
      }
    }
  }

  lemma StrictReading(es: seq<Entry>, r: seq<Entry>)
    requires StrictTimes(es) && IsReading(es, r)
    ensures r == es
  {
    SameMembers(es, r);
    StrictPrefix(es, r, |es|);
    assert r[..|es|] == r && es[..|es|] == es;
  }

  lemma {:induction false} StrictPrefix(es: seq<Entry>, r: seq<Entry>, n: nat)
    requires StrictTimes(es) && IsReading(es, r) && |r| == |es| && n <= |es|
    ensures r[..n] == es[..n]
  {
    if n > 0 {
      hide StrictTimes, IsReading;
      StrictPrefix(es, r, n - 1);
      StrictNext(es, r, n - 1);
      assert r[..n] == r[..n - 1] + [r[n - 1]] && es[..n] == es[..n - 1] + [es[n - 1]];
    }
  }

  lemma StrictIsDistinct(es: seq<Entry>)
    requires StrictTimes(es)
    ensures forall x, y :: 0 <= x < y < |es| ==> es[x] != es[y]
  {
    forall x, y | 0 <= x < y < |es| ensures es[x] != es[y] {
      assert When(es[x]) < When(es[y]);
    }
  }

  lemma StrictNext(es: seq<Entry>, r: seq<Entry>, k: nat)
    requires StrictTimes(es) && IsReading(es, r) && |r| == |es| && k < |es|
    requires r[..k] == es[..k]
    ensures r[k] == es[k]
  {
    hide When;
    var i := MemberOf(es, r, k);
    var j := MemberOf(r, es, k);
    PrefixElements(r, es, k);
    if i < k {
      StrictIsDistinct(es);
      DuplicateCarries(r, es, i, k);
      assert false;
    }
    assert j >= k;
    assert When(r[k]) <= When(r[j]);
  }

  /**
   * `VerifyChain` accepts the ledger however the store resolves ties exactly when each
   * truncated timestamp strictly exceeds the ones stored before it, barring a collision.
   */
  lemma EveryReadingAcceptedExactly(c: Crypto, pub: Bytes, es: seq<Entry>)
    requires LedgerInv(c, pub, es) && AllFit(es)
    ensures Collision(c, es, es) || ((forall r :: IsReading(es, r) ==> ValidChain(c, r, pub)) <==> StrictTimes(es))
  {
    hide LedgerInv, AllFit, Collision, ValidChain, Linear, IsReading;
    if !Collision(c, es, es) {
      if StrictTimes(es) {
        StrictIsLinear(c, pub, es);
        forall r | IsReading(es, r) ensures ValidChain(c, r, pub) {
          StrictReading(es, r);
          ReadingAcceptedExactly(c, pub, es, r);
        }
      } else {
        var r := RejectedReading(c, pub, es);
      }
    }
  }

  lemma RejectedReading(c: Crypto, pub: Bytes, es: seq<Entry>) returns (r: seq<Entry>)
    requires LedgerInv(c, pub, es) && AllFit(es) && !Collision(c, es, es) && !StrictTimes(es)
    ensures IsReading(es, r) && !ValidChain(c, r, pub)
  {
    hide LedgerInv, AllFit, Collision, ValidChain, Linear;
    r := SortedExists(es);
    if ValidChain(c, r, pub) {
      AcceptedReadingIsInsertionOrder(c, pub, es, r);
      var i := TiedNeighbours(es);
      HashesDistinct(c, es, pub, i, i + 1);
      SwapReading(es, i);
      r := es[i := es[i + 1]][i + 1 := es[i]];
      if ValidChain(c, r, pub) {
        AcceptedReadingIsInsertionOrder(c, pub, es, r);
        SwapDiffers(es, i);
        assert false;
      }
    }
  }

  lemma SwapDiffers<T>(s: seq<T>, i: nat)
    requires i + 1 < |s| && s[i] != s[i + 1]
    ensures s[i := s[i + 1]][i + 1 := s[i]] != s
  {
    assert s[i := s[i + 1]][i + 1 := s[i]][i] == s[i + 1];
  }

  lemma TiedNeighbours(es: seq<Entry>) returns (i: nat)
    requires SortedByTime(es) && !StrictTimes(es)
    ensures i + 1 < |es| && When(es[i]) == When(es[i + 1])
  {
    hide When;
    if forall k :: 0 <= k < |es| - 1 ==> When(es[k]) < When(es[k + 1]) {
      StrictFromNeighbours(es);
      assert false;
    }
    i :| 0 <= i < |es| - 1 && When(es[i]) >= When(es[i + 1]);
    assert When(es[i]) <= When(es[i + 1]);
  }
}

/** Hash-chained, signed ledger entries (internal/audit/audit.go). */
module Audit {
  import opened Wrappers
  import opened GoBytes
  import opened FixedWidth
  import opened Timestamps

  /** A SHA-256 digest has 32 bytes (FIPS 180-4). */
  type Digest = d: Bytes | |d| == 32 witness seq(32, i => 0)

  /** The primitives, as arbitrary functions: every result holds for any of them. */
  datatype Crypto = Crypto(
    sha: Bytes -> Digest,
    public: Bytes -> Bytes,
    sign: (Bytes, Bytes) -> Bytes,
    verify: (Bytes, Bytes, Bytes) -> bool)

  /** The one law of Ed25519 used: what the private key signs, its public key verifies. */
  ghost predicate SignaturesVerify(c: Crypto) {
    forall priv, m :: c.verify(c.public(priv), m, c.sign(priv, m))
  }

  datatype Entry = Entry(
    id: Bytes,
    token: Bytes,
    action: Bytes,
    payload: Bytes,
    thought: Bytes,
    sourceEventId: Bytes,
    previousHash: Bytes,
    hash: Bytes,
    signature: Bytes,
    timestamp: Time)

  /** The fields the hash covers, in the order they are written. */
  datatype Covered = Covered(previousHash: Bytes, action: Bytes, payload: Bytes, thought: Bytes, timestamp: Time)

  function Fields(e: Entry): Covered {
    Covered(e.previousHash, e.action, e.payload, e.thought, e.timestamp)
  }

  function LengthPrefixed(b: Bytes): Bytes {
    BigEndian64(|b|) + b
  }

  function Canonical(c: Covered): Bytes {
    LengthPrefixed(c.previousHash) + LengthPrefixed(c.action) + LengthPrefixed(c.payload)
    + LengthPrefixed(c.thought) + LengthPrefixed(Format(c.timestamp))
  }

  /** Every length fits the 64-bit prefix, as the length of any Go slice does. */
  predicate Fits(c: Covered) {
    && |c.previousHash| < TWO_TO_THE_64
    && |c.action| < TWO_TO_THE_64
    && |c.payload| < TWO_TO_THE_64
    && |c.thought| < TWO_TO_THE_64
  }

  // ---- The encoding can be read back ---------------------------------------------------

  function ReadField(s: Bytes): Option<(Bytes, Bytes)> {
    if |s| < 8 then None
    else
      var n := Value(s[..8], TwoFiftySix);
      if n < 0 || n > |s| - 8 then None else Some((s[8..8 + n], s[8 + n..]))
  }

  function ReadFields(s: Bytes, count: nat): Option<seq<Bytes>> {
    if count == 0 then (if s == [] then Some([]) else None)
    else
      match ReadField(s)
      case None => None
      case Some((field, rest)) =>
        match ReadFields(rest, count - 1)
        case None => None
        case Some(fields) => Some([field] + fields)
  }

  function Decode(s: Bytes): Option<Covered> {
    match ReadFields(s, 5)
    case None => None
    case Some(f) =>
      if |f| != 5 then None
      else
        match Parse(f[4])
        case None => None
        case Some(t) => if t.Valid() then Some(Covered(f[0], f[1], f[2], f[3], t)) else None
  }

  lemma ReadPrefixed(b: Bytes, rest: Bytes)
    requires |b| < TWO_TO_THE_64
    ensures ReadField(LengthPrefixed(b) + rest) == Some((b, rest))
  {
    hide Numeral, Value;
    Powers();
    ValueOfNumeral(|b|, TwoFiftySix, 8);
    var s := LengthPrefixed(b) + rest;
    assert s[..8] == BigEndian64(|b|);
    assert s[8..8 + |b|] == b && s[8 + |b|..] == rest;
  }

  function JoinPrefixed(fs: seq<Bytes>): Bytes {
    if fs == [] then [] else LengthPrefixed(fs[0]) + JoinPrefixed(fs[1..])
  }

  lemma {:induction false} ReadJoined(fs: seq<Bytes>)
    requires forall i :: 0 <= i < |fs| ==> |fs[i]| < TWO_TO_THE_64
    ensures ReadFields(JoinPrefixed(fs), |fs|) == Some(fs)
  {
    hide LengthPrefixed, ReadField;
    if fs != [] {
      ReadPrefixed(fs[0], JoinPrefixed(fs[1..]));
      ReadJoined(fs[1..]);
      assert fs == [fs[0]] + fs[1..];
    }
  }

  lemma CanonicalIsJoined(c: Covered)
    ensures Canonical(c) == JoinPrefixed([c.previousHash, c.action, c.payload, c.thought, Format(c.timestamp)])
  {
    hide LengthPrefixed, Format;
    var e := [Format(c.timestamp)];
    var d := [c.thought, e[0]];
    var b := [c.payload, c.thought, e[0]];
    var a := [c.action, c.payload, c.thought, e[0]];
    var all := [c.previousHash, c.action, c.payload, c.thought, e[0]];
    assert e[1..] == [] && JoinPrefixed(e) == LengthPrefixed(e[0]);
    assert d[1..] == e && JoinPrefixed(d) == LengthPrefixed(c.thought) + JoinPrefixed(e);
    assert b[1..] == d && JoinPrefixed(b) == LengthPrefixed(c.payload) + JoinPrefixed(d);
    assert a[1..] == b && JoinPrefixed(a) == LengthPrefixed(c.action) + JoinPrefixed(b);
    assert all[1..] == a && JoinPrefixed(all) == LengthPrefixed(c.previousHash) + JoinPrefixed(a);
  }

  /** Reading back what was written, for every entry whose lengths fit the prefixes. */
  lemma DecodeCanonical(c: Covered)
    requires Fits(c)
    ensures Decode(Canonical(c)) == Some(c)
  {
    hide ReadFields, JoinPrefixed, Format, Parse, Canonical;
    CanonicalIsJoined(c);
    FormatText(c.timestamp);
    ReadJoined([c.previousHash, c.action, c.payload, c.thought, Format(c.timestamp)]);
    ParseFormat(c.timestamp);
  }

  /** No two entries with different covered fields share an encoding. */
  lemma CanonicalInjective(c: Covered, d: Covered)
    requires Fits(c) && Fits(d) && Canonical(c) == Canonical(d)
    ensures c == d
  {
    DecodeCanonical(c);
    DecodeCanonical(d);
  }

  /** At `off` stand the length of `f` in eight bytes and then `f`. */
  predicate FieldAt(s: Bytes, off: nat, f: Bytes) {
    && off + 8 + |f| <= |s|
    && s[off..off + 8] == BigEndian64(|f|)
    && s[off + 8..off + 8 + |f|] == f
  }

  /**
   * Where the five fields stand: previous hash, action, payload, thought and the timestamp's
   * text, and nothing else.
   */
  lemma CanonicalLayout(c: Covered)
    ensures var s, time := Canonical(c), Format(c.timestamp);
            var a := 8 + |c.previousHash|;
            var p := a + 8 + |c.action|;
            var t := p + 8 + |c.payload|;
            var w := t + 8 + |c.thought|;
            && FieldAt(s, 0, c.previousHash) && FieldAt(s, a, c.action) && FieldAt(s, p, c.payload)
            && FieldAt(s, t, c.thought) && FieldAt(s, w, time)
            && |s| == w + 8 + |time|
  {
    hide Format, BigEndian64, FieldAt;
    var e := LengthPrefixed(Format(c.timestamp));
    var d := LengthPrefixed(c.thought) + e;
    var b := LengthPrefixed(c.payload) + d;
    var a := LengthPrefixed(c.action) + b;
    assert Canonical(c) == LengthPrefixed(c.previousHash) + a by {
      hide LengthPrefixed;
      FiveParts(LengthPrefixed(c.previousHash), LengthPrefixed(c.action), LengthPrefixed(c.payload),
                LengthPrefixed(c.thought), e);
    }
    FirstField(c.previousHash, a);
    FirstField(c.action, b);
    FirstField(c.payload, d);
    FirstField(c.thought, e);
    FirstField(Format(c.timestamp), []);
    assert e + [] == e;
    LaterField(LengthPrefixed(c.thought), e, 0, Format(c.timestamp));
    LaterField(LengthPrefixed(c.payload), d, 0, c.thought);
    LaterField(LengthPrefixed(c.payload), d, 8 + |c.thought|, Format(c.timestamp));
    LaterField(LengthPrefixed(c.action), b, 0, c.payload);
    LaterField(LengthPrefixed(c.action), b, 8 + |c.payload|, c.thought);
    LaterField(LengthPrefixed(c.action), b, 8 + |c.payload| + 8 + |c.thought|, Format(c.timestamp));
    LaterField(LengthPrefixed(c.previousHash), a, 0, c.action);
    LaterField(LengthPrefixed(c.previousHash), a, 8 + |c.action|, c.payload);
    LaterField(LengthPrefixed(c.previousHash), a, 8 + |c.action| + 8 + |c.payload|, c.thought);
    LaterField(LengthPrefixed(c.previousHash), a, 8 + |c.action| + 8 + |c.payload| + 8 + |c.thought|,
               Format(c.timestamp));
  }

  lemma FiveParts(a: Bytes, b: Bytes, c: Bytes, d: Bytes, e: Bytes)
    ensures a + b + c + d + e == a + (b + (c + (d + e)))
  {
    assert a + b + c + d + e == a + b + c + (d + e);
    assert a + b + c + (d + e) == a + b + (c + (d + e));
  }

  lemma FirstField(f: Bytes, rest: Bytes)
    ensures |LengthPrefixed(f)| == 8 + |f| && FieldAt(LengthPrefixed(f) + rest, 0, f)
  {
    hide BigEndian64;
    var s := LengthPrefixed(f) + rest;
    assert s[0..8] == BigEndian64(|f|) && s[8..8 + |f|] == f;
  }

  lemma LaterField(before: Bytes, s: Bytes, off: nat, f: Bytes)
    requires FieldAt(s, off, f)
    ensures FieldAt(before + s, |before| + off, f)
  {
    hide BigEndian64;
    var t, o := before + s, |before| + off;
    assert t[o..o + 8] == s[off..off + 8] && t[o + 8..o + 8 + |f|] == s[off + 8..off + 8 + |f|];
  }

  // ---- Chaining and checking one entry -------------------------------------------------

  function ComputeHash(c: Crypto, e: Entry): Digest {
    c.sha(Canonical(Fields(e)))
  }

  function Chained(c: Crypto, priv: Bytes, e: Entry): Entry {
    e.(hash := ComputeHash(c, e), signature := c.sign(priv, ComputeHash(c, e)))
  }

  datatype VerifyError = BrokenChain | HashMismatch | BadSignature

  function Verify(c: Crypto, e: Entry, prevHash: Bytes, pub: Bytes): Option<VerifyError> {
    if e.previousHash != prevHash then Some(BrokenChain)
    else if ComputeHash(c, e) != e.hash then Some(HashMismatch)
    else if !c.verify(pub, e.hash, e.signature) then Some(BadSignature)
    else None
  }

  /** A `bytes.Buffer` being written. */
  class Buffer {
    var data: Bytes

    constructor ()
      ensures data == []
    {
      data := [];
    }

    method Write(b: Bytes)
      modifies this
      ensures data == old(data) + b
    {
      data := data + b;
    }

    method WriteLengthPrefixed(b: Bytes)
      modifies this
      ensures data == old(data) + LengthPrefixed(b)
    {
      Write(BigEndian64(|b|));
      Write(b);
    }
  }

  /** A `*Entry`. */
  class EntryRef {
    var value: Entry

    constructor (e: Entry)
      ensures value == e
    {
      value := e;
    }

    method CanonicalBytes() returns (b: Bytes)
      ensures b == Canonical(Fields(value))
    {
      hide LengthPrefixed, Format;
      var buf := new Buffer();
      buf.WriteLengthPrefixed(value.previousHash);
      buf.WriteLengthPrefixed(value.action);
      buf.WriteLengthPrefixed(value.payload);
      buf.WriteLengthPrefixed(value.thought);
      buf.WriteLengthPrefixed(Format(value.timestamp));
      b := buf.data;
    }

    method Chain(c: Crypto, priv: Bytes)
      modifies this
      ensures value == Chained(c, priv, old(value))
    {
      var b := CanonicalBytes();
      value := value.(hash := c.sha(b));
      value := value.(signature := c.sign(priv, value.hash));
    }
  }

  /** A freshly chained entry verifies against its own predecessor link. */
  lemma ChainedVerifies(c: Crypto, priv: Bytes, e: Entry)
    requires SignaturesVerify(c)
    ensures Verify(c, Chained(c, priv, e), e.previousHash, c.public(priv)) == None
    ensures Fields(Chained(c, priv, e)) == Fields(e)
  {
    assert Fields(Chained(c, priv, e)) == Fields(e);
  }

  // ---- Walking a chain -----------------------------------------------------------------

  /** The hash entry `i` must link to: nil for the first. */
  function LinkOf(es: seq<Entry>, i: nat): Bytes
    requires i <= |es|
  {
    if i == 0 then [] else es[i - 1].hash
  }

  predicate ValidAt(c: Crypto, es: seq<Entry>, pub: Bytes, i: nat)
    requires i < |es|
  {
    Verify(c, es[i], LinkOf(es, i), pub) == None
  }

  /** Every entry passes linkage, hash and signature. */
  ghost predicate ValidChain(c: Crypto, es: seq<Entry>, pub: Bytes) {
    forall i :: 0 <= i < |es| ==> ValidAt(c, es, pub, i)
  }

  /** The entry's link, its hash over the covered fields, and its signature over the hash. */
  predicate IsLinked(e: Entry, prevHash: Bytes) {
    e.previousHash == prevHash
  }

  predicate IsHashed(c: Crypto, e: Entry) {
    e.hash == c.sha(Canonical(Covered(e.previousHash, e.action, e.payload, e.thought, e.timestamp)))
  }

  predicate IsSigned(c: Crypto, e: Entry, pub: Bytes) {
    c.verify(pub, e.hash, e.signature)
  }

  /** What is reported of an entry: the link is looked at first, then the hash, then the signature. */
  predicate FirstFault(c: Crypto, e: Entry, prevHash: Bytes, pub: Bytes, reason: Option<VerifyError>) {
    && (reason == Some(BrokenChain) <==> !IsLinked(e, prevHash))
    && (reason == Some(HashMismatch) <==> IsLinked(e, prevHash) && !IsHashed(c, e))
    && (reason == Some(BadSignature) <==> IsLinked(e, prevHash) && IsHashed(c, e) && !IsSigned(c, e, pub))
  }

  /** Exactly what is asked of an entry, and which failure is reported when several are there. */
  lemma VerifiedExactly(c: Crypto, e: Entry, prevHash: Bytes, pub: Bytes)
    ensures Verify(c, e, prevHash, pub) == None <==> IsLinked(e, prevHash) && IsHashed(c, e) && IsSigned(c, e, pub)
    ensures FirstFault(c, e, prevHash, pub, Verify(c, e, prevHash, pub))
  {
    hide Canonical;
  }

  /** Entry `i` links to the hash before it (the first to nothing), and its own hash and signature hold. */
  predicate SoundAt(c: Crypto, es: seq<Entry>, pub: Bytes, i: nat)
    requires i < |es|
  {
    && IsLinked(es[i], if i == 0 then [] else es[i - 1].hash)
    && IsHashed(c, es[i]) && IsSigned(c, es[i], pub)
  }

  /** Everything holds of the entries before `k`. */
  ghost predicate SoundBefore(c: Crypto, es: seq<Entry>, pub: Bytes, k: nat)
    requires k <= |es|
  {
    forall i :: 0 <= i < k ==> SoundAt(c, es, pub, i)
  }

  lemma SoundIsValid(c: Crypto, es: seq<Entry>, pub: Bytes, i: nat)
    requires i < |es|
    ensures ValidAt(c, es, pub, i) <==> SoundAt(c, es, pub, i)
  {
    hide Verify;
    VerifiedExactly(c, es[i], LinkOf(es, i), pub);
  }

  /** An accepted chain, read off its entries' fields: every link, every hash and every signature holds. */
  lemma ChainAcceptedExactly(c: Crypto, es: seq<Entry>, pub: Bytes)
    ensures ValidChain(c, es, pub) <==> SoundBefore(c, es, pub, |es|)
  {
    hide ValidAt, SoundAt;
    forall i | 0 <= i < |es| ensures ValidAt(c, es, pub, i) <==> SoundAt(c, es, pub, i) {
      SoundIsValid(c, es, pub, i);
    }
  }

  datatype ChainReport = ChainReport(
    entries: nat, valid: bool, failedIndex: int, failedId: Bytes, reason: Option<VerifyError>)

  /**
   * What the walk may report: a valid chain, or the first entry that is not sound, with its id and
   * the first of its faults.
   */
  ghost predicate WalkReport(c: Crypto, es: seq<Entry>, pub: Bytes, r: ChainReport) {
    if ValidChain(c, es, pub) then r == ChainReport(|es|, true, -1, [], None)
    else
      && r.entries == |es| && !r.valid
      && 0 <= r.failedIndex < |es| && r.failedId == es[r.failedIndex].id
      && SoundBefore(c, es, pub, r.failedIndex)
      && r.reason != None && FirstFault(c, es[r.failedIndex], LinkOf(es, r.failedIndex), pub, r.reason)
  }

  method VerifyChain(c: Crypto, es: seq<Entry>, pub: Bytes) returns (r: ChainReport)
    ensures r.valid <==> ValidChain(c, es, pub)
    ensures WalkReport(c, es, pub, r)
    ensures !r.valid ==>
              && ValidChain(c, es[..r.failedIndex], pub)
              && r.reason == Verify(c, es[r.failedIndex], LinkOf(es, r.failedIndex), pub)
  {
    hide Verify, IsHashed, IsSigned, FirstFault;
    var prev: Bytes := [];
    for i := 0 to |es|
      invariant prev == LinkOf(es, i)
      invariant forall k :: 0 <= k < i ==> ValidAt(c, es, pub, k)
      invariant SoundBefore(c, es, pub, i)
    {
      var err := Verify(c, es[i], prev, pub);
      VerifiedExactly(c, es[i], prev, pub);
      SoundIsValid(c, es, pub, i);
      if err != None {
        assert !ValidAt(c, es, pub, i);
        PrefixIsValid(c, es, pub, i);
        return ChainReport(|es|, false, i, es[i].id, err);
      }
      prev := es[i].hash;
    }
    return ChainReport(|es|, true, -1, [], None);
  }

  /**
   * An entry signed with a foreign key is where the walk stops, if all before it is sound and its
   * link and hash hold.
   */
  lemma ForeignSignatureStopsWalk(c: Crypto, es: seq<Entry>, pub: Bytes, k: nat, r: ChainReport)
    requires k < |es| && SoundBefore(c, es, pub, k)
    requires IsLinked(es[k], if k == 0 then [] else es[k - 1].hash) && IsHashed(c, es[k]) && !IsSigned(c, es[k], pub)
    requires WalkReport(c, es, pub, r)
    ensures r == ChainReport(|es|, false, k, es[k].id, Some(BadSignature))
  {
    hide IsHashed, IsSigned, Verify;
    assert !SoundAt(c, es, pub, k);
    SoundIsValid(c, es, pub, k);
    assert !ValidChain(c, es, pub);
    hide ValidChain;
    var j := r.failedIndex;
    if j > k {
      assert false;
    } else if j < k {
      assert SoundAt(c, es, pub, j);
      NoFault(c, es[j], LinkOf(es, j), pub, r.reason);
    }
    assert j == k;
    assert IsLinked(es[k], LinkOf(es, k));
    assert r.reason == Some(BadSignature);
  }

  lemma NoFault(c: Crypto, e: Entry, prevHash: Bytes, pub: Bytes, reason: Option<VerifyError>)
    requires IsLinked(e, prevHash) && IsHashed(c, e) && IsSigned(c, e, pub)
    requires FirstFault(c, e, prevHash, pub, reason)
    ensures reason == None
  {
    hide IsHashed, IsSigned;
    if reason.Some? {
      match reason.value
      case BrokenChain =>
      case HashMismatch =>
      case BadSignature =>
    }
  }

  lemma PrefixIsValid(c: Crypto, es: seq<Entry>, pub: Bytes, n: nat)
    requires n <= |es| && forall k :: 0 <= k < n ==> ValidAt(c, es, pub, k)
    ensures ValidChain(c, es[..n], pub)
  {
    forall k | 0 <= k < n ensures ValidAt(c, es[..n], pub, k) {
      assert ValidAt(c, es, pub, k);
    }
  }

  // ---- What an accepted chain rules out ------------------------------------------------

  /** Two entries whose encodings differ and yet hash alike. */
  predicate Collide(c: Crypto, e: Entry, f: Entry) {
    && Canonical(Fields(e)) != Canonical(Fields(f))
    && ComputeHash(c, e) == ComputeHash(c, f)
  }

  /** A SHA-256 collision between an entry of `a` and an entry of `b`. */
  ghost predicate Collision(c: Crypto, a: seq<Entry>, b: seq<Entry>) {
    exists i, j {:trigger Collide(c, a[i], b[j])} :: 0 <= i < |a| && 0 <= j < |b| && Collide(c, a[i], b[j])
  }

  ghost predicate AllFit(es: seq<Entry>) {
    forall i {:trigger Fits(Fields(es[i]))} :: 0 <= i < |es| ==> Fits(Fields(es[i]))
  }

  /** Equal hashes on verified entries: equal covered fields, or a collision in hand. */
  lemma SameHash(c: Crypto, e: Entry, f: Entry)
    requires e.hash == ComputeHash(c, e) && f.hash == ComputeHash(c, f) && e.hash == f.hash
    requires Fits(Fields(e)) && Fits(Fields(f))
    ensures Fields(e) == Fields(f) || Collide(c, e, f)
  {
    if Canonical(Fields(e)) == Canonical(Fields(f)) {
      CanonicalInjective(Fields(e), Fields(f));
    }
  }

  /** What validity says about one entry. */
  lemma ValidFacts(c: Crypto, es: seq<Entry>, pub: Bytes, i: nat)
    requires ValidChain(c, es, pub) && i < |es|
    ensures es[i].previousHash == LinkOf(es, i)
    ensures es[i].hash == ComputeHash(c, es[i]) && |es[i].hash| == 32
  {
    assert ValidAt(c, es, pub, i);
  }

  /** In a valid chain all hashes differ: equal ones would descend to the first entry. */
  lemma {:induction false} HashesDistinct(c: Crypto, es: seq<Entry>, pub: Bytes, i: nat, j: nat)
    requires ValidChain(c, es, pub) && AllFit(es) && i < j < |es|
    ensures es[i].hash != es[j].hash || Collision(c, es, es)
  {
    hide ValidAt, ComputeHash, Collide, Fits;
    if es[i].hash == es[j].hash && !Collision(c, es, es) {
      ValidFacts(c, es, pub, i);
      ValidFacts(c, es, pub, j);
      ValidFacts(c, es, pub, j - 1);
      SameHash(c, es[i], es[j]);
      assert !Collide(c, es[i], es[j]);
      if i > 0 {
        HashesDistinct(c, es, pub, i - 1, j - 1);
      }
    }
  }

  /** `l` lists entries of `es`, in any order, with any left out or repeated. */
  ghost predicate DrawnFrom(l: seq<Entry>, es: seq<Entry>) {
    forall k :: 0 <= k < |l| ==> l[k] in es
  }

  /** Reordering, deleting or repeating entries of a valid chain is noticed, except cutting its tail. */
  lemma DrawnChainIsPrefix(c: Crypto, es: seq<Entry>, l: seq<Entry>, pub: Bytes)
    requires ValidChain(c, es, pub) && AllFit(es) && DrawnFrom(l, es)
    ensures Collision(c, es, es) || (ValidChain(c, l, pub) <==> l <= es)
  {
    if !Collision(c, es, es) && ValidChain(c, l, pub) {
      DrawnPrefix(c, es, l, pub, |l|);
      assert l[..|l|] == l;
    }
    if l <= es {
      PrefixIsValid(c, es, pub, |l|);
      assert es[..|l|] == l;
    }
  }

  lemma {:induction false} DrawnPrefix(c: Crypto, es: seq<Entry>, l: seq<Entry>, pub: Bytes, n: nat)
    requires ValidChain(c, es, pub) && AllFit(es) && DrawnFrom(l, es)
    requires ValidChain(c, l, pub) && !Collision(c, es, es)
    requires n <= |l|
    ensures n <= |es| && l[..n] == es[..n]
  {
    hide ValidChain, ValidAt, Collision, AllFit, DrawnFrom;
    if n > 0 {
      DrawnPrefix(c, es, l, pub, n - 1);
      DrawnNext(c, es, l, pub, n - 1);
      assert l[..n] == l[..n - 1] + [l[n - 1]] && es[..n] == es[..n - 1] + [es[n - 1]];
    }
  }

  lemma DrawnNext(c: Crypto, es: seq<Entry>, l: seq<Entry>, pub: Bytes, n: nat)
    requires ValidChain(c, es, pub) && AllFit(es) && DrawnFrom(l, es)
    requires ValidChain(c, l, pub) && !Collision(c, es, es)
    requires n < |l| && n <= |es| && l[..n] == es[..n]
    ensures n < |es| && l[n] == es[n]
  {
    hide ValidChain, ValidAt, Collision, AllFit;
    ValidFacts(c, l, pub, n);
    assert n > 0 ==> l[n - 1] == l[..n][n - 1] == es[n - 1];
    var m :| 0 <= m < |es| && es[m] == l[n];
    PlaceInChain(c, es, pub, n, m);
  }

  /** The entry that links to what precedes place `n` is the one at place `n`. */
  lemma PlaceInChain(c: Crypto, es: seq<Entry>, pub: Bytes, n: nat, m: nat)
    requires ValidChain(c, es, pub) && AllFit(es) && !Collision(c, es, es)
    requires n <= |es| && m < |es| && es[m].previousHash == LinkOf(es, n)
    ensures m == n
  {
    hide ValidChain, ValidAt, Collision, AllFit, ComputeHash;
    ValidFacts(c, es, pub, m);
    if m > 0 {
      ValidFacts(c, es, pub, m - 1);
    }
    if n > 0 {
      ValidFacts(c, es, pub, n - 1);
    }
    if 0 < m < n {
      HashesDistinct(c, es, pub, m - 1, n - 1);
    } else if 0 < n < m {
      HashesDistinct(c, es, pub, n - 1, m - 1);
    }
  }

  /** Two chains agree on everything the hash covers. */
  ghost predicate SameCovered(a: seq<Entry>, b: seq<Entry>) {
    |a| == |b| && forall i :: 0 <= i < |a| ==> Fields(a[i]) == Fields(b[i])
  }

  /** The last hash anchors the whole chain. */
  lemma {:induction false} HeadHashAnchors(c: Crypto, a: seq<Entry>, b: seq<Entry>, pubA: Bytes, pubB: Bytes)
    requires ValidChain(c, a, pubA) && ValidChain(c, b, pubB) && AllFit(a) && AllFit(b)
    requires a != [] && b != [] && a[|a| - 1].hash == b[|b| - 1].hash
    ensures SameCovered(a, b) || Collision(c, a, b)
    decreases |a|
  {
    hide ValidChain, ValidAt, Collide, ComputeHash, Fits;
    var n, m := |a| - 1, |b| - 1;
    if !Collision(c, a, b) {
      ValidFacts(c, a, pubA, n);
      ValidFacts(c, b, pubB, m);
      SameHash(c, a[n], b[m]);
      assert !Collide(c, a[n], b[m]);
      if n > 0 {
        AnchorStep(c, a, b, pubA, pubB);
        HeadHashAnchors(c, a[..n], b[..m], pubA, pubB);
        ExtendSame(a, b);
      } else if m > 0 {
        ValidFacts(c, b, pubB, m - 1);
      }
    }
  }

  lemma AnchorStep(c: Crypto, a: seq<Entry>, b: seq<Entry>, pubA: Bytes, pubB: Bytes)
    requires ValidChain(c, a, pubA) && ValidChain(c, b, pubB) && AllFit(a) && AllFit(b)
    requires |a| > 1 && |b| > 0 && !Collision(c, a, b)
    requires Fields(a[|a| - 1]) == Fields(b[|b| - 1])
    ensures var n, m := |a| - 1, |b| - 1;
            && m > 0
            && ValidChain(c, a[..n], pubA) && ValidChain(c, b[..m], pubB)
            && AllFit(a[..n]) && AllFit(b[..m])
            && a[..n][n - 1].hash == b[..m][m - 1].hash
            && !Collision(c, a[..n], b[..m])
  {
    hide ValidAt, Collide, ComputeHash, Fits;
    var n, m := |a| - 1, |b| - 1;
    ValidFacts(c, a, pubA, n);
    ValidFacts(c, a, pubA, n - 1);
    ValidFacts(c, b, pubB, m);
    PrefixIsValid(c, a, pubA, n);
    PrefixIsValid(c, b, pubB, m);
    forall i, j | 0 <= i < n && 0 <= j < m ensures !Collide(c, a[..n][i], b[..m][j]) {
      assert !Collide(c, a[i], b[j]);
    }
  }

  lemma ExtendSame(a: seq<Entry>, b: seq<Entry>)
    requires a != [] && b != []
    requires SameCovered(a[..|a| - 1], b[..|b| - 1]) && Fields(a[|a| - 1]) == Fields(b[|b| - 1])
    ensures SameCovered(a, b)
  {
    forall i | 0 <= i < |a| ensures Fields(a[i]) == Fields(b[i]) {
      if i < |a| - 1 {
        assert Fields(a[..|a| - 1][i]) == Fields(b[..|b| - 1][i]);
      }
    }
  }

  /** An altered entry inside a chain is noticed, even when it is re-hashed and re-signed. */
  lemma InteriorTamperingIsNoticed(c: Crypto, es: seq<Entry>, pub: Bytes, i: nat, e: Entry, pub': Bytes)
    requires ValidChain(c, es, pub) && AllFit(es) && Fits(Fields(e)) && i + 1 < |es|
    requires Fields(e) != Fields(es[i])
    ensures !ValidChain(c, es[i := e], pub') || Collide(c, es[i], e)
  {
    var t := es[i := e];
    if ValidChain(c, t, pub') {
      assert ValidAt(c, t, pub', i) && ValidAt(c, t, pub', i + 1);
      assert ValidAt(c, es, pub, i) && ValidAt(c, es, pub, i + 1);
      SameHash(c, es[i], e);
    }
  }
}

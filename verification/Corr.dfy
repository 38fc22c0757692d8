/** Correlation tokens (internal/corr/corr.go). */
module Corr {
  import opened GoBytes
  import opened FixedWidth

  newtype int64 = x: int | -0x8000_0000_0000_0000 <= x < 0x8000_0000_0000_0000

  newtype uint64 = x: int | 0 <= x < 0x1_0000_0000_0000_0000

  /** `%020d` of a signed 64-bit integer: a sign takes one of the twenty places. */
  function SignedDecimal20(n: int64): (s: Bytes)
    ensures |s| == 20
  {
    if n < 0 then [DASH] + Decimal(-(n as int), 19) else Decimal(n as nat, 20)
  }

  function Token(nanos: int64, count: uint64): (t: Bytes)
    ensures |t| == 41
  {
    SignedDecimal20(nanos) + [DASH] + Decimal(count as nat, 20)
  }

  /** `atomic.Uint64.Add(1)` wraps. */
  function Next(count: uint64): uint64 {
    if count == 0xFFFF_FFFF_FFFF_FFFF then 0 else count + 1
  }

  /** One call of `New`: the counter before and after, the clock reading and the token. */
  predicate Issued(before: uint64, nanos: int64, after: uint64, t: Bytes) {
    after == Next(before) && t == Token(nanos, after)
  }

  /** The process-wide counter. The clock reading is an input. */
  class Source {
    var counter: uint64

    constructor ()
      ensures counter == 0
    {
      counter := 0;
    }

    method New(nanos: int64) returns (t: Bytes)
      modifies this
      ensures Issued(old(counter), nanos, counter, t)
    {
      counter := Next(counter);
      t := SignedDecimal20(nanos) + [DASH] + Decimal(counter as nat, 20);
    }
  }

  function Compare(a: Bytes, b: Bytes): (r: int)
    ensures r == 0 <==> a == b
    ensures r == -1 <==> Less(a, b)
    ensures r == 1 <==> Less(b, a)
  {
    LessTotal(a, b);
    if Less(a, b) then -1 else if Less(b, a) then 1 else 0
  }

  lemma {:induction false} LessTotal(a: Bytes, b: Bytes)
    ensures !(Less(a, b) && Less(b, a))
    ensures !Less(a, b) && !Less(b, a) <==> a == b
  {
    if a != [] && b != [] {
      LessTotal(a[1..], b[1..]);
      assert a == [a[0]] + a[1..] && b == [b[0]] + b[1..];
    }
  }

  /** Text order of the time part. Two times before 1970 compare backwards. */
  predicate NanosBefore(a: int64, b: int64) {
    if a < 0 && b < 0 then b < a else a < b
  }

  lemma SignedOrder(a: int64, b: int64)
    ensures Less(SignedDecimal20(a), SignedDecimal20(b)) <==> NanosBefore(a, b)
    ensures SignedDecimal20(a) == SignedDecimal20(b) <==> a == b
  {
    Powers();
    SignedOrderLess(a, b);
    SignedOrderLess(b, a);
    LessTotal(SignedDecimal20(a), SignedDecimal20(b));
  }

  lemma SignedOrderLess(a: int64, b: int64)
    ensures Less(SignedDecimal20(a), SignedDecimal20(b)) <==> NanosBefore(a, b)
  {
    Powers();
    if a < 0 && b < 0 {
      var x, y := Decimal(-(a as int), 19), Decimal(-(b as int), 19);
      LessAppend([DASH], [DASH], x, y);
      assert !Less([DASH], [DASH]);
      NumeralOrder(-(a as int), -(b as int), Ten, 19);
    } else if a >= 0 && b >= 0 {
      NumeralOrder(a as nat, b as nat, Ten, 20);
    } else {
      DigitFirst(if a < 0 then b as nat else a as nat, 20);
    }
  }

  lemma {:induction false} DigitFirst(n: nat, w: nat)
    requires w > 0
    ensures Decimal(n, w)[0] >= ZERO
  {
    if w > 1 {
      DigitFirst(n / 10, w - 1);
    }
  }

  /** String order of tokens is the lexicographic order of the (time, counter) pairs. */
  lemma TokenOrder(n1: int64, c1: uint64, n2: int64, c2: uint64)
    ensures Less(Token(n1, c1), Token(n2, c2)) <==> NanosBefore(n1, n2) || (n1 == n2 && c1 < c2)
  {
    Powers();
    SignedOrder(n1, n2);
    NumeralOrder(c1 as nat, c2 as nat, Ten, 20);
    var a, b := SignedDecimal20(n1), SignedDecimal20(n2);
    var x, y := Decimal(c1 as nat, 20), Decimal(c2 as nat, 20);
    LessAppend(a + [DASH], b + [DASH], x, y);
    LessAppend(a, b, [DASH], [DASH]);
    assert !Less([DASH], [DASH]);
    assert a == b <==> a + [DASH] == b + [DASH] by {
      assert (a + [DASH])[..20] == a && (b + [DASH])[..20] == b;
    }
  }

  /** String order is chronological order exactly when the two times are not distinct times before 1970. */
  lemma TokenOrderIsChronological(n1: int64, c1: uint64, n2: int64, c2: uint64)
    ensures (Less(Token(n1, c1), Token(n2, c2)) <==> n1 < n2 || (n1 == n2 && c1 < c2))
            <==> !(n1 < 0 && n2 < 0 && n1 != n2)
  {
    TokenOrder(n1, c1, n2, c2);
  }

  /**
   * The text of a token: twenty places for the time, with a sign before 1970, a dash, and twenty
   * digits for the count.
   */
  lemma TokenText(nanos: int64, count: uint64)
    ensures var t := Token(nanos, count);
            && |t| == 41 && t[20] == 45
            && Value(t[21..], Ten) == count as int
            && (nanos >= 0 ==> Value(t[..20], Ten) == nanos as int)
            && (nanos < 0 ==> t[0] == 45 && Value(t[1..20], Ten) == -(nanos as int))
  {
    hide Numeral, Value;
    Powers();
    var t := Token(nanos, count);
    ValueOfNumeral(count as nat, Ten, 20);
    assert t[21..] == Decimal(count as nat, 20);
    if nanos >= 0 {
      ValueOfNumeral(nanos as nat, Ten, 20);
      assert t[..20] == Decimal(nanos as nat, 20);
    } else {
      ValueOfNumeral(-(nanos as int), Ten, 19);
      assert t[1..20] == Decimal(-(nanos as int), 19);
    }
  }

  lemma TokenInjective(n1: int64, c1: uint64, n2: int64, c2: uint64)
    requires Token(n1, c1) == Token(n2, c2)
    ensures n1 == n2 && c1 == c2
  {
    TokenOrder(n1, c1, n2, c2);
    TokenOrder(n2, c2, n1, c1);
    LessTotal(Token(n1, c1), Token(n2, c2));
  }

  // ---- Runs ---------------------------------------------------------------------------

  /** The counter after `k` further calls. */
  function After(start: uint64, k: nat): uint64 {
    ((start as int + k) % 0x1_0000_0000_0000_0000) as uint64
  }

  /**
   * The tokens of a run, in the order of the counter increments. Calls may read the
   * clock in any other order, so `clock` is arbitrary.
   */
  function Run(start: uint64, clock: seq<int64>): (ts: seq<Bytes>)
    ensures |ts| == |clock|
    ensures forall i :: 0 <= i < |clock| ==> ts[i] == Token(clock[i], After(start, i + 1))
  {
    seq(|clock|, i requires 0 <= i < |clock| => Token(clock[i], After(start, i + 1)))
  }

  lemma AfterStep(start: uint64, k: nat)
    ensures After(start, k + 1) == Next(After(start, k))
  {}

  /** Any sequence of calls of `New` on one counter, each starting from the count the last one left, is such a run. */
  lemma {:induction false} CallsAreRun(counts: seq<uint64>, clock: seq<int64>, ts: seq<Bytes>)
    requires |counts| == |clock| + 1 && |ts| == |clock|
    requires forall i :: 0 <= i < |clock| ==> Issued(counts[i], clock[i], counts[i + 1], ts[i])
    ensures counts[|clock|] == After(counts[0], |clock|)
    ensures ts == Run(counts[0], clock)
  {
    if clock != [] {
      var n := |clock| - 1;
      hide Token;
      assert Issued(counts[n], clock[n], counts[n + 1], ts[n]);
      CallsAreRun(counts[..n + 1], clock[..n], ts[..n]);
      AfterStep(counts[0], n);
      assert ts == ts[..n] + [ts[n]];
      assert Run(counts[0], clock) == Run(counts[0], clock[..n]) + [ts[n]];
    }
  }

  /** However calls interleave, 2^64 consecutive tokens are pairwise different. */
  lemma RunIsDistinct(start: uint64, clock: seq<int64>, i: nat, j: nat)
    requires i < j < |clock| && j - i < TWO_TO_THE_64
    ensures Run(start, clock)[i] != Run(start, clock)[j]
  {
    AfterDistinct(start, i + 1, j + 1);
    if Token(clock[i], After(start, i + 1)) == Token(clock[j], After(start, j + 1)) {
      TokenInjective(clock[i], After(start, i + 1), clock[j], After(start, j + 1));
      assert false;
    }
  }

  lemma AfterDistinct(start: uint64, i: nat, j: nat)
    requires i < j && j - i < TWO_TO_THE_64
    ensures After(start, i) != After(start, j)
  {
    var a, b := start as int + i, start as int + j;
    assert a == TWO_TO_THE_64 * (a / TWO_TO_THE_64) + a % TWO_TO_THE_64;
    assert b == TWO_TO_THE_64 * (b / TWO_TO_THE_64) + b % TWO_TO_THE_64;
  }

  /**
   * Tokens taken one after another increase when the clock (past 1970) does not go back and the
   * counter does not wrap.
   */
  lemma RunIncreases(start: uint64, clock: seq<int64>, i: nat, j: nat)
    requires i < j < |clock| && start as nat + j + 1 < TWO_TO_THE_64
    requires 0 <= clock[i] <= clock[j]
    ensures Compare(Run(start, clock)[i], Run(start, clock)[j]) == -1
  {
    hide Less, Token;
    assert After(start, i + 1) < After(start, j + 1);
    TokenOrder(clock[i], After(start, i + 1), clock[j], After(start, j + 1));
  }
}

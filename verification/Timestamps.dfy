/**
 * UTC instants and their RFC 3339 text with nanoseconds, as Go's time package
 * prints them: trailing zeros of the fraction are dropped, and the whole fraction when it is zero.
 */
module Timestamps {
  import opened Wrappers
  import opened GoBytes
  import opened FixedWidth

  datatype Instant = Instant(year: nat, month: nat, day: nat, hour: nat, minute: nat, second: nat, nanos: nat) {
    /** The ranges of RFC 3339, section 5.6 (no leap seconds, as in Go). */
    predicate Valid() {
      && year < 10_000 && 1 <= month <= 12 && 1 <= day <= 31
      && hour < 24 && minute < 60 && second < 60 && nanos < 1_000_000_000
    }

    /** Position on the time line, up to a strictly increasing map. */
    function Key(): nat {
      (((((year * 13 + month) * 32 + day) * 24 + hour) * 60 + minute) * 60 + second) * 1_000_000_000 + nanos
    }

    /** `Truncate(time.Millisecond)`. */
    function Truncated(): Instant {
      this.(nanos := nanos - nanos % 1_000_000)
    }
  }

  type Time = t: Instant | t.Valid() witness Instant(1970, 1, 1, 0, 0, 0, 0)

  function TruncateToMillis(t: Time): (r: Time)
    ensures r.nanos % 1_000_000 == 0
    ensures r.Key() <= t.Key() < r.Key() + 1_000_000
  {
    t.Truncated()
  }

  lemma Peel(k: nat, q1: nat, r1: nat, q2: nat, r2: nat)
    requires r1 < k && r2 < k && q1 * k + r1 == q2 * k + r2
    ensures q1 == q2 && r1 == r2
  {
    assert q1 < q2 ==> (q1 + 1) * k <= q2 * k;
    assert q2 < q1 ==> (q2 + 1) * k <= q1 * k;
  }

  /** Instants with the same position on the time line are the same. */
  lemma SameKeySameTime(a: Time, b: Time)
    requires a.Key() == b.Key()
    ensures a == b
  {
    var (am, bm) := (a.year * 13 + a.month, b.year * 13 + b.month);
    var (ad, bd) := (am * 32 + a.day, bm * 32 + b.day);
    var (ah, bh) := (ad * 24 + a.hour, bd * 24 + b.hour);
    var (an, bn) := (ah * 60 + a.minute, bh * 60 + b.minute);
    var (at, bt) := (an * 60 + a.second, bn * 60 + b.second);
    Peel(1_000_000_000, at, a.nanos, bt, b.nanos);
    Peel(60, an, a.second, bn, b.second);
    Peel(60, ah, a.minute, bh, b.minute);
    Peel(24, ad, a.hour, bd, b.hour);
    Peel(32, am, a.day, bm, b.day);
    Peel(13, a.year, a.month, b.year, b.month);
  }

  /** Earlier on the time line: by year, month, day, hour, minute, second and fraction. */
  predicate Before(a: Instant, b: Instant) {
    || a.year < b.year
    || (a.year == b.year && a.month < b.month)
    || (a.year == b.year && a.month == b.month && a.day < b.day)
    || (a.year == b.year && a.month == b.month && a.day == b.day && a.hour < b.hour)
    || (a.year == b.year && a.month == b.month && a.day == b.day && a.hour == b.hour && a.minute < b.minute)
    || (a.year == b.year && a.month == b.month && a.day == b.day && a.hour == b.hour && a.minute == b.minute
        && a.second < b.second)
    || (a.year == b.year && a.month == b.month && a.day == b.day && a.hour == b.hour && a.minute == b.minute
        && a.second == b.second && a.nanos < b.nanos)
  }

  lemma CarryOrder(k: nat, q1: nat, r1: nat, q2: nat, r2: nat)
    requires r1 < k && r2 < k
    ensures q1 * k + r1 < q2 * k + r2 <==> q1 < q2 || (q1 == q2 && r1 < r2)
  {
    assert q1 < q2 ==> (q1 + 1) * k <= q2 * k;
    assert q2 < q1 ==> (q2 + 1) * k <= q1 * k;
  }

  /** The sort key is chronological. */
  lemma KeyIsChronological(a: Time, b: Time)
    ensures a.Key() < b.Key() <==> Before(a, b)
  {
    var (am, bm) := (a.year * 13 + a.month, b.year * 13 + b.month);
    var (ad, bd) := (am * 32 + a.day, bm * 32 + b.day);
    var (ah, bh) := (ad * 24 + a.hour, bd * 24 + b.hour);
    var (an, bn) := (ah * 60 + a.minute, bh * 60 + b.minute);
    var (at, bt) := (an * 60 + a.second, bn * 60 + b.second);
    CarryOrder(1_000_000_000, at, a.nanos, bt, b.nanos);
    CarryOrder(60, an, a.second, bn, b.second);
    CarryOrder(60, ah, a.minute, bh, b.minute);
    CarryOrder(24, ad, a.hour, bd, b.hour);
    CarryOrder(32, am, a.day, bm, b.day);
    CarryOrder(13, a.year, a.month, b.year, b.month);
  }

  const LETTER_T: byte := 84
  const LETTER_Z: byte := 90

  function StripZeros(s: Bytes): Bytes {
    if s != [] && s[|s| - 1] == ZERO then StripZeros(s[..|s| - 1]) else s
  }

  function Fraction(nanos: nat): Bytes {
    if nanos == 0 then [] else [DOT] + StripZeros(Decimal(nanos, 9))
  }

  /** Date and time to the second; 19 bytes. */
  function Seconds(t: Instant): (s: Bytes)
    ensures |s| == 19
  {
    Decimal(t.year, 4) + [DASH] + Decimal(t.month, 2) + [DASH] + Decimal(t.day, 2) + [LETTER_T]
    + Decimal(t.hour, 2) + [COLON] + Decimal(t.minute, 2) + [COLON] + Decimal(t.second, 2)
  }

  /** `t.UTC().Format(time.RFC3339Nano)`. */
  function Format(t: Instant): Bytes {
    Seconds(t) + Fraction(t.nanos) + [LETTER_Z]
  }

  // ---- Reading the text back -----------------------------------------------------------

  function Number(s: Bytes): nat {
    var v := Value(s, Ten);
    if v < 0 then 0 else v
  }

  /** The digits padded with zeros to nine places. */
  function Padded(s: Bytes): Bytes
    decreases 9 - |s|
  {
    if |s| >= 9 then s else Padded(s + [ZERO])
  }

  function Parse(s: Bytes): Option<Instant> {
    if |s| < 20 || s[|s| - 1] != LETTER_Z then None
    else
      var fraction := s[19..|s| - 1];
      Some(Instant(
        Number(s[0..4]), Number(s[5..7]), Number(s[8..10]),
        Number(s[11..13]), Number(s[14..16]), Number(s[17..19]),
        if fraction == [] then 0 else Number(Padded(fraction[1..]))))
  }

  lemma NumberOfDecimal(n: nat, w: nat)
    requires n < Ten.Pow(w)
    ensures Number(Decimal(n, w)) == n
  {
    ValueOfNumeral(n, Ten, w);
  }

  /** Padding restores the stripped zeros. */
  lemma {:induction false} PadStripped(s: Bytes)
    requires |s| <= 9
    ensures Padded(StripZeros(s)) == Padded(s)
  {
    if s != [] && s[|s| - 1] == ZERO {
      var t := s[..|s| - 1];
      PadStripped(t);
      assert s == t + [ZERO];
    }
  }

  lemma FractionBack(nanos: nat)
    requires nanos < 1_000_000_000
    ensures Fraction(nanos) != [] ==> Number(Padded(Fraction(nanos)[1..])) == nanos
    ensures Fraction(nanos) == [] <==> nanos == 0
  {
    hide StripZeros, Decimal, Number;
    var digits := Decimal(nanos, 9);
    Powers();
    NumberOfDecimal(nanos, 9);
    PadStripped(digits);
    if nanos != 0 {
      assert Fraction(nanos)[1..] == StripZeros(digits);
    }
  }

  lemma SecondsBack(t: Time)
    ensures var s := Seconds(t);
            && Number(s[0..4]) == t.year && Number(s[5..7]) == t.month && Number(s[8..10]) == t.day
            && Number(s[11..13]) == t.hour && Number(s[14..16]) == t.minute && Number(s[17..19]) == t.second
  {
    hide Numeral, Number;
    Powers();
    var s := Seconds(t);
    assert s[0..4] == Decimal(t.year, 4);
    assert s[5..7] == Decimal(t.month, 2);
    assert s[8..10] == Decimal(t.day, 2);
    assert s[11..13] == Decimal(t.hour, 2);
    assert s[14..16] == Decimal(t.minute, 2);
    assert s[17..19] == Decimal(t.second, 2);
    NumberOfDecimal(t.year, 4);
    NumberOfDecimal(t.month, 2);
    NumberOfDecimal(t.day, 2);
    NumberOfDecimal(t.hour, 2);
    NumberOfDecimal(t.minute, 2);
    NumberOfDecimal(t.second, 2);
  }

  /** The timestamp text determines the instant. */
  lemma ParseFormat(t: Time)
    ensures Parse(Format(t)) == Some(t)
  {
    hide Number, Seconds, Fraction, Padded;
    var s, head, fraction := Format(t), Seconds(t), Fraction(t.nanos);
    SecondsBack(t);
    FractionBack(t.nanos);
    assert s[19..|s| - 1] == fraction;
    assert s[0..4] == head[0..4] && s[5..7] == head[5..7] && s[8..10] == head[8..10];
    assert s[11..13] == head[11..13] && s[14..16] == head[14..16] && s[17..19] == head[17..19];
  }

  // ---- What the text looks like ---------------------------------------------------------

  predicate IsDigit(b: byte) {
    48 <= b <= 57
  }

  lemma {:induction false} DecimalDigits(n: nat, w: nat)
    ensures forall k :: 0 <= k < w ==> IsDigit(Decimal(n, w)[k])
  {
    if w > 0 {
      DecimalDigits(n / 10, w - 1);
      assert Decimal(n, w) == Decimal(n / 10, w - 1) + [Ten.Digit(n)];
    }
  }

  /** What stripping leaves is the front of the digits, and does not end in a zero. */
  lemma {:induction false} StripEnds(s: Bytes)
    ensures StripZeros(s) <= s
    ensures StripZeros(s) != [] ==> StripZeros(s)[|StripZeros(s)| - 1] != 48
    ensures StripZeros(s) == [] <==> forall k :: 0 <= k < |s| ==> s[k] == 48
  {
    if s != [] && s[|s| - 1] == ZERO {
      StripEnds(s[..|s| - 1]);
    }
  }

  lemma {:induction false} AllZeros(n: nat, w: nat)
    requires n < Ten.Pow(w) && forall k :: 0 <= k < w ==> Decimal(n, w)[k] == 48
    ensures n == 0
  {
    if w > 0 {
      var s := Decimal(n, w);
      assert s[..w - 1] == Decimal(n / 10, w - 1);
      assert forall k :: 0 <= k < w - 1 ==> s[..w - 1][k] == s[k];
      AllZeros(n / 10, w - 1);
      assert s[w - 1] as int == n % 10 + 48;
    }
  }

  /** A number divisible by ten drops a digit. */
  lemma StripTen(n: nat, w: nat)
    requires w > 0
    ensures StripZeros(Decimal(10 * n, w)) == StripZeros(Decimal(n, w - 1))
  {
    assert 10 * n % 10 == 0 && 10 * n / 10 == n;
    assert Decimal(10 * n, w) == Decimal(n, w - 1) + [ZERO];
  }

  lemma MillisStrip(m: nat)
    ensures StripZeros(Decimal(1_000_000 * m, 9)) == StripZeros(Decimal(m, 3))
  {
    hide StripZeros, Decimal;
    StripTen(100_000 * m, 9);
    StripTen(10_000 * m, 8);
    StripTen(1_000 * m, 7);
    StripTen(100 * m, 6);
    StripTen(10 * m, 5);
    StripTen(m, 4);
  }

  /** Digits with the separators of RFC 3339, section 5.6, in their places. */
  predicate SecondsShape(s: Bytes)
    requires |s| >= 19
  {
    && s[4] == 45 && s[7] == 45      // '-'
    && s[10] == 84                   // 'T'
    && s[13] == 58 && s[16] == 58    // ':'
    && forall k :: 0 <= k < 19 && k !in {4, 7, 10, 13, 16} ==> IsDigit(s[k])
  }

  lemma SecondsText(t: Instant)
    ensures SecondsShape(Seconds(t))
  {
    hide Decimal;
    DecimalDigits(t.year, 4);
    DecimalDigits(t.month, 2);
    DecimalDigits(t.day, 2);
    DecimalDigits(t.hour, 2);
    DecimalDigits(t.minute, 2);
    DecimalDigits(t.second, 2);
  }

  /**
   * A fraction: a point, and one to nine digits of which the last is not zero; at most three for
   * whole milliseconds.
   */
  predicate FractionShape(f: Bytes, nanos: nat) {
    if nanos == 0 then f == []
    else
      && 2 <= |f| <= 10 && f[0] == 46 && f[|f| - 1] != 48
      && (forall k :: 1 <= k < |f| ==> IsDigit(f[k]))
      && (nanos % 1_000_000 == 0 ==> |f| <= 4)
  }

  lemma FractionText(nanos: nat)
    requires nanos < 1_000_000_000
    ensures FractionShape(Fraction(nanos), nanos)
  {
    hide StripZeros, Decimal;
    if nanos != 0 {
      var digits := Decimal(nanos, 9);
      Powers();
      StripEnds(digits);
      DecimalDigits(nanos, 9);
      if StripZeros(digits) == [] {
        AllZeros(nanos, 9);
        assert false;
      }
      if nanos % 1_000_000 == 0 {
        var m := nanos / 1_000_000;
        assert nanos == 1_000_000 * m;
        MillisStrip(m);
        StripEnds(Decimal(m, 3));
      }
    }
  }

  /**
   * The text of an instant: nineteen places of digits and separators, the fraction without
   * trailing zeros (three digits at most for a time truncated to milliseconds), and a final Z.
   */
  lemma FormatText(t: Time)
    ensures var s := Format(t);
            && 20 <= |s| <= 30 && SecondsShape(s) && s[|s| - 1] == 90
            && FractionShape(s[19..|s| - 1], t.nanos)
            && (t.nanos % 1_000_000 == 0 ==> |s| <= 24)
  {
    hide Seconds, Fraction;
    SecondsText(t);
    FractionText(t.nanos);
    var s := Format(t);
    assert s[19..|s| - 1] == Fraction(t.nanos);
    assert forall k :: 0 <= k < 19 ==> s[k] == Seconds(t)[k];
  }
}

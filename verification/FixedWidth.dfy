/**
 * Fixed-width numerals: `%020d` text and 8-byte big-endian integers are the same
 * thing, in base 10 over '0' and in base 256 over the zero byte.
 */
module FixedWidth {
  import opened GoBytes

  const ZERO: byte := 48

  datatype Radix = Ten | TwoFiftySix {
    function Quot(n: nat): nat {
      if Ten? then n / 10 else n / 256
    }

    function Rem(n: nat): nat {
      if Ten? then n % 10 else n % 256
    }

    function Times(n: int): int {
      if Ten? then 10 * n else 256 * n
    }

    function Zero(): byte {
      if Ten? then ZERO else 0
    }

    function Digit(n: nat): byte {
      (Rem(n) + Zero() as nat) as byte
    }

    function Pow(w: nat): nat {
      if w == 0 then 1 else Times(Pow(w - 1))
    }
  }

  /** The `w` low-order digits of `n`, most significant first. */
  function Numeral(n: nat, radix: Radix, w: nat): (s: Bytes)
    ensures |s| == w
  {
    if w == 0 then [] else Numeral(radix.Quot(n), radix, w - 1) + [radix.Digit(n)]
  }

  function Value(s: Bytes, radix: Radix): int {
    if s == [] then 0 else radix.Times(Value(s[..|s| - 1], radix)) + (s[|s| - 1] as int - radix.Zero() as int)
  }

  /** Go's `<` on strings. */
  predicate Less(a: Bytes, b: Bytes) {
    if b == [] then false
    else if a == [] then true
    else a[0] < b[0] || (a[0] == b[0] && Less(a[1..], b[1..]))
  }

  /** Reading a numeral back gives the number. */
  lemma {:induction false} ValueOfNumeral(n: nat, radix: Radix, w: nat)
    requires n < radix.Pow(w)
    ensures Value(Numeral(n, radix, w), radix) == n
  {
    if w > 0 {
      ValueOfNumeral(radix.Quot(n), radix, w - 1);
      var s := Numeral(n, radix, w);
      assert s[..w - 1] == Numeral(radix.Quot(n), radix, w - 1);
    }
  }

  lemma NumeralInjective(a: nat, b: nat, radix: Radix, w: nat)
    requires a < radix.Pow(w) && b < radix.Pow(w)
    requires Numeral(a, radix, w) == Numeral(b, radix, w)
    ensures a == b
  {
    ValueOfNumeral(a, radix, w);
    ValueOfNumeral(b, radix, w);
  }

  /** Comparing concatenations: the first parts decide unless they are equal. */
  lemma {:induction false} LessAppend(a: Bytes, b: Bytes, x: Bytes, y: Bytes)
    requires |a| == |b|
    ensures Less(a + x, b + y) <==> Less(a, b) || (a == b && Less(x, y))
  {
    if a == [] {
      assert a + x == x && b + y == y;
    } else {
      assert (a + x)[1..] == a[1..] + x && (b + y)[1..] == b[1..] + y;
      assert a == [a[0]] + a[1..] && b == [b[0]] + b[1..];
      LessAppend(a[1..], b[1..], x, y);
    }
  }

  /** Text order of equally wide numerals is numeric order. */
  lemma {:induction false} NumeralOrder(a: nat, b: nat, radix: Radix, w: nat)
    requires a < radix.Pow(w) && b < radix.Pow(w)
    ensures Less(Numeral(a, radix, w), Numeral(b, radix, w)) <==> a < b
  {
    if w > 0 {
      var qa, qb := radix.Quot(a), radix.Quot(b);
      var s, t := Numeral(qa, radix, w - 1), Numeral(qb, radix, w - 1);
      NumeralOrder(qa, qb, radix, w - 1);
      if s == t {
        NumeralInjective(qa, qb, radix, w - 1);
      }
      LessAppend(s, t, [radix.Digit(a)], [radix.Digit(b)]);
      LessDigit(radix.Digit(a), radix.Digit(b));
    }
  }

  lemma LessDigit(a: byte, b: byte)
    ensures Less([a], [b]) <==> a < b
  {}

  // ---- The two instances -----------------------------------------------------------

  /** Decimal digits, zero-padded to width `w`. */
  function Decimal(n: nat, w: nat): (s: Bytes)
    ensures |s| == w
  {
    Numeral(n, Ten, w)
  }

  function BigEndian64(n: nat): (s: Bytes)
    ensures |s| == 8
  {
    Numeral(n, TwoFiftySix, 8)
  }

  /** The eight bytes of a 64-bit number, the most significant first. */
  lemma BigEndianBytes(n: nat)
    ensures var s := BigEndian64(n);
            && s[7] as int == n % 256
            && s[6] as int == n / 256 % 256
            && s[5] as int == n / 256 / 256 % 256
            && s[4] as int == n / 256 / 256 / 256 % 256
            && s[3] as int == n / 256 / 256 / 256 / 256 % 256
            && s[2] as int == n / 256 / 256 / 256 / 256 / 256 % 256
            && s[1] as int == n / 256 / 256 / 256 / 256 / 256 / 256 % 256
            && s[0] as int == n / 256 / 256 / 256 / 256 / 256 / 256 / 256 % 256
  {
    var n1 := n / 256;
    var n2 := n1 / 256;
    var n3 := n2 / 256;
    NumeralSnoc(n, 7);
    NumeralSnoc(n1, 6);
    NumeralSnoc(n2, 5);
    NumeralSnoc(n3, 4);
    NumeralSnoc(n3 / 256, 3);
    NumeralSnoc(n3 / 256 / 256, 2);
    NumeralSnoc(n3 / 256 / 256 / 256, 1);
    NumeralSnoc(n3 / 256 / 256 / 256 / 256, 0);
  }

  lemma NumeralSnoc(n: nat, w: nat)
    ensures var s := Numeral(n, TwoFiftySix, w + 1);
            && s[w] as int == n % 256
            && forall k :: 0 <= k < w ==> s[k] == Numeral(n / 256, TwoFiftySix, w)[k]
  {}

  const TWO_TO_THE_63: nat := 0x8000_0000_0000_0000
  const TWO_TO_THE_64: nat := 0x1_0000_0000_0000_0000

  lemma Powers()
    ensures Ten.Pow(2) == 100 && Ten.Pow(4) == 10_000 && Ten.Pow(9) == 1_000_000_000
    ensures Ten.Pow(19) == 10_000_000_000_000_000_000 > TWO_TO_THE_63
    ensures Ten.Pow(20) == 100_000_000_000_000_000_000 > TWO_TO_THE_64
    ensures TwoFiftySix.Pow(8) == TWO_TO_THE_64
  {
    assert Ten.Pow(4) == 10_000;
    assert Ten.Pow(6) == 1_000_000;
    assert Ten.Pow(12) == 1_000_000_000_000;
    assert Ten.Pow(16) == 10_000_000_000_000_000;
    assert TwoFiftySix.Pow(4) == 0x1_0000_0000;
  }
}

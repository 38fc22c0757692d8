/** Go byte slices. A Go `string` is a byte slice too. */
module GoBytes {

  newtype byte = x: int | 0 <= x < 256

  type Bytes = seq<byte>

  const NEWLINE: byte := 10
  const DASH: byte := 45
  const DOT: byte := 46
  const COLON: byte := 58

  /** The bytes of an ASCII literal. */
  function Ascii(s: string): Bytes
    requires forall i :: 0 <= i < |s| ==> s[i] < 128 as char
  {
    seq(|s|, i requires 0 <= i < |s| => s[i] as int as byte)
  }

  /** `bytes.IndexByte`: the first position of `b`, or -1. */
  function IndexByte(s: Bytes, b: byte): (i: int)
    ensures -1 <= i < |s|
    ensures i < 0 ==> b !in s
    ensures i >= 0 ==> s[i] == b && b !in s[..i]
  {
    if s == [] then -1
    else if s[0] == b then 0
    else
      var i := IndexByte(s[1..], b);
      if i < 0 then -1 else i + 1
  }
}

/**
 * The two views of a source file: a byte string with line-start offsets, and a
 * sequence of lines that carry their newline. `Patch` searches in the first and
 * applies in the second; the lemmas here translate between them.
 */
module Lines {
  import opened GoBytes

  /** Length of the first line of `s`, its newline included. */
  function LineLength(s: Bytes): (n: nat)
    requires s != []
    ensures 0 < n <= |s|
    ensures forall j :: 0 <= j < n - 1 ==> s[j] != NEWLINE
    ensures n < |s| ==> s[n - 1] == NEWLINE
  {
    var i := IndexByte(s, NEWLINE);
    assert i >= 0 ==> forall j :: 0 <= j < i ==> s[j] == s[..i][j];
    if i < 0 then |s| else i + 1
  }

  function SplitLines(s: Bytes): seq<Bytes>
    decreases |s|
  {
    if s == [] then [] else [s[..LineLength(s)]] + SplitLines(s[LineLength(s)..])
  }

  function Join(ls: seq<Bytes>): Bytes {
    if ls == [] then [] else ls[0] + Join(ls[1..])
  }

  function Newlines(s: Bytes): nat {
    if s == [] then 0 else (if s[0] == NEWLINE then 1 else 0) + Newlines(s[1..])
  }

  /** `off` is where a line starts (the position after a final newline included). */
  predicate IsLineStart(s: Bytes, off: int) {
    0 <= off <= |s| && (off == 0 || s[off - 1] == NEWLINE)
  }

  /** `off` is where a line ends: after a newline, or at the end of the file. */
  predicate IsLineEnd(s: Bytes, off: int) {
    0 < off <= |s| && (off == |s| || s[off - 1] == NEWLINE)
  }

  /** 1-based number of the line that starts at `off`. */
  function LineNo(s: Bytes, off: nat): nat
    requires off <= |s|
  {
    1 + Newlines(s[..off])
  }

  /** Byte offset of the line with index `k`. */
  function Offset(ls: seq<Bytes>, k: nat): nat
    requires k <= |ls|
  {
    |Join(ls[..k])|
  }

  /** A line's text: not empty, with a newline at most at its end. */
  predicate IsLine(l: Bytes) {
    l != [] && NEWLINE !in l[..|l| - 1]
  }

  predicate IsTerminated(l: Bytes) {
    IsLine(l) && l[|l| - 1] == NEWLINE
  }

  /** Consecutive lines of some file: only the last may lack its newline. */
  predicate AreLines(ls: seq<Bytes>) {
    && (forall i :: 0 <= i < |ls| ==> IsLine(ls[i]))
    && (forall i :: 0 <= i < |ls| - 1 ==> IsTerminated(ls[i]))
  }

  predicate AllTerminated(ls: seq<Bytes>) {
    forall i :: 0 <= i < |ls| ==> IsTerminated(ls[i])
  }

  // ---- Join and Newlines are homomorphisms -----------------------------------

  lemma {:induction false} JoinAppend(a: seq<Bytes>, b: seq<Bytes>)
    ensures Join(a + b) == Join(a) + Join(b)
  {
    if a == [] {
      assert a + b == b;
    } else {
      assert (a + b)[1..] == a[1..] + b;
      JoinAppend(a[1..], b);
    }
  }

  lemma EmptyJoin()
    ensures Join([]) == []
  {}

  lemma JoinOne(l: Bytes)
    ensures Join([l]) == l
  {
    assert [l][1..] == [];
  }

  /** Joined lines end as the last of them does. */
  lemma JoinLast(ls: seq<Bytes>)
    requires ls != [] && AreLines(ls)
    ensures Join(ls) != []
    ensures Join(ls)[|Join(ls)| - 1] == NEWLINE <==> IsTerminated(ls[|ls| - 1])
  {
    var n := |ls| - 1;
    JoinAppend(ls[..n], [ls[n]]);
    JoinOne(ls[n]);
    assert ls == ls[..n] + [ls[n]];
  }

  lemma {:induction false} NewlinesAppend(a: Bytes, b: Bytes)
    ensures Newlines(a + b) == Newlines(a) + Newlines(b)
  {
    if a == [] {
      assert a + b == b;
    } else {
      assert (a + b)[1..] == a[1..] + b;
      NewlinesAppend(a[1..], b);
    }
  }

  lemma {:induction false} NoNewlines(s: Bytes)
    requires NEWLINE !in s
    ensures Newlines(s) == 0
  {
    if s != [] {
      NoNewlines(s[1..]);
    }
  }

  lemma LineNewlines(l: Bytes)
    requires IsLine(l)
    ensures Newlines(l) == if IsTerminated(l) then 1 else 0
  {
    var n := |l| - 1;
    NoNewlines(l[..n]);
    assert l == l[..n] + [l[n]];
    NewlinesAppend(l[..n], [l[n]]);
  }

  lemma {:induction false} JoinNewlines(ls: seq<Bytes>)
    requires AllTerminated(ls)
    ensures Newlines(Join(ls)) == |ls|
  {
    if ls != [] {
      LineNewlines(ls[0]);
      NewlinesAppend(ls[0], Join(ls[1..]));
      JoinNewlines(ls[1..]);
    }
  }

  // ---- Splitting and joining are inverse --------------------------------------

  /** The first line and the rest, put together again. */
  lemma SplitStep(s: Bytes)
    requires s != []
    ensures var n := LineLength(s);
            && SplitLines(s) == [s[..n]] + SplitLines(s[n..])
            && IsLine(s[..n]) && s == s[..n] + s[n..]
            && (s[n..] != [] ==> IsTerminated(s[..n]))
  {
    hide SplitLines;
    var n := LineLength(s);
    assert s[..n][..n - 1] == s[..n - 1];
    SplitUnfold(s);
  }

  lemma SplitUnfold(s: Bytes)
    requires s != []
    ensures SplitLines(s) == [s[..LineLength(s)]] + SplitLines(s[LineLength(s)..])
  {
    hide LineLength;
  }

  lemma LinesCons(l: Bytes, ls: seq<Bytes>)
    requires IsLine(l) && AreLines(ls) && (ls != [] ==> IsTerminated(l))
    ensures AreLines([l] + ls) && Join([l] + ls) == l + Join(ls)
  {
    assert ([l] + ls)[1..] == ls;
  }

  /** Splitting loses nothing, and yields lines. */
  lemma {:induction false} JoinSplit(s: Bytes)
    ensures Join(SplitLines(s)) == s
    ensures AreLines(SplitLines(s))
    decreases |s|
  {
    if s != [] {
      var n := LineLength(s);
      JoinSplit(s[n..]);
      SplitStep(s);
      assert s[n..] == [] ==> SplitLines(s[n..]) == [];
      hide SplitLines, AreLines, IsLine, IsTerminated, LineLength;
      LinesCons(s[..n], SplitLines(s[n..]));
    }
  }

  lemma {:induction false} FirstByte(s: Bytes, b: byte, i: nat)
    requires i < |s| && s[i] == b && b !in s[..i]
    ensures IndexByte(s, b) == i
  {
    if i > 0 {
      assert s[..i][0] == s[0] && s[..i][1..] == s[1..][..i - 1];
      FirstByte(s[1..], b, i - 1);
    }
  }

  lemma SplitFirst(l: Bytes, rest: Bytes)
    requires IsLine(l)
    requires IsTerminated(l) || rest == []
    ensures SplitLines(l + rest) == [l] + SplitLines(rest)
  {
    var s := l + rest;
    var n := |l| - 1;
    assert s[..n] == l[..n];
    if l[n] == NEWLINE {
      FirstByte(s, NEWLINE, n);
    } else {
      assert s == l == l[..n] + [l[n]];
    }
    assert s[..|l|] == l && s[|l|..] == rest;
  }

  lemma Assoc<T>(a: seq<T>, b: seq<T>, c: seq<T>)
    ensures (a + b) + c == a + (b + c)
  {}

  lemma LinesTail(ls: seq<Bytes>)
    requires AreLines(ls) && ls != []
    ensures AreLines(ls[1..])
    ensures |ls| > 1 ==> IsTerminated(ls[0])
    ensures AllTerminated(ls) ==> AllTerminated(ls[1..])
  {
    assert forall i :: 0 <= i < |ls[1..]| ==> ls[1..][i] == ls[i + 1];
  }

  /** Whole lines in front of `rest` are split off one by one. */
  lemma {:induction false} SplitJoinThen(ls: seq<Bytes>, rest: Bytes)
    requires AreLines(ls)
    requires AllTerminated(ls) || rest == []
    ensures SplitLines(Join(ls) + rest) == ls + SplitLines(rest)
  {
    if ls == [] {
      assert Join(ls) + rest == rest;
    } else {
      var tail := ls[1..];
      LinesTail(ls);
      SplitJoinThen(tail, rest);
      var after := Join(tail) + rest;
      assert |ls| == 1 && rest == [] ==> after == [];
      SplitFirst(ls[0], after);
      calc {
        SplitLines(Join(ls) + rest);
        { Assoc(ls[0], Join(tail), rest); }
        SplitLines(ls[0] + after);
        [ls[0]] + SplitLines(after);
        [ls[0]] + (tail + SplitLines(rest));
        { Assoc([ls[0]], tail, SplitLines(rest)); assert ls == [ls[0]] + tail; }
        ls + SplitLines(rest);
      }
    }
  }

  lemma SplitJoin(ls: seq<Bytes>)
    requires AreLines(ls)
    ensures SplitLines(Join(ls)) == ls
  {
    SplitJoinThen(ls, []);
    assert Join(ls) + [] == Join(ls);
  }

  // ---- Line indices and line-start offsets --------------------------------------

  /** Cutting a file before line `k`. */
  lemma CutAt(s: Bytes, k: nat)
    requires k <= |SplitLines(s)|
    ensures var ls := SplitLines(s);
            && Offset(ls, k) <= |s|
            && s[..Offset(ls, k)] == Join(ls[..k])
            && s[Offset(ls, k)..] == Join(ls[k..])
  {
    var ls := SplitLines(s);
    JoinSplit(s);
    JoinAppend(ls[..k], ls[k..]);
    assert ls[..k] + ls[k..] == ls;
  }

  /** The lines before and from `k` on are lines themselves. */
  lemma CutLines(ls: seq<Bytes>, k: nat)
    requires AreLines(ls) && k <= |ls|
    ensures AreLines(ls[k..])
    ensures k < |ls| ==> AreLines(ls[..k]) && AllTerminated(ls[..k])
  {
    assert forall i :: 0 <= i < |ls[k..]| ==> ls[k..][i] == ls[k + i];
  }

  /**
   * Line `k` starts at a line start, is numbered `k + 1`, and the rest of the file splits into
   * the rest of its lines.
   */
  lemma LineStartsAt(s: Bytes, k: nat)
    requires k < |SplitLines(s)|
    ensures var ls := SplitLines(s);
            && Offset(ls, k) < |s|
            && IsLineStart(s, Offset(ls, k))
            && LineNo(s, Offset(ls, k)) == k + 1
            && SplitLines(s[Offset(ls, k)..]) == ls[k..]
  {
    hide SplitLines, Join, Newlines, AllTerminated;
    var ls := SplitLines(s);
    var off := Offset(ls, k);
    JoinSplit(s);
    CutAt(s, k);
    CutLines(ls, k);
    JoinNewlines(ls[..k]);
    SplitJoin(ls[k..]);
    JoinLast(ls[k..]);
    if off > 0 {
      EmptyJoin();
      JoinLast(ls[..k]);
      LastTerminated(ls[..k]);
      assert s[off - 1] == s[..off][off - 1];
    }
  }

  lemma LastTerminated(ls: seq<Bytes>)
    requires AllTerminated(ls) && ls != []
    ensures IsTerminated(ls[|ls| - 1])
  {}

  /** Every line start inside the file is where some line begins. */
  lemma {:induction false} LineOfStart(s: Bytes, off: nat) returns (k: nat)
    requires off < |s| && IsLineStart(s, off)
    ensures k < |SplitLines(s)| && Offset(SplitLines(s), k) == off
    ensures k + 1 == LineNo(s, off)
    decreases |s|
  {
    var ls := SplitLines(s);
    if off == 0 {
      k := 0;
      assert ls[..0] == [];
      return;
    }
    var n := LineLength(s);
    assert n <= off;
    var t := s[n..];
    assert off - n > 0 ==> t[off - n - 1] == s[off - 1];
    var j := LineOfStart(t, off - n);
    k := j + 1;
    assert ls[..k] == [s[..n]] + SplitLines(t)[..j];
    assert ls[..k][1..] == SplitLines(t)[..j];
    LineStartsAt(s, k);
  }

  lemma OffsetMonotone(s: Bytes, j: nat, k: nat)
    requires j <= k <= |SplitLines(s)|
    ensures Offset(SplitLines(s), j) <= Offset(SplitLines(s), k)
    ensures j < k ==> Offset(SplitLines(s), j) < Offset(SplitLines(s), k)
  {
    var ls := SplitLines(s);
    JoinSplit(s);
    assert ls[..k] == ls[..j] + ls[j..k];
    JoinAppend(ls[..j], ls[j..k]);
    if j < k {
      assert ls[j..k][0] == ls[j] && IsLine(ls[j]);
    }
  }

  /** `Join(block)` stands at `off` and stops where a line stops. */
  predicate OccursAt(s: Bytes, off: nat, block: Bytes) {
    off + |block| <= |s| && s[off..off + |block|] == block
  }

  lemma BytesToLines(s: Bytes, k: nat, block: seq<Bytes>)
    requires k < |SplitLines(s)| && block != [] && AreLines(block)
    requires OccursAt(s, Offset(SplitLines(s), k), Join(block))
    requires IsLineEnd(s, Offset(SplitLines(s), k) + |Join(block)|)
    ensures k + |block| <= |SplitLines(s)| && SplitLines(s)[k..k + |block|] == block
  {
    hide SplitLines, Join, Newlines;
    var off := Offset(SplitLines(s), k);
    LineStartsAt(s, k);
    JoinLast(block);
    SplitAfterBlock(s[off..], block);
  }

  lemma SplitAfterBlock(s: Bytes, block: seq<Bytes>)
    requires block != [] && AreLines(block)
    requires Join(block) <= s
    requires s == Join(block) || s[|Join(block)| - 1] == NEWLINE
    ensures block <= SplitLines(s)
  {
    var rest := s[|Join(block)|..];
    assert s == Join(block) + rest;
    JoinLast(block);
    SplitJoinThen(block, rest);
  }

  lemma LinesToBytes(s: Bytes, k: nat, m: nat)
    requires k < m <= |SplitLines(s)|
    ensures var ls := SplitLines(s);
            && Offset(ls, m) == Offset(ls, k) + |Join(ls[k..m])|
            && OccursAt(s, Offset(ls, k), Join(ls[k..m]))
            && IsLineEnd(s, Offset(ls, m))
  {
    hide SplitLines, Newlines;
    var ls := SplitLines(s);
    CutAt(s, m);
    assert ls[..m] == ls[..k] + ls[k..m];
    JoinAppend(ls[..k], ls[k..m]);
    var off, end := Offset(ls, k), Offset(ls, m);
    assert s[off..end] == s[..end][off..];
    OffsetMonotone(s, k, m);
    if m < |ls| {
      LineStartsAt(s, m);
    } else {
      assert ls[m..] == [];
      assert s[end..] == [];
    }
  }

  /**
   * The bridge. At the start of line `k`, a block of lines occurs as bytes and
   * ends where a line ends exactly when those lines are the file's lines from `k` on.
   */
  lemma BlockAtLine(s: Bytes, k: nat, block: seq<Bytes>)
    requires k < |SplitLines(s)| && block != [] && AreLines(block)
    ensures HasBytes(s, k, block) <==> HasLines(s, k, block)
  {
    hide SplitLines, Join, Newlines, AreLines, IsLineEnd, OccursAt, Offset;
    if HasBytes(s, k, block) {
      BytesToLines(s, k, block);
    }
    if HasLines(s, k, block) {
      LinesToBytes(s, k, k + |block|);
    }
  }

  predicate HasLines(s: Bytes, k: nat, block: seq<Bytes>) {
    k + |block| <= |SplitLines(s)| && SplitLines(s)[k..k + |block|] == block
  }

  predicate HasBytes(s: Bytes, k: nat, block: seq<Bytes>)
    requires k < |SplitLines(s)|
  {
    && OccursAt(s, Offset(SplitLines(s), k), Join(block))
    && IsLineEnd(s, Offset(SplitLines(s), k) + |Join(block)|)
  }
}

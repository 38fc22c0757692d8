/** Nothing is lost by a patch: it can be undone, and it changes the line count by what it adds and removes. */
module PatchUndo {
  import opened Wrappers
  import opened GoBytes
  import opened Lines
  import opened Patch
  import opened PatchTheorems

  function InvertLine(l: Line): Line {
    match l.op
    case Context => l
    case Add => Line(Delete, l.text)
    case Delete => Line(Add, l.text)
  }

  /** The hunk with additions and deletions swapped. */
  function Invert(h: Hunk): (r: Hunk)
    ensures |r| == |h|
  {
    if h == [] then [] else [InvertLine(h[0])] + Invert(h[1..])
  }

  function InvertAll(hunks: seq<Hunk>): (r: seq<Hunk>)
    ensures |r| == |hunks|
  {
    if hunks == [] then []
    else InvertAll(hunks[..|hunks| - 1]) + [Invert(hunks[|hunks| - 1])]
  }

  /** Lines gained by the hunks so far. */
  function Growth(hunks: seq<Hunk>): int {
    if hunks == [] then 0
    else
      var n := |hunks| - 1;
      Growth(hunks[..n]) + |NewLines(hunks[n])| - |OldLines(hunks[n])|
  }

  /** Each position moved by the growth of the hunks before it. */
  function Shifted(hunks: seq<Hunk>, ps: seq<int>): (r: seq<int>)
    requires |hunks| == |ps|
    ensures |r| == |ps|
    decreases |hunks|
  {
    if hunks == [] then []
    else
      var n := |hunks| - 1;
      Shifted(hunks[..n], ps[..n]) + [ps[n] + Growth(hunks[..n])]
  }

  lemma {:induction false} InvertSides(h: Hunk)
    ensures OldLines(Invert(h)) == NewLines(h)
    ensures NewLines(Invert(h)) == OldLines(h)
  {
    if h != [] {
      InvertSides(h[1..]);
      assert Invert(h)[1..] == Invert(h[1..]);
    }
  }

  /**
   * Against any text that begins with the lines written so far, the inverted hunks apply at
   * the shifted positions, consume exactly those lines, and write back the lines consumed.
   */
  lemma {:induction false} UndoPrefix(src: seq<Bytes>, hunks: seq<Hunk>, ps: seq<int>, target: seq<Bytes>)
    requires |hunks| == |ps| && ApplyHunks(src, hunks, ps).Ok?
    requires ApplyHunks(src, hunks, ps).value.out <= target
    ensures var a := ApplyHunks(src, hunks, ps).value;
            && |a.out| == a.next + Growth(hunks)
            && ApplyHunks(target, InvertAll(hunks), Shifted(hunks, ps)) == Ok(Progress(|a.out|, src[..a.next]))
    decreases |hunks|
  {
    hide OldLines, NewLines, Invert, ApplyHunk;
    if hunks != [] {
      var n := |hunks| - 1;
      var before := ApplyHunks(src, hunks[..n], ps[..n]).value;
      UndoPrefix(src, hunks[..n], ps[..n], target);
      UndoHunk(src, before, n, hunks[n], ps[n], target);
      assert InvertAll(hunks)[..n] == InvertAll(hunks[..n]);
      assert Shifted(hunks, ps)[..n] == Shifted(hunks[..n], ps[..n]);
    }
  }

  lemma UndoHunk(src: seq<Bytes>, a: Progress, n: nat, h: Hunk, pos: int, target: seq<Bytes>)
    requires a.next <= |src| && ApplyHunk(src, a, n, h, pos).Ok?
    requires ApplyHunk(src, a, n, h, pos).value.out <= target
    ensures var b := ApplyHunk(src, a, n, h, pos).value;
            && |b.out| - b.next == |a.out| - a.next + |NewLines(h)| - |OldLines(h)|
            && ApplyHunk(target, Progress(|a.out|, src[..a.next]), n, Invert(h), pos + |a.out| - a.next)
               == Ok(Progress(|b.out|, src[..b.next]))
  {
    hide OldLines, NewLines, Invert;
    var b := ApplyHunk(src, a, n, h, pos).value;
    var start := pos - 1;
    var gap := src[a.next..start];
    var at := |a.out| + |gap|;
    InvertSides(h);
    assert b.out == a.out + gap + NewLines(h);
    assert target[..|b.out|] == b.out;
    assert target[at..|b.out|] == b.out[at..] == NewLines(h);
    assert target[|a.out|..at] == b.out[|a.out|..at];
    assert b.out[|a.out|..at] == gap;
    assert src[..a.next] + gap + OldLines(h) == src[..b.next];
  }

  /** Undoing, on line sequences: for all hunks and positions. */
  lemma UndoLines(src: seq<Bytes>, hunks: seq<Hunk>, ps: seq<int>)
    requires |hunks| == |ps| && StrictApplyLines(src, hunks, ps).Ok?
    ensures var out := StrictApplyLines(src, hunks, ps).value;
            && StrictApplyLines(out, InvertAll(hunks), Shifted(hunks, ps)) == Ok(src)
            && |out| == |src| + Growth(hunks)
  {
    hide ApplyHunks, InvertAll, Shifted, Growth;
    var a := ApplyHunks(src, hunks, ps).value;
    var out := a.out + src[a.next..];
    UndoPrefix(src, hunks, ps, out);
    assert out[|a.out|..] == src[a.next..];
    assert src[..a.next] + src[a.next..] == src;
  }

  // ---- Lines written by a terminated patch are lines of the output -----------------

  predicate TerminatedHunk(h: Hunk) {
    forall i :: 0 <= i < |h| ==> IsTerminated(h[i].text)
  }

  lemma {:induction false} TerminatedSides(h: Hunk)
    requires TerminatedHunk(h)
    ensures AllTerminated(OldLines(h)) && AllTerminated(NewLines(h))
  {
    if h != [] {
      assert TerminatedHunk(h[1..]);
      TerminatedSides(h[1..]);
      SnocTerminated([h[0].text], OldLines(h[1..]));
      SnocTerminated([h[0].text], NewLines(h[1..]));
    }
  }

  lemma SnocTerminated(a: seq<Bytes>, b: seq<Bytes>)
    requires AllTerminated(a) && AllTerminated(b)
    ensures AllTerminated(a + b)
  {}

  lemma {:induction false} OutIsTerminated(src: seq<Bytes>, hunks: seq<Hunk>, ps: seq<int>)
    requires |hunks| == |ps| && ApplyHunks(src, hunks, ps).Ok? && AreLines(src)
    requires forall i :: 0 <= i < |hunks| ==> TerminatedHunk(hunks[i]) && OldLines(hunks[i]) != []
    ensures AllTerminated(ApplyHunks(src, hunks, ps).value.out)
    decreases |hunks|
  {
    if hunks != [] {
      hide OldLines, NewLines, ApplyHunks, TerminatedHunk;
      var n := |hunks| - 1;
      OutIsTerminated(src, hunks[..n], ps[..n]);
      AppliedLast(src, hunks, ps);
      TerminatedSides(hunks[n]);
      var a := ApplyHunks(src, hunks[..n], ps[..n]).value;
      GapIsTerminated(src, a.next, ps[n] - 1);
      SnocTerminated(a.out, src[a.next..ps[n] - 1]);
      SnocTerminated(a.out + src[a.next..ps[n] - 1], NewLines(hunks[n]));
    }
  }

  lemma GapIsTerminated(src: seq<Bytes>, i: nat, j: nat)
    requires AreLines(src) && i <= j < |src|
    ensures AllTerminated(src[i..j])
  {
    assert forall k :: 0 <= k < j - i ==> src[i..j][k] == src[i + k];
  }

  /**
   * The lines the patch leaves are lines of a file again: no line without its newline has
   * got in front of another line.
   */
  predicate LeavesLines(orig: Bytes, hunks: seq<Hunk>)
    requires Patched(orig, hunks).Ok?
  {
    AreLines(StrictApplyLines(SplitLines(orig), hunks, Anchor(orig, hunks).value).value)
  }

  /** Hunks made of newline-terminated lines leave lines, whatever the end of the file looks like. */
  lemma TerminatedHunksLeaveLines(orig: Bytes, hunks: seq<Hunk>)
    requires Patched(orig, hunks).Ok?
    requires forall i :: 0 <= i < |hunks| ==> TerminatedHunk(hunks[i])
    ensures LeavesLines(orig, hunks)
  {
    hide SplitLines, Join, ApplyHunks, Anchor, OldLines, NewLines, Matches, TerminatedHunk;
    var src, ps := SplitLines(orig), Anchor(orig, hunks).value;
    var a := ApplyHunks(src, hunks, ps).value;
    JoinSplit(orig);
    forall i | 0 <= i < |hunks| ensures OldLines(hunks[i]) != [] {
      AnchoredHunk(orig, hunks, i);
      EmptyJoin();
    }
    OutIsTerminated(src, hunks, ps);
    SliceOfLines(src, a.next, |src|);
    ThenLines(a.out, src[a.next..]);
    assert src[a.next..] == src[a.next..|src|];
  }

  lemma ThenLines(a: seq<Bytes>, b: seq<Bytes>)
    requires AllTerminated(a) && AreLines(b)
    ensures AreLines(a + b)
  {}

  /**
   * The patched file, patched with the swapped hunks at the shifted positions, is the original
   * file; also when a hunk adds or removes the newline at the end of the file.
   */
  lemma PatchCanBeUndone(orig: Bytes, hunks: seq<Hunk>)
    requires Patched(orig, hunks).Ok? && LeavesLines(orig, hunks)
    ensures StrictApply(Patched(orig, hunks).value, InvertAll(hunks), Shifted(hunks, Anchor(orig, hunks).value))
            == Ok(orig)
  {
    hide SplitLines, Join, ApplyHunks, Anchor, InvertAll, Shifted;
    SplitJoin(StrictApplyLines(SplitLines(orig), hunks, Anchor(orig, hunks).value).value);
    UndoLines(SplitLines(orig), hunks, Anchor(orig, hunks).value);
    JoinSplit(orig);
  }

  // ---- Line counts -------------------------------------------------------------------

  function Count(h: Hunk, op: Op): nat {
    if h == [] then 0 else (if h[0].op == op then 1 else 0) + Count(h[1..], op)
  }

  function CountAll(hunks: seq<Hunk>, op: Op): nat {
    if hunks == [] then 0 else CountAll(hunks[..|hunks| - 1], op) + Count(hunks[|hunks| - 1], op)
  }

  lemma {:induction false} SidesCount(h: Hunk)
    ensures |NewLines(h)| - |OldLines(h)| == Count(h, Add) - Count(h, Delete)
  {
    if h != [] {
      SidesCount(h[1..]);
    }
  }

  lemma {:induction false} GrowthCount(hunks: seq<Hunk>)
    ensures Growth(hunks) == CountAll(hunks, Add) - CountAll(hunks, Delete)
  {
    if hunks != [] {
      GrowthCount(hunks[..|hunks| - 1]);
      SidesCount(hunks[|hunks| - 1]);
    }
  }

  /** The file's line count changes by exactly the lines added minus the lines removed. */
  lemma LineCountChange(orig: Bytes, hunks: seq<Hunk>)
    requires Patched(orig, hunks).Ok? && LeavesLines(orig, hunks)
    ensures |SplitLines(Patched(orig, hunks).value)|
            == |SplitLines(orig)| + CountAll(hunks, Add) - CountAll(hunks, Delete)
  {
    hide SplitLines, Join, ApplyHunks, Anchor;
    SplitJoin(StrictApplyLines(SplitLines(orig), hunks, Anchor(orig, hunks).value).value);
    UndoLines(SplitLines(orig), hunks, Anchor(orig, hunks).value);
    GrowthCount(hunks);
  }

  // ---- Failures the search alone does not catch ---------------------------------------

  /** Increasing starts do not exclude overlapping hunks; the strict applier refuses them. */
  lemma OverlapIsRefused(orig: Bytes, hunks: seq<Hunk>, i: nat)
    requires Anchor(orig, hunks).Ok? && i + 1 < |hunks|
    requires var ps := Anchor(orig, hunks).value; ps[i + 1] < ps[i] + |OldLines(hunks[i])|
    ensures Patched(orig, hunks).Err? && Patched(orig, hunks).error.ApplyFailed?
  {
    var ps := Anchor(orig, hunks).value;
    if ApplyHunks(SplitLines(orig), hunks, ps).Ok? {
      AppliedInOrder(SplitLines(orig), hunks, ps, i + 1);
      assert false;
    }
  }

  /**
   * A last old line without its newline can match the front of a longer line: the search
   * pins the hunk and only the strict applier refuses it.
   */
  lemma UnterminatedPrefixIsRefused()
    ensures var orig, h := [97, 98, NEWLINE], [Line(Delete, [97])];
            && Anchor(orig, [h]) == Ok([1])
            && Patched(orig, [h]) == Err(ApplyFailed(Conflict(0, Mismatch)))
  {
    var orig, h := [97, 98, NEWLINE], [Line(Delete, [97])];
    assert h[1..] == [];
    assert OldLines(h) == [[97]];
    JoinOne([97]);
    assert OldBlock(h) == [97];
    FirstByte(orig, NEWLINE, 2);
    assert orig[0..] == orig;
    assert MatchesFrom(orig, [97], 3, 2) == [];
    assert MatchesAfter(orig, [97], 0, 1) == [];
    assert OccursAt(orig, 0, [97]);
    assert Matches(orig, [97]) == [1];
    assert [h][..0] == [];
    var none: seq<int> := [];
    assert AnchorHunk(orig, none, h) == Ok(1) && none + [1] == [1];
    assert Anchor(orig, []) == Ok(none);
    assert AnchorNext(orig, Ok(none), h) == Ok([1]);
    assert Anchor(orig, [h]) == Ok([1]);
    SplitFirst(orig, []);
    assert orig + [] == orig;
    assert SplitLines(orig) == [orig];
    assert SplitLines(orig)[0..1] == [orig];
    assert [1][..0] == none;
    assert ApplyHunks([orig], [], none) == Ok(Progress(0, []));
    assert ApplyHunk([orig], Progress(0, []), 0, h, 1) == Err(Conflict(0, Mismatch));
    assert ApplyHunks([orig], [h], [1]) == Err(Conflict(0, Mismatch));
  }

  // ---- Where each line of a hunk stands ------------------------------------------------

  /** The lines before line `j` of the hunk that are not `op`. */
  function Earlier(h: Hunk, j: nat, op: Op): nat
    requires j <= |h|
  {
    if j == 0 then 0 else Earlier(h, j - 1, op) + (if h[j - 1].op == op then 0 else 1)
  }

  lemma {:induction false} EarlierTail(h: Hunk, j: nat, op: Op)
    requires 0 < j <= |h|
    ensures Earlier(h, j, op) == (if h[0].op == op then 0 else 1) + Earlier(h[1..], j - 1, op)
  {
    if j > 1 {
      EarlierTail(h, j - 1, op);
      assert h[1..][j - 2] == h[j - 1];
    }
  }

  /** The old side is the context and deleted lines, in order. */
  lemma {:induction false} OldSide(h: Hunk, j: nat)
    requires j < |h|
    ensures |OldLines(h)| == Earlier(h, |h|, Add)
    ensures h[j].op != Add ==>
              Earlier(h, j, Add) < |OldLines(h)| && OldLines(h)[Earlier(h, j, Add)] == h[j].text
    decreases |h|
  {
    EarlierTail(h, |h|, Add);
    if |h| > 1 {
      OldSide(h[1..], if j > 0 then j - 1 else 0);
    }
    if j > 0 {
      EarlierTail(h, j, Add);
    }
  }

  /** The new side is the context and added lines, in order. */
  lemma {:induction false} NewSide(h: Hunk, j: nat)
    requires j < |h|
    ensures |NewLines(h)| == Earlier(h, |h|, Delete)
    ensures h[j].op != Delete ==>
              Earlier(h, j, Delete) < |NewLines(h)| && NewLines(h)[Earlier(h, j, Delete)] == h[j].text
    decreases |h|
  {
    EarlierTail(h, |h|, Delete);
    if |h| > 1 {
      NewSide(h[1..], if j > 0 then j - 1 else 0);
    }
    if j > 0 {
      EarlierTail(h, j, Delete);
    }
  }

  lemma {:induction false} ShiftedAt(hunks: seq<Hunk>, ps: seq<int>, i: nat)
    requires |hunks| == |ps| && i < |hunks|
    ensures Shifted(hunks, ps)[i] == ps[i] + CountAll(hunks[..i], Add) - CountAll(hunks[..i], Delete)
    ensures InvertAll(hunks)[i] == Invert(hunks[i])
    decreases |hunks|
  {
    var n := |hunks| - 1;
    if i < n {
      ShiftedAt(hunks[..n], ps[..n], i);
      assert hunks[..n][..i] == hunks[..i];
    } else {
      GrowthCount(hunks[..n]);
    }
  }

  /**
   * What a successful patch says about every line of every hunk, by its mark: a context or deleted
   * line is the file's line at the pinned position plus the context and deleted lines before it; a
   * context or added line is the output's line at the shifted position plus the context and added
   * lines before it, whenever the lines left are lines of a file.
   */
  lemma EveryLineStandsWhereItShould(orig: Bytes, hunks: seq<Hunk>, i: nat, j: nat)
    requires Patched(orig, hunks).Ok? && i < |hunks| && j < |hunks[i]|
    ensures var src, n := SplitLines(orig), Anchor(orig, hunks).value[i] - 1 + Earlier(hunks[i], j, Add);
            hunks[i][j].op != Add ==> 0 <= n < |src| && src[n] == hunks[i][j].text
    ensures var out := SplitLines(Patched(orig, hunks).value);
            var shift := CountAll(hunks[..i], Add) - CountAll(hunks[..i], Delete);
            var n := Anchor(orig, hunks).value[i] - 1 + shift + Earlier(hunks[i], j, Delete);
            LeavesLines(orig, hunks) && hunks[i][j].op != Delete ==> 0 <= n < |out| && out[n] == hunks[i][j].text
  {
    hide SplitLines, Join, ApplyHunks, Anchor, InvertAll, Shifted, OldLines, NewLines, Invert, Earlier, CountAll;
    var src, ps, h := SplitLines(orig), Anchor(orig, hunks).value, hunks[i];
    OldSide(h, j);
    NewSide(h, j);
    AppliedHunk(src, hunks, ps, i);
    if h[j].op != Add {
      assert src[ps[i] - 1..ps[i] - 1 + |OldLines(h)|][Earlier(h, j, Add)] == src[ps[i] - 1 + Earlier(h, j, Add)];
    }
    if LeavesLines(orig, hunks) && h[j].op != Delete {
      NewSideStands(orig, hunks, i);
      var out, at := SplitLines(Patched(orig, hunks).value), Shifted(hunks, ps)[i] - 1;
      ShiftedAt(hunks, ps, i);
      assert out[at..at + |NewLines(h)|][Earlier(h, j, Delete)] == out[at + Earlier(h, j, Delete)];
    }
  }

  /** The new side of a hunk stands in the output at its shifted position: the inverse patch finds it there. */
  lemma NewSideStands(orig: Bytes, hunks: seq<Hunk>, i: nat)
    requires Patched(orig, hunks).Ok? && LeavesLines(orig, hunks) && i < |hunks|
    ensures var out, at := SplitLines(Patched(orig, hunks).value), Shifted(hunks, Anchor(orig, hunks).value)[i] - 1;
            0 <= at && at + |NewLines(hunks[i])| <= |out| && out[at..at + |NewLines(hunks[i])|] == NewLines(hunks[i])
  {
    hide SplitLines, Join, ApplyHunks, Anchor, InvertAll, Shifted, OldLines, NewLines, Invert, CountAll;
    var ps := Anchor(orig, hunks).value;
    var out := StrictApplyLines(SplitLines(orig), hunks, ps).value;
    SplitJoin(out);
    UndoLines(SplitLines(orig), hunks, ps);
    AppliedHunk(out, InvertAll(hunks), Shifted(hunks, ps), i);
    ShiftedAt(hunks, ps, i);
    InvertSides(hunks[i]);
  }
}

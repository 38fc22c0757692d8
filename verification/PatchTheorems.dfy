/**
 * What a re-anchored patch means: it has one reading, it succeeds exactly when its
 * hunks have unique, disjoint places, and it can be undone.
 */
module PatchTheorems {
  import opened Wrappers
  import opened GoBytes
  import opened Lines
  import opened Patch

  // ---- What success of the two stages says about each hunk ------------------------

  lemma {:induction false} AnchoredHunk(orig: Bytes, hunks: seq<Hunk>, i: nat)
    requires Anchor(orig, hunks).Ok? && i < |hunks|
    ensures OldBlock(hunks[i]) != []
    ensures Matches(orig, OldBlock(hunks[i])) == [Anchor(orig, hunks).value[i]]
    decreases |hunks|
  {
    var n := |hunks| - 1;
    if i < n {
      AnchoredHunk(orig, hunks[..n], i);
    } else {
      assert |Matches(orig, OldBlock(hunks[n]))| == 1;
    }
  }

  /** The last turn of the applier. */
  lemma AppliedLast(src: seq<Bytes>, hunks: seq<Hunk>, ps: seq<int>)
    requires |ps| == |hunks| > 0 && ApplyHunks(src, hunks, ps).Ok?
    ensures var n := |hunks| - 1;
            var r, k, m := ApplyHunks(src, hunks[..n], ps[..n]), ps[n] - 1, |OldLines(hunks[n])|;
            && r.Ok? && r.value.next <= k && k + m <= |src| && src[k..k + m] == OldLines(hunks[n])
            && ApplyHunks(src, hunks, ps)
               == Ok(Progress(k + m, r.value.out + src[r.value.next..k] + NewLines(hunks[n])))
  {
    hide OldLines, NewLines;
  }

  lemma {:induction false} AppliedHunk(src: seq<Bytes>, hunks: seq<Hunk>, ps: seq<int>, i: nat)
    requires |ps| == |hunks| && ApplyHunks(src, hunks, ps).Ok? && i < |hunks|
    ensures var k, m := ps[i] - 1, |OldLines(hunks[i])|;
            0 <= k && k + m <= |src| && src[k..k + m] == OldLines(hunks[i])
    decreases |hunks|
  {
    hide OldLines, NewLines, ApplyHunks;
    var n := |hunks| - 1;
    AppliedLast(src, hunks, ps);
    if i < n {
      AppliedHunk(src, hunks[..n], ps[..n], i);
    }
  }

  /** Each hunk starts at or after the end of the one before it. */
  lemma {:induction false} AppliedInOrder(src: seq<Bytes>, hunks: seq<Hunk>, ps: seq<int>, i: nat)
    requires |ps| == |hunks| && ApplyHunks(src, hunks, ps).Ok? && 0 < i < |hunks|
    ensures ps[i - 1] - 1 + |OldLines(hunks[i - 1])| <= ps[i] - 1
    decreases |hunks|
  {
    hide OldLines, NewLines, ApplyHunks;
    var n := |hunks| - 1;
    var init, before := hunks[..n], ps[..n];
    AppliedLast(src, hunks, ps);
    if i < n {
      AppliedInOrder(src, init, before, i);
    } else {
      AppliedLast(src, init, before);
      assert init[n - 1] == hunks[n - 1] && before[n - 1] == ps[n - 1];
    }
  }

  // ---- One meaning ------------------------------------------------------------------

  /** Where whole lines stand, their bytes match, under the number of the first of them. */
  lemma LinesMatch(orig: Bytes, k: nat, block: seq<Bytes>)
    requires block != [] && HasLines(orig, k, block)
    ensures BlockStart(orig, Join(block), Offset(SplitLines(orig), k))
    ensures k + 1 in Matches(orig, Join(block))
  {
    hide SplitLines, Join, Newlines, Matches;
    LinesToBytes(orig, k, k + |block|);
    LineStartsAt(orig, k);
    MatchesExact(orig, Join(block));
  }

  /** For whole lines the byte search finds exactly the places where the file's lines are those lines. */
  lemma WholeLineMatches(orig: Bytes, block: seq<Bytes>, n: int)
    requires block != [] && AllTerminated(block)
    ensures n in Matches(orig, Join(block)) <==> n >= 1 && HasLines(orig, n - 1, block)
  {
    hide SplitLines, Join, Newlines, Matches, HasLines;
    if n >= 1 && HasLines(orig, n - 1, block) {
      LinesMatch(orig, n - 1, block);
    }
    if n in Matches(orig, Join(block)) {
      MatchesExact(orig, Join(block));
      var off :| BlockStart(orig, Join(block), off) && LineNo(orig, off) == n;
      JoinLast(block);
      LastTerminated(block);
      assert orig[off + |Join(block)| - 1] == orig[off..off + |Join(block)|][|Join(block)| - 1];
      var k := LineOfStart(orig, off);
      BytesToLines(orig, k, block);
      HasLinesAt(orig, k, block);
    }
  }

  lemma HasLinesAt(s: Bytes, k: nat, block: seq<Bytes>)
    requires k + |block| <= |SplitLines(s)| && SplitLines(s)[k..k + |block|] == block
    ensures HasLines(s, k, block)
  {}

  ghost predicate SearchMatchesLines(block: seq<Bytes>) {
    forall orig, n {:trigger n in Matches(orig, Join(block))} ::
      n in Matches(orig, Join(block)) <==> n >= 1 && HasLines(orig, n - 1, block)
  }

  /**
   * The byte search for a block of lines finds exactly the places where the file's lines are those
   * lines, in every file, exactly when the block's last line has its newline.
   */
  lemma SearchMatchesLinesExactly(block: seq<Bytes>)
    requires block != [] && AreLines(block)
    ensures SearchMatchesLines(block) <==> AllTerminated(block)
  {
    hide Matches, HasLines, Join;
    if AllTerminated(block) {
      forall orig, n {:trigger n in Matches(orig, Join(block))}
        ensures n in Matches(orig, Join(block)) <==> n >= 1 && HasLines(orig, n - 1, block)
      {
        WholeLineMatches(orig, block, n);
      }
    } else {
      var orig := LongerLine(block);
      assert 1 in Matches(orig, Join(block)) && !HasLines(orig, 1 - 1, block);
    }
  }

  /** A file with one byte more in the block's unterminated last line. */
  lemma LongerLine(block: seq<Bytes>) returns (orig: Bytes)
    requires block != [] && AreLines(block) && !AllTerminated(block)
    ensures 1 in Matches(orig, Join(block)) && !HasLines(orig, 0, block)
  {
    hide SplitLines, Join, Newlines, Matches;
    var n := |block| - 1;
    var last := block[n];
    assert !IsTerminated(last);
    var longer := last + [last[|last| - 1]];
    assert longer[..|longer| - 1] == last && last == last[..|last| - 1] + [last[|last| - 1]];
    var ls := block[..n] + [longer];
    assert AreLines(ls);
    orig := Join(ls);
    SplitJoin(ls);
    assert block == block[..n] + [last];
    JoinAppend(block[..n], [last]);
    JoinAppend(block[..n], [longer]);
    JoinOne(last);
    JoinOne(longer);
    assert orig == Join(block) + [last[|last| - 1]];
    assert BlockStart(orig, Join(block), 0);
    FirstLineStart(orig);
    MatchesExact(orig, Join(block));
    assert ls[0..|block|][n] == longer != block[n];
  }

  lemma OneMeaningAt(orig: Bytes, hunks: seq<Hunk>, qs: seq<int>, i: nat)
    requires Anchor(orig, hunks).Ok? && |qs| == |hunks|
    requires ApplyHunks(SplitLines(orig), hunks, qs).Ok?
    requires i < |hunks|
    ensures qs[i] == Anchor(orig, hunks).value[i]
  {
    hide SplitLines, Join, OldLines, Matches, Anchor, ApplyHunks;
    EmptyJoin();
    AnchoredHunk(orig, hunks, i);
    AppliedHunk(SplitLines(orig), hunks, qs, i);
    LinesMatch(orig, qs[i] - 1, OldLines(hunks[i]));
  }

  /** If the hunks can be pinned, the strict applier accepts no other positions than the pinned ones. */
  lemma OneMeaning(orig: Bytes, hunks: seq<Hunk>, qs: seq<int>)
    requires Anchor(orig, hunks).Ok? && |qs| == |hunks|
    requires StrictApply(orig, hunks, qs).Ok?
    ensures qs == Anchor(orig, hunks).value
    ensures Patched(orig, hunks) == Ok(StrictApply(orig, hunks, qs).value)
  {
    forall i | 0 <= i < |hunks|
      ensures qs[i] == Anchor(orig, hunks).value[i]
    {
      OneMeaningAt(orig, hunks, qs, i);
    }
    assert qs == Anchor(orig, hunks).value;
  }

  /** Why a hunk cannot be pinned: an empty old side, not exactly one place, or a place not after the one before. */
  lemma PinFailsExactly(orig: Bytes, ps: seq<int>, h: Hunk)
    ensures var r, starts, last := AnchorHunk(orig, ps, h), Matches(orig, OldBlock(h)), PreviousStart(ps);
            && (r == Err(EmptyOldSide(|ps|)) <==> OldBlock(h) == [])
            && (forall n :: r == Err(MatchCount(|ps|, n)) <==> OldBlock(h) != [] && n == |starts| && n != 1)
            && (forall a, b :: r == Err(OutOfOrder(|ps|, a, b)) <==>
                  OldBlock(h) != [] && starts == [a] && a <= b && b == last)
            && (forall a :: r == Ok(a) <==> OldBlock(h) != [] && starts == [a] && a > last)
  {
    hide Matches;
    var starts := Matches(orig, OldBlock(h));
    if |starts| == 1 {
      assert starts == [starts[0]];
    }
  }

  // ---- The exact success condition, on bytes ----------------------------------------

  /** `block` starts a line at `off` and at no other offset. */
  ghost predicate OnlyAt(orig: Bytes, block: Bytes, off: nat) {
    && BlockStart(orig, block, off)
    && forall o :: BlockStart(orig, block, o) ==> o == off
  }

  /** Where the last hunk's region ends; 0 before any. */
  function End(hunks: seq<Hunk>, offs: seq<nat>): nat
    requires |offs| == |hunks|
  {
    if hunks == [] then 0 else offs[|hunks| - 1] + |OldBlock(hunks[|hunks| - 1])|
  }

  /** Every old block is non-empty, stands at one line start only, and ends at or before the next one starts. */
  ghost predicate Placed(orig: Bytes, hunks: seq<Hunk>, offs: seq<nat>)
    decreases |hunks|
  {
    && |offs| == |hunks|
    && (hunks == [] ||
        var n := |hunks| - 1;
        && Placed(orig, hunks[..n], offs[..n])
        && OldBlock(hunks[n]) != []
        && OnlyAt(orig, OldBlock(hunks[n]), offs[n])
        && End(hunks[..n], offs[..n]) <= offs[n])
  }

  /** Every region ends where a line of the file ends. */
  predicate EndOnLines(orig: Bytes, hunks: seq<Hunk>, offs: seq<nat>)
    requires |offs| == |hunks|
  {
    forall i :: 0 <= i < |hunks| ==> IsLineEnd(orig, offs[i] + |OldBlock(hunks[i])|)
  }

  lemma EndOnLinesSnoc(orig: Bytes, hunks: seq<Hunk>, offs: seq<nat>)
    requires |offs| == |hunks| > 0
    requires EndOnLines(orig, hunks[..|hunks| - 1], offs[..|hunks| - 1])
    requires IsLineEnd(orig, offs[|hunks| - 1] + |OldBlock(hunks[|hunks| - 1])|)
    ensures EndOnLines(orig, hunks, offs)
  {
    var n := |hunks| - 1;
    forall i | 0 <= i < n ensures IsLineEnd(orig, offs[i] + |OldBlock(hunks[i])|) {
      assert offs[i] == offs[..n][i] && hunks[i] == hunks[..n][i];
    }
  }

  lemma PlacedEnd(orig: Bytes, hunks: seq<Hunk>, offs: seq<nat>)
    requires Placed(orig, hunks, offs)
    ensures End(hunks, offs) <= |orig|
  {}

  /** `orig` up to the end of the last region, each region replaced by the hunk's new side. */
  ghost function SpliceTo(orig: Bytes, hunks: seq<Hunk>, offs: seq<nat>): Bytes
    requires Placed(orig, hunks, offs)
    decreases |hunks|
  {
    if hunks == [] then []
    else
      var n := |hunks| - 1;
      SpliceTo(orig, hunks[..n], offs[..n])
      + orig[End(hunks[..n], offs[..n])..offs[n]]
      + NewBlock(hunks[n])
  }

  /** `orig` with exactly the regions replaced: the bytes outside them are kept. */
  ghost function Splice(orig: Bytes, hunks: seq<Hunk>, offs: seq<nat>): Bytes
    requires Placed(orig, hunks, offs)
  {
    PlacedEnd(orig, hunks, offs);
    SpliceTo(orig, hunks, offs) + orig[End(hunks, offs)..]
  }

  lemma LineNoIncreases(s: Bytes, o1: nat, o2: nat)
    requires o1 < o2 && IsLineStart(s, o2)
    ensures LineNo(s, o1) < LineNo(s, o2)
  {
    var mid := s[o1..o2 - 1];
    assert s[..o2] == s[..o1] + (mid + [NEWLINE]);
    NewlinesAppend(s[..o1], mid + [NEWLINE]);
    NewlinesAppend(mid, [NEWLINE]);
  }

  lemma IncreasingSame(s: seq<int>, v: int)
    requires s != [] && Increasing(s) && forall i :: 0 <= i < |s| ==> s[i] == v
    ensures s == [v]
  {
    assert s[0] == s[|s| - 1];
  }

  /** One match means one place. */
  lemma SingleMatch(orig: Bytes, block: Bytes, off: nat)
    requires block != [] && BlockStart(orig, block, off)
    ensures Matches(orig, block) == [LineNo(orig, off)] <==> OnlyAt(orig, block, off)
  {
    var out := Matches(orig, block);
    MatchesExact(orig, block);
    if OnlyAt(orig, block, off) {
      assert LineNo(orig, off) in out;
      forall i | 0 <= i < |out| ensures out[i] == LineNo(orig, off) {
        assert out[i] in out;
      }
      IncreasingSame(out, LineNo(orig, off));
    }
    if out == [LineNo(orig, off)] {
      forall o | BlockStart(orig, block, o) ensures o == off {
        assert LineNo(orig, o) in out;
        if o < off { LineNoIncreases(orig, o, off); }
        if off < o { LineNoIncreases(orig, off, o); }
      }
    }
  }

  lemma EmptyOffset(ls: seq<Bytes>)
    ensures Offset(ls, 0) == 0
  {
    assert ls[..0] == [];
  }

  /** Success of both stages puts every hunk in its own place. */
  lemma {:induction false} SuccessIsPlaced(orig: Bytes, hunks: seq<Hunk>) returns (offs: seq<nat>)
    requires Patched(orig, hunks).Ok?
    ensures Placed(orig, hunks, offs) && EndOnLines(orig, hunks, offs)
  {
    var ps, src := Anchor(orig, hunks).value, SplitLines(orig);
    offs := PlacePrefix(orig, src, hunks, ps);
  }

  lemma PlaceHunk(orig: Bytes, h: Hunk, k: nat)
    requires OldBlock(h) != [] && Matches(orig, OldBlock(h)) == [k + 1]
    requires HasLines(orig, k, OldLines(h))
    ensures var off := Offset(SplitLines(orig), k);
            && OnlyAt(orig, OldBlock(h), off)
            && IsLineEnd(orig, off + |OldBlock(h)|)
            && Offset(SplitLines(orig), k + |OldLines(h)|) == off + |OldBlock(h)|
  {
    hide SplitLines, Matches, OldLines, Newlines;
    LinesMatch(orig, k, OldLines(h));
    LineStartsAt(orig, k);
    LinesToBytes(orig, k, k + |OldLines(h)|);
    SingleMatch(orig, OldBlock(h), Offset(SplitLines(orig), k));
  }

  lemma {:induction false} PlacePrefix(orig: Bytes, src: seq<Bytes>, hunks: seq<Hunk>, ps: seq<int>)
    returns (offs: seq<nat>)
    requires src == SplitLines(orig)
    requires Anchor(orig, hunks) == Ok(ps) && ApplyHunks(src, hunks, ps).Ok?
    ensures Placed(orig, hunks, offs) && EndOnLines(orig, hunks, offs)
    ensures End(hunks, offs) == Offset(src, ApplyHunks(src, hunks, ps).value.next)
    decreases |hunks|
  {
    hide SplitLines, Join, Newlines, MatchesFrom, OldLines, NewLines;
    if hunks == [] {
      offs := [];
      EmptyOffset(src);
    } else {
      var n := |hunks| - 1;
      var before := PlacePrefix(orig, src, hunks[..n], ps[..n]);
      var off := PlaceLast(orig, src, hunks, ps);
      offs := before + [off];
      assert offs[..n] == before;
      EndOnLinesSnoc(orig, hunks, offs);
    }
  }

  lemma PlaceLast(orig: Bytes, src: seq<Bytes>, hunks: seq<Hunk>, ps: seq<int>) returns (off: nat)
    requires src == SplitLines(orig) && hunks != []
    requires Anchor(orig, hunks) == Ok(ps) && ApplyHunks(src, hunks, ps).Ok?
    ensures var n := |hunks| - 1;
            var block := OldBlock(hunks[n]);
            && OldBlock(hunks[n]) != []
            && OnlyAt(orig, block, off)
            && IsLineEnd(orig, off + |block|)
            && Offset(src, ApplyHunks(src, hunks[..n], ps[..n]).value.next) <= off
            && Offset(src, ApplyHunks(src, hunks, ps).value.next) == off + |block|
  {
    hide SplitLines, Join, Newlines, MatchesFrom, OldLines, NewLines;
    var n := |hunks| - 1;
    var k := ps[n] - 1;
    AnchoredHunk(orig, hunks, n);
    AppliedHunk(src, hunks, ps, n);
    PlaceHunk(orig, hunks[n], k);
    OffsetMonotone(orig, ApplyHunks(src, hunks[..n], ps[..n]).value.next, k);
    off := Offset(src, k);
  }

  /** Both stages have succeeded so far and stand where the places say. */
  ghost predicate Tracks(orig: Bytes, hunks: seq<Hunk>, offs: seq<nat>)
    requires Placed(orig, hunks, offs)
  {
    && Anchor(orig, hunks).Ok?
    && PreviousStart(Anchor(orig, hunks).value) == (if hunks == [] then 0 else LineNo(orig, offs[|hunks| - 1]))
    && var r := ApplyHunks(SplitLines(orig), hunks, Anchor(orig, hunks).value);
    && r.Ok?
    && Offset(SplitLines(orig), r.value.next) == End(hunks, offs)
    && Join(r.value.out) == SpliceTo(orig, hunks, offs)
  }

  /** Unique disjoint places that end on lines make both stages succeed, with the splice as output. */
  lemma {:induction false} PlacedSucceeds(orig: Bytes, hunks: seq<Hunk>, offs: seq<nat>)
    requires WholeLines(hunks)
    requires Placed(orig, hunks, offs) && EndOnLines(orig, hunks, offs)
    ensures Tracks(orig, hunks, offs)
    decreases |hunks|
  {
    if hunks == [] {
      EmptyOffset(SplitLines(orig));
      return;
    }
    var n := |hunks| - 1;
    PlacedSucceeds(orig, hunks[..n], offs[..n]);
    PlacedStep(orig, hunks, offs);
  }

  lemma {:induction false} PlacedStep(orig: Bytes, hunks: seq<Hunk>, offs: seq<nat>)
    requires hunks != [] && AreLines(OldLines(hunks[|hunks| - 1]))
    requires Placed(orig, hunks, offs) && EndOnLines(orig, hunks, offs)
    requires Tracks(orig, hunks[..|hunks| - 1], offs[..|hunks| - 1])
    ensures Tracks(orig, hunks, offs)
  {
    hide SplitLines, Join, Newlines, MatchesFrom, OldLines, NewLines, ApplyHunk;
    var src, n := SplitLines(orig), |hunks| - 1;
    var init, before := hunks[..n], offs[..n];
    var h, off := hunks[n], offs[n];
    var ps := Anchor(orig, init).value;
    if n > 0 {
      PlacedNonEmpty(orig, init, before);
      LineNoIncreases(orig, offs[n - 1], off);
    }
    SingleMatch(orig, OldBlock(h), off);
    assert Anchor(orig, hunks) == Ok(ps + [LineNo(orig, off)]);
    assert (ps + [LineNo(orig, off)])[..n] == ps;
    ApplyAtPlace(orig, ApplyHunks(src, init, ps).value, n, h, off);
  }

  /** The applier accepts a hunk at the line that starts at its place, and copies the bytes before it. */
  lemma ApplyAtPlace(orig: Bytes, a: Progress, n: nat, h: Hunk, off: nat)
    requires AreLines(OldLines(h)) && OldBlock(h) != []
    requires BlockStart(orig, OldBlock(h), off) && IsLineEnd(orig, off + |OldBlock(h)|)
    requires a.next <= |SplitLines(orig)| && Offset(SplitLines(orig), a.next) <= off
    ensures var src := SplitLines(orig);
            var r := ApplyHunk(src, a, n, h, LineNo(orig, off));
            && r.Ok?
            && Offset(src, r.value.next) == off + |OldBlock(h)|
            && Join(r.value.out) == Join(a.out) + orig[Offset(src, a.next)..off] + NewBlock(h)
  {
    hide SplitLines, Newlines, OldLines, NewLines;
    var src, olds := SplitLines(orig), OldLines(h);
    var k := LineOfStart(orig, off);
    BytesToLines(orig, k, olds);
    LinesToBytes(orig, k, k + |olds|);
    if k < a.next {
      OffsetMonotone(orig, k, a.next);
      assert false;
    }
    GapBytes(orig, a.next, k);
    JoinThree(a.out, src[a.next..k], NewLines(h));
  }

  lemma PlacedNonEmpty(orig: Bytes, hunks: seq<Hunk>, offs: seq<nat>)
    requires Placed(orig, hunks, offs) && hunks != []
    ensures offs[|hunks| - 1] < End(hunks, offs)
  {}

  lemma JoinThree(a: seq<Bytes>, b: seq<Bytes>, c: seq<Bytes>)
    ensures Join(a + b + c) == Join(a) + Join(b) + Join(c)
  {
    JoinAppend(a + b, c);
    JoinAppend(a, b);
  }

  /** The bytes between two line starts are the lines between them. */
  lemma GapBytes(s: Bytes, j: nat, k: nat)
    requires j <= k <= |SplitLines(s)|
    ensures var ls := SplitLines(s);
            && Offset(ls, j) <= Offset(ls, k) <= |s|
            && s[Offset(ls, j)..Offset(ls, k)] == Join(ls[j..k])
  {
    CutAt(s, k);
    if j < k {
      LinesToBytes(s, j, k);
    } else {
      assert SplitLines(s)[j..k] == [];
    }
  }

  /** The hunks' old sides are made of whole lines. */
  predicate WholeLines(hunks: seq<Hunk>) {
    forall i :: 0 <= i < |hunks| ==> AreLines(OldLines(hunks[i]))
  }

  lemma SliceOfLines(ls: seq<Bytes>, i: nat, j: nat)
    requires AreLines(ls) && i <= j <= |ls|
    ensures AreLines(ls[i..j])
  {
    assert forall k :: 0 <= k < j - i ==> ls[i..j][k] == ls[i + k];
  }

  lemma AppliedIsWhole(orig: Bytes, hunks: seq<Hunk>)
    requires Patched(orig, hunks).Ok?
    ensures WholeLines(hunks)
  {
    hide SplitLines, Join, OldLines, NewLines, ApplyHunks, Anchor, AreLines;
    var src, ps := SplitLines(orig), Anchor(orig, hunks).value;
    JoinSplit(orig);
    forall i | 0 <= i < |hunks| ensures AreLines(OldLines(hunks[i])) {
      AppliedHunk(src, hunks, ps, i);
      SliceOfLines(src, ps[i] - 1, ps[i] - 1 + |OldLines(hunks[i])|);
    }
  }

  /**
   * `ApplyDiff` succeeds exactly when the old sides are whole lines whose blocks have unique
   * disjoint places that end on line ends, and the output is then that splice.
   */
  lemma PatchSucceedsExactly(orig: Bytes, hunks: seq<Hunk>)
    ensures Patched(orig, hunks).Ok?
            <==> WholeLines(hunks) && exists offs :: Placed(orig, hunks, offs) && EndOnLines(orig, hunks, offs)
    ensures forall offs :: WholeLines(hunks) && Placed(orig, hunks, offs) && EndOnLines(orig, hunks, offs)
              ==> Patched(orig, hunks) == Ok(Splice(orig, hunks, offs))
  {
    if Patched(orig, hunks).Ok? {
      AppliedIsWhole(orig, hunks);
      var offs := SuccessIsPlaced(orig, hunks);
    }
    forall offs | WholeLines(hunks) && Placed(orig, hunks, offs) && EndOnLines(orig, hunks, offs)
      ensures Patched(orig, hunks) == Ok(Splice(orig, hunks, offs))
    {
      PlacedSucceeds(orig, hunks, offs);
      var src := SplitLines(orig);
      var a := ApplyHunks(src, hunks, Anchor(orig, hunks).value).value;
      CutAt(orig, a.next);
      JoinAppend(a.out, src[a.next..]);
    }
  }

  /** With newline-terminated old lines the regions end on line ends by themselves. */
  lemma TerminatedPatchSucceedsExactly(orig: Bytes, hunks: seq<Hunk>)
    requires forall i :: 0 <= i < |hunks| ==> AllTerminated(OldLines(hunks[i]))
    ensures Patched(orig, hunks).Ok? <==> exists offs :: Placed(orig, hunks, offs)
    ensures forall offs :: Placed(orig, hunks, offs) ==> Patched(orig, hunks) == Ok(Splice(orig, hunks, offs))
  {
    PatchSucceedsExactly(orig, hunks);
    forall offs | Placed(orig, hunks, offs)
      ensures EndOnLines(orig, hunks, offs)
    {
      TerminatedEndOnLines(orig, hunks, offs);
    }
  }

  lemma {:induction false} TerminatedEndOnLines(orig: Bytes, hunks: seq<Hunk>, offs: seq<nat>)
    requires forall i :: 0 <= i < |hunks| ==> AllTerminated(OldLines(hunks[i]))
    requires Placed(orig, hunks, offs)
    ensures EndOnLines(orig, hunks, offs)
    decreases |hunks|
  {
    if hunks != [] {
      var n := |hunks| - 1;
      TerminatedEndOnLines(orig, hunks[..n], offs[..n]);
      var block := OldBlock(hunks[n]);
      JoinLast(OldLines(hunks[n]));
      assert orig[offs[n] + |block| - 1] == orig[offs[n]..offs[n] + |block|][|block| - 1];
      EndOnLinesSnoc(orig, hunks, offs);
    }
  }
}

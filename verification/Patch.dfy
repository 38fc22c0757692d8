/**
 * Re-anchored patch application (internal/commit/coordinator.go). The model's
 * `@@` line numbers are discarded: every hunk is pinned to the one line start
 * where its old side occurs, and a strict line applier runs at those positions.
 */
module Patch {
  import opened Wrappers
  import opened GoBytes
  import opened Lines

  datatype Op = Context | Add | Delete

  datatype Line = Line(op: Op, text: Bytes) {
    predicate Old() { op != Add }
    predicate New() { op != Delete }
  }

  type Hunk = seq<Line>

  function OldLines(h: Hunk): seq<Bytes> {
    if h == [] then [] else (if h[0].Old() then [h[0].text] else []) + OldLines(h[1..])
  }

  function NewLines(h: Hunk): seq<Bytes> {
    if h == [] then [] else (if h[0].New() then [h[0].text] else []) + NewLines(h[1..])
  }

  /** The bytes a hunk expects to find. */
  function OldBlock(h: Hunk): Bytes { Join(OldLines(h)) }

  function NewBlock(h: Hunk): Bytes { Join(NewLines(h)) }

  // ---- The search ---------------------------------------------------------------

  /** Line numbers, counting from `lineNo` at `off`, of the line starts that carry `block`. */
  function MatchesFrom(orig: Bytes, block: Bytes, off: nat, lineNo: int): seq<int>
    requires off <= |orig|
    decreases |orig| - off, 1
  {
    if off + |block| > |orig| then []
    else if OccursAt(orig, off, block) then [lineNo] + MatchesAfter(orig, block, off, lineNo)
    else MatchesAfter(orig, block, off, lineNo)
  }

  function MatchesAfter(orig: Bytes, block: Bytes, off: nat, lineNo: int): seq<int>
    requires off <= |orig|
    decreases |orig| - off, 0
  {
    var nl := IndexByte(orig[off..], NEWLINE);
    if nl < 0 then [] else MatchesFrom(orig, block, off + nl + 1, lineNo + 1)
  }

  function Matches(orig: Bytes, block: Bytes): seq<int> {
    MatchesFrom(orig, block, 0, 1)
  }

  // ---- The pinning --------------------------------------------------------------

  datatype AnchorError =
    | EmptyOldSide(hunk: nat)
    | MatchCount(hunk: nat, count: nat)
    | OutOfOrder(hunk: nat, start: int, previous: int)

  /** Start of the last pinned hunk; 0 before any. */
  function PreviousStart(ps: seq<int>): int {
    if ps == [] then 0 else ps[|ps| - 1]
  }

  function AnchorHunk(orig: Bytes, ps: seq<int>, h: Hunk): (r: Result<int, AnchorError>)
    ensures r.Err? ==> r.error.hunk == |ps|
  {
    var starts := Matches(orig, OldBlock(h));
    if OldBlock(h) == [] then Err(EmptyOldSide(|ps|))
    else if |starts| != 1 then Err(MatchCount(|ps|, |starts|))
    else if starts[0] <= PreviousStart(ps) then Err(OutOfOrder(|ps|, starts[0], PreviousStart(ps)))
    else Ok(starts[0])
  }

  /** The positions the hunks are pinned to, or the first hunk's failure. */
  function Anchor(orig: Bytes, hunks: seq<Hunk>): (r: Result<seq<int>, AnchorError>)
    ensures r.Ok? ==> |r.value| == |hunks|
    ensures r.Err? ==> r.error.hunk < |hunks|
  {
    if hunks == [] then Ok([])
    else
      var n := |hunks| - 1;
      AnchorNext(orig, Anchor(orig, hunks[..n]), hunks[n])
  }

  function AnchorNext(orig: Bytes, r: Result<seq<int>, AnchorError>, h: Hunk): Result<seq<int>, AnchorError> {
    match r
    case Err(e) => Err(e)
    case Ok(ps) =>
      var p := AnchorHunk(orig, ps, h);
      if p.Err? then Err(p.error) else Ok(ps + [p.value])
  }

  // ---- The strict applier -------------------------------------------------------

  datatype ConflictKind = Overlap | PastEnd | Mismatch

  datatype Conflict = Conflict(hunk: nat, kind: ConflictKind)

  /** Source lines consumed and lines written so far. */
  datatype Progress = Progress(next: nat, out: seq<Bytes>)

  function ApplyHunk(src: seq<Bytes>, a: Progress, n: nat, h: Hunk, pos: int): (r: Result<Progress, Conflict>)
    requires a.next <= |src|
    ensures r.Ok? ==> a.next <= r.value.next <= |src| && a.out <= r.value.out
  {
    var start, olds := pos - 1, OldLines(h);
    if start < a.next then Err(Conflict(n, Overlap))
    else if start + |olds| > |src| then Err(Conflict(n, PastEnd))
    else if src[start..start + |olds|] != olds then Err(Conflict(n, Mismatch))
    else Ok(Progress(start + |olds|, a.out + src[a.next..start] + NewLines(h)))
  }

  function ApplyHunks(src: seq<Bytes>, hunks: seq<Hunk>, ps: seq<int>): (r: Result<Progress, Conflict>)
    requires |hunks| == |ps|
    ensures r.Ok? ==> r.value.next <= |src|
    decreases |hunks|
  {
    if hunks == [] then Ok(Progress(0, []))
    else
      var n := |hunks| - 1;
      match ApplyHunks(src, hunks[..n], ps[..n])
      case Err(c) => Err(c)
      case Ok(a) => ApplyHunk(src, a, n, hunks[n], ps[n])
  }

  function StrictApplyLines(src: seq<Bytes>, hunks: seq<Hunk>, ps: seq<int>): Result<seq<Bytes>, Conflict>
    requires |hunks| == |ps|
  {
    match ApplyHunks(src, hunks, ps)
    case Err(c) => Err(c)
    case Ok(a) => Ok(a.out + src[a.next..])
  }

  /** Copy up to each hunk, demand its old lines exactly, write its new lines, copy the rest. */
  function StrictApply(orig: Bytes, hunks: seq<Hunk>, ps: seq<int>): Result<Bytes, Conflict>
    requires |hunks| == |ps|
  {
    match StrictApplyLines(SplitLines(orig), hunks, ps)
    case Err(c) => Err(c)
    case Ok(out) => Ok(Join(out))
  }

  datatype PatchError =
    | ParseFailed
    | FileCount(count: nat)
    | AnchorFailed(anchor: AnchorError)
    | ApplyFailed(conflict: Conflict)

  /** What a patch does to a file. The hunks' own position fields are not an input. */
  function Patched(orig: Bytes, hunks: seq<Hunk>): Result<Bytes, PatchError> {
    match Anchor(orig, hunks)
    case Err(e) => Err(AnchorFailed(e))
    case Ok(ps) =>
      match StrictApply(orig, hunks, ps)
      case Err(c) => Err(ApplyFailed(c))
      case Ok(out) => Ok(out)
  }

  // ---- The code -------------------------------------------------------------------

  /** A parsed fragment; `oldPosition` starts as the number the diff's header claims. */
  class TextFragment {
    var oldPosition: int
    const lines: Hunk

    constructor (position: int, lines: Hunk)
      ensures oldPosition == position && this.lines == lines
    {
      oldPosition, this.lines := position, lines;
    }
  }

  datatype File = File(fragments: seq<TextFragment>)

  function Hunks(frags: seq<TextFragment>): (hs: seq<Hunk>)
    ensures |hs| == |frags| && forall i :: 0 <= i < |frags| ==> hs[i] == frags[i].lines
  {
    seq(|frags|, i requires 0 <= i < |frags| => frags[i].lines)
  }

  function Positions(frags: seq<TextFragment>): (ps: seq<int>)
    reads frags
    ensures |ps| == |frags| && forall i :: 0 <= i < |frags| ==> ps[i] == frags[i].oldPosition
  {
    if frags == [] then [] else [frags[0].oldPosition] + Positions(frags[1..])
  }

  /** The first fragments carry the positions `ps`. */
  predicate PinnedTo(frags: seq<TextFragment>, ps: seq<int>)
    reads frags
  {
    |ps| <= |frags| && forall i :: 0 <= i < |ps| ==> frags[i].oldPosition == ps[i]
  }

  /** No fragment is listed twice, as in a freshly parsed diff. */
  predicate Distinct(frags: seq<TextFragment>) {
    forall i, j :: 0 <= i < j < |frags| ==> frags[i] != frags[j]
  }

  method LineMatches(orig: Bytes, block: Bytes) returns (out: seq<int>)
    ensures out == Matches(orig, block)
    ensures Increasing(out)
    ensures forall n :: n in out <==> exists off :: BlockStart(orig, block, off) && LineNo(orig, off) == n
  {
    hide Newlines, Increasing;
    out := [];
    var off, lineNo := 0, 1;
    MatchesExact(orig, block);
    FirstLineStart(orig);
    while off + |block| <= |orig|
      invariant IsLineStart(orig, off) && lineNo == LineNo(orig, off)
      invariant Matches(orig, block) == out + MatchesFrom(orig, block, off, lineNo)
      decreases |orig| - off
    {
      if orig[off..off + |block|] == block {
        Assoc(out, [lineNo], MatchesAfter(orig, block, off, lineNo));
        out := out + [lineNo];
      }
      assert Matches(orig, block) == out + MatchesAfter(orig, block, off, lineNo);
      var nl := IndexByte(orig[off..], NEWLINE);
      if nl < 0 {
        return;
      }
      NextLineStart(orig, off);
      off := off + nl + 1;
      lineNo := lineNo + 1;
    }
  }

  /** The loop over a fragment's lines that gathers its old side. */
  method CollectOldBlock(h: Hunk) returns (block: Bytes)
    ensures block == OldBlock(h)
  {
    block := [];
    for i := 0 to |h|
      invariant block == OldBlock(h[..i])
    {
      OldBlockSnoc(h, i);
      if h[i].Old() {
        block := block + h[i].text;
      }
    }
    assert h[..|h|] == h;
  }

  /** One turn of the re-anchoring loop, up to the assignment. */
  method PinHunk(orig: Bytes, i: nat, prevStart: int, h: Hunk, ghost ps: seq<int>) returns (r: Result<int, AnchorError>)
    requires i == |ps| && prevStart == PreviousStart(ps)
    ensures r == AnchorHunk(orig, ps, h)
  {
    var block := CollectOldBlock(h);
    if block == [] {
      return Err(EmptyOldSide(i));
    }
    var starts := LineMatches(orig, block);
    if |starts| != 1 {
      return Err(MatchCount(i, |starts|));
    }
    if starts[0] <= prevStart {
      return Err(OutOfOrder(i, starts[0], prevStart));
    }
    return Ok(starts[0]);
  }

  method ReanchorFragments(f: File, orig: Bytes) returns (err: Option<AnchorError>)
    requires Distinct(f.fragments)
    modifies f.fragments
    ensures var fs := f.fragments;
            match Anchor(orig, Hunks(fs))
            case Ok(ps) => err == None && PinnedTo(fs, ps)
            case Err(e) =>
              && err == Some(e)
              && Anchor(orig, Hunks(fs)[..e.hunk]).Ok?
              && PinnedTo(fs, Anchor(orig, Hunks(fs)[..e.hunk]).value)
              && forall j :: e.hunk <= j < |fs| ==> fs[j].oldPosition == old(fs[j].oldPosition)
  {
    hide AnchorHunk;
    var fs := f.fragments;
    ghost var hs, ps := Hunks(fs), [];
    var prevStart := 0;
    for i := 0 to |fs|
      invariant |ps| == i && Anchor(orig, hs[..i]) == Ok(ps)
      invariant prevStart == PreviousStart(ps)
      invariant PinnedTo(fs, ps)
      invariant forall j :: i <= j < |fs| ==> fs[j].oldPosition == old(fs[j].oldPosition)
    {
      AnchorSnoc(orig, hs, i);
      var start := PinHunk(orig, i, prevStart, fs[i].lines, ps);
      if start.Err? {
        AnchorFails(orig, hs, i);
        assert Anchor(orig, hs) == Err(start.error) && start.error.hunk == i;
        return Some(start.error);
      }
      fs[i].oldPosition := start.value;
      prevStart := start.value;
      ps := ps + [start.value];
    }
    assert hs[..|fs|] == hs;
    return None;
  }

  /** `parsed` is what the diff parser made of the diff: an error, or the files in it. */
  method ApplyDiff(orig: Bytes, parsed: Option<seq<File>>) returns (r: Result<Bytes, PatchError>)
    requires parsed.Some? ==> forall f <- parsed.value :: Distinct(f.fragments)
    modifies if parsed.Some? && |parsed.value| == 1 then parsed.value[0].fragments else []
    ensures r == match parsed
                 case None => Err(ParseFailed)
                 case Some(files) =>
                   if |files| != 1 then Err(FileCount(|files|)) else Patched(orig, Hunks(files[0].fragments))
  {
    if parsed.None? {
      return Err(ParseFailed);
    }
    var files := parsed.value;
    if |files| != 1 {
      return Err(FileCount(|files|));
    }
    var err := ReanchorFragments(files[0], orig);
    if err.Some? {
      return Err(AnchorFailed(err.value));
    }
    var hunks, positions := Hunks(files[0].fragments), Positions(files[0].fragments);
    assert positions == Anchor(orig, hunks).value;
    var applied := StrictApply(orig, hunks, positions);
    if applied.Err? {
      return Err(ApplyFailed(applied.error));
    }
    return Ok(applied.value);
  }

  // ---- Helpers of the loops -------------------------------------------------------

  lemma {:induction false} OldLinesAppend(a: Hunk, b: Hunk)
    ensures OldLines(a + b) == OldLines(a) + OldLines(b)
  {
    if a == [] {
      assert a + b == b;
    } else {
      OldLinesAppend(a[1..], b);
      assert (a + b)[1..] == a[1..] + b;
      Assoc(if a[0].Old() then [a[0].text] else [], OldLines(a[1..]), OldLines(b));
    }
  }

  lemma OldBlockSnoc(h: Hunk, i: nat)
    requires i < |h|
    ensures OldBlock(h[..i + 1]) == OldBlock(h[..i]) + if h[i].Old() then h[i].text else []
  {
    assert h[..i + 1] == h[..i] + [h[i]];
    OldLinesAppend(h[..i], [h[i]]);
    assert [h[i]][1..] == [];
    JoinAppend(OldLines(h[..i]), OldLines([h[i]]));
    JoinOne(h[i].text);
  }

  lemma AnchorSnoc(orig: Bytes, hunks: seq<Hunk>, i: nat)
    requires i < |hunks|
    ensures Anchor(orig, hunks[..i + 1]) == AnchorNext(orig, Anchor(orig, hunks[..i]), hunks[i])
  {
    assert hunks[..i + 1][..i] == hunks[..i];
  }

  lemma FirstLineStart(s: Bytes)
    ensures IsLineStart(s, 0) && LineNo(s, 0) == 1
  {
    assert s[..0] == [];
  }

  /** The next line starts after the next newline, one number further; no line starts in between. */
  lemma NextLineStart(s: Bytes, off: nat)
    requires IsLineStart(s, off)
    ensures var nl := IndexByte(s[off..], NEWLINE);
            && (nl < 0 ==> forall o :: IsLineStart(s, o) ==> o <= off)
            && (nl >= 0 ==> IsLineStart(s, off + nl + 1) && LineNo(s, off + nl + 1) == LineNo(s, off) + 1)
            && (nl >= 0 ==> forall o :: IsLineStart(s, o) && o > off ==> o >= off + nl + 1)
  {
    var t := s[off..];
    var nl := IndexByte(t, NEWLINE);
    forall o | off < o && IsLineStart(s, o)
      ensures t[o - off - 1] == NEWLINE && 0 <= nl <= o - off - 1
    {
      assert t[o - off - 1] == s[o - 1];
      if nl >= 0 {
        assert forall j :: 0 <= j < nl ==> t[j] == t[..nl][j];
      }
    }
    if nl >= 0 {
      assert s[..off + nl + 1] == s[..off] + (t[..nl] + [NEWLINE]);
      NoNewlines(t[..nl]);
      NewlinesAppend(t[..nl], [NEWLINE]);
      NewlinesAppend(s[..off], t[..nl] + [NEWLINE]);
    }
  }

  /** The first hunk that cannot be pinned decides, whatever follows. */
  lemma {:induction false} AnchorFails(orig: Bytes, hunks: seq<Hunk>, i: nat)
    requires i < |hunks| && Anchor(orig, hunks[..i + 1]).Err?
    ensures Anchor(orig, hunks) == Anchor(orig, hunks[..i + 1])
    decreases |hunks|
  {
    var n := |hunks| - 1;
    if i < n {
      assert hunks[..n][..i + 1] == hunks[..i + 1];
      AnchorFails(orig, hunks[..n], i);
    } else {
      assert hunks[..i + 1] == hunks;
    }
  }

  // ---- Search: exactly the line starts that carry the block -----------------------

  predicate BlockStart(orig: Bytes, block: Bytes, off: int) {
    IsLineStart(orig, off) && OccursAt(orig, off, block)
  }

  lemma {:induction false} MatchesSound(orig: Bytes, block: Bytes, off: nat, lineNo: int, i: nat) returns (o: nat)
    requires IsLineStart(orig, off) && lineNo == LineNo(orig, off)
    requires i < |MatchesFrom(orig, block, off, lineNo)|
    ensures BlockStart(orig, block, o) && off <= o
    ensures LineNo(orig, o) == MatchesFrom(orig, block, off, lineNo)[i]
    decreases |orig| - off
  {
    hide Newlines, IndexByte;
    var here := OccursAt(orig, off, block);
    if here && i == 0 {
      o := off;
    } else {
      NextLineStart(orig, off);
      var nl := IndexByte(orig[off..], NEWLINE);
      o := MatchesSound(orig, block, off + nl + 1, lineNo + 1, if here then i - 1 else i);
    }
  }

  lemma {:induction false} MatchesComplete(orig: Bytes, block: Bytes, off: nat, lineNo: int, o: nat)
    requires IsLineStart(orig, off) && lineNo == LineNo(orig, off)
    requires BlockStart(orig, block, o) && off <= o
    ensures LineNo(orig, o) in MatchesFrom(orig, block, off, lineNo)
    decreases |orig| - off
  {
    hide Newlines, IndexByte;
    if off < o {
      NextLineStart(orig, off);
      MatchesComplete(orig, block, off + IndexByte(orig[off..], NEWLINE) + 1, lineNo + 1, o);
    }
  }

  predicate Increasing(s: seq<int>) {
    forall i, j :: 0 <= i < j < |s| ==> s[i] < s[j]
  }

  lemma {:induction false} MatchesIncrease(orig: Bytes, block: Bytes, off: nat, lineNo: int)
    requires off <= |orig|
    ensures Increasing(MatchesFrom(orig, block, off, lineNo))
    ensures forall i :: 0 <= i < |MatchesFrom(orig, block, off, lineNo)| ==>
              lineNo <= MatchesFrom(orig, block, off, lineNo)[i]
    decreases |orig| - off
  {
    var nl := IndexByte(orig[off..], NEWLINE);
    if nl >= 0 {
      MatchesIncrease(orig, block, off + nl + 1, lineNo + 1);
    }
    var rest := MatchesAfter(orig, block, off, lineNo);
    assert Increasing(rest) && forall i :: 0 <= i < |rest| ==> lineNo + 1 <= rest[i];
  }

  /** The search returns, in increasing order, exactly the numbers of the line starts that carry `block`. */
  lemma MatchesExact(orig: Bytes, block: Bytes)
    ensures Increasing(Matches(orig, block))
    ensures forall n :: n in Matches(orig, block)
              <==> exists off :: BlockStart(orig, block, off) && LineNo(orig, off) == n
  {
    var out := Matches(orig, block);
    MatchesIncrease(orig, block, 0, 1);
    forall n | n in out
      ensures exists off :: BlockStart(orig, block, off) && LineNo(orig, off) == n
    {
      var i :| 0 <= i < |out| && out[i] == n;
      var o := MatchesSound(orig, block, 0, 1, i);
    }
    forall off | BlockStart(orig, block, off)
      ensures LineNo(orig, off) in out
    {
      MatchesComplete(orig, block, 0, 1, off);
    }
  }
}

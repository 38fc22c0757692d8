/** The bounded repair loop (internal/repair/coordinator.go). */
module Repair {
  import opened Wrappers
  import opened GoBytes
  import opened Lines
  import opened Patch
  import opened PatchUndo

  // ---- The model's answer --------------------------------------------------------------

  datatype Part = Part(thought: bool, text: Bytes)

  /** `strings.Index`: the first place where `pat` occurs, or -1. */
  function Find(s: Bytes, pat: Bytes): (i: int)
    ensures i >= -1
    ensures i >= 0 ==> OccursAt(s, i, pat)
    ensures forall k: nat :: OccursAt(s, k, pat) ==> 0 <= i <= k
  {
    if OccursAt(s, 0, pat) then 0
    else if s == [] then -1
    else
      var i := Find(s[1..], pat);
      assert forall k: nat :: OccursAt(s, k, pat) ==> k > 0 && OccursAt(s[1..], k - 1, pat);
      if i < 0 then -1 else i + 1
  }

  function Text(parts: seq<Part>): Bytes {
    if parts == [] then []
    else Text(parts[..|parts| - 1]) + (if parts[|parts| - 1].thought then [] else parts[|parts| - 1].text)
  }

  const DIFF_FENCE: Bytes := Ascii("```diff\n")
  const PLAIN_FENCE: Bytes := Ascii("```\n")
  const FENCE: Bytes := Ascii("```")

  /** What stands between the first `open` and the next closing fence. */
  function Inside(text: Bytes, open: Bytes): Option<Bytes> {
    var i := Find(text, open);
    if i < 0 then None
    else
      var rest := text[i + |open|..];
      var j := Find(rest, FENCE);
      if j < 0 then None else Some(rest[..j])
  }

  function ExtractDiff(parts: seq<Part>): Bytes {
    var text := Text(parts);
    var fenced := Inside(text, DIFF_FENCE);
    if fenced.Some? then fenced.value
    else
      var plain := Inside(text, PLAIN_FENCE);
      if plain.Some? then plain.value else text
  }

  /** The loop over the answer's parts that leaves the thoughts out. */
  method CollectText(parts: seq<Part>) returns (text: Bytes)
    ensures text == Text(parts)
  {
    text := [];
    for i := 0 to |parts|
      invariant text == Text(parts[..i])
    {
      assert parts[..i + 1][..i] == parts[..i];
      if parts[i].thought {
        continue;
      }
      text := text + parts[i].text;
    }
    assert parts[..|parts|] == parts;
  }

  method ExtractDiffFromResponse(parts: seq<Part>) returns (diff: Bytes)
    ensures diff == ExtractDiff(parts)
  {
    hide Text, Find;
    var text := CollectText(parts);
    var i := Find(text, DIFF_FENCE);
    if i >= 0 {
      var rest := text[i + |DIFF_FENCE|..];
      var j := Find(rest, FENCE);
      if j >= 0 {
        return rest[..j];
      }
    }
    i := Find(text, PLAIN_FENCE);
    if i >= 0 {
      var rest := text[i + |PLAIN_FENCE|..];
      var j := Find(rest, FENCE);
      if j >= 0 {
        return rest[..j];
      }
    }
    return text;
  }

  /** A diff in a ```diff fence comes out exactly, whatever prose surrounds it. */
  lemma FencedDiffIsExtracted(parts: seq<Part>, before: Bytes, diff: Bytes, after: Bytes)
    requires Text(parts) == before + Ascii("```diff\n") + diff + Ascii("```") + after
    requires forall k :: 0 <= k < |before| ==> !OccursAt(Text(parts), k, Ascii("```diff\n"))
    requires forall k :: 0 <= k < |diff| ==> !OccursAt(diff + Ascii("```") + after, k, Ascii("```"))
    ensures ExtractDiff(parts) == diff
  {
    hide Find, Text;
    var text, rest := Text(parts), diff + FENCE + after;
    assert text == before + (DIFF_FENCE + rest);
    assert OccursAt(text, |before|, DIFF_FENCE);
    assert Find(text, DIFF_FENCE) == |before|;
    assert text[|before| + |DIFF_FENCE|..] == rest;
    assert rest == diff + (FENCE + after);
    assert OccursAt(rest, |diff|, FENCE);
    assert Find(rest, FENCE) == |diff|;
    assert rest[..|diff|] == diff;
  }

  /** Thought parts leave no trace in the text; the others follow each other. */
  lemma ThoughtsAreLeftOut(parts: seq<Part>, t: Bytes)
    ensures Text([]) == []
    ensures Text(parts + [Part(true, t)]) == Text(parts)
    ensures Text(parts + [Part(false, t)]) == Text(parts) + t
  {
    assert (parts + [Part(true, t)])[..|parts|] == parts;
    assert (parts + [Part(false, t)])[..|parts|] == parts;
  }

  /** Without a closed ```diff fence the first plain fence counts. */
  lemma PlainFenceIsExtracted(parts: seq<Part>, before: Bytes, diff: Bytes, after: Bytes)
    requires Text(parts) == before + Ascii("```\n") + diff + Ascii("```") + after
    requires forall k: nat :: !OccursAt(Text(parts), k, Ascii("```diff\n"))
    requires forall k :: 0 <= k < |before| ==> !OccursAt(Text(parts), k, Ascii("```\n"))
    requires forall k :: 0 <= k < |diff| ==> !OccursAt(diff + Ascii("```") + after, k, Ascii("```"))
    ensures ExtractDiff(parts) == diff
  {
    hide Find, Text;
    var text, rest := Text(parts), diff + FENCE + after;
    assert Find(text, DIFF_FENCE) < 0;
    assert text == before + (PLAIN_FENCE + rest);
    assert OccursAt(text, |before|, PLAIN_FENCE);
    assert Find(text, PLAIN_FENCE) == |before|;
    assert text[|before| + |PLAIN_FENCE|..] == rest;
    assert rest == diff + (FENCE + after);
    assert OccursAt(rest, |diff|, FENCE);
    assert Find(rest, FENCE) == |diff|;
    assert rest[..|diff|] == diff;
  }

  /** An answer without fences is taken as it is. */
  lemma UnfencedTextIsTheDiff(parts: seq<Part>)
    requires forall k: nat :: !OccursAt(Text(parts), k, Ascii("```diff\n")) && !OccursAt(Text(parts), k, Ascii("```\n"))
    ensures ExtractDiff(parts) == Text(parts)
  {
    hide Find, Text;
    assert Find(Text(parts), DIFF_FENCE) < 0 && Find(Text(parts), PLAIN_FENCE) < 0;
  }

  // ---- Structural checks ---------------------------------------------------------------

  datatype DiffFile = DiffFile(isBinary: bool, newName: Bytes, hunks: seq<Hunk>)

  datatype Structural = MultiFile | Binary | PathTraversal | EmptyHunks

  method CountAddRemove(f: DiffFile) returns (added: nat, removed: nat)
    ensures added == CountAll(f.hunks, Add) && removed == CountAll(f.hunks, Delete)
  {
    added, removed := 0, 0;
    for i := 0 to |f.hunks|
      invariant added == CountAll(f.hunks[..i], Add) && removed == CountAll(f.hunks[..i], Delete)
    {
      var h := f.hunks[i];
      ghost var a, r := added, removed;
      for j := 0 to |h|
        invariant added == a + Count(h[..j], Add) && removed == r + Count(h[..j], Delete)
      {
        CountSnoc(h, j, Add);
        CountSnoc(h, j, Delete);
        match h[j].op
        case Add => added := added + 1;
        case Delete => removed := removed + 1;
        case Context =>
      }
      assert h[..|h|] == h && f.hunks[..i + 1][..i] == f.hunks[..i];
    }
    assert f.hunks[..|f.hunks|] == f.hunks;
  }

  lemma {:induction false} CountSnoc(h: Hunk, j: nat, op: Op)
    requires j < |h|
    ensures Count(h[..j + 1], op) == Count(h[..j], op) + (if h[j].op == op then 1 else 0)
  {
    if j > 0 {
      CountSnoc(h[1..], j - 1, op);
      assert h[..j + 1][1..] == h[1..][..j] && h[..j][1..] == h[1..][..j - 1];
    } else {
      assert h[..1][1..] == [];
    }
  }

  predicate Traverses(name: Bytes) {
    Find(name, Ascii("..")) >= 0 || (name != [] && name[0] == Ascii("/")[0])
  }

  /** The first failed check, in the code's order. */
  function StructuralFault(files: seq<DiffFile>): (r: Option<Structural>)
    requires files != []
    ensures r == None <==>
              && |files| == 1 && !files[0].isBinary && !Traverses(files[0].newName)
              && CountAll(files[0].hunks, Add) + CountAll(files[0].hunks, Delete) > 0
  {
    if |files| > 1 then Some(MultiFile)
    else if files[0].isBinary then Some(Binary)
    else if Traverses(files[0].newName) then Some(PathTraversal)
    else if CountAll(files[0].hunks, Add) == 0 && CountAll(files[0].hunks, Delete) == 0 then Some(EmptyHunks)
    else None
  }

  method ValidateDiff(files: seq<DiffFile>) returns (r: Option<Structural>)
    requires files != []
    ensures r == StructuralFault(files)
  {
    if |files| > 1 {
      return Some(MultiFile);
    }
    var f := files[0];
    if f.isBinary {
      return Some(Binary);
    }
    if Traverses(f.newName) {
      return Some(PathTraversal);
    }
    var added, removed := CountAddRemove(f);
    if added == 0 && removed == 0 {
      return Some(EmptyHunks);
    }
    return None;
  }

  /** Some line of the file's hunks is marked `op`. */
  predicate HasLine(f: DiffFile, op: Op) {
    exists i, j {:trigger f.hunks[i][j]} :: 0 <= i < |f.hunks| && 0 <= j < |f.hunks[i]| && f.hunks[i][j].op == op
  }

  lemma {:induction false} CountHas(h: Hunk, op: Op)
    ensures Count(h, op) > 0 <==> exists j :: 0 <= j < |h| && h[j].op == op
  {
    if h != [] {
      CountHas(h[1..], op);
      assert forall j :: 1 <= j < |h| ==> h[1..][j - 1] == h[j];
    }
  }

  lemma {:induction false} CountAllHas(hunks: seq<Hunk>, op: Op)
    ensures CountAll(hunks, op) > 0
            <==> exists i, j {:trigger hunks[i][j]} :: 0 <= i < |hunks| && 0 <= j < |hunks[i]| && hunks[i][j].op == op
  {
    if hunks != [] {
      var n := |hunks| - 1;
      CountAllHas(hunks[..n], op);
      CountHas(hunks[n], op);
      assert forall i, j {:trigger hunks[i][j]} ::
        0 <= i < n && 0 <= j < |hunks[i]| ==> hunks[..n][i][j] == hunks[i][j];
      if CountAll(hunks[..n], op) > 0 {
        var i, j :| 0 <= i < n && 0 <= j < |hunks[..n][i]| && hunks[..n][i][j].op == op;
        assert hunks[i][j].op == op;
      }
      if Count(hunks[n], op) > 0 {
        var j :| 0 <= j < |hunks[n]| && hunks[n][j].op == op;
        assert hunks[n][j].op == op;
      }
    }
  }

  /** The name climbs or is absolute. */
  ghost predicate Climbs(name: Bytes) {
    (exists k: nat :: OccursAt(name, k, Ascii(".."))) || (name != [] && name[0] == 47)
  }

  /**
   * Which fault is reported: several files first, then a binary file, then the name, then a diff
   * that changes no line.
   */
  lemma FaultsExactly(files: seq<DiffFile>)
    requires files != []
    ensures var r, f := StructuralFault(files), files[0];
            && (r == Some(MultiFile) <==> |files| > 1)
            && (r == Some(Binary) <==> |files| == 1 && f.isBinary)
            && (r == Some(PathTraversal) <==> |files| == 1 && !f.isBinary && Climbs(f.newName))
            && (r == Some(EmptyHunks) <==>
                  |files| == 1 && !f.isBinary && !Climbs(f.newName) && !HasLine(f, Add) && !HasLine(f, Delete))
  {
    hide Find, CountAll;
    var f := files[0];
    CountAllHas(f.hunks, Add);
    CountAllHas(f.hunks, Delete);
    assert Ascii("/")[0] == 47;
    assert Traverses(f.newName) <==> Climbs(f.newName) by {
      if Find(f.newName, Ascii("..")) >= 0 {
        assert OccursAt(f.newName, Find(f.newName, Ascii("..")) as nat, Ascii(".."));
      }
    }
  }

  // ---- One iteration -------------------------------------------------------------------

  datatype Feedback =
    | NoFeedback
    | GeminiFailed
    | ParseFailure
    | NoHunksFound
    | RejectedFor(reason: Structural)
    | FailedToApply

  datatype Response = Response(parts: seq<Part>, thought: Bytes)

  /** Everything the loop does not control: any behaviour of the target file, Gemini, the parser and the applier. */
  datatype World = World(
    read: nat -> Option<Bytes>,
    generate: (nat, Bytes, Feedback) -> Option<Response>,
    parse: Bytes -> Option<seq<DiffFile>>,
    apply: (Bytes, Bytes) -> Option<Bytes>)

  datatype Reason =
    | TargetReadError
    | GeminiError
    | ParseError
    | NoHunks
    | Fault(fault: Structural)
    | ApplyConflict
    | MaxIterations

  /** REPAIR_ATTEMPT, REPAIR_REJECTED and REPAIR_APPROVED. */
  datatype Record =
    | Attempt(iteration: int)
    | Rejected(iteration: int, reason: Reason, thought: Bytes)
    | Approved(iteration: int, thought: Bytes)

  datatype Success = Success(patchDiff: Bytes, patched: Bytes, orig: Bytes, iterations: nat, thought: Bytes)

  /** How an iteration ends. `thought` is `None` when Gemini gave no answer. */
  datatype Ending =
    | ReadFailed
    | Empty(reason: Reason, feedback: Feedback, thought: Option<Bytes>)
    | Refused(reason: Reason, feedback: Feedback, thought: Option<Bytes>)
    | Won(result: Success)

  function Iterate(w: World, i: nat, feedback: Feedback): Ending {
    var target := w.read(i);
    if target.None? then ReadFailed
    else
      var resp := w.generate(i, target.value, feedback);
      if resp.None? then Empty(GeminiError, GeminiFailed, None)
      else
        var thought, diff := Some(resp.value.thought), ExtractDiff(resp.value.parts);
        var files := w.parse(diff);
        if files.None? then Empty(ParseError, ParseFailure, thought)
        else if files.value == [] then Empty(NoHunks, NoHunksFound, thought)
        else if StructuralFault(files.value).Some? then
          var fault := StructuralFault(files.value).value;
          Refused(Fault(fault), RejectedFor(fault), thought)
        else
          var patched := w.apply(target.value, diff);
          if patched.None? then Refused(ApplyConflict, FailedToApply, thought)
          else Won(Success(diff, patched.value, target.value, i + 1, resp.value.thought))
  }

  function ThoughtText(t: Option<Bytes>): Bytes {
    if t.Some? then t.value else []
  }

  function Records(i: nat, e: Ending): seq<Record> {
    match e
    case ReadFailed => [Rejected(i, TargetReadError, [])]
    case Empty(reason, _, t) => [Attempt(i), Rejected(i, reason, ThoughtText(t))]
    case Refused(reason, _, t) => [Attempt(i), Rejected(i, reason, ThoughtText(t))]
    case Won(r) => [Attempt(i), Approved(i, r.thought)]
  }

  // ---- The loop ------------------------------------------------------------------------

  datatype RepairError = InvalidDiagnosis | ReadTarget | TwoConsecutiveEmpty | MaxIterationsExceeded

  datatype Loop = Loop(feedback: Feedback, emptyCount: nat, lastThought: Bytes)

  /** The run after some iterations: still looping, or over. */
  datatype Progress =
    | Running(loop: Loop, trace: seq<Record>)
    | Stopped(result: Result<Success, RepairError>, trace: seq<Record>)

  function Turn(w: World, i: nat, p: Progress): Progress {
    if p.Stopped? then p
    else
      var l := p.loop;
      var e := Iterate(w, i, l.feedback);
      var trace := p.trace + Records(i, e);
      match e
      case ReadFailed => Stopped(Err(ReadTarget), trace)
      case Empty(_, feedback, t) =>
        if l.emptyCount + 1 >= 2 then Stopped(Err(TwoConsecutiveEmpty), trace)
        else Running(Loop(feedback, l.emptyCount + 1, if t.Some? then t.value else l.lastThought), trace)
      case Refused(_, feedback, t) =>
        Running(Loop(feedback, 0, if t.Some? then t.value else l.lastThought), trace)
      case Won(r) => Stopped(Ok(r), trace)
  }

  function After(w: World, n: nat): Progress {
    if n == 0 then Running(Loop(NoFeedback, 0, []), []) else Turn(w, n - 1, After(w, n - 1))
  }

  function Iterations(maxIterations: int): nat {
    if maxIterations < 0 then 0 else maxIterations
  }

  /** The whole run: the result and the ledger records it leaves. */
  function Outcome(w: World, maxIterations: int): (Result<Success, RepairError>, seq<Record>) {
    match After(w, Iterations(maxIterations))
    case Stopped(r, trace) => (r, trace)
    case Running(l, trace) =>
      (Err(MaxIterationsExceeded), trace + [Rejected(maxIterations - 1, Reason.MaxIterations, l.lastThought)])
  }

  /** The body of one iteration: the records it writes and the loop variables it leaves, or the end of the run. */
  method RunIteration(w: World, iter: nat, l: Loop, ghost trace: seq<Record>)
    returns (over: Option<Result<Success, RepairError>>, next: Loop, records: seq<Record>)
    ensures Turn(w, iter, Running(l, trace))
            == if over.Some? then Stopped(over.value, trace + records) else Running(next, trace + records)
  {
    hide Find, Text, StructuralFault;
    next, records := l, [];
    var target := w.read(iter);
    if target.None? {
      return Some(Err(ReadTarget)), next, [Rejected(iter, TargetReadError, [])];
    }
    records := [Attempt(iter)];
    var resp := w.generate(iter, target.value, l.feedback);
    if resp.None? {
      records := records + [Rejected(iter, GeminiError, [])];
      next := next.(emptyCount := next.emptyCount + 1);
      if next.emptyCount >= 2 {
        return Some(Err(TwoConsecutiveEmpty)), next, records;
      }
      return None, next.(feedback := GeminiFailed), records;
    }
    var thought := resp.value.thought;
    next := next.(lastThought := thought);
    var diff := ExtractDiffFromResponse(resp.value.parts);
    var files := w.parse(diff);
    if files.None? || files.value == [] {
      records := records + [Rejected(iter, if files.None? then ParseError else NoHunks, thought)];
      next := next.(emptyCount := next.emptyCount + 1);
      if next.emptyCount >= 2 {
        return Some(Err(TwoConsecutiveEmpty)), next, records;
      }
      return None, next.(feedback := if files.None? then ParseFailure else NoHunksFound), records;
    }
    next := next.(emptyCount := 0);
    var fault := ValidateDiff(files.value);
    if fault.Some? {
      records := records + [Rejected(iter, Fault(fault.value), thought)];
      return None, next.(feedback := RejectedFor(fault.value)), records;
    }
    var patched := w.apply(target.value, diff);
    if patched.None? {
      records := records + [Rejected(iter, ApplyConflict, thought)];
      return None, next.(feedback := FailedToApply), records;
    }
    records := records + [Approved(iter, thought)];
    return Some(Ok(Success(diff, patched.value, target.value, iter + 1, thought))), next, records;
  }

  /** The loop itself: where it stands when it returns or runs out of iterations. */
  method RunLoop(w: World, maxIterations: int) returns (p: Progress)
    ensures p == After(w, Iterations(maxIterations))
  {
    hide Turn, After;
    var l, trace, iter := Loop(NoFeedback, 0, []), [], 0;
    AfterNone(w);
    while iter < maxIterations
      invariant 0 <= iter <= Iterations(maxIterations)
      invariant After(w, iter) == Running(l, trace)
    {
      var over, next, records := RunIteration(w, iter, l, trace);
      AfterOne(w, iter);
      if over.Some? {
        StoppedStays(w, iter + 1, Iterations(maxIterations));
        return Stopped(over.value, trace + records);
      }
      l, trace, iter := next, trace + records, iter + 1;
    }
    return Running(l, trace);
  }

  method Repair(diagnosisValid: bool, w: World, maxIterations: int)
    returns (r: Result<Success, RepairError>, trace: seq<Record>)
    ensures !diagnosisValid ==> r == Err(InvalidDiagnosis) && trace == []
    ensures diagnosisValid ==> (r, trace) == Outcome(w, maxIterations)
  {
    if !diagnosisValid {
      return Err(InvalidDiagnosis), [];
    }
    hide After;
    var p := RunLoop(w, maxIterations);
    if p.Stopped? {
      return p.result, p.trace;
    }
    var last := Rejected(maxIterations - 1, Reason.MaxIterations, p.loop.lastThought);
    return Err(MaxIterationsExceeded), p.trace + [last];
  }

  lemma AfterNone(w: World)
    ensures After(w, 0) == Running(Loop(NoFeedback, 0, []), [])
  {}

  lemma AfterOne(w: World, n: nat)
    ensures After(w, n + 1) == Turn(w, n, After(w, n))
  {}

  lemma TurnStopped(w: World, n: nat)
    requires After(w, n).Stopped?
    ensures After(w, n + 1) == After(w, n)
  {}

  lemma {:induction false} StoppedStays(w: World, i: nat, n: nat)
    requires i <= n && After(w, i).Stopped?
    ensures After(w, n) == After(w, i)
    decreases n
  {
    hide After;
    if i < n {
      StoppedStays(w, i, n - 1);
      TurnStopped(w, n - 1);
    }
  }
}

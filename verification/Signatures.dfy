/**
 * The local gate's signature check (internal/evaluate/local.go). Parsing and type
 * printing belong to the Go libraries: a declaration arrives with its types printed.
 */
module Signatures {
  import opened Wrappers
  import opened GoBytes

  /** A parameter or result field: how many names it groups, and its printed type. */
  datatype Field = Field(names: nat, typ: string)

  /** A function's type; `typeParams` are the constraints of a generic function, which nothing renders. */
  datatype FuncType = FuncType(typeParams: seq<Field>, params: seq<Field>, results: seq<Field>)

  datatype Decl =
    | Func(name: string, exported: bool, recv: Option<string>, typ: FuncType)
    | OtherDecl

  /** `parser.ParseFile`: the declarations, or a syntax error. */
  type Parser = Bytes -> Option<seq<Decl>>

  // ---- Rendering -----------------------------------------------------------------------

  /** A field without names is one parameter. */
  function Arity(f: Field): nat {
    if f.names == 0 then 1 else f.names
  }

  function Repeat(t: string, n: nat): (ts: seq<string>)
    ensures |ts| == n && forall i :: 0 <= i < n ==> ts[i] == t
  {
    seq(n, i => t)
  }

  /** One type per parameter. */
  function Flatten(fields: seq<Field>): seq<string> {
    if fields == [] then []
    else Flatten(fields[..|fields| - 1]) + Repeat(fields[|fields| - 1].typ, Arity(fields[|fields| - 1]))
  }

  /** One type per field, however many names it groups. */
  function Types(fields: seq<Field>): (ts: seq<string>)
    ensures |ts| == |fields| && forall i :: 0 <= i < |fields| ==> ts[i] == fields[i].typ
  {
    seq(|fields|, i requires 0 <= i < |fields| => fields[i].typ)
  }

  function Commas(ts: seq<string>): string {
    if ts == [] then "" else if |ts| == 1 then ts[0] else Commas(ts[..|ts| - 1]) + ", " + ts[|ts| - 1]
  }

  /** The signature text: parameters one by one, results field by field. */
  function SigText(ft: FuncType): string {
    "(" + Commas(Flatten(ft.params)) + ") (" + Commas(Types(ft.results)) + ")"
  }

  /** The parameter loop: a field that groups n names is written n times. */
  method RenderParams(params: seq<Field>) returns (b: string)
    ensures b == Commas(Flatten(params))
  {
    b := "";
    for i := 0 to |params|
      invariant b == Commas(Flatten(params[..i]))
      invariant i > 0 ==> Flatten(params[..i]) != []
    {
      var n := params[i].names;
      if n == 0 {
        n := 1;
      }
      b := RenderField(b, i > 0, params[i].typ, n, Flatten(params[..i]));
      assert params[..i + 1][..i] == params[..i];
    }
    assert params[..|params|] == params;
  }

  method RenderField(before: string, separate: bool, typ: string, n: nat, ghost done: seq<string>) returns (b: string)
    requires before == Commas(done) && separate == (done != []) && n > 0
    ensures b == Commas(done + Repeat(typ, n))
  {
    b := before;
    if separate {
      b := b + ", ";
    }
    for j := 0 to n
      invariant j == 0 ==> b == Commas(done) + (if done == [] then "" else ", ")
      invariant j > 0 ==> b == Commas(done + Repeat(typ, j))
    {
      if j > 0 {
        b := b + ", ";
      }
      ghost var written := done + Repeat(typ, j);
      CommasSnoc(written, typ);
      assert written + [typ] == done + Repeat(typ, j + 1);
      assert j == 0 ==> written == done;
      b := b + typ;
    }
  }

  /** The result loop: one type per field. */
  method RenderResults(results: seq<Field>) returns (b: string)
    ensures b == Commas(Types(results))
  {
    hide Commas, Types;
    b := "";
    NoTypes(results);
    for i := 0 to |results|
      invariant b == Commas(Types(results[..i]))
    {
      ghost var done := Types(results[..i]);
      TypesSnoc(results, i);
      CommasSnoc(done, results[i].typ);
      if i > 0 {
        b := b + ", ";
      }
      b := b + results[i].typ;
    }
    assert results[..|results|] == results;
  }

  lemma NoTypes(fields: seq<Field>)
    ensures Commas(Types(fields[..0])) == ""
  {}

  lemma TypesSnoc(fields: seq<Field>, i: nat)
    requires i < |fields|
    ensures Types(fields[..i + 1]) == Types(fields[..i]) + [fields[i].typ]
  {}

  method RenderFuncSig(ft: FuncType) returns (b: string)
    ensures b == SigText(ft)
  {
    var params := RenderParams(ft.params);
    var results := RenderResults(ft.results);
    b := "(";
    b := b + params;
    b := b + ") (";
    b := b + results;
    b := b + ")";
  }

  lemma CommasSnoc(ts: seq<string>, t: string)
    ensures Commas(ts + [t]) == Commas(ts) + (if ts == [] then "" else ", ") + t
  {
    assert (ts + [t])[..|ts|] == ts;
  }

  // ---- Extracting and comparing ----------------------------------------------------------

  type Sigs = map<string, string>

  predicate Counts(d: Decl) {
    d.Func? && d.exported
  }

  function Key(d: Decl): string
    requires d.Func?
  {
    if d.recv.Some? then d.recv.value + "." + d.name else d.name
  }

  /** The exported functions' texts by name; a later declaration of the same name wins. */
  function ExportedSigs(decls: seq<Decl>): Sigs {
    if decls == [] then map[]
    else
      var sigs, d := ExportedSigs(decls[..|decls| - 1]), decls[|decls| - 1];
      if Counts(d) then sigs[Key(d) := SigText(d.typ)] else sigs
  }

  method ExtractExportedSigs(parse: Parser, src: Bytes) returns (r: Option<Sigs>)
    ensures r == match parse(src) case None => None case Some(decls) => Some(ExportedSigs(decls))
  {
    var file := parse(src);
    if file.None? {
      return None;
    }
    var decls := file.value;
    var out: Sigs := map[];
    for i := 0 to |decls|
      invariant out == ExportedSigs(decls[..i])
    {
      assert decls[..i + 1][..i] == decls[..i];
      var d := decls[i];
      if Counts(d) {
        var sig := RenderFuncSig(d.typ);
        out := out[Key(d) := sig];
      }
    }
    assert decls[..|decls|] == decls;
    return Some(out);
  }

  datatype Reason =
    | ParseError
    | PatchedParseError
    | RemovedSig(name: string)
    | ChangedSig(name: string, was: string, now: string)

  datatype LocalResult = LocalResult(allow: bool, reason: Option<Reason>, parsesAsGo: bool, signaturePreserved: bool)

  /** Every old signature is still there, unchanged. */
  predicate Preserves(old_: Sigs, new_: Sigs) {
    forall name <- old_ :: name in new_ && new_[name] == old_[name]
  }

  /** What a reason for blocking says about the two files. */
  predicate Justifies(reason: Reason, old_: Sigs, new_: Sigs) {
    match reason
    case RemovedSig(n) => n in old_ && n !in new_
    case ChangedSig(n, was, now) => n in old_ && n in new_ && was == old_[n] && now == new_[n] && was != now
    case _ => false
  }

  /** The loop visits the map in an arbitrary order. */
  method PreservesSignature(parse: Parser, orig: Bytes, patched: Bytes) returns (blocked: Option<Reason>)
    ensures parse(orig).None? ==> blocked == None
    ensures parse(orig).Some? && parse(patched).None? ==> blocked == Some(PatchedParseError)
    ensures parse(orig).Some? && parse(patched).Some? ==>
              var o, p := ExportedSigs(parse(orig).value), ExportedSigs(parse(patched).value);
              && (blocked == None <==> Preserves(o, p))
              && (blocked.Some? ==> Justifies(blocked.value, o, p))
  {
    var origSigs := ExtractExportedSigs(parse, orig);
    if origSigs.None? {
      return None;
    }
    var newSigs := ExtractExportedSigs(parse, patched);
    if newSigs.None? {
      return Some(PatchedParseError);
    }
    var o, p := origSigs.value, newSigs.value;
    var left := o.Keys;
    while left != {}
      invariant left <= o.Keys
      invariant forall name <- o :: name !in left ==> name in p && p[name] == o[name]
      decreases left
    {
      var name :| name in left;
      if name !in p {
        return Some(RemovedSig(name));
      }
      if o[name] != p[name] {
        return Some(ChangedSig(name, o[name], p[name]));
      }
      left := left - {name};
    }
    return None;
  }

  /** The gate's verdict on a pair of files. */
  predicate Allowed(parse: Parser, orig: Bytes, patched: Bytes) {
    && parse(patched).Some?
    && (parse(orig).None? || Preserves(ExportedSigs(parse(orig).value), ExportedSigs(parse(patched).value)))
  }

  method RunLocal(parse: Parser, orig: Bytes, patched: Bytes) returns (r: LocalResult)
    ensures r.allow <==> Allowed(parse, orig, patched)
    ensures r.allow <==> r.reason == None
    ensures r.parsesAsGo <==> parse(patched).Some?
    ensures r.signaturePreserved <==> r.allow
    ensures parse(patched).None? ==> r.reason == Some(ParseError)
    ensures parse(patched).Some? && !r.allow ==>
              parse(orig).Some?
              && Justifies(r.reason.value, ExportedSigs(parse(orig).value), ExportedSigs(parse(patched).value))
  {
    if parse(patched).None? {
      return LocalResult(false, Some(ParseError), false, false);
    }
    var blocked := PreservesSignature(parse, orig, patched);
    if blocked.Some? {
      return LocalResult(false, blocked, true, false);
    }
    return LocalResult(true, None, true, true);
  }

  // ---- The gate composes -----------------------------------------------------------------

  /** Two allowed patches in a row are an allowed patch. */
  lemma AllowedComposes(parse: Parser, a: Bytes, b: Bytes, c: Bytes)
    requires Allowed(parse, a, b) && Allowed(parse, b, c)
    ensures Allowed(parse, a, c)
  {
    if parse(a).Some? {
      var x, y, z := ExportedSigs(parse(a).value), ExportedSigs(parse(b).value), ExportedSigs(parse(c).value);
      assert Preserves(x, y) && Preserves(y, z);
      assert forall name <- x :: name in y;
    }
  }

  /**
   * Through any sequence of allowed patches, every later version keeps every exported signature
   * of an earlier one that parses.
   */
  lemma {:induction false} AllowedSequence(parse: Parser, versions: seq<Bytes>, i: nat, j: nat)
    requires forall k :: 0 <= k < |versions| - 1 ==> Allowed(parse, versions[k], versions[k + 1])
    requires i < j < |versions|
    ensures Allowed(parse, versions[i], versions[j])
    ensures parse(versions[i]).Some? ==>
              Preserves(ExportedSigs(parse(versions[i]).value), ExportedSigs(parse(versions[j]).value))
    decreases j
  {
    assert Allowed(parse, versions[j - 1], versions[j - 1 + 1]);
    if i < j - 1 {
      AllowedSequence(parse, versions, i, j - 1);
      AllowedComposes(parse, versions[i], versions[j - 1], versions[j]);
    }
  }

  // ---- The text is faithful to the parameter list ----------------------------------------

  predicate Opens(c: char) { c == '(' || c == '[' || c == '{' }

  predicate Closes(c: char) { c == ')' || c == ']' || c == '}' }

  /** Inside `depth` brackets, the text closes them all and shows no comma or extra closer outside brackets. */
  predicate Balanced(t: string, depth: nat) {
    if t == "" then depth == 0
    else if Opens(t[0]) then Balanced(t[1..], depth + 1)
    else if Closes(t[0]) then depth > 0 && Balanced(t[1..], depth - 1)
    else (t[0] == ',' ==> depth > 0) && Balanced(t[1..], depth)
  }

  predicate PlainType(t: string) {
    t != "" && Balanced(t, 0)
  }

  predicate PlainList(ts: seq<string>) {
    forall i :: 0 <= i < |ts| ==> PlainType(ts[i])
  }

  /** Characters before the first comma or closer outside brackets. */
  function TokenLength(s: string, depth: nat): (n: nat)
    ensures n <= |s|
  {
    if s == "" then 0
    else if Opens(s[0]) then 1 + TokenLength(s[1..], depth + 1)
    else if Closes(s[0]) then (if depth == 0 then 0 else 1 + TokenLength(s[1..], depth - 1))
    else if s[0] == ',' && depth == 0 then 0
    else 1 + TokenLength(s[1..], depth)
  }

  /** Reads a comma-separated list up to its closing bracket; returns what follows the bracket too. */
  function ReadList(s: string): (seq<string>, string)
    decreases |s|
  {
    var n := TokenLength(s, 0);
    if n == 0 then ([], if s == "" then "" else s[1..])
    else if n + 1 < |s| && s[n] == ',' then
      var (rest, after) := ReadList(s[n + 2..]);
      ([s[..n]] + rest, after)
    else ([s[..n]], if n < |s| then s[n + 1..] else "")
  }

  lemma {:induction false} TokenIsType(t: string, depth: nat, after: string)
    requires Balanced(t, depth)
    requires after != "" && (after[0] == ',' || Closes(after[0]))
    ensures TokenLength(t + after, depth) == |t|
  {
    if t == "" {
      assert t + after == after;
    } else {
      assert (t + after)[1..] == t[1..] + after;
      TokenIsType(t[1..],
                  if Opens(t[0]) then depth + 1 else if Closes(t[0]) then depth - 1 else depth,
                  after);
    }
  }

  lemma CommasOne(t: string)
    ensures Commas([]) == "" && Commas([t]) == t
  {}

  lemma {:induction false} CommasCons(t: string, ts: seq<string>)
    ensures Commas([t] + ts) == t + (if ts == [] then "" else ", " + Commas(ts))
    decreases |ts|
  {
    hide Commas;
    CommasOne(t);
    if ts == [] {
      assert [t] + ts == [t];
    } else {
      var init, x := ts[..|ts| - 1], ts[|ts| - 1];
      assert ts == init + [x];
      CommasCons(t, init);
      CommasSnoc([t] + init, x);
      CommasSnoc(init, x);
      assert [t] + ts == [t] + init + [x];
      if init != [] {
        Reassociate(t + ", ", Commas(init), ", ", x);
      }
    }
  }

  lemma Reassociate(a: string, b: string, c: string, d: string)
    ensures a + b + c + d == a + (b + c + d)
  {}

  lemma ReadNone(after: string)
    ensures ReadList(Commas([]) + ")" + after) == ([], after)
  {
    assert Commas([]) + ")" + after == ")" + after;
    assert (")" + after)[1..] == after;
  }

  lemma ReadOne(t: string, after: string)
    requires PlainType(t)
    ensures ReadList(t + ")" + after) == ([t], after)
  {
    hide Balanced, TokenLength;
    var s := t + ")" + after;
    TokenIsType(t, 0, ")" + after);
    assert s == t + (")" + after);
    assert s[..|t|] == t && s[|t|] == ')' && s[|t| + 1..] == after;
  }

  lemma ReadMore(t: string, tail: string)
    requires PlainType(t)
    ensures ReadList(t + ", " + tail) == ([t] + ReadList(tail).0, ReadList(tail).1)
  {
    hide Balanced, TokenLength;
    var s := t + ", " + tail;
    TokenIsType(t, 0, ", " + tail);
    assert s == t + (", " + tail);
    assert s[..|t|] == t && s[|t|] == ',' && s[|t| + 2..] == tail;
  }

  /** Reading back a rendered list. */
  lemma {:induction false} ReadRendered(ts: seq<string>, after: string)
    requires PlainList(ts)
    ensures ReadList(Commas(ts) + ")" + after) == (ts, after)
  {
    hide ReadList, Commas, PlainType;
    if ts == [] {
      ReadNone(after);
    } else {
      var t, rest := ts[0], ts[1..];
      assert ts == [t] + rest;
      CommasCons(t, rest);
      if rest == [] {
        assert ts == [t] && Commas(ts) == t;
        ReadOne(t, after);
      } else {
        ReadRendered(rest, after);
        ReadMore(t, Commas(rest) + ")" + after);
        assert t + (", " + Commas(rest)) + ")" + after == t + ", " + (Commas(rest) + ")" + after);
      }
    }
  }

  predicate PlainSig(ft: FuncType) {
    PlainList(Flatten(ft.params)) && PlainList(Types(ft.results))
  }

  lemma ReadSig(ft: FuncType)
    requires PlainSig(ft)
    ensures var (params, rest) := ReadList(SigText(ft)[1..]);
            params == Flatten(ft.params) && |rest| >= 2 && ReadList(rest[2..]) == (Types(ft.results), "")
  {
    hide ReadList, Commas, Flatten, Types, PlainList;
    var p, r := Commas(Flatten(ft.params)), Commas(Types(ft.results));
    var rest := " (" + r + ")";
    assert SigText(ft)[1..] == p + ")" + rest;
    ReadRendered(Flatten(ft.params), rest);
    assert rest[2..] == r + ")" + "";
    ReadRendered(Types(ft.results), "");
  }

  /** Comparing texts decides exactly whether the flattened parameters and the per-field results agree. */
  lemma TextDecidesSignature(f: FuncType, g: FuncType)
    requires PlainSig(f) && PlainSig(g)
    ensures SigText(f) == SigText(g) <==> Flatten(f.params) == Flatten(g.params) && Types(f.results) == Types(g.results)
  {
    if SigText(f) == SigText(g) {
      ReadSig(f);
      ReadSig(g);
    }
  }

  // ---- What the text does not show -------------------------------------------------------

  predicate Ungrouped(fields: seq<Field>) {
    forall i :: 0 <= i < |fields| ==> fields[i].names <= 1
  }

  lemma {:induction false} UngroupedFlatten(fields: seq<Field>)
    requires Ungrouped(fields)
    ensures Flatten(fields) == Types(fields)
  {
    if fields != [] {
      var n := |fields| - 1;
      UngroupedFlatten(fields[..n]);
      assert Types(fields) == Types(fields[..n]) + [fields[n].typ];
    }
  }

  /** A parameter or result list as Go's grammar has it: either every field is named or none is. */
  predicate GoList(fields: seq<Field>) {
    || (forall i :: 0 <= i < |fields| ==> fields[i].names == 0)
    || AllNamed(fields)
  }

  predicate AllNamed(fields: seq<Field>) {
    forall i :: 0 <= i < |fields| ==> fields[i].names > 0
  }

  /** A function type that a parsed file can hold; type parameters always have names. */
  predicate GoSig(ft: FuncType) {
    PlainSig(ft) && GoList(ft.params) && GoList(ft.results) && AllNamed(ft.typeParams)
  }

  /** The same list with a name for every parameter or result. */
  function Named(fields: seq<Field>): (r: seq<Field>)
    ensures AllNamed(r) && |r| == |fields|
    ensures forall i :: 0 <= i < |fields| ==> r[i] == Field(Arity(fields[i]), fields[i].typ)
  {
    seq(|fields|, i requires 0 <= i < |fields| => Field(Arity(fields[i]), fields[i].typ))
  }

  lemma {:induction false} NamedFlatten(fields: seq<Field>)
    ensures Flatten(Named(fields)) == Flatten(fields)
  {
    if fields != [] {
      var n := |fields| - 1;
      NamedFlatten(fields[..n]);
      assert Named(fields)[..n] == Named(fields[..n]);
    }
  }

  /** The same list with every field named, and one name more in the last. */
  function Grow(fields: seq<Field>): (r: seq<Field>)
    requires fields != []
    ensures AllNamed(r) && Types(r) == Types(fields)
  {
    var n := |fields| - 1;
    Named(fields)[..n] + [Field(Arity(fields[n]) + 1, fields[n].typ)]
  }

  lemma GrowAddsOne(fields: seq<Field>)
    requires fields != []
    ensures |Flatten(Grow(fields))| == |Flatten(fields)| + 1
  {
    var n := |fields| - 1;
    NamedFlatten(fields[..n]);
    assert Named(fields)[..n] == Named(fields[..n]);
    assert Grow(fields)[..n] == Named(fields[..n]);
  }

  /** `f` and `g` declare equally many results. */
  predicate SameResultCount(f: FuncType, g: FuncType) {
    |Flatten(f.results)| == |Flatten(g.results)|
  }

  /**
   * The text of `f` settles how many results a function has exactly when `f` has none: any other
   * result list can be named, gain a name in its last field and print the same. Type parameters
   * are never settled: any other list of them prints the same.
   */
  lemma ResultCountIsSeenExactly(f: FuncType)
    requires GoSig(f)
    ensures (forall g :: GoSig(g) && SigText(g) == SigText(f) ==> SameResultCount(f, g)) <==> f.results == []
    ensures forall tps :: AllNamed(tps) ==>
              GoSig(f.(typeParams := tps)) && SigText(f.(typeParams := tps)) == SigText(f)
  {
    if f.results == [] {
      forall g | GoSig(g) && SigText(g) == SigText(f) ensures SameResultCount(f, g) {
        TextDecidesSignature(f, g);
        assert |Types(g.results)| == |Types(f.results)|;
      }
    } else {
      GrownPrintsAlike(f);
    }
  }

  lemma GrownPrintsAlike(f: FuncType)
    requires GoSig(f) && f.results != []
    ensures var g := f.(results := Grow(f.results));
            GoSig(g) && SigText(g) == SigText(f) && !SameResultCount(f, g)
  {
    hide Flatten, Types, Commas;
    GrowAddsOne(f.results);
  }

  // ---- What the gate does and does not notice in two files -------------------------------

  /** The last exported declaration under each key. */
  function ExportedTypes(decls: seq<Decl>): map<string, FuncType> {
    if decls == [] then map[]
    else
      var types, d := ExportedTypes(decls[..|decls| - 1]), decls[|decls| - 1];
      if Counts(d) then types[Key(d) := d.typ] else types
  }

  lemma {:induction false} TypesCarrySigs(decls: seq<Decl>)
    ensures ExportedSigs(decls).Keys == ExportedTypes(decls).Keys
    ensures forall name <- ExportedTypes(decls) :: ExportedSigs(decls)[name] == SigText(ExportedTypes(decls)[name])
  {
    if decls != [] {
      TypesCarrySigs(decls[..|decls| - 1]);
    }
  }

  predicate PlainFile(decls: seq<Decl>) {
    forall name <- ExportedTypes(decls) :: PlainSig(ExportedTypes(decls)[name])
  }

  /** What the parser can return: every exported function's type is one that Go's grammar has. */
  predicate GoFile(decls: seq<Decl>) {
    forall name <- ExportedTypes(decls) :: GoSig(ExportedTypes(decls)[name])
  }

  /** No exported function groups results. */
  predicate UngroupedFile(decls: seq<Decl>) {
    forall name <- ExportedTypes(decls) :: Ungrouped(ExportedTypes(decls)[name].results)
  }

  /**
   * Every exported function of the old file is in the new one, with the same flattened parameters
   * and per-field results.
   */
  predicate KeepsRendered(old_: map<string, FuncType>, new_: map<string, FuncType>) {
    forall name <- old_ ::
      && name in new_
      && Flatten(new_[name].params) == Flatten(old_[name].params)
      && Types(new_[name].results) == Types(old_[name].results)
  }

  /** ... and with the same parameters and results, one by one. */
  predicate KeepsAll(old_: map<string, FuncType>, new_: map<string, FuncType>) {
    forall name <- old_ ::
      && name in new_
      && Flatten(new_[name].params) == Flatten(old_[name].params)
      && Flatten(new_[name].results) == Flatten(old_[name].results)
  }

  /** For files with plain types the verdict is exactly that the rendered view is kept. */
  lemma AllowedExactly(parse: Parser, orig: Bytes, patched: Bytes)
    requires parse(orig).Some? && parse(patched).Some?
    requires PlainFile(parse(orig).value) && PlainFile(parse(patched).value)
    ensures Allowed(parse, orig, patched)
            <==> KeepsRendered(ExportedTypes(parse(orig).value), ExportedTypes(parse(patched).value))
  {
    var ds, es := parse(orig).value, parse(patched).value;
    var o, p := ExportedTypes(ds), ExportedTypes(es);
    TypesCarrySigs(ds);
    TypesCarrySigs(es);
    hide ExportedTypes, ExportedSigs, SigText, PlainSig;
    forall name | name in o && name in p
      ensures ExportedSigs(es)[name] == ExportedSigs(ds)[name]
              <==> && Flatten(p[name].params) == Flatten(o[name].params)
                   && Types(p[name].results) == Types(o[name].results)
    {
      TextDecidesSignature(p[name], o[name]);
    }
    assert forall name <- o :: name in ExportedSigs(ds);
    assert forall name <- ExportedSigs(ds) :: name in o;
  }

  /**
   * Where neither file groups results, an allowed patch keeps every parameter and result; and
   * nothing else is asked.
   */
  lemma AllowedKeepsResults(parse: Parser, orig: Bytes, patched: Bytes)
    requires parse(orig).Some? && parse(patched).Some?
    requires PlainFile(parse(orig).value) && PlainFile(parse(patched).value)
    requires UngroupedFile(parse(orig).value) && UngroupedFile(parse(patched).value)
    ensures Allowed(parse, orig, patched)
            <==> KeepsAll(ExportedTypes(parse(orig).value), ExportedTypes(parse(patched).value))
  {
    AllowedExactly(parse, orig, patched);
    var o, p := ExportedTypes(parse(orig).value), ExportedTypes(parse(patched).value);
    forall name | name in o && name in p
      ensures Flatten(p[name].results) == Types(p[name].results) && Flatten(o[name].results) == Types(o[name].results)
    {
      UngroupedFlatten(p[name].results);
      UngroupedFlatten(o[name].results);
    }
  }

  /**
   * For any old file with plain types: the gate notices every change in the number of an
   * exported function's results exactly when no exported function of the old file has any.
   */
  lemma GateSeesResultCountsExactly(ds: seq<Decl>)
    requires GoFile(ds)
    ensures (forall es :: GoFile(es) && Preserves(ExportedSigs(ds), ExportedSigs(es)) ==> KeepsCounts(ds, es))
            <==> forall name <- ExportedTypes(ds) :: ExportedTypes(ds)[name].results == []
  {
    var o := ExportedTypes(ds);
    if forall name <- o :: o[name].results == [] {
      forall es | GoFile(es) && Preserves(ExportedSigs(ds), ExportedSigs(es)) ensures KeepsCounts(ds, es) {
        NoResultsKept(ds, es);
      }
    } else {
      var name :| name in o && o[name].results != [];
      var es := RegroupedFile(ds, name);
    }
  }

  predicate KeepsCounts(ds: seq<Decl>, es: seq<Decl>) {
    forall name <- ExportedTypes(ds) ::
      name in ExportedTypes(es) && SameResultCount(ExportedTypes(ds)[name], ExportedTypes(es)[name])
  }

  lemma NoResultsKept(ds: seq<Decl>, es: seq<Decl>)
    requires GoFile(ds) && GoFile(es) && Preserves(ExportedSigs(ds), ExportedSigs(es))
    requires forall name <- ExportedTypes(ds) :: ExportedTypes(ds)[name].results == []
    ensures KeepsCounts(ds, es)
  {
    var o, p := ExportedTypes(ds), ExportedTypes(es);
    TypesCarrySigs(ds);
    TypesCarrySigs(es);
    hide ExportedTypes, ExportedSigs, SigText, GoSig, Flatten;
    forall name | name in o ensures name in p && SameResultCount(o[name], p[name]) {
      assert name in ExportedSigs(ds);
      ResultCountIsSeenExactly(o[name]);
    }
  }

  /** The old file with the results of one exported function named, and one more of them, passes the gate. */
  lemma RegroupedFile(ds: seq<Decl>, name: string) returns (es: seq<Decl>)
    requires GoFile(ds) && name in ExportedTypes(ds) && ExportedTypes(ds)[name].results != []
    ensures GoFile(es) && Preserves(ExportedSigs(ds), ExportedSigs(es)) && !KeepsCounts(ds, es)
  {
    var o := ExportedTypes(ds);
    var g := o[name].(results := Grow(o[name].results));
    GrownPrintsAlike(o[name]);
    hide ExportedTypes, ExportedSigs, SigText, GoSig, Flatten, Grow;
    es := Retyped(ds, name, g);
    TypesCarrySigs(ds);
    TypesCarrySigs(es);
    assert forall k <- ExportedSigs(ds) :: k in o;
    assert ExportedTypes(es)[name] == g;
  }

  /** The file with another type in the declaration that counts under `name`, and nothing else changed. */
  lemma {:induction false} Retyped(ds: seq<Decl>, name: string, g: FuncType) returns (es: seq<Decl>)
    requires name in ExportedTypes(ds)
    ensures ExportedTypes(es) == ExportedTypes(ds)[name := g]
    ensures exists i :: 0 <= i < |ds| && ds[i].Func? && es == ds[i := ds[i].(typ := g)]
  {
    var n := |ds| - 1;
    hide SigText;
    if Counts(ds[n]) && Key(ds[n]) == name {
      es := ds[n := ds[n].(typ := g)];
      assert es[..n] == ds[..n];
    } else {
      var before := Retyped(ds[..n], name, g);
      var i :| 0 <= i < n && ds[..n][i].Func? && before == ds[..n][i := ds[..n][i].(typ := g)];
      es := ds[i := ds[i].(typ := g)];
      assert es[..n] == before && es[n] == ds[n];
    }
  }

  /** Of several declarations with one key the last counts, and others leave it alone. */
  lemma LastDeclarationCounts(decls: seq<Decl>, d: Decl)
    requires d.Func?
    ensures d.exported ==> ExportedTypes(decls + [d]) == ExportedTypes(decls)[Key(d) := d.typ]
    ensures d.exported ==> ExportedSigs(decls + [d]) == ExportedSigs(decls)[Key(d) := SigText(d.typ)]
    ensures !d.exported ==> ExportedTypes(decls + [d]) == ExportedTypes(decls)
  {
    assert (decls + [d])[..|decls|] == decls;
  }

  // ---- The verdict on declarations -------------------------------------------------------

  /** No two exported functions share receiver and name, their names are identifiers, and their types print plainly. */
  predicate Separate(decls: seq<Decl>) {
    && (forall i :: 0 <= i < |decls| && decls[i].Func? && decls[i].exported ==>
          '.' !in decls[i].name && PlainSig(decls[i].typ))
    && (forall i, j ::
          && 0 <= i < j < |decls|
          && decls[i].Func? && decls[i].exported && decls[j].Func? && decls[j].exported
          ==> decls[i].recv != decls[j].recv || decls[i].name != decls[j].name)
  }

  /** The file has `d` still: the same receiver and name, the same parameters one by one, the same result fields. */
  predicate StillHas(decls: seq<Decl>, d: Decl)
    requires d.Func?
  {
    exists k ::
      && 0 <= k < |decls| && decls[k].Func? && decls[k].exported
      && decls[k].recv == d.recv && decls[k].name == d.name
      && Flatten(decls[k].typ.params) == Flatten(d.typ.params)
      && Types(decls[k].typ.results) == Types(d.typ.results)
  }

  /** With identifiers as names the key tells methods of different receivers, and functions, apart. */
  lemma KeySeparates(d: Decl, e: Decl)
    requires d.Func? && e.Func? && '.' !in d.name && '.' !in e.name && Key(d) == Key(e)
    ensures d.recv == e.recv && d.name == e.name
  {
    var k := Key(d);
    if d.recv.Some? {
      MethodKeyHasDot(d);
    }
    if e.recv.Some? {
      MethodKeyHasDot(e);
    }
    if d.recv.Some? && e.recv.Some? {
      var r, q := d.recv.value, e.recv.value;
      assert k[|r|] == '.' && k[|q|] == '.';
      assert forall i :: |r| < i < |k| ==> k[i] == d.name[i - |r| - 1];
      assert forall i :: |q| < i < |k| ==> k[i] == e.name[i - |q| - 1];
      assert |r| == |q|;
      assert r == k[..|r|] == q;
      assert d.name == k[|r| + 1..] == e.name;
    }
  }

  lemma MethodKeyHasDot(d: Decl)
    requires d.Func? && d.recv.Some?
    ensures '.' in Key(d)
  {
    assert Key(d)[|d.recv.value|] == '.';
  }

  lemma {:induction false} TypeOfDecl(decls: seq<Decl>, i: nat)
    requires Separate(decls) && i < |decls| && decls[i].Func? && decls[i].exported
    ensures Key(decls[i]) in ExportedTypes(decls) && ExportedTypes(decls)[Key(decls[i])] == decls[i].typ
  {
    var n := |decls| - 1;
    if i < n {
      SeparateInit(decls);
      TypeOfDecl(decls[..n], i);
      if Counts(decls[n]) && Key(decls[n]) == Key(decls[i]) {
        KeySeparates(decls[i], decls[n]);
        assert false;
      }
    }
  }

  lemma SeparateInit(decls: seq<Decl>)
    requires Separate(decls) && decls != []
    ensures Separate(decls[..|decls| - 1])
  {
    hide PlainSig;
    var init := decls[..|decls| - 1];
    assert forall i :: 0 <= i < |init| ==> init[i] == decls[i];
  }

  lemma {:induction false} DeclOfKey(decls: seq<Decl>, name: string) returns (i: nat)
    requires name in ExportedTypes(decls)
    ensures i < |decls| && decls[i].Func? && decls[i].exported
    ensures Key(decls[i]) == name && ExportedTypes(decls)[name] == decls[i].typ
  {
    var n := |decls| - 1;
    if Counts(decls[n]) && Key(decls[n]) == name {
      i := n;
    } else {
      i := DeclOfKey(decls[..n], name);
    }
  }

  lemma SeparateIsPlain(decls: seq<Decl>)
    requires Separate(decls)
    ensures PlainFile(decls)
  {
    hide PlainSig, ExportedTypes;
    forall name <- ExportedTypes(decls) ensures PlainSig(ExportedTypes(decls)[name]) {
      var i := DeclOfKey(decls, name);
    }
  }

  /**
   * The verdict, read off the two files: allowed exactly when the patched file parses and, if the
   * old one did, still has every exported function and method of it.
   */
  lemma AllowedOnDeclarations(parse: Parser, orig: Bytes, patched: Bytes)
    requires parse(orig).Some? ==> Separate(parse(orig).value)
    requires parse(patched).Some? ==> Separate(parse(patched).value)
    ensures Allowed(parse, orig, patched) <==>
            && parse(patched).Some?
            && (parse(orig).Some? ==>
                  var ds, es := parse(orig).value, parse(patched).value;
                  forall i :: 0 <= i < |ds| && ds[i].Func? && ds[i].exported ==> StillHas(es, ds[i]))
  {
    hide Separate, PlainSig, ExportedTypes, ExportedSigs, Flatten, Types, StillHas, Allowed;
    if parse(orig).None? || parse(patched).None? {
      AllowedUnparsed(parse, orig, patched);
    } else {
      var ds, es := parse(orig).value, parse(patched).value;
      SeparateIsPlain(ds);
      SeparateIsPlain(es);
      AllowedExactly(parse, orig, patched);
      if KeepsRendered(ExportedTypes(ds), ExportedTypes(es)) {
        forall i | 0 <= i < |ds| && ds[i].Func? && ds[i].exported ensures StillHas(es, ds[i]) {
          KeptIsThere(ds, es, i);
        }
      }
      if forall i :: 0 <= i < |ds| && ds[i].Func? && ds[i].exported ==> StillHas(es, ds[i]) {
        forall name <- ExportedTypes(ds) ensures KeptUnder(ExportedTypes(ds), ExportedTypes(es), name) {
          var i := DeclOfKey(ds, name);
          ThereIsKept(ds, es, i, name);
        }
        KeptAll(ExportedTypes(ds), ExportedTypes(es));
      }
    }
  }

  lemma AllowedUnparsed(parse: Parser, orig: Bytes, patched: Bytes)
    requires parse(orig).None? || parse(patched).None?
    ensures Allowed(parse, orig, patched) <==> parse(patched).Some?
  {}

  predicate KeptUnder(old_: map<string, FuncType>, new_: map<string, FuncType>, name: string)
    requires name in old_
  {
    && name in new_
    && Flatten(new_[name].params) == Flatten(old_[name].params)
    && Types(new_[name].results) == Types(old_[name].results)
  }

  lemma KeptAll(old_: map<string, FuncType>, new_: map<string, FuncType>)
    requires forall name <- old_ :: KeptUnder(old_, new_, name)
    ensures KeepsRendered(old_, new_)
  {
    hide Flatten, Types;
    forall name <- old_
      ensures && name in new_
              && Flatten(new_[name].params) == Flatten(old_[name].params)
              && Types(new_[name].results) == Types(old_[name].results)
    {
      assert KeptUnder(old_, new_, name);
    }
  }

  lemma KeptIsThere(ds: seq<Decl>, es: seq<Decl>, i: nat)
    requires Separate(ds) && Separate(es) && KeepsRendered(ExportedTypes(ds), ExportedTypes(es))
    requires i < |ds| && ds[i].Func? && ds[i].exported
    ensures StillHas(es, ds[i])
  {
    hide PlainSig, ExportedTypes, Flatten, Types, Key;
    TypeOfDecl(ds, i);
    var k := DeclOfKey(es, Key(ds[i]));
    KeySeparates(ds[i], es[k]);
  }

  lemma ThereIsKept(ds: seq<Decl>, es: seq<Decl>, i: nat, name: string)
    requires Separate(ds) && Separate(es) && i < |ds| && ds[i].Func? && ds[i].exported && StillHas(es, ds[i])
    requires name in ExportedTypes(ds) && Key(ds[i]) == name && ExportedTypes(ds)[name] == ds[i].typ
    ensures KeptUnder(ExportedTypes(ds), ExportedTypes(es), name)
  {
    hide PlainSig, ExportedTypes, Flatten, Types;
    var d := ds[i];
    var k :|
      && 0 <= k < |es| && es[k].Func? && es[k].exported
      && es[k].recv == d.recv && es[k].name == d.name
      && Flatten(es[k].typ.params) == Flatten(d.typ.params)
      && Types(es[k].typ.results) == Types(d.typ.results);
    TypeOfDecl(es, k);
    assert Key(es[k]) == name;
  }

  /** One result `(a int)` and two results `(a, b int)` print alike. */
  lemma GroupedResultsPrintAlike(tps: seq<Field>, params: seq<Field>)
    ensures var two, one := FuncType(tps, params, [Field(2, "int")]), FuncType(tps, params, [Field(1, "int")]);
            && SigText(two) == SigText(one)
            && |Flatten(two.results)| == 2 && |Flatten(one.results)| == 1
  {
    var two, one := [Field(2, "int")], [Field(1, "int")];
    assert Types(two) == Types(one);
    assert two[..0] == [] && one[..0] == [];
  }
}

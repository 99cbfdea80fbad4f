/** The declaration phase: which initializers are placeholder calls, what
    each one is replaced with, and which ones abort the rewrite. */
module Placeholder {
  import opened Bytes
  import opened Outcome
  import opened Ast
  import opened Splicing
  import StringLiteral
  import BytesLiteral

  /** The receiver a placeholder call names, whatever the build tag. */
  const Namespace: seq<byte> := Ascii("include")
  const StringSelector: seq<byte> := Ascii("String")
  const BytesSelector: seq<byte> := Ascii("Bytes")

  /** The initializers of the file's top-level `const`/`var` specs, in order. */
  function Initializers(decls: seq<Decl>): (r: seq<Expr>)
    ensures forall d, s, e | d in decls && d.GenDecl? && s in d.specs && s.ValueSpec? && e in s.values :: e in r
    ensures forall e | e in r :: exists d, s | d in decls && d.GenDecl? && s in d.specs :: s.ValueSpec? && e in s.values
  {
    if decls == [] then []
    else
      var here := if decls[0].GenDecl? then SpecValues(decls[0].specs) else [];
      var rest := Initializers(decls[1..]);
      assert forall d | d in decls[1..] :: d in decls;
      assert forall d | d in decls :: d == decls[0] || d in decls[1..];
      here + rest
  }

  function SpecValues(specs: seq<Spec>): (r: seq<Expr>)
    ensures forall s, e | s in specs && s.ValueSpec? && e in s.values :: e in r
    ensures forall e | e in r :: exists s | s in specs :: s.ValueSpec? && e in s.values
  {
    if specs == [] then []
    else
      var here := if specs[0].ValueSpec? then specs[0].values else [];
      var rest := SpecValues(specs[1..]);
      assert forall s | s in specs[1..] :: s in specs;
      assert forall s | s in specs :: s == specs[0] || s in specs[1..];
      here + rest
  }

  /** Declarations are flattened in source order: the initializers of
      `a + b` are those of `a` followed by those of `b`. */
  lemma {:induction false} InitializersAppend(a: seq<Decl>, b: seq<Decl>)
    ensures Initializers(a + b) == Initializers(a) + Initializers(b)
    decreases |a|
  {
    if a == [] {
      assert a + b == b;
    } else {
      assert (a + b)[0] == a[0];
      assert (a + b)[1..] == a[1..] + b;
      InitializersAppend(a[1..], b);
    }
  }

  /** A general declaration contributes its specs' values, a function
      declaration nothing. */
  lemma InitializersOne(specs: seq<Spec>)
    ensures Initializers([GenDecl(specs)]) == SpecValues(specs)
    ensures Initializers([FuncDecl]) == []
  {
    assert [GenDecl(specs)][1..] == [];
    assert SpecValues(specs) + [] == SpecValues(specs);
  }

  /** Specs are flattened in source order too. */
  lemma {:induction false} SpecValuesAppend(a: seq<Spec>, b: seq<Spec>)
    ensures SpecValues(a + b) == SpecValues(a) + SpecValues(b)
    decreases |a|
  {
    if a == [] {
      assert a + b == b;
    } else {
      assert (a + b)[0] == a[0];
      assert (a + b)[1..] == a[1..] + b;
      SpecValuesAppend(a[1..], b);
    }
  }

  /** A value spec contributes its values, in order and with repeats; any
      other spec nothing. */
  lemma SpecValuesOne(values: seq<Expr>)
    ensures SpecValues([ValueSpec(values)]) == values
    ensures SpecValues([OtherSpec]) == []
  {
    assert [ValueSpec(values)][1..] == [];
    assert values + [] == values;
  }

  /** `include.<Sel>(<one argument>)`: only calls of this shape are
      examined; every other initializer is passed over without an error. */
  predicate IsCandidate(e: Expr)
  {
    && e.Call?
    && e.fun.Selector?
    && e.fun.x.Ident?
    && e.fun.x.name == Namespace
    && |e.args| == 1
  }

  /** What Go's lexer guarantees of a basic literal: it is not empty, and it
      is not a lone double quote (a string literal has both its quotes). */
  predicate LexedLiteral(v: seq<byte>)
  {
    |v| > 0 && (|v| == 1 ==> v[0] != Quote)
  }

  predicate WellLexed(e: Expr)
  {
    IsCandidate(e) && e.args[0].BasicLit? ==> LexedLiteral(e.args[0].value)
  }

  /** The file name a placeholder's argument names: the text of a basic
      literal between its double quotes, without unescaping. */
  function Filename(arg: Expr): (r: Option<seq<byte>>)
    requires arg.BasicLit? ==> LexedLiteral(arg.value)
    ensures r.Some? <==>
      arg.BasicLit? && |arg.value| >= 2 && arg.value[0] == Quote && arg.value[|arg.value| - 1] == Quote
    ensures r.Some? ==> arg.value == [Quote] + r.value + [Quote]
  {
    if !arg.BasicLit? then None
    else
      var v := arg.value;
      if v[0] != Quote || v[|v| - 1] != Quote then None
      else
        assert v == [Quote] + v[1..|v| - 1] + [Quote];
        Some(v[1..|v| - 1])
  }

  datatype Verdict = Skip | Reject(error: Error) | Replace(edit: Edit)

  /** Which `include.String` encoder writes the replacement: the program's
      own `fileContentAsString`, or the corrected one. */
  datatype StringEncoder = AsWritten | Corrected

  function StringText(enc: StringEncoder, c: seq<byte>): seq<byte>
  {
    match enc
    case AsWritten => StringLiteral.Encode(c)
    case Corrected => StringLiteral.SafeEncode(c)
  }

  /** One initializer, judged: passed over, rejected with the error that
      aborts the rewrite, or replaced by the encoded content of its target.
      The argument is checked before the selector name. */
  function Classify(e: Expr, files: map<seq<byte>, seq<byte>>, enc: StringEncoder): (v: Verdict)
    requires WellLexed(e)
    ensures v.Skip? <==> !IsCandidate(e)
    ensures IsCandidate(e) && Filename(e.args[0]).None? ==> v == Reject(UnsupportedArgument(e.fun.sel))
    ensures IsCandidate(e) && Filename(e.args[0]).Some? ==>
      var sel := e.fun.sel;
      var name := Filename(e.args[0]).value;
      && (sel != StringSelector && sel != BytesSelector ==> v == Reject(UnsupportedFunction(sel)))
      && (sel == StringSelector || sel == BytesSelector ==>
            if name !in files then v == Reject(ReadError(name))
            else v.Replace? && v.edit.pos == e.pos && v.edit.end == e.end)
      && (sel == StringSelector && name in files ==> v.edit.text == StringText(enc, files[name]))
      && (sel == BytesSelector && name in files ==> v.edit.text == BytesLiteral.Encode(files[name]))
  {
    if !IsCandidate(e) then Skip
    else
      var sel := e.fun.sel;
      match Filename(e.args[0])
      case None => Reject(UnsupportedArgument(sel))
      case Some(name) =>
        if sel == StringSelector then
          if name in files then Replace(Edit(e.pos, e.end, StringText(enc, files[name])))
          else Reject(ReadError(name))
        else if sel == BytesSelector then
          if name in files then Replace(Edit(e.pos, e.end, BytesLiteral.Encode(files[name])))
          else Reject(ReadError(name))
        else Reject(UnsupportedFunction(sel))
  }

  /** The edits after a verdict: a replacement is put in front, anything
      else adds nothing. */
  function Prepend(v: Verdict, edits: seq<Edit>): seq<Edit>
  {
    if v.Replace? then [v.edit] + edits else edits
  }

  /** The replacements of every accepted placeholder in `vs`, in order. */
  function Replacements(vs: seq<Expr>, files: map<seq<byte>, seq<byte>>, enc: StringEncoder): seq<Edit>
    requires forall i | 0 <= i < |vs| :: WellLexed(vs[i])
  {
    if vs == [] then [] else Prepend(Classify(vs[0], files, enc), Replacements(vs[1..], files, enc))
  }

  /** The declaration phase's result: the edits made, and the error that
      stopped it, if any. */
  datatype Scan = Scan(edits: seq<Edit>, failure: Option<Error>)

  /** Index of the first rejected initializer, if any. */
  function FirstRejection(vs: seq<Expr>, files: map<seq<byte>, seq<byte>>, enc: StringEncoder): (r: Option<nat>)
    requires forall i | 0 <= i < |vs| :: WellLexed(vs[i])
    ensures r.None? <==> forall i | 0 <= i < |vs| :: !Classify(vs[i], files, enc).Reject?
    ensures r.Some? ==>
      && r.value < |vs|
      && Classify(vs[r.value], files, enc).Reject?
      && forall j | 0 <= j < r.value :: !Classify(vs[j], files, enc).Reject?
  {
    if vs == [] then None
    else if Classify(vs[0], files, enc).Reject? then Some(0)
    else
      assert forall i | 1 <= i < |vs| :: vs[i] == vs[1..][i - 1];
      match FirstRejection(vs[1..], files, enc)
      case None => None
      case Some(i) => Some(i + 1)
  }

  /** Visits the initializers in order, stopping at the first rejection:
      without one, every accepted placeholder's replacement, in order; with
      one, its error and the replacements made before it. */
  function Walk(vs: seq<Expr>, files: map<seq<byte>, seq<byte>>, enc: StringEncoder): (s: Scan)
    requires forall i | 0 <= i < |vs| :: WellLexed(vs[i])
    ensures FirstRejection(vs, files, enc).None? ==> s == Scan(Replacements(vs, files, enc), None)
    ensures FirstRejection(vs, files, enc).Some? ==>
      var i := FirstRejection(vs, files, enc).value;
      && s.failure == Some(Classify(vs[i], files, enc).error)
      && s.edits == Replacements(vs[..i], files, enc)
  {
    if vs == [] then Scan([], None)
    else
      var v := Classify(vs[0], files, enc);
      if v.Reject? then
        assert vs[..0] == [];
        Scan([], Some(v.error))
      else
        PassStep(vs, files, enc);
        var s := Walk(vs[1..], files, enc);
        Scan(Prepend(v, s.edits), s.failure)
  }

  /** Passing over an initializer that is not rejected shifts the first
      rejection by one and puts its replacement, if any, in front of those
      of the rest. */
  lemma PassStep(vs: seq<Expr>, files: map<seq<byte>, seq<byte>>, enc: StringEncoder)
    requires forall i | 0 <= i < |vs| :: WellLexed(vs[i])
    requires vs != [] && !Classify(vs[0], files, enc).Reject?
    ensures forall i | 0 <= i < |vs[1..]| :: WellLexed(vs[1..][i])
    ensures FirstRejection(vs, files, enc).None? <==> FirstRejection(vs[1..], files, enc).None?
    ensures FirstRejection(vs, files, enc).Some? ==>
      var i := FirstRejection(vs[1..], files, enc).value;
      && FirstRejection(vs, files, enc) == Some(i + 1)
      && Classify(vs[i + 1], files, enc) == Classify(vs[1..][i], files, enc)
      && Replacements(vs[..i + 1], files, enc) == Prepend(Classify(vs[0], files, enc), Replacements(vs[1..][..i], files, enc))
  {
    ShiftRejection(vs, files, enc);
    if FirstRejection(vs[1..], files, enc).Some? {
      var i := FirstRejection(vs[1..], files, enc).value;
      assert vs[i + 1] == vs[1..][i];
      ReplacementsPrefix(vs, files, enc, i + 1);
    }
  }

  lemma ShiftRejection(vs: seq<Expr>, files: map<seq<byte>, seq<byte>>, enc: StringEncoder)
    requires forall i | 0 <= i < |vs| :: WellLexed(vs[i])
    requires vs != [] && !Classify(vs[0], files, enc).Reject?
    ensures forall i | 0 <= i < |vs[1..]| :: WellLexed(vs[1..][i])
    ensures FirstRejection(vs, files, enc) ==
      match FirstRejection(vs[1..], files, enc)
      case None => None
      case Some(i) => Some(i + 1)
  {
    assert forall i | 1 <= i < |vs| :: vs[i] == vs[1..][i - 1];
  }

  /** The replacements of a nonempty prefix: the first initializer's, if
      any, then those of the rest of the prefix. */
  lemma ReplacementsPrefix(vs: seq<Expr>, files: map<seq<byte>, seq<byte>>, enc: StringEncoder, n: int)
    requires forall i | 0 <= i < |vs| :: WellLexed(vs[i])
    requires 0 < n <= |vs|
    ensures Replacements(vs[..n], files, enc) == Prepend(Classify(vs[0], files, enc), Replacements(vs[1..][..n - 1], files, enc))
  {
    var p := vs[..n];
    assert p[0] == vs[0];
    assert p[1..] == vs[1..][..n - 1];
  }

  // ------------------------------------------------- what a replacement means

  /** A replacement denotes its target's content: the bytes literal decodes
      to it, and so does the corrected string expression; the program's own
      string literal does exactly when the content allows a raw literal. */
  lemma ReplacementDenotes(e: Expr, files: map<seq<byte>, seq<byte>>, enc: StringEncoder)
    requires WellLexed(e) && Classify(e, files, enc).Replace?
    ensures Filename(e.args[0]).Some? && Filename(e.args[0]).value in files
    ensures var c := files[Filename(e.args[0]).value];
      var text := Classify(e, files, enc).edit.text;
      && (e.fun.sel == BytesSelector ==> BytesLiteral.Decode(text) == Some(c))
      && (e.fun.sel == StringSelector && enc == Corrected ==> StringLiteral.StringValue(text) == Some(c))
      && (e.fun.sel == StringSelector && enc == AsWritten ==>
            (StringLiteral.RawValue(text) == Some(c) <==> StringLiteral.RawExact(c)))
  {
    var c := files[Filename(e.args[0]).value];
    if e.fun.sel == BytesSelector {
      BytesLiteral.RoundTrip(c);
    } else {
      StringLiteral.EncodeAsRawLiteral(c);
    }
  }

  /** The two string encoders give the same verdict unless the initializer
      is an `include.String` call whose target a raw literal cannot carry
      exactly. */
  lemma ClassifyAgrees(e: Expr, files: map<seq<byte>, seq<byte>>)
    requires WellLexed(e)
    requires (IsCandidate(e) && e.fun.sel == StringSelector && Filename(e.args[0]).Some?
              && Filename(e.args[0]).value in files) ==>
      StringLiteral.RawExact(files[Filename(e.args[0]).value])
    ensures Classify(e, files, AsWritten) == Classify(e, files, Corrected)
  {
    if IsCandidate(e) && e.fun.sel == StringSelector && Filename(e.args[0]).Some? && Filename(e.args[0]).value in files {
      var c := files[Filename(e.args[0]).value];
      assert StringLiteral.SafeEncode(c) == StringLiteral.Encode(c);
    }
  }

  /** Where the encoders agree on every initializer, the declaration phase
      does not depend on the choice. */
  lemma {:induction false} WalkAgrees(vs: seq<Expr>, files: map<seq<byte>, seq<byte>>)
    requires forall i | 0 <= i < |vs| :: WellLexed(vs[i])
    requires forall i | 0 <= i < |vs| :: Classify(vs[i], files, AsWritten) == Classify(vs[i], files, Corrected)
    ensures Walk(vs, files, AsWritten) == Walk(vs, files, Corrected)
    decreases |vs|
  {
    if vs != [] {
      assert forall i | 1 <= i < |vs| :: vs[i] == vs[1..][i - 1];
      assert Classify(vs[0], files, AsWritten) == Classify(vs[0], files, Corrected);
      if !Classify(vs[0], files, AsWritten).Reject? {
        WalkAgrees(vs[1..], files);
      }
    }
  }
}

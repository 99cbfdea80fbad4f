/** `Include`: the whole rewrite of one parsed file. The parser, the
    formatter run at the end and the reading of include targets are given
    to it: the parse result as `Option<File>` (`None` when the source does
    not parse), the formatter as a function that may fail, and the targets'
    contents as a map from file name to bytes (a missing name cannot be read). */
module Rewriter {
  import opened Bytes
  import opened Outcome
  import opened Ast
  import opened Splicing
  import opened Directive
  import opened Placeholder

  const Header: seq<byte> := Ascii("//Code generated by include. DO NOT EDIT.\n\n")

  /** The parser's guarantee on every initializer's literal argument. */
  predicate Lexed(file: File)
  {
    forall i | 0 <= i < |Initializers(file.decls)| :: WellLexed(Initializers(file.decls)[i])
  }

  /** Every slice Go takes is in bounds: from offset 0 the comment phase's
      spans, and from where it stopped the declaration phase's replacements
      made before any rejection, never move the cursor backwards or past the
      source; on success the final copy `source[last:]` starts within it. */
  predicate InBounds(source: seq<byte>, file: File, tag: seq<byte>, files: map<seq<byte>, seq<byte>>, enc: StringEncoder)
    requires Lexed(file)
  {
    var dirs := Consumed(file.comments, tag);
    var scan := Walk(Initializers(file.decls), files, enc);
    && Chained(|source|, 0, dirs)
    && Chained(|source|, Cursor(0, dirs), scan.edits)
    && (scan.failure.None? ==> 0 <= Cursor(Cursor(0, dirs), scan.edits) <= |source|)
  }

  /** The buffer handed to the formatter: the header, the comment phase's
      copies, the negated-tag lines, the declaration phase's copies and
      replacements, and the rest of the source. */
  function Assemble(source: seq<byte>, tag: seq<byte>, dirs: seq<Edit>, calls: seq<Edit>): (r: seq<byte>)
    requires Chained(|source|, 0, dirs) && Chained(|source|, Cursor(0, dirs), calls)
    requires 0 <= Cursor(Cursor(0, dirs), calls) <= |source|
    ensures |Header| <= |r| && r[..|Header|] == Header
  {
    var a := Splice(source, 0, dirs);
    var b := Splice(source, a.cursor, calls);
    Header + a.out + NegatedLines(tag) + (b.out + source[b.cursor..])
  }

  /** Go's `Include(filename, source, options)`, with `enc == AsWritten`;
      with `enc == Corrected`, the same rewrite using the corrected string
      encoder. */
  function Include(
    source: seq<byte>, options: Options, parsed: Option<File>,
    files: map<seq<byte>, seq<byte>>, enc: StringEncoder, format: seq<byte> -> Option<seq<byte>>): (r: Result<seq<byte>>)
    requires parsed.Some? ==> Lexed(parsed.value) && InBounds(source, parsed.value, Tag(options), files, enc)
    ensures parsed.None? ==> r == Fail(ParseError)
    ensures parsed.Some? ==>
      var scan := Walk(Initializers(parsed.value.decls), files, enc);
      && (scan.failure.Some? ==> r == Fail(scan.failure.value))
      && (scan.failure.None? ==>
            var out := Assemble(source, Tag(options), Consumed(parsed.value.comments, Tag(options)), scan.edits);
            if format(out).None? then r == Fail(FormatError) else r == Ok(format(out).value))
  {
    var tag := Tag(options);
    match parsed
    case None => Fail(ParseError)
    case Some(file) =>
      var scan := Walk(Initializers(file.decls), files, enc);
      match scan.failure
      case Some(err) => Fail(err)
      case None =>
        var out := Assemble(source, tag, Consumed(file.comments, tag), scan.edits);
        match format(out)
        case None => Fail(FormatError)
        case Some(formatted) => Ok(formatted)
  }

  /** Layout of the assembled buffer: after the header come the comment
      phase's output, then the negated-tag lines, then the declaration
      phase's; taking the negated lines out leaves the source with every
      consumed span replaced by its text (nothing for a directive) and every
      other byte copied once, in order. */
  lemma AssembleLayout(source: seq<byte>, tag: seq<byte>, dirs: seq<Edit>, calls: seq<Edit>)
    requires Chained(|source|, 0, dirs) && Chained(|source|, Cursor(0, dirs), calls)
    requires 0 <= Cursor(Cursor(0, dirs), calls) <= |source|
    requires Forward(dirs + calls)
    ensures var p := Splice(source, 0, dirs).out;
      exists q ::
        && Assemble(source, tag, dirs, calls) == Header + p + NegatedLines(tag) + q
        && p + q == Rendered(source, 0, dirs + calls)
  {
    var a := Splice(source, 0, dirs);
    var b := Splice(source, a.cursor, calls);
    var q := b.out + source[b.cursor..];
    TwoPhases(source, dirs, calls);
    assert Assemble(source, tag, dirs, calls) == Header + a.out + NegatedLines(tag) + q;
  }

  /** Without directive comments and placeholder calls the formatter is given
      the header, the negated-tag lines and the untouched source. */
  lemma NoPlaceholderIdentity(
    source: seq<byte>, options: Options, file: File,
    files: map<seq<byte>, seq<byte>>, enc: StringEncoder, format: seq<byte> -> Option<seq<byte>>)
    requires forall c | c in file.comments :: !IsDirective(c.text, Tag(options))
    requires forall e | e in Initializers(file.decls) :: !IsCandidate(e)
    ensures Lexed(file) && InBounds(source, file, Tag(options), files, enc)
    ensures Include(source, options, Some(file), files, enc, format) ==
      match format(Header + NegatedLines(Tag(options)) + source)
      case None => Fail(FormatError)
      case Some(formatted) => Ok(formatted)
  {
    var tag := Tag(options);
    var vs := Initializers(file.decls);
    assert forall i | 0 <= i < |vs| :: vs[i] in vs;
    var scan := Walk(vs, files, enc);
    NoCandidatesNoEdits(vs, files, enc);
    ConsumedNone(file.comments, tag);
    assert Splice(source, 0, []).out == [];
    assert source[0..] == source;
    assert Assemble(source, tag, [], []) == Header + NegatedLines(tag) + source;
  }

  lemma {:induction false} NoCandidatesNoEdits(vs: seq<Expr>, files: map<seq<byte>, seq<byte>>, enc: StringEncoder)
    requires forall i | 0 <= i < |vs| :: !IsCandidate(vs[i])
    ensures forall i | 0 <= i < |vs| :: WellLexed(vs[i])
    ensures Replacements(vs, files, enc) == []
  {
    if vs != [] {
      NoCandidatesNoEdits(vs[1..], files, enc);
    }
  }

  /** The first rejected initializer decides the outcome: whatever the
      comments, the other initializers and the formatter, the rewrite fails
      with that initializer's error and returns no bytes. */
  lemma FirstRejectionWins(
    source: seq<byte>, options: Options, file: File,
    files: map<seq<byte>, seq<byte>>, enc: StringEncoder, format: seq<byte> -> Option<seq<byte>>, i: nat)
    requires Lexed(file) && InBounds(source, file, Tag(options), files, enc)
    requires i < |Initializers(file.decls)|
    requires Classify(Initializers(file.decls)[i], files, enc).Reject?
    requires forall j | 0 <= j < i :: !Classify(Initializers(file.decls)[j], files, enc).Reject?
    ensures Include(source, options, Some(file), files, enc, format) ==
      Fail(Classify(Initializers(file.decls)[i], files, enc).error)
  {
    var vs := Initializers(file.decls);
    var k := FirstRejection(vs, files, enc).value;
    assert k == i;
  }

  /** `var x = include.Foo("x.txt")` fails with an unsupported-function error
      naming `Foo`. */
  lemma RejectedUnknownFunction(
    source: seq<byte>, options: Options, pos: int, end: int,
    files: map<seq<byte>, seq<byte>>, enc: StringEncoder, format: seq<byte> -> Option<seq<byte>>)
    ensures
      var foo := Call(pos, end, Selector(Ident(Ascii("include")), Ascii("Foo")), [BasicLit(Ascii("\"x.txt\""))]);
      var file := File([], [GenDecl([ValueSpec([foo])])]);
      Lexed(file) && InBounds(source, file, Tag(options), files, enc) &&
      Include(source, options, Some(file), files, enc, format) == Fail(UnsupportedFunction(Ascii("Foo")))
  {
    var foo := Call(pos, end, Selector(Ident(Ascii("include")), Ascii("Foo")), [BasicLit(Ascii("\"x.txt\""))]);
    var file := File([], [GenDecl([ValueSpec([foo])])]);
    assert SpecValues([ValueSpec([foo])]) == [foo];
    assert Initializers(file.decls) == [foo];
    assert Ascii("Foo") != StringSelector && Ascii("Foo") != BytesSelector;
    assert Classify(foo, files, enc) == Reject(UnsupportedFunction(Ascii("Foo")));
  }

  /** `var x = include.String(someVar)` fails with an unsupported-argument
      error naming `String`. */
  lemma RejectedNonLiteralArgument(
    source: seq<byte>, options: Options, pos: int, end: int,
    files: map<seq<byte>, seq<byte>>, enc: StringEncoder, format: seq<byte> -> Option<seq<byte>>)
    ensures
      var str := Call(pos, end, Selector(Ident(Ascii("include")), Ascii("String")), [Ident(Ascii("someVar"))]);
      var file := File([], [GenDecl([ValueSpec([str])])]);
      Lexed(file) && InBounds(source, file, Tag(options), files, enc) &&
      Include(source, options, Some(file), files, enc, format) == Fail(UnsupportedArgument(Ascii("String")))
  {
    var str := Call(pos, end, Selector(Ident(Ascii("include")), Ascii("String")), [Ident(Ascii("someVar"))]);
    var file := File([], [GenDecl([ValueSpec([str])])]);
    assert SpecValues([ValueSpec([str])]) == [str];
    assert Initializers(file.decls) == [str];
    assert Classify(str, files, enc) == Reject(UnsupportedArgument(Ascii("String")));
  }

  /** The program and the corrected rewrite give the same result on every
      file whose `include.String` targets a raw literal can carry exactly. */
  lemma IncludeAgrees(
    source: seq<byte>, options: Options, file: File,
    files: map<seq<byte>, seq<byte>>, format: seq<byte> -> Option<seq<byte>>)
    requires Lexed(file)
    requires forall e | e in Initializers(file.decls) && IsCandidate(e) && e.fun.sel == StringSelector
      && Filename(e.args[0]).Some? && Filename(e.args[0]).value in files ::
        StringLiteral.RawExact(files[Filename(e.args[0]).value])
    requires InBounds(source, file, Tag(options), files, AsWritten)
    ensures InBounds(source, file, Tag(options), files, Corrected)
    ensures Include(source, options, Some(file), files, AsWritten, format) ==
      Include(source, options, Some(file), files, Corrected, format)
  {
    var vs := Initializers(file.decls);
    forall i | 0 <= i < |vs|
      ensures Classify(vs[i], files, AsWritten) == Classify(vs[i], files, Corrected)
    {
      assert vs[i] in vs;
      ClassifyAgrees(vs[i], files);
    }
    WalkAgrees(vs, files);
  }
}

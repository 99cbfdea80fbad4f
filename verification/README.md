# go-include rewriting engine, in Dafny

`go-include` turns a Go source file that uses placeholder calls such as
`var page = include.String("index.html")` into generated code in which each
call is replaced by the content of the named file:
- `include.String` writes a raw string literal;
- `include.Bytes` writes a `[]byte{...}` composite literal.

The rewrite also does these things:
- drops the build-tag directives that kept the original file out of normal
  builds;
- writes negated `//go:build !tag` / `// +build !tag` lines in their place;
- puts a "generated" header on top;
- hands the result to the import formatter.

This project models that engine, `Include` in `internal/include/include.go`,
as pure functions over bytes, and proves properties of it.

Modules, in dependency order:

- `Bytes`: the byte type, ASCII constants, substring search and counting.
- `Outcome`: `Option`/`Result` and the error kinds. The error kinds are
  parse, read, unsupported argument, unsupported function and format.
- `SourceText`: which bytes Go's scanner accepts inside a literal. The Go
  language specification ("Source code representation") requires well-formed
  UTF-8, forbids NUL, and allows a byte order mark only as a file's first
  character.
- `Decimal`: `strconv.Itoa` on naturals, and the digit reading that inverts it.
- `BytesLiteral`: the `include.Bytes` encoder (`fileContentAsBytes`).
  - A decoder of its output.
  - The builder loop as a method.
  - The line-break cadence.
- `StringLiteral`: the `include.String` encoder (`fileContentAsString`).
  - Its inverse.
  - The value Go gives a raw string literal.
  - A corrected encoder (see Findings), and the value Go gives the
    expression it writes.
  - `Placeholder.StringEncoder` chooses between the program's encoder
    (`AsWritten`) and the corrected one (`Corrected`).
- `QuotedLiteral`: Go interpreted string literals (`"…"`). The corrected
  encoder's `\x` quoting, and the value Go gives such a literal, read by the
  escape rules of the Go language specification ("String literals", "Rune
  literals").
- `Ast`: the parts of a parsed file the engine reads. These are comments with
  positions, and the initializers of top-level `var`/`const` specs.
- `Splicing`: the single forward cursor `lastWriteOffset`. It copies
  `source[last : pos-1]`, writes a replacement and jumps to `end`. The cursor
  is checked against a cursor-free reference, `Rendered`. `Rendered` reads the
  source byte by byte and writes an edit's text wherever an edit starts.
- `Directive`: the default build tag and the three-substring test that marks a
  comment as a directive. Also the negated-tag lines and the comment phase's
  edits.
- `Placeholder`: recognition and classification of `include.X("file")`
  initializers. Also the first-rejection-wins walk of the declaration phase.
- `Rewriter`: `Include` itself.
  - The buffer is laid out as header, comment phase, negated lines,
    declaration phase, remainder.
  - The result is then given to the formatter.

The parser, the formatter and file reading are inputs:
- The parse result is an `Option<File>`; `None` means a parse error.
- The formatter is a function `seq<byte> -> Option<seq<byte>>`.
- The include targets are a map from file name to content; a missing name
  cannot be read.

Positions follow `go/token` for a file added to a fresh file set, whose base
is 1. So `pos - 1` is a node's first byte. Used as an offset, `end` is one past
the byte after the node. The byte right after every consumed comment or call is
therefore consumed as well, exactly as the Go code does.

The negated-tag lines are written right after the last consumed directive
comment, or at the very top of the file when there is none, as
`Rewriter.AssembleLayout` states.

## Model

| member | source | states |
|---|---|---|
| Decimal.Itoa | internal/include/include.go:195 | the digits written for a byte are all ASCII digits, read back as the byte's value, have no leading zero, and number at most three |
| BytesLiteral.Encode | internal/include/include.go:191-204 | the bytes literal starts with `[]byte{` and a newline and ends with a newline, `}` and a newline; an empty file gives exactly `[]byte{\n\n}\n` |
| BytesLiteral.Build | internal/include/include.go:191-204 | the builder loop, byte by byte, writes the same text as the token-list definition of the literal |
| BytesLiteral.RoundTrip | internal/include/include.go:192-202 | decoding the literal (comma-terminated decimal elements, each below 256, newlines skipped, between the fixed prefix and suffix) gives back exactly the input bytes, one element per byte, in order |
| BytesLiteral.BodyBreaks | internal/include/include.go:194-200 | an n-byte input gets exactly (n-1)/20 inserted line breaks (none for the empty input) |
| BytesLiteral.BreakFollows | internal/include/include.go:196-199 | the comma of the element at raw index i is followed by a line break if and only if i > 0 and i is a multiple of 20 |
| BytesLiteral.EncodeIsAscii | internal/include/include.go:191-204 | the bytes literal is plain ASCII without NUL whatever the content, so Go's scanner accepts every byte of it |
| BytesLiteral.FortyFiveBytes | internal/include/include.go:197-199 | a 45-byte input gets exactly two line breaks (after indices 20 and 40) |
| StringLiteral.Escape | internal/include/include.go:182 | replacing every backtick by backslash-backtick lengthens the content by its number of backticks, leaves backtick-free content unchanged, and leaves no backtick without a backslash before it |
| StringLiteral.UnescapeEscape | internal/include/include.go:182 | deleting the backslash inserted before each backtick recovers the content |
| StringLiteral.Encode | internal/include/include.go:182 | the string literal is the escaped content between two backticks: length n + 2 + number of backticks, verbatim content when it has no backtick, and the content is recovered from its inside |
| StringLiteral.EncodeAsRawLiteral | internal/include/include.go:182 | the encoder's text is one raw string literal Go's scanner accepts if and only if the content has no backtick and is valid source text (well-formed UTF-8, no NUL, no byte order mark); it denotes the content if and only if, in addition, the content has no carriage return |
| StringLiteral.AsWrittenCounterexamples | internal/include/include.go:182 | a lone backtick is written as a literal Go closes early, and a lone carriage return as a literal whose value is empty |
| StringLiteral.ScannerRejectsAsWritten | internal/include/include.go:182 | a lone NUL, a lone byte 0xFF and a lone byte order mark are written verbatim between backticks, and Go's scanner rejects each of those literals |
| StringLiteral.SafeEncode | internal/include/include.go:182 | the corrected encoder always writes a single Go string literal (a constant, so valid in a `const` as well as a `var`) whose value is the content; it equals the original encoder's output if and only if the content has no backtick, no carriage return, no NUL, no byte order mark and is well-formed UTF-8, and otherwise it is one line of printable ASCII |
| QuotedLiteral.RoundTrip | internal/include/include.go:182 | the interpreted literal the corrected encoder falls back to is read by Go's escape rules as exactly the content, for every content |
| QuotedLiteral.UnquoteExamples | internal/include/include.go:182 | the reading of interpreted literals follows Go: `\x00`, octal `\101` and `\n` escapes and a UTF-8 character are read as their bytes; an unescaped line break, `\'`, an octal escape above 255 and an unfinished `\x` escape are rejected |
| Directive.Tag | internal/include/include.go:44-46 | the tag in effect is never empty: the configured tag, or `include` when it is unset |
| Directive.GoBuildLineMatches | internal/include/include.go:74-83 | the written `//go:build !tag` line contains `go:build tag` if and only if the tag is all `!` (empty included), and never contains `+build tag` |
| Directive.PlusBuildLineMatches | internal/include/include.go:74-84 | the written `// +build !tag` line contains `+build tag` if and only if the tag is all `!`, and never contains `go:build tag` |
| Directive.NegatedLinesInert | internal/include/include.go:74-84 | for any tag that is not all `!`, neither negated line mentions the tag's own directives |
| Directive.DefaultNegatedLinesAreNotDirectives | internal/include/include.go:74-84 | with the default tag neither negated line would be consumed as a directive |
| Directive.Consumed | internal/include/include.go:72-81 | the comment phase makes at most one edit per comment, and writes nothing in place of any of them |
| Directive.ConsumedExactly | internal/include/include.go:72-79 | the consumed spans are exactly those of the comments mentioning `go:build tag`, `+build tag` or `go:generate include` |
| Directive.ConsumedNone | internal/include/include.go:72-79 | a file without such comments goes through the comment phase with no edit |
| Placeholder.Initializers | internal/include/include.go:86-97 | the examined initializers are exactly the values of the `ValueSpec`s of top-level general declarations; function declarations and other specs contribute none |
| Placeholder.SpecValues | internal/include/include.go:91-97 | the values gathered from a declaration's specs are exactly those of its value specs |
| Placeholder.InitializersAppend | internal/include/include.go:86-97 | declarations are visited in source order: the initializers of two declaration lists back to back are those of the first followed by those of the second |
| Placeholder.InitializersOne | internal/include/include.go:86-91 | a general declaration contributes exactly the values of its specs, and a function declaration contributes nothing |
| Placeholder.SpecValuesAppend | internal/include/include.go:91-97 | specs are visited in source order: the values of two spec lists back to back are those of the first followed by those of the second |
| Placeholder.SpecValuesOne | internal/include/include.go:91-97 | a value spec contributes all its values, in order and with repeats, and any other spec contributes nothing |
| Placeholder.Filename | internal/include/include.go:122-131 | a file name is found if and only if the argument is a basic literal of length at least 2 that starts and ends with a double quote; it is the text between them, not unescaped |
| Placeholder.Classify | internal/include/include.go:97-150 | an initializer is passed over if and only if it is not `include.<Sel>(<one argument>)`. For such a call the argument is checked before the selector: a bad argument gives unsupported-argument, then an unknown selector gives unsupported-function, then a missing file gives a read error naming it. Otherwise the call's span is replaced by the chosen String encoding or by the Bytes encoding of the file |
| Placeholder.ReplacementDenotes | internal/include/include.go:133-153 | a replacement names a readable file; the Bytes text decodes to its content, the corrected String text is one Go string literal whose value is its content, and the program's String text denotes its content if and only if a raw literal can carry that content exactly |
| Placeholder.ClassifyAgrees | internal/include/include.go:133-150 | on any initializer other than an `include.String` call whose readable target a raw literal cannot carry exactly, the program's encoder and the corrected one give the same verdict |
| Placeholder.WalkAgrees | internal/include/include.go:86-157 | when the two encoders agree on every initializer, the declaration phase gives the same edits and the same failure with either |
| Placeholder.FirstRejection | internal/include/include.go:97-150 | the index found is the least rejected initializer, and none is found if and only if no initializer is rejected |
| Placeholder.Walk | internal/include/include.go:86-157 | the declaration phase returns every accepted placeholder's replacement in order when nothing is rejected; otherwise it returns the first rejection's error together with only the replacements made before it |
| Splicing.Splice | internal/include/include.go:77-78 | after the edits the cursor stands at the end of the last one, or where it started if there were none |
| Splicing.SpliceAppend | internal/include/include.go:72-157 | running the cursor over two edit lists back to back is running it over the first and then, from where it stopped, over the second |
| Splicing.SpliceIsRendered | internal/include/include.go:152-166 | the cursor's output followed by the uncopied remainder is the source with every span [pos-1, end) replaced by its text and every other byte copied once, in order |
| Splicing.TwoPhases | internal/include/include.go:58-166 | the comment phase and the declaration phase sharing one cursor, plus the remainder, render the concatenated edit list |
| Rewriter.Assemble | internal/include/include.go:50 | the buffer given to the formatter starts with the `Code generated by include. DO NOT EDIT.` header and a blank line |
| Rewriter.Include | internal/include/include.go:43-174 | with the program's encoder: a parse error, the first rejection's error or a formatter failure is returned with no output; otherwise the output is the formatter's result on the assembled buffer |
| Rewriter.IncludeAgrees | internal/include/include.go:43-182 | when the content of every readable `include.String` target is carried exactly by a raw literal, the corrected rewrite returns exactly what the program returns, and is defined wherever the program's is |
| Rewriter.AssembleLayout | internal/include/include.go:77-166 | after the header come the comment phase's output, then the negated lines, then the rest; without the negated lines that is the source with directives removed and placeholders replaced, nothing else changed |
| Rewriter.NoPlaceholderIdentity | internal/include/include.go:50-173 | with no directive comment and no placeholder call, the formatter gets the header, the negated lines and the source unchanged |
| Rewriter.NoCandidatesNoEdits | internal/include/include.go:97-118 | initializers that are not placeholder calls produce no edits |
| Rewriter.FirstRejectionWins | internal/include/include.go:123-164 | whatever else the file holds, the first rejected initializer's error is the result |
| Rewriter.RejectedUnknownFunction | internal/include/include.go:122-149 | `include.Foo("x.txt")` fails as an unsupported function named `Foo` |
| Rewriter.RejectedNonLiteralArgument | internal/include/include.go:122-124 | `include.String(someVar)` fails as an unsupported argument naming `String` |

## Left out

- Parsing (`parser.ParseFile`) and `ast.Inspect` are not modelled. The parsed file is an input, with its comments flattened out of their comment groups in source order, and its top-level initializers.
- The formatter `imports.Process` is an input function that may fail.
- `IncludeFile`, `readFile`, working-directory joining and `filepath.Abs` are left out. Reading is a lookup in the map of target contents, and a missing name is a read error. `Options.workingDir` is carried but not used.
- The exact text of the `fmt.Errorf` messages is not modelled. Errors are kinds that carry the selector or file name.
- `cmd/go-include/main.go` (command-line flags, exit codes, output files), the no-op stub package `include.go` and `example/main.go` are not part of this model.
- Placeholder.Filename: assumes what Go's lexer guarantees of a basic literal, namely that it is not empty and not a lone `"`. The code would panic on such a literal, and no parsed file contains one.
- Rewriter.Include: assumes the cursor never moves backwards or past the source. Go slicing panics in that case, so the panic path is not modelled. The assumption covers exactly the slices Go takes: the directive spans, then the replacements made before any rejection, and the final remainder only on success.
- Go's scanner (`go/scanner`) is not part of this model. `SourceText.Lexable` and `QuotedLiteral.Unquote` state only the rules it applies inside a string literal.
- QuotedLiteral.Unquote: does not read the `\u` and `\U` escapes and returns `None` for them, although Go accepts them. The corrected encoder never writes them, so every value the model gives a literal is the value Go gives it.
- Decimal.Itoa: models `strconv.Itoa` on non-negative values only, which are all the encoder passes it.

## Findings

| source | as written | input that shows it | evidently intended | confidence | as-written member | corrected member |
|---|---|---|---|---|---|---|
| internal/include/include.go:182 | the content is put between backticks, with each backtick replaced by backslash-backtick | content holding a backtick: a backslash has no meaning in a Go raw string, so the literal ends at the escaped backtick and the generated file no longer denotes the content (or does not compile). Content holding a carriage return: Go drops it from a raw string's value. Content holding a NUL byte, an invalid UTF-8 byte such as 0xFF, or a byte order mark: Go's scanner rejects the literal, so the generated file does not parse | a Go expression whose string value is the file's content | high, by the Go language definition of raw string literals and source text; not executed | StringLiteral.EncodeAsRawLiteral, StringLiteral.ScannerRejectsAsWritten | StringLiteral.SafeEncode |

`StringLiteral.AsWrittenCounterexamples` and
`StringLiteral.ScannerRejectsAsWritten` give the concrete inputs: a lone
backtick, a lone carriage return, a lone NUL, the byte 0xFF and a byte order
mark. In the last three cases the generated file does not parse, so the
formatter fails. `SafeEncode` keeps the raw literal whenever that is exact.
Otherwise it writes an interpreted literal `"…"`: printable ASCII other than
`"` and `\` as itself, every other byte as `\x` and two hexadecimal digits.
That is one token, a constant and one line, and its value is proved equal
to the content. `Rewriter.Include` with
`Corrected` uses `SafeEncode`; with `AsWritten` it is the program.
`Rewriter.IncludeAgrees` proves the two give the same result whenever every
`include.String` target is carried exactly by a raw literal.

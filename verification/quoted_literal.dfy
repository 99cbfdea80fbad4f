/** Go interpreted string literals: `"` … `"`, where a backslash starts an
    escape. Used by the corrected `include.String` encoder, which writes one
    whenever a raw string literal cannot carry the content. An interpreted
    string literal is a single token and a constant, so it may stand in any
    `var` or `const` initializer. */
module QuotedLiteral {
  import opened Bytes
  import opened Outcome
  import opened SourceText

  const LowerX: byte := 120

  predicate IsHex(b: byte)
  {
    48 <= b <= 57 || 97 <= b <= 102 || 65 <= b <= 70
  }

  /** The value of a hexadecimal digit, in either case. */
  function HexValue(b: byte): (v: nat)
    requires IsHex(b)
    ensures v < 16
  {
    if b <= 57 then b - 48 else if b >= 97 then b - 87 else b - 55
  }

  /** The lower-case hexadecimal digit for `n`. */
  function HexDigit(n: nat): (d: byte)
    requires n < 16
    ensures IsHex(d) && HexValue(d) == n
  {
    if n < 10 then 48 + n else 87 + n
  }

  predicate IsOctal(b: byte)
  {
    48 <= b <= 55
  }

  function OctalValue(a: byte, b: byte, c: byte): (v: nat)
    requires IsOctal(a) && IsOctal(b) && IsOctal(c)
    ensures v < 512
  {
    64 * (a as int - 48) + 8 * (b as int - 48) + (c as int - 48)
  }

  /** The byte denoted by a one-character escape in a string literal:
      `\a \b \f \n \r \t \v \\ \"`. `\'` is not allowed in a string. */
  function SimpleEscape(e: byte): Option<byte>
  {
    if e == 97 then Some(7)
    else if e == 98 then Some(8)
    else if e == 102 then Some(12)
    else if e == 110 then Some(Newline)
    else if e == 114 then Some(CarriageReturn)
    else if e == 116 then Some(9)
    else if e == 118 then Some(11)
    else if e == Backslash then Some(Backslash)
    else if e == Quote then Some(Quote)
    else None
  }

  function Prepended(p: seq<byte>, rest: Option<seq<byte>>): Option<seq<byte>>
  {
    match rest
    case None => None
    case Some(v) => Some(p + v)
  }

  /** The bytes denoted by the inside of an interpreted string literal, read
      as Go's scanner and `strconv.Unquote` read it:
      - `\x` and exactly two hexadecimal digits denote one byte;
      - `\` and exactly three octal digits denote one byte, at most 255;
      - a one-character escape denotes its byte;
      - any other character stands for its own UTF-8 bytes, but an
        unescaped `"` would end the literal, a line break ends it unfinished,
        and NUL, ill-formed UTF-8 and the byte order mark are scanner errors.
      `None` for anything Go rejects, and for the `\u`/`\U` escapes, which
      this decoder does not read. */
  function Unquote(s: seq<byte>): Option<seq<byte>>
    decreases |s|
  {
    if s == [] then Some([])
    else if s[0] == Backslash then
      if |s| < 2 then None
      else if s[1] == LowerX then
        if |s| >= 4 && IsHex(s[2]) && IsHex(s[3])
        then Prepended([16 * HexValue(s[2]) + HexValue(s[3])], Unquote(s[4..]))
        else None
      else if IsOctal(s[1]) then
        if |s| >= 4 && IsOctal(s[2]) && IsOctal(s[3])
           && OctalValue(s[1], s[2], s[3]) < 256
        then Prepended([OctalValue(s[1], s[2], s[3])], Unquote(s[4..]))
        else None
      else match SimpleEscape(s[1])
        case Some(b) => Prepended([b], Unquote(s[2..]))
        case None => None
    else if s[0] == Quote || s[0] == Newline then None
    else
      var w := RuneWidth(s);
      if w > 0 && s[0] != Nul && s[..w] != ByteOrderMark
      then Prepended(s[..w], Unquote(s[w..]))
      else None
  }

  /** The string value of `lit` read as one Go interpreted string literal;
      `None` when it is not exactly one. The inside cannot hold an unescaped
      `"`, so the closing quote is the first one the scanner meets. */
  function InterpretedValue(lit: seq<byte>): Option<seq<byte>>
  {
    if |lit| >= 2 && lit[0] == Quote && lit[|lit| - 1] == Quote
    then Unquote(lit[1..|lit| - 1])
    else None
  }

  /** Written as itself: printable ASCII other than `"` and `\`. */
  predicate Printable(b: byte)
  {
    0x20 <= b < 0x7F && b != Quote && b != Backslash
  }

  /** The text written for one byte: itself when printable, otherwise `\x`
      and two lower-case hexadecimal digits. */
  function Piece(b: byte): (r: seq<byte>)
    ensures forall i | 0 <= i < |r| :: 0x20 <= r[i] < 0x7F
  {
    if Printable(b) then [b] else [Backslash, LowerX, HexDigit(b / 16), HexDigit(b % 16)]
  }

  function QuoteBody(c: seq<byte>): (r: seq<byte>)
    ensures forall i | 0 <= i < |r| :: 0x20 <= r[i] < 0x7F
    ensures (forall i | 0 <= i < |c| :: Printable(c[i])) ==> r == c
  {
    if c == [] then []
    else
      var p := Piece(c[0]);
      var tail := QuoteBody(c[1..]);
      assert forall i | |p| <= i < |p| + |tail| :: (p + tail)[i] == tail[i - |p|];
      p + tail
  }

  /** The content between double quotes, escaped as above: one line of
      printable ASCII. */
  function Quoted(c: seq<byte>): (r: seq<byte>)
    ensures |r| >= 2 && r[0] == Quote && r[|r| - 1] == Quote
    ensures forall i | 0 <= i < |r| :: 0x20 <= r[i] < 0x7F
    ensures (forall i | 0 <= i < |c| :: Printable(c[i])) ==> r == [Quote] + c + [Quote]
  {
    var body := QuoteBody(c);
    var r := [Quote] + body + [Quote];
    assert forall i | 1 <= i < |r| - 1 :: r[i] == body[i - 1];
    r
  }

  /** Reading one escaped byte back. */
  lemma UnquotePiece(b: byte, t: seq<byte>)
    ensures Unquote(Piece(b) + t) == Prepended([b], Unquote(t))
  {
    var s := Piece(b) + t;
    if Printable(b) {
      assert s[0] == b && s[1..] == t;
      assert RuneWidth(s) == 1;
      assert |s[..1]| != |ByteOrderMark|;
      assert s[..1] == [b];
    } else {
      assert s[0] == Backslash && s[1] == LowerX;
      assert s[2] == HexDigit(b / 16) && s[3] == HexDigit(b % 16);
      assert s[4..] == t;
    }
  }

  /** Unquoting inverts quoting, for every content. */
  lemma {:induction false} UnquoteQuoteBody(c: seq<byte>)
    ensures Unquote(QuoteBody(c)) == Some(c)
    decreases |c|
  {
    if c != [] {
      UnquoteQuoteBody(c[1..]);
      UnquotePiece(c[0], QuoteBody(c[1..]));
      assert [c[0]] + c[1..] == c;
    }
  }

  /** The quoted literal denotes exactly the content. */
  lemma RoundTrip(c: seq<byte>)
    ensures InterpretedValue(Quoted(c)) == Some(c)
  {
    var r := Quoted(c);
    assert r[1..|r| - 1] == QuoteBody(c);
    UnquoteQuoteBody(c);
  }

  /** Go's reading on a few inputs: `"\x00"`, `"\101\n"` and `"é"` denote
      [0], [65, 10] and the two bytes of `é`; an unescaped line break, a
      lone `\'`, an octal escape above 255 and an unfinished `\x4` are
      rejected. */
  lemma UnquoteExamples()
    ensures Unquote([Backslash, LowerX, 48, 48]) == Some([0])
    ensures Unquote([Backslash, 49, 48, 49, Backslash, 110]) == Some([65, Newline])
    ensures Unquote([0xC3, 0xA9]) == Some([0xC3, 0xA9])
    ensures Unquote([65, Newline, 66]) == None
    ensures Unquote([Backslash, 39]) == None
    ensures Unquote([Backslash, 52, 48, 48]) == None
    ensures Unquote([Backslash, LowerX, 52]) == None
  {
    var none: seq<byte> := [];
    var x: seq<byte> := [Backslash, LowerX, 48, 48];
    assert x[4..] == none;
    assert Unquote(x) == Prepended([0], Unquote(none));
    assert [0] + none == [0];

    var n: seq<byte> := [Backslash, 110];
    assert n[2..] == none;
    assert Unquote(n) == Prepended([Newline], Unquote(none));
    assert [Newline] + none == [Newline];
    var o: seq<byte> := [Backslash, 49, 48, 49] + n;
    assert OctalValue(49, 48, 49) == 65;
    assert o[4..] == n;
    assert Unquote(o) == Prepended([65], Unquote(n));
    assert [65] + [Newline] == [65, Newline];
    assert o == [Backslash, 49, 48, 49, Backslash, 110];

    var e: seq<byte> := [0xC3, 0xA9];
    assert RuneWidth(e) == 2;
    assert e[..2] == e && e[2..] == none;
    assert |e[..2]| != |ByteOrderMark|;
    assert e + none == e;

    var l: seq<byte> := [65, Newline, 66];
    assert l[..1] == [65] && l[1..] == [Newline, 66];
    assert |l[..1]| != |ByteOrderMark|;
  }
}

/** The `include.Bytes` encoder: a byte sequence rendered as the text of a
    Go `[]byte{...}` composite literal, one decimal element per byte. */
module BytesLiteral {
  import opened Bytes
  import opened Decimal
  import opened Outcome

  const Open: seq<byte> := Ascii("[]byte{\n")
  const Close: seq<byte> := Ascii("\n}\n")

  /** A line break follows the comma of the element at raw index `i`. */
  predicate BreakAfter(i: nat)
  {
    i > 0 && i % 20 == 0
  }

  /** The text written for byte `b` at index `i`: digits, a comma, and
      the periodic line break. */
  function Token(b: byte, i: nat): seq<byte>
  {
    Itoa(b) + [Comma] + (if BreakAfter(i) then [Newline] else [])
  }

  /** The tokens of `c[lo..hi]`, each numbered by its index in `c`. */
  function Body(c: seq<byte>, lo: nat, hi: nat): seq<byte>
    requires lo <= hi <= |c|
    decreases hi - lo
  {
    if lo == hi then [] else Token(c[lo], lo) + Body(c, lo + 1, hi)
  }

  /** `fileContentAsBytes` applied to the bytes of the include target. */
  function Encode(c: seq<byte>): (r: seq<byte>)
    ensures |Open| + |Close| <= |r|
    ensures r[..|Open|] == Open
    ensures r[|r| - |Close|..] == Close
    ensures c == [] ==> r == Ascii("[]byte{\n\n}\n")
  {
    Open + Body(c, 0, |c|) + Close
  }

  lemma {:induction false} BodySnoc(c: seq<byte>, lo: nat, hi: nat)
    requires lo <= hi < |c|
    ensures Body(c, lo, hi + 1) == Body(c, lo, hi) + Token(c[hi], hi)
    decreases hi - lo
  {
    if lo < hi {
      BodySnoc(c, lo + 1, hi);
      ConcatAssoc(Token(c[lo], lo), Body(c, lo + 1, hi), Token(c[hi], hi));
    }
  }

  /** The literal is plain ASCII text: digits, commas, line breaks and
      the fixed prefix and suffix. */
  lemma EncodeIsAscii(c: seq<byte>)
    ensures PlainAscii(Encode(c))
  {
    BodyIsAscii(c, 0, |c|);
    assert PlainAscii(Open) && PlainAscii(Close);
    PlainAsciiConcat(Open, Body(c, 0, |c|));
    PlainAsciiConcat(Open + Body(c, 0, |c|), Close);
  }

  lemma {:induction false} BodyIsAscii(c: seq<byte>, lo: nat, hi: nat)
    requires lo <= hi <= |c|
    ensures PlainAscii(Body(c, lo, hi))
    decreases hi - lo
  {
    if lo < hi {
      BodyIsAscii(c, lo + 1, hi);
      var d := Itoa(c[lo]);
      assert PlainAscii(d) by {
        forall i | 0 <= i < |d|
          ensures 0 < d[i] < 0x80
        {
          assert IsDigit(d[i]);
        }
      }
      PlainAsciiConcat(d, [Comma]);
      PlainAsciiConcat(d + [Comma], if BreakAfter(lo) then [Newline] else []);
      PlainAsciiConcat(Token(c[lo], lo), Body(c, lo + 1, hi));
    }
  }

  /** The three writes of one loop iteration append exactly one token. */
  lemma BuildStep(c: seq<byte>, i: nat, p: seq<byte>, s: seq<byte>)
    requires i < |c| && p == Open + Body(c, 0, i)
    requires var q := p + Itoa(c[i]) + [Comma]; s == if BreakAfter(i) then q + [Newline] else q
    ensures s == Open + Body(c, 0, i + 1)
  {
    assert s == p + Token(c[i], i);
    BodySnoc(c, 0, i);
    ConcatAssoc(Open, Body(c, 0, i), Token(c[i], i));
  }

  /** The builder loop of `fileContentAsBytes`, byte by byte. */
  method Build(c: seq<byte>) returns (s: seq<byte>)
    ensures s == Encode(c)
  {
    s := Open;
    var i := 0;
    while i < |c|
      invariant 0 <= i <= |c|
      invariant s == Open + Body(c, 0, i)
    {
      ghost var written := s;
      s := s + Itoa(c[i]) + [Comma];
      if i > 0 && i % 20 == 0 {
        s := s + [Newline];
      }
      BuildStep(c, i, written, s);
      i := i + 1;
    }
    s := s + Close;
  }

  // ---------------------------------------------------------------- decoding

  /** Length of the longest run of digits at the front of `s`. */
  function DigitRun(s: seq<byte>): (k: nat)
    ensures k <= |s|
    ensures AllDigits(s[..k])
    ensures k < |s| ==> !IsDigit(s[k])
  {
    if s == [] || !IsDigit(s[0]) then 0
    else
      var k := 1 + DigitRun(s[1..]);
      assert s[..k] == [s[0]] + s[1..][..k - 1];
      k
  }

  /** Reads a literal body as a list of elements: each element is a run of
      digits denoting a value below 256, terminated by a comma; line breaks
      between elements are ignored. `None` for anything else. */
  function DecodeBody(s: seq<byte>): Option<seq<byte>>
    decreases |s|
  {
    if s == [] then Some([])
    else if s[0] == Newline then DecodeBody(s[1..])
    else
      var k := DigitRun(s);
      if k == 0 || k == |s| || s[k] != Comma then None
      else
        var v := ValueOf(s[..k]);
        if v >= 256 then None
        else
          match DecodeBody(s[k + 1..])
          case None => None
          case Some(rest) => Some([v as byte] + rest)
  }

  /** Reads a whole `[]byte{...}` literal as the encoder lays it out. */
  function Decode(lit: seq<byte>): Option<seq<byte>>
  {
    if |lit| >= |Open| + |Close| && lit[..|Open|] == Open && lit[|lit| - |Close|..] == Close
    then DecodeBody(lit[|Open|..|lit| - |Close|])
    else None
  }

  lemma {:induction false} DigitRunAppend(d: seq<byte>, t: seq<byte>)
    requires AllDigits(d)
    ensures DigitRun(d + t) == |d| + DigitRun(t)
  {
    if d != [] {
      assert (d + t)[1..] == d[1..] + t;
      DigitRunAppend(d[1..], t);
    } else {
      assert d + t == t;
    }
  }

  lemma DecodeToken(b: byte, i: nat, rest: seq<byte>)
    ensures DecodeBody(Token(b, i) + rest) ==
      match DecodeBody(rest)
      case None => None
      case Some(tail) => Some([b] + tail)
  {
    var d := Itoa(b);
    var s := Token(b, i) + rest;
    var after := (if BreakAfter(i) then [Newline] else []) + rest;
    assert s == d + ([Comma] + after);
    DigitRunAppend(d, [Comma] + after);
    assert DigitRun(s) == |d|;
    assert s[0] == d[0];
    assert s[..|d|] == d;
    assert s[|d| + 1..] == after;
    if BreakAfter(i) {
      assert after[1..] == rest;
    }
  }

  lemma {:induction false} DecodeBodyOfTokens(c: seq<byte>, lo: nat)
    requires lo <= |c|
    ensures DecodeBody(Body(c, lo, |c|)) == Some(c[lo..])
    decreases |c| - lo
  {
    if lo < |c| {
      var rest := Body(c, lo + 1, |c|);
      assert Body(c, lo, |c|) == Token(c[lo], lo) + rest;
      DecodeBodyOfTokens(c, lo + 1);
      DecodeToken(c[lo], lo, rest);
      SuffixCons(c, lo);
    } else {
      assert Body(c, lo, |c|) == [];
      assert c[lo..] == [];
    }
  }

  /** Round trip: the elements of the encoder's literal are, in order and
      one per byte, exactly the input bytes. */
  lemma RoundTrip(c: seq<byte>)
    ensures Decode(Encode(c)) == Some(c)
  {
    var lit := Encode(c);
    assert lit[|Open|..|lit| - |Close|] == Body(c, 0, |c|);
    DecodeBodyOfTokens(c, 0);
    assert c[0..] == c;
  }

  // -------------------------------------------------------------- cadence

  /** Number of line breaks inserted for an `n`-byte input: one after each
      index 20, 40, 60, ... below `n`. */
  function Breaks(n: nat): nat
  {
    if n == 0 then 0 else (n - 1) / 20
  }

  lemma TokenBreaks(b: byte, i: nat)
    ensures Count(Token(b, i), Newline) == if BreakAfter(i) then 1 else 0
  {
    var d := Itoa(b);
    CountAbsent(d, Newline);
    CountAppend(d, [Comma], Newline);
    CountAppend(d + [Comma], if BreakAfter(i) then [Newline] else [], Newline);
  }

  /** Line-break cadence: the body holds exactly one line break per raw
      index 20, 40, ... of the input, the first element's line taking 21
      elements and every later one 20. */
  lemma {:induction false} BodyBreaks(c: seq<byte>, n: nat)
    requires n <= |c|
    ensures Count(Body(c, 0, n), Newline) == Breaks(n)
  {
    if n > 0 {
      BodyBreaks(c, n - 1);
      BodySnoc(c, 0, n - 1);
      CountAppend(Body(c, 0, n - 1), Token(c[n - 1], n - 1), Newline);
      TokenBreaks(c[n - 1], n - 1);
    }
  }

  /** The comma of the element at raw index `i` is followed by a line break
      exactly when `i > 0` and `i` is a multiple of 20: the text written up
      to and including element `i` ends in a line break just then. */
  lemma BreakFollows(c: seq<byte>, i: nat)
    requires i < |c|
    ensures |Body(c, 0, i + 1)| >= 2
    ensures var b := Body(c, 0, i + 1);
      (b[|b| - 1] == Newline <==> BreakAfter(i)) &&
      (b[|b| - 1] == Newline || b[|b| - 1] == Comma)
  {
    BodySnoc(c, 0, i);
  }

  /** A 45-byte input gets exactly two inserted line breaks, after the
      elements at indices 20 and 40. */
  lemma FortyFiveBytes(c: seq<byte>)
    requires |c| == 45
    ensures Count(Body(c, 0, |c|), Newline) == 2
    ensures LineEndsAfter(c, 20) && LineEndsAfter(c, 40)
  {
    var n := |c|;
    BodyBreaks(c, n);
    assert Breaks(n) == 2;
    LineEnds(c, n - 25);
    LineEnds(c, n - 5);
  }

  /** The text written up to and including the element at index `i` ends
      in a line break. */
  predicate LineEndsAfter(c: seq<byte>, i: nat)
    requires i < |c|
  {
    var b := Body(c, 0, i + 1);
    |b| > 0 && b[|b| - 1] == Newline
  }

  lemma LineEnds(c: seq<byte>, i: nat)
    requires i < |c|
    ensures LineEndsAfter(c, i) <==> BreakAfter(i)
  {
    BreakFollows(c, i);
  }
}

/** The `include.String` encoder: the target's bytes between backticks, each
    backtick of the content preceded by a backslash. Also the value Go gives a
    raw string literal, to measure the encoder against. */
module StringLiteral {
  import opened Bytes
  import opened Outcome
  import opened SourceText
  import opened QuotedLiteral

  /** `strings.ReplaceAll(content, "`", "\\`")`. */
  function Escape(c: seq<byte>): (r: seq<byte>)
    ensures |r| == |c| + Count(c, Backtick)
    ensures Backtick !in c ==> r == c
    ensures |r| > 0 ==> r[0] != Backtick
    ensures forall i | 0 <= i < |r| && r[i] == Backtick :: i > 0 && r[i - 1] == Backslash
  {
    if c == [] then []
    else
      var tail := Escape(c[1..]);
      if c[0] == Backtick then
        assert forall i | 2 <= i < 2 + |tail| :: ([Backslash, Backtick] + tail)[i] == tail[i - 2];
        [Backslash, Backtick] + tail
      else
        assert forall i | 1 <= i < 1 + |tail| :: ([c[0]] + tail)[i] == tail[i - 1];
        assert Backtick !in c ==> Backtick !in c[1..] by {
          assert forall y | y in c[1..] :: y in c;
        }
        [c[0]] + tail
  }

  /** Deletes the backslash standing before each backtick. */
  function Unescape(s: seq<byte>): (r: seq<byte>)
    decreases |s|
  {
    if |s| >= 2 && s[0] == Backslash && s[1] == Backtick then [Backtick] + Unescape(s[2..])
    else if s == [] then []
    else [s[0]] + Unescape(s[1..])
  }

  lemma {:induction false} UnescapeEscape(c: seq<byte>)
    ensures Unescape(Escape(c)) == c
  {
    if c != [] {
      var tail := Escape(c[1..]);
      UnescapeEscape(c[1..]);
      if c[0] == Backtick {
        assert Escape(c) == [Backslash, Backtick] + tail;
        assert (Escape(c))[2..] == tail;
      } else {
        assert Escape(c) == [c[0]] + tail;
        assert (Escape(c))[1..] == tail;
      }
    }
  }

  /** `fileContentAsString` applied to the bytes of the include target. */
  function Encode(c: seq<byte>): (r: seq<byte>)
    ensures |r| == |c| + 2 + Count(c, Backtick)
    ensures r[0] == Backtick && r[|r| - 1] == Backtick
    ensures Backtick !in c ==> r == [Backtick] + c + [Backtick]
    ensures Unescape(r[1..|r| - 1]) == c
  {
    UnescapeEscape(c);
    var r := [Backtick] + Escape(c) + [Backtick];
    assert r[1..|r| - 1] == Escape(c);
    r
  }

  // ------------------------------------------------ Go raw string literals

  /** `s` with its carriage returns removed. */
  function DropCarriageReturns(s: seq<byte>): (r: seq<byte>)
    ensures |r| == |s| - Count(s, CarriageReturn)
    ensures CarriageReturn !in s ==> r == s
  {
    if s == [] then []
    else
      assert CarriageReturn !in s ==> CarriageReturn !in s[1..] by {
        assert forall y | y in s[1..] :: y in s;
      }
      (if s[0] == CarriageReturn then [] else [s[0]]) + DropCarriageReturns(s[1..])
  }

  /** The string value of `lit` read as one Go raw string literal past the
      start of a file: a backtick, any characters other than a backtick
      (backslash has no special meaning), and a closing backtick; carriage
      returns are discarded from the value. `None` when `lit` is not a single
      raw string literal, or when Go's scanner rejects a character in it
      (NUL, ill-formed UTF-8, the byte order mark). */
  function RawValue(lit: seq<byte>): Option<seq<byte>>
  {
    if |lit| >= 2 && lit[0] == Backtick && lit[|lit| - 1] == Backtick
       && Backtick !in lit[1..|lit| - 1] && Lexable(lit[1..|lit| - 1])
    then Some(DropCarriageReturns(lit[1..|lit| - 1]))
    else None
  }

  /** The content a raw string literal can carry exactly. */
  predicate RawExact(c: seq<byte>)
  {
    Backtick !in c && CarriageReturn !in c && Lexable(c)
  }

  /** The encoder's output is a single raw string literal Go accepts exactly
      when the content holds no backtick and is lexable, and it then denotes
      the content exactly when the content also holds no carriage return. */
  lemma EncodeAsRawLiteral(c: seq<byte>)
    ensures RawValue(Encode(c)).Some? <==> Backtick !in c && Lexable(c)
    ensures RawValue(Encode(c)) == Some(c) <==> RawExact(c)
  {
    var r := Encode(c);
    var inner := r[1..|r| - 1];
    assert inner == Escape(c);
    if Backtick in c {
      var i :| 0 <= i < |c| && c[i] == Backtick;
      EscapeKeepsBacktick(c, i);
      var j :| 0 <= j < |inner| && inner[j] == Backtick;
      assert Backtick in inner;
    } else {
      assert inner == c;
      if CarriageReturn in c {
        CountPresent(c, CarriageReturn);
        assert |DropCarriageReturns(c)| < |c|;
      }
    }
  }

  lemma {:induction false} EscapeKeepsBacktick(c: seq<byte>, i: nat)
    requires i < |c| && c[i] == Backtick
    ensures Backtick in Escape(c)
  {
    if i == 0 {
      assert Escape(c)[1] == Backtick;
    } else {
      EscapeKeepsBacktick(c[1..], i - 1);
      var tail := Escape(c[1..]);
      var j :| 0 <= j < |tail| && tail[j] == Backtick;
      if c[0] == Backtick {
        assert Escape(c)[j + 2] == Backtick;
      } else {
        assert Escape(c)[j + 1] == Backtick;
      }
    }
  }

  lemma {:induction false} CountPresent(s: seq<byte>, x: byte)
    requires x in s
    ensures Count(s, x) > 0
  {
    if s[0] != x {
      assert x in s[1..];
      CountPresent(s[1..], x);
    }
  }

  /** Content holding a backtick is written as a literal that Go's lexer
      closes early, and a lone carriage return as a literal whose value is
      empty. */
  lemma AsWrittenCounterexamples()
    ensures RawValue(Encode([Backtick])) == None
    ensures Encode([Backtick]) == [Backtick, Backslash, Backtick, Backtick]
    ensures RawValue(Encode([CarriageReturn])) == Some([])
  {
    EncodeAsRawLiteral([Backtick]);
    LoneCarriageReturn();
  }

  lemma LoneCarriageReturn()
    ensures RawValue(Encode([CarriageReturn])) == Some([])
  {
    assert Encode([CarriageReturn]) == [Backtick, CarriageReturn, Backtick];
    assert Encode([CarriageReturn])[1..2] == [CarriageReturn];
    assert [CarriageReturn][1..] == [];
    AsciiLexable([CarriageReturn]);
  }

  /** A NUL, a byte that is not UTF-8, or a byte order mark is written
      verbatim into a literal that Go's scanner rejects. */
  lemma ScannerRejectsAsWritten()
    ensures Encode([Nul]) == [Backtick, Nul, Backtick] && RawValue(Encode([Nul])) == None
    ensures Encode([0xFF]) == [Backtick, 0xFF, Backtick] && RawValue(Encode([0xFF])) == None
    ensures Encode(ByteOrderMark) == [Backtick] + ByteOrderMark + [Backtick]
    ensures RawValue(Encode(ByteOrderMark)) == None
  {
    WrittenVerbatimAndRejected([Nul]);
    assert RuneWidth([0xFF]) == 0;
    WrittenVerbatimAndRejected([0xFF]);
    assert ByteOrderMark[..3] == ByteOrderMark;
    WrittenVerbatimAndRejected(ByteOrderMark);
  }

  lemma WrittenVerbatimAndRejected(c: seq<byte>)
    requires Backtick !in c && !Lexable(c)
    ensures Encode(c) == [Backtick] + c + [Backtick] && RawValue(Encode(c)) == None
  {
    EncodeAsRawLiteral(c);
  }

  // ---------------------------------------------------- corrected encoder

  /** The string value of `expr` read as one Go string literal, raw or
      interpreted; `None` for anything else. A string literal is a constant,
      so it may initialize a `const` as well as a `var`. */
  function StringValue(expr: seq<byte>): Option<seq<byte>>
  {
    if |expr| > 0 && expr[0] == Quote then InterpretedValue(expr) else RawValue(expr)
  }

  /** The raw literal exactly when the content allows one, otherwise an
      interpreted literal: one line of printable ASCII in which every other
      byte is written as a `\x` escape. */
  function SafeEncode(c: seq<byte>): (r: seq<byte>)
    ensures StringValue(r) == Some(c)
    ensures r == Encode(c) <==> RawExact(c)
    ensures !RawExact(c) ==> forall i | 0 <= i < |r| :: 0x20 <= r[i] < 0x7F
  {
    if RawExact(c) then
      EncodeAsRawLiteral(c);
      Encode(c)
    else
      var r := Quoted(c);
      QuotedLiteral.RoundTrip(c);
      r
  }
}

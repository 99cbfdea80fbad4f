/** What Go accepts as source text, character by character: the Go language
    specification ("Source code representation") reads source as UTF-8,
    forbids the NUL character, and ignores a byte order mark only as the
    very first character of a file. Go's scanner reports each of these as an
    error, and a file with such an error does not parse. */
module SourceText {
  import opened Bytes

  const Nul: byte := 0

  /** U+FEFF, the byte order mark, encoded in UTF-8. */
  const ByteOrderMark: seq<byte> := [0xEF, 0xBB, 0xBF]

  predicate IsContinuation(b: byte)
  {
    0x80 <= b <= 0xBF
  }

  /** The length of the well-formed UTF-8 sequence at the front of `s`, as
      in table 3-7 of the Unicode standard (no overlong forms, no
      surrogates, nothing above U+10FFFF); 0 when it is ill-formed, where
      Go's decoder returns the error rune with width 1. */
  function RuneWidth(s: seq<byte>): (w: nat)
    requires |s| > 0
    ensures w <= |s| && w <= 4
    ensures w == 1 <==> s[0] < 0x80
  {
    var b := s[0];
    if b < 0x80 then 1
    else if 0xC2 <= b <= 0xDF then
      if |s| >= 2 && IsContinuation(s[1]) then 2 else 0
    else if 0xE0 <= b <= 0xEF then
      var lo := if b == 0xE0 then 0xA0 else 0x80;
      var hi := if b == 0xED then 0x9F else 0xBF;
      if |s| >= 3 && lo <= s[1] <= hi && IsContinuation(s[2]) then 3 else 0
    else if 0xF0 <= b <= 0xF4 then
      var lo := if b == 0xF0 then 0x90 else 0x80;
      var hi := if b == 0xF4 then 0x8F else 0xBF;
      if |s| >= 4 && lo <= s[1] <= hi && IsContinuation(s[2]) && IsContinuation(s[3]) then 4 else 0
    else 0
  }

  /** `s`, read character by character past the start of a file, draws no
      scanner error: every character is well-formed UTF-8, none is NUL, and
      none is the byte order mark. */
  predicate Lexable(s: seq<byte>)
    decreases |s|
  {
    s == [] ||
      var w := RuneWidth(s);
      && w > 0
      && s[0] != Nul
      && s[..w] != ByteOrderMark
      && Lexable(s[w..])
  }

  /** ASCII text without NUL is accepted as it stands. */
  lemma {:induction false} AsciiLexable(s: seq<byte>)
    requires PlainAscii(s)
    ensures Lexable(s)
    decreases |s|
  {
    if s != [] {
      assert RuneWidth(s) == 1;
      assert |s[..1]| != |ByteOrderMark|;
      AsciiLexable(s[1..]);
    }
  }

  /** Accepted: `é`, U+FFFD and a four-byte character. Rejected: NUL, the
      byte 0xFF, an overlong NUL, a surrogate, a code point above U+10FFFF,
      a truncated sequence and the byte order mark. */
  lemma LexableExamples()
    ensures Lexable([0xC3, 0xA9])
    ensures Lexable([0xEF, 0xBF, 0xBD])
    ensures Lexable([0xF0, 0x9F, 0x98, 0x80])
    ensures !Lexable([Nul])
    ensures !Lexable([0xFF])
    ensures !Lexable([0xC0, 0x80])
    ensures !Lexable([0xED, 0xA0, 0x80])
    ensures !Lexable([0xF4, 0x90, 0x80, 0x80])
    ensures !Lexable([0xC3])
    ensures !Lexable(ByteOrderMark)
  {
    var e: seq<byte> := [0xC3, 0xA9];
    assert e[2..] == [];
    var r: seq<byte> := [0xEF, 0xBF, 0xBD];
    assert r[..3] != ByteOrderMark by { assert r[1] != ByteOrderMark[1]; }
    assert r[3..] == [];
    var g: seq<byte> := [0xF0, 0x9F, 0x98, 0x80];
    assert |g[..4]| != |ByteOrderMark|;
    assert g[4..] == [];
    assert ByteOrderMark[..3] == ByteOrderMark;
  }
}

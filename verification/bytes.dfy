/** Byte strings, the unit every part of the rewriter works on: Go source,
    comment text, build tags and include targets are all `[]byte`/`string`,
    and a Go `string` is an immutable byte sequence. */
module Bytes {

  /** One octet. */
  type byte = b: int | 0 <= b < 256

  /** The bytes of an ASCII (or Latin-1) string literal written in Dafny. */
  function Ascii(s: string): (r: seq<byte>)
    requires forall i | 0 <= i < |s| :: s[i] as int < 256
    ensures |r| == |s|
    ensures forall i | 0 <= i < |s| :: r[i] == s[i] as int
  {
    seq(|s|, i requires 0 <= i < |s| => s[i] as int)
  }

  const Newline: byte := 10
  const CarriageReturn: byte := 13
  const Quote: byte := 34
  const Comma: byte := 44
  const Backslash: byte := 92
  const Backtick: byte := 96
  const Bang: byte := 33

  /** `t` occurs in `s` starting at offset `p`. */
  predicate OccursAt(s: seq<byte>, t: seq<byte>, p: int)
  {
    0 <= p && p + |t| <= |s| && s[p..p + |t|] == t
  }

  /** Go's `strings.Contains(s, t)`: some offset of `s` starts a copy of `t`. */
  predicate Contains(s: seq<byte>, t: seq<byte>)
  {
    exists p | 0 <= p <= |s| - |t| :: OccursAt(s, t, p)
  }

  /** Number of occurrences of the byte `x` in `s`. */
  function Count(s: seq<byte>, x: byte): nat
  {
    if s == [] then 0 else (if s[0] == x then 1 else 0) + Count(s[1..], x)
  }

  /** Every byte is an ASCII character other than NUL. */
  predicate PlainAscii(s: seq<byte>)
  {
    forall i | 0 <= i < |s| :: 0 < s[i] < 0x80
  }

  lemma PlainAsciiConcat(a: seq<byte>, b: seq<byte>)
    ensures PlainAscii(a + b) <==> PlainAscii(a) && PlainAscii(b)
  {
    assert forall i | 0 <= i < |a| :: a[i] == (a + b)[i];
    assert forall i | 0 <= i < |b| :: b[i] == (a + b)[|a| + i];
  }

  lemma ConcatAssoc(a: seq<byte>, b: seq<byte>, c: seq<byte>)
    ensures a + (b + c) == (a + b) + c
  {
  }

  lemma SliceCons(s: seq<byte>, i: int, j: int)
    requires 0 <= i < j <= |s|
    ensures s[i..j] == [s[i]] + s[i + 1..j]
  {
  }

  lemma SuffixCons(s: seq<byte>, i: int)
    requires 0 <= i < |s|
    ensures s[i..] == [s[i]] + s[i + 1..]
  {
  }

  lemma {:induction false} CountAppend(a: seq<byte>, b: seq<byte>, x: byte)
    ensures Count(a + b, x) == Count(a, x) + Count(b, x)
  {
    if a == [] {
      assert a + b == b;
    } else {
      assert (a + b)[1..] == a[1..] + b;
      CountAppend(a[1..], b, x);
    }
  }

  lemma {:induction false} CountAbsent(s: seq<byte>, x: byte)
    requires forall i | 0 <= i < |s| :: s[i] != x
    ensures Count(s, x) == 0
  {
    if s != [] {
      assert s[0] != x;
      CountAbsent(s[1..], x);
    }
  }
}

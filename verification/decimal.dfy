/** `strconv.Itoa` on the non-negative integers the bytes encoder feeds it,
    and the digit-string reading that inverts it. */
module Decimal {
  import opened Bytes

  predicate IsDigit(b: byte)
  {
    48 <= b <= 57
  }

  predicate AllDigits(d: seq<byte>)
  {
    forall i | 0 <= i < |d| :: IsDigit(d[i])
  }

  /** The number a string of ASCII digits denotes, read most significant first. */
  function ValueOf(d: seq<byte>): nat
    requires AllDigits(d)
  {
    if d == [] then 0 else ValueOf(d[..|d| - 1]) * 10 + (d[|d| - 1] - 48)
  }

  /** Shortest decimal spelling of `n`, as `strconv.Itoa(int(n))` writes it. */
  function Itoa(n: nat): (r: seq<byte>)
    ensures AllDigits(r)
    ensures ValueOf(r) == n
    ensures 1 <= |r|
    ensures |r| > 1 ==> r[0] != 48
    ensures n < 10 ==> |r| == 1
    ensures n < 100 ==> |r| <= 2
    ensures n < 256 ==> |r| <= 3
  {
    if n < 10 then [48 + n]
    else
      var hi := Itoa(n / 10);
      var r := hi + [48 + n % 10];
      assert r[..|r| - 1] == hi;
      r
  }
}

/** Bytes, their sums, and little-endian words, as the firmware stores them. */
module Bytes {

  type byte = x: int | 0 <= x < 256

  const TWO32: int := 0x1_0000_0000

  /** Truncation to an unsigned 32-bit word. */
  function Mod32(x: int): (r: nat)
    ensures r < TWO32
  {
    x % 0x1_0000_0000
  }

  lemma Mod32Add(a: int, b: int)
    ensures Mod32(Mod32(a) + b) == Mod32(a + b)
    ensures 0 <= a < TWO32 ==> Mod32(a) == a
  {
  }

  /** The plain sum of the bytes, before any truncation. */
  function Sum(s: seq<byte>): nat {
    if |s| == 0 then 0 else Sum(s[..|s| - 1]) + s[|s| - 1]
  }

  lemma {:induction false} SumConcat(a: seq<byte>, b: seq<byte>)
    ensures Sum(a + b) == Sum(a) + Sum(b)
  {
    if |b| == 0 {
      assert a + b == a;
    } else {
      assert (a + b)[..|a + b| - 1] == a + b[..|b| - 1];
      SumConcat(a, b[..|b| - 1]);
    }
  }

  lemma {:induction false} SumBound(s: seq<byte>)
    ensures Sum(s) <= 255 * |s|
  {
    if |s| > 0 {
      SumBound(s[..|s| - 1]);
    }
  }

  lemma Assoc<T>(a: seq<T>, b: seq<T>, c: seq<T>)
    ensures a + (b + c) == (a + b) + c
  {
  }

  /** The value of a byte sequence, least significant byte first. */
  function Le(s: seq<byte>): (v: nat) {
    if |s| == 0 then 0 else s[0] + 256 * Le(s[1..])
  }

  /** The four bytes of a 32-bit word, least significant byte first. */
  function ToLe32(v: nat): (s: seq<byte>)
    requires v < TWO32
    ensures |s| == 4
  {
    [v % 256, v / 256 % 256, v / 65536 % 256, v / 16777216]
  }

  lemma Le3(s: seq<byte>)
    requires |s| == 3
    ensures Le(s) == s[0] as int + 256 * (s[1] as int) + 65536 * (s[2] as int)
  {
    assert s[1..][1..] == s[2..] && s[2..][1..] == [];
    assert Le(s[2..]) == s[2];
    assert Le(s[1..]) == s[1] + 256 * Le(s[2..]);
  }

  lemma Le4(s: seq<byte>)
    requires |s| == 4
    ensures Le(s) == s[0] as int + 256 * (s[1] as int) + 65536 * (s[2] as int) + 16777216 * (s[3] as int)
    ensures Le(s) < TWO32
  {
    assert s[1..][1..] == s[2..] && s[2..][1..] == s[3..] && s[3..][1..] == [];
    assert Le(s[3..]) == s[3];
    assert Le(s[2..]) == s[2] + 256 * Le(s[3..]);
    assert Le(s[1..]) == s[1] + 256 * Le(s[2..]);
  }

  lemma LeToLe32(v: nat)
    requires v < TWO32
    ensures Le(ToLe32(v)) == v
  {
    Le4(ToLe32(v));
    assert v / 65536 == v / 256 / 256 && v / 16777216 == v / 65536 / 256;
  }

  lemma ToLe32Le(s: seq<byte>)
    requires |s| == 4
    ensures Le(s) < TWO32 && ToLe32(Le(s)) == s
  {
    Le4(s);
    FourBytes(s[0], s[1], s[2], s[3]);
  }

  lemma FourBytes(a: int, b: int, c: int, d: int)
    requires 0 <= a < 256 && 0 <= b < 256 && 0 <= c < 256 && 0 <= d < 256
    ensures var v := a + 256 * b + 65536 * c + 16777216 * d;
            v % 256 == a && v / 256 % 256 == b && v / 65536 % 256 == c && v / 16777216 == d
  {
    var v := a + 256 * b + 65536 * c + 16777216 * d;
    var w := b + 256 * c + 65536 * d;
    var x := c + 256 * d;
    assert v == a + 256 * w && v / 256 == w;
    assert v == (a + 256 * b) + 65536 * x && v / 65536 == x;
    assert v == (a + 256 * b + 65536 * c) + 16777216 * d;
  }
}

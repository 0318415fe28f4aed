/** The fixed-point kernel of the SBC codec (lib/bt/inc/sbc.h): a 64-bit accumulator kept as a
    signed high and an unsigned low word, and products in C and in ARM assembler form. */
module Sbc {
  import opened Bytes

  const TWO31: int := 0x8000_0000
  const TWO63: int := 0x8000_0000_0000_0000

  predicate Fits32(x: int) {
    -0x8000_0000 <= x < 0x8000_0000
  }

  predicate Fits64(x: int) {
    -0x8000_0000_0000_0000 <= x < 0x8000_0000_0000_0000
  }

  /** Conversion to a signed 32-bit word. */
  function S32(x: int): (r: int)
    ensures Fits32(r)
  {
    (x + 0x8000_0000) % 0x1_0000_0000 - 0x8000_0000
  }

  /** Wrap-around of signed 64-bit arithmetic. */
  function S64(x: int): (r: int)
    ensures Fits64(r)
  {
    (x + 0x8000_0000_0000_0000) % 0x1_0000_0000_0000_0000 - 0x8000_0000_0000_0000
  }

  lemma S64Add(a: int, b: int)
    ensures S64(S64(a) + b) == S64(a + b)
    ensures Fits64(a) ==> S64(a) == a
  {
  }

  lemma S64Neg(a: int)
    ensures S64(-S64(a)) == S64(-a)
  {
    var k := (a - S64(a)) / 0x1_0000_0000_0000_0000;
    assert S64(a) == a - k * 0x1_0000_0000_0000_0000;
    assert -S64(a) == -a + k * 0x1_0000_0000_0000_0000;
  }

  lemma S32Same(x: int)
    ensures Fits32(x) ==> S32(x) == x
    ensures S32(Mod32(x)) == S32(x)
  {
    var k := x / 0x1_0000_0000;
    assert Mod32(x) == x - k * 0x1_0000_0000;
    assert Mod32(x) + 0x8000_0000 == (x + 0x8000_0000) - k * 0x1_0000_0000;
  }

  // ----- the accumulator

  /** The high word of a 64-bit value (an arithmetic shift) and its low word. */
  lemma SplitJoin(v: int)
    requires Fits64(v)
    ensures Fits32(v / 0x1_0000_0000)
    ensures v / 0x1_0000_0000 * 0x1_0000_0000 + Mod32(v) == v
  {
  }

  datatype Term = Term(x: int, y: int)

  predicate TermOk(t: Term) {
    Fits32(t.x) && Fits32(t.y)
  }

  function Product(t: Term): int {
    t.x * t.y
  }

  /** The exact sum of products. */
  function Dot(ts: seq<Term>): int {
    if ts == [] then 0 else Dot(ts[..|ts| - 1]) + Product(ts[|ts| - 1])
  }

  /** `q` is `v / unit` rounded to the nearest integer, halves upwards. */
  predicate RoundsTo(v: int, q: int, unit: int) {
    -unit <= 2 * (v - q * unit) < unit
  }

  class Accumulator {
    var hi: int
    var lo: int

    predicate Valid()
      reads this
    {
      Fits32(hi) && 0 <= lo < TWO32
    }

    function Value(): (v: int)
      reads this
    {
      hi * 0x1_0000_0000 + lo
    }

    constructor ()
      ensures Valid() && Value() == 0
    {
      hi, lo := 0, 0;
    }

    method Mlo(t: Term)
      requires TermOk(t)
      modifies this
      ensures Valid() && Value() == Product(t)
    {
      ProductFits(t.x, t.y);
      var r64 := t.x * t.y;
      SplitJoin(r64);
      hi := r64 / 0x1_0000_0000;
      lo := Mod32(r64);
    }

    method Mla(t: Term)
      requires TermOk(t) && Valid()
      modifies this
      ensures Valid() && Value() == S64(old(Value()) + Product(t))
    {
      ProductFits(t.x, t.y);
      var r64 := t.x * t.y;
      r64 := S64(r64 + (hi * 0x1_0000_0000 + lo));
      SplitJoin(r64);
      hi := r64 / 0x1_0000_0000;
      lo := Mod32(r64);
    }

    method Mln()
      requires Valid()
      modifies this
      ensures Valid() && Value() == S64(-old(Value()))
    {
      var temp := S64(-(hi * 0x1_0000_0000 + lo));
      SplitJoin(temp);
      hi := temp / 0x1_0000_0000;
      lo := Mod32(temp);
    }

    /** Keeps bits 16 and up, rounded; the result is left in the low word. */
    method Mlz()
      requires Valid()
      modifies this
      ensures Valid() && hi == old(hi)
      ensures forall q | RoundsTo(old(Value()), q, 0x1_0000) :: lo == Mod32(q) && (Fits32(q) ==> S32(lo) == q)
    {
      var o64 := hi * 0x1_0000_0000 + lo;
      lo := Mod32(S64(o64 + 0x8000) / 0x1_0000);
      forall q | RoundsTo(o64, q, 0x1_0000) ensures lo == Mod32(q) && (Fits32(q) ==> S32(lo) == q) {
        Rounded16(o64, q);
      }
    }

    /** Keeps bits 30 and up, rounded; the result is left in the low word. */
    method MlzD()
      requires Valid()
      modifies this
      ensures Valid() && hi == old(hi)
      ensures forall q | RoundsTo(old(Value()), q, 0x4000_0000) :: lo == Mod32(q) && (Fits32(q) ==> S32(lo) == q)
    {
      var o64 := hi * 0x1_0000_0000 + lo;
      lo := Mod32(S64(o64 + 0x2000_0000) / 0x4000_0000);
      forall q | RoundsTo(o64, q, 0x4000_0000) ensures lo == Mod32(q) && (Fits32(q) ==> S32(lo) == q) {
        Rounded30(o64, q);
      }
    }
  }

  lemma ProductFits(x: int, y: int)
    requires Fits32(x) && Fits32(y)
    ensures -0x4000_0000_0000_0000 <= x * y <= 0x4000_0000_0000_0000
  {
    MulBound(x, y, 0x8000_0000, 0x8000_0000);
  }

  lemma MulBound(x: int, y: int, a: int, b: int)
    requires -a <= x <= a && -b <= y <= b
    ensures -(a * b) <= x * y <= a * b
  {
    var p, q := if x < 0 then -x else x, if y < 0 then -y else y;
    MulMono(p, q, a, b);
    if x < 0 && y < 0 { assert x * y == p * q; }
    else if x < 0 { assert x * y == -(p * q); }
    else if y < 0 { assert x * y == -(p * q); }
  }

  lemma MulMono(p: int, q: int, a: int, b: int)
    requires 0 <= p <= a && 0 <= q <= b
    ensures 0 <= p * q <= a * b
  {
    assert p * q <= a * q by { assert (a - p) * q >= 0; }
    assert a * q <= a * b by { assert a * (b - q) >= 0; }
  }

  lemma Rounded16(v: int, q: int)
    requires RoundsTo(v, q, 0x1_0000)
    ensures Mod32(S64(v + 0x8000) / 0x1_0000) == Mod32(q) && (Fits32(q) ==> S32(Mod32(q)) == q)
  {
    assert (v + 0x8000) / 0x1_0000 == q;
    Turns(v + 0x8000);
    S32Same(q);
  }

  lemma Rounded30(v: int, q: int)
    requires RoundsTo(v, q, 0x4000_0000)
    ensures Mod32(S64(v + 0x2000_0000) / 0x4000_0000) == Mod32(q) && (Fits32(q) ==> S32(Mod32(q)) == q)
  {
    assert (v + 0x2000_0000) / 0x4000_0000 == q;
    Turns(v + 0x2000_0000);
    S32Same(q);
  }

  /** A wrap-around of 64 bits does not reach the low words of the shifted values. */
  lemma Turns(x: int)
    ensures Mod32(S64(x) / 0x1_0000) == Mod32(x / 0x1_0000)
    ensures Mod32(S64(x) / 0x4000_0000) == Mod32(x / 0x4000_0000)
  {
    var k := (x + 0x8000_0000_0000_0000) / 0x1_0000_0000_0000_0000;
    var y := S64(x);
    assert y == x - k * 0x1_0000_0000_0000_0000;
    hide S64, Mod32;
    assert y / 0x1_0000 == x / 0x1_0000 - k * 0x1_0000_0000_0000;
    assert y / 0x4000_0000 == x / 0x4000_0000 - k * 0x4_0000_0000;
    SameLowWord(x / 0x1_0000, k * 0x1_0000);
    SameLowWord(x / 0x4000_0000, k * 4);
  }

  lemma SameLowWord(x: int, k: int)
    ensures Mod32(x - k * 0x1_0000_0000) == Mod32(x)
  {
  }

  /** Rounding is unique and always possible. */
  lemma RoundingExists(v: int, unit: int)
    requires unit == 0x1_0000 || unit == 0x4000_0000 || unit == 0x1000_0000
    ensures RoundsTo(v, (v + unit / 2) / unit, unit)
    ensures forall q | RoundsTo(v, q, unit) :: q == (v + unit / 2) / unit
  {
  }

  /** MLO, then MLA for every further term, then MLN if wanted: the accumulator holds the
      exact (negated) sum of products modulo 2^64, hence the sum itself if that fits. */
  method Accumulate(ts: seq<Term>, negate: bool) returns (acc: Accumulator)
    requires |ts| > 0 && forall i | 0 <= i < |ts| :: TermOk(ts[i])
    ensures fresh(acc) && acc.Valid()
    ensures var sum := if negate then -Dot(ts) else Dot(ts);
            acc.Value() == S64(sum) && (Fits64(sum) ==> acc.Value() == sum)
  {
    hide S64, Product;
    acc := new Accumulator();
    acc.Mlo(ts[0]);
    var i := 1;
    FirstTerm(ts);
    while i < |ts|
      invariant 1 <= i <= |ts| && acc.Valid() && fresh(acc)
      invariant acc.Value() == S64(Dot(ts[..i]))
    {
      acc.Mla(ts[i]);
      assert ts[..i + 1][..i] == ts[..i];
      S64Add(Dot(ts[..i]), Product(ts[i]));
      i := i + 1;
    }
    assert ts[..i] == ts;
    S64Add(Dot(ts), 0);
    S64Add(-Dot(ts), 0);
    S64Neg(Dot(ts));
    if negate {
      acc.Mln();
    }
  }

  lemma FirstTerm(ts: seq<Term>)
    requires |ts| > 0 && TermOk(ts[0])
    ensures Dot(ts[..1]) == Product(ts[0]) == S64(Dot(ts[..1]))
  {
    assert ts[..1][..0] == [];
    ProductFits(ts[0].x, ts[0].y);
    S64Add(Product(ts[0]), 0);
  }

  // ----- products

  function Dct1(x: int, y: int): int {
    S32((x * y + 0x2000_0000) / 0x4000_0000)
  }

  function Dct2(x: int, y: int): int {
    S32((x * y + 0x800_0000) / 0x1000_0000)
  }

  function MulQ(x1: int, x2: int, y: int): int {
    S32(S32(x1 + x2) * y / 0x8000_0000)
  }

  /** smull: the two words of a product. */
  function High(p: int): int {
    p / 0x1_0000_0000
  }

  /** smull, then lsr #30 of the low word and lsl #2 of the high word. */
  function Dct1Asm(x: int, y: int): int {
    S32(Mod32(x * y) / 0x4000_0000 + Mod32(4 * High(x * y)))
  }

  function Dct2Asm(x: int, y: int): int {
    S32(Mod32(x * y) / 0x1000_0000 + Mod32(16 * High(x * y)))
  }

  function MulQAsm(x1: int, x2: int, y: int): int {
    var p := S32(x1 + x2) * y;
    S32(Mod32(p) / 0x8000_0000 + Mod32(2 * High(p)))
  }

  /** Joining the shifted words is an arithmetic shift of the whole product. */
  lemma AsmShift(p: int)
    ensures S32(Mod32(p) / 0x4000_0000 + Mod32(4 * High(p))) == S32(p / 0x4000_0000)
    ensures S32(Mod32(p) / 0x1000_0000 + Mod32(16 * High(p))) == S32(p / 0x1000_0000)
    ensures S32(Mod32(p) / 0x8000_0000 + Mod32(2 * High(p))) == S32(p / 0x8000_0000)
  {
    var h, l := High(p), Mod32(p);
    assert p == h * 0x1_0000_0000 + l;
    assert p / 0x4000_0000 == 4 * h + l / 0x4000_0000;
    assert p / 0x1000_0000 == 16 * h + l / 0x1000_0000;
    assert p / 0x8000_0000 == 2 * h + l / 0x8000_0000;
    S32Mod(l / 0x4000_0000, 4 * h);
    S32Mod(l / 0x1000_0000, 16 * h);
    S32Mod(l / 0x8000_0000, 2 * h);
  }

  lemma S32Mod(a: int, b: int)
    ensures S32(a + Mod32(b)) == S32(a + b)
  {
  }

  /** The C form of DCT1 never overflows for factors below 2^30 and errs by at most half. */
  lemma Dct1Exact(x: int, y: int)
    requires Fits32(x) && -0x4000_0000 < y < 0x4000_0000
    ensures RoundsTo(x * y, Dct1(x, y), 0x4000_0000)
    ensures Dct1(x, y) == (x * y + 0x2000_0000) / 0x4000_0000
  {
    MulBound(x, y, 0x8000_0000, 0x3FFF_FFFF);
    RoundingExists(x * y, 0x4000_0000);
    S32Same((x * y + 0x2000_0000) / 0x4000_0000);
  }

  /** So does the C form of DCT2, for factors below 2^28. */
  lemma Dct2Exact(x: int, y: int)
    requires Fits32(x) && -0x1000_0000 < y < 0x1000_0000
    ensures RoundsTo(x * y, Dct2(x, y), 0x1000_0000)
    ensures Dct2(x, y) == (x * y + 0x800_0000) / 0x1000_0000
  {
    MulBound(x, y, 0x8000_0000, 0x0FFF_FFFF);
    RoundingExists(x * y, 0x1000_0000);
    S32Same((x * y + 0x800_0000) / 0x1000_0000);
  }

  /** The C forms round, the assembler forms cut off: they differ by 0 or 1, the difference
      taken modulo 2^32; plainly so whenever both results fit. */
  lemma DctDifference(x: int, y: int)
    requires Fits32(x) && Fits32(y)
    ensures Mod32(Dct1(x, y) - Dct1Asm(x, y)) in {0, 1} && Mod32(Dct2(x, y) - Dct2Asm(x, y)) in {0, 1}
    ensures var p := x * y;
            Fits32(p / 0x4000_0000) && Fits32((p + 0x2000_0000) / 0x4000_0000) ==>
              Dct1(x, y) - Dct1Asm(x, y) == (if p % 0x4000_0000 < 0x2000_0000 then 0 else 1)
    ensures var p := x * y;
            Fits32(p / 0x1000_0000) && Fits32((p + 0x800_0000) / 0x1000_0000) ==>
              Dct2(x, y) - Dct2Asm(x, y) == (if p % 0x1000_0000 < 0x800_0000 then 0 else 1)
  {
    hide High, S32, Mod32;
    var p := x * y;
    AsmShift(p);
    Carry(p);
    StepMod(p / 0x4000_0000, if p % 0x4000_0000 < 0x2000_0000 then 0 else 1);
    StepMod(p / 0x1000_0000, if p % 0x1000_0000 < 0x800_0000 then 0 else 1);
  }

  /** Adding half a unit before the shift carries exactly when the rest is half or more. */
  lemma Carry(p: int)
    ensures (p + 0x2000_0000) / 0x4000_0000 == p / 0x4000_0000 + if p % 0x4000_0000 < 0x2000_0000 then 0 else 1
    ensures (p + 0x800_0000) / 0x1000_0000 == p / 0x1000_0000 + if p % 0x1000_0000 < 0x800_0000 then 0 else 1
  {
  }

  lemma StepMod(a: int, d: int)
    requires d == 0 || d == 1
    ensures Mod32(S32(a + d) - S32(a)) == d
    ensures Fits32(a) && Fits32(a + d) ==> S32(a + d) - S32(a) == d
  {
    var k, l := (a + 0x8000_0000) / 0x1_0000_0000, (a + d + 0x8000_0000) / 0x1_0000_0000;
    assert S32(a) == a - k * 0x1_0000_0000 && S32(a + d) == a + d - l * 0x1_0000_0000;
    assert S32(a + d) - S32(a) == d - (l - k) * 0x1_0000_0000;
    SameLowWord(d, l - k);
    Mod32Add(d, 0);
    S32Same(a);
    S32Same(a + d);
  }

  /** The quantiser product is the same in both forms, for all 32-bit inputs. */
  lemma MulQSame(x1: int, x2: int, y: int)
    ensures MulQ(x1, x2, y) == MulQAsm(x1, x2, y)
  {
    AsmShift(S32(x1 + x2) * y);
  }

  /** `q` is `v / unit` rounded down. */
  predicate FloorOf(v: int, q: int, unit: int) {
    q * unit <= v < (q + 1) * unit
  }

  /** The quantiser product, in both forms: if the sum of the first two factors fits, it is the
      exact product over 2^31, rounded down, for all factors but the one pair of least integers,
      where the result would be 2^31. */
  lemma MulQValue(x1: int, x2: int, y: int)
    requires Fits32(x1 + x2) && Fits32(y)
    ensures FloorOf((x1 + x2) * y, MulQ(x1, x2, y), 0x8000_0000) <==>
            !(x1 + x2 == -0x8000_0000 && y == -0x8000_0000)
    ensures MulQAsm(x1, x2, y) == MulQ(x1, x2, y)
  {
    hide S32;
    var s := x1 + x2;
    MulQSame(x1, x2, y);
    S32Same(s);
    var q := s * y / 0x8000_0000;
    FloorUnique(s * y, q);
    if s == -0x8000_0000 && y == -0x8000_0000 {
      assert q == 0x8000_0000;
      S32Same(q);
      S32Least();
    } else {
      FloorFits(s, y);
      S32Same(q);
    }
  }

  lemma S32Least()
    ensures S32(0x8000_0000) == -0x8000_0000
  {
  }

  lemma FloorUnique(v: int, q: int)
    requires q == v / 0x8000_0000
    ensures forall p | FloorOf(v, p, 0x8000_0000) :: p == q
    ensures FloorOf(v, q, 0x8000_0000)
  {
  }

  lemma FloorFits(s: int, y: int)
    requires Fits32(s) && Fits32(y) && !(s == -0x8000_0000 && y == -0x8000_0000)
    ensures Fits32(s * y / 0x8000_0000)
  {
    if s == -0x8000_0000 {
      assert s * y == -y * 0x8000_0000;
    } else {
      MulBound(s, y, 0x7FFF_FFFF, 0x8000_0000);
      assert -0x7FFF_FFFF * 0x8000_0000 <= s * y <= 0x7FFF_FFFF * 0x8000_0000;
    }
  }

  /** The assembler forms of the two transform products round down wherever the result fits. */
  lemma DctAsmFloors(x: int, y: int)
    ensures Fits32(x * y / 0x4000_0000) ==> FloorOf(x * y, Dct1Asm(x, y), 0x4000_0000)
    ensures Fits32(x * y / 0x1000_0000) ==> FloorOf(x * y, Dct2Asm(x, y), 0x1000_0000)
  {
    hide S32, Mod32, High;
    AsmShift(x * y);
    S32Same(x * y / 0x4000_0000);
    S32Same(x * y / 0x1000_0000);
  }
}

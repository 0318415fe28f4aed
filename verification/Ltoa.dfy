/** Number printing (long_to_string_with_divisor and ch_ltoa, lib/shell/chprintf.c): digits
    are produced backwards at the end of an 11-byte area and then moved to its front. */
module Ltoa {
  import opened Bytes

  const MAX_FILLER: int := 11

  predicate Radix(r: nat) {
    r == 8 || r == 10 || r == 16
  }

  function DigitChar(d: nat): (c: byte)
    requires d < 16
  {
    if d < 10 then 48 + d else 65 + (d - 10)
  }

  function DigitValue(c: byte): (d: int) {
    if 48 <= c <= 57 then c - 48 else if 65 <= c <= 70 then c - 55 else -1
  }

  predicate IsDigit(c: byte, r: nat) {
    0 <= DigitValue(c) < r
  }

  // Arithmetic in the three radices, with constant divisors.

  function Quot(v: nat, r: nat): nat
    requires Radix(r)
  {
    if r == 8 then v / 8 else if r == 10 then v / 10 else v / 16
  }

  function Rem(v: nat, r: nat): (d: nat)
    requires Radix(r)
    ensures d < r
  {
    if r == 8 then v % 8 else if r == 10 then v % 10 else v % 16
  }

  function Times(v: int, r: nat): int
    requires Radix(r)
  {
    if r == 8 then 8 * v else if r == 10 then 10 * v else 16 * v
  }

  lemma QuotRem(v: nat, r: nat)
    requires Radix(r)
    ensures v == Times(Quot(v, r), r) + Rem(v, r)
    ensures v < r ==> Quot(v, r) == 0 && Rem(v, r) == v
    ensures v >= r ==> 1 <= Quot(v, r) < v
  {
  }

  lemma QuotRemUnique(v: nat, d: nat, r: nat)
    requires Radix(r) && d < r
    ensures Times(v, r) + d >= 0
    ensures Quot(Times(v, r) + d, r) == v && Rem(Times(v, r) + d, r) == d
    ensures v >= 1 ==> Times(v, r) + d >= r
  {
  }

  /** How many digits a number has. */
  function NumDigits(v: nat, r: nat): (k: nat)
    requires Radix(r)
    ensures k >= 1
    decreases v
  {
    if v < r then 1
    else
      QuotRem(v, r);
      1 + NumDigits(Quot(v, r), r)
  }

  /** The `k` low digits of a number, most significant first. */
  function LowDigits(v: nat, r: nat, k: nat): (s: seq<byte>)
    requires Radix(r)
    ensures |s| == k
    decreases k
  {
    if k == 0 then [] else LowDigits(Quot(v, r), r, k - 1) + [DigitChar(Rem(v, r))]
  }

  /** The number as printed. */
  function Digits(v: nat, r: nat): (s: seq<byte>)
    requires Radix(r)
    ensures |s| >= 1
  {
    LowDigits(v, r, NumDigits(v, r))
  }

  /** Reading digits back. */
  function Value(s: seq<byte>, r: nat): (v: int)
    requires Radix(r)
  {
    if s == [] then 0 else Times(Value(s[..|s| - 1], r), r) + DigitValue(s[|s| - 1])
  }

  lemma DigitRoundTrip(d: nat)
    requires d < 16
    ensures DigitValue(DigitChar(d)) == d
    ensures DigitChar(d) == 48 <==> d == 0
  {
  }

  /** The sixteen digits. */
  lemma DigitsInOrder(d: nat)
    requires d < 16
    ensures DigitChar(d) == "0123456789ABCDEF"[d] as int
    ensures DigitValue("0123456789ABCDEF"[d] as int) == d
  {
  }

  lemma ValueSnoc(s: seq<byte>, c: byte, r: nat)
    requires Radix(r)
    ensures Value(s + [c], r) == Times(Value(s, r), r) + DigitValue(c)
    ensures Value([], r) == 0
  {
    assert (s + [c])[..|s|] == s;
  }

  /** One more digit on the right. */
  lemma DigitsStep(v: nat, r: nat)
    requires Radix(r)
    ensures Digits(v, r) == (if v < r then [] else Digits(Quot(v, r), r)) + [DigitChar(Rem(v, r))]
    ensures NumDigits(v, r) == if v < r then 1 else 1 + NumDigits(Quot(v, r), r)
  {
    hide Quot, Rem, DigitChar;
    QuotRem(v, r);
    if v < r { assert LowDigits(Quot(v, r), r, 0) == []; }
  }

  /** The digits printed for a number parse back to it. */
  lemma {:induction false} DigitsValue(v: nat, r: nat)
    requires Radix(r)
    ensures Value(Digits(v, r), r) == v
    decreases v
  {
    hide Value, DigitChar, DigitValue, Quot, Rem, Times, Digits;
    QuotRem(v, r);
    DigitRoundTrip(Rem(v, r));
    DigitsStep(v, r);
    if v < r {
      ValueSnoc([], DigitChar(v), r);
      TimesZero(r);
    } else {
      DigitsValue(Quot(v, r), r);
      ValueSnoc(Digits(Quot(v, r), r), DigitChar(Rem(v, r)), r);
    }
  }

  lemma TimesZero(r: nat)
    requires Radix(r)
    ensures Times(0, r) == 0
  {
  }

  /** No leading zero, except for zero itself; digits only. */
  lemma {:induction false} Canonical(v: nat, r: nat)
    requires Radix(r)
    ensures Digits(v, r)[0] == 48 ==> v == 0 && |Digits(v, r)| == 1
    ensures forall i | 0 <= i < |Digits(v, r)| :: IsDigit(Digits(v, r)[i], r)
    decreases v
  {
    hide DigitChar, DigitValue, Quot, Rem, Digits;
    QuotRem(v, r);
    DigitRoundTrip(Rem(v, r));
    DigitsStep(v, r);
    if v >= r { Canonical(Quot(v, r), r); }
  }

  /** The printed form is the only digit string without leading zero that denotes the
      number. */
  lemma {:induction false} DigitsUnique(s: seq<byte>, r: nat)
    requires Radix(r) && |s| >= 1 && (s[0] == 48 ==> |s| == 1)
    requires forall i | 0 <= i < |s| :: IsDigit(s[i], r)
    ensures Value(s, r) >= 0 && s == Digits(Value(s, r), r)
    ensures s[0] != 48 ==> Value(s, r) >= 1
    decreases |s|
  {
    hide DigitChar, DigitValue, Quot, Rem, Times, Digits, Value;
    var last := |s| - 1;
    var t := s[..last];
    CharOfValue(s[last], r);
    var d := DigitValue(s[last]);
    assert s == t + [s[last]];
    ValueSnoc(t, s[last], r);
    if last == 0 {
      assert t == [];
      TimesZero(r);
      QuotRem(d, r);
      DigitsStep(d, r);
      DigitRoundTrip(d);
    } else {
      DigitsUnique(t, r);
      var v := Value(t, r);
      QuotRemUnique(v, d, r);
      DigitsStep(Times(v, r) + d, r);
    }
  }

  lemma CharOfValue(c: byte, r: nat)
    requires Radix(r) && IsDigit(c, r)
    ensures 0 <= DigitValue(c) < r && DigitChar(DigitValue(c)) == c
  {
  }

  /** A 32-bit number never needs more than the 11 digits the scratch area has. */
  lemma ElevenDigits(v: nat, r: nat)
    requires v < TWO32 && Radix(r)
    ensures NumDigits(v, r) <= 11
  {
    hide NumDigits, Quot;
    FewDigits(v, r, 0x2_0000_0000, 11);
  }

  /** `8^k` bounds the numbers of `k` octal digits; larger radices need fewer. */
  lemma {:induction false} FewDigits(v: nat, r: nat, bound: nat, k: nat)
    requires Radix(r) && 1 <= k && v < bound && EightPower(bound, k)
    ensures NumDigits(v, r) <= k
    decreases k
  {
    hide NumDigits;
    DigitsStep(v, r);
    if v >= r && k > 1 { FewDigits(Quot(v, r), r, bound / 8, k - 1); }
  }

  predicate EightPower(b: nat, k: nat) {
    if k == 1 then b == 8 else k > 0 && b % 8 == 0 && EightPower(b / 8, k - 1)
  }

  lemma LowStep(v: nat, r: nat, k: nat)
    requires Radix(r) && k > 0
    ensures LowDigits(v, r, k) == LowDigits(Quot(v, r), r, k - 1) + [DigitChar(Rem(v, r))]
  {
  }

  /** The digits, written backwards from the end of the area. */
  method PutDigits(buf: array<byte>, p: nat, num: nat, r: nat, count: nat) returns (q: nat)
    requires Radix(r) && p + MAX_FILLER <= buf.Length && NumDigits(count, r) <= MAX_FILLER
    modifies buf
    ensures q == p + MAX_FILLER - NumDigits(count, r)
    ensures buf[q..p + MAX_FILLER] == LowDigits(num, r, NumDigits(count, r))
    ensures buf[..q] == old(buf[..q]) && buf[p + MAX_FILLER..] == old(buf[p + MAX_FILLER..])
  {
    hide Quot, Rem, DigitChar, NumDigits, LowDigits, Digits;
    var l, ll := num, count;
    ghost var k := NumDigits(ll, r);
    q := p + MAX_FILLER;
    ghost var tail: seq<byte> := [];
    assert LowDigits(l, r, k) + [] == LowDigits(l, r, k);
    while true
      invariant q == p + MAX_FILLER - |tail| && |tail| < k && k - |tail| == NumDigits(ll, r)
      invariant LowDigits(num, r, k) == LowDigits(l, r, k - |tail|) + tail
      invariant buf[..] == old(buf[..q]) + tail + old(buf[p + MAX_FILLER..])
      decreases k - |tail|
    {
      q := q - 1;
      var digit := DigitChar(Rem(l, r));
      buf[q] := digit;
      assert buf[..] == old(buf[..q]) + ([digit] + tail) + old(buf[p + MAX_FILLER..]);
      LowStep(l, r, k - |tail|);
      Assoc(LowDigits(Quot(l, r), r, k - |tail| - 1), [digit], tail);
      tail := [digit] + tail;
      l := Quot(l, r);
      DigitsStep(ll, r);
      QuotRem(ll, r);
      ll := Quot(ll, r);
      if ll == 0 { break; }
    }
    assert LowDigits(l, r, 0) + tail == tail;
    assert buf[q..p + MAX_FILLER] == tail;
  }

  /** Prints `num` at `p`: all its digits, or as many as `divisor` has if that is not 0. */
  method LongToString(buf: array<byte>, p: nat, num: nat, r: nat, divisor: nat) returns (end: nat)
    requires num < TWO32 && divisor < TWO32 && Radix(r) && p + MAX_FILLER <= buf.Length
    modifies buf
    ensures var k := NumDigits(if divisor == 0 then num else divisor, r);
            && end == p + k <= p + MAX_FILLER
            && buf[p..end] == LowDigits(num, r, k)
    ensures buf[..p] == old(buf[..p]) && buf[p + MAX_FILLER..] == old(buf[p + MAX_FILLER..])
  {
    hide NumDigits, LowDigits;
    var count := if divisor == 0 then num else divisor;
    ElevenDigits(count, r);
    var q := PutDigits(buf, p, num, r, count);
    assert buf[..p] == buf[..q][..p] == old(buf[..q])[..p];
    end := MoveDown(buf, p, q, p + MAX_FILLER - q);
  }

  /** The forward copy to the front; source and destination may overlap. */
  method MoveDown(buf: array<byte>, p: nat, q: nat, count: nat) returns (end: nat)
    requires p <= q && q + count <= buf.Length && count > 0
    modifies buf
    ensures end == p + count && buf[p..end] == old(buf[q..q + count])
    ensures buf[..p] == old(buf[..p]) && buf[q + count..] == old(buf[q + count..])
  {
    var i, d, s := count, p, q;
    ghost var all := buf[..];
    while true
      invariant 0 < i <= count && d == p + (count - i) && s == q + (count - i)
      invariant buf[p..d] == all[q..s] && buf[s..] == all[s..] && buf[..p] == all[..p]
      decreases i
    {
      assert buf[s] == buf[s..][0] == all[s..][0];
      buf[d] := buf[s];
      assert buf[p..d + 1] == buf[p..d] + [all[s]] && all[q..s + 1] == all[q..s] + [all[s]];
      assert buf[s + 1..] == all[s + 1..] by {
        forall j | s + 1 <= j < buf.Length ensures buf[j] == all[j] {
          assert all[s..][j - s] == all[j];
        }
      }
      d, s, i := d + 1, s + 1, i - 1;
      if i == 0 { break; }
    }
    end := d;
  }
}

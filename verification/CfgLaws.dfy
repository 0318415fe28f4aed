/** What the configuration store promises its callers, and exactly for which records. */
module CfgLaws {
  import opened Bytes
  import opened CacheMem
  import opened CacheLaws
  import opened CfgMain

  predicate OneBlock(off: nat, len: nat) {
    off % 4096 + len <= 4096
  }

  /** Neither the header nor the body crosses a block boundary. */
  predicate Compact(addr: nat, len: nat) {
    OneBlock(addr, 8) && OneBlock(addr + 8, len)
  }

  // ----- index entries

  /** `b` is visible at `at`: in flash, or through the cache with its blocks in order. */
  ghost predicate Visible3(cfg: Config, at: nat, raw: bool, b: seq<byte>)
    reads cfg, cfg.mem
    requires Valid(cfg.mem.nodes, cfg.mem.flash) && at + 3 <= |cfg.mem.flash|
  {
    && |b| == 3 && (raw || Ordered(cfg.mem.nodes, at, 3))
    && forall k | 0 <= k < 3 ::
         b[k] == if raw then cfg.mem.flash[at + k] else ByteAt(cfg.mem.nodes, cfg.mem.flash, at + k)
  }

  /** The lookup from bytes: the little-endian word `16 * d + attr` in the entry of `index`
      gives the record `d` words behind the base, and behind the body offset too for all
      entries after the backup area, with those attributes; an odd word gives none. */
  lemma EntryFromBytes(cfg: Config, index: nat, b: seq<byte>, d: nat, attr: nat)
    requires Valid(cfg.mem.nodes, cfg.mem.flash) && cfg.base + 3 * index + 3 <= |cfg.mem.flash|
    requires Visible3(cfg, cfg.base + 3 * index, index == 1, b)
    requires attr < 16 && b[0] as int + 256 * (b[1] as int) + 65536 * (b[2] as int) == 16 * d + attr
    ensures cfg.EntryOf(index) ==
            if (!cfg.valid && index != 1) || attr % 2 == 1 then NoEntry
            else Entry(cfg.base + 4 * d + (if index > 1 then cfg.bodyOffset else 0), attr)
  {
    hide Read, Valid, Le, Visible3, Distance;
    VisibleRead(cfg, cfg.base + 3 * index, index == 1, b);
    EntryBytes(b, d, attr);
    EntryWord(b);
  }

  lemma VisibleRead(cfg: Config, at: nat, raw: bool, b: seq<byte>)
    requires Valid(cfg.mem.nodes, cfg.mem.flash) && at + 3 <= |cfg.mem.flash| && Visible3(cfg, at, raw, b)
    ensures b == if raw then cfg.mem.flash[at..at + 3] else Read(cfg.mem.nodes, cfg.mem.flash, at, 3)
  {
    hide Read, View, Valid, ByteAt, Ordered;
    if !raw {
      ReadExact(cfg.mem.nodes, cfg.mem.flash, at, 3);
      assert View(cfg.mem.nodes, cfg.mem.flash, at, 3) == b;
    }
  }

  // ----- single accesses

  lemma ReadOne(c: seq<Block>, flash: seq<byte>, off: nat, len: nat)
    requires Valid(c, flash) && off + len <= |flash| && OneBlock(off, len)
    ensures Read(c, flash, off, len) == View(c, flash, off, len)
  {
    hide Read, View, Valid, Ordered;
    OneBlockOrdered(c, off, len);
    ReadExact(c, flash, off, len);
  }

  /** The chunked checksum loops see exactly the body, for every length, when its blocks
      are in order. */
  lemma {:induction false} FetchExact(c: seq<Block>, flash: seq<byte>, body: nat, len: nat)
    requires Valid(c, flash) && body + len <= |flash| && Ordered(c, body, len)
    ensures Fetch(c, flash, body, len) == View(c, flash, body, len)
    decreases len
  {
    hide Read, Fetch, View, Valid, InOrder;
    if len > 0 {
      var n := if len > 1024 then 1024 else len;
      FetchStep(c, flash, body, len);
      ReadExact(c, flash, body, n);
      FetchExact(c, flash, body + n, len - n);
      ViewSplit(c, flash, body, n, len);
    }
  }

  lemma ChecksumExact(c: seq<Block>, flash: seq<byte>, body: nat, len: nat)
    requires Valid(c, flash) && body + len <= |flash| && Ordered(c, body, len)
    ensures Checksum(c, flash, body, len) == Mod32(Sum(View(c, flash, body, len)))
  {
    hide Fetch, View, Valid, InOrder, Mod32;
    FetchExact(c, flash, body, len);
  }

  lemma SameView(c: seq<Block>, d: seq<Block>, flash: seq<byte>, off: nat, len: nat)
    requires Valid(c, flash) && Valid(d, flash) && off + len <= |flash|
    requires forall a: nat | off <= a < off + len :: ByteAt(d, flash, a) == ByteAt(c, flash, a)
    ensures View(d, flash, off, len) == View(c, flash, off, len)
  {
    hide View, Valid, ByteAt;
  }

  /** A complete write inside one block. */
  lemma WriteOne(c: seq<Block>, flash: seq<byte>, off: nat, data: seq<byte>, budget: nat)
    requires Valid(c, flash) && off + |data| <= |flash| && OneBlock(off, |data|)
    ensures var r := Write(c, flash, off, data, budget);
            && (Distinct(c) ==> Distinct(r.0)) && Updated(c, r.0, flash, off, data, r.1)
            && View(r.0, flash, off, r.1) == data[..r.1]
  {
    hide Write, View, Valid, ByteAt, Ordered;
    OneBlockOrdered(c, off, |data|);
    WriteExact(c, flash, off, data, budget);
    var r := Write(c, flash, off, data, budget);
    var v := View(r.0, flash, off, r.1);
    assert forall i | 0 <= i < r.1 :: v[i] == ByteAt(r.0, flash, off + i) == data[i];
  }

  // ----- a successful update

  /** The two writes of a successful update. */
  lemma SetSteps(c: seq<Block>, flash: seq<byte>, addr: nat, offset: nat, data: seq<byte>, heap: Heap)
    returns (mid: seq<Block>, h: Header)
    requires Valid(c, flash) && InBounds(c, flash, addr)
    requires SetPart(c, flash, addr, offset, data, heap).0 == Ok
    ensures Valid(mid, flash)
    ensures h == Header(Checksum(mid, flash, addr + 8, HeaderAt(c, flash, addr).len), HeaderAt(c, flash, addr).len)
    ensures offset + |data| <= h.len
    ensures Write(c, flash, addr + 8 + offset, data, heap.forData) == (mid, |data|)
    ensures Write(mid, flash, addr, EncodeHeader(h), heap.forHeader)
            == (SetPart(c, flash, addr, offset, data, heap).1, 8)
  {
    hide Write, Valid, Checksum, HeaderAt;
    mid := Write(c, flash, addr + 8 + offset, data, heap.forData).0;
    h := Header(Checksum(mid, flash, addr + 8, HeaderAt(c, flash, addr).len), HeaderAt(c, flash, addr).len);
  }

  /** What a successful update of a compact record leaves visible: the new data, the new
      tag, and every other byte as it was. */
  ghost predicate SetEffect(c: seq<Block>, d: seq<Block>, flash: seq<byte>, addr: nat, offset: nat, data: seq<byte>)
    requires Valid(c, flash) && Valid(d, flash) && addr + 8 <= |flash|
  {
    && (Distinct(c) ==> Distinct(d))
    && (forall a: nat | a < |flash| && !(addr <= a < addr + 4) ::
          ByteAt(d, flash, a) ==
          if addr + 8 + offset <= a < addr + 8 + offset + |data| then data[a - (addr + 8 + offset)]
          else ByteAt(c, flash, a))
    && HeaderAt(d, flash, addr).len == HeaderAt(c, flash, addr).len
  }

  lemma HeaderView(c: seq<Block>, flash: seq<byte>, addr: nat)
    requires Valid(c, flash) && addr + 8 <= |flash| && OneBlock(addr, 8)
    ensures HeaderAt(c, flash, addr) == DecodeHeader(View(c, flash, addr, 8))
  {
    hide Read, View, Valid;
    ReadOne(c, flash, addr, 8);
  }

  /** Writing back a length that was read leaves its four bytes as they were. */
  lemma LengthBytes(c: seq<Block>, flash: seq<byte>, addr: nat, h: Header, i: nat)
    requires Valid(c, flash) && addr + 8 <= |flash| && OneBlock(addr, 8) && 4 <= i < 8
    requires h.tag < TWO32 && h.len == HeaderAt(c, flash, addr).len
    ensures EncodeHeader(h)[i] == ByteAt(c, flash, addr + i)
  {
    hide View, Valid, ByteAt, HeaderAt, Le, ToLe32;
    HeaderView(c, flash, addr);
    var v := View(c, flash, addr, 8);
    ToLe32Le(v[4..]);
    assert EncodeHeader(h)[i] == ToLe32(h.len)[i - 4] == v[4..][i - 4] == v[i];
  }

  lemma SetEffectHolds(c: seq<Block>, mid: seq<Block>, d: seq<Block>, flash: seq<byte>, addr: nat, offset: nat,
                       data: seq<byte>, h: Header)
    requires Valid(c, flash) && Valid(mid, flash) && Valid(d, flash) && addr + 8 <= |flash| && OneBlock(addr, 8)
    requires Updated(c, mid, flash, addr + 8 + offset, data, |data|) && (Distinct(c) ==> Distinct(d))
    requires h.tag < TWO32 && h.len == HeaderAt(c, flash, addr).len
    requires Updated(mid, d, flash, addr, EncodeHeader(h), 8)
    requires HeaderAt(d, flash, addr).len == h.len
    ensures SetEffect(c, d, flash, addr, offset, data)
  {
    hide Valid, ByteAt, HeaderAt, EncodeHeader;
    forall a: nat | a < |flash| && !(addr <= a < addr + 4)
      ensures ByteAt(d, flash, a) ==
              if addr + 8 + offset <= a < addr + 8 + offset + |data| then data[a - (addr + 8 + offset)]
              else ByteAt(c, flash, a)
    {
      if addr + 4 <= a < addr + 8 { LengthBytes(c, flash, addr, h, a - addr); }
      assert ByteAt(d, flash, a) == if addr <= a < addr + 8 then EncodeHeader(h)[a - addr] else ByteAt(mid, flash, a);
    }
  }

  /** After a successful update of a compact record, a checked read of the same range
      returns exactly the bytes written; all other visible bytes except the tag are
      unchanged. */
  lemma SetThenGet(c: seq<Block>, flash: seq<byte>, addr: nat, offset: nat, data: seq<byte>, heap: Heap)
    requires Valid(c, flash) && InBounds(c, flash, addr)
    requires Compact(addr, HeaderAt(c, flash, addr).len)
    requires SetPart(c, flash, addr, offset, data, heap).0 == Ok
    ensures var d := SetPart(c, flash, addr, offset, data, heap).1;
            && SetEffect(c, d, flash, addr, offset, data)
            && offset + |data| <= HeaderAt(c, flash, addr).len
            && GetPart(d, flash, addr, offset, |data|, true) == Data(data)
  {
    hide Read, Write, Valid, View, ByteAt, Checksum, HeaderAt, EncodeHeader, Mod32, Distinct;
    var d := SetPart(c, flash, addr, offset, data, heap).1;
    var mid, h := SetSteps(c, flash, addr, offset, data, heap);
    SubBlock(addr + 8, h.len, offset, |data|);
    WriteOne(c, flash, addr + 8 + offset, data, heap.forData);
    WriteOne(mid, flash, addr, EncodeHeader(h), heap.forHeader);
    HeaderView(d, flash, addr);
    HeaderRoundTrip(h);
    assert EncodeHeader(h)[..8] == EncodeHeader(h);
    assert HeaderAt(d, flash, addr) == h;
    SetEffectHolds(c, mid, d, flash, addr, offset, data, h);
    BodyKept(mid, d, flash, addr, EncodeHeader(h), h.len);
    ReadOne(d, flash, addr + 8 + offset, |data|);
    SameView(mid, d, flash, addr + 8 + offset, |data|);
    assert data[..|data|] == data;
  }

  lemma SubBlock(off: nat, len: nat, at: nat, n: nat)
    requires OneBlock(off, len) && at + n <= len
    ensures OneBlock(off + at, n)
  {
  }

  /** Writing the header does not change the checksum of the body. */
  lemma BodyKept(mid: seq<Block>, d: seq<Block>, flash: seq<byte>, addr: nat, bytes: seq<byte>, len: nat)
    requires Valid(mid, flash) && Valid(d, flash) && |bytes| == 8 && addr + 8 + len <= |flash|
              && OneBlock(addr + 8, len)
    requires Updated(mid, d, flash, addr, bytes, 8)
    ensures Checksum(d, flash, addr + 8, len) == Checksum(mid, flash, addr + 8, len)
    ensures forall a: nat | addr + 8 <= a < |flash| :: ByteAt(d, flash, a) == ByteAt(mid, flash, a)
  {
    hide Valid, View, ByteAt, Checksum, Mod32, InOrder;
    OneBlockOrdered(d, addr + 8, len);
    OneBlockOrdered(mid, addr + 8, len);
    ChecksumExact(d, flash, addr + 8, len);
    ChecksumExact(mid, flash, addr + 8, len);
    SameView(mid, d, flash, addr + 8, len);
  }

  /** A range that shares no byte with the updated record, and whose blocks are in order before
      and after, reads as before; this covers the index table and every other record. */
  lemma OtherRangesKept(c: seq<Block>, d: seq<Block>, flash: seq<byte>, addr: nat, offset: nat, data: seq<byte>,
                        off: nat, len: nat)
    requires Valid(c, flash) && Valid(d, flash) && addr + 8 <= |flash| && SetEffect(c, d, flash, addr, offset, data)
    requires off + len <= |flash| && Ordered(c, off, len) && Ordered(d, off, len)
    requires off + len <= addr || addr + 8 + offset + |data| <= off
    ensures Read(d, flash, off, len) == Read(c, flash, off, len)
    ensures Checksum(d, flash, off, len) == Checksum(c, flash, off, len)
  {
    hide Read, Valid, View, ByteAt, Checksum, Mod32, Ordered, HeaderAt;
    ReadExact(c, flash, off, len);
    ReadExact(d, flash, off, len);
    SameView(c, d, flash, off, len);
    ChecksumExact(d, flash, off, len);
    ChecksumExact(c, flash, off, len);
  }

  lemma OtherBlockKept(c: seq<Block>, d: seq<Block>, flash: seq<byte>, addr: nat, offset: nat, data: seq<byte>,
                       off: nat, len: nat)
    requires Valid(c, flash) && Valid(d, flash) && addr + 8 <= |flash| && SetEffect(c, d, flash, addr, offset, data)
    requires off + len <= |flash| && OneBlock(off, len)
    requires off + len <= addr || addr + 8 + offset + |data| <= off
    ensures Read(d, flash, off, len) == Read(c, flash, off, len)
    ensures Checksum(d, flash, off, len) == Checksum(c, flash, off, len)
  {
    hide Read, Checksum, Ordered, SetEffect;
    OneBlockOrdered(c, off, len);
    OneBlockOrdered(d, off, len);
    OtherRangesKept(c, d, flash, addr, offset, data, off, len);
  }

  /** An update of one compact record leaves every checked read of every other one, and every
      index entry outside the record whose blocks are in order before and after, with the
      answer it had before; an entry inside one block always is in order. */
  lemma OthersReadAsBefore(c: seq<Block>, flash: seq<byte>, addr: nat, offset: nat, data: seq<byte>, heap: Heap,
                           other: nat, off: nat, n: nat, entry: nat)
    requires Valid(c, flash) && InBounds(c, flash, addr) && InBounds(c, flash, other)
    requires Compact(addr, HeaderAt(c, flash, addr).len) && Compact(other, HeaderAt(c, flash, other).len)
    requires SetPart(c, flash, addr, offset, data, heap).0 == Ok
    requires var (m, k) := (HeaderAt(c, flash, addr).len, HeaderAt(c, flash, other).len);
             (other + 8 + k <= addr || addr + 8 + m <= other) && off + n <= k &&
             (entry + 3 <= addr || addr + 8 + m <= entry)
    requires entry + 3 <= |flash|
    ensures var d := SetPart(c, flash, addr, offset, data, heap).1;
            && InBounds(d, flash, other)
            && (forall h: bool :: GetPart(d, flash, other, off, n, h) == GetPart(c, flash, other, off, n, h))
            && (Ordered(c, entry, 3) && Ordered(d, entry, 3) ==> Read(d, flash, entry, 3) == Read(c, flash, entry, 3))
            && (OneBlock(entry, 3) ==> Ordered(c, entry, 3) && Ordered(d, entry, 3))
  {
    hide Read, Valid, Checksum, Distinct, SetEffect, SetPart, Ordered;
    var d := SetPart(c, flash, addr, offset, data, heap).1;
    SetThenGet(c, flash, addr, offset, data, heap);
    var k := HeaderAt(c, flash, other).len;
    OtherBlockKept(c, d, flash, addr, offset, data, other, 8);
    OtherBlockKept(c, d, flash, addr, offset, data, other + 8, k);
    SubBlock(other + 8, k, off, n);
    OtherBlockKept(c, d, flash, addr, offset, data, other + 8 + off, n);
    if Ordered(c, entry, 3) && Ordered(d, entry, 3) {
      OtherRangesKept(c, d, flash, addr, offset, data, entry, 3);
    }
    if OneBlock(entry, 3) {
      OneBlockOrdered(c, entry, 3);
      OneBlockOrdered(d, entry, 3);
    }
  }

  // ----- an update that was cut off

  /** An update cut off after `n` bytes of its data write, before the header: the checked
      reads of the record answer exactly when the byte sum of the body did not change. */
  lemma CutOffUpdate(c: seq<Block>, flash: seq<byte>, addr: nat, offset: nat, data: seq<byte>, budget: nat,
                     off: nat, m: nat)
    requires Valid(c, flash) && InBounds(c, flash, addr)
    requires Compact(addr, HeaderAt(c, flash, addr).len)
    requires HeaderAt(c, flash, addr).tag == Checksum(c, flash, addr + 8, HeaderAt(c, flash, addr).len)
    requires offset + |data| <= HeaderAt(c, flash, addr).len && addr + 8 + off + m <= |flash|
    ensures var len := HeaderAt(c, flash, addr).len;
            var d := Write(c, flash, addr + 8 + offset, data, budget).0;
            && HeaderAt(d, flash, addr) == HeaderAt(c, flash, addr)
            && (GetPart(d, flash, addr, off, m, true).Data? <==>
                Mod32(Sum(View(d, flash, addr + 8, len))) == Mod32(Sum(View(c, flash, addr + 8, len))))
  {
    hide Read, Write, Valid, View, ByteAt, Checksum, HeaderAt, Mod32, Distinct, InOrder;
    var len := HeaderAt(c, flash, addr).len;
    var d := Write(c, flash, addr + 8 + offset, data, budget).0;
    SubBlock(addr + 8, len, offset, |data|);
    WriteOne(c, flash, addr + 8 + offset, data, budget);
    SameView(c, d, flash, addr, 8);
    HeaderView(c, flash, addr);
    HeaderView(d, flash, addr);
    OneBlockOrdered(d, addr + 8, len);
    OneBlockOrdered(c, addr + 8, len);
    ChecksumExact(c, flash, addr + 8, len);
    ChecksumExact(d, flash, addr + 8, len);
  }

  lemma SumOne(x: byte)
    ensures Sum([x]) == x
  {
    assert [x][..0] == [];
  }

  /** A change of a single byte always changes the 32-bit sum. */
  lemma OneByteShows(s: seq<byte>, i: nat, x: byte)
    requires i < |s| && s[i] != x
    ensures Mod32(Sum(s[i := x])) != Mod32(Sum(s))
  {
    hide Sum;
    var t := s[i := x];
    SumOne(x);
    SumOne(s[i]);
    assert s == s[..i] + [s[i]] + s[i + 1..] && t == s[..i] + [x] + s[i + 1..];
    SumConcat(s[..i] + [s[i]], s[i + 1..]);
    SumConcat(s[..i] + [x], s[i + 1..]);
    SumConcat(s[..i], [s[i]]);
    SumConcat(s[..i], [x]);
    assert Sum(t) - Sum(s) == x - s[i];
  }

  /** The data agree with the visible bytes except at position `k`. */
  ghost predicate OneChange(c: seq<Block>, flash: seq<byte>, at: nat, data: seq<byte>, k: nat)
    requires Valid(c, flash) && at + |data| <= |flash|
  {
    && k < |data| && data[k] != ByteAt(c, flash, at + k)
    && forall j | 0 <= j < |data| && j != k :: data[j] == ByteAt(c, flash, at + j)
  }

  /** So an update of any length that changes one byte, cut off behind that byte and before
      the header, is always noticed. */
  lemma CutOffByteRejected(c: seq<Block>, flash: seq<byte>, addr: nat, offset: nat, data: seq<byte>, budget: nat,
                           off: nat, m: nat, k: nat)
    requires Valid(c, flash) && InBounds(c, flash, addr)
    requires Compact(addr, HeaderAt(c, flash, addr).len)
    requires HeaderAt(c, flash, addr).tag == Checksum(c, flash, addr + 8, HeaderAt(c, flash, addr).len)
    requires offset + |data| <= HeaderAt(c, flash, addr).len && addr + 8 + off + m <= |flash|
    requires OneChange(c, flash, addr + 8 + offset, data, k)
    requires k < Write(c, flash, addr + 8 + offset, data, budget).1
    ensures var d := Write(c, flash, addr + 8 + offset, data, budget).0;
            && HeaderAt(d, flash, addr) == HeaderAt(c, flash, addr)
            && GetPart(d, flash, addr, off, m, true) == Fail(Error)
  {
    hide Read, Write, Valid, View, ByteAt, Checksum, HeaderAt, Mod32, Sum, Distinct, OneChange, Updated;
    var len := HeaderAt(c, flash, addr).len;
    var d := Write(c, flash, addr + 8 + offset, data, budget).0;
    assert k < |data| by { ChangeInside(c, flash, addr + 8 + offset, data, k); }
    SubBlock(addr + 8, len, offset, |data|);
    WriteOne(c, flash, addr + 8 + offset, data, budget);
    CutOffUpdate(c, flash, addr, offset, data, budget, off, m);
    OneChangeView(c, d, flash, addr + 8, len, offset, data, Write(c, flash, addr + 8 + offset, data, budget).1, k);
    OneByteShows(View(c, flash, addr + 8, len), offset + k, data[k]);
  }

  lemma ChangeInside(c: seq<Block>, flash: seq<byte>, at: nat, data: seq<byte>, k: nat)
    requires Valid(c, flash) && at + |data| <= |flash| && OneChange(c, flash, at, data, k)
    ensures k < |data|
  {
  }

  lemma OneChangeView(c: seq<Block>, d: seq<Block>, flash: seq<byte>, body: nat, len: nat, offset: nat, data: seq<byte>,
                      n: nat, k: nat)
    requires Valid(c, flash) && Valid(d, flash) && body + len <= |flash| && offset + |data| <= len && k < n <= |data|
    requires Updated(c, d, flash, body + offset, data, n) && OneChange(c, flash, body + offset, data, k)
    ensures View(c, flash, body, len)[offset + k] != data[k]
    ensures View(d, flash, body, len) == View(c, flash, body, len)[offset + k := data[k]]
  {
    hide View, ByteAt, Valid;
    var v, w := View(c, flash, body, len), View(d, flash, body, len);
    assert v[offset + k] == ByteAt(c, flash, body + (offset + k));
    forall i | 0 <= i < len ensures w[i] == v[offset + k := data[k]][i] {
      assert w[i] == ByteAt(d, flash, body + i) && v[i] == ByteAt(c, flash, body + i);
      if offset <= i < offset + |data| && i != offset + k {
        assert data[i - offset] == ByteAt(c, flash, body + offset + (i - offset));
      }
    }
  }

  // ----- exactly which records

  /** From every state of cache and flash, a successful update of any part of the record
      can be read back. */
  ghost predicate RoundTrips(size: nat, addr: nat, len: nat) {
    forall c: seq<Block>, flash: seq<byte>, offset: nat, data: seq<byte>, heap: Heap ::
      RoundTripsFrom(size, addr, len, c, flash, offset, data, heap)
  }

  ghost predicate RoundTripsFrom(size: nat, addr: nat, len: nat,
                                 c: seq<Block>, flash: seq<byte>, offset: nat, data: seq<byte>, heap: Heap) {
    |flash| == size && Valid(c, flash) && InBounds(c, flash, addr) &&
    HeaderAt(c, flash, addr).len == len && SetPart(c, flash, addr, offset, data, heap).0 == Ok
    ==>
    var d := SetPart(c, flash, addr, offset, data, heap).1;
    InBounds(d, flash, addr) && addr + 8 + offset + |data| <= size &&
    GetPart(d, flash, addr, offset, |data|, true) == Data(data)
  }

  /** The update that shows it: with the upper block of a crossing body already cached,
      write two ones over the boundary of a body of zeros. */
  lemma CrossingFails(size: nat, addr: nat, len: nat)
    requires size % 4096 == 0 && addr + 8 + len <= size && len < TWO32
    requires OneBlock(addr, 8) && !OneBlock(addr + 8, len)
    ensures !RoundTrips(size, addr, len)
  {
    hide Valid, Write, Checksum, HeaderAt, SetPart, GetPart, Find, View;
    var e := Base(addr + 8) + BLOCK;
    var offset := e - 1 - (addr + 8);
    var flash := Zeros(size, addr, len);
    var c := [Block(e, flash[e..e + BLOCK])];
    CrossingStart(size, addr, len, flash, c, e);
    CrossingShown(size, addr, len, flash, c, e);
    assert !RoundTripsFrom(size, addr, len, c, flash, offset, [1, 1], Heap(1, true, 1));
  }

  /** An erased-to-zero flash that holds one record header with tag 0. */
  function Zeros(size: nat, addr: nat, len: nat): (f: seq<byte>)
    requires addr + 8 <= size && len < TWO32
    ensures |f| == size
  {
    Overlay(Fill(size, 0), addr, EncodeHeader(Header(0, len)))
  }

  lemma CrossingStart(size: nat, addr: nat, len: nat, flash: seq<byte>, c: seq<Block>, e: nat)
    requires size % 4096 == 0 && addr + 8 + len <= size && len < TWO32
    requires OneBlock(addr, 8) && !OneBlock(addr + 8, len)
    requires e == Base(addr + 8) + BLOCK && flash == Zeros(size, addr, len)
    requires e + BLOCK <= size ==> c == [Block(e, flash[e..e + BLOCK])]
    ensures addr + 8 < e < addr + 8 + len && e % 4096 == 0 && e + BLOCK <= size
    ensures Valid(c, flash) && Distinct(c) && flash[e] == 0
    ensures HeaderAt(c, flash, addr) == Header(0, len)
  {
    hide Fill, Overlay, EncodeHeader, HeaderAt;
    OverlayAt(Fill(size, 0), addr, EncodeHeader(Header(0, len)), e);
    assert Valid(c, flash);
    CrossingHeader(size, addr, len, flash, c);
  }

  lemma CrossingHeader(size: nat, addr: nat, len: nat, flash: seq<byte>, c: seq<Block>)
    requires addr + 8 <= size && len < TWO32 && OneBlock(addr, 8) && flash == Zeros(size, addr, len)
    requires Valid(c, flash) && |c| == 1 && c[0].addr > addr + 8
    ensures HeaderAt(c, flash, addr) == Header(0, len)
  {
    hide Fill, Overlay, EncodeHeader, DecodeHeader, View, HeaderAt, Valid, ByteAt;
    HeaderView(c, flash, addr);
    HeaderRoundTrip(Header(0, len));
    var v := View(c, flash, addr, 8);
    forall i | 0 <= i < 8 ensures v[i] == EncodeHeader(Header(0, len))[i] {
      UncachedByte(c, flash, addr + i);
      OverlayAt(Fill(size, 0), addr, EncodeHeader(Header(0, len)), addr + i);
    }
    assert v == EncodeHeader(Header(0, len));
  }

  lemma UncachedByte(c: seq<Block>, flash: seq<byte>, a: nat)
    requires Valid(c, flash) && a < |flash| && |c| == 1 && c[0].addr > a
    ensures ByteAt(c, flash, a) == flash[a]
  {
    hide Valid;
  }

  lemma CrossingShown(size: nat, addr: nat, len: nat, flash: seq<byte>, c: seq<Block>, e: nat)
    requires |flash| == size && addr + 8 + len <= size && OneBlock(addr, 8)
    requires e == Base(addr + 8) + BLOCK && addr + 8 < e < addr + 8 + len && e % 4096 == 0 && e + BLOCK <= size
    requires |c| == 1 && c[0].addr == e && Valid(c, flash) && Distinct(c) && flash[e] == 0
    requires HeaderAt(c, flash, addr).len == len
    ensures !RoundTripsFrom(size, addr, len, c, flash, e - 1 - (addr + 8), [1, 1], Heap(1, true, 1))
  {
    hide Valid, WriteFrom, ReadFrom, Checksum, HeaderAt, Find, View, EncodeHeader;
    var mid := Write(c, flash, e - 1, [1, 1], 1);
    CrossingWrite(c, flash, e);
    var tag := Checksum(mid.0, flash, addr + 8, len);
    var d := Write(mid.0, flash, addr, EncodeHeader(Header(tag, len)), 1);
    HeaderWrite(mid.0, flash, addr, EncodeHeader(Header(tag, len)), e);
    assert SetPart(c, flash, addr, e - 1 - (addr + 8), [1, 1], Heap(1, true, 1)) == (Ok, d.0);
    StaleByte(d.0, flash, 0, e - 1, 2, e);
    StaleFlashByte(d.0, flash, e, Read(d.0, flash, e - 1, 2)[1]);
    assert Read(d.0, flash, e - 1, 2)[1] == 0;
  }

  /** The lower block is fetched behind the upper one; both ones are taken. */
  lemma CrossingWrite(c: seq<Block>, flash: seq<byte>, e: nat)
    requires Valid(c, flash) && |c| == 1 && c[0].addr == e && 0 < e && e % 4096 == 0 && e + BLOCK <= |flash|
    ensures var r := Write(c, flash, e - 1, [1, 1], 1);
            r.1 == 2 && |r.0| == 2 && r.0[0].addr == e && r.0[1].addr == e - BLOCK
  {
    hide Valid, WriteFrom, Find, Overlay;
    var data: seq<byte> := [1, 1];
    assert Base(e - 1) == e - BLOCK && Base(e) == e && Piece(e - 1, 2) == 1 && Piece(e, 1) == 1;
    WriteUnfold(c, flash, 0, e - 1, data, 1);
    assert Find(c, 0, e - BLOCK) == 1;
    var d := c + [Fetched(flash, e - 1, data[..1])];
    WriteUnfold(d, flash, 0, e, data[1..], 0);
    FindAppend(c, d[1], e);
    FindSpec(c, 0, e);
    assert Find(d, 0, e) == 0;
    WriteDone(Hit(d, 0, e, data[1..][..1]), flash, 1, e + 1, data[1..][1..], 0);
  }

  /** With room for one node, a write inside one block is taken whole. */
  lemma OneBlockTaken(c: seq<Block>, flash: seq<byte>, off: nat, data: seq<byte>, budget: nat)
    requires Valid(c, flash) && off + |data| <= |flash| && OneBlock(off, |data|) && |data| > 0 && budget > 0
    ensures Write(c, flash, off, data, budget).1 == |data|
  {
    hide Valid, WriteFrom, Find, Overlay;
    var n := |data|;
    assert Piece(off, n) == n;
    WriteUnfold(c, flash, 0, off, data, budget);
    var p := Find(c, 0, Base(off));
    if p < |c| {
      WriteDone(Hit(c, p, off, data[..n]), flash, p + 1, off + n, data[n..], budget);
    } else {
      WriteDone(c + [Fetched(flash, off, data[..n])], flash, 0, off + n, data[n..], budget - 1);
    }
  }

  /** A header write inside one block succeeds with room for one node, and leaves the
      upper block in front of the lower one. */
  lemma HeaderWrite(m: seq<Block>, flash: seq<byte>, addr: nat, bytes: seq<byte>, e: nat)
    requires Valid(m, flash) && |m| == 2 && m[0].addr == e && m[1].addr == e - BLOCK
    requires OneBlock(addr, 8) && |bytes| == 8 && addr + 8 <= |flash| && addr < e && BLOCK <= e
    ensures var r := Write(m, flash, addr, bytes, 1);
            r.1 == 8 && Distinct(r.0) && Cached(r.0, e) && Cached(r.0, e - BLOCK) && !InOrder(r.0, e)
            && Find(r.0, 0, e - BLOCK) == 1
  {
    hide Valid, WriteFrom, Find, Overlay, ByteAt;
    var r := Write(m, flash, addr, bytes, 1);
    WriteOne(m, flash, addr, bytes, 1);
    WriteKeepsNodes(m, flash, 0, addr, bytes, 1);
    OneBlockTaken(m, flash, addr, bytes, 1);
    FindSpec(r.0, 0, e);
    FindSpec(r.0, 0, e - BLOCK);
    assert r.0[0].addr == e && r.0[1].addr == e - BLOCK;
  }

  /** An update of a record can be read back from every state of the cache if and only if
      its body lies inside one 4 KB block. */
  lemma RoundTripsIffOneBlock(size: nat, addr: nat, len: nat)
    requires size % 4096 == 0 && addr + 8 + len <= size && len < TWO32 && OneBlock(addr, 8)
    ensures RoundTrips(size, addr, len) <==> OneBlock(addr + 8, len)
  {
    hide Valid, Read, Write, Checksum, HeaderAt, SetPart, GetPart, ByteAt, Distinct;
    if OneBlock(addr + 8, len) {
      forall c: seq<Block>, flash: seq<byte>, offset: nat, data: seq<byte>, heap: Heap
        ensures RoundTripsFrom(size, addr, len, c, flash, offset, data, heap)
      {
        if |flash| == size && Valid(c, flash) && InBounds(c, flash, addr) &&
           HeaderAt(c, flash, addr).len == len && SetPart(c, flash, addr, offset, data, heap).0 == Ok
        {
          SetThenGet(c, flash, addr, offset, data, heap);
          assert HeaderAt(SetPart(c, flash, addr, offset, data, heap).1, flash, addr).len == len;
        }
      }
    } else {
      CrossingFails(size, addr, len);
    }
  }

  // ----- when an update succeeds

  /** How many nodes a write adds to the list if it can have as many as it likes. */
  function Needed(c: seq<Block>, flash: seq<byte>, off: nat, data: seq<byte>): (n: nat)
    requires Valid(c, flash) && off + |data| <= |flash|
  {
    |Write(c, flash, off, data, |data|).0| - |c|
  }

  lemma {:induction false} EnoughFrom(c: seq<Block>, flash: seq<byte>, cursor: nat, off: nat, data: seq<byte>,
                                      budget: nat, plenty: nat)
    requires Valid(c, flash) && cursor <= |c| && off + |data| <= |flash| && |data| <= plenty
    ensures WriteFrom(c, flash, cursor, off, data, budget).1 == |data| <==>
            budget >= |WriteFrom(c, flash, cursor, off, data, plenty).0| - |c|
    decreases |data|
  {
    hide Find, WriteFrom, Valid, Overlay, Base, Piece;
    if |data| == 0 {
      WriteDone(c, flash, cursor, off, data, budget);
      WriteDone(c, flash, cursor, off, data, plenty);
    } else {
      var n := Piece(off, |data|);
      var p := Find(c, cursor, Base(off));
      WriteUnfold(c, flash, cursor, off, data, budget);
      WriteUnfold(c, flash, cursor, off, data, plenty);
      if p < |c| {
        EnoughFrom(Hit(c, p, off, data[..n]), flash, p + 1, off + n, data[n..], budget, plenty);
      } else if budget > 0 {
        EnoughFrom(c + [Fetched(flash, off, data[..n])], flash, 0, off + n, data[n..], budget - 1, plenty - 1);
      }
    }
  }

  /** An update is refused for its range if and only if it reaches behind the record, and
      succeeds if and only if it does not, the checksum buffer is available, and each of the
      two writes gets the nodes it needs. */
  lemma SetSucceedsIff(c: seq<Block>, flash: seq<byte>, addr: nat, offset: nat, data: seq<byte>, heap: Heap)
    requires Valid(c, flash) && InBounds(c, flash, addr)
    ensures var len := HeaderAt(c, flash, addr).len;
            var r := SetPart(c, flash, addr, offset, data, heap);
            && (r.0 == BadParameter <==> offset + |data| > len)
            && (r.0 == BadParameter ==> r.1 == c)
            && (offset + |data| <= len ==>
                  var mid := Write(c, flash, addr + 8 + offset, data, heap.forData).0;
                  var header := EncodeHeader(Header(Checksum(mid, flash, addr + 8, len), len));
                  (r.0 == Ok <==>
                   && heap.buffer && heap.forData >= Needed(c, flash, addr + 8 + offset, data)
                   && heap.forHeader >= Needed(mid, flash, addr, header)))
  {
    hide WriteFrom, Valid, HeaderAt, EncodeHeader, Checksum;
    var len := HeaderAt(c, flash, addr).len;
    if offset + |data| <= len {
      EnoughFrom(c, flash, 0, addr + 8 + offset, data, heap.forData, |data|);
      var mid := Write(c, flash, addr + 8 + offset, data, heap.forData).0;
      var header := EncodeHeader(Header(Checksum(mid, flash, addr + 8, len), len));
      EnoughFrom(mid, flash, 0, addr, header, heap.forHeader, 8);
    }
  }

  /** Inside one block a write needs a node exactly when its block is not cached, and caches it. */
  lemma NeededOne(c: seq<Block>, flash: seq<byte>, off: nat, data: seq<byte>, budget: nat)
    requires Valid(c, flash) && off + |data| <= |flash| && OneBlock(off, |data|)
    ensures Needed(c, flash, off, data) == if |data| == 0 || Cached(c, Base(off)) then 0 else 1
    ensures var r := Write(c, flash, off, data, budget);
            r.1 == |data| ==> forall b: nat :: Cached(r.0, b) <==> Cached(c, b) || (|data| > 0 && b == Base(off))
  {
    hide Find, WriteFrom, Valid, Overlay;
    var n := |data|;
    if n == 0 {
      WriteDone(c, flash, 0, off, data, n);
      WriteDone(c, flash, 0, off, data, budget);
    } else {
      assert Piece(off, n) == n;
      OneNode(c, flash, off, data, n);
      OneNode(c, flash, off, data, budget);
    }
  }

  lemma OneNode(c: seq<Block>, flash: seq<byte>, off: nat, data: seq<byte>, budget: nat)
    requires Valid(c, flash) && off + |data| <= |flash| && Piece(off, |data|) == |data| > 0
    ensures var r := Write(c, flash, off, data, budget);
            && (r.1 == |data| ==> forall b: nat :: Cached(r.0, b) <==> Cached(c, b) || b == Base(off))
            && |r.0| == |c| + if Cached(c, Base(off)) || budget == 0 then 0 else 1
  {
    hide Find, WriteFrom, Valid, Overlay, Base, Piece;
    var n := |data|;
    var p := Find(c, 0, Base(off));
    var r := Write(c, flash, off, data, budget);
    WriteUnfold(c, flash, 0, off, data, budget);
    if p < |c| {
      WriteDone(Hit(c, p, off, data[..n]), flash, p + 1, off + n, data[n..], budget);
      FindSpec(c, 0, Base(off));
    } else if budget > 0 {
      WriteDone(c + [Fetched(flash, off, data[..n])], flash, 0, off + n, data[n..], budget - 1);
      assert r.0[|c|].addr == Base(off);
    }
    forall b: nat ensures r.1 == n ==> (Cached(r.0, b) <==> Cached(c, b) || b == Base(off)) {
      FindSpec(c, 0, b);
      FindSpec(r.0, 0, b);
      WriteKeepsNodes(c, flash, 0, off, data, budget);
    }
  }

  /** For a compact record: the buffer, a node for the data unless their block is cached, and a
      node for the header unless its block is cached by then. */
  lemma CompactSucceedsIff(c: seq<Block>, flash: seq<byte>, addr: nat, offset: nat, data: seq<byte>, heap: Heap)
    requires Valid(c, flash) && InBounds(c, flash, addr) && Compact(addr, HeaderAt(c, flash, addr).len)
    ensures var at := addr + 8 + offset;
            SetPart(c, flash, addr, offset, data, heap).0 == Ok <==>
            && offset + |data| <= HeaderAt(c, flash, addr).len && heap.buffer
            && (|data| == 0 || Cached(c, Base(at)) || heap.forData > 0)
            && (Cached(c, Base(addr)) || (|data| > 0 && Base(addr) == Base(at)) || heap.forHeader > 0)
  {
    hide Write, Valid, HeaderAt, EncodeHeader, Checksum, SetPart, Needed, Cached, Base;
    var len, at := HeaderAt(c, flash, addr).len, addr + 8 + offset;
    SetSucceedsIff(c, flash, addr, offset, data, heap);
    if offset + |data| <= len {
      SubBlock(addr + 8, len, offset, |data|);
      NeededOne(c, flash, at, data, heap.forData);
      EnoughNodes(c, flash, at, data, heap.forData);
      var mid := Write(c, flash, at, data, heap.forData).0;
      var header := EncodeHeader(Header(Checksum(mid, flash, addr + 8, len), len));
      NeededOne(mid, flash, addr, header, heap.forHeader);
    }
  }

  lemma EnoughNodes(c: seq<Block>, flash: seq<byte>, off: nat, data: seq<byte>, budget: nat)
    requires Valid(c, flash) && off + |data| <= |flash|
    ensures Write(c, flash, off, data, budget).1 == |data| <==> budget >= Needed(c, flash, off, data)
  {
    hide WriteFrom, Valid;
    EnoughFrom(c, flash, 0, off, data, budget, |data|);
  }
}

/** A record whose header crosses a block boundary cannot be read back either; so the records
    that can are exactly the compact ones. */
module CfgCrossing {
  import opened Bytes
  import opened CacheMem
  import opened CacheLaws
  import opened CfgMain
  import opened CfgLaws

  // ----- a store that reads as ones

  ghost predicate OnesFrom(c: seq<Block>, flash: seq<byte>, from: nat) {
    && (forall a | from <= a < |flash| :: flash[a] == 1)
    && (forall i, k | 0 <= i < |c| && 0 <= k < |c[i].data| && from <= c[i].addr + k :: c[i].data[k] == 1)
  }

  predicate Ones(s: seq<byte>) {
    forall i | 0 <= i < |s| :: s[i] == 1
  }

  lemma BlockOnes(c: seq<Block>, flash: seq<byte>, p: nat, at: nat, n: nat, from: nat)
    requires Valid(c, flash) && OnesFrom(c, flash, from) && p < |c| && from <= c[p].addr + at && at + n <= BLOCK
    ensures |c[p].data| == BLOCK && Ones(c[p].data[at..at + n])
  {
  }

  lemma FlashOnes(c: seq<Block>, flash: seq<byte>, off: nat, n: nat, from: nat)
    requires OnesFrom(c, flash, from) && off + n <= |flash| && from <= off
    ensures Ones(flash[off..off + n])
  {
  }

  /** The first piece of a read, and where the walk goes on. */
  lemma ReadSplit(c: seq<Block>, flash: seq<byte>, cursor: nat, off: nat, len: nat, from: nat)
    returns (first: seq<byte>, n: nat, next: nat)
    requires Valid(c, flash) && cursor <= |c| && 0 < len && off + len <= |flash| && from <= off
              && OnesFrom(c, flash, from)
    ensures 0 < n <= len && next <= |c| && Ones(first)
    ensures ReadFrom(c, flash, cursor, off, len) == first + ReadFrom(c, flash, next, off + n, len - n)
  {
    hide ReadFrom, Find, Valid, OnesFrom, Ones, Piece;
    ReadUnfold(c, flash, cursor, off, len);
    PieceFits(off, len);
    n := Piece(off, len);
    var p := Find(c, cursor, Base(off));
    if p < |c| {
      BlockOnes(c, flash, p, off - Base(off), n, from);
      first, next := c[p].data[off - Base(off)..off - Base(off) + n], p + 1;
    } else {
      FlashOnes(c, flash, off, n, from);
      first, next := flash[off..off + n], 0;
    }
  }

  lemma OnesConcat(a: seq<byte>, b: seq<byte>)
    requires Ones(a) && Ones(b)
    ensures Ones(a + b)
  {
  }

  lemma {:induction false} ReadFromOnes(c: seq<Block>, flash: seq<byte>, cursor: nat, off: nat, len: nat, from: nat)
    requires Valid(c, flash) && cursor <= |c| && off + len <= |flash| && from <= off && OnesFrom(c, flash, from)
    ensures Ones(ReadFrom(c, flash, cursor, off, len))
    decreases len
  {
    if len > 0 {
      hide ReadFrom, Valid, OnesFrom, Ones;
      var first, n, next := ReadSplit(c, flash, cursor, off, len, from);
      ReadFromOnes(c, flash, next, off + n, len - n, from);
      OnesConcat(first, ReadFrom(c, flash, next, off + n, len - n));
    }
  }

  lemma {:induction false} FetchOnes(c: seq<Block>, flash: seq<byte>, off: nat, len: nat, from: nat)
    requires Valid(c, flash) && off + len <= |flash| && from <= off && OnesFrom(c, flash, from)
    ensures Ones(Fetch(c, flash, off, len))
    decreases len
  {
    if len > 0 {
      hide ReadFrom, Fetch, Valid, OnesFrom, Ones;
      FetchStep(c, flash, off, len);
      var n := if len > 1024 then 1024 else len;
      ReadFromOnes(c, flash, 0, off, n, from);
      FetchOnes(c, flash, off + n, len - n, from);
      OnesConcat(Read(c, flash, off, n), Fetch(c, flash, off + n, len - n));
    }
  }

  lemma {:induction false} SumOnes(s: seq<byte>)
    requires Ones(s)
    ensures Sum(s) == |s|
  {
    if |s| > 0 {
      SumOnes(s[..|s| - 1]);
    }
  }

  lemma ChecksumOnes(c: seq<Block>, flash: seq<byte>, off: nat, len: nat)
    requires Valid(c, flash) && off + len <= |flash| && OnesFrom(c, flash, off) && len < TWO32
    ensures Checksum(c, flash, off, len) == len
  {
    hide Fetch, Valid, OnesFrom;
    FetchOnes(c, flash, off, len, off);
    SumOnes(Fetch(c, flash, off, len));
  }

  // ----- a header over the boundary

  /** The header bytes of a record of `len` ones. */
  function Mark(len: nat): (m: seq<byte>)
    requires len < TWO32
    ensures |m| == 8
  {
    EncodeHeader(Header(len, len))
  }

  /** A flash of ones that holds the header. */
  function Plain(size: nat, addr: nat, len: nat): (f: seq<byte>)
    requires addr + 8 <= size && len < TWO32
    ensures |f| == size
  {
    Overlay(Fill(size, 1), addr, Mark(len))
  }

  function Other(b: byte): (x: byte)
    ensures x != b
  {
    if b == 0 then 1 else 0
  }

  /** The upper block is cached; the flash below it has one wrong header byte at the boundary. */
  ghost predicate Start(size: nat, addr: nat, len: nat, e: nat, flash: seq<byte>, c: seq<Block>) {
    && size % 4096 == 0 && addr + 8 + len <= size && len < TWO32
    && addr < e < addr + 8 && e % 4096 == 0 && e + BLOCK <= size
    && flash == Plain(size, addr, len)[e := Other(Mark(len)[e - addr])]
    && c == [Block(e, Plain(size, addr, len)[e..e + BLOCK])]
  }

  lemma PlainAt(size: nat, addr: nat, len: nat, a: nat)
    requires addr + 8 <= size && len < TWO32 && a < size
    ensures Plain(size, addr, len)[a] == if addr <= a < addr + 8 then Mark(len)[a - addr] else 1
  {
    hide Overlay, Mark, Fill;
    OverlayAt(Fill(size, 1), addr, Mark(len), a);
  }

  lemma Crossing(addr: nat, e: nat)
    requires addr < e < addr + 8 && e % 4096 == 0
    ensures e >= BLOCK && Base(addr) == e - BLOCK && Base(e) == e
    ensures Piece(addr, 8) == e - addr && Piece(e, 8 - (e - addr)) == 8 - (e - addr)
  {
  }

  lemma FindOne(c: seq<Block>, e: nat, b: nat)
    requires |c| == 1 && c[0].addr == e != b
    ensures Find(c, 0, e) == 0 && Find(c, 0, b) == 1
  {
  }

  lemma FindTwo(d: seq<Block>, e: nat, b: nat)
    requires |d| == 2 && d[0].addr == e != b == d[1].addr
    ensures Find(d, 0, e) == 0 && Find(d, 0, b) == 1 && Find(d, 2, e) == 2
  {
    assert Find(d, 0, b) == Find(d, 1, b);
  }

  lemma StartIs(size: nat, addr: nat, len: nat, e: nat, flash: seq<byte>, c: seq<Block>)
    requires Start(size, addr, len, e, flash, c)
    ensures Valid(c, flash) && Distinct(c) && OnesFrom(c, flash, addr + 8)
    ensures flash[addr..e] == Mark(len)[..e - addr] && c[0].data[..8 - (e - addr)] == Mark(len)[e - addr..]
    ensures flash[e..addr + 8] == [Other(Mark(len)[e - addr])] + Mark(len)[e - addr + 1..]
  {
    hide Overlay, Fill, Mark, Plain;
    forall a | 0 <= a < size
      ensures Plain(size, addr, len)[a] == if addr <= a < addr + 8 then Mark(len)[a - addr] else 1
    {
      PlainAt(size, addr, len, a);
    }
  }

  /** The header of a store with the upper block alone in the cache. */
  lemma HeaderBefore(size: nat, addr: nat, len: nat, e: nat, flash: seq<byte>, c: seq<Block>)
    requires Start(size, addr, len, e, flash, c)
    ensures Valid(c, flash) && Distinct(c) && OnesFrom(c, flash, addr + 8)
    ensures HeaderAt(c, flash, addr) == Header(len, len)
  {
    hide Mark, Plain, ReadFrom, Find, Valid, OnesFrom, Distinct, Piece, Base;
    StartIs(size, addr, len, e, flash, c);
    var k := e - addr;
    Crossing(addr, e);
    FindOne(c, e, e - BLOCK);
    ReadUnfold(c, flash, 0, addr, 8);
    ReadUnfold(c, flash, 0, e, 8 - k);
    ReadNone(c, flash, 1, addr + 8);
    assert Read(c, flash, addr, 8) == Mark(len)[..k] + Mark(len)[k..] == Mark(len);
    MarkDecodes(len);
  }

  lemma ReadNone(c: seq<Block>, flash: seq<byte>, cursor: nat, off: nat)
    requires Valid(c, flash) && cursor <= |c| && off <= |flash|
    ensures ReadFrom(c, flash, cursor, off, 0) == []
  {
  }

  lemma MarkDecodes(len: nat)
    requires len < TWO32
    ensures DecodeHeader(Mark(len)) == Header(len, len)
  {
    HeaderRoundTrip(Header(len, len));
  }

  /** One wrong byte: the tag or the length is wrong, and the other is right. */
  lemma WrongByte(len: nat, k: nat, x: byte)
    requires len < TWO32 && k < 8 && x != Mark(len)[k]
    ensures var h := DecodeHeader(Mark(len)[k := x]);
            (h.tag != len && h.len == len) || (h.tag == len && h.len != len)
  {
    var m := Mark(len);
    var w := m[k := x];
    MarkDecodes(len);
    ToLe32Le(w[..4]);
    ToLe32Le(w[4..]);
    ToLe32Le(m[..4]);
    ToLe32Le(m[4..]);
    if k < 4 {
      assert w[4..] == m[4..] && w[..4][k] != m[..4][k];
    } else {
      assert w[..4] == m[..4] && w[4..][k - 4] != m[4..][k - 4];
    }
  }

  /** The header write fetches the lower block behind the upper one. */
  lemma HeaderWritten(size: nat, addr: nat, len: nat, e: nat, flash: seq<byte>, c: seq<Block>) returns (d: seq<Block>)
    requires Start(size, addr, len, e, flash, c) && Valid(c, flash)
    ensures Write(c, flash, addr, Mark(len), 1) == (d, 8)
    ensures |d| == 2 && d[0].addr == e && d[1].addr == e - BLOCK && |d[1].data| == BLOCK
    ensures e - BLOCK <= addr && d[1].data[addr - (e - BLOCK)..] == Mark(len)[..e - addr]
    ensures d[0].data == Overlay(c[0].data, 0, Mark(len)[e - addr..])
  {
    hide Overlay, Fill, Mark, Plain, WriteFrom, Find, Valid;
    var k, m := e - addr, Mark(len);
    Crossing(addr, e);
    FindOne(c, e, e - BLOCK);
    WriteUnfold(c, flash, 0, addr, m, 1);
    var low := Fetched(flash, addr, m[..k]);
    var both := c + [low];
    FindAppend(c, low, e);
    WriteUnfold(both, flash, 0, e, m[k..], 0);
    assert m[k..][..8 - k] == m[k..];
    d := Hit(both, 0, e, m[k..]);
    assert m[k..][8 - k..] == [];
    WriteDone(d, flash, 1, addr + 8, [], 0);
    LowEnd(flash[e - BLOCK..e], addr - (e - BLOCK), m[..k]);
  }

  lemma LowEnd(s: seq<byte>, at: nat, piece: seq<byte>)
    requires at + |piece| == |s|
    ensures Overlay(s, at, piece)[at..] == piece
  {
  }

  /** After the write, the header reads with the flash's wrong byte. */
  lemma HeaderAfter(size: nat, addr: nat, len: nat, e: nat, flash: seq<byte>, c: seq<Block>, d: seq<Block>)
    requires Start(size, addr, len, e, flash, c) && Valid(d, flash)
    requires |d| == 2 && d[0].addr == e && d[1].addr == e - BLOCK && |d[1].data| == BLOCK
    requires e - BLOCK <= addr && d[1].data[addr - (e - BLOCK)..] == Mark(len)[..e - addr]
    ensures Read(d, flash, addr, 8) == Mark(len)[e - addr := Other(Mark(len)[e - addr])]
  {
    hide Mark, Plain, Read, Valid, OnesFrom, Base;
    StartIs(size, addr, len, e, flash, c);
    ReadTwo(d, flash, addr, e);
    var k, m := e - addr, Mark(len);
    assert m[..k] + ([Other(m[k])] + m[k + 1..]) == m[k := Other(m[k])];
  }

  /** With the upper block in front of the lower one, the upper part comes from flash. */
  lemma ReadTwo(d: seq<Block>, flash: seq<byte>, addr: nat, e: nat)
    requires Valid(d, flash) && addr < e < addr + 8 <= |flash| && e % 4096 == 0
    requires |d| == 2 && d[0].addr == e && d[1].addr == e - BLOCK && |d[1].data| == BLOCK && e - BLOCK <= addr
    ensures Read(d, flash, addr, 8) == d[1].data[addr - (e - BLOCK)..] + flash[e..addr + 8]
  {
    hide ReadFrom, Find, Valid, Piece, Base;
    var k := e - addr;
    Crossing(addr, e);
    FindTwo(d, e, e - BLOCK);
    ReadUnfold(d, flash, 0, addr, 8);
    ReadUnfold(d, flash, 2, e, 8 - k);
    ReadNone(d, flash, 0, addr + 8);
    assert flash[e..addr + 8] + [] == flash[e..addr + 8];
  }

  lemma OnesKept(size: nat, addr: nat, len: nat, e: nat, flash: seq<byte>, c: seq<Block>, d: seq<Block>)
    requires Start(size, addr, len, e, flash, c) && Valid(c, flash) && OnesFrom(c, flash, addr + 8)
    requires |d| == 2 && d[0].addr == e && d[1].addr == e - BLOCK && |d[1].data| == BLOCK
    requires d[0].data == Overlay(c[0].data, 0, Mark(len)[e - addr..])
    ensures OnesFrom(d, flash, addr + 8)
  {
    hide Overlay, Mark, Plain, Valid;
    forall i, k | 0 <= i < |d| && 0 <= k < |d[i].data| && addr + 8 <= d[i].addr + k ensures d[i].data[k] == 1 {
      if i == 0 {
        OverlayAt(c[0].data, 0, Mark(len)[e - addr..], k);
        assert c[0].addr + k >= addr + 8;
      }
    }
  }

  /** The update that shows it writes no data at all. */
  lemma HeaderCrossingFails(size: nat, addr: nat, len: nat)
    requires size % 4096 == 0 && addr + 8 + len <= size && len < TWO32 && !OneBlock(addr, 8)
    ensures !RoundTrips(size, addr, len)
  {
    hide Overlay, Fill, Mark, Plain, ReadFrom, WriteFrom, Find, Valid, HeaderAt, Checksum, OnesFrom, DecodeHeader,
         EncodeHeader;
    var e := Base(addr) + BLOCK;
    BlockFits(size, e, 1);
    var flash := Plain(size, addr, len)[e := Other(Mark(len)[e - addr])];
    var c := [Block(e, Plain(size, addr, len)[e..e + BLOCK])];
    assert Start(size, addr, len, e, flash, c);
    HeaderBefore(size, addr, len, e, flash, c);
    var d := HeaderWritten(size, addr, len, e, flash, c);
    UpdateIs(size, addr, len, e, flash, c, d);
    HeaderAfter(size, addr, len, e, flash, c, d);
    OnesKept(size, addr, len, e, flash, c, d);
    Unreadable(addr, len, e - addr, flash, d);
    assert !RoundTripsFrom(size, addr, len, c, flash, 0, [], Heap(0, true, 1));
  }

  lemma UpdateIs(size: nat, addr: nat, len: nat, e: nat, flash: seq<byte>, c: seq<Block>, d: seq<Block>)
    requires Start(size, addr, len, e, flash, c) && Valid(c, flash) && OnesFrom(c, flash, addr + 8)
    requires HeaderAt(c, flash, addr) == Header(len, len)
    requires Write(c, flash, addr, Mark(len), 1) == (d, 8)
    ensures InBounds(c, flash, addr) && SetPart(c, flash, addr, 0, [], Heap(0, true, 1)) == (Ok, d)
  {
    hide Overlay, Fill, Plain, WriteFrom, Valid, HeaderAt, Checksum, OnesFrom;
    WriteDone(c, flash, 0, addr + 8, [], 0);
    ChecksumOnes(c, flash, addr + 8, len);
  }

  /** A store of ones whose header has one wrong byte rejects every read. */
  lemma Unreadable(addr: nat, len: nat, k: nat, flash: seq<byte>, d: seq<Block>)
    requires len < TWO32 && k < 8 && Valid(d, flash) && addr + 8 <= |flash| && OnesFrom(d, flash, addr + 8)
    requires Read(d, flash, addr, 8) == Mark(len)[k := Other(Mark(len)[k])]
    ensures InBounds(d, flash, addr) ==> GetPart(d, flash, addr, 0, 0, true) == Fail(Error)
  {
    hide Mark, ReadFrom, Valid, Checksum, OnesFrom, DecodeHeader;
    WrongByte(len, k, Other(Mark(len)[k]));
    if InBounds(d, flash, addr) {
      ChecksumOnes(d, flash, addr + 8, HeaderAt(d, flash, addr).len);
    }
  }

  /** A successful update can be read back from every state of cache and flash if and only if
      neither header nor body of the record crosses a 4 KB block boundary. */
  lemma RoundTripsIffCompact(size: nat, addr: nat, len: nat)
    requires size % 4096 == 0 && addr + 8 + len <= size && len < TWO32
    ensures RoundTrips(size, addr, len) <==> Compact(addr, len)
  {
    if OneBlock(addr, 8) {
      RoundTripsIffOneBlock(size, addr, len);
    } else {
      HeaderCrossingFails(size, addr, len);
    }
  }
}

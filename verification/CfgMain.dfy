/** The configuration store (lib/config/cfg_main.c): records of an 8-byte header
    (tag, len) and a body, found through a table of 3-byte index entries, read and
    written through the block cache under a lock. */
module CfgMain {
  import opened Bytes
  import opened CacheMem

  const HEADER: int := 8
  const FETCH_ONCE: int := 1024
  const INDEX_LENGTH: int := 3

  const CFG_BAW_AREAD: int := 1
  const CFG_SOUND_INFO: int := 0x0B

  datatype Res = Ok | NoData | ReadOnly | BadParameter | Error

  datatype Header = Header(tag: nat, len: nat)

  /** What an index entry says: where the record starts and its attribute bits. */
  datatype Entry = NoEntry | Entry(addr: nat, attr: nat)

  /** Bit 0 set marks an unused entry, the low four bits are the attributes, and the
      upper twenty bits are the record's distance from `origin` in words. */
  function DecodeEntry(word: nat, origin: nat): (e: Entry) {
    if word % 2 == 1 then NoEntry else Entry(word / 16 * 4 + origin, word % 16)
  }

  /** The distance in words that the three bytes of an index entry give. */
  function Distance(b0: byte, b1: byte, b2: byte): nat {
    b0 as int / 16 + 16 * (b1 as int) + 4096 * (b2 as int)
  }

  lemma EntryWord(b: seq<byte>)
    requires |b| == 3
    ensures Le(b) % 2 == b[0] % 2 && Le(b) % 16 == b[0] % 16 && Le(b) / 16 == Distance(b[0], b[1], b[2])
  {
    Le3(b);
  }

  /** The three bytes that hold distance `d` and attributes `attr` give both back. */
  lemma EntryBytes(b: seq<byte>, d: nat, attr: nat)
    requires |b| == 3 && attr < 16 && b[0] as int + 256 * (b[1] as int) + 65536 * (b[2] as int) == 16 * d + attr
    ensures b[0] % 16 == attr && b[0] % 2 == attr % 2 && Distance(b[0], b[1], b[2]) == d
  {
    var low, dist := b[0] % 16, Distance(b[0], b[1], b[2]);
    assert b[0] == 16 * (b[0] as int / 16) + low;
    assert 16 * dist + low == 16 * d + attr;
    hide Distance;
    assert low == attr && dist == d;
    assert b[0] % 2 == low % 2;
  }

  function DecodeHeader(bytes: seq<byte>): (h: Header)
    requires |bytes| == 8
    ensures h.tag < TWO32 && h.len < TWO32
  {
    Le4(bytes[..4]);
    Le4(bytes[4..]);
    Header(Le(bytes[..4]), Le(bytes[4..]))
  }

  function EncodeHeader(h: Header): (bytes: seq<byte>)
    requires h.tag < TWO32 && h.len < TWO32
    ensures |bytes| == 8
  {
    ToLe32(h.tag) + ToLe32(h.len)
  }

  lemma HeaderRoundTrip(h: Header)
    requires h.tag < TWO32 && h.len < TWO32
    ensures DecodeHeader(EncodeHeader(h)) == h
  {
    LeToLe32(h.tag);
    LeToLe32(h.len);
    var b := EncodeHeader(h);
    assert b[..4] == ToLe32(h.tag) && b[4..] == ToLe32(h.len);
  }

  function HeaderAt(c: seq<Block>, flash: seq<byte>, addr: nat): (h: Header)
    requires Valid(c, flash) && addr + 8 <= |flash|
    ensures h.tag < TWO32 && h.len < TWO32
  {
    DecodeHeader(Read(c, flash, addr, 8))
  }

  /** The bytes of a body as the checksum loops fetch them, at most 1 KB at a time. */
  function Fetch(c: seq<Block>, flash: seq<byte>, body: nat, len: nat): (r: seq<byte>)
    requires Valid(c, flash) && body + len <= |flash|
    ensures |r| == len
    decreases len
  {
    if len == 0 then []
    else
      var n := if len > 1024 then 1024 else len;
      Read(c, flash, body, n) + Fetch(c, flash, body + n, len - n)
  }

  /** The 32-bit sum that the checksum loops compute. */
  function Checksum(c: seq<Block>, flash: seq<byte>, body: nat, len: nat): (s: nat)
    requires Valid(c, flash) && body + len <= |flash|
    ensures s < TWO32
  {
    Mod32(Sum(Fetch(c, flash, body, len)))
  }

  datatype Got = Fail(res: Res) | Data(bytes: seq<byte>)

  /** A checked read of part of the record at `addr`; `heap` says whether the
      checksum buffer could be allocated. */
  function GetPart(c: seq<Block>, flash: seq<byte>, addr: nat, offset: nat, length: nat, heap: bool): (g: Got)
    requires Valid(c, flash) && InBounds(c, flash, addr) && addr + 8 + offset + length <= |flash|
    ensures g.Data? ==> |g.bytes| == length
  {
    var h := HeaderAt(c, flash, addr);
    if !heap || h.tag != Checksum(c, flash, addr + 8, h.len) then Fail(Error)
    else Data(Read(c, flash, addr + 8 + offset, length))
  }

  predicate InBounds(c: seq<Block>, flash: seq<byte>, addr: nat)
    requires Valid(c, flash)
  {
    addr + 8 <= |flash| && addr + 8 + HeaderAt(c, flash, addr).len <= |flash|
  }

  /** The heap during one update: how many cache nodes the data write and the header
      write can still get, and whether the checksum buffer can be allocated. */
  datatype Heap = Heap(forData: nat, buffer: bool, forHeader: nat)

  /** An update of part of the record at `addr`: data first, then the checksum over the
      whole body, then the header with the new tag and the length it had before. */
  function SetPart(c: seq<Block>, flash: seq<byte>, addr: nat, offset: nat, data: seq<byte>, heap: Heap)
    : (r: (Res, seq<Block>))
    requires Valid(c, flash) && InBounds(c, flash, addr)
    ensures Valid(r.1, flash)
  {
    var h := HeaderAt(c, flash, addr);
    if h.len < offset + |data| then (BadParameter, c)
    else
      var w := Write(c, flash, addr + 8 + offset, data, heap.forData);
      if w.1 != |data| || !heap.buffer then (Error, w.0)
      else
        var tag := Checksum(w.0, flash, addr + 8, h.len);
        var w2 := Write(w.0, flash, addr, EncodeHeader(Header(tag, h.len)), heap.forHeader);
        (if w2.1 == 8 then Ok else Error, w2.0)
  }

  class Config {
    const mem: Cache
    const base: nat          // start of the index table
    var valid: bool          // g_stPara.bValid
    var bodyOffset: nat      // g_stPara.u32BodyOffset
    var locked: bool         // the semaphore is taken

    constructor (mem: Cache, base: nat, valid: bool, bodyOffset: nat)
      ensures this.mem == mem && this.base == base && this.valid == valid && this.bodyOffset == bodyOffset && !locked
    {
      this.mem := mem;
      this.base := base;
      this.valid := valid;
      this.bodyOffset := bodyOffset;
      locked := false;
    }

    /** The entry of `index`; the backup area is looked up in flash, everything else
        through the cache. */
    function EntryOf(index: nat): (e: Entry)
      reads this, mem
      requires Valid(mem.nodes, mem.flash) && base + 3 * index + 3 <= |mem.flash|
    {
      if !valid && index != CFG_BAW_AREAD then NoEntry
      else
        var at := base + 3 * index;
        var bytes := if index == CFG_BAW_AREAD then mem.flash[at..at + 3] else Read(mem.nodes, mem.flash, at, 3);
        DecodeEntry(Le(bytes), if index > CFG_BAW_AREAD then base + bodyOffset else base)
    }

    /** `e` is what the three bytes of the entry say. */
    predicate SaysEntry(index: nat, e: Entry)
      reads this, mem
      requires Valid(mem.nodes, mem.flash) && base + 3 * index + 3 <= |mem.flash|
    {
      var at := base + 3 * index;
      var b := if index == 1 then mem.flash[at..at + 3] else Read(mem.nodes, mem.flash, at, 3);
      e == if (!valid && index != 1) || b[0] % 2 == 1 then NoEntry
           else Entry(base + (if index > 1 then bodyOffset else 0) + 4 * Distance(b[0], b[1], b[2]), b[0] % 16)
    }

    method Lock()
      requires !locked
      modifies this`locked
      ensures locked
    {
      locked := true;
    }

    method Unlock()
      requires locked
      modifies this`locked
      ensures !locked
    {
      locked := false;
    }

    /** hs_cfg_read: takes the lock around a single read. */
    method ReadLocked(off: nat, len: nat) returns (out: seq<byte>)
      requires !locked && Valid(mem.nodes, mem.flash) && off + len <= |mem.flash|
      modifies this`locked
      ensures !locked && out == Read(mem.nodes, mem.flash, off, len)
    {
      Lock();
      out := mem.ReadS(off, len);
      Unlock();
    }

    method GetOffsetByIndex(index: nat) returns (e: Entry)
      requires !locked && Valid(mem.nodes, mem.flash) && base + 3 * index + 3 <= |mem.flash|
      modifies this`locked
      ensures !locked && e == EntryOf(index) && SaysEntry(index, e)
    {
      hide Read, Le, Valid;
      if !valid && index != CFG_BAW_AREAD {
        return NoEntry;
      }
      var at := index * INDEX_LENGTH + base;
      var bytes;
      if index != CFG_BAW_AREAD {
        bytes := ReadLocked(at, INDEX_LENGTH);
      } else {
        bytes := mem.flash[at..at + INDEX_LENGTH];
      }
      var word := Le(bytes);
      EntryWord(bytes);
      if word % 2 == 1 {
        return NoEntry;
      }
      var addr := word / 16 * 4 + base;
      if index > CFG_BAW_AREAD {
        addr := addr + bodyOffset;
      }
      e := Entry(addr, word % 16);
    }

    /** The inner loop: adds the bytes of a buffer to a 32-bit sum. */
    static method AddBytes(start: nat, buf: seq<byte>) returns (sum: nat)
      requires start < TWO32
      ensures sum == Mod32(start + Sum(buf))
    {
      sum := start;
      Mod32Add(start, 0);
      for i := 0 to |buf|
        invariant sum == Mod32(start + Sum(buf[..i]))
      {
        assert buf[..i + 1][..i] == buf[..i];
        Mod32Add(start + Sum(buf[..i]), buf[i]);
        sum := Mod32(sum + buf[i]);
      }
      assert buf[..|buf|] == buf;
    }

    /** The loop shared by _cfg_chkData and _cfg_setChkData, with its 32-bit sum. */
    method SumBody(len: nat, body: nat) returns (sum: nat)
      requires Valid(mem.nodes, mem.flash) && body + len <= |mem.flash|
      ensures sum == Checksum(mem.nodes, mem.flash, body, len)
    {
      hide Read, Fetch, Valid, Sum, Mod32;
      sum := 0;
      var total, at := len, body;
      ghost var whole := Sum(Fetch(mem.nodes, mem.flash, body, len));
      while total > 0
        invariant 0 <= total && body <= at && at + total == body + len && 0 <= sum < TWO32
        invariant Mod32(whole) == Mod32(sum + Sum(Fetch(mem.nodes, mem.flash, at, total)))
      {
        var n := if total > FETCH_ONCE then FETCH_ONCE else total;
        var buf := mem.ReadS(at, n);
        FetchStep(mem.nodes, mem.flash, at, total);
        SumConcat(buf, Fetch(mem.nodes, mem.flash, at + n, total - n));
        Mod32Add(sum + Sum(buf), Sum(Fetch(mem.nodes, mem.flash, at + n, total - n)));
        sum := AddBytes(sum, buf);
        total, at := total - n, at + n;
      }
      SumBound(Fetch(mem.nodes, mem.flash, at, 0));
      Mod32Add(sum, 0);
    }

    method ChkData(h: Header, body: nat, heap: bool) returns (res: Res)
      requires Valid(mem.nodes, mem.flash) && body + h.len <= |mem.flash|
      ensures res == if heap && h.tag == Checksum(mem.nodes, mem.flash, body, h.len) then Ok else Error
    {
      if !heap {
        return Error;
      }
      var sum := SumBody(h.len, body);
      res := if h.tag != sum then Error else Ok;
    }

    method SetChkData(h: Header, body: nat, heap: bool) returns (res: Res, h': Header)
      requires Valid(mem.nodes, mem.flash) && body + h.len <= |mem.flash|
      ensures if heap then res == Ok && h' == Header(Checksum(mem.nodes, mem.flash, body, h.len), h.len)
              else res == Error && h' == h
    {
      if !heap {
        return Error, h;
      }
      var sum := SumBody(h.len, body);
      return Ok, h.(tag := sum);
    }

    /** Every access the call can make lies inside the flash. */
    predicate Reachable(index: nat, offset: nat, length: nat)
      reads this, mem
    {
      && Valid(mem.nodes, mem.flash)
      && base + 3 * index + 3 <= |mem.flash|
      && (EntryOf(index).Entry? ==>
            && InBounds(mem.nodes, mem.flash, EntryOf(index).addr)
            && EntryOf(index).addr + 8 + offset + length <= |mem.flash|)
    }

    /** hs_cfg_getPartDataByIndex.  The sound data is read without its checksum.
        hs_cfg_getDataByIndex is the same at offset 0, without that exception. */
    method GetPartDataByIndex(index: nat, length: nat, offset: nat, heap: bool) returns (g: Got)
      requires !locked && Reachable(index, offset, length)
      modifies this`locked
      ensures !locked
      ensures match EntryOf(index)
              case NoEntry => g == Fail(NoData)
              case Entry(addr, attr) =>
                g == if index == 0x0B then Data(Read(mem.nodes, mem.flash, addr + 8 + offset, length))
                     else GetPart(mem.nodes, mem.flash, addr, offset, length, heap)
    {
      hide Read, Checksum, Valid, SaysEntry;
      var e := GetOffsetByIndex(index);
      if e.NoEntry? {
        return Fail(NoData);
      }
      var at := e.addr;
      if index == CFG_SOUND_INFO {
        at := at + HEADER;
        at := at + offset;
        var raw := ReadLocked(at, length);
        return Data(raw);
      }
      Lock();
      var bytes := mem.ReadS(at, HEADER);
      var h := DecodeHeader(bytes);
      at := at + HEADER;
      var res := ChkData(h, at, heap);
      if res != Ok {
        Unlock();
        return Fail(res);
      }
      at := at + offset;
      var out := mem.ReadS(at, length);
      Unlock();
      return Data(out);
    }

    /** hs_cfg_setDataByIndex.  The header is read before the lock is taken; the sum
        `offset + length` must not wrap around 32 bits, as the source's own test assumes. */
    method SetDataByIndex(index: nat, data: seq<byte>, offset: nat, heap: Heap) returns (res: Res)
      requires !locked && Reachable(index, 0, 0) && offset + |data| < TWO32
      modifies this`locked, mem`nodes
      ensures !locked
      ensures match old(EntryOf(index))
              case NoEntry => res == NoData && mem.nodes == old(mem.nodes)
              case Entry(addr, attr) =>
                if attr / 2 % 2 == 0 then res == ReadOnly && mem.nodes == old(mem.nodes)
                else (res, mem.nodes) == SetPart(old(mem.nodes), mem.flash, addr, offset, data, heap)
    {
      hide Read, Write, Checksum, Valid, SaysEntry;
      var e := GetOffsetByIndex(index);
      if e.NoEntry? {
        return NoData;
      }
      if e.attr / 2 % 2 == 0 {
        return ReadOnly;
      }
      var bytes := ReadLocked(e.addr, HEADER);
      var h := DecodeHeader(bytes);
      if h.len < offset + |data| {
        return BadParameter;
      }
      Lock();
      var body := e.addr + HEADER;
      var n := mem.WriteS(offset + body, data, heap.forData);
      if n != |data| {
        Unlock();
        return Error;
      }
      var r, h2 := SetChkData(h, body, heap.buffer);
      if r != Ok {
        Unlock();
        return r;
      }
      var m := mem.WriteS(e.addr, EncodeHeader(h2), heap.forHeader);
      Unlock();
      res := if m != HEADER then Error else Ok;
    }
  }

  lemma FetchStep(c: seq<Block>, flash: seq<byte>, body: nat, len: nat)
    requires Valid(c, flash) && body + len <= |flash| && len > 0
    ensures var n := if len > 1024 then 1024 else len;
            Fetch(c, flash, body, len) == Read(c, flash, body, n) + Fetch(c, flash, body + n, len - n)
  {
  }
}

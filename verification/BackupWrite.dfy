/** Writing a cached block back to flash through the backup area, and restoring after
    a failure (lib/config/base/cfg_cachemem.c).  Power may fail during any flash
    operation: sectors are erased and pages written one after the other, and the one that
    was hit may hold anything, except that the 16 header bytes of the backup area are
    processed in ascending order. */
module BackupWrite {
  import opened Bytes
  import CfgMain
  import opened CacheMem

  const BKW_FLAG: nat := 0x4746435A
  const BKW_BLOCK: nat := 4096

  // ----- the flash chip

  datatype Op = Erase(at: nat, len: nat) | Program(at: nat, data: seq<byte>) {
    /** The chip erases whole sectors: the one that holds the address for a length below a
        sector, otherwise all that the range touches; the length 0 erases the chip. */
    predicate Covers(i: nat) {
      if Program? then at <= i < at + |data|
      else len == 0 || Base(at) <= i < if len < 4096 then Base(at) + 4096 else Base(at + len + 4095)
    }
  }

  /** Bitwise and of two numbers of `n` bits: programming can only clear bits. */
  function And(x: nat, y: nat, n: nat): (r: nat) {
    if n == 0 then 0 else x % 2 * (y % 2) + 2 * And(x / 2, y / 2, n - 1)
  }

  lemma {:induction false} AndByte(x: nat, y: nat, n: nat, top: nat)
    requires top == Pow2(n) && y < top
    ensures x < top ==> And(x, y, n) < top
    ensures And(top - 1, y, n) == y && And(x, 0, n) == 0
    decreases n
  {
    if n > 0 {
      AndByte(x / 2, y / 2, n - 1, top / 2);
      assert (top - 1) % 2 == 1 && (top - 1) / 2 == top / 2 - 1;
    }
  }

  function Pow2(n: nat): (p: nat)
    ensures p > 0 && (n > 0 ==> p % 2 == 0)
  {
    if n == 0 then 1 else 2 * Pow2(n - 1)
  }

  function Bit(x: nat, k: nat): nat {
    if k == 0 then x % 2 else Bit(x / 2, k - 1)
  }

  /** A bit is set afterwards if and only if it was set and is to be set. */
  lemma {:induction false} AndBit(x: nat, y: nat, n: nat, k: nat)
    requires k < n
    ensures Bit(And(x, y, n), k) == Bit(x, k) * Bit(y, k)
    decreases k
  {
    assert And(x, y, n) % 2 == x % 2 * (y % 2) && And(x, y, n) / 2 == And(x / 2, y / 2, n - 1);
    if k > 0 { AndBit(x / 2, y / 2, n - 1, k - 1); }
  }

  lemma ProgrammedBits(was: byte, data: byte, k: nat)
    requires k < 8
    ensures Bit(Programmed(was, data), k) == Bit(was, k) * Bit(data, k)
  {
    AndBit(was, data, 8, k);
  }

  function Programmed(was: byte, data: byte): (r: byte)
    ensures was == 255 ==> r == data
    ensures data == 0 ==> r == 0
  {
    assert Pow2(8) == 256;
    AndByte(was, data, 8, 256);
    And(was, data, 8)
  }

  /** The value of cell `i` once the operation is complete. */
  function Cell(f: seq<byte>, op: Op, i: nat): byte
    requires i < |f|
  {
    if !op.Covers(i) then f[i]
    else if op.Erase? then 255
    else Programmed(f[i], op.data[i - op.at])
  }

  function Apply(f: seq<byte>, op: Op): (g: seq<byte>)
    ensures |g| == |f|
  {
    Cells(f, op, |f|)
  }

  function Cells(f: seq<byte>, op: Op, n: nat): (g: seq<byte>)
    requires n <= |f|
    ensures |g| == n
  {
    if n == 0 then [] else Cells(f, op, n - 1) + [Cell(f, op, n - 1)]
  }

  lemma {:induction false} CellsAt(f: seq<byte>, op: Op, n: nat, i: nat)
    requires i < n <= |f|
    ensures Cells(f, op, n)[i] == Cell(f, op, i)
  {
    if i < n - 1 { CellsAt(f, op, n - 1, i); }
  }

  lemma ApplyAt(f: seq<byte>, op: Op, i: nat)
    requires i < |f|
    ensures Apply(f, op)[i] == Cell(f, op, i)
  {
    CellsAt(f, op, |f|, i);
  }

  lemma OverlayElsewhere(s: seq<byte>, at: nat, piece: seq<byte>, j: nat)
    requires at + |piece| <= |s| && j < |s| && !(at <= j < at + |piece|)
    ensures Overlay(s, at, piece)[j] == s[j]
  {
  }

  /** Sectors before number `n` erased, those behind it untouched. */
  lemma SectorOrder(f: seq<byte>, at: nat, len: nat, n: nat, g: seq<byte>)
    requires len > 0 && |g| == |f|
    requires forall j | 0 <= j < |f| && Base(at) <= j < Base(at) + 4096 * n :: g[j] == 255
    requires forall j | 0 <= j < |f| && Base(at) + 4096 * (n + 1) <= j :: g[j] == f[j]
    ensures UnitsInOrder(f, Erase(at, len), g)
  {
    forall i, j | 0 <= i < |f| && 0 <= j < |f| && Erase(at, len).Covers(i) && Erase(at, len).Covers(j)
      && Earlier(Erase(at, len), i, j) && g[j] != f[j]
      ensures g[i] == Cell(f, Erase(at, len), i)
    {
      assert j < Base(at) + 4096 * (n + 1);
    }
  }

  lemma NextBase(at: nat, i: nat)
    ensures Base(at + 4096 * i) == Base(at) + 4096 * i
  {
  }

  lemma ProgramNothing(f: seq<byte>, at: nat)
    ensures Apply(f, Program(at, [])) == f
  {
    hide Apply;
    forall i | 0 <= i < |f| ensures Apply(f, Program(at, []))[i] == f[i] {
      ApplyAt(f, Program(at, []), i);
    }
  }

  /** Programming in two parts is programming the whole. */
  lemma ProgramSplit(f: seq<byte>, at: nat, a: seq<byte>, b: seq<byte>)
    ensures Apply(Apply(f, Program(at, a)), Program(at + |a|, b)) == Apply(f, Program(at, a + b))
  {
    hide Apply, Programmed;
    var g := Apply(f, Program(at, a));
    forall i | 0 <= i < |f| ensures Apply(g, Program(at + |a|, b))[i] == Apply(f, Program(at, a + b))[i] {
      ApplyAt(f, Program(at, a), i);
      ApplyAt(g, Program(at + |a|, b), i);
      ApplyAt(f, Program(at, a + b), i);
    }
  }

  /** The driver erases sector by sector and writes page by page, in ascending order, and waits
      for each; so cell `i` is done before cell `j` is touched. */
  predicate Earlier(op: Op, i: nat, j: nat) {
    if op.Program? then i / 256 < j / 256 else op.len > 0 && i / 4096 < j / 4096
  }

  predicate UnitsInOrder(f: seq<byte>, op: Op, g: seq<byte>)
    requires |g| == |f|
  {
    forall i, j | 0 <= i < |f| && 0 <= j < |f| && op.Covers(i) && op.Covers(j) && Earlier(op, i, j) ::
      g[j] != f[j] ==> g[i] == Cell(f, op, i)
  }

  /** `g` is a possible flash after the operation was interrupted: sectors or pages before the
      one that was hit are done, those behind it untouched, and of the header bytes covered,
      the first `k` are done. */
  predicate TornAt(f: seq<byte>, op: Op, bw: nat, g: seq<byte>, k: nat) {
    && |g| == |f| && UnitsInOrder(f, op, g)
    && forall i | 0 <= i < |f| ::
         && (!op.Covers(i) ==> g[i] == f[i])
         && (op.Covers(i) && bw <= i < bw + 16 ==> g[i] == if i < bw + k then Cell(f, op, i) else f[i])
  }

  predicate Torn(f: seq<byte>, op: Op, bw: nat, g: seq<byte>) {
    exists k | 0 <= k <= 16 :: TornAt(f, op, bw, g, k)
  }

  /** Every interrupted state can be picked; a pick that is none means "not started". */
  function Interrupted(f: seq<byte>, op: Op, bw: nat, pick: seq<byte>): (g: seq<byte>)
    ensures |g| == |f|
  {
    if Torn(f, op, bw, pick) then pick else f
  }

  lemma InterruptedTorn(f: seq<byte>, op: Op, bw: nat, pick: seq<byte>) returns (k: nat)
    ensures k <= 16 && TornAt(f, op, bw, Interrupted(f, op, bw, pick), k)
  {
    assert TornAt(f, op, bw, f, 0);
    k :| 0 <= k <= 16 && TornAt(f, op, bw, Interrupted(f, op, bw, pick), k);
  }

  /** Where a run fails: during operation number `step`, if there are that many. */
  datatype Fault = Fault(step: nat, pick: seq<byte>)

  function RunOps(f: seq<byte>, ops: seq<Op>, bw: nat, fault: Fault): (g: seq<byte>)
    ensures |g| == |f|
    decreases |ops|
  {
    if ops == [] then f
    else if fault.step == 0 then Interrupted(f, ops[0], bw, fault.pick)
    else RunOps(Apply(f, ops[0]), ops[1..], bw, Fault(fault.step - 1, fault.pick))
  }

  // ----- the backup area

  datatype Info = Info(addr: nat, len: nat)

  function InfoBytes(info: Info): (b: seq<byte>)
    requires info.addr < TWO32 && info.len < TWO32
    ensures |b| == 16
  {
    var head := ToLe32(BKW_FLAG) + ToLe32(info.addr) + ToLe32(info.len);
    SumBound(head);
    head + ToLe32(Sum(head))
  }

  predicate InfoOk(b: seq<byte>)
    requires |b| == 16
  {
    Le(b[12..]) == Mod32(Sum(b[..12])) && Le(b[..4]) == BKW_FLAG
  }

  /** The header of the backup area byte by byte: flag, address, length, and the sum of these
      twelve bytes, least significant byte first. */
  lemma InfoLayout(addr: nat)
    requires addr < TWO32
    ensures var b := InfoBytes(Info(addr, 4096));
            && b[..4] == [0x5A, 0x43, 0x46, 0x47]
            && b[4..8] == [addr % 256, addr / 256 % 256, addr / 65536 % 256, addr / 16777216]
            && b[8..12] == [0, 16, 0, 0]
            && Le(b[12..]) == Sum(b[..12])
  {
    hide Le, Sum;
    var head := ToLe32(BKW_FLAG) + ToLe32(addr) + ToLe32(4096);
    SumBound(head);
    LeToLe32(Sum(head));
    var b := InfoBytes(Info(addr, 4096));
    assert b[..12] == head && b[12..] == ToLe32(Sum(head));
  }

  function HeaderOf(f: seq<byte>, bw: nat): (b: seq<byte>)
    requires bw + 16 <= |f|
    ensures |b| == 16
  {
    f[bw..bw + 16]
  }

  /** Where the backup area starts, from its index entry in flash; none if the entry is
      marked unused or points outside the flash. */
  function BackupArea(f: seq<byte>, base: nat): (r: CfgMain.Entry)
    ensures r.Entry? ==> r.addr + 8192 <= |f|
  {
    if base + 6 > |f| then CfgMain.NoEntry
    else
      var e := CfgMain.DecodeEntry(Le(f[base + 3..base + 6]), base);
      if e.Entry? && e.addr + 8 + 8192 <= |f| then CfgMain.Entry(e.addr + 8, e.attr) else CfgMain.NoEntry
  }

  /** The area from the three bytes of its index entry: as many words behind the base as they
      say, and behind the 8 header bytes of the record that it is. */
  lemma AreaFromBytes(f: seq<byte>, base: nat, d: nat, attr: nat)
    requires base + 6 <= |f| && attr < 16
    requires f[base + 3] as int + 256 * (f[base + 4] as int) + 65536 * (f[base + 5] as int) == 16 * d + attr
    ensures BackupArea(f, base) ==
            if attr % 2 == 0 && base + 4 * d + 8 + 8192 <= |f| then CfgMain.Entry(base + 4 * d + 8, attr)
            else CfgMain.NoEntry
  {
    hide Le, CfgMain.Distance;
    CfgMain.EntryBytes(f[base + 3..base + 6], d, attr);
    CfgMain.EntryWord(f[base + 3..base + 6]);
  }

  /** hs_cfg_getOffsetByIndex for the backup area: where the lookup puts its record, and the
      header skipped; block writes and restores use this area. */
  method LookUpArea(cfg: CfgMain.Config) returns (e: CfgMain.Entry)
    requires !cfg.locked && Valid(cfg.mem.nodes, cfg.mem.flash) && cfg.base + 6 <= |cfg.mem.flash|
    modifies cfg`locked
    ensures !cfg.locked
    ensures match cfg.EntryOf(1)
            case NoEntry => e.NoEntry?
            case Entry(addr, attr) => e == CfgMain.Entry(addr + 8, attr)
    ensures BackupArea(cfg.mem.flash, cfg.base) ==
            if e.Entry? && e.addr + 8192 <= |cfg.mem.flash| then e else CfgMain.NoEntry
  {
    hide Le, Valid, CfgMain.Config.SaysEntry;
    e := cfg.GetOffsetByIndex(CfgMain.CFG_BAW_AREAD);
    if e.Entry? {
      e := e.(addr := e.addr + CfgMain.HEADER);
    }
  }

  function Zero(n: nat): (s: seq<byte>)
    ensures |s| == n
  {
    if n == 0 then [] else [0] + Zero(n - 1)
  }

  lemma {:induction false} ZeroAt(n: nat, i: nat)
    requires i < n
    ensures Zero(n)[i] == 0
  {
    if i > 0 { ZeroAt(n - 1, i - 1); }
  }

  /** The flash operations of _cfg_cachemem_blockwr. */
  function BlockOps(bw: nat, target: nat, data: seq<byte>): (ops: seq<Op>)
    requires target < TWO32
  {
    [ Erase(bw, 8192),
      Program(bw + 4096, data),
      Program(bw, InfoBytes(Info(target, BKW_BLOCK))),
      Erase(target, 4096),
      Program(target, data),
      Program(bw, Zero(16)) ]
  }

  /** The flash operations of _cfg_cachemem_restore once the header checks out. */
  function RestoreOps(f: seq<byte>, bw: nat): (ops: seq<Op>)
    requires bw + 8192 <= |f|
  {
    var h := HeaderOf(f, bw);
    var addr, len := Le(h[4..8]), Le(h[8..12]);
    [ Erase(addr, len), Program(addr, Saved(f, bw, len)), Erase(bw, 16), Program(bw, Zero(len)) ]
  }

  /** The block saved in the backup area; a length that leads out of the flash reads nothing. */
  function Saved(f: seq<byte>, bw: nat, len: nat): seq<byte> {
    if bw + 4096 + len <= |f| then f[bw + 4096..bw + 4096 + len] else []
  }

  /** One run of the restore, interrupted or not. */
  function Restore(f: seq<byte>, base: nat, fault: Fault): (g: seq<byte>)
    ensures |g| == |f|
  {
    match BackupArea(f, base)
    case NoEntry => f
    case Entry(bw, _) =>
      if InfoOk(HeaderOf(f, bw)) then RunOps(f, RestoreOps(f, bw), bw, fault) else f
  }

  /** Any number of failed restores, then one that is not interrupted. */
  function Recover(f: seq<byte>, base: nat, faults: seq<Fault>): (g: seq<byte>)
    ensures |g| == |f|
    decreases |faults|
  {
    if faults == [] then Restore(f, base, Fault(4, []))
    else Recover(Restore(f, base, faults[0]), base, faults[1..])
  }

  class Device {
    var bytes: seq<byte>

    constructor (bytes: seq<byte>)
      ensures this.bytes == bytes
    {
      this.bytes := bytes;
    }

    /** sf_sector_erase: the low bits of the address are ignored. */
    method SectorErase(at: nat)
      modifies this
      ensures bytes == Apply(old(bytes), Erase(at, 1))
    {
      bytes := Apply(bytes, Erase(at, 1));
    }

    /** The loop of sf_lld_erase. */
    method EraseSectors(at: nat, count: nat)
      modifies this
      ensures |bytes| == |old(bytes)|
      ensures forall j | 0 <= j < |bytes| ::
                bytes[j] == if Base(at) <= j < Base(at) + 4096 * count then 255 else old(bytes)[j]
    {
      hide Apply;
      ghost var f := bytes;
      var i := 0;
      while i < count
        invariant 0 <= i <= count && |bytes| == |f|
        invariant forall j | 0 <= j < |f| :: bytes[j] == if Base(at) <= j < Base(at) + 4096 * i then 255 else f[j]
      {
        ghost var g := bytes;
        SectorErase(at + 4096 * i);
        NextBase(at, i);
        forall j | 0 <= j < |f|
          ensures bytes[j] == if Base(at) <= j < Base(at) + 4096 * (i + 1) then 255 else f[j]
        {
          ApplyAt(g, Erase(at + 4096 * i, 1), j);
        }
        i := i + 1;
      }
    }

    /** hs_cfg_halErase and sf_lld_erase: counts the sectors and erases them one by one. */
    method HalErase(at: nat, len: nat)
      modifies this
      ensures bytes == Apply(old(bytes), Erase(at, len))
    {
      hide Apply;
      if len == 0 {
        bytes := Apply(bytes, Erase(at, 0));
        return;
      }
      ghost var f := bytes;
      var count := SectorCount(at, len);
      EraseSectors(at, count);
      forall j | 0 <= j < |f| ensures bytes[j] == Apply(f, Erase(at, len))[j] {
        ApplyAt(f, Erase(at, len), j);
      }
    }

    /** The same, cut off in sector number `n`, which is left with `junk` in it: an interrupted
        erase as `UnitsInOrder` has it. */
    method CutOffErase(at: nat, len: nat, n: nat, junk: seq<byte>)
      requires len > 0 && |junk| == 4096 && |bytes| % 4096 == 0
      modifies this
      ensures |bytes| == |old(bytes)| && UnitsInOrder(old(bytes), Erase(at, len), bytes)
      ensures forall j | 0 <= j < |bytes| && !Erase(at, len).Covers(j) :: bytes[j] == old(bytes)[j]
    {
      hide Overlay, Apply;
      ghost var f := bytes;
      var count := SectorCount(at, len);
      EraseSectors(at, if n < count then n else count);
      var torn := Base(at) + 4096 * n;
      if n < count && torn + 4096 <= |bytes| {
        ghost var g := bytes;
        bytes := Overlay(bytes, torn, junk);
        forall j | 0 <= j < |f| && !(torn <= j < torn + 4096) ensures bytes[j] == g[j] {
          OverlayElsewhere(g, torn, junk, j);
        }
      }
      SectorOrder(f, at, len, if n < count then n else count, bytes);
    }

    /** The number of sectors that sf_lld_erase erases: as many as lie between the sector of
        the address and the end of the range rounded up. */
    static method SectorCount(at: nat, len: nat) returns (count: nat)
      requires len > 0
      ensures Base(at) + 4096 * count == if len < 4096 then Base(at) + 4096 else Base(at + len + 4095)
    {
      if len < 4096 {
        return 1;
      }
      count := 0;
      var head := at % 4096;
      if head != 0 {
        count := count + 1;
        head := 4096 - head;
      }
      var tail := (at + len) % 4096;
      if tail != 0 {
        count := count + 1;
      }
      count := count + (len - head - tail) / 4096;
    }

    /** hs_cfg_halWrite: at most 256 bytes at a time. */
    method HalWrite(at: nat, data: seq<byte>)
      modifies this
      ensures bytes == Apply(old(bytes), Program(at, data))
    {
      hide Apply;
      ghost var f := bytes;
      var done := 0;
      ProgramNothing(f, at);
      while done < |data|
        invariant 0 <= done <= |data| && bytes == Apply(f, Program(at, data[..done]))
      {
        var n := if |data| - done > 256 then 256 else |data| - done;
        PagedWrite(at + done, data[done..done + n]);
        ProgramSplit(f, at, data[..done], data[done..done + n]);
        assert data[..done + n] == data[..done] + data[done..done + n];
        done := done + n;
      }
      assert data[..done] == data;
    }

    /** sf_lld_write: up to the end of the first page, then page by page. */
    method PagedWrite(at: nat, data: seq<byte>)
      modifies this
      ensures bytes == Apply(old(bytes), Program(at, data))
    {
      hide Apply;
      ghost var f := bytes;
      var done := 0;
      ProgramNothing(f, at);
      if at % 256 != 0 {
        done := if |data| > 256 - at % 256 then 256 - at % 256 else |data|;
        bytes := Apply(bytes, Program(at, data[..done]));
      }
      assert data[..0] == [];
      while done < |data|
        invariant 0 <= done <= |data| && bytes == Apply(f, Program(at, data[..done]))
      {
        var n := if |data| - done > 256 then 256 else |data| - done;
        bytes := Apply(bytes, Program(at + done, data[done..done + n]));
        ProgramSplit(f, at, data[..done], data[done..done + n]);
        assert data[..done + n] == data[..done] + data[done..done + n];
        done := done + n;
      }
      assert data[..done] == data;
    }

    /** One flash operation; `fails` models a reported error or a loss of power. */
    method Do(op: Op, bw: nat, fails: bool, pick: seq<byte>) returns (ok: bool)
      modifies this
      ensures ok == !fails
      ensures bytes == if fails then Interrupted(old(bytes), op, bw, pick) else Apply(old(bytes), op)
    {
      if fails {
        bytes := Interrupted(bytes, op, bw, pick);
        return false;
      }
      match op {
        case Erase(at, len) => HalErase(at, len);
        case Program(at, data) => HalWrite(at, data);
      }
      ok := true;
    }

    method BlockWrite(base: nat, target: nat, data: seq<byte>, fault: Fault) returns (ok: bool)
      requires target < TWO32
      modifies this
      ensures match BackupArea(old(bytes), base)
              case NoEntry => !ok && bytes == old(bytes)
              case Entry(bw, _) =>
                && ok == (fault.step >= 6)
                && bytes == RunOps(old(bytes), BlockOps(bw, target, data), bw, fault)
    {
      hide InfoBytes, Interrupted, Apply, RunOps, BackupArea;
      var info := InfoBytes(Info(target, BKW_BLOCK));
      var e := BackupArea(bytes, base);
      if e.NoEntry? { return false; }
      var bw := e.addr;
      SixSteps(bytes, BlockOps(bw, target, data), bw, fault);
      ok := Do(Erase(bw, BKW_BLOCK * 2), bw, fault.step == 0, fault.pick);
      if !ok { return; }
      ok := Do(Program(bw + BKW_BLOCK, data), bw, fault.step == 1, fault.pick);
      if !ok { return; }
      ok := Do(Program(bw, info), bw, fault.step == 2, fault.pick);
      if !ok { return; }
      ok := Do(Erase(target, BKW_BLOCK), bw, fault.step == 3, fault.pick);
      if !ok { return; }
      ok := Do(Program(target, data), bw, fault.step == 4, fault.pick);
      if !ok { return; }
      ok := Do(Program(bw, Zero(16)), bw, fault.step == 5, fault.pick);
    }

    /** `heap` says whether the buffer for the saved block could be allocated. */
    method RestoreBlock(base: nat, heap: bool, fault: Fault) returns (ok: bool)
      modifies this
      ensures if BackupArea(old(bytes), base).NoEntry? then !ok && bytes == old(bytes)
              else if !InfoOk(HeaderOf(old(bytes), BackupArea(old(bytes), base).addr)) then ok && bytes == old(bytes)
              else if !heap then !ok && bytes == old(bytes)
              else ok == (fault.step >= 4) && bytes == Restore(old(bytes), base, fault)
    {
      hide InfoOk, Interrupted, Apply, RunOps, BackupArea;
      var e := BackupArea(bytes, base);
      if e.NoEntry? { return false; }
      var bw := e.addr;
      var h := HeaderOf(bytes, bw);
      if !InfoOk(h) { return true; }
      if !heap { return false; }
      var addr, len := Le(h[4..8]), Le(h[8..12]);
      var saved := Saved(bytes, bw, len);
      FourSteps(bytes, RestoreOps(bytes, bw), bw, fault);
      ok := Do(Erase(addr, len), bw, fault.step == 0, fault.pick);
      if !ok { return; }
      ok := Do(Program(addr, saved), bw, fault.step == 1, fault.pick);
      if !ok { return; }
      ok := Do(Erase(bw, 16), bw, fault.step == 2, fault.pick);
      if !ok { return; }
      ok := Do(Program(bw, Zero(len)), bw, fault.step == 3, fault.pick);
    }
  }

  // ----- runs of four and of six operations, written out

  lemma StepOps(f: seq<byte>, ops: seq<Op>, bw: nat, fault: Fault)
    requires |ops| > 0
    ensures RunOps(f, ops, bw, fault) ==
            if fault.step == 0 then Interrupted(f, ops[0], bw, fault.pick)
            else RunOps(Apply(f, ops[0]), ops[1..], bw, Fault(fault.step - 1, fault.pick))
  {
  }

  lemma FourSteps(f: seq<byte>, ops: seq<Op>, bw: nat, fault: Fault)
    requires |ops| == 4
    ensures var f1 := Apply(f, ops[0]);
            var f2 := Apply(f1, ops[1]);
            var f3 := Apply(f2, ops[2]);
            RunOps(f, ops, bw, fault) ==
            match fault.step
            case 0 => Interrupted(f, ops[0], bw, fault.pick)
            case 1 => Interrupted(f1, ops[1], bw, fault.pick)
            case 2 => Interrupted(f2, ops[2], bw, fault.pick)
            case 3 => Interrupted(f3, ops[3], bw, fault.pick)
            case _ => Apply(f3, ops[3])
  {
    hide RunOps, Interrupted, Apply;
    var p := fault.pick;
    var f1 := Apply(f, ops[0]);
    var f2 := Apply(f1, ops[1]);
    var f3 := Apply(f2, ops[2]);
    var o1, o2, o3 := ops[1..], ops[1..][1..], ops[1..][1..][1..];
    assert o1[0] == ops[1] && o2[0] == ops[2] && o3[0] == ops[3] && o3[1..] == [];
    StepOps(f, ops, bw, fault);
    if fault.step > 0 {
      StepOps(f1, o1, bw, Fault(fault.step - 1, p));
      if fault.step > 1 {
        StepOps(f2, o2, bw, Fault(fault.step - 2, p));
        if fault.step > 2 {
          StepOps(f3, o3, bw, Fault(fault.step - 3, p));
          if fault.step > 3 { NoOps(Apply(f3, ops[3]), bw, Fault(fault.step - 4, p)); }
        }
      }
    }
  }

  lemma NoOps(f: seq<byte>, bw: nat, fault: Fault)
    ensures RunOps(f, [], bw, fault) == f
  {
  }

  lemma SixSteps(f: seq<byte>, ops: seq<Op>, bw: nat, fault: Fault)
    requires |ops| == 6
    ensures var f2 := Apply(Apply(f, ops[0]), ops[1]);
            var f4 := Apply(Apply(f2, ops[2]), ops[3]);
            RunOps(f, ops, bw, fault) ==
            match fault.step
            case 0 => Interrupted(f, ops[0], bw, fault.pick)
            case 1 => Interrupted(Apply(f, ops[0]), ops[1], bw, fault.pick)
            case 2 => Interrupted(f2, ops[2], bw, fault.pick)
            case 3 => Interrupted(Apply(f2, ops[2]), ops[3], bw, fault.pick)
            case 4 => Interrupted(f4, ops[4], bw, fault.pick)
            case 5 => Interrupted(Apply(f4, ops[4]), ops[5], bw, fault.pick)
            case _ => Apply(Apply(f4, ops[4]), ops[5])
  {
    hide RunOps, Interrupted, Apply;
    StepOps(f, ops, bw, fault);
    if fault.step > 0 {
      var o1 := ops[1..];
      StepOps(Apply(f, ops[0]), o1, bw, Fault(fault.step - 1, fault.pick));
      if fault.step > 1 {
        var o2 := o1[1..];
        assert o1[0] == ops[1] && o2[0] == ops[2] && o2[1] == ops[3] && o2[2] == ops[4] && o2[3] == ops[5];
        FourSteps(Apply(Apply(f, ops[0]), ops[1]), o2, bw, Fault(fault.step - 2, fault.pick));
      }
    }
  }
}

/** What a block write and a restore leave in flash, wherever they are cut off, and what any
    number of restores makes of it. */
module BackupLaws {
  import opened Bytes
  import opened BackupWrite
  import CacheMem
  import CfgMain

  /** Block and index table are blocks of the flash, and the backup area, which may begin
      anywhere, lies in the flash and meets neither. */
  predicate Layout(f: seq<byte>, base: nat, bw: nat, t: nat) {
    && base % 4096 == 0 && t % 4096 == 0
    && base + 4096 <= |f| && t + 4096 <= |f| && bw + 8192 <= |f| && |f| <= TWO32
    && (t + 4096 <= bw || bw + 8192 <= t)
    && (base + 4096 <= bw || bw + 8192 <= base)
    && BackupArea(f, base).Entry? && BackupArea(f, base).addr == bw
  }

  predicate InTarget(t: nat, i: nat) {
    t <= i < t + 4096
  }

  predicate InArea(bw: nat, i: nat) {
    bw <= i < bw + 8192
  }

  /** The sectors that the backup area touches; they are erased with it. */
  predicate InBackup(bw: nat, i: nat) {
    Erase(bw, 8192).Covers(i)
  }

  lemma Sectors(bw: nat, i: nat)
    ensures InArea(bw, i) ==> InBackup(bw, i)
    ensures bw % 4096 == 0 ==> (InBackup(bw, i) <==> InArea(bw, i))
    ensures bw % 4096 != 0 ==> CacheMem.Base(bw) < bw && InBackup(bw, CacheMem.Base(bw))
  {
  }

  /** A whole block that does not meet the backup area does not meet its sectors either. */
  lemma SectorsApart(bw: nat, t: nat, i: nat)
    requires t % 4096 == 0 && (t + 4096 <= bw || bw + 8192 <= t) && InTarget(t, i)
    ensures !InBackup(bw, i)
  {
  }

  /** Nothing outside the block and the sectors of the backup area has changed. */
  ghost predicate RestKept(f: seq<byte>, g: seq<byte>, bw: nat, t: nat) {
    && |g| == |f|
    && forall i | 0 <= i < |f| && !InTarget(t, i) && !InBackup(bw, i) :: g[i] == f[i]
  }

  /** No restore is due and the block holds `content`. */
  ghost predicate Settled(f: seq<byte>, g: seq<byte>, bw: nat, t: nat, content: seq<byte>)
    requires bw + 8192 <= |f| && t + 4096 <= |f|
  {
    && RestKept(f, g, bw, t)
    && !InfoOk(HeaderOf(g, bw))
    && g[t..t + 4096] == content
  }

  /** A restore is due that will write `data` to the block. */
  ghost predicate Pending(f: seq<byte>, g: seq<byte>, bw: nat, t: nat, data: seq<byte>)
    requires bw + 8192 <= |f| && t + 4096 <= |f| && t < TWO32
  {
    && RestKept(f, g, bw, t)
    && HeaderOf(g, bw) == InfoBytes(Info(t, BKW_BLOCK))
    && g[bw + 4096..bw + 8192] == data
  }

  // ----- the header

  lemma WrongFlag(b: seq<byte>)
    requires |b| == 16 && b[0] != 0x5A
    ensures !InfoOk(b)
  {
    Le4(b[..4]);
    assert Le(b[..4]) % 256 == b[0];
  }

  /** While its last byte is still erased, a header never checks out. */
  lemma UnfinishedInfo(b: seq<byte>)
    requires |b| == 16 && b[15] == 255
    ensures !InfoOk(b)
  {
    Le4(b[12..]);
    SumBound(b[..12]);
    Mod32Add(Sum(b[..12]), 0);
  }

  lemma InfoBytesOk(info: Info)
    requires info.addr < TWO32 && info.len < TWO32
    ensures var b := InfoBytes(info);
            InfoOk(b) && Le(b[4..8]) == info.addr && Le(b[8..12]) == info.len && b[0] == 0x5A
  {
    hide Le, ToLe32, Sum;
    var b := InfoBytes(info);
    var head := ToLe32(BKW_FLAG) + ToLe32(info.addr) + ToLe32(info.len);
    SumBound(head);
    assert b[..12] == head && b[12..] == ToLe32(Sum(head));
    assert b[..4] == ToLe32(BKW_FLAG) && b[4..8] == ToLe32(info.addr) && b[8..12] == ToLe32(info.len);
    LeToLe32(Sum(head));
    LeToLe32(BKW_FLAG);
    LeToLe32(info.addr);
    LeToLe32(info.len);
    Mod32Add(Sum(head), 0);
    FlagByte();
  }

  lemma FlagByte()
    ensures ToLe32(BKW_FLAG)[0] == 0x5A
  {
  }

  // ----- single operations

  ghost predicate OnTarget(op: Op, t: nat) {
    forall i: nat | op.Covers(i) :: InTarget(t, i)
  }

  ghost predicate OnBackup(op: Op, bw: nat) {
    forall i: nat | op.Covers(i) :: InBackup(bw, i)
  }

  lemma TargetOps(t: nat, data: seq<byte>)
    requires t % 4096 == 0 && |data| == 4096
    ensures OnTarget(Erase(t, 4096), t) && OnTarget(Program(t, data), t)
    ensures forall i: nat | InTarget(t, i) :: Erase(t, 4096).Covers(i)
  {
  }

  lemma BackupOps(bw: nat, data: seq<byte>, info: seq<byte>)
    requires |data| == 4096 && |info| <= 4096
    ensures OnBackup(Erase(bw, 8192), bw) && OnBackup(Program(bw + 4096, data), bw) && OnBackup(Program(bw, info), bw)
    ensures OnBackup(Erase(bw, 16), bw)
    ensures forall i: nat | bw + 4096 <= i < bw + 8192 :: !Erase(bw, 16).Covers(i)
    ensures Erase(bw, 16).Covers(bw) && forall i: nat | InArea(bw, i) :: Erase(bw, 8192).Covers(i)
  {
    forall i: nat | InArea(bw, i) ensures InBackup(bw, i) { Sectors(bw, i); }
  }

  lemma ApplyTorn(f: seq<byte>, op: Op, bw: nat)
    ensures TornAt(f, op, bw, Apply(f, op), 16)
  {
    hide Apply, Cell;
    forall i | 0 <= i < |f| ensures Apply(f, op)[i] == Cell(f, op, i) && (!op.Covers(i) ==> Cell(f, op, i) == f[i]) {
      ApplyAt(f, op, i);
      OutsideCell(f, op, i);
    }
  }

  lemma OutsideCell(f: seq<byte>, op: Op, i: nat)
    requires i < |f|
    ensures !op.Covers(i) ==> Cell(f, op, i) == f[i]
  {
  }

  lemma TornKeepsRest(f: seq<byte>, g: seq<byte>, op: Op, bw: nat, t: nat, h: seq<byte>, k: nat)
    requires RestKept(f, g, bw, t) && (OnTarget(op, t) || OnBackup(op, bw)) && TornAt(g, op, bw, h, k)
    ensures RestKept(f, h, bw, t)
  {
    hide Cell, InBackup;
  }

  /** A completed erase. */
  lemma ErasedRange(f: seq<byte>, at: nat, len: nat)
    ensures forall i | 0 <= i < |f| && Erase(at, len).Covers(i) :: Apply(f, Erase(at, len))[i] == 255
  {
    hide Apply;
    forall i | 0 <= i < |f| && Erase(at, len).Covers(i) ensures Apply(f, Erase(at, len))[i] == 255 {
      ApplyAt(f, Erase(at, len), i);
    }
  }

  /** A completed write over erased cells. */
  lemma ProgrammedRange(f: seq<byte>, at: nat, data: seq<byte>)
    requires at + |data| <= |f| && forall i | at <= i < at + |data| :: f[i] == 255
    ensures Apply(f, Program(at, data))[at..at + |data|] == data
  {
    hide Apply;
    var g := Apply(f, Program(at, data));
    forall i | 0 <= i < |data| ensures g[at + i] == data[i] {
      ApplyAt(f, Program(at, data), at + i);
    }
  }

  /** An operation on the block, complete or not, does not disturb the backup area. */
  lemma TargetOpKeepsPending(f: seq<byte>, g: seq<byte>, op: Op, base: nat, bw: nat, t: nat, h: seq<byte>, k: nat,
                             data: seq<byte>)
    requires Layout(f, base, bw, t) && Pending(f, g, bw, t, data)
    requires OnTarget(op, t) && TornAt(g, op, bw, h, k)
    ensures Pending(f, h, bw, t, data)
  {
    hide Cell, InfoBytes, BackupArea, InBackup;
    TornKeepsRest(f, g, op, bw, t, h, k);
    assert HeaderOf(h, bw) == HeaderOf(g, bw);
    assert h[bw + 4096..bw + 8192] == g[bw + 4096..bw + 8192];
  }

  /** An operation on the backup area does not disturb the block. */
  lemma BackupOpKeepsTarget(f: seq<byte>, g: seq<byte>, op: Op, base: nat, bw: nat, t: nat, h: seq<byte>, k: nat)
    requires Layout(f, base, bw, t) && |g| == |f|
    requires OnBackup(op, bw) && TornAt(g, op, bw, h, k)
    ensures h[t..t + 4096] == g[t..t + 4096]
  {
    hide Cell, BackupArea, InBackup;
    forall i | t <= i < t + 4096 ensures h[i] == g[i] {
      SectorsApart(bw, t, i);
    }
  }

  // ----- operations on the header bytes

  lemma HeaderErased(g: seq<byte>, bw: nat, len: nat, h: seq<byte>, k: nat)
    requires bw + 16 <= |g| && Erase(bw, len).Covers(bw) && TornAt(g, Erase(bw, len), bw, h, k)
    ensures k == 0 ==> HeaderOf(h, bw) == HeaderOf(g, bw)
    ensures k > 0 || !InfoOk(HeaderOf(g, bw)) ==> !InfoOk(HeaderOf(h, bw))
  {
    hide InfoOk;
    if k == 0 {
      assert HeaderOf(h, bw) == HeaderOf(g, bw);
    } else {
      assert HeaderOf(h, bw)[0] == h[bw] == 255;
      WrongFlag(HeaderOf(h, bw));
    }
  }

  lemma HeaderCleared(g: seq<byte>, bw: nat, n: nat, h: seq<byte>, k: nat)
    requires bw + 16 <= |g| && n >= 16 && TornAt(g, Program(bw, Zero(n)), bw, h, k)
    ensures k == 0 ==> HeaderOf(h, bw) == HeaderOf(g, bw)
    ensures k > 0 || !InfoOk(HeaderOf(g, bw)) ==> !InfoOk(HeaderOf(h, bw))
  {
    hide InfoOk, Zero, Programmed;
    if k == 0 {
      assert HeaderOf(h, bw) == HeaderOf(g, bw);
    } else {
      ZeroAt(n, 0);
      assert HeaderOf(h, bw)[0] == h[bw] == 0;
      WrongFlag(HeaderOf(h, bw));
    }
  }

  lemma HeaderWritten(g: seq<byte>, bw: nat, info: seq<byte>, h: seq<byte>, k: nat)
    requires bw + 16 <= |g| && |info| == 16 && TornAt(g, Program(bw, info), bw, h, k)
    requires forall i | bw <= i < bw + 16 :: g[i] == 255
    ensures if k >= 16 then HeaderOf(h, bw) == info else !InfoOk(HeaderOf(h, bw))
  {
    hide InfoOk, Programmed;
    var b := HeaderOf(h, bw);
    if k >= 16 {
      assert forall i | 0 <= i < 16 :: b[i] == h[bw + i] == info[i];
    } else {
      assert b[15] == h[bw + 15] == 255;
      UnfinishedInfo(b);
    }
  }

  // ----- the block write, stage by stage

  /** After the backup area has been erased. */
  ghost predicate Blank(f: seq<byte>, g: seq<byte>, bw: nat, t: nat)
    requires bw + 8192 <= |f| && t + 4096 <= |f|
  {
    RestKept(f, g, bw, t) && g[t..t + 4096] == f[t..t + 4096] && forall i | bw <= i < bw + 4096 :: g[i] == 255
  }

  /** Stopped in the first erase before it reached the header: a restore that was due is still
      due, with the block it saved. */
  ghost predicate StillDue(f: seq<byte>, g: seq<byte>, bw: nat, t: nat)
    requires bw + 8192 <= |f| && t + 4096 <= |f|
  {
    && RestKept(f, g, bw, t) && g[t..t + 4096] == f[t..t + 4096]
    && HeaderOf(g, bw) == HeaderOf(f, bw) && g[bw + 4096..bw + 8192] == f[bw + 4096..bw + 8192]
  }

  /** The header's sector goes first: while the header checks out, the saved block is intact. */
  lemma SavedIntact(f: seq<byte>, bw: nat, h: seq<byte>, k: nat)
    requires bw + 8192 <= |f| && TornAt(f, Erase(bw, 8192), bw, h, k) && InfoOk(HeaderOf(h, bw))
    ensures HeaderOf(h, bw) == HeaderOf(f, bw) && h[bw + 4096..bw + 8192] == f[bw + 4096..bw + 8192]
  {
    hide InfoOk;
    BackupOps(bw, Zero(4096), []);
    HeaderErased(f, bw, 8192, h, k);
    forall j | bw + 4096 <= j < bw + 8192 ensures h[j] == f[j] {
      if h[j] != f[j] {
        assert Earlier(Erase(bw, 8192), bw, j) && InArea(bw, j);
        assert HeaderOf(h, bw)[0] == h[bw] == 255;
        WrongFlag(HeaderOf(h, bw));
      }
    }
  }

  lemma StageErase(f: seq<byte>, base: nat, bw: nat, t: nat, h: seq<byte>, k: nat)
    requires Layout(f, base, bw, t) && TornAt(f, Erase(bw, 8192), bw, h, k)
    ensures Settled(f, h, bw, t, f[t..t + 4096]) || StillDue(f, h, bw, t)
  {
    hide Cell, InfoOk, BackupArea, InBackup, Op.Covers, TornAt, HeaderOf;
    BackupOps(bw, Zero(4096), []);
    TornKeepsRest(f, f, Erase(bw, 8192), bw, t, h, k);
    BackupOpKeepsTarget(f, f, Erase(bw, 8192), base, bw, t, h, k);
    if InfoOk(HeaderOf(h, bw)) {
      SavedIntact(f, bw, h, k);
    }
  }

  lemma AfterErase(f: seq<byte>, base: nat, bw: nat, t: nat)
    requires Layout(f, base, bw, t)
    ensures var g := Apply(f, Erase(bw, 8192));
            Blank(f, g, bw, t) && forall i | 0 <= i < |g| && InBackup(bw, i) :: g[i] == 255
  {
    hide Cell, Apply, BackupArea, Op.Covers;
    var g := Apply(f, Erase(bw, 8192));
    BackupOps(bw, Zero(4096), []);
    ApplyTorn(f, Erase(bw, 8192), bw);
    TornKeepsRest(f, f, Erase(bw, 8192), bw, t, g, 16);
    BackupOpKeepsTarget(f, f, Erase(bw, 8192), base, bw, t, g, 16);
    ErasedRange(f, bw, 8192);
    assert forall i | bw <= i < bw + 4096 :: InArea(bw, i);
  }

  lemma StageCopy(f: seq<byte>, g: seq<byte>, base: nat, bw: nat, t: nat, data: seq<byte>, h: seq<byte>, k: nat)
    requires Layout(f, base, bw, t) && |data| == 4096 && Blank(f, g, bw, t)
    requires TornAt(g, Program(bw + 4096, data), bw, h, k)
    ensures Blank(f, h, bw, t) && Settled(f, h, bw, t, f[t..t + 4096])
  {
    hide Cell, InfoOk, BackupArea, InBackup;
    BackupOps(bw, data, []);
    TornKeepsRest(f, g, Program(bw + 4096, data), bw, t, h, k);
    BackupOpKeepsTarget(f, g, Program(bw + 4096, data), base, bw, t, h, k);
    assert HeaderOf(h, bw)[0] == h[bw] == 255;
    WrongFlag(HeaderOf(h, bw));
  }

  lemma AfterCopy(f: seq<byte>, g: seq<byte>, base: nat, bw: nat, t: nat, data: seq<byte>)
    requires Layout(f, base, bw, t) && |data| == 4096 && Blank(f, g, bw, t)
    requires forall i | 0 <= i < |g| && InBackup(bw, i) :: g[i] == 255
    ensures var h := Apply(g, Program(bw + 4096, data));
            Blank(f, h, bw, t) && h[bw + 4096..bw + 8192] == data
  {
    hide Cell, Apply, InfoOk, BackupArea, InBackup, Op.Covers;
    var h := Apply(g, Program(bw + 4096, data));
    ApplyTorn(g, Program(bw + 4096, data), bw);
    StageCopy(f, g, base, bw, t, data, h, 16);
    forall i | bw + 4096 <= i < bw + 8192 ensures InBackup(bw, i) { Sectors(bw, i); }
    ProgrammedRange(g, bw + 4096, data);
  }

  lemma StageHeader(f: seq<byte>, g: seq<byte>, base: nat, bw: nat, t: nat, data: seq<byte>, h: seq<byte>, k: nat)
    requires Layout(f, base, bw, t) && Blank(f, g, bw, t) && g[bw + 4096..bw + 8192] == data
    requires TornAt(g, Program(bw, InfoBytes(Info(t, BKW_BLOCK))), bw, h, k)
    ensures if k >= 16 then Pending(f, h, bw, t, data) else Settled(f, h, bw, t, f[t..t + 4096])
  {
    hide Cell, InfoOk, InfoBytes, BackupArea, InBackup;
    var op := Program(bw, InfoBytes(Info(t, BKW_BLOCK)));
    BackupOps(bw, data, InfoBytes(Info(t, BKW_BLOCK)));
    TornKeepsRest(f, g, op, bw, t, h, k);
    BackupOpKeepsTarget(f, g, op, base, bw, t, h, k);
    HeaderWritten(g, bw, InfoBytes(Info(t, BKW_BLOCK)), h, k);
    assert h[bw + 4096..bw + 8192] == g[bw + 4096..bw + 8192];
  }

  lemma StageClear(f: seq<byte>, g: seq<byte>, base: nat, bw: nat, t: nat, data: seq<byte>, h: seq<byte>, k: nat)
    requires Layout(f, base, bw, t) && Pending(f, g, bw, t, data) && g[t..t + 4096] == data
    requires TornAt(g, Program(bw, Zero(16)), bw, h, k)
    ensures if k > 0 then Settled(f, h, bw, t, data) else Pending(f, h, bw, t, data)
  {
    hide Cell, InfoOk, InfoBytes, BackupArea, InBackup, Zero;
    BackupOps(bw, data, Zero(16));
    TornKeepsRest(f, g, Program(bw, Zero(16)), bw, t, h, k);
    BackupOpKeepsTarget(f, g, Program(bw, Zero(16)), base, bw, t, h, k);
    HeaderCleared(g, bw, 16, h, k);
    assert h[bw + 4096..bw + 8192] == g[bw + 4096..bw + 8192];
  }

  /** Once the header is in place: erasing and writing the block. */
  lemma AfterTarget(f: seq<byte>, g: seq<byte>, base: nat, bw: nat, t: nat, data: seq<byte>)
    requires Layout(f, base, bw, t) && |data| == 4096 && Pending(f, g, bw, t, data)
    ensures var g1 := Apply(g, Erase(t, 4096));
            var g2 := Apply(g1, Program(t, data));
            Pending(f, g1, bw, t, data) && Pending(f, g2, bw, t, data) && g2[t..t + 4096] == data
  {
    hide Cell, Apply, InfoBytes, BackupArea, InBackup, Op.Covers, Pending, HeaderOf;
    var g1 := Apply(g, Erase(t, 4096));
    TargetOps(t, data);
    ApplyTorn(g, Erase(t, 4096), bw);
    TargetOpKeepsPending(f, g, Erase(t, 4096), base, bw, t, g1, 16, data);
    PendingLen(f, g, bw, t, data);
    ErasedRange(g, t, 4096);
    assert forall i | t <= i < t + 4096 :: InTarget(t, i);
    var g2 := Apply(g1, Program(t, data));
    ApplyTorn(g1, Program(t, data), bw);
    TargetOpKeepsPending(f, g1, Program(t, data), base, bw, t, g2, 16, data);
    ProgrammedRange(g1, t, data);
  }

  lemma PendingLen(f: seq<byte>, g: seq<byte>, bw: nat, t: nat, data: seq<byte>)
    requires bw + 8192 <= |f| && t + 4096 <= |f| && t < TWO32 && Pending(f, g, bw, t, data)
    ensures |g| == |f|
  {
  }

  /** What a block write leaves, wherever it is interrupted: the old block, or a pending
      restore of the new one, or the new block; a restore that was due before may still be
      due, with its block, if the first erase was cut off. */
  ghost predicate Written(f: seq<byte>, g: seq<byte>, bw: nat, t: nat, data: seq<byte>, fault: Fault)
    requires bw + 8192 <= |f| && t + 4096 <= |f| && t < TWO32
  {
    if fault.step == 0 then Settled(f, g, bw, t, f[t..t + 4096]) || StillDue(f, g, bw, t)
    else if fault.step == 1 then Settled(f, g, bw, t, f[t..t + 4096])
    else if fault.step == 2 then Settled(f, g, bw, t, f[t..t + 4096]) || Pending(f, g, bw, t, data)
    else if fault.step <= 4 then Pending(f, g, bw, t, data)
    else if fault.step == 5 then Pending(f, g, bw, t, data) || Settled(f, g, bw, t, data)
    else Settled(f, g, bw, t, data)
  }

  lemma BlockWriteInterrupted(f: seq<byte>, base: nat, bw: nat, t: nat, data: seq<byte>, fault: Fault)
    requires Layout(f, base, bw, t) && |data| == 4096
    ensures Written(f, RunOps(f, BlockOps(bw, t, data), bw, fault), bw, t, data, fault)
  {
    hide Cell, Apply, InfoOk, InfoBytes, BackupArea, RunOps, Settled, Pending, Blank, StillDue, Interrupted,
         HeaderOf, InBackup;
    var ops := BlockOps(bw, t, data);
    SixSteps(f, ops, bw, fault);
    var f1 := Apply(f, ops[0]);
    if fault.step == 0 {
      var k := InterruptedTorn(f, ops[0], bw, fault.pick);
      StageErase(f, base, bw, t, Interrupted(f, ops[0], bw, fault.pick), k);
      return;
    }
    AfterErase(f, base, bw, t);
    if fault.step == 1 {
      var k := InterruptedTorn(f1, ops[1], bw, fault.pick);
      StageCopy(f, f1, base, bw, t, data, Interrupted(f1, ops[1], bw, fault.pick), k);
      return;
    }
    AfterCopy(f, f1, base, bw, t, data);
    HeaderOnwards(f, Apply(f1, ops[1]), base, bw, t, data, fault);
  }

  lemma HeaderOnwards(f: seq<byte>, f2: seq<byte>, base: nat, bw: nat, t: nat, data: seq<byte>, fault: Fault)
    requires Layout(f, base, bw, t) && |data| == 4096 && fault.step >= 2
    requires Blank(f, f2, bw, t) && |f2| == |f| && f2[bw + 4096..bw + 8192] == data
    ensures var ops := BlockOps(bw, t, data);
            var f3 := Apply(f2, ops[2]);
            var f4 := Apply(f3, ops[3]);
            var f5 := Apply(f4, ops[4]);
            Written(f,
                    match fault.step
                    case 2 => Interrupted(f2, ops[2], bw, fault.pick)
                    case 3 => Interrupted(f3, ops[3], bw, fault.pick)
                    case 4 => Interrupted(f4, ops[4], bw, fault.pick)
                    case 5 => Interrupted(f5, ops[5], bw, fault.pick)
                    case _ => Apply(f5, ops[5]),
                    bw, t, data, fault)
  {
    hide Cell, Apply, InfoOk, InfoBytes, BackupArea, Settled, Pending, Blank, Interrupted, HeaderOf, Op.Covers,
         InBackup;
    var ops := BlockOps(bw, t, data);
    if fault.step == 2 {
      var k := InterruptedTorn(f2, ops[2], bw, fault.pick);
      StageHeader(f, f2, base, bw, t, data, Interrupted(f2, ops[2], bw, fault.pick), k);
      return;
    }
    var f3 := Apply(f2, ops[2]);
    ApplyTorn(f2, ops[2], bw);
    StageHeader(f, f2, base, bw, t, data, f3, 16);
    AfterTarget(f, f3, base, bw, t, data);
    TargetOps(t, data);
    var f4 := Apply(f3, ops[3]);
    var f5 := Apply(f4, ops[4]);
    if fault.step == 3 {
      var k := InterruptedTorn(f3, ops[3], bw, fault.pick);
      TargetOpKeepsPending(f, f3, ops[3], base, bw, t, Interrupted(f3, ops[3], bw, fault.pick), k, data);
    } else if fault.step == 4 {
      var k := InterruptedTorn(f4, ops[4], bw, fault.pick);
      TargetOpKeepsPending(f, f4, ops[4], base, bw, t, Interrupted(f4, ops[4], bw, fault.pick), k, data);
    } else if fault.step == 5 {
      var k := InterruptedTorn(f5, ops[5], bw, fault.pick);
      StageClear(f, f5, base, bw, t, data, Interrupted(f5, ops[5], bw, fault.pick), k);
    } else {
      ApplyTorn(f5, ops[5], bw);
      StageClear(f, f5, base, bw, t, data, Apply(f5, ops[5]), 16);
    }
  }

  // ----- the restore

  /** The index entry of the backup area is read as before when the block is another one. */
  lemma SameArea(f: seq<byte>, g: seq<byte>, base: nat, bw: nat, t: nat)
    requires Layout(f, base, bw, t) && t != base && RestKept(f, g, bw, t)
    ensures BackupArea(g, base) == BackupArea(f, base)
  {
    hide Le, InBackup;
    assert t + 4096 <= base || base + 4096 <= t;
    forall i | base <= i < base + 4096 ensures g[i] == f[i] {
      SectorsApart(bw, base, i);
    }
    assert g[base + 3..base + 6] == f[base + 3..base + 6];
  }

  /** With nothing pending, a restore changes nothing, interrupted or not. */
  lemma RestoreSettled(f: seq<byte>, g: seq<byte>, base: nat, bw: nat, t: nat, content: seq<byte>, fault: Fault)
    requires Layout(f, base, bw, t) && t != base && Settled(f, g, bw, t, content)
    ensures Restore(g, base, fault) == g
  {
    hide InfoOk, BackupArea, RunOps, InBackup;
    SameArea(f, g, base, bw, t);
  }

  lemma PendingOps(f: seq<byte>, g: seq<byte>, bw: nat, t: nat, data: seq<byte>)
    requires bw + 8192 <= |f| && t + 4096 <= |f| && t < TWO32 && Pending(f, g, bw, t, data)
    ensures InfoOk(HeaderOf(g, bw))
    ensures RestoreOps(g, bw) == [Erase(t, 4096), Program(t, data), Erase(bw, 16), Program(bw, Zero(4096))]
  {
    hide InfoOk, InfoBytes, Le, Zero, InBackup;
    InfoBytesOk(Info(t, BKW_BLOCK));
  }

  /** Erasing the header sector, when the block already holds the data. */
  lemma StageRelease(f: seq<byte>, g: seq<byte>, base: nat, bw: nat, t: nat, data: seq<byte>, h: seq<byte>, k: nat)
    requires Layout(f, base, bw, t) && |data| == 4096 && Pending(f, g, bw, t, data) && g[t..t + 4096] == data
    requires TornAt(g, Erase(bw, 16), bw, h, k)
    ensures if k > 0 then Settled(f, h, bw, t, data) else Pending(f, h, bw, t, data)
  {
    hide Cell, InfoOk, InfoBytes, BackupArea, InBackup, Op.Covers;
    BackupOps(bw, data, []);
    TornKeepsRest(f, g, Erase(bw, 16), bw, t, h, k);
    BackupOpKeepsTarget(f, g, Erase(bw, 16), base, bw, t, h, k);
    HeaderErased(g, bw, 16, h, k);
    assert h[bw + 4096..bw + 8192] == g[bw + 4096..bw + 8192];
  }

  lemma StageZero(f: seq<byte>, g: seq<byte>, base: nat, bw: nat, t: nat, data: seq<byte>, h: seq<byte>, k: nat)
    requires Layout(f, base, bw, t) && |data| == 4096 && Settled(f, g, bw, t, data)
    requires TornAt(g, Program(bw, Zero(4096)), bw, h, k)
    ensures Settled(f, h, bw, t, data)
  {
    hide Cell, InfoOk, BackupArea, InBackup, Zero, Op.Covers;
    BackupOps(bw, data, Zero(4096));
    TornKeepsRest(f, g, Program(bw, Zero(4096)), bw, t, h, k);
    BackupOpKeepsTarget(f, g, Program(bw, Zero(4096)), base, bw, t, h, k);
    HeaderCleared(g, bw, 4096, h, k);
  }

  /** A pending restore, interrupted, is still pending or done; uninterrupted, it is done. */
  lemma RestorePending(f: seq<byte>, g: seq<byte>, base: nat, bw: nat, t: nat, data: seq<byte>, fault: Fault)
    requires Layout(f, base, bw, t) && |data| == 4096 && Pending(f, g, bw, t, data)
    requires BackupArea(g, base) == BackupArea(f, base)
    ensures var h := Restore(g, base, fault);
            Settled(f, h, bw, t, data) || (fault.step < 4 && Pending(f, h, bw, t, data))
  {
    hide Cell, Apply, InfoOk, InfoBytes, BackupArea, RunOps, Settled, Pending, Blank, Interrupted, HeaderOf, RestoreOps,
         Zero, InBackup, Op.Covers;
    PendingLen(f, g, bw, t, data);
    PendingOps(f, g, bw, t, data);
    var ops := RestoreOps(g, bw);
    FourSteps(g, ops, bw, fault);
    AfterTarget(f, g, base, bw, t, data);
    TargetOps(t, data);
    var g1 := Apply(g, ops[0]);
    var g2 := Apply(g1, ops[1]);
    if fault.step == 0 {
      var k := InterruptedTorn(g, ops[0], bw, fault.pick);
      TargetOpKeepsPending(f, g, ops[0], base, bw, t, Interrupted(g, ops[0], bw, fault.pick), k, data);
    } else if fault.step == 1 {
      var k := InterruptedTorn(g1, ops[1], bw, fault.pick);
      TargetOpKeepsPending(f, g1, ops[1], base, bw, t, Interrupted(g1, ops[1], bw, fault.pick), k, data);
    } else {
      Released(f, g2, base, bw, t, data, fault);
    }
  }

  /** The end of the restore: the block is written, the header goes. */
  lemma Released(f: seq<byte>, g: seq<byte>, base: nat, bw: nat, t: nat, data: seq<byte>, fault: Fault)
    requires Layout(f, base, bw, t) && |data| == 4096 && Pending(f, g, bw, t, data) && |g| == |f|
    requires g[t..t + 4096] == data && fault.step >= 2
    ensures var g3 := Apply(g, Erase(bw, 16));
            var h := match fault.step
                     case 2 => Interrupted(g, Erase(bw, 16), bw, fault.pick)
                     case 3 => Interrupted(g3, Program(bw, Zero(4096)), bw, fault.pick)
                     case _ => Apply(g3, Program(bw, Zero(4096)));
            Settled(f, h, bw, t, data) || (fault.step < 4 && Pending(f, h, bw, t, data))
  {
    hide Cell, Apply, InfoOk, InfoBytes, BackupArea, Settled, Pending, Interrupted, HeaderOf, Zero, InBackup, Op.Covers;
    var g3 := Apply(g, Erase(bw, 16));
    ApplyTorn(g, Erase(bw, 16), bw);
    StageRelease(f, g, base, bw, t, data, g3, 16);
    if fault.step == 2 {
      var k := InterruptedTorn(g, Erase(bw, 16), bw, fault.pick);
      StageRelease(f, g, base, bw, t, data, Interrupted(g, Erase(bw, 16), bw, fault.pick), k);
    } else if fault.step == 3 {
      var k := InterruptedTorn(g3, Program(bw, Zero(4096)), bw, fault.pick);
      StageZero(f, g3, base, bw, t, data, Interrupted(g3, Program(bw, Zero(4096)), bw, fault.pick), k);
    } else {
      ApplyTorn(g3, Program(bw, Zero(4096)), bw);
      StageZero(f, g3, base, bw, t, data, Apply(g3, Program(bw, Zero(4096))), 16);
    }
  }

  lemma {:induction false} RecoverSettled(f: seq<byte>, g: seq<byte>, base: nat, bw: nat, t: nat, content: seq<byte>,
                                          faults: seq<Fault>)
    requires Layout(f, base, bw, t) && t != base && Settled(f, g, bw, t, content)
    ensures Recover(g, base, faults) == g
    decreases |faults|
  {
    hide Settled, Restore, BackupArea, InBackup;
    RestoreSettled(f, g, base, bw, t, content, if faults == [] then Fault(4, []) else faults[0]);
    if faults != [] { RecoverSettled(f, g, base, bw, t, content, faults[1..]); }
  }

  lemma {:induction false} RecoverPending(f: seq<byte>, g: seq<byte>, base: nat, bw: nat, t: nat, data: seq<byte>,
                                          faults: seq<Fault>)
    requires Layout(f, base, bw, t) && t != base && |data| == 4096 && Pending(f, g, bw, t, data)
    ensures Settled(f, Recover(g, base, faults), bw, t, data)
    decreases |faults|
  {
    hide Settled, Restore, BackupArea, InfoBytes, HeaderOf, InBackup;
    var fault := if faults == [] then Fault(4, []) else faults[0];
    SameArea(f, g, base, bw, t);
    RestorePending(f, g, base, bw, t, data, fault);
    if faults != [] {
      var h := Restore(g, base, fault);
      if Settled(f, h, bw, t, data) {
        RecoverSettled(f, h, base, bw, t, data, faults[1..]);
      } else {
        RecoverPending(f, h, base, bw, t, data, faults[1..]);
      }
    }
  }

  /** The write was interrupted too early for the new block to survive. */
  predicate TooEarly(g: seq<byte>, bw: nat, fault: Fault)
    requires bw + 16 <= |g|
  {
    fault.step < 2 || (fault.step == 2 && !InfoOk(HeaderOf(g, bw)))
  }

  /** A block write interrupted anywhere, and any number of interrupted restores, followed
      by one restore that completes: the block is the old one or the new one, whole;
      which of them is decided by the backup header; nothing else has changed outside the
      sectors of the backup area. */
  lemma AtomicBlockWrite(f: seq<byte>, base: nat, bw: nat, t: nat, data: seq<byte>, fault: Fault, faults: seq<Fault>)
    requires Layout(f, base, bw, t) && t != base && |data| == 4096 && !InfoOk(HeaderOf(f, bw))
    ensures var g := RunOps(f, BlockOps(bw, t, data), bw, fault);
            Settled(f, Recover(g, base, faults), bw, t,
                    if TooEarly(g, bw, fault) then f[t..t + 4096] else data)
  {
    hide Cell, InfoBytes, BackupArea, RunOps, HeaderOf, BlockOps, InfoOk, InBackup;
    var g := RunOps(f, BlockOps(bw, t, data), bw, fault);
    BlockWriteInterrupted(f, base, bw, t, data, fault);
    if Pending(f, g, bw, t, data) {
      PendingOps(f, g, bw, t, data);
      RecoverPending(f, g, base, bw, t, data, faults);
    } else if TooEarly(g, bw, fault) {
      RecoverSettled(f, g, base, bw, t, f[t..t + 4096], faults);
    } else {
      RecoverSettled(f, g, base, bw, t, data, faults);
    }
  }
}

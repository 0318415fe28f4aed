/** Exactly when a block write survives every interruption of itself and of the restores after
    it, with an interruption for each way in which it does not. */
module BackupExact {
  import opened Bytes
  import opened BackupWrite
  import opened BackupLaws
  import CacheMem
  import CfgMain

  /** The block is wholly the old or the new one, and every byte outside the block and the
      backup area is as before. */
  ghost predicate Survives(f: seq<byte>, g: seq<byte>, bw: nat, t: nat, data: seq<byte>)
    requires t + 4096 <= |f|
  {
    && |g| == |f|
    && (g[t..t + 4096] == f[t..t + 4096] || g[t..t + 4096] == data)
    && forall i | 0 <= i < |f| && !InTarget(t, i) && !InArea(bw, i) :: g[i] == f[i]
  }

  ghost predicate Atomic(f: seq<byte>, base: nat, bw: nat, t: nat, data: seq<byte>)
    requires t < TWO32 && t + 4096 <= |f|
  {
    forall fault: Fault, faults: seq<Fault> ::
      Survives(f, Recover(RunOps(f, BlockOps(bw, t, data), bw, fault), base, faults), bw, t, data)
  }

  /** The backup header tells to restore block `u`, a block outside the backup area. */
  predicate Names(f: seq<byte>, bw: nat, u: nat)
    requires bw + 16 <= |f|
  {
    && u % 4096 == 0 && u + 4096 <= |f| && u < TWO32 && (u + 4096 <= bw || bw + 8192 <= u)
    && HeaderOf(f, bw) == InfoBytes(Info(u, BKW_BLOCK))
  }

  /** A header that checks out names a block, as all those do that a block write leaves. */
  ghost predicate Plausible(f: seq<byte>, bw: nat)
    requires bw + 16 <= |f|
  {
    InfoOk(HeaderOf(f, bw)) ==> exists u: nat :: Names(f, bw, u)
  }

  function Neither(x: byte, y: byte): (z: byte)
    ensures z != x && z != y
  {
    if x != 0 && y != 0 then 0 else if x != 1 && y != 1 then 1 else 2
  }

  // ----- what an interruption can leave

  lemma PickIs(f: seq<byte>, op: Op, bw: nat, pick: seq<byte>)
    requires Torn(f, op, bw, pick)
    ensures Interrupted(f, op, bw, pick) == pick
  {
  }

  /** An operation that was not even begun. */
  lemma NotBegun(f: seq<byte>, op: Op, bw: nat)
    ensures TornAt(f, op, bw, f, 0)
  {
  }

  lemma StoppedAtOnce(f: seq<byte>, bw: nat, t: nat, data: seq<byte>, pick: seq<byte>)
    requires t < TWO32 && Torn(f, Erase(bw, 8192), bw, pick)
    ensures RunOps(f, BlockOps(bw, t, data), bw, Fault(0, pick)) == pick
  {
    hide InfoBytes, Interrupted, Apply, RunOps, Torn;
    SixSteps(f, BlockOps(bw, t, data), bw, Fault(0, pick));
    PickIs(f, Erase(bw, 8192), bw, pick);
  }

  lemma StoppedErasing(f: seq<byte>, bw: nat, t: nat, data: seq<byte>, pick: seq<byte>)
    requires t < TWO32
    requires var ops := BlockOps(bw, t, data);
             TornAt(Apply(Apply(Apply(f, ops[0]), ops[1]), ops[2]), Erase(t, 4096), bw, pick, 0)
    ensures RunOps(f, BlockOps(bw, t, data), bw, Fault(3, pick)) == pick
  {
    hide InfoBytes, Interrupted, Apply, RunOps, TornAt;
    var ops := BlockOps(bw, t, data);
    SixSteps(f, ops, bw, Fault(3, pick));
    PickIs(Apply(Apply(Apply(f, ops[0]), ops[1]), ops[2]), Erase(t, 4096), bw, pick);
  }

  // ----- the block of the index entry

  /** The erase of the index block is cut off with the entry unreadable: the restore no longer
      finds the backup area, and the block stays neither old nor new. */
  lemma IndexBlockLost(f: seq<byte>, base: nat, bw: nat, data: seq<byte>) returns (pick: seq<byte>)
    requires Layout(f, base, bw, base) && |data| == 4096
    ensures !Survives(f, Recover(RunOps(f, BlockOps(bw, base, data), bw, Fault(3, pick)), base, []), bw, base, data)
  {
    hide InfoBytes, Interrupted, Apply, RunOps, BackupArea, HeaderOf, InfoOk, InArea;
    var ops := BlockOps(bw, base, data);
    var f3 := Apply(Apply(Apply(f, ops[0]), ops[1]), ops[2]);
    var x := Neither(f[base], data[0]);
    pick := f3[base := x][base + 3 := 255];
    TornIndex(f3, base, bw, x);
    StoppedErasing(f, bw, base, data, pick);
    NoArea(pick, base);
    assert pick[base..base + 4096][0] == x && f[base..base + 4096][0] == f[base];
  }

  lemma TornIndex(g: seq<byte>, base: nat, bw: nat, x: byte)
    requires base % 4096 == 0 && base + 4096 <= |g| && (base + 4096 <= bw || bw + 8192 <= base)
    ensures TornAt(g, Erase(base, 4096), bw, g[base := x][base + 3 := 255], 0)
  {
    hide Cell;
  }

  /** An index entry that begins with an erased byte is marked unused. */
  lemma NoArea(g: seq<byte>, base: nat)
    requires base + 4096 <= |g| && g[base + 3] == 255
    ensures BackupArea(g, base).NoEntry?
  {
    assert Le(g[base + 3..base + 6]) % 2 == g[base + 3] % 2;
  }

  // ----- a restore that was due

  /** The block that a due restore writes back already holds the saved bytes; for the block
      being written, the saved bytes are its old or its new ones. */
  predicate Restored(f: seq<byte>, bw: nat, t: nat, data: seq<byte>, u: nat)
    requires bw + 8192 <= |f| && u + 4096 <= |f|
  {
    var saved := f[bw + 4096..bw + 8192];
    f[u..u + 4096] == saved || (u == t && saved == data)
  }

  /** The write is cut off before it touched anything: the restore that was due still writes
      its block. */
  lemma NotYetRestored(f: seq<byte>, base: nat, bw: nat, t: nat, data: seq<byte>, u: nat)
    requires Layout(f, base, bw, t) && |data| == 4096 && Names(f, bw, u) && !Restored(f, bw, t, data, u)
    ensures !Survives(f, Recover(RunOps(f, BlockOps(bw, t, data), bw, Fault(0, f)), base, []), bw, t, data)
  {
    hide InfoBytes, RunOps, BackupArea, InfoOk, Restore, BlockOps, Torn, HeaderOf, InBackup, Survives, Names;
    NotBegunTorn(f, Erase(bw, 8192), bw);
    StoppedAtOnce(f, bw, t, data, f);
    NamedApart(f, bw, u);
    var saved := f[bw + 4096..bw + 8192];
    PendingSelf(f, bw, u);
    RestorePending(f, f, base, bw, u, saved, Fault(4, []));
    WrongBlock(f, Restore(f, base, Fault(4, [])), bw, t, data, u, saved);
  }

  lemma NamedApart(f: seq<byte>, bw: nat, u: nat)
    requires bw + 16 <= |f| && Names(f, bw, u)
    ensures u % 4096 == 0 && u + 4096 <= |f| && u < TWO32 && (u + 4096 <= bw || bw + 8192 <= u)
  {
  }

  lemma NotBegunTorn(f: seq<byte>, op: Op, bw: nat)
    ensures Torn(f, op, bw, f)
  {
    hide TornAt;
    NotBegun(f, op, bw);
  }

  /** A block that has become something else. */
  lemma WrongBlock(f: seq<byte>, g: seq<byte>, bw: nat, t: nat, data: seq<byte>, u: nat, saved: seq<byte>)
    requires |g| == |f| && t + 4096 <= |f| && u + 4096 <= |f| && |saved| == 4096 && g[u..u + 4096] == saved
    requires t % 4096 == 0 && u % 4096 == 0 && (u + 4096 <= bw || bw + 8192 <= u)
    requires f[u..u + 4096] != saved && (u == t ==> saved != data)
    ensures !Survives(f, g, bw, t, data)
  {
    if u != t {
      var k :| 0 <= k < 4096 && f[u..u + 4096][k] != saved[k];
      assert g[u + k] == g[u..u + 4096][k] != f[u + k] && !InTarget(t, u + k) && !InArea(bw, u + k);
    }
  }

  /** A due restore of the index block that is itself cut off loses that block. */
  lemma IndexRestoreLost(f: seq<byte>, base: nat, bw: nat, t: nat, data: seq<byte>) returns (pick: seq<byte>)
    requires Layout(f, base, bw, t) && t != base && |data| == 4096 && Names(f, bw, base)
    ensures var g := RunOps(f, BlockOps(bw, t, data), bw, Fault(0, f));
            !Survives(f, Recover(g, base, [Fault(0, pick)]), bw, t, data)
  {
    hide InfoBytes, RunOps, BackupArea, InfoOk, Restore, BlockOps, TornAt, HeaderOf, InBackup;
    NotBegun(f, Erase(bw, 8192), bw);
    StoppedAtOnce(f, bw, t, data, f);
    var x := Neither(f[base], f[base]);
    pick := f[base := x][base + 3 := 255];
    TornIndex(f, base, bw, x);
    CutOffRestore(f, base, bw, base, pick);
    NoArea(pick, base);
    assert Restore(pick, base, Fault(4, [])) == pick by { NoRestore(pick, base); }
    assert [Fault(0, pick)][1..] == [];
    assert pick[base] == x && !InTarget(t, base) && !InArea(bw, base);
  }

  lemma NoRestore(g: seq<byte>, base: nat)
    requires BackupArea(g, base).NoEntry?
    ensures Restore(g, base, Fault(4, [])) == g
  {
  }

  /** A restore that is cut off in its first erase. */
  lemma CutOffRestore(f: seq<byte>, base: nat, bw: nat, u: nat, pick: seq<byte>)
    requires bw + 8192 <= |f| && BackupArea(f, base).Entry? && BackupArea(f, base).addr == bw && Names(f, bw, u)
    requires TornAt(f, Erase(u, 4096), bw, pick, 0)
    ensures Restore(f, base, Fault(0, pick)) == pick
  {
    hide InfoBytes, RunOps, BackupArea, InfoOk, TornAt, HeaderOf, Interrupted, Apply, InBackup;
    PendingSelf(f, bw, u);
    PendingOps(f, f, bw, u, f[bw + 4096..bw + 8192]);
    FourSteps(f, RestoreOps(f, bw), bw, Fault(0, pick));
    PickIs(f, Erase(u, 4096), bw, pick);
  }

  lemma SameEntry(f: seq<byte>, base: nat, g: seq<byte>)
    requires base + 4096 <= |f| == |g| && forall i | base + 3 <= i < base + 6 :: g[i] == f[i]
    ensures BackupArea(g, base) == BackupArea(f, base)
  {
    hide Le;
    assert g[base + 3..base + 6] == f[base + 3..base + 6];
  }

  // ----- a backup area that does not begin with a sector

  /** The first erase, cut off, may change a byte in front of the backup area and the header. */
  lemma SpillTorn(f: seq<byte>, base: nat, bw: nat, t: nat, data: seq<byte>) returns (pick: seq<byte>)
    requires Layout(f, base, bw, t) && |data| == 4096 && bw % 4096 != 0
    ensures !Survives(f, Recover(RunOps(f, BlockOps(bw, t, data), bw, Fault(0, pick)), base, []), bw, t, data)
  {
    hide InfoBytes, Interrupted, Apply, RunOps, BackupArea, InfoOk, BlockOps, TornAt;
    var i := CacheMem.Base(bw);
    Sectors(bw, i);
    pick := f[i := Neither(f[i], 0)][bw := 255];
    FirstSectorTorn(f, bw, Neither(f[i], 0));
    StoppedAtOnce(f, bw, t, data, pick);
    assert !InTarget(t, i) by { if InTarget(t, i) { SectorsApart(bw, t, i); } }
    assert !InTarget(base, i) by { if InTarget(base, i) { SectorsApart(bw, base, i); } }
    SameEntry(f, base, pick);
    assert HeaderOf(pick, bw)[0] == 255;
    WrongFlag(HeaderOf(pick, bw));
    assert Recover(pick, base, []) == pick;
  }

  lemma FirstSectorTorn(f: seq<byte>, bw: nat, x: byte)
    requires bw + 8192 <= |f| && bw % 4096 != 0
    ensures TornAt(f, Erase(bw, 8192), bw, f[CacheMem.Base(bw) := x][bw := 255], 1)
  {
    hide UnitsInOrder;
    var g := f[CacheMem.Base(bw) := x][bw := 255];
    assert UnitsInOrder(f, Erase(bw, 8192), g) by { FirstSectorOnly(f, bw, g); }
  }

  /** Changes in the first sector only are in order. */
  lemma FirstSectorOnly(f: seq<byte>, bw: nat, g: seq<byte>)
    requires |g| == |f| && forall j | 0 <= j < |f| && g[j] != f[j] :: CacheMem.Base(j) == CacheMem.Base(bw)
    ensures UnitsInOrder(f, Erase(bw, 8192), g)
  {
    hide Cell;
  }

  /** The area begins with a sector if and only if its index entry points 8 bytes in front of
      one.  An entry that points to a sector gives an area 8 bytes behind it, and no block
      write survives then. */
  lemma SectorEntryFails(f: seq<byte>, base: nat, bw: nat, t: nat, data: seq<byte>, d: nat, attr: nat)
    requires Layout(f, base, bw, t) && |data| == 4096 && attr < 16
    requires f[base + 3] as int + 256 * (f[base + 4] as int) + 65536 * (f[base + 5] as int) == 16 * d + attr
    ensures bw % 4096 == 0 <==> (base + 4 * d) % 4096 == 4088
    ensures (base + 4 * d) % 4096 == 0 ==> bw % 4096 == 8 && !Atomic(f, base, bw, t, data)
  {
    hide Atomic, BackupArea;
    AreaFromBytes(f, base, d, attr);
    EightBehind(base + 4 * d);
    if (base + 4 * d) % 4096 == 0 { SpillFails(f, base, bw, t, data); }
  }

  lemma EightBehind(a: nat)
    ensures (a + 8) % 4096 == 0 <==> a % 4096 == 4088
    ensures a % 4096 == 0 ==> (a + 8) % 4096 == 8
  {
  }

  lemma SpillFails(f: seq<byte>, base: nat, bw: nat, t: nat, data: seq<byte>)
    requires Layout(f, base, bw, t) && |data| == 4096 && bw % 4096 != 0
    ensures !Atomic(f, base, bw, t, data)
  {
    hide Survives, RunOps, BlockOps, Recover, BackupArea;
    var pick := SpillTorn(f, base, bw, t, data);
  }

  /** Even a block write that nothing interrupts erases every byte that shares a sector with
      the backup area: with the area at 8200, byte 16500 is one of them. */
  lemma SpillErased(f: seq<byte>, base: nat, bw: nat, t: nat, data: seq<byte>, i: nat)
    requires Layout(f, base, bw, t) && |data| == 4096 && i < |f| && InBackup(bw, i) && !InArea(bw, i)
    ensures RunOps(f, BlockOps(bw, t, data), bw, Fault(6, []))[i] == 255
    ensures InBackup(8200, 16500) && !InArea(8200, 16500)
  {
    hide InfoBytes, Apply, RunOps, BackupArea, InfoOk, Cell, InBackup, Zero;
    var ops := BlockOps(bw, t, data);
    SixSteps(f, ops, bw, Fault(6, []));
    assert !InTarget(t, i) by { if InTarget(t, i) { SectorsApart(bw, t, i); } }
    TargetOps(t, data);
    AfterErase(f, base, bw, t);
    var f1 := Apply(f, ops[0]);
    Untouched(f1, ops[1], i);
    Untouched(Apply(f1, ops[1]), ops[2], i);
    var f3 := Apply(Apply(f1, ops[1]), ops[2]);
    Untouched(f3, ops[3], i);
    Untouched(Apply(f3, ops[3]), ops[4], i);
    Untouched(Apply(Apply(f3, ops[3]), ops[4]), ops[5], i);
    assert InBackup(8200, 16500) by { SpillExample(); }
  }

  lemma SpillExample()
    ensures InBackup(8200, 16500)
  {
  }

  lemma Untouched(f: seq<byte>, op: Op, i: nat)
    requires i < |f|
    ensures !op.Covers(i) ==> Apply(f, op)[i] == f[i]
  {
    hide Apply;
    ApplyAt(f, op, i);
  }

  // ----- exactly when

  /** A due restore concerns a block other than the index block, and that block is restored. */
  ghost predicate DueIsDone(f: seq<byte>, base: nat, bw: nat, t: nat, data: seq<byte>)
    requires bw + 8192 <= |f|
  {
    forall u: nat | Names(f, bw, u) :: u != base && Restored(f, bw, t, data, u)
  }

  /** A block write survives every interruption if and only if the block is not the one that
      holds the index entry of the backup area, the backup area begins with a sector, and a
      restore that is due when it starts concerns another block than the index block and has
      nothing left to do. */
  lemma AtomicIff(f: seq<byte>, base: nat, bw: nat, t: nat, data: seq<byte>)
    requires Layout(f, base, bw, t) && |data| == 4096 && Plausible(f, bw)
    ensures Atomic(f, base, bw, t, data) <==> t != base && bw % 4096 == 0 && DueIsDone(f, base, bw, t, data)
  {
    hide InfoBytes, RunOps, HeaderOf, BlockOps, InfoOk, Recover, BackupArea, Survives, InBackup, Restored;
    if t == base {
      var pick := IndexBlockLost(f, base, bw, data);
    } else if bw % 4096 != 0 {
      var pick := SpillTorn(f, base, bw, t, data);
    } else if u: nat :| Names(f, bw, u) && !(u != base && Restored(f, bw, t, data, u)) {
      if u == base {
        var pick := IndexRestoreLost(f, base, bw, t, data);
      } else {
        NotYetRestored(f, base, bw, t, data, u);
      }
    } else {
      forall fault: Fault, faults: seq<Fault>
        ensures Survives(f, Recover(RunOps(f, BlockOps(bw, t, data), bw, fault), base, faults), bw, t, data)
      {
        SurvivesAll(f, base, bw, t, data, fault, faults);
      }
    }
  }

  lemma SurvivesAll(f: seq<byte>, base: nat, bw: nat, t: nat, data: seq<byte>, fault: Fault, faults: seq<Fault>)
    requires Layout(f, base, bw, t) && t != base && |data| == 4096 && bw % 4096 == 0
    requires Plausible(f, bw) && DueIsDone(f, base, bw, t, data)
    ensures Survives(f, Recover(RunOps(f, BlockOps(bw, t, data), bw, fault), base, faults), bw, t, data)
  {
    hide InfoBytes, RunOps, HeaderOf, BlockOps, InfoOk, Recover, BackupArea, Survives, InBackup, Restored;
    var g := RunOps(f, BlockOps(bw, t, data), bw, fault);
    BlockWriteInterrupted(f, base, bw, t, data, fault);
    if Settled(f, g, bw, t, f[t..t + 4096]) {
      RecoverSettled(f, g, base, bw, t, f[t..t + 4096], faults);
      SettledSurvives(f, g, bw, t, data, f[t..t + 4096]);
    } else if Settled(f, g, bw, t, data) {
      RecoverSettled(f, g, base, bw, t, data, faults);
      SettledSurvives(f, g, bw, t, data, data);
    } else if Pending(f, g, bw, t, data) {
      RecoverPending(f, g, base, bw, t, data, faults);
      SettledSurvives(f, Recover(g, base, faults), bw, t, data, data);
    } else {
      var u: nat :| Names(f, bw, u);
      DoneSurvives(f, base, bw, t, data, u, g, faults);
    }
  }

  /** The restore still due writes what its block holds already. */
  lemma DoneSurvives(f: seq<byte>, base: nat, bw: nat, t: nat, data: seq<byte>, u: nat, g: seq<byte>,
                     faults: seq<Fault>)
    requires Layout(f, base, bw, t) && t != base && |data| == 4096 && bw % 4096 == 0
    requires Names(f, bw, u) && u != base && Restored(f, bw, t, data, u) && StillDue(f, g, bw, t)
    ensures Survives(f, Recover(g, base, faults), bw, t, data)
  {
    hide InfoBytes, HeaderOf, InfoOk, Recover, BackupArea, InBackup;
    var saved := f[bw + 4096..bw + 8192];
    forall i | 0 <= i < |f| && !InTarget(u, i) && !InBackup(bw, i) ensures g[i] == f[i] {
      if InTarget(t, i) { assert g[i] == g[t..t + 4096][i - t] == f[t..t + 4096][i - t]; }
    }
    assert Pending(f, g, bw, u, saved);
    RecoverPending(f, g, base, bw, u, saved, faults);
    var h := Recover(g, base, faults);
    if u == t {
      SettledSurvives(f, h, bw, t, data, saved);
    } else {
      OtherSurvives(f, h, bw, t, data, u, saved);
    }
  }

  lemma OtherSurvives(f: seq<byte>, h: seq<byte>, bw: nat, t: nat, data: seq<byte>, u: nat, saved: seq<byte>)
    requires bw + 8192 <= |f| && t + 4096 <= |f| && u + 4096 <= |f| && bw % 4096 == 0 && t % 4096 == 0
    requires (t + 4096 <= bw || bw + 8192 <= t) && (t + 4096 <= u || u + 4096 <= t)
    requires Settled(f, h, bw, u, saved) && f[u..u + 4096] == saved
    ensures Survives(f, h, bw, t, data)
  {
    hide InfoOk, InBackup;
    forall i | 0 <= i < |f| && !InArea(bw, i) ensures h[i] == f[i] {
      Sectors(bw, i);
      if InTarget(u, i) { assert h[i] == h[u..u + 4096][i - u] == f[u..u + 4096][i - u]; }
    }
    assert h[t..t + 4096] == f[t..t + 4096];
  }

  lemma SettledSurvives(f: seq<byte>, g: seq<byte>, bw: nat, t: nat, data: seq<byte>, content: seq<byte>)
    requires bw + 8192 <= |f| && t + 4096 <= |f| && bw % 4096 == 0 && Settled(f, g, bw, t, content)
    requires content == f[t..t + 4096] || content == data
    ensures Survives(f, g, bw, t, data)
  {
    hide InfoOk, InBackup;
    forall i | 0 <= i < |f| && !InTarget(t, i) && !InArea(bw, i) ensures g[i] == f[i] {
      Sectors(bw, i);
    }
  }

  // ----- headers stay plausible

  /** Wherever a block write is cut off, the header it leaves names a block or does not check
      out. */
  lemma WriteKeepsPlausible(f: seq<byte>, base: nat, bw: nat, t: nat, data: seq<byte>, fault: Fault)
    requires Layout(f, base, bw, t) && |data| == 4096 && Plausible(f, bw)
    ensures Plausible(RunOps(f, BlockOps(bw, t, data), bw, fault), bw)
  {
    hide InfoBytes, RunOps, HeaderOf, BlockOps, InfoOk, BackupArea, InBackup;
    BlockWriteInterrupted(f, base, bw, t, data, fault);
    var g := RunOps(f, BlockOps(bw, t, data), bw, fault);
    if Pending(f, g, bw, t, data) {
      assert Names(g, bw, t);
    } else if StillDue(f, g, bw, t) && InfoOk(HeaderOf(f, bw)) {
      var u: nat :| Names(f, bw, u);
      assert Names(g, bw, u);
    }
  }

  /** So does every restore. */
  lemma RestoreKeepsPlausible(f: seq<byte>, base: nat, bw: nat, fault: Fault)
    requires Layout(f, base, bw, base) && Plausible(f, bw)
    ensures Plausible(Restore(f, base, fault), bw)
  {
    hide InfoBytes, HeaderOf, InfoOk, BackupArea, InBackup, RunOps, Pending, RestoreOps;
    if InfoOk(HeaderOf(f, bw)) {
      var u: nat :| Names(f, bw, u);
      var saved := f[bw + 4096..bw + 8192];
      assert Pending(f, f, bw, u, saved) by { PendingSelf(f, bw, u); }
      RestorePending(f, f, base, bw, u, saved, fault);
      var h := Restore(f, base, fault);
      if Pending(f, h, bw, u, saved) {
        PendingNames(f, h, bw, u, saved);
      }
    }
  }

  lemma PendingSelf(f: seq<byte>, bw: nat, u: nat)
    requires bw + 8192 <= |f| && Names(f, bw, u)
    ensures Pending(f, f, bw, u, f[bw + 4096..bw + 8192])
  {
  }

  lemma PendingNames(f: seq<byte>, h: seq<byte>, bw: nat, u: nat, saved: seq<byte>)
    requires bw + 8192 <= |f| && Names(f, bw, u) && Pending(f, h, bw, u, saved)
    ensures Names(h, bw, u)
  {
  }
}

/** Power is lost anywhere in a flush of several blocks: the cache is gone, and after the restart
    any number of restores may be cut off before one completes. */
module PowerLoss {
  import opened Bytes
  import opened CacheMem
  import opened BackupWrite
  import opened BackupLaws
  import opened BackupExact
  import opened Flush

  /** Block `b` is as it was last written back. */
  ghost predicate AsWrittenBack(c: seq<Block>, f: seq<byte>, n: nat, g: seq<byte>, b: nat)
    requires Valid(c, f) && n <= |c| && b + 4096 <= |f| == |g|
  {
    forall a | b <= a < b + 4096 :: g[a] == KeptAt(c, f, n, a)
  }

  /** What block `b` may be after the flush of `c` was cut off in write back number `n`: as last
      written back; or as it was being written back; or as a restore left it that was due before
      the flush began and that the flush did not reach. */
  ghost predicate Whole(c: seq<Block>, f: seq<byte>, n: nat, g: seq<byte>, bw: nat, b: nat)
    requires Valid(c, f) && n <= |c| && b + 4096 <= |f| == |g| && bw + 8192 <= |f|
  {
    || AsWrittenBack(c, f, n, g, b)
    || (n < |c| && c[n].addr == b && g[b..b + 4096] == c[n].data)
    || (n == 0 && Names(f, bw, b) && g[b..b + 4096] == f[bw + 4096..bw + 8192])
  }

  predicate Outside(size: nat, bw: nat, b: nat) {
    b % 4096 == 0 && b + 4096 <= size && (b + 4096 <= bw || bw + 8192 <= b)
  }

  /** Flash after one write back was cut off and the restores ran: one block is settled, as it
      was, as it should become, or as a restore due before makes it. */
  lemma CutOffSettles(f: seq<byte>, base: nat, bw: nat, t: nat, data: seq<byte>, fault: Fault, restarts: seq<Fault>)
    requires Layout(f, base, bw, t) && t != base && |data| == 4096
    requires Plausible(f, bw) && !Names(f, bw, base)
    ensures var h := Recover(RunOps(f, BlockOps(bw, t, data), bw, fault), base, restarts);
            || Settled(f, h, bw, t, f[t..t + 4096]) || Settled(f, h, bw, t, data)
            || exists u: nat :: Names(f, bw, u) && Settled(f, h, bw, u, f[bw + 4096..bw + 8192])
  {
    hide InfoBytes, RunOps, HeaderOf, BlockOps, InfoOk, Recover, BackupArea, InBackup;
    var g := RunOps(f, BlockOps(bw, t, data), bw, fault);
    BlockWriteInterrupted(f, base, bw, t, data, fault);
    if Settled(f, g, bw, t, f[t..t + 4096]) {
      RecoverSettled(f, g, base, bw, t, f[t..t + 4096], restarts);
    } else if Settled(f, g, bw, t, data) {
      RecoverSettled(f, g, base, bw, t, data, restarts);
    } else if Pending(f, g, bw, t, data) {
      RecoverPending(f, g, base, bw, t, data, restarts);
    } else {
      var u: nat :| Names(f, bw, u);
      StillPending(f, g, bw, t, u);
      RecoverPending(f, g, base, bw, u, f[bw + 4096..bw + 8192], restarts);
      assert Names(f, bw, u) && Settled(f, Recover(g, base, restarts), bw, u, f[bw + 4096..bw + 8192]);
    }
  }

  lemma StillPending(f: seq<byte>, g: seq<byte>, bw: nat, t: nat, u: nat)
    requires bw + 8192 <= |f| && t + 4096 <= |f| && Names(f, bw, u) && StillDue(f, g, bw, t)
    ensures Pending(f, g, bw, u, f[bw + 4096..bw + 8192])
  {
    hide InfoBytes, HeaderOf, InBackup;
    forall i | 0 <= i < |f| && !InTarget(u, i) && !InBackup(bw, i) ensures g[i] == f[i] {
      if InTarget(t, i) { assert g[i] == g[t..t + 4096][i - t] == f[t..t + 4096][i - t]; }
    }
  }

  /** Settling one block leaves all others as they were. */
  lemma SettledElsewhere(f: seq<byte>, h: seq<byte>, bw: nat, t: nat, content: seq<byte>, b: nat)
    requires bw + 8192 <= |f| && t % 4096 == 0 && t + 4096 <= |f| && Settled(f, h, bw, t, content)
    requires Outside(|f|, bw, b) && b != t
    ensures h[b..b + 4096] == f[b..b + 4096]
  {
    hide InfoOk, InBackup, HeaderOf;
    forall i | b <= i < b + 4096 ensures h[i] == f[i] {
      SectorsApart(bw, b, i);
    }
  }

  lemma KeptBlock(c: seq<Block>, f: seq<byte>, n: nat, g: seq<byte>, h: seq<byte>, bw: nat, b: nat)
    requires Persists(c, f, n, g, bw) && |h| == |g| && Outside(|f|, bw, b) && h[b..b + 4096] == g[b..b + 4096]
    ensures AsWrittenBack(c, f, n, h, b)
  {
    hide InBackup, KeptAt, Valid;
    forall a | b <= a < b + 4096 ensures h[a] == KeptAt(c, f, n, a) {
      SectorsApart(bw, b, a);
      assert h[a] == h[b..b + 4096][a - b] && g[a] == g[b..b + 4096][a - b];
    }
  }

  /** After the cut-off write back number `n` and the restores, every block is whole. */
  lemma BlockIsWhole(c: seq<Block>, f: seq<byte>, n: nat, g: seq<byte>, base: nat, bw: nat, fault: Fault,
                     restarts: seq<Fault>, b: nat)
    requires n < |c| && Persists(c, f, n, g, bw) && Flushable(c[n..], g, base, bw) && c[n].addr < TWO32
    requires Plausible(g, bw) && !Names(g, bw, base) && c[n].addr != base && |c[n].data| == 4096
    requires if n == 0 then g == f else !InfoOk(HeaderOf(g, bw))
    requires Outside(|f|, bw, b)
    ensures var h := Recover(RunOps(g, BlockOps(bw, c[n].addr, c[n].data), bw, fault), base, restarts);
            |h| == |f| && Whole(c, f, n, h, bw, b) && !InfoOk(HeaderOf(h, bw))
  {
    hide InfoBytes, RunOps, HeaderOf, BlockOps, InfoOk, Recover, BackupArea, InBackup, Persists, Valid, KeptAt, OkNode;
    var t := c[n].addr;
    PersistsLen(c, f, n, g, bw);
    assert c[n..][0] == c[n];
    NodeLayout(c[n..], g, base, bw, 0);
    var h := Recover(RunOps(g, BlockOps(bw, t, c[n].data), bw, fault), base, restarts);
    CutOffSettles(g, base, bw, t, c[n].data, fault, restarts);
    if Settled(g, h, bw, t, g[t..t + 4096]) {
      if b != t { SettledElsewhere(g, h, bw, t, g[t..t + 4096], b); }
      KeptBlock(c, f, n, g, h, bw, b);
    } else if Settled(g, h, bw, t, c[n].data) {
      if b != t {
        SettledElsewhere(g, h, bw, t, c[n].data, b);
        KeptBlock(c, f, n, g, h, bw, b);
      }
    } else {
      var saved := g[bw + 4096..bw + 8192];
      var u: nat :| Names(g, bw, u) && Settled(g, h, bw, u, saved);
      assert InfoOk(HeaderOf(g, bw)) by { NamedIsOk(g, bw, u); }
      if b != u {
        SettledElsewhere(g, h, bw, u, saved, b);
        KeptBlock(c, f, n, g, h, bw, b);
      }
    }
  }

  lemma NamedIsOk(g: seq<byte>, bw: nat, u: nat)
    requires bw + 16 <= |g| && Names(g, bw, u)
    ensures InfoOk(HeaderOf(g, bw))
  {
    hide InfoOk, InfoBytes;
    InfoBytesOk(Info(u, BKW_BLOCK));
  }

  /** The start-up after a loss of power: `restarts` are cut-off restores, the last one is not. */
  method Restart(dev: Device, base: nat, restarts: seq<Fault>)
    modifies dev
    ensures dev.bytes == Recover(old(dev.bytes), base, restarts)
  {
    hide Restore;
    var i := 0;
    while i < |restarts|
      invariant 0 <= i <= |restarts|
      invariant Recover(dev.bytes, base, restarts[i..]) == Recover(old(dev.bytes), base, restarts)
    {
      assert restarts[i..][0] == restarts[i] && restarts[i..][1..] == restarts[i + 1..];
      ghost var f := dev.bytes;
      var ok := dev.RestoreBlock(base, true, restarts[i]);
      IdleRestore(f, base, restarts[i]);
      i := i + 1;
    }
    ghost var f := dev.bytes;
    var ok := dev.RestoreBlock(base, true, Fault(4, []));
    IdleRestore(f, base, Fault(4, []));
  }

  lemma IdleRestore(f: seq<byte>, base: nat, fault: Fault)
    ensures BackupArea(f, base).NoEntry? ==> Restore(f, base, fault) == f
    ensures BackupArea(f, base).Entry? && !InfoOk(HeaderOf(f, BackupArea(f, base).addr)) ==>
              Restore(f, base, fault) == f
  {
  }

  /** A flush of all blocks in which power is lost, and the restart.  Every block outside the
      backup area is whole: as it was last written back, as it was being written back when power
      failed, or as a restore due before the flush left it.  No restore is due any more. */
  method LosePower(mem: Cache, dev: Device, base: nat, ghost bw: nat, faults: seq<Fault>, restarts: seq<Fault>)
    requires Flushable(mem.nodes, mem.flash, base, bw) && dev.bytes == mem.flash
    requires bw + 16 <= |mem.flash| && Plausible(mem.flash, bw) && !Names(mem.flash, bw, base)
    requires var n := Reached(faults, 0, |mem.nodes|); n < |mem.nodes| ==> mem.nodes[n].addr != base
    modifies mem, dev
    ensures mem.nodes == [] && dev.bytes == mem.flash && |mem.flash| == |old(mem.flash)|
    ensures var c, f := old(mem.nodes), old(mem.flash);
            var n := Reached(faults, 0, |c|);
            && Valid(c, f) && bw + 8192 <= |f| && !InfoOk(HeaderOf(mem.flash, bw))
            && forall b: nat | Outside(|f|, bw, b) :: Whole(c, f, n, mem.flash, bw, b)
  {
    hide InfoBytes, RunOps, HeaderOf, BlockOps, InfoOk, Recover, Restore, BackupArea, InBackup, Persists, KeptAt, Shows,
         Names, Whole;
    ghost var c, f, n := mem.nodes, mem.flash, Reached(faults, 0, |mem.nodes|);
    ghost var before;
    var ok;
    ok, before := CleanAll(mem, dev, base, bw, faults);
    ghost var cut := dev.bytes;
    Restart(dev, base, restarts);
    mem.nodes := [];
    mem.flash := dev.bytes;
    PersistsLen(c, f, n, before, bw);
    if ok && (n > 0 || !InfoOk(HeaderOf(f, bw))) {
      AllWritten(c, f, n, before, base, bw, restarts);
    } else if ok {
      OnlyRestored(c, f, base, bw, restarts);
    } else {
      assert c[n..][0] == c[n];
      NodeLayout(c[n..], before, base, bw, 0);
      if n > 0 { NothingNamed(before, base, bw); }
      RestLen(before, base, bw, c[n].addr, c[n].data, FaultAt(faults, n), restarts);
      BlockIsWhole(c, f, n, before, base, bw, FaultAt(faults, n), restarts, c[n].addr);
      forall b: nat | Outside(|f|, bw, b) ensures Whole(c, f, n, mem.flash, bw, b) {
        BlockIsWhole(c, f, n, before, base, bw, FaultAt(faults, n), restarts, b);
      }
    }
  }

  lemma RestLen(f: seq<byte>, base: nat, bw: nat, t: nat, data: seq<byte>, fault: Fault, restarts: seq<Fault>)
    requires t < TWO32
    ensures |Recover(RunOps(f, BlockOps(bw, t, data), bw, fault), base, restarts)| == |f|
  {
  }

  lemma PersistsLen(c: seq<Block>, f: seq<byte>, n: nat, g: seq<byte>, bw: nat)
    requires Persists(c, f, n, g, bw)
    ensures |g| == |f| && Valid(c, f)
  {
  }

  lemma NothingNamed(g: seq<byte>, base: nat, bw: nat)
    requires bw + 16 <= |g| && !InfoOk(HeaderOf(g, bw))
    ensures Plausible(g, bw) && !Names(g, bw, base)
  {
    hide InfoOk, Names, HeaderOf;
    if Names(g, bw, base) { NamedIsOk(g, bw, base); }
  }

  /** A flush that completed before power was lost. */
  lemma AllWritten(c: seq<Block>, f: seq<byte>, n: nat, g: seq<byte>, base: nat, bw: nat, restarts: seq<Fault>)
    requires n == |c| && Persists(c, f, n, g, bw) && Layout(g, base, bw, base) && !InfoOk(HeaderOf(g, bw))
    ensures Recover(g, base, restarts) == g
    ensures forall b: nat | Outside(|f|, bw, b) :: Whole(c, f, n, g, bw, b)
  {
    hide InfoOk, HeaderOf, BackupArea, InBackup, Persists, KeptAt, Restore, AsWrittenBack, Names;
    PersistsLen(c, f, n, g, bw);
    NeverDue(g, base, bw, restarts);
    forall b: nat | Outside(|f|, bw, b) ensures Whole(c, f, n, g, bw, b) {
      KeptBlock(c, f, n, g, g, bw, b);
    }
  }

  /** Nothing to flush, and a restore due before. */
  lemma OnlyRestored(c: seq<Block>, f: seq<byte>, base: nat, bw: nat, restarts: seq<Fault>)
    requires Flushable(c, f, base, bw) && Plausible(f, bw) && !Names(f, bw, base) && InfoOk(HeaderOf(f, bw))
    ensures var h := Recover(f, base, restarts);
            && |h| == |f| && !InfoOk(HeaderOf(h, bw))
            && forall b: nat | Outside(|f|, bw, b) :: Whole(c, f, 0, h, bw, b)
  {
    hide InfoOk, HeaderOf, BackupArea, InBackup, KeptAt, InfoBytes, Recover, OkNode, AsWrittenBack;
    var u: nat :| Names(f, bw, u);
    var saved := f[bw + 4096..bw + 8192];
    PendingSelf(f, bw, u);
    RecoverPending(f, f, base, bw, u, saved, restarts);
    PersistsStart(c, f, base, bw);
    var h := Recover(f, base, restarts);
    forall b: nat | Outside(|f|, bw, b) ensures Whole(c, f, 0, h, bw, b) {
      if b != u {
        SettledElsewhere(f, h, bw, u, saved, b);
        KeptBlock(c, f, 0, f, h, bw, b);
      }
    }
  }

  lemma {:induction false} NeverDue(g: seq<byte>, base: nat, bw: nat, restarts: seq<Fault>)
    requires BackupArea(g, base).Entry? && BackupArea(g, base).addr == bw && !InfoOk(HeaderOf(g, bw))
    ensures Recover(g, base, restarts) == g
    decreases |restarts|
  {
    hide InfoOk, HeaderOf, BackupArea, Restore;
    IdleRestore(g, base, if restarts == [] then Fault(4, []) else restarts[0]);
    if restarts != [] { NeverDue(g, base, bw, restarts[1..]); }
  }
}

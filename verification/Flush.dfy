/** Flushing the cache (hs_cfg_flush, lib/config/base/cfg_cachemem.c): each block is written
    back through the backup area and dropped; a failure triggers a restore.  The list may hold
    a block more than once, a restore may be due, and any operation may fail. */
module Flush {
  import opened Bytes
  import opened CacheMem
  import opened CacheLaws
  import opened BackupWrite
  import opened BackupLaws
  import opened BackupExact

  /** The block does not meet the backup area, and a cached index block has the index entry
      of the backup area that is in flash. */
  predicate OkNode(b: Block, flash: seq<byte>, base: nat, bw: nat)
    requires base + 4096 <= |flash| && |b.data| == 4096
  {
    && (b.addr + 4096 <= bw || bw + 8192 <= b.addr)
    && (b.addr == base ==> forall i | 3 <= i < 6 :: b.data[i] == flash[base + i])
  }

  /** A restore that is due concerns a block that is still cached. */
  ghost predicate DueIsCached(c: seq<Block>, flash: seq<byte>, base: nat, bw: nat) {
    && bw + 16 <= |flash|
    && (InfoOk(HeaderOf(flash, bw)) ==> exists j | 0 <= j < |c| :: c[j].addr != base && Names(flash, bw, c[j].addr))
  }

  /** What a flush that meets no failure needs. */
  ghost predicate Flushable(c: seq<Block>, flash: seq<byte>, base: nat, bw: nat) {
    && Valid(c, flash) && Layout(flash, base, bw, base)
    && (forall i | 0 <= i < |c| :: OkNode(c[i], flash, base, bw))
  }

  /** What every flush needs and keeps, whether it succeeds or not. */
  ghost predicate Ready(c: seq<Block>, flash: seq<byte>, base: nat, bw: nat) {
    Flushable(c, flash, base, bw) && DueIsCached(c, flash, base, bw)
  }

  /** Outside the sectors of the backup area, both show the same bytes. */
  ghost predicate SameBytes(c: seq<Block>, flash: seq<byte>, d: seq<Block>, g: seq<byte>, bw: nat)
    requires Valid(c, flash) && Valid(d, g)
  {
    |g| == |flash| && forall a: nat | a < |flash| && !InBackup(bw, a) :: ByteAt(d, g, a) == ByteAt(c, flash, a)
  }

  lemma NodeLayout(c: seq<Block>, flash: seq<byte>, base: nat, bw: nat, i: nat)
    requires Flushable(c, flash, base, bw) && i < |c|
    ensures Layout(flash, base, bw, c[i].addr) && |c[i].data| == 4096
  {
    hide BackupArea, InfoOk;
    ValidAt(c, flash, i);
  }

  // ----- changes that readers do not notice

  /** Only the flash of cached blocks and of the backup area has changed. */
  ghost predicate Hidden(c: seq<Block>, f: seq<byte>, g: seq<byte>, bw: nat) {
    |g| == |f| && forall a: nat | a < |f| && !InBackup(bw, a) && !Cached(c, Base(a)) :: g[a] == f[a]
  }

  lemma HiddenShows(c: seq<Block>, f: seq<byte>, g: seq<byte>, bw: nat)
    requires Valid(c, f) && Hidden(c, f, g, bw)
    ensures Valid(c, g) && SameBytes(c, f, c, g, bw)
  {
    hide Find, InBackup;
  }

  lemma ChangedBlockHidden(c: seq<Block>, f: seq<byte>, g: seq<byte>, bw: nat, j: nat)
    requires Valid(c, f) && j < |c| && RestKept(f, g, bw, c[j].addr)
    ensures Hidden(c, f, g, bw)
  {
    hide Find, InBackup;
    forall a: nat | a < |f| && !InBackup(bw, a) && !Cached(c, Base(a)) ensures g[a] == f[a] {
      FindSpec(c, 0, Base(a));
      ValidAt(c, f, j);
      if InTarget(c[j].addr, a) {
        InTargetBase(c[j].addr, a);
      }
    }
  }

  lemma InTargetBase(t: nat, a: nat)
    requires t % 4096 == 0
    ensures InTarget(t, a) <==> Base(a) == t
  {
  }

  lemma HiddenTwice(c: seq<Block>, f: seq<byte>, g: seq<byte>, h: seq<byte>, bw: nat)
    requires Hidden(c, f, g, bw) && Hidden(c, g, h, bw)
    ensures Hidden(c, f, h, bw)
  {
    hide Find, InBackup;
  }

  /** Changing one cached block other than the index block keeps what a flush needs, if a
      restore that is now due concerns a cached block. */
  lemma ReadyKept(c: seq<Block>, f: seq<byte>, g: seq<byte>, base: nat, bw: nat, j: nat)
    requires Ready(c, f, base, bw) && j < |c| && c[j].addr != base && RestKept(f, g, bw, c[j].addr)
    requires DueIsCached(c, g, base, bw)
    ensures Ready(c, g, base, bw)
  {
    hide BackupArea, InfoOk, InBackup, DueIsCached;
    NodeLayout(c, f, base, bw, j);
    SameArea(f, g, base, bw, c[j].addr);
    IndexKept(f, g, base, bw, c[j].addr);
    forall i | 0 <= i < |c| ensures OkNode(c[i], g, base, bw) {
      assert OkNode(c[i], f, base, bw);
    }
  }

  lemma IndexKept(f: seq<byte>, g: seq<byte>, base: nat, bw: nat, t: nat)
    requires Layout(f, base, bw, t) && t != base && RestKept(f, g, bw, t)
    ensures forall i | base <= i < base + 4096 :: g[i] == f[i]
  {
    hide BackupArea, InBackup;
    forall i | base <= i < base + 4096 ensures g[i] == f[i] {
      SectorsApart(bw, base, i);
    }
  }

  /** A write back that fails: its block is still cached, so readers notice nothing. */
  lemma FailedWrite(c: seq<Block>, f: seq<byte>, base: nat, bw: nat, fault: Fault)
    requires Ready(c, f, base, bw) && |c| > 0 && c[0].addr != base && |c[0].data| == 4096 && c[0].addr < TWO32
    requires fault.step < 6
    ensures var g := RunOps(f, BlockOps(bw, c[0].addr, c[0].data), bw, fault);
            Hidden(c, f, g, bw) && Ready(c, g, base, bw)
  {
    hide BackupArea, InfoOk, InBackup, InfoBytes, RunOps, BlockOps, HeaderOf, Valid, OkNode;
    var t := c[0].addr;
    var g := RunOps(f, BlockOps(bw, t, c[0].data), bw, fault);
    NodeLayout(c, f, base, bw, 0);
    BlockWriteInterrupted(f, base, bw, t, c[0].data, fault);
    if Pending(f, g, bw, t, c[0].data) {
      assert Names(g, bw, c[0].addr);
    } else if InfoOk(HeaderOf(g, bw)) {
      assert StillDue(f, g, bw, t);
      var j :| 0 <= j < |c| && c[j].addr != base && Names(f, bw, c[j].addr);
      assert Names(g, bw, c[j].addr);
    }
    ReadyKept(c, f, g, base, bw, 0);
    ChangedBlockHidden(c, f, g, bw, 0);
  }

  /** A restore, complete or not: the block it concerns is cached, so readers notice nothing. */
  lemma AnyRestore(c: seq<Block>, f: seq<byte>, base: nat, bw: nat, fault: Fault)
    requires Ready(c, f, base, bw)
    ensures var g := Restore(f, base, fault);
            Hidden(c, f, g, bw) && Ready(c, g, base, bw) && (fault.step >= 4 ==> !InfoOk(HeaderOf(g, bw)))
  {
    hide BackupArea, InfoOk, InBackup, InfoBytes, RunOps, HeaderOf, Valid, OkNode, RestoreOps;
    if InfoOk(HeaderOf(f, bw)) {
      var j :| 0 <= j < |c| && c[j].addr != base && Names(f, bw, c[j].addr);
      var u, saved := c[j].addr, f[bw + 4096..bw + 8192];
      var g := Restore(f, base, fault);
      NodeLayout(c, f, base, bw, j);
      PendingSelf(f, bw, u);
      RestorePending(f, f, base, bw, u, saved, fault);
      if Pending(f, g, bw, u, saved) {
        PendingOps(f, g, bw, u, saved);
        PendingNames(f, g, bw, u, saved);
      }
      ReadyKept(c, f, g, base, bw, j);
      ChangedBlockHidden(c, f, g, bw, j);
    }
  }

  /** A write back that succeeds: the block can be dropped, whichever block it is. */
  lemma CompleteWrite(c: seq<Block>, f: seq<byte>, base: nat, bw: nat, fault: Fault)
    requires Flushable(c, f, base, bw) && |c| > 0 && |c[0].data| == 4096 && c[0].addr < TWO32 && fault.step >= 6
    ensures var g := RunOps(f, BlockOps(bw, c[0].addr, c[0].data), bw, fault);
            && RestKept(f, g, bw, c[0].addr) && g[c[0].addr..c[0].addr + 4096] == c[0].data
            && Ready(c[1..], g, base, bw) && bw + 16 <= |g| && !InfoOk(HeaderOf(g, bw))
  {
    hide BackupArea, InfoOk, InBackup, InfoBytes, RunOps, BlockOps, HeaderOf;
    var t := c[0].addr;
    var g := RunOps(f, BlockOps(bw, t, c[0].data), bw, fault);
    NodeLayout(c, f, base, bw, 0);
    BlockWriteInterrupted(f, base, bw, t, c[0].data, fault);
    EntryKept(c, f, g, base, bw);
    SameEntry(f, base, g);
    forall i | 0 <= i < |c| - 1 ensures OkNode(c[1..][i], g, base, bw) {
      assert OkNode(c[i + 1], f, base, bw);
    }
  }

  lemma EntryKept(c: seq<Block>, f: seq<byte>, g: seq<byte>, base: nat, bw: nat)
    requires Flushable(c, f, base, bw) && |c| > 0 && RestKept(f, g, bw, c[0].addr)
    requires c[0].addr + 4096 <= |g| && g[c[0].addr..c[0].addr + 4096] == c[0].data
    ensures forall i | base + 3 <= i < base + 6 :: g[i] == f[i]
  {
    hide BackupArea, InfoOk, InBackup, DueIsCached;
    NodeLayout(c, f, base, bw, 0);
    if c[0].addr == base {
      forall i | base + 3 <= i < base + 6 ensures g[i] == f[i] {
        assert OkNode(c[0], f, base, bw);
        assert g[i] == g[base..base + 4096][i - base] == c[0].data[i - base];
      }
    } else {
      IndexKept(f, g, base, bw, c[0].addr);
    }
  }

  // ----- what readers see once some blocks were written back and dropped

  /** The last copy of a block among the first `n` nodes, -1 if there is none. */
  function LastBefore(c: seq<Block>, n: nat, base: nat): (j: int)
    requires n <= |c|
    ensures -1 <= j < n && (j >= 0 ==> c[j].addr == base)
  {
    if n == 0 then -1 else if c[n - 1].addr == base then n - 1 else LastBefore(c, n - 1, base)
  }

  /** The copy that shows after the first `n` nodes were dropped: the first one left, or else
      the last one dropped, which is in flash. */
  function Copy(c: seq<Block>, n: nat, base: nat): (j: int)
    requires n <= |c|
    ensures -1 <= j < |c| && (j >= 0 ==> c[j].addr == base)
  {
    if Find(c, n, base) < |c| then Find(c, n, base) else LastBefore(c, n, base)
  }

  function ShownAt(c: seq<Block>, flash: seq<byte>, n: nat, a: nat): byte
    requires Valid(c, flash) && n <= |c| && a < |flash|
  {
    var j := Copy(c, n, Base(a));
    if j < 0 then flash[a] else c[j].data[a - Base(a)]
  }

  lemma {:induction false} LastBeforeSpec(c: seq<Block>, n: nat, base: nat)
    requires n <= |c|
    ensures forall i | LastBefore(c, n, base) < i < n :: c[i].addr != base
  {
    if n > 0 && c[n - 1].addr != base { LastBeforeSpec(c, n - 1, base); }
  }

  lemma CopyNone(c: seq<Block>, n: nat, base: nat)
    requires n <= |c|
    ensures Copy(c, n, base) < 0 <==> !Cached(c, base)
  {
    hide Find, LastBefore;
    FindSpec(c, 0, base);
    FindSpec(c, n, base);
    LastBeforeSpec(c, n, base);
  }

  lemma FindDropped(c: seq<Block>, n: nat, base: nat)
    requires n <= |c|
    ensures Find(c[n..], 0, base) == Find(c, n, base) - n
  {
    hide Find;
    var p, q := Find(c, n, base), Find(c[n..], 0, base);
    FindSpec(c, n, base);
    FindSpec(c[n..], 0, base);
    assert q < |c[n..]| ==> c[n..][q] == c[n + q];
    assert p < |c| ==> c[n..][p - n] == c[p];
  }

  /** Readers of the remaining list and the new flash see `ShownAt`. */
  ghost predicate Shows(c: seq<Block>, f: seq<byte>, n: nat, g: seq<byte>, bw: nat) {
    && Valid(c, f) && n <= |c| && |g| == |f| && Valid(c[n..], g)
    && forall a: nat | a < |f| && !InBackup(bw, a) :: ByteAt(c[n..], g, a) == ShownAt(c, f, n, a)
  }

  lemma ShowsAtFirst(c: seq<Block>, f: seq<byte>, bw: nat)
    requires Valid(c, f)
    ensures Shows(c, f, 0, f, bw)
  {
    hide Find, InBackup;
    assert c[0..] == c;
  }

  lemma ShowsHidden(c: seq<Block>, f: seq<byte>, n: nat, g: seq<byte>, h: seq<byte>, bw: nat)
    requires Shows(c, f, n, g, bw) && Hidden(c[n..], g, h, bw)
    ensures Shows(c, f, n, h, bw)
  {
    hide InBackup, ByteAt, ShownAt;
    HiddenShows(c[n..], g, h, bw);
  }

  lemma FindNext(c: seq<Block>, n: nat, base: nat)
    requires n < |c|
    ensures Find(c, n, base) == if c[n].addr == base then n else Find(c, n + 1, base)
  {
  }

  /** One more block in flash and dropped. */
  lemma ShowsNext(c: seq<Block>, f: seq<byte>, n: nat, g: seq<byte>, h: seq<byte>, bw: nat)
    requires n < |c| && Shows(c, f, n, g, bw) && |h| == |g| && Valid(c[n + 1..], h)
    requires RestKept(g, h, bw, c[n].addr) && c[n].addr + 4096 <= |h| && h[c[n].addr..c[n].addr + 4096] == c[n].data
    ensures Shows(c, f, n + 1, h, bw)
  {
    hide InBackup, Valid, Find, LastBefore;
    forall a: nat | a < |f| && !InBackup(bw, a) ensures ByteAt(c[n + 1..], h, a) == ShownAt(c, f, n + 1, a) {
      var b := Base(a);
      ValidAt(c, f, n);
      InTargetBase(c[n].addr, a);
      FindDropped(c, n, b);
      FindDropped(c, n + 1, b);
      FindNext(c, n, b);
      LastNext(c, n, b);
      if c[n].addr == b {
        assert h[a] == h[c[n].addr..c[n].addr + 4096][a - c[n].addr];
      }
      assert ByteAt(c[n..], g, a) == ShownAt(c, f, n, a);
    }
  }

  lemma LastNext(c: seq<Block>, n: nat, base: nat)
    requires n < |c|
    ensures LastBefore(c, n + 1, base) == if c[n].addr == base then n else LastBefore(c, n, base)
  {
  }

  // ----- the flush

  function FaultAt(faults: seq<Fault>, i: nat): Fault {
    if i < |faults| then faults[i] else Fault(6, [])
  }

  /** How many of the write backs from number `i` up to `m` complete before the first that
      does not. */
  function Reached(faults: seq<Fault>, i: nat, m: nat): (n: nat)
    requires i <= m
    ensures i <= n <= m && (n < m ==> FaultAt(faults, n).step < 6)
    decreases m - i
  {
    if i == m || FaultAt(faults, i).step < 6 then i else Reached(faults, i + 1, m)
  }

  /** No failure hits the write back of the index block, and a restore that is due concerns a
      cached block. */
  ghost predicate Safe(c: seq<Block>, flash: seq<byte>, base: nat, bw: nat, faults: seq<Fault>) {
    && DueIsCached(c, flash, base, bw)
    && forall i | 0 <= i < |c| && c[i].addr == base :: FaultAt(faults, i).step >= 6
  }

  /** _cfg_cachemem_cleanunit.  The head of the list is written back; it is dropped only
      when every step succeeded. */
  method CleanUnit(mem: Cache, dev: Device, base: nat, ghost bw: nat, fault: Fault) returns (ok: bool)
    requires Flushable(mem.nodes, mem.flash, base, bw) && dev.bytes == mem.flash
    modifies mem, dev
    ensures dev.bytes == mem.flash && |mem.flash| == |old(mem.flash)|
    ensures ok <==> old(mem.nodes) == [] || fault.step >= 6
    ensures !ok || old(mem.nodes) == [] ==> mem.nodes == old(mem.nodes)
    ensures old(mem.nodes) == [] ==> mem.flash == old(mem.flash)
    ensures ok && old(mem.nodes) != [] ==>
              var b := old(mem.nodes)[0];
              && mem.nodes == old(mem.nodes)[1..] && Ready(mem.nodes, mem.flash, base, bw)
              && RestKept(old(mem.flash), mem.flash, bw, b.addr)
              && b.addr + 4096 <= |mem.flash| && mem.flash[b.addr..b.addr + 4096] == b.data
              && bw + 16 <= |mem.flash| && !InfoOk(HeaderOf(mem.flash, bw))
    ensures !ok ==> var b := old(mem.nodes)[0];
                    b.addr < TWO32 && mem.flash == RunOps(old(mem.flash), BlockOps(bw, b.addr, b.data), bw, fault)
    ensures !ok && old(Ready(mem.nodes, mem.flash, base, bw)) && old(mem.nodes)[0].addr != base ==>
              Ready(mem.nodes, mem.flash, base, bw) && Hidden(mem.nodes, old(mem.flash), mem.flash, bw)
  {
    hide Find, BackupArea, RunOps, InfoBytes, InfoOk, HeaderOf, InBackup, BlockOps, OkNode, Valid;
    if mem.nodes == [] {
      return true;
    }
    var head := mem.nodes[0];
    NodeLayout(mem.nodes, mem.flash, base, bw, 0);
    ok := dev.BlockWrite(base, head.addr, head.data, fault);
    if ok {
      CompleteWrite(mem.nodes, mem.flash, base, bw, fault);
      mem.nodes := mem.nodes[1..];
    } else if DueIsCached(mem.nodes, mem.flash, base, bw) && head.addr != base {
      FailedWrite(mem.nodes, mem.flash, base, bw, fault);
    }
    mem.flash := dev.bytes;
  }

  /** The state of a flush after `n` blocks. */
  ghost predicate Flushing(c: seq<Block>, f: seq<byte>, n: nat, d: seq<Block>, g: seq<byte>, base: nat, bw: nat) {
    n <= |c| && d == c[n..] && Flushable(d, g, base, bw) && Shows(c, f, n, g, bw)
      && (n > 0 ==> DueIsCached(d, g, base, bw))
  }

  lemma FlushingNext(c: seq<Block>, f: seq<byte>, n: nat, g: seq<byte>, h: seq<byte>, base: nat, bw: nat)
    requires n < |c| && Flushing(c, f, n, c[n..], g, base, bw) && Ready(c[n..][1..], h, base, bw)
    requires RestKept(g, h, bw, c[n].addr) && c[n].addr + 4096 <= |h| && h[c[n].addr..c[n].addr + 4096] == c[n].data
    ensures Flushing(c, f, n + 1, c[n..][1..], h, base, bw)
  {
    hide Shows, InBackup, DueIsCached, OkNode, Layout;
    assert c[n..][1..] == c[n + 1..];
    ShowsNext(c, f, n, g, h, bw);
  }

  /** The content of cell `a` of the flash once the first `n` nodes were written back. */
  function KeptAt(c: seq<Block>, flash: seq<byte>, n: nat, a: nat): byte
    requires Valid(c, flash) && n <= |c| && a < |flash|
  {
    var j := LastBefore(c, n, Base(a));
    if j < 0 then flash[a] else c[j].data[a - Base(a)]
  }

  /** Outside the sectors of the backup area, `g` is the flash with `n` nodes written back. */
  ghost predicate Persists(c: seq<Block>, f: seq<byte>, n: nat, g: seq<byte>, bw: nat) {
    && Valid(c, f) && n <= |c| && |g| == |f|
    && forall a: nat | a < |f| && !InBackup(bw, a) :: g[a] == KeptAt(c, f, n, a)
  }

  lemma PersistsNext(c: seq<Block>, f: seq<byte>, n: nat, g: seq<byte>, h: seq<byte>, bw: nat)
    requires n < |c| && Persists(c, f, n, g, bw)
    requires RestKept(g, h, bw, c[n].addr) && c[n].addr + 4096 <= |h| && h[c[n].addr..c[n].addr + 4096] == c[n].data
    ensures Persists(c, f, n + 1, h, bw)
  {
    hide InBackup, Valid, LastBefore;
    forall a: nat | a < |f| && !InBackup(bw, a) ensures h[a] == KeptAt(c, f, n + 1, a) {
      ValidAt(c, f, n);
      InTargetBase(c[n].addr, a);
      LastNext(c, n, Base(a));
      if c[n].addr == Base(a) {
        assert h[a] == h[c[n].addr..c[n].addr + 4096][a - c[n].addr];
      }
    }
  }

  lemma PersistsStart(c: seq<Block>, f: seq<byte>, base: nat, bw: nat)
    requires Flushable(c, f, base, bw)
    ensures Persists(c, f, 0, f, bw)
  {
    hide InBackup, BackupArea;
  }

  /** _cfg_cachemem_cleanall: blocks are written back and dropped up to the first failure;
      `before` is the flash at the beginning of the last write back. */
  method CleanAll(mem: Cache, dev: Device, base: nat, ghost bw: nat, faults: seq<Fault>)
    returns (ok: bool, ghost before: seq<byte>)
    requires Flushable(mem.nodes, mem.flash, base, bw) && dev.bytes == mem.flash
    modifies mem, dev
    ensures dev.bytes == mem.flash && |mem.flash| == |old(mem.flash)|
    ensures var c := old(mem.nodes);
            var n := Reached(faults, 0, |c|);
            && (ok <==> n == |c|) && mem.nodes == c[n..]
            && (ok || old(Safe(mem.nodes, mem.flash, base, bw, faults)) ==>
                  Flushing(c, old(mem.flash), n, mem.nodes, mem.flash, base, bw))
            && (old(Safe(mem.nodes, mem.flash, base, bw, faults)) ==> Ready(mem.nodes, mem.flash, base, bw))
            && Persists(c, old(mem.flash), n, if ok then mem.flash else before, bw)
            && (n == 0 ==> before == old(mem.flash))
            && (n > 0 ==> bw + 16 <= |before| && !InfoOk(HeaderOf(before, bw)))
            && (ok ==> before == mem.flash)
            && (!ok ==> Flushable(c[n..], before, base, bw) && c[n].addr < TWO32
                        && mem.flash == RunOps(before, BlockOps(bw, c[n].addr, c[n].data), bw, FaultAt(faults, n)))
  {
    hide Find, InBackup, OkNode, Valid, Shows, DueIsCached, Layout, Hidden, RestKept, RunOps, BlockOps, InfoOk,
         HeaderOf, Persists;
    ok := true;
    var i := 0;
    ghost var c, f := mem.nodes, mem.flash;
    assert c[0..] == c;
    ShowsStart(c, f, base, bw);
    PersistsStart(c, f, base, bw);
    before := f;
    while mem.nodes != []
      invariant i <= |c| && mem.nodes == c[i..] && dev.bytes == mem.flash && |mem.flash| == |f|
      invariant Flushing(c, f, i, mem.nodes, mem.flash, base, bw) && (i == 0 ==> mem.flash == f)
      invariant Reached(faults, i, |c|) == Reached(faults, 0, |c|)
      invariant Persists(c, f, i, mem.flash, bw) && before == mem.flash
      invariant i > 0 ==> bw + 16 <= |mem.flash| && !InfoOk(HeaderOf(mem.flash, bw))
      decreases |mem.nodes|
    {
      ghost var g := mem.flash;
      assert mem.nodes[0] == c[i];
      ok := CleanUnit(mem, dev, base, bw, FaultAt(faults, i));
      if !ok {
        if old(Safe(mem.nodes, mem.flash, base, bw, faults)) {
          FlushFailed(c, f, i, mem.nodes, g, mem.flash, base, bw);
        }
        return;
      }
      FlushingNext(c, f, i, g, mem.flash, base, bw);
      PersistsNext(c, f, i, g, mem.flash, bw);
      before := mem.flash;
      assert c[i..][1..] == c[i + 1..];
      i := i + 1;
    }
  }

  lemma ShowsStart(c: seq<Block>, f: seq<byte>, base: nat, bw: nat)
    requires Flushable(c, f, base, bw)
    ensures Shows(c, f, 0, f, bw)
  {
    hide InBackup, Shows;
    ShowsAtFirst(c, f, bw);
  }

  lemma FlushFailed(c: seq<Block>, f: seq<byte>, n: nat, d: seq<Block>, g: seq<byte>, h: seq<byte>, base: nat, bw: nat)
    requires Flushing(c, f, n, d, g, base, bw) && Ready(d, h, base, bw) && Hidden(d, g, h, bw)
    ensures Flushing(c, f, n, d, h, base, bw)
  {
    hide InBackup, DueIsCached, OkNode, Layout, Shows, Hidden;
    ShowsHidden(c, f, n, g, h, bw);
  }

  /** hs_cfg_flush.  `faults[i]` hits the write back of block number `i`, `restoreFault` the
      restore that follows a failure, `heap` its buffer.  After a flush, successful or not,
      readers see of each block the first copy left in the list, or else the last one that
      was written back; and the next flush can follow. */
  method FlushCache(mem: Cache, dev: Device, base: nat, ghost bw: nat, all: bool, faults: seq<Fault>, heap: bool,
                 restoreFault: Fault)
    returns (ok: bool)
    requires Flushable(mem.nodes, mem.flash, base, bw) && dev.bytes == mem.flash
    modifies mem, dev
    ensures dev.bytes == mem.flash && |mem.flash| == |old(mem.flash)|
    ensures var c := old(mem.nodes);
            var n := Reached(faults, 0, Wanted(c, all));
            && (ok <==> n == Wanted(c, all))
            && (ok || old(Safe(mem.nodes, mem.flash, base, bw, faults)) ==>
                  mem.nodes == c[n..] && Flushing(c, old(mem.flash), n, mem.nodes, mem.flash, base, bw))
            && (old(Safe(mem.nodes, mem.flash, base, bw, faults)) ==> Ready(mem.nodes, mem.flash, base, bw))
    ensures ok && all ==> mem.nodes == []
    ensures ok && !all && old(mem.nodes) != [] ==> mem.nodes == old(mem.nodes)[1..]
    ensures (forall i | 0 <= i < |faults| :: faults[i].step >= 6) ==> ok
    ensures !ok && old(Safe(mem.nodes, mem.flash, base, bw, faults)) && heap && restoreFault.step >= 4 ==>
              bw + 16 <= |mem.flash| && !InfoOk(HeaderOf(mem.flash, bw))
  {
    hide Find, InBackup, OkNode, Valid, Shows, Layout, Hidden, RestKept, InfoOk, HeaderOf, DueIsCached, BackupArea;
    ghost var c, f := mem.nodes, mem.flash;
    if all {
      ghost var before;
      ok, before := CleanAll(mem, dev, base, bw, faults);
    } else {
      assert c[0..] == c && (c != [] ==> c[0] == c[0..][0] && c[0..][1..] == c[1..]);
      ShowsStart(c, f, base, bw);
      ok := CleanUnit(mem, dev, base, bw, FaultAt(faults, 0));
      if ok && c != [] {
        FlushingNext(c, f, 0, f, mem.flash, base, bw);
      } else if !ok && old(Safe(mem.nodes, mem.flash, base, bw, faults)) {
        FlushFailed(c, f, 0, c, f, mem.flash, base, bw);
      }
    }
    if !ok {
      ghost var g := mem.flash;
      var r := dev.RestoreBlock(base, heap, restoreFault);
      if old(Safe(mem.nodes, mem.flash, base, bw, faults)) {
        RestoreAfter(c, f, |c| - |mem.nodes|, mem.nodes, g, base, bw, restoreFault);
      }
      mem.flash := dev.bytes;
    }
  }

  function Wanted(c: seq<Block>, all: bool): nat {
    if all then |c| else if c == [] then 0 else 1
  }

  lemma RestoreAfter(c: seq<Block>, f: seq<byte>, n: nat, d: seq<Block>, g: seq<byte>, base: nat, bw: nat, fault: Fault)
    requires Flushing(c, f, n, d, g, base, bw) && Ready(d, g, base, bw)
    ensures BackupArea(g, base).Entry? && BackupArea(g, base).addr == bw && bw + 16 <= |g|
    ensures var h := Restore(g, base, fault);
            Flushing(c, f, n, d, h, base, bw) && Ready(d, h, base, bw) && (fault.step >= 4 ==> !InfoOk(HeaderOf(h, bw)))
  {
    hide InBackup, DueIsCached, OkNode, Shows, Hidden, BackupArea, InfoOk, HeaderOf, Restore;
    AnyRestore(d, g, base, bw, fault);
    FlushFailed(c, f, n, d, g, Restore(g, base, fault), base, bw);
  }
}

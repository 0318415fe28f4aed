/** Exactly when a flush goes unnoticed by readers. */
module FlushLaws {
  import opened Bytes
  import opened CacheMem
  import opened CacheLaws
  import opened BackupWrite
  import opened BackupLaws
  import opened BackupExact
  import opened Flush

  // ----- copies of a block

  /** The copy of a block that shows after `n` write backs has the data of the first one. */
  predicate SameCopy(c: seq<Block>, n: nat, base: nat)
    requires n <= |c|
  {
    var j, p := Copy(c, n, base), Find(c, 0, base);
    0 <= j && p < |c| && c[j].data == c[p].data
  }

  predicate CopiesAgree(c: seq<Block>, n: nat)
    requires n <= |c|
  {
    forall i | 0 <= i < |c| :: SameCopy(c, n, c[i].addr)
  }

  /** Readers see the same bytes after `n` write backs. */
  ghost predicate Unnoticed(c: seq<Block>, f: seq<byte>, n: nat, bw: nat)
    requires Valid(c, f) && n <= |c|
  {
    forall a: nat | a < |f| && !InBackup(bw, a) :: ShownAt(c, f, n, a) == ByteAt(c, f, a)
  }

  lemma NodeIsCached(c: seq<Block>, i: nat)
    requires i < |c|
    ensures Cached(c, c[i].addr)
  {
    hide Find;
    FindSpec(c, 0, c[i].addr);
  }

  /** The write back of the first `n` blocks goes unnoticed if and only if the copies agree;
      for a complete flush these are the first and the last copy of each block. */
  lemma UnnoticedIffCopiesAgree(c: seq<Block>, f: seq<byte>, base: nat, bw: nat, n: nat)
    requires Flushable(c, f, base, bw) && n <= |c|
    ensures Unnoticed(c, f, n, bw) <==> CopiesAgree(c, n)
    ensures forall i | 0 <= i < |c| :: Copy(c, |c|, c[i].addr) == LastBefore(c, |c|, c[i].addr)
  {
    hide Find, LastBefore, InBackup, BackupArea, Copy;
    if Unnoticed(c, f, n, bw) {
      forall i | 0 <= i < |c| ensures SameCopy(c, n, c[i].addr) {
        CopyFromBytes(c, f, base, bw, n, i);
      }
    }
    if CopiesAgree(c, n) {
      forall a: nat | a < |f| && !InBackup(bw, a) ensures ShownAt(c, f, n, a) == ByteAt(c, f, a) {
        CopyNone(c, n, Base(a));
        if Cached(c, Base(a)) {
          assert SameCopy(c, n, c[Find(c, 0, Base(a))].addr);
        }
      }
    }
    forall i | 0 <= i < |c| ensures Copy(c, |c|, c[i].addr) == LastBefore(c, |c|, c[i].addr) {
      LastCopy(c, c[i].addr);
    }
  }

  lemma LastCopy(c: seq<Block>, base: nat)
    ensures Copy(c, |c|, base) == LastBefore(c, |c|, base)
  {
  }

  lemma CopyFromBytes(c: seq<Block>, f: seq<byte>, base: nat, bw: nat, n: nat, i: nat)
    requires Flushable(c, f, base, bw) && n <= |c| && i < |c| && Unnoticed(c, f, n, bw)
    ensures SameCopy(c, n, c[i].addr)
  {
    hide Find, LastBefore, InBackup, BackupArea, Copy;
    var t := c[i].addr;
    NodeIsCached(c, i);
    CopyNone(c, n, t);
    NodeLayout(c, f, base, bw, i);
    var j, p := Copy(c, n, t), Find(c, 0, t);
    ValidAt(c, f, j);
    ValidAt(c, f, p);
    forall k | 0 <= k < 4096 ensures c[j].data[k] == c[p].data[k] {
      SectorsApart(bw, t, t + k);
      InTargetBase(t, t + k);
      assert ShownAt(c, f, n, t + k) == ByteAt(c, f, t + k);
    }
  }

  /** A flush goes unnoticed wherever it stops if and only if all copies of a block agree. */
  lemma AlwaysUnnoticedIff(c: seq<Block>)
    ensures (forall n | 0 <= n <= |c| :: CopiesAgree(c, n)) <==>
            forall i, j | 0 <= i < |c| && 0 <= j < |c| && c[i].addr == c[j].addr :: c[i].data == c[j].data
  {
    hide Find, Copy;
    if forall n | 0 <= n <= |c| :: CopiesAgree(c, n) {
      forall i, j | 0 <= i < |c| && 0 <= j < |c| && c[i].addr == c[j].addr ensures c[i].data == c[j].data {
        assert CopiesAgree(c, i) && CopiesAgree(c, j);
        CopyHere(c, i);
        CopyHere(c, j);
        assert SameCopy(c, i, c[i].addr) && SameCopy(c, j, c[j].addr);
      }
    }
    if forall i, j | 0 <= i < |c| && 0 <= j < |c| && c[i].addr == c[j].addr :: c[i].data == c[j].data {
      forall n, i | 0 <= n <= |c| && 0 <= i < |c| ensures SameCopy(c, n, c[i].addr) {
        NodeIsCached(c, i);
        CopyNone(c, n, c[i].addr);
      }
    }
  }

  lemma CopyHere(c: seq<Block>, i: nat)
    requires i < |c|
    ensures Copy(c, i, c[i].addr) == i
  {
  }

  lemma DistinctAgrees(c: seq<Block>, n: nat)
    requires Distinct(c) && n <= |c|
    ensures CopiesAgree(c, n)
  {
    hide CopiesAgree;
    AlwaysUnnoticedIff(c);
  }

  /** A block cached twice with different data: the older copy shows before the flush and the
      other one after it. */
  lemma TwoCopies(t: nat, x: seq<byte>, y: seq<byte>)
    requires x != y
    ensures !CopiesAgree([Block(t, x), Block(t, y)], 2) && !CopiesAgree([Block(t, x), Block(t, y)], 1)
  {
    var c := [Block(t, x), Block(t, y)];
    assert c[0].addr == t && Find(c, 0, t) == 0;
    assert LastBefore(c, 2, t) == 1 && Find(c, 1, t) == 1;
    assert !SameCopy(c, 2, c[0].addr) && !SameCopy(c, 1, c[0].addr);
  }

  // ----- a write back that fails

  /** Whatever failure hits the write back of the first block and the restore after it,
      readers notice nothing. */
  ghost predicate FailuresUnnoticed(c: seq<Block>, f: seq<byte>, base: nat, bw: nat)
    requires Valid(c, f) && |c| > 0 && c[0].addr < TWO32
  {
    forall fault: Fault, r: Fault | fault.step < 6 ::
      SameBytesAfter(c, f, Restore(RunOps(f, BlockOps(bw, c[0].addr, c[0].data), bw, fault), base, r), bw)
  }

  ghost predicate SameBytesAfter(c: seq<Block>, f: seq<byte>, g: seq<byte>, bw: nat)
    requires Valid(c, f)
  {
    |g| == |f| && SameBytes(c, f, c, g, bw)
  }

  /** A failed write back of a block other than the index block goes unnoticed, whatever
      fails, if and only if a restore that was due before concerns a cached block. */
  lemma FailuresUnnoticedIff(c: seq<Block>, f: seq<byte>, base: nat, bw: nat)
    requires Flushable(c, f, base, bw) && |c| > 0 && c[0].addr != base && c[0].addr < TWO32 && |c[0].data| == 4096
    requires bw + 16 <= |f| && Plausible(f, bw)
    ensures FailuresUnnoticed(c, f, base, bw) <==>
            (InfoOk(HeaderOf(f, bw)) ==> exists j | 0 <= j < |c| :: Names(f, bw, c[j].addr))
  {
    hide BackupArea, InfoOk, InBackup, InfoBytes, RunOps, BlockOps, HeaderOf, Restore, OkNode, Names, SameBytesAfter;
    if InfoOk(HeaderOf(f, bw)) && !exists j | 0 <= j < |c| :: Names(f, bw, c[j].addr) {
      var u: nat :| Names(f, bw, u);
      var r := UncachedTorn(c, f, base, bw, u);
    } else {
      forall fault: Fault, r: Fault | fault.step < 6
        ensures SameBytesAfter(c, f, Restore(RunOps(f, BlockOps(bw, c[0].addr, c[0].data), bw, fault), base, r), bw)
      {
        OneFailure(c, f, base, bw, fault, r);
      }
    }
  }

  /** The write back fails at once, and the restore of a block that is not cached is cut off in
      its erase: readers see the torn block. */
  lemma UncachedTorn(c: seq<Block>, f: seq<byte>, base: nat, bw: nat, u: nat) returns (r: Fault)
    requires Flushable(c, f, base, bw) && |c| > 0 && c[0].addr < TWO32 && |c[0].data| == 4096
    requires bw + 16 <= |f| && Names(f, bw, u) && !Cached(c, u)
    ensures var g := RunOps(f, BlockOps(bw, c[0].addr, c[0].data), bw, Fault(0, f));
            !SameBytesAfter(c, f, Restore(g, base, r), bw)
  {
    hide InfoBytes, Interrupted, Apply, RunOps, BackupArea, InfoOk, InBackup, Restore, BlockOps, TornAt, Find, HeaderOf;
    NodeLayout(c, f, base, bw, 0);
    NotBegun(f, Erase(bw, 8192), bw);
    StoppedAtOnce(f, bw, c[0].addr, c[0].data, f);
    var x := Neither(f[u], 0);
    var pick := f[u := x];
    OneSectorTorn(f, u, bw, x);
    CutOffRestore(f, base, bw, u, pick);
    r := Fault(0, pick);
    SectorsApart(bw, u, u);
    InTargetBase(u, u);
    assert ByteAt(c, f, u) == f[u];
  }

  lemma OneSectorTorn(f: seq<byte>, u: nat, bw: nat, x: byte)
    requires u % 4096 == 0 && u + 4096 <= |f| && (u + 4096 <= bw || bw + 8192 <= u)
    ensures TornAt(f, Erase(u, 4096), bw, f[u := x], 0)
  {
    hide Cell;
  }

  lemma OneFailure(c: seq<Block>, f: seq<byte>, base: nat, bw: nat, fault: Fault, r: Fault)
    requires Flushable(c, f, base, bw) && |c| > 0 && c[0].addr != base && c[0].addr < TWO32 && |c[0].data| == 4096
    requires bw + 16 <= |f| && fault.step < 6
    requires InfoOk(HeaderOf(f, bw)) ==> exists j | 0 <= j < |c| :: Names(f, bw, c[j].addr)
    ensures SameBytesAfter(c, f, Restore(RunOps(f, BlockOps(bw, c[0].addr, c[0].data), bw, fault), base, r), bw)
  {
    hide BackupArea, InfoOk, InBackup, InfoBytes, RunOps, BlockOps, HeaderOf, Restore, OkNode, Valid, Hidden;
    var t := c[0].addr;
    var g := RunOps(f, BlockOps(bw, t, c[0].data), bw, fault);
    NodeLayout(c, f, base, bw, 0);
    BlockWriteInterrupted(f, base, bw, t, c[0].data, fault);
    ChangedBlockHidden(c, f, g, bw, 0);
    SameArea(f, g, base, bw, t);
    HiddenShows(c, f, g, bw);
    if InfoOk(HeaderOf(g, bw)) {
      var j: nat;
      if Pending(f, g, bw, t, c[0].data) {
        assert Names(g, bw, t);
        j := 0;
      } else {
        j :| 0 <= j < |c| && Names(f, bw, c[j].addr);
        assert Names(g, bw, c[j].addr);
      }
      CachedRestore(c, g, base, bw, j, r);
      HiddenTwice(c, f, g, Restore(g, base, r), bw);
      HiddenShows(c, f, Restore(g, base, r), bw);
    } else {
      NothingDue(g, base, bw, r);
    }
  }

  lemma NothingDue(g: seq<byte>, base: nat, bw: nat, r: Fault)
    requires BackupArea(g, base).Entry? && BackupArea(g, base).addr == bw && bw + 16 <= |g| && !InfoOk(HeaderOf(g, bw))
    ensures Restore(g, base, r) == g
  {
  }

  lemma CachedRestore(c: seq<Block>, g: seq<byte>, base: nat, bw: nat, j: nat, r: Fault)
    requires Valid(c, g) && Layout(g, base, bw, base) && j < |c| && Names(g, bw, c[j].addr)
    ensures Hidden(c, g, Restore(g, base, r), bw)
  {
    hide BackupArea, InfoOk, InBackup, InfoBytes, RunOps, HeaderOf, Restore, Valid, Hidden;
    var u, saved := c[j].addr, g[bw + 4096..bw + 8192];
    PendingSelf(g, bw, u);
    RestorePending(g, g, base, bw, u, saved, r);
    ChangedBlockHidden(c, g, Restore(g, base, r), bw, j);
  }
}

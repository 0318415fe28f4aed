/** Sessions: any sequence of cache writes and of flushes, in which every flash operation may
    fail, every restore may fail and every allocation may fail.  To its readers the store is a
    plain memory that only the writes change. */
module Session {
  import opened Bytes
  import opened CacheMem
  import opened CacheLaws
  import opened BackupWrite
  import opened BackupLaws
  import opened BackupExact
  import opened Flush
  import opened FlushLaws

  datatype Event =
    | Put(off: nat, data: seq<byte>, budget: nat)
    | FlushNow(all: bool, faults: seq<Fault>, heap: bool, restoreFault: Fault)

  predicate InRange(e: Event, size: nat) {
    e.Put? ==> e.off < size && e.off + |e.data| <= size
  }

  predicate AllInRange(es: seq<Event>, size: nat) {
    forall i | 0 <= i < |es| :: InRange(es[i], size)
  }

  /** Writes stay inside one block, which neither is the index block nor meets the backup area. */
  predicate EventOk(e: Event, size: nat, base: nat, bw: nat) {
    InRange(e, size) && (e.Put? ==>
      && e.off % 4096 + |e.data| <= 4096
      && Base(e.off) != base && (Base(e.off) + 4096 <= bw || bw + 8192 <= Base(e.off)))
  }

  /** The plain memory: `done[i]` says whether write number `i` found room. */
  function Flat(m: seq<byte>, es: seq<Event>, done: seq<bool>): (r: seq<byte>)
    requires |done| == |es| && AllInRange(es, |m|)
    ensures |r| == |m|
  {
    if es == [] then m
    else
      var n := |es| - 1;
      var before := Flat(m, es[..n], done[..n]);
      if es[n].Put? && done[n] then Overlay(before, es[n].off, es[n].data) else before
  }

  /** Between events: every block is cached once and none is the index block. */
  ghost predicate Steady(c: seq<Block>, f: seq<byte>, base: nat, bw: nat) {
    Ready(c, f, base, bw) && Distinct(c) && forall i | 0 <= i < |c| :: c[i].addr != base
  }

  /** Readers see the memory `m`. */
  ghost predicate Sees(c: seq<Block>, f: seq<byte>, m: seq<byte>, bw: nat) {
    Valid(c, f) && |m| == |f| && forall a: nat | a < |f| && !InBackup(bw, a) :: ByteAt(c, f, a) == m[a]
  }

  // ----- a write

  /** A write inside one block is taken whole, or not at all when no node can be had. */
  lemma AllOrNothing(c: seq<Block>, f: seq<byte>, off: nat, data: seq<byte>, budget: nat)
    requires Valid(c, f) && off + |data| <= |f| && off % 4096 + |data| <= 4096 && off < |f|
    ensures var r := Write(c, f, off, data, budget);
            && (r.1 == |data| || (r.1 == 0 && budget == 0))
            && |c| <= |r.0| <= |c| + 1 && (|r.0| == |c| + 1 ==> r.0[|c|].addr == Base(off))
            && forall i | 0 <= i < |c| :: r.0[i].addr == c[i].addr
  {
    hide Find, WriteFrom, Overlay, Valid;
    WriteKeepsNodes(c, f, 0, off, data, budget);
    if |data| == 0 {
      WriteDone(c, f, 0, off, data, budget);
    } else {
      assert Piece(off, |data|) == |data|;
      WriteUnfold(c, f, 0, off, data, budget);
      var p := Find(c, 0, Base(off));
      if p < |c| {
        WriteDone(Hit(c, p, off, data[..|data|]), f, p + 1, off + |data|, data[|data|..], budget);
      } else if budget > 0 {
        WriteDone(c + [Fetched(f, off, data[..|data|])], f, 0, off + |data|, data[|data|..], budget - 1);
      }
    }
  }

  lemma PutKeepsSteady(c: seq<Block>, f: seq<byte>, base: nat, bw: nat, off: nat, data: seq<byte>, budget: nat)
    requires Steady(c, f, base, bw) && EventOk(Put(off, data, budget), |f|, base, bw)
    ensures Steady(Write(c, f, off, data, budget).0, f, base, bw)
  {
    hide Find, WriteFrom, BackupArea, InfoOk, HeaderOf, Names;
    var d := Write(c, f, off, data, budget).0;
    AllOrNothing(c, f, off, data, budget);
    OneBlockOrdered(c, off, |data|);
    WriteExact(c, f, off, data, budget);
    forall i | 0 <= i < |d| ensures d[i].addr != base && OkNode(d[i], f, base, bw) {
      if i < |c| {
        assert OkNode(c[i], f, base, bw) && d[i].addr == c[i].addr;
      }
    }
    if InfoOk(HeaderOf(f, bw)) {
      var j :| 0 <= j < |c| && c[j].addr != base && Names(f, bw, c[j].addr);
      assert d[j].addr == c[j].addr;
    }
  }

  lemma PutSeen(c: seq<Block>, f: seq<byte>, m: seq<byte>, bw: nat, off: nat, data: seq<byte>, budget: nat)
    requires Sees(c, f, m, bw) && off + |data| <= |f| && off % 4096 + |data| <= 4096 && off < |f|
    ensures var r := Write(c, f, off, data, budget);
            Sees(r.0, f, if r.1 == |data| then Overlay(m, off, data) else m, bw)
  {
    hide Find, WriteFrom, ByteAt, Valid, InBackup, Overlay;
    var r := Write(c, f, off, data, budget);
    AllOrNothing(c, f, off, data, budget);
    OneBlockOrdered(c, off, |data|);
    WriteExact(c, f, off, data, budget);
    forall a: nat | a < |f| && !InBackup(bw, a)
      ensures ByteAt(r.0, f, a) == (if r.1 == |data| then Overlay(m, off, data) else m)[a]
    {
      OverlayAt(m, off, data, a);
    }
  }

  // ----- a flush

  lemma FlushSeen(c: seq<Block>, f: seq<byte>, m: seq<byte>, n: nat, d: seq<Block>, g: seq<byte>, base: nat, bw: nat)
    requires Sees(c, f, m, bw) && Steady(c, f, base, bw) && Flushing(c, f, n, d, g, base, bw)
    ensures Sees(d, g, m, bw)
  {
    hide Find, ByteAt, InBackup, ShownAt, CopiesAgree, BackupArea, DueIsCached, OkNode, Layout;
    DistinctAgrees(c, n);
    UnnoticedIffCopiesAgree(c, f, base, bw, n);
  }

  lemma FlushKeepsSteady(c: seq<Block>, f: seq<byte>, n: nat, g: seq<byte>, base: nat, bw: nat)
    requires Steady(c, f, base, bw) && n <= |c| && Ready(c[n..], g, base, bw)
    ensures Steady(c[n..], g, base, bw)
  {
    hide Ready;
    assert forall i | 0 <= i < |c| - n :: c[n..][i] == c[n + i];
  }

  lemma SteadySafe(c: seq<Block>, f: seq<byte>, base: nat, bw: nat, faults: seq<Fault>)
    requires Steady(c, f, base, bw)
    ensures Flushable(c, f, base, bw) && Safe(c, f, base, bw, faults)
  {
  }

  lemma FlatNext(m: seq<byte>, es: seq<Event>, done: seq<bool>, k: nat)
    requires k < |es| && |done| == k + 1 && AllInRange(es, |m|)
    ensures var before := Flat(m, es[..k], done[..k]);
            Flat(m, es[..k + 1], done) ==
            if es[k].Put? && done[k] then Overlay(before, es[k].off, es[k].data) else before
  {
    assert es[..k + 1][..k] == es[..k];
  }

  /** Any session: whatever fails, readers see the plain memory that the writes produce; a
      write is refused only when no node could be allocated; and every flush finds what it
      needs. */
  method Run(mem: Cache, dev: Device, base: nat, ghost bw: nat, es: seq<Event>, ghost m: seq<byte>)
    returns (done: seq<bool>)
    requires Steady(mem.nodes, mem.flash, base, bw) && dev.bytes == mem.flash && Sees(mem.nodes, mem.flash, m, bw)
    requires |m| == |mem.flash| && AllInRange(es, |m|) && forall i | 0 <= i < |es| :: EventOk(es[i], |m|, base, bw)
    modifies mem, dev
    ensures |done| == |es| && forall i | 0 <= i < |es| && es[i].Put? && es[i].budget > 0 :: done[i]
    ensures dev.bytes == mem.flash && Steady(mem.nodes, mem.flash, base, bw)
    ensures Sees(mem.nodes, mem.flash, Flat(m, es, done), bw)
  {
    hide Steady, Sees, Flat, Ready, Flushing, Flushable, Safe, InBackup, WriteFrom, InfoOk;
    done := [];
    assert Flat(m, es[..0], []) == m by { FlatNone(m, es); }
    for k := 0 to |es|
      invariant |done| == k && |mem.flash| == |m| && dev.bytes == mem.flash
      invariant forall i | 0 <= i < k && es[i].Put? && es[i].budget > 0 :: done[i]
      invariant Steady(mem.nodes, mem.flash, base, bw) && Sees(mem.nodes, mem.flash, Flat(m, es[..k], done), bw)
    {
      ghost var c, f, was := mem.nodes, mem.flash, Flat(m, es[..k], done);
      var ok;
      SteadyValid(c, f, base, bw);
      match es[k] {
        case Put(off, data, budget) =>
          AllOrNothing(c, f, off, data, budget);
          PutKeepsSteady(c, f, base, bw, off, data, budget);
          PutSeen(c, f, was, bw, off, data, budget);
          var n := mem.WriteS(off, data, budget);
          ok := n == |data|;
        case FlushNow(all, faults, heap, restoreFault) =>
          SteadySafe(c, f, base, bw, faults);
          ok := FlushCache(mem, dev, base, bw, all, faults, heap, restoreFault);
          ghost var n := Reached(faults, 0, Wanted(c, all));
          FlushSeen(c, f, was, n, mem.nodes, mem.flash, base, bw);
          FlushKeepsSteady(c, f, n, mem.flash, base, bw);
      }
      FlatNext(m, es, done + [ok], k);
      assert (done + [ok])[..k] == done;
      done := done + [ok];
    }
    assert es[..|es|] == es;
  }

  lemma SteadyValid(c: seq<Block>, f: seq<byte>, base: nat, bw: nat)
    requires Steady(c, f, base, bw)
    ensures Valid(c, f)
  {
  }

  lemma FlatNone(m: seq<byte>, es: seq<Event>)
    requires AllInRange(es, |m|)
    ensures Flat(m, es[..0], []) == m
  {
  }
}

/** The write-back block cache in front of the serial flash
    (lib/config/base/cfg_cachemem.c).  The source keeps a linked list of 4 KB
    blocks; new blocks go to the end of the list.  A read or a write walks the
    list once per pass, serving whatever part of the range each block holds. */
module CacheMem {
  import opened Bytes

  const BLOCK: int := 4096

  datatype Block = Block(addr: nat, data: seq<byte>)

  /** The start of the block that holds address `a`. */
  function Base(a: nat): nat {
    a - a % 4096
  }

  predicate ValidBlock(b: Block, size: nat) {
    b.addr % 4096 == 0 && b.addr + BLOCK <= size && |b.data| == BLOCK
  }

  predicate Valid(c: seq<Block>, flash: seq<byte>) {
    && |flash| % 4096 == 0
    && forall i | 0 <= i < |c| :: ValidBlock(c[i], |flash|)
  }

  /** No block of flash is cached twice. */
  predicate Distinct(c: seq<Block>) {
    forall i, j | 0 <= i < j < |c| :: c[i].addr != c[j].addr
  }

  /** Position of the first node at or after `from` that caches the block at `base`. */
  function Find(c: seq<Block>, from: nat, base: nat): (p: nat)
    requires from <= |c|
    ensures from <= p <= |c|
    ensures p < |c| ==> c[p].addr == base
    decreases |c| - from
  {
    if from == |c| || c[from].addr == base then from else Find(c, from + 1, base)
  }

  lemma {:induction false} FindSpec(c: seq<Block>, from: nat, base: nat)
    requires from <= |c|
    ensures forall j | from <= j < Find(c, from, base) :: c[j].addr != base
    decreases |c| - from
  {
    if from < |c| && c[from].addr != base { FindSpec(c, from + 1, base); }
  }

  lemma ValidAt(c: seq<Block>, flash: seq<byte>, j: nat)
    requires Valid(c, flash) && j < |c|
    ensures ValidBlock(c[j], |flash|)
  {
  }

  predicate Cached(c: seq<Block>, base: nat) {
    Find(c, 0, base) < |c|
  }

  /** The byte a reader should see: the cached one if there is one, else flash. */
  function ByteAt(c: seq<Block>, flash: seq<byte>, a: nat): byte
    requires Valid(c, flash) && a < |flash|
  {
    var p := Find(c, 0, Base(a));
    if p < |c| then c[p].data[a - Base(a)] else flash[a]
  }

  /** The reference meaning of a read: the visible bytes of the range. */
  function View(c: seq<Block>, flash: seq<byte>, off: nat, len: nat): (r: seq<byte>)
    requires Valid(c, flash) && off + len <= |flash|
    ensures |r| == len
    ensures forall i | 0 <= i < len :: r[i] == ByteAt(c, flash, off + i)
    decreases len
  {
    if len == 0 then [] else [ByteAt(c, flash, off)] + View(c, flash, off + 1, len - 1)
  }

  /** How much of an access lies in its first block. */
  function Piece(off: nat, len: nat): (n: nat)
    ensures n <= len && (len > 0 ==> n > 0)
  {
    if Base(off) + BLOCK < off + len then Base(off) + BLOCK - off else len
  }

  lemma PieceFits(off: nat, len: nat)
    ensures var n := Piece(off, len);
            off % 4096 + n <= BLOCK && (n < len ==> (off + n) % 4096 == 0)
  {
  }

  lemma BlockFits(size: nat, off: nat, len: nat)
    requires size % 4096 == 0 && off < size
    ensures Base(off) % 4096 == 0 && Base(off) <= off < Base(off) + BLOCK <= size
    ensures off + Piece(off, len) <= Base(off) + BLOCK
  {
  }

  /** What the walk returns when the pass has got as far as list position `cursor`:
      a block found at or after the cursor is served from the cache and the same pass
      goes on behind it; otherwise the piece comes from flash and a new pass starts. */
  function ReadFrom(c: seq<Block>, flash: seq<byte>, cursor: nat, off: nat, len: nat): (r: seq<byte>)
    requires Valid(c, flash) && cursor <= |c| && off + len <= |flash|
    ensures |r| == len
    decreases len
  {
    if len == 0 then []
    else
      var n := Piece(off, len);
      var p := Find(c, cursor, Base(off));
      if p < |c| then
        c[p].data[off - c[p].addr..off - c[p].addr + n] + ReadFrom(c, flash, p + 1, off + n, len - n)
      else
        flash[off..off + n] + ReadFrom(c, flash, 0, off + n, len - n)
  }

  function Read(c: seq<Block>, flash: seq<byte>, off: nat, len: nat): (r: seq<byte>)
    requires Valid(c, flash) && off + len <= |flash|
    ensures |r| == len
  {
    ReadFrom(c, flash, 0, off, len)
  }

  function Overlay(s: seq<byte>, at: nat, piece: seq<byte>): (r: seq<byte>)
    requires at + |piece| <= |s|
    ensures |r| == |s|
  {
    s[..at] + piece + s[at + |piece|..]
  }

  /** The walk of a write.  `budget` is how many list nodes can still be allocated;
      the second result is how many bytes were taken. */
  function WriteFrom(c: seq<Block>, flash: seq<byte>, cursor: nat, off: nat, data: seq<byte>, budget: nat)
    : (r: (seq<Block>, nat))
    requires Valid(c, flash) && cursor <= |c| && off + |data| <= |flash|
    ensures Valid(r.0, flash) && |c| <= |r.0| && r.1 <= |data|
    decreases |data|
  {
    if |data| == 0 then (c, 0)
    else
      var n := Piece(off, |data|);
      var p := Find(c, cursor, Base(off));
      if p < |c| then
        var b := c[p].(data := Overlay(c[p].data, off - c[p].addr, data[..n]));
        var r := WriteFrom(c[p := b], flash, p + 1, off + n, data[n..], budget);
        (r.0, n + r.1)
      else if budget == 0 then (c, 0)
      else
        var r := WriteFrom(c + [Fetched(flash, off, data[..n])], flash, 0, off + n, data[n..], budget - 1);
        (r.0, n + r.1)
  }

  /** A new node: the block read from flash, with the piece already written into it. */
  function Fetched(flash: seq<byte>, off: nat, piece: seq<byte>): (b: Block)
    requires Base(off) + BLOCK <= |flash| && off + |piece| <= Base(off) + BLOCK
  {
    Block(Base(off), Overlay(flash[Base(off)..Base(off) + BLOCK], off - Base(off), piece))
  }

  function Write(c: seq<Block>, flash: seq<byte>, off: nat, data: seq<byte>, budget: nat)
    : (r: (seq<Block>, nat))
    requires Valid(c, flash) && off + |data| <= |flash|
    ensures Valid(r.0, flash) && |c| <= |r.0| && r.1 <= |data|
  {
    WriteFrom(c, flash, 0, off, data, budget)
  }

  /** At every block boundary inside the range, if the blocks on both sides are
      cached then the lower one stands earlier in the list. */
  predicate Ordered(c: seq<Block>, off: nat, len: nat) {
    forall e: nat | off < e < off + len && e % 4096 == 0 :: InOrder(c, e)
  }

  predicate InOrder(c: seq<Block>, e: nat) {
    e >= BLOCK && Cached(c, e) && Cached(c, e - BLOCK) ==> Find(c, 0, e - BLOCK) < Find(c, 0, e)
  }

  class Cache {
    var flash: seq<byte>
    var nodes: seq<Block>

    constructor (flash: seq<byte>)
      requires |flash| % 4096 == 0
      ensures this.flash == flash && nodes == []
    {
      this.flash := flash;
      nodes := [];
    }

    /** How many bytes of the access one list node serves.  The source's address test
        also admits the address just past the node; it then yields no bytes. */
    static method SearchHit(node: Block, vaddr: nat, vlen: nat) returns (hlen: nat)
      requires node.addr % 4096 == 0 && vlen > 0
      ensures hlen == if node.addr == Base(vaddr) then Piece(vaddr, vlen) else 0
      ensures hlen > 0 ==> node.addr <= vaddr && vaddr + hlen <= node.addr + BLOCK
    {
      hlen := 0;
      if node.addr <= vaddr <= node.addr + BLOCK {
        if vaddr + vlen <= node.addr + BLOCK {
          hlen := vlen;
        } else {
          hlen := node.addr + BLOCK - vaddr;
        }
      }
    }

    /** One pass over the list: serves what it can, in list order. */
    method ReadPass(off: nat, len: nat) returns (out: seq<byte>, n: nat)
      requires Valid(nodes, flash) && off + len <= |flash|
      ensures n <= len
      ensures ReadFrom(nodes, flash, 0, off, len) == out + ReadFrom(nodes, flash, |nodes|, off + n, len - n)
    {
      hide ReadFrom, Valid, Base, Piece;
      out, n := [], 0;
      var j := 0;
      while j < |nodes| && n < len
        invariant j <= |nodes| && n <= len
        invariant ReadFrom(nodes, flash, 0, off, len) == out + ReadFrom(nodes, flash, j, off + n, len - n)
      {
        ValidAt(nodes, flash, j);
        var hlen := SearchHit(nodes[j], off + n, len - n);
        if hlen == 0 {
          ReadSkip(nodes, flash, j, off + n, len - n);
        } else {
          ReadHitAfter(nodes, flash, j, off + n, len - n, out);
          var os := off + n - nodes[j].addr;
          out := out + nodes[j].data[os..os + hlen];
          n := n + hlen;
        }
        j := j + 1;
      }
    }

    /** One turn of the outer loop: a pass, and a flash read for the block it did not serve. */
    method ReadRound(off: nat, len: nat) returns (out: seq<byte>, n: nat)
      requires Valid(nodes, flash) && off + len <= |flash|
      ensures n <= len && (len > 0 ==> n > 0)
      ensures ReadFrom(nodes, flash, 0, off, len) == out + ReadFrom(nodes, flash, 0, off + n, len - n)
    {
      hide ReadFrom, Valid, Base, Piece;
      out, n := ReadPass(off, len);
      if n == len {
        ReadNothing(nodes, flash, |nodes|, off + n);
        return;
      }
      var hlen := Piece(off + n, len - n);
      ReadMiss(nodes, flash, off + n, len - n);
      ghost var rest := ReadFrom(nodes, flash, 0, off + n + hlen, len - n - hlen);
      Assoc(out, flash[off + n..off + n + hlen], rest);
      out, n := out + flash[off + n..off + n + hlen], n + hlen;
    }

    method ReadS(off: nat, len: nat) returns (out: seq<byte>)
      requires Valid(nodes, flash) && off + len <= |flash|
      ensures out == Read(nodes, flash, off, len)
    {
      hide ReadFrom, Valid, Base, Piece;
      if nodes == [] {
        EmptyRead(nodes, flash, off, len);
        return flash[off..off + len];
      }
      out := [];
      var n := 0;
      while true
        invariant n <= len
        invariant Read(nodes, flash, off, len) == out + ReadFrom(nodes, flash, 0, off + n, len - n)
        decreases len - n
      {
        var part, m := ReadRound(off + n, len - n);
        ghost var rest := ReadFrom(nodes, flash, 0, off + n + m, len - n - m);
        Assoc(out, part, rest);
        out, n := out + part, n + m;
        if n == len { return; }
      }
    }

    /** One pass of a write: overwrites the cached pieces it meets, in list order. */
    method WritePass(off: nat, data: seq<byte>, ghost budget: nat) returns (n: nat)
      requires Valid(nodes, flash) && off + |data| <= |flash|
      modifies this`nodes
      ensures n <= |data| && Valid(nodes, flash) && |nodes| == |old(nodes)|
      ensures var r := WriteFrom(nodes, flash, |nodes|, off + n, data[n..], budget);
              WriteFrom(old(nodes), flash, 0, off, data, budget) == (r.0, n + r.1)
    {
      hide WriteFrom, Valid, Overlay, Base, Piece;
      n := 0;
      var j := 0;
      assert data[0..] == data;
      while j < |nodes| && n < |data|
        invariant j <= |nodes| == |old(nodes)| && n <= |data| && Valid(nodes, flash)
        invariant var r := WriteFrom(nodes, flash, j, off + n, data[n..], budget);
                  WriteFrom(old(nodes), flash, 0, off, data, budget) == (r.0, n + r.1)
      {
        ValidAt(nodes, flash, j);
        var hlen := SearchHit(nodes[j], off + n, |data| - n);
        if hlen == 0 {
          WriteSkip(nodes, flash, j, off + n, data[n..], budget);
        } else {
          WriteHit(nodes, flash, j, off + n, data[n..], budget);
          var os := off + n - nodes[j].addr;
          assert data[n..][..hlen] == data[n..n + hlen] && data[n..][hlen..] == data[n + hlen..];
          nodes := nodes[j := nodes[j].(data := Overlay(nodes[j].data, os, data[n..n + hlen]))];
          n := n + hlen;
        }
        j := j + 1;
      }
      if n == |data| {
        WriteDone(nodes, flash, j, off + n, data[n..], budget);
        WriteDone(nodes, flash, |nodes|, off + n, data[n..], budget);
      }
    }

    method WriteS(off: nat, data: seq<byte>, budget: nat) returns (n: nat)
      requires Valid(nodes, flash) && off + |data| <= |flash|
      modifies this`nodes
      ensures (nodes, n) == Write(old(nodes), flash, off, data, budget)
    {
      hide WriteFrom, Valid, Overlay, Base, Piece;
      n := 0;
      var room := budget;
      assert data[0..] == data;
      while true
        invariant n <= |data| && Valid(nodes, flash)
        invariant var r := WriteFrom(nodes, flash, 0, off + n, data[n..], room);
                  Write(old(nodes), flash, off, data, budget) == (r.0, n + r.1)
        decreases |data| - n
      {
        var m := WritePass(off + n, data[n..], room);
        assert data[n..][m..] == data[n + m..];
        n := n + m;
        if n < |data| {
          if room == 0 {
            WriteStuck(nodes, flash, off + n, data[n..]);
            return;
          }
          var o := off + n;
          WriteMiss(nodes, flash, o, data[n..], room);
          var hlen := Piece(o, |data| - n);
          assert data[n..][..hlen] == data[n..n + hlen] && data[n..][hlen..] == data[n + hlen..];
          nodes := nodes + [Fetched(flash, o, data[n..n + hlen])];
          n, room := n + hlen, room - 1;
        }
        if n == |data| {
          WriteDone(nodes, flash, 0, off + n, data[n..], room);
          WriteDone(nodes, flash, |nodes|, off + n, data[n..], room);
          return;
        }
      }
    }
  }

  // One step of each walk, as equations.

  lemma ReadSkip(c: seq<Block>, flash: seq<byte>, j: nat, off: nat, len: nat)
    requires Valid(c, flash) && j < |c| && off + len <= |flash| && c[j].addr != Base(off)
    ensures ReadFrom(c, flash, j, off, len) == ReadFrom(c, flash, j + 1, off, len)
  {
  }

  lemma ReadHit(c: seq<Block>, flash: seq<byte>, j: nat, off: nat, len: nat)
    requires Valid(c, flash) && j < |c| && 0 < len && off + len <= |flash| && c[j].addr == Base(off)
    ensures var n := Piece(off, len); var os := off - c[j].addr;
            ReadFrom(c, flash, j, off, len) == c[j].data[os..os + n] + ReadFrom(c, flash, j + 1, off + n, len - n)
  {
  }

  /** The same behind what was already read. */
  lemma ReadHitAfter(c: seq<Block>, flash: seq<byte>, j: nat, off: nat, len: nat, out: seq<byte>)
    requires Valid(c, flash) && j < |c| && 0 < len && off + len <= |flash| && c[j].addr == Base(off)
    ensures var n := Piece(off, len); var os := off - c[j].addr;
            out + ReadFrom(c, flash, j, off, len)
            == (out + c[j].data[os..os + n]) + ReadFrom(c, flash, j + 1, off + n, len - n)
  {
    ReadHit(c, flash, j, off, len);
    hide ReadFrom;
    var n, os := Piece(off, len), off - c[j].addr;
    Assoc(out, c[j].data[os..os + n], ReadFrom(c, flash, j + 1, off + n, len - n));
  }

  lemma ReadMiss(c: seq<Block>, flash: seq<byte>, off: nat, len: nat)
    requires Valid(c, flash) && 0 < len && off + len <= |flash|
    ensures var n := Piece(off, len);
            ReadFrom(c, flash, |c|, off, len) == flash[off..off + n] + ReadFrom(c, flash, 0, off + n, len - n)
  {
  }

  lemma ReadNothing(c: seq<Block>, flash: seq<byte>, j: nat, off: nat)
    requires Valid(c, flash) && j <= |c| && off <= |flash|
    ensures ReadFrom(c, flash, j, off, 0) == [] == ReadFrom(c, flash, 0, off, 0)
  {
  }

  lemma WriteSkip(c: seq<Block>, flash: seq<byte>, j: nat, off: nat, data: seq<byte>, budget: nat)
    requires Valid(c, flash) && j < |c| && off + |data| <= |flash| && c[j].addr != Base(off)
    ensures WriteFrom(c, flash, j, off, data, budget) == WriteFrom(c, flash, j + 1, off, data, budget)
  {
  }

  lemma WriteHit(c: seq<Block>, flash: seq<byte>, j: nat, off: nat, data: seq<byte>, budget: nat)
    requires Valid(c, flash) && j < |c| && 0 < |data| && off + |data| <= |flash| && c[j].addr == Base(off)
    ensures var n := Piece(off, |data|);
            var b := c[j].(data := Overlay(c[j].data, off - c[j].addr, data[..n]));
            var r := WriteFrom(c[j := b], flash, j + 1, off + n, data[n..], budget);
            Valid(c[j := b], flash) && WriteFrom(c, flash, j, off, data, budget) == (r.0, n + r.1)
  {
    hide Overlay, Base, Piece;
    BlockFits(|flash|, off, |data|);
  }

  lemma WriteMiss(c: seq<Block>, flash: seq<byte>, off: nat, data: seq<byte>, budget: nat)
    requires Valid(c, flash) && 0 < |data| && off + |data| <= |flash| && 0 < budget
    ensures Base(off) + BLOCK <= |flash| && off + Piece(off, |data|) <= Base(off) + BLOCK
    ensures var n := Piece(off, |data|);
            var b := Fetched(flash, off, data[..n]);
            var r := WriteFrom(c + [b], flash, 0, off + n, data[n..], budget - 1);
            Valid(c + [b], flash) && WriteFrom(c, flash, |c|, off, data, budget) == (r.0, n + r.1)
  {
    hide Overlay, Base, Piece;
    BlockFits(|flash|, off, |data|);
  }

  lemma WriteDone(c: seq<Block>, flash: seq<byte>, j: nat, off: nat, data: seq<byte>, budget: nat)
    requires Valid(c, flash) && j <= |c| && off + |data| <= |flash| && |data| == 0
    ensures WriteFrom(c, flash, j, off, data, budget) == (c, 0)
  {
  }

  lemma WriteStuck(c: seq<Block>, flash: seq<byte>, off: nat, data: seq<byte>)
    requires Valid(c, flash) && off + |data| <= |flash|
    ensures WriteFrom(c, flash, |c|, off, data, 0) == (c, 0)
  {
  }

  lemma {:induction false} EmptyRead(c: seq<Block>, flash: seq<byte>, off: nat, len: nat)
    requires Valid(c, flash) && c == [] && off + len <= |flash|
    ensures Read(c, flash, off, len) == flash[off..off + len]
    decreases len
  {
    hide Base, Piece;
    if len > 0 {
      var n := Piece(off, len);
      EmptyRead(c, flash, off + n, len - n);
      assert flash[off..off + len] == flash[off..off + n] + flash[off + n..off + len];
    }
  }
}

/** When the cache of CacheMem is invisible: a read returns the visible bytes and a
    write changes exactly them, precisely when the range is `Ordered`. */
module CacheLaws {
  import opened Bytes
  import opened CacheMem

  // ----- addresses and list positions

  lemma SameBase(off: nat, i: nat)
    requires off % 4096 + i < BLOCK
    ensures Base(off + i) == Base(off) && (off + i) % 4096 == off % 4096 + i
  {
  }

  /** Beyond the first block of a range the bases are larger. */
  lemma LaterBase(off: nat, n: nat, a: nat)
    requires (off + n) % 4096 == 0 && off + n <= a && 0 < n && off % 4096 + n <= BLOCK
    ensures Base(off) + BLOCK == off + n <= Base(a) && Base(off + n) == off + n
  {
  }

  lemma FindAtCursor(c: seq<Block>, cursor: nat, base: nat)
    requires cursor <= |c|
    requires Cached(c, base) ==> cursor <= Find(c, 0, base)
    ensures Find(c, cursor, base) == Find(c, 0, base)
  {
    hide Find;
    FindSpec(c, 0, base);
    FindSpec(c, cursor, base);
  }

  lemma FindSameAddrs(c: seq<Block>, d: seq<Block>, base: nat)
    requires SameShape(c, d)
    ensures Find(c, 0, base) == Find(d, 0, base)
  {
    hide Find;
    FindSpec(c, 0, base);
    FindSpec(d, 0, base);
    var p, q := Find(c, 0, base), Find(d, 0, base);
    assert p < |c| ==> c[p].addr == d[p].addr;
    assert q < |d| ==> c[q].addr == d[q].addr;
  }

  lemma FindAppend(c: seq<Block>, b: Block, base: nat)
    ensures Find(c + [b], 0, base) ==
            if Cached(c, base) then Find(c, 0, base) else if b.addr == base then |c| else |c| + 1
  {
    hide Find;
    FindSpec(c, 0, base);
    FindSpec(c + [b], 0, base);
    var p, q := Find(c, 0, base), Find(c + [b], 0, base);
    assert p < |c| ==> (c + [b])[p] == c[p];
    assert q < |c| ==> (c + [b])[q] == c[q];
    assert (c + [b])[|c|] == b;
  }

  // ----- reads

  lemma ReadUnfold(c: seq<Block>, flash: seq<byte>, cursor: nat, off: nat, len: nat)
    requires Valid(c, flash) && cursor <= |c| && 0 < len && off + len <= |flash|
    ensures var n := Piece(off, len);
            var p := Find(c, cursor, Base(off));
            ReadFrom(c, flash, cursor, off, len) ==
            if p < |c| then
              c[p].data[off - Base(off)..off - Base(off) + n] + ReadFrom(c, flash, p + 1, off + n, len - n)
            else flash[off..off + n] + ReadFrom(c, flash, 0, off + n, len - n)
  {
  }

  /** The visible bytes of a range inside one block. */
  lemma ViewOfPiece(c: seq<Block>, flash: seq<byte>, off: nat, n: nat)
    requires Valid(c, flash) && off + n <= |flash| && off % 4096 + n <= BLOCK
    ensures var p := Find(c, 0, Base(off));
            View(c, flash, off, n) ==
            if p < |c| then c[p].data[off - Base(off)..off - Base(off) + n] else flash[off..off + n]
  {
    hide Find, View;
    var r := View(c, flash, off, n);
    forall i | 0 <= i < n
      ensures r[i] == ByteAt(c, flash, off + i) && Base(off + i) == Base(off)
    {
      SameBase(off, i);
    }
  }

  lemma ViewSplit(c: seq<Block>, flash: seq<byte>, off: nat, n: nat, len: nat)
    requires Valid(c, flash) && n <= len && off + len <= |flash|
    ensures View(c, flash, off, len) == View(c, flash, off, n) + View(c, flash, off + n, len - n)
  {
    hide View, ByteAt;
  }

  lemma {:induction false} ReadFromExact(c: seq<Block>, flash: seq<byte>, cursor: nat, off: nat, len: nat)
    requires Valid(c, flash) && cursor <= |c| && off + len <= |flash|
    requires Ordered(c, off, len)
    requires Cached(c, Base(off)) ==> cursor <= Find(c, 0, Base(off))
    ensures ReadFrom(c, flash, cursor, off, len) == View(c, flash, off, len)
    decreases len
  {
    hide Find, View, ReadFrom, Base, Piece, Valid;
    if len > 0 {
      var n := Piece(off, len);
      PieceFits(off, len);
      FindAtCursor(c, cursor, Base(off));
      ReadUnfold(c, flash, cursor, off, len);
      ViewOfPiece(c, flash, off, n);
      ViewSplit(c, flash, off, n, len);
      var p := Find(c, 0, Base(off));
      if n < len {
        LaterBase(off, n, off + n);
        assert InOrder(c, off + n);
        ReadFromExact(c, flash, if p < |c| then p + 1 else 0, off + n, len - n);
      }
    }
  }

  /** A range in order is read exactly. */
  lemma ReadExact(c: seq<Block>, flash: seq<byte>, off: nat, len: nat)
    requires Valid(c, flash) && off + len <= |flash| && Ordered(c, off, len)
    ensures Read(c, flash, off, len) == View(c, flash, off, len)
  {
    ReadFromExact(c, flash, 0, off, len);
  }

  /** A byte of flash, or of a copy of its block that stands behind the first one. */
  ghost predicate Stale(c: seq<Block>, flash: seq<byte>, e: nat, x: byte)
    requires Valid(c, flash) && e < |flash| && e % 4096 == 0
  {
    x == flash[e] || exists j | Find(c, 0, e) < j < |c| :: c[j].addr == e && c[j].data[0] == x
  }

  /** At the first boundary that is out of order the cached byte is missed: the read returns
      the flash byte or that of a later copy of the block. */
  lemma {:induction false} StaleByte(c: seq<Block>, flash: seq<byte>, cursor: nat, off: nat, len: nat, e: nat)
    requires Valid(c, flash) && cursor <= |c| && off + len <= |flash|
    requires off < e < off + len && e % 4096 == 0 && e >= BLOCK && !InOrder(c, e)
    requires forall d: nat | off < d < e && d % 4096 == 0 :: InOrder(c, d)
    requires Cached(c, Base(off)) ==> cursor <= Find(c, 0, Base(off))
    ensures Stale(c, flash, e, ReadFrom(c, flash, cursor, off, len)[e - off])
    decreases len
  {
    hide Find, ReadFrom, Base, Piece, Valid, Stale;
    var n := Piece(off, len);
    FindAtCursor(c, cursor, Base(off));
    ReadUnfold(c, flash, cursor, off, len);
    Boundary(off, len, e);
    PieceFits(off, len);
    LaterBase(off, n, off + n);
    var p := Find(c, 0, Base(off));
    if off + n < e {
      assert InOrder(c, off + n);
      StaleByte(c, flash, if p < |c| then p + 1 else 0, off + n, len - n, e);
    } else {
      MissedCopy(c, flash, p + 1, e, len - n);
      assert ReadFrom(c, flash, cursor, off, len)[e - off] == ReadFrom(c, flash, p + 1, e, len - n)[0];
    }
  }

  lemma MissedCopy(c: seq<Block>, flash: seq<byte>, cursor: nat, e: nat, len: nat)
    requires Valid(c, flash) && Find(c, 0, e) < cursor <= |c| && 0 < len && e + len <= |flash| && e % 4096 == 0
    ensures Stale(c, flash, e, ReadFrom(c, flash, cursor, e, len)[0])
  {
    hide Find, ReadFrom, Valid;
    ReadUnfold(c, flash, cursor, e, len);
    var p := Find(c, cursor, e);
    if p < |c| {
      ValidAt(c, flash, p);
      assert c[p].addr == e && ReadFrom(c, flash, cursor, e, len)[0] == c[p].data[0];
    }
  }

  /** With every block cached once, the byte comes from flash. */
  lemma StaleFlashByte(c: seq<Block>, flash: seq<byte>, e: nat, x: byte)
    requires Valid(c, flash) && Distinct(c) && e < |flash| && e % 4096 == 0 && Stale(c, flash, e, x) && Cached(c, e)
    ensures x == flash[e]
  {
    hide Find, Valid;
  }

  /** The first piece of a range ends at or before any boundary inside it. */
  lemma Boundary(off: nat, len: nat, e: nat)
    requires off < e < off + len && e % 4096 == 0
    ensures var n := Piece(off, len); n < len && off + n <= e && (off + n) % 4096 == 0
  {
  }

  lemma FirstDisorder(c: seq<Block>, off: nat, e: nat) returns (d: nat)
    requires off < e && e % 4096 == 0 && !InOrder(c, e)
    ensures off < d <= e && d % 4096 == 0 && !InOrder(c, d)
    ensures forall x: nat | off < x < d && x % 4096 == 0 :: InOrder(c, x)
    decreases e
  {
    if x: nat :| off < x < e && x % 4096 == 0 && !InOrder(c, x) {
      d := FirstDisorder(c, off, x);
    } else {
      d := e;
    }
  }

  predicate SameShape(c: seq<Block>, d: seq<Block>) {
    |c| == |d| && forall i | 0 <= i < |c| :: c[i].addr == d[i].addr
  }

  /** The same list of blocks, the first copy of each block set to ones and all others to
      zeros. */
  function Painted(c: seq<Block>, n: nat): (d: seq<Block>)
    requires n <= |c|
    ensures |d| == n
    ensures forall i | 0 <= i < n :: d[i].addr == c[i].addr && |d[i].data| == BLOCK
    ensures forall i, k | 0 <= i < n && 0 <= k < BLOCK :: d[i].data[k] == if Find(c, 0, c[i].addr) == i then 1 else 0
  {
    if n == 0 then []
    else Painted(c, n - 1) + [Block(c[n - 1].addr, Fill(BLOCK, if Find(c, 0, c[n - 1].addr) == n - 1 then 1 else 0))]
  }

  function Fill(n: nat, x: byte): (s: seq<byte>)
    ensures |s| == n && forall i | 0 <= i < n :: s[i] == x
  {
    if n == 0 then [] else [x] + Fill(n - 1, x)
  }

  lemma OrderedSameShape(c: seq<Block>, d: seq<Block>, off: nat, len: nat)
    requires SameShape(c, d) && Ordered(c, off, len)
    ensures Ordered(d, off, len)
  {
    hide Find;
    forall e: nat | off < e < off + len && e % 4096 == 0
      ensures InOrder(d, e)
    {
      assert InOrder(c, e);
      FindSameAddrs(c, d, e);
      if e >= BLOCK { FindSameAddrs(c, d, e - BLOCK); }
    }
  }

  /** Reads through this list of blocks are exact for all contents of cache and flash
      if and only if the range is in order: a caller can tell from the list alone. */
  lemma ReadExactIffOrdered(c: seq<Block>, size: nat, off: nat, len: nat)
    requires size % 4096 == 0 && off + len <= size
    requires forall i | 0 <= i < |c| :: ValidBlock(c[i], size)
    ensures Ordered(c, off, len) <==>
            forall d: seq<Block>, flash: seq<byte> | SameShape(c, d) && |flash| == size && Valid(d, flash) ::
              Read(d, flash, off, len) == View(d, flash, off, len)
  {
    hide Find, View, ReadFrom;
    if Ordered(c, off, len) {
      forall d: seq<Block>, flash: seq<byte> | SameShape(c, d) && |flash| == size && Valid(d, flash)
        ensures Read(d, flash, off, len) == View(d, flash, off, len)
      {
        OrderedSameShape(c, d, off, len);
        ReadExact(d, flash, off, len);
      }
    } else {
      var e0: nat :| off < e0 < off + len && e0 % 4096 == 0 && !InOrder(c, e0);
      var d, flash := Painted(c, |c|), Fill(size, 0);
      DisorderShows(c, d, flash, off, len, e0);
      assert SameShape(c, d) && Valid(d, flash);
    }
  }

  lemma DisorderShows(c: seq<Block>, d: seq<Block>, flash: seq<byte>, off: nat, len: nat, e0: nat)
    requires SameShape(c, d) && Valid(d, flash) && off + len <= |flash|
    requires off < e0 < off + len && e0 % 4096 == 0 && !InOrder(c, e0)
    requires forall i, k | 0 <= i < |d| && 0 <= k < BLOCK :: d[i].data[k] == if Find(c, 0, c[i].addr) == i then 1 else 0
    requires forall i | 0 <= i < |flash| :: flash[i] == 0
    ensures Read(d, flash, off, len) != View(d, flash, off, len)
  {
    hide Find, View, ReadFrom;
    FindSameAddrs(c, d, e0);
    FindSameAddrs(c, d, e0 - BLOCK);
    var e := FirstDisorder(d, off, e0);
    StaleByte(d, flash, 0, off, len, e);
    FindSameAddrs(c, d, e);
    assert View(d, flash, off, len)[e - off] == ByteAt(d, flash, off + (e - off)) == 1;
  }

  // ----- writes

  /** `d` is what `c` becomes when one piece, inside one block, is written: into the
      first node of its block if there is one, else into a new node at the end. */
  ghost predicate PieceWritten(c: seq<Block>, d: seq<Block>, flash: seq<byte>, off: nat, piece: seq<byte>)
    requires Valid(c, flash) && Valid(d, flash)
  {
    && Updated(c, d, flash, off, piece, |piece|)
    && (Distinct(c) ==> Distinct(d))
    && |c| <= |d| && SameShape(c, d[..|c|])
    && Cached(d, Base(off))
    && forall base: nat :: SameFind(c, d, base) || (base == Base(off) && !Cached(c, base))
  }

  predicate SameFind(c: seq<Block>, d: seq<Block>, base: nat) {
    Cached(c, base) == Cached(d, base) && (Cached(c, base) ==> Find(c, 0, base) == Find(d, 0, base))
  }

  /** `d` shows what a write of the first `n` bytes of `data` at `off` should leave visible. */
  ghost predicate Updated(c: seq<Block>, d: seq<Block>, flash: seq<byte>, off: nat, data: seq<byte>, n: nat)
    requires Valid(c, flash) && Valid(d, flash) && n <= |data|
  {
    forall a: nat | a < |flash| ::
      ByteAt(d, flash, a) == if off <= a < off + n then data[a - off] else ByteAt(c, flash, a)
  }

  lemma UpdatedTwice(c: seq<Block>, d: seq<Block>, r: seq<Block>, flash: seq<byte>, off: nat, data: seq<byte>,
                     n: nat, m: nat)
    requires Valid(c, flash) && Valid(d, flash) && Valid(r, flash) && n + m <= |data|
    requires Updated(c, d, flash, off, data[..n], n) && Updated(d, r, flash, off + n, data[n..], m)
    ensures Updated(c, r, flash, off, data, n + m)
  {
    hide ByteAt, Valid;
    forall a: nat | a < |flash|
      ensures ByteAt(r, flash, a) == if off <= a < off + (n + m) then data[a - off] else ByteAt(c, flash, a)
    {
      assert ByteAt(d, flash, a) == if off <= a < off + n then data[..n][a - off] else ByteAt(c, flash, a);
    }
  }

  /** The list after a piece was written into the cached block at position `p`. */
  function Hit(c: seq<Block>, p: nat, off: nat, piece: seq<byte>): (d: seq<Block>)
    requires p < |c| && c[p].addr <= off && off - c[p].addr + |piece| <= |c[p].data|
  {
    c[p := c[p].(data := Overlay(c[p].data, off - c[p].addr, piece))]
  }

  lemma WriteUnfold(c: seq<Block>, flash: seq<byte>, cursor: nat, off: nat, data: seq<byte>, budget: nat)
    requires Valid(c, flash) && cursor <= |c| && 0 < |data| && off + |data| <= |flash|
    ensures Base(off) <= off && off + Piece(off, |data|) <= Base(off) + BLOCK <= |flash|
    ensures var n := Piece(off, |data|);
            var p := Find(c, cursor, Base(off));
            var r := WriteFrom(c, flash, cursor, off, data, budget);
            if p < |c| then
              |c[p].data| == BLOCK &&
              var d := Hit(c, p, off, data[..n]);
              Valid(d, flash) &&
              var r' := WriteFrom(d, flash, p + 1, off + n, data[n..], budget);
              r == (r'.0, n + r'.1)
            else if budget == 0 then r == (c, 0)
            else
              var d := c + [Fetched(flash, off, data[..n])];
              Valid(d, flash) &&
              var r' := WriteFrom(d, flash, 0, off + n, data[n..], budget - 1);
              r == (r'.0, n + r'.1)
  {
    hide Find, Base, Piece, Overlay;
    BlockFits(|flash|, off, |data|);
  }

  lemma InPiece(off: nat, n: nat, a: nat)
    requires Base(off) <= off && off + n <= Base(off) + BLOCK
    ensures off <= a < off + n ==> Base(a) == Base(off)
    ensures 0 <= a - Base(a) < BLOCK
  {
  }

  lemma HitByte(c: seq<Block>, d: seq<Block>, flash: seq<byte>, p: nat, off: nat, piece: seq<byte>, a: nat)
    requires Valid(c, flash) && Valid(d, flash) && a < |flash|
    requires Base(off) <= off && off + |piece| <= Base(off) + BLOCK && SameShape(c, d)
    requires p < |c| && p == Find(c, 0, Base(off))
    requires forall i | 0 <= i < |c| && i != p :: d[i] == c[i]
    requires d[p].data == Overlay(c[p].data, off - Base(off), piece)
    ensures ByteAt(d, flash, a) == if off <= a < off + |piece| then piece[a - off] else ByteAt(c, flash, a)
  {
    hide Find, Base, Overlay, Valid;
    FindSameAddrs(c, d, Base(a));
    InPiece(off, |piece|, a);
    ValidAt(c, flash, p);
    if Base(a) == Base(off) {
      OverlayAt(c[p].data, off - Base(off), piece, a - Base(a));
    }
  }

  lemma OverlayAt(s: seq<byte>, at: nat, piece: seq<byte>, i: nat)
    requires at + |piece| <= |s| && i < |s|
    ensures Overlay(s, at, piece)[i] == if at <= i < at + |piece| then piece[i - at] else s[i]
  {
  }

  lemma HitWritten(c: seq<Block>, flash: seq<byte>, p: nat, off: nat, piece: seq<byte>)
    requires Valid(c, flash) && Base(off) <= off && off + |piece| <= Base(off) + BLOCK
    requires p < |c| && p == Find(c, 0, Base(off)) && |c[p].data| == BLOCK
    requires Valid(Hit(c, p, off, piece), flash)
    ensures PieceWritten(c, Hit(c, p, off, piece), flash, off, piece)
  {
    hide Find, ByteAt, Base, Valid, Overlay;
    var d := Hit(c, p, off, piece);
    assert SameShape(c, d) && SameShape(d, c);
    forall base: nat ensures SameFind(c, d, base) {
      FindSameAddrs(d, c, base);
    }
    forall a: nat | a < |flash|
      ensures ByteAt(d, flash, a) == if off <= a < off + |piece| then piece[a - off] else ByteAt(c, flash, a)
    {
      HitByte(c, d, flash, p, off, piece, a);
    }
    assert d[..|c|] == d && SameFind(c, d, Base(off));
  }

  lemma MissByte(c: seq<Block>, d: seq<Block>, flash: seq<byte>, off: nat, piece: seq<byte>, a: nat)
    requires Valid(c, flash) && Valid(d, flash) && a < |flash|
    requires Base(off) <= off && off + |piece| <= Base(off) + BLOCK <= |flash| && !Cached(c, Base(off))
    requires d == c + [Fetched(flash, off, piece)]
    ensures ByteAt(d, flash, a) == if off <= a < off + |piece| then piece[a - off] else ByteAt(c, flash, a)
  {
    hide Find, Base;
    FindAppend(c, d[|c|], Base(a));
    InPiece(off, |piece|, a);
  }

  lemma MissWritten(c: seq<Block>, flash: seq<byte>, off: nat, piece: seq<byte>)
    requires Valid(c, flash) && Base(off) <= off && off + |piece| <= Base(off) + BLOCK <= |flash|
    requires !Cached(c, Base(off))
    requires Valid(c + [Fetched(flash, off, piece)], flash)
    ensures PieceWritten(c, c + [Fetched(flash, off, piece)], flash, off, piece)
  {
    hide Find, ByteAt, Base, Valid, Overlay;
    var d := c + [Fetched(flash, off, piece)];
    forall base: nat ensures SameFind(c, d, base) || (base == Base(off) && !Cached(c, base)) {
      FindAppend(c, d[|c|], base);
    }
    FindAppend(c, d[|c|], Base(off));
    forall a: nat | a < |flash|
      ensures ByteAt(d, flash, a) == if off <= a < off + |piece| then piece[a - off] else ByteAt(c, flash, a)
    {
      MissByte(c, d, flash, off, piece, a);
    }
    assert d[..|c|] == c;
    AppendDistinct(c, d[|c|]);
  }

  lemma AppendDistinct(c: seq<Block>, b: Block)
    requires !Cached(c, b.addr)
    ensures Distinct(c) ==> Distinct(c + [b])
  {
    hide Find;
    FindSpec(c, 0, b.addr);
  }

  /** The order of the blocks beyond the piece is not disturbed. */
  lemma StillInOrder(c: seq<Block>, d: seq<Block>, flash: seq<byte>, off: nat, piece: seq<byte>, e: nat)
    requires Valid(c, flash) && Valid(d, flash) && PieceWritten(c, d, flash, off, piece)
    requires e > Base(off) + BLOCK
    ensures InOrder(c, e) == InOrder(d, e)
  {
    hide Find, ByteAt, Base, Valid;
    assert SameFind(c, d, e) && SameFind(c, d, e - BLOCK);
  }

  lemma {:induction false} WriteFromExact(c: seq<Block>, flash: seq<byte>, cursor: nat, off: nat, data: seq<byte>,
                                          budget: nat)
    requires Valid(c, flash) && cursor <= |c| && off + |data| <= |flash|
    requires Ordered(c, off, |data|)
    requires Cached(c, Base(off)) ==> cursor <= Find(c, 0, Base(off))
    ensures var r := WriteFrom(c, flash, cursor, off, data, budget);
            && (Distinct(c) ==> Distinct(r.0))
            && Updated(c, r.0, flash, off, data, r.1)
            && (r.1 < |data| ==> |r.0| == |c| + budget)
    decreases |data|
  {
    hide Find, WriteFrom, ByteAt, Base, Piece, Overlay, Valid;
    if |data| == 0 {
      WriteDone(c, flash, cursor, off, data, budget);
    } else {
      var n := Piece(off, |data|);
      FindAtCursor(c, cursor, Base(off));
      WriteUnfold(c, flash, cursor, off, data, budget);
      var p := Find(c, 0, Base(off));
      if p < |c| {
        HitWritten(c, flash, p, off, data[..n]);
        WriteTail(c, Hit(c, p, off, data[..n]), flash, p + 1, off, data, n, budget);
      } else if budget > 0 {
        MissWritten(c, flash, off, data[..n]);
        WriteTail(c, c + [Fetched(flash, off, data[..n])], flash, 0, off, data, n, budget - 1);
      }
    }
  }

  /** The rest of an exact write, after its first piece turned `c` into `d`. */
  lemma {:induction false} WriteTail(c: seq<Block>, d: seq<Block>, flash: seq<byte>, cursor: nat, off: nat,
                                     data: seq<byte>, n: nat, budget: nat)
    requires Valid(c, flash) && Valid(d, flash) && cursor <= |d| && off + |data| <= |flash|
    requires |data| > 0 && n == Piece(off, |data|) && Ordered(c, off, |data|)
    requires PieceWritten(c, d, flash, off, data[..n])
    requires cursor == if Cached(c, Base(off)) then Find(c, 0, Base(off)) + 1 else 0
    ensures var r := WriteFrom(d, flash, cursor, off + n, data[n..], budget);
            && (Distinct(c) ==> Distinct(r.0))
            && Updated(c, r.0, flash, off, data, n + r.1)
            && (n + r.1 < |data| ==> |r.0| == |d| + budget)
    decreases |data|, 0
  {
    hide Find, WriteFrom, ByteAt, Base, Piece, Valid;
    var r := WriteFrom(d, flash, cursor, off + n, data[n..], budget);
    if n == |data| {
      WriteDone(d, flash, cursor, off + n, data[n..], budget);
    } else {
      PieceFits(off, |data|);
      LaterBase(off, n, off + n);
      assert InOrder(c, off + n) && SameFind(c, d, off + n);
      forall e: nat | off + n < e < off + |data| && e % 4096 == 0
        ensures InOrder(d, e)
      {
        assert InOrder(c, e);
        StillInOrder(c, d, flash, off, data[..n], e);
      }
      WriteFromExact(d, flash, cursor, off + n, data[n..], budget);
    }
    UpdatedTwice(c, d, r.0, flash, off, data, n, r.1);
  }

  /** A write over a range in order changes exactly the visible bytes it reports as
      written, keeps every block cached once, and stops short only when the heap does. */
  lemma WriteExact(c: seq<Block>, flash: seq<byte>, off: nat, data: seq<byte>, budget: nat)
    requires Valid(c, flash) && off + |data| <= |flash| && Ordered(c, off, |data|)
    ensures var r := Write(c, flash, off, data, budget);
            && (Distinct(c) ==> Distinct(r.0))
            && Updated(c, r.0, flash, off, data, r.1)
            && (r.1 < |data| ==> |r.0| == |c| + budget)
  {
    hide Find, WriteFrom, ByteAt;
    WriteFromExact(c, flash, 0, off, data, budget);
  }

  // ----- what a write out of order does

  /** A write never moves a node, and never touches a node below its range. */
  lemma {:induction false} WriteKeepsNodes(c: seq<Block>, flash: seq<byte>, cursor: nat, off: nat, data: seq<byte>,
                                           budget: nat)
    requires Valid(c, flash) && cursor <= |c| && off + |data| <= |flash|
    ensures var r := WriteFrom(c, flash, cursor, off, data, budget);
            forall i | 0 <= i < |c| ::
              r.0[i].addr == c[i].addr && (|data| == 0 || c[i].addr < Base(off) ==> r.0[i] == c[i])
    decreases |data|
  {
    hide Find, WriteFrom, Base, Piece, Overlay, Valid;
    if |data| == 0 {
      WriteDone(c, flash, cursor, off, data, budget);
    } else {
      var n := Piece(off, |data|);
      WriteUnfold(c, flash, cursor, off, data, budget);
      var p := Find(c, cursor, Base(off));
      if n < |data| {
        PieceFits(off, |data|);
        LaterBase(off, n, off + n);
      }
      if p < |c| {
        WriteKeepsNodes(Hit(c, p, off, data[..n]), flash, p + 1, off + n, data[n..], budget);
      } else if budget > 0 {
        WriteKeepsNodes(c + [Fetched(flash, off, data[..n])], flash, 0, off + n, data[n..], budget - 1);
      }
    }
  }

  /** Writing past a boundary out of order: the block is cached twice, and the byte a
      reader sees there is still the old one. */
  ghost predicate Lost(c: seq<Block>, r: seq<Block>, flash: seq<byte>, e: nat)
    requires Valid(c, flash) && Valid(r, flash) && e < |flash|
  {
    !Distinct(r) && ByteAt(r, flash, e) == ByteAt(c, flash, e)
  }

  lemma {:induction false} LostByte(c: seq<Block>, flash: seq<byte>, cursor: nat, off: nat, data: seq<byte>,
                                    budget: nat, e: nat)
    requires Valid(c, flash) && cursor <= |c| && off + |data| <= |flash|
    requires off < e && e % 4096 == 0 && !InOrder(c, e)
    requires forall x: nat | off < x < e && x % 4096 == 0 :: InOrder(c, x)
    requires Cached(c, Base(off)) ==> cursor <= Find(c, 0, Base(off))
    requires e < off + WriteFrom(c, flash, cursor, off, data, budget).1
    ensures Lost(c, WriteFrom(c, flash, cursor, off, data, budget).0, flash, e)
    decreases |data|
  {
    hide Find, WriteFrom, ByteAt, Base, Piece, Overlay, Valid;
    var n := Piece(off, |data|);
    FindAtCursor(c, cursor, Base(off));
    if |data| == 0 { WriteDone(c, flash, cursor, off, data, budget); }
    WriteUnfold(c, flash, cursor, off, data, budget);
    Boundary(off, |data|, e);
    var p := Find(c, 0, Base(off));
    if p < |c| {
      HitWritten(c, flash, p, off, data[..n]);
      LostTail(c, Hit(c, p, off, data[..n]), flash, p + 1, off, data, n, budget, e);
    } else if budget > 0 {
      MissWritten(c, flash, off, data[..n]);
      LostTail(c, c + [Fetched(flash, off, data[..n])], flash, 0, off, data, n, budget - 1, e);
    }
  }

  lemma {:induction false} LostTail(c: seq<Block>, d: seq<Block>, flash: seq<byte>, cursor: nat, off: nat,
                                    data: seq<byte>, n: nat, budget: nat, e: nat)
    requires Valid(c, flash) && Valid(d, flash) && cursor <= |d| && off + |data| <= |flash|
    requires off < e && e % 4096 == 0 && !InOrder(c, e)
    requires forall x: nat | off < x < e && x % 4096 == 0 :: InOrder(c, x)
    requires |data| > 0 && n == Piece(off, |data|) && off + n <= e && (off + n) % 4096 == 0
    requires PieceWritten(c, d, flash, off, data[..n])
    requires cursor == if Cached(c, Base(off)) then Find(c, 0, Base(off)) + 1 else 0
    requires e < off + n + WriteFrom(d, flash, cursor, off + n, data[n..], budget).1
    ensures Lost(c, WriteFrom(d, flash, cursor, off + n, data[n..], budget).0, flash, e)
    decreases |data|, 0
  {
    hide Find, WriteFrom, ByteAt, Base, Piece, Valid;
    PieceFits(off, |data|);
    LaterBase(off, n, off + n);
    assert SameFind(c, d, off + n);
    if off + n < e {
      assert InOrder(c, off + n);
      forall x: nat | off + n < x <= e && x % 4096 == 0 ensures InOrder(c, x) == InOrder(d, x) {
        StillInOrder(c, d, flash, off, data[..n], x);
      }
      LostByte(d, flash, cursor, off + n, data[n..], budget, e);
    } else {
      assert SameFind(c, d, e - BLOCK);
      DuplicateAt(d, flash, cursor, data[n..], budget, e);
    }
  }

  lemma DuplicateAt(d: seq<Block>, flash: seq<byte>, cursor: nat, data: seq<byte>, budget: nat, e: nat)
    requires Valid(d, flash) && cursor <= |d| && e + |data| <= |flash| && e % 4096 == 0
    requires Find(d, 0, e) < cursor
    requires 0 < WriteFrom(d, flash, cursor, e, data, budget).1
    ensures Lost(d, WriteFrom(d, flash, cursor, e, data, budget).0, flash, e)
  {
    hide Find, WriteFrom, Piece, Overlay, Valid, ByteAt;
    if |data| == 0 { WriteDone(d, flash, cursor, e, data, budget); }
    var n := Piece(e, |data|);
    WriteUnfold(d, flash, cursor, e, data, budget);
    var q, p := Find(d, 0, e), Find(d, cursor, e);
    var r := WriteFrom(d, flash, cursor, e, data, budget).0;
    if n < |data| {
      PieceFits(e, |data|);
      LaterBase(e, n, e + n);
    }
    if p < |d| {
      WriteKeepsNodes(Hit(d, p, e, data[..n]), flash, p + 1, e + n, data[n..], budget);
      assert r[q] == d[q] && r[p].addr == e;
    } else {
      WriteKeepsNodes(d + [Fetched(flash, e, data[..n])], flash, 0, e + n, data[n..], budget - 1);
      assert r[q] == d[q] && r[|d|].addr == e;
    }
    FirstCopyShows(d, r, flash, q, e);
  }

  /** A reader sees the first copy of a block, whatever stands behind it. */
  lemma FirstCopyShows(d: seq<Block>, r: seq<Block>, flash: seq<byte>, q: nat, e: nat)
    requires Valid(d, flash) && Valid(r, flash) && e < |flash| && e % 4096 == 0
    requires q == Find(d, 0, e) < |d| <= |r| && r[q] == d[q] && forall i | 0 <= i < |d| :: r[i].addr == d[i].addr
    ensures ByteAt(r, flash, e) == ByteAt(d, flash, e)
  {
    hide Find;
    FindSpec(d, 0, e);
    FindSpec(r, 0, e);
  }

  /** A complete write leaves every block cached once if and only if each was cached once before
      and its range was in order. */
  lemma WriteDistinctIffOrdered(c: seq<Block>, flash: seq<byte>, off: nat, data: seq<byte>, budget: nat)
    requires Valid(c, flash) && off + |data| <= |flash|
    requires Write(c, flash, off, data, budget).1 == |data|
    ensures Distinct(Write(c, flash, off, data, budget).0) <==> Distinct(c) && Ordered(c, off, |data|)
  {
    hide Find, WriteFrom, ByteAt;
    if !Distinct(c) {
      WriteKeepsNodes(c, flash, 0, off, data, budget);
    } else if Ordered(c, off, |data|) {
      WriteExact(c, flash, off, data, budget);
    } else {
      var e0: nat :| off < e0 < off + |data| && e0 % 4096 == 0 && !InOrder(c, e0);
      var e := FirstDisorder(c, off, e0);
      LostByte(c, flash, 0, off, data, budget, e);
    }
  }

  /** A complete write that changes the byte at every block boundary of its range shows as
      written if and only if the range was in order. */
  lemma WriteShowsIffOrdered(c: seq<Block>, flash: seq<byte>, off: nat, data: seq<byte>, budget: nat)
    requires Valid(c, flash) && off + |data| <= |flash|
    requires Write(c, flash, off, data, budget).1 == |data|
    requires forall e: nat | off < e < off + |data| && e % 4096 == 0 :: data[e - off] != ByteAt(c, flash, e)
    ensures Updated(c, Write(c, flash, off, data, budget).0, flash, off, data, |data|) <==> Ordered(c, off, |data|)
  {
    hide Find, WriteFrom, ByteAt;
    if Ordered(c, off, |data|) {
      WriteExact(c, flash, off, data, budget);
    } else {
      var e0: nat :| off < e0 < off + |data| && e0 % 4096 == 0 && !InOrder(c, e0);
      var e := FirstDisorder(c, off, e0);
      LostByte(c, flash, 0, off, data, budget, e);
    }
  }

  /** A range inside one block is always in order. */
  lemma OneBlockOrdered(c: seq<Block>, off: nat, len: nat)
    requires off % 4096 + len <= BLOCK
    ensures Ordered(c, off, len)
  {
  }
}

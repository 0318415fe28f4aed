/** Memory streams (lib/shell/memstreams.c): a buffer with a write end and a read offset. */
module MemStream {
  import opened Bytes

  const MSG_OK: int := 0
  const MSG_RESET: int := -2

  function Min(a: nat, b: nat): nat {
    if a < b then a else b
  }

  /** The bytes that fit: what a stream of `size` bytes holding `old` has after `more`. */
  function Clip(had: seq<byte>, more: seq<byte>, size: nat): (r: seq<byte>)
    requires |had| <= size
    ensures |r| == Min(|had| + |more|, size)
    ensures had <= r
  {
    had + more[..Min(|more|, size - |had|)]
  }

  lemma ClipMore(had: seq<byte>, a: seq<byte>, b: seq<byte>, size: nat)
    requires |had| <= size
    ensures Clip(Clip(had, a, size), b, size) == Clip(had, a + b, size)
  {
  }

  lemma ClipNone(had: seq<byte>, size: nat)
    requires |had| <= size
    ensures Clip(had, [], size) == had
  {
  }

  class MemoryStream {
    const buffer: array<byte>
    const size: nat
    var eos: nat
    var offset: nat

    /** msObjectInit; `eos` is 0 for a RAM stream, `size` for a ROM one. */
    constructor (buffer: array<byte>, size: nat, eos: nat)
      requires eos <= size <= buffer.Length
      ensures this.buffer == buffer && this.size == size && this.eos == eos && offset == 0 && Valid()
    {
      this.buffer := buffer;
      this.size := size;
      this.eos := eos;
      offset := 0;
    }

    predicate Valid()
      reads this
    {
      offset <= eos <= size <= buffer.Length
    }

    function Contents(): (s: seq<byte>)
      reads this, buffer
      requires Valid()
      ensures |s| == eos
    {
      buffer[..eos]
    }

    method Writes(bp: seq<byte>) returns (n: nat)
      requires Valid()
      modifies this`eos, buffer
      ensures Valid() && n == Min(|bp|, size - old(eos)) && eos == old(eos) + n
      ensures Contents() == Clip(old(Contents()), bp, size)
      ensures buffer[eos..] == old(buffer[..])[eos..]
    {
      n := |bp|;
      if size - eos < n { n := size - eos; }
      ghost var all := buffer[..];
      for i := 0 to n
        modifies buffer
        invariant buffer[..eos + i] == all[..eos] + bp[..i]
        invariant buffer[eos + i..] == all[eos + i..]
      {
        buffer[eos + i] := bp[i];
        assert buffer[..eos + i + 1] == buffer[..eos + i] + [bp[i]];
        assert buffer[eos + i..][1..] == buffer[eos + i + 1..];
      }
      eos := eos + n;
    }

    method Reads(want: nat) returns (bp: seq<byte>)
      requires Valid()
      modifies this`offset
      ensures Valid() && |bp| == Min(want, eos - old(offset)) && offset == old(offset) + |bp|
      ensures bp == Contents()[old(offset)..offset]
    {
      var n := want;
      if eos - offset < n { n := eos - offset; }
      bp := buffer[offset..offset + n];
      offset := offset + n;
    }

    method Put(b: byte) returns (r: int)
      requires Valid()
      modifies this`eos, buffer
      ensures Valid() && r == (if old(eos) < size then MSG_OK else MSG_RESET)
      ensures Contents() == Clip(old(Contents()), [b], size)
      ensures buffer[eos..] == old(buffer[..])[eos..]
    {
      if size - eos <= 0 {
        return MSG_RESET;
      }
      buffer[eos] := b;
      eos := eos + 1;
      assert buffer[..eos] == old(buffer[..eos]) + [b];
      return MSG_OK;
    }

    method Get() returns (r: int)
      requires Valid()
      modifies this`offset
      ensures Valid()
      ensures if old(offset) < eos then r == Contents()[old(offset)] && offset == old(offset) + 1
              else r == MSG_RESET && offset == old(offset)
    {
      if eos - offset <= 0 {
        return MSG_RESET;
      }
      r := buffer[offset];
      offset := offset + 1;
    }
  }

  // ----- every sequence of operations

  datatype Op = OpWrites(bp: seq<byte>) | OpPut(b: byte) | OpReads(n: nat) | OpGet

  /** The stream and what went in and came out so far. */
  datatype Trace = Trace(size: nat, contents: seq<byte>, offset: nat, accepted: seq<byte>, returned: seq<byte>)

  predicate TraceOk(t: Trace) {
    t.offset <= |t.contents| <= t.size
  }

  function Step(t: Trace, op: Op): (r: Trace)
    requires TraceOk(t)
    ensures TraceOk(r)
  {
    match op
    case OpWrites(bp) => Accept(t, bp)
    case OpPut(b) => Accept(t, [b])
    case OpReads(n) => Return(t, n)
    case OpGet => Return(t, 1)
  }

  function Accept(t: Trace, bp: seq<byte>): (r: Trace)
    requires TraceOk(t)
    ensures TraceOk(r)
  {
    var c := Clip(t.contents, bp, t.size);
    t.(contents := c, accepted := t.accepted + c[|t.contents|..])
  }

  function Return(t: Trace, n: nat): (r: Trace)
    requires TraceOk(t)
    ensures TraceOk(r)
  {
    var k := Min(n, |t.contents| - t.offset);
    t.(offset := t.offset + k, returned := t.returned + t.contents[t.offset..t.offset + k])
  }

  function Run(t: Trace, ops: seq<Op>): (r: Trace)
    requires TraceOk(t)
    ensures TraceOk(r)
    decreases |ops|
  {
    if ops == [] then t else Run(Step(t, ops[0]), ops[1..])
  }

  function Empty(size: nat): (t: Trace)
    ensures TraceOk(t)
  {
    Trace(size, [], 0, [], [])
  }

  /** Contents are what was accepted, and what was returned is its beginning. */
  predicate Fifo(t: Trace)
    requires TraceOk(t)
  {
    t.contents == t.accepted && t.returned == t.accepted[..t.offset]
  }

  lemma {:induction false} RunKeepsFifo(t: Trace, ops: seq<Op>)
    requires TraceOk(t) && Fifo(t)
    ensures Fifo(Run(t, ops)) && Run(t, ops).size == t.size
    decreases |ops|
  {
    hide Clip;
    if ops != [] {
      StepKeepsFifo(t, ops[0]);
      RunKeepsFifo(Step(t, ops[0]), ops[1..]);
    }
  }

  lemma StepKeepsFifo(t: Trace, op: Op)
    requires TraceOk(t) && Fifo(t)
    ensures Fifo(Step(t, op)) && Step(t, op).size == t.size
  {
    if op.OpWrites? || op.OpPut? {
      var bp := if op.OpWrites? then op.bp else [op.b];
      var c := Clip(t.contents, bp, t.size);
      assert c == t.contents + c[|t.contents|..];
    } else {
      var k := Min(if op.OpReads? then op.n else 1, |t.contents| - t.offset);
      assert t.contents[..t.offset] + t.contents[t.offset..t.offset + k] == t.contents[..t.offset + k];
    }
  }

  /** All the bytes that were to be written. */
  function Given(ops: seq<Op>): seq<byte> {
    if ops == [] then []
    else (match ops[0] case OpWrites(bp) => bp case OpPut(b) => [b] case _ => []) + Given(ops[1..])
  }

  lemma {:induction false} RunClips(t: Trace, ops: seq<Op>)
    requires TraceOk(t)
    ensures Run(t, ops).size == t.size && Run(t, ops).contents == Clip(t.contents, Given(ops), t.size)
    decreases |ops|
  {
    hide Clip;
    if ops == [] {
      ClipNone(t.contents, t.size);
    } else {
      var bp := match ops[0] case OpWrites(bp) => bp case OpPut(b) => [b] case _ => [];
      ClipNone(t.contents, t.size);
      RunClips(Step(t, ops[0]), ops[1..]);
      ClipMore(t.contents, bp, Given(ops[1..]), t.size);
    }
  }

  /** Over every interleaving of writes, puts, reads and gets on an empty stream: the offsets
      stay in order, the bytes accepted are the first of the bytes given, as many as fit, and
      the bytes returned are the first of the bytes accepted. */
  lemma EveryRunIsFifo(size: nat, ops: seq<Op>)
    ensures var t := Run(Empty(size), ops);
            && t.offset <= |t.contents| <= size && t.returned <= t.accepted && |t.returned| == t.offset
            && t.accepted <= Given(ops) && |t.accepted| == if |Given(ops)| < size then |Given(ops)| else size
  {
    RunKeepsFifo(Empty(size), ops);
    RunClips(Empty(size), ops);
  }

  /** The stream object follows the trace: any sequence of calls on a fresh stream. */
  method Replay(size: nat, ops: seq<Op>) returns (accepted: seq<byte>, returned: seq<byte>)
    ensures accepted == Run(Empty(size), ops).accepted && returned == Run(Empty(size), ops).returned
  {
    hide Clip;
    var buffer := new byte[size];
    var ms := new MemoryStream(buffer, size, 0);
    accepted, returned := [], [];
    ghost var t := Empty(size);
    var i := 0;
    assert ops[0..] == ops;
    while i < |ops|
      invariant i <= |ops| && ms.Valid() && fresh(ms) && ms.buffer == buffer && fresh(buffer) && ms.size == size
      invariant TraceOk(t) && Fifo(t) && t == Trace(size, ms.Contents(), ms.offset, accepted, returned)
      invariant Run(t, ops[i..]) == Run(Empty(size), ops)
    {
      assert ops[i..][0] == ops[i] && ops[i..][1..] == ops[i + 1..];
      StepKeepsFifo(t, ops[i]);
      t := Step(t, ops[i]);
      var before := ms.eos;
      match ops[i] {
        case OpWrites(bp) =>
          var n := ms.Writes(bp);
          accepted := accepted + buffer[before..ms.eos];
        case OpPut(b) =>
          var r := ms.Put(b);
          accepted := accepted + buffer[before..ms.eos];
        case OpReads(n) =>
          var bp := ms.Reads(n);
          returned := returned + bp;
        case OpGet =>
          var r := ms.Get();
          if r != MSG_RESET { returned := returned + [r]; }
      }
      i := i + 1;
    }
  }
}

/** The setters of CfgInterleave on the block cache itself: every step that a setter takes on
    cache and flash is a step on the visible memory, if no record crosses a block boundary. */
module CfgCacheRuns {
  import opened Bytes
  import opened CacheMem
  import opened CacheLaws
  import opened CfgMain
  import opened CfgLaws
  import I = CfgInterleave

  datatype State = State(nodes: seq<Block>, flash: seq<byte>, lock: int, threads: seq<I.Thread>)

  /** How a step turns out: can the checksum buffer and that many list nodes be allocated? */
  datatype Luck = Luck(heap: bool, budget: nat)

  function Visible(s: State): (m: seq<byte>)
    requires Valid(s.nodes, s.flash)
    ensures |m| == |s.flash|
  {
    View(s.nodes, s.flash, 0, |s.flash|)
  }

  function Abs(s: State, log: seq<I.Event>): I.State
    requires Valid(s.nodes, s.flash)
  {
    I.State(Visible(s), s.lock, s.threads, log)
  }

  ghost predicate AllCompact(recs: I.Records) {
    forall a | a in recs :: Compact(a, recs[a])
  }

  function SetPc(s: State, i: nat, pc: I.Pc): State
    requires i < |s.threads|
  {
    s.(threads := s.threads[i := s.threads[i].(pc := pc)])
  }

  predicate StepSafe(s: State, i: nat)
    requires i < |s.threads|
  {
    var t: I.Thread := s.threads[i];
    var job, pc := t.job, t.pc;
    && Valid(s.nodes, s.flash) && job.addr + 8 <= |s.flash|
    && match pc
       case Locked(len) => job.addr + 8 + job.offset + |job.data| <= |s.flash|
       case Summing(len, at, sum) => at <= len && job.addr + 8 + len <= |s.flash| && sum < TWO32 && len < TWO32
       case _ => true
  }

  /** The next step of thread `i`: header, data and tag go through the cache. */
  function Next(s: State, i: nat, luck: Luck): (r: State)
    requires i < |s.threads| && StepSafe(s, i)
    ensures Valid(r.nodes, r.flash) && |r.threads| == |s.threads|
  {
    var t: I.Thread := s.threads[i];
    var job, pc := t.job, t.pc;
    match pc
    case Start =>
      if s.lock != I.FREE then s else SetPc(s, i, I.HaveHeader(HeaderAt(s.nodes, s.flash, job.addr).len))
    case HaveHeader(len) =>
      if len < job.offset + |job.data| then SetPc(s, i, I.Done(BadParameter))
      else if s.lock != I.FREE then s
      else SetPc(s, i, I.Locked(len)).(lock := i)
    case Locked(len) =>
      var w := Write(s.nodes, s.flash, job.addr + 8 + job.offset, job.data, luck.budget);
      SetPc(s.(nodes := w.0), i, if w.1 < |job.data| then I.Release(Error) else I.Summing(len, 0, 0))
    case Summing(len, at, sum) =>
      if at == 0 && !luck.heap then SetPc(s, i, I.Release(Error))
      else if at < len then
        var n := if len - at > 1024 then 1024 else len - at;
        SetPc(s, i, I.Summing(len, at + n, Mod32(sum + Sum(Read(s.nodes, s.flash, job.addr + 8 + at, n)))))
      else
        var w := Write(s.nodes, s.flash, job.addr, EncodeHeader(Header(sum, len)), luck.budget);
        SetPc(s.(nodes := w.0), i, I.Release(if w.1 == 8 then Ok else Error))
    case Release(res) => SetPc(s, i, I.Done(res)).(lock := I.FREE)
    case Done(_) => s
  }

  // ----- single accesses

  lemma ViewPart(c: seq<Block>, flash: seq<byte>, off: nat, len: nat)
    requires Valid(c, flash) && off + len <= |flash|
    ensures View(c, flash, 0, |flash|)[off..off + len] == View(c, flash, off, len)
  {
    hide View, ByteAt, Valid;
    var m, v := View(c, flash, 0, |flash|), View(c, flash, off, len);
    forall i | 0 <= i < len ensures m[off..off + len][i] == v[i] {
      assert m[off + i] == ByteAt(c, flash, 0 + (off + i)) && v[i] == ByteAt(c, flash, off + i);
    }
  }

  lemma WriteIsOverlay(c: seq<Block>, flash: seq<byte>, off: nat, data: seq<byte>, budget: nat)
    requires Valid(c, flash) && off + |data| <= |flash| && OneBlock(off, |data|)
    ensures var w := Write(c, flash, off, data, budget);
            View(w.0, flash, 0, |flash|) == Overlay(View(c, flash, 0, |flash|), off, data[..w.1])
  {
    hide View, ByteAt, Valid, Write, Overlay;
    WriteOne(c, flash, off, data, budget);
    var w := Write(c, flash, off, data, budget);
    var m, v := View(c, flash, 0, |flash|), View(w.0, flash, 0, |flash|);
    forall a | 0 <= a < |flash| ensures v[a] == Overlay(m, off, data[..w.1])[a] {
      assert v[a] == ByteAt(w.0, flash, 0 + a) && m[a] == ByteAt(c, flash, 0 + a);
      OverlayAt(m, off, data[..w.1], a);
    }
  }

  lemma HeaderIs(c: seq<Block>, flash: seq<byte>, addr: nat)
    requires Valid(c, flash) && addr + 8 <= |flash| && OneBlock(addr, 8)
    ensures var m := View(c, flash, 0, |flash|);
            HeaderAt(c, flash, addr) == Header(Le(m[addr..addr + 4]), I.LenOf(m, addr))
  {
    hide View, Valid, Read, Le, HeaderAt;
    HeaderView(c, flash, addr);
    ViewPart(c, flash, addr, 8);
    var m, v := View(c, flash, 0, |flash|), View(c, flash, addr, 8);
    assert v[..4] == m[addr..addr + 4] && v[4..] == m[addr + 4..addr + 8];
  }

  lemma ReadIs(c: seq<Block>, flash: seq<byte>, off: nat, len: nat)
    requires Valid(c, flash) && off + len <= |flash| && OneBlock(off, len)
    ensures Read(c, flash, off, len) == View(c, flash, 0, |flash|)[off..off + len]
  {
    hide View, Valid, Read;
    ReadOne(c, flash, off, len);
    ViewPart(c, flash, off, len);
  }

  // ----- steps

  lemma Facts(s: State, i: nat, log: seq<I.Event>, mem0: seq<byte>, recs: I.Records)
    requires Valid(s.nodes, s.flash) && i < |s.threads| && I.Inv(Abs(s, log), mem0, recs) && AllCompact(recs)
    ensures StepSafe(s, i) && I.StepSafe(Abs(s, log), i)
    ensures var t: I.Thread := s.threads[i];
            var job, pc := t.job, t.pc;
            && OneBlock(job.addr, 8)
            && (pc.Locked? ==> OneBlock(job.addr + 8 + job.offset, |job.data|))
            && (pc.Summing? ==> OneBlock(job.addr + 8, pc.len))
  {
    hide View, Valid, I.Serial, I.Layout, I.LogOk;
    I.StepIsSafe(Abs(s, log), i, mem0, recs);
    var t := s.threads[i];
    assert I.ThreadOk(Abs(s, log).threads[i], recs);
    assert Compact(t.job.addr, recs[t.job.addr]);
    if t.pc.Locked? {
      SubBlock(t.job.addr + 8, recs[t.job.addr], t.job.offset, |t.job.data|);
    }
  }

  /** Every step on cache and flash is a step on the visible memory. */
  lemma StepRefines(s: State, i: nat, luck: Luck, log: seq<I.Event>, mem0: seq<byte>, recs: I.Records)
    returns (choice: nat, log': seq<I.Event>)
    requires Valid(s.nodes, s.flash) && i < |s.threads| && I.Inv(Abs(s, log), mem0, recs) && AllCompact(recs)
    ensures StepSafe(s, i) && I.StepSafe(Abs(s, log), i)
    ensures Abs(Next(s, i, luck), log') == I.Next(Abs(s, log), i, choice)
  {
    hide View, Valid, Read, Write, Le, HeaderAt, EncodeHeader, Overlay, I.Inv, Sum, Mod32;
    Facts(s, i, log, mem0, recs);
    var t: I.Thread := s.threads[i];
    var job, pc := t.job, t.pc;
    choice, log' := 1, log;
    match pc {
      case Start =>
        HeaderIs(s.nodes, s.flash, job.addr);
      case Locked(len) =>
        choice, log' := DataStep(s, i, luck, log);
      case Summing(len, at, sum) =>
        if at == 0 && !luck.heap {
          choice, log' := 0, log + [I.DataOnly(i, job, |job.data|)];
        } else if at < len {
          var n := if len - at > 1024 then 1024 else len - at;
          SubBlock(job.addr + 8, len, at, n);
          ReadIs(s.nodes, s.flash, job.addr + 8 + at, n);
        } else {
          choice, log' := HeaderStep(s, i, luck, log);
        }
      case _ =>
    }
  }

  lemma DataStep(s: State, i: nat, luck: Luck, log: seq<I.Event>) returns (choice: nat, log': seq<I.Event>)
    requires i < |s.threads| && StepSafe(s, i) && s.threads[i].pc.Locked?
    requires I.StepSafe(Abs(s, log), i)
    requires var job := s.threads[i].job; OneBlock(job.addr + 8 + job.offset, |job.data|)
    ensures Abs(Next(s, i, luck), log') == I.Next(Abs(s, log), i, choice)
  {
    hide View, Valid, Write, Overlay;
    var t: I.Thread := s.threads[i];
    var job, pc := t.job, t.pc;
    var w := Write(s.nodes, s.flash, job.addr + 8 + job.offset, job.data, luck.budget);
    WriteIsOverlay(s.nodes, s.flash, job.addr + 8 + job.offset, job.data, luck.budget);
    choice := w.1;
    log' := if w.1 < |job.data| then log + [I.DataOnly(i, job, w.1)] else log;
  }

  lemma HeaderStep(s: State, i: nat, luck: Luck, log: seq<I.Event>) returns (choice: nat, log': seq<I.Event>)
    requires i < |s.threads| && StepSafe(s, i) && s.threads[i].pc.Summing? && s.threads[i].pc.at == s.threads[i].pc.len
    requires I.StepSafe(Abs(s, log), i) && OneBlock(s.threads[i].job.addr, 8)
    requires s.threads[i].pc.at == 0 ==> luck.heap
    ensures Abs(Next(s, i, luck), log') == I.Next(Abs(s, log), i, choice)
  {
    hide View, Valid, Write, Overlay, EncodeHeader;
    var t: I.Thread := s.threads[i];
    var job, len, at, sum := t.job, t.pc.len, t.pc.at, t.pc.sum;
    var h := EncodeHeader(Header(sum, len));
    var w := Write(s.nodes, s.flash, job.addr, h, luck.budget);
    WriteIsOverlay(s.nodes, s.flash, job.addr, h, luck.budget);
    choice := w.1;
    if at == 0 && w.1 == 0 {
      log' := log + [I.DataOnly(i, job, |job.data|)];
      OverlayNothing(Visible(s), job.addr);
      assert h[..0] == [];
    } else {
      log' := log + [I.WithHeader(i, job, w.1)];
    }
  }

  lemma OverlayNothing(m: seq<byte>, at: nat)
    requires at <= |m|
    ensures Overlay(m, at, []) == m
  {
  }

  // ----- runs

  datatype Turn = Turn(thread: nat, luck: Luck)

  /** A run; a step that would leave the flash does not happen. */
  function Run(s: State, turns: seq<Turn>): (r: State)
    requires Valid(s.nodes, s.flash)
    ensures Valid(r.nodes, r.flash) && |r.threads| == |s.threads|
    decreases |turns|
  {
    if turns == [] then s
    else
      var t := turns[0];
      if t.thread < |s.threads| && StepSafe(s, t.thread) then Run(Next(s, t.thread, t.luck), turns[1..])
      else Run(s, turns[1..])
  }

  /** Every run on cache and flash is a run on the visible memory. */
  lemma {:induction false} RunRefines(s: State, turns: seq<Turn>, log: seq<I.Event>, mem0: seq<byte>, recs: I.Records)
    returns (abs: seq<I.Turn>, log': seq<I.Event>)
    requires Valid(s.nodes, s.flash) && I.Inv(Abs(s, log), mem0, recs) && AllCompact(recs)
    ensures Abs(Run(s, turns), log') == I.Run(Abs(s, log), abs, mem0, recs)
    decreases |turns|
  {
    hide View, Valid, I.Inv, I.Next, Next, Abs;
    if turns == [] {
      abs, log' := [], log;
    } else if turns[0].thread >= |s.threads| {
      abs, log' := RunRefines(s, turns[1..], log, mem0, recs);
    } else {
      var i := turns[0].thread;
      var choice, log1 := StepRefines(s, i, turns[0].luck, log, mem0, recs);
      var s1 := Next(s, i, turns[0].luck);
      AbsThreads(s, log);
      I.NextKeepsInv(Abs(s, log), i, choice, mem0, recs);
      var rest;
      rest, log' := RunRefines(s1, turns[1..], log1, mem0, recs);
      abs := [I.Turn(i, choice)] + rest;
      assert abs[1..] == rest;
    }
  }

  lemma AbsThreads(s: State, log: seq<I.Event>)
    requires Valid(s.nodes, s.flash)
    ensures Abs(s, log).threads == s.threads
  {
  }

  /** Any number of setters on the cached store, interleaved in any way, with any allocation
      failing: whenever the lock is free, what readers see is what the logged setters produce
      one after the other, the log being one entry for each setter that took the lock; every
      byte of a body is what the last setter that wrote it had for it; and a record that was
      intact or has been completed since, and was not left half written, passes its check and
      reads as it shows. */
  lemma EveryCachedInterleaving(s: State, turns: seq<Turn>, recs: I.Records, addr: nat, off: nat, n: nat)
    returns (log: seq<I.Event>)
    requires Valid(s.nodes, s.flash) && I.Starting(Abs(s, []), recs) && AllCompact(recs)
    requires addr in recs && off + n <= recs[addr]
    ensures var r := Run(s, turns);
            var m := Visible(s);
            r.lock == I.FREE ==>
              && I.LogOk(log, recs, |m|) && Visible(r) == I.Serial(m, log, recs)
              && I.Tied(r.threads, log) && I.BodyShows(m, log, Visible(r), addr, recs[addr])
              && addr + 8 + recs[addr] <= |m| && InBounds(r.nodes, r.flash, addr)
              && (I.Sound(log, addr, I.RecordOk(m, addr, recs[addr])) ==>
                    addr + 8 + off + n <= |r.flash|
                    && GetPart(r.nodes, r.flash, addr, off, n, true)
                      == Data(Visible(r)[addr + 8 + off..addr + 8 + off + n]))
  {
    hide View, Valid, Run, I.Run, I.Serial, I.Layout, I.Inv, I.Starting, I.Tied, I.BodyShows, Le, Sum, Mod32, I.LogOk,
         GetPart, HeaderAt, InBounds;
    var s0 := Abs(s, []);
    I.StartingInv(s0, recs);
    var abs, log1 := RunRefines(s, turns, [], s0.mem, recs);
    log := log1;
    var r := Run(s, turns);
    I.EveryInterleaving(s0, abs, recs, addr);
    if r.lock == I.FREE {
      StartingAt(s0, recs, addr);
      assert Compact(addr, recs[addr]);
      RecordReads(r.nodes, r.flash, addr, recs[addr], off, n);
    }
  }

  lemma StartingAt(s: I.State, recs: I.Records, addr: nat)
    requires I.Starting(s, recs) && addr in recs
    ensures addr + 8 + recs[addr] <= |s.mem| && recs[addr] < TWO32
  {
  }

  /** A compact record with a correct tag passes its check. */
  lemma RecordReads(c: seq<Block>, flash: seq<byte>, addr: nat, len: nat, off: nat, n: nat)
    requires Valid(c, flash) && addr + 8 + len <= |flash| && Compact(addr, len) && off + n <= len
    requires I.LenOf(View(c, flash, 0, |flash|), addr) == len
    ensures InBounds(c, flash, addr)
    ensures I.RecordOk(View(c, flash, 0, |flash|), addr, len) ==>
              GetPart(c, flash, addr, off, n, true)
              == Data(View(c, flash, 0, |flash|)[addr + 8 + off..addr + 8 + off + n])
  {
    hide View, Valid, Read, Le, Sum, Mod32, HeaderAt, Checksum, Ordered;
    HeaderIs(c, flash, addr);
    OneBlockOrdered(c, addr + 8, len);
    ChecksumExact(c, flash, addr + 8, len);
    ViewPart(c, flash, addr + 8, len);
    SubBlock(addr + 8, len, off, n);
    ReadIs(c, flash, addr + 8 + off, n);
  }

  // ----- one setter alone

  predicate Alone(turns: seq<Turn>, i: nat) {
    forall k | 0 <= k < |turns| :: turns[k].thread == i
  }

  /** Thread `i` has ended with `out`, a result and the cache nodes; nothing else has changed. */
  ghost predicate Ended(s: State, i: nat, r: State, out: (Res, seq<Block>))
    requires i < |s.threads|
  {
    r == SetPc(s, i, I.Done(out.0)).(nodes := out.1, lock := I.FREE)
  }

  lemma OneStep(s: State, turns: seq<Turn>, i: nat)
    requires Valid(s.nodes, s.flash) && i < |s.threads| && StepSafe(s, i) && turns != [] && Alone(turns, i)
    ensures Run(s, turns) == Run(Next(s, i, turns[0].luck), turns[1..]) && Alone(turns[1..], i)
  {
    hide Next, StepSafe;
  }

  lemma {:induction false} StaysDone(s: State, i: nat, turns: seq<Turn>)
    requires Valid(s.nodes, s.flash) && i < |s.threads| && s.threads[i].pc.Done? && Alone(turns, i)
    ensures Run(s, turns) == s
    decreases |turns|
  {
    if turns != [] { StaysDone(s, i, turns[1..]); }
  }

  /** What is left to do in the checksum loop: the rest of the sum, then the header. */
  function Finish(c: seq<Block>, flash: seq<byte>, job: I.Job, len: nat, at: nat, sum: nat, heap: Heap)
    : (r: (Res, seq<Block>))
    requires Valid(c, flash) && at <= len < TWO32 && job.addr + 8 + len <= |flash|
  {
    if at == 0 && !heap.buffer then (Error, c)
    else
      var tag := Mod32(sum + Sum(Fetch(c, flash, job.addr + 8 + at, len - at)));
      var w := Write(c, flash, job.addr, EncodeHeader(Header(tag, len)), heap.forHeader);
      (if w.1 == 8 then Ok else Error, w.0)
  }

  lemma FinishStep(c: seq<Block>, flash: seq<byte>, job: I.Job, len: nat, at: nat, sum: nat, heap: Heap)
    requires Valid(c, flash) && at < len < TWO32 && job.addr + 8 + len <= |flash| && (at == 0 ==> heap.buffer)
    ensures var n := if len - at > 1024 then 1024 else len - at;
            Finish(c, flash, job, len, at, sum, heap)
            == Finish(c, flash, job, len, at + n, Mod32(sum + Sum(Read(c, flash, job.addr + 8 + at, n))), heap)
  {
    hide Read, Write, Valid, Sum, Mod32, Fetch, EncodeHeader;
    var n := if len - at > 1024 then 1024 else len - at;
    var from := job.addr + 8 + at;
    FetchStep(c, flash, from, len - at);
    SumConcat(Read(c, flash, from, n), Fetch(c, flash, from + n, len - at - n));
    Mod32Add(sum + Sum(Read(c, flash, from, n)), Sum(Fetch(c, flash, from + n, len - at - n)));
  }

  lemma FinishHeader(c: seq<Block>, flash: seq<byte>, job: I.Job, len: nat, sum: nat, heap: Heap)
    requires Valid(c, flash) && len < TWO32 && job.addr + 8 + len <= |flash| && (len == 0 ==> heap.buffer)
    requires sum < TWO32
    ensures var w := Write(c, flash, job.addr, EncodeHeader(Header(sum, len)), heap.forHeader);
            Finish(c, flash, job, len, len, sum, heap) == (if w.1 == 8 then Ok else Error, w.0)
  {
    hide Write, Valid, EncodeHeader;
    Mod32Add(sum, 0);
  }

  lemma {:induction false} SoloSumming(s: State, i: nat, turns: seq<Turn>) returns (heap: Heap)
    requires i < |s.threads| && StepSafe(s, i) && s.threads[i].pc.Summing? && Alone(turns, i)
    requires Run(s, turns).threads[i].pc.Done?
    ensures var t: I.Thread := s.threads[i];
            Ended(s, i, Run(s, turns), Finish(s.nodes, s.flash, t.job, t.pc.len, t.pc.at, t.pc.sum, heap))
    decreases |turns|
  {
    hide Valid, Write, Read, Finish, EncodeHeader, Sum, Mod32;
    var t: I.Thread := s.threads[i];
    var job, len, at, sum := t.job, t.pc.len, t.pc.at, t.pc.sum;
    OneStep(s, turns, i);
    var luck := turns[0].luck;
    var s1 := Next(s, i, luck);
    heap := Heap(0, luck.heap, luck.budget);
    if at == 0 && !luck.heap {
      SoloRelease(s1, i, turns[1..]);
      NoBuffer(s.nodes, s.flash, job, len, sum, heap);
    } else if at < len {
      var later := SoloSumming(s1, i, turns[1..]);
      heap := Heap(0, true, later.forHeader);
      FinishStep(s.nodes, s.flash, job, len, at, sum, heap);
      LaterBuffer(s1.nodes, s.flash, s1.threads[i], later, heap);
    } else {
      SoloRelease(s1, i, turns[1..]);
      heap := Heap(0, true, luck.budget);
      FinishHeader(s.nodes, s.flash, job, len, sum, heap);
    }
  }

  lemma NoBuffer(c: seq<Block>, flash: seq<byte>, job: I.Job, len: nat, sum: nat, heap: Heap)
    requires Valid(c, flash) && len < TWO32 && job.addr + 8 + len <= |flash| && !heap.buffer
    ensures Finish(c, flash, job, len, 0, sum, heap) == (Error, c)
  {
  }

  /** The buffer is needed once, when the loop begins. */
  lemma LaterBuffer(c: seq<Block>, flash: seq<byte>, t: I.Thread, a: Heap, b: Heap)
    requires Valid(c, flash) && t.pc.Summing? && 0 < t.pc.at <= t.pc.len < TWO32 && t.job.addr + 8 + t.pc.len <= |flash|
    requires a.forHeader == b.forHeader
    ensures Finish(c, flash, t.job, t.pc.len, t.pc.at, t.pc.sum, a)
            == Finish(c, flash, t.job, t.pc.len, t.pc.at, t.pc.sum, b)
  {
  }

  lemma SoloRelease(s: State, i: nat, turns: seq<Turn>)
    requires i < |s.threads| && StepSafe(s, i) && s.threads[i].pc.Release? && Alone(turns, i)
    requires Run(s, turns).threads[i].pc.Done?
    ensures Ended(s, i, Run(s, turns), (s.threads[i].pc.res, s.nodes))
  {
    hide Valid;
    OneStep(s, turns, i);
    StaysDone(Next(s, i, turns[0].luck), i, turns[1..]);
  }

  /** A setter alone, whatever fails, ends with the result and the cache of one update; a range
      test that fails included. */
  lemma SoloRun(s: State, i: nat, turns: seq<Turn>) returns (heap: Heap)
    requires Valid(s.nodes, s.flash) && i < |s.threads| && s.threads[i].pc.Start? && s.lock == I.FREE
    requires InBounds(s.nodes, s.flash, s.threads[i].job.addr)
    requires Alone(turns, i) && Run(s, turns).threads[i].pc.Done?
    ensures var job := s.threads[i].job;
            Ended(s, i, Run(s, turns), SetPart(s.nodes, s.flash, job.addr, job.offset, job.data, heap))
  {
    hide Valid, Write, Read, Finish, EncodeHeader, Sum, Mod32, HeaderAt, Run, SetPart;
    var job := s.threads[i].job;
    var len := HeaderAt(s.nodes, s.flash, job.addr).len;
    heap := Heap(0, true, 0);
    NotYet(s, i, turns);
    OneStep(s, turns, i);
    var s1, t1 := Next(s, i, turns[0].luck), turns[1..];
    NotYet(s1, i, t1);
    OneStep(s1, t1, i);
    var s2, t2 := Next(s1, i, t1[0].luck), t1[1..];
    if len < job.offset + |job.data| {
      StaysDone(s2, i, t2);
      OutOfRange(s.nodes, s.flash, job, heap);
    } else {
      heap := SoloLocked(s2, i, t2);
    }
  }

  lemma NotYet(s: State, i: nat, turns: seq<Turn>)
    requires Valid(s.nodes, s.flash) && i < |s.threads| && !s.threads[i].pc.Done? && Run(s, turns).threads[i].pc.Done?
    ensures turns != []
  {
  }

  lemma OutOfRange(c: seq<Block>, flash: seq<byte>, job: I.Job, heap: Heap)
    requires Valid(c, flash) && InBounds(c, flash, job.addr)
    requires HeaderAt(c, flash, job.addr).len < job.offset + |job.data|
    ensures SetPart(c, flash, job.addr, job.offset, job.data, heap) == (BadParameter, c)
  {
    hide Write, Valid, HeaderAt;
  }

  lemma SoloLocked(s: State, i: nat, turns: seq<Turn>) returns (heap: Heap)
    requires i < |s.threads| && StepSafe(s, i) && s.threads[i].pc.Locked? && Alone(turns, i)
    requires var job := s.threads[i].job;
             && InBounds(s.nodes, s.flash, job.addr) && s.threads[i].pc.len == HeaderAt(s.nodes, s.flash, job.addr).len
             && job.offset + |job.data| <= s.threads[i].pc.len
    requires Run(s, turns).threads[i].pc.Done?
    ensures var job := s.threads[i].job;
            Ended(s, i, Run(s, turns), SetPart(s.nodes, s.flash, job.addr, job.offset, job.data, heap))
  {
    hide Valid, Write, Read, Finish, EncodeHeader, HeaderAt, SetPart, Run;
    var job := s.threads[i].job;
    NotYet(s, i, turns);
    OneStep(s, turns, i);
    var luck, s1 := turns[0].luck, Next(s, i, turns[0].luck);
    heap := Heap(luck.budget, true, 0);
    if Write(s.nodes, s.flash, job.addr + 8 + job.offset, job.data, luck.budget).1 < |job.data| {
      SoloRelease(s1, i, turns[1..]);
    } else {
      var rest := SoloSumming(s1, i, turns[1..]);
      heap := Heap(luck.budget, rest.buffer, rest.forHeader);
      SameFinish(s1.nodes, s.flash, job, s.threads[i].pc.len, rest);
      SameFinish(s1.nodes, s.flash, job, s.threads[i].pc.len, heap);
    }
    SetPartIs(s.nodes, s.flash, job, heap);
  }

  lemma SetPartIs(c: seq<Block>, flash: seq<byte>, job: I.Job, heap: Heap)
    requires Valid(c, flash) && InBounds(c, flash, job.addr)
    requires job.offset + |job.data| <= HeaderAt(c, flash, job.addr).len
    ensures var w := Write(c, flash, job.addr + 8 + job.offset, job.data, heap.forData);
            SetPart(c, flash, job.addr, job.offset, job.data, heap) ==
            if w.1 < |job.data| then (Error, w.0)
            else Finish(w.0, flash, job, HeaderAt(c, flash, job.addr).len, 0, 0, heap)
  {
    hide Write, Valid, HeaderAt, EncodeHeader, Fetch, Sum, Mod32;
  }

  /** How many nodes the data write could get does not matter after it. */
  lemma SameFinish(c: seq<Block>, flash: seq<byte>, job: I.Job, len: nat, heap: Heap)
    requires Valid(c, flash) && len < TWO32 && job.addr + 8 + len <= |flash|
    ensures Finish(c, flash, job, len, 0, 0, heap)
            == Finish(c, flash, job, len, 0, 0, Heap(0, heap.buffer, heap.forHeader))
  {
  }

  /** Every update is such a run. */
  lemma SoloRunExists(s: State, i: nat, heap: Heap) returns (turns: seq<Turn>)
    requires Valid(s.nodes, s.flash) && i < |s.threads| && s.threads[i].pc.Start? && s.lock == I.FREE
    requires InBounds(s.nodes, s.flash, s.threads[i].job.addr)
    ensures Alone(turns, i)
    ensures var job := s.threads[i].job;
            Ended(s, i, Run(s, turns), SetPart(s.nodes, s.flash, job.addr, job.offset, job.data, heap))
  {
    hide Valid, Write, Read, Finish, EncodeHeader, Sum, Mod32, HeaderAt, Run, SetPart;
    var job := s.threads[i].job;
    var len := HeaderAt(s.nodes, s.flash, job.addr).len;
    var t := Turn(i, Luck(heap.buffer, heap.forData));
    var s1 := Next(s, i, t.luck);
    var s2 := Next(s1, i, t.luck);
    if len < job.offset + |job.data| {
      turns := [];
      StaysDone(s2, i, []);
      OutOfRange(s.nodes, s.flash, job, heap);
    } else {
      SetPartIs(s.nodes, s.flash, job, heap);
      var s3 := Next(s2, i, t.luck);
      if s3.threads[i].pc.Release? {
        turns := Releasing(s3, i);
      } else {
        turns := Summing(s3, i, heap);
      }
      turns := Prepend(s2, i, t, turns);
    }
    turns := Prepend(s1, i, t, turns);
    turns := Prepend(s, i, t, turns);
  }

  lemma Prepend(s: State, i: nat, t: Turn, turns: seq<Turn>) returns (all: seq<Turn>)
    requires i < |s.threads| && StepSafe(s, i) && t.thread == i && Alone(turns, i)
    ensures Alone(all, i) && Run(s, all) == Run(Next(s, i, t.luck), turns)
  {
    hide Next, Valid, Run;
    all := [t] + turns;
    OneStep(s, all, i);
    assert all[1..] == turns;
  }

  lemma Releasing(s: State, i: nat) returns (turns: seq<Turn>)
    requires i < |s.threads| && StepSafe(s, i) && s.threads[i].pc.Release?
    ensures Alone(turns, i) && Ended(s, i, Run(s, turns), (s.threads[i].pc.res, s.nodes))
  {
    hide Valid, Run;
    var t := Turn(i, Luck(true, 0));
    StaysDone(Next(s, i, t.luck), i, []);
    turns := Prepend(s, i, t, []);
  }

  lemma {:induction false} Summing(s: State, i: nat, heap: Heap) returns (turns: seq<Turn>)
    requires i < |s.threads| && StepSafe(s, i) && s.threads[i].pc.Summing?
    ensures Alone(turns, i)
    ensures var t: I.Thread := s.threads[i];
            Ended(s, i, Run(s, turns), Finish(s.nodes, s.flash, t.job, t.pc.len, t.pc.at, t.pc.sum, heap))
    decreases s.threads[i].pc.len - s.threads[i].pc.at
  {
    hide Valid, Write, Read, Finish, EncodeHeader, Sum, Mod32, Run;
    var t: I.Thread := s.threads[i];
    var job, len, at, sum := t.job, t.pc.len, t.pc.at, t.pc.sum;
    var turn := Turn(i, Luck(heap.buffer, heap.forHeader));
    var s1 := Next(s, i, turn.luck);
    if at == 0 && !heap.buffer {
      turns := Releasing(s1, i);
      NoBuffer(s.nodes, s.flash, job, len, sum, heap);
    } else if at < len {
      turns := Summing(s1, i, heap);
      FinishStep(s.nodes, s.flash, job, len, at, sum, heap);
    } else {
      turns := Releasing(s1, i);
      FinishHeader(s.nodes, s.flash, job, len, sum, heap);
    }
    turns := Prepend(s, i, turn, turns);
  }
}

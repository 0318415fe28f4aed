/** Any number of setters running at once (hs_cfg_setDataByIndex, lib/config/cfg_main.c).
    Each reads the record header before it takes the lock, so the length it works with
    may be stale; every interleaving is nevertheless equal to running the setters one
    after the other, in the order in which they took the lock.

    The store is the visible memory; CfgCacheRuns shows that the block cache provides it. */
module CfgInterleave {
  import opened Bytes
  import opened CacheMem
  import opened CfgMain

  /** A call: write `data` at `offset` of the record at `addr`. */
  datatype Job = Job(addr: nat, offset: nat, data: seq<byte>)

  datatype Pc =
    | Start
    | HaveHeader(len: nat)                     // header read, lock not yet taken
    | Locked(len: nat)                         // lock taken
    | Summing(len: nat, at: nat, sum: nat)     // data written, checksum loop at `at`
    | Release(res: Res)                        // about to give the lock back
    | Done(res: Res)

  datatype Thread = Thread(job: Job, pc: Pc)

  /** What a setter that held the lock did: stopped after `n` data bytes, or wrote all the
      data and `n` bytes of the header; eight header bytes make it a success. */
  datatype Event = DataOnly(who: nat, job: Job, n: nat) | WithHeader(who: nat, job: Job, n: nat)

  datatype State = State(mem: seq<byte>, lock: int, threads: seq<Thread>, log: seq<Event>)

  const FREE: int := -1

  /** The records: start address to body length. */
  type Records = map<nat, nat>

  function LenOf(mem: seq<byte>, addr: nat): nat
    requires addr + 8 <= |mem|
  {
    Le(mem[addr + 4..addr + 8])
  }

  predicate Apart(recs: Records, a: nat, b: nat)
    requires a in recs && b in recs
  {
    a + 8 + recs[a] <= b || b + 8 + recs[b] <= a
  }

  ghost predicate Layout(mem: seq<byte>, recs: Records) {
    && (forall a | a in recs :: recs[a] < TWO32 && a + 8 + recs[a] <= |mem| && LenOf(mem, a) == recs[a])
    && (forall a, b | a in recs && b in recs && a != b :: Apart(recs, a, b))
  }

  function Tagged(mem: seq<byte>, addr: nat, len: nat): (h: seq<byte>)
    requires addr + 8 + len <= |mem| && len < TWO32
    ensures |h| == 8
  {
    EncodeHeader(Header(Mod32(Sum(mem[addr + 8..addr + 8 + len])), len))
  }

  predicate JobFits(job: Job, recs: Records) {
    job.addr in recs && job.offset + |job.data| <= recs[job.addr]
  }

  function Wrote(mem: seq<byte>, job: Job, n: nat): (r: seq<byte>)
    requires job.addr + 8 + job.offset + |job.data| <= |mem| && n <= |job.data|
    ensures |r| == |mem|
  {
    Overlay(mem, job.addr + 8 + job.offset, job.data[..n])
  }

  predicate EventOk(e: Event, recs: Records, size: nat) {
    && JobFits(e.job, recs) && e.job.addr + 8 + recs[e.job.addr] <= size && recs[e.job.addr] < TWO32
    && e.n <= if e.DataOnly? then |e.job.data| else 8
  }

  /** One setter on its own. */
  function Effect(mem: seq<byte>, e: Event, recs: Records): (r: seq<byte>)
    requires EventOk(e, recs, |mem|)
    ensures |r| == |mem|
  {
    match e
    case DataOnly(_, job, n) => Wrote(mem, job, n)
    case WithHeader(_, job, n) =>
      var m := Wrote(mem, job, |job.data|);
      Overlay(m, job.addr, Tagged(m, job.addr, recs[job.addr])[..n])
  }

  predicate LogOk(log: seq<Event>, recs: Records, size: nat) {
    forall i | 0 <= i < |log| :: EventOk(log[i], recs, size)
  }

  /** The setters of the log, one after the other. */
  function Serial(mem: seq<byte>, log: seq<Event>, recs: Records): (r: seq<byte>)
    requires LogOk(log, recs, |mem|)
    ensures |r| == |mem|
  {
    if log == [] then mem
    else
      var last := |log| - 1;
      assert EventOk(log[last], recs, |mem|);
      Effect(Serial(mem, log[..last], recs), log[last], recs)
  }

  predicate Holding(pc: Pc) {
    pc.Locked? || pc.Summing? || pc.Release?
  }

  predicate Succeeded(pc: Pc) {
    pc == Release(Ok) || pc == Done(Ok)
  }

  /** What a thread knows: a header that was read gave the record's length, and the
      length test has been passed by every thread that took the lock. */
  predicate ThreadOk(t: Thread, recs: Records) {
    && t.job.addr in recs
    && match t.pc
       case HaveHeader(len) => len == recs[t.job.addr]
       case Locked(len) => len == recs[t.job.addr] && JobFits(t.job, recs)
       case Summing(len, at, sum) => len == recs[t.job.addr] && JobFits(t.job, recs) && at <= len && sum < TWO32
       case _ => true
  }

  /** The memory, seen by the thread that holds the lock. */
  predicate HolderOk(mem: seq<byte>, base: seq<byte>, t: Thread, recs: Records)
    requires ThreadOk(t, recs)
  {
    match t.pc
    case Summing(len, at, sum) =>
      && t.job.addr + 8 + len <= |base|
      && mem == Wrote(base, t.job, |t.job.data|)
      && sum == Mod32(Sum(mem[t.job.addr + 8..t.job.addr + 8 + at]))
    case _ => mem == base
  }

  ghost predicate Inv(s: State, mem0: seq<byte>, recs: Records) {
    && LogOk(s.log, recs, |mem0|)
    && var base := Serial(mem0, s.log, recs);
    && Layout(base, recs)
    && (forall i | 0 <= i < |s.threads| :: ThreadOk(s.threads[i], recs) && (Holding(s.threads[i].pc) <==> i == s.lock))
    && (forall i | 0 <= i < |s.threads| :: Succeeded(s.threads[i].pc) ==> WithHeader(i, s.threads[i].job, 8) in s.log)
    && -1 <= s.lock < |s.threads|
    && (if s.lock == -1 then s.mem == base else HolderOk(s.mem, base, s.threads[s.lock], recs))
  }

  function SetPc(s: State, i: nat, pc: Pc): State
    requires i < |s.threads|
  {
    s.(threads := s.threads[i := s.threads[i].(pc := pc)])
  }

  /** The next step of thread `i`.  A blocked thread stays where it is.  `choice` settles
      how many bytes a write achieves and whether the checksum buffer is available. */
  function Next(s: State, i: nat, choice: nat): (r: State)
    requires i < |s.threads| && StepSafe(s, i)
  {
    var Thread(job, pc) := s.threads[i];
    match pc
    case Start =>
      if s.lock != FREE then s else SetPc(s, i, HaveHeader(LenOf(s.mem, job.addr)))
    case HaveHeader(len) =>
      if len < job.offset + |job.data| then SetPc(s, i, Done(BadParameter))
      else if s.lock != FREE then s
      else SetPc(s, i, Locked(len)).(lock := i)
    case Locked(len) =>
      var n := if choice < |job.data| then choice else |job.data|;
      var s' := s.(mem := Wrote(s.mem, job, n));
      if n < |job.data| then SetPc(s', i, Release(Error)).(log := s.log + [DataOnly(i, job, n)])
      else SetPc(s', i, Summing(len, 0, 0))
    case Summing(len, at, sum) =>
      if at == 0 && choice == 0 then SetPc(s, i, Release(Error)).(log := s.log + [DataOnly(i, job, |job.data|)])
      else if at < len then
        var n := if len - at > 1024 then 1024 else len - at;
        var from := job.addr + 8 + at;
        SetPc(s, i, Summing(len, at + n, Mod32(sum + Sum(s.mem[from..from + n]))))
      else
        var n := if choice < 8 then choice else 8;
        var h := EncodeHeader(Header(sum, len));
        SetPc(s.(mem := Overlay(s.mem, job.addr, h[..n])), i, Release(if n == 8 then Ok else Error))
          .(log := s.log + [WithHeader(i, job, n)])
    case Release(res) => SetPc(s, i, Done(res)).(lock := FREE)
    case Done(_) => s
  }

  /** The step's memory accesses lie inside the store. */
  predicate StepSafe(s: State, i: nat)
    requires i < |s.threads|
  {
    var Thread(job, pc) := s.threads[i];
    && job.addr + 8 <= |s.mem|
    && match pc
       case Locked(len) => job.addr + 8 + job.offset + |job.data| <= |s.mem|
       case Summing(len, at, sum) => at <= len && job.addr + 8 + len <= |s.mem| && sum < TWO32 && len < TWO32
       case _ => true
  }

  // ----- records

  /** The stored tag is the 32-bit sum of the body. */
  predicate RecordOk(mem: seq<byte>, addr: nat, len: nat)
    requires addr + 8 + len <= |mem|
  {
    Le(mem[addr..addr + 4]) == Mod32(Sum(mem[addr + 8..addr + 8 + len]))
  }

  lemma OverlaySlice(s: seq<byte>, at: nat, piece: seq<byte>, lo: nat, hi: nat)
    requires at + |piece| <= |s| && lo <= hi <= |s| && (hi <= at || at + |piece| <= lo)
    ensures Overlay(s, at, piece)[lo..hi] == s[lo..hi]
  {
  }

  lemma OverlayInside(s: seq<byte>, at: nat, piece: seq<byte>)
    requires at + |piece| <= |s|
    ensures Overlay(s, at, piece)[at..at + |piece|] == piece
  {
  }

  /** A setter leaves the bytes of every other record alone. */
  lemma EffectElsewhere(mem: seq<byte>, e: Event, recs: Records, lo: nat, hi: nat)
    requires EventOk(e, recs, |mem|) && lo <= hi <= |mem|
    requires hi <= e.job.addr || e.job.addr + 8 + recs[e.job.addr] <= lo
    ensures Effect(mem, e, recs)[lo..hi] == mem[lo..hi]
  {
    hide Overlay, Tagged;
    var job := e.job;
    if e.DataOnly? {
      OverlaySlice(mem, job.addr + 8 + job.offset, job.data[..e.n], lo, hi);
    } else {
      var m := Wrote(mem, job, |job.data|);
      OverlaySlice(mem, job.addr + 8 + job.offset, job.data[..|job.data|], lo, hi);
      OverlaySlice(m, job.addr, Tagged(m, job.addr, recs[job.addr])[..e.n], lo, hi);
    }
  }

  /** No setter changes the length of its record. */
  lemma EffectLen(mem: seq<byte>, e: Event, recs: Records)
    requires EventOk(e, recs, |mem|) && LenOf(mem, e.job.addr) == recs[e.job.addr]
    ensures LenOf(Effect(mem, e, recs), e.job.addr) == recs[e.job.addr]
  {
    hide Overlay, Le, Mod32, Sum;
    var job := e.job;
    var a := job.addr;
    OverlaySlice(mem, a + 8 + job.offset, job.data[..if e.DataOnly? then e.n else |job.data|], a + 4, a + 8);
    if e.WithHeader? {
      var m := Wrote(mem, job, |job.data|);
      var h := Tagged(m, a, recs[a]);
      LenField(m, a, h, e.n);
    }
  }

  /** Any part of a header that repeats the length leaves the length as it is. */
  lemma LenField(m: seq<byte>, a: nat, h: seq<byte>, n: nat)
    requires a + 8 <= |m| && |h| == 8 && n <= 8 && LenOf(m, a) < TWO32 && h[4..] == ToLe32(LenOf(m, a))
    ensures Overlay(m, a, h[..n])[a + 4..a + 8] == m[a + 4..a + 8]
  {
    hide Le, ToLe32;
    ToLe32Le(m[a + 4..a + 8]);
    assert h[4..] == m[a + 4..a + 8];
    var r := Overlay(m, a, h[..n]);
    forall i | a + 4 <= i < a + 8 ensures r[i] == m[i] {
      assert h[i - a] == h[4..][i - a - 4] == m[a + 4..a + 8][i - a - 4];
    }
  }

  lemma EffectLayout(mem: seq<byte>, e: Event, recs: Records)
    requires EventOk(e, recs, |mem|) && Layout(mem, recs)
    ensures Layout(Effect(mem, e, recs), recs)
  {
    hide Effect, Le;
    var r := Effect(mem, e, recs);
    forall a | a in recs ensures LenOf(r, a) == recs[a] {
      if a == e.job.addr {
        EffectLen(mem, e, recs);
      } else {
        assert Apart(recs, a, e.job.addr);
        EffectElsewhere(mem, e, recs, a + 4, a + 8);
      }
    }
  }

  /** A setter that finished leaves its record with a correct tag. */
  lemma CommitOk(mem: seq<byte>, i: nat, job: Job, recs: Records)
    requires EventOk(WithHeader(i, job, 8), recs, |mem|)
    ensures RecordOk(Effect(mem, WithHeader(i, job, 8), recs), job.addr, recs[job.addr])
  {
    hide Overlay, Le, Mod32, Sum, ToLe32;
    var a, len := job.addr, recs[job.addr];
    var m := Wrote(mem, job, |job.data|);
    var h := Tagged(m, a, len);
    assert h[..8] == h;
    var r := Overlay(m, a, h);
    OverlayInside(m, a, h);
    OverlaySlice(m, a, h, a + 8, a + 8 + len);
    assert r[a..a + 4] == r[a..a + 8][..4] == h[..4];
    LeToLe32(Mod32(Sum(m[a + 8..a + 8 + len])));
  }

  // ----- the data

  /** How many data bytes a setter wrote. */
  function Took(e: Event): nat {
    if e.DataOnly? then e.n else |e.job.data|
  }

  /** The setter wrote the byte at `a` of the memory. */
  predicate Writes(e: Event, a: nat) {
    e.job.addr + 8 + e.job.offset <= a < e.job.addr + 8 + e.job.offset + Took(e)
  }

  /** The byte that the setter had for `a`. */
  function DataFor(e: Event, a: nat): byte
    requires Writes(e, a) && Took(e) <= |e.job.data|
  {
    e.job.data[a - (e.job.addr + 8 + e.job.offset)]
  }

  /** A setter, complete or cut off, puts the data it took at its offset in the body and
      leaves every other byte outside the header as it was. */
  lemma EffectData(mem: seq<byte>, e: Event, recs: Records, a: nat)
    requires EventOk(e, recs, |mem|) && a < |mem| && !(e.job.addr <= a < e.job.addr + 8)
    ensures Effect(mem, e, recs)[a] == if Writes(e, a) then DataFor(e, a) else mem[a]
  {
    hide Tagged;
    var job := e.job;
    if e.WithHeader? {
      var m := Wrote(mem, job, |job.data|);
      OverlaySlice(m, job.addr, Tagged(m, job.addr, recs[job.addr])[..e.n], a, a + 1);
      assert Effect(mem, e, recs)[a] == Effect(mem, e, recs)[a..a + 1][0] == m[a];
    }
  }

  /** A completed setter: its data at its offset, the rest of the body as it was. */
  lemma CompletedBody(mem: seq<byte>, i: nat, job: Job, recs: Records)
    requires EventOk(WithHeader(i, job, 8), recs, |mem|)
    ensures var body := job.addr + 8;
            var r := Effect(mem, WithHeader(i, job, 8), recs);
            && r[body + job.offset..body + job.offset + |job.data|] == job.data
            && r[body..body + job.offset] == mem[body..body + job.offset]
            && r[body + job.offset + |job.data|..body + recs[job.addr]]
               == mem[body + job.offset + |job.data|..body + recs[job.addr]]
  {
    hide Effect;
    var body, r := job.addr + 8, Effect(mem, WithHeader(i, job, 8), recs);
    forall a | body <= a < body + recs[job.addr]
      ensures r[a] == if Writes(WithHeader(i, job, 8), a) then job.data[a - (body + job.offset)] else mem[a]
    {
      EffectData(mem, WithHeader(i, job, 8), recs, a);
    }
  }

  /** Byte `a` is as the last setter that wrote it left it, or as it was at the start. */
  ghost predicate DataShows(mem0: seq<byte>, log: seq<Event>, mem: seq<byte>, a: nat)
    requires a < |mem0| == |mem| && forall j | 0 <= j < |log| :: Took(log[j]) <= |log[j].job.data|
  {
    && (forall j | LastWriter(log, j, a) :: mem[a] == DataFor(log[j], a))
    && ((forall j | 0 <= j < |log| :: !Writes(log[j], a)) ==> mem[a] == mem0[a])
  }

  predicate LastWriter(log: seq<Event>, j: int, a: nat) {
    0 <= j < |log| && Writes(log[j], a) && forall l | j < l < |log| :: !Writes(log[l], a)
  }

  lemma LogTakes(log: seq<Event>, recs: Records, size: nat)
    requires LogOk(log, recs, size)
    ensures forall j | 0 <= j < |log| :: Took(log[j]) <= |log[j].job.data|
  {
    forall j | 0 <= j < |log| ensures Took(log[j]) <= |log[j].job.data| {
      assert EventOk(log[j], recs, size);
    }
  }

  /** One setter after the other: every byte of every body is what its last writer put there. */
  lemma {:induction false} SerialData(mem: seq<byte>, log: seq<Event>, recs: Records, addr: nat, a: nat)
    requires LogOk(log, recs, |mem|) && Layout(mem, recs) && addr in recs && addr + 8 <= a < addr + 8 + recs[addr]
    ensures a < |mem| && forall j | 0 <= j < |log| :: Took(log[j]) <= |log[j].job.data|
    ensures DataShows(mem, log, Serial(mem, log, recs), a)
    decreases |log|
  {
    hide Effect, Layout, LogOk, LenOf;
    LayoutAt(mem, recs, addr);
    LogTakes(log, recs, |mem|);
    if log != [] {
      var last := |log| - 1;
      LogPart(log, recs, |mem|, last);
      var m, e := Serial(mem, log[..last], recs), log[last];
      SerialData(mem, log[..last], recs, addr, a);
      NotInHeader(mem, recs, addr, e.job.addr, a);
      EffectData(m, e, recs, a);
      forall j | LastWriter(log, j, a) ensures Serial(mem, log, recs)[a] == DataFor(log[j], a) {
        if j < last {
          assert LastWriter(log[..last], j, a);
        }
      }
    }
  }

  ghost predicate BodyShows(mem0: seq<byte>, log: seq<Event>, mem: seq<byte>, addr: nat, len: nat) {
    && addr + 8 + len <= |mem0| == |mem| && (forall j | 0 <= j < |log| :: Took(log[j]) <= |log[j].job.data|)
    && forall a: nat | addr + 8 <= a < addr + 8 + len :: DataShows(mem0, log, mem, a)
  }

  lemma SerialBody(mem: seq<byte>, log: seq<Event>, recs: Records, addr: nat)
    requires LogOk(log, recs, |mem|) && Layout(mem, recs) && addr in recs
    ensures BodyShows(mem, log, Serial(mem, log, recs), addr, recs[addr])
  {
    hide Serial, Layout, LogOk, DataShows;
    LayoutAt(mem, recs, addr);
    LogTakes(log, recs, |mem|);
    forall a: nat | addr + 8 <= a < addr + 8 + recs[addr] ensures DataShows(mem, log, Serial(mem, log, recs), a) {
      SerialData(mem, log, recs, addr, a);
    }
  }

  lemma LogPart(log: seq<Event>, recs: Records, size: nat, k: nat)
    requires LogOk(log, recs, size) && k < |log|
    ensures LogOk(log[..k], recs, size) && EventOk(log[k], recs, size)
  {
  }

  lemma NotInHeader(mem: seq<byte>, recs: Records, addr: nat, b: nat, a: nat)
    requires Layout(mem, recs) && addr in recs && b in recs && addr + 8 <= a < addr + 8 + recs[addr]
    ensures !(b <= a < b + 8)
  {
    if b != addr { assert Apart(recs, addr, b); }
  }

  /** Whether the record must have a correct tag after the log: it had one at the start or
      some setter finished on it, and none stopped half way since. */
  predicate Sound(log: seq<Event>, addr: nat, initially: bool) {
    if log == [] then initially
    else
      var e := log[|log| - 1];
      if e.job.addr != addr then Sound(log[..|log| - 1], addr, initially) else e == WithHeader(e.who, e.job, 8)
  }

  /** Setter number `j` is the last that had to do with the record. */
  predicate LastOn(log: seq<Event>, j: int, addr: nat) {
    0 <= j < |log| && log[j].job.addr == addr && forall l | j < l < |log| :: log[l].job.addr != addr
  }

  /** That is: the last setter on the record completed, or there was none and it was intact. */
  lemma {:induction false} SoundIff(log: seq<Event>, addr: nat, initially: bool)
    ensures Sound(log, addr, initially) <==>
            || (exists j :: LastOn(log, j, addr) && log[j].WithHeader? && log[j].n == 8)
            || (initially && forall l | 0 <= l < |log| :: log[l].job.addr != addr)
    decreases |log|
  {
    if log != [] {
      var n := |log| - 1;
      if log[n].job.addr == addr {
        assert LastOn(log, n, addr);
        forall j | LastOn(log, j, addr) ensures j == n {}
      } else {
        SoundIff(log[..n], addr, initially);
        forall j ensures LastOn(log, j, addr) <==> LastOn(log[..n], j, addr) {}
      }
    }
  }

  lemma {:induction false} SerialSound(mem: seq<byte>, log: seq<Event>, recs: Records, addr: nat)
    requires LogOk(log, recs, |mem|) && Layout(mem, recs) && addr in recs
    requires Sound(log, addr, RecordOk(mem, addr, recs[addr]))
    ensures RecordOk(Serial(mem, log, recs), addr, recs[addr])
    decreases |log|
  {
    hide Effect, Le, Mod32, Sum;
    if log != [] {
      var last := |log| - 1;
      var m, e := Serial(mem, log[..last], recs), log[last];
      if e.job.addr != addr {
        SerialSound(mem, log[..last], recs, addr);
        assert Apart(recs, addr, e.job.addr);
        EffectElsewhere(m, e, recs, addr, addr + 4);
        EffectElsewhere(m, e, recs, addr + 8, addr + 8 + recs[addr]);
      } else {
        CommitOk(m, e.who, e.job, recs);
      }
    }
  }

  // ----- every step

  lemma SerialSnoc(mem: seq<byte>, log: seq<Event>, e: Event, recs: Records)
    requires LogOk(log, recs, |mem|) && EventOk(e, recs, |mem|)
    ensures LogOk(log + [e], recs, |mem|)
    ensures Serial(mem, log + [e], recs) == Effect(Serial(mem, log, recs), e, recs)
  {
    hide Effect;
    assert (log + [e])[..|log|] == log;
  }

  lemma StepIsSafe(s: State, i: nat, mem0: seq<byte>, recs: Records)
    requires Inv(s, mem0, recs) && i < |s.threads|
    ensures StepSafe(s, i) && |s.mem| == |mem0|
  {
    hide Serial, Le, LogOk;
    assert ThreadOk(s.threads[i], recs);
  }

  /** Steps that change neither the memory nor the log. */
  lemma QuietStep(s: State, i: nat, pc: Pc, lock: int, mem0: seq<byte>, recs: Records)
    requires Inv(s, mem0, recs) && i < |s.threads|
    requires ThreadOk(Thread(s.threads[i].job, pc), recs)
    requires lock == if Holding(pc) then i else if s.lock == i then FREE else s.lock
    requires Holding(pc) ==> s.lock == i || (s.lock == FREE && pc.Locked?)
    requires s.lock == i ==> !s.threads[i].pc.Summing? && !pc.Summing?
    requires Succeeded(pc) ==> Succeeded(s.threads[i].pc)
    ensures Inv(SetPc(s, i, pc).(lock := lock), mem0, recs)
  {
    hide Serial, Layout, LogOk, JobFits, Wrote;
  }

  lemma LockedStep(s: State, i: nat, n: nat, mem0: seq<byte>, recs: Records)
    requires Inv(s, mem0, recs) && i < |s.threads| && s.threads[i].pc.Locked? && n <= |s.threads[i].job.data|
    ensures var job := s.threads[i].job;
            StepSafe(s, i) &&
            var s' := s.(mem := Wrote(s.mem, job, n));
            && Inv(SetPc(s', i, Release(Error)).(log := s.log + [DataOnly(i, job, n)]), mem0, recs)
            && (n == |job.data| ==> Inv(SetPc(s', i, Summing(s.threads[i].pc.len, 0, 0)), mem0, recs))
  {
    hide Serial, Layout, LogOk, Overlay;
    StepIsSafe(s, i, mem0, recs);
    var job := s.threads[i].job;
    assert ThreadOk(s.threads[i], recs);
    var base := Serial(mem0, s.log, recs);
    LayoutAt(base, recs, job.addr);
    SerialSnoc(mem0, s.log, DataOnly(i, job, n), recs);
    EffectLayout(base, DataOnly(i, job, n), recs);
    assert s.mem[job.addr + 8..job.addr + 8] == [];
  }

  lemma LayoutAt(mem: seq<byte>, recs: Records, a: nat)
    requires Layout(mem, recs) && a in recs
    ensures recs[a] < TWO32 && a + 8 + recs[a] <= |mem| && LenOf(mem, a) == recs[a]
  {
  }

  lemma ChunkStep(s: State, i: nat, n: nat, mem0: seq<byte>, recs: Records)
    requires Inv(s, mem0, recs) && i < |s.threads| && s.threads[i].pc.Summing?
    requires s.threads[i].pc.at + n <= s.threads[i].pc.len
    ensures StepSafe(s, i) &&
            var Thread(job, Summing(len, at, sum)) := s.threads[i];
            var from := job.addr + 8 + at;
            Inv(SetPc(s, i, Summing(len, at + n, Mod32(sum + Sum(s.mem[from..from + n])))), mem0, recs)
  {
    hide Serial, Layout, LogOk, Overlay, Sum, Mod32;
    StepIsSafe(s, i, mem0, recs);
    var Thread(job, Summing(len, at, sum)) := s.threads[i];
    assert ThreadOk(s.threads[i], recs);
    var body := job.addr + 8;
    var from := body + at;
    SumConcat(s.mem[body..from], s.mem[from..from + n]);
    assert s.mem[body..from] + s.mem[from..from + n] == s.mem[body..body + (at + n)];
    Mod32Add(Sum(s.mem[body..from]), Sum(s.mem[from..from + n]));
  }

  lemma AbandonStep(s: State, i: nat, mem0: seq<byte>, recs: Records)
    requires Inv(s, mem0, recs) && i < |s.threads| && s.threads[i].pc.Summing?
    ensures var job := s.threads[i].job;
            Inv(SetPc(s, i, Release(Error)).(log := s.log + [DataOnly(i, job, |job.data|)]), mem0, recs)
  {
    hide Serial, Layout, LogOk, Overlay, Sum, Mod32;
    var job := s.threads[i].job;
    assert ThreadOk(s.threads[i], recs);
    var base := Serial(mem0, s.log, recs);
    LayoutAt(base, recs, job.addr);
    SerialSnoc(mem0, s.log, DataOnly(i, job, |job.data|), recs);
    EffectLayout(base, DataOnly(i, job, |job.data|), recs);
  }

  lemma HeaderStep(s: State, i: nat, n: nat, mem0: seq<byte>, recs: Records)
    requires Inv(s, mem0, recs) && i < |s.threads| && s.threads[i].pc.Summing? && n <= 8
    requires s.threads[i].pc.at == s.threads[i].pc.len
    ensures StepSafe(s, i) &&
            var Thread(job, Summing(len, at, sum)) := s.threads[i];
            var h := EncodeHeader(Header(sum, len));
            Inv(SetPc(s.(mem := Overlay(s.mem, job.addr, h[..n])), i, Release(if n == 8 then Ok else Error))
                  .(log := s.log + [WithHeader(i, job, n)]), mem0, recs)
  {
    hide Serial, Layout, LogOk, Overlay, Sum, Mod32, EncodeHeader;
    StepIsSafe(s, i, mem0, recs);
    var Thread(job, Summing(len, at, sum)) := s.threads[i];
    assert ThreadOk(s.threads[i], recs);
    var base := Serial(mem0, s.log, recs);
    LayoutAt(base, recs, job.addr);
    SerialSnoc(mem0, s.log, WithHeader(i, job, n), recs);
    EffectLayout(base, WithHeader(i, job, n), recs);
  }

  /** Every step of every thread keeps the invariant: outside the lock the memory is the
      serial one, and the length read before the lock is still the record's length. */
  lemma NextKeepsInv(s: State, i: nat, choice: nat, mem0: seq<byte>, recs: Records)
    requires Inv(s, mem0, recs) && i < |s.threads|
    ensures StepSafe(s, i) && Inv(Next(s, i, choice), mem0, recs)
  {
    hide Serial, Layout, LogOk, Overlay, Sum, Mod32, EncodeHeader, Wrote, Inv, ThreadOk;
    StepIsSafe(s, i, mem0, recs);
    ThreadFacts(s, i, mem0, recs);
    var Thread(job, pc) := s.threads[i];
    match pc
    case Start =>
      if s.lock == FREE { QuietStep(s, i, HaveHeader(LenOf(s.mem, job.addr)), s.lock, mem0, recs); }
    case HaveHeader(len) =>
      if len < job.offset + |job.data| {
        QuietStep(s, i, Done(BadParameter), s.lock, mem0, recs);
      } else if s.lock == FREE {
        QuietStep(s, i, Locked(len), i, mem0, recs);
      }
    case Locked(len) =>
      LockedStep(s, i, if choice < |job.data| then choice else |job.data|, mem0, recs);
    case Summing(len, at, sum) =>
      if at == 0 && choice == 0 {
        AbandonStep(s, i, mem0, recs);
      } else if at < len {
        ChunkStep(s, i, if len - at > 1024 then 1024 else len - at, mem0, recs);
      } else {
        HeaderStep(s, i, if choice < 8 then choice else 8, mem0, recs);
      }
    case Release(res) =>
      QuietStep(s, i, Done(res), FREE, mem0, recs);
    case Done(_) =>
  }

  lemma ThreadFacts(s: State, i: nat, mem0: seq<byte>, recs: Records)
    requires Inv(s, mem0, recs) && i < |s.threads|
    ensures var Thread(job, pc) := s.threads[i];
            && job.addr in recs && job.addr + 8 <= |s.mem| && (Holding(pc) <==> s.lock == i)
            && (forall res :: ThreadOk(Thread(job, Done(res)), recs))
            && (s.lock == FREE ==> ThreadOk(Thread(job, HaveHeader(LenOf(s.mem, job.addr))), recs))
            && (pc.HaveHeader? && pc.len >= job.offset + |job.data| ==> ThreadOk(Thread(job, Locked(pc.len)), recs))
            && (pc.Summing? ==> pc.at <= pc.len)
  {
    hide Serial, Layout, LogOk, Le;
    assert ThreadOk(s.threads[i], recs);
    LayoutAt(Serial(mem0, s.log, recs), recs, s.threads[i].job.addr);
  }

  // ----- every run

  datatype Turn = Turn(thread: nat, choice: nat)

  /** A run: which thread takes each step, and how its step turns out. */
  ghost function Run(s: State, turns: seq<Turn>, mem0: seq<byte>, recs: Records): (r: State)
    requires Inv(s, mem0, recs)
    ensures Inv(r, mem0, recs)
    decreases |turns|
  {
    if turns == [] then s
    else if turns[0].thread >= |s.threads| then Run(s, turns[1..], mem0, recs)
    else
      NextKeepsInv(s, turns[0].thread, turns[0].choice, mem0, recs);
      Run(Next(s, turns[0].thread, turns[0].choice), turns[1..], mem0, recs)
  }

  /** The start: all calls about to begin on a well-formed store. */
  ghost predicate Starting(s: State, recs: Records) {
    && Layout(s.mem, recs) && s.lock == FREE && s.log == []
    && forall i | 0 <= i < |s.threads| :: s.threads[i].pc == Start && s.threads[i].job.addr in recs
  }

  lemma StartingInv(s: State, recs: Records)
    requires Starting(s, recs)
    ensures Inv(s, s.mem, recs)
  {
  }

  /** In every interleaving of any number of setters, whenever the lock is free the memory
      is what the logged setters produce one after the other, the log has exactly one entry
      for each setter that took the lock, every byte of every body is what the last setter that
      wrote it had for it, no record's length has changed, and every record that was intact or
      has been completed since, and was not left half written, has a correct tag. */
  lemma EveryInterleaving(s: State, turns: seq<Turn>, recs: Records, addr: nat)
    requires Starting(s, recs) && addr in recs
    ensures Inv(s, s.mem, recs)
    ensures var r := Run(s, turns, s.mem, recs);
            r.lock == FREE ==>
              && LogOk(r.log, recs, |s.mem|) && Tied(r.threads, r.log)
              && r.mem == Serial(s.mem, r.log, recs)
              && (forall i | 0 <= i < |r.threads| && r.threads[i].pc == Done(Ok) ::
                    WithHeader(i, r.threads[i].job, 8) in r.log)
              && LenOf(r.mem, addr) == recs[addr] && BodyShows(s.mem, r.log, r.mem, addr, recs[addr])
              && (Sound(r.log, addr, RecordOk(s.mem, addr, recs[addr])) ==> RecordOk(r.mem, addr, recs[addr]))
  {
    hide Serial, Layout, Le, Sum, Mod32, Next, Tied, BodyShows;
    StartingInv(s, recs);
    StartingTied(s, recs);
    RunKeepsTied(s, turns, s.mem, recs);
    var r := Run(s, turns, s.mem, recs);
    if r.lock == FREE {
      LayoutAt(r.mem, recs, addr);
      SerialBody(s.mem, r.log, recs, addr);
      if Sound(r.log, addr, RecordOk(s.mem, addr, recs[addr])) {
        SerialSound(s.mem, r.log, recs, addr);
      }
    }
  }

  // ----- the log belongs to the threads

  /** The thread took the lock and has said what it did. */
  predicate Logged(pc: Pc) {
    (pc.Release? || pc.Done?) && (pc.res == Ok || pc.res == Error)
  }

  predicate EntryOk(threads: seq<Thread>, e: Event) {
    && e.who < |threads| && threads[e.who].job == e.job && Logged(threads[e.who].pc)
    && (Succeeded(threads[e.who].pc) <==> e == WithHeader(e.who, e.job, 8))
  }

  predicate HasEntry(log: seq<Event>, i: nat) {
    exists k | 0 <= k < |log| :: log[k].who == i
  }

  /** Every entry of the log is that of a thread which took the lock, no thread has two, and
      every thread that let the lock go has one. */
  ghost predicate Tied(threads: seq<Thread>, log: seq<Event>) {
    && (forall k | 0 <= k < |log| :: EntryOk(threads, log[k]))
    && (forall k, l | 0 <= k < l < |log| :: log[k].who != log[l].who)
    && (forall i | 0 <= i < |threads| && Logged(threads[i].pc) :: HasEntry(log, i))
    && (forall i | 0 <= i < |threads| && threads[i].pc.Release? :: Logged(threads[i].pc))
    && (forall i | 0 <= i < |threads| && threads[i].pc.Done? ::
          threads[i].pc.res == BadParameter || Logged(threads[i].pc))
  }

  /** A step without an entry. */
  lemma TiedQuiet(threads: seq<Thread>, log: seq<Event>, i: nat, pc: Pc)
    requires Tied(threads, log) && i < |threads|
    requires Logged(pc) == Logged(threads[i].pc) && Succeeded(pc) == Succeeded(threads[i].pc)
    requires (pc.Release? ==> Logged(pc)) && (pc.Done? ==> pc.res == BadParameter || Logged(pc))
    ensures Tied(threads[i := threads[i].(pc := pc)], log)
  {
    var ts := threads[i := threads[i].(pc := pc)];
    forall k | 0 <= k < |log| ensures EntryOk(ts, log[k]) {
      assert EntryOk(threads, log[k]);
    }
  }

  /** A step with an entry: the thread had none. */
  lemma TiedEntry(threads: seq<Thread>, log: seq<Event>, i: nat, pc: Pc, e: Event)
    requires Tied(threads, log) && i < |threads| && !Logged(threads[i].pc)
    requires pc.Release? && Logged(pc) && e.who == i && e.job == threads[i].job
    requires Succeeded(pc) <==> e == WithHeader(i, e.job, 8)
    ensures Tied(threads[i := threads[i].(pc := pc)], log + [e])
  {
    var ts, l := threads[i := threads[i].(pc := pc)], log + [e];
    forall k | 0 <= k < |log| ensures EntryOk(ts, log[k]) && log[k].who != i {
      assert EntryOk(threads, log[k]);
    }
    forall k | 0 <= k < |l| ensures EntryOk(ts, l[k]) {
      assert k < |log| ==> l[k] == log[k];
    }
    forall j | 0 <= j < |ts| && Logged(ts[j].pc) ensures HasEntry(l, j) {
      if j == i {
        assert l[|log|].who == i;
      } else {
        var k :| 0 <= k < |log| && log[k].who == j;
        assert l[k].who == j;
      }
    }
  }

  lemma NextKeepsTied(s: State, i: nat, choice: nat)
    requires i < |s.threads| && StepSafe(s, i) && Tied(s.threads, s.log)
    ensures Tied(Next(s, i, choice).threads, Next(s, i, choice).log)
  {
    hide Tied, Overlay, Wrote, EncodeHeader, Sum, Mod32, Le, StepSafe;
    var Thread(job, pc) := s.threads[i];
    var r := Next(s, i, choice);
    match pc {
      case Start => if s.lock == FREE { TiedQuiet(s.threads, s.log, i, r.threads[i].pc); }
      case HaveHeader(len) =>
        if len < job.offset + |job.data| || s.lock == FREE { TiedQuiet(s.threads, s.log, i, r.threads[i].pc); }
      case Locked(len) =>
        if choice < |job.data| {
          TiedEntry(s.threads, s.log, i, Release(Error), DataOnly(i, job, choice));
        } else {
          TiedQuiet(s.threads, s.log, i, r.threads[i].pc);
        }
      case Summing(len, at, sum) =>
        if at == 0 && choice == 0 {
          TiedEntry(s.threads, s.log, i, Release(Error), DataOnly(i, job, |job.data|));
        } else if at < len {
          TiedQuiet(s.threads, s.log, i, r.threads[i].pc);
        } else {
          var n := if choice < 8 then choice else 8;
          TiedEntry(s.threads, s.log, i, Release(if n == 8 then Ok else Error), WithHeader(i, job, n));
        }
      case Release(res) =>
        assert Logged(pc) by { TiedRelease(s.threads, s.log, i); }
        TiedQuiet(s.threads, s.log, i, Done(res));
      case Done(_) =>
    }
  }

  lemma TiedRelease(threads: seq<Thread>, log: seq<Event>, i: nat)
    requires Tied(threads, log) && i < |threads| && threads[i].pc.Release?
    ensures Logged(threads[i].pc)
  {
  }

  /** In every interleaving the log has exactly one entry for each setter that let the lock go,
      and no other. */
  lemma {:induction false} RunKeepsTied(s: State, turns: seq<Turn>, mem0: seq<byte>, recs: Records)
    requires Inv(s, mem0, recs) && Tied(s.threads, s.log)
    ensures Tied(Run(s, turns, mem0, recs).threads, Run(s, turns, mem0, recs).log)
    decreases |turns|
  {
    hide Inv, Tied, Next, StepSafe;
    if turns != [] {
      if turns[0].thread >= |s.threads| {
        RunKeepsTied(s, turns[1..], mem0, recs);
      } else {
        NextKeepsInv(s, turns[0].thread, turns[0].choice, mem0, recs);
        NextKeepsTied(s, turns[0].thread, turns[0].choice);
        RunKeepsTied(Next(s, turns[0].thread, turns[0].choice), turns[1..], mem0, recs);
      }
    }
  }

  lemma StartingTied(s: State, recs: Records)
    requires Starting(s, recs)
    ensures Tied(s.threads, s.log)
  {
  }

  /** At most one thread is between taking and releasing the lock. */
  lemma MutualExclusion(s: State, turns: seq<Turn>, recs: Records, i: nat, j: nat)
    requires Starting(s, recs) && i < j
    ensures Inv(s, s.mem, recs)
    ensures var r := Run(s, turns, s.mem, recs);
            j < |r.threads| ==> !(Holding(r.threads[i].pc) && Holding(r.threads[j].pc))
  {
    hide Serial, Layout, Next, LogOk;
    StartingInv(s, recs);
  }
}

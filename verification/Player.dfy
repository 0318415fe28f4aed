/** The life of the player (lib/player/player.c): one player at a time, made of a semaphore, an
    audio output and a source, with a table of operations that belongs to the source.
    Everything the code does to a resource is logged, and the log is judged by a monitor
    that knows nothing about the player. */
module Player {

  datatype Mode = Fm | Mp3 | Linein | UsbAudio

  datatype Op =
    | Start | Stop | Next | Prev | VolumeInc | VolumeDec | VolumeIncBig | VolumeDecBig
    | FreqInc | FreqDec | SetFunc

  datatype Kind = Object | Semaphore | Output | Source(mode: Mode)

  // ----- the monitor

  datatype Act =
    | New(kind: Kind, id: nat)
    | Free(kind: Kind, id: nat)
    | Wait(id: nat)
    | Signal(id: nat)
    | Call(mode: Mode, op: Op, id: nat)      // an operation of a source of that mode
    | CallNull                               // a call through a null pointer
    | Quiet(on: bool)                        // audioPlayMute, audioPlayUnmute
    | Flush                                  // hs_cfg_flush

  /** What the sources were told to do, how often one was told so while no semaphore was taken,
      whether the sound is off, and how often the configuration was flushed. */
  datatype Told = Told(calls: seq<(Mode, Op)>, bare: nat, quiet: bool, flushes: nat)

  /** What exists, what existed, which semaphores are taken, and what came out. */
  datatype World = World(live: map<nat, Kind>, gone: set<nat>, held: set<nat>, told: Told)

  const FIRST: World := World(map[], {}, {}, Told([], 0, false, 0))

  datatype Verdict = Good(w: World) | Bad

  /** The operations a source of each mode offers. */
  function Operations(mode: Mode): (ops: set<Op>) {
    match mode
    case Mp3 => {Start, Stop, Next, Prev, VolumeInc, VolumeDec, VolumeIncBig, VolumeDecBig, SetFunc}
    case Fm => {Start, Stop, Next, Prev, VolumeInc, VolumeDec, FreqInc, FreqDec, SetFunc}
    case Linein => {Start, Stop, VolumeInc, VolumeDec}
    case UsbAudio => {VolumeInc, VolumeDec}
  }

  /** Resources are created fresh, used only while they exist and freed once; a semaphore is
      waited for only when it is free, signalled only when taken, and freed only when free;
      the output outlives the source; the configuration is flushed when nothing is left. */
  function Judge(w: World, a: Act): (v: Verdict) {
    match a
    case New(kind, id) =>
      if id in w.live || id in w.gone then Bad else Good(w.(live := w.live[id := kind]))
    case Free(kind, id) =>
      if !(id in w.live && w.live[id] == kind) then Bad
      else if id in w.held then Bad
      else if kind == Output && exists i | i in w.live :: w.live[i].Source? then Bad
      else Good(w.(live := w.live - {id}, gone := w.gone + {id}))
    case Wait(id) =>
      if id in w.live && w.live[id] == Semaphore && id !in w.held then Good(w.(held := w.held + {id})) else Bad
    case Signal(id) =>
      if id in w.live && w.live[id] == Semaphore && id in w.held then Good(w.(held := w.held - {id})) else Bad
    case Call(mode, op, id) =>
      if id in w.live && w.live[id] == Source(mode) && op in Operations(mode)
      then Good(w.(told := Asked(w.told, [(mode, op)], if w.held == {} then 1 else 0)))
      else Bad
    case CallNull => Bad
    case Quiet(on) => Good(w.(told := w.told.(quiet := on)))
    case Flush => if w.live == map[] then Good(w.(told := w.told.(flushes := w.told.flushes + 1))) else Bad
  }

  function Asked(t: Told, calls: seq<(Mode, Op)>, bare: nat): Told {
    t.(calls := t.calls + calls, bare := t.bare + bare)
  }

  function Replay(log: seq<Act>): (v: Verdict) {
    if log == [] then Good(FIRST)
    else
      match Replay(log[..|log| - 1])
      case Bad => Bad
      case Good(w) => Judge(w, log[|log| - 1])
  }

  lemma ReplaySnoc(log: seq<Act>, a: Act)
    ensures Replay(log + [a]) == match Replay(log) case Bad => Bad case Good(w) => Judge(w, a)
  {
    assert (log + [a])[..|log|] == log;
  }

  function Created(log: seq<Act>, id: nat): nat {
    if log == [] then 0
    else Created(log[1..], id) + if log[0].New? && log[0].id == id then 1 else 0
  }

  function Freed(log: seq<Act>, id: nat): nat {
    if log == [] then 0
    else Freed(log[1..], id) + if log[0].Free? && log[0].id == id then 1 else 0
  }

  lemma {:induction false} CountSnoc(log: seq<Act>, a: Act, id: nat)
    ensures Created(log + [a], id) == Created(log, id) + if a.New? && a.id == id then 1 else 0
    ensures Freed(log + [a], id) == Freed(log, id) + if a.Free? && a.id == id then 1 else 0
  {
    if log == [] {
      assert log + [a] == [a];
    } else {
      assert (log + [a])[1..] == log[1..] + [a];
      CountSnoc(log[1..], a, id);
    }
  }

  /** In a log the monitor accepts, every resource is created at most once, and freed exactly
      once unless it still exists. */
  lemma {:induction false} GoodLogsBalance(log: seq<Act>, id: nat)
    requires Replay(log).Good?
    ensures var w := Replay(log).w;
      && !(id in w.live && id in w.gone)
      && Created(log, id) == (if id in w.live || id in w.gone then 1 else 0)
      && Freed(log, id) == (if id in w.gone then 1 else 0)
  {
    if log != [] {
      var n := |log| - 1;
      assert log == log[..n] + [log[n]];
      GoodLogsBalance(log[..n], id);
      CountSnoc(log[..n], log[n], id);
    }
  }

  function Waits(log: seq<Act>, id: nat): nat {
    if log == [] then 0 else Waits(log[..|log| - 1], id) + if log[|log| - 1] == Wait(id) then 1 else 0
  }

  function Signals(log: seq<Act>, id: nat): nat {
    if log == [] then 0 else Signals(log[..|log| - 1], id) + if log[|log| - 1] == Signal(id) then 1 else 0
  }

  /** In a log the monitor accepts, waits and signals of a semaphore alternate: it is taken once
      more than it was given back, or as often. */
  lemma {:induction false} GoodLogsAlternate(log: seq<Act>, id: nat)
    requires Replay(log).Good?
    ensures Waits(log, id) == Signals(log, id) + if id in Replay(log).w.held then 1 else 0
  {
    if log != [] { GoodLogsAlternate(log[..|log| - 1], id); }
  }

  lemma {:induction false} GoodPrefix(log: seq<Act>, k: nat)
    requires Replay(log).Good? && k <= |log|
    ensures Replay(log[..k]).Good?
    decreases |log|
  {
    if k == |log| {
      assert log[..k] == log;
    } else {
      GoodPrefix(log[..|log| - 1], k);
      assert log[..|log| - 1][..k] == log[..k];
    }
  }

  /** In such a log every operation is called on a source that was created and not yet freed, by
      a mode that offers it, and nothing is called through a null pointer. */
  lemma GoodCalls(log: seq<Act>, k: nat)
    requires Replay(log).Good? && k < |log|
    ensures log[k] != CallNull
    ensures log[k].Call? ==>
              && Created(log[..k], log[k].id) == 1 && Freed(log[..k], log[k].id) == 0
              && log[k].op in Operations(log[k].mode)
  {
    hide Operations;
    GoodPrefix(log, k);
    GoodPrefix(log, k + 1);
    assert log[..k + 1] == log[..k] + [log[k]];
    ReplaySnoc(log[..k], log[k]);
    if log[k].Call? { GoodLogsBalance(log[..k], log[k].id); }
  }

  // ----- the player

  /** hs_player_t; 0 is the null pointer.  `table` maps the non-null function pointers to
      the source whose functions they are. */
  datatype Info = Info(self: nat, sem: nat, ao: nat, mode: Mode, music: nat, fm: nat, linein: nat, usbaudio: nat,
                       uarg: nat, table: map<Op, Mode>, mute: bool)

  datatype Slot = Null | Ptr(p: Info)

  function SourceOf(p: Info, mode: Mode): nat {
    match mode
    case Mp3 => p.music
    case Fm => p.fm
    case Linein => p.linein
    case UsbAudio => p.usbaudio
  }

  function WithSource(p: Info, mode: Mode, id: nat): Info {
    match mode
    case Mp3 => p.(music := id)
    case Fm => p.(fm := id)
    case Linein => p.(linein := id)
    case UsbAudio => p.(usbaudio := id)
  }

  /** The pointers of a player are distinct, and only the source of its mode may be set. */
  predicate Apart(p: Info) {
    && 0 < p.self && 0 < p.sem && p.self != p.sem
    && (p.ao != 0 ==> p.ao != p.self && p.ao != p.sem)
    && (forall m :: SourceOf(p, m) != 0 ==> m == p.mode && SourceOf(p, m) !in {p.self, p.sem, p.ao})
  }

  predicate TableOf(table: map<Op, Mode>, mode: Mode) {
    table.Keys == Operations(mode) && forall op | op in table :: table[op] == mode
  }

  predicate Wired(p: Info) {
    SourceOf(p, p.mode) != 0 && p.uarg == SourceOf(p, p.mode) && TableOf(p.table, p.mode)
  }

  /** A player after a successful creation. */
  predicate Complete(p: Info) {
    Wired(p) && (p.ao != 0 <==> p.mode != UsbAudio)
  }

  function Owned(g: Slot): map<nat, Kind> {
    if g.Null? then map[]
    else
      map[g.p.self := Object, g.p.sem := Semaphore]
      + (if g.p.ao != 0 then map[g.p.ao := Output] else map[])
      + (if SourceOf(g.p, g.p.mode) != 0 then map[SourceOf(g.p, g.p.mode) := Source(g.p.mode)] else map[])
  }

  lemma OwnedBy(p: Info)
    requires Apart(p)
    ensures p.self != 0 && p.sem != 0
    ensures p.self in Owned(Ptr(p)) && Owned(Ptr(p))[p.self] == Object
    ensures p.sem in Owned(Ptr(p)) && Owned(Ptr(p))[p.sem] == Semaphore
    ensures p.ao != 0 ==> p.ao in Owned(Ptr(p)) && Owned(Ptr(p))[p.ao] == Output
    ensures SourceOf(p, p.mode) != 0 ==>
      SourceOf(p, p.mode) in Owned(Ptr(p)) && Owned(Ptr(p))[SourceOf(p, p.mode)] == Source(p.mode)
  {
    assert SourceOf(p, p.mode) !in {p.self, p.sem, p.ao} || SourceOf(p, p.mode) == 0;
  }

  lemma WithSourceIs(p: Info, mode: Mode, id: nat)
    ensures var q := WithSource(p, mode, id);
      && q.self == p.self && q.sem == p.sem && q.ao == p.ao && q.mode == p.mode
      && forall m :: SourceOf(q, m) == if m == mode then id else SourceOf(p, m)
  {
  }

  lemma WithoutSource(p: Info, mode: Mode)
    requires Apart(p) && SourceOf(p, mode) != 0
    ensures mode == p.mode && Apart(WithSource(p, mode, 0))
    ensures Owned(Ptr(WithSource(p, mode, 0))) == Owned(Ptr(p)) - {SourceOf(p, mode)}
  {
    hide SourceOf, WithSource;
    WithSourceIs(p, mode, 0);
    var q := WithSource(p, mode, 0);
    forall m ensures SourceOf(q, m) == 0 {
      assert SourceOf(p, m) != 0 ==> m == p.mode;
    }
  }

  lemma WithoutOutput(p: Info)
    requires Apart(p) && p.ao != 0
    ensures Apart(p.(ao := 0)) && Owned(Ptr(p.(ao := 0))) == Owned(Ptr(p)) - {p.ao}
  {
    forall m ensures SourceOf(p.(ao := 0), m) == SourceOf(p, m) {}
  }

  lemma NoSourceLeft(p: Info)
    requires Apart(p) && SourceOf(p, p.mode) == 0
    ensures !exists i | i in Owned(Ptr(p)) :: Owned(Ptr(p))[i].Source?
  {
  }

  lemma WithNewOutput(p: Info, id: nat)
    requires Apart(p) && p.ao == 0 && SourceOf(p, p.mode) == 0 && 0 < id && id !in Owned(Ptr(p))
    ensures Apart(p.(ao := id)) && Owned(Ptr(p.(ao := id))) == Owned(Ptr(p))[id := Output]
  {
    forall m ensures SourceOf(p.(ao := id), m) == SourceOf(p, m) {}
  }

  lemma WithNewSource(p: Info, id: nat)
    requires Apart(p) && SourceOf(p, p.mode) == 0 && 0 < id && id !in Owned(Ptr(p))
    ensures Apart(WithSource(p, p.mode, id)) && SourceOf(WithSource(p, p.mode, id), p.mode) == id
    ensures Owned(Ptr(WithSource(p, p.mode, id))) == Owned(Ptr(p))[id := Source(p.mode)]
  {
    hide SourceOf, WithSource;
    WithSourceIs(p, p.mode, id);
    OwnedBy(p);
  }

  // ----- what the application is promised

  /** What a user of the player can tell: is there one, of which mode, and is it muted. */
  datatype View = Off | On(mode: Mode, mute: bool)

  function ViewOf(g: Slot): View {
    if g.Null? then Off else On(g.p.mode, g.p.mute)
  }

  /** How the allocations of a creation turn out. */
  datatype Luck = Luck(memory: bool, semaphore: bool, output: bool, source: bool)

  datatype Event = Create(mode: Mode, luck: Luck) | Destroy | Do(op: Op) | ToggleMute

  predicate Succeeds(e: Event)
    requires e.Create?
  {
    e.luck.memory && e.luck.semaphore && (e.mode == UsbAudio || e.luck.output) && e.luck.source
  }

  predicate IsVolume(op: Op) {
    op in {VolumeInc, VolumeDec, VolumeIncBig, VolumeDecBig}
  }

  /** The event that makes the code call through a null pointer: a big volume step while the
      source is not the music player. */
  predicate Crashes(v: View, e: Event) {
    v.On? && v.mode != Mp3 && e.Do? && (e.op == VolumeIncBig || e.op == VolumeDecBig)
  }

  function After(v: View, e: Event): View {
    match e
    case Create(mode, _) => if Succeeds(e) then On(mode, false) else Off
    case Destroy => Off
    case Do(op) => if v.On? && IsVolume(op) then v.(mute := false) else v
    case ToggleMute => if v.On? then v.(mute := !v.mute) else v
  }

  /** The operation the source hears of, if it offers it. */
  function Ask(v: View, op: Op): seq<(Mode, Op)> {
    if v.On? && op in Operations(v.mode) then [(v.mode, op)] else []
  }

  /** A player is taken down: its source is stopped, the sound is off, the configuration flushed. */
  function Closed(t: Told, calls: seq<(Mode, Op)>): Told {
    Asked(t, calls, 0).(quiet := true, flushes := t.flushes + 1)
  }

  /** What comes of an event: an old source is stopped before a new one is started; a player
      that could not be completed is taken down before its source has heard anything; the start
      of the line-in source is the one call made without the semaphore. */
  function Tell(t: Told, v: View, e: Event): Told {
    match e
    case Create(mode, luck) =>
      var u := if v.On? then Closed(t, Ask(v, Stop)) else t;
      if !luck.memory || !luck.semaphore then u
      else if Succeeds(e) then Asked(u, Ask(On(mode, false), Start), if mode == Linein then 1 else 0)
      else Closed(u, [])
    case Destroy => if v.On? then Closed(t, Ask(v, Stop)) else t
    case Do(op) => Asked(t, Ask(v, op), 0)
    case ToggleMute => if v.On? then t.(quiet := !v.mute) else t
  }

  /** Two mute keys bring the flag back and leave the sound as the flag says, whatever it was;
      so nothing changes if flag and sound agreed.  A volume key clears the flag and does not
      touch the sound.  Nothing else changes either. */
  lemma MuteKeys(t: Told, v: View, op: Op)
    ensures After(After(v, ToggleMute), ToggleMute) == v
    ensures v.On? ==> After(v, ToggleMute) == On(v.mode, !v.mute) && Tell(t, v, ToggleMute) == t.(quiet := !v.mute)
    ensures var u := Tell(Tell(t, v, ToggleMute), After(v, ToggleMute), ToggleMute);
            u == (if v.On? then t.(quiet := v.mute) else t) && (v.On? && t.quiet == v.mute ==> u == t)
    ensures op in {VolumeInc, VolumeDec, VolumeIncBig, VolumeDecBig} && v.On? ==>
              After(v, Do(op)) == On(v.mode, false) && Tell(t, v, Do(op)).quiet == t.quiet
    ensures op !in {VolumeInc, VolumeDec, VolumeIncBig, VolumeDecBig} ==> After(v, Do(op)) == v
  {
    if v.On? {
      assert v.(mute := !v.mute).(mute := v.mute) == v;
    }
  }

  /** The end of a player, by a destroy or by the creation of another one: its source is stopped
      if it can be, the sound goes off and the configuration is flushed once, before anything of
      the new player; a start is told to the new source alone. */
  lemma PlayerEnds(t: Told, v: View, e: Event)
    requires v.On? && (e.Destroy? || e.Create?)
    ensures var u := Tell(t, v, e);
            var stop := if v.mode == UsbAudio then [] else [(v.mode, Stop)];
            && t.calls + stop <= u.calls && u.quiet && u.flushes >= t.flushes + 1
            && (e.Destroy? ==> u == Told(t.calls + stop, t.bare, true, t.flushes + 1) && After(v, e) == Off)
            && (e.Create? && Succeeds(e) ==>
                  && After(v, e) == On(e.mode, false) && u.flushes == t.flushes + 1
                  && u.calls == t.calls + stop + if e.mode == UsbAudio then [] else [(e.mode, Start)])
            && (e.Create? && !Succeeds(e) ==> After(v, e) == Off && u.calls == t.calls + stop)
  {
  }

  /** Which sources offer an operation. */
  lemma Offered(mode: Mode)
    ensures Start in Operations(mode) <==> mode != UsbAudio
    ensures Stop in Operations(mode) <==> mode != UsbAudio
    ensures Next in Operations(mode) <==> mode == Mp3 || mode == Fm
    ensures Prev in Operations(mode) <==> mode == Mp3 || mode == Fm
    ensures VolumeInc in Operations(mode) && VolumeDec in Operations(mode)
    ensures VolumeIncBig in Operations(mode) <==> mode == Mp3
    ensures VolumeDecBig in Operations(mode) <==> mode == Mp3
    ensures FreqInc in Operations(mode) <==> mode == Fm
    ensures FreqDec in Operations(mode) <==> mode == Fm
    ensures SetFunc in Operations(mode) <==> mode == Mp3 || mode == Fm
  {
  }

  predicate RunCrashes(v: View, es: seq<Event>)
    decreases es
  {
    es != [] && (Crashes(v, es[0]) || RunCrashes(After(v, es[0]), es[1..]))
  }

  function RunView(v: View, es: seq<Event>): View
    decreases es
  {
    if es == [] then v else RunView(After(v, es[0]), es[1..])
  }

  function RunTold(t: Told, v: View, es: seq<Event>): Told
    decreases es
  {
    if es == [] then t else RunTold(Tell(t, v, es[0]), After(v, es[0]), es[1..])
  }

  class PlayerModule {
    var g: Slot                // g_pstPlayer and what it points to
    var log: seq<Act>
    var last: nat              // the last handle given out
    ghost var world: World

    /** The log is good so far, and what exists is exactly what the player points to. */
    ghost predicate Linked()
      reads this
    {
      && Replay(log) == Good(world)
      && (forall i | i in world.live || i in world.gone :: 0 < i <= last)
      && world.live == Owned(g)
      && (g.Ptr? ==> Apart(g.p))
    }

    /** The semaphore is free, and the table is empty or belongs to the source. */
    ghost predicate Idle()
      reads this
    {
      Linked() && world.held == {} && (g.Ptr? ==> g.p.table == map[] || Wired(g.p))
    }

    /** Between events: no player, or a complete one. */
    ghost predicate Valid()
      reads this
    {
      Idle() && (g.Ptr? ==> Complete(g.p))
    }

    constructor ()
      ensures Valid() && g == Null && world == FIRST
    {
      g, log, last := Null, [], 0;
      world := FIRST;
    }

    method Record(a: Act)
      requires Replay(log) == Good(world) && Judge(world, a).Good?
      modifies this`log, this`world
      ensures log == old(log) + [a] && world == Judge(old(world), a).w && Replay(log) == Good(world)
    {
      ReplaySnoc(log, a);
      log := log + [a];
      world := Judge(world, a).w;
    }

    /** A fresh handle, or the null pointer. */
    method Allocate(kind: Kind, lucky: bool) returns (id: nat)
      requires Replay(log) == Good(world) && forall i | i in world.live || i in world.gone :: 0 < i <= last
      modifies this`log, this`world, this`last
      ensures Replay(log) == Good(world) && forall i | i in world.live || i in world.gone :: 0 < i <= last
      ensures !lucky ==> id == 0 && world == old(world)
      ensures lucky ==> id > 0 && id !in old(world).live && world == old(world).(live := old(world).live[id := kind])
    {
      if lucky {
        last := last + 1;
        Record(New(kind, last));
        id := last;
      } else {
        id := 0;
      }
    }

    /** _player_create. */
    method CreatePlayer(mode: Mode, luck: Luck) returns (s: Slot)
      requires Valid() && g == Null
      modifies this`log, this`world, this`last
      ensures luck.memory && luck.semaphore <==> s.Ptr?
      ensures s.Ptr? ==> s.p == Info(s.p.self, s.p.sem, 0, mode, 0, 0, 0, 0, 0, map[], false) && Apart(s.p)
      ensures Replay(log) == Good(world) && world.live == Owned(s) && world.held == {}
      ensures forall i | i in world.live || i in world.gone :: 0 < i <= last
      ensures world.told == old(world).told
    {
      var self := Allocate(Object, luck.memory);
      if self == 0 {
        return Null;
      }
      var sem := Allocate(Semaphore, luck.semaphore);
      if sem == 0 {
        Record(Free(Object, self));
        return Null;
      }
      s := Ptr(Info(self, sem, 0, mode, 0, 0, 0, 0, 0, map[], false));
    }

    /** hs_player_start, stop, next, prev, freqInc, freqDec and funcSet. */
    method Handle(op: Op)
      requires Idle()
      modifies this`log, this`world
      ensures Idle()
      ensures world.live == old(world).live && world.gone == old(world).gone
      ensures world.told == Asked(old(world).told, if g.Ptr? && g.p.table != map[] then Ask(ViewOf(g), op) else [], 0)
    {
      hide Owned, Apart, Replay;
      if g.Ptr? { OwnedBy(g.p); }
      if g.Null? || g.p.sem == 0 {
        return;
      }
      Record(Wait(g.p.sem));
      if op in g.p.table {
        Record(Call(g.p.table[op], op, g.p.uarg));
      }
      Record(Signal(g.p.sem));
    }

    /** hs_player_volumeInc, volumeDec, volumeIncBig and volumeDecBig: the big steps are guarded
        by the pointers of the small ones. */
    method Volume(guard: Op, op: Op) returns (crashed: bool)
      requires Valid()
      requires guard == (if op == VolumeInc || op == VolumeIncBig then VolumeInc else VolumeDec) && IsVolume(op)
      modifies this`log, this`world, this`g
      ensures crashed <==> Crashes(old(ViewOf(g)), Do(op))
      ensures crashed ==> Replay(log).Bad?
      ensures !crashed ==> Valid() && ViewOf(g) == After(old(ViewOf(g)), Do(op))
      ensures !crashed ==> world.told == Tell(old(world).told, old(ViewOf(g)), Do(op))
    {
      hide Owned, Apart, Replay, Complete, TableOf, Operations, Crashes;
      if g.Ptr? {
        OwnedBy(g.p);
        VolumeTable(g.p, guard, op);
      }
      if g.Null? || g.p.sem == 0 {
        assert !Crashes(Off, Do(op)) by { NeverCrashesOff(op); }
        return false;
      }
      Record(Wait(g.p.sem));
      if guard in g.p.table {
        g := Ptr(g.p.(mute := false));
        MuteKeeps(old(g.p), false);
        VolumeTable(g.p, guard, op);
        if op !in g.p.table {
          ReplaySnoc(log, CallNull);
          log := log + [CallNull];
          return true;
        }
        Record(Call(g.p.table[op], op, g.p.uarg));
      }
      Record(Signal(g.p.sem));
      crashed := false;
    }

    /** hs_player_mute. */
    method Mute()
      requires Valid()
      modifies this`log, this`world, this`g
      ensures Valid() && ViewOf(g) == After(old(ViewOf(g)), ToggleMute)
      ensures world == old(world).(told := Tell(old(world).told, old(ViewOf(g)), ToggleMute))
    {
      hide Owned, Apart, Replay;
      if g.Ptr? { OwnedBy(g.p); }
      if g.Null? || g.p.sem == 0 {
        return;
      }
      Record(Wait(g.p.sem));
      g := Ptr(g.p.(mute := !g.p.mute));
      MuteKeeps(old(g.p), g.p.mute);
      if g.p.mute {
        Record(Quiet(true));
      } else {
        Record(Quiet(false));
      }
      Record(Signal(g.p.sem));
    }

    /** One of hs_music_destroy, hs_fm_destroy, hs_linein_destroy, hs_usbaudio_destroy. */
    method DestroySource(mode: Mode)
      requires Linked() && g.Ptr? && world.held == {g.p.sem}
      modifies this`log, this`world, this`g
      ensures Linked() && g == Ptr(WithSource(old(g).p, mode, 0)) && world.held == {g.p.sem}
      ensures world.told == old(world).told
    {
      hide Owned, Replay, Apart;
      if SourceOf(g.p, mode) != 0 {
        SourceApart(g.p, mode);
        OwnedBy(g.p);
        WithoutSource(g.p, mode);
        Record(Free(Source(mode), SourceOf(g.p, mode)));
      }
      g := Ptr(WithSource(g.p, mode, 0));
    }

    method DestroySources()
      requires Linked() && g.Ptr? && world.held == {g.p.sem}
      modifies this`log, this`world, this`g
      ensures Linked() && g.Ptr? && SourceOf(g.p, g.p.mode) == 0 && world.held == {g.p.sem}
      ensures world.told == old(world).told
    {
      hide Linked;
      DestroySource(Mp3);
      DestroySource(Fm);
      DestroySource(Linein);
      DestroySource(UsbAudio);
    }

    /** hs_player_destroy. */
    method DestroyPlayer()
      requires Idle()
      modifies this
      ensures Valid() && g == Null
      ensures world.told ==
        if old(g).Null? then old(world).told
        else Closed(old(world).told, if old(g).p.table != map[] then Ask(old(ViewOf(g)), Stop) else [])
    {
      hide Owned, Replay, Apart, Wired;
      if g.Null? {
        return;
      }
      Record(Quiet(true));
      Handle(Stop);
      OwnedBy(g.p);
      if g.p.sem != 0 {
        Record(Wait(g.p.sem));
      }
      DestroySources();
      DestroyOutput();
      FreePlayer();
      Record(Flush);
    }

    /** hs_ao_create and its check. */
    method CreateOutput(lucky: bool)
      requires Idle() && g.Ptr? && g.p.ao == 0 && SourceOf(g.p, g.p.mode) == 0 && g.p.table == map[]
      modifies this
      ensures Idle() && world.told == (if lucky then old(world).told else Closed(old(world).told, []))
      ensures if lucky then g.Ptr? && g.p.ao != 0 && g.p == old(g).p.(ao := g.p.ao) else g == Null && Valid()
    {
      hide Owned, Replay, Apart, Wired;
      var id := Allocate(Output, lucky);
      if id != 0 {
        WithNewOutput(g.p, id);
      }
      g := Ptr(g.p.(ao := id));
      if g.p.ao == 0 {
        DestroyPlayer();
      }
    }

    /** hs_music_create, hs_fm_create, hs_linein_create or hs_usbaudio_create, and its check. */
    method CreateSource(lucky: bool)
      requires Idle() && g.Ptr? && SourceOf(g.p, g.p.mode) == 0 && g.p.table == map[]
      modifies this
      ensures Idle() && world.told == (if lucky then old(world).told else Closed(old(world).told, []))
      ensures if lucky then g.Ptr? && g == Ptr(WithSource(old(g).p, old(g).p.mode, SourceOf(g.p, g.p.mode)))
                            && SourceOf(g.p, g.p.mode) != 0
              else g == Null && Valid()
    {
      hide Owned, Replay, Apart, Wired;
      var id := Allocate(Source(g.p.mode), lucky);
      if id != 0 {
        WithNewSource(g.p, id);
      }
      g := Ptr(WithSource(g.p, g.p.mode, id));
      if SourceOf(g.p, g.p.mode) == 0 {
        DestroyPlayer();
      }
    }

    /** _player_initMusicOper, initFmOper, initLineinOper and initUsbaudioOper. */
    method InitOper()
      requires Idle() && g.Ptr? && SourceOf(g.p, g.p.mode) != 0 && (g.p.ao != 0 <==> g.p.mode != UsbAudio)
      requires g.p.table == map[]
      modifies this`g
      ensures Valid() && g.Ptr? && g.p == old(g).p.(table := g.p.table, uarg := SourceOf(g.p, g.p.mode))
    {
      hide Owned, Replay, Apart;
      var m := g.p.mode;
      var table := match m
        case Mp3 => map[Start := m, Stop := m, Next := m, Prev := m, VolumeInc := m, VolumeDec := m,
                        VolumeIncBig := m, VolumeDecBig := m, SetFunc := m]
        case Fm => map[Start := m, Stop := m, Next := m, Prev := m, VolumeInc := m, VolumeDec := m,
                       FreqInc := m, FreqDec := m, SetFunc := m]
        case Linein => map[Start := m, Stop := m, VolumeInc := m, VolumeDec := m]
        case UsbAudio => map[VolumeInc := m, VolumeDec := m];
      TableSetKeeps(g.p, table, SourceOf(g.p, m));
      g := Ptr(g.p.(table := table, uarg := SourceOf(g.p, m)));
    }

    /** The start at the end of a creation: through the handler for music and FM, directly for
        line-in, not at all for USB audio. */
    method StartSource()
      requires Valid() && g.Ptr?
      modifies this`log, this`world
      ensures Valid()
      ensures world.told == Asked(old(world).told, Ask(ViewOf(g), Start), if g.p.mode == Linein then 1 else 0)
    {
      hide Owned, Replay, Apart;
      OwnedBy(g.p);
      if g.p.mode == Mp3 || g.p.mode == Fm {
        Handle(Start);
      } else if g.p.mode == Linein {
        Record(Call(Linein, Start, g.p.linein));
      }
    }

    /** hs_player_createMusic, createFm, createAux and createUsbaudio. */
    method CreateMode(mode: Mode, luck: Luck)
      requires Valid()
      modifies this
      ensures Valid() && ViewOf(g) == After(old(ViewOf(g)), Create(mode, luck))
      ensures world.told == Tell(old(world).told, old(ViewOf(g)), Create(mode, luck))
    {
      hide Owned, Replay, Apart, TableOf, Operations;
      if g.Ptr? {
        FullTable(g.p);
        DestroyPlayer();
      }
      g := CreatePlayer(mode, luck);
      if g.Null? {
        return;
      }
      if mode != UsbAudio {
        CreateOutput(luck.output);
        if g.Null? {
          return;
        }
      }
      CreateSource(luck.source);
      if g.Null? {
        return;
      }
      InitOper();
      StartSource();
    }

    method Step(e: Event) returns (crashed: bool)
      requires Valid()
      modifies this
      ensures crashed <==> Crashes(old(ViewOf(g)), e)
      ensures crashed ==> Replay(log).Bad?
      ensures !crashed ==> Valid() && ViewOf(g) == After(old(ViewOf(g)), e)
      ensures !crashed ==> world.told == Tell(old(world).told, old(ViewOf(g)), e)
    {
      hide Owned, Replay, Apart, TableOf, Operations;
      crashed := false;
      if g.Ptr? {
        FullTable(g.p);
      }
      match e {
        case Create(mode, luck) => CreateMode(mode, luck);
        case Destroy => DestroyPlayer();
        case ToggleMute => Mute();
        case Do(op) =>
          if op == VolumeInc || op == VolumeIncBig {
            crashed := Volume(VolumeInc, op);
          } else if op == VolumeDec || op == VolumeDecBig {
            crashed := Volume(VolumeDec, op);
          } else {
            Handle(op);
          }
      }
    }

    /** Any run: the monitor rejects it exactly when a big volume step meets a source other than
        the music player.  Otherwise what exists at the end is the one player the events leave,
        and the sources, the sound and the configuration were told exactly what they should be. */
    method Run(es: seq<Event>) returns (crashed: bool)
      requires Valid()
      modifies this
      ensures crashed <==> RunCrashes(old(ViewOf(g)), es)
      ensures crashed ==> Replay(log).Bad?
      ensures !crashed ==> Valid() && Replay(log).Good? && Replay(log).w.live == Owned(g)
      ensures !crashed ==> ViewOf(g) == RunView(old(ViewOf(g)), es)
      ensures !crashed ==> Replay(log).w.told == RunTold(old(world).told, old(ViewOf(g)), es)
    {
      hide Crashes, After, Tell, Owned, ViewOf, Replay;
      var i := 0;
      while i < |es|
        invariant 0 <= i <= |es| && Valid()
        invariant RunCrashes(ViewOf(g), es[i..]) == RunCrashes(old(ViewOf(g)), es)
        invariant RunView(ViewOf(g), es[i..]) == RunView(old(ViewOf(g)), es)
        invariant RunTold(world.told, ViewOf(g), es[i..]) == RunTold(old(world).told, old(ViewOf(g)), es)
      {
        RunStep(world.told, ViewOf(g), es, i);
        crashed := Step(es[i]);
        if crashed {
          return;
        }
        i := i + 1;
      }
      crashed := false;
    }

    /** hs_ao_destroy. */
    method DestroyOutput()
      requires Linked() && g.Ptr? && world.held == {g.p.sem} && SourceOf(g.p, g.p.mode) == 0
      modifies this`log, this`world, this`g
      ensures Linked() && g == Ptr(old(g).p.(ao := 0)) && world.held == {g.p.sem}
      ensures world.told == old(world).told
    {
      hide Owned, Replay, Apart;
      OwnedBy(g.p);
      if g.p.ao != 0 {
        OutputApart(g.p);
        NoSourceLeft(g.p);
        WithoutOutput(g.p);
        Record(Free(Output, g.p.ao));
      }
      g := Ptr(g.p.(ao := 0));
    }

    /** The release of the semaphore and _player_destroy. */
    method FreePlayer()
      requires Linked() && g.Ptr? && world.held == {g.p.sem} && g.p.ao == 0 && SourceOf(g.p, g.p.mode) == 0
      modifies this`log, this`world, this`g
      ensures Valid() && g == Null && world.live == map[]
      ensures world.told == old(world).told
    {
      hide Replay, SourceOf;
      OwnedBy(g.p);
      if g.p.sem != 0 {
        Record(Signal(g.p.sem));
      }
      if g.p.sem != 0 {
        Record(Free(Semaphore, g.p.sem));
      }
      Record(Free(Object, g.p.self));
      g := Null;
    }
  }

  lemma RunStep(t: Told, v: View, es: seq<Event>, i: nat)
    requires i < |es|
    ensures RunCrashes(v, es[i..]) == (Crashes(v, es[i]) || RunCrashes(After(v, es[i]), es[i + 1..]))
    ensures RunView(v, es[i..]) == RunView(After(v, es[i]), es[i + 1..])
    ensures RunTold(t, v, es[i..]) == RunTold(Tell(t, v, es[i]), After(v, es[i]), es[i + 1..])
  {
    assert es[i..][0] == es[i] && es[i..][1..] == es[i + 1..];
  }

  /** A run crashes exactly when one of its events does, in the view the events before it left. */
  lemma {:induction false} RunCrashesIff(v: View, es: seq<Event>)
    ensures RunCrashes(v, es) <==> exists i | 0 <= i < |es| :: Crashes(RunView(v, es[..i]), es[i])
    decreases es
  {
    if es != [] {
      hide Crashes, After;
      var v', rest := After(v, es[0]), es[1..];
      RunCrashesIff(v', rest);
      assert es[..0] == [];
      forall i | 0 <= i < |rest| ensures RunView(v, es[..i + 1]) == RunView(v', rest[..i]) && es[i + 1] == rest[i] {
        assert es[..i + 1][1..] == rest[..i];
      }
      forall i | 0 < i < |es| ensures RunView(v, es[..i]) == RunView(v', rest[..i - 1]) && es[i] == rest[i - 1] {
        assert es[..i][1..] == rest[..i - 1];
      }
      if RunCrashes(v', rest) {
        var i :| 0 <= i < |rest| && Crashes(RunView(v', rest[..i]), rest[i]);
        assert Crashes(RunView(v, es[..i + 1]), es[i + 1]);
      }
    }
  }

  /** The radio is on and the volume key is held down. */
  lemma BigStepOnRadio()
    ensures RunCrashes(Off, [Create(Fm, Luck(true, true, true, true)), Do(VolumeIncBig)])
  {
    var es := [Create(Fm, Luck(true, true, true, true)), Do(VolumeIncBig)];
    assert es[1..] == [Do(VolumeIncBig)];
    assert Crashes(After(Off, es[0]), es[1..][0]);
  }

  lemma FullTable(p: Info)
    requires Complete(p)
    ensures p.table != map[]
  {
    assert VolumeInc in Operations(p.mode);
  }

  lemma TableSetKeeps(p: Info, table: map<Op, Mode>, uarg: nat)
    ensures var q := p.(table := table, uarg := uarg);
      && Owned(Ptr(q)) == Owned(Ptr(p)) && (Apart(p) ==> Apart(q)) && SourceOf(q, p.mode) == SourceOf(p, p.mode)
  {
    forall m ensures SourceOf(p.(table := table, uarg := uarg), m) == SourceOf(p, m) {}
  }

  lemma MuteKeeps(p: Info, mute: bool)
    ensures Owned(Ptr(p.(mute := mute))) == Owned(Ptr(p))
    ensures Apart(p) ==> Apart(p.(mute := mute))
    ensures Complete(p) ==> Complete(p.(mute := mute))
  {
    forall m ensures SourceOf(p.(mute := mute), m) == SourceOf(p, m) {}
  }

  lemma VolumeTable(p: Info, guard: Op, op: Op)
    requires Complete(p) && guard in {VolumeInc, VolumeDec} && IsVolume(op)
    ensures guard in p.table && (op in p.table <==> op in Operations(p.mode))
    ensures op in p.table ==> p.table[op] == p.mode
    ensures op in p.table <==> !Crashes(On(p.mode, p.mute), Do(op))
    ensures Wired(p)
  {
  }

  lemma NeverCrashesOff(op: Op)
    ensures !Crashes(Off, Do(op))
  {
  }

  lemma OutputApart(p: Info)
    requires Apart(p) && p.ao != 0
    ensures p.ao != p.sem
  {
  }

  lemma SourceApart(p: Info, mode: Mode)
    requires Apart(p) && SourceOf(p, mode) != 0
    ensures mode == p.mode && SourceOf(p, mode) !in {p.self, p.sem, p.ao}
  {
  }
}

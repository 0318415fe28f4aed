/** The power-off countdown (lib/drvhal/drvhal.c): a timer counts scans; a near-empty battery sets
    a deadline, and a charging message, if it is listened to, clears it.  The guarantee is
    stated over the history of events, without the counter and the deadline. */
module AutoPowerOff {
  import Bytes

  datatype Event =
    | Scan
    | NearEmpty(registered: bool)    // does hs_cfg_sysListenMsg find memory for a new listener?
    | Charging

  datatype Request = Tick | AudioStop | PrePowerOff | PowerOff(kind: nat)

  // ----- the history

  function Scans(es: seq<Event>): nat {
    if es == [] then 0 else Scans(es[..|es| - 1]) + if es[|es| - 1].Scan? then 1 else 0
  }

  /** Someone listens for the charger: a registration succeeded and no charging message came
      since. */
  ghost predicate Listening(es: seq<Event>) {
    exists i | 0 <= i < |es| :: es[i] == NearEmpty(true) && NoCharging(es, i)
  }

  predicate NoCharging(es: seq<Event>, i: int) {
    forall j | i < j < |es| && 0 <= j :: !es[j].Charging?
  }

  /** Event i is the latest near-empty event. */
  predicate Latest(es: seq<Event>, i: int) {
    0 <= i < |es| && es[i].NearEmpty? && forall j | i < j < |es| :: !es[j].NearEmpty?
  }

  /** No charging message since event i was heard. */
  ghost predicate Unheard(es: seq<Event>, i: int) {
    forall j | i < j < |es| && 0 <= j :: es[j].Charging? ==> !Listening(es[..j])
  }

  ghost predicate ArmedAt(es: seq<Event>, i: int) {
    Latest(es, i) && Unheard(es, i)
  }

  /** The count at which event i asks to power off. */
  function Deadline(es: seq<Event>, i: int, delay: nat): nat
    requires 0 <= i < |es|
  {
    (Scans(es[..i]) + delay * 10) % 0x1_0000_0000
  }

  /** The next scan requests the power-off. */
  ghost predicate Due(es: seq<Event>, delay: nat) {
    exists i | 0 <= i < |es| ::
      ArmedAt(es, i) && Deadline(es, i, delay) != 0 && Deadline(es, i, delay) == (Scans(es) + 1) % 0x1_0000_0000
  }

  lemma ScansSnoc(es: seq<Event>, e: Event)
    ensures Scans(es + [e]) == Scans(es) + if e.Scan? then 1 else 0
  {
    assert (es + [e])[..|es|] == es;
  }

  lemma {:induction false} ScansSplit(es: seq<Event>, i: nat)
    requires i <= |es|
    ensures Scans(es) == Scans(es[..i]) + Scans(es[i..])
  {
    if i == |es| {
      assert es[..i] == es && es[i..] == [];
    } else {
      var n := |es| - 1;
      ScansSplit(es[..n], i);
      assert es[..n][..i] == es[..i];
      assert es[i..][..n - i] == es[..n][i..];
      assert es[i..][n - i] == es[n];
    }
  }

  lemma ListeningSnoc(es: seq<Event>, e: Event)
    ensures Listening(es + [e]) <==> match e
      case Scan => Listening(es)
      case NearEmpty(ok) => ok || Listening(es)
      case Charging => false
  {
    var fs := es + [e];
    if Listening(es) && !e.Charging? {
      var i :| 0 <= i < |es| && es[i] == NearEmpty(true) && NoCharging(es, i);
      assert fs[i] == NearEmpty(true) && NoCharging(fs, i);
    }
    if e == NearEmpty(true) {
      assert fs[|es|] == e && NoCharging(fs, |es|);
    }
    if Listening(fs) {
      var i :| 0 <= i < |fs| && fs[i] == NearEmpty(true) && NoCharging(fs, i);
      assert fs[|es|] == e;
      if i < |es| {
        assert es[i] == NearEmpty(true);
        forall j | i < j < |es| ensures !es[j].Charging? {
          assert fs[j] == es[j];
        }
        assert NoCharging(es, i);
      }
    }
  }

  lemma UnheardSnoc(es: seq<Event>, e: Event, i: int)
    requires 0 <= i < |es|
    ensures Unheard(es + [e], i) <==> Unheard(es, i) && !(e.Charging? && Listening(es))
  {
    var fs := es + [e];
    assert fs[..|es|] == es && fs[|es|] == e;
    forall j | i < j < |es| ensures fs[j] == es[j] && fs[..j] == es[..j] {}
  }

  lemma LatestSnoc(es: seq<Event>, e: Event, i: int)
    ensures Latest(es + [e], i) <==> if e.NearEmpty? then i == |es| else Latest(es, i)
  {
    var fs := es + [e];
    assert fs[|es|] == e;
    forall j | 0 <= j < |es| ensures fs[j] == es[j] {}
  }

  lemma ArmedSnoc(es: seq<Event>, e: Event, i: int)
    ensures ArmedAt(es + [e], i) <==>
      if e.NearEmpty? then i == |es| else ArmedAt(es, i) && !(e.Charging? && Listening(es))
  {
    LatestSnoc(es, e, i);
    if 0 <= i < |es| {
      UnheardSnoc(es, e, i);
    }
  }

  // ----- the countdown

  class Drvhal {
    var cnt: nat               // u32Cnt
    var nextPoint: nat         // u32NextPoint
    var listening: bool        // is _drvhal_autoPowerCharging registered?
    var requests: seq<Request>
    const delay: nat           // u16PdDelay, seconds
    const kind: nat            // u8PdType
    ghost var history: seq<Event>

    /** Counter, deadline and listener say what the history says. */
    ghost predicate Valid()
      reads this
    {
      && cnt == Scans(history) % 0x1_0000_0000
      && listening == Listening(history)
      && (forall i | 0 <= i < |history| && ArmedAt(history, i) :: nextPoint == Deadline(history, i, delay))
      && ((forall i :: !ArmedAt(history, i)) ==> nextPoint == 0)
    }

    constructor (delay: nat, kind: nat)
      requires delay < 0x1_0000
      ensures Valid() && history == [] && requests == [] && this.delay == delay && this.kind == kind
    {
      cnt, nextPoint, listening, requests := 0, 0, false, [];
      this.delay, this.kind := delay, kind;
      history := [];
    }

    /** _drvhal_scan, without the device scans. */
    method DoScan() returns (off: bool)
      requires Valid()
      modifies this
      ensures Valid() && history == old(history) + [Scan]
      ensures off <==> Due(old(history), delay)
      ensures requests == old(requests)
        + (if (Scans(history) % 0x1_0000_0000) % 20 == 0 then [Tick] else [])
        + (if off then [AudioStop, PrePowerOff, PowerOff(kind)] else [])
    {
      hide Scans, Listening, ArmedAt, Deadline, Due;
      Bytes.Mod32Add(Scans(history), 1);
      cnt := (cnt + 1) % 0x1_0000_0000;
      if cnt % 20 == 0 {
        requests := requests + [Tick];
      }
      off := nextPoint != 0 && nextPoint == cnt;
      if off {
        requests := requests + [AudioStop, PrePowerOff, PowerOff(kind)];
      }
      ScansSnoc(history, Scan);
      DueIs(history, delay, nextPoint);
      Advance(history, Scan, delay);
      history := history + [Scan];
    }

    /** _drvhal_autoPowerOff. */
    method DoNearEmpty(registered: bool)
      requires Valid()
      modifies this
      ensures Valid() && history == old(history) + [NearEmpty(registered)] && requests == old(requests)
    {
      hide Scans, Listening, ArmedAt, Deadline;
      Bytes.Mod32Add(Scans(history), delay * 10);
      nextPoint := (cnt + delay * 10) % 0x1_0000_0000;
      listening := listening || registered;
      Advance(history, NearEmpty(registered), delay);
      history := history + [NearEmpty(registered)];
      assert ArmedAt(history, |history| - 1);
    }

    /** A charging message; _drvhal_autoPowerCharging runs only if it is registered. */
    method DoCharging()
      requires Valid()
      modifies this
      ensures Valid() && history == old(history) + [Charging] && requests == old(requests)
    {
      hide Scans, Listening, ArmedAt, Deadline;
      if listening {
        nextPoint := 0;
        listening := false;
      }
      Advance(history, Charging, delay);
      history := history + [Charging];
    }

    /** Any run: power-off is requested at exactly the scans that are due by the history. */
    method Run(es: seq<Event>) returns (offs: seq<nat>)
      requires Valid() && history == []
      modifies this
      ensures Valid() && history == es
      ensures forall k: nat :: k in offs <==> k < |es| && es[k].Scan? && Due(es[..k], delay)
    {
      hide Scans, Listening, ArmedAt, Deadline, Due, Valid;
      offs := [];
      var k := 0;
      while k < |es|
        invariant 0 <= k <= |es| && Valid() && history == es[..k]
        invariant forall j: nat :: j in offs <==> j < k && es[j].Scan? && Due(es[..j], delay)
      {
        assert es[..k + 1] == es[..k] + [es[k]];
        match es[k] {
          case Scan =>
            var off := DoScan();
            if off {
              offs := offs + [k];
            }
          case NearEmpty(registered) => DoNearEmpty(registered);
          case Charging => DoCharging();
        }
        k := k + 1;
      }
      assert es[..k] == es;
    }
  }

  /** What one more event changes. */
  lemma Advance(es: seq<Event>, e: Event, delay: nat)
    ensures Scans(es + [e]) == Scans(es) + if e.Scan? then 1 else 0
    ensures Listening(es + [e]) <==> if e.Scan? then Listening(es) else e.NearEmpty? && (e.registered || Listening(es))
    ensures forall i :: ArmedAt(es + [e], i) <==>
      if e.NearEmpty? then i == |es| else ArmedAt(es, i) && !(e.Charging? && Listening(es))
    ensures forall i | ArmedAt(es, i) :: 0 <= i < |es|
    ensures forall i | 0 <= i < |es| :: Deadline(es + [e], i, delay) == Deadline(es, i, delay)
    ensures Deadline(es + [e], |es|, delay) == (Scans(es) + delay * 10) % 0x1_0000_0000
  {
    hide Scans, Listening, Unheard;
    ScansSnoc(es, e);
    ListeningSnoc(es, e);
    forall i ensures ArmedAt(es + [e], i) <==>
      if e.NearEmpty? then i == |es| else ArmedAt(es, i) && !(e.Charging? && Listening(es))
    {
      ArmedSnoc(es, e, i);
    }
    forall i | 0 <= i <= |es| ensures (es + [e])[..i] == es[..i] {}
    assert es[..|es|] == es;
  }

  lemma ArmedInside(es: seq<Event>, i: int)
    requires ArmedAt(es, i)
    ensures 0 <= i < |es|
  {
  }

  lemma DueIs(es: seq<Event>, delay: nat, nextPoint: nat)
    requires forall i | 0 <= i < |es| && ArmedAt(es, i) :: nextPoint == Deadline(es, i, delay)
    requires (forall i :: !ArmedAt(es, i)) ==> nextPoint == 0
    ensures Due(es, delay) <==> nextPoint != 0 && nextPoint == (Scans(es) + 1) % 0x1_0000_0000
  {
    hide Scans, Deadline, ArmedAt;
    if nextPoint != 0 && nextPoint == (Scans(es) + 1) % 0x1_0000_0000 {
      var i :| ArmedAt(es, i);
      ArmedInside(es, i);
    }
  }

  // ----- whole runs

  /** While no new near-empty event comes, the listener stays until the first charging message. */
  lemma {:induction false} ListeningKeeps(es: seq<Event>, i: int)
    requires Latest(es, i)
    ensures Listening(es) <==> Listening(es[..i + 1]) && NoCharging(es, i)
  {
    var n := |es| - 1;
    assert es == es[..n] + [es[n]];
    if i == n {
      assert es[..i + 1] == es;
    } else {
      hide Listening;
      LatestSnoc(es[..n], es[n], i);
      ListeningKeeps(es[..n], i);
      ListeningSnoc(es[..n], es[n]);
      assert es[..n][..i + 1] == es[..i + 1];
    }
  }

  /** Charging messages go unheard exactly when there is none, or when nobody listened once the
      deadline was set. */
  lemma {:induction false} UnheardIff(es: seq<Event>, i: int)
    requires Latest(es, i)
    ensures Unheard(es, i) <==> NoCharging(es, i) || !Listening(es[..i + 1])
  {
    var n := |es| - 1;
    if i < n {
      hide Listening;
      assert es == es[..n] + [es[n]];
      LatestSnoc(es[..n], es[n], i);
      UnheardIff(es[..n], i);
      UnheardSnoc(es[..n], es[n], i);
      ListeningKeeps(es[..n], i);
      assert es[..n][..i + 1] == es[..i + 1];
    }
  }

  /** An armed deadline has its charging listener exactly when there was one right after it was
      set. */
  lemma ArmedListens(es: seq<Event>, i: int)
    requires ArmedAt(es, i)
    ensures Listening(es) <==> Listening(es[..i + 1])
  {
    ListeningKeeps(es, i);
    UnheardIff(es, i);
  }

  lemma ListensIfRegistered(es: seq<Event>, i: int)
    requires 0 <= i < |es| && es[i] == NearEmpty(true)
    ensures Listening(es[..i + 1])
  {
    assert es[..i + 1] == es[..i] + [es[i]];
    ListeningSnoc(es[..i], es[i]);
  }

  /** A registration that fails: the deadline is set, nobody listens, and the charger does not
      clear it. */
  lemma DeafArming()
    ensures ArmedAt([NearEmpty(false)], 0) && !Listening([NearEmpty(false)])
    ensures ArmedAt([NearEmpty(false), Charging], 0)
  {
    var es := [NearEmpty(false), Charging];
    assert es[..1] == [NearEmpty(false)];
    assert Latest(es, 0);
  }

  lemma ReachedOnce(s: nat, k: nat, d: nat)
    requires 0 < d < 0x1_0000_0000 && s + k + 1 < 0x1_0000_0000
    ensures (s + d) % 0x1_0000_0000 != 0 && (s + d) % 0x1_0000_0000 == (s + k + 1) % 0x1_0000_0000 <==> k + 1 == d
  {
    assert (s + k + 1) % 0x1_0000_0000 == s + k + 1;
    if s + d < 0x1_0000_0000 {
      assert (s + d) % 0x1_0000_0000 == s + d;
    } else {
      assert (s + d) % 0x1_0000_0000 == s + d - 0x1_0000_0000;
    }
  }

  lemma DeadlineExact(es: seq<Event>, i: int, delay: nat)
    requires 0 <= i < |es| && 1 <= delay < 0x1_0000 && Scans(es) + 1 < 0x1_0000_0000
    ensures Deadline(es, i, delay) != 0 && Deadline(es, i, delay) == (Scans(es) + 1) % 0x1_0000_0000
      <==> Scans(es[i..]) + 1 == delay * 10
  {
    hide Scans;
    ScansSplit(es, i);
    ReachedOnce(Scans(es[..i]), Scans(es[i..]), delay * 10);
  }

  /** Until the counter wraps, a scan requests the power-off exactly when the latest near-empty
      event was 10 * delay scans before it and no charging message came since that was listened
      to; and messages are listened to as soon as a registration succeeded. */
  lemma CountdownLaw(es: seq<Event>, delay: nat)
    requires 1 <= delay < 0x1_0000 && Scans(es) + 1 < 0x1_0000_0000
    ensures Due(es, delay) <==>
      exists i | 0 <= i < |es| ::
        Latest(es, i) && Scans(es[i..]) + 1 == delay * 10 && (NoCharging(es, i) || !Listening(es[..i + 1]))
  {
    forall i | Latest(es, i)
      ensures ArmedAt(es, i) <==> NoCharging(es, i) || !Listening(es[..i + 1])
      ensures Deadline(es, i, delay) != 0 && Deadline(es, i, delay) == (Scans(es) + 1) % 0x1_0000_0000
        <==> Scans(es[i..]) + 1 == delay * 10
    {
      UnheardIff(es, i);
      DeadlineExact(es, i, delay);
    }
    hide Scans, Listening, Unheard, Deadline, NoCharging, Latest;
    if Due(es, delay) {
      var i :| 0 <= i < |es| && ArmedAt(es, i) && Deadline(es, i, delay) != 0
        && Deadline(es, i, delay) == (Scans(es) + 1) % 0x1_0000_0000;
      assert Latest(es, i);
    }
    forall i | 0 <= i < |es| && Latest(es, i) && Scans(es[i..]) + 1 == delay * 10
        && (NoCharging(es, i) || !Listening(es[..i + 1]))
      ensures Due(es, delay)
    {
      assert ArmedAt(es, i);
    }
  }

  /** If the registration of the latest near-empty event succeeded, this is plainly: 10 * delay
      scans after it, with no charging message since. */
  lemma CountdownRegistered(es: seq<Event>, delay: nat)
    requires 1 <= delay < 0x1_0000 && Scans(es) + 1 < 0x1_0000_0000
    requires forall i | Latest(es, i) :: es[i] == NearEmpty(true)
    ensures Due(es, delay) <==>
      exists i | 0 <= i < |es| :: Latest(es, i) && Scans(es[i..]) + 1 == delay * 10 && NoCharging(es, i)
  {
    hide Scans, Listening, Due, NoCharging;
    CountdownLaw(es, delay);
    forall i | Latest(es, i) ensures 0 <= i < |es| && Listening(es[..i + 1]) {
      ListensIfRegistered(es, i);
    }
  }

  lemma {:induction false} ScansGrow(es: seq<Event>, a: nat, b: nat)
    requires a < b <= |es| && es[a].Scan?
    ensures Scans(es[..a]) < Scans(es[..b])
  {
    assert es[..b] == es[..b - 1] + [es[b - 1]];
    ScansSnoc(es[..b - 1], es[b - 1]);
    if a < b - 1 {
      ScansGrow(es, a, b - 1);
    }
  }

  lemma LatestPrefix(es: seq<Event>, a: nat, b: nat, i: int, j: int)
    requires a <= b <= |es| && Latest(es[..a], i) && Latest(es[..b], j)
    requires forall k | a <= k < b :: !es[k].NearEmpty?
    ensures i == j
  {
    assert forall k | 0 <= k < a :: es[..a][k] == es[k];
    assert forall k | 0 <= k < b :: es[..b][k] == es[k];
  }

  /** Two requests of one arming are a whole turn of the counter apart. */
  lemma OncePerArming(es: seq<Event>, a: nat, b: nat, delay: nat)
    requires a < b <= |es| && es[a].Scan? && Due(es[..a], delay) && Due(es[..b], delay)
    requires forall k | a <= k < b :: !es[k].NearEmpty?
    ensures Scans(es[..b]) - Scans(es[..a]) >= 0x1_0000_0000
  {
    hide Scans, Unheard, Latest, Deadline;
    var i :| 0 <= i < a && ArmedAt(es[..a], i) && Deadline(es[..a], i, delay) == (Scans(es[..a]) + 1) % 0x1_0000_0000;
    var j :| 0 <= j < b && ArmedAt(es[..b], j) && Deadline(es[..b], j, delay) == (Scans(es[..b]) + 1) % 0x1_0000_0000;
    LatestPrefix(es, a, b, i, j);
    SameDeadline(es, a, b, i, delay);
    ScansGrow(es, a, b);
    WholeTurn(Scans(es[..a]), Scans(es[..b]));
  }

  lemma SameDeadline(es: seq<Event>, a: nat, b: nat, i: nat, delay: nat)
    requires i < a < b <= |es|
    ensures Deadline(es[..a], i, delay) == Deadline(es[..b], i, delay)
  {
    hide Scans;
    assert es[..a][..i] == es[..i] == es[..b][..i];
  }

  lemma WholeTurn(x: nat, y: nat)
    requires x < y && (x + 1) % 0x1_0000_0000 == (y + 1) % 0x1_0000_0000
    ensures y - x >= 0x1_0000_0000
  {
  }
}

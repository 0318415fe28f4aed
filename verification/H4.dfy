/** HCI packets on their way to the Bluetooth controller: the serial reassembler
    (lib/bt/libhal/bt_vhci_usb.c) and the host's whole-packet path
    (lib/bt/libhal/bt_vhci_cl.c).  Packet layouts follow section 5.4 of the HCI Functional
    Specification, behind the packet indicators of the H4 transport. */
module H4 {
  import opened Bytes

  const COMMAND: byte := 1
  const ACLDATA: byte := 2
  const SCODATA: byte := 3
  const EVENT: byte := 4

  const MAX_PKT_SIZE: int := 1024

  predicate Indicator(b: byte) {
    1 <= b <= 4
  }

  /** Bytes up to and including the length field, the indicator counted in. */
  function HeadLen(kind: byte): (n: nat)
    ensures 3 <= n <= 5
  {
    if kind == ACLDATA then 5 else if kind == EVENT then 3 else 4
  }

  /** The payload length announced by a complete head. */
  function PayloadLen(b: seq<byte>): (n: nat)
    requires |b| > 0 && |b| >= HeadLen(b[0])
  {
    if b[0] == ACLDATA then b[3] as int + 256 * (b[4] as int) else if b[0] == EVENT then b[2] else b[3]
  }

  datatype Packet = Packet(kind: byte, head: seq<byte>, payload: seq<byte>)

  function Encode(p: Packet): seq<byte> {
    [p.kind] + p.head + p.payload
  }

  predicate WellFormed(p: Packet) {
    && Indicator(p.kind) && |p.head| == HeadLen(p.kind) - 1
    && |p.payload| == PayloadLen([p.kind] + p.head)
    && HeadLen(p.kind) + |p.payload| <= MAX_PKT_SIZE
  }

  // ----- what a byte stream means

  datatype Parsed = Parsed(packets: seq<Packet>, rest: seq<byte>)

  /** The packets in a byte stream and the unfinished one at its end.  Bytes that are no
      indicator are skipped; of a packet announcing more than 1024 payload bytes only the
      head is skipped. */
  function Parse(b: seq<byte>): (r: Parsed)
    decreases |b|
  {
    if |b| == 0 then Parsed([], [])
    else if !Indicator(b[0]) then Parse(b[1..])
    else
      var h := HeadLen(b[0]);
      if |b| < h then Parsed([], b)
      else
        var n := PayloadLen(b);
        if n > MAX_PKT_SIZE then Parse(b[h..])
        else if |b| < h + n then Parsed([], b)
        else
          var r := Parse(b[h + n..]);
          Parsed([Packet(b[0], b[1..h], b[h..h + n])] + r.packets, r.rest)
  }

  function Least(a: int, b: int): int {
    if a < b then a else b
  }

  function Most(a: int, b: int): int {
    if a < b then b else a
  }

  /** The length of the piece that the reassembler takes from the front of a stream, 0 if the
      piece is not complete. */
  function Front(b: seq<byte>): (k: nat)
    requires |b| > 0
    ensures k <= |b|
  {
    if !Indicator(b[0]) then 1
    else
      var h := HeadLen(b[0]);
      if |b| < h then 0
      else if PayloadLen(b) > MAX_PKT_SIZE then h
      else if |b| < h + PayloadLen(b) then 0 else h + PayloadLen(b)
  }

  /** How many cells of the receive buffer a stream fills: every piece is collected from the
      first cell on. */
  function Cells(b: seq<byte>): (n: nat)
    decreases |b|
  {
    if |b| == 0 then 0
    else if Front(b) == 0 then |b|
    else Most(Front(b), Cells(b[Front(b)..]))
  }

  // ----- the controller

  /** A packet handed to the controller: requested buffer size, head and payload. */
  datatype Delivery = Delivery(kind: byte, size: nat, head: seq<byte>, payload: seq<byte>)

  /** The controller's command queue counts the three command header bytes in. */
  function DeliveryOf(p: Packet): Delivery {
    Delivery(p.kind, |p.payload| + (if p.kind == COMMAND then 3 else 0), p.head, p.payload)
  }

  datatype Request = Request(kind: byte, size: nat, head: seq<byte>)

  function RequestOf(p: Packet): Request {
    Request(p.kind, DeliveryOf(p).size, p.head)
  }

  /** The controller; `accept` settles in advance which requests get a buffer. */
  class Controller {
    const accept: seq<bool>
    var requests: seq<Request>
    var committed: seq<Delivery>

    constructor (accept: seq<bool>)
      ensures this.accept == accept && requests == [] && committed == []
    {
      this.accept := accept;
      requests, committed := [], [];
    }

    method GetRxBuf(kind: byte, size: nat, head: seq<byte>) returns (ok: bool)
      modifies this`requests
      ensures requests == old(requests) + [Request(kind, size, head)]
      ensures ok == Accepts(accept, |old(requests)|)
    {
      ok := Accepts(accept, |requests|);
      requests := requests + [Request(kind, size, head)];
    }

    method Commit(d: Delivery)
      modifies this`committed
      ensures committed == old(committed) + [d]
    {
      committed := committed + [d];
    }
  }

  function Accepts(accept: seq<bool>, k: nat): bool {
    k < |accept| && accept[k]
  }

  /** Of packets offered one by one, starting with request number `k`, those taken. */
  function Taken(packets: seq<Packet>, accept: seq<bool>, k: nat): (d: seq<Delivery>) {
    if packets == [] then []
    else (if Accepts(accept, k) then [DeliveryOf(packets[0])] else []) + Taken(packets[1..], accept, k + 1)
  }

  function Requests(packets: seq<Packet>): (r: seq<Request>)
    ensures |r| == |packets|
  {
    if packets == [] then [] else [RequestOf(packets[0])] + Requests(packets[1..])
  }

  // ----- the serial port

  /** How many of the first `k` reads are no timeouts. */
  function Productive(plan: seq<nat>, k: nat): (n: nat)
    requires k <= |plan|
  {
    if k == 0 then 0 else Productive(plan, k - 1) + if plan[k - 1] > 0 then 1 else 0
  }

  /** Input bytes, and how many of them each read may deliver (0 is a timeout).  The run
      ends when the schedule does. */
  class SerialPort {
    const data: seq<byte>
    const plan: seq<nat>
    var pos: nat
    var turn: nat
    ghost var high: nat        // how many cells of the receive buffer were written

    constructor (data: seq<byte>, plan: seq<nat>)
      ensures this.data == data && this.plan == plan && pos == 0 && turn == 0 && high == 0
    {
      this.data, this.plan := data, plan;
      pos, turn, high := 0, 0, 0;
    }

    /** Every read that may deliver something has delivered at least a byte, while there was
        one. */
    predicate Valid()
      reads this
    {
      pos <= |data| && turn <= |plan| && (pos == |data| || Productive(plan, turn) <= pos)
    }

    /** What is asked for may lead past the buffer, if the bytes left do not. */
    method ReadTimeout(buf: array<byte>, at: nat, n: nat) returns (res: nat, over: bool)
      requires Valid() && at <= buf.Length && at + Least(n, |data| - pos) <= buf.Length && n > 0
      modifies this`pos, this`turn, this`high, buf
      ensures Valid() && turn == (if over then old(turn) else old(turn) + 1)
      ensures over <==> old(turn) == |plan|
      ensures res <= n && pos == old(pos) + res && (over ==> res == 0)
      ensures high == if res > 0 then Most(old(high), at + res) else old(high)
      ensures buf[..at + res] == old(buf[..at]) + data[old(pos)..pos]
    {
      over := turn == |plan|;
      res := 0;
      if !over {
        res := plan[turn];
        if n < res { res := n; }
        if |data| - pos < res { res := |data| - pos; }
        turn := turn + 1;
      }
      ghost var before := buf[..at];
      for i := 0 to res
        modifies buf
        invariant buf[..at + i] == before + data[pos..pos + i]
      {
        buf[at + i] := data[pos + i];
        assert buf[..at + i + 1] == buf[..at + i] + [data[pos + i]];
        assert data[pos..pos + i + 1] == data[pos..pos + i] + [data[pos + i]];
      }
      pos := pos + res;
      high := if res > 0 then Most(high, at + res) else high;
    }
  }

  /** Both read loops of the reassembler: read until `target` bytes are in the buffer.
      Throughout, `tot` stays within `target`. */
  method Fill(dev: SerialPort, buf: array<byte>, from: nat, target: nat) returns (tot: nat, over: bool)
    requires dev.Valid() && from <= target && from <= buf.Length
    requires Least(target, from + |dev.data| - dev.pos) <= buf.Length
    modifies dev`pos, dev`turn, dev`high, buf
    ensures dev.Valid() && dev.turn >= old(dev.turn)
    ensures dev.high == if tot > from then Most(old(dev.high), tot) else old(dev.high)
    ensures from <= tot <= buf.Length && tot <= target && dev.pos == old(dev.pos) + tot - from
            && (!over ==> tot == target)
    ensures !over && from < target ==> dev.turn > old(dev.turn)
    ensures buf[..tot] == old(buf[..from]) + dev.data[old(dev.pos)..dev.pos]
    ensures over ==> dev.turn == |dev.plan| && tot < target
  {
    tot, over := from, false;
    ghost var start, before := dev.pos, buf[..from];
    while tot < target
      invariant dev.Valid() && old(dev.turn) <= dev.turn && from <= tot <= target && tot <= buf.Length && !over
      invariant dev.pos == start + tot - from && buf[..tot] == before + dev.data[start..dev.pos]
      invariant Least(target, tot + |dev.data| - dev.pos) <= buf.Length
      invariant tot > from ==> dev.turn > old(dev.turn)
      invariant dev.high == if tot > from then Most(old(dev.high), tot) else old(dev.high)
      decreases |dev.plan| - dev.turn
    {
      var res;
      ghost var p := dev.pos;
      res, over := dev.ReadTimeout(buf, tot, target - tot);
      assert dev.data[start..p] + dev.data[p..dev.pos] == dev.data[start..dev.pos];
      tot := tot + res;
      if over { return; }
    }
  }

  // ----- parsing goes on where it stopped

  lemma ParseStep(b: seq<byte>)
    requires |b| > 0 && Indicator(b[0]) && |b| >= HeadLen(b[0])
    ensures var h := HeadLen(b[0]);
            var n := PayloadLen(b);
            Parse(b) ==
            if n > MAX_PKT_SIZE then Parse(b[h..])
            else if |b| < h + n then Parsed([], b)
            else
              var r := Parse(b[h + n..]);
              Parsed([Packet(b[0], b[1..h], b[h..h + n])] + r.packets, r.rest)
  {
  }

  /** Parsing in two portions: the packets of the first, then those of its unfinished rest
      followed by the second.  So the result does not depend on how a stream is cut. */
  lemma {:induction false} ParseConcat(a: seq<byte>, b: seq<byte>)
    ensures var r := Parse(a);
            var r2 := Parse(r.rest + b);
            Parse(a + b) == Parsed(r.packets + r2.packets, r2.rest)
    decreases |a|
  {
    if |a| == 0 {
      assert a + b == b && [] + b == b;
    } else if !Indicator(a[0]) {
      assert (a + b)[1..] == a[1..] + b;
      ParseConcat(a[1..], b);
    } else if |a| >= HeadLen(a[0]) {
      var h := HeadLen(a[0]);
      var n := PayloadLen(a);
      assert PayloadLen(a + b) == n;
      ParseStep(a);
      ParseStep(a + b);
      if n > MAX_PKT_SIZE {
        assert (a + b)[h..] == a[h..] + b;
        ParseConcat(a[h..], b);
      } else if |a| >= h + n {
        ParsePacketConcat(a, b, h, n);
      }
    }
  }

  lemma {:induction false} ParsePacketConcat(a: seq<byte>, b: seq<byte>, h: nat, n: nat)
    requires |a| > 0 && Indicator(a[0]) && h == HeadLen(a[0]) && |a| >= h + n
    requires n == PayloadLen(a) == PayloadLen(a + b) && n <= MAX_PKT_SIZE
    ensures var r := Parse(a);
            var r2 := Parse(r.rest + b);
            Parse(a + b) == Parsed(r.packets + r2.packets, r2.rest)
    decreases |a|, 0
  {
    hide Parse;
    ParseStep(a);
    ParseStep(a + b);
    assert (a + b)[h + n..] == a[h + n..] + b && (a + b)[1..h] == a[1..h] && (a + b)[h..h + n] == a[h..h + n];
    ParseConcat(a[h + n..], b);
    var p := Packet(a[0], a[1..h], a[h..h + n]);
    Assoc([p], Parse(a[h + n..]).packets, Parse(Parse(a[h + n..]).rest + b).packets);
  }

  /** After a stream that ends between packets, parsing starts afresh. */
  lemma ParseAligned(a: seq<byte>, b: seq<byte>)
    requires Parse(a).rest == []
    ensures Parse(a + b) == Parsed(Parse(a).packets + Parse(b).packets, Parse(b).rest)
  {
    hide Parse;
    ParseConcat(a, b);
    assert [] + b == b;
  }

  lemma {:induction false} TakenSnoc(p: seq<Packet>, x: Packet, accept: seq<bool>, k: nat)
    ensures Taken(p + [x], accept, k) == Taken(p, accept, k) + Taken([x], accept, k + |p|)
    decreases |p|
  {
    hide DeliveryOf, Accepts;
    if p == [] {
      assert p + [x] == [x];
    } else {
      assert (p + [x])[1..] == p[1..] + [x];
      TakenSnoc(p[1..], x, accept, k + 1);
      Assoc(if Accepts(accept, k) then [DeliveryOf(p[0])] else [], Taken(p[1..], accept, k + 1),
            Taken([x], accept, k + |p|));
    }
  }

  lemma {:induction false} RequestsSnoc(p: seq<Packet>, x: Packet)
    ensures Requests(p + [x]) == Requests(p) + [RequestOf(x)]
  {
    hide RequestOf;
    if p == [] {
      assert p + [x] == [x];
    } else {
      assert (p + [x])[1..] == p[1..] + [x];
      RequestsSnoc(p[1..], x);
    }
  }

  // ----- the reassembler

  /** What the controller has seen once `packets` were offered to it. */
  ghost predicate Offered(accept: seq<bool>, reqs: seq<Request>, coms: seq<Delivery>, packets: seq<Packet>,
                          reqs': seq<Request>, coms': seq<Delivery>) {
    reqs' == reqs + Requests(packets) && coms' == coms + Taken(packets, accept, |reqs|)
  }

  lemma OfferedNone(accept: seq<bool>, reqs: seq<Request>, coms: seq<Delivery>)
    ensures Offered(accept, reqs, coms, [], reqs, coms)
  {
  }

  lemma OfferedOne(accept: seq<bool>, reqs: seq<Request>, coms: seq<Delivery>, p: Packet)
    ensures Offered(accept, reqs, coms, [p], reqs + [RequestOf(p)],
                    if Accepts(accept, |reqs|) then coms + [DeliveryOf(p)] else coms)
  {
    hide RequestOf, DeliveryOf, Accepts;
    assert [p][1..] == [];
    assert Requests([p]) == [RequestOf(p)] + Requests([]);
    assert Taken([p], accept, |reqs|) == if Accepts(accept, |reqs|) then [DeliveryOf(p)] else [];
  }

  /** At most one more packet after `ps`. */
  lemma OfferedMore(accept: seq<bool>, r0: seq<Request>, c0: seq<Delivery>, ps: seq<Packet>, r1: seq<Request>,
                    c1: seq<Delivery>,
                    qs: seq<Packet>, r2: seq<Request>, c2: seq<Delivery>)
    requires Offered(accept, r0, c0, ps, r1, c1) && Offered(accept, r1, c1, qs, r2, c2) && |qs| <= 1
    ensures Offered(accept, r0, c0, ps + qs, r2, c2)
  {
    hide RequestOf, DeliveryOf, Accepts, Taken, Requests;
    if |qs| == 0 {
      assert qs == [] && ps + qs == ps;
      assert Taken([], accept, |r1|) == [] && Requests([]) == [] by { TakenNone(accept, |r1|); }
    } else {
      var x := qs[0];
      assert qs == [x];
      TakenSnoc(ps, x, accept, |r0|);
      RequestsSnoc(ps, x);
      RequestsSnoc([], x);
      TakenNone(accept, 0);
      assert [] + [x] == [x];
      Assoc(r0, Requests(ps), [RequestOf(x)]);
      Assoc(c0, Taken(ps, accept, |r0|), Taken([x], accept, |r1|));
    }
  }

  lemma TakenNone(accept: seq<bool>, k: nat)
    ensures Taken([], accept, k) == [] && Requests([]) == []
  {
  }

  /** What the first piece of a stream needs of the buffer. */
  lemma CellsNeeded(b: seq<byte>)
    requires |b| > 0
    ensures Cells(b) >= 1 && (Front(b) > 0 ==> Cells(b) >= Front(b) && Cells(b) >= Cells(b[Front(b)..]))
    ensures Indicator(b[0]) ==> Cells(b) >= Least(HeadLen(b[0]), |b|)
    ensures Indicator(b[0]) && |b| >= HeadLen(b[0]) && PayloadLen(b) <= MAX_PKT_SIZE ==>
              Cells(b) >= Least(HeadLen(b[0]) + PayloadLen(b), |b|)
  {
  }

  /** A piece, complete or not, fills as many cells as it has bytes. */
  lemma CellsOne(b: seq<byte>)
    requires |b| > 0 ==> Front(b) == 0 || Front(b) == |b|
    ensures Cells(b) == |b|
  {
    assert b[|b|..] == [];
  }

  /** A complete piece is complete whatever follows. */
  lemma FrontConcat(a: seq<byte>, b: seq<byte>)
    requires |a| > 0 && Front(a) > 0
    ensures Front(a + b) == Front(a) && (a + b)[Front(a)..] == a[Front(a)..] + b
  {
    assert (a + b)[0] == a[0];
    if Indicator(a[0]) {
      SamePayloadLen(a, a + b);
    }
  }

  lemma FrontRest(a: seq<byte>)
    requires |a| > 0
    ensures Front(a) == 0 ==> Parse(a).rest == a
    ensures Front(a) > 0 ==> Parse(a).rest == Parse(a[Front(a)..]).rest
  {
  }

  lemma {:induction false} CellsAligned(a: seq<byte>, b: seq<byte>)
    requires Parse(a).rest == []
    ensures Cells(a + b) == Most(Cells(a), Cells(b))
    decreases |a|
  {
    hide Parse, Front;
    if |a| == 0 {
      assert a + b == b;
    } else {
      FrontRest(a);
      FrontConcat(a, b);
      CellsAligned(a[Front(a)..], b);
    }
  }

  lemma Slices<T>(s: seq<T>, p: nat, q: nat, r: nat)
    requires p <= q <= r <= |s|
    ensures s[p..q] + s[q..r] == s[p..r]
    ensures s[p..r] <= s[p..] && s[r..] == s[p..][r - p..]
  {
  }

  lemma SamePayloadLen(a: seq<byte>, b: seq<byte>)
    requires |a| > 0 && |a| >= HeadLen(a[0]) && a <= b
    ensures PayloadLen(a) == PayloadLen(b)
  {
  }

  /** Reading on: the buffer holds the input from `p` on. */
  method FillOn(dev: SerialPort, buf: array<byte>, ghost p: nat, from: nat, target: nat) returns (tot: nat, over: bool)
    requires dev.Valid() && from <= target && from <= buf.Length && Least(target, |dev.data| - p) <= buf.Length
    requires dev.pos == p + from && buf[..from] == dev.data[p..dev.pos]
    modifies dev`pos, dev`turn, dev`high, buf
    ensures dev.Valid() && dev.turn >= old(dev.turn) && from <= tot <= target && tot <= buf.Length && dev.pos == p + tot
    ensures dev.high == if tot > from then Most(old(dev.high), tot) else old(dev.high)
    ensures if over then dev.turn == |dev.plan| && tot < target else tot == target
    ensures !over && from < target ==> dev.turn > old(dev.turn)
    ensures buf[..tot] == dev.data[p..dev.pos]
  {
    ghost var q := dev.pos;
    tot, over := Fill(dev, buf, from, target);
    Slices(dev.data, p, q, dev.pos);
  }

  /** The second half of a round: the head is in the buffer. */
  method CollectPayload(dev: SerialPort, ctl: Controller, buf: array<byte>, ghost p: nat) returns (over: bool)
    requires dev.Valid() && buf.Length > 0 && Indicator(buf[0]) && dev.pos == p + HeadLen(buf[0])
    requires Cells(dev.data[p..]) <= buf.Length && HeadLen(buf[0]) <= buf.Length
    requires buf[..HeadLen(buf[0])] == dev.data[p..dev.pos] && dev.high >= HeadLen(buf[0])
    modifies dev`pos, dev`turn, dev`high, ctl, buf
    ensures dev.Valid() && old(dev.pos) <= dev.pos && old(dev.turn) <= dev.turn
    ensures dev.high == Most(old(dev.high), dev.pos - p) && Cells(dev.data[p..dev.pos]) == dev.pos - p
    ensures var r := Parse(dev.data[p..dev.pos]);
            && |r.packets| <= 1
            && Offered(ctl.accept, old(ctl.requests), old(ctl.committed), r.packets, ctl.requests, ctl.committed)
            && (if over then r.packets == [] && dev.turn == |dev.plan| else r.rest == [])
  {
    hide Cells, Offered, Parse, PayloadLen, Productive;
    OfferedNone(ctl.accept, ctl.requests, ctl.committed);
    var kind := buf[0];
    var hdrLen := if kind == COMMAND then 3 else 0;
    var pduLength := HeadLen(kind);
    var tot := pduLength;
    var pduLen := PayloadLen(buf[..pduLength]);
    ghost var all, cur := dev.data[p..], dev.data[p..dev.pos];
    Slices(dev.data, p, p, dev.pos);
    assert cur == buf[..pduLength] && all[0] == cur[0] == kind;
    SamePayloadLen(cur, all);
    CellsNeeded(all);
    pduLength := pduLength + pduLen;
    if pduLength - tot > MAX_PKT_SIZE {
      over := false;
      ParseOne(cur);
      CellsOne(cur);
      return;
    }
    var h := tot;
    tot, over := FillOn(dev, buf, p, h, pduLength);
    cur := dev.data[p..dev.pos];
    Slices(dev.data, p, p, dev.pos);
    SamePayloadLen(cur, all);
    ParseOne(cur);
    CellsOne(cur);
    if over { return; }
    assert buf[1..h] == cur[1..h] && buf[h..pduLength] == cur[h..pduLength];
    ghost var packet := Packet(kind, cur[1..h], cur[h..pduLength]);
    Deliver(ctl, kind, pduLen, hdrLen, buf[1..h], buf[pduLength - pduLen..pduLength], packet);
  }

  /** Asks the controller for a buffer; a refused packet is dropped. */
  method Deliver(ctl: Controller, kind: byte, pduLen: nat, hdrLen: nat, head: seq<byte>, payload: seq<byte>,
                 ghost packet: Packet)
    requires packet == Packet(kind, head, payload) && pduLen == |payload| && hdrLen == if kind == COMMAND then 3 else 0
    modifies ctl
    ensures Offered(ctl.accept, old(ctl.requests), old(ctl.committed), [packet], ctl.requests, ctl.committed)
  {
    hide Offered, Accepts;
    OfferedOne(ctl.accept, ctl.requests, ctl.committed, packet);
    var ok := ctl.GetRxBuf(kind, pduLen + hdrLen, head);
    if ok {
      ctl.Commit(Delivery(kind, pduLen + hdrLen, head, payload));
    }
  }

  /** The bytes of one packet: too few, just enough, or a head that announces too many. */
  lemma ParseOne(b: seq<byte>)
    requires |b| > 0 && Indicator(b[0]) && |b| >= HeadLen(b[0])
    requires PayloadLen(b) <= MAX_PKT_SIZE ==> |b| <= HeadLen(b[0]) + PayloadLen(b)
    requires PayloadLen(b) > MAX_PKT_SIZE ==> |b| == HeadLen(b[0])
    ensures var h := HeadLen(b[0]);
            var n := PayloadLen(b);
            Parse(b) == if n > MAX_PKT_SIZE then Parsed([], [])
                        else if |b| < h + n then Parsed([], b)
                        else Parsed([Packet(b[0], b[1..h], b[h..h + n])], [])
  {
    hide Parse;
    var h := HeadLen(b[0]);
    var n := PayloadLen(b);
    ParseStep(b);
    ParseNothing();
    if n > MAX_PKT_SIZE {
      assert b[h..] == [];
    } else if |b| == h + n {
      assert b[h + n..] == [];
      assert [Packet(b[0], b[1..h], b[h..h + n])] + [] == [Packet(b[0], b[1..h], b[h..h + n])];
    }
  }

  lemma ParseShort(b: seq<byte>)
    requires |b| > 0 && Indicator(b[0]) && |b| < HeadLen(b[0])
    ensures Parse(b) == Parsed([], b)
  {
  }

  lemma ParseJunk(b: seq<byte>)
    requires |b| == 1 && !Indicator(b[0])
    ensures Parse(b) == Parsed([], [])
  {
  }

  lemma ParseNothing()
    ensures Parse([]) == Parsed([], [])
  {
  }

  /** One round of the reassembler's endless loop.  `over` means the schedule ended in the
      middle; the bytes read so far are then an unfinished packet. */
  method Round(dev: SerialPort, ctl: Controller, buf: array<byte>) returns (over: bool)
    requires dev.Valid() && buf.Length > 0 && Cells(dev.data[dev.pos..]) <= buf.Length
    modifies dev`pos, dev`turn, dev`high, ctl, buf
    ensures dev.Valid() && old(dev.pos) <= dev.pos
    ensures !over ==> dev.turn > old(dev.turn)
    ensures dev.high == Most(old(dev.high), Cells(dev.data[old(dev.pos)..dev.pos]))
    ensures var r := Parse(dev.data[old(dev.pos)..dev.pos]);
            && |r.packets| <= 1
            && Offered(ctl.accept, old(ctl.requests), old(ctl.committed), r.packets, ctl.requests, ctl.committed)
            && (if over then r.packets == [] && dev.turn == |dev.plan| else r.rest == [])
  {
    hide Cells, Offered, Parse, Productive, PayloadLen;
    ParseNothing();
    ghost var p, all := dev.pos, dev.data[dev.pos..];
    CellsOne([]);
    OfferedNone(ctl.accept, ctl.requests, ctl.committed);
    var tot;
    tot, over := Fill(dev, buf, 0, 1);
    ghost var cur := dev.data[p..dev.pos];
    assert buf[..tot] == cur;
    if over { return; }
    var kind := buf[0];
    assert kind == cur[0] == all[0];
    CellsNeeded(all);
    if !Indicator(kind) {
      ParseJunk(cur);
      CellsOne(cur);
      return;
    }
    var pduLength := HeadLen(kind);
    tot, over := FillOn(dev, buf, p, 1, pduLength);
    cur := dev.data[p..dev.pos];
    assert cur[0] == kind;
    if over {
      ParseShort(cur);
      CellsOne(cur);
      return;
    }
    over := CollectPayload(dev, ctl, buf, p);
  }

  /** The reassembler, for the whole of a schedule of short reads and timeouts.  What the
      controller was offered depends only on the bytes read, not on how the reads cut them:
      it is the packets of that byte stream, in order.  A schedule with as many productive
      reads as there are bytes reads them all.  Whatever the size of the buffer, as long as it
      is not overrun, exactly `Cells` of it are written. */
  method Process(dev: SerialPort, ctl: Controller, buf: array<byte>)
    requires dev.Valid() && buf.Length > 0 && Cells(dev.data[dev.pos..]) <= buf.Length
    modifies dev`pos, dev`turn, dev`high, ctl, buf
    ensures dev.Valid() && old(dev.pos) <= dev.pos && dev.turn == |dev.plan|
    ensures Productive(dev.plan, |dev.plan|) >= |dev.data| ==> dev.pos == |dev.data|
    ensures dev.high == Most(old(dev.high), Cells(dev.data[old(dev.pos)..dev.pos]))
    ensures Offered(ctl.accept, old(ctl.requests), old(ctl.committed),
                    Parse(dev.data[old(dev.pos)..dev.pos]).packets, ctl.requests, ctl.committed)
  {
    hide Cells, Offered, Parse;
    ghost var start, r0, c0 := dev.pos, ctl.requests, ctl.committed;
    ghost var ps: seq<Packet> := [];
    assert dev.data[start..dev.pos] == [];
    OfferedNone(ctl.accept, ctl.requests, ctl.committed);
    ParseNothing();
    CellsOne([]);
    while true
      invariant dev.Valid() && start <= dev.pos && Cells(dev.data[dev.pos..]) <= buf.Length
      invariant dev.high == Most(old(dev.high), Cells(dev.data[start..dev.pos]))
      invariant Parse(dev.data[start..dev.pos]) == Parsed(ps, [])
      invariant Offered(ctl.accept, r0, c0, ps, ctl.requests, ctl.committed)
      decreases |dev.plan| - dev.turn
    {
      ghost var p, r1, c1 := dev.pos, ctl.requests, ctl.committed;
      var over := Round(dev, ctl, buf);
      assert dev.data[start..p] + dev.data[p..dev.pos] == dev.data[start..dev.pos];
      ParseAligned(dev.data[start..p], dev.data[p..dev.pos]);
      CellsAligned(dev.data[start..p], dev.data[p..dev.pos]);
      ghost var qs := Parse(dev.data[p..dev.pos]).packets;
      OfferedMore(ctl.accept, r0, c0, ps, r1, c1, qs, ctl.requests, ctl.committed);
      ps := ps + qs;
      if over { return; }
      assert dev.data[p..] == dev.data[p..dev.pos] + dev.data[dev.pos..];
      CellsAligned(dev.data[p..dev.pos], dev.data[dev.pos..]);
    }
  }

  // ----- the host path

  /** Number of the first request from `k` on that gets a buffer, if it comes before `limit`
      refusals; else `k + limit`. */
  function FirstAccepted(accept: seq<bool>, k: nat, limit: nat): (m: nat)
    ensures k <= m <= k + limit
    ensures (m < k + limit ==> Accepts(accept, m)) && forall q | k <= q < m :: !Accepts(accept, q)
    decreases limit
  {
    if limit == 0 || Accepts(accept, k) then k else FirstAccepted(accept, k + 1, limit - 1)
  }

  function Repeat(r: Request, n: nat): (s: seq<Request>)
    ensures |s| == n
  {
    if n == 0 then [] else Repeat(r, n - 1) + [r]
  }

  /** Refusals before the host path gives up: one for SCO, 21 otherwise. */
  function Patience(kind: byte): nat {
    if kind == SCODATA then 1 else 21
  }

  /** AppTL_Send.  `packet` must hold the bytes its own head announces. */
  method Send(ctl: Controller, packet: seq<byte>, size: nat) returns (sent: nat)
    requires |packet| > 0
    requires packet[0] in {COMMAND, ACLDATA, SCODATA} ==>
               |packet| >= HeadLen(packet[0]) && |packet| >= HeadLen(packet[0]) + PayloadLen(packet)
    modifies ctl
    ensures packet[0] !in {COMMAND, ACLDATA, SCODATA} ==>
              sent == 0 && ctl.requests == old(ctl.requests) && ctl.committed == old(ctl.committed)
    ensures packet[0] in {COMMAND, ACLDATA, SCODATA} ==>
              var h := HeadLen(packet[0]);
              var p := Packet(packet[0], packet[1..h], packet[h..h + PayloadLen(packet)]);
              var k := |old(ctl.requests)|;
              var m := FirstAccepted(ctl.accept, k, Patience(p.kind));
              if m < k + Patience(p.kind) then
                && sent == size
                && ctl.requests == old(ctl.requests) + Repeat(RequestOf(p), m - k + 1)
                && ctl.committed == old(ctl.committed) + [DeliveryOf(p)]
              else
                && sent == 0
                && ctl.requests == old(ctl.requests) + Repeat(RequestOf(p), Patience(p.kind))
                && ctl.committed == old(ctl.committed)
  {
    var kind := packet[0];
    var at := 1;
    var headBuf := 1;
    var pduLen, hdrLen: nat;
    if kind == COMMAND {
      at := at + 2;
      pduLen := packet[at];
      at := at + 1;
      hdrLen := 3;
    } else if kind == ACLDATA {
      at := at + 2;
      pduLen := packet[at];
      at := at + 1;
      pduLen := pduLen + 256 * (packet[at] as int);
      at := at + 1;
      hdrLen := 0;
    } else if kind == SCODATA {
      at := at + 2;
      pduLen := packet[at];
      at := at + 1;
      hdrLen := 0;
    } else {
      return 0;
    }
    assert at == HeadLen(kind) && pduLen == PayloadLen(packet);
    sent := Submit(ctl, Packet(kind, packet[headBuf..at], packet[at..at + pduLen]), pduLen + hdrLen, size);
  }

  /** The retry loop and the commit. */
  method Submit(ctl: Controller, p: Packet, ask: nat, size: nat) returns (sent: nat)
    requires ask == DeliveryOf(p).size
    modifies ctl
    ensures var k := |old(ctl.requests)|;
            var m := FirstAccepted(ctl.accept, k, Patience(p.kind));
            if m < k + Patience(p.kind) then
              && sent == size
              && ctl.requests == old(ctl.requests) + Repeat(RequestOf(p), m - k + 1)
              && ctl.committed == old(ctl.committed) + [DeliveryOf(p)]
            else
              && sent == 0
              && ctl.requests == old(ctl.requests) + Repeat(RequestOf(p), Patience(p.kind))
              && ctl.committed == old(ctl.committed)
  {
    var busy := 0;
    ghost var r0, k := ctl.requests, |ctl.requests|;
    while true
      invariant 0 <= busy < Patience(p.kind)
      invariant ctl.requests == r0 + Repeat(RequestOf(p), busy) && ctl.committed == old(ctl.committed)
      invariant FirstAccepted(ctl.accept, k, Patience(p.kind)) ==
                FirstAccepted(ctl.accept, k + busy, Patience(p.kind) - busy)
      decreases Patience(p.kind) - busy
    {
      var ok := ctl.GetRxBuf(p.kind, ask, p.head);
      Assoc(r0, Repeat(RequestOf(p), busy), [RequestOf(p)]);
      if !ok {
        if p.kind == SCODATA { return 0; }
        busy := busy + 1;
        if busy > 20 { return 0; }
      } else {
        break;
      }
    }
    ctl.Commit(Delivery(p.kind, ask, p.head, p.payload));
    sent := size;
  }
}

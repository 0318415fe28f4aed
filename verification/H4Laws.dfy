/** What the two HCI paths promise about whole streams and whole packets. */
module H4Laws {
  import opened Bytes
  import opened H4

  /** What may stand in a stream: a packet, or a byte that is no packet indicator. */
  datatype Item = Junk(b: byte) | Pkt(p: Packet)

  predicate ItemOk(i: Item) {
    match i
    case Junk(b) => !Indicator(b)
    case Pkt(p) => WellFormed(p)
  }

  predicate ItemsOk(items: seq<Item>) {
    forall i | 0 <= i < |items| :: ItemOk(items[i])
  }

  function ItemBytes(i: Item): (b: seq<byte>)
    ensures |b| > 0
  {
    match i
    case Junk(b) => [b]
    case Pkt(p) => Encode(p)
  }

  function Stream(items: seq<Item>): seq<byte> {
    if items == [] then [] else ItemBytes(items[0]) + Stream(items[1..])
  }

  function Packets(items: seq<Item>): seq<Packet> {
    if items == [] then []
    else (match items[0] case Junk(_) => [] case Pkt(p) => [p]) + Packets(items[1..])
  }

  lemma ItemParses(i: Item)
    requires ItemOk(i)
    ensures Parse(ItemBytes(i)) == Parsed(match i case Junk(_) => [] case Pkt(p) => [p], [])
  {
    hide Parse, PayloadLen;
    match i
    case Junk(b) => ParseJunk([b]);
    case Pkt(p) => PacketParses(p);
  }

  lemma PacketParses(p: Packet)
    requires WellFormed(p)
    ensures Parse(Encode(p)) == Parsed([p], [])
  {
    hide Parse, PayloadLen;
    var b := Encode(p);
    var h := HeadLen(p.kind);
    assert b[..h] == [p.kind] + p.head && [p.kind] + p.head <= b;
    SamePayloadLen([p.kind] + p.head, b);
    assert |b| == h + |p.payload| && PayloadLen(b) == |p.payload|;
    ParseOne(b);
    assert b[1..h] == p.head && b[h..h + |p.payload|] == p.payload;
  }

  /** Every stream of well-formed packets, with any bytes that are no indicators between
      them, is taken apart into exactly those packets, in order, with nothing left over. */
  lemma {:induction false} StreamParses(items: seq<Item>)
    requires ItemsOk(items)
    ensures Parse(Stream(items)) == Parsed(Packets(items), [])
    decreases |items|
  {
    hide Parse, ItemOk, ItemBytes;
    if items == [] {
      ParseNothing();
    } else {
      assert ItemOk(items[0]);
      ItemParses(items[0]);
      StreamParses(items[1..]);
      ParseAligned(ItemBytes(items[0]), Stream(items[1..]));
    }
  }

  /** Such a stream never overruns the receive buffer. */
  lemma {:induction false} StreamFits(items: seq<Item>)
    requires ItemsOk(items)
    ensures Cells(Stream(items)) <= MAX_PKT_SIZE
    decreases |items|
  {
    hide PayloadLen, WellFormed, Encode, Parse, Cells, ItemBytes, ItemOk;
    if items == [] {
      CellsOne([]);
    } else {
      assert ItemOk(items[0]);
      StreamFits(items[1..]);
      ItemParses(items[0]);
      ItemCells(items[0]);
      CellsAligned(ItemBytes(items[0]), Stream(items[1..]));
    }
  }

  lemma ItemCells(i: Item)
    requires ItemOk(i)
    ensures Cells(ItemBytes(i)) <= MAX_PKT_SIZE
  {
    hide PayloadLen;
    var b := ItemBytes(i);
    if i.Pkt? {
      assert [i.p.kind] + i.p.head <= b;
      SamePayloadLen([i.p.kind] + i.p.head, b);
    }
    CellsOne(b);
  }

  /** After any part of a stream the packets offered so far are the first of those in the
      whole stream: none is lost, invented, reordered or offered early. */
  lemma PartOfStream(items: seq<Item>, k: nat)
    requires ItemsOk(items) && k <= |Stream(items)|
    ensures Parse(Stream(items)[..k]).packets <= Packets(items)
  {
    hide Parse;
    var s := Stream(items);
    StreamParses(items);
    ParseConcat(s[..k], s[k..]);
    assert s[..k] + s[k..] == s;
  }

  // ----- exactly which streams stay within the receive buffer

  /** Byte `i` of the stream begins a packet or is skipped on its own. */
  predicate Boundary(b: seq<byte>, i: nat) {
    i <= |b| && Parse(b[..i]).rest == []
  }

  /** The head at `i` passes the test of its payload length, yet head and payload together are
      longer than the receive buffer. */
  predicate Overlong(b: seq<byte>, i: nat) {
    && i < |b| && Indicator(b[i]) && i + HeadLen(b[i]) <= |b|
    && PayloadLen(b[i..]) <= MAX_PKT_SIZE < HeadLen(b[i]) + PayloadLen(b[i..])
  }

  /** These are the ACL heads that announce 1020 to 1024 bytes. */
  lemma OverlongIs(b: seq<byte>, i: nat)
    requires i < |b| && Indicator(b[i]) && i + HeadLen(b[i]) <= |b|
    ensures Overlong(b, i) <==> b[i] == ACLDATA && 1020 <= PayloadLen(b[i..]) <= 1024
  {
  }

  /** The boundaries behind the first `k` bytes, if those are a whole piece of the stream. */
  lemma LaterBoundary(b: seq<byte>, k: nat, i: nat)
    requires 0 < k <= i <= |b|
    requires Parse(b[..i]).rest == Parse(b[..i][k..]).rest
    ensures Boundary(b, i) <==> Boundary(b[k..], i - k)
    ensures Overlong(b, i) <==> Overlong(b[k..], i - k)
  {
    hide Parse, PayloadLen;
    assert b[..i][k..] == b[k..][..i - k];
    assert i < |b| ==> b[k..][i - k] == b[i] && b[k..][i - k..] == b[i..];
  }

  lemma FrontParses(b: seq<byte>, i: nat)
    requires |b| > 0 && 0 < i <= |b|
    ensures Front(b) > 0 && i >= Front(b) ==> Parse(b[..i]).rest == Parse(b[..i][Front(b)..]).rest
    ensures Front(b) == 0 || i < Front(b) ==> Parse(b[..i]).rest != []
  {
    var p := b[..i];
    assert p[0] == b[0];
    if Indicator(b[0]) && HeadLen(b[0]) <= i {
      SamePayloadLen(p, b);
    }
  }

  lemma CellsFront(b: seq<byte>)
    requires |b| > 0
    ensures Cells(b) > MAX_PKT_SIZE <==>
            (Overlong(b, 0) && |b| > MAX_PKT_SIZE) || (Front(b) > 0 && Cells(b[Front(b)..]) > MAX_PKT_SIZE)
  {
    assert b[0..] == b;
  }

  /** At `i` begins an overlong packet, and enough of it arrives to fill the buffer. */
  predicate Overruns(b: seq<byte>, i: nat) {
    Overlong(b, i) && |b| - i > MAX_PKT_SIZE
  }

  /** A stream stays within the receive buffer if and only if no packet in it is overlong with
      more than a buffer of bytes from its first one on. */
  lemma {:induction false} CellsIff(b: seq<byte>)
    ensures Cells(b) <= MAX_PKT_SIZE <==> forall i: nat | Boundary(b, i) :: !Overruns(b, i)
    decreases |b|
  {
    hide Parse, Cells, PayloadLen, Overlong, Front, Boundary;
    if |b| == 0 {
      NothingOverlong(b);
    } else {
      var k := Front(b);
      CellsFront(b);
      StartBoundary(b);
      assert Overruns(b, 0) <==> Overlong(b, 0) && |b| > MAX_PKT_SIZE;
      forall i: nat | 0 < i <= |b|
        ensures k == 0 || i < k ==> !Boundary(b, i)
        ensures 0 < k <= i ==>
                  (Boundary(b, i) <==> Boundary(b[k..], i - k)) && (Overruns(b, i) <==> Overruns(b[k..], i - k))
      {
        Behind(b, i);
      }
      BoundaryIn(b);
      if k > 0 {
        CellsIff(b[k..]);
        BoundaryIn(b[k..]);
        assert forall j: nat | Boundary(b[k..], j) :: j + k <= |b| && (j + k) - k == j;
        forall j: nat | Boundary(b[k..], j) && Overruns(b[k..], j) ensures Boundary(b, j + k) && Overruns(b, j + k) {
          Behind(b, j + k);
        }
      }
    }
  }

  /** An ACL packet of 1020 bytes fills one cell more than there are; its head alone does not. */
  lemma OverrunByOne(payload: seq<byte>)
    requires |payload| == 1020
    ensures Cells([2, 0, 0, 0xFC, 3] + payload) == MAX_PKT_SIZE + 1 && Cells([2, 0, 0, 0xFC, 3]) == 5
  {
    var b := [2, 0, 0, 0xFC, 3] + payload;
    assert b[0] == 2 && b[3] == 0xFC && b[4] == 3;
    assert PayloadLen(b) == 1020 && Front(b) == |b|;
    CellsOne(b);
    CellsOne([2, 0, 0, 0xFC, 3]);
  }

  lemma Behind(b: seq<byte>, i: nat)
    requires |b| > 0 && 0 < i <= |b|
    ensures Front(b) == 0 || i < Front(b) ==> !Boundary(b, i)
    ensures 0 < Front(b) <= i ==>
              && (Boundary(b, i) <==> Boundary(b[Front(b)..], i - Front(b)))
              && (Overlong(b, i) <==> Overlong(b[Front(b)..], i - Front(b)))
  {
    hide Parse, PayloadLen, Front, Overlong;
    FrontParses(b, i);
    if 0 < Front(b) <= i {
      LaterBoundary(b, Front(b), i);
    }
  }

  lemma StartBoundary(b: seq<byte>)
    ensures Boundary(b, 0)
  {
    assert b[..0] == [];
  }

  lemma BoundaryIn(b: seq<byte>)
    ensures forall i: nat | Boundary(b, i) :: i <= |b|
  {
  }

  lemma NothingOverlong(b: seq<byte>)
    requires |b| == 0
    ensures Cells(b) == 0 && forall i: nat :: !Overlong(b, i)
  {
  }

  // ----- refused packets

  function AcceptedBefore(accept: seq<bool>, k: nat, i: nat): (n: nat)
    decreases i
  {
    if i == 0 then 0 else (if Accepts(accept, k) then 1 else 0) + AcceptedBefore(accept, k + 1, i - 1)
  }

  lemma {:induction false} TakenCount(ps: seq<Packet>, accept: seq<bool>, k: nat)
    ensures |Taken(ps, accept, k)| == AcceptedBefore(accept, k, |ps|)
    decreases |ps|
  {
    hide DeliveryOf, Accepts;
    if ps != [] { TakenCount(ps[1..], accept, k + 1); }
  }

  /** Of the packets offered, exactly the accepted ones are delivered, whole and in order:
      packet `i` is delivery number "accepted packets before it". */
  lemma {:induction false} TakenAreAccepted(ps: seq<Packet>, accept: seq<bool>, k: nat, i: nat)
    requires i < |ps| && Accepts(accept, k + i)
    ensures AcceptedBefore(accept, k, i) < |Taken(ps, accept, k)| == AcceptedBefore(accept, k, |ps|)
    ensures Taken(ps, accept, k)[AcceptedBefore(accept, k, i)] == DeliveryOf(ps[i])
    decreases |ps|
  {
    hide DeliveryOf, Accepts;
    TakenCount(ps, accept, k);
    if i > 0 { TakenAreAccepted(ps[1..], accept, k + 1, i - 1); }
  }

  /** The host path and the serial path ask the controller for the same thing and commit
      the same payload: sending the bytes of a packet is offering that packet. */
  lemma PathsAgree(p: Packet, b: seq<byte>)
    requires WellFormed(p) && p.kind != EVENT && b == Encode(p)
    ensures |b| >= HeadLen(b[0]) && |b| == HeadLen(b[0]) + PayloadLen(b)
    ensures Packet(b[0], b[1..HeadLen(b[0])], b[HeadLen(b[0])..HeadLen(b[0]) + PayloadLen(b)]) == p
    ensures Parse(b).packets == [p]
  {
    hide Parse, PayloadLen;
    PacketParses(p);
    var h := HeadLen(p.kind);
    assert [p.kind] + p.head <= b;
    SamePayloadLen([p.kind] + p.head, b);
    assert b[1..h] == p.head && b[h..] == p.payload;
  }

  /** The reassembler on a whole stream, whatever the schedule of short reads and timeouts:
      what it has offered and delivered so far comes from the front of the stream, and once
      all bytes are read it is exactly the stream's packets. */
  method ProcessStream(items: seq<Item>, plan: seq<nat>, accept: seq<bool>)
    returns (read: nat, requests: seq<Request>, committed: seq<Delivery>)
    requires ItemsOk(items)
    ensures read <= |Stream(items)|
    ensures var ps := Parse(Stream(items)[..read]).packets;
            ps <= Packets(items) && requests == Requests(ps) && committed == Taken(ps, accept, 0)
    ensures Productive(plan, |plan|) >= |Stream(items)| ==> read == |Stream(items)|
    ensures read == |Stream(items)| ==>
              requests == Requests(Packets(items)) && committed == Taken(Packets(items), accept, 0)
  {
    hide Parse, Cells, Taken, Requests;
    var dev := new SerialPort(Stream(items), plan);
    var ctl := new Controller(accept);
    var buf := new byte[MAX_PKT_SIZE];
    StreamFits(items);
    assert dev.data[0..] == dev.data;
    Process(dev, ctl, buf);
    read, requests, committed := dev.pos, ctl.requests, ctl.committed;
    assert dev.data[0..read] == Stream(items)[..read];
    PartOfStream(items, read);
    StreamParses(items);
    if read == |Stream(items)| { assert Stream(items)[..read] == Stream(items); }
  }

  // ----- the four packet layouts, field by field

  /** What the packets say, as section 5.4 of the HCI Functional Specification lays them out. */
  datatype Hci =
    | Command(opLow: byte, opHigh: byte, params: seq<byte>)
    | Acl(handleLow: byte, handleHigh: byte, data: seq<byte>)
    | Sco(handleLow: byte, handleHigh: byte, data: seq<byte>)
    | Event(code: byte, params: seq<byte>)
    | Noise(b: byte)

  predicate HciOk(x: Hci) {
    match x
    case Command(_, _, params) => |params| <= 255
    case Acl(_, _, data) => |data| <= 1019
    case Sco(_, _, data) => |data| <= 255
    case Event(_, params) => |params| <= 255
    case Noise(b) => b == 0 || b > 4
  }

  /** The bytes on the line: indicator, fields, length, contents. */
  function Wire(x: Hci): (b: seq<byte>)
    requires HciOk(x)
  {
    match x
    case Command(lo, hi, params) => [1, lo, hi, |params|] + params
    case Acl(lo, hi, data) => [2, lo, hi, |data| % 256, |data| / 256] + data
    case Sco(lo, hi, data) => [3, lo, hi, |data|] + data
    case Event(code, params) => [4, code, |params|] + params
    case Noise(b) => [b]
  }

  /** The packet the controller is offered, and the request for it. */
  function Meant(x: Hci): (ps: seq<Packet>)
    requires HciOk(x)
  {
    match x
    case Command(lo, hi, params) => [Packet(1, [lo, hi, |params|], params)]
    case Acl(lo, hi, data) => [Packet(2, [lo, hi, |data| % 256, |data| / 256], data)]
    case Sco(lo, hi, data) => [Packet(3, [lo, hi, |data|], data)]
    case Event(code, params) => [Packet(4, [code, |params|], params)]
    case Noise(_) => []
  }

  function AsItem(x: Hci): (i: Item)
    requires HciOk(x)
  {
    if x.Noise? then Junk(x.b) else Pkt(Meant(x)[0])
  }

  lemma AsItemIs(x: Hci)
    requires HciOk(x)
    ensures ItemOk(AsItem(x)) && ItemBytes(AsItem(x)) == Wire(x)
    ensures Meant(x) == match AsItem(x) case Junk(_) => [] case Pkt(p) => [p]
  {
    if !x.Noise? {
      var p := Meant(x)[0];
      var head := [p.kind] + p.head;
      assert p.head == head[1..];
      assert x.Acl? ==> head[3] == |x.data| % 256 && head[4] == |x.data| / 256;
      assert x.Command? || x.Sco? ==> head[3] == |p.payload|;
      assert x.Event? ==> head[2] == |p.payload|;
    }
  }

  /** Every packet, from its fields: it parses to exactly itself; the request counts the three
      header bytes of a command in, and of the others the contents alone. */
  lemma LayoutParses(x: Hci)
    requires HciOk(x)
    ensures Parse(Wire(x)) == Parsed(Meant(x), [])
    ensures forall p | p in Meant(x) ::
              && RequestOf(p) == Request(p.kind, |p.payload| + (if x.Command? then 3 else 0), p.head)
              && DeliveryOf(p) == Delivery(p.kind, |p.payload| + (if x.Command? then 3 else 0), p.head, p.payload)
  {
    hide Parse, ItemOk, ItemBytes;
    AsItemIs(x);
    ItemParses(AsItem(x));
  }

  predicate AllHci(xs: seq<Hci>) {
    forall k | 0 <= k < |xs| :: HciOk(xs[k])
  }

  function WireAll(xs: seq<Hci>): (b: seq<byte>)
    requires AllHci(xs)
  {
    if xs == [] then [] else Wire(xs[0]) + WireAll(xs[1..])
  }

  function MeantAll(xs: seq<Hci>): (ps: seq<Packet>)
    requires AllHci(xs)
  {
    if xs == [] then [] else Meant(xs[0]) + MeantAll(xs[1..])
  }

  function AsItems(xs: seq<Hci>): (items: seq<Item>)
    requires AllHci(xs)
  {
    if xs == [] then [] else [AsItem(xs[0])] + AsItems(xs[1..])
  }

  lemma {:induction false} AsItemsAre(xs: seq<Hci>)
    requires AllHci(xs)
    ensures ItemsOk(AsItems(xs)) && Stream(AsItems(xs)) == WireAll(xs) && Packets(AsItems(xs)) == MeantAll(xs)
    decreases |xs|
  {
    hide ItemOk, ItemBytes, Wire, Meant, AsItem;
    if xs != [] {
      AsItemIs(xs[0]);
      AsItemsAre(xs[1..]);
      assert AsItems(xs)[1..] == AsItems(xs[1..]);
    }
  }

  /** Any stream of commands, ACL data, SCO data, events and noise comes apart into exactly the
      packets meant, in order, and fits the receive buffer. */
  lemma WireParses(xs: seq<Hci>)
    requires AllHci(xs)
    ensures Parse(WireAll(xs)) == Parsed(MeantAll(xs), []) && Cells(WireAll(xs)) <= 1024
  {
    hide Parse, Cells, Stream, Packets, ItemsOk;
    AsItemsAre(xs);
    StreamParses(AsItems(xs));
    StreamFits(AsItems(xs));
  }

  /** ACL data that announce more than 1024 bytes lose their head, and nothing else. */
  lemma TooLongDropsHead(lo: byte, hi: byte, lenLow: byte, lenHigh: byte, rest: seq<byte>)
    requires lenLow as int + 256 * (lenHigh as int) > 1024
    ensures Parse([2, lo, hi, lenLow, lenHigh] + rest) == Parse(rest)
  {
    var b := [2, lo, hi, lenLow, lenHigh] + rest;
    assert b[0] == 2 && b[3] == lenLow && b[4] == lenHigh && b[5..] == rest;
  }

  /** The reassembler on the wire: all that was meant is requested, and delivered if accepted. */
  method ProcessWire(xs: seq<Hci>, plan: seq<nat>, accept: seq<bool>)
    returns (read: nat, requests: seq<Request>, committed: seq<Delivery>)
    requires AllHci(xs)
    ensures read <= |WireAll(xs)| && requests <= Requests(MeantAll(xs))
    ensures Productive(plan, |plan|) >= |WireAll(xs)| ==> read == |WireAll(xs)|
    ensures read == |WireAll(xs)| ==>
              requests == Requests(MeantAll(xs)) && committed == Taken(MeantAll(xs), accept, 0)
  {
    hide Parse, Taken, Stream, Packets, ItemsOk;
    AsItemsAre(xs);
    read, requests, committed := ProcessStream(AsItems(xs), plan, accept);
    RequestsPrefix(Parse(Stream(AsItems(xs))[..read]).packets, MeantAll(xs));
  }

  lemma {:induction false} RequestsPrefix(ps: seq<Packet>, qs: seq<Packet>)
    requires ps <= qs
    ensures Requests(ps) <= Requests(qs)
    decreases |ps|
  {
    hide RequestOf;
    if ps != [] { RequestsPrefix(ps[1..], qs[1..]); }
  }

  /** The host path on the wire: the packet meant is submitted, up to 21 times, SCO data once. */
  method SendWire(ctl: Controller, x: Hci, size: nat) returns (sent: nat)
    requires HciOk(x) && (x.Command? || x.Acl? || x.Sco?)
    modifies ctl
    ensures var k := |old(ctl.requests)|;
            var p := Meant(x)[0];
            var limit := if x.Sco? then 1 else 21;
            var r := Request(p.kind, |p.payload| + (if x.Command? then 3 else 0), p.head);
            if exists m | k <= m < k + limit :: Accepts(ctl.accept, m) then
              && sent == size && ctl.committed == old(ctl.committed) + [Delivery(p.kind, r.size, p.head, p.payload)]
              && exists n | 1 <= n <= limit ::
                   FirstOf(ctl.accept, k, n) && ctl.requests == old(ctl.requests) + Repeat(r, n)
            else
              && sent == 0 && ctl.committed == old(ctl.committed)
              && ctl.requests == old(ctl.requests) + Repeat(r, limit)
  {
    hide Repeat, Wire, Meant, HeadLen, PayloadLen, FirstAccepted, Accepts, DeliveryOf, RequestOf, FirstOf;
    SplitsWire(x);
    sent := Send(ctl, Wire(x), size);
    FirstIs(ctl.accept, |old(ctl.requests)|, if x.Sco? then 1 else 21);
  }

  /** The host path finds the packet meant in its bytes. */
  lemma SplitsWire(x: Hci)
    requires HciOk(x) && (x.Command? || x.Acl? || x.Sco?)
    ensures |Meant(x)| == 1
    ensures var b, p := Wire(x), Meant(x)[0];
            && |b| > 0 && b[0] == p.kind && b[0] in {COMMAND, ACLDATA, SCODATA} && |b| >= HeadLen(b[0])
            && |b| == HeadLen(b[0]) + PayloadLen(b)
            && Packet(b[0], b[1..HeadLen(b[0])], b[HeadLen(b[0])..HeadLen(b[0]) + PayloadLen(b)]) == p
            && (p.kind == SCODATA <==> x.Sco?)
            && RequestOf(p) == Request(p.kind, |p.payload| + (if x.Command? then 3 else 0), p.head)
            && DeliveryOf(p) == Delivery(p.kind, |p.payload| + (if x.Command? then 3 else 0), p.head, p.payload)
  {
    hide HeadLen, PayloadLen, Parse, WellFormed;
    AsItemIs(x);
    PathsAgree(Meant(x)[0], Wire(x));
  }

  lemma FirstIs(accept: seq<bool>, k: nat, limit: nat)
    ensures var m := FirstAccepted(accept, k, limit);
            if m < k + limit then Accepts(accept, m) && FirstOf(accept, k, m - k + 1)
            else !exists q | k <= q < k + limit :: Accepts(accept, q)
  {
  }

  /** Of the requests from number `k` on, number `n` is the first that is accepted. */
  predicate FirstOf(accept: seq<bool>, k: nat, n: nat) {
    n > 0 && Accepts(accept, k + n - 1) && forall m | k <= m < k + n - 1 :: !Accepts(accept, m)
  }
}

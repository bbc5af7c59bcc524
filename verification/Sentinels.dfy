/** Forwarding between servers, src/octopus/srv/sentinel.go: frames of a 32-bit length, a 64-bit user
    id and a message, with keepalives of four zero bytes in between.

    Ids are 64-bit patterns. Writes do not fail and the tables of peers and routes are given. */
module Sentinels {

  import opened Bytes
  import opened Streams

  datatype Event = Packet(id: u64, msg: seq<byte>) | KeepAlive

  const LONGEST := 1024

  predicate Fits(e: Event) {
    e.Packet? ==> 8 + |e.msg| <= LONGEST
  }

  function EventBytes(e: Event): seq<byte> {
    match e
    case KeepAlive => [0, 0, 0, 0]
    case Packet(id, msg) => Put32((8 + |msg|) % 0x1_0000_0000) + Put64(id) + msg
  }

  /** A packet is 12 bytes and the message: the length of id and message in four bytes and the id in
      eight, both in little-endian order; a keepalive is a length of 0. */
  lemma EventOnWire(id: u64, msg: seq<byte>, i: nat)
    requires 8 + |msg| <= 1024
    ensures EventBytes(KeepAlive) == [0, 0, 0, 0] && Fits(Packet(id, msg))
    ensures var s, n := EventBytes(Packet(id, msg)), 8 + |msg|;
            && |s| == 12 + |msg| && s[12..] == msg
            && s[0] == n % 256 && s[1] == n / 256 && s[2] == 0 && s[3] == 0
            && (i < 8 ==> s[4 + i] == ShiftRight(id, i) % 256)
  {
    hide Little, ShiftRight;
    var n := 8 + |msg|;
    PutBytes(0, n);
    if i < 8 { LittleAt(id, 8, i); }
  }

  /** The bytes of the events, in order. */
  ghost function Wire(events: seq<Event>): seq<byte> {
    if |events| == 0 then [] else Wire(events[..|events| - 1]) + EventBytes(events[|events| - 1])
  }

  lemma {:induction false} WireFromFront(events: seq<Event>)
    requires |events| > 0
    ensures Wire(events) == EventBytes(events[0]) + Wire(events[1..])
  {
    hide EventBytes;
    var last := |events| - 1;
    if last == 0 {
      assert events[..0] == [] && events[1..] == [];
    } else {
      WireFromFront(events[..last]);
      assert events[..last][1..] == events[1..][..last - 1];
    }
  }

  ghost predicate AllFit(events: seq<Event>) {
    forall i :: 0 <= i < |events| ==> Fits(events[i])
  }

  datatype Delivery = Delivery(id: u64, msg: seq<byte>)

  lemma WireAppend(events: seq<Event>, e: Event)
    requires AllFit(events) && Fits(e)
    ensures Wire(events + [e]) == Wire(events) + EventBytes(e) && AllFit(events + [e])
  {
    hide EventBytes;
    assert (events + [e])[..|events|] == events;
  }

  /** The packets among the events. */
  function Delivered(events: seq<Event>): seq<Delivery> {
    if |events| == 0 then []
    else
      (match events[0]
       case KeepAlive => []
       case Packet(id, msg) => [Delivery(id, msg)]) + Delivered(events[1..])
  }

  // ----- sending -----

  /** A user without a route has the empty string for an address. */
  function Route(routes: map<u64, string>, id: u64): string {
    if id in routes then routes[id] else ""
  }

  lemma RouteMeans(routes: map<u64, string>, id: u64)
    ensures id in routes ==> Route(routes, id) == routes[id]
    ensures id !in routes ==> Route(routes, id) == []
  {
  }

  type Log = map<string, seq<Event>>

  function Forwarded(log: Log, routes: map<u64, string>, ids: seq<u64>, msg: seq<byte>): Log {
    if |ids| == 0 then log
    else
      var last := |ids| - 1;
      var sent := Forwarded(log, routes, ids[..last], msg);
      var to := Route(routes, ids[last]);
      if to in sent && Fits(Packet(ids[last], msg)) then sent[to := sent[to] + [Packet(ids[last], msg)]]
      else sent
  }

  lemma {:induction false} TooLong(log: Log, routes: map<u64, string>, ids: seq<u64>, msg: seq<byte>)
    requires |msg| > 1016
    ensures Forwarded(log, routes, ids, msg) == log
  {
    if |ids| > 0 { TooLong(log, routes, ids[..|ids| - 1], msg); }
  }

  /** The packets for the ids routed to one address. */
  function PacketsTo(to: string, routes: map<u64, string>, ids: seq<u64>, msg: seq<byte>): seq<Event> {
    if |ids| == 0 then []
    else
      var last := |ids| - 1;
      PacketsTo(to, routes, ids[..last], msg)
      + if Route(routes, ids[last]) == to then [Packet(ids[last], msg)] else []
  }

  /** What a peer is sent for an id, told from the table of routes: one packet when the route is the
      peer's address, or when there is no route and the address is empty. */
  lemma SentForId(to: string, routes: map<u64, string>, ids: seq<u64>, id: u64, msg: seq<byte>)
    ensures PacketsTo(to, routes, ids + [id], msg)
         == PacketsTo(to, routes, ids, msg)
            + if (id in routes && routes[id] == to) || (id !in routes && to == "") then [Packet(id, msg)] else []
  {
    assert (ids + [id])[..|ids|] == ids;
  }

  /** Every peer gets the packets for the ids routed to it, in order, and nothing else. */
  lemma {:induction false} ForwardedTo(log: Log, routes: map<u64, string>, ids: seq<u64>, msg: seq<byte>, to: string)
    requires |msg| <= 1016
    ensures Forwarded(log, routes, ids, msg).Keys == log.Keys
    ensures to in log ==> Forwarded(log, routes, ids, msg)[to] == log[to] + PacketsTo(to, routes, ids, msg)
  {
    if |ids| > 0 {
      var last := |ids| - 1;
      ForwardedTo(log, routes, ids[..last], msg, to);
      ForwardedKeys(log, routes, ids[..last], msg);
    }
  }

  lemma {:induction false} ForwardedKeys(log: Log, routes: map<u64, string>, ids: seq<u64>, msg: seq<byte>)
    ensures Forwarded(log, routes, ids, msg).Keys == log.Keys
  {
    if |ids| > 0 { ForwardedKeys(log, routes, ids[..|ids| - 1], msg); }
  }

  class SentinelMgr {
    /** The bytes written to the connection of each peer. */
    var sentinels: map<string, seq<byte>>
    var usr2sentinel: map<u64, string>

    /** What was sent to each peer. */
    ghost var log: Log

    ghost predicate Valid()
      reads this
    {
      log.Keys == sentinels.Keys && forall a :: a in log ==> AllFit(log[a]) && sentinels[a] == Wire(log[a])
    }

    constructor (peers: set<string>, routes: map<u64, string>)
      ensures Valid() && usr2sentinel == routes
      ensures log == map a | a in peers :: []
    {
      sentinels := map a | a in peers :: [];
      log := map a | a in peers :: [];
      usr2sentinel := routes;
    }

    /** Each peer is sent the message once for each id routed to it, in the order of ids; nobody is
        sent anything when the message is too long. */
    method Forward(ids: seq<u64>, msg: seq<byte>)
      requires Valid()
      modifies this
      ensures Valid() && usr2sentinel == old(usr2sentinel)
      ensures log == Forwarded(old(log), usr2sentinel, ids, msg)
    {
      hide Valid, EventBytes;
      for i := 0 to |ids|
        invariant Valid() && usr2sentinel == old(usr2sentinel)
        invariant log == Forwarded(old(log), usr2sentinel, ids[..i], msg)
        invariant 8 + |msg| > LONGEST ==> log == old(log)
      {
        var id := ids[i];
        assert ids[..i + 1][..i] == ids[..i];
        var to := if id in usr2sentinel then usr2sentinel[id] else "";
        ValidKeys();
        if to in sentinels {
          var length := 8 + |msg|;
          if length > LONGEST {
            TooLong(log, usr2sentinel, ids, msg);
            return;
          }
          var p := FrameOf(id, msg);
          Write(to, p, Packet(id, msg));
        }
      }
      assert ids[..|ids|] == ids;
    }

    static method FrameOf(id: u64, msg: seq<byte>) returns (p: seq<byte>)
      requires 8 + |msg| <= LONGEST
      ensures p == EventBytes(Packet(id, msg))
    {
      p := Put32(8 + |msg|) + Put64(id) + msg;
    }

    lemma ValidKeys()
      requires Valid()
      ensures log.Keys == sentinels.Keys
    {
    }

    method Ping(to: string)
      requires Valid() && to in sentinels
      modifies this
      ensures Valid() && usr2sentinel == old(usr2sentinel)
      ensures log == old(log)[to := old(log)[to] + [KeepAlive]]
    {
      Write(to, [0, 0, 0, 0], KeepAlive);
    }

    method Write(to: string, p: seq<byte>, ghost e: Event)
      requires Valid() && to in sentinels && Fits(e) && p == EventBytes(e)
      modifies this
      ensures Valid() && usr2sentinel == old(usr2sentinel)
      ensures log == old(log)[to := old(log)[to] + [e]]
    {
      hide EventBytes, Wire, AllFit;
      ghost var before := log[to];
      WireAppend(before, e);
      sentinels := sentinels[to := sentinels[to] + p];
      log := log[to := before + [e]];
    }
  }

  // ----- receiving -----

  /** What a monitor hands on, and whether it stopped by indexing past a payload of under 8 bytes. */
  datatype Session = Session(deliveries: seq<Delivery>, crashed: bool)

  /** The frame at the front of s: More when it is not all there. */
  datatype Head = More | Empty | Short | Whole(size: nat, delivery: Delivery)

  function HeadOf(s: seq<byte>): (h: Head)
    ensures h.Whole? ==> 4 + h.size <= |s|
    ensures h.Empty? ==> 4 <= |s|
  {
    if |s| < 4 then More
    else
      var size := Get32(s[..4]);
      if size == 0 then Empty
      else if |s| - 4 < size then More
      else if size < 8 then Short
      else Whole(size, Delivery(Get64(s[4..12]), s[12..4 + size]))
  }

  /** The front of any byte string: a length of 0 is skipped, a length of 1 to 7 with its bytes there stops
      the monitor, and a longer one brings an id and a message. */
  lemma HeadMeans(s: seq<byte>, k: nat)
    requires |s| >= 4 && k < 8
    ensures var size := s[0] as int + 256 * (s[1] as int + 256 * (s[2] as int + 256 * s[3] as int));
            var h := HeadOf(s);
            if size == 0 then h == Empty
            else if |s| < 4 + size then h == More
            else if size < 8 then h == Short
            else h.Whole? && h.size == size && h.delivery.msg == s[12..4 + size]
                 && ShiftRight(h.delivery.id, k) % 256 == s[4 + k]
  {
    hide Get32, Get64, ShiftRight;
    GetBytes([0, 0], s[..4]);
    if |s| >= 12 { Get64Byte(s[4..12], k); }
  }

  function Monitored(s: seq<byte>): Session
    decreases |s|
  {
    match HeadOf(s)
    case More => Session([], false)
    case Short => Session([], true)
    case Empty => Monitored(s[4..])
    case Whole(size, d) =>
      var r := Monitored(s[4 + size..]);
      Session([d] + r.deliveries, r.crashed)
  }

  method Monitor(conn: Source) returns (deliveries: seq<Delivery>, crashed: bool)
    modifies conn
    ensures Session(deliveries, crashed) == Monitored(old(conn.incoming))
  {
    hide HeadOf;
    deliveries, crashed := [], false;
    while true
      invariant !crashed
      invariant var r := Monitored(conn.incoming);
                Monitored(old(conn.incoming)) == Session(deliveries + r.deliveries, r.crashed)
      decreases |conn.incoming|
    {
      ghost var s := conn.incoming;
      var h := ReadHead(conn);
      match h {
        case More =>
          return;
        case Short =>
          return deliveries, true;
        case Empty =>
        case Whole(_, d) =>
          ghost var rest := Monitored(conn.incoming).deliveries;
          assert deliveries + ([d] + rest) == (deliveries + [d]) + rest;
          deliveries := deliveries + [d];
      }
    }
  }

  /** One turn of the loop. */
  method ReadHead(conn: Source) returns (h: Head)
    modifies conn
    ensures h == HeadOf(old(conn.incoming))
    ensures h.Empty? ==> conn.incoming == old(conn.incoming)[4..]
    ensures h.Whole? ==> conn.incoming == old(conn.incoming)[4 + h.size..]
    ensures h.Empty? || h.Whole? ==> |conn.incoming| < |old(conn.incoming)|
  {
    ghost var s := conn.incoming;
    var h4 := new byte[4](_ => 0);
    var n, failed := ReadFull(conn, h4);
    if n == 0 || failed { return More; }
    assert h4[..4] == h4[..] == s[..4];
    var size := Get32(h4[..]);
    if size == 0 { return Empty; }
    var data := new byte[size](_ => 0);
    n, failed := ReadFull(conn, data);
    if failed { return More; }
    if size < 8 { return Short; }
    assert data[..n] == data[..];
    PayloadParts(s, data[..], size);
    return Whole(size, Delivery(Get64(data[..8]), data[8..]));
  }

  lemma PayloadParts(s: seq<byte>, data: seq<byte>, size: nat)
    requires 8 <= size && 4 + size <= |s| && data == s[4..][..size]
    ensures data[..8] == s[4..12] && data[8..] == s[12..4 + size] && s[4..][size..] == s[4 + size..]
  {
  }

  // ----- what arrives -----

  lemma HeadOfEvent(e: Event, rest: seq<byte>)
    requires Fits(e)
    ensures var s := EventBytes(e) + rest;
            && s[|EventBytes(e)|..] == rest
            && HeadOf(s) == match e
                            case KeepAlive => Empty
                            case Packet(id, msg) => Whole(8 + |msg|, Delivery(id, msg))
    ensures |EventBytes(e)| == match e case KeepAlive => 4 case Packet(_, msg) => 12 + |msg|
  {
    var s := EventBytes(e) + rest;
    match e {
      case KeepAlive =>
        Get32OfPut(0);
        assert s[..4] == [0, 0, 0, 0];
        assert Put32(0) == [0, 0, 0, 0];
      case Packet(id, msg) =>
        Get32OfPut(8 + |msg|);
        Get64OfPut(id);
        assert s[..4] == Put32(8 + |msg|);
        assert s[4..12] == Put64(id);
        assert s[12..12 + |msg|] == msg;
    }
  }

  lemma NothingArrives()
    ensures Wire([]) == [] && HeadOf([]) == More
  {
  }

  /** The monitor turns what was sent into the same packets in the same order, whatever keepalives lie
      between them. */
  lemma {:induction false} StreamArrives(events: seq<Event>)
    requires AllFit(events)
    ensures Monitored(Wire(events)) == Session(Delivered(events), false)
  {
    hide EventBytes, HeadOf, Wire;
    if |events| == 0 {
      NothingArrives();
    } else {
      WireFromFront(events);
      HeadOfEvent(events[0], Wire(events[1..]));
      StreamArrives(events[1..]);
    }
  }

  lemma HeadOfLonger(s: seq<byte>, t: seq<byte>)
    requires !HeadOf(s).More?
    ensures HeadOf(s + t) == HeadOf(s)
  {
    assert (s + t)[..4] == s[..4];
    if HeadOf(s).Whole? {
      assert (s + t)[4..12] == s[4..12];
      assert (s + t)[12..4 + HeadOf(s).size] == s[12..4 + HeadOf(s).size];
    }
  }

  /** More bytes only add deliveries, and nothing follows a crash. */
  lemma {:induction false} MoreBytes(s: seq<byte>, t: seq<byte>)
    ensures Monitored(s).deliveries <= Monitored(s + t).deliveries
    ensures Monitored(s).crashed ==> Monitored(s + t) == Monitored(s)
    decreases |s|
  {
    hide HeadOf;
    if !HeadOf(s).More? {
      HeadOfLonger(s, t);
      match HeadOf(s) {
        case Short =>
        case Empty =>
          assert (s + t)[4..] == s[4..] + t;
          MoreBytes(s[4..], t);
        case Whole(size, _) =>
          assert (s + t)[4 + size..] == s[4 + size..] + t;
          MoreBytes(s[4 + size..], t);
      }
    }
  }

  /** However much of the stream has come in, the monitor has handed on the first of the packets sent
      and has not crashed. */
  lemma PartArrives(events: seq<Event>, k: nat)
    requires AllFit(events) && k <= |Wire(events)|
    ensures Monitored(Wire(events)[..k]).deliveries <= Delivered(events)
    ensures !Monitored(Wire(events)[..k]).crashed
  {
    StreamArrives(events);
    MoreBytes(Wire(events)[..k], Wire(events)[k..]);
    assert Wire(events) == Wire(events)[..k] + Wire(events)[k..];
  }

  /** After any run of forwards and keepalives each peer's monitor delivers what its log holds. */
  lemma PeerReceives(m: SentinelMgr, a: string)
    requires m.Valid() && a in m.sentinels
    ensures Monitored(m.sentinels[a]) == Session(Delivered(m.log[a]), false)
  {
    StreamArrives(m.log[a]);
  }
}

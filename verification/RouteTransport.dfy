/** The path of a route table from the root's router to another node's cache:
    packing, serial frame, the root's radio, the receiver's radio, serial frame,
    unpacking (node/darknet_node.py, protocol/protocol.py, src/main.cpp). */
module RouteTransport {
  import opened Common
  import opened Frames
  import opened FrameParsers
  import Codec
  import Dijkstra
  import RouteProperties
  import RouteTable
  import Walks

  const PKT_RT: byte := 0x08
  const MAX_HOPS: byte := 5

  type int16 = x: int | -0x8000 <= x < 0x8000

  function ToWire(x: int16): uint16 {
    if x < 0 then x + 0x1_0000 else x
  }

  function FromWire(u: uint16): int16 {
    if u < 0x8000 then u else u - 0x1_0000
  }

  // ---- Root side ----

  /** A route as the table packet carries it. */
  function RouteTriple(d: NodeId, r: Dijkstra.Route): Codec.Triple
    requires d < 256 && r.nextHop < 256 && r.hops < 256
  {
    Codec.Triple(d, r.nextHop, r.hops)
  }

  ghost predicate FitsBytes(routes: map<NodeId, Dijkstra.Route>) {
    forall d :: d in routes ==> d < 256 && routes[d].nextHop < 256 && routes[d].hops < 256
  }

  /** `order` is the order in which the dictionary yields its destinations. */
  ghost predicate Lists(routes: map<NodeId, Dijkstra.Route>, order: seq<NodeId>) {
    Distinct(order) && forall d :: d in order <==> d in routes
  }

  function Entries(routes: map<NodeId, Dijkstra.Route>, order: seq<NodeId>): (ts: seq<Codec.Triple>)
    requires forall d :: d in order ==> d in routes && d < 256 && routes[d].nextHop < 256 && routes[d].hops < 256
    ensures |ts| == |order|
    ensures forall i :: 0 <= i < |order| ==> ts[i] == RouteTriple(order[i], routes[order[i]])
  {
    seq(|order|, i requires 0 <= i < |order| => RouteTriple(order[i], routes[order[i]]))
  }

  /** The RT packet the root broadcasts. */
  function RtPacket(root: byte, entries: seq<Codec.Triple>, mid: uint16): Codec.Packet {
    Codec.Packet(Codec.Header(root, BROADCAST_ID, PKT_RT, 0, MAX_HOPS, 0, mid), Codec.PackedRt(root, entries))
  }

  /** `_send_packet`: nothing is written for a packet over the radio's limit. */
  function SerialOut(p: Codec.Packet): seq<byte> {
    match Codec.BuildPacket(p)
    case None => []
    case Some(pkt) => if |pkt| > MAX_PKT_SIZE then [] else Encode(Frame(FRAME_TYPE_SEND, pkt))
  }

  // ---- Receiver side ----

  /** `sendRxFrame`: signal strength, signal-to-noise ratio times ten, packet. */
  function RxFrame(pkt: seq<byte>, rssi: int16, snr10: int16): seq<byte> {
    Encode(Frame(FRAME_TYPE_RECV, RxPayload(pkt, rssi, snr10)))
  }

  function RxPayload(pkt: seq<byte>, rssi: int16, snr10: int16): seq<byte> {
    var r, s := ToWire(rssi), ToWire(snr10);
    [Codec.Lo(r), Codec.Hi(r), Codec.Lo(s), Codec.Hi(s)] + pkt
  }

  datatype Reception = Reception(rssi: int16, snr10: int16, pkt: seq<byte>)

  function ParseRecv(payload: seq<byte>): Option<Reception> {
    if |payload| < 4 then None
    else Some(Reception(FromWire(Codec.Join(payload[0], payload[1])),
                        FromWire(Codec.Join(payload[2], payload[3])), payload[4..]))
  }

  /** The part of a non-root node that routing depends on. */
  datatype NodeState = NodeState(table: RouteTable.State, seenMids: set<(nat, nat)>)

  function ReceivedRoutes(t: Codec.RtTable): map<NodeId, RouteTable.RootInfo> {
    map d: NodeId | d in t.routes ::
      RouteTable.RootInfo(RouteTable.Via(t.routes[d].nextHop), Some(0), Some(t.routes[d].hops as int))
  }

  /** Any node heard becomes the gateway and a direct neighbour, if there is no
      gateway yet. */
  function AfterHearing(table: RouteTable.State, src: NodeId, rssi: int16, now: real): RouteTable.State {
    if table.gateway.None? then
      RouteTable.Step(RouteTable.Step(table, RouteTable.SetDefaultGateway(src, now)),
                      RouteTable.AddDirect(src, rssi, now))
    else table
  }

  /** `_on_lora_recv` up to and including `_handle_rt`, on a node that is not the root. */
  function OnLoraRecv(myId: byte, st: NodeState, r: Reception, now: real): NodeState {
    match Codec.UnpackPacket(r.pkt)
    case None => st
    case Some(p) =>
      if p.header.src == myId then st
      else
        var src: NodeId := p.header.src;
        var table := AfterHearing(st.table, src, r.rssi, now);
        var key := (p.header.mid, p.header.src);
        if key in st.seenMids then NodeState(table, st.seenMids)
        else NodeState(if p.header.ptype == PKT_RT then HandleRt(table, p.payload, now) else table,
                       st.seenMids + {key})
  }

  function HandleRt(table: RouteTable.State, payload: seq<byte>, now: real): RouteTable.State {
    match Codec.UnpackedRt(payload)
    case None => table
    case Some(t) => RouteTable.Step(table, RouteTable.UpdateFromRoot(ReceivedRoutes(t), Some(t.gateway), now))
  }

  /** `_on_frame`: only RECV frames carry packets. */
  function OnFrame(myId: byte, st: NodeState, f: Frame, now: real): NodeState {
    if f.ftype != FRAME_TYPE_RECV then st
    else
      match ParseRecv(f.payload)
      case None => st
      case Some(r) => OnLoraRecv(myId, st, r, now)
  }

  class Node {
    const myId: byte
    const routeTable: RouteTable.RouteTable
    var seenMids: set<(nat, nat)>

    ghost function Contents(): NodeState
      reads this, routeTable
    {
      NodeState(routeTable.Contents(), seenMids)
    }

    constructor (id: byte)
      ensures myId == id && fresh(routeTable)
      ensures Contents() == NodeState(RouteTable.State(map[], None, 0.0), {})
    {
      myId := id;
      routeTable := new RouteTable.RouteTable(id);
      seenMids := {};
    }

    method HandleFrame(f: Frame, now: real)
      modifies this, routeTable
      ensures Contents() == OnFrame(myId, old(Contents()), f, now)
    {
      if f.ftype != FRAME_TYPE_RECV {
        return;
      }
      var parsed := ParseRecv(f.payload);
      if parsed.None? {
        return;
      }
      var r := parsed.value;
      var packet := Codec.UnpackPacket(r.pkt);
      if packet.None? {
        return;
      }
      var p := packet.value;
      if p.header.src == myId {
        return;
      }
      if routeTable.defaultGateway.None? {
        routeTable.SetDefaultGateway(p.header.src, now);
        routeTable.AddDirect(p.header.src, r.rssi, now);
      }
      var key := (p.header.mid, p.header.src);
      if key in seenMids {
        return;
      }
      seenMids := seenMids + {key};
      if p.header.ptype == PKT_RT {
        var body := Codec.UnpackRt(p.payload);
        if body.Some? {
          routeTable.UpdateFromRoot(ReceivedRoutes(body.value), Some(body.value.gateway), now);
        }
      }
    }
  }

  // ---- What a frame can do to a node's table ----

  /** The packet a frame brings from another node, if it brings one: a frame of type
      'R' with four bytes of signal data and then a valid packet that is not our own. */
  function Brought(myId: byte, f: Frame): Option<Codec.Packet> {
    if f.ftype == 'R' as int && 4 <= |f.payload| then
      match Codec.UnpackPacket(f.payload[4..])
      case None => None
      case Some(p) => if p.header.src == myId then None else Some(p)
    else None
  }

  predicate SeenBefore(st: NodeState, p: Codec.Packet) {
    (p.header.mid as nat, p.header.src as nat) in st.seenMids
  }

  /** What brings nothing changes nothing; what brings a packet is remembered. */
  lemma OnlyPacketsCount(myId: byte, st: NodeState, f: Frame, now: real)
    ensures Brought(myId, f).None? ==> OnFrame(myId, st, f, now) == st
    ensures Brought(myId, f).Some? ==>
              var h := Brought(myId, f).value.header;
              OnFrame(myId, st, f, now).seenMids == st.seenMids + {(h.mid as nat, h.src as nat)}
  {
  }

  /** A node that has a gateway changes its table only at an RT packet (type 8, at
      least gateway and count) that it has not seen before. */
  lemma OnlyRoutesChangeTheTable(myId: byte, st: NodeState, f: Frame, now: real)
    requires st.table.gateway.Some? && OnFrame(myId, st, f, now).table != st.table
    ensures Brought(myId, f).Some?
    ensures var p := Brought(myId, f).value;
            p.header.ptype == 8 && !SeenBefore(st, p) && 2 <= |p.payload|
  {
  }

  /** Then the packet's entries replace all routes for 300 seconds, and its gateway the
      old one unless it is 0. */
  lemma RoutesReplaceTheTable(myId: byte, st: NodeState, f: Frame, now: real)
    requires Brought(myId, f).Some?
    requires var p := Brought(myId, f).value;
             p.header.ptype == 8 && !SeenBefore(st, p) && 2 <= |p.payload|
    ensures var p, after := Brought(myId, f).value, OnFrame(myId, st, f, now).table;
            var t := Codec.UnpackedRt(p.payload).value;
            (forall d: NodeId :: d in after.routes <==> d in t.routes)
            && (forall d: NodeId :: d in after.routes ==>
                  after.routes[d].nextHop == RouteTable.Via(t.routes[d].nextHop) && after.routes[d].cost == 0
                  && after.routes[d].hops == t.routes[d].hops && after.routes[d].expires == now + 300.0)
            && after.updatedAt == now
            && (p.payload[0] != 0 ==> after.gateway == Some(p.payload[0] as NodeId))
            && (p.payload[0] == 0 && st.table.gateway.Some? ==> after.gateway == st.table.gateway)
            && (p.payload[0] == 0 && st.table.gateway.None? ==> after.gateway == Some(p.header.src as NodeId))
  {
    Codec.RtReads(Brought(myId, f).value.payload);
  }

  /** A node without a gateway takes the first node it hears for one, and as a direct
      neighbour for 300 seconds; any other route stays. */
  lemma FirstHeardIsGateway(myId: byte, st: NodeState, f: Frame, now: real)
    requires st.table.gateway.None? && Brought(myId, f).Some?
    requires var p := Brought(myId, f).value; p.header.ptype != 8 || SeenBefore(st, p) || |p.payload| < 2
    ensures var src, after := Brought(myId, f).value.header.src as NodeId, OnFrame(myId, st, f, now).table;
            var rssi := Codec.Join(f.payload[0], f.payload[1]);
            after.gateway == Some(src) && after.updatedAt == st.table.updatedAt
            && src in after.routes && after.routes == st.table.routes[src := after.routes[src]]
            && after.routes[src].nextHop == RouteTable.Direct && after.routes[src].hops == 0
            && after.routes[src].expires == now + 300.0
            && after.routes[src].cost == (if rssi < 0x8000 then rssi - 49 else 0x1_0000 - rssi - 49)
  {
  }

  /** The same frame a second time, whenever, changes nothing more. */
  lemma RepeatedFrameIsIgnored(myId: byte, st: NodeState, f: Frame, now: real, later: real)
    ensures OnFrame(myId, OnFrame(myId, st, f, now), f, later) == OnFrame(myId, st, f, now)
  {
    OnlyPacketsCount(myId, st, f, now);
    if Brought(myId, f).Some? {
      GatewayStays(myId, st, f, now);
      var once := OnFrame(myId, st, f, now);
      assert SeenBefore(once, Brought(myId, f).value);
      OnlyPacketsCount(myId, once, f, later);
      if OnFrame(myId, once, f, later).table != once.table {
        OnlyRoutesChangeTheTable(myId, once, f, later);
      }
    }
  }

  /** After any packet there is a gateway. */
  lemma GatewayStays(myId: byte, st: NodeState, f: Frame, now: real)
    requires Brought(myId, f).Some?
    ensures OnFrame(myId, st, f, now).table.gateway.Some?
  {
  }

  // ---- What is written ----

  /** A packet goes out as one frame of type 'S', unless it is over 240 bytes. */
  lemma SerialOutMeans(p: Codec.Packet)
    ensures 12 + |p.payload| <= 240 ==>
              Codec.BuildPacket(p).Some? && SerialOut(p) == Encode(Frame('S' as int, Codec.BuildPacket(p).value))
    ensures 240 < 12 + |p.payload| ==> SerialOut(p) == []
  {
  }

  /** The root's table packet: from the root to everyone, type 8, no hops yet, a TTL of
      5, no flags, the root as gateway. */
  lemma RtPacketMeans(root: byte, entries: seq<Codec.Triple>, mid: uint16)
    ensures var p := RtPacket(root, entries, mid);
            p.header == Codec.Header(root, 255, 8, 0, 5, 0, mid) && |p.payload| <= 227 && p.payload[0] == root
  {
    Codec.RtLayout(root, entries);
  }

  /** Signal data come first, as 16-bit two's complement, low byte first. */
  lemma RxPayloadLayout(pkt: seq<byte>, rssi: int16, snr10: int16)
    ensures var s := RxPayload(pkt, rssi, snr10);
            |s| == 4 + |pkt| && s[4..] == pkt
            && s[0] as int + 256 * (s[1] as int) == rssi as int % 0x1_0000
            && s[2] as int + 256 * (s[3] as int) == snr10 as int % 0x1_0000
  {
  }

  // ---- The hops of the journey ----

  lemma WireRoundTrip(x: int16)
    ensures FromWire(Codec.Join(Codec.Lo(ToWire(x)), Codec.Hi(ToWire(x)))) == x
  {
    Codec.JoinSplit(ToWire(x), 0, 0);
  }

  lemma RxPayloadParses(pkt: seq<byte>, rssi: int16, snr10: int16)
    ensures ParseRecv(RxPayload(pkt, rssi, snr10)) == Some(Reception(rssi, snr10, pkt))
  {
    WireRoundTrip(rssi);
    WireRoundTrip(snr10);
    assert RxPayload(pkt, rssi, snr10)[4..] == pkt;
  }

  /** The root's firmware puts exactly the packet on the air. */
  lemma RootTransmits(p: Codec.Packet)
    requires |p.payload| + Codec.HEADER_SIZE <= MAX_PKT_SIZE
    ensures SendPayloads(Out(FIRMWARE, Wait1, SerialOut(p))) == [Codec.BuildPacket(p).value]
  {
    var f := Frame(FRAME_TYPE_SEND, Codec.BuildPacket(p).value);
    FrameIsEmitted(FIRMWARE, Wait1, f);
    assert [f][..0] == [];
    AppendEmpty([f.payload]);
  }

  /** The receiver's parser hands over exactly the packet, whether or not it has
      just seen a stray AA. */
  lemma ReceiverGets(st: State, pkt: seq<byte>, rssi: int16, snr10: int16)
    requires Ready(PYTHON, st) && |pkt| <= MAX_PKT_SIZE
    ensures Out(PYTHON, st, RxFrame(pkt, rssi, snr10)) == [Frame(FRAME_TYPE_RECV, RxPayload(pkt, rssi, snr10))]
  {
    FrameIsEmitted(PYTHON, st, Frame(FRAME_TYPE_RECV, RxPayload(pkt, rssi, snr10)));
  }

  // ---- What arrives ----

  /** The receiver's table: the first 75 routes of the root, with its next hops and
      hop counts, cost 0, good for 300 seconds. */
  ghost predicate Arrived(routes: map<NodeId, Dijkstra.Route>, order: seq<NodeId>,
                          table: map<NodeId, RouteTable.TableRoute>, now: real)
  {
    (forall d :: d in table <==> d in Codec.Limited(order, 75))
    && forall d :: d in table && d in routes ==>
         table[d] == RouteTable.TableRoute(RouteTable.Via(routes[d].nextHop), 0, routes[d].hops, now + 300.0)
  }

  /** The decoded dictionary holds the root's next hops and hop counts, for the
      destinations that fitted. */
  ghost predicate Carries(t: map<byte, Codec.RtRoute>, routes: map<NodeId, Dijkstra.Route>, order: seq<NodeId>) {
    (forall d: NodeId :: d in t <==> d in Codec.Limited(order, 75))
    && forall d: NodeId :: d in t ==> d in routes && t[d].nextHop == routes[d].nextHop && t[d].hops == routes[d].hops
  }

  lemma UnpackedEntries(routes: map<NodeId, Dijkstra.Route>, order: seq<NodeId>)
    requires FitsBytes(routes) && Lists(routes, order)
    ensures Carries(Codec.TableOf(Codec.Limited(Entries(routes, order), 75)), routes, order)
  {
    var kept := Codec.Limited(order, 75);
    var ts := Codec.Limited(Entries(routes, order), 75);
    assert |ts| == |kept|;
    assert forall i :: 0 <= i < |ts| ==> kept[i] == order[i] && ts[i] == RouteTriple(order[i], routes[order[i]]);
    Codec.TableHoldsEntries(ts);
    forall d: NodeId | d in Codec.TableOf(ts) ensures d in kept {
      var i :| 0 <= i < |ts| && ts[i].a == d;
      assert kept[i] == d;
    }
    forall d: NodeId | d in kept
      ensures d in Codec.TableOf(ts) && d in routes
              && Codec.TableOf(ts)[d] == Codec.RtRoute(routes[d].nextHop, routes[d].hops)
    {
      var i :| 0 <= i < |kept| && kept[i] == d;
      assert ts[i].a == d && order[i] in order;
    }
  }

  lemma StoredArrives(t: Codec.RtTable, routes: map<NodeId, Dijkstra.Route>, order: seq<NodeId>, now: real)
    requires Carries(t.routes, routes, order)
    ensures Arrived(routes, order, RouteTable.StoredAll(ReceivedRoutes(t), now), now)
  {
    var received := ReceivedRoutes(t);
    var stored := RouteTable.StoredAll(received, now);
    assert forall d: NodeId :: d in stored <==> d in t.routes;
    forall d: NodeId | d in stored && d in routes
      ensures stored[d] == RouteTable.TableRoute(RouteTable.Via(routes[d].nextHop), 0, routes[d].hops, now + 300.0)
    {
      assert stored[d] == RouteTable.Stored(received[d], now);
    }
  }

  lemma HandledTable(table: RouteTable.State, t: Codec.RtTable, payload: seq<byte>, now: real, after: RouteTable.State)
    requires Codec.UnpackedRt(payload) == Some(t) && after == HandleRt(table, payload, now)
    ensures after.routes == RouteTable.StoredAll(ReceivedRoutes(t), now)
    ensures after.gateway == (if t.gateway != 0 then Some(t.gateway as NodeId) else table.gateway)
  {
  }

  lemma HandledRt(table: RouteTable.State, root: byte, routes: map<NodeId, Dijkstra.Route>, order: seq<NodeId>,
                  now: real, after: RouteTable.State)
    requires FitsBytes(routes) && Lists(routes, order)
    requires after == HandleRt(table, Codec.PackedRt(root, Entries(routes, order)), now)
    ensures Arrived(routes, order, after.routes, now)
    ensures after.gateway == (if root != 0 then Some(root as NodeId) else table.gateway)
  {
    var entries := Entries(routes, order);
    var t := Codec.RtTable(root, Codec.TableOf(Codec.Limited(entries, 75)));
    Codec.RtRoundTrip(root, entries);
    HandledTable(table, t, Codec.PackedRt(root, entries), now, after);
    UnpackedEntries(routes, order);
    StoredArrives(t, routes, order, now);
  }

  lemma RecvFrame(myId: byte, node: NodeState, pkt: seq<byte>, rssi: int16, snr10: int16, now: real)
    ensures OnFrame(myId, node, Frame(FRAME_TYPE_RECV, RxPayload(pkt, rssi, snr10)), now)
            == OnLoraRecv(myId, node, Reception(rssi, snr10, pkt), now)
  {
    RxPayloadParses(pkt, rssi, snr10);
  }

  lemma UnpackExactly(p: Codec.Packet)
    requires Codec.BuildPacket(p).Some?
    ensures Codec.UnpackPacket(Codec.BuildPacket(p).value) == Some(p)
  {
    Codec.UnpackBuilt(p, []);
    AppendEmpty(Codec.BuildPacket(p).value);
  }

  lemma NewRtPacket(myId: byte, node: NodeState, p: Codec.Packet, r: Reception, now: real)
    requires Codec.UnpackPacket(r.pkt) == Some(p) && p.header.ptype == PKT_RT && p.header.src != myId
    requires (p.header.mid as nat, p.header.src as nat) !in node.seenMids
    ensures OnLoraRecv(myId, node, r, now).table
            == HandleRt(AfterHearing(node.table, p.header.src, r.rssi, now), p.payload, now)
  {
  }

  lemma ReceivedRt(myId: byte, node: NodeState, root: byte, entries: seq<Codec.Triple>, mid: uint16,
                   rssi: int16, snr10: int16, now: real, pkt: seq<byte>)
    requires Codec.BuildPacket(RtPacket(root, entries, mid)) == Some(pkt)
    requires myId != root && (mid as nat, root as nat) !in node.seenMids
    ensures OnFrame(myId, node, Frame(FRAME_TYPE_RECV, RxPayload(pkt, rssi, snr10)), now).table
            == HandleRt(AfterHearing(node.table, root, rssi, now), Codec.PackedRt(root, entries), now)
  {
    RecvFrame(myId, node, pkt, rssi, snr10, now);
    UnpackExactly(RtPacket(root, entries, mid));
    NewRtPacket(myId, node, RtPacket(root, entries, mid), Reception(rssi, snr10, pkt), now);
  }

  /** The wire part: what the root's firmware transmits and the receiver's parser yields. */
  lemma OnTheWire(p: Codec.Packet, parser: State, rssi: int16, snr10: int16, pkt: seq<byte>)
    requires |p.payload| + Codec.HEADER_SIZE <= MAX_PKT_SIZE && Ready(PYTHON, parser)
    requires pkt == Codec.BuildPacket(p).value
    ensures SendPayloads(Out(FIRMWARE, Wait1, SerialOut(p))) == [pkt]
    ensures Out(PYTHON, parser, RxFrame(pkt, rssi, snr10)) == [Frame(FRAME_TYPE_RECV, RxPayload(pkt, rssi, snr10))]
  {
    RootTransmits(p);
    ReceiverGets(parser, pkt, rssi, snr10);
  }

  /** The table part: what handling the received frame leaves behind. */
  lemma IntoTheTable(root: byte, routes: map<NodeId, Dijkstra.Route>, order: seq<NodeId>, mid: uint16,
                     rssi: int16, snr10: int16, myId: byte, node: NodeState, now: real, pkt: seq<byte>,
                     after: RouteTable.State)
    requires FitsBytes(routes) && Lists(routes, order)
    requires myId != root && (mid as nat, root as nat) !in node.seenMids
    requires pkt == Codec.BuildPacket(RtPacket(root, Entries(routes, order), mid)).value
    requires after == OnFrame(myId, node, Frame(FRAME_TYPE_RECV, RxPayload(pkt, rssi, snr10)), now).table
    ensures Arrived(routes, order, after.routes, now)
    ensures after.gateway == (if root != 0 then Some(root as NodeId)
                              else if node.table.gateway.None? then Some(0) else node.table.gateway)
  {
    ReceivedRt(myId, node, root, Entries(routes, order), mid, rssi, snr10, now, pkt);
    HandledRt(AfterHearing(node.table, root, rssi, now), root, routes, order, now, after);
  }

  /** Route table transport. On a noise-free link, the shortest routes the root
      computed arrive in the table of any other node that has not seen the packet:
      for every one of the first 75 destinations the root's next hop and hop count,
      and nothing else. The root becomes the default gateway unless its id is 0. */
  lemma RouteTableTransport(g: Walks.Edges, root: byte, routes: map<NodeId, Dijkstra.Route>, order: seq<NodeId>,
                            mid: uint16, rssi: int16, snr10: int16,
                            parser: State, myId: byte, node: NodeState, now: real)
    returns (pkt: seq<byte>, f: Frame, after: RouteTable.State)
    requires Dijkstra.IsRouteMap(g, root, routes) && Lists(routes, order)
    requires forall u :: u in Walks.Universe(g, root) ==> u < 256
    requires Ready(PYTHON, parser) && myId != root && (mid as nat, root as nat) !in node.seenMids
    ensures FitsBytes(routes)
    ensures SendPayloads(Out(FIRMWARE, Wait1, SerialOut(RtPacket(root, Entries(routes, order), mid)))) == [pkt]
    ensures Out(PYTHON, parser, RxFrame(pkt, rssi, snr10)) == [f]
    ensures after == OnFrame(myId, node, f, now).table
    ensures Arrived(routes, order, after.routes, now)
    ensures after.gateway == (if root != 0 then Some(root as NodeId)
                              else if node.table.gateway.None? then Some(0) else node.table.gateway)
  {
    RouteProperties.HopsFitByte(g, root, routes);
    var p := RtPacket(root, Entries(routes, order), mid);
    pkt := Codec.BuildPacket(p).value;
    f := Frame(FRAME_TYPE_RECV, RxPayload(pkt, rssi, snr10));
    after := OnFrame(myId, node, f, now).table;
    OnTheWire(p, parser, rssi, snr10, pkt);
    IntoTheTable(root, routes, order, mid, rssi, snr10, myId, node, now, pkt, after);
  }

  /** Then every transported destination is answered with the root's next hop. */
  lemma TransportedAnswers(routes: map<NodeId, Dijkstra.Route>, order: seq<NodeId>, st: RouteTable.State,
                           now: real, later: real, d: NodeId)
    requires Lists(routes, order) && Arrived(routes, order, st.routes, now)
    requires d in routes && |order| <= 75 && now <= later < now + 300.0
    ensures RouteTable.Answer(st, d, later) == Some(routes[d].nextHop)
  {
    assert d in Codec.Limited(order, 75);
  }
}

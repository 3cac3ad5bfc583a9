/** Building and forwarding messages: `MessageRouter` in routing/router.py. */
module MessageRouter {
  import opened Common
  import RouteTable

  const INITIAL_TTL := 10

  /** A MSG packet; `hops` and `ttl` may be missing from a received one. */
  datatype Message = Message(from: NodeId, to: NodeId, nextHop: NodeId, payload: string, mid: string,
                             hops: Option<int>, ttl: Option<int>)

  function Built(local: NodeId, table: RouteTable.State, now: real, to: NodeId, payload: string, mid: string)
    : Option<Message>
  {
    match RouteTable.Answer(table, to, now)
    case None => None
    case Some(hop) => Some(Message(local, to, hop, payload, mid, Some(0), Some(INITIAL_TTL)))
  }

  function Forwarded(local: NodeId, table: RouteTable.State, now: real, m: Message): Option<Message> {
    var ttl := m.ttl.GetOr(0) - 1;
    if ttl <= 0 || m.to == local then None
    else
      match RouteTable.Answer(table, m.to, now)
      case None => None
      case Some(hop) => Some(m.(nextHop := hop, hops := Some(m.hops.GetOr(0) + 1), ttl := Some(ttl)))
  }

  /** One node handling a message: who it is, what its table holds, and when. */
  datatype Visit = Visit(node: NodeId, table: RouteTable.State, now: real)

  /** How often a message is passed on before some visit ends it. */
  function Forwards(m: Message, visits: seq<Visit>): nat
    decreases |visits|
  {
    if visits == [] then 0
    else
      match Forwarded(visits[0].node, visits[0].table, visits[0].now, m)
      case None => 0
      case Some(m') => 1 + Forwards(m', visits[1..])
  }

  /** The message after the first `n` visits, all of which passed it on. */
  function AfterVisits(m: Message, visits: seq<Visit>, n: nat): Message
    requires n <= Forwards(m, visits)
    decreases n
  {
    if n == 0 then m
    else AfterVisits(Forwarded(visits[0].node, visits[0].table, visits[0].now, m).value, visits[1..], n - 1)
  }

  /** Whatever the tables on its way say, a message is passed on fewer times than its TTL. */
  lemma {:induction false} ForwardsBelowTtl(m: Message, visits: seq<Visit>)
    ensures Forwards(m, visits) == 0 || Forwards(m, visits) < m.ttl.GetOr(0)
    decreases |visits|
  {
    if visits != [] {
      match Forwarded(visits[0].node, visits[0].table, visits[0].now, m)
      case None =>
      case Some(m') => ForwardsBelowTtl(m', visits[1..]);
    }
  }

  /** Each hop moves one unit from TTL to hops and touches nothing else but the next hop. */
  lemma {:induction false} ForwardingKeepsBudget(m: Message, visits: seq<Visit>, n: nat)
    requires n <= Forwards(m, visits)
    ensures var m' := AfterVisits(m, visits, n);
            m'.hops.GetOr(0) == m.hops.GetOr(0) + n && m'.ttl.GetOr(0) == m.ttl.GetOr(0) - n
            && m' == m.(nextHop := m'.nextHop, hops := m'.hops, ttl := m'.ttl)
    decreases n
  {
    if n > 0 {
      ForwardingKeepsBudget(Forwarded(visits[0].node, visits[0].table, visits[0].now, m).value, visits[1..], n - 1);
    }
  }

  /** A message built here keeps hops + ttl == 10 and is forwarded at most 9 times,
      over arbitrary, even cyclic, tables at every node. */
  lemma BuiltMessageTravels(local: NodeId, table: RouteTable.State, now: real, to: NodeId, payload: string,
                            mid: string, visits: seq<Visit>, n: nat)
    requires Built(local, table, now, to, payload, mid).Some?
    requires n <= Forwards(Built(local, table, now, to, payload, mid).value, visits)
    ensures Forwards(Built(local, table, now, to, payload, mid).value, visits) <= 9
    ensures var m := AfterVisits(Built(local, table, now, to, payload, mid).value, visits, n);
            m.hops.GetOr(0) == n && m.hops.GetOr(0) + m.ttl.GetOr(0) == 10 && 1 <= m.ttl.GetOr(0)
            && m.from == local && m.to == to && m.payload == payload && m.mid == mid
  {
    var m := Built(local, table, now, to, payload, mid).value;
    ForwardsBelowTtl(m, visits);
    ForwardingKeepsBudget(m, visits, n);
  }

  function Repeated(v: Visit, n: nat): seq<Visit> {
    if n == 0 then [] else [v] + Repeated(v, n - 1)
  }

  /** A routing loop uses the budget up: a message that never meets its
      destination but always a table with a route is forwarded ttl - 1 times. */
  lemma {:induction false} LoopSpendsBudget(m: Message, v: Visit, n: nat)
    requires m.to != v.node && RouteTable.Answer(v.table, m.to, v.now).Some? && 1 <= m.ttl.GetOr(0) <= n
    ensures Forwards(m, Repeated(v, n)) == m.ttl.GetOr(0) - 1
    decreases n
  {
    assert Repeated(v, n)[1..] == Repeated(v, n - 1);
    match Forwarded(v.node, v.table, v.now, m)
    case None =>
    case Some(m') => LoopSpendsBudget(m', v, n - 1);
  }

  /** What building means: nothing without a next hop, else a fresh message to it. */
  lemma BuiltMeans(local: NodeId, table: RouteTable.State, now: real, to: NodeId, payload: string, mid: string)
    ensures var m := Built(local, table, now, to, payload, mid);
            (m.None? <==> RouteTable.Answer(table, to, now).None?)
            && (m.Some? ==> m.value.from == local && m.value.to == to
                            && m.value.payload == payload && m.value.mid == mid
                            && Some(m.value.nextHop) == RouteTable.Answer(table, to, now)
                            && m.value.hops == Some(0) && m.value.ttl == Some(10))
  {
  }

  /** What forwarding means: a message stops where its budget ends, where it is for,
      and where no route leads on; else it goes to the table's next hop. */
  lemma ForwardedMeans(local: NodeId, table: RouteTable.State, now: real, m: Message)
    ensures var m' := Forwarded(local, table, now, m);
            (m'.None? <==> m.ttl.GetOr(0) <= 1 || m.to == local || RouteTable.Answer(table, m.to, now).None?)
            && (m'.Some? ==> Some(m'.value.nextHop) == RouteTable.Answer(table, m.to, now)
                             && m'.value.hops == Some(m.hops.GetOr(0) + 1) && m'.value.ttl == Some(m.ttl.GetOr(0) - 1)
                             && m'.value == m.(nextHop := m'.value.nextHop, hops := m'.value.hops, ttl := m'.value.ttl))
  {
  }

  /** At `a` the table names `b` as the next hop. */
  predicate LeadsOn(a: Visit, b: Visit, to: NodeId) {
    a.node != to && RouteTable.Answer(a.table, to, a.now) == Some(b.node)
  }

  /** The visits lie along a path: each node's table names the next one on the way to
      the last, which is reached only there. */
  ghost predicate AlongPath(visits: seq<Visit>, to: NodeId) {
    visits != [] && visits[|visits| - 1].node == to
    && forall i, j :: 0 <= i < j < |visits| && j == i + 1 ==> LeadsOn(visits[i], visits[j], to)
  }

  /** Along such a path a message is passed on until its budget or the path ends, and
      while it is under way it is always addressed to the next node on the path. */
  lemma {:induction false} TravelsAlong(m: Message, visits: seq<Visit>, n: nat)
    requires AlongPath(visits, m.to) && 1 <= m.ttl.GetOr(0) && m.nextHop == visits[0].node
    ensures Forwards(m, visits) == if |visits| <= m.ttl.GetOr(0) then |visits| - 1 else m.ttl.GetOr(0) - 1
    ensures n <= Forwards(m, visits) ==> n < |visits| && AfterVisits(m, visits, n).nextHop == visits[n].node
    decreases |visits|
  {
    ForwardedMeans(visits[0].node, visits[0].table, visits[0].now, m);
    if 1 < |visits| && 1 < m.ttl.GetOr(0) {
      assert LeadsOn(visits[0], visits[1], m.to);
      var m', rest := Forwarded(visits[0].node, visits[0].table, visits[0].now, m).value, visits[1..];
      RestOfPath(visits, m.to);
      TravelsAlong(m', rest, if n == 0 then 0 else n - 1);
    }
  }

  lemma RestOfPath(visits: seq<Visit>, to: NodeId)
    requires AlongPath(visits, to) && 1 < |visits|
    ensures AlongPath(visits[1..], to)
  {
    var rest := visits[1..];
    forall i, j | 0 <= i < j < |rest| && j == i + 1 ensures LeadsOn(rest[i], rest[j], to) {
      assert LeadsOn(visits[i + 1], visits[j + 1], to);
    }
  }

  /** A message built for a destination whose next hops lead there visits the
      destination exactly if the path has at most ten links. */
  lemma DeliveredWithinTenLinks(local: NodeId, table: RouteTable.State, now: real, to: NodeId, payload: string,
                                mid: string, visits: seq<Visit>)
    requires AlongPath(visits, to) && RouteTable.Answer(table, to, now) == Some(visits[0].node)
    ensures Built(local, table, now, to, payload, mid).Some?
    ensures var m := Built(local, table, now, to, payload, mid).value;
            var n := Forwards(m, visits);
            n < |visits| && AfterVisits(m, visits, n).nextHop == visits[n].node
            && (n == |visits| - 1 <==> |visits| <= 10)
  {
    BuiltMeans(local, table, now, to, payload, mid);
    var m := Built(local, table, now, to, payload, mid).value;
    TravelsAlong(m, visits, Forwards(m, visits));
  }

  class MessageRouter {
    const localNodeId: NodeId
    const routeTable: RouteTable.RouteTable

    constructor (id: NodeId, table: RouteTable.RouteTable)
      ensures localNodeId == id && routeTable == table
    {
      localNodeId, routeTable := id, table;
    }

    method BuildMessage(to: NodeId, payload: string, mid: string, now: real) returns (m: Option<Message>)
      ensures m == Built(localNodeId, routeTable.Contents(), now, to, payload, mid)
    {
      var nextHop := routeTable.NextHop(to, now);
      if nextHop.None? {
        return None;
      }
      return Some(Message(localNodeId, to, nextHop.value, payload, mid, Some(0), Some(INITIAL_TTL)));
    }

    method Forward(pkt: Message, now: real) returns (m: Option<Message>)
      ensures m == Forwarded(localNodeId, routeTable.Contents(), now, pkt)
    {
      var ttl := pkt.ttl.GetOr(0) - 1;
      if ttl <= 0 {
        return None;
      }
      if pkt.to == localNodeId {
        return None;
      }
      var nextHop := routeTable.NextHop(pkt.to, now);
      if nextHop.None? {
        return None;
      }
      return Some(pkt.(nextHop := nextHop.value, hops := Some(pkt.hops.GetOr(0) + 1), ttl := Some(ttl)));
    }
  }
}

/** A node's cache of routes with time to live: `RouteTable` in routing/router.py. */
module RouteTable {
  import opened Common

  const ROUTE_TTL := 300.0

  /** A stored next hop: the marker "direct", or a node. */
  datatype Hop = Direct | Via(id: NodeId)

  datatype TableRoute = TableRoute(nextHop: Hop, cost: int, hops: int, expires: real)

  /** A route as received; a missing cost or hop count takes its default. */
  datatype RootInfo = RootInfo(nextHop: Hop, cost: Option<int>, hops: Option<int>)

  datatype State = State(routes: map<NodeId, TableRoute>, gateway: Option<NodeId>, updatedAt: real)

  /** An optional node id is false as a condition when it is absent or 0. */
  predicate Truthy(id: Option<NodeId>) {
    id.Some? && id.value != 0
  }

  function Stored(info: RootInfo, now: real): TableRoute {
    TableRoute(info.nextHop, info.cost.GetOr(999), info.hops.GetOr(99), now + ROUTE_TTL)
  }

  function StoredAll(routes: map<NodeId, RootInfo>, now: real): map<NodeId, TableRoute> {
    map d | d in routes :: Stored(routes[d], now)
  }

  /** The next hop a table names at a time, falling back to the default gateway. */
  function Answer(st: State, destination: NodeId, now: real): Option<NodeId> {
    if destination in st.routes && st.routes[destination].expires > now then
      match st.routes[destination].nextHop
      case Direct => Some(destination)
      case Via(id) => Some(id)
    else if Truthy(st.gateway) then st.gateway
    else None
  }

  datatype Event =
    | UpdateFromRoot(routes: map<NodeId, RootInfo>, gateway: Option<NodeId>, at: real)
    | AddDirect(node: NodeId, rssi: int, at: real)
    | SetDefaultGateway(node: NodeId, at: real)
    | Expire(at: real)
    | NextHop(destination: NodeId, at: real)

  function Step(st: State, e: Event): State {
    match e
    case UpdateFromRoot(routes, gw, at) =>
      State(StoredAll(routes, at), if Truthy(gw) then gw else st.gateway, at)
    case AddDirect(node, rssi, at) =>
      st.(routes := st.routes[node := TableRoute(Direct, Abs(rssi) - 49, 0, at + ROUTE_TTL)])
    case SetDefaultGateway(node, at) =>
      if st.gateway.None? then st.(gateway := Some(node)) else st
    case Expire(at) =>
      st.(routes := map d | d in st.routes && !(st.routes[d].expires < at) :: st.routes[d])
    case NextHop(_, _) => st
  }

  /** A direct neighbour answers for itself for 300 seconds, and for nobody else. */
  lemma DirectAnswers(st: State, node: NodeId, rssi: int, at: real, d: NodeId, later: real)
    ensures d == node && later < at + 300.0 ==> Answer(Step(st, AddDirect(node, rssi, at)), d, later) == Some(node)
    ensures d != node ==> Answer(Step(st, AddDirect(node, rssi, at)), d, later) == Answer(st, d, later)
  {
  }

  /** A table from the root answers every live destination with the root's next
      hop, forgets all others, and keeps the old gateway if the new one is 0. */
  lemma RootTableAnswers(st: State, routes: map<NodeId, RootInfo>, gw: Option<NodeId>, at: real, d: NodeId, later: real)
    ensures var after := Step(st, UpdateFromRoot(routes, gw, at));
            d in routes && later < at + 300.0 ==>
              Answer(after, d, later) == Some(if routes[d].nextHop.Direct? then d else routes[d].nextHop.id)
    ensures var after := Step(st, UpdateFromRoot(routes, gw, at));
            d !in routes || at + 300.0 <= later ==>
              Answer(after, d, later) == if Truthy(gw) then gw else if Truthy(st.gateway) then st.gateway else None
  {
  }

  /** The answers a run gives to its `next_hop` calls, in order. */
  function Answers(st: State, es: seq<Event>): seq<Option<NodeId>>
    decreases |es|
  {
    if es == [] then []
    else
      (if es[0].NextHop? then [Answer(st, es[0].destination, es[0].at)] else [])
      + Answers(Step(st, es[0]), es[1..])
  }

  function WithoutExpiry(es: seq<Event>): seq<Event> {
    if es == [] then []
    else (if es[0].Expire? then [] else [es[0]]) + WithoutExpiry(es[1..])
  }

  /** The clock never runs backwards, starting from `from`. */
  predicate ClockFrom(from: real, es: seq<Event>)
    decreases |es|
  {
    es == [] || (from <= es[0].at && ClockFrom(es[0].at, es[1..]))
  }

  /** Two tables that differ only in routes already dead at `now`. */
  ghost predicate SameLiveRoutes(eager: State, lazy: State, now: real) {
    eager.gateway == lazy.gateway
    && (forall d :: d in eager.routes ==> d in lazy.routes && lazy.routes[d] == eager.routes[d])
    && (forall d :: d in lazy.routes && d !in eager.routes ==> lazy.routes[d].expires < now)
  }

  /** `expire` is invisible: from tables with the same live routes, a run and the
      same run with every `expire` call deleted give the same answers. */
  lemma {:induction false} ExpiryIsInvisibleFrom(eager: State, lazy: State, now: real, es: seq<Event>)
    requires SameLiveRoutes(eager, lazy, now) && ClockFrom(now, es)
    ensures Answers(eager, es) == Answers(lazy, WithoutExpiry(es))
    decreases |es|
  {
    if es != [] {
      var e := es[0];
      if e.Expire? {
        assert WithoutExpiry(es) == WithoutExpiry(es[1..]);
        ExpiryIsInvisibleFrom(Step(eager, e), lazy, e.at, es[1..]);
      } else {
        var tail := WithoutExpiry(es[1..]);
        assert WithoutExpiry(es)[0] == e && WithoutExpiry(es)[1..] == tail;
        ExpiryIsInvisibleFrom(Step(eager, e), Step(lazy, e), e.at, es[1..]);
      }
    }
  }

  /** Lazy expiry refines eager expiry over every run under a clock that does not
      run backwards. */
  lemma LazyExpiryRefinesEager(st: State, from: real, es: seq<Event>)
    requires ClockFrom(from, es)
    ensures Answers(st, es) == Answers(st, WithoutExpiry(es))
  {
    ExpiryIsInvisibleFrom(st, st, from, es);
  }

  // ---- Exactly under which clocks expiry is invisible ----

  function Readings(es: seq<Event>): (ts: seq<real>)
    ensures |ts| == |es| && forall i :: 0 <= i < |es| ==> ts[i] == es[i].at
  {
    seq(|es|, i requires 0 <= i < |es| => es[i].at)
  }

  predicate NeverBack(ts: seq<real>) {
    forall i, j :: 0 <= i < j < |ts| ==> ts[i] <= ts[j]
  }

  /** No run whose clock gives these readings, from whatever table, can tell its
      `expire` calls from none. */
  ghost predicate ExpiryInvisible(ts: seq<real>) {
    forall st, es :: Readings(es) == ts ==> Answers(st, es) == Answers(st, WithoutExpiry(es))
  }

  lemma {:induction false} NeverBackRuns(from: real, es: seq<Event>)
    requires NeverBack(Readings(es)) && (es != [] ==> from <= es[0].at)
    ensures ClockFrom(from, es)
    decreases |es|
  {
    if es != [] {
      var ts, rest := Readings(es), Readings(es[1..]);
      forall i, j | 0 <= i < j < |rest| ensures rest[i] <= rest[j] {
        assert rest[i] == ts[i + 1] && rest[j] == ts[j + 1];
      }
      if |es| > 1 {
        assert ts[0] <= ts[1];
      }
      NeverBackRuns(es[0].at, es[1..]);
    }
  }

  /** A clock that goes back somewhere goes back from one reading to the next. */
  lemma {:induction false} BackInOneStep(ts: seq<real>, i: nat, j: nat) returns (k: nat)
    requires i < j < |ts| && ts[j] < ts[i]
    ensures k + 1 < |ts| && ts[k + 1] < ts[k]
    decreases j
  {
    if ts[j] < ts[j - 1] {
      k := j - 1;
    } else {
      k := BackInOneStep(ts, i, j - 1);
    }
  }

  /** One live route, through node 3 to node 7. */
  function OneRoute(expires: real): State {
    State(map[7 := TableRoute(Via(3), 1, 1, expires)], None, 0.0)
  }

  function Asking(ts: seq<real>): (es: seq<Event>)
    ensures |es| == |ts| && forall i :: 0 <= i < |ts| ==> es[i] == NextHop(7, ts[i])
  {
    seq(|ts|, i requires 0 <= i < |ts| => NextHop(7, ts[i]))
  }

  lemma {:induction false} AskingNeverExpires(ts: seq<real>)
    ensures WithoutExpiry(Asking(ts)) == Asking(ts)
  {
    if ts != [] {
      AskingNeverExpires(ts[1..]);
      assert Asking(ts)[1..] == Asking(ts[1..]);
    }
  }

  /** Between two readings of which the second is earlier, a route's expiry fits. */
  lemma ExpireThenAsk(ts: seq<real>)
    requires 2 <= |ts| && ts[1] < ts[0]
    ensures var st, es := OneRoute((ts[0] + ts[1]) / 2.0), [Expire(ts[0])] + Asking(ts[1..]);
            Answers(st, es) != Answers(st, WithoutExpiry(es))
  {
    var st, asks := OneRoute((ts[0] + ts[1]) / 2.0), Asking(ts[1..]);
    var es := [Expire(ts[0])] + asks;
    AskingNeverExpires(ts[1..]);
    assert es[1..] == asks && WithoutExpiry(es) == [] + asks == asks;
    assert Answers(st, es) == [] + Answers(Step(st, es[0]), asks);
    assert asks[0] == NextHop(7, ts[1]);
    assert Answers(st, asks)[0] == Some(3);
    assert Answers(Step(st, Expire(ts[0])), asks)[0] == None;
  }

  /** Any reading earlier than the one before it shows: some run with these very
      readings answers differently without its `expire` call. */
  lemma {:induction false} ClockSetBackIsVisible(ts: seq<real>, k: nat) returns (st: State, es: seq<Event>)
    requires k + 1 < |ts| && ts[k + 1] < ts[k]
    ensures Readings(es) == ts && st == OneRoute((ts[k] + ts[k + 1]) / 2.0)
    ensures Answers(st, es) != Answers(st, WithoutExpiry(es))
  {
    if k == 0 {
      st, es := OneRoute((ts[0] + ts[1]) / 2.0), [Expire(ts[0])] + Asking(ts[1..]);
      ExpireThenAsk(ts);
    } else {
      var rest;
      st, rest := ClockSetBackIsVisible(ts[1..], k - 1);
      var ask := NextHop(7, ts[0]);
      es := [ask] + rest;
      assert es[1..] == rest && (forall i :: 0 < i < |ts| ==> es[i].at == Readings(rest)[i - 1]);
      assert WithoutExpiry(es) == [ask] + WithoutExpiry(rest);
      assert Answers(st, es) == [Answer(st, 7, ts[0])] + Answers(st, rest);
      SameTail(Answer(st, 7, ts[0]), Answers(st, rest), Answers(st, WithoutExpiry(rest)));
      assert ([ask] + WithoutExpiry(rest))[1..] == WithoutExpiry(rest);
    }
  }

  lemma SameTail<T>(x: T, a: seq<T>, b: seq<T>)
    requires a != b
    ensures [x] + a != [x] + b
  {
    assert ([x] + a)[1..] == a && ([x] + b)[1..] == b;
  }

  /** Expiry is invisible under a sequence of clock readings exactly when none of
      them is earlier than one before it. */
  lemma ExpiryInvisibleIff(ts: seq<real>)
    ensures ExpiryInvisible(ts) <==> NeverBack(ts)
  {
    if NeverBack(ts) {
      forall st: State, es: seq<Event> | Readings(es) == ts ensures Answers(st, es) == Answers(st, WithoutExpiry(es)) {
        var from := if es == [] then 0.0 else es[0].at;
        NeverBackRuns(from, es);
        LazyExpiryRefinesEager(st, from, es);
      }
    } else {
      var i, j :| 0 <= i < j < |ts| && ts[j] < ts[i];
      var k := BackInOneStep(ts, i, j);
      var st, es := ClockSetBackIsVisible(ts, k);
    }
  }

  class RouteTable {
    const localNodeId: NodeId
    var routes: map<NodeId, TableRoute>
    var defaultGateway: Option<NodeId>
    var updatedAt: real

    function Contents(): State
      reads this
    {
      State(routes, defaultGateway, updatedAt)
    }

    constructor (id: NodeId)
      ensures localNodeId == id && Contents() == State(map[], None, 0.0)
    {
      localNodeId := id;
      routes, defaultGateway, updatedAt := map[], None, 0.0;
    }

    /** The root's table replaces whatever was stored. */
    method UpdateFromRoot(received: map<NodeId, RootInfo>, gateway: Option<NodeId>, now: real)
      modifies this
      ensures Contents() == Step(old(Contents()), Event.UpdateFromRoot(received, gateway, now))
      ensures routes.Keys == received.Keys && updatedAt == now
      ensures forall d :: d in routes ==>
                routes[d].nextHop == received[d].nextHop && routes[d].expires == now + 300.0
                && routes[d].cost == (if received[d].cost.Some? then received[d].cost.value else 999)
                && routes[d].hops == (if received[d].hops.Some? then received[d].hops.value else 99)
      ensures defaultGateway == if gateway.Some? && gateway.value != 0 then gateway else old(defaultGateway)
    {
      routes := map[];
      var todo := received.Keys;
      while todo != {}
        invariant todo <= received.Keys
        invariant routes.Keys == received.Keys - todo
        invariant forall d :: d in routes ==> routes[d] == Stored(received[d], now)
        invariant defaultGateway == old(defaultGateway)
        decreases |todo|
      {
        var dest :| dest in todo;
        todo := todo - {dest};
        var info := received[dest];
        routes := routes[dest := TableRoute(info.nextHop, info.cost.GetOr(999), info.hops.GetOr(99), now + ROUTE_TTL)];
      }
      assert routes == StoredAll(received, now);
      if Truthy(gateway) {
        defaultGateway := gateway;
      }
      updatedAt := now;
    }

    /** A node heard without a relay in between. */
    method AddDirect(node: NodeId, rssi: int, now: real)
      modifies this`routes
      ensures Contents() == Step(old(Contents()), Event.AddDirect(node, rssi, now))
      ensures routes == old(routes)[node := routes[node]] && routes[node].nextHop == Direct
      ensures routes[node].hops == 0 && routes[node].expires == now + 300.0
      ensures routes[node].cost == if rssi < 0 then -rssi - 49 else rssi - 49
    {
      routes := routes[node := TableRoute(Direct, Abs(rssi) - 49, 0, now + ROUTE_TTL)];
    }

    /** The first relay heard becomes the default gateway. */
    method SetDefaultGateway(node: NodeId, now: real)
      modifies this`defaultGateway
      ensures Contents() == Step(old(Contents()), Event.SetDefaultGateway(node, now))
      ensures defaultGateway == if old(defaultGateway).None? then Some(node) else old(defaultGateway)
    {
      if defaultGateway.None? {
        defaultGateway := Some(node);
      }
    }

    method NextHop(destination: NodeId, now: real) returns (hop: Option<NodeId>)
      ensures hop == Answer(Contents(), destination, now)
      ensures destination in routes && now < routes[destination].expires ==>
                hop == Some(if routes[destination].nextHop.Direct? then destination else routes[destination].nextHop.id)
      ensures destination !in routes || routes[destination].expires <= now ==>
                hop == if defaultGateway == Some(0) then None else defaultGateway
    {
      if destination in routes {
        var route := routes[destination];
        if route.expires > now {
          return Some(if route.nextHop.Direct? then destination else route.nextHop.id);
        }
      }
      if Truthy(defaultGateway) {
        return defaultGateway;
      }
      return None;
    }

    /** Collect the dead routes first, then delete them. */
    method Expire(now: real)
      modifies this`routes
      ensures Contents() == Step(old(Contents()), Event.Expire(now))
      ensures forall d :: d in routes <==> d in old(routes) && now <= old(routes)[d].expires
      ensures forall d :: d in routes ==> routes[d] == old(routes)[d]
    {
      var expired := set d | d in routes && routes[d].expires < now;
      ghost var all := expired;
      assert routes - (all - expired) == routes;
      while expired != {}
        invariant expired <= all
        invariant routes == old(routes) - (all - expired)
        decreases |expired|
      {
        var d :| d in expired;
        routes := routes - {d};
        assert old(routes) - (all - expired) - {d} == old(routes) - (all - (expired - {d}));
        expired := expired - {d};
      }
      assert all - expired == all;
      assert routes == Step(old(Contents()), Event.Expire(now)).routes;
    }
  }
}

/** Consequences of shortest routes that span several nodes' route maps. */
module RouteProperties {
  import opened Common
  import opened Walks
  import opened Dijkstra

  lemma TailOfWalk(g: Edges, p: seq<NodeId>)
    requires IsWalk(g, p) && 2 <= |p|
    ensures Linked(g, p[0], p[1]) && IsWalk(g, p[1..])
    ensures WalkCost(g, p) == Weight(g, p[0], p[1]) + WalkCost(g, p[1..])
  {
    var rest := p[1..];
    forall i | 0 < i < |rest| ensures Linked(g, rest[i - 1], rest[i]) {
      assert rest[i - 1] == p[i] && rest[i] == p[i + 1] && Linked(g, p[i], p[i + 1]);
    }
    PrependCost(g, p[0], rest);
    assert [p[0]] + rest == p;
  }

  /** The next hop is a neighbour, and from there the rest of the route is the
      neighbour's own route: what remains to pay is the cost minus that link. */
  lemma NextHopRemainder(g: Edges, s: NodeId, d: NodeId, routes: map<NodeId, Route>,
                         n: NodeId, atHop: map<NodeId, Route>)
    requires IsRouteMap(g, s, routes) && d in routes && n == routes[d].nextHop
    requires IsRouteMap(g, n, atHop)
    ensures Linked(g, s, n) && n != s
    ensures n == d ==> routes[d].cost == Weight(g, s, n)
    ensures n != d ==> d in atHop && atHop[d].cost == routes[d].cost - Weight(g, s, n)
  {
    var p := RouteIsRealised(g, s, routes, d);
    TailOfWalk(g, p);
    assert p[0] != p[1] && p[1] == n;
    if n == d {
      assert p[1] == p[|p| - 1];
    } else {
      WalkIsNoCheaper(g, n, atHop, p[1..]);
      OnwardIsNoCheaper(g, s, d, routes, n, atHop);
    }
  }

  /** No neighbour offers a bargain: its own route plus the link costs at least as much. */
  lemma OnwardIsNoCheaper(g: Edges, s: NodeId, d: NodeId, routes: map<NodeId, Route>,
                          n: NodeId, atHop: map<NodeId, Route>)
    requires IsRouteMap(g, s, routes) && d in routes && Linked(g, s, n)
    requires IsRouteMap(g, n, atHop) && d in atHop
    ensures routes[d].cost <= Weight(g, s, n) + atHop[d].cost
  {
    var q := RouteIsRealised(g, n, atHop, d);
    PrependCost(g, s, q);
    NoRouteToSource(g, s, routes);
    WalkIsNoCheaper(g, s, routes, [s] + q);
  }

  /** Every node holds the route map computed from its own position. */
  ghost predicate OwnTables(g: Edges, tables: map<NodeId, map<NodeId, Route>>) {
    (forall u {:trigger IsRouteMap(g, u, tables[u])} :: u in tables ==> IsRouteMap(g, u, tables[u]))
    && (forall u, v :: Linked(g, u, v) ==> v in tables)
  }

  ghost predicate NextHopIs(tables: map<NodeId, map<NodeId, Route>>, d: NodeId, u: NodeId, v: NodeId) {
    u in tables && d in tables[u] && v == tables[u][d].nextHop
  }

  ghost predicate FollowsTables(tables: map<NodeId, map<NodeId, Route>>, d: NodeId, p: seq<NodeId>) {
    forall i, j :: 0 <= i < j < |p| && j == i + 1 ==> NextHopIs(tables, d, p[i], p[j])
  }

  /** One hop: a neighbour, closer to the destination by the cost of the link. */
  lemma OneHop(g: Edges, tables: map<NodeId, map<NodeId, Route>>, s: NodeId, d: NodeId, n: NodeId)
    requires PositiveCosts(g) && OwnTables(g, tables) && s in tables && d in tables[s]
    requires n == tables[s][d].nextHop
    ensures Linked(g, s, n) && n in tables && 1 <= Weight(g, s, n) <= tables[s][d].cost
    ensures n == d ==> tables[s][d].cost == Weight(g, s, n)
    ensures n != d ==> d in tables[n] && tables[n][d].cost == tables[s][d].cost - Weight(g, s, n)
  {
    assert IsRouteMap(g, s, tables[s]);
    var p := RouteIsRealised(g, s, tables[s], d);
    TailOfWalk(g, p);
    assert IsRouteMap(g, n, tables[n]);
    NextHopRemainder(g, s, d, tables[s], n, tables[n]);
    CostPositive(g, p[1..]);
  }

  lemma PrependHop(tables: map<NodeId, map<NodeId, Route>>, d: NodeId, s: NodeId, rest: seq<NodeId>)
    requires rest != [] && FollowsTables(tables, d, rest) && NextHopIs(tables, d, s, rest[0])
    ensures FollowsTables(tables, d, [s] + rest)
  {
    var p := [s] + rest;
    forall i, j | 0 <= i < j < |p| && j == i + 1 ensures NextHopIs(tables, d, p[i], p[j]) {
      if i > 0 {
        assert p[i] == rest[i - 1] && p[j] == rest[j - 1];
      }
    }
  }

  /** Handing a message to the next hop named by each node's own table delivers
      it, along a walk that costs exactly what the first table promised. */
  lemma {:induction false} HopByHopDelivers(g: Edges, tables: map<NodeId, map<NodeId, Route>>, s: NodeId, d: NodeId)
    returns (p: seq<NodeId>)
    requires PositiveCosts(g) && OwnTables(g, tables) && s in tables && d in tables[s]
    ensures WalkBetween(g, p, s, d) && FollowsTables(tables, d, p)
    ensures WalkCost(g, p) == tables[s][d].cost
    decreases tables[s][d].cost
  {
    var n := tables[s][d].nextHop;
    OneHop(g, tables, s, d, n);
    var rest := [d];
    if n != d {
      rest := HopByHopDelivers(g, tables, n, d);
    }
    PrependCost(g, s, rest);
    PrependHop(tables, d, s, rest);
    p := [s] + rest;
  }

  lemma {:induction false} CostPositive(g: Edges, p: seq<NodeId>)
    requires PositiveCosts(g) && IsWalk(g, p)
    ensures |p| - 1 <= WalkCost(g, p)
  {
    if |p| > 1 {
      CostPositive(g, p[..|p| - 1]);
      assert Linked(g, p[|p| - 2], p[|p| - 1]);
    }
  }

  /** Between two nodes of a symmetric graph, both directions have a route or
      neither has, and both cost the same. */
  lemma CostsAgreeBothWays(g: Edges, a: NodeId, b: NodeId, fromA: map<NodeId, Route>, fromB: map<NodeId, Route>)
    requires Symmetric(g) && IsRouteMap(g, a, fromA) && IsRouteMap(g, b, fromB)
    ensures b in fromA <==> a in fromB
    ensures b in fromA ==> fromA[b].cost == fromB[a].cost
  {
    if b in fromA {
      ReverseRoute(g, a, b, fromA, fromB);
    }
    if a in fromB {
      ReverseRoute(g, b, a, fromB, fromA);
    }
  }

  lemma ReverseRoute(g: Edges, a: NodeId, b: NodeId, fromA: map<NodeId, Route>, fromB: map<NodeId, Route>)
    requires Symmetric(g) && IsRouteMap(g, a, fromA) && IsRouteMap(g, b, fromB) && b in fromA
    ensures a in fromB && fromB[a].cost <= fromA[b].cost
  {
    var p := RouteIsRealised(g, a, fromA, b);
    ReversedWalk(g, p);
    NoRouteToSource(g, a, fromA);
    WalkIsNoCheaper(g, b, fromB, Reversed(p));
  }

  /** Hop counts stay below the number of nodes, and routes name only known nodes. */
  lemma HopsBelowNodeCount(g: Edges, s: NodeId, routes: map<NodeId, Route>)
    requires IsRouteMap(g, s, routes)
    ensures forall d :: d in routes ==> routes[d].hops < |Universe(g, s)|
    ensures forall d :: d in routes ==> d in Universe(g, s) && routes[d].nextHop in Universe(g, s)
  {
    forall d | d in routes
      ensures routes[d].hops < |Universe(g, s)| && d in Universe(g, s) && routes[d].nextHop in Universe(g, s)
    {
      var p := RouteIsRealised(g, s, routes, d);
      forall i | 0 <= i < |p| ensures p[i] in Universe(g, s) {
        if i > 0 {
          assert Linked(g, p[i - 1], p[i]);
        }
      }
      DistinctCardinality(p);
      SubsetCardinality((set x | x in p), Universe(g, s));
    }
  }

  /** With byte node ids every hop count fits the byte it travels in. */
  lemma HopsFitByte(g: Edges, s: NodeId, routes: map<NodeId, Route>)
    requires IsRouteMap(g, s, routes)
    requires forall u :: u in Universe(g, s) ==> u < 256
    ensures forall d :: d in routes ==> d < 256 && routes[d].nextHop < 256 && routes[d].hops < 256
  {
    HopsBelowNodeCount(g, s, routes);
    IdsBelowCount(256);
    SubsetCardinality(Universe(g, s), IdsBelow(256));
  }

  function IdsBelow(n: nat): set<NodeId> {
    if n == 0 then {} else IdsBelow(n - 1) + {n - 1}
  }

  lemma {:induction false} IdsBelowCount(n: nat)
    ensures |IdsBelow(n)| == n
    ensures forall u: NodeId :: u in IdsBelow(n) <==> u < n
  {
    if n > 0 {
      IdsBelowCount(n - 1);
    }
  }
}

/** Shortest routes from one node: `dijkstra` in routing/router.py. */
module Dijkstra {
  import opened Common
  import opened Walks

  datatype Route = Route(nextHop: NodeId, cost: int, hops: nat)

  /** The three dictionaries the search fills; the source has no `prev`. */
  datatype Tree = Tree(dist: map<NodeId, int>, hops: map<NodeId, nat>, prev: map<NodeId, NodeId>)

  /** The order in which the heap hands out `(cost, node)` pairs. */
  predicate LexLe(c: int, u: NodeId, d: int, v: NodeId) {
    c < d || (c == d && u <= v)
  }

  /** `v` hangs below a predecessor that accounts for its distance and hop count. */
  ghost predicate HangsBelow(g: Edges, t: Tree, v: NodeId) {
    && v in t.prev && v in t.dist && v in t.hops
    && t.prev[v] in t.dist && t.prev[v] in t.hops && Linked(g, t.prev[v], v)
    && t.dist[v] == t.dist[t.prev[v]] + Weight(g, t.prev[v], v)
    && t.hops[v] == t.hops[t.prev[v]] + 1
  }

  /** The edge `u -> v` offers no improvement, and wins no tie against `prev[v]`. */
  ghost predicate Relaxed(g: Edges, t: Tree, u: NodeId, v: NodeId)
    requires Linked(g, u, v)
  {
    u in t.dist && v in t.dist && t.dist[v] <= t.dist[u] + Weight(g, u, v)
    && (v in t.prev && t.prev[v] in t.dist && t.dist[v] == t.dist[u] + Weight(g, u, v)
        ==> LexLe(t.dist[t.prev[v]], t.prev[v], t.dist[u], u))
  }

  ghost predicate WellKeyed(s: NodeId, t: Tree) {
    s in t.dist && t.dist[s] == 0 && t.hops.Keys == t.dist.Keys && t.hops[s] == 0
    && t.prev.Keys == t.dist.Keys - {s}
  }

  /** A finished search: every node hangs in the tree and every edge is relaxed. */
  ghost predicate Canonical(g: Edges, s: NodeId, t: Tree) {
    WellKeyed(s, t)
    && (forall v :: v in t.prev ==> HangsBelow(g, t, v))
    && (forall u, v :: u in t.dist && Linked(g, u, v) ==> Relaxed(g, t, u, v))
  }

  /** The nodes from the source down to `v` along `prev`. */
  ghost function TreePath(g: Edges, s: NodeId, t: Tree, v: NodeId): seq<NodeId>
    requires Canonical(g, s, t) && v in t.dist
    decreases t.hops[v]
  {
    if v == s then [s] else TreePath(g, s, t, t.prev[v]) + [v]
  }

  /** The child of the source above `v`. */
  ghost function FirstHop(g: Edges, s: NodeId, t: Tree, v: NodeId): NodeId
    requires Canonical(g, s, t) && v in t.prev
    decreases t.hops[v]
  {
    if t.prev[v] == s then v else FirstHop(g, s, t, t.prev[v])
  }

  ghost function RoutesOf(g: Edges, s: NodeId, t: Tree): map<NodeId, Route>
    requires Canonical(g, s, t)
  {
    map v | v in t.prev :: Route(FirstHop(g, s, t, v), t.dist[v], t.hops[v])
  }

  /** `routes` is what a finished search from `s` reports. */
  ghost predicate IsRouteMap(g: Edges, s: NodeId, routes: map<NodeId, Route>) {
    exists t :: Canonical(g, s, t) && routes == RoutesOf(g, s, t)
  }

  // ---- What a finished search means ----

  /** No walk from the source beats the distance of the node it ends in. */
  lemma {:induction false} DistIsLowerBound(g: Edges, s: NodeId, t: Tree, p: seq<NodeId>)
    requires Canonical(g, s, t) && IsWalk(g, p) && p[0] == s
    ensures p[|p| - 1] in t.dist && t.dist[p[|p| - 1]] <= WalkCost(g, p)
  {
    if |p| > 1 {
      DistIsLowerBound(g, s, t, p[..|p| - 1]);
      assert Relaxed(g, t, p[|p| - 2], p[|p| - 1]);
    }
  }

  /** The tree path is a walk of exactly the recorded cost; its i-th node has i hops. */
  lemma {:induction false} TreePathIsWalk(g: Edges, s: NodeId, t: Tree, v: NodeId)
    requires Canonical(g, s, t) && v in t.dist
    ensures var p := TreePath(g, s, t, v);
            WalkBetween(g, p, s, v) && WalkCost(g, p) == t.dist[v] && |p| == t.hops[v] + 1
    ensures var p := TreePath(g, s, t, v);
            forall i :: 0 <= i < |p| ==> p[i] in t.hops && t.hops[p[i]] == i
    ensures v != s ==> TreePath(g, s, t, v)[1..2] == [FirstHop(g, s, t, v)]
    decreases t.hops[v]
  {
    if v != s {
      assert HangsBelow(g, t, v);
      TreePathIsWalk(g, s, t, t.prev[v]);
      var p := TreePath(g, s, t, v);
      assert p[..|p| - 1] == TreePath(g, s, t, t.prev[v]);
      if t.prev[v] != s {
        assert p[1..2] == p[..|p| - 1][1..2];
      }
    }
  }

  /** A shortest simple path that realises a route. */
  ghost predicate Realises(g: Edges, s: NodeId, v: NodeId, r: Route, p: seq<NodeId>) {
    WalkBetween(g, p, s, v) && Distinct(p) && |p| == r.hops + 1 && 2 <= |p|
    && p[1] == r.nextHop && WalkCost(g, p) == r.cost
  }

  ghost predicate Shortest(g: Edges, s: NodeId, v: NodeId, cost: int) {
    forall p :: WalkBetween(g, p, s, v) ==> cost <= WalkCost(g, p)
  }

  /** The path down the tree realises the route that is read off it. */
  lemma TreePathRealises(g: Edges, s: NodeId, t: Tree, v: NodeId)
    requires Canonical(g, s, t) && v in t.prev
    ensures Realises(g, s, v, Route(FirstHop(g, s, t, v), t.dist[v], t.hops[v]), TreePath(g, s, t, v))
  {
    TreePathIsWalk(g, s, t, v);
    var p := TreePath(g, s, t, v);
    assert p[1] == p[1..2][0];
    assert forall i, j :: 0 <= i < j < |p| ==> t.hops[p[i]] != t.hops[p[j]];
  }

  /** Every route is realised by some walk. */
  lemma RouteIsRealised(g: Edges, s: NodeId, routes: map<NodeId, Route>, v: NodeId) returns (p: seq<NodeId>)
    requires IsRouteMap(g, s, routes) && v in routes
    ensures Realises(g, s, v, routes[v], p)
  {
    var t :| Canonical(g, s, t) && routes == RoutesOf(g, s, t);
    TreePathRealises(g, s, t, v);
    p := TreePath(g, s, t, v);
  }

  /** What the source pays to reach itself or a routed node. */
  function Paid(s: NodeId, routes: map<NodeId, Route>, x: NodeId): int
    requires x == s || x in routes
  {
    if x == s then 0 else routes[x].cost
  }

  /** `u` is the source or a routed node from which `v` is reached at its cost. */
  predicate LeadsTo(g: Edges, s: NodeId, routes: map<NodeId, Route>, u: NodeId, v: NodeId)
    requires v in routes
  {
    Linked(g, u, v) && (u == s || u in routes) && Paid(s, routes, u) + Weight(g, u, v) == routes[v].cost
  }

  /** The tie-break. Among all nodes from which `v` is reached at its cost, its route
      comes through the one nearest the source, and among equally near ones through
      the one with the smallest id; next hop and hop count are inherited from there. */
  lemma LeastPredecessor(g: Edges, s: NodeId, routes: map<NodeId, Route>, v: NodeId) returns (p: seq<NodeId>, q: NodeId)
    requires IsRouteMap(g, s, routes) && v in routes
    ensures Realises(g, s, v, routes[v], p) && q == p[|p| - 2] && LeadsTo(g, s, routes, q, v)
    ensures forall u :: LeadsTo(g, s, routes, u, v) ==>
              Paid(s, routes, q) < Paid(s, routes, u) || (Paid(s, routes, q) == Paid(s, routes, u) && q <= u)
    ensures routes[v].nextHop == (if q == s then v else routes[q].nextHop)
    ensures routes[v].hops == (if q == s then 1 else routes[q].hops + 1)
  {
    var t :| Canonical(g, s, t) && routes == RoutesOf(g, s, t);
    TreePathRealises(g, s, t, v);
    p, q := TreePath(g, s, t, v), t.prev[v];
    assert HangsBelow(g, t, v);
    LastBeforeLeaf(g, s, t, v);
    PaidIsDistance(g, s, t, routes, q);
    forall u | LeadsTo(g, s, routes, u, v)
      ensures Paid(s, routes, q) < Paid(s, routes, u) || (Paid(s, routes, q) == Paid(s, routes, u) && q <= u)
    {
      PaidIsDistance(g, s, t, routes, u);
      TieBreak(g, s, t, u, v);
    }
  }

  lemma TieBreak(g: Edges, s: NodeId, t: Tree, u: NodeId, v: NodeId)
    requires Canonical(g, s, t) && v in t.prev && Linked(g, u, v) && u in t.dist
    requires t.dist[u] + Weight(g, u, v) == t.dist[v]
    ensures t.prev[v] in t.dist
    ensures t.dist[t.prev[v]] < t.dist[u] || (t.dist[t.prev[v]] == t.dist[u] && t.prev[v] <= u)
  {
    assert HangsBelow(g, t, v) && Relaxed(g, t, u, v);
  }

  lemma PaidIsDistance(g: Edges, s: NodeId, t: Tree, routes: map<NodeId, Route>, x: NodeId)
    requires Canonical(g, s, t) && routes == RoutesOf(g, s, t)
    ensures x == s || x in routes <==> x in t.dist
    ensures x in t.dist ==> Paid(s, routes, x) == t.dist[x]
  {
  }

  lemma LastBeforeLeaf(g: Edges, s: NodeId, t: Tree, v: NodeId)
    requires Canonical(g, s, t) && v in t.prev
    ensures var p := TreePath(g, s, t, v); 2 <= |p| && p[|p| - 2] == t.prev[v]
  {
    TreePathIsWalk(g, s, t, v);
    assert HangsBelow(g, t, v);
    TreePathIsWalk(g, s, t, t.prev[v]);
    assert TreePath(g, s, t, v) == TreePath(g, s, t, t.prev[v]) + [v];
  }

  /** Every walk away from the source ends in a routed node and costs no less. */
  lemma WalkIsNoCheaper(g: Edges, s: NodeId, routes: map<NodeId, Route>, p: seq<NodeId>)
    requires IsRouteMap(g, s, routes) && IsWalk(g, p) && p[0] == s && p[|p| - 1] != s
    ensures p[|p| - 1] in routes && routes[p[|p| - 1]].cost <= WalkCost(g, p)
  {
    var t :| Canonical(g, s, t) && routes == RoutesOf(g, s, t);
    DistIsLowerBound(g, s, t, p);
  }

  lemma NoRouteToSource(g: Edges, s: NodeId, routes: map<NodeId, Route>)
    requires IsRouteMap(g, s, routes)
    ensures s !in routes
  {
  }

  /** A route map reaches exactly what walks reach, each node along a simple
      walk through its next hop with its hop count, and no walk is cheaper. */
  lemma RoutesAreShortest(g: Edges, s: NodeId, routes: map<NodeId, Route>)
    requires IsRouteMap(g, s, routes)
    ensures forall v :: v in routes <==> v != s && Reachable(g, s, v)
    ensures forall v :: v in routes ==> Shortest(g, s, v, routes[v].cost)
    ensures forall v :: v in routes ==> exists p :: Realises(g, s, v, routes[v], p)
  {
    NoRouteToSource(g, s, routes);
    forall v, p | v != s && WalkBetween(g, p, s, v)
      ensures v in routes && routes[v].cost <= WalkCost(g, p)
    {
      WalkIsNoCheaper(g, s, routes, p);
    }
    forall v | v in routes
      ensures Reachable(g, s, v) && exists p :: Realises(g, s, v, routes[v], p)
    {
      var p := RouteIsRealised(g, s, routes, v);
    }
  }

  /** Two finished searches agree on distances, predecessors and hop counts. */
  lemma CanonicalDistUnique(g: Edges, s: NodeId, t: Tree, t': Tree, v: NodeId)
    requires Canonical(g, s, t) && Canonical(g, s, t') && v in t.dist
    ensures v in t'.dist && t'.dist[v] <= t.dist[v]
  {
    TreePathIsWalk(g, s, t, v);
    DistIsLowerBound(g, s, t', TreePath(g, s, t, v));
  }

  lemma {:induction false} CanonicalParentUnique(g: Edges, s: NodeId, t: Tree, t': Tree, v: NodeId)
    requires Canonical(g, s, t) && Canonical(g, s, t') && t.dist == t'.dist && v in t.dist
    ensures v != s ==> t.prev[v] == t'.prev[v]
    ensures t.hops[v] == t'.hops[v]
    decreases t.hops[v]
  {
    if v != s {
      assert HangsBelow(g, t, v) && HangsBelow(g, t', v);
      assert Relaxed(g, t, t'.prev[v], v) && Relaxed(g, t', t.prev[v], v);
      CanonicalParentUnique(g, s, t, t', t.prev[v]);
    }
  }

  lemma CanonicalUnique(g: Edges, s: NodeId, t: Tree, t': Tree)
    requires Canonical(g, s, t) && Canonical(g, s, t')
    ensures t == t'
  {
    forall v | v in t.dist ensures v in t'.dist && t'.dist[v] <= t.dist[v] {
      CanonicalDistUnique(g, s, t, t', v);
    }
    forall v | v in t'.dist ensures v in t.dist && t.dist[v] <= t'.dist[v] {
      CanonicalDistUnique(g, s, t', t, v);
    }
    assert t.dist == t'.dist;
    forall v | v in t.dist
      ensures (v != s ==> t.prev[v] == t'.prev[v]) && t.hops[v] == t'.hops[v]
    {
      CanonicalParentUnique(g, s, t, t', v);
    }
    assert t.prev == t'.prev && t.hops == t'.hops;
  }

  /** The tie-break makes the route map a function of the graph and the source:
      it does not depend on the order in which neighbours were visited. */
  lemma RouteMapUnique(g: Edges, s: NodeId, routes: map<NodeId, Route>, routes': map<NodeId, Route>)
    requires IsRouteMap(g, s, routes) && IsRouteMap(g, s, routes')
    ensures routes == routes'
  {
    var t :| Canonical(g, s, t) && routes == RoutesOf(g, s, t);
    var t' :| Canonical(g, s, t') && routes' == RoutesOf(g, s, t');
    CanonicalUnique(g, s, t, t');
  }

  // ---- The search ----

  type Heap = multiset<(int, NodeId)>

  predicate IsLeast(pq: Heap, e: (int, NodeId)) {
    e in pq && forall f :: f in pq ==> LexLe(e.0, e.1, f.0, f.1)
  }

  /** A non-empty heap has a least entry. */
  lemma {:induction false} LeastExists(pq: Heap) returns (least: (int, NodeId))
    requires |pq| > 0
    ensures IsLeast(pq, least)
  {
    least :| least in pq;
    var rest := pq - multiset{least};
    assert pq == rest + multiset{least};
    if |rest| > 0 {
      var m := LeastExists(rest);
      if !LexLe(least.0, least.1, m.0, m.1) {
        least := m;
      }
    }
  }

  method HeapPop(pq: Heap) returns (least: (int, NodeId), rest: Heap)
    requires |pq| > 0
    ensures IsLeast(pq, least) && least in pq && rest == pq - multiset{least}
    ensures forall f :: f in rest ==> least.0 < f.0 || (least.0 == f.0 && least.1 <= f.1)
  {
    ghost var witnessed := LeastExists(pq);
    least :| IsLeast(pq, least);
    rest := pq - multiset{least};
    assert forall f :: f in rest ==> f in pq;
  }

  /** Every known unvisited node waits in the heap at its distance, and nothing
      in the heap comes before a settled node. */
  ghost predicate HeapCovers(t: Tree, visited: set<NodeId>, pq: Heap) {
    (forall v :: v in t.dist && v !in visited ==> (t.dist[v], v) in pq)
    && (forall e :: e in pq ==> e.1 in t.dist && t.dist[e.1] <= e.0)
    && (forall e, u :: e in pq && u in visited && u in t.dist ==> LexLe(t.dist[u], u, e.0, e.1))
  }

  ghost predicate HangsBelowVisited(g: Edges, t: Tree, visited: set<NodeId>) {
    (forall v :: v in t.prev ==> HangsBelow(g, t, v))
    && (forall v :: v in t.prev ==> t.prev[v] in visited)
  }

  ghost predicate RelaxedUpTo(g: Edges, t: Tree, visited: set<NodeId>, node: NodeId, pending: set<NodeId>) {
    forall u, v :: u in visited && Linked(g, u, v) && !(u == node && v in pending)
      ==> Relaxed(g, t, u, v)
  }

  /** No link leaves `nodes`. */
  ghost predicate Closed(g: Edges, nodes: set<NodeId>) {
    forall u, v :: Linked(g, u, v) ==> v in nodes
  }

  lemma AllNodes(g: Edges, s: NodeId) returns (nodes: set<NodeId>)
    ensures Closed(g, nodes) && s in nodes && nodes == Universe(g, s)
  {
    nodes := Universe(g, s);
  }

  /** What holds while the edges from `node` to `pending` are not yet looked at. */
  ghost predicate Searching(g: Edges, nodes: set<NodeId>, s: NodeId, t: Tree, visited: set<NodeId>, pq: Heap,
                            node: NodeId, pending: set<NodeId>)
  {
    WellKeyed(s, t) && (forall v :: v in visited ==> v in t.dist)
    && (forall v :: v in t.dist ==> 0 <= t.dist[v] && v in nodes)
    && HangsBelowVisited(g, t, visited)
    && HeapCovers(t, visited, pq)
    && RelaxedUpTo(g, t, visited, node, pending)
  }

  /** `node` and everything settled before it, in the order of settling. */
  ghost predicate SettledLast(t: Tree, visited: set<NodeId>, node: NodeId) {
    node in visited && node in t.dist
    && forall u :: u in visited ==> u in t.dist && LexLe(t.dist[u], u, t.dist[node], node)
  }

  /** Popping a stale entry loses nothing. */
  lemma DropStale(g: Edges, nodes: set<NodeId>, s: NodeId, t: Tree, visited: set<NodeId>, pq: Heap, e: (int, NodeId))
    requires Searching(g, nodes, s, t, visited, pq, s, {}) && e in pq && e.1 in visited
    ensures Searching(g, nodes, s, t, visited, pq - multiset{e}, s, {})
  {
    var rest := pq - multiset{e};
    assert forall f :: f in rest ==> f in pq;
    assert forall f :: f in pq && f != e ==> f in rest;
  }

  /** Popping the least entry of an unvisited node settles it at its distance. */
  lemma Settle(g: Edges, nodes: set<NodeId>, s: NodeId, t: Tree, visited: set<NodeId>, pq: Heap, e: (int, NodeId),
               nbs: set<NodeId>)
    requires Searching(g, nodes, s, t, visited, pq, s, {}) && IsLeast(pq, e) && e.1 !in visited
    requires forall v :: Linked(g, e.1, v) ==> v in nbs
    ensures e.1 in t.dist && t.dist[e.1] == e.0
    ensures Searching(g, nodes, s, t, visited + {e.1}, pq - multiset{e}, e.1, nbs)
    ensures SettledLast(t, visited + {e.1}, e.1)
  {
    var rest := pq - multiset{e};
    assert (t.dist[e.1], e.1) in pq;
    assert forall f :: f in rest ==> f in pq;
    assert forall f :: f in pq && f != e ==> f in rest;
  }

  /** The branch of the relaxation that records an improvement. */
  function Improve(t: Tree, node: NodeId, nb: NodeId, newCost: int): Tree
    requires node in t.hops
  {
    Tree(t.dist[nb := newCost], t.hops[nb := t.hops[node] + 1], t.prev[nb := node])
  }

  /** An improvement never touches a settled node, so the tree above it stands. */
  lemma ImprovedTree(g: Edges, t: Tree, visited: set<NodeId>, node: NodeId, nb: NodeId, c: int)
    requires HangsBelowVisited(g, t, visited) && SettledLast(t, visited, node) && nb !in visited
    requires t.hops.Keys == t.dist.Keys && Linked(g, node, nb) && c == t.dist[node] + Weight(g, node, nb)
    ensures HangsBelowVisited(g, Improve(t, node, nb, c), visited)
  {
    var t' := Improve(t, node, nb, c);
    forall v | v in t'.prev ensures HangsBelow(g, t', v) && t'.prev[v] in visited {
      if v != nb {
        assert HangsBelow(g, t, v);
      }
    }
  }

  lemma ImprovedEdges(g: Edges, t: Tree, visited: set<NodeId>, node: NodeId, pending: set<NodeId>, nb: NodeId, c: int)
    requires RelaxedUpTo(g, t, visited, node, pending) && SettledLast(t, visited, node) && nb !in visited
    requires HangsBelowVisited(g, t, visited)
    requires t.hops.Keys == t.dist.Keys && Linked(g, node, nb) && c == t.dist[node] + Weight(g, node, nb)
    requires nb in t.dist ==> c < t.dist[nb]
    ensures RelaxedUpTo(g, Improve(t, node, nb, c), visited, node, pending - {nb})
  {
    var t' := Improve(t, node, nb, c);
    forall u, v | u in visited && Linked(g, u, v) && !(u == node && v in pending - {nb})
      ensures Relaxed(g, t', u, v)
    {
      if u != node || v != nb {
        assert Relaxed(g, t, u, v);
        assert v != nb && v in t.prev ==> t.prev[v] in visited;
      }
    }
  }

  lemma ImprovedHeap(t: Tree, visited: set<NodeId>, pq: Heap, node: NodeId, nb: NodeId, c: int)
    requires HeapCovers(t, visited, pq) && SettledLast(t, visited, node) && nb !in visited
    requires t.dist[node] < c && node in t.hops
    requires nb in t.dist ==> c < t.dist[nb]
    ensures HeapCovers(Improve(t, node, nb, c), visited, pq + multiset{(c, nb)})
  {
    var pq' := pq + multiset{(c, nb)};
    assert forall e :: e in pq' ==> e in pq || e == (c, nb);
    assert forall e :: e in pq ==> e in pq';
    assert (c, nb) in pq';
  }

  lemma ImprovedKeys(s: NodeId, t: Tree, node: NodeId, nb: NodeId, c: int)
    requires WellKeyed(s, t) && node in t.hops && nb != s
    ensures WellKeyed(s, Improve(t, node, nb, c))
  {
  }

  lemma LookAtImproved(g: Edges, nodes: set<NodeId>, s: NodeId, t: Tree, visited: set<NodeId>, pq: Heap,
                       node: NodeId, pending: set<NodeId>, nb: NodeId, c: int)
    requires PositiveCosts(g) && nb in nodes && Linked(g, node, nb) && nb in pending
    requires Searching(g, nodes, s, t, visited, pq, node, pending) && SettledLast(t, visited, node)
    requires c == t.dist[node] + Weight(g, node, nb) && (nb in t.dist ==> c < t.dist[nb])
    ensures Searching(g, nodes, s, Improve(t, node, nb, c), visited, pq + multiset{(c, nb)}, node, pending - {nb})
    ensures SettledLast(Improve(t, node, nb, c), visited, node)
  {
    assert t.dist[node] < c && nb !in visited && nb != s;
    ImprovedKeys(s, t, node, nb, c);
    ImprovedTree(g, t, visited, node, nb, c);
    ImprovedEdges(g, t, visited, node, pending, nb, c);
    ImprovedHeap(t, visited, pq, node, nb, c);
  }

  lemma LookAtUnimproved(g: Edges, nodes: set<NodeId>, s: NodeId, t: Tree, visited: set<NodeId>, pq: Heap,
                         node: NodeId, pending: set<NodeId>, nb: NodeId)
    requires Linked(g, node, nb) && nb in pending
    requires Searching(g, nodes, s, t, visited, pq, node, pending) && SettledLast(t, visited, node)
    requires nb in t.dist && t.dist[nb] <= t.dist[node] + Weight(g, node, nb)
    ensures Searching(g, nodes, s, t, visited, pq, node, pending - {nb})
  {
    assert Relaxed(g, t, node, nb);
  }

  /** The inner loop of `dijkstra`: look at every edge out of the node just settled.
      The order of the neighbours is left open. */
  method RelaxNeighbours(ghost g: Edges, ghost nodes: set<NodeId>, ghost s: NodeId, ghost visited: set<NodeId>,
                         node: NodeId, cost: int,
                         neighbours: map<NodeId, Link>, t0: Tree, pq0: Heap)
    returns (t: Tree, pq: Heap)
    requires PositiveCosts(g) && Closed(g, nodes) && neighbours == (if node in g then g[node] else map[])
    requires Searching(g, nodes, s, t0, visited, pq0, node, neighbours.Keys)
    requires SettledLast(t0, visited, node) && t0.dist[node] == cost
    ensures Searching(g, nodes, s, t, visited, pq, s, {})
  {
    t, pq := t0, pq0;
    var remaining := neighbours.Keys;
    while remaining != {}
      invariant remaining <= neighbours.Keys
      invariant Searching(g, nodes, s, t, visited, pq, node, remaining)
      invariant SettledLast(t, visited, node) && t.dist[node] == cost
      decreases |remaining|
    {
      var nb :| nb in remaining;
      assert Linked(g, node, nb);
      var newCost := cost + neighbours[nb].cost;
      if nb !in t.dist || newCost < t.dist[nb] {
        LookAtImproved(g, nodes, s, t, visited, pq, node, remaining, nb, newCost);
        t := Improve(t, node, nb, newCost);
        pq := pq + multiset{(newCost, nb)};
      } else {
        LookAtUnimproved(g, nodes, s, t, visited, pq, node, remaining, nb);
      }
      remaining := remaining - {nb};
    }
  }

  method Dijkstra(g: Edges, source: NodeId) returns (routes: map<NodeId, Route>)
    requires PositiveCosts(g)
    ensures IsRouteMap(g, source, routes)
  {
    var t := Tree(map[source := 0], map[source := 0], map[]);
    var visited: set<NodeId> := {};
    var pq: Heap := multiset{(0, source)};

    ghost var nodes := AllNodes(g, source);
    StartSearch(g, nodes, source);
    while |pq| > 0
      invariant Searching(g, nodes, source, t, visited, pq, source, {})
      decreases |nodes - visited|, |pq|
    {
      var least, rest := HeapPop(pq);
      var cost, node := least.0, least.1;
      if node in visited {
        DropStale(g, nodes, source, t, visited, pq, least);
        pq := rest;
        continue;
      }
      var neighbours := if node in g then g[node] else map[];
      Settle(g, nodes, source, t, visited, pq, least, neighbours.Keys);
      SettlingShrinks(nodes, visited, node);
      visited := visited + {node};
      t, pq := RelaxNeighbours(g, nodes, source, visited, node, cost, neighbours, t, rest);
    }

    FinishedSearch(g, nodes, source, t, visited, pq);
    routes := BuildRouteTable(g, source, t);
  }

  lemma StartSearch(g: Edges, nodes: set<NodeId>, s: NodeId)
    requires s in nodes
    ensures Searching(g, nodes, s, Tree(map[s := 0], map[s := 0], map[]), {}, multiset{(0, s)}, s, {})
  {
  }

  lemma SettlingShrinks(nodes: set<NodeId>, visited: set<NodeId>, node: NodeId)
    requires node in nodes && node !in visited
    ensures |nodes - (visited + {node})| < |nodes - visited|
  {
    assert nodes - visited == (nodes - (visited + {node})) + {node};
  }

  /** An empty heap means every known node is settled and every edge relaxed. */
  lemma FinishedSearch(g: Edges, nodes: set<NodeId>, s: NodeId, t: Tree, visited: set<NodeId>, pq: Heap)
    requires Searching(g, nodes, s, t, visited, pq, s, {}) && |pq| == 0
    ensures Canonical(g, s, t)
  {
    forall u, v | u in t.dist && Linked(g, u, v) ensures Relaxed(g, t, u, v) {
      assert u in visited;
    }
  }

  /** Walk up from `dest` to the child of the source above it. */
  method TraceBack(ghost g: Edges, source: NodeId, t: Tree, dest: NodeId) returns (nextHop: NodeId)
    requires Canonical(g, source, t) && dest in t.prev
    ensures nextHop == FirstHop(g, source, t, dest)
  {
    nextHop := dest;
    var cursor := dest;
    while cursor in t.prev && t.prev[cursor] != source
      invariant cursor in t.prev
      invariant FirstHop(g, source, t, cursor) == FirstHop(g, source, t, dest)
      decreases t.hops[cursor]
    {
      assert HangsBelow(g, t, cursor);
      nextHop := cursor;
      cursor := t.prev[cursor];
    }
    if cursor in t.prev && t.prev[cursor] == source {
      nextHop := cursor;
    }
  }

  /** The second half of `dijkstra`: trace every destination back to its first hop. */
  method BuildRouteTable(ghost g: Edges, source: NodeId, t: Tree) returns (routes: map<NodeId, Route>)
    requires Canonical(g, source, t)
    ensures routes == RoutesOf(g, source, t)
  {
    ghost var full := RoutesOf(g, source, t);
    routes := map[];
    var todo := t.dist.Keys;
    while todo != {}
      invariant forall v :: v in todo ==> v in t.dist
      invariant forall v :: v in routes <==> v in t.prev && v !in todo
      invariant forall v :: v in routes ==> v in full && routes[v] == full[v]
      decreases |todo|
    {
      var dest :| dest in todo;
      todo := todo - {dest};
      if dest == source {
        continue;
      }
      var nextHop := TraceBack(g, source, t, dest);
      routes := routes[dest := Route(nextHop, t.dist[dest], t.hops[dest])];
    }
  }
}

/** The root's cached routes and their dirty flag: `RootRouter` in routing/router.py. */
module RootRouter {
  import opened Common
  import opened Walks
  import opened LinkGraph
  import Dijkstra

  /** One neighbour entry of a LINK report; absent fields take their defaults. */
  datatype NeighbourReport = NeighbourReport(nodeId: NodeId, rssi: Option<int>, snr: Option<real>)

  const DEFAULT_RSSI := -100
  const LINK_MAX_AGE := 120.0

  function ReportOp(reporter: NodeId, nb: NeighbourReport, now: real): GraphOp {
    Report(reporter, nb.nodeId, nb.rssi.GetOr(DEFAULT_RSSI), nb.snr.GetOr(0.0), now)
  }

  /** The graph after the first `n` entries of a report have been applied. */
  function AppliedReports(g: Edges, reporter: NodeId, nbs: seq<NeighbourReport>, clock: seq<real>, n: nat): Edges
    requires n <= |nbs| == |clock|
  {
    if n == 0 then g
    else Apply(AppliedReports(g, reporter, nbs, clock, n - 1), ReportOp(reporter, nbs[n - 1], clock[n - 1]))
  }

  /** After a LINK report, each listed neighbour's latest entry is on the link to the
      reporter, in both directions, with -100 dBm and 0 dB where it says nothing. */
  lemma {:induction false} ReportedNeighbour(g: Edges, reporter: NodeId, nbs: seq<NeighbourReport>, clock: seq<real>,
                                             n: nat, i: nat)
    requires i < n <= |nbs| == |clock|
    requires forall j :: i < j < n ==> nbs[j].nodeId != nbs[i].nodeId
    ensures var g', nb := AppliedReports(g, reporter, nbs, clock, n), nbs[i];
            Linked(g', reporter, nb.nodeId) && Linked(g', nb.nodeId, reporter)
            && g'[nb.nodeId][reporter] == g'[reporter][nb.nodeId]
            && g'[reporter][nb.nodeId].lastSeen == clock[i]
            && g'[reporter][nb.nodeId].rssi == (if nb.rssi.Some? then nb.rssi.value else -100)
            && g'[reporter][nb.nodeId].snr == (if nb.snr.Some? then nb.snr.value else 0.0)
            && g'[reporter][nb.nodeId].cost == RssiToCost(g'[reporter][nb.nodeId].rssi)
  {
    var nb, before := nbs[n - 1], AppliedReports(g, reporter, nbs, clock, n - 1);
    ReportStores(before, reporter, nb.nodeId, if nb.rssi.Some? then nb.rssi.value else -100,
                 if nb.snr.Some? then nb.snr.value else 0.0, clock[n - 1]);
    if i < n - 1 {
      ReportedNeighbour(g, reporter, nbs, clock, n - 1, i);
      assert View(AppliedReports(g, reporter, nbs, clock, n), reporter, nbs[i].nodeId)
          == View(before, reporter, nbs[i].nodeId);
      assert View(AppliedReports(g, reporter, nbs, clock, n), nbs[i].nodeId, reporter)
          == View(before, nbs[i].nodeId, reporter);
    }
  }

  /** Links the report does not mention stay as they were. */
  lemma {:induction false} UnreportedLink(g: Edges, reporter: NodeId, nbs: seq<NeighbourReport>, clock: seq<real>,
                                          n: nat, u: NodeId, v: NodeId)
    requires n <= |nbs| == |clock|
    requires forall j :: 0 <= j < n ==> !(u == reporter && v == nbs[j].nodeId) && !(v == reporter && u == nbs[j].nodeId)
    ensures View(AppliedReports(g, reporter, nbs, clock, n), u, v) == View(g, u, v)
  {
    if 0 < n {
      UnreportedLink(g, reporter, nbs, clock, n - 1, u, v);
      var nb := nbs[n - 1];
      ReportStores(AppliedReports(g, reporter, nbs, clock, n - 1), reporter, nb.nodeId,
                   if nb.rssi.Some? then nb.rssi.value else -100,
                   if nb.snr.Some? then nb.snr.value else 0.0, clock[n - 1]);
    }
  }

  lemma EmptyGraphHasNoRoutes(root: NodeId)
    ensures Dijkstra.IsRouteMap(map[], root, map[])
  {
    var t := Dijkstra.Tree(map[root := 0], map[root := 0], map[]);
    assert Dijkstra.Canonical(map[], root, t);
    assert Dijkstra.RoutesOf(map[], root, t) == map[];
  }

  class RootRouter {
    const rootNodeId: NodeId
    const graph: LinkStateGraph
    var routes: map<NodeId, Dijkstra.Route>
    var dirty: bool

    /** The cache is coherent: unless it is dirty, it holds the shortest routes
        of the graph as it stands. */
    ghost predicate Valid()
      reads this, graph
    {
      graph.Valid() && (!dirty ==> Dijkstra.IsRouteMap(graph.edges, rootNodeId, routes))
    }

    constructor (root: NodeId)
      ensures Valid() && fresh(graph) && rootNodeId == root && graph.edges == map[] && routes == map[] && !dirty
    {
      rootNodeId := root;
      graph := new LinkStateGraph();
      routes := map[];
      dirty := false;
      EmptyGraphHasNoRoutes(root);
    }

    /** A LINK packet arrived. `clock[i]` is the time read while entry i is applied. */
    method ApplyLinkUpdate(reporter: NodeId, neighbours: seq<NeighbourReport>, clock: seq<real>)
      requires Valid() && |clock| == |neighbours|
      modifies this`dirty, graph
      ensures Valid() && dirty
      ensures graph.edges == AppliedReports(old(graph.edges), reporter, neighbours, clock, |neighbours|)
    {
      ApplyEntries(reporter, neighbours, clock);
      dirty := true;
    }

    /** The loop of `apply_link_update`. */
    method ApplyEntries(reporter: NodeId, neighbours: seq<NeighbourReport>, clock: seq<real>)
      requires graph.Valid() && |clock| == |neighbours|
      modifies graph
      ensures graph.Valid()
      ensures graph.edges == AppliedReports(old(graph.edges), reporter, neighbours, clock, |neighbours|)
    {
      var i := 0;
      while i < |neighbours|
        invariant i <= |neighbours| && graph.Valid()
        invariant graph.edges == AppliedReports(old(graph.edges), reporter, neighbours, clock, i)
      {
        ApplyEntry(reporter, neighbours[i], clock[i]);
        i := i + 1;
      }
    }

    /** The body of that loop. */
    method ApplyEntry(reporter: NodeId, nb: NeighbourReport, now: real)
      requires graph.Valid()
      modifies graph
      ensures graph.Valid() && graph.edges == Apply(old(graph.edges), ReportOp(reporter, nb, now))
    {
      graph.UpdateLink(reporter, nb.nodeId, nb.rssi.GetOr(DEFAULT_RSSI), nb.snr.GetOr(0.0), now);
    }

    /** A node was heard directly by the root. */
    method ApplyHello(fromNode: NodeId, rssi: int, snr: real, now: real)
      requires Valid()
      modifies this`dirty, graph
      ensures Valid() && dirty
      ensures graph.edges == Apply(old(graph.edges), Report(rootNodeId, fromNode, rssi, snr, now))
      ensures Linked(graph.edges, rootNodeId, fromNode)
      ensures var link := graph.edges[rootNodeId][fromNode];
              link.rssi == rssi && link.snr == snr && link.lastSeen == now && link.cost == RssiToCost(rssi)
    {
      graph.UpdateLink(rootNodeId, fromNode, rssi, snr, now);
      dirty := true;
    }

    /** Recompute if the topology changed; true exactly when the routes changed. */
    method Recalculate(now: real) returns (changed: bool)
      requires Valid()
      modifies this`routes, this`dirty, graph
      ensures Valid() && !dirty
      ensures Dijkstra.IsRouteMap(graph.edges, rootNodeId, routes)
      ensures changed <==> routes != old(routes)
      ensures !old(dirty) ==> graph.edges == old(graph.edges)
      ensures old(dirty) ==> graph.edges == Apply(old(graph.edges), Age(LINK_MAX_AGE, now))
      ensures old(dirty) ==>
                forall u, v :: (Linked(graph.edges, u, v)
                                <==> Linked(old(graph.edges), u, v)
                                     && now - old(graph.edges)[u][v].lastSeen <= 120.0)
    {
      if !dirty {
        return false;
      }
      ExpiredLinks(graph.edges, now, LINK_MAX_AGE);
      graph.ExpireLinks(LINK_MAX_AGE, now);
      WellFormedCosts(graph.edges);
      var newRoutes := Dijkstra.Dijkstra(graph.edges, rootNodeId);
      changed := newRoutes != routes;
      routes := newRoutes;
      dirty := false;
    }
  }
}

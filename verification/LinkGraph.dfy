/** The topology the root collects: `LinkStateGraph` in routing/router.py. */
module LinkGraph {
  import opened Common
  import opened Walks

  /** Never below 1: -50 dBm costs 1, and each dBm of distance from the band within
      50 dBm of zero costs one more. */
  function RssiToCost(rssi: int): (cost: int)
    ensures 1 <= cost
    ensures rssi <= -50 ==> cost == -49 - rssi
    ensures -50 <= rssi <= 50 ==> cost == 1
    ensures 50 <= rssi ==> cost == rssi - 49
  {
    if Abs(rssi) - 49 < 1 then 1 else Abs(rssi) - 49
  }

  function ReportedLink(rssi: int, snr: real, now: real): Link {
    Link(rssi, snr, now, RssiToCost(rssi))
  }

  /** Store one direction of a link. */
  function Put(g: Edges, src: NodeId, dst: NodeId, link: Link): Edges {
    g[src := (if src in g then g[src] else map[])[dst := link]]
  }

  function Updated(g: Edges, a: NodeId, b: NodeId, link: Link): Edges {
    Put(Put(g, a, b, link), b, a, link)
  }

  predicate Stale(link: Link, now: real, maxAge: real) {
    now - link.lastSeen > maxAge
  }

  function Fresh(links: map<NodeId, Link>, now: real, maxAge: real): map<NodeId, Link> {
    map v | v in links && !Stale(links[v], now, maxAge) :: links[v]
  }

  function Expired(g: Edges, now: real, maxAge: real): Edges {
    map u | u in g :: Fresh(g[u], now, maxAge)
  }

  /** What every reachable graph satisfies. */
  ghost predicate WellFormed(g: Edges) {
    Symmetric(g) && forall u, v :: Linked(g, u, v) ==> Weight(g, u, v) == RssiToCost(g[u][v].rssi)
  }

  lemma WellFormedCosts(g: Edges)
    requires WellFormed(g)
    ensures PositiveCosts(g)
  {
  }

  // ---- One pair of nodes at a time ----

  /** What the graph says about the link from `u` to `v`. */
  function View(g: Edges, u: NodeId, v: NodeId): Option<Link> {
    if Linked(g, u, v) then Some(g[u][v]) else None
  }

  datatype GraphOp =
    | Report(a: NodeId, b: NodeId, rssi: int, snr: real, now: real)
    | Age(maxAge: real, now: real)

  function Apply(g: Edges, op: GraphOp): Edges {
    match op
    case Report(a, b, rssi, snr, now) => Updated(g, a, b, ReportedLink(rssi, snr, now))
    case Age(maxAge, now) => Expired(g, now, maxAge)
  }

  function Run(ops: seq<GraphOp>): Edges {
    if ops == [] then map[] else Apply(Run(ops[..|ops| - 1]), ops[|ops| - 1])
  }

  /** The same history seen by a single unordered pair: the latest report of the
      pair, unless some later ageing found it too old. */
  function PairHistory(ops: seq<GraphOp>, u: NodeId, v: NodeId): Option<Link> {
    if ops == [] then None else
    var before := PairHistory(ops[..|ops| - 1], u, v);
    match ops[|ops| - 1]
    case Report(a, b, rssi, snr, now) =>
      if (a == u && b == v) || (a == v && b == u) then Some(ReportedLink(rssi, snr, now)) else before
    case Age(maxAge, now) =>
      if before.Some? && Stale(before.value, now, maxAge) then None else before
  }

  /** After any run, every link is exactly what its own pair's history says. */
  lemma {:induction false} RunIsPairwise(ops: seq<GraphOp>, u: NodeId, v: NodeId)
    ensures View(Run(ops), u, v) == PairHistory(ops, u, v)
  {
    if ops != [] {
      RunIsPairwise(ops[..|ops| - 1], u, v);
    }
  }

  lemma {:induction false} PairHistorySymmetric(ops: seq<GraphOp>, u: NodeId, v: NodeId)
    ensures PairHistory(ops, u, v) == PairHistory(ops, v, u)
    ensures PairHistory(ops, u, v).Some?
      ==> PairHistory(ops, u, v).value.cost == RssiToCost(PairHistory(ops, u, v).value.rssi)
  {
    if ops != [] {
      PairHistorySymmetric(ops[..|ops| - 1], u, v);
    }
  }

  /** A report about the link between `u` and `v`, from either end. */
  predicate ReportsPair(op: GraphOp, u: NodeId, v: NodeId) {
    op.Report? && ((op.a == u && op.b == v) || (op.a == v && op.b == u))
  }

  /** The latest report of a pair decides: the link is present exactly if no later
      ageing found it too old, and then it holds that report's own data. */
  lemma LatestReportCounts(ops: seq<GraphOp>, i: nat, u: NodeId, v: NodeId)
    requires i < |ops| && ReportsPair(ops[i], u, v)
    requires forall j :: i < j < |ops| ==> !ReportsPair(ops[j], u, v)
    ensures Linked(Run(ops), u, v)
            <==> forall j :: i < j < |ops| && ops[j].Age? ==> ops[j].now - ops[i].now <= ops[j].maxAge
    ensures Linked(Run(ops), u, v) ==>
              var link := Run(ops)[u][v];
              link.rssi == ops[i].rssi && link.snr == ops[i].snr && link.lastSeen == ops[i].now
              && link.cost == RssiToCost(ops[i].rssi)
  {
    RunIsPairwise(ops, u, v);
    HistoryAfterReport(ops, i, u, v);
  }

  lemma {:induction false} HistoryAfterReport(ops: seq<GraphOp>, i: nat, u: NodeId, v: NodeId)
    requires i < |ops| && ReportsPair(ops[i], u, v)
    requires forall j :: i < j < |ops| ==> !ReportsPair(ops[j], u, v)
    ensures PairHistory(ops, u, v).Some?
            <==> forall j :: i < j < |ops| && ops[j].Age? ==> ops[j].now - ops[i].now <= ops[j].maxAge
    ensures PairHistory(ops, u, v).Some? ==>
              var link := PairHistory(ops, u, v).value;
              link.rssi == ops[i].rssi && link.snr == ops[i].snr && link.lastSeen == ops[i].now
              && link.cost == RssiToCost(ops[i].rssi)
  {
    var n := |ops| - 1;
    if i < n {
      HistoryAfterReport(ops[..n], i, u, v);
      assert forall j :: 0 <= j < n ==> ops[..n][j] == ops[j];
    }
  }

  /** A pair nobody ever reported is not linked. */
  lemma NeverReported(ops: seq<GraphOp>, u: NodeId, v: NodeId)
    requires forall j :: 0 <= j < |ops| ==> !ReportsPair(ops[j], u, v)
    ensures !Linked(Run(ops), u, v)
  {
    RunIsPairwise(ops, u, v);
    NoHistory(ops, u, v);
  }

  lemma {:induction false} NoHistory(ops: seq<GraphOp>, u: NodeId, v: NodeId)
    requires forall j :: 0 <= j < |ops| ==> !ReportsPair(ops[j], u, v)
    ensures PairHistory(ops, u, v).None?
  {
    if ops != [] {
      assert !ReportsPair(ops[|ops| - 1], u, v);
      NoHistory(ops[..|ops| - 1], u, v);
    }
  }

  /** One report: both directions hold its data, and no other pair is touched. */
  lemma ReportStores(g: Edges, a: NodeId, b: NodeId, rssi: int, snr: real, now: real)
    ensures var g' := Apply(g, Report(a, b, rssi, snr, now));
            Linked(g', a, b) && Linked(g', b, a) && g'[b][a] == g'[a][b]
            && g'[a][b].rssi == rssi && g'[a][b].snr == snr && g'[a][b].lastSeen == now
            && g'[a][b].cost == RssiToCost(rssi)
    ensures forall u, v :: !((u == a && v == b) || (u == b && v == a)) ==>
              View(Apply(g, Report(a, b, rssi, snr, now)), u, v) == View(g, u, v)
  {
  }

  /** Every sequence of reports and ageings leaves the graph symmetric, each
      cost the one of its link's own RSSI. */
  lemma RunIsWellFormed(ops: seq<GraphOp>)
    ensures WellFormed(Run(ops))
  {
    var g := Run(ops);
    forall u, v | Linked(g, u, v)
      ensures Linked(g, v, u) && g[v][u] == g[u][v] && Weight(g, u, v) == RssiToCost(g[u][v].rssi)
    {
      RunIsPairwise(ops, u, v);
      RunIsPairwise(ops, v, u);
      PairHistorySymmetric(ops, u, v);
      assert View(g, u, v) == View(g, v, u);
    }
  }

  lemma UpdatedWellFormed(g: Edges, a: NodeId, b: NodeId, rssi: int, snr: real, now: real)
    requires WellFormed(g)
    ensures WellFormed(Updated(g, a, b, ReportedLink(rssi, snr, now)))
  {
    var link := ReportedLink(rssi, snr, now);
    var g' := Updated(g, a, b, link);
    forall u, v | Linked(g', u, v)
      ensures Linked(g', v, u) && g'[v][u] == g'[u][v] && Weight(g', u, v) == RssiToCost(g'[u][v].rssi)
    {
      if !(u == a && v == b) && !(u == b && v == a) {
        assert Linked(g, u, v);
      }
    }
  }

  /** Ageing keeps exactly the links that are young enough, both directions alike. */
  lemma ExpiredLinks(g: Edges, now: real, maxAge: real)
    requires WellFormed(g)
    ensures WellFormed(Expired(g, now, maxAge))
    ensures forall u, v :: Linked(Expired(g, now, maxAge), u, v)
              <==> Linked(g, u, v) && now - g[u][v].lastSeen <= maxAge
  {
    var g' := Expired(g, now, maxAge);
    forall u, v | Linked(g', u, v)
      ensures Linked(g', v, u) && g'[v][u] == g'[u][v] && Weight(g', u, v) == RssiToCost(g'[u][v].rssi)
    {
      assert Linked(g, u, v);
    }
  }

  class LinkStateGraph {
    var edges: Edges

    ghost predicate Valid()
      reads this
    {
      WellFormed(edges)
    }

    constructor ()
      ensures Valid() && edges == map[]
    {
      edges := map[];
    }

    /** The two directions of one reported link, in turn. */
    method UpdateLink(nodeA: NodeId, nodeB: NodeId, rssi: int, snr: real, now: real)
      requires Valid()
      modifies this
      ensures Valid()
      ensures edges == Apply(old(edges), Report(nodeA, nodeB, rssi, snr, now))
      ensures Linked(edges, nodeA, nodeB) && Linked(edges, nodeB, nodeA) && edges[nodeB][nodeA] == edges[nodeA][nodeB]
      ensures var link := edges[nodeA][nodeB];
              link.rssi == rssi && link.snr == snr && link.lastSeen == now && link.cost == RssiToCost(rssi)
      ensures forall u, v :: !((u == nodeA && v == nodeB) || (u == nodeB && v == nodeA)) ==>
                View(edges, u, v) == View(old(edges), u, v)
    {
      UpdatedWellFormed(edges, nodeA, nodeB, rssi, snr, now);
      ReportStores(edges, nodeA, nodeB, rssi, snr, now);
      var directions := [(nodeA, nodeB), (nodeB, nodeA)];
      var i := 0;
      while i < |directions|
        invariant i <= 2
        invariant edges == if i == 0 then old(edges)
                           else if i == 1 then Put(old(edges), nodeA, nodeB, ReportedLink(rssi, snr, now))
                           else Updated(old(edges), nodeA, nodeB, ReportedLink(rssi, snr, now))
      {
        var src, dst := directions[i].0, directions[i].1;
        if src !in edges {
          edges := edges[src := map[]];
        }
        edges := edges[src := edges[src][dst := Link(rssi, snr, now, RssiToCost(rssi))]];
        i := i + 1;
      }
    }

    /** The body of the loop of `expire_links`: delete one node's stale neighbours. */
    method DropStale(node: NodeId, maxAge: real, now: real)
      requires node in edges
      modifies this
      ensures edges == old(edges)[node := Fresh(old(edges)[node], now, maxAge)]
    {
      var links := edges[node];
      var stale := set v | v in links && Stale(links[v], now, maxAge);
      ghost var allStale := stale;
      assert links - (allStale - stale) == links;
      while stale != {}
        invariant stale <= allStale
        invariant edges == old(edges)[node := links - (allStale - stale)]
        decreases |stale|
      {
        var nb :| nb in stale;
        edges := edges[node := edges[node] - {nb}];
        assert links - (allStale - stale) - {nb} == links - (allStale - (stale - {nb}));
        stale := stale - {nb};
      }
      assert allStale - stale == allStale && links - allStale == Fresh(links, now, maxAge);
    }

    /** Sweep every node's links at one reading of the clock. */
    method ExpireLinks(maxAge: real, now: real)
      requires Valid()
      modifies this
      ensures Valid()
      ensures edges == Apply(old(edges), Age(maxAge, now))
    {
      ExpiredLinks(edges, now, maxAge);
      ghost var before := edges;
      var nodes := edges.Keys;
      while nodes != {}
        invariant nodes <= before.Keys && edges.Keys == before.Keys
        invariant forall u :: u in before ==>
                    edges[u] == if u in nodes then before[u] else Fresh(before[u], now, maxAge)
        decreases |nodes|
      {
        var node :| node in nodes;
        nodes := nodes - {node};
        DropStale(node, maxAge, now);
      }
      assert edges == Expired(before, now, maxAge);
    }
  }
}

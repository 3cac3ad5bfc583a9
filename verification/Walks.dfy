/** Weighted graphs, walks, and what it means for a distance to be shortest. */
module Walks {
  import opened Common

  /** One direction of a reported link, as `update_link` stores it. */
  datatype Link = Link(rssi: int, snr: real, lastSeen: real, cost: int)

  type Edges = map<NodeId, map<NodeId, Link>>

  predicate Linked(g: Edges, u: NodeId, v: NodeId) {
    u in g && v in g[u]
  }

  function Weight(g: Edges, u: NodeId, v: NodeId): int
    requires Linked(g, u, v)
  {
    g[u][v].cost
  }

  ghost predicate PositiveCosts(g: Edges) {
    forall u, v :: Linked(g, u, v) ==> 1 <= Weight(g, u, v)
  }

  /** Both directions of every link carry the same report. */
  ghost predicate Symmetric(g: Edges) {
    forall u, v :: Linked(g, u, v) ==> Linked(g, v, u) && g[v][u] == g[u][v]
  }

  /** Every node the graph mentions, and `source`. */
  function Universe(g: Edges, source: NodeId): set<NodeId> {
    {source} + g.Keys + set u, v | u in g && v in g[u] :: v
  }

  ghost predicate IsWalk(g: Edges, p: seq<NodeId>) {
    p != [] && forall i, j :: 0 <= i < j < |p| && j == i + 1 ==> Linked(g, p[i], p[j])
  }

  ghost predicate WalkBetween(g: Edges, p: seq<NodeId>, u: NodeId, v: NodeId) {
    IsWalk(g, p) && p[0] == u && p[|p| - 1] == v
  }

  ghost predicate Reachable(g: Edges, u: NodeId, v: NodeId) {
    exists p :: WalkBetween(g, p, u, v)
  }

  ghost function WalkCost(g: Edges, p: seq<NodeId>): int
    requires IsWalk(g, p)
  {
    if |p| == 1 then 0
    else WalkCost(g, p[..|p| - 1]) + Weight(g, p[|p| - 2], p[|p| - 1])
  }

  /** A walk may be extended at its front. */
  lemma {:induction false} PrependCost(g: Edges, u: NodeId, p: seq<NodeId>)
    requires IsWalk(g, p) && Linked(g, u, p[0])
    ensures IsWalk(g, [u] + p)
    ensures WalkCost(g, [u] + p) == Weight(g, u, p[0]) + WalkCost(g, p)
  {
    var q := [u] + p;
    assert forall i :: 0 < i < |q| ==> q[i] == p[i - 1];
    if |p| == 1 {
      assert q[..1] == [u];
    } else {
      PrependCost(g, u, p[..|p| - 1]);
      assert q[..|q| - 1] == [u] + p[..|p| - 1];
    }
  }

  function Reversed(p: seq<NodeId>): (r: seq<NodeId>)
    ensures |r| == |p|
    ensures forall i :: 0 <= i < |p| ==> r[i] == p[|p| - 1 - i]
  {
    if p == [] then [] else [p[|p| - 1]] + Reversed(p[..|p| - 1])
  }

  /** In a symmetric graph every walk can be walked back at the same cost. */
  lemma {:induction false} ReversedWalk(g: Edges, p: seq<NodeId>)
    requires Symmetric(g) && IsWalk(g, p)
    ensures IsWalk(g, Reversed(p)) && WalkCost(g, Reversed(p)) == WalkCost(g, p)
  {
    if |p| > 1 {
      var front := p[..|p| - 1];
      ReversedWalk(g, front);
      assert Linked(g, p[|p| - 2], p[|p| - 1]);
      PrependCost(g, p[|p| - 1], Reversed(front));
    }
  }
}

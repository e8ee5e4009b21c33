/**
 * `CityGrid.find_reliable_path` end to end: build the connectivity graph
 * from the registry, then query it; its contract restated over towers.
 */
module Reliable {
  import opened City
  import opened Connectivity
  import opened Paths

  /** A relay route: tower indices that are graph nodes, consecutive ones joined by an edge. */
  ghost predicate Route(ts: seq<Tower>, q: seq<int>) {
    && |q| > 0
    && (forall k :: 0 <= k < |q| ==> IsNode(ts, q[k]))
    && (forall k :: 0 <= k < |q| - 1 ==> Edge(ts, q[k], q[k + 1]))
  }

  /** A route from tower `u` to tower `t`. */
  ghost predicate RouteBetween(ts: seq<Tower>, q: seq<int>, u: int, t: int) {
    Route(ts, q) && q[0] == u && q[|q| - 1] == t
  }

  /** The weight of a route: the sum of the squared distances of its hops. */
  ghost function RouteWeight(ts: seq<Tower>, q: seq<int>): nat
    requires Route(ts, q)
    decreases |q|
  {
    if |q| == 1 then 0 else TowerDist(ts, q[0], q[1]) + RouteWeight(ts, q[1..])
  }

  lemma RepresentsWellFormed(G: Graph, ts: seq<Tower>)
    requires Represents(G, ts)
    ensures WellFormed(G)
  {
    forall a, b | (a, b) in G.weight ensures a in G.nodes && b in G.nodes {
      assert Edge(ts, a, b) && Edge(ts, b, a);
      assert IsNode(ts, a) && IsNode(ts, b);
    }
    forall a | a in G.nodes ensures 0 <= a < G.size {
      assert IsNode(ts, a);
      var b :| Edge(ts, a, b);
    }
  }

  /** Walks of the built graph are exactly the relay routes over the towers, with the same weight. */
  lemma {:induction false} WalksAreRoutes(G: Graph, ts: seq<Tower>, q: seq<int>)
    requires Represents(G, ts)
    ensures IsWalk(G, q) <==> Route(ts, q)
    ensures IsWalk(G, q) ==> PathWeight(G, q) == RouteWeight(ts, q)
    decreases |q|
  {
    if IsWalk(G, q) && |q| > 1 {
      WalksAreRoutes(G, ts, q[1..]);
    }
  }

  /** Every walk of the built graph is a route and vice versa, with the same weight. */
  lemma AllWalksAreRoutes(G: Graph, ts: seq<Tower>)
    requires Represents(G, ts)
    ensures forall q :: IsWalk(G, q) <==> Route(ts, q)
    ensures forall q :: IsWalk(G, q) ==> PathWeight(G, q) == RouteWeight(ts, q)
  {
    forall q
      ensures IsWalk(G, q) <==> Route(ts, q)
      ensures IsWalk(G, q) ==> PathWeight(G, q) == RouteWeight(ts, q)
    {
      WalksAreRoutes(G, ts, q);
    }
  }

  /** The graph-level contract of the query, read over the towers the graph was built from. */
  lemma QueryOverRoutes(G: Graph, ts: seq<Tower>, start: int, end: int)
    requires Represents(G, ts)
    ensures WellFormed(G)
    ensures ShortestPath(G, start, end).EndpointMissing? <==> !IsNode(ts, start) || !IsNode(ts, end)
    ensures start == end && IsNode(ts, start) ==> ShortestPath(G, start, end) == Found([start])
    ensures ShortestPath(G, start, end).Found? ==>
      var p := ShortestPath(G, start, end).path;
      RouteBetween(ts, p, start, end) && Simple(p) && forall q :: RouteBetween(ts, q, start, end) ==> RouteWeight(ts, p) <= RouteWeight(ts, q)
    ensures ShortestPath(G, start, end).NoPath? <==>
      IsNode(ts, start) && IsNode(ts, end) && forall q :: !RouteBetween(ts, q, start, end)
  {
    RepresentsWellFormed(G, ts);
    AllWalksAreRoutes(G, ts);
    ShortestPathCorrect(G, start, end);
    assert start in G.nodes <==> IsNode(ts, start);
    assert end in G.nodes <==> IsNode(ts, end);
    var r := ShortestPath(G, start, end);
    if r.Found? {
      TransferFound(G, ts, start, end, r.path);
    }
    TransferNoPath(G, ts, start, end);
  }

  lemma TransferFound(G: Graph, ts: seq<Tower>, start: int, end: int, p: seq<int>)
    requires forall q :: IsWalk(G, q) <==> Route(ts, q)
    requires forall q :: IsWalk(G, q) ==> PathWeight(G, q) == RouteWeight(ts, q)
    requires Connects(G, p, start, end)
    requires forall q :: Connects(G, q, start, end) ==> PathWeight(G, p) <= PathWeight(G, q)
    ensures RouteBetween(ts, p, start, end)
    ensures forall q :: RouteBetween(ts, q, start, end) ==> RouteWeight(ts, p) <= RouteWeight(ts, q)
  {
    forall q | RouteBetween(ts, q, start, end)
      ensures RouteWeight(ts, p) <= RouteWeight(ts, q)
    {
      assert Connects(G, q, start, end);
    }
  }

  lemma TransferNoPath(G: Graph, ts: seq<Tower>, start: int, end: int)
    requires forall q :: IsWalk(G, q) <==> Route(ts, q)
    ensures (forall q :: !Connects(G, q, start, end)) <==> (forall q :: !RouteBetween(ts, q, start, end))
  {
    if exists q :: Connects(G, q, start, end) {
      var q :| Connects(G, q, start, end);
      assert RouteBetween(ts, q, start, end);
    }
    if exists q :: RouteBetween(ts, q, start, end) {
      var q :| RouteBetween(ts, q, start, end);
      assert Connects(G, q, start, end);
    }
  }

  /**
   * The path query over the registry. An endpoint without an in-range
   * neighbour is not a node, and that is reported as its own outcome;
   * otherwise a node is its own path, a returned route joins `start` to
   * `end`, visits no tower twice, and is no heavier than any other route
   * between them, and
   * `NoPath` is answered only when no route joins them.
   */
  method FindReliablePath(ts: seq<Tower>, start: int, end: int) returns (r: PathOutcome)
    ensures r.EndpointMissing? <==> !IsNode(ts, start) || !IsNode(ts, end)
    ensures start == end && IsNode(ts, start) ==> r == Found([start])
    ensures r.Found? ==> RouteBetween(ts, r.path, start, end) && Simple(r.path)
    ensures r.Found? ==> forall q :: RouteBetween(ts, q, start, end) ==> RouteWeight(ts, r.path) <= RouteWeight(ts, q)
    ensures r.NoPath? <==> IsNode(ts, start) && IsNode(ts, end) && forall q :: !RouteBetween(ts, q, start, end)
  {
    var G := BuildGraph(ts);
    QueryOverRoutes(G, ts, start, end);
    r := ShortestPath(G, start, end);
  }

  /**
   * An illustration of the missing-endpoint outcome: the towers `(3, 4, 2)`
   * and `(7, 5, 3)` are 17 apart squared, beyond both `2²` and `3²`, so in a
   * registry of these two alone neither is a graph node, and the query
   * between them reports a missing endpoint rather than `None`.
   */
  lemma DemoTowersAreNotNodes()
    ensures !IsNode([Tower(3, 4, 2), Tower(7, 5, 3)], 0)
    ensures !IsNode([Tower(3, 4, 2), Tower(7, 5, 3)], 1)
  {
    var ts := [Tower(3, 4, 2), Tower(7, 5, 3)];
    assert TowerDist(ts, 0, 1) == 17 && TowerDist(ts, 1, 0) == 17;
    forall j ensures !Edge(ts, 0, j) && !Edge(ts, 1, j) {
    }
  }
}

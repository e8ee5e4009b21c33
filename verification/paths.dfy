/**
 * The path query of `CityGrid.find_reliable_path`: a minimum-weight path
 * between two tower indices of the connectivity graph. The search here is
 * an exhaustive one over simple paths, proved to meet the contract of a
 * weighted shortest-path routine; which of several equally light paths is
 * returned is not specified.
 */
module Paths {
  import opened Common
  import opened City
  import opened Connectivity

  /** Every stored edge joins two nodes, and every node is a tower index. */
  ghost predicate WellFormed(G: Graph) {
    && (forall a, b :: (a, b) in G.weight ==> a in G.nodes && b in G.nodes)
    && (forall a :: a in G.nodes ==> 0 <= a < G.size)
  }

  /** A sequence of nodes in which consecutive entries are joined by an edge. */
  ghost predicate IsWalk(G: Graph, p: seq<int>) {
    && |p| > 0
    && (forall k :: 0 <= k < |p| ==> p[k] in G.nodes)
    && (forall k :: 0 <= k < |p| - 1 ==> (p[k], p[k + 1]) in G.weight)
  }

  /** A walk from `u` to `t`. */
  ghost predicate Connects(G: Graph, p: seq<int>, u: int, t: int) {
    IsWalk(G, p) && p[0] == u && p[|p| - 1] == t
  }

  /** No node repeats. */
  ghost predicate Simple(p: seq<int>) {
    forall i, j :: 0 <= i < j < |p| ==> p[i] != p[j]
  }

  /** No node of `p` lies in `s`. */
  ghost predicate Avoids(p: seq<int>, s: set<int>) {
    forall k :: 0 <= k < |p| ==> p[k] !in s
  }

  /** Total weight of a walk: the sum of its edge weights. */
  function PathWeight(G: Graph, p: seq<int>): nat
    requires IsWalk(G, p)
    decreases |p|
  {
    if |p| == 1 then 0 else G.weight[(p[0], p[1])] + PathWeight(G, p[1..])
  }

  /**
   * The lightest simple path from `u` to `target` that does not enter
   * `avoid`, or `None` when there is none.
   */
  function Best(G: Graph, avoid: set<int>, u: int, target: int): (r: Option<seq<int>>)
    requires WellFormed(G) && u in G.nodes && u !in avoid
    ensures r.Some? ==> Connects(G, r.value, u, target) && Simple(r.value) && Avoids(r.value, avoid)
    decreases G.nodes - avoid, 0, 0
  {
    if u == target then Some([u])
    else
      var r := BestVia(G, avoid + {u}, u, target, 0);
      if r.Some? then
        assert Avoids(r.value[1..], avoid + {u});
        assert forall k :: 1 <= k < |r.value| ==> r.value[k] == r.value[1..][k - 1];
        r
      else r
  }

  /**
   * The lightest simple path from `u` to `target` whose second node is at
   * least `v` and whose remaining nodes do not enter `avoid` (which holds `u`).
   */
  function BestVia(G: Graph, avoid: set<int>, u: int, target: int, v: int): (r: Option<seq<int>>)
    requires WellFormed(G) && u in G.nodes && u in avoid && 0 <= v
    ensures r.Some? ==> Connects(G, r.value, u, target) && Simple(r.value)
    ensures r.Some? ==> |r.value| >= 2 && v <= r.value[1] && Avoids(r.value[1..], avoid)
    decreases G.nodes - avoid, 1, G.size - v
  {
    if v >= G.size then None
    else
      var rest := BestVia(G, avoid, u, target, v + 1);
      if (u, v) in G.weight && v !in avoid then
        match Best(G, avoid, v, target)
        case None => rest
        case Some(p) =>
          var cand := [u] + p;
          assert cand[1..] == p;
          if rest.None? || PathWeight(G, cand) <= PathWeight(G, rest.value) then Some(cand) else rest
      else rest
  }

  /** The outcomes of the query: a path, `None` for disconnected nodes, or a missing endpoint. */
  datatype PathOutcome =
    | Found(path: seq<int>)
    | NoPath
      /** An index that is not a node of the graph: the shortest-path routine raises, and nothing catches it. */
    | EndpointMissing

  /** The query: endpoints are checked first, then a node is its own path, then the search runs. */
  function ShortestPath(G: Graph, start: int, end: int): PathOutcome
    requires WellFormed(G)
  {
    if start !in G.nodes || end !in G.nodes then EndpointMissing
    else if start == end then Found([start])
    else
      match Best(G, {}, start, end)
      case None => NoPath
      case Some(p) => Found(p)
  }

  /** A walk splits at any of its nodes into two walks whose weights add up. */
  lemma {:induction false} WeightSplit(G: Graph, p: seq<int>, k: int)
    requires IsWalk(G, p) && 0 <= k < |p|
    ensures IsWalk(G, p[..k + 1]) && IsWalk(G, p[k..])
    ensures PathWeight(G, p) == PathWeight(G, p[..k + 1]) + PathWeight(G, p[k..])
    decreases k
  {
    var pre := p[..k + 1];
    assert IsWalk(G, pre) by {
      forall i | 0 <= i < |pre| - 1 ensures (pre[i], pre[i + 1]) in G.weight {
        assert pre[i] == p[i] && pre[i + 1] == p[i + 1];
      }
    }
    if k == 0 {
      assert p[0..] == p;
    } else {
      var p1 := p[1..];
      WeightSplit(G, p1, k - 1);
      assert p1[k - 1..] == p[k..];
      assert p1[..k] == p[..k + 1][1..];
    }
  }

  /**
   * Cutting out a cycle: every walk from `u` to `t` can be replaced by a
   * simple one that is no heavier, since weights are never negative.
   */
  lemma {:induction false} ShortenToSimple(G: Graph, q: seq<int>, u: int, t: int)
    requires Connects(G, q, u, t)
    ensures exists s :: Connects(G, s, u, t) && Simple(s) && PathWeight(G, s) <= PathWeight(G, q)
    decreases |q|
  {
    if !Simple(q) {
      var i, j :| 0 <= i < j < |q| && q[i] == q[j];
      CutCycle(G, q, i, j);
      ShortenToSimple(G, q[..i] + q[j..], u, t);
    }
  }

  /** Removing the closed stretch between two visits of the same node leaves a no heavier walk with the same ends. */
  lemma CutCycle(G: Graph, q: seq<int>, i: int, j: int)
    requires IsWalk(G, q) && 0 <= i < j < |q| && q[i] == q[j]
    ensures IsWalk(G, q[..i] + q[j..])
    ensures (q[..i] + q[j..])[0] == q[0]
    ensures (q[..i] + q[j..])[|q[..i] + q[j..]| - 1] == q[|q| - 1]
    ensures PathWeight(G, q[..i] + q[j..]) <= PathWeight(G, q)
  {
    CutCycleIsWalk(G, q, i, j);
    CutCycleWeight(G, q, i, j);
  }

  lemma CutCycleWeight(G: Graph, q: seq<int>, i: int, j: int)
    requires IsWalk(G, q) && 0 <= i < j < |q| && q[i] == q[j]
    requires IsWalk(G, q[..i] + q[j..])
    ensures PathWeight(G, q[..i] + q[j..]) <= PathWeight(G, q)
  {
    var q' := q[..i] + q[j..];
    var head := q[..i + 1];
    var loop := q[i..];
    var tail := q[j..];
    assert q'[..i + 1] == head;
    assert q'[i..] == tail;
    assert loop[j - i..] == tail;
    WeightSplit(G, q', i);
    WeightSplit(G, q, i);
    WeightSplit(G, loop, j - i);
  }

  lemma CutCycleIsWalk(G: Graph, q: seq<int>, i: int, j: int)
    requires IsWalk(G, q) && 0 <= i < j < |q| && q[i] == q[j]
    ensures IsWalk(G, q[..i] + q[j..])
  {
    var q' := q[..i] + q[j..];
    forall k | 0 <= k < |q'| ensures q'[k] in G.nodes {
      if k < i {
        assert q'[k] == q[k];
      } else {
        assert q'[k] == q[k - i + j];
      }
    }
    forall k | 0 <= k < |q'| - 1 ensures (q'[k], q'[k + 1]) in G.weight {
      if k < i - 1 {
        assert q'[k] == q[k] && q'[k + 1] == q[k + 1];
      } else if k == i - 1 {
        assert q'[k] == q[i - 1] && q'[k + 1] == q[i];
      } else {
        assert q'[k] == q[k - i + j] && q'[k + 1] == q[k - i + j + 1];
      }
    }
  }

  /**
   * Optimality and completeness of `Best`: whenever a simple path from `u`
   * to `target` avoids `avoid`, `Best` finds one that is no heavier.
   */
  lemma {:induction false} BestIsOptimal(G: Graph, avoid: set<int>, u: int, target: int, q: seq<int>)
    requires WellFormed(G) && u in G.nodes && u !in avoid
    requires Connects(G, q, u, target) && Simple(q) && Avoids(q, avoid)
    ensures Best(G, avoid, u, target).Some?
    ensures PathWeight(G, Best(G, avoid, u, target).value) <= PathWeight(G, q)
    decreases G.nodes - avoid, 0, 0
  {
    if u != target {
      assert |q| >= 2;
      assert Avoids(q[1..], avoid + {u}) by {
        forall k | 0 <= k < |q[1..]| ensures q[1..][k] !in avoid + {u} {
          assert q[1..][k] == q[k + 1];
          assert q[k + 1] != q[0];
        }
      }
      BestViaIsOptimal(G, avoid + {u}, u, target, 0, q);
    }
  }

  /** Optimality and completeness of `BestVia`, for paths whose second node is at least `v`. */
  lemma {:induction false} BestViaIsOptimal(G: Graph, avoid: set<int>, u: int, target: int, v: int, q: seq<int>)
    requires WellFormed(G) && u in G.nodes && u in avoid && 0 <= v
    requires Connects(G, q, u, target) && Simple(q) && |q| >= 2 && v <= q[1] && Avoids(q[1..], avoid)
    ensures BestVia(G, avoid, u, target, v).Some?
    ensures PathWeight(G, BestVia(G, avoid, u, target, v).value) <= PathWeight(G, q)
    decreases G.nodes - avoid, 1, G.size - v
  {
    assert (q[0], q[1]) in G.weight;
    assert q[1] < G.size;
    var q1 := q[1..];
    assert q1[0] == q[1];
    if q[1] == v {
      assert q1[0] !in avoid;
      assert Connects(G, q1, v, target);
      assert Simple(q1) by {
        forall i, j | 0 <= i < j < |q1| ensures q1[i] != q1[j] {
          assert q1[i] == q[i + 1] && q1[j] == q[j + 1];
        }
      }
      BestIsOptimal(G, avoid, v, target, q1);
    } else {
      BestViaIsOptimal(G, avoid, u, target, v + 1, q);
    }
  }

  /**
   * The contract of the path query. A missing endpoint is its own outcome;
   * a node reaches itself by the one-node path; a returned path runs from
   * `start` to `end` along edges, repeats no node, and is no heavier than
   * any walk between them; `NoPath` means both are nodes and no walk joins them.
   */
  lemma ShortestPathCorrect(G: Graph, start: int, end: int)
    requires WellFormed(G)
    ensures ShortestPath(G, start, end).EndpointMissing? <==> start !in G.nodes || end !in G.nodes
    ensures start == end && start in G.nodes ==> ShortestPath(G, start, end) == Found([start])
    ensures ShortestPath(G, start, end).Found? ==>
      var p := ShortestPath(G, start, end).path;
      Connects(G, p, start, end) && Simple(p) && forall q :: Connects(G, q, start, end) ==> PathWeight(G, p) <= PathWeight(G, q)
    ensures ShortestPath(G, start, end).NoPath? <==>
      start in G.nodes && end in G.nodes && forall q :: !Connects(G, q, start, end)
  {
    var r := ShortestPath(G, start, end);
    if start in G.nodes && end in G.nodes {
      forall q | Connects(G, q, start, end)
        ensures r.Found? && PathWeight(G, r.path) <= PathWeight(G, q)
      {
        ShortenToSimple(G, q, start, end);
        var s :| Connects(G, s, start, end) && Simple(s) && PathWeight(G, s) <= PathWeight(G, q);
        if start != end {
          BestIsOptimal(G, {}, start, end, s);
        }
      }
      if r.Found? {
        assert Connects(G, r.path, start, end);
      }
    }
  }
}

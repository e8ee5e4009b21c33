/**
 * The connectivity graph built by `CityGrid.find_reliable_path`: nodes are
 * tower indices, and an undirected edge weighted by squared distance joins
 * two towers when one of them has the other in range.
 */
module Connectivity {
  import opened City

  /**
   * The graph as stored: the node set, and the weight of each edge under both
   * orientations, as an undirected graph answers from either endpoint.
   * `size` is the number of towers the graph was built from.
   */
  datatype Graph = Graph(size: nat, nodes: set<int>, weight: map<(int, int), nat>)

  /** The squared distance between towers `i` and `j`. */
  function TowerDist(ts: seq<Tower>, i: int, j: int): nat
    requires 0 <= i < |ts| && 0 <= j < |ts|
  {
    SqDist(ts[i].x, ts[i].y, ts[j].x, ts[j].y)
  }

  /** The ordered test of the construction loop: `i` differs from `j` and `j` lies within `i`'s range. */
  predicate InRangeOf(ts: seq<Tower>, i: int, j: int) {
    0 <= i < |ts| && 0 <= j < |ts| && i != j && TowerDist(ts, i, j) <= ts[i].range * ts[i].range
  }

  /** The undirected edge relation that both ordered visits of a pair produce together. */
  predicate Edge(ts: seq<Tower>, i: int, j: int) {
    InRangeOf(ts, i, j) || InRangeOf(ts, j, i)
  }

  /** A tower is a graph node only when some edge touches it. */
  ghost predicate IsNode(ts: seq<Tower>, i: int) {
    exists j :: Edge(ts, i, j)
  }

  /** `add_edge(i, j, weight=w)`: both endpoints become nodes and the weight is (over)written. */
  function AddEdge(G: Graph, i: int, j: int, w: nat): Graph {
    Graph(G.size, G.nodes + {i, j}, G.weight[(i, j) := w][(j, i) := w])
  }

  /**
   * What the stored graph promises: its edges are exactly the edge relation,
   * weighted by squared distance, and its nodes exactly the towers that have
   * an edge.
   */
  ghost predicate Represents(G: Graph, ts: seq<Tower>) {
    && G.size == |ts|
    && (forall i, j :: (i, j) in G.weight <==> Edge(ts, i, j))
    && (forall i, j :: (i, j) in G.weight ==> 0 <= i < |ts| && 0 <= j < |ts| && G.weight[(i, j)] == TowerDist(ts, i, j))
    && (forall i :: i in G.nodes <==> IsNode(ts, i))
  }

  /** The ordered pair `(a, b)` comes before `(i, j)` in the loop's enumeration. */
  predicate Visited(i: int, j: int, a: int, b: int) {
    a < i || (a == i && b < j)
  }

  /** Pairs stored once the ordered pairs before `(i, j)` have been tested. */
  predicate StoredBefore(ts: seq<Tower>, i: int, j: int, a: int, b: int) {
    (Visited(i, j, a, b) && InRangeOf(ts, a, b)) || (Visited(i, j, b, a) && InRangeOf(ts, b, a))
  }

  /** The nodes of a stored edge map: the first endpoints of its keys. */
  function Endpoints(w: map<(int, int), nat>): set<int> {
    set p | p in w :: p.0
  }

  /** The graph holds exactly the pairs stored before `(i, j)`, with their squared distances, and nothing else. */
  ghost predicate BuiltUpTo(G: Graph, ts: seq<Tower>, i: int, j: int) {
    && G.size == |ts|
    && (forall a, b :: (a, b) in G.weight <==> StoredBefore(ts, i, j, a, b))
    && (forall a, b :: (a, b) in G.weight ==> 0 <= a < |ts| && 0 <= b < |ts| && G.weight[(a, b)] == TowerDist(ts, a, b))
    && G.nodes == Endpoints(G.weight)
  }

  /** Testing `(i, j)` stores that pair, in both orientations, exactly when `j` is within `i`'s range. */
  lemma StoredStep(ts: seq<Tower>, i: int, j: int, a: int, b: int)
    ensures StoredBefore(ts, i, j + 1, a, b) <==>
      StoredBefore(ts, i, j, a, b) || (InRangeOf(ts, i, j) && ((a == i && b == j) || (a == j && b == i)))
  {
  }

  /** Testing an ordered pair `(i, j)` where `j` is out of `i`'s range (or `j == i`) stores nothing. */
  lemma VisitOutOfRange(G: Graph, ts: seq<Tower>, i: int, j: int)
    requires BuiltUpTo(G, ts, i, j) && !InRangeOf(ts, i, j)
    ensures BuiltUpTo(G, ts, i, j + 1)
  {
    forall a, b
      ensures (a, b) in G.weight <==> StoredBefore(ts, i, j + 1, a, b)
    {
      StoredStep(ts, i, j, a, b);
    }
  }

  /** Testing an ordered pair `(i, j)` where `j` is within `i`'s range stores the edge both ways. */
  lemma VisitInRange(G: Graph, ts: seq<Tower>, i: int, j: int)
    requires 0 <= i < |ts| && 0 <= j < |ts| && BuiltUpTo(G, ts, i, j) && InRangeOf(ts, i, j)
    ensures BuiltUpTo(AddEdge(G, i, j, TowerDist(ts, i, j)), ts, i, j + 1)
  {
    var G' := AddEdge(G, i, j, TowerDist(ts, i, j));
    SqDistSymmetric(ts[i].x, ts[i].y, ts[j].x, ts[j].y);
    assert TowerDist(ts, j, i) == TowerDist(ts, i, j);
    forall a, b | (a, b) in G'.weight
      ensures 0 <= a < |ts| && 0 <= b < |ts| && G'.weight[(a, b)] == TowerDist(ts, a, b)
    {
      if (a, b) != (i, j) && (a, b) != (j, i) {
        assert (a, b) in G.weight;
      }
    }
    forall a, b
      ensures (a, b) in G'.weight <==> StoredBefore(ts, i, j + 1, a, b)
    {
      StoredStep(ts, i, j, a, b);
    }
    AddEdgeEndpoints(G.weight, i, j, TowerDist(ts, i, j));
  }

  lemma AddEdgeEndpoints(w: map<(int, int), nat>, i: int, j: int, d: nat)
    ensures Endpoints(w[(i, j) := d][(j, i) := d]) == Endpoints(w) + {i, j}
  {
    var w' := w[(i, j) := d][(j, i) := d];
    forall p | p in w' ensures p.0 in Endpoints(w) + {i, j} {
      if p != (i, j) && p != (j, i) {
        assert p in w;
      }
    }
    assert (i, j) in w' && (j, i) in w';
  }

  /** After the last second tower of row `i`, the next row starts. */
  lemma NextFirstTower(G: Graph, ts: seq<Tower>, i: int)
    requires 0 <= i < |ts| && BuiltUpTo(G, ts, i, |ts|)
    ensures BuiltUpTo(G, ts, i + 1, 0)
  {
    assert forall a, b :: StoredBefore(ts, i, |ts|, a, b) <==> StoredBefore(ts, i + 1, 0, a, b);
  }

  /** Once every tower has been the first of a pair, the stored pairs are exactly the edges. */
  lemma AllPairsVisited(G: Graph, ts: seq<Tower>)
    requires BuiltUpTo(G, ts, |ts|, 0)
    ensures Represents(G, ts)
  {
    assert forall a, b :: StoredBefore(ts, |ts|, 0, a, b) <==> Edge(ts, a, b);
    forall a
      ensures a in G.nodes <==> IsNode(ts, a)
    {
      if a in G.nodes {
        var p :| p in G.weight && p.0 == a;
        assert Edge(ts, a, p.1);
      }
      if IsNode(ts, a) {
        var b :| Edge(ts, a, b);
        assert (a, b) in G.weight;
      }
    }
  }

  /** A represented graph is undirected: each edge is stored both ways with one weight, and no edge is a loop. */
  lemma RepresentsUndirected(G: Graph, ts: seq<Tower>)
    requires Represents(G, ts)
    ensures forall i, j :: (i, j) in G.weight ==> (j, i) in G.weight && G.weight[(j, i)] == G.weight[(i, j)]
    ensures forall i :: (i, i) !in G.weight
  {
    forall i, j | (i, j) in G.weight
      ensures (j, i) in G.weight && G.weight[(j, i)] == G.weight[(i, j)]
    {
      assert Edge(ts, j, i);
      SqDistSymmetric(ts[i].x, ts[i].y, ts[j].x, ts[j].y);
    }
  }

  /**
   * The construction loop over all ordered pairs of towers. Although each
   * test uses only the first tower's range, the graph it builds joins `i`
   * and `j` whenever either tower reaches the other, has no self-loops, and
   * leaves towers without a neighbour out of the node set.
   */
  method BuildGraph(ts: seq<Tower>) returns (G: Graph)
    ensures Represents(G, ts)
    ensures forall i, j :: (i, j) in G.weight ==> (j, i) in G.weight && G.weight[(j, i)] == G.weight[(i, j)]
    ensures forall i :: (i, i) !in G.weight
  {
    G := Graph(|ts|, {}, map[]);
    var i := 0;
    while i < |ts|
      invariant 0 <= i <= |ts|
      invariant BuiltUpTo(G, ts, i, 0)
    {
      var j := 0;
      while j < |ts|
        invariant 0 <= j <= |ts|
        invariant BuiltUpTo(G, ts, i, j)
      {
        if i != j {
          var distance := SqDist(ts[i].x, ts[i].y, ts[j].x, ts[j].y);
          if distance <= ts[i].range * ts[i].range {
            VisitInRange(G, ts, i, j);
            G := AddEdge(G, i, j, distance);
          } else {
            VisitOutOfRange(G, ts, i, j);
          }
        } else {
          VisitOutOfRange(G, ts, i, j);
        }
        j := j + 1;
      }
      NextFirstTower(G, ts, i);
      i := i + 1;
    }
    AllPairsVisited(G, ts);
    RepresentsUndirected(G, ts);
  }
}

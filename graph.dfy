/**
 * The adjacency-map graph of the Go engine: a map from each node to the set
 * of its neighbours, updated in place.
 */
module Graphs {
  import opened Domain
  import opened Cardinality

  type Adjacency = map<int, set<int>>

  /** The neighbours of `u`, or none when `u` is not a key. */
  function Lookup(adj: Adjacency, u: int): set<int>
  {
    if u in adj then adj[u] else {}
  }

  /** Every stored direction `u -> v`, as a pair. */
  function Arcs(adj: Adjacency): set<(int, int)>
  {
    set u, v | u in adj && v in adj[u] :: (u, v)
  }

  /** The directions leaving the keys in `keys`. */
  function ArcsFrom(adj: Adjacency, keys: set<int>): set<(int, int)>
  {
    set u, v | u in keys && u in adj && v in adj[u] :: (u, v)
  }

  /** The undirected edges, each once with the smaller node first. */
  function Pairs(adj: Adjacency): set<Edge>
  {
    set u, v | u in adj && v in adj[u] && u < v :: Edge(u, v)
  }

  predicate Adjacent(adj: Adjacency, u: int, v: int)
  {
    u in adj && v in adj[u]
  }

  /** Every direction stored in `a` is stored in `b`. */
  ghost predicate SubGraph(a: Adjacency, b: Adjacency)
  {
    forall u, v :: Adjacent(a, u, v) ==> Adjacent(b, u, v)
  }

  /** `after` is `before` with both directions of `e` added, creating entries as needed. */
  predicate AddedPair(before: Adjacency, after: Adjacency, e: Edge)
  {
    after.Keys == before.Keys + {e.p1, e.p2}
    && forall u :: u in after ==>
      after[u] == Lookup(before, u) + (if u == e.p1 then {e.p2} else {}) + (if u == e.p2 then {e.p1} else {})
  }

  /** `after` is `before` with both directions of `e` dropped and every entry kept. */
  predicate RemovedPair(before: Adjacency, after: Adjacency, e: Edge)
  {
    after.Keys == before.Keys
    && forall u :: u in after ==>
      after[u] == before[u] - (if u == e.p1 then {e.p2} else {}) - (if u == e.p2 then {e.p1} else {})
  }

  predicate Symmetric(adj: Adjacency)
  {
    forall u, v :: u in adj && v in adj[u] ==> v in adj && u in adj[v]
  }

  predicate NoSelfLoops(adj: Adjacency)
  {
    forall u :: u in adj ==> u !in adj[u]
  }

  predicate NoEdges(adj: Adjacency)
  {
    forall u :: u in adj ==> adj[u] == {}
  }

  lemma NoEdgesNoArcs(adj: Adjacency)
    ensures NoEdges(adj) <==> Arcs(adj) == {}
  {
    if !NoEdges(adj) {
      var u :| u in adj && adj[u] != {};
      var v := Pick(adj[u]);
      assert (u, v) in Arcs(adj);
    }
  }

  /** The arcs stored smaller node first. */
  function UpArcs(adj: Adjacency): set<(int, int)>
  {
    set a | a in Arcs(adj) && a.0 < a.1
  }

  /** The arcs stored larger node first. */
  function DownArcs(adj: Adjacency): set<(int, int)>
  {
    set a | a in Arcs(adj) && a.0 > a.1
  }

  /** With symmetric adjacency each upward arc has its reverse stored too. */
  lemma {:induction false} UpDownSize(adj: Adjacency)
    requires Symmetric(adj)
    ensures |UpArcs(adj)| == |DownArcs(adj)|
  {
    var up := UpArcs(adj);
    var down := DownArcs(adj);
    var swap := (a: (int, int)) => (a.1, a.0);
    forall a | a in up ensures swap(a) in down {
    }
    forall b | b in down ensures exists a :: a in up && swap(a) == b {
      assert swap((b.1, b.0)) == b;
    }
    BijectionSize(up, down, swap);
  }

  lemma {:induction false} UpPairsSize(adj: Adjacency)
    ensures |UpArcs(adj)| == |Pairs(adj)|
  {
    var up := UpArcs(adj);
    var pairs := Pairs(adj);
    var toEdge := (a: (int, int)) => Edge(a.0, a.1);
    forall a | a in up ensures toEdge(a) in pairs {
    }
    forall e | e in pairs ensures exists a :: a in up && toEdge(a) == e {
      assert toEdge((e.p1, e.p2)) == e;
    }
    BijectionSize(up, pairs, toEdge);
  }

  /**
   * With symmetric adjacency and no loops every undirected edge is stored
   * in both directions, so there are exactly twice as many arcs as edges.
   */
  lemma {:induction false} Handshake(adj: Adjacency)
    requires Symmetric(adj) && NoSelfLoops(adj)
    ensures |Arcs(adj)| == 2 * |Pairs(adj)|
  {
    assert Arcs(adj) == UpArcs(adj) + DownArcs(adj);
    assert UpArcs(adj) !! DownArcs(adj);
    UpDownSize(adj);
    UpPairsSize(adj);
  }

  class Graph {
    var nodes: Adjacency

    /** `NewGraph`: no nodes at all. */
    constructor ()
      ensures nodes == map[]
    {
      nodes := map[];
    }

    /**
     * `Empty`: true exactly when no node has a neighbour (a graph without
     * nodes is empty).
     */
    method Empty() returns (b: bool)
      ensures b <==> NoEdges(nodes)
    {
      var rest := nodes.Keys;
      while rest != {}
        invariant rest <= nodes.Keys
        invariant forall u :: u in nodes && u !in rest ==> nodes[u] == {}
        decreases |rest|
      {
        ghost var w := Pick(rest);
        var u :| u in rest;
        if |nodes[u]| > 0 {
          return false;
        }
        rest := rest - {u};
      }
      return true;
    }

    /**
     * `RemoveEdge`: drops both directions, keeps every node entry, and
     * reports whether either endpoint is a node, even if the edge was absent.
     */
    method RemoveEdge(e: Edge) returns (res: bool)
      modifies this
      ensures res <==> e.p1 in old(nodes) || e.p2 in old(nodes)
      ensures RemovedPair(old(nodes), nodes, e)
    {
      res := false;
      if e.p1 in nodes {
        nodes := nodes[e.p1 := nodes[e.p1] - {e.p2}];
        res := true;
      }
      if e.p2 in nodes {
        nodes := nodes[e.p2 := nodes[e.p2] - {e.p1}];
        res := true;
      }
    }

    /** `AddEdge`: stores both directions, creating neighbour sets as needed. */
    method AddEdge(e: Edge)
      modifies this
      ensures AddedPair(old(nodes), nodes, e)
    {
      if e.p1 !in nodes {
        nodes := nodes[e.p1 := {}];
      }
      nodes := nodes[e.p1 := nodes[e.p1] + {e.p2}];
      if e.p2 !in nodes {
        nodes := nodes[e.p2 := {}];
      }
      nodes := nodes[e.p2 := nodes[e.p2] + {e.p1}];
    }

    /** `GetCopy`: a new graph with the same adjacency, isolated nodes included. */
    method GetCopy() returns (c: Graph)
      ensures fresh(c) && c.nodes == nodes
    {
      var copied: Adjacency := map[];
      var rest := nodes.Keys;
      while rest != {}
        invariant forall u :: u in nodes <==> u in copied || u in rest
        invariant forall u :: u in rest ==> u !in copied && u in nodes
        invariant forall u :: u in copied ==> copied[u] == nodes[u]
        decreases |rest|
      {
        ghost var w := Pick(rest);
        var u :| u in rest;
        var neighbors := nodes[u];
        var newNeighbors: set<int> := {};
        while neighbors != {}
          invariant neighbors <= nodes[u]
          invariant newNeighbors == nodes[u] - neighbors
          decreases |neighbors|
        {
          ghost var x := Pick(neighbors);
          var v :| v in neighbors;
          newNeighbors := newNeighbors + {v};
          neighbors := neighbors - {v};
        }
        copied := copied[u := newNeighbors];
        rest := rest - {u};
      }
      SameAdjacency(copied, nodes);
      c := new Graph();
      c.nodes := copied;
    }

    /** `GetNeighbors`: each neighbour of `n` once, in some order; none for an unknown node. */
    method GetNeighbors(n: int) returns (r: seq<int>)
      ensures forall v :: v in r <==> v in Lookup(nodes, n)
      ensures forall i, j :: 0 <= i < j < |r| ==> r[i] != r[j]
      ensures |r| == |Lookup(nodes, n)|
    {
      r := [];
      if n in nodes {
        var rest := nodes[n];
        while rest != {}
          invariant rest <= nodes[n]
          invariant forall v :: v in r <==> v in nodes[n] - rest
          invariant forall i, j :: 0 <= i < j < |r| ==> r[i] != r[j]
          invariant |r| + |rest| == |nodes[n]|
          decreases |rest|
        {
          ghost var w := Pick(rest);
          var v :| v in rest;
          r := r + [v];
          rest := rest - {v};
        }
      }
    }

    /** `GetAdjacentEdges`: the edge `{n, v}` once for each neighbour `v` of `n`. */
    method GetAdjacentEdges(n: int) returns (r: seq<Edge>)
      ensures forall e :: e in r <==> e.p1 == n && e.p2 in Lookup(nodes, n)
      ensures forall i, j :: 0 <= i < j < |r| ==> r[i] != r[j]
      ensures |r| == |Lookup(nodes, n)|
    {
      r := [];
      if n in nodes {
        var rest := nodes[n];
        while rest != {}
          invariant rest <= nodes[n]
          invariant forall e :: e in r <==> e.p1 == n && e.p2 in nodes[n] - rest
          invariant forall i, j :: 0 <= i < j < |r| ==> r[i] != r[j]
          invariant |r| + |rest| == |nodes[n]|
          decreases |rest|
        {
          ghost var w := Pick(rest);
          var v :| v in rest;
          r := r + [Edge(n, v)];
          rest := rest - {v};
        }
      }
    }

    /**
     * `Size`: the sum of all neighbour-set sizes, halved; with symmetric
     * adjacency and no loops this is the number of undirected edges
     * (`SizeCountsEdges`).
     */
    method Size() returns (s: int)
      ensures s == |Arcs(nodes)| / 2
    {
      var count := 0;
      var rest := nodes.Keys;
      ghost var done: set<int> := {};
      while rest != {}
        invariant done + rest == nodes.Keys && done !! rest
        invariant count == |ArcsFrom(nodes, done)|
        decreases |rest|
      {
        ghost var w := Pick(rest);
        var u :| u in rest;
        ArcsFromStep(nodes, done, u);
        count := count + |nodes[u]|;
        rest := rest - {u};
        done := done + {u};
      }
      assert ArcsFrom(nodes, done) == Arcs(nodes);
      s := count / 2;
    }

    /**
     * The edges `GetEdgesIterator` yields when the consumer never stops it:
     * every stored edge in one of its two orientations, and no undirected
     * edge twice.
     */
    method GetEdgesIterator() returns (r: seq<Edge>)
      ensures forall u, v :: u in nodes && v in nodes[u] ==> Edge(u, v) in r || Edge(v, u) in r
      ensures forall e :: e in r ==> e.p1 in nodes && e.p2 in nodes[e.p1]
      ensures forall i, j :: 0 <= i < j < |r| ==> !SamePair(r[i], r[j])
    {
      r := [];
      var seen: set<Edge> := {};
      var rest := nodes.Keys;
      while rest != {}
        invariant rest <= nodes.Keys
        invariant forall e :: e in seen <==> e in r
        invariant forall e :: e in r ==> e.p1 in nodes && e.p2 in nodes[e.p1]
        invariant forall i, j :: 0 <= i < j < |r| ==> !SamePair(r[i], r[j])
        invariant forall u, v :: u in nodes && u !in rest && v in nodes[u] ==> Edge(u, v) in seen || Edge(v, u) in seen
        decreases |rest|
      {
        ghost var w := Pick(rest);
        var node :| node in rest;
        var neighbors := nodes[node];
        while neighbors != {}
          invariant neighbors <= nodes[node]
          invariant forall e :: e in seen <==> e in r
          invariant forall e :: e in r ==> e.p1 in nodes && e.p2 in nodes[e.p1]
          invariant forall i, j :: 0 <= i < j < |r| ==> !SamePair(r[i], r[j])
          invariant forall u, v :: u in nodes && u !in rest && v in nodes[u] ==> Edge(u, v) in seen || Edge(v, u) in seen
          invariant forall v :: v in nodes[node] - neighbors ==> Edge(node, v) in seen || Edge(v, node) in seen
          decreases |neighbors|
        {
          ghost var x := Pick(neighbors);
          var neighbor :| neighbor in neighbors;
          var e := Edge(node, neighbor);
          var eRev := Edge(neighbor, node);
          if e !in seen && eRev !in seen {
            r := r + [e];
            seen := seen + {e};
          }
          neighbors := neighbors - {neighbor};
        }
        rest := rest - {node};
      }
    }
  }

  lemma SameAdjacency(a: Adjacency, b: Adjacency)
    requires forall u :: u in a <==> u in b
    requires forall u :: u in a ==> a[u] == b[u]
    ensures a == b
  {
    assert forall u :: u in a <==> u in b;
    assert forall u :: u in a ==> a[u] == b[u];
  }

  lemma ArcsFromStep(adj: Adjacency, done: set<int>, u: int)
    requires u in adj && u !in done
    ensures |ArcsFrom(adj, done + {u})| == |ArcsFrom(adj, done)| + |adj[u]|
  {
    var row := set v | v in adj[u] :: (u, v);
    assert ArcsFrom(adj, done + {u}) == ArcsFrom(adj, done) + row;
    assert ArcsFrom(adj, done) !! row;
    RowSize(u, adj[u]);
  }

  /** `AddEdge` keeps adjacency symmetric. */
  lemma AddEdgeSymmetric(before: Adjacency, after: Adjacency, e: Edge)
    requires Symmetric(before) && AddedPair(before, after, e)
    ensures Symmetric(after)
    ensures Arcs(after) == Arcs(before) + {(e.p1, e.p2), (e.p2, e.p1)}
  {
    assert forall u :: u in before ==> u in after && before[u] <= after[u];
  }

  /** `RemoveEdge` keeps adjacency symmetric and loop-free. */
  lemma RemoveEdgeSymmetric(before: Adjacency, after: Adjacency, e: Edge)
    requires Symmetric(before) && RemovedPair(before, after, e)
    ensures Symmetric(after)
    ensures NoSelfLoops(before) ==> NoSelfLoops(after)
    ensures SubGraph(after, before)
    ensures NoEdges(before) ==> NoEdges(after)
    ensures Arcs(after) == Arcs(before) - {(e.p1, e.p2), (e.p2, e.p1)}
  {
  }

  /** Removing a stored edge strictly shrinks the graph. */
  lemma RemoveEdgeShrinks(before: Adjacency, after: Adjacency, e: Edge)
    requires RemovedPair(before, after, e) && Adjacent(before, e.p1, e.p2)
    ensures |Arcs(after)| < |Arcs(before)|
  {
    var gone := Arcs(before) - Arcs(after);
    assert Arcs(after) <= Arcs(before);
    assert (e.p1, e.p2) in gone;
    assert Arcs(before) == Arcs(after) + gone;
    assert Arcs(after) !! gone;
  }

  /** `Size` counts the undirected edges when adjacency is symmetric and loop-free. */
  lemma SizeCountsEdges(adj: Adjacency)
    requires Symmetric(adj) && NoSelfLoops(adj)
    ensures |Arcs(adj)| / 2 == |Pairs(adj)|
  {
    Handshake(adj);
  }

  /** `Empty` and `Size` agree: a symmetric loop-free graph is empty exactly when its size is 0. */
  lemma EmptyIffSizeZero(adj: Adjacency)
    requires Symmetric(adj) && NoSelfLoops(adj)
    ensures NoEdges(adj) <==> |Arcs(adj)| / 2 == 0
  {
    NoEdgesNoArcs(adj);
    Handshake(adj);
  }
}

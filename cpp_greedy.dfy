/**
 * The graph and the greedy round builder of the C++ library
 * (`Graph::from_set`, `Graph::empty`, `RodeoFactory::make_matchings`).
 *
 * The C++ graph is an ordered map from node to an ordered set of
 * neighbours, so the walk is deterministic: nodes are visited in ascending
 * order and a node is paired with its smallest neighbour that is not
 * playing yet. Unlike the Go builder, a round is closed as soon as it holds
 * `ceil(avg)` matches or the last wanted round finds the graph empty, even
 * when the round is still empty.
 */
module CppGreedy {
  import opened Domain
  import opened Cardinality
  import opened Graphs
  import Feasibility
  import Heuristic

  /** `*s.begin()` of an ordered set of ints: its smallest element. */
  method SmallestIn(s: set<int>) returns (m: int)
    requires s != {}
    ensures m in s && forall x :: x in s ==> m <= x
  {
    ghost var w := Pick(s);
    m :| m in s;
    var rest := s - {m};
    while rest != {}
      invariant rest <= s && m in s
      invariant forall x :: x in s && x !in rest ==> m <= x
      decreases |rest|
    {
      ghost var y0 := Pick(rest);
      var y :| y in rest;
      if y < m {
        m := y;
      }
      rest := rest - {y};
    }
  }

  /** The neighbours `edges` gives to `u`, in either orientation. */
  function NeighboursIn(edges: Matching, u: int): set<int>
  {
    (set e | e in edges && e.p1 == u :: e.p2) + (set e | e in edges && e.p2 == u :: e.p1)
  }

  /** Node `u` is at most the largest id some pairing of `edges` names. */
  predicate BelowTop(edges: Matching, u: int)
  {
    exists e :: e in edges && (u <= e.p1 || u <= e.p2)
  }

  /** The nodes `from_set` creates: `0..max id` and every endpoint. */
  predicate FromSetKey(edges: Matching, u: int)
  {
    (0 <= u && BelowTop(edges, u)) || u in Endpoints(edges)
  }

  /** The first loop of `from_set`: the largest id any pairing names, or -1. */
  method MaxNodeId(edges: Matching) returns (top: int)
    ensures top >= -1
    ensures forall e :: e in edges ==> e.p1 <= top && e.p2 <= top
    ensures top >= 0 ==> BelowTop(edges, top)
  {
    top := -1;
    var rest := edges;
    while rest != {}
      invariant rest <= edges && top >= -1
      invariant forall e :: e in edges && e !in rest ==> e.p1 <= top && e.p2 <= top
      invariant top >= 0 ==> BelowTop(edges, top)
      decreases |rest|
    {
      ghost var w := Pick(rest);
      var e :| e in rest;
      var m := if e.p1 < e.p2 then e.p2 else e.p1;
      if top < m {
        top := m;
      }
      rest := rest - {e};
    }
  }

  /** The second loop of `from_set`: an empty neighbour set for each id `0..top`. */
  method EmptyRows(top: int) returns (res: Adjacency)
    ensures forall u :: u in res <==> 0 <= u <= top
    ensures forall u :: u in res ==> res[u] == {}
  {
    res := map[];
    var i := 0;
    while i <= top
      invariant i >= 0 && (top >= 0 ==> i <= top + 1) && (top < 0 ==> i == 0)
      invariant forall u :: u in res <==> 0 <= u < i
      invariant forall u :: u in res ==> res[u] == {}
    {
      res := res[i := {}];
      i := i + 1;
    }
  }

  /** `res` holds the pairings of `done` in both directions on top of the empty rows `res0`. */
  ghost predicate Stored(res: Adjacency, res0: Adjacency, done: Matching)
  {
    (forall u :: u in res <==> u in res0 || u in Endpoints(done))
    && (forall u :: u in res ==> res[u] == NeighboursIn(done, u))
  }

  lemma NeighboursAdd(done: Matching, e: Edge, u: int)
    ensures NeighboursIn(done + {e}, u)
      == NeighboursIn(done, u) + (if u == e.p1 then {e.p2} else {}) + (if u == e.p2 then {e.p1} else {})
  {
  }

  lemma StoreStep(res: Adjacency, res0: Adjacency, done: Matching, e: Edge, r2: Adjacency)
    requires forall u :: u in res0 ==> res0[u] == {}
    requires Stored(res, res0, done)
    requires var r1 := res[e.p1 := Lookup(res, e.p1) + {e.p2}];
             r2 == r1[e.p2 := Lookup(r1, e.p2) + {e.p1}]
    ensures Stored(r2, res0, done + {e})
  {
    assert Endpoints(done + {e}) == Endpoints(done) + {e.p1, e.p2};
    forall u | u in r2 ensures r2[u] == NeighboursIn(done + {e}, u) {
      StoredAt(res, res0, done, e, r2, u);
    }
  }

  /** After storing `e` in both directions, the row of `u` holds its neighbours with `e`. */
  lemma StoredAt(res: Adjacency, res0: Adjacency, done: Matching, e: Edge, r2: Adjacency, u: int)
    requires forall u :: u in res0 ==> res0[u] == {}
    requires Stored(res, res0, done)
    requires var r1 := res[e.p1 := Lookup(res, e.p1) + {e.p2}];
             r2 == r1[e.p2 := Lookup(r1, e.p2) + {e.p1}]
    requires u in r2
    ensures r2[u] == NeighboursIn(done + {e}, u)
  {
    NeighboursAdd(done, e, u);
    if u !in res {
      assert u !in Endpoints(done) && u !in res0;
      assert NeighboursIn(done, u) == {};
    }
  }

  /** The body of the third loop of `from_set`: one pairing stored in both directions. */
  method AddBoth(res: Adjacency, e: Edge, ghost res0: Adjacency, ghost done: Matching) returns (r: Adjacency)
    requires forall u :: u in res0 ==> res0[u] == {}
    requires Stored(res, res0, done)
    ensures Stored(r, res0, done + {e})
  {
    var n1, n2 := e.p1, e.p2;
    r := res[n1 := Lookup(res, n1) + {n2}];
    r := r[n2 := Lookup(r, n2) + {n1}];
    StoreStep(res, res0, done, e, r);
  }

  /** The third loop of `from_set`: each pairing stored in both directions, entries created as needed. */
  method InsertBoth(res0: Adjacency, edges: Matching) returns (res: Adjacency)
    requires forall u :: u in res0 ==> res0[u] == {}
    ensures forall u :: u in res <==> u in res0 || u in Endpoints(edges)
    ensures forall u :: u in res ==> res[u] == NeighboursIn(edges, u)
  {
    res := res0;
    var rest := edges;
    ghost var done: Matching := {};
    assert Stored(res, res0, done) by {
      forall u | u in res ensures res[u] == NeighboursIn(done, u) {
      }
    }
    while rest != {}
      invariant done <= edges && rest == edges - done
      invariant Stored(res, res0, done)
      decreases |rest|
    {
      ghost var w := Pick(rest);
      var e :| e in rest;
      res := AddBoth(res, e, res0, done);
      rest := rest - {e};
      done := done + {e};
    }
    assert done == edges;
  }

  /** The ids `0..top` are the ids from 0 up to the largest one named. */
  lemma RangeKeys(edges: Matching, top: int)
    requires forall e :: e in edges ==> e.p1 <= top && e.p2 <= top
    requires top >= 0 ==> BelowTop(edges, top)
    ensures forall u :: (0 <= u <= top) || u in Endpoints(edges) <==> FromSetKey(edges, u)
  {
    forall u ensures (0 <= u <= top) || u in Endpoints(edges) <==> FromSetKey(edges, u) {
      if 0 <= u <= top {
        var f :| f in edges && (top <= f.p1 || top <= f.p2);
        assert u <= f.p1 || u <= f.p2;
      }
      if 0 <= u && BelowTop(edges, u) {
        var f :| f in edges && (u <= f.p1 || u <= f.p2);
      }
    }
  }

  /** Storing the pairings in both directions gives symmetric adjacency, loop-free for loop-free pairings. */
  lemma NeighboursSymmetric(edges: Matching, res: Adjacency)
    requires forall u :: u in Endpoints(edges) ==> u in res
    requires forall u :: u in res ==> res[u] == NeighboursIn(edges, u)
    ensures Symmetric(res)
    ensures NoLoops(edges) ==> NoSelfLoops(res)
  {
    forall u, v | u in res && v in res[u] ensures v in res && u in res[v] {
      assert v in NeighboursIn(edges, u);
      if e :| e in edges && e.p1 == u && e.p2 == v {
        assert u in NeighboursIn(edges, v);
      } else {
        var e :| e in edges && e.p2 == u && e.p1 == v;
        assert u in NeighboursIn(edges, v);
      }
    }
  }

  /**
   * `Graph::from_set`: a node entry for each id from 0 up to the largest id
   * the pairings name (and for any endpoint outside that range), each
   * pairing stored in both directions.
   */
  method FromSet(edges: Matching) returns (g: Graph)
    ensures fresh(g)
    ensures forall u :: u in g.nodes <==> FromSetKey(edges, u)
    ensures forall u :: u in g.nodes ==> g.nodes[u] == NeighboursIn(edges, u)
    ensures Symmetric(g.nodes)
    ensures NoLoops(edges) ==> NoSelfLoops(g.nodes)
  {
    var top := MaxNodeId(edges);
    var rows := EmptyRows(top);
    var res := InsertBoth(rows, edges);
    RangeKeys(edges, top);
    NeighboursSymmetric(edges, res);
    g := new Graph();
    g.nodes := res;
  }

  /** A round as the C++ builder closes it: a loop-free matching within the limit, possibly empty. */
  predicate CppRound(r: Matching, maxPer: int)
  {
    IsMatching(r) && NoLoops(r) && (maxPer < 1 || |r| <= maxPer)
  }

  /** Every node keeps at most one neighbour: the graph is itself a matching. */
  ghost predicate DegreeAtMostOne(adj: Adjacency)
  {
    forall u, v, w :: u in adj && v in adj[u] && w in adj[u] ==> v == w
  }

  /** The state of the C++ walk apart from the size of the open round; `g0` is the graph it started from. */
  ghost predicate Open(g0: Adjacency, g: Adjacency, res: seq<Matching>, turn: Matching, playing: set<int>,
                       maxPer: int, total: int)
  {
    Symmetric(g) && NoSelfLoops(g) && SubGraph(g, g0) && g.Keys == g0.Keys
    && (forall k :: 0 <= k < |res| ==> CppRound(res[k], maxPer))
    && Heuristic.ShortOnlyLast(res, maxPer, total) && Heuristic.ShortWhenEmpty(res, maxPer, g)
    && IsMatching(turn) && NoLoops(turn) && playing == Endpoints(turn)
    && Heuristic.Scheduled(g0, g, res + [turn]) && Heuristic.NoRepeats(res + [turn])
  }

  /** The state between two node visits: the open round is below the limit. */
  ghost predicate Walk(g0: Adjacency, g: Adjacency, res: seq<Matching>, turn: Matching, playing: set<int>,
                       maxPer: int, total: int)
  {
    Open(g0, g, res, turn, playing, maxPer, total) && (maxPer < 1 || |turn| < maxPer)
  }

  /**
   * In the first walk over a graph of degree at most one, every node
   * already visited and every playing node has lost its neighbours.
   */
  ghost predicate FirstWalk(g0: Adjacency, g: Adjacency, rest: set<int>, playing: set<int>)
  {
    DegreeAtMostOne(g0)
    && (forall u :: u in g && u !in rest ==> g[u] == {})
    && (forall u :: u in playing ==> Lookup(g, u) == {})
  }

  /** The pairing step of a visit of `i`: pair it with its smallest idle neighbour when it is idle itself. */
  method PairSmallest(g: Graph, i: int, ghost g0: Adjacency, ghost res: seq<Matching>, turn: Matching,
                      playing: set<int>, ghost maxPer: int, ghost total: nat, ghost rest: set<int>)
    returns (turn': Matching, playing': set<int>, added: bool)
    requires i in g.nodes && i !in rest && Walk(g0, g.nodes, res, turn, playing, maxPer, total)
    modifies g
    ensures Open(g0, g.nodes, res, turn', playing', maxPer, total)
    ensures maxPer < 1 || |turn'| <= maxPer
    ensures |Arcs(g.nodes)| <= |Arcs(old(g.nodes))|
    ensures added ==> |Arcs(g.nodes)| < |Arcs(old(g.nodes))|
    ensures FirstWalk(g0, old(g.nodes), rest + {i}, playing) ==> FirstWalk(g0, g.nodes, rest, playing')
  {
    turn', playing', added := turn, playing, false;
    ghost var before := g.nodes;
    var possible := g.nodes[i] - playing;
    if i !in playing && possible != {} {
      added := true;
      var player2 := SmallestIn(possible);
      var e := Edge(i, player2);
      Heuristic.AddToRound(turn, e);
      playing' := playing + {i, player2};
      turn' := turn + {e};
      var removed := g.RemoveEdge(e);
      Heuristic.AddToSchedule(g0, before, g.nodes, res, turn, e);
      RemoveEdgeSymmetric(before, g.nodes, e);
      RemoveEdgeShrinks(before, g.nodes, e);
      if FirstWalk(g0, before, rest + {i}, playing) {
        SettleAdded(g0, before, g.nodes, i, player2, rest, playing);
      }
    } else if FirstWalk(g0, before, rest + {i}, playing) {
      SettleIdle(g0, before, i, rest, playing);
    }
  }

  /**
   * One visit of node `i`: the pairing step, then the open round is closed
   * when it is full, or when it is the last wanted round and the graph has
   * no edge left.
   */
  method Visit(g: Graph, i: int, ghost g0: Adjacency, res: seq<Matching>, turn: Matching, playing: set<int>,
               maxPer: int, total: nat, ghost rest: set<int>)
    returns (res': seq<Matching>, turn': Matching, playing': set<int>, added: bool)
    requires i in g.nodes && i !in rest && Walk(g0, g.nodes, res, turn, playing, maxPer, total)
    modifies g
    ensures Walk(g0, g.nodes, res', turn', playing', maxPer, total)
    ensures |Arcs(g.nodes)| <= |Arcs(old(g.nodes))|
    ensures added ==> |Arcs(g.nodes)| < |Arcs(old(g.nodes))|
    ensures FirstWalk(g0, old(g.nodes), rest + {i}, playing) ==> FirstWalk(g0, g.nodes, rest, playing')
  {
    res' := res;
    turn', playing', added := PairSmallest(g, i, g0, res, turn, playing, maxPer, total, rest);
    var isLast := total >= 1 && |res'| == total - 1;
    if isLast {
      isLast := g.Empty();
    }
    if |turn'| == maxPer || isLast {
      Heuristic.CloseRound(g0, g.nodes, res' + [turn']);
      res' := res' + [turn'];
      playing' := {};
      turn' := {};
    }
  }

  /** In a graph of degree at most one below `g0`, a stored neighbour is the only one. */
  lemma OnlyNeighbour(g0: Adjacency, before: Adjacency, u: int, v: int)
    requires DegreeAtMostOne(g0) && SubGraph(before, g0) && u in before && v in before[u]
    ensures before[u] == {v}
  {
    assert Adjacent(g0, u, v);
    forall x | x in before[u] ensures x == v {
      assert Adjacent(g0, u, x);
    }
  }

  /** Pairing `i` with `v` in the first walk empties both their neighbour sets. */
  lemma SettleAdded(g0: Adjacency, before: Adjacency, after: Adjacency, i: int, v: int, rest: set<int>,
                    playing: set<int>)
    requires i in before && v in before[i] && Symmetric(before) && SubGraph(before, g0)
    requires RemovedPair(before, after, Edge(i, v))
    requires FirstWalk(g0, before, rest + {i}, playing)
    ensures FirstWalk(g0, after, rest, playing + {i, v})
  {
    OnlyNeighbour(g0, before, i, v);
    OnlyNeighbour(g0, before, v, i);
    assert after[i] == {} && after[v] == {};
    forall u | u in after && u !in rest ensures after[u] == {} {
      if u != i && u != v {
        assert before[u] == {};
      }
    }
    forall u | u in playing + {i, v} ensures Lookup(after, u) == {} {
      if u != i && u != v {
        assert Lookup(before, u) == {};
      }
    }
    forall u, x, y | u in g0 && x in g0[u] && y in g0[u] ensures x == y {
    }
  }

  /** A node left unpaired in the first walk has no idle neighbour, hence no neighbour at all. */
  lemma SettleIdle(g0: Adjacency, before: Adjacency, i: int, rest: set<int>, playing: set<int>)
    requires i in before && Symmetric(before)
    requires i in playing || before[i] - playing == {}
    requires FirstWalk(g0, before, rest + {i}, playing)
    ensures FirstWalk(g0, before, rest, playing)
  {
    forall x | x in before[i] ensures x !in playing {
      assert i in before[x];
    }
    assert before[i] == {};
  }

  /** One walk over all nodes in ascending order. */
  method Pass(g: Graph, ghost g0: Adjacency, res: seq<Matching>, turn: Matching, playing: set<int>,
              maxPer: int, total: nat, ghost firstPass: bool)
    returns (res': seq<Matching>, turn': Matching, playing': set<int>, addedSomething: bool)
    requires Walk(g0, g.nodes, res, turn, playing, maxPer, total)
    requires firstPass ==> g.nodes == g0 && playing == {}
    requires !firstPass && DegreeAtMostOne(g0) ==> NoEdges(g.nodes)
    modifies g
    ensures Walk(g0, g.nodes, res', turn', playing', maxPer, total)
    ensures |Arcs(g.nodes)| <= |Arcs(old(g.nodes))|
    ensures addedSomething ==> |Arcs(g.nodes)| < |Arcs(old(g.nodes))|
    ensures DegreeAtMostOne(g0) ==> NoEdges(g.nodes)
  {
    res', turn', playing', addedSomething := res, turn, playing, false;
    ghost var arcsAtStart := |Arcs(g.nodes)|;
    var rest := g.nodes.Keys;
    while rest != {}
      invariant rest <= g.nodes.Keys
      invariant Walk(g0, g.nodes, res', turn', playing', maxPer, total)
      invariant |Arcs(g.nodes)| <= arcsAtStart && (addedSomething ==> |Arcs(g.nodes)| < arcsAtStart)
      invariant firstPass && DegreeAtMostOne(g0) ==> FirstWalk(g0, g.nodes, rest, playing')
      invariant !firstPass && DegreeAtMostOne(g0) ==> NoEdges(g.nodes)
      decreases |rest|
    {
      var i := SmallestIn(rest);
      rest := rest - {i};
      var added;
      ghost var gBefore := g.nodes;
      if !firstPass && DegreeAtMostOne(g0) {
        NoEdgesNoArcs(gBefore);
      }
      res', turn', playing', added := Visit(g, i, g0, res', turn', playing', maxPer, total, rest);
      addedSomething := addedSomething || added;
      if !firstPass && DegreeAtMostOne(g0) {
        NoEdgesNoArcs(g.nodes);
      }
    }
    if firstPass && DegreeAtMostOne(g0) {
      assert forall u :: u in g.nodes ==> g.nodes[u] == {};
    }
  }

  /**
   * `make_matchings` on the graph `g` (changed in place). Every returned
   * round is a loop-free matching of at most `ceil(avgMatchingSize)` edges of
   * the starting graph; no pairing is used twice; only the round numbered
   * `totalMatchings` may be smaller than the limit (and it may be empty);
   * every pairing used is gone from `g`. On a graph where each node has at
   * most one neighbour, the first walk takes every edge out of the graph.
   */
  method MakeMatchings(g: Graph, avgMatchingSize: real, totalMatchings: nat) returns (res: seq<Matching>)
    requires Symmetric(g.nodes) && NoSelfLoops(g.nodes)
    modifies g
    ensures forall k :: 0 <= k < |res| ==> CppRound(res[k], Feasibility.Ceil(avgMatchingSize))
    ensures Heuristic.NoRepeats(res)
    ensures Heuristic.ShortOnlyLast(res, Feasibility.Ceil(avgMatchingSize), totalMatchings)
    ensures Heuristic.ShortWhenEmpty(res, Feasibility.Ceil(avgMatchingSize), g.nodes)
    ensures Heuristic.Scheduled(old(g.nodes), g.nodes, res)
    ensures Symmetric(g.nodes) && NoSelfLoops(g.nodes) && SubGraph(g.nodes, old(g.nodes))
    ensures DegreeAtMostOne(old(g.nodes)) && totalMatchings >= 1 ==> NoEdges(g.nodes)
  {
    res := [];
    var maxPer := Feasibility.Ceil(avgMatchingSize);
    var playing: set<int> := {};
    var turn: Matching := {};
    ghost var g0 := g.nodes;
    assert Endpoints(turn) == {};
    assert res + [turn] == [{}];
    ghost var first := true;

    while |res| < totalMatchings
      invariant Walk(g0, g.nodes, res, turn, playing, maxPer, totalMatchings)
      invariant first ==> g.nodes == g0 && playing == {} && res == []
      invariant !first && DegreeAtMostOne(g0) ==> NoEdges(g.nodes)
      decreases |Arcs(g.nodes)|
    {
      var addedSomething;
      ghost var arcsAtStart := |Arcs(g.nodes)|;
      res, turn, playing, addedSomething := Pass(g, g0, res, turn, playing, maxPer, totalMatchings, first);
      first := false;
      if !addedSomething {
        break;
      }
    }
    Heuristic.DropRound(g0, g.nodes, res, turn);
  }
}

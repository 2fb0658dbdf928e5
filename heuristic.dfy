/**
 * The greedy round builder of the Go engine (`makeMatchingsHeuristic`).
 *
 * It walks the nodes of its own copy of the graph again and again; a node
 * that is not yet playing in the current round is paired with its first
 * neighbour that is not playing either, and that edge is taken out of the
 * graph. A round is closed when it holds `ceil(avgMatchingSize)` matches,
 * or, for the last wanted round, as soon as the graph has no edge left.
 * The walk stops once `totalMatchings` rounds exist or a full walk pairs
 * nobody; a round still open at that point is dropped.
 *
 * Go's map iteration order is arbitrary: the node visited next and the
 * order of a node's neighbours are free choices here.
 */
module Heuristic {
  import opened Domain
  import opened Cardinality
  import opened Graphs
  import Feasibility

  /** A round as the heuristic closes it: non-empty, a matching, within the per-round limit. */
  predicate GoodRound(r: Matching, maxPer: int)
  {
    r != {} && IsMatching(r) && NoLoops(r) && (maxPer < 1 || |r| <= maxPer)
  }

  /** No undirected pairing occurs in two different rounds. */
  ghost predicate NoRepeats(rounds: seq<Matching>)
  {
    forall k, k', e, f :: 0 <= k < k' < |rounds| && e in rounds[k] && f in rounds[k'] ==> !SamePair(e, f)
  }

  /**
   * Every pairing in the rounds is an edge of the starting graph `g0` and no
   * longer an edge (in either direction) of the current graph `g`.
   */
  ghost predicate Scheduled(g0: Adjacency, g: Adjacency, rounds: seq<Matching>)
  {
    forall k, e :: 0 <= k < |rounds| && e in rounds[k] ==>
      Adjacent(g0, e.p1, e.p2) && !Adjacent(g, e.p1, e.p2) && !Adjacent(g, e.p2, e.p1)
  }

  /** Only the round with index `total - 1` may close below the per-round limit. */
  predicate ShortOnlyLast(rounds: seq<Matching>, maxPer: int, total: int)
  {
    forall k :: 0 <= k < |rounds| && |rounds[k]| != maxPer ==> k == total - 1
  }

  /**
   * A round below the limit is closed only once the graph has no edge
   * left; edges are never put back, so the graph `g` is still empty.
   */
  predicate ShortWhenEmpty(rounds: seq<Matching>, maxPer: int, g: Adjacency)
  {
    (exists k :: 0 <= k < |rounds| && |rounds[k]| != maxPer) ==> NoEdges(g)
  }

  /**
   * The first entry of `neighbors` not in `playing`, if any (the inner
   * `for` over `GetNeighbors`).
   */
  method FirstNotPlaying(neighbors: seq<int>, playing: set<int>) returns (found: bool, player2: int)
    ensures found ==> exists j :: (0 <= j < |neighbors| && neighbors[j] == player2
      && forall j' :: 0 <= j' < j ==> neighbors[j'] in playing)
    ensures found ==> player2 !in playing
    ensures !found ==> forall v :: v in neighbors ==> v in playing
  {
    found, player2 := false, 0;
    var j := 0;
    while j < |neighbors|
      invariant 0 <= j <= |neighbors|
      invariant forall j' :: 0 <= j' < j ==> neighbors[j'] in playing
    {
      if neighbors[j] !in playing {
        return true, neighbors[j];
      }
      j := j + 1;
    }
  }

  /** Adding an edge between two idle nodes keeps the round a loop-free matching. */
  lemma AddToRound(turn: Matching, e: Edge)
    requires IsMatching(turn) && NoLoops(turn) && e.p1 != e.p2
    requires e.p1 !in Endpoints(turn) && e.p2 !in Endpoints(turn)
    ensures IsMatching(turn + {e}) && NoLoops(turn + {e})
    ensures Endpoints(turn + {e}) == Endpoints(turn) + {e.p1, e.p2}
    ensures |turn + {e}| == |turn| + 1
  {
    AddToMatching(turn, e);
  }

  /**
   * Taking a current edge of the graph into the open round keeps every
   * scheduled pairing out of the graph and never repeats a pairing.
   */
  lemma AddToSchedule(g0: Adjacency, before: Adjacency, after: Adjacency, res: seq<Matching>, turn: Matching, e: Edge)
    requires Symmetric(before) && SubGraph(before, g0)
    requires Adjacent(before, e.p1, e.p2) && RemovedPair(before, after, e)
    requires Scheduled(g0, before, res + [turn]) && NoRepeats(res + [turn])
    ensures Scheduled(g0, after, res + [turn + {e}]) && NoRepeats(res + [turn + {e}])
  {
    RemoveEdgeSymmetric(before, after, e);
    var s := res + [turn];
    var s' := res + [turn + {e}];
    forall k: int, x: Edge | 0 <= k < |s'| && x in s'[k]
      ensures Adjacent(g0, x.p1, x.p2) && !Adjacent(after, x.p1, x.p2) && !Adjacent(after, x.p2, x.p1)
    {
      if x != e || k < |res| {
        assert x in s[k];
      }
    }
    forall k: int, k': int, x: Edge, y: Edge | 0 <= k < k' < |s'| && x in s'[k] && y in s'[k']
      ensures !SamePair(x, y)
    {
      assert x in s[k];
      if y != e {
        assert y in s[k'];
      }
    }
  }

  /** Closing the open round and starting an empty one keeps both facts. */
  lemma CloseRound(g0: Adjacency, g: Adjacency, s: seq<Matching>)
    requires Scheduled(g0, g, s) && NoRepeats(s)
    ensures Scheduled(g0, g, s + [{}]) && NoRepeats(s + [{}])
  {
    assert forall k :: 0 <= k < |s| ==> (s + [{}])[k] == s[k];
  }

  /** Dropping the open round at the end keeps both facts for the closed rounds. */
  lemma DropRound(g0: Adjacency, g: Adjacency, res: seq<Matching>, turn: Matching)
    requires Scheduled(g0, g, res + [turn]) && NoRepeats(res + [turn])
    ensures Scheduled(g0, g, res) && NoRepeats(res)
  {
    assert forall k :: 0 <= k < |res| ==> (res + [turn])[k] == res[k];
  }

  /** The state of a walk apart from the size of the open round; `g0` is the graph the walk started from. */
  ghost predicate Pairing(g0: Adjacency, g: Adjacency, res: seq<Matching>, turn: Matching, playing: set<int>,
                          maxPer: int, total: int)
  {
    Symmetric(g) && NoSelfLoops(g) && SubGraph(g, g0)
    && (forall k :: 0 <= k < |res| ==> GoodRound(res[k], maxPer))
    && ShortOnlyLast(res, maxPer, total) && ShortWhenEmpty(res, maxPer, g)
    && IsMatching(turn) && NoLoops(turn) && playing == Endpoints(turn)
    && Scheduled(g0, g, res + [turn]) && NoRepeats(res + [turn])
  }

  /** What holds between two node visits: the open round is below the limit. */
  ghost predicate Walking(g0: Adjacency, g: Adjacency, res: seq<Matching>, turn: Matching, playing: set<int>,
                          maxPer: int, total: int)
  {
    Pairing(g0, g, res, turn, playing, maxPer, total) && (maxPer < 1 || |turn| < maxPer)
  }

  /** The first half of a visit of `i`: pair it with its first idle neighbour when both are idle. */
  method PairUp(g: Graph, i: int, ghost g0: Adjacency, ghost res: seq<Matching>, turn: Matching, playing: set<int>,
                ghost maxPer: int, ghost total: int)
    returns (turn': Matching, playing': set<int>, added: bool)
    requires i in g.nodes && Walking(g0, g.nodes, res, turn, playing, maxPer, total)
    modifies g
    ensures Pairing(g0, g.nodes, res, turn', playing', maxPer, total)
    ensures maxPer < 1 || |turn'| <= maxPer
    ensures g.nodes.Keys == old(g.nodes).Keys
    ensures |Arcs(g.nodes)| <= |Arcs(old(g.nodes))|
    ensures added ==> |Arcs(g.nodes)| < |Arcs(old(g.nodes))| && |turn'| == |turn| + 1
    ensures !added ==> g.nodes == old(g.nodes) && turn' == turn
    ensures i !in playing && !added ==> forall v :: v in Lookup(old(g.nodes), i) ==> v in playing
  {
    turn', playing', added := turn, playing, false;
    var neighbors := g.GetNeighbors(i);
    var found, player2 := FirstNotPlaying(neighbors, playing);
    assert !found ==> forall v :: v in Lookup(g.nodes, i) ==> v in neighbors && v in playing;
    if i !in playing && found {
      added := true;
      var e := Edge(i, player2);
      ghost var before := g.nodes;
      AddToRound(turn, e);
      playing' := playing + {i, player2};
      turn' := turn + {e};
      var removed := g.RemoveEdge(e);
      AddToSchedule(g0, before, g.nodes, res, turn, e);
      RemoveEdgeSymmetric(before, g.nodes, e);
      RemoveEdgeShrinks(before, g.nodes, e);
    }
  }

  /**
   * One visit of node `i`: pair it up, then close the open round when it
   * is full, or when it is the last wanted round and the graph has run out
   * of edges.
   */
  method Visit(g: Graph, i: int, ghost g0: Adjacency, res: seq<Matching>, turn: Matching, playing: set<int>,
               maxPer: int, total: int)
    returns (res': seq<Matching>, turn': Matching, playing': set<int>, added: bool)
    requires i in g.nodes && Walking(g0, g.nodes, res, turn, playing, maxPer, total)
    modifies g
    ensures Walking(g0, g.nodes, res', turn', playing', maxPer, total)
    ensures g.nodes.Keys == old(g.nodes).Keys
    ensures |Arcs(g.nodes)| <= |Arcs(old(g.nodes))|
    ensures added ==> |Arcs(g.nodes)| < |Arcs(old(g.nodes))|
    ensures |res'| >= |res|
    ensures maxPer == 1 && res' == [] ==> g.nodes == old(g.nodes) && forall v :: v !in Lookup(old(g.nodes), i)
  {
    res' := res;
    ghost var before := g.nodes;
    turn', playing', added := PairUp(g, i, g0, res, turn, playing, maxPer, total);
    ghost var paired := added;
    var isLastTurnRequirement := |res'| == total - 1;
    if isLastTurnRequirement {
      isLastTurnRequirement := g.Empty();
    }
    if |turn'| == maxPer || isLastTurnRequirement {
      if |turn'| > 0 {
        CloseRound(g0, g.nodes, res' + [turn']);
        res' := res' + [turn'];
        playing' := {};
        turn' := {};
      }
    }
    if maxPer == 1 && res' == [] {
      assert !paired && turn == {};
      forall v | v in Lookup(before, i) ensures false {
      }
    }
  }

  /** Every node of `g0` outside `rest` has no neighbour. */
  ghost predicate IdleOutside(g0: Adjacency, rest: set<int>)
  {
    forall u, v :: u in g0 && u !in rest ==> v !in g0[u]
  }

  lemma IdleVisit(g0: Adjacency, rest: set<int>, i: int)
    requires IdleOutside(g0, rest) && forall v :: v !in Lookup(g0, i)
    ensures IdleOutside(g0, rest - {i})
  {
    forall u, v | u in g0 && u !in rest - {i} ensures v !in g0[u] {
      if u == i {
        assert g0[u] == Lookup(g0, i);
      }
    }
  }

  lemma IdleAll(g0: Adjacency)
    requires IdleOutside(g0, {})
    ensures NoEdges(g0)
  {
    forall u | u in g0 ensures g0[u] == {} {
      assert forall v :: v !in g0[u];
    }
  }

  /**
   * `makeMatchingsHeuristic` on the graph `g` (the caller passes a copy).
   * Every returned round is a non-empty matching of at most
   * `ceil(avgMatchingSize)` edges of the starting graph; no pairing is
   * used twice; only the round numbered `totalMatchings` may be smaller
   * than the limit; every pairing used is gone from `g`. More than
   * `totalMatchings` rounds can come back when full rounds close during the
   * last walk. With one match per round, a graph with an edge and at least
   * one round wanted, at least one round comes back: the first node visited
   * that has a neighbour is paired and closes a round at once.
   */
  method MakeMatchingsHeuristic(g: Graph, avgMatchingSize: real, totalMatchings: int) returns (res: seq<Matching>)
    requires Symmetric(g.nodes) && NoSelfLoops(g.nodes)
    modifies g
    ensures forall k :: 0 <= k < |res| ==> GoodRound(res[k], Feasibility.Ceil(avgMatchingSize))
    ensures NoRepeats(res)
    ensures ShortOnlyLast(res, Feasibility.Ceil(avgMatchingSize), totalMatchings)
    ensures ShortWhenEmpty(res, Feasibility.Ceil(avgMatchingSize), g.nodes)
    ensures Scheduled(old(g.nodes), g.nodes, res)
    ensures Symmetric(g.nodes) && NoSelfLoops(g.nodes) && SubGraph(g.nodes, old(g.nodes))
    ensures (Feasibility.Ceil(avgMatchingSize) == 1 && totalMatchings >= 1 && !NoEdges(old(g.nodes))) ==> |res| >= 1
  {
    res := [];
    var maxPer := Feasibility.Ceil(avgMatchingSize);
    var playing: set<int> := {};
    var turn: Matching := {};
    ghost var g0 := g.nodes;
    assert Endpoints(turn) == {};
    assert res + [turn] == [{}];

    while |res| < totalMatchings
      invariant Walking(g0, g.nodes, res, turn, playing, maxPer, totalMatchings)
      invariant maxPer == 1 && res == [] ==> g.nodes == g0
      decreases |Arcs(g.nodes)|
    {
      var addedSomething := false;
      ghost var arcsAtStart := |Arcs(g.nodes)|;
      var rest := g.nodes.Keys;
      while rest != {}
        invariant rest <= g.nodes.Keys
        invariant Walking(g0, g.nodes, res, turn, playing, maxPer, totalMatchings)
        invariant |Arcs(g.nodes)| <= arcsAtStart && (addedSomething ==> |Arcs(g.nodes)| < arcsAtStart)
        invariant maxPer == 1 && res == [] ==> g.nodes == g0 && IdleOutside(g0, rest)
        decreases |rest|
      {
        ghost var w := Pick(rest);
        var i :| i in rest;
        ghost var restBefore := rest;
        rest := rest - {i};
        var added;
        res, turn, playing, added := Visit(g, i, g0, res, turn, playing, maxPer, totalMatchings);
        addedSomething := addedSomething || added;
        if maxPer == 1 && res == [] {
          IdleVisit(g0, restBefore, i);
        }
      }
      if maxPer == 1 && res == [] {
        IdleAll(g0);
      }
      if !addedSomething {
        break;
      }
    }
    DropRound(g0, g.nodes, res, turn);
  }
}

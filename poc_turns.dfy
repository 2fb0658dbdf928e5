/**
 * `make_turns` of the Python sketch: passes over the graph's nodes, in the
 * order of its keys, pair a free node with some free neighbour (whichever
 * `set.pop` yields) and remove that pairing from the graph; a turn is closed
 * when it holds `ceil(matches_per_turn)` matches, or when it is the last
 * turn wanted and the graph has no pairing left. The passes go on while
 * fewer turns than wanted are closed, with no exit when a pass changes
 * nothing: such a call never returns, which is the `Loops` outcome here.
 *
 * The graph is the sketch's dictionary of neighbour sets, updated in place,
 * so it is the `nodes` field of a `Graph` object.
 */
module PocTurns {
  import opened Domain
  import opened Graphs
  import opened Cardinality
  import Feasibility
  import Poc
  import CppValidate
  import Backtracking

  datatype Outcome = Returned(rounds: seq<seq<Edge>>) | Loops

  /** The teams a turn has scheduled so far. */
  function Players(turn: seq<Edge>): set<int>
  {
    if turn == [] then {} else Players(turn[..|turn| - 1]) + {turn[|turn| - 1].p1, turn[|turn| - 1].p2}
  }

  /** Each match of the turn brings two new teams. */
  predicate Clean(turn: seq<Edge>)
  {
    turn == []
    || (Clean(turn[..|turn| - 1]) && turn[|turn| - 1].p1 != turn[|turn| - 1].p2
        && turn[|turn| - 1].p1 !in Players(turn[..|turn| - 1]) && turn[|turn| - 1].p2 !in Players(turn[..|turn| - 1]))
  }

  /** Every match is a pairing of the graph `g0`. */
  ghost predicate FromGraph(g0: Adjacency, turn: seq<Edge>)
  {
    forall j :: 0 <= j < |turn| ==> Adjacent(g0, turn[j].p1, turn[j].p2)
  }

  /** No match is a pairing `g` still holds. */
  ghost predicate Gone(g: Adjacency, turn: seq<Edge>)
  {
    forall j :: 0 <= j < |turn| ==> !Adjacent(g, turn[j].p1, turn[j].p2)
  }

  /** A closed turn: clean, within the size `n` when `n` is positive, made of pairings of `g0` no longer in `g`. */
  ghost predicate GoodRound(g0: Adjacency, g: Adjacency, r: seq<Edge>, n: int)
  {
    Clean(r) && (n >= 1 ==> |r| <= n) && FromGraph(g0, r) && Gone(g, r)
  }

  ghost predicate GoodRounds(g0: Adjacency, g: Adjacency, res: seq<seq<Edge>>, n: int)
  {
    forall k :: 0 <= k < |res| ==> GoodRound(g0, g, res[k], n)
  }

  /** The state of the walk: `g0` is the graph it started from, `turn` the open turn and `playing` its teams. */
  ghost predicate Walk(g0: Adjacency, g: Adjacency, res: seq<seq<Edge>>, turn: seq<Edge>, playing: set<int>, n: int)
  {
    Symmetric(g) && NoSelfLoops(g) && g.Keys == g0.Keys && SubGraph(g, g0)
    && playing == Players(turn) && Clean(turn) && FromGraph(g0, turn) && Gone(g, turn)
    && GoodRounds(g0, g, res, n)
  }

  /** The open turn has room for one more match. */
  predicate Room(turn: seq<Edge>, n: int)
  {
    n >= 1 ==> |turn| < n
  }

  /** The keys of the graph, in the dictionary's order. */
  predicate KeyOrder(order: seq<int>, adj: Adjacency)
  {
    (forall j :: 0 <= j < |order| ==> order[j] in adj)
    && (forall u :: u in adj ==> u in order)
    && (forall i, j :: 0 <= i < j < |order| ==> order[i] != order[j])
  }

  /** Node `i` finds nobody to play: it already plays, or all its neighbours do. */
  predicate Idle(g: Adjacency, playing: set<int>, i: int)
    requires i in g
  {
    i in playing || g[i] - playing == {}
  }

  /** The open turn is not closed at this point. */
  predicate StaysOpen(g: Adjacency, res: seq<seq<Edge>>, turn: seq<Edge>, n: int, turns: int)
  {
    !(|turn| == n || (|res| == turns - 1 && Poc.IsEmpty(g)))
  }

  predicate AllIdle(g: Adjacency, playing: set<int>, order: seq<int>)
  {
    forall j :: 0 <= j < |order| ==> order[j] in g && Idle(g, playing, order[j])
  }

  /**
   * A state from which a whole pass changes nothing, while turns are still
   * missing: the sketch then repeats that pass for ever.
   */
  predicate Stuck(g: Adjacency, order: seq<int>, res: seq<seq<Edge>>, turn: seq<Edge>, playing: set<int>, n: int, turns: int)
  {
    |res| < turns && AllIdle(g, playing, order) && (|order| > 0 ==> StaysOpen(g, res, turn, n, turns))
  }

  /** One iteration of the inner loop, for node `i`. */
  method Visit(g: Graph, i: int, n: int, turns: int, res: seq<seq<Edge>>, turn: seq<Edge>, playing: set<int>,
               ghost g0: Adjacency)
    returns (res': seq<seq<Edge>>, turn': seq<Edge>, playing': set<int>, changed: bool)
    requires Walk(g0, g.nodes, res, turn, playing, n) && Room(turn, n) && i in g.nodes
    modifies g
    ensures Walk(g0, g.nodes, res', turn', playing', n) && Room(turn', n)
    ensures SubGraph(g.nodes, old(g.nodes)) && |res'| >= |res|
    ensures !changed <==> Idle(old(g.nodes), playing, i) && StaysOpen(old(g.nodes), res, turn, n, turns)
    ensures !changed ==> g.nodes == old(g.nodes) && res' == res && turn' == turn && playing' == playing
    ensures changed ==> |res'| > |res| || |Arcs(g.nodes)| < |Arcs(old(g.nodes))|
  {
    var paired;
    turn', playing', paired := Offer(g, i, n, res, turn, playing, g0);
    var closed;
    res', turn', playing', closed := Close(g.nodes, n, turns, res, turn', playing', g0);
    changed := paired || closed;
  }

  /** The pairing half of an iteration: `i`, if free, plays some free neighbour. */
  method Offer(g: Graph, i: int, n: int, res: seq<seq<Edge>>, turn: seq<Edge>, playing: set<int>, ghost g0: Adjacency)
    returns (turn': seq<Edge>, playing': set<int>, paired: bool)
    requires Walk(g0, g.nodes, res, turn, playing, n) && Room(turn, n) && i in g.nodes
    modifies g
    ensures Walk(g0, g.nodes, res, turn', playing', n)
    ensures n >= 1 ==> |turn'| <= n
    ensures SubGraph(g.nodes, old(g.nodes))
    ensures !paired <==> Idle(old(g.nodes), playing, i)
    ensures !paired ==> g.nodes == old(g.nodes) && turn' == turn && playing' == playing
    ensures paired ==> |Arcs(g.nodes)| < |Arcs(old(g.nodes))| && |turn'| == |turn| + 1
  {
    turn', playing' := turn, playing;
    paired := false;
    var possible := g.nodes[i] - playing;
    if i !in playing && |possible| > 0 {
      ghost var w := Pick(possible);
      var p2 :| p2 in possible;
      ghost var before := g.nodes;
      playing' := playing + {i, p2};
      turn' := turn + [Edge(i, p2)];
      g.nodes := g.nodes[i := g.nodes[i] - {p2}];
      g.nodes := g.nodes[p2 := g.nodes[p2] - {i}];
      Pairing(g0, before, g.nodes, res, turn, playing, n, i, p2);
      paired := true;
    }
  }

  /** The closing half of an iteration: the open turn joins the result when full, or when it is the last and the graph is empty. */
  method Close(g: Adjacency, n: int, turns: int, res: seq<seq<Edge>>, turn: seq<Edge>, playing: set<int>, ghost g0: Adjacency)
    returns (res': seq<seq<Edge>>, turn': seq<Edge>, playing': set<int>, closed: bool)
    requires Walk(g0, g, res, turn, playing, n)
    requires n >= 1 ==> |turn| <= n
    ensures Walk(g0, g, res', turn', playing', n) && Room(turn', n)
    ensures !closed <==> StaysOpen(g, res, turn, n, turns)
    ensures !closed ==> res' == res && turn' == turn && playing' == playing
    ensures closed ==> |res'| == |res| + 1
  {
    res', turn', playing' := res, turn, playing;
    closed := false;
    if |turn| == n || (|res| == turns - 1 && Poc.IsEmpty(g)) {
      res' := res + [turn];
      assert GoodRound(g0, g, turn, n);
      assert forall k :: 0 <= k < |res| ==> res'[k] == res[k];
      playing' := {};
      turn' := [];
      closed := true;
    }
  }

  /** Pairing `i` with its free neighbour `v`: the walk's state is kept and the graph strictly shrinks. */
  lemma Pairing(g0: Adjacency, before: Adjacency, after: Adjacency, res: seq<seq<Edge>>, turn: seq<Edge>,
                playing: set<int>, n: int, i: int, v: int)
    requires Walk(g0, before, res, turn, playing, n) && i in before && i !in playing && v in before[i] - playing
    requires after == before[i := before[i] - {v}][v := before[i := before[i] - {v}][v] - {i}]
    ensures var turn' := turn + [Edge(i, v)];
      Clean(turn') && playing + {i, v} == Players(turn') && FromGraph(g0, turn') && Gone(after, turn')
    ensures Symmetric(after) && NoSelfLoops(after) && after.Keys == g0.Keys && SubGraph(after, g0)
    ensures SubGraph(after, before) && |Arcs(after)| < |Arcs(before)|
    ensures GoodRounds(g0, after, res, n)
  {
    var e := Edge(i, v);
    assert RemovedPair(before, after, e);
    RemoveEdgeSymmetric(before, after, e);
    RemoveEdgeShrinks(before, after, e);
    var turn' := turn + [e];
    assert turn'[..|turn|] == turn;
    assert forall k :: 0 <= k < |res| ==> GoodRound(g0, before, res[k], n);
    forall k | 0 <= k < |res| ensures GoodRound(g0, after, res[k], n) {
      assert GoodRound(g0, before, res[k], n);
    }
  }

  /** Moving to a smaller graph keeps every closed turn's matches out of it. */
  lemma ArcsShrink(a: Adjacency, b: Adjacency)
    requires SubGraph(a, b)
    ensures |Arcs(a)| <= |Arcs(b)|
  {
    forall p | p in Arcs(a) ensures p in Arcs(b) {
      assert Adjacent(a, p.0, p.1);
    }
    Backtracking.SubsetSize(Arcs(a), Arcs(b));
  }

  /** One run of the `for` loop over the keys. */
  method Pass(g: Graph, order: seq<int>, n: int, turns: int, res: seq<seq<Edge>>, turn: seq<Edge>, playing: set<int>,
              ghost g0: Adjacency)
    returns (res': seq<seq<Edge>>, turn': seq<Edge>, playing': set<int>, changed: bool)
    requires Walk(g0, g.nodes, res, turn, playing, n) && Room(turn, n) && KeyOrder(order, g.nodes)
    modifies g
    ensures Walk(g0, g.nodes, res', turn', playing', n) && Room(turn', n) && KeyOrder(order, g.nodes)
    ensures SubGraph(g.nodes, old(g.nodes)) && |res'| >= |res|
    ensures !changed <==> AllIdle(old(g.nodes), playing, order) && (|order| > 0 ==> StaysOpen(old(g.nodes), res, turn, n, turns))
    ensures !changed ==> g.nodes == old(g.nodes) && res' == res && turn' == turn && playing' == playing
    ensures changed ==> |res'| > |res| || |Arcs(g.nodes)| < |Arcs(old(g.nodes))|
  {
    ghost var start := g.nodes;
    res', turn', playing' := res, turn, playing;
    changed := false;
    var k := 0;
    while k < |order|
      invariant 0 <= k <= |order|
      invariant Walk(g0, g.nodes, res', turn', playing', n) && Room(turn', n) && g.nodes.Keys == start.Keys
      invariant SubGraph(g.nodes, start) && |res'| >= |res|
      invariant !changed ==> g.nodes == start && res' == res && turn' == turn && playing' == playing
      invariant !changed ==> AllIdle(start, playing, order[..k]) && (k > 0 ==> StaysOpen(start, res, turn, n, turns))
      invariant changed ==> !(AllIdle(start, playing, order[..k]) && StaysOpen(start, res, turn, n, turns))
      invariant changed ==> k > 0 && (|res'| > |res| || |Arcs(g.nodes)| < |Arcs(start)|)
      decreases |order| - k
    {
      ghost var mid := g.nodes;
      ghost var (resMid, changedMid) := (res', changed);
      var c;
      res', turn', playing', c := Visit(g, order[k], n, turns, res', turn', playing', g0);
      assert order[..k + 1] == order[..k] + [order[k]];
      SubGraphTrans(g.nodes, mid, start);
      ArcsShrink(g.nodes, mid);
      ArcsShrink(mid, start);
      if !changedMid && !c {
        assert AllIdle(start, playing, order[..k + 1]);
      }
      if !changedMid && c {
        assert !(AllIdle(start, playing, order[..k + 1]) && StaysOpen(start, res, turn, n, turns));
      }
      if changedMid {
        AllIdleShrinks(start, playing, order, k);
      }
      changed := changed || c;
      k := k + 1;
    }
    assert order[..k] == order;
  }

  lemma SubGraphTrans(a: Adjacency, b: Adjacency, c: Adjacency)
    requires SubGraph(a, b) && SubGraph(b, c)
    ensures SubGraph(a, c)
  {
  }

  lemma AllIdleShrinks(g: Adjacency, playing: set<int>, order: seq<int>, k: int)
    requires 0 <= k < |order|
    ensures AllIdle(g, playing, order[..k + 1]) ==> AllIdle(g, playing, order[..k])
  {
    assert forall j :: 0 <= j < k ==> order[..k + 1][j] == order[..k][j];
  }

  /**
   * `make_turns(matches, matches_per_turn, turns)`: at least `turns` closed
   * turns, each clean, within `ceil(matches_per_turn)` matches when that is
   * positive, and made of pairings taken out of the graph; or, when a pass
   * finds nothing to do while turns are missing, no result at all.
   */
  method MakeTurns(g: Graph, order: seq<int>, matchesPerTurn: real, turns: int)
    returns (out: Outcome, ghost res: seq<seq<Edge>>, ghost turn: seq<Edge>, ghost playing: set<int>)
    requires KeyOrder(order, g.nodes) && Symmetric(g.nodes) && NoSelfLoops(g.nodes)
    modifies g
    ensures SubGraph(g.nodes, old(g.nodes)) && Symmetric(g.nodes)
    ensures out.Returned? ==> |out.rounds| >= turns
    ensures out.Returned? ==> forall k :: 0 <= k < |out.rounds| ==>
      GoodRound(old(g.nodes), g.nodes, out.rounds[k], Feasibility.Ceil(matchesPerTurn))
    ensures out.Loops? ==> Stuck(g.nodes, order, res, turn, playing, Feasibility.Ceil(matchesPerTurn), turns)
  {
    ghost var g0 := g.nodes;
    var rounds: seq<seq<Edge>> := [];
    var n := Feasibility.Ceil(matchesPerTurn);
    var playingTeams: set<int> := {};
    var turnMatches: seq<Edge> := [];
    while |rounds| < turns
      invariant Walk(g0, g.nodes, rounds, turnMatches, playingTeams, n) && Room(turnMatches, n) && KeyOrder(order, g.nodes)
      decreases |Arcs(g.nodes)|, turns - |rounds|
    {
      ghost var before := g.nodes;
      var changed;
      rounds, turnMatches, playingTeams, changed := Pass(g, order, n, turns, rounds, turnMatches, playingTeams, g0);
      ArcsShrink(g.nodes, before);
      if !changed {
        return Loops, rounds, turnMatches, playingTeams;
      }
    }
    return Returned(rounds), rounds, turnMatches, playingTeams;
  }

  /** A clean turn never has a team in two of its matches, nor a team paired with itself. */
  lemma {:induction false} CleanApart(turn: seq<Edge>)
    requires Clean(turn)
    ensures forall j :: 0 <= j < |turn| ==> turn[j].p1 != turn[j].p2
    ensures forall i, j :: 0 <= i < j < |turn| ==> !CppValidate.Shares(turn[i], turn[j])
    decreases |turn|
  {
    if turn != [] {
      var init := turn[..|turn| - 1];
      CleanApart(init);
      PlayersHas(init);
      assert forall j :: 0 <= j < |init| ==> turn[j] == init[j];
    }
  }

  lemma {:induction false} PlayersHas(turn: seq<Edge>)
    ensures forall j :: 0 <= j < |turn| ==> turn[j].p1 in Players(turn) && turn[j].p2 in Players(turn)
    decreases |turn|
  {
    if turn != [] {
      var init := turn[..|turn| - 1];
      PlayersHas(init);
      assert forall j :: 0 <= j < |init| ==> turn[j] == init[j];
    }
  }
}

/**
 * The Rodeo factory of the earlier Go snapshot (`RodeoFactory` with
 * `TotalRounds`, its `makeMatchingsHeuristic` and `MakeTournament`).
 *
 * This version orders the teams before anything else, builds one
 * `makeEdges` pattern over all teams (no gender blocks), asks the greedy
 * builder for `TotalRounds` rounds, falls back to the exhaustive search
 * when fewer come back, numbers the courts of a round from 0 and does not
 * validate the result.
 *
 * Its greedy builder pairs a node only when that node is ALREADY playing
 * in the open round. Nobody plays before the first pairing, so no pairing
 * is ever made and no round is ever returned (`LegacyMakeMatchingsHeuristic`);
 * every usable draw therefore goes to the exhaustive search.
 */
module LegacyFactory {
  import opened Domain
  import opened Wrappers
  import opened Graphs
  import Feasibility
  import opened Circulant
  import opened GenderOrder
  import Heuristic
  import Backtracking
  import LegacyBacktracking
  import opened Factory

  /** `RodeoFactory` of the earlier snapshot: the rounds wanted and the courts available. */
  datatype LegacyRodeoFactory = LegacyRodeoFactory(totalRounds: int, availableCourts: int)

  /** `NewRodeoFactory`: `turns` becomes `TotalRounds`. */
  function NewLegacyRodeoFactory(turns: int, availableCourts: int): (rf: LegacyRodeoFactory)
    ensures rf.totalRounds == turns && rf.availableCourts == availableCourts
  {
    LegacyRodeoFactory(turns, availableCourts)
  }

  // ----- the greedy builder as written -----

  /**
   * One visit of node `i`, as written: the node is paired only when it is
   * already playing. When nobody plays and the open round is empty, the
   * visit changes nothing. A pairing would be stored into `turnMatches`,
   * a nil Go map, which panics; it is never reached (see below).
   */
  method LegacyVisit(g: Graph, i: int, res: seq<Matching>, turn: Matching, playing: set<int>,
                     maxPer: int, total: int)
    returns (res': seq<Matching>, turn': Matching, playing': set<int>, added: bool)
    modifies g
    ensures playing == {} && turn == {} ==>
      !added && res' == res && turn' == {} && playing' == {} && g.nodes == old(g.nodes)
  {
    res', turn', playing', added := res, turn, playing, false;
    var neighbors := g.GetNeighbors(i);
    var found, player2 := Heuristic.FirstNotPlaying(neighbors, playing);
    if i in playing && found {
      added := true;
      playing' := playing' + {i, player2};
      turn' := turn' + {Edge(i, player2)};
      var removed := g.RemoveEdge(Edge(i, player2));
    }
    var isLastTurnRequirement := |res'| == total - 1;
    if isLastTurnRequirement {
      isLastTurnRequirement := g.Empty();
    }
    if |turn'| == maxPer || isLastTurnRequirement {
      if |turn'| > 0 {
        res' := res' + [turn'];
        playing' := {};
        turn' := {};
      }
    }
  }

  /**
   * `makeMatchingsHeuristic` of the earlier snapshot: whatever the graph and
   * the parameters, no round comes back and the graph is left as it was.
   * The outer loop stops after a single walk, since that walk pairs nobody.
   */
  method LegacyMakeMatchingsHeuristic(g: Graph, avgMatchingSize: real, totalMatchings: int)
    returns (res: seq<Matching>)
    modifies g
    ensures res == [] && g.nodes == old(g.nodes)
  {
    res := [];
    var maxPer := Feasibility.Ceil(avgMatchingSize);
    var playing: set<int> := {};
    var turn: Matching := {};
    var stop := false;
    while |res| < totalMatchings && !stop
      invariant res == [] && playing == {} && turn == {} && g.nodes == old(g.nodes)
      decreases if stop then 0 else 1
    {
      var addedSomething := false;
      var rest := g.nodes.Keys;
      while rest != {}
        invariant res == [] && playing == {} && turn == {} && g.nodes == old(g.nodes)
        invariant !addedSomething
        decreases |rest|
      {
        ghost var w := Cardinality.Pick(rest);
        var i :| i in rest;
        rest := rest - {i};
        var added;
        res, turn, playing, added := LegacyVisit(g, i, res, turn, playing, maxPer, totalMatchings);
        addedSomething := addedSomething || added;
      }
      stop := !addedSomething;
    }
  }

  // ----- MakeTournament of the earlier snapshot -----

  /** `packed` lists each pairing of `edges` once, in one of its two orientations. */
  ghost predicate SamePairings(packed: set<Edge>, edges: Matching)
  {
    (forall e :: e in packed ==> e in edges || Edge(e.p2, e.p1) in edges)
    && (forall e :: e in edges ==> e in packed || Edge(e.p2, e.p1) in packed)
  }

  /** The search lists the graph's pairings; the graph holds both directions of `edges`. */
  lemma PackedPairings(packed: set<Edge>, adj: Adjacency, edges: Matching)
    requires Backtracking.EdgesOf(packed, adj) && Arcs(adj) == ArcsOf(edges)
    ensures SamePairings(packed, edges)
  {
    forall e | e in packed ensures e in edges || Edge(e.p2, e.p1) in edges {
      assert Adjacent(adj, e.p1, e.p2);
      assert (e.p1, e.p2) in Arcs(adj);
    }
    forall e | e in edges ensures e in packed || Edge(e.p2, e.p1) in packed {
      assert (e.p1, e.p2) in ArcsOf(edges);
      assert Adjacent(adj, e.p1, e.p2);
    }
  }

  /**
   * A tournament of the earlier snapshot: the pairings are `makeEdges` of all
   * `n` teams with `m` partners each, the rounds are an exhaustive-search
   * assignment of all of them into `TotalRounds` rounds within the
   * per-round limit, and the Rodeo lists the ordered teams and, per round,
   * one match per pairing with courts from 0.
   */
  ghost predicate LegacyBuilt(rodeo: Rodeo, teams: seq<Team>, d: Feasibility.Draw, totalRounds: int, dateStart: Date,
                              rounds: seq<Matching>, edges: Matching, packed: set<Edge>, orders: seq<seq<Edge>>)
  {
    d.matchesPerTeam > 0 && totalRounds >= 0
    && BlockEdges(edges, 0, |teams|, d.matchesPerTeam)
    && SamePairings(packed, edges)
    && Backtracking.Packing(rounds, Backtracking.EmptyBuckets(totalRounds), packed, Feasibility.Ceil(d.matchesPerTurn))
    && rodeo.name == "Rodeo" && rodeo.dateStart == dateStart
    && rodeo.teams == LegacyOrderedByGender(teams) && |rodeo.teams| == |teams|
    && |rodeo.rounds| == |rounds| == |orders|
    && forall k :: 0 <= k < |rounds| ==> ListsRound(rodeo.rounds[k], rounds[k], rodeo.teams, orders[k], 0)
  }

  /** Why a usable draw gave no tournament: no assignment of all the pairings into the rounds exists. */
  ghost predicate LegacyRefused(msg: string, teams: seq<Team>, d: Feasibility.Draw, totalRounds: int,
                                edges: Matching, packed: set<Edge>)
  {
    d.matchesPerTeam > 0 && totalRounds >= 0
    && msg == "could not find valid matchings with the given parameters"
    && BlockEdges(edges, 0, |teams|, d.matchesPerTeam)
    && SamePairings(packed, edges)
    && forall s :: !Backtracking.Packing(s, Backtracking.EmptyBuckets(totalRounds), packed, Feasibility.Ceil(d.matchesPerTurn))
  }

  /** The pairings an exhaustive-search assignment uses join team indexes below `n`. */
  lemma PackedWithinTeams(rounds: seq<Matching>, totalRounds: nat, packed: set<Edge>, edges: Matching, maxSize: int, n: int)
    requires Backtracking.Packing(rounds, Backtracking.EmptyBuckets(totalRounds), packed, maxSize)
    requires SamePairings(packed, edges) && WithinTeams(edges, n)
    ensures forall k, e :: 0 <= k < |rounds| && e in rounds[k] ==> 0 <= e.p1 < n && 0 <= e.p2 < n
  {
    forall k, e | 0 <= k < |rounds| && e in rounds[k] ensures 0 <= e.p1 < n && 0 <= e.p2 < n {
      assert e in rounds[k] - Backtracking.EmptyBuckets(totalRounds)[k];
      assert e in packed;
    }
  }

  /** `makeEdges` on the nodes `0..n - 1` joins team indexes below `n`, smaller first. */
  lemma BlockWithinTeams(edges: Matching, n: nat, k: nat)
    requires BlockEdges(edges, 0, n, k)
    ensures WithinTeams(edges, n)
  {
    IotaMembers(0, n);
  }

  /** With only known genders the earlier ordering keeps every team. */
  lemma LegacyOrderKeepsAll(teams: seq<Team>)
    requires forall t :: t in teams ==> KnownGender(t.gender)
    ensures |LegacyOrderedByGender(teams)| == |teams|
  {
    LegacyKeepsTeams(teams);
    OrderKeepsAllKnown(teams);
    assert |multiset(LegacyOrderedByGender(teams))| == |multiset(OrderedByGender(teams))|;
  }

  /** The match-building loops of `MakeTournament` over the search's rounds. */
  method LegacyListRounds(chosen: seq<Matching>, ordered: seq<Team>, ghost teams: seq<Team>, ghost d: Feasibility.Draw,
                          totalRounds: int, dateStart: Date, ghost edges: Matching, ghost packed: set<Edge>)
    returns (r: Result<Rodeo>, ghost orders: seq<seq<Edge>>)
    requires d.matchesPerTeam > 0 && totalRounds >= 0
    requires BlockEdges(edges, 0, |teams|, d.matchesPerTeam) && SamePairings(packed, edges)
    requires Backtracking.Packing(chosen, Backtracking.EmptyBuckets(totalRounds), packed, Feasibility.Ceil(d.matchesPerTurn))
    requires ordered == LegacyOrderedByGender(teams) && |ordered| == |teams|
    ensures r.Ok? && LegacyBuilt(r.value, teams, d, totalRounds, dateStart, chosen, edges, packed, orders)
  {
    BlockWithinTeams(edges, |teams|, d.matchesPerTeam);
    PackedWithinTeams(chosen, totalRounds, packed, edges, Feasibility.Ceil(d.matchesPerTurn), |teams|);
    var turns;
    turns, orders := MatchesOfRounds(chosen, ordered, 0);
    r := Ok(Rodeo("Rodeo", dateStart, ordered, turns));
  }

  /**
   * `MakeTournament` of the earlier snapshot. No tournament when no draw
   * fits. Otherwise the greedy builder returns no round, the exhaustive
   * search always runs, and either its assignment becomes the Rodeo
   * (`LegacyBuilt`) or its failure message comes back (`LegacyRefused`).
   */
  method LegacyMakeTournament(rf: LegacyRodeoFactory, teams: seq<Team>, dateStart: Date)
    returns (r: Result<Rodeo>, ghost rounds: seq<Matching>, ghost edges: Matching, ghost packed: set<Edge>,
             ghost orders: seq<seq<Edge>>)
    requires forall t :: t in teams ==> KnownGender(t.gender)
    ensures var d := Feasibility.BestDraw(|teams|, rf.totalRounds, rf.availableCourts, true);
      d.totalMatches == 0 ==> r == Err("could not determine valid match parameters. Returning empty tournament")
    ensures var d := Feasibility.BestDraw(|teams|, rf.totalRounds, rf.availableCourts, true);
      r.Ok? ==> LegacyBuilt(r.value, teams, d, rf.totalRounds, dateStart, rounds, edges, packed, orders)
    ensures var d := Feasibility.BestDraw(|teams|, rf.totalRounds, rf.availableCourts, true);
      r.Err? && d.totalMatches > 0 ==> LegacyRefused(r.error, teams, d, rf.totalRounds, edges, packed)
  {
    rounds, edges, packed, orders := [], {}, {}, [];
    var n := |teams|;
    var ordered := LegacyOrderTeamsByGender(teams);
    var nodes := NodeRange(0, n);
    var d := Feasibility.GetMatchesPerTeam(n, rf.totalRounds, rf.availableCourts, true);
    if d.totalMatches == 0 {
      return Err("could not determine valid match parameters. Returning empty tournament"), rounds, edges, packed, orders;
    }
    IotaDistinct(0, n);
    var allMatches := MakeEdges(nodes, d.matchesPerTeam);
    edges := allMatches;
    var graph := new Graph();
    AddAll(graph, allMatches);
    var greedy := LegacyMakeMatchingsHeuristic(graph, d.matchesPerTurn, rf.totalRounds);
    var chosen := greedy;
    if |greedy| < rf.totalRounds {
      var res;
      res, packed := LegacyBacktracking.MakeMatchingsBacktracking(graph, d.matchesPerTurn, rf.totalRounds);
      PackedPairings(packed, graph.nodes, edges);
      if res.Err? {
        return Err(res.error), rounds, edges, packed, orders;
      }
      chosen := res.value;
    }
    rounds := chosen;
    LegacyOrderKeepsAll(teams);
    r, orders := LegacyListRounds(chosen, ordered, teams, d, rf.totalRounds, dateStart, edges, packed);
  }
}

/**
 * `RodeoFactory::make_tournament` of the C++ library: the draw, the
 * circulant pairing graph on the team indexes `0..n-1`, the greedy rounds,
 * the exhaustive search when the greedy walk leaves an edge in the graph,
 * and the turns of matches between the team objects.
 *
 * `total_rounds` is an `int` that `make_matchings` and
 * `make_matchings_brute_force` receive as an unsigned 32-bit count, so a
 * negative value wraps around (`Uint32`).
 */
module CppFactory {
  import opened Domain
  import opened Graphs
  import opened Circulant
  import opened Feasibility
  import opened CppGreedy
  import opened CppSearch
  import opened Backtracking
  import opened Heuristic
  import opened CppValues

  /** The conversion of an `int` to a 32-bit `uint`. */
  function Uint32(x: int): (u: nat)
    ensures 0 <= u < 0x1_0000_0000
    ensures 0 <= x < 0x1_0000_0000 ==> u == x
  {
    x % 0x1_0000_0000
  }

  /** `std::iota` over `n` slots: the indexes `0..n-1`. */
  function Iota(n: nat): (s: seq<int>)
    ensures |s| == n && forall i :: 0 <= i < n ==> s[i] == i
  {
    seq(n, i => i)
  }

  /** What `make_edges(iota(n), m)` returns. */
  ghost predicate EdgesFor(n: nat, m: int, edges: Matching)
  {
    Spans(edges, Iota(n))
    && (((n * m) % 2 != 0 || n <= m) ==> edges == {})
    && ((n * m) % 2 == 0 && n > m ==> CirculantOf(Iota(n), m, edges))
  }

  /** The adjacency `Graph::from_set(edges)` builds. */
  ghost predicate BuiltFrom(g0: Adjacency, edges: Matching)
  {
    (forall u :: u in g0 <==> FromSetKey(edges, u))
    && (forall u :: u in g0 ==> g0[u] == NeighboursIn(edges, u))
    && Symmetric(g0) && NoSelfLoops(g0)
  }

  /** What `make_matchings` promises about the rounds it returns and the graph it leaves. */
  ghost predicate GreedyOutcome(g0: Adjacency, after: Adjacency, greedy: seq<Matching>, maxPer: int, total: nat)
  {
    (forall k :: 0 <= k < |greedy| ==> CppRound(greedy[k], maxPer))
    && NoRepeats(greedy)
    && ShortOnlyLast(greedy, maxPer, total)
    && Scheduled(g0, after, greedy)
    && (DegreeAtMostOne(g0) && total >= 1 ==> NoEdges(after))
  }

  /** What `make_matchings_brute_force` promises. */
  ghost predicate SearchOutcome(rounds: seq<Matching>, edges: Matching, total: nat, maxPer: int)
  {
    (|rounds| == total && Packing(rounds, EmptyBuckets(total), edges, maxPer))
    || (rounds == [] && forall s :: !Packing(s, EmptyBuckets(total), edges, maxPer))
  }

  /** The intermediate values of one run of `make_tournament`. */
  datatype Trace = Trace(draw: Draw, edges: Matching, g0: Adjacency, after: Adjacency,
                         greedy: seq<Matching>, usedSearch: bool, rounds: seq<Matching>)

  /**
   * The run as written: the draw for `n` teams (no `n > m` test), the
   * pairing graph, the greedy rounds, and the search only when the graph is
   * not empty afterwards.
   */
  ghost predicate AsWritten(n: nat, totalRounds: int, courts: int, t: Trace)
  {
    t.draw == BestDraw(n, totalRounds, courts, false)
    && EdgesFor(n, t.draw.matchesPerTeam, t.edges)
    && BuiltFrom(t.g0, t.edges)
    && GreedyOutcome(t.g0, t.after, t.greedy, Ceil(t.draw.matchesPerTurn), Uint32(totalRounds))
    && (t.usedSearch <==> !NoEdges(t.after))
    && (t.usedSearch ==> SearchOutcome(t.rounds, t.edges, Uint32(totalRounds), Ceil(t.draw.matchesPerTurn)))
    && (!t.usedSearch ==> t.rounds == t.greedy)
  }

  /** Every pairing of every round names two indexes below `n`. */
  predicate RoundsWithin(rounds: seq<Matching>, n: int)
  {
    forall k, e :: 0 <= k < |rounds| && e in rounds[k] ==> 0 <= e.p1 < n && 0 <= e.p2 < n
  }

  /** `list` enumerates `m` in the ascending order of `std::set<std::pair<int, int>>`. */
  ghost predicate Listing(list: seq<Edge>, m: Matching)
  {
    (forall e :: e in m <==> e in list)
    && (forall i, j :: 0 <= i < j < |list| ==> EdgeBefore(list[i], list[j]) && list[i] != list[j])
  }

  /** The matches `Match(teams.at(e1), teams.at(e2))` for the pairings of `list`, in order. */
  function MatchesOf(teams: seq<CppTeam>, list: seq<Edge>): (r: seq<CppMatch>)
    requires forall j :: 0 <= j < |list| ==> 0 <= list[j].p1 < |teams| && 0 <= list[j].p2 < |teams|
    ensures |r| == |list|
    ensures forall j :: 0 <= j < |list| ==> r[j] == NewMatch(teams[list[j].p1], teams[list[j].p2])
  {
    if list == [] then []
    else MatchesOf(teams, list[..|list| - 1]) + [NewMatch(teams[list[|list| - 1].p1], teams[list[|list| - 1].p2])]
  }

  /** `turn` holds, in ascending order of its pairings, the matches of round `m`. */
  ghost predicate TurnOf(teams: seq<CppTeam>, m: Matching, turn: seq<CppMatch>)
    requires forall e :: e in m ==> 0 <= e.p1 < |teams| && 0 <= e.p2 < |teams|
  {
    exists list: seq<Edge> :: Listing(list, m) && |list| == |turn|
      && forall j :: 0 <= j < |list| ==> turn[j] == NewMatch(teams[list[j].p1], teams[list[j].p2])
  }

  /** Each turn lists the pairings of its round in ascending order, as matches between the teams. */
  ghost predicate TurnsOf(teams: seq<CppTeam>, rounds: seq<Matching>, turns: seq<seq<CppMatch>>)
  {
    |turns| == |rounds|
    && RoundsWithin(rounds, |teams|)
    && forall k :: 0 <= k < |rounds| ==> TurnOf(teams, rounds[k], turns[k])
  }

  /** The pairings of `m` in ascending order: repeatedly its smallest remaining pairing. */
  method SortedEdges(m: Matching) returns (list: seq<Edge>)
    ensures Listing(list, m)
  {
    list := [];
    var rest := m;
    while rest != {}
      invariant rest <= m
      invariant forall e :: e in m <==> e in rest || e in list
      invariant forall e :: e in list ==> e !in rest
      invariant forall i, f :: 0 <= i < |list| && f in rest ==> EdgeBefore(list[i], f)
      invariant forall i, j :: 0 <= i < j < |list| ==> EdgeBefore(list[i], list[j]) && list[i] != list[j]
      decreases |rest|
    {
      var e := SmallestEdge(rest);
      list := list + [e];
      rest := rest - {e};
    }
  }

  /** One turn of matches for a round: its pairings in ascending order, each made a match. */
  method BuildTurn(teams: seq<CppTeam>, m: Matching) returns (turn: seq<CppMatch>)
    requires forall e :: e in m ==> 0 <= e.p1 < |teams| && 0 <= e.p2 < |teams|
    ensures TurnOf(teams, m, turn)
  {
    var list := SortedEdges(m);
    assert forall j :: 0 <= j < |list| ==> list[j] in m;
    turn := MatchesOf(teams, list);
  }

  /** The loop over the rounds that turns each pairing into a match between two team objects. */
  method BuildTurns(teams: seq<CppTeam>, rounds: seq<Matching>) returns (turns: seq<seq<CppMatch>>)
    requires RoundsWithin(rounds, |teams|)
    ensures TurnsOf(teams, rounds, turns)
  {
    turns := [];
    var k := 0;
    while k < |rounds|
      invariant 0 <= k <= |rounds| && TurnsOf(teams, rounds[..k], turns)
    {
      var turn := BuildTurn(teams, rounds[k]);
      TurnsOfSnoc(teams, rounds, k, turns, turn);
      turns := turns + [turn];
      k := k + 1;
    }
    assert rounds[..k] == rounds;
  }

  /** One more turn for the next round extends the turns of the rounds before it. */
  lemma TurnsOfSnoc(teams: seq<CppTeam>, rounds: seq<Matching>, k: int, turns: seq<seq<CppMatch>>, turn: seq<CppMatch>)
    requires 0 <= k < |rounds| && RoundsWithin(rounds, |teams|)
    requires TurnsOf(teams, rounds[..k], turns) && TurnOf(teams, rounds[k], turn)
    ensures TurnsOf(teams, rounds[..k + 1], turns + [turn])
  {
    var r, t := rounds[..k + 1], turns + [turn];
    forall x | 0 <= x < k + 1 ensures TurnOf(teams, r[x], t[x]) {
      if x < k {
        assert r[x] == rounds[..k][x] && t[x] == turns[x];
      }
    }
  }

  /** An edge of `make_edges(iota(n), m)` joins two indexes below `n`. */
  lemma NeighbourWithin(n: nat, m: int, edges: Matching, u: int, v: int)
    requires EdgesFor(n, m, edges)
    requires v in NeighboursIn(edges, u)
    ensures 0 <= u < n && 0 <= v < n
  {
    assert u in Iota(n) && v in Iota(n);
  }

  /** Every round `make_tournament` turns into matches names team indexes below `n`. */
  lemma {:induction false} AsWrittenWithin(n: nat, totalRounds: int, courts: int, t: Trace)
    requires AsWritten(n, totalRounds, courts, t)
    ensures RoundsWithin(t.rounds, n)
  {
    forall k, e | 0 <= k < |t.rounds| && e in t.rounds[k] ensures 0 <= e.p1 < n && 0 <= e.p2 < n {
      if t.usedSearch {
        var total := Uint32(totalRounds);
        assert |t.rounds| == total && Packing(t.rounds, EmptyBuckets(total), t.edges, Ceil(t.draw.matchesPerTurn));
        assert e in t.rounds[k] - EmptyBuckets(total)[k];
        assert e in t.edges;
        assert e.p1 in Iota(n) && e.p2 in Iota(n);
      } else {
        assert Adjacent(t.g0, e.p1, e.p2);
        NeighbourWithin(n, t.draw.matchesPerTeam, t.edges, e.p1, e.p2);
      }
    }
  }

  /** The draw, the pairing graph and the greedy rounds: the first lines of `make_tournament`. */
  method Plan(n: nat, totalRounds: int, courts: int)
    returns (draw: Draw, edges: Matching, g: Graph, greedy: seq<Matching>, ghost g0: Adjacency)
    ensures fresh(g)
    ensures draw == BestDraw(n, totalRounds, courts, false)
    ensures EdgesFor(n, draw.matchesPerTeam, edges)
    ensures BuiltFrom(g0, edges)
    ensures GreedyOutcome(g0, g.nodes, greedy, Ceil(draw.matchesPerTurn), Uint32(totalRounds))
  {
    var nodes := Iota(n);
    draw := GetMatchesPerTeam(n, totalRounds, courts, false);
    assert draw.matchesPerTeam >= 0 by {
      if draw.matchesPerTeam != 0 {
        assert Fits(n, totalRounds, courts, draw.matchesPerTeam, false);
      }
    }
    edges := MakeEdges(nodes, draw.matchesPerTeam);
    g := FromSet(edges);
    g0 := g.nodes;
    greedy := MakeMatchings(g, draw.matchesPerTurn, Uint32(totalRounds));
  }

  /** `RodeoFactory`: the number of rounds and of courts, fixed at construction. */
  class CppRodeoFactory {
    const totalRounds: int
    const availableCourts: int

    constructor (totalRounds: int, availableCourts: int)
      ensures this.totalRounds == totalRounds && this.availableCourts == availableCourts
    {
      this.totalRounds := totalRounds;
      this.availableCourts := availableCourts;
    }

    /**
     * `make_tournament` as written: the search replaces the greedy rounds
     * only when the graph still holds an edge after the greedy walk.
     */
    method MakeTournament(teams: seq<CppTeam>) returns (rodeo: CppTournament, ghost t: Trace)
      ensures AsWritten(|teams|, totalRounds, availableCourts, t)
      ensures rodeo.teams == teams && TurnsOf(teams, t.rounds, rodeo.turns)
    {
      var draw, edges, g, greedy;
      ghost var g0;
      draw, edges, g, greedy, g0 := Plan(|teams|, totalRounds, availableCourts);
      var rounds := greedy;
      var isEmpty := g.Empty();
      if !isEmpty {
        rounds := MakeMatchingsBruteForce(edges, draw.matchesPerTurn, Uint32(totalRounds));
      }
      t := Trace(draw, edges, g0, g.nodes, greedy, !isEmpty, rounds);
      AsWrittenWithin(|teams|, totalRounds, availableCourts, t);
      var turns := BuildTurns(teams, rounds);
      rodeo := new CppTournament(teams, turns);
    }

    /**
     * `make_tournament` with the search also taking over when the greedy
     * rounds leave a pairing out: every pairing of the graph is then
     * scheduled exactly once, or there are no rounds and no schedule exists.
     */
    method MakeTournamentFixed(teams: seq<CppTeam>) returns (rodeo: CppTournament, ghost t: Trace)
      ensures t.draw == BestDraw(|teams|, totalRounds, availableCourts, false)
      ensures EdgesFor(|teams|, t.draw.matchesPerTeam, t.edges)
      ensures Schedule(t.rounds, t.edges, Ceil(t.draw.matchesPerTurn))
        || (t.rounds == [] && forall s :: !Packing(s, EmptyBuckets(Uint32(totalRounds)), t.edges, Ceil(t.draw.matchesPerTurn)))
      ensures rodeo.teams == teams && TurnsOf(teams, t.rounds, rodeo.turns)
    {
      var draw, edges, g, greedy;
      ghost var g0;
      draw, edges, g, greedy, g0 := Plan(|teams|, totalRounds, availableCourts);
      var maxPer := Ceil(draw.matchesPerTurn);
      var rounds := greedy;
      var isEmpty := g.Empty();
      var covered := CoversAll(greedy, edges);
      if !isEmpty || !covered {
        rounds := MakeMatchingsBruteForce(edges, draw.matchesPerTurn, Uint32(totalRounds));
        if rounds != [] {
          PackingSchedule(rounds, edges, Uint32(totalRounds), maxPer);
        }
      } else {
        GreedySchedule(|teams|, draw.matchesPerTeam, edges, g0, g.nodes, greedy, maxPer, Uint32(totalRounds));
      }
      t := Trace(draw, edges, g0, g.nodes, greedy, !isEmpty || !covered, rounds);
      assert RoundsWithin(rounds, |teams|) by {
        ScheduleWithin(|teams|, draw.matchesPerTeam, edges, rounds, maxPer);
      }
      var turns := BuildTurns(teams, rounds);
      rodeo := new CppTournament(teams, turns);
    }
  }

  // ----- the corrected fallback -----

  /** Some round holds the pairing `e`, in one orientation or the other. */
  predicate InSomeRound(rounds: seq<Matching>, e: Edge)
  {
    exists k :: 0 <= k < |rounds| && (e in rounds[k] || Edge(e.p2, e.p1) in rounds[k])
  }

  /**
   * `rounds` schedules each edge of `edges` exactly once: every round is a
   * matching within the per-round limit, every pairing is an edge, every edge
   * is in some round and no pairing is in two rounds.
   */
  ghost predicate Schedule(rounds: seq<Matching>, edges: Matching, maxPer: int)
  {
    (forall k :: 0 <= k < |rounds| ==> IsMatching(rounds[k]) && (maxPer < 1 || |rounds[k]| <= maxPer))
    && (forall k, e :: 0 <= k < |rounds| && e in rounds[k] ==> Edge(e.p1, e.p2) in edges || Edge(e.p2, e.p1) in edges)
    && (forall e :: e in edges ==> InSomeRound(rounds, e))
    && NoRepeats(rounds)
  }

  /** Whether some round holds `e`: the inner scan of the coverage test. */
  method FindInRounds(rounds: seq<Matching>, e: Edge) returns (found: bool)
    ensures found <==> InSomeRound(rounds, e)
  {
    var k := 0;
    while k < |rounds|
      invariant 0 <= k <= |rounds|
      invariant forall x :: 0 <= x < k ==> e !in rounds[x] && Edge(e.p2, e.p1) !in rounds[x]
    {
      if e in rounds[k] || Edge(e.p2, e.p1) in rounds[k] {
        return true;
      }
      k := k + 1;
    }
    return false;
  }

  /** Whether the rounds hold every edge of `edges`. */
  method CoversAll(rounds: seq<Matching>, edges: Matching) returns (covered: bool)
    ensures covered <==> forall e :: e in edges ==> InSomeRound(rounds, e)
  {
    var rest := edges;
    while rest != {}
      invariant rest <= edges
      invariant forall e :: e in edges && e !in rest ==> InSomeRound(rounds, e)
      decreases |rest|
    {
      var e := SmallestEdge(rest);
      var found := FindInRounds(rounds, e);
      if !found {
        return false;
      }
      rest := rest - {e};
    }
    return true;
  }

  /** A schedule found by the search schedules each edge exactly once. */
  lemma PackingSchedule(rounds: seq<Matching>, edges: Matching, total: nat, maxPer: int)
    requires Packing(rounds, EmptyBuckets(total), edges, maxPer)
    requires forall e :: e in edges ==> e.p1 < e.p2
    ensures Schedule(rounds, edges, maxPer)
  {
    forall k, e | 0 <= k < |rounds| && e in rounds[k] ensures e in edges {
      assert e in rounds[k] - EmptyBuckets(total)[k];
    }
    forall e | e in edges ensures InSomeRound(rounds, e) {
      var k :| 0 <= k < |rounds| && e in rounds[k];
    }
    forall k, k', e, f | 0 <= k < k' < |rounds| && e in rounds[k] && f in rounds[k'] ensures !SamePair(e, f) {
      assert e in rounds[k] - EmptyBuckets(total)[k];
      assert f in rounds[k'] - EmptyBuckets(total)[k'];
      assert rounds[k] !! rounds[k'];
    }
  }

  /** Greedy rounds that leave no edge out schedule each edge exactly once. */
  lemma GreedySchedule(n: nat, m: int, edges: Matching, g0: Adjacency, after: Adjacency,
                       greedy: seq<Matching>, maxPer: int, total: nat)
    requires EdgesFor(n, m, edges) && BuiltFrom(g0, edges)
    requires GreedyOutcome(g0, after, greedy, maxPer, total)
    requires forall e :: e in edges ==> InSomeRound(greedy, e)
    ensures Schedule(greedy, edges, maxPer)
  {
    forall k, e | 0 <= k < |greedy| && e in greedy[k]
      ensures Edge(e.p1, e.p2) in edges || Edge(e.p2, e.p1) in edges
    {
      assert Adjacent(g0, e.p1, e.p2);
      assert e.p2 in NeighboursIn(edges, e.p1);
    }
  }

  /** The pairings of a schedule of `make_edges(iota(n), m)` name indexes below `n`. */
  lemma ScheduleWithin(n: nat, m: int, edges: Matching, rounds: seq<Matching>, maxPer: int)
    requires EdgesFor(n, m, edges)
    requires Schedule(rounds, edges, maxPer) || rounds == []
    ensures RoundsWithin(rounds, n)
  {
    forall k, e | 0 <= k < |rounds| && e in rounds[k] ensures 0 <= e.p1 < n && 0 <= e.p2 < n {
      if Edge(e.p1, e.p2) in edges {
        assert e.p1 in Iota(n) && e.p2 in Iota(n);
      } else {
        assert Edge(e.p2, e.p1) in edges;
        assert e.p1 in Iota(n) && e.p2 in Iota(n);
      }
    }
  }
}

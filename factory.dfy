/**
 * The Rodeo factory of the current Go engine (`RodeoFactory`,
 * `NewRodeoFactory`, `getGraph`, `MakeTournament`).
 *
 * `MakeTournament` picks the number of matches per team, builds the
 * pairing graph, asks the greedy round builder for the rounds, falls back
 * to the exhaustive search when the greedy rounds are unusable, validates
 * the rounds, and numbers the courts of each round from 1.
 */
module Factory {
  import opened Domain
  import opened Wrappers
  import opened Cardinality
  import opened Graphs
  import Feasibility
  import opened Circulant
  import opened Teams
  import opened GenderOrder
  import Heuristic
  import Backtracking
  import opened Validation

  /** `RodeoFactory`: the number of rounds wanted and the courts available. */
  datatype RodeoFactory = RodeoFactory(maxRounds: int, availableCourts: int)

  /** `NewRodeoFactory`: `turns` becomes the round limit. */
  function NewRodeoFactory(turns: int, availableCourts: int): (rf: RodeoFactory)
    ensures rf.maxRounds == turns && rf.availableCourts == availableCourts
  {
    RodeoFactory(turns, availableCourts)
  }

  // ----- the pairing graph -----

  /** The integers `lo, lo + 1, ..., hi - 1`. */
  function Iota(lo: int, hi: int): (r: seq<int>)
    requires lo <= hi
    ensures |r| == hi - lo && forall i :: 0 <= i < |r| ==> r[i] == lo + i
  {
    seq(hi - lo, i => lo + i)
  }

  /** The node-numbering loops: `lo` up to `hi - 1`, appended in turn. */
  method NodeRange(lo: int, hi: int) returns (nodes: seq<int>)
    requires lo <= hi
    ensures nodes == Iota(lo, hi)
  {
    nodes := [];
    var i := lo;
    while i < hi
      invariant lo <= i <= hi && nodes == Iota(lo, i)
    {
      nodes := nodes + [i];
      i := i + 1;
    }
  }

  lemma IotaDistinct(lo: int, hi: int)
    requires lo <= hi
    ensures Distinct(Iota(lo, hi))
  {
  }

  lemma IotaMembers(lo: int, hi: int)
    requires lo <= hi
    ensures forall x :: x in Iota(lo, hi) <==> lo <= x < hi
  {
    forall x | lo <= x < hi ensures x in Iota(lo, hi) {
      assert Iota(lo, hi)[x - lo] == x;
    }
  }

  /** Every pairing joins two different team indexes below `n`, smaller first. */
  predicate WithinTeams(edges: Matching, n: int)
  {
    forall e :: e in edges ==> 0 <= e.p1 < e.p2 < n
  }

  /** Both directions of every pairing of `m`. */
  function ArcsOf(m: Matching): set<(int, int)>
  {
    (set e | e in m :: (e.p1, e.p2)) + (set e | e in m :: (e.p2, e.p1))
  }

  /** The pairings of `m` with both nodes in `lo..hi - 1`. */
  function Within(m: Matching, lo: int, hi: int): Matching
  {
    set e | e in m && lo <= e.p1 < hi && lo <= e.p2 < hi
  }

  /** What `makeEdges` gives on the nodes `lo..hi - 1` with `k` partners each. */
  ghost predicate BlockEdges(w: Matching, lo: int, hi: int, k: nat)
    requires lo <= hi
  {
    var n := hi - lo;
    Spans(w, Iota(lo, hi))
    && (((n * k) % 2 != 0 || n <= k) ==> w == {})
    && (((n * k) % 2 == 0 && n > k) ==> CirculantOf(Iota(lo, hi), k, w))
  }

  /** The Male, Female and Else blocks: node ranges `bounds[g]..bounds[g + 1] - 1` for gender `g`. */
  function GenderBounds(teams: seq<Team>): (b: seq<int>)
    ensures |b| == 4 && b[0] == 0 && b[0] <= b[1] <= b[2] <= b[3]
  {
    var cM, cF, cE := CountGender(teams, Male), CountGender(teams, Female), CountGender(teams, Else);
    [0, cM, cM + cF, cM + cF + cE]
  }

  /** Every pairing lies inside one block, and each block holds `makeEdges` of its nodes. */
  ghost predicate Blocked(edges: Matching, bounds: seq<int>, k: nat)
    requires |bounds| == 4 && bounds[0] <= bounds[1] <= bounds[2] <= bounds[3]
  {
    (forall e :: e in edges ==> exists g :: 0 <= g < 3 && e in Within(edges, bounds[g], bounds[g + 1]))
    && forall g :: 0 <= g < 3 ==> BlockEdges(Within(edges, bounds[g], bounds[g + 1]), bounds[g], bounds[g + 1], k)
  }

  /** The condition `canAllGendersPlayOnlyAgainstEachOther` decides. */
  ghost predicate GendersApart(teams: seq<Team>, m: int)
  {
    (forall g :: KnownGender(g) ==> CountGender(teams, g) > m)
    && (forall t :: t in teams ==> CountGender(teams, t.gender) > m)
  }

  /** The team order `getGraph` returns: gender blocks, or the gender arrangement around the Female teams. */
  ghost function OrderedTeams(teams: seq<Team>, m: int): seq<Team>
  {
    if GendersApart(teams, m) then FilterGender(teams, Male) + FilterGender(teams, Female) + FilterGender(teams, Else)
    else OrderedByGender(teams)
  }

  /**
   * The pairings `getGraph` makes for `teams` with `k` matches per team:
   * inside the team indexes, and either one circulant pattern per gender
   * block or one over all teams.
   */
  ghost predicate PairingGraph(teams: seq<Team>, k: nat, edges: Matching)
  {
    WithinTeams(edges, |teams|)
    && (GendersApart(teams, k) ==> Blocked(edges, GenderBounds(teams), k))
    && (!GendersApart(teams, k) ==> BlockEdges(edges, 0, |teams|, k))
  }

  /** Adding the pairings of one block leaves the pairings inside the other blocks as they were. */
  lemma OtherBlockUntouched(edges: Matching, add: Matching, lo: int, hi: int, lo': int, hi': int)
    requires forall e :: e in add ==> lo <= e.p1 < hi && lo <= e.p2 < hi
    requires hi <= lo' || hi' <= lo
    ensures Within(edges + add, lo', hi') == Within(edges, lo', hi')
  {
  }

  /** The teams of the first `k` genders of `GetAllGenders`, gender by gender. */
  function OrderedUpTo(teams: seq<Team>, k: nat): (r: seq<Team>)
    requires k <= 3
    ensures |r| == GenderBounds(teams)[k]
  {
    if k == 0 then [] else OrderedUpTo(teams, k - 1) + FilterGender(teams, GetAllGenders()[k - 1])
  }

  /** The state of the first loop of the split case after `k` genders. */
  ghost predicate SplitUpTo(teams: seq<Team>, k: nat, ordered: seq<Team>, currNode: int, nodesByGender: map<Gender, seq<int>>)
    requires k <= 3
  {
    currNode == GenderBounds(teams)[k] && ordered == OrderedUpTo(teams, k)
    && (forall g :: g in nodesByGender <==> 0 <= g < k)
    && (forall g :: 0 <= g < k ==> nodesByGender[g] == Iota(GenderBounds(teams)[g], GenderBounds(teams)[g + 1]))
  }

  /** The body of the first loop of the split case: the teams of gender `k` and their nodes. */
  method SplitGender(teams: seq<Team>, k: nat, ordered: seq<Team>, currNode: int, nodesByGender: map<Gender, seq<int>>)
    returns (ordered': seq<Team>, currNode': int, nodesByGender': map<Gender, seq<int>>)
    requires k < 3 && SplitUpTo(teams, k, ordered, currNode, nodesByGender)
    ensures SplitUpTo(teams, k + 1, ordered', currNode', nodesByGender')
  {
    var all := GetAllGenders();
    var genderTeams := GetTeamsByGender(teams, all[k]);
    ordered' := ordered + genderTeams;
    var block := NodeRange(currNode, currNode + |genderTeams|);
    nodesByGender' := nodesByGender[all[k] := block];
    currNode' := currNode + |genderTeams|;
  }

  /** The first loop of the split case: the teams of each gender and their node ranges. */
  method SplitByGender(teams: seq<Team>) returns (ordered: seq<Team>, nodesByGender: map<Gender, seq<int>>)
    ensures ordered == FilterGender(teams, Male) + FilterGender(teams, Female) + FilterGender(teams, Else)
    ensures forall g :: g in nodesByGender <==> KnownGender(g)
    ensures forall g :: KnownGender(g) ==> nodesByGender[g] == Iota(GenderBounds(teams)[g], GenderBounds(teams)[g + 1])
  {
    var all := GetAllGenders();
    ordered := [];
    nodesByGender := map[];
    var currNode := 0;
    for k := 0 to |all|
      invariant SplitUpTo(teams, k, ordered, currNode, nodesByGender)
    {
      ordered, currNode, nodesByGender := SplitGender(teams, k, ordered, currNode, nodesByGender);
    }
    assert OrderedUpTo(teams, 1) == FilterGender(teams, Male);
    assert OrderedUpTo(teams, 2) == FilterGender(teams, Male) + FilterGender(teams, Female);
  }

  /** The second loop of the split case: `makeEdges` on each gender's nodes, in any order of the genders. */
  method BlockPairings(teams: seq<Team>, nodesByGender: map<Gender, seq<int>>, k: nat) returns (edges: Matching)
    requires forall g :: g in nodesByGender <==> KnownGender(g)
    requires forall g :: KnownGender(g) ==> nodesByGender[g] == Iota(GenderBounds(teams)[g], GenderBounds(teams)[g + 1])
    ensures Blocked(edges, GenderBounds(teams), k)
  {
    var bounds := GenderBounds(teams);
    edges := {};
    var rest := nodesByGender.Keys;
    while rest != {}
      invariant rest <= nodesByGender.Keys && PartlyBlocked(edges, bounds, k, rest)
      decreases |rest|
    {
      ghost var w := Pick(rest);
      var g :| g in rest;
      edges := GenderBlock(edges, nodesByGender[g], bounds, g, k, rest);
      rest := rest - {g};
    }
    DoneBlocked(edges, bounds, k);
  }

  /** The body of the second loop of the split case: `makeEdges` on the nodes of gender `g`, added to the pairings. */
  method GenderBlock(edges: Matching, nodes: seq<int>, bounds: seq<int>, g: int, k: nat, ghost rest: set<int>) returns (edges': Matching)
    requires |bounds| == 4 && bounds[0] <= bounds[1] <= bounds[2] <= bounds[3] && 0 <= g < 3 && g in rest
    requires nodes == Iota(bounds[g], bounds[g + 1]) && PartlyBlocked(edges, bounds, k, rest)
    ensures PartlyBlocked(edges', bounds, k, rest - {g})
  {
    IotaDistinct(bounds[g], bounds[g + 1]);
    var add := MakeEdges(nodes, k);
    AddBlock(edges, add, bounds, g, k, rest);
    edges' := edges + add;
  }

  lemma DoneBlocked(edges: Matching, bounds: seq<int>, k: nat)
    requires |bounds| == 4 && bounds[0] <= bounds[1] <= bounds[2] <= bounds[3]
    requires PartlyBlocked(edges, bounds, k, {})
    ensures Blocked(edges, bounds, k)
  {
  }

  /**
   * Part way through `BlockPairings`: the genders in `rest` are still to
   * come and have no pairings yet; every pairing so far lies in the block
   * of a finished gender, and each finished block holds `makeEdges` of its nodes.
   */
  ghost predicate PartlyBlocked(edges: Matching, bounds: seq<int>, k: nat, rest: set<int>)
    requires |bounds| == 4 && bounds[0] <= bounds[1] <= bounds[2] <= bounds[3]
  {
    (forall e :: e in edges ==> exists h :: 0 <= h < 3 && h !in rest && e in Within(edges, bounds[h], bounds[h + 1]))
    && (forall h :: 0 <= h < 3 && h !in rest ==> BlockEdges(Within(edges, bounds[h], bounds[h + 1]), bounds[h], bounds[h + 1], k))
    && (forall h :: 0 <= h < 3 && h in rest ==> Within(edges, bounds[h], bounds[h + 1]) == {})
  }

  /** One step of `BlockPairings`: the new block's pairings fill exactly its own range. */
  lemma AddBlock(edges: Matching, add: Matching, bounds: seq<int>, g: int, k: nat, rest: set<int>)
    requires |bounds| == 4 && bounds[0] <= bounds[1] <= bounds[2] <= bounds[3] && 0 <= g < 3 && g in rest
    requires PartlyBlocked(edges, bounds, k, rest) && BlockEdges(add, bounds[g], bounds[g + 1], k)
    ensures PartlyBlocked(edges + add, bounds, k, rest - {g})
  {
    assert forall e :: e in add ==> bounds[g] <= e.p1 < bounds[g + 1] && bounds[g] <= e.p2 < bounds[g + 1];
    BlocksAfterAdd(edges, add, bounds, g);
    AddBlockCovers(edges, add, bounds, g, rest);
    AddBlockFills(edges, add, bounds, g, k, rest);
  }

  /** After `AddBlock`, every pairing still lies in the block of a finished gender. */
  lemma AddBlockCovers(edges: Matching, add: Matching, bounds: seq<int>, g: int, rest: set<int>)
    requires |bounds| == 4 && bounds[0] <= bounds[1] <= bounds[2] <= bounds[3] && 0 <= g < 3
    requires forall e :: e in edges ==> exists h :: 0 <= h < 3 && h !in rest && e in Within(edges, bounds[h], bounds[h + 1])
    requires forall h :: 0 <= h < 3 ==>
      Within(edges + add, bounds[h], bounds[h + 1]) == if h == g then add else Within(edges, bounds[h], bounds[h + 1])
    ensures forall e :: e in edges + add ==> exists h :: 0 <= h < 3 && h !in rest - {g} && e in Within(edges + add, bounds[h], bounds[h + 1])
  {
    forall e | e in edges + add
      ensures exists h :: 0 <= h < 3 && h !in rest - {g} && e in Within(edges + add, bounds[h], bounds[h + 1])
    {
      if e in add {
        assert e in Within(edges + add, bounds[g], bounds[g + 1]);
      } else {
        var h :| 0 <= h < 3 && h !in rest && e in Within(edges, bounds[h], bounds[h + 1]);
        assert e in Within(edges + add, bounds[h], bounds[h + 1]);
      }
    }
  }

  /** After `AddBlock`, the finished blocks hold `makeEdges` of their nodes and the others stay empty. */
  lemma AddBlockFills(edges: Matching, add: Matching, bounds: seq<int>, g: int, k: nat, rest: set<int>)
    requires |bounds| == 4 && bounds[0] <= bounds[1] <= bounds[2] <= bounds[3] && 0 <= g < 3
    requires forall h :: 0 <= h < 3 && h !in rest ==> BlockEdges(Within(edges, bounds[h], bounds[h + 1]), bounds[h], bounds[h + 1], k)
    requires forall h :: 0 <= h < 3 && h in rest ==> Within(edges, bounds[h], bounds[h + 1]) == {}
    requires BlockEdges(add, bounds[g], bounds[g + 1], k)
    requires forall h :: 0 <= h < 3 ==>
      Within(edges + add, bounds[h], bounds[h + 1]) == if h == g then add else Within(edges, bounds[h], bounds[h + 1])
    ensures forall h :: 0 <= h < 3 && h !in rest - {g} ==> BlockEdges(Within(edges + add, bounds[h], bounds[h + 1]), bounds[h], bounds[h + 1], k)
    ensures forall h :: 0 <= h < 3 && h in rest - {g} ==> Within(edges + add, bounds[h], bounds[h + 1]) == {}
  {
    forall h | 0 <= h < 3 && h !in rest - {g}
      ensures BlockEdges(Within(edges + add, bounds[h], bounds[h + 1]), bounds[h], bounds[h + 1], k)
    {
      if h != g {
        assert Within(edges + add, bounds[h], bounds[h + 1]) == Within(edges, bounds[h], bounds[h + 1]);
      }
    }
  }

  /** Adding a block's pairings to a block that was empty: that block now holds them, the others are unchanged. */
  lemma BlocksAfterAdd(edges: Matching, add: Matching, bounds: seq<int>, g: int)
    requires |bounds| == 4 && bounds[0] <= bounds[1] <= bounds[2] <= bounds[3] && 0 <= g < 3
    requires Within(edges, bounds[g], bounds[g + 1]) == {}
    requires forall e :: e in add ==> bounds[g] <= e.p1 < bounds[g + 1] && bounds[g] <= e.p2 < bounds[g + 1]
    ensures forall h :: 0 <= h < 3 ==>
      Within(edges + add, bounds[h], bounds[h + 1]) == if h == g then add else Within(edges, bounds[h], bounds[h + 1])
  {
    forall h | 0 <= h < 3 && h != g
      ensures Within(edges + add, bounds[h], bounds[h + 1]) == Within(edges, bounds[h], bounds[h + 1])
    {
      OtherBlockUntouched(edges, add, bounds[g], bounds[g + 1], bounds[h], bounds[h + 1]);
    }
    forall e | e in Within(edges + add, bounds[g], bounds[g + 1]) ensures e in add {
      assert e !in Within(edges, bounds[g], bounds[g + 1]);
    }
  }

  /** The gender blocks lie inside the team indexes. */
  lemma BlockedWithinTeams(teams: seq<Team>, edges: Matching, k: nat)
    requires Blocked(edges, GenderBounds(teams), k)
    ensures WithinTeams(edges, |teams|)
  {
    var bounds := GenderBounds(teams);
    CountsWithinTeams(teams);
    forall e | e in edges ensures 0 <= e.p1 < e.p2 < |teams| {
      var g :| 0 <= g < 3 && e in Within(edges, bounds[g], bounds[g + 1]);
      assert BlockEdges(Within(edges, bounds[g], bounds[g + 1]), bounds[g], bounds[g + 1], k);
      IotaMembers(bounds[g], bounds[g + 1]);
    }
  }

  /** The last loop of `getGraph`: both directions of every pairing go into the graph. */
  method AddAll(graph: Graph, edges: Matching)
    requires graph.nodes == map[]
    modifies graph
    ensures Symmetric(graph.nodes) && Arcs(graph.nodes) == ArcsOf(edges)
  {
    var rest := edges;
    ghost var done: Matching := {};
    while rest != {}
      invariant done <= edges && rest == edges - done
      invariant Symmetric(graph.nodes) && Arcs(graph.nodes) == ArcsOf(done)
      decreases |rest|
    {
      ghost var w := Pick(rest);
      var e :| e in rest;
      ghost var before := graph.nodes;
      graph.AddEdge(e);
      AddEdgeSymmetric(before, graph.nodes, e);
      ArcsOfStep(done, e);
      rest := rest - {e};
      done := done + {e};
    }
    assert done == edges;
  }

  lemma ArcsOfStep(m: Matching, e: Edge)
    ensures ArcsOf(m + {e}) == ArcsOf(m) + {(e.p1, e.p2), (e.p2, e.p1)}
  {
  }

  /** A graph holding both directions of pairings that join two different nodes has no self-loops. */
  lemma NoLoopArcs(adj: Adjacency, edges: Matching)
    requires Arcs(adj) == ArcsOf(edges) && forall e :: e in edges ==> e.p1 != e.p2
    ensures NoSelfLoops(adj)
  {
    forall u | u in adj ensures u !in adj[u] {
      assert (u, u) !in ArcsOf(edges);
    }
  }

  /**
   * `getGraph`: when every gender can fill its teams' games on its own,
   * the teams are numbered gender by gender and each gender gets its own
   * circulant pattern, so every pairing joins two teams of the same gender;
   * otherwise one circulant pattern covers all teams in the order of
   * `orderTeamsByGender`. The graph holds both directions of exactly these
   * pairings.
   */
  method GetGraph(teams: seq<Team>, matchesPerTeam: nat) returns (graph: Graph, teamsOrdered: seq<Team>, ghost edges: Matching)
    ensures fresh(graph)
    ensures Symmetric(graph.nodes) && NoSelfLoops(graph.nodes) && Arcs(graph.nodes) == ArcsOf(edges)
    ensures teamsOrdered == OrderedTeams(teams, matchesPerTeam)
    ensures PairingGraph(teams, matchesPerTeam, edges)
    ensures (forall t :: t in teams ==> KnownGender(t.gender)) ==> |teamsOrdered| == |teams|
  {
    graph := new Graph();
    var allMatches: Matching;
    var split := CanAllGendersPlayOnlyAgainstEachOther(teams, matchesPerTeam);
    if split {
      var nodesByGender;
      teamsOrdered, nodesByGender := SplitByGender(teams);
      allMatches := BlockPairings(teams, nodesByGender, matchesPerTeam);
      BlockedWithinTeams(teams, allMatches, matchesPerTeam);
      if forall t :: t in teams ==> KnownGender(t.gender) {
        CountsCoverTeams(teams);
      }
    } else {
      var nodes := NodeRange(0, |teams|);
      IotaDistinct(0, |teams|);
      allMatches := MakeEdges(nodes, matchesPerTeam);
      IotaMembers(0, |teams|);
      teamsOrdered := OrderTeamsByGender(teams);
      if forall t :: t in teams ==> KnownGender(t.gender) {
        OrderKeepsAllKnown(teams);
      }
    }
    AddAll(graph, allMatches);
    edges := allMatches;
    NoLoopArcs(graph.nodes, edges);
  }

  // ----- MakeTournament -----

  /**
   * The number of rounds `MakeTournament` asks for: `maxRounds`, or one
   * fewer when `ceil(matchesPerTurn) * maxRounds - 1` exceeds the total.
   */
  function RoundsNumber(maxRounds: int, d: Feasibility.Draw): int
  {
    if Feasibility.Ceil(d.matchesPerTurn) * maxRounds - 1 > d.totalMatches then maxRounds - 1 else maxRounds
  }

  /** Rounds of at most `maxPer` pairings each hold at most `|rounds| * maxPer` pairings. */
  lemma {:induction false} TotalSizeBound(rounds: seq<Matching>, maxPer: int)
    requires forall i :: 0 <= i < |rounds| ==> |rounds[i]| <= maxPer
    ensures TotalSize(rounds) <= |rounds| * maxPer
    decreases |rounds|
  {
    if rounds != [] {
      var init := rounds[..|rounds| - 1];
      TotalSizeBound(init, maxPer);
      assert |rounds| * maxPer == |init| * maxPer + maxPer;
    }
  }

  /**
   * As written the cut can drop a round the matches need: 7 teams, 3 rounds
   * and 3 courts give 7 matches of 2 per team, `ceil(7 / 3) * 3 - 1 = 8 > 7`
   * cuts the rounds to 2, and 2 rounds of at most 3 matches cannot hold 7,
   * so validation rejects every schedule.
   */
  lemma RoundsNumberTooFew()
    ensures var d := Feasibility.BestDraw(7, 3, 3, true);
      d == Feasibility.Draw(7, 7.0 / 3.0, 2) && Feasibility.Ceil(d.matchesPerTurn) == 3 && RoundsNumber(3, d) == 2
      && forall rounds :: !ValidSchedule(rounds, RoundsNumber(3, d), Feasibility.Ceil(d.matchesPerTurn), d.totalMatches, d.matchesPerTeam)
  {
    var d := Feasibility.BestDraw(7, 3, 3, true);
    assert !Feasibility.Fits(7, 3, 3, 3, true);
    assert d == Feasibility.Draw(7, 7.0 / 3.0, 2);
    assert (7.0 / 3.0).Floor == 2;
    forall rounds | ValidSchedule(rounds, 2, 3, 7, 2) ensures false {
      TotalSizeBound(rounds, 3);
    }
  }

  /** The evidently intended cut: drop a round only when the others still hold every match. */
  function FittingRoundsNumber(maxRounds: int, d: Feasibility.Draw): int
  {
    if Feasibility.Ceil(d.matchesPerTurn) * (maxRounds - 1) >= d.totalMatches then maxRounds - 1 else maxRounds
  }

  /** `ceil(t / r)` matches in each of `r` rounds make room for `t`. */
  lemma CeilCapacity(t: int, r: int)
    requires r > 0
    ensures Feasibility.Ceil((t as real) / (r as real)) * r >= t
  {
    var x := (t as real) / (r as real);
    var c := Feasibility.Ceil(x);
    assert x * (r as real) == t as real;
    assert (c as real) * (r as real) >= x * (r as real);
    assert ((c * r) as real) == (c as real) * (r as real);
  }

  /**
   * With the intended cut the rounds always have room for every match at
   * `ceil(matchesPerTurn)` per round, and a round is dropped exactly when
   * the others have that room.
   */
  lemma FittingRoundsHoldAll(n: nat, maxRounds: int, courts: int)
    ensures var d := Feasibility.BestDraw(n, maxRounds, courts, true); var rn := FittingRoundsNumber(maxRounds, d);
      d.totalMatches > 0 ==>
        (1 <= rn <= maxRounds
         && Feasibility.Ceil(d.matchesPerTurn) * rn >= d.totalMatches
         && (rn == maxRounds - 1 <==> Feasibility.Ceil(d.matchesPerTurn) * (maxRounds - 1) >= d.totalMatches))
  {
    var d := Feasibility.BestDraw(n, maxRounds, courts, true);
    if d.totalMatches > 0 {
      assert d.matchesPerTeam != 0;
      var c := Feasibility.Ceil(d.matchesPerTurn);
      CeilCapacity(d.totalMatches, maxRounds);
      assert c >= 1;
    }
  }

  /** The intended cut keeps the 3 rounds the 7-team case needs. */
  lemma FittingRoundsSevenTeams()
    ensures FittingRoundsNumber(3, Feasibility.BestDraw(7, 3, 3, true)) == 3
  {
    RoundsNumberTooFew();
  }

  /** The loop that looks for an empty round. */
  method NoRoundIsEmpty(rounds: seq<Matching>) returns (b: bool)
    ensures b <==> forall k :: 0 <= k < |rounds| ==> rounds[k] != {}
  {
    b := true;
    var i := 0;
    while i < |rounds|
      invariant 0 <= i <= |rounds|
      invariant forall k :: 0 <= k < i ==> rounds[k] != {}
    {
      if rounds[i] == {} {
        b := false;
        break;
      }
      i := i + 1;
    }
  }

  /** Every pairing of every round is an edge of `adj`. */
  ghost predicate FromGraph(rounds: seq<Matching>, adj: Adjacency)
  {
    forall k, e :: 0 <= k < |rounds| && e in rounds[k] ==> Adjacent(adj, e.p1, e.p2)
  }

  /**
   * The rounds `MakeTournament` validates: the greedy rounds when there are
   * `roundsNumber` of them and none is empty, the exhaustive search's rounds
   * otherwise. Either way there are `roundsNumber` rounds, each a matching
   * of graph edges within the per-round limit. On failure no assignment of
   * the graph's pairings (`packed`, in the orientation the search lists
   * them) into `roundsNumber` rounds exists.
   */
  method ScheduleRounds(graph: Graph, matchesPerTurn: real, roundsNumber: int)
    returns (res: Result<seq<Matching>>, ghost packed: set<Edge>)
    requires Symmetric(graph.nodes) && NoSelfLoops(graph.nodes) && roundsNumber >= 0
    ensures res.Ok? ==> |res.value| == roundsNumber && FromGraph(res.value, graph.nodes)
    ensures res.Ok? ==> forall k :: 0 <= k < |res.value| ==>
      IsMatching(res.value[k]) && (Feasibility.Ceil(matchesPerTurn) < 1 || |res.value[k]| <= Feasibility.Ceil(matchesPerTurn))
    ensures res.Err? ==> (res.error == "could not find valid matchings with the given parameters"
      && Backtracking.EdgesOf(packed, graph.nodes)
      && forall s :: !Backtracking.Packing(s, Backtracking.EmptyBuckets(roundsNumber), packed, Feasibility.Ceil(matchesPerTurn)))
  {
    packed := {};
    var copy := graph.GetCopy();
    var greedy := Heuristic.MakeMatchingsHeuristic(copy, matchesPerTurn, roundsNumber);
    var noRoundsAreEmpty := NoRoundIsEmpty(greedy);
    if noRoundsAreEmpty && |greedy| == roundsNumber {
      return Ok(greedy), packed;
    }
    var r;
    r, packed := Backtracking.MakeMatchingsBacktracking(graph, matchesPerTurn, roundsNumber);
    if r.Err? {
      return Err(r.error), packed;
    }
    forall k, e | 0 <= k < |r.value| && e in r.value[k] ensures Adjacent(graph.nodes, e.p1, e.p2) {
      assert e in r.value[k] - Backtracking.EmptyBuckets(roundsNumber)[k];
    }
    return Ok(r.value), packed;
  }

  /** The pairings of the rounds are pairings of the graph, so their nodes are team indexes. */
  lemma RoundsWithinTeams(rounds: seq<Matching>, adj: Adjacency, edges: Matching, n: int)
    requires FromGraph(rounds, adj) && Arcs(adj) == ArcsOf(edges) && WithinTeams(edges, n)
    ensures forall k, e :: 0 <= k < |rounds| && e in rounds[k] ==> (e in edges || Edge(e.p2, e.p1) in edges)
    ensures forall k, e :: 0 <= k < |rounds| && e in rounds[k] ==> 0 <= e.p1 < n && 0 <= e.p2 < n
    ensures forall v :: Played(rounds, v) ==> 0 <= v < n
  {
    forall k, e | 0 <= k < |rounds| && e in rounds[k] ensures e in edges || Edge(e.p2, e.p1) in edges {
      assert (e.p1, e.p2) in Arcs(adj);
    }
  }

  /**
   * The matches of one round list its pairings in the order `order`, each
   * pairing once, with the teams looked up by node, status scheduled and
   * courts numbered from 1.
   */
  ghost predicate ListsRound(matches: seq<Match>, round: Matching, teams: seq<Team>, order: seq<Edge>, firstCourt: int)
  {
    |order| == |matches| == |round|
    && (forall e :: e in order <==> e in round)
    && (forall i, j :: 0 <= i < j < |order| ==> order[i] != order[j])
    && forall j :: 0 <= j < |order| ==>
      0 <= order[j].p1 < |teams| && 0 <= order[j].p2 < |teams|
      && matches[j] == Match(teams[order[j].p1], teams[order[j].p2], MatchScheduled, firstCourt + j)
  }

  /**
   * The inner loop of `MakeTournament`: one match per pairing, in any
   * order, courts numbered from `firstCourt` (1 here, 0 in the older
   * snapshot).
   */
  method MatchesOfRound(round: Matching, teams: seq<Team>, firstCourt: int) returns (matches: seq<Match>, ghost order: seq<Edge>)
    requires forall e :: e in round ==> 0 <= e.p1 < |teams| && 0 <= e.p2 < |teams|
    ensures ListsRound(matches, round, teams, order, firstCourt)
  {
    matches, order := [], [];
    var rest := round;
    var currCourt := firstCourt;
    while rest != {}
      invariant rest <= round && currCourt == firstCourt + |matches| && |order| == |matches|
      invariant |order| + |rest| == |round|
      invariant forall e :: e in order <==> e in round && e !in rest
      invariant forall i, j :: 0 <= i < j < |order| ==> order[i] != order[j]
      invariant forall j :: 0 <= j < |order| ==>
        0 <= order[j].p1 < |teams| && 0 <= order[j].p2 < |teams|
        && matches[j] == Match(teams[order[j].p1], teams[order[j].p2], MatchScheduled, firstCourt + j)
      decreases |rest|
    {
      ghost var w := Pick(rest);
      var edge :| edge in rest;
      var m := Match(teams[edge.p1], teams[edge.p2], MatchScheduled, currCourt);
      currCourt := currCourt + 1;
      matches := matches + [m];
      order := order + [edge];
      rest := rest - {edge};
    }
  }

  /** The outer loop of `MakeTournament`: one list of matches per round. */
  method MatchesOfRounds(rounds: seq<Matching>, teams: seq<Team>, firstCourt: int) returns (turns: seq<seq<Match>>, ghost orders: seq<seq<Edge>>)
    requires forall k, e :: 0 <= k < |rounds| && e in rounds[k] ==> 0 <= e.p1 < |teams| && 0 <= e.p2 < |teams|
    ensures |turns| == |orders| == |rounds|
    ensures forall k :: 0 <= k < |rounds| ==> ListsRound(turns[k], rounds[k], teams, orders[k], firstCourt)
  {
    turns, orders := [], [];
    for k := 0 to |rounds|
      invariant |turns| == |orders| == k
      invariant forall j :: 0 <= j < k ==> ListsRound(turns[j], rounds[j], teams, orders[j], firstCourt)
    {
      var matches, order := MatchesOfRound(rounds[k], teams, firstCourt);
      turns := turns + [matches];
      orders := orders + [order];
    }
  }

  /** A message `validateTournamentRounds` can return for these teams. */
  ghost predicate ValidationMessage(msg: string, teams: seq<Team>)
  {
    exists err: ValidationError :: (forall v :: v in ErrorNodes(err) ==> 0 <= v < |teams|) && msg == ErrorText(err, teams)
  }

  /**
   * A tournament built from the draw `d` with `roundsNumber` rounds: the
   * rounds pass validation and use pairings of the pairing graph; the
   * Rodeo is named "Rodeo", starts on `dateStart`, keeps `getGraph`'s team
   * order and lists each round with courts numbered from 1.
   */
  ghost predicate Built(rodeo: Rodeo, teams: seq<Team>, d: Feasibility.Draw, roundsNumber: int, dateStart: Date,
                        rounds: seq<Matching>, edges: Matching, orders: seq<seq<Edge>>)
  {
    d.matchesPerTeam >= 0 && PairingGraph(teams, d.matchesPerTeam, edges)
    && ValidSchedule(rounds, roundsNumber, Feasibility.Ceil(d.matchesPerTurn), d.totalMatches, d.matchesPerTeam)
    && (forall k, e :: 0 <= k < |rounds| && e in rounds[k] ==> e in edges || Edge(e.p2, e.p1) in edges)
    && rodeo.name == "Rodeo" && rodeo.dateStart == dateStart
    && rodeo.teams == OrderedTeams(teams, d.matchesPerTeam) && |rodeo.teams| == |teams|
    && |rodeo.rounds| == |rounds| == |orders|
    && forall k :: 0 <= k < |rounds| ==> ListsRound(rodeo.rounds[k], rounds[k], rodeo.teams, orders[k], 1)
  }

  /**
   * Why no tournament came out of a usable draw: the exhaustive search
   * found no assignment of the pairings (`packed`) into the rounds, or the
   * chosen rounds failed validation and `msg` is the validation's message.
   */
  ghost predicate Refused(msg: string, teams: seq<Team>, d: Feasibility.Draw, roundsNumber: int,
                          rounds: seq<Matching>, packed: set<Edge>)
  {
    roundsNumber >= 0
    && ((msg == "could not find valid matchings with the given parameters"
         && forall s :: !Backtracking.Packing(s, Backtracking.EmptyBuckets(roundsNumber), packed, Feasibility.Ceil(d.matchesPerTurn)))
        || (!ValidSchedule(rounds, roundsNumber, Feasibility.Ceil(d.matchesPerTurn), d.totalMatches, d.matchesPerTeam)
            && ValidationMessage(msg, OrderedTeams(teams, d.matchesPerTeam))))
  }

  /** The part of `MakeTournament` after the draw: graph, rounds, validation, matches. */
  method BuildRodeo(teams: seq<Team>, d: Feasibility.Draw, roundsNumber: int, dateStart: Date)
    returns (r: Result<Rodeo>, ghost rounds: seq<Matching>, ghost edges: Matching, ghost packed: set<Edge>,
             ghost orders: seq<seq<Edge>>)
    requires forall t :: t in teams ==> KnownGender(t.gender)
    requires d.matchesPerTeam >= 0 && roundsNumber >= 0
    ensures r.Ok? ==> Built(r.value, teams, d, roundsNumber, dateStart, rounds, edges, orders)
    ensures r.Err? ==> Refused(r.error, teams, d, roundsNumber, rounds, packed)
  {
    rounds, orders := [], [];
    var graph, teamsOrdered;
    graph, teamsOrdered, edges := GetGraph(teams, d.matchesPerTeam);
    var res;
    res, packed := ScheduleRounds(graph, d.matchesPerTurn, roundsNumber);
    if res.Err? {
      return Err(res.error), rounds, edges, packed, orders;
    }
    var chosen := res.value;
    rounds := chosen;
    RoundsWithinTeams(rounds, graph.nodes, edges, |teams|);
    r, orders := ValidateAndList(chosen, teams, teamsOrdered, d, roundsNumber, dateStart, edges, packed);
  }

  /** The end of `MakeTournament`: validate the chosen rounds, then turn each into matches. */
  method ValidateAndList(chosen: seq<Matching>, teams: seq<Team>, teamsOrdered: seq<Team>, d: Feasibility.Draw,
                         roundsNumber: int, dateStart: Date, ghost edges: Matching, ghost packed: set<Edge>)
    returns (r: Result<Rodeo>, ghost orders: seq<seq<Edge>>)
    requires d.matchesPerTeam >= 0 && roundsNumber >= 0 && PairingGraph(teams, d.matchesPerTeam, edges)
    requires teamsOrdered == OrderedTeams(teams, d.matchesPerTeam) && |teamsOrdered| == |teams|
    requires forall k, e :: 0 <= k < |chosen| && e in chosen[k] ==> (e in edges || Edge(e.p2, e.p1) in edges)
    requires forall k, e :: 0 <= k < |chosen| && e in chosen[k] ==> 0 <= e.p1 < |teams| && 0 <= e.p2 < |teams|
    requires forall v :: Played(chosen, v) ==> 0 <= v < |teams|
    ensures r.Ok? ==> Built(r.value, teams, d, roundsNumber, dateStart, chosen, edges, orders)
    ensures r.Err? ==> Refused(r.error, teams, d, roundsNumber, chosen, packed)
  {
    orders := [];
    var err := ValidateTournamentRounds(chosen, roundsNumber, d.matchesPerTurn, d.totalMatches, d.matchesPerTeam);
    if err.Some? {
      var msg := ErrorText(err.value, teamsOrdered);
      assert ValidationMessage(msg, teamsOrdered);
      return Err(msg), orders;
    }
    var turns;
    turns, orders := MatchesOfRounds(chosen, teamsOrdered, 1);
    var rodeo := Rodeo("Rodeo", dateStart, teamsOrdered, turns);
    ShowBuilt(rodeo, teams, d, roundsNumber, dateStart, chosen, edges, orders);
    return Ok(rodeo), orders;
  }

  /** `Built`, conjunct by conjunct. */
  lemma ShowBuilt(rodeo: Rodeo, teams: seq<Team>, d: Feasibility.Draw, roundsNumber: int, dateStart: Date,
                  rounds: seq<Matching>, edges: Matching, orders: seq<seq<Edge>>)
    requires d.matchesPerTeam >= 0 && PairingGraph(teams, d.matchesPerTeam, edges)
    requires ValidSchedule(rounds, roundsNumber, Feasibility.Ceil(d.matchesPerTurn), d.totalMatches, d.matchesPerTeam)
    requires forall k, e :: 0 <= k < |rounds| && e in rounds[k] ==> e in edges || Edge(e.p2, e.p1) in edges
    requires rodeo.name == "Rodeo" && rodeo.dateStart == dateStart
    requires rodeo.teams == OrderedTeams(teams, d.matchesPerTeam) && |rodeo.teams| == |teams|
    requires |rodeo.rounds| == |rounds| == |orders|
    requires forall k :: 0 <= k < |rounds| ==> ListsRound(rodeo.rounds[k], rounds[k], rodeo.teams, orders[k], 1)
    ensures Built(rodeo, teams, d, roundsNumber, dateStart, rounds, edges, orders)
  {
  }

  /**
   * `MakeTournament`: no tournament when no draw fits; otherwise either a
   * Rodeo whose rounds passed validation for the draw and `RoundsNumber`
   * rounds (`Built`), or one of the two later failures (`Refused`).
   */
  method MakeTournament(rf: RodeoFactory, teams: seq<Team>, dateStart: Date)
    returns (r: Result<Rodeo>, ghost rounds: seq<Matching>, ghost edges: Matching, ghost packed: set<Edge>,
             ghost orders: seq<seq<Edge>>)
    requires forall t :: t in teams ==> KnownGender(t.gender)
    ensures var d := Feasibility.BestDraw(|teams|, rf.maxRounds, rf.availableCourts, true);
      d.totalMatches == 0 ==> r == Err("could not determine valid match parameters. Returning empty tournament")
    ensures var d := Feasibility.BestDraw(|teams|, rf.maxRounds, rf.availableCourts, true);
      r.Ok? ==> Built(r.value, teams, d, RoundsNumber(rf.maxRounds, d), dateStart, rounds, edges, orders)
    ensures var d := Feasibility.BestDraw(|teams|, rf.maxRounds, rf.availableCourts, true);
      r.Err? && d.totalMatches > 0 ==> Refused(r.error, teams, d, RoundsNumber(rf.maxRounds, d), rounds, packed)
  {
    var d := Feasibility.GetMatchesPerTeam(|teams|, rf.maxRounds, rf.availableCourts, true);
    var roundsNumber := RoundsNumber(rf.maxRounds, d);
    if d.totalMatches == 0 {
      return Err("could not determine valid match parameters. Returning empty tournament"), [], {}, {}, [];
    }
    r, rounds, edges, packed, orders := BuildRodeo(teams, d, roundsNumber, dateStart);
  }
}

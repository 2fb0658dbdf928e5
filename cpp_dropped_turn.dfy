/**
 * Why `make_tournament` can leave a team without a single match.
 *
 * The search replaces the greedy rounds only when the graph still holds an
 * edge. But the greedy walk takes an edge out of the graph as soon as it
 * puts it into the open round, and drops that round when it is still short
 * of the per-round limit and is not the last wanted round. For 10 teams, 4
 * rounds and 2 courts the draw is one match per team, the graph is the
 * perfect matching `{i, i + 5}`, the greedy rounds hold two pairings each and
 * the fifth pairing sits in a dropped round: the graph is empty, no search
 * runs, and two teams never play.
 */
module CppDroppedTurn {
  import opened Domain
  import opened Cardinality
  import opened Graphs
  import opened Circulant
  import opened Feasibility
  import opened CppGreedy
  import opened Heuristic
  import opened Backtracking
  import opened CppFactory

  /** The teams met by the first `n` rounds. */
  function PlayedUpTo(rounds: seq<Matching>, n: nat): set<int>
    requires n <= |rounds|
  {
    if n == 0 then {} else PlayedUpTo(rounds, n - 1) + Endpoints(rounds[n - 1])
  }

  /** The number of pairings in the first `n` rounds. */
  function PairsUpTo(rounds: seq<Matching>, n: nat): nat
    requires n <= |rounds|
  {
    if n == 0 then 0 else PairsUpTo(rounds, n - 1) + |rounds[n - 1]|
  }

  /** No team plays in two different rounds. */
  ghost predicate Apart(rounds: seq<Matching>)
  {
    forall k, k', e, f :: 0 <= k < k' < |rounds| && e in rounds[k] && f in rounds[k'] ==>
      !Touches(f, e.p1) && !Touches(f, e.p2)
  }

  /** Team `x` is in no pairing of any round. */
  ghost predicate NeverPlays(rounds: seq<Matching>, x: int)
  {
    forall k, e :: 0 <= k < |rounds| && e in rounds[k] ==> !Touches(e, x)
  }

  /** Taking one pairing out of a loop-free matching leaves a loop-free matching that misses both its teams. */
  lemma MatchingWithout(m: Matching, e: Edge)
    requires IsMatching(m) && NoLoops(m) && e in m
    ensures IsMatching(m - {e}) && NoLoops(m - {e}) && |m - {e}| == |m| - 1
    ensures e.p1 != e.p2 && e.p1 !in Endpoints(m - {e}) && e.p2 !in Endpoints(m - {e})
  {
    forall f | f in m - {e} ensures !Touches(f, e.p1) && !Touches(f, e.p2) {
    }
  }

  /** A loop-free matching meets twice as many teams as it has pairings. */
  lemma {:induction false} EndpointsSize(m: Matching)
    requires IsMatching(m) && NoLoops(m)
    ensures |Endpoints(m)| == 2 * |m|
    decreases |m|
  {
    if m != {} {
      var e := Pick(m);
      var rest := m - {e};
      MatchingWithout(m, e);
      EndpointsSize(rest);
      EndpointsAdd(rest, e);
      assert rest + {e} == m;
    }
  }

  /** Adding a pairing of two new teams adds two teams. */
  lemma EndpointsAdd(m: Matching, e: Edge)
    requires IsMatching(m) && e.p1 != e.p2 && e.p1 !in Endpoints(m) && e.p2 !in Endpoints(m)
    ensures |Endpoints(m + {e})| == |Endpoints(m)| + 2 && |m + {e}| == |m| + 1
  {
    AddToMatching(m, e);
    DisjointUnionSize(Endpoints(m), {e.p1, e.p2});
  }

  /** Both teams of a pairing in one of the first `n` rounds are met by those rounds. */
  lemma {:induction false} PlayedHas(rounds: seq<Matching>, n: nat, k: int, e: Edge)
    requires n <= |rounds| && 0 <= k < n && e in rounds[k]
    ensures e.p1 in PlayedUpTo(rounds, n) && e.p2 in PlayedUpTo(rounds, n)
    decreases n
  {
    if k < n - 1 {
      PlayedHas(rounds, n - 1, k, e);
    }
  }

  /** Every team met by the first `n` rounds plays a pairing of one of them. */
  lemma {:induction false} PlayedFrom(rounds: seq<Matching>, n: nat, x: int)
    requires n <= |rounds| && x in PlayedUpTo(rounds, n)
    ensures exists k, e :: 0 <= k < n && e in rounds[k] && Touches(e, x)
    decreases n
  {
    var m := rounds[n - 1];
    if x in (set e | e in m :: e.p1) {
      var e :| e in m && e.p1 == x;
      assert Touches(e, x);
    } else if x in (set e | e in m :: e.p2) {
      var e :| e in m && e.p2 == x;
      assert Touches(e, x);
    } else {
      PlayedFrom(rounds, n - 1, x);
      var k, e :| 0 <= k < n - 1 && e in rounds[k] && Touches(e, x);
    }
  }

  /** A team met by the first `n - 1` rounds is not in round `n - 1` when no team plays in two rounds. */
  lemma NotInLater(rounds: seq<Matching>, n: nat, x: int)
    requires 0 < n <= |rounds| && Apart(rounds)
    requires x in PlayedUpTo(rounds, n - 1)
    ensures x !in Endpoints(rounds[n - 1])
  {
    PlayedFrom(rounds, n - 1, x);
    var k, e :| 0 <= k < n - 1 && e in rounds[k] && Touches(e, x);
    forall f | f in rounds[n - 1] ensures f.p1 != x && f.p2 != x {
      assert !Touches(f, e.p1) && !Touches(f, e.p2);
    }
  }

  lemma DisjointUnionSize(a: set<int>, b: set<int>)
    requires a !! b
    ensures |a + b| == |a| + |b|
  {
  }

  /** Round `j` meets two new teams per pairing. */
  ghost predicate FreshRound(rounds: seq<Matching>, j: int)
    requires 0 <= j < |rounds|
  {
    PlayedUpTo(rounds, j) !! Endpoints(rounds[j]) && |Endpoints(rounds[j])| == 2 * |rounds[j]|
  }

  /** When no team plays twice, the teams met are twice the pairings. */
  lemma {:induction false} PlayedCount(rounds: seq<Matching>, n: nat)
    requires n <= |rounds|
    requires forall j :: 0 <= j < |rounds| ==> FreshRound(rounds, j)
    ensures |PlayedUpTo(rounds, n)| == 2 * PairsUpTo(rounds, n)
    decreases n
  {
    if n > 0 {
      PlayedCount(rounds, n - 1);
      assert FreshRound(rounds, n - 1);
      DisjointUnionSize(PlayedUpTo(rounds, n - 1), Endpoints(rounds[n - 1]));
    }
  }

  /**
   * On a graph where each team has at most one partner, rounds that never
   * repeat a pairing never let a team play twice.
   */
  lemma ApartFromDegree(g0: Adjacency, after: Adjacency, rounds: seq<Matching>)
    requires DegreeAtMostOne(g0) && Symmetric(g0)
    requires Scheduled(g0, after, rounds) && NoRepeats(rounds)
    ensures Apart(rounds)
  {
    forall k, k', e, f | 0 <= k < k' < |rounds| && e in rounds[k] && f in rounds[k']
      ensures !Touches(f, e.p1) && !Touches(f, e.p2)
    {
      assert Adjacent(g0, e.p1, e.p2) && Adjacent(g0, f.p1, f.p2);
      assert Adjacent(g0, e.p2, e.p1) && Adjacent(g0, f.p2, f.p1);
      assert !SamePair(e, f);
    }
  }

  /** Rounds that keep to a per-round limit of two hold at most two pairings each. */
  lemma {:induction false} PairsAtMostTwice(rounds: seq<Matching>, n: nat)
    requires n <= |rounds|
    requires forall k :: 0 <= k < |rounds| ==> |rounds[k]| <= 2
    ensures PairsUpTo(rounds, n) <= 2 * n
    decreases n
  {
    if n > 0 {
      PairsAtMostTwice(rounds, n - 1);
    }
  }

  /** Rounds of two pairings up to the fourth: three rounds hold six pairings or more. */
  lemma {:induction false} ThreeFullRounds(rounds: seq<Matching>, n: nat)
    requires n <= |rounds|
    requires ShortOnlyLast(rounds, 2, 4)
    ensures n >= 3 ==> PairsUpTo(rounds, n) >= 6
    decreases n
  {
    if n > 3 {
      ThreeFullRounds(rounds, n - 1);
    } else if n == 3 {
      assert |rounds[0]| == 2 && |rounds[1]| == 2 && |rounds[2]| == 2;
      assert PairsUpTo(rounds, 1) == 2;
      assert PairsUpTo(rounds, 2) == 4;
    }
  }

  /** A set smaller than another misses one of its elements. */
  lemma MissingElement(small: set<int>, big: set<int>) returns (x: int)
    requires |small| < |big|
    ensures x in big && x !in small
  {
    if forall y :: y in big ==> y in small {
      SubsetSize(big, small);
      assert false;
    }
    x :| x in big && x !in small;
  }

  /** For ten teams and one match each, a team's only partner sits five places round the circle. */
  lemma OnlyPartner(edges: Matching, u: int, v: int)
    requires EdgesFor(10, 1, edges)
    requires v in NeighboursIn(edges, u)
    ensures v == (if u < 5 then u + 5 else u - 5)
  {
    var e :| e in edges && ((e.p1 == u && e.p2 == v) || (e.p1 == v && e.p2 == u));
    var nodes := Iota(10);
    assert e.p1 in nodes && e.p2 in nodes && e.p1 < e.p2;
    assert nodes[e.p1] == e.p1 && nodes[e.p2] == e.p2;
    assert Canonical(nodes[e.p1], nodes[e.p2]) == e;
    assert Offset(10, 1, Dist(10, e.p1, e.p2));
  }

  /** The draw for ten teams, four rounds and two courts: five matches, two courts per round. */
  lemma TenTeamsDraw()
    ensures BestDraw(10, 4, 2, false) == Draw(5, 1.25, 1)
    ensures Ceil(1.25) == 2
  {
    assert !Fits(10, 4, 2, 4, false);
    assert !Fits(10, 4, 2, 3, false);
    assert !Fits(10, 4, 2, 2, false);
    assert Fits(10, 4, 2, 1, false);
    assert (1.25).Floor == 1;
  }

  /**
   * `RodeoFactory(4, 2).make_tournament` on ten teams, as written: whatever
   * rounds it returns, some team index appears in none of them.
   */
  lemma SomeTeamNeverPlays(t: Trace)
    requires AsWritten(10, 4, 2, t)
    ensures exists x :: 0 <= x < 10 && NeverPlays(t.rounds, x)
  {
    TenTeamsGreedy(t);
    var x := GreedyMissesATeam(t.g0, t.after, t.rounds);
  }

  /**
   * Rounds of at most two pairings, all full but the fourth, drawn without
   * repeats from a perfect matching of ten teams, leave a team out.
   */
  lemma {:induction false} GreedyMissesATeam(g0: Adjacency, after: Adjacency, rounds: seq<Matching>)
    returns (x: int)
    requires DegreeAtMostOne(g0) && Symmetric(g0) && RoundsWithin(rounds, 10)
    requires Scheduled(g0, after, rounds) && NoRepeats(rounds)
    requires ShortOnlyLast(rounds, 2, 4)
    requires forall k :: 0 <= k < |rounds| ==> IsMatching(rounds[k]) && NoLoops(rounds[k]) && |rounds[k]| <= 2
    ensures 0 <= x < 10 && NeverPlays(rounds, x)
  {
    PlayedTwicePairs(g0, after, rounds);
    x := TooFewPairs(rounds);
  }

  /**
   * Rounds meeting two teams per pairing, at most two pairings each and all
   * full but the fourth, cannot meet all ten teams.
   */
  lemma {:induction false} TooFewPairs(rounds: seq<Matching>) returns (x: int)
    requires RoundsWithin(rounds, 10) && ShortOnlyLast(rounds, 2, 4)
    requires |PlayedUpTo(rounds, |rounds|)| == 2 * PairsUpTo(rounds, |rounds|)
    requires forall k :: 0 <= k < |rounds| ==> |rounds[k]| <= 2
    ensures 0 <= x < 10 && NeverPlays(rounds, x)
  {
    var played := PlayedUpTo(rounds, |rounds|);
    var teams := Range(0, 10);
    FewerPlayed(rounds);
    assert |teams| == 10;
    x := MissingElement(played, teams);
    Unmet(rounds, x);
  }

  /** Under the same conditions at most eight of the ten teams are met. */
  lemma FewerPlayed(rounds: seq<Matching>)
    requires RoundsWithin(rounds, 10) && ShortOnlyLast(rounds, 2, 4)
    requires |PlayedUpTo(rounds, |rounds|)| == 2 * PairsUpTo(rounds, |rounds|)
    requires forall k :: 0 <= k < |rounds| ==> |rounds[k]| <= 2
    ensures |PlayedUpTo(rounds, |rounds|)| <= 8
  {
    PlayedAtMost(rounds, 10);
    AtMostFourPairs(rounds);
  }

  /** Rounds within `n` teams meet at most `n` of them. */
  lemma PlayedAtMost(rounds: seq<Matching>, n: nat)
    requires RoundsWithin(rounds, n)
    ensures |PlayedUpTo(rounds, |rounds|)| <= n
  {
    PlayedWithin(rounds, n);
    SubsetSize(PlayedUpTo(rounds, |rounds|), Range(0, n));
  }

  /** A team the rounds do not meet plays none of their pairings. */
  lemma Unmet(rounds: seq<Matching>, x: int)
    requires x !in PlayedUpTo(rounds, |rounds|)
    ensures NeverPlays(rounds, x)
  {
    forall k, e | 0 <= k < |rounds| && e in rounds[k] ensures !Touches(e, x) {
      PlayedHas(rounds, |rounds|, k, e);
    }
  }

  /** Ten teams leave room for five pairings, so no third full round fits and at most four pairings are played. */
  lemma AtMostFourPairs(rounds: seq<Matching>)
    requires ShortOnlyLast(rounds, 2, 4)
    requires 2 * PairsUpTo(rounds, |rounds|) <= 10
    requires forall k :: 0 <= k < |rounds| ==> |rounds[k]| <= 2
    ensures PairsUpTo(rounds, |rounds|) <= 4
  {
    ThreeFullRounds(rounds, |rounds|);
    PairsAtMostTwice(rounds, |rounds|);
  }

  /** Rounds drawn without repeats from a graph of degree at most one meet twice as many teams as they hold pairings. */
  lemma PlayedTwicePairs(g0: Adjacency, after: Adjacency, rounds: seq<Matching>)
    requires DegreeAtMostOne(g0) && Symmetric(g0)
    requires Scheduled(g0, after, rounds) && NoRepeats(rounds)
    requires forall k :: 0 <= k < |rounds| ==> IsMatching(rounds[k]) && NoLoops(rounds[k])
    ensures |PlayedUpTo(rounds, |rounds|)| == 2 * PairsUpTo(rounds, |rounds|)
  {
    var n := |rounds|;
    ApartFromDegree(g0, after, rounds);
    forall j | 0 <= j < n ensures FreshRound(rounds, j) {
      EndpointsSize(rounds[j]);
      forall x | x in PlayedUpTo(rounds, j) ensures x !in Endpoints(rounds[j]) {
        NotInLater(rounds, j + 1, x);
      }
    }
    PlayedCount(rounds, n);
  }

  /**
   * For ten teams, four rounds and two courts the graph is a perfect
   * matching, so the greedy walk empties it, no search runs, and its rounds
   * are the result.
   */
  lemma TenTeamsGreedy(t: Trace)
    requires AsWritten(10, 4, 2, t)
    ensures DegreeAtMostOne(t.g0) && Symmetric(t.g0)
    ensures t.rounds == t.greedy
    ensures RoundsWithin(t.rounds, 10)
    ensures Scheduled(t.g0, t.after, t.rounds) && NoRepeats(t.rounds)
    ensures ShortOnlyLast(t.rounds, 2, 4)
    ensures forall k :: 0 <= k < |t.rounds| ==> IsMatching(t.rounds[k]) && NoLoops(t.rounds[k]) && |t.rounds[k]| <= 2
  {
    TenTeamsDraw();
    assert t.draw == Draw(5, 1.25, 1);
    forall u, v, w | u in t.g0 && v in t.g0[u] && w in t.g0[u] ensures v == w {
      OnlyPartner(t.edges, u, v);
      OnlyPartner(t.edges, u, w);
    }
    assert Uint32(4) == 4;
    AsWrittenWithin(10, 4, 2, t);
  }

  /** The teams the rounds meet are among the ten team indexes. */
  lemma PlayedWithin(rounds: seq<Matching>, n: int)
    requires RoundsWithin(rounds, n)
    ensures forall x :: x in PlayedUpTo(rounds, |rounds|) ==> 0 <= x < n
  {
    forall x | x in PlayedUpTo(rounds, |rounds|) ensures 0 <= x < n {
      PlayedFrom(rounds, |rounds|, x);
    }
  }

  /**
   * With the corrected fallback every team meets a partner: each pairing of
   * the circulant graph is scheduled, and each team has `m >= 1` partners.
   */
  lemma {:induction false} ScheduleEveryTeamPlays(n: nat, m: nat, edges: Matching, rounds: seq<Matching>, maxPer: int, x: int)
    requires 1 <= m < n && (n * m) % 2 == 0
    requires EdgesFor(n, m, edges) && Schedule(rounds, edges, maxPer)
    requires 0 <= x < n
    ensures exists k, e :: 0 <= k < |rounds| && e in rounds[k] && Touches(e, x)
  {
    var nodes := Iota(n);
    CirculantDegree(nodes, m, edges, x);
    var partners := set b | 0 <= b < n && Canonical(nodes[x], nodes[b]) in edges;
    var b := Pick(partners);
    var e := Canonical(nodes[x], nodes[b]);
    assert InSomeRound(rounds, e);
    var k :| 0 <= k < |rounds| && (e in rounds[k] || Edge(e.p2, e.p1) in rounds[k]);
    if e in rounds[k] {
      assert Touches(e, x);
    } else {
      assert Touches(Edge(e.p2, e.p1), x);
    }
  }
}

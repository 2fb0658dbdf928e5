/**
 * Choosing how many matches each team plays (`getMatchesPerTeam`).
 *
 * The search starts at the number of rounds `r` and lowers `m` until the
 * `n * m` participations split into whole matches, those matches spread over
 * `r` rounds need no more than the `c` available courts per round, and (in the
 * Go engine and the web client, not in the C++ library or the Python sketch)
 * there are more teams than matches per team.
 *
 * `matchesPerTurn` is a floating-point quotient in every implementation; it is
 * kept here as the exact rational `T / r`.  The test "`floor(p / 2) == p / 2`"
 * is the evenness of `p`.
 */
module Feasibility {

  /** The triple `(totalMatches, matchesPerTurn, matchesPerTeam)`. */
  datatype Draw = Draw(totalMatches: int, matchesPerTurn: real, matchesPerTeam: int)

  /** What every implementation returns when no `m` fits. */
  const NoDraw: Draw := Draw(0, 0.0, 0)

  /**
   * Whether the loop accepts `m` matches per team for `n` teams, `r` rounds
   * and `c` courts; `teamBound` adds the Go/TypeScript test `n > m`.
   */
  predicate Fits(n: nat, r: int, c: int, m: int, teamBound: bool)
  {
    0 < m <= r
    && (n * m) % 2 == 0
    && ((n * m / 2) as real) / (r as real) <= c as real
    && (teamBound ==> n > m)
  }

  /** `m`, the total it implies and the per-round average. */
  function DrawFor(n: nat, r: int, m: int): (d: Draw)
    requires r > 0
    ensures d.matchesPerTeam == m && ((n * m) % 2 == 0 ==> 2 * d.totalMatches == n * m)
  {
    Draw(n * m / 2, ((n * m / 2) as real) / (r as real), m)
  }

  /**
   * The outcome of the loop once it has come down to `m`: the largest
   * fitting value not above `m`, or the all-zero triple.
   */
  function Search(n: nat, r: int, c: int, m: int, teamBound: bool): (d: Draw)
    ensures d.matchesPerTeam == 0 ==>
      d == NoDraw && forall k :: k <= m ==> !Fits(n, r, c, k, teamBound)
    ensures d.matchesPerTeam != 0 ==>
      d.matchesPerTeam <= m && Fits(n, r, c, d.matchesPerTeam, teamBound)
      && (forall k :: d.matchesPerTeam < k <= m ==> !Fits(n, r, c, k, teamBound))
      && 2 * d.totalMatches == n * d.matchesPerTeam
      && d.matchesPerTurn == (d.totalMatches as real) / (r as real)
    decreases m
  {
    if m <= 0 then NoDraw
    else if Fits(n, r, c, m, teamBound) then DrawFor(n, r, m)
    else Search(n, r, c, m - 1, teamBound)
  }

  /** The triple returned for `n` teams, `r` rounds and `c` courts. */
  function BestDraw(n: nat, r: int, c: int, teamBound: bool): Draw
  {
    Search(n, r, c, r, teamBound)
  }

  /**
   * `getMatchesPerTeam`: the largest `m` in `1..r` that fits, with
   * `totalMatches = n * m / 2` and `matchesPerTurn = totalMatches / r`; the
   * all-zero triple exactly when no `m` fits.
   */
  method GetMatchesPerTeam(n: nat, r: int, c: int, teamBound: bool) returns (d: Draw)
    ensures d == BestDraw(n, r, c, teamBound)
    ensures d.matchesPerTeam == 0 <==> forall k :: !Fits(n, r, c, k, teamBound)
    ensures d.matchesPerTeam != 0 ==>
      Fits(n, r, c, d.matchesPerTeam, teamBound)
      && (forall k :: d.matchesPerTeam < k ==> !Fits(n, r, c, k, teamBound))
      && 2 * d.totalMatches == n * d.matchesPerTeam
      && d.matchesPerTurn == (d.totalMatches as real) / (r as real)
  {
    var m := r;
    while m > 0
      invariant m <= r
      invariant forall k :: m < k ==> !Fits(n, r, c, k, teamBound)
      decreases m
    {
      var participations := n * m;
      if participations % 2 == 0 {
        var totalMatches := participations / 2;
        var matchesPerTurn := (totalMatches as real) / (r as real);
        if matchesPerTurn <= c as real && (!teamBound || n > m) {
          assert Fits(n, r, c, m, teamBound);
          return Draw(totalMatches, matchesPerTurn, m);
        }
      }
      m := m - 1;
    }
    return NoDraw;
  }

  /** `math.Ceil` on the exact quotient. */
  function Ceil(x: real): (k: int)
    ensures k as real - 1.0 < x <= k as real
  {
    if x.Floor as real == x then x.Floor else x.Floor + 1
  }

  /** A draw never asks for more matches per round than there are courts. */
  lemma {:induction false} CeilWithinCourts(n: nat, r: int, c: int, teamBound: bool)
    ensures var d := BestDraw(n, r, c, teamBound);
      d.matchesPerTeam != 0 ==> Ceil(d.matchesPerTurn) <= c && d.matchesPerTurn <= c as real
  {
  }

  /**
   * More courts never lower the number of matches per team: every `m` that
   * fits `c1` courts fits `c2 >= c1` courts too.
   */
  lemma {:induction false} MoreCourtsNeverFewerMatches(n: nat, r: int, c1: int, c2: int, teamBound: bool)
    requires c1 <= c2
    ensures BestDraw(n, r, c1, teamBound).matchesPerTeam <= BestDraw(n, r, c2, teamBound).matchesPerTeam
  {
    var m1 := BestDraw(n, r, c1, teamBound).matchesPerTeam;
    if m1 != 0 {
      assert Fits(n, r, c2, m1, teamBound);
    }
  }

  /** Dropping the `n > m` test can only raise `m`. */
  lemma {:induction false} TeamBoundOnlyLowers(n: nat, r: int, c: int)
    ensures BestDraw(n, r, c, true).matchesPerTeam <= BestDraw(n, r, c, false).matchesPerTeam
  {
    var m1 := BestDraw(n, r, c, true).matchesPerTeam;
    if m1 != 0 {
      assert Fits(n, r, c, m1, false);
    }
  }

  /** With the `n > m` test every team has enough distinct opponents. */
  lemma {:induction false} TeamBoundLeavesOpponents(n: nat, r: int, c: int)
    ensures BestDraw(n, r, c, true).matchesPerTeam < n || n == 0
  {
  }

  /** 6 teams, 3 rounds, 2 courts: 6 matches, 2 per round, 2 per team. */
  lemma ExampleSixTeams()
    ensures BestDraw(6, 3, 2, true) == Draw(6, 2.0, 2)
  {
  }

  /** 8 teams, 8 rounds, 5 courts: 7 matches per team (28 in all). */
  lemma ExampleEightTeams()
    ensures BestDraw(8, 8, 5, true) == Draw(28, 3.5, 7)
  {
  }

  /**
   * The same request without the `n > m` test: 8 matches per team, more than
   * the 7 opponents each of the 8 teams has.
   */
  lemma ExampleEightTeamsUnbounded()
    ensures BestDraw(8, 8, 5, false) == Draw(32, 4.0, 8)
  {
  }

  /**
   * 5 teams, 5 rounds, 2 courts: 4 matches per team, 10 in all, with or
   * without the `n > m` test.
   */
  lemma ExampleFiveTeams()
    ensures BestDraw(5, 5, 2, false) == Draw(10, 2.0, 4)
    ensures BestDraw(5, 5, 2, true) == Draw(10, 2.0, 4)
  {
  }
}

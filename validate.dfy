/**
 * `validateTournamentRounds`: the last gate before a tournament is built.
 * It checks, in this order, the number of rounds, the size of each round,
 * that no (directed) pairing is scheduled twice, the total number of
 * pairings, that no team plays twice in one round, and that every team
 * that plays at all plays exactly `matchesPerTeam` times. The first failed
 * check decides the error.
 */
module Validation {
  import opened Domain
  import opened Wrappers
  import opened Cardinality
  import opened Text
  import Feasibility

  /** The failed check, with the numbers its message reports (rounds numbered from 1, teams by node). */
  datatype ValidationError =
    | WrongRoundCount(expected: int, got: int)
    | RoundTooLarge(round: int, limit: int, got: int)
    | ScheduledTwice(p1: int, p2: int, round: int)
    | NotAllScheduled(count: int, total: int)
    | TwiceInRound(node: int, round: int)
    | WrongCount(node: int, count: int, expected: int)

  /** The number of pairings over all rounds. */
  function TotalSize(rounds: seq<Matching>): nat
  {
    if rounds == [] then 0 else TotalSize(rounds[..|rounds| - 1]) + |rounds[|rounds| - 1]|
  }

  /** How many times `v` is an endpoint of a pairing of `m` (a loop counts twice). */
  function Inc(m: Matching, v: int): nat
  {
    |EndsAt(m, v, true)| + |EndsAt(m, v, false)|
  }

  /** How many times `v` is an endpoint over all rounds. */
  function Degree(rounds: seq<Matching>, v: int): nat
  {
    if rounds == [] then 0 else Degree(rounds[..|rounds| - 1], v) + Inc(rounds[|rounds| - 1], v)
  }

  /** No pairing occurs in two rounds. */
  predicate Disjoint(rounds: seq<Matching>)
  {
    forall i, j :: 0 <= i < j < |rounds| ==> rounds[i] !! rounds[j]
  }

  /** A schedule the validation accepts. */
  ghost predicate ValidSchedule(rounds: seq<Matching>, totalRounds: int, maxPer: int, totalMatches: int, matchesPerTeam: int)
  {
    |rounds| == totalRounds
    && (forall i :: 0 <= i < |rounds| ==> |rounds[i]| <= maxPer)
    && Disjoint(rounds)
    && TotalSize(rounds) == totalMatches
    && (forall i :: 0 <= i < |rounds| ==> IsMatching(rounds[i]))
    && (forall v :: Degree(rounds, v) > 0 ==> Degree(rounds, v) == matchesPerTeam)
  }

  /** The pairings of `m` whose first (or second) endpoint is `v`. */
  function EndsAt(m: Matching, v: int, first: bool): set<Edge>
  {
    set e | e in m && (if first then e.p1 else e.p2) == v
  }

  lemma EndCountStep(done: Matching, f: Edge, v: int, first: bool)
    requires f !in done
    ensures |EndsAt(done + {f}, v, first)| == |EndsAt(done, v, first)| + (if (if first then f.p1 else f.p2) == v then 1 else 0)
  {
    if (if first then f.p1 else f.p2) == v {
      assert EndsAt(done + {f}, v, first) == EndsAt(done, v, first) + {f};
    } else {
      assert EndsAt(done + {f}, v, first) == EndsAt(done, v, first);
    }
  }

  /** Adding one pairing moves the endpoint count of `v` by its occurrences in that pairing. */
  lemma IncStep(done: Matching, f: Edge, v: int)
    requires f !in done
    ensures Inc(done + {f}, v) == Inc(done, v) + (if f.p1 == v then 1 else 0) + (if f.p2 == v then 1 else 0)
  {
    EndCountStep(done, f, v, true);
    EndCountStep(done, f, v, false);
  }

  /** The prefix of one more round adds that round. */
  lemma PrefixStep(rounds: seq<Matching>, i: int, v: int)
    requires 0 <= i < |rounds|
    ensures TotalSize(rounds[..i + 1]) == TotalSize(rounds[..i]) + |rounds[i]|
    ensures Degree(rounds[..i + 1], v) == Degree(rounds[..i], v) + Inc(rounds[i], v)
  {
    assert rounds[..i + 1][..i] == rounds[..i];
  }

  /** The size check: the first round (0-based) holding more than `maxPer` pairings. */
  method FirstOversized(rounds: seq<Matching>, maxPer: int) returns (bad: Option<int>)
    ensures bad.None? <==> forall i :: 0 <= i < |rounds| ==> |rounds[i]| <= maxPer
    ensures bad.Some? ==> (0 <= bad.value < |rounds| && |rounds[bad.value]| > maxPer
      && forall i :: 0 <= i < bad.value ==> |rounds[i]| <= maxPer)
  {
    var i := 0;
    while i < |rounds|
      invariant 0 <= i <= |rounds|
      invariant forall j :: 0 <= j < i ==> |rounds[j]| <= maxPer
    {
      if |rounds[i]| > maxPer {
        return Some(i);
      }
      i := i + 1;
    }
    return None;
  }

  /**
   * The inner loop of the repeat check over one round: every pairing is
   * counted and recorded, and the first one already recorded is reported.
   */
  method ScanRepeats(round: Matching, scheduled: set<Edge>) returns (dup: Option<Edge>, scheduled': set<Edge>)
    ensures dup.Some? ==> dup.value in round && dup.value in scheduled
    ensures dup.None? <==> round !! scheduled
    ensures dup.None? ==> scheduled' == scheduled + round
  {
    scheduled' := scheduled;
    var rest := round;
    ghost var done: set<Edge> := {};
    while rest != {}
      invariant rest + done == round && rest !! done && done !! scheduled
      invariant scheduled' == scheduled + done
      decreases |rest|
    {
      ghost var w := Pick(rest);
      var edge :| edge in rest;
      if edge in scheduled' {
        return Some(edge), scheduled';
      }
      scheduled' := scheduled' + {edge};
      rest := rest - {edge};
      done := done + {edge};
    }
    return None, scheduled';
  }

  /** `scheduled` holds exactly the pairings of the first `i` rounds. */
  ghost predicate Recorded(scheduled: set<Edge>, rounds: seq<Matching>, i: int)
    requires 0 <= i <= |rounds|
  {
    forall e :: e in scheduled <==> exists j :: 0 <= j < i && e in rounds[j]
  }

  /** A round sharing nothing with the earlier ones extends the disjoint prefix and the record. */
  lemma RecordRound(scheduled: set<Edge>, rounds: seq<Matching>, i: int)
    requires 0 <= i < |rounds| && Disjoint(rounds[..i]) && Recorded(scheduled, rounds, i) && rounds[i] !! scheduled
    ensures Disjoint(rounds[..i + 1]) && Recorded(scheduled + rounds[i], rounds, i + 1)
  {
    var p := rounds[..i + 1];
    forall j, k | 0 <= j < k < |p| ensures p[j] !! p[k] {
      if k < i {
        assert rounds[..i][j] == p[j] && rounds[..i][k] == p[k];
      } else {
        forall e | e in p[j] ensures e !in p[k] {
          assert e in scheduled;
        }
      }
    }
  }

  /**
   * The repeat check over all rounds: the first round (0-based) holding a
   * pairing of an earlier round, with that pairing; otherwise the rounds
   * are disjoint and `count` is the total number of pairings.
   */
  method FirstRepeat(rounds: seq<Matching>) returns (dup: Option<(Edge, int)>, count: nat)
    ensures dup.None? <==> Disjoint(rounds)
    ensures dup.None? ==> count == TotalSize(rounds)
    ensures dup.Some? ==> var (e, k) := dup.value;
      0 <= k < |rounds| && e in rounds[k] && (exists j :: 0 <= j < k && e in rounds[j]) && Disjoint(rounds[..k])
  {
    var scheduled: set<Edge> := {};
    count := 0;
    var i := 0;
    while i < |rounds|
      invariant 0 <= i <= |rounds|
      invariant Disjoint(rounds[..i]) && count == TotalSize(rounds[..i]) && Recorded(scheduled, rounds, i)
    {
      var d, scheduled' := ScanRepeats(rounds[i], scheduled);
      if d.Some? {
        return Some((d.value, i)), count;
      }
      RecordRound(scheduled, rounds, i);
      scheduled := scheduled';
      PrefixStep(rounds, i, 0);
      count := count + |rounds[i]|;
      i := i + 1;
    }
    assert rounds[..i] == rounds;
    return None, count;
  }

  /** The per-node counts after some pairings: every node with a positive count is a key with that count. */
  ghost predicate Counted(counts: map<int, int>, rounds: seq<Matching>, i: int, done: Matching)
    requires 0 <= i <= |rounds|
  {
    forall v :: (v in counts <==> Degree(rounds[..i], v) + Inc(done, v) > 0)
      && (v in counts ==> counts[v] == Degree(rounds[..i], v) + Inc(done, v))
  }

  /** The state of the node check part way through round `i`: `done` is a matching, counted, whose nodes are `inRound`. */
  ghost predicate Scanning(rounds: seq<Matching>, i: int, done: Matching, rest: Matching, inRound: set<int>, counts: map<int, int>)
  {
    0 <= i < |rounds| && done <= rounds[i] && rest == rounds[i] - done
    && IsMatching(done) && inRound == Endpoints(done) && Counted(counts, rounds, i, done)
  }

  /**
   * The inner loop of the per-round node check: reports a node met in a
   * second pairing of the round; otherwise the round is a matching and every
   * endpoint occurrence is added to `counts`.
   */
  method ScanNodes(rounds: seq<Matching>, i: int, counts: map<int, int>) returns (twice: Option<int>, counts': map<int, int>)
    requires 0 <= i < |rounds| && Counted(counts, rounds, i, {})
    ensures twice.None? <==> IsMatching(rounds[i])
    ensures twice.Some? ==> exists e, f :: e in rounds[i] && f in rounds[i] && e != f && Touches(e, twice.value) && Touches(f, twice.value)
    ensures twice.None? ==> Counted(counts', rounds, i, rounds[i])
  {
    var round := rounds[i];
    counts' := counts;
    var rest := round;
    ghost var done: set<Edge> := {};
    var inRound: set<int> := {};
    while rest != {}
      invariant Scanning(rounds, i, done, rest, inRound, counts')
      decreases |rest|
    {
      ghost var w := Pick(rest);
      var edge :| edge in rest;
      if edge.p1 in inRound || edge.p2 in inRound {
        var v := if edge.p1 in inRound then edge.p1 else edge.p2;
        Clash(round, done, edge, v);
        return Some(v), counts';
      }
      ScanAdvance(rounds, i, done, rest, inRound, counts', edge);
      counts' := Bump(Bump(counts', edge.p1), edge.p2);
      inRound := inRound + {edge.p1, edge.p2};
      rest := rest - {edge};
      done := done + {edge};
    }
    assert done == round;
    return None, counts';
  }

  /** Taking one more pairing whose nodes are still free into the scan keeps its state. */
  lemma ScanAdvance(rounds: seq<Matching>, i: int, done: Matching, rest: Matching, inRound: set<int>,
                    counts: map<int, int>, edge: Edge)
    requires Scanning(rounds, i, done, rest, inRound, counts)
    requires edge in rest && edge.p1 !in inRound && edge.p2 !in inRound
    ensures Scanning(rounds, i, done + {edge}, rest - {edge}, inRound + {edge.p1, edge.p2},
                     Bump(Bump(counts, edge.p1), edge.p2))
  {
    CountPairing(counts, rounds, i, done, edge);
    AddToMatching(done, edge);
  }

  /** A pairing that meets a node of an earlier pairing of the same round breaks the matching. */
  lemma Clash(round: Matching, done: Matching, edge: Edge, v: int)
    requires done <= round && edge in round && edge !in done && v in Endpoints(done) && Touches(edge, v)
    ensures !IsMatching(round)
    ensures exists e, f :: e in round && f in round && e != f && Touches(e, v) && Touches(f, v)
  {
    var f :| f in done && Touches(f, v);
    assert edge in round && f in round && edge != f;
  }

  /** Counting both endpoints of one more pairing keeps the counts exact. */
  lemma CountPairing(counts: map<int, int>, rounds: seq<Matching>, i: int, done: Matching, edge: Edge)
    requires 0 <= i <= |rounds| && Counted(counts, rounds, i, done) && edge !in done
    ensures Counted(Bump(Bump(counts, edge.p1), edge.p2), rounds, i, done + {edge})
  {
    forall v ensures Inc(done + {edge}, v) == Inc(done, v) + (if edge.p1 == v then 1 else 0) + (if edge.p2 == v then 1 else 0) {
      IncStep(done, edge, v);
    }
  }

  /** `counts[v] += 1` on a Go map, where a missing key reads as 0. */
  function Bump(counts: map<int, int>, v: int): (r: map<int, int>)
    ensures r.Keys == counts.Keys + {v}
    ensures r[v] == (if v in counts then counts[v] else 0) + 1
    ensures forall u :: u in counts && u != v ==> r[u] == counts[u]
  {
    counts[v := (if v in counts then counts[v] else 0) + 1]
  }

  /**
   * The node check over all rounds: the first round (0-based) in which a
   * node plays twice, with that node; otherwise every round is a matching
   * and `counts` holds each playing node's number of games.
   */
  method FirstDoubleBooking(rounds: seq<Matching>) returns (twice: Option<(int, int)>, counts: map<int, int>)
    ensures twice.None? <==> forall i :: 0 <= i < |rounds| ==> IsMatching(rounds[i])
    ensures twice.None? ==> forall v :: (v in counts <==> Degree(rounds, v) > 0) && (v in counts ==> counts[v] == Degree(rounds, v))
    ensures twice.Some? ==> var (v, k) := twice.value;
      0 <= k < |rounds| && (forall i :: 0 <= i < k ==> IsMatching(rounds[i]))
      && exists e, f :: e in rounds[k] && f in rounds[k] && e != f && Touches(e, v) && Touches(f, v)
  {
    counts := map[];
    var i := 0;
    while i < |rounds|
      invariant 0 <= i <= |rounds| && Counted(counts, rounds, i, {})
      invariant forall j :: 0 <= j < i ==> IsMatching(rounds[j])
    {
      var t;
      t, counts := ScanNodes(rounds, i, counts);
      if t.Some? {
        return Some((t.value, i)), counts;
      }
      forall v ensures Degree(rounds[..i + 1], v) + Inc({}, v) == Degree(rounds[..i], v) + Inc(rounds[i], v) {
        PrefixStep(rounds, i, v);
      }
      i := i + 1;
    }
    assert rounds[..i] == rounds;
    return None, counts;
  }

  /** The last loop: some playing node whose count is not `matchesPerTeam`, in any order. */
  method SomeWrongCount(counts: map<int, int>, matchesPerTeam: int) returns (bad: Option<int>)
    ensures bad.None? <==> forall v :: v in counts ==> counts[v] == matchesPerTeam
    ensures bad.Some? ==> bad.value in counts && counts[bad.value] != matchesPerTeam
  {
    var rest := counts.Keys;
    while rest != {}
      invariant rest <= counts.Keys
      invariant forall v :: v in counts && v !in rest ==> counts[v] == matchesPerTeam
      decreases |rest|
    {
      ghost var w := Pick(rest);
      var node :| node in rest;
      if counts[node] != matchesPerTeam {
        return Some(node);
      }
      rest := rest - {node};
    }
    return None;
  }

  /**
   * `validateTournamentRounds`: no error exactly for a valid schedule, and
   * each error names the first check that fails.
   */
  method ValidateTournamentRounds(rounds: seq<Matching>, totalRounds: int, matchesPerTurn: real,
                                  totalMatches: int, matchesPerTeam: int)
    returns (err: Option<ValidationError>)
    ensures err.None? <==> ValidSchedule(rounds, totalRounds, Feasibility.Ceil(matchesPerTurn), totalMatches, matchesPerTeam)
    ensures err.Some? && err.value.WrongRoundCount? <==> |rounds| != totalRounds
    ensures err.Some? && err.value.WrongRoundCount? ==> err.value == WrongRoundCount(totalRounds, |rounds|)
    ensures err.Some? && err.value.RoundTooLarge? ==> var k := err.value.round - 1;
      0 <= k < |rounds| && |rounds[k]| > Feasibility.Ceil(matchesPerTurn)
      && err.value.limit == Feasibility.Ceil(matchesPerTurn) && err.value.got == |rounds[k]|
    ensures err.Some? && err.value.ScheduledTwice? ==> var k := err.value.round - 1;
      (forall i :: 0 <= i < |rounds| ==> |rounds[i]| <= Feasibility.Ceil(matchesPerTurn))
      && 0 <= k < |rounds| && Edge(err.value.p1, err.value.p2) in rounds[k] && !Disjoint(rounds[..k + 1])
    ensures err.Some? && err.value.NotAllScheduled? ==> Disjoint(rounds) && err.value.count == TotalSize(rounds) != totalMatches
    ensures err.Some? && err.value.TwiceInRound? ==> var k := err.value.round - 1;
      Disjoint(rounds) && TotalSize(rounds) == totalMatches && 0 <= k < |rounds| && !IsMatching(rounds[k])
    ensures err.Some? && err.value.WrongCount? ==> (TotalSize(rounds) == totalMatches
      && (forall i :: 0 <= i < |rounds| ==> IsMatching(rounds[i]))
      && err.value.count == Degree(rounds, err.value.node) > 0 && err.value.count != matchesPerTeam
      && err.value.expected == matchesPerTeam)
    ensures err.Some? ==> forall v :: v in ErrorNodes(err.value) ==> Played(rounds, v)
  {
    if |rounds| != totalRounds {
      return Some(WrongRoundCount(totalRounds, |rounds|));
    }
    var maxMatchesPerTurn := Feasibility.Ceil(matchesPerTurn);
    var big := FirstOversized(rounds, maxMatchesPerTurn);
    if big.Some? {
      return Some(RoundTooLarge(big.value + 1, maxMatchesPerTurn, |rounds[big.value]|));
    }
    var dup, totalScheduledCount := FirstRepeat(rounds);
    if dup.Some? {
      var (e, k) := dup.value;
      assert !Disjoint(rounds[..k + 1]) by {
        var j :| 0 <= j < k && e in rounds[j];
        assert rounds[..k + 1][j] == rounds[j] && rounds[..k + 1][k] == rounds[k];
      }
      assert Touches(e, e.p1) && Touches(e, e.p2);
      return Some(ScheduledTwice(e.p1, e.p2, k + 1));
    }
    if totalScheduledCount != totalMatches {
      return Some(NotAllScheduled(totalScheduledCount, totalMatches));
    }
    var twice, scheduledNodes := FirstDoubleBooking(rounds);
    if twice.Some? {
      var (v, k) := twice.value;
      assert Played(rounds, v);
      return Some(TwiceInRound(v, k + 1));
    }
    var bad := SomeWrongCount(scheduledNodes, matchesPerTeam);
    if bad.Some? {
      DegreePositive(rounds, bad.value);
      return Some(WrongCount(bad.value, scheduledNodes[bad.value], matchesPerTeam));
    }
    return None;
  }

  /** `v` is an endpoint of some pairing of some round. */
  ghost predicate Played(rounds: seq<Matching>, v: int)
  {
    exists k, e :: 0 <= k < |rounds| && e in rounds[k] && Touches(e, v)
  }

  /** The nodes an error message names (and so looks up among the teams). */
  function ErrorNodes(err: ValidationError): set<int>
  {
    match err
    case ScheduledTwice(p1, p2, _) => {p1, p2}
    case TwiceInRound(node, _) => {node}
    case WrongCount(node, _, _) => {node}
    case _ => {}
  }

  /** A node that occurs in the rounds is an endpoint of one of their pairings. */
  lemma {:induction false} DegreePositive(rounds: seq<Matching>, v: int)
    requires Degree(rounds, v) > 0
    ensures Played(rounds, v)
    decreases |rounds|
  {
    var init, last := rounds[..|rounds| - 1], rounds[|rounds| - 1];
    if Degree(init, v) > 0 {
      DegreePositive(init, v);
      var k, e :| 0 <= k < |init| && e in init[k] && Touches(e, v);
      assert rounds[k] == init[k];
    } else if |EndsAt(last, v, true)| > 0 {
      var e := Pick(EndsAt(last, v, true));
      assert Touches(e, v) && e in rounds[|rounds| - 1];
    } else {
      var e := Pick(EndsAt(last, v, false));
      assert Touches(e, v) && e in rounds[|rounds| - 1];
    }
  }

  /** Go's `%v` of a `Team`: `{{id1} {id2} gender}`. */
  function TeamText(t: Team): string
  {
    "{{" + t.person1.id + "} {" + t.person2.id + "} " + IntToString(t.gender) + "}"
  }

  /** The message `validateTournamentRounds` returns, with teams looked up by node. */
  function ErrorText(err: ValidationError, teams: seq<Team>): string
    requires forall v :: v in ErrorNodes(err) ==> 0 <= v < |teams|
  {
    match err
    case WrongRoundCount(expected, got) =>
      "expected " + IntToString(expected) + " rounds, got " + IntToString(got)
    case RoundTooLarge(round, limit, got) =>
      "round " + IntToString(round) + " violated constraint: expected <= " + IntToString(limit)
      + " matches, got " + IntToString(got)
    case ScheduledTwice(p1, p2, round) =>
      assert p1 in ErrorNodes(err) && p2 in ErrorNodes(err);
      "match scheduled twice: teams " + TeamText(teams[p1]) + " and " + TeamText(teams[p2])
      + " were scheduled again in round " + IntToString(round)
    case NotAllScheduled(count, total) =>
      "not every match was scheduled: total scheduled count " + IntToString(count)
      + " does not match total matches " + IntToString(total)
    case TwiceInRound(node, round) =>
      assert node in ErrorNodes(err);
      "team " + TeamText(teams[node]) + " scheduled more than once across all rounds (found twice in round "
      + IntToString(round) + ")"
    case WrongCount(node, count, expected) =>
      assert node in ErrorNodes(err);
      "team " + TeamText(teams[node]) + " scheduled " + IntToString(count) + " times, expected "
      + IntToString(expected) + " times"
  }
}

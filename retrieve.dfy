/**
 * Reading a stored tournament back: `buildTournamentData` regroups the match
 * rows of one tournament by round number and the team rows by team id, and
 * assembles the `TournamentData`. Round `k` is stored at index `k` of a slice
 * as long as the number of distinct round numbers, and a match naming an
 * unknown team dereferences a nil pointer: both panics are error results here.
 */
module RetrieveTournament {
  import opened Wrappers
  import opened Domain
  import Teams
  import Text
  import Circulant

  /** A row of the matches query (`match`). */
  datatype MatchRow = MatchRow(roundNumber: int, team1Id: int, team2Id: int, courtNumber: int)

  /** A row of the teams query (`team`). */
  datatype TeamRow = TeamRow(teamId: int, person1: string, person2: string, gender: string)

  /** What the per-round map keeps of a match row. */
  datatype Slot = Slot(team1: int, team2: int, courtNumber: int)

  function SlotOf(m: MatchRow): Slot
  {
    Slot(m.team1Id, m.team2Id, m.courtNumber)
  }

  /** The distinct round numbers of the rows. */
  function RoundNumbers(matches: seq<MatchRow>): set<int>
  {
    set m | m in matches :: m.roundNumber
  }

  /** The slots of the rows numbered `k`, in row order. */
  function SlotsOf(matches: seq<MatchRow>, k: int): seq<Slot>
    decreases |matches|
  {
    if matches == [] then []
    else
      var last := matches[|matches| - 1];
      SlotsOf(matches[..|matches| - 1], k) + (if last.roundNumber == k then [SlotOf(last)] else [])
  }

  function TeamOfRow(t: TeamRow): Team
  {
    Team(Person(t.person1), Person(t.person2), Teams.GenderFromString(t.gender))
  }

  /** The teams of the rows, in row order. */
  function TeamsOfRows(rows: seq<TeamRow>): seq<Team>
    decreases |rows|
  {
    if rows == [] then []
    else TeamsOfRows(rows[..|rows| - 1]) + [TeamOfRow(rows[|rows| - 1])]
  }

  /** The teams by id, filled in row order: a later row with the same id replaces an earlier one. */
  function TeamsById(rows: seq<TeamRow>): map<int, Team>
    decreases |rows|
  {
    if rows == [] then map[]
    else TeamsById(rows[..|rows| - 1])[rows[|rows| - 1].teamId := TeamOfRow(rows[|rows| - 1])]
  }

  /** Every team a slot names is known. */
  predicate Resolvable(slots: seq<Slot>, byId: map<int, Team>)
  {
    forall i :: 0 <= i < |slots| ==> slots[i].team1 in byId && slots[i].team2 in byId
  }

  /** The scheduled matches of a round's slots. */
  function MatchesOf(slots: seq<Slot>, byId: map<int, Team>): seq<Match>
    requires Resolvable(slots, byId)
  {
    seq(|slots|, i requires 0 <= i < |slots| =>
      Match(byId[slots[i].team1], byId[slots[i].team2], MatchScheduled, slots[i].courtNumber))
  }

  /**
   * The rows read back without a panic: the round numbers are exactly
   * `0..R-1` for `R` distinct numbers, and every team a match names has a row.
   */
  predicate Regular(matches: seq<MatchRow>, teams: seq<TeamRow>)
  {
    (forall k :: k in RoundNumbers(matches) ==> 0 <= k < |RoundNumbers(matches)|)
    && (forall i :: 0 <= i < |matches| ==>
          matches[i].team1Id in TeamsById(teams) && matches[i].team2Id in TeamsById(teams))
  }

  /** The Go runtime's message for dereferencing a nil pointer. */
  const NilDereference := "runtime error: invalid memory address or nil pointer dereference"

  /** The Go runtime's message for indexing a slice of length `n` at `k`. */
  function IndexOutOfRange(k: int, n: nat): string
  {
    if k < 0 then "runtime error: index out of range [" + Text.IntToString(k) + "]"
    else "runtime error: index out of range [" + Text.IntToString(k) + "] with length " + Text.NatToString(n)
  }

  /** `msg` is a panic the rows can cause: an unknown team, or a round number outside `0..R-1`. */
  ghost predicate Panic(matches: seq<MatchRow>, teams: seq<TeamRow>, msg: string)
  {
    (msg == NilDereference
      && exists i :: 0 <= i < |matches| && (matches[i].team1Id !in TeamsById(teams) || matches[i].team2Id !in TeamsById(teams)))
    || exists k :: k in RoundNumbers(matches) && !(0 <= k < |RoundNumbers(matches)|)
         && msg == IndexOutOfRange(k, |RoundNumbers(matches)|)
  }

  /** A slot of round `k` comes from a row numbered `k`. */
  lemma {:induction false} SlotsOfFrom(matches: seq<MatchRow>, k: int, j: int)
    requires 0 <= j < |SlotsOf(matches, k)|
    ensures exists i :: 0 <= i < |matches| && matches[i].roundNumber == k && SlotOf(matches[i]) == SlotsOf(matches, k)[j]
    decreases |matches|
  {
    var init := matches[..|matches| - 1];
    if j < |SlotsOf(init, k)| {
      SlotsOfFrom(init, k, j);
      var i :| 0 <= i < |init| && init[i].roundNumber == k && SlotOf(init[i]) == SlotsOf(init, k)[j];
      assert matches[i] == init[i];
    } else {
      assert SlotOf(matches[|matches| - 1]) == SlotsOf(matches, k)[j];
    }
  }

  /** Every row numbered `k` has its slot among the slots of round `k`. */
  lemma {:induction false} SlotsOfHas(matches: seq<MatchRow>, i: int)
    requires 0 <= i < |matches|
    ensures SlotOf(matches[i]) in SlotsOf(matches, matches[i].roundNumber)
    decreases |matches|
  {
    var init := matches[..|matches| - 1];
    if i < |matches| - 1 {
      SlotsOfHas(init, i);
      assert init[i] == matches[i];
    }
  }

  /** Round `k` has slots exactly when some row is numbered `k`. */
  lemma {:induction false} SlotsOfEmpty(matches: seq<MatchRow>, k: int)
    ensures SlotsOf(matches, k) == [] <==> k !in RoundNumbers(matches)
  {
    if SlotsOf(matches, k) != [] {
      SlotsOfFrom(matches, k, 0);
    }
    if k in RoundNumbers(matches) {
      var i :| 0 <= i < |matches| && matches[i].roundNumber == k;
      SlotsOfHas(matches, i);
    }
  }

  /** A set of `n` integers in `0..n-1` is all of `0..n-1`. */
  lemma FillsRange(s: set<int>, n: nat)
    requires |s| == n
    requires forall k :: k in s ==> 0 <= k < n
    ensures forall j :: 0 <= j < n ==> j in s
  {
    var all := Circulant.Range(0, n);
    assert s <= all;
    var rest := all - s;
    assert all == s + rest && s !! rest;
    assert rest == {};
  }

  /** Rows read back without a panic are numbered exactly `0..R-1`. */
  lemma RegularRounds(matches: seq<MatchRow>, teams: seq<TeamRow>)
    requires Regular(matches, teams)
    ensures RoundNumbers(matches) == Circulant.Range(0, |RoundNumbers(matches)|)
  {
    FillsRange(RoundNumbers(matches), |RoundNumbers(matches)|);
  }

  /** The ids of the map are exactly the ids of the rows. */
  lemma {:induction false} TeamsByIdKeys(rows: seq<TeamRow>, id: int)
    ensures id in TeamsById(rows) <==> exists k :: 0 <= k < |rows| && rows[k].teamId == id
    decreases |rows|
  {
    if rows != [] {
      var init := rows[..|rows| - 1];
      TeamsByIdKeys(init, id);
      if id in TeamsById(init) {
        var k :| 0 <= k < |init| && init[k].teamId == id;
        assert rows[k].teamId == id;
      }
      if (exists k :: 0 <= k < |rows| && rows[k].teamId == id) && rows[|rows| - 1].teamId != id {
        var k :| 0 <= k < |rows| && rows[k].teamId == id;
        assert init[k].teamId == id;
      }
    }
  }

  /** An id's team is the team of the last row carrying that id. */
  lemma {:induction false} TeamsByIdLast(rows: seq<TeamRow>, k: int)
    requires 0 <= k < |rows|
    requires forall j :: k < j < |rows| ==> rows[j].teamId != rows[k].teamId
    ensures rows[k].teamId in TeamsById(rows) && TeamsById(rows)[rows[k].teamId] == TeamOfRow(rows[k])
    decreases |rows|
  {
    var init := rows[..|rows| - 1];
    if k < |rows| - 1 {
      TeamsByIdLast(init, k);
    }
  }

  /** The team list keeps one team per row, in row order, with its gender parsed. */
  lemma {:induction false} TeamsOfRowsShape(rows: seq<TeamRow>)
    ensures |TeamsOfRows(rows)| == |rows|
    ensures forall k :: 0 <= k < |rows| ==>
      TeamsOfRows(rows)[k] == Team(Person(rows[k].person1), Person(rows[k].person2), Teams.GenderFromString(rows[k].gender))
    decreases |rows|
  {
    if rows != [] {
      var init := rows[..|rows| - 1];
      TeamsOfRowsShape(init);
      assert forall k :: 0 <= k < |init| ==> rows[k] == init[k];
    }
  }

  /** Loop over the match rows: the slots of each round number, in row order. */
  method GroupByRound(matches: seq<MatchRow>) returns (grouped: map<int, seq<Slot>>)
    ensures grouped.Keys == RoundNumbers(matches)
    ensures forall k :: k in grouped ==> grouped[k] == SlotsOf(matches, k)
  {
    grouped := map[];
    var i := 0;
    while i < |matches|
      invariant 0 <= i <= |matches|
      invariant grouped.Keys == RoundNumbers(matches[..i])
      invariant forall k :: k in grouped ==> grouped[k] == SlotsOf(matches[..i], k)
    {
      var m := matches[i];
      assert matches[..i + 1][..i] == matches[..i];
      assert RoundNumbers(matches[..i + 1]) == RoundNumbers(matches[..i]) + {m.roundNumber} by {
        assert matches[..i + 1] == matches[..i] + [m];
      }
      if m.roundNumber !in grouped {
        SlotsOfEmpty(matches[..i], m.roundNumber);
        grouped := grouped[m.roundNumber := [SlotOf(m)]];
      } else {
        var curr := grouped[m.roundNumber];
        grouped := grouped[m.roundNumber := curr + [SlotOf(m)]];
      }
      i := i + 1;
    }
    assert matches[..i] == matches;
  }

  /** Loop over the team rows: the teams in row order, and by id. */
  method CollectTeams(rows: seq<TeamRow>) returns (teamsResult: seq<Team>, teamsMap: map<int, Team>)
    ensures teamsResult == TeamsOfRows(rows)
    ensures teamsMap == TeamsById(rows)
  {
    teamsResult := [];
    teamsMap := map[];
    var i := 0;
    while i < |rows|
      invariant 0 <= i <= |rows|
      invariant teamsResult == TeamsOfRows(rows[..i])
      invariant teamsMap == TeamsById(rows[..i])
    {
      assert rows[..i + 1][..i] == rows[..i];
      var t := rows[i];
      var team := Team(Person(t.person1), Person(t.person2), Teams.GenderFromString(t.gender));
      teamsResult := teamsResult + [team];
      teamsMap := teamsMap[t.teamId := teamsResult[|teamsResult| - 1]];
      i := i + 1;
    }
    assert rows[..i] == rows;
  }

  /** Loop over one round's slots: its matches, or nothing when a slot names an unknown team. */
  method RoundMatches(slots: seq<Slot>, teamsMap: map<int, Team>) returns (round: Option<seq<Match>>)
    ensures round.None? <==> !Resolvable(slots, teamsMap)
    ensures round.Some? ==> Resolvable(slots, teamsMap) && round.value == MatchesOf(slots, teamsMap)
  {
    var ms: seq<Match> := [];
    var i := 0;
    while i < |slots|
      invariant 0 <= i <= |slots|
      invariant Resolvable(slots[..i], teamsMap)
      invariant ms == MatchesOf(slots[..i], teamsMap)
    {
      var t := slots[i];
      if t.team1 !in teamsMap || t.team2 !in teamsMap {
        return None;
      }
      ms := ms + [Match(teamsMap[t.team1], teamsMap[t.team2], MatchScheduled, t.courtNumber)];
      i := i + 1;
      assert slots[..i] == slots[..i - 1] + [t];
    }
    assert slots[..i] == slots;
    round := Some(ms);
  }

  /**
   * `buildTournamentData`: the teams in row order; round `k` holds, in row
   * order, the matches of the rows numbered `k`, each with the teams its ids
   * name, status scheduled and its court. The rows must be numbered exactly
   * `0..R-1` and name only known teams; otherwise one of the panics they can
   * cause is the result (which one depends on Go's map order).
   */
  method BuildTournamentData(tournamentName: string, startDate: Date, matches: seq<MatchRow>, teams: seq<TeamRow>)
    returns (r: Result<TournamentData>)
    ensures r.Err? <==> !Regular(matches, teams)
    ensures r.Err? ==> Panic(matches, teams, r.error)
    ensures r.Ok? ==> r.value.name == tournamentName && r.value.dateStart == startDate
    ensures r.Ok? ==> r.value.teams == TeamsOfRows(teams)
    ensures r.Ok? ==> |r.value.rounds| == |RoundNumbers(matches)|
    ensures r.Ok? ==> forall k :: 0 <= k < |r.value.rounds| ==>
      Resolvable(SlotsOf(matches, k), TeamsById(teams))
      && r.value.rounds[k] == MatchesOf(SlotsOf(matches, k), TeamsById(teams))
  {
    var matchesMap := GroupByRound(matches);
    var teamsResult, teamsMap := CollectTeams(teams);
    var n := |matchesMap|;
    assert n == |RoundNumbers(matches)|;
    var rounds: seq<seq<Match>> := seq(n, _ => []);
    var left := matchesMap.Keys;
    while left != {}
      invariant left <= matchesMap.Keys
      invariant |rounds| == n
      invariant forall k :: k in matchesMap && k !in left ==>
        0 <= k < n && Resolvable(matchesMap[k], teamsMap) && rounds[k] == MatchesOf(matchesMap[k], teamsMap)
      decreases |left|
    {
      var k :| k in left;
      var round := RoundMatches(matchesMap[k], teamsMap);
      if round.None? {
        RoundFails(matches, teams, k);
        return Err(NilDereference);
      }
      if !(0 <= k < n) {
        return Err(IndexOutOfRange(k, n));
      }
      rounds := rounds[k := round.value];
      left := left - {k};
    }
    FillsRange(matchesMap.Keys, n);
    forall i | 0 <= i < |matches|
      ensures matches[i].team1Id in teamsMap && matches[i].team2Id in teamsMap
    {
      SlotsOfHas(matches, i);
      var s := SlotOf(matches[i]);
      var j :| 0 <= j < |SlotsOf(matches, matches[i].roundNumber)| && SlotsOf(matches, matches[i].roundNumber)[j] == s;
    }
    r := Ok(TournamentData(tournamentName, startDate, teamsResult, rounds));
  }

  /** A round whose slots name an unknown team makes the rows irregular, by a nil dereference. */
  lemma RoundFails(matches: seq<MatchRow>, teams: seq<TeamRow>, k: int)
    requires !Resolvable(SlotsOf(matches, k), TeamsById(teams))
    ensures !Regular(matches, teams) && Panic(matches, teams, NilDereference)
  {
    var slots := SlotsOf(matches, k);
    var j :| 0 <= j < |slots| && !(slots[j].team1 in TeamsById(teams) && slots[j].team2 in TeamsById(teams));
    SlotsOfFrom(matches, k, j);
  }

  /** Rows as the tournament store writes them: round index, the two team ids and the court of each match. */
  function RowsOfRound(index: int, slots: seq<Slot>): seq<MatchRow>
  {
    seq(|slots|, j requires 0 <= j < |slots| => MatchRow(index, slots[j].team1, slots[j].team2, slots[j].courtNumber))
  }

  /** All rounds' rows, round by round. */
  function StoredRows(rounds: seq<seq<Slot>>): seq<MatchRow>
    decreases |rounds|
  {
    if rounds == [] then []
    else StoredRows(rounds[..|rounds| - 1]) + RowsOfRound(|rounds| - 1, rounds[|rounds| - 1])
  }

  lemma {:induction false} SlotsOfAppend(a: seq<MatchRow>, b: seq<MatchRow>, k: int)
    ensures SlotsOf(a + b, k) == SlotsOf(a, k) + SlotsOf(b, k)
    decreases |b|
  {
    if b != [] {
      var b' := b[..|b| - 1];
      assert (a + b)[..|a + b| - 1] == a + b';
      SlotsOfAppend(a, b', k);
    } else {
      assert a + b == a;
    }
  }

  lemma {:induction false} SlotsOfRound(index: int, slots: seq<Slot>, k: int)
    ensures SlotsOf(RowsOfRound(index, slots), k) == if index == k then slots else []
    decreases |slots|
  {
    if slots != [] {
      var init := slots[..|slots| - 1];
      assert RowsOfRound(index, slots)[..|slots| - 1] == RowsOfRound(index, init);
      SlotsOfRound(index, init, k);
    }
  }

  lemma RoundNumbersAppend(a: seq<MatchRow>, b: seq<MatchRow>)
    ensures RoundNumbers(a + b) == RoundNumbers(a) + RoundNumbers(b)
  {
    forall x | x in a + b ensures x in a || x in b { }
  }

  lemma RoundNumbersOfRound(index: int, slots: seq<Slot>)
    requires slots != []
    ensures RoundNumbers(RowsOfRound(index, slots)) == {index}
  {
    assert RowsOfRound(index, slots)[0].roundNumber == index;
  }

  /** Round `k` of the stored rows of `rounds` is the last round's slots or the earlier rounds' ones. */
  lemma RegroupStep(rounds: seq<seq<Slot>>, k: int)
    requires rounds != [] && 0 <= k < |rounds|
    requires k < |rounds| - 1 ==> SlotsOf(StoredRows(rounds[..|rounds| - 1]), k) == rounds[k]
    requires k !in RoundNumbers(StoredRows(rounds[..|rounds| - 1])) <==> k == |rounds| - 1
    ensures SlotsOf(StoredRows(rounds), k) == rounds[k]
  {
    var last := |rounds| - 1;
    var a := StoredRows(rounds[..last]);
    var b := RowsOfRound(last, rounds[last]);
    SlotsOfAppend(a, b, k);
    SlotsOfRound(last, rounds[last], k);
    if k == last {
      SlotsOfEmpty(a, k);
    }
  }

  /**
   * Reading back what the tournament store writes regroups it: for rounds
   * that each hold a match, the round numbers are `0..R-1` and round `k`
   * gets back exactly its slots, in order.
   */
  lemma {:induction false} RegroupStored(rounds: seq<seq<Slot>>)
    requires forall k :: 0 <= k < |rounds| ==> rounds[k] != []
    ensures forall x :: x in RoundNumbers(StoredRows(rounds)) <==> 0 <= x < |rounds|
    ensures forall k :: 0 <= k < |rounds| ==> SlotsOf(StoredRows(rounds), k) == rounds[k]
    decreases |rounds|
  {
    if rounds != [] {
      var last := |rounds| - 1;
      var init := rounds[..last];
      var a := StoredRows(init);
      var b := RowsOfRound(last, rounds[last]);
      assert StoredRows(rounds) == a + b;
      RegroupStored(init);
      RoundNumbersAppend(a, b);
      RoundNumbersOfRound(last, rounds[last]);
      assert RoundNumbers(StoredRows(rounds)) == RoundNumbers(a) + {last};
      forall k | 0 <= k < |rounds|
        ensures SlotsOf(StoredRows(rounds), k) == rounds[k]
      {
        if k < last {
          assert init[k] == rounds[k];
        }
        RegroupStep(rounds, k);
      }
    }
  }
}

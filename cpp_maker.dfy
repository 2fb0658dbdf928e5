/**
 * `RodeoMaker` of the C++ Telegram bot: `make_from_csv` reads the number of
 * courts and of turns from the first two lines of a text and one team per
 * further line (two names separated by a comma), then asks the rodeo
 * factory for a tournament; `rodeo_to_csv` writes a tournament as CSV text.
 *
 * The exceptions of `std::stoi` and of `std::optional::value` become `Err`
 * results naming them; indexing a row with fewer than two cells is
 * undefined behaviour in C++ and becomes an `Err` as well.
 */
module CppRodeoMaker {
  import opened Wrappers
  import opened Text
  import opened CppStream
  import opened CppValues
  import opened CppFactory
  import opened CppValidate
  import opened Feasibility
  import Domain
  import RodeoCsv

  const UndefinedRow := "row with fewer than two cells (undefined behaviour)"
  const BadOptionalAccess := "std::bad_optional_access"

  /** What a text holds: courts, turns and, per team, the names of its two people. */
  datatype Input = Input(courts: int, turns: int, rows: seq<(string, string)>)

  /** The cells `while (std::getline(ss, cell, ','))` collects from one line. */
  function Cells(line: string): seq<string>
  {
    Pieces(Open(line), ',')
  }

  function Prepend(row: (string, string), r: Result<seq<(string, string)>>): Result<seq<(string, string)>>
  {
    if r.Ok? then Ok([row] + r.value) else r
  }

  /** The teams' rows in order, or the undefined behaviour at the first row with fewer than two cells. */
  function Rows(lines: seq<string>): (r: Result<seq<(string, string)>>)
    ensures r.Ok? ==> |r.value| == |lines|
    ensures r.Err? ==> r.error == UndefinedRow
    decreases |lines|
  {
    if |lines| == 0 then Ok([])
    else
      var cells := Cells(lines[0]);
      if |cells| < 2 then Err(UndefinedRow)
      else Prepend((cells[0], cells[1]), Rows(lines[1..]))
  }

  /**
   * What `make_from_csv` reads: the first line as the courts, the second as
   * the turns (when the text ends inside the first line, the second read
   * leaves the line as it was), and the rows of the remaining lines.
   */
  function ParseCsv(data: string): Result<Input>
  {
    var (s1, l1) := GetLine(Open(data), "", '\n');
    var courts := Stoi(l1);
    if courts.Err? then Err(courts.error)
    else
      var (s2, l2) := GetLine(s1, l1, '\n');
      var turns := Stoi(l2);
      if turns.Err? then Err(turns.error)
      else
        var rows := Rows(Pieces(s2, '\n'));
        if rows.Err? then Err(rows.error) else Ok(Input(courts.value, turns.value, rows.value))
  }

  /** A row written as the reader expects it: the two names separated by a comma. */
  function RowLine(row: (string, string)): string
  {
    row.0 + "," + row.1
  }

  function RowLines(rows: seq<(string, string)>): (lines: seq<string>)
    ensures |lines| == |rows| && forall i :: 0 <= i < |rows| ==> lines[i] == RowLine(rows[i])
  {
    seq(|rows|, i requires 0 <= i < |rows| => RowLine(rows[i]))
  }

  /** An input written out: courts, turns and one line per team, each line ended by a newline. */
  function InputText(input: Input): string
  {
    IntToString(input.courts) + "\n" + IntToString(input.turns) + "\n" + Join(RowLines(input.rows) + [""], "\n")
  }

  /** Names the reader can take back: no comma or newline in them, and a non-empty second name. */
  predicate Readable(row: (string, string))
  {
    ',' !in row.0 && '\n' !in row.0 && ',' !in row.1 && '\n' !in row.1 && row.1 != ""
  }

  /**
   * Reading a written input gives it back, for counts in the `int` range and
   * readable names (an empty second name would leave its line with a single
   * cell).
   */
  lemma ParseCsvRoundTrip(input: Input)
    requires IntMin <= input.courts <= IntMax && IntMin <= input.turns <= IntMax
    requires forall i :: 0 <= i < |input.rows| ==> Readable(input.rows[i])
    ensures ParseCsv(InputText(input)) == Ok(input)
  {
    var body := Join(RowLines(input.rows) + [""], "\n");
    ParseHeader(input.courts, input.turns, body);
    BodyRoundTrip(input.rows);
  }

  /** The rows of the lines of a text. */
  function BodyRows(body: string): Result<seq<(string, string)>>
  {
    Rows(DropEmptyTail(Split(body, '\n')))
  }

  /** Two header lines holding numbers are read as the courts and the turns; the rest holds the rows. */
  lemma ParseHeader(courts: int, turns: int, body: string)
    requires IntMin <= courts <= IntMax && IntMin <= turns <= IntMax
    ensures var rows := BodyRows(body);
      ParseCsv(IntToString(courts) + "\n" + IntToString(turns) + "\n" + body)
      == if rows.Err? then Err(rows.error) else Ok(Input(courts, turns, rows.value))
  {
    var c, n := IntToString(courts), IntToString(turns);
    NumberHasNoNewline(courts);
    NumberHasNoNewline(turns);
    var s1, s2 := HeaderLines(c, n, body);
    StoiRoundTrip(courts);
    StoiRoundTrip(turns);
  }

  /** Reading two newline-free lines off the text yields them and leaves the lines of `body`. */
  lemma HeaderLines(c: string, n: string, body: string) returns (s1: Stream, s2: Stream)
    requires '\n' !in c && '\n' !in n
    ensures var data := c + "\n" + n + "\n" + body;
      GetLine(Open(data), "", '\n') == (s1, c) && GetLine(s1, c, '\n') == (s2, n)
      && WellFormed(s2) && Pieces(s2, '\n') == DropEmptyTail(Split(body, '\n'))
  {
    var data := c + "\n" + n + "\n" + body;
    assert data == [] + c + ['\n'] + (n + ['\n'] + body);
    GetLineFirst([], c, n + ['\n'] + body, '\n', "");
    s1 := Stream(data, |c| + 1, false, false);
    assert GetLine(Open(data), "", '\n') == (s1, c);
    assert data == (c + ['\n']) + n + ['\n'] + body;
    GetLineFirst(c + ['\n'], n, body, '\n', c);
    var pos := |c| + 1 + |n| + 1;
    s2 := Stream(data, pos, false, false);
    assert GetLine(s1, c, '\n') == (s2, n);
    assert data[pos..] == body;
    PiecesFrom(data, pos, '\n');
  }

  /** The lines of written rows read back as those rows. */
  lemma BodyRoundTrip(rows: seq<(string, string)>)
    requires forall i :: 0 <= i < |rows| ==> Readable(rows[i])
    ensures BodyRows(Join(RowLines(rows) + [""], "\n")) == Ok(rows)
  {
    var lines := RowLines(rows);
    forall i | 0 <= i < |lines + [""]| ensures '\n' !in (lines + [""])[i] {
      if i < |lines| {
        assert lines[i] == rows[i].0 + [','] + rows[i].1;
      }
    }
    SplitJoin(lines + [""], '\n');
    assert (lines + [""])[..|lines|] == lines;
    RowsRoundTrip(rows);
  }

  lemma NumberHasNoNewline(i: int)
    ensures '\n' !in IntToString(i)
  {
    if i < 0 {
      var d := NatToString(-i);
      assert IntToString(i) == "-" + d;
      assert forall k :: 0 <= k < |d| ==> IsDigit(d[k]);
    }
  }

  /** Reading one line from where it starts: the stream moves past its delimiter. */
  lemma GetLineFirst(pre: string, p: string, rest: string, delim: char, line: string)
    requires delim !in p
    ensures var data := pre + p + [delim] + rest;
      GetLine(Stream(data, |pre|, false, false), line, delim) == (Stream(data, |pre| + |p| + 1, false, false), p)
  {
    var data := pre + p + [delim] + rest;
    NextDelimAt(data, |pre|, |pre| + |p|, delim);
    assert data[|pre|..|pre| + |p|] == p;
  }

  lemma {:induction false} NextDelimAt(data: string, pos: nat, q: nat, delim: char)
    requires pos <= q < |data| && data[q] == delim
    requires forall i :: pos <= i < q ==> data[i] != delim
    ensures NextDelim(data, pos, delim) == q
    decreases q - pos
  {
    if pos < q {
      NextDelimAt(data, pos + 1, q, delim);
    }
  }

  /** A readable row's line has exactly its two names as cells. */
  lemma CellsOfRow(row: (string, string))
    requires Readable(row)
    ensures Cells(RowLine(row)) == [row.0, row.1]
  {
    var line := RowLine(row);
    PiecesSplit(line, ',');
    assert line == row.0 + [','] + row.1;
    SplitAfterPiece(row.0, ',', row.1);
    SplitPlain(row.1, ',');
  }

  lemma {:induction false} RowsRoundTrip(rows: seq<(string, string)>)
    requires forall i :: 0 <= i < |rows| ==> Readable(rows[i])
    ensures Rows(RowLines(rows)) == Ok(rows)
    decreases |rows|
  {
    if |rows| > 0 {
      var lines := RowLines(rows);
      CellsOfRow(rows[0]);
      assert lines[1..] == RowLines(rows[1..]);
      RowsRoundTrip(rows[1..]);
      assert [rows[0]] + rows[1..] == rows;
    }
  }

  /** The inner reading loop of `make_from_csv`. */
  method ReadCells(line: string) returns (row: seq<string>)
    ensures row == Cells(line)
  {
    var ss := Open(line);
    var cell := "";
    row := [];
    var r := GetLine(ss, cell, ',');
    while !r.0.fail
      invariant WellFormed(ss) && ss.data == line
      invariant r == GetLine(ss, cell, ',')
      invariant row + Pieces(ss, ',') == Cells(line)
      decreases Remaining(ss)
    {
      PiecesStep(ss, cell, ',');
      row := row + [r.1];
      ss, cell := r.0, r.1;
      r := GetLine(ss, cell, ',');
    }
    PiecesStep(ss, cell, ',');
  }

  /** The teams hold, in order, people named as the rows say. */
  ghost predicate TeamsOf(teams: seq<CppTeam>, rows: seq<(string, string)>)
  {
    |teams| == |rows|
    && forall i :: 0 <= i < |rows| ==> teams[i].first == PersonOf(rows[i].0) && teams[i].second == PersonOf(rows[i].1)
  }

  /** The outer reading loop of `make_from_csv`: one new team per remaining line. */
  method ReadTeams(f: Stream, line: string) returns (r: Result<seq<CppTeam>>)
    requires WellFormed(f)
    ensures Rows(Pieces(f, '\n')).Err? ==> r == Err(UndefinedRow)
    ensures Rows(Pieces(f, '\n')).Ok? ==> r.Ok? && TeamsOf(r.value, Rows(Pieces(f, '\n')).value) && Distinct(r.value)
  {
    var teams: seq<CppTeam> := [];
    ghost var rows: seq<(string, string)> := [];
    var s, l := f, line;
    var g := GetLine(s, l, '\n');
    PrependsNone(Rows(Pieces(f, '\n')));
    while !g.0.fail
      invariant WellFormed(s) && s.data == f.data
      invariant g == GetLine(s, l, '\n')
      invariant Prepends(rows, Rows(Pieces(s, '\n'))) == Rows(Pieces(f, '\n'))
      invariant TeamsOf(teams, rows) && Distinct(teams)
      decreases Remaining(s)
    {
      var row := ReadCells(g.1);
      RowsStep(s, l, g, rows, row);
      if |row| < 2 {
        return Err(UndefinedRow);
      }
      var team := new CppTeam(PersonOf(row[0]), PersonOf(row[1]));
      TeamsGrow(teams, rows, team, (row[0], row[1]));
      teams := teams + [team];
      rows := rows + [(row[0], row[1])];
      s, l := g.0, g.1;
      g := GetLine(s, l, '\n');
    }
    assert Pieces(s, '\n') == [];
    return Ok(teams);
  }

  /** A team not yet listed, built from the next row, keeps the list distinct and in step with the rows. */
  lemma TeamsGrow(teams: seq<CppTeam>, rows: seq<(string, string)>, team: CppTeam, row: (string, string))
    requires TeamsOf(teams, rows) && Distinct(teams) && team !in teams
    requires team.first == PersonOf(row.0) && team.second == PersonOf(row.1)
    ensures TeamsOf(teams + [team], rows + [row]) && Distinct(teams + [team])
  {
  }

  /** One line read: its row joins the rows read so far, or the reading stops at it. */
  lemma RowsStep(s: Stream, l: string, g: (Stream, string), rows: seq<(string, string)>, row: seq<string>)
    requires WellFormed(s) && g == GetLine(s, l, '\n') && !g.0.fail && row == Cells(g.1)
    ensures |row| < 2 ==> Prepends(rows, Rows(Pieces(s, '\n'))) == Err(UndefinedRow)
    ensures |row| >= 2 ==>
      Prepends(rows + [(row[0], row[1])], Rows(Pieces(g.0, '\n'))) == Prepends(rows, Rows(Pieces(s, '\n')))
  {
    var rest := Pieces(g.0, '\n');
    assert Pieces(s, '\n') == [g.1] + rest;
    assert ([g.1] + rest)[1..] == rest;
    if |row| >= 2 {
      PrependsAssoc(rows, (row[0], row[1]), Rows(rest));
    }
  }

  function Prepends(rows: seq<(string, string)>, r: Result<seq<(string, string)>>): Result<seq<(string, string)>>
  {
    if r.Ok? then Ok(rows + r.value) else r
  }

  lemma PrependsNone(r: Result<seq<(string, string)>>)
    ensures Prepends([], r) == r
  {
    if r.Ok? {
      assert [] + r.value == r.value;
    }
  }

  lemma PrependsAssoc(rows: seq<(string, string)>, row: (string, string), r: Result<seq<(string, string)>>)
    ensures Prepends(rows, Prepend(row, r)) == Prepends(rows + [row], r)
  {
    if r.Ok? {
      assert rows + ([row] + r.value) == rows + [row] + r.value;
    }
  }

  /** The tournament of `make_from_csv` for the parsed input, through the factory as written. */
  ghost predicate MadeFrom(input: Input, rodeo: CppTournament, t: Trace)
  {
    TeamsOf(rodeo.teams, input.rows) && Distinct(rodeo.teams)
    && AsWritten(|input.rows|, input.turns, input.courts, t)
    && TurnsOf(rodeo.teams, t.rounds, rodeo.turns)
  }

  /**
   * `make_from_csv`: the first failure while reading, or the tournament
   * `RodeoFactory(turns, courts).make_tournament` makes for new teams built
   * from the rows.
   */
  method MakeFromCsv(data: string) returns (r: Result<CppTournament>, ghost t: Trace)
    ensures ParseCsv(data).Err? ==> r == Err(ParseCsv(data).error)
    ensures ParseCsv(data).Ok? ==> r.Ok? && MadeFrom(ParseCsv(data).value, r.value, t)
  {
    t := Trace(Draw(0, 0.0, 0), {}, map[], map[], [], false, []);
    var f := Open(data);
    var g := GetLine(f, "", '\n');
    var courts := Stoi(g.1);
    if courts.Err? {
      return Err(courts.error), t;
    }
    g := GetLine(g.0, g.1, '\n');
    var turns := Stoi(g.1);
    if turns.Err? {
      return Err(turns.error), t;
    }
    var teams := ReadTeams(g.0, g.1);
    if teams.Err? {
      return Err(teams.error), t;
    }
    var factory := new CppRodeoFactory(turns.value, courts.value);
    var rodeo;
    rodeo, t := factory.MakeTournament(teams.value);
    return Ok(rodeo), t;
  }

  // ---------------------------------------------------------------------
  // rodeo_to_csv

  /** A C++ team as the CSV writer sees it: the names of its two people. */
  function DomainTeam(t: CppTeam): (d: Domain.Team)
    ensures d.person1.id == t.first.name && d.person2.id == t.second.name
  {
    Domain.Team(Domain.Person(t.first.name), Domain.Person(t.second.name), Domain.Male)
  }

  function DomainMatch(m: CppMatch): (d: Domain.Match)
    requires Complete(m)
    ensures d.teamA == DomainTeam(m.team1.value) && d.teamB == DomainTeam(m.team2.value)
  {
    Domain.Match(DomainTeam(m.team1.value), DomainTeam(m.team2.value), Domain.MatchScheduled, 0)
  }

  function DomainTurn(turn: seq<CppMatch>): (d: seq<Domain.Match>)
    requires forall j :: 0 <= j < |turn| ==> Complete(turn[j])
    ensures |d| == |turn| && forall j :: 0 <= j < |turn| ==> d[j] == DomainMatch(turn[j])
  {
    seq(|turn|, j requires 0 <= j < |turn| => DomainMatch(turn[j]))
  }

  function DomainTurns(turns: seq<seq<CppMatch>>): (d: seq<seq<Domain.Match>>)
    requires AllComplete(turns)
    ensures |d| == |turns| && forall k :: 0 <= k < |turns| ==> d[k] == DomainTurn(turns[k])
  {
    seq(|turns|, k requires 0 <= k < |turns| => DomainTurn(turns[k]))
  }

  /**
   * `rodeo_to_csv`: one line per turn, "Round i," then "Match j,", "A1 - A2,"
   * and "B1 - B2," per match, the names of the people of each team; a match
   * without both teams throws `std::bad_optional_access`.
   */
  method RodeoToCsv(rodeo: CppTournament) returns (r: Result<string>)
    ensures !AllComplete(rodeo.turns) ==> r == Err(BadOptionalAccess)
    ensures AllComplete(rodeo.turns) ==> r == Ok(RodeoCsv.CsvText(DomainTurns(rodeo.turns)))
  {
    var turns := rodeo.turns;
    var ss := "";
    var i := 1;
    while i <= |turns|
      invariant 1 <= i <= |turns| + 1
      invariant AllComplete(turns[..i - 1])
      invariant ss == RodeoCsv.CsvText(DomainTurns(turns[..i - 1]))
    {
      ghost var before := ss;
      ss := ss + ("Round " + IntToString(i) + ",");
      ghost var head := ss;
      var line := WriteMatches(ss, turns[i - 1]);
      if line.Err? {
        IncompleteTurn(turns, i - 1);
        return line;
      }
      ss := line.value + "\n";
      TurnsStep(turns, i, before, head, ss);
      i := i + 1;
    }
    assert turns[..|turns|] == turns;
    return Ok(ss);
  }

  /** The inner loop of `rodeo_to_csv`: the cells of one turn's matches, appended to `head`. */
  method WriteMatches(head: string, t: seq<CppMatch>) returns (r: Result<string>)
    ensures (exists j :: 0 <= j < |t| && !Complete(t[j])) ==> r == Err(BadOptionalAccess)
    ensures (forall j :: 0 <= j < |t| ==> Complete(t[j])) ==> r == Ok(head + RodeoCsv.MatchCells(DomainTurn(t)))
  {
    var ss := head;
    var matchNumber := 1;
    while matchNumber <= |t|
      invariant 1 <= matchNumber <= |t| + 1
      invariant forall j :: 0 <= j < matchNumber - 1 ==> Complete(t[j])
      invariant ss == head + RodeoCsv.MatchCells(DomainTurn(t[..matchNumber - 1]))
    {
      var m := t[matchNumber - 1];
      if m.team1.None? || m.team2.None? {
        return Err(BadOptionalAccess);
      }
      var team1, team2 := m.team1.value, m.team2.value;
      ghost var cells := ss;
      ss := ss + ("Match " + IntToString(matchNumber) + ",");
      ss := ss + (team1.first.name + " - " + team1.second.name + ",");
      ss := ss + (team2.first.name + " - " + team2.second.name + ",");
      MatchesStep(head, t, matchNumber, cells, ss);
      matchNumber := matchNumber + 1;
    }
    assert t[..|t|] == t;
    return Ok(ss);
  }

  lemma MatchesStep(head: string, t: seq<CppMatch>, n: int, cells: string, ss: string)
    requires 1 <= n <= |t| && Complete(t[n - 1]) && forall j :: 0 <= j < n ==> Complete(t[j])
    requires cells == head + RodeoCsv.MatchCells(DomainTurn(t[..n - 1]))
    requires ss == cells + ("Match " + IntToString(n) + ",")
      + (t[n - 1].team1.value.first.name + " - " + t[n - 1].team1.value.second.name + ",")
      + (t[n - 1].team2.value.first.name + " - " + t[n - 1].team2.value.second.name + ",")
    ensures ss == head + RodeoCsv.MatchCells(DomainTurn(t[..n]))
  {
    var done := DomainTurn(t[..n]);
    assert done[..n - 1] == DomainTurn(t[..n - 1]);
    RodeoCsv.CellsStep(head, done, n, cells, ss);
    assert done[..n] == done;
  }

  lemma IncompleteTurn(turns: seq<seq<CppMatch>>, k: int)
    requires 0 <= k < |turns| && exists j :: 0 <= j < |turns[k]| && !Complete(turns[k][j])
    ensures !AllComplete(turns)
  {
  }

  lemma TurnsStep(turns: seq<seq<CppMatch>>, i: int, before: string, head: string, ss: string)
    requires 1 <= i <= |turns| && AllComplete(turns[..i - 1])
    requires var t := turns[i - 1]; forall j :: 0 <= j < |t| ==> Complete(t[j])
    requires before == RodeoCsv.CsvText(DomainTurns(turns[..i - 1]))
    requires head == before + ("Round " + IntToString(i) + ",")
    requires ss == head + RodeoCsv.MatchCells(DomainTurn(turns[i - 1])) + "\n"
    ensures AllComplete(turns[..i]) && ss == RodeoCsv.CsvText(DomainTurns(turns[..i]))
  {
    CompleteSnoc(turns, i);
    var written := DomainTurns(turns[..i]);
    DomainPrefix(turns, i);
    RodeoCsv.LineStep(written, i, before, head, ss);
    assert written[..i] == written;
  }

  /** The written form of the first `i` turns starts with that of the first `i - 1` and ends with turn `i`. */
  lemma DomainPrefix(turns: seq<seq<CppMatch>>, i: int)
    requires 1 <= i <= |turns| && AllComplete(turns[..i])
    ensures AllComplete(turns[..i - 1])
    ensures DomainTurns(turns[..i])[..i - 1] == DomainTurns(turns[..i - 1])
    ensures DomainTurns(turns[..i])[i - 1] == DomainTurn(turns[i - 1])
  {
    var pre, whole := turns[..i - 1], turns[..i];
    forall k, j | 0 <= k < |pre| && 0 <= j < |pre[k]| ensures Complete(pre[k][j]) {
      assert pre[k] == whole[k];
    }
    var written := DomainTurns(turns[..i]);
    var earlier := DomainTurns(turns[..i - 1]);
    forall k | 0 <= k < i - 1 ensures written[..i - 1][k] == earlier[k] {
      assert turns[..i][k] == turns[k] == turns[..i - 1][k];
    }
    assert turns[..i][i - 1] == turns[i - 1];
  }

  /** A complete next turn keeps the turns so far complete. */
  lemma CompleteSnoc(turns: seq<seq<CppMatch>>, i: int)
    requires 1 <= i <= |turns| && AllComplete(turns[..i - 1])
    requires var t := turns[i - 1]; forall j :: 0 <= j < |t| ==> Complete(t[j])
    ensures AllComplete(turns[..i])
  {
    forall k, j | 0 <= k < i && 0 <= j < |turns[..i][k]| ensures Complete(turns[..i][k][j]) {
      if k < i - 1 {
        assert turns[..i][k] == turns[..i - 1][k];
      }
    }
  }

  /** Every match the factory makes has both teams, so writing its tournament never throws. */
  lemma MadeIsComplete(teams: seq<CppTeam>, rounds: seq<Domain.Matching>, turns: seq<seq<CppMatch>>)
    requires TurnsOf(teams, rounds, turns)
    ensures AllComplete(turns)
  {
    forall k, j | 0 <= k < |turns| && 0 <= j < |turns[k]| ensures Complete(turns[k][j]) {
      var list: seq<Domain.Edge> :| Listing(list, rounds[k]) && |list| == |turns[k]|
        && forall j :: 0 <= j < |list| ==> turns[k][j] == NewMatch(teams[list[j].p1], teams[list[j].p2]);
      assert turns[k][j] == NewMatch(teams[list[j].p1], teams[list[j].p2]);
    }
  }

  /**
   * When no name holds a newline, the written text splits into exactly one
   * line per turn, line `k` numbered `k + 1`, and an empty piece after the
   * final newline.
   */
  lemma CsvHasOneLinePerTurn(rodeo: CppTournament)
    requires AllComplete(rodeo.turns)
    requires forall k, j :: 0 <= k < |rodeo.turns| && 0 <= j < |rodeo.turns[k]| ==>
      '\n' !in rodeo.turns[k][j].team1.value.first.name && '\n' !in rodeo.turns[k][j].team1.value.second.name
      && '\n' !in rodeo.turns[k][j].team2.value.first.name && '\n' !in rodeo.turns[k][j].team2.value.second.name
    ensures var lines := Split(RodeoCsv.CsvText(DomainTurns(rodeo.turns)), '\n');
      |lines| == |rodeo.turns| + 1 && lines[|rodeo.turns|] == ""
      && forall k :: 0 <= k < |rodeo.turns| ==> lines[k] == RodeoCsv.RoundText(k + 1, DomainTurn(rodeo.turns[k]))
  {
    var d := DomainTurns(rodeo.turns);
    assert RodeoCsv.NoNewlineIds(d) by {
      forall k, j | 0 <= k < |d| && 0 <= j < |d[k]| ensures RodeoCsv.NoNewlineMatch(d[k][j]) {
        assert d[k][j] == DomainMatch(rodeo.turns[k][j]);
      }
    }
    RodeoCsv.CsvLines(d);
  }
}

/**
 * The CSV text of a Rodeo (`Rodeo.SerializeToCSV` of the earlier Go
 * snapshot; the C++ `rodeo_to_csv` writes the same text to its file).
 *
 * One line per round, each ended by a newline: "Round i," followed, for
 * each match, by "Match j,", "A1 - A2," and "B1 - B2," (the person ids of
 * the two teams). Rounds and matches are numbered from 1; match numbers
 * start again in every round.
 */
module RodeoCsv {
  import opened Domain
  import opened Text

  /** The cell "Match j,". */
  function NumberCell(j: int): string
  {
    "Match " + IntToString(j) + ","
  }

  /** The cell "P1 - P2," of a team. */
  function TeamCell(t: Team): string
  {
    t.person1.id + " - " + t.person2.id + ","
  }

  /** The three cells of the `j`-th match of a round. */
  function MatchCell(j: int, m: Match): string
  {
    NumberCell(j) + TeamCell(m.teamA) + TeamCell(m.teamB)
  }

  /** The cells of a round's matches, numbered from 1 in round order. */
  function MatchCells(ms: seq<Match>): string
  {
    if ms == [] then "" else MatchCells(ms[..|ms| - 1]) + MatchCell(|ms|, ms[|ms| - 1])
  }

  /** Line `i` of the text, without its newline. */
  function RoundText(i: int, round: seq<Match>): string
  {
    "Round " + IntToString(i) + "," + MatchCells(round)
  }

  /** The lines of the text, round `k` (from 0) numbered `k + 1`. */
  function RoundTexts(rounds: seq<seq<Match>>): (lines: seq<string>)
    ensures |lines| == |rounds|
    ensures forall k :: 0 <= k < |rounds| ==> lines[k] == RoundText(k + 1, rounds[k])
  {
    if rounds == [] then [] else RoundTexts(rounds[..|rounds| - 1]) + [RoundText(|rounds|, rounds[|rounds| - 1])]
  }

  /** The whole text: every line followed by a newline; empty exactly when there are no rounds. */
  function CsvText(rounds: seq<seq<Match>>): (s: string)
    ensures s == "" <==> rounds == []
  {
    if rounds == [] then ""
    else CsvText(rounds[..|rounds| - 1]) + RoundText(|rounds|, rounds[|rounds| - 1]) + "\n"
  }

  /** `SerializeToCSV` of the earlier snapshot: the builder loops over rounds and matches. */
  method SerializeToCSV(rodeo: Rodeo) returns (csv: string)
    ensures csv == CsvText(rodeo.rounds)
  {
    var sb := "";
    var turns := rodeo.rounds;
    var i := 1;
    while i <= |turns|
      invariant 1 <= i <= |turns| + 1
      invariant sb == CsvText(turns[..i - 1])
    {
      var t := turns[i - 1];
      ghost var before := sb;
      sb := sb + ("Round " + IntToString(i) + ",");
      ghost var head := sb;
      sb := WriteMatches(sb, t);
      sb := sb + "\n";
      LineStep(turns, i, before, head, sb);
      i := i + 1;
    }
    assert turns[..|turns|] == turns;
    csv := sb;
  }

  /** The inner loop of `SerializeToCSV`: the cells of a round's matches, appended to the builder. */
  method WriteMatches(head: string, t: seq<Match>) returns (sb: string)
    ensures sb == head + MatchCells(t)
  {
    sb := head;
    var matchNumber := 1;
    while matchNumber <= |t|
      invariant 1 <= matchNumber <= |t| + 1
      invariant sb == head + MatchCells(t[..matchNumber - 1])
    {
      var m := t[matchNumber - 1];
      ghost var cells := sb;
      sb := sb + NumberCell(matchNumber);
      sb := sb + TeamCell(m.teamA);
      sb := sb + TeamCell(m.teamB);
      CellsStep(head, t, matchNumber, cells, sb);
      matchNumber := matchNumber + 1;
    }
    assert t[..|t|] == t;
  }

  lemma CellsStep(head: string, t: seq<Match>, j: int, cells: string, sb: string)
    requires 1 <= j <= |t| && cells == head + MatchCells(t[..j - 1])
    requires sb == cells + NumberCell(j) + TeamCell(t[j - 1].teamA) + TeamCell(t[j - 1].teamB)
    ensures sb == head + MatchCells(t[..j])
  {
    var done := MatchCells(t[..j - 1]);
    var number, a, b := NumberCell(j), TeamCell(t[j - 1].teamA), TeamCell(t[j - 1].teamB);
    assert t[..j][..j - 1] == t[..j - 1];
    assert MatchCells(t[..j]) == done + (number + a + b);
    Assoc(head, done, number);
    Assoc(head, done + number, a);
    Assoc(done + number, a, b);
    Assoc(head, done + number + a, b);
    Assoc(done, number + a, b);
    Assoc(done, number, a);
  }

  lemma LineStep(turns: seq<seq<Match>>, i: int, before: string, head: string, sb: string)
    requires 1 <= i <= |turns| && before == CsvText(turns[..i - 1])
    requires head == before + ("Round " + IntToString(i) + ",")
    requires sb == head + MatchCells(turns[i - 1]) + "\n"
    ensures sb == CsvText(turns[..i])
  {
    var prefix := turns[..i];
    assert prefix[..i - 1] == turns[..i - 1] && prefix[i - 1] == turns[i - 1];
    var heading := "Round " + IntToString(i) + ",";
    var cells := MatchCells(turns[i - 1]);
    assert RoundText(i, turns[i - 1]) == heading + cells;
    Assoc(before, heading, cells);
  }

  lemma Assoc<T>(a: seq<T>, b: seq<T>, c: seq<T>)
    ensures a + b + c == a + (b + c)
  {
  }

  /** No person id of the match holds a newline. */
  predicate NoNewlineMatch(m: Match)
  {
    '\n' !in m.teamA.person1.id && '\n' !in m.teamA.person2.id
    && '\n' !in m.teamB.person1.id && '\n' !in m.teamB.person2.id
  }

  /** No person id of the rounds holds a newline. */
  predicate NoNewlineIds(rounds: seq<seq<Match>>)
  {
    forall k, j :: 0 <= k < |rounds| && 0 <= j < |rounds[k]| ==> NoNewlineMatch(rounds[k][j])
  }

  lemma {:induction false} MatchCellsNoNewline(ms: seq<Match>)
    requires forall j :: 0 <= j < |ms| ==> NoNewlineMatch(ms[j])
    ensures '\n' !in MatchCells(ms)
  {
    if ms != [] {
      var init := ms[..|ms| - 1];
      MatchCellsNoNewline(init);
      assert NoNewlineMatch(ms[|ms| - 1]);
      assert '\n' !in IntToString(|ms|);
    }
  }

  lemma RoundTextNoNewline(i: nat, round: seq<Match>)
    requires forall j :: 0 <= j < |round| ==> NoNewlineMatch(round[j])
    ensures '\n' !in RoundText(i, round)
  {
    MatchCellsNoNewline(round);
    assert '\n' !in IntToString(i);
  }

  /** The text is its lines joined by newlines, with a final empty piece. */
  lemma {:induction false} CsvIsJoin(rounds: seq<seq<Match>>)
    ensures CsvText(rounds) == Join(RoundTexts(rounds) + [""], "\n")
  {
    if rounds != [] {
      var init := rounds[..|rounds| - 1];
      var line := RoundText(|rounds|, rounds[|rounds| - 1]);
      CsvIsJoin(init);
      assert RoundTexts(rounds) + [""] == RoundTexts(init) + [line] + [""];
      JoinTerminated(RoundTexts(init), line, "\n");
    }
  }

  /** One more piece before the final empty one adds that piece and a separator at the end. */
  lemma {:induction false} JoinTerminated(lines: seq<string>, x: string, sep: string)
    ensures Join(lines + [x] + [""], sep) == Join(lines + [""], sep) + x + sep
  {
    if lines == [] {
      assert [x] + [""] == [x, ""];
      assert ([x, ""])[1..] == [""];
    } else {
      var rest := lines[1..];
      JoinTerminated(rest, x, sep);
      assert lines + [x] + [""] == [lines[0]] + (rest + [x] + [""]);
      assert lines + [""] == [lines[0]] + (rest + [""]);
      JoinCons(lines[0], rest + [x] + [""], sep);
      JoinCons(lines[0], rest + [""], sep);
      Assoc(lines[0] + sep, Join(rest + [""], sep), x + sep);
    }
  }

  /**
   * Reading the text back: splitting at newlines gives line `k + 1` for
   * each round `k` and a final empty piece, so there are exactly as many
   * newlines as rounds (person ids without newlines).
   */
  lemma CsvLines(rounds: seq<seq<Match>>)
    requires NoNewlineIds(rounds)
    ensures Split(CsvText(rounds), '\n') == RoundTexts(rounds) + [""]
  {
    CsvIsJoin(rounds);
    var parts := RoundTexts(rounds) + [""];
    forall i | 0 <= i < |parts| ensures '\n' !in parts[i] {
      if i < |rounds| {
        RoundTextNoNewline(i + 1, rounds[i]);
      }
    }
    SplitJoin(parts, '\n');
  }
}

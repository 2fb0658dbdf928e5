/**
 * The tournament-creation service of the earlier Go snapshot: the team list
 * read out of a chat message, one team per line, and the dispatch on the
 * tournament type to the Rodeo factory.
 *
 * The message arrives through a `bufio.Scanner` with its default line
 * splitting; the model takes the whole message text and splits it as that
 * scanner does.
 */
module CreateService {
  import opened Wrappers
  import opened Domain
  import Text
  import Feasibility
  import LegacyFactory

  // ----- the scanner -----

  /** A trailing carriage return is not part of a scanned line. */
  function DropCR(line: string): (r: string)
    ensures r == line || (r + "\r" == line)
  {
    if |line| > 0 && line[|line| - 1] == '\r' then line[..|line| - 1] else line
  }

  /**
   * The lines `bufio.ScanLines` yields for `text`: the pieces between line
   * feeds, a final empty piece (the text ended with a line feed) not
   * counted, each without a trailing carriage return.
   */
  function ScanLines(text: string): (lines: seq<string>)
  {
    if text == [] then []
    else
      var pieces := Text.Split(text, '\n');
      var kept := if pieces[|pieces| - 1] == "" then pieces[..|pieces| - 1] else pieces;
      seq(|kept|, k requires 0 <= k < |kept| => DropCR(kept[k]))
  }

  // ----- one line, one team -----

  /**
   * The team a line describes: its first two comma-separated fields, with
   * white space trimmed, as the two players of a Male team; a line with no
   * comma describes none. Further fields are ignored.
   */
  function TeamOfLine(line: string): (t: Option<Team>)
    ensures t.Some? ==> t.value.gender == Male
  {
    var row := Text.Split(line, ',');
    if |row| < 2 then None
    else Some(Team(Person(Text.TrimSpace(row[0])), Person(Text.TrimSpace(row[1])), Male))
  }

  /** Exactly the lines with a comma describe a team. */
  lemma TeamOfLineNone(line: string)
    ensures TeamOfLine(line).None? <==> ',' !in line
  {
    SplitPieces(line, ',');
  }

  /** `strings.Split` gives more than one piece exactly when the separator occurs. */
  lemma {:induction false} SplitPieces(s: string, c: char)
    ensures |Text.Split(s, c)| >= 2 <==> c in s
    decreases |s|
  {
    if |s| > 0 {
      SplitPieces(s[1..], c);
      assert c in s <==> s[0] == c || c in s[1..];
    }
  }

  /** What each line describes. */
  function Options(lines: seq<string>): (opts: seq<Option<Team>>)
    ensures |opts| == |lines|
    ensures forall k :: 0 <= k < |lines| ==> opts[k] == TeamOfLine(lines[k])
  {
    seq(|lines|, k requires 0 <= k < |lines| => TeamOfLine(lines[k]))
  }

  /** The teams among `opts`, in order. */
  function Flat(opts: seq<Option<Team>>): (teams: seq<Team>)
    ensures |teams| <= |opts|
    ensures forall k :: 0 <= k < |teams| ==> Some(teams[k]) in opts
    decreases |opts|
  {
    if opts == [] then []
    else
      var init := Flat(opts[..|opts| - 1]);
      if opts[|opts| - 1].Some? then init + [opts[|opts| - 1].value] else init
  }

  /** The teams of the lines that describe one, in line order. */
  function TeamsOf(lines: seq<string>): (teams: seq<Team>)
    ensures |teams| <= |lines|
    ensures forall k :: 0 <= k < |teams| ==> teams[k].gender == Male
  {
    Flat(Options(lines))
  }

  /**
   * `MakeTeamsFromMessage`: one team per scanned line with at least one
   * comma, in line order; the error it returns is always nil.
   */
  method MakeTeamsFromMessage(text: string) returns (teams: seq<Team>, err: Option<string>)
    ensures teams == TeamsOf(ScanLines(text)) && err == None
  {
    var lines := ScanLines(text);
    teams := [];
    var k := 0;
    while k < |lines|
      invariant 0 <= k <= |lines|
      invariant teams == Flat(Options(lines[..k]))
    {
      var line := lines[k];
      var row := Text.Split(line, ',');
      if |row| >= 2 {
        var person1 := Person(Text.TrimSpace(row[0]));
        var person2 := Person(Text.TrimSpace(row[1]));
        teams := teams + [Team(person1, person2, Male)];
      }
      OptionsStep(lines, k);
      k := k + 1;
    }
    assert lines[..k] == lines;
    err := None;
  }

  lemma OptionsStep(lines: seq<string>, k: nat)
    requires k < |lines|
    ensures Options(lines[..k + 1])[..k] == Options(lines[..k])
    ensures Options(lines[..k + 1])[k] == TeamOfLine(lines[k])
  {
  }

  lemma {:induction false} FlatAppend(a: seq<Option<Team>>, b: seq<Option<Team>>)
    ensures Flat(a + b) == Flat(a) + Flat(b)
    decreases |b|
  {
    if b == [] {
      assert a + b == a;
    } else {
      var init := b[..|b| - 1];
      FlatAppend(a, init);
      assert (a + b)[..|a + b| - 1] == a + init;
    }
  }

  /** Reading consecutive stretches of lines gives their teams one after the other. */
  lemma TeamsOfAppend(a: seq<string>, b: seq<string>)
    ensures TeamsOf(a + b) == TeamsOf(a) + TeamsOf(b)
  {
    assert Options(a + b) == Options(a) + Options(b);
    FlatAppend(Options(a), Options(b));
  }

  lemma {:induction false} FlatNone(opts: seq<Option<Team>>)
    requires forall k :: 0 <= k < |opts| ==> opts[k].None?
    ensures Flat(opts) == []
    decreases |opts|
  {
    if opts != [] {
      FlatNone(opts[..|opts| - 1]);
    }
  }

  /** Lines without a comma, such as the numeric header lines of a message, add no team. */
  lemma TeamsOfPlain(lines: seq<string>)
    requires forall k :: 0 <= k < |lines| ==> ',' !in lines[k]
    ensures TeamsOf(lines) == []
  {
    forall k | 0 <= k < |lines| ensures Options(lines)[k].None? {
      TeamOfLineNone(lines[k]);
    }
    FlatNone(Options(lines));
  }

  lemma {:induction false} FlatSome(opts: seq<Option<Team>>, teams: seq<Team>)
    requires |opts| == |teams|
    requires forall k :: 0 <= k < |opts| ==> opts[k] == Some(teams[k])
    ensures Flat(opts) == teams
    decreases |opts|
  {
    if opts != [] {
      FlatSome(opts[..|opts| - 1], teams[..|teams| - 1]);
    }
  }

  // ----- the message a list of teams makes -----

  /** A player name the message can carry unchanged: no comma, no line feed, no white space at either end. */
  predicate CleanId(id: string)
  {
    ',' !in id && '\n' !in id && Text.TrimSpace(id) == id
  }

  /** The line of a team, written as the chat messages write it. */
  function TeamLine(t: Team): string
  {
    t.person1.id + ", " + t.person2.id
  }

  /** Lines, each closed by a line feed. */
  function Lines(ls: seq<string>): (text: string)
    decreases |ls|
  {
    if ls == [] then "" else ls[0] + "\n" + Lines(ls[1..])
  }

  function TeamLines(teams: seq<Team>): (ls: seq<string>)
    ensures |ls| == |teams|
    ensures forall k :: 0 <= k < |teams| ==> ls[k] == TeamLine(teams[k])
  {
    seq(|teams|, k requires 0 <= k < |teams| => TeamLine(teams[k]))
  }

  /** A message: header lines followed by one line per team. */
  function Message(header: seq<string>, teams: seq<Team>): string
  {
    Lines(header + TeamLines(teams))
  }

  /**
   * Reading a message back: header lines without a comma are skipped, and
   * every Male team whose player names are clean comes back, in order.
   */
  lemma MessageRoundTrip(header: seq<string>, teams: seq<Team>)
    requires forall k :: 0 <= k < |header| ==> ',' !in header[k] && '\n' !in header[k]
    requires forall k :: 0 <= k < |header| ==> header[k] == [] || header[k][|header[k]| - 1] != '\r'
    requires forall k :: 0 <= k < |teams| ==> teams[k].gender == Male
    requires forall k :: 0 <= k < |teams| ==> CleanId(teams[k].person1.id) && CleanId(teams[k].person2.id)
    ensures TeamsOf(ScanLines(Message(header, teams))) == teams
  {
    var ls := header + TeamLines(teams);
    forall k | 0 <= k < |ls|
      ensures '\n' !in ls[k] && (ls[k] == [] || ls[k][|ls[k]| - 1] != '\r')
    {
      if k >= |header| {
        var t := teams[k - |header|];
        assert ls[k] == TeamLine(t);
        NotCR(t.person2.id);
      }
    }
    ScanLinesRoundTrip(ls);
    TeamsOfAppend(header, TeamLines(teams));
    TeamsOfPlain(header);
    TeamsOfTeamLines(teams);
    assert [] + teams == teams;
  }

  /** A clean name never ends with a carriage return, which is white space. */
  lemma NotCR(id: string)
    requires CleanId(id)
    ensures id == [] || id[|id| - 1] != '\r'
  {
  }

  lemma TeamsOfTeamLines(teams: seq<Team>)
    requires forall k :: 0 <= k < |teams| ==> teams[k].gender == Male
    requires forall k :: 0 <= k < |teams| ==> CleanId(teams[k].person1.id) && CleanId(teams[k].person2.id)
    ensures TeamsOf(TeamLines(teams)) == teams
  {
    var opts := Options(TeamLines(teams));
    forall k | 0 <= k < |teams| ensures opts[k] == Some(teams[k]) {
      LineOfTeam(teams[k]);
    }
    FlatSome(opts, teams);
  }

  /** The line of a clean team describes that team. */
  lemma LineOfTeam(t: Team)
    requires t.gender == Male && CleanId(t.person1.id) && CleanId(t.person2.id)
    ensures TeamOfLine(TeamLine(t)) == Some(t)
  {
    var p1, p2 := t.person1.id, t.person2.id;
    assert TeamLine(t) == p1 + [','] + (" " + p2);
    Text.SplitAfterPiece(p1, ',', " " + p2);
    Text.SplitPlain(" " + p2, ',');
    TrimLeadingSpace(p2);
  }

  /** A trimmed name with one blank in front of it trims back to itself. */
  lemma TrimLeadingSpace(id: string)
    requires Text.TrimSpace(id) == id
    ensures Text.TrimSpace(" " + id) == id
  {
    var l := Text.TrimLeft(id);
    assert |Text.TrimRight(l)| <= |l| <= |id|;
    assert l == id;
    assert (" " + id)[1..] == id;
    assert Text.TrimLeft(" " + id) == l;
  }

  /** Splitting lines closed by line feeds gives the lines and a final empty piece. */
  lemma {:induction false} SplitLines(ls: seq<string>)
    requires forall k :: 0 <= k < |ls| ==> '\n' !in ls[k]
    ensures Text.Split(Lines(ls), '\n') == ls + [""]
    decreases |ls|
  {
    if ls != [] {
      SplitLines(ls[1..]);
      Text.SplitAfterPiece(ls[0], '\n', Lines(ls[1..]));
      assert Lines(ls) == ls[0] + ['\n'] + Lines(ls[1..]);
      assert ls == [ls[0]] + ls[1..];
    }
  }

  /** The scanner reads back the lines of a text made of lines closed by line feeds. */
  lemma ScanLinesRoundTrip(ls: seq<string>)
    requires forall k :: 0 <= k < |ls| ==> '\n' !in ls[k] && (ls[k] == [] || ls[k][|ls[k]| - 1] != '\r')
    ensures ScanLines(Lines(ls)) == ls
  {
    if ls != [] {
      SplitLines(ls);
      assert (ls + [""])[..|ls|] == ls;
      forall k | 0 <= k < |ls| ensures DropCR(ls[k]) == ls[k] {
      }
    }
  }

  /**
   * The message of the service's own test: two numeric header lines and ten
   * teams read back as ten teams.
   */
  lemma TenTeams(teams: seq<Team>)
    requires |teams| == 10
    requires forall k :: 0 <= k < |teams| ==> teams[k].gender == Male
    requires forall k :: 0 <= k < |teams| ==> CleanId(teams[k].person1.id) && CleanId(teams[k].person2.id)
    ensures |TeamsOf(ScanLines(Message(["5", "8"], teams)))| == 10
  {
    MessageRoundTrip(["5", "8"], teams);
  }

  // ----- the dispatch -----

  /**
   * `CreateTournament`: only the "Rodeo" type is known. Its factory gets the
   * rounds and courts asked for; a factory error becomes no tournament, so
   * does an unknown type. The snapshot calls the factory without the
   * context argument its signature asks for; the model passes one that is
   * never cancelled.
   */
  method CreateTournament(tournamentType: string, dateStart: Date, teams: seq<Team>, totalRounds: int, availableCourts: int)
    returns (t: Option<Rodeo>, ghost reason: string, ghost rounds: seq<Matching>, ghost edges: Matching,
             ghost packed: set<Edge>, ghost orders: seq<seq<Edge>>)
    requires forall u :: u in teams ==> KnownGender(u.gender)
    ensures tournamentType != "Rodeo" ==> t == None
    ensures var d := Feasibility.BestDraw(|teams|, totalRounds, availableCourts, true);
      tournamentType == "Rodeo" && d.totalMatches == 0 ==> t == None
    ensures var d := Feasibility.BestDraw(|teams|, totalRounds, availableCourts, true);
      t.Some? ==> (tournamentType == "Rodeo"
        && LegacyFactory.LegacyBuilt(t.value, teams, d, totalRounds, dateStart, rounds, edges, packed, orders))
    ensures var d := Feasibility.BestDraw(|teams|, totalRounds, availableCourts, true);
      tournamentType == "Rodeo" && t.None? && d.totalMatches > 0 ==>
        LegacyFactory.LegacyRefused(reason, teams, d, totalRounds, edges, packed)
  {
    reason, rounds, edges, packed, orders := "", [], {}, {}, [];
    if tournamentType == "Rodeo" {
      var factory := LegacyFactory.LegacyRodeoFactory(totalRounds, availableCourts);
      var r;
      r, rounds, edges, packed, orders := LegacyFactory.LegacyMakeTournament(factory, teams, dateStart);
      if r.Err? {
        reason := r.error;
        return None, reason, rounds, edges, packed, orders;
      }
      return Some(r.value), reason, rounds, edges, packed, orders;
    }
    t := None;
  }
}

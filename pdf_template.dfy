/**
 * The data a tournament's PDF template is filled with: per round its number
 * (from 1) and per match the court, the two teams written by their players'
 * surnames, and empty score boxes; the start date in ISO form.
 *
 * Both Go trees convert a Rodeo and a stored `TournamentData` the same way,
 * with the same output types; `PdfTemplate` holds the current tree's two
 * conversions and the shared pieces, `LegacyPdfTemplate` the earlier
 * snapshot's. Template rendering and the headless browser are not modelled.
 */
module PdfTemplate {
  import opened Domain
  import Text

  /** A match as the template shows it. */
  datatype PdfMatch = PdfMatch(court: string, teamA: string, scoreA: string, teamB: string, scoreB: string,
                               roundNumber: int)

  datatype PdfRound = PdfRound(roundNumber: int, matches: seq<PdfMatch>)

  datatype PdfTournament = PdfTournament(name: string, startDate: string, rounds: seq<PdfRound>)

  datatype TemplateData = TemplateData(tournament: PdfTournament)

  // ----- surnames -----

  /** The last blank-separated word of a player's name. */
  function Surname(id: string): (r: string)
    ensures ' ' !in r
    ensures |r| <= |id| && r == id[|id| - |r|..]
    ensures |r| == |id| || id[|id| - |r| - 1] == ' '
  {
    Text.LastField(id, ' ')
  }

  /** A full name keeps its last word. */
  lemma SurnameOfFullName(given: string, family: string)
    requires ' ' !in family
    ensures Surname(given + " " + family) == family
  {
    var id := given + " " + family;
    var r := Surname(id);
    assert id[|id| - |family|..] == family;
    assert id[|id| - |family| - 1] == ' ';
  }

  /** The label of a team: both surnames, comma separated. */
  function TeamLabel(t: Team): string
  {
    Surname(t.person1.id) + ", " + Surname(t.person2.id)
  }

  function PdfMatchOf(m: Match, roundNumber: int): PdfMatch
  {
    PdfMatch(Text.IntToString(m.courtId), TeamLabel(m.teamA), "", TeamLabel(m.teamB), "", roundNumber)
  }

  /** The matches of one round, in order, tagged with the round's number. */
  function PdfMatches(round: seq<Match>, roundNumber: int): (ms: seq<PdfMatch>)
    ensures |ms| == |round|
  {
    seq(|round|, j requires 0 <= j < |round| => PdfMatchOf(round[j], roundNumber))
  }

  /** The rounds, numbered from 1 in their order. */
  function PdfRounds(rounds: seq<seq<Match>>): (rs: seq<PdfRound>)
    ensures |rs| == |rounds|
  {
    seq(|rounds|, k requires 0 <= k < |rounds| => PdfRound(k + 1, PdfMatches(rounds[k], k + 1)))
  }

  /**
   * What a converted round holds: its number is its position plus one, each
   * match carries that number, an empty score on both sides, the court
   * written in decimal (which reads back as the court for a court from 0 up)
   * and the surname labels of its teams.
   */
  lemma PdfRoundsShape(rounds: seq<seq<Match>>, k: int, j: int)
    requires 0 <= k < |rounds| && 0 <= j < |rounds[k]|
    ensures var r := PdfRounds(rounds)[k];
      r.roundNumber == k + 1 && |r.matches| == |rounds[k]|
      && r.matches[j].roundNumber == r.roundNumber
      && r.matches[j].scoreA == "" && r.matches[j].scoreB == ""
      && r.matches[j].teamA == TeamLabel(rounds[k][j].teamA) && r.matches[j].teamB == TeamLabel(rounds[k][j].teamB)
      && (rounds[k][j].courtId >= 0 ==>
            Text.AllDigits(r.matches[j].court) && Text.DigitsValue(r.matches[j].court) == rounds[k][j].courtId)
      && (rounds[k][j].courtId < 0 ==> r.matches[j].court[0] == '-')
  {
    var c := rounds[k][j].courtId;
    if c >= 0 {
      Text.NatToStringRoundTrip(c);
    }
  }

  // ----- the date -----

  function Zeros(k: nat): (z: string)
    ensures |z| == k && Text.AllDigits(z)
    ensures forall i :: 0 <= i < k ==> z[i] == '0'
  {
    if k == 0 then "" else Zeros(k - 1) + "0"
  }

  /** `n` in decimal, zero-filled on the left to at least `width` digits. */
  function Padded(n: nat, width: nat): (s: string)
    ensures Text.AllDigits(s)
    ensures |s| == if |Text.NatToString(n)| >= width then |Text.NatToString(n)| else width
  {
    var d := Text.NatToString(n);
    if |d| >= width then d else Zeros(width - |d|) + d
  }

  /** A date in Go's layout "2006-01-02": four-digit year (a sign when negative), two-digit month and day. */
  function FormatDate(d: Date): (s: string)
    requires 1 <= d.month <= 12 && 1 <= d.day <= 31
  {
    (if d.year < 0 then "-" + Padded(-d.year, 4) else Padded(d.year, 4))
    + "-" + Padded(d.month, 2) + "-" + Padded(d.day, 2)
  }

  /** Leading zeros do not change a decimal value. */
  lemma {:induction false} ZerosValue(k: nat, s: string)
    requires Text.AllDigits(s)
    ensures Text.DigitsValue(Zeros(k) + s) == Text.DigitsValue(s)
    decreases |s|, k
  {
    if |s| == 0 {
      assert Zeros(k) + s == Zeros(k);
      if k > 0 {
        ZerosValue(k - 1, "");
        assert Zeros(k - 1) + "" == Zeros(k - 1);
      }
    } else {
      var z := Zeros(k) + s;
      assert z[..|z| - 1] == Zeros(k) + s[..|s| - 1];
      ZerosValue(k, s[..|s| - 1]);
    }
  }

  lemma PaddedValue(n: nat, width: nat)
    ensures Text.DigitsValue(Padded(n, width)) == n
  {
    var d := Text.NatToString(n);
    Text.NatToStringRoundTrip(n);
    if |d| < width {
      ZerosValue(width - |d|, d);
    }
  }

  /**
   * A date of the years 0 to 9999 is written in ten characters, dashes at
   * positions 4 and 7, and its three fields read back from the digits.
   */
  lemma FormatDateRoundTrip(d: Date)
    requires 0 <= d.year <= 9999 && 1 <= d.month <= 12 && 1 <= d.day <= 31
    ensures var s := FormatDate(d);
      |s| == 10 && s[4] == '-' && s[7] == '-'
      && Text.AllDigits(s[..4]) && Text.AllDigits(s[5..7]) && Text.AllDigits(s[8..])
      && Text.DigitsValue(s[..4]) == d.year && Text.DigitsValue(s[5..7]) == d.month
      && Text.DigitsValue(s[8..]) == d.day
  {
    PaddedExact(d.year, 4);
    PaddedExact(d.month, 2);
    PaddedExact(d.day, 2);
    ThreeFields(Padded(d.year, 4), Padded(d.month, 2), Padded(d.day, 2));
  }

  /** A number below 10^w is written in exactly w digits that read back as the number. */
  lemma PaddedExact(n: nat, w: nat)
    requires (w == 2 && n < 100) || (w == 4 && n < 10000)
    ensures |Padded(n, w)| == w && Text.DigitsValue(Padded(n, w)) == n
  {
    DigitsAtMost(n, w);
    PaddedValue(n, w);
  }

  lemma ThreeFields(y: string, m: string, d: string)
    requires |y| == 4 && |m| == 2 && |d| == 2
    requires Text.AllDigits(y) && Text.AllDigits(m) && Text.AllDigits(d)
    ensures var s := y + "-" + m + "-" + d;
      |s| == 10 && s[4] == '-' && s[7] == '-' && s[..4] == y && s[5..7] == m && s[8..] == d
  {
  }

  /** A number below 10^w has at most w digits. */
  lemma {:induction false} DigitsAtMost(n: nat, w: nat)
    requires (w == 2 && n < 100) || (w == 4 && n < 10000)
    ensures |Text.NatToString(n)| <= w
  {
    if n >= 10 {
      assert Text.NatToString(n) == Text.NatToString(n / 10) + [Text.DigitChar(n % 10)];
      if n >= 100 {
        assert Text.NatToString(n / 10) == Text.NatToString(n / 100) + [Text.DigitChar(n / 10 % 10)];
        if n >= 1000 {
          assert Text.NatToString(n / 100) == Text.NatToString(n / 1000) + [Text.DigitChar(n / 100 % 10)];
        }
      }
    }
  }

  // ----- the conversion loops -----

  /** The inner loop: one template match per match of the round. */
  method TemplateMatches(round: seq<Match>, roundNumber: int) returns (matches: seq<PdfMatch>)
    ensures matches == PdfMatches(round, roundNumber)
  {
    matches := [];
    var j := 0;
    while j < |round|
      invariant 0 <= j <= |round| && |matches| == j
      invariant forall k :: 0 <= k < j ==> matches[k] == PdfMatchOf(round[k], roundNumber)
    {
      var m := round[j];
      var surnamesA := Surname(m.teamA.person1.id) + ", " + Surname(m.teamA.person2.id);
      var surnamesB := Surname(m.teamB.person1.id) + ", " + Surname(m.teamB.person2.id);
      matches := matches + [PdfMatch(Text.IntToString(m.courtId), surnamesA, "", surnamesB, "", roundNumber)];
      assert matches[j] == PdfMatchOf(round[j], roundNumber);
      j := j + 1;
    }
    assert forall k :: 0 <= k < |round| ==> matches[k] == PdfMatches(round, roundNumber)[k];
  }

  /** The outer loop: one template round per round, numbered from 1. */
  method TemplateRounds(rounds: seq<seq<Match>>) returns (out: seq<PdfRound>)
    ensures out == PdfRounds(rounds)
  {
    out := [];
    var k := 0;
    while k < |rounds|
      invariant 0 <= k <= |rounds|
      invariant out == PdfRounds(rounds[..k])
    {
      var matches := TemplateMatches(rounds[k], k + 1);
      out := out + [PdfRound(k + 1, matches)];
      k := k + 1;
    }
    assert rounds[..k] == rounds;
  }

  /** The part every conversion shares: the name, the start date formatted, the rounds converted. */
  method ToTemplateData(name: string, dateStart: Date, rounds: seq<seq<Match>>) returns (data: TemplateData)
    requires 1 <= dateStart.month <= 12 && 1 <= dateStart.day <= 31
    ensures data.tournament.name == name && data.tournament.startDate == FormatDate(dateStart)
    ensures data.tournament.rounds == PdfRounds(rounds)
  {
    var converted := TemplateRounds(rounds);
    data := TemplateData(PdfTournament(name, FormatDate(dateStart), converted));
  }

  /** `FromTournamentToTemplateData`: the Rodeo's name, its start date, its rounds converted. */
  method FromTournamentToTemplateData(t: Rodeo) returns (data: TemplateData)
    requires 1 <= t.dateStart.month <= 12 && 1 <= t.dateStart.day <= 31
    ensures data.tournament.name == t.name && data.tournament.startDate == FormatDate(t.dateStart)
    ensures data.tournament.rounds == PdfRounds(t.rounds)
  {
    data := ToTemplateData(t.name, t.dateStart, t.rounds);
  }

  /** `FromTournamentDataToTemplateData`: the same conversion of a stored tournament. */
  method FromTournamentDataToTemplateData(t: TournamentData) returns (data: TemplateData)
    requires 1 <= t.dateStart.month <= 12 && 1 <= t.dateStart.day <= 31
    ensures data.tournament.name == t.name && data.tournament.startDate == FormatDate(t.dateStart)
    ensures data.tournament.rounds == PdfRounds(t.rounds)
  {
    data := ToTemplateData(t.name, t.dateStart, t.rounds);
  }

  // ----- the template kinds -----

  /** The template kinds of the PDF service: Rodeo is the first, 0. */
  const PdfRodeo: int := 0

  /** `TournamentType.String`: the template kind's name, "" for a kind the table does not list. */
  function TypeName(tt: int): (s: string)
    ensures s == "Rodeo" <==> tt == PdfRodeo
    ensures tt != PdfRodeo ==> s == ""
  {
    if tt == PdfRodeo then "Rodeo" else ""
  }

  /**
   * The PDF service numbers its kinds from 0 while the tournament package
   * numbers Rodeo 1 (after the empty type): the tournament package's Rodeo
   * value has no name here.
   */
  lemma KindsNumberedApart()
    ensures TypeName(TournamentTypeRodeo) == "" && TypeName(PdfRodeo) == "Rodeo"
  {
  }
}

/**
 * The earlier snapshot's conversions: the same output, from rounds that are
 * plain match lists.
 */
module LegacyPdfTemplate {
  import opened Domain
  import opened PdfTemplate

  /** `FromTournamentToTemplateData` of the earlier snapshot. */
  method LegacyFromTournamentToTemplateData(t: Rodeo) returns (data: TemplateData)
    requires 1 <= t.dateStart.month <= 12 && 1 <= t.dateStart.day <= 31
    ensures data.tournament.name == t.name && data.tournament.startDate == FormatDate(t.dateStart)
    ensures data.tournament.rounds == PdfRounds(t.rounds)
  {
    data := ToTemplateData(t.name, t.dateStart, t.rounds);
  }

  /** `FromTournamentDataToTemplateData` of the earlier snapshot. */
  method LegacyFromTournamentDataToTemplateData(t: TournamentData) returns (data: TemplateData)
    requires 1 <= t.dateStart.month <= 12 && 1 <= t.dateStart.day <= 31
    ensures data.tournament.name == t.name && data.tournament.startDate == FormatDate(t.dateStart)
    ensures data.tournament.rounds == PdfRounds(t.rounds)
  {
    data := ToTemplateData(t.name, t.dateStart, t.rounds);
  }
}

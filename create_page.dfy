/**
 * The tournament-creation pages of the web client: the module-level store of
 * the teams entered so far, the add-team form action, the gender labels, the
 * choice of matches per team shown while the organiser types the number of
 * rounds and courts, and the request the "Send" button issues.
 */
module CreateTournamentPage {
  import opened Wrappers
  import opened Domain
  import opened JsNumbers
  import Feasibility
  import Text
  import opened FetchApi

  /** The client's `Team`: two people and the numeric gender code picked in the form. */
  datatype ClientTeam = ClientTeam(person1: Person, person2: Person, gender: JsNumber)

  /** `genderToString`: the label of a gender code; any other code throws. */
  function GenderToString(g: JsNumber): (r: Result<string>)
    ensures r == Ok("Male") <==> g == Num(0)
    ensures r == Ok("Female") <==> g == Num(1)
    ensures r == Ok("Mixed") <==> g == Num(2)
    ensures r.Err? <==> !(g.Num? && 0 <= g.n <= 2)
    ensures r.Err? ==> r.error == "Team gender not recognized"
  {
    if g == Num(0) then Ok("Male")
    else if g == Num(1) then Ok("Female")
    else if g == Num(2) then Ok("Mixed")
    else Err("Team gender not recognized")
  }

  /** The values of the gender select of the add-team form. */
  const GenderOptions: seq<string> := ["0", "1", "2"]

  /** Every gender the add-team form offers is shown back with its label and never throws. */
  lemma GenderOptionsShown()
    ensures GenderToString(ParseInt(GenderOptions[0])) == Ok("Male")
    ensures GenderToString(ParseInt(GenderOptions[1])) == Ok("Female")
    ensures GenderToString(ParseInt(GenderOptions[2])) == Ok("Mixed")
  {
    OptionParses(0);
    OptionParses(1);
    OptionParses(2);
  }

  /** The value of option `k` parses back to `k`. */
  lemma OptionParses(k: int)
    requires 0 <= k < 3
    ensures ParseInt(GenderOptions[k]) == Num(k)
  {
    assert Text.IntToString(k) == GenderOptions[k];
    ParseIntRoundTrip(k);
  }

  /** Where `splice(index, 1)` starts on an array of length `len`. */
  function SpliceStart(len: nat, index: int): nat
  {
    if index < 0 then (if len + index < 0 then 0 else len + index)
    else if index > len then len
    else index
  }

  /** The array after `splice(index, 1)`. */
  function Spliced(teams: seq<ClientTeam>, index: int): seq<ClientTeam>
  {
    var s := SpliceStart(|teams|, index);
    if s < |teams| then teams[..s] + teams[s + 1..] else teams
  }

  /** Removing a position of the array drops exactly that team and keeps the others in order. */
  lemma SplicedInside(teams: seq<ClientTeam>, index: int)
    requires 0 <= index < |teams|
    ensures var r := Spliced(teams, index);
      |r| == |teams| - 1
      && (forall j :: 0 <= j < index ==> r[j] == teams[j])
      && (forall j :: index <= j < |r| ==> r[j] == teams[j + 1])
      && multiset(r) + multiset{teams[index]} == multiset(teams)
  {
    assert teams == teams[..index] + [teams[index]] + teams[index + 1..];
  }

  /** An index past the end removes nothing. */
  lemma SplicedBeyond(teams: seq<ClientTeam>, index: int)
    requires index >= |teams|
    ensures Spliced(teams, index) == teams
  {
  }

  /** A negative index counts from the end; one before the start removes the first team. */
  lemma SplicedFromEnd(teams: seq<ClientTeam>, index: int)
    requires index < 0
    ensures -|teams| <= index ==> Spliced(teams, index) == Spliced(teams, |teams| + index)
    ensures index < -|teams| ==> Spliced(teams, index) == Spliced(teams, 0)
  {
  }

  /** A JavaScript array of teams: one object, changed in place and seen by everyone holding it. */
  class TeamArray {
    var items: seq<ClientTeam>

    constructor ()
      ensures items == []
    {
      items := [];
    }
  }

  /** `tournamentStore`: its `teams` property always holds the same array, which the store changes in place. */
  class TournamentStore {
    const teams: TeamArray

    constructor ()
      ensures fresh(teams) && teams.items == []
    {
      teams := new TeamArray();
    }

    /** `addTeam`: `push`. */
    method AddTeam(team: ClientTeam)
      modifies teams
      ensures teams.items == old(teams.items) + [team]
    {
      teams.items := teams.items + [team];
    }

    /** `removeTeam`: `splice(index, 1)`; never signals an error. */
    method RemoveTeam(index: int)
      modifies teams
      ensures teams.items == Spliced(old(teams.items), index)
    {
      var start := SpliceStart(|teams.items|, index);
      if start < |teams.items| {
        teams.items := teams.items[..start] + teams.items[start + 1..];
      }
    }

    /** `getTeams`: the live array itself, not a copy of its contents. */
    method GetTeams() returns (r: TeamArray)
      ensures r == teams && r.items == teams.items
    {
      r := teams;
    }
  }

  /** `teamsLoader`: the page's loader data holds the store's live array. */
  method TeamsLoader(store: TournamentStore) returns (loaded: TeamArray)
    ensures loaded == store.teams
  {
    loaded := store.GetTeams();
  }

  /**
   * `AddTeamsPage` with `handleDeleteTeam`: the list the page loaded is the
   * store's array, so the team removed from the store is gone from the list
   * the page shows once it refreshes.
   */
  method DeleteShownTeam(store: TournamentStore, index: int) returns (shown: TeamArray)
    modifies store.teams
    ensures shown == store.teams
    ensures shown.items == Spliced(old(store.teams.items), index)
  {
    shown := TeamsLoader(store);
    store.RemoveTeam(index);
  }

  /** Removing at `-1` right after adding a team undoes the addition. */
  lemma RemoveLastUndoesAdd(teams: seq<ClientTeam>, team: ClientTeam)
    ensures Spliced(teams + [team], -1) == teams
  {
    assert (teams + [team])[..|teams|] == teams;
  }

  /**
   * `addTeamAction`: the two names as entered and the gender code read with
   * `parseInt(_, 10)` become a new last team.
   */
  method AddTeamAction(store: TournamentStore, teammate1: string, teammate2: string, gender: string)
    modifies store.teams
    ensures store.teams.items == old(store.teams.items) + [ClientTeam(Person(teammate1), Person(teammate2), ParseInt(gender))]
  {
    var newTeam := ClientTeam(Person(teammate1), Person(teammate2), ParseInt(gender));
    store.AddTeam(newTeam);
  }

  /** The state of the configuration form. */
  datatype FormData = FormData(availableCourts: JsNumber, roundsNumber: JsNumber, tournamentDate: string)

  /** The form before anything is typed. */
  const InitialForm := FormData(Num(0), Num(0), "")

  /**
   * The triple the client computes: no draw when a count is `NaN` (no
   * comparison with `NaN` holds), otherwise the engine's choice with the
   * rule that a team cannot play as many matches as there are teams.
   */
  function ClientDraw(teamsNumber: nat, totalRounds: JsNumber, availableCourts: JsNumber): Feasibility.Draw
  {
    if totalRounds.NaN? || availableCourts.NaN? then Feasibility.NoDraw
    else Feasibility.BestDraw(teamsNumber, totalRounds.n, availableCourts.n, true)
  }

  /**
   * `getMatchesPerTeam`: from `totalRounds` down to 1, the first number of
   * matches per team whose participations split into whole matches that
   * need no more than the courts per round, with fewer matches than teams.
   */
  method GetMatchesPerTeam(teamsNumber: nat, totalRounds: JsNumber, availableCourts: JsNumber)
    returns (d: Feasibility.Draw)
    ensures d == ClientDraw(teamsNumber, totalRounds, availableCourts)
    ensures d.matchesPerTeam == 0 <==>
      totalRounds.NaN? || availableCourts.NaN?
      || forall k :: !Feasibility.Fits(teamsNumber, totalRounds.n, availableCourts.n, k, true)
  {
    if totalRounds.NaN? {
      return Feasibility.NoDraw;
    }
    var r := totalRounds.n;
    var matchesPerTeam := r;
    while matchesPerTeam > 0
      invariant matchesPerTeam <= r
      invariant availableCourts.Num? ==>
        forall k :: matchesPerTeam < k ==> !Feasibility.Fits(teamsNumber, r, availableCourts.n, k, true)
      decreases matchesPerTeam
    {
      var totalParticipations := teamsNumber * matchesPerTeam;
      if totalParticipations % 2 == 0 {
        var totalMatches := totalParticipations / 2;
        var matchesPerTurn := (totalMatches as real) / (r as real);
        if availableCourts.Num? && matchesPerTurn <= availableCourts.n as real && teamsNumber > matchesPerTeam {
          assert Feasibility.Fits(teamsNumber, r, availableCourts.n, matchesPerTeam, true);
          DrawIsLargestFit(teamsNumber, r, availableCourts.n, matchesPerTeam);
          return Feasibility.Draw(totalMatches, matchesPerTurn, matchesPerTeam);
        }
      }
      matchesPerTeam := matchesPerTeam - 1;
    }
    if availableCourts.Num? {
      NoFitNoDraw(teamsNumber, r, availableCourts.n);
    }
    return Feasibility.NoDraw;
  }

  /** The largest fitting value is the one the engine picks. */
  lemma DrawIsLargestFit(n: nat, r: int, c: int, m: int)
    requires Feasibility.Fits(n, r, c, m, true)
    requires forall k :: m < k ==> !Feasibility.Fits(n, r, c, k, true)
    ensures Feasibility.BestDraw(n, r, c, true) == Feasibility.DrawFor(n, r, m)
  {
    var d := Feasibility.BestDraw(n, r, c, true);
    assert d.matchesPerTeam != 0;
  }

  lemma NoFitNoDraw(n: nat, r: int, c: int)
    requires forall k :: 0 < k ==> !Feasibility.Fits(n, r, c, k, true)
    ensures Feasibility.BestDraw(n, r, c, true) == Feasibility.NoDraw
  {
  }

  /**
   * The configuration line: "not valid" exactly when there are no matches,
   * otherwise the matches per team and the rounded-up matches per round.
   */
  function ConfigMessage(d: Feasibility.Draw): (msg: string)
    ensures msg == "Configuration is not valid" <==> d.totalMatches == 0
  {
    if d.totalMatches == 0 then "Configuration is not valid"
    else
      var msg := "Current configuration translates to " + Text.IntToString(d.matchesPerTeam)
        + " matches per team and at most " + Text.IntToString(Feasibility.Ceil(d.matchesPerTurn))
        + " matches per turn.";
      assert msg[1] == 'u';
      msg
  }

  /**
   * The form says "not valid" exactly when a count is `NaN` or no number of
   * matches per team fits; otherwise it reports a fitting number.
   */
  lemma ConfigMessageValid(teamsNumber: nat, totalRounds: JsNumber, availableCourts: JsNumber)
    ensures var d := ClientDraw(teamsNumber, totalRounds, availableCourts);
      (ConfigMessage(d) == "Configuration is not valid" <==>
        totalRounds.NaN? || availableCourts.NaN?
        || forall k :: !Feasibility.Fits(teamsNumber, totalRounds.n, availableCourts.n, k, true))
      && (ConfigMessage(d) != "Configuration is not valid" ==>
        Feasibility.Fits(teamsNumber, totalRounds.n, availableCourts.n, d.matchesPerTeam, true))
  {
    var d := ClientDraw(teamsNumber, totalRounds, availableCourts);
    if totalRounds.Num? && availableCourts.Num? && d.matchesPerTeam != 0 {
      assert 2 * d.totalMatches == teamsNumber * d.matchesPerTeam;
      assert teamsNumber >= 2 && d.matchesPerTeam >= 1;
      MulPositive(teamsNumber, d.matchesPerTeam);
    }
  }

  lemma MulPositive(a: int, b: int)
    requires a >= 1 && b >= 1
    ensures a * b >= 1
  {
  }

  /** With no rounds, and in particular on the untouched form, the configuration is not valid. */
  lemma NoRoundsNotValid(teamsNumber: nat, totalRounds: JsNumber, availableCourts: JsNumber)
    requires totalRounds.NaN? || totalRounds.n <= 0
    ensures ConfigMessage(ClientDraw(teamsNumber, totalRounds, availableCourts)) == "Configuration is not valid"
    ensures ConfigMessage(ClientDraw(teamsNumber, InitialForm.roundsNumber, InitialForm.availableCourts))
      == "Configuration is not valid"
  {
  }

  /** The creation request: its URL, its `Authorization` header and the teams it posts as JSON. */
  datatype Request = Request(url: string, authorization: string, body: seq<ClientTeam>)

  /** The query of the creation request, field by field. */
  function QueryFields(tournamentType: string, dateIso: string, totalRounds: JsNumber, availableCourts: JsNumber): seq<string>
  {
    ["tournamentType=" + tournamentType, "dateStart=" + dateIso,
     "totalRounds=" + NumText(totalRounds), "availableCourts=" + NumText(availableCourts)]
  }

  /** `${bearerToken}` of a token that may still be `null`. */
  function TokenText(bearerToken: Option<string>): string
  {
    if bearerToken.Some? then bearerToken.value else "null"
  }

  /**
   * `sendRodeoTournament`: `dateStart` is the ISO text of the chosen date, or
   * nothing when the date is invalid, in which case `toISOString` throws
   * before any request is made; otherwise a POST of the teams with the type,
   * date and counts in the query.
   */
  function SendRodeoTournament(tournamentType: string, dateStart: Option<string>, teams: seq<ClientTeam>,
                               totalRounds: JsNumber, availableCourts: JsNumber, bearerToken: Option<string>): (r: Result<Request>)
    ensures r.Err? <==> dateStart.None?
    ensures r.Err? ==> r.error == "RangeError: Invalid time value"
    ensures r.Ok? ==>
      r.value.url == "/api/create-tournament?" + Text.Join(QueryFields(tournamentType, dateStart.value, totalRounds, availableCourts), "&")
      && r.value.authorization == "Bearer " + TokenText(bearerToken)
      && r.value.body == teams
  {
    if dateStart.None? then Err("RangeError: Invalid time value")
    else
      var query := Text.Join(QueryFields(tournamentType, dateStart.value, totalRounds, availableCourts), "&");
      Ok(Request("/api/create-tournament?" + query, "Bearer " + TokenText(bearerToken), teams))
  }

  lemma {:induction false} NoAmpersand(x: JsNumber)
    ensures '&' !in NumText(x)
  {
    if x.Num? && x.n < 0 {
      assert NumText(x) == "-" + Text.NatToString(-x.n);
    }
  }

  /**
   * The query splits back into its four fields when the type and the date
   * hold no `&`, and the two counts read back with `parseInt` are the counts sent.
   */
  lemma QueryRoundTrip(tournamentType: string, dateIso: string, totalRounds: JsNumber, availableCourts: JsNumber)
    requires '&' !in tournamentType && '&' !in dateIso
    ensures var fields := QueryFields(tournamentType, dateIso, totalRounds, availableCourts);
      Text.Split(Text.Join(fields, "&"), '&') == fields
      && ParseInt(fields[2][|"totalRounds="|..]) == totalRounds
      && ParseInt(fields[3][|"availableCourts="|..]) == availableCourts
  {
    var fields := QueryFields(tournamentType, dateIso, totalRounds, availableCourts);
    NoAmpersand(totalRounds);
    NoAmpersand(availableCourts);
    Text.SplitJoin(fields, '&');
    assert fields[2][|"totalRounds="|..] == NumText(totalRounds);
    assert fields[3][|"availableCourts="|..] == NumText(availableCourts);
    NumTextRoundTrip(totalRounds);
    NumTextRoundTrip(availableCourts);
  }

  /** The notification shown when the creation request answers. */
  datatype Notice = Notice(title: string, description: string)

  /** Success when the response is ok, failure otherwise. */
  function ResponseNotice(status: int): (n: Notice)
    ensures n.title == "Tournament creation success" <==> ResponseOk(status)
    ensures ResponseOk(status) ==> n.description == "Tournament created and saved successfully"
    ensures !ResponseOk(status) ==> n == Notice("Tournament creation failed", "Try again later")
  {
    if ResponseOk(status) then Notice("Tournament creation success", "Tournament created and saved successfully")
    else Notice("Tournament creation failed", "Try again later")
  }
}

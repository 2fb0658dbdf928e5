/**
 * The tournament-type names of the Go package `tournament`.
 * `MakeTournamentData` is the `TournamentData` constructor of `Domain`.
 */
module Tournaments {
  import opened Domain
  import opened Wrappers
  import opened Text

  /** `TournamentTypeToString`: only the Rodeo type has a name; every other value is an error. */
  function TournamentTypeToString(t: TournamentType): (r: Result<string>)
    ensures r.Ok? <==> t == TournamentTypeRodeo
    ensures r.Ok? ==> r.value == "Rodeo"
    ensures r.Err? ==> r.error == "invalid tournament type: " + IntToString(t)
  {
    if t == TournamentTypeRodeo then Ok("Rodeo")
    else Err("invalid tournament type: " + IntToString(t))
  }

  /** `Rodeo.GetTournamentType` of the earlier snapshot: every rodeo is of the Rodeo type. */
  function GetTournamentType(rodeo: Rodeo): (t: TournamentType)
    ensures t != TournamentTypeEmpty
  {
    TournamentTypeRodeo
  }

  /** Naming the type of any rodeo succeeds, with the name "Rodeo". */
  lemma RodeoTypeHasName(rodeo: Rodeo)
    ensures TournamentTypeToString(GetTournamentType(rodeo)) == Ok("Rodeo")
  {
  }
}

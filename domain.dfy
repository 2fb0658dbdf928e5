/**
 * Value types of the Rodeo engine that every model shares: people and teams,
 * the gender codes, the pairings (edges) between team indexes, matches and
 * tournaments.
 */
module Domain {
  /** `tournament.Gender` is a plain Go int; these are its three named values. */
  type Gender = int
  const Male: Gender := 0
  const Female: Gender := 1
  const Else: Gender := 2

  predicate KnownGender(g: Gender) { g == Male || g == Female || g == Else }

  datatype Person = Person(id: string)
  datatype Team = Team(person1: Person, person2: Person, gender: Gender)

  /** A calendar day; the time of day carried by Go's `time.Time` plays no part. */
  datatype Date = Date(year: int, month: int, day: int)

  /** A pairing of two graph nodes (team indexes): Go's `edge{P1, P2}`. */
  datatype Edge = Edge(p1: int, p2: int)

  /** One round of pairings: Go's `matching` (a set of edges). */
  type Matching = set<Edge>

  /** The two orientations of one undirected pairing. */
  predicate SamePair(e: Edge, f: Edge)
  {
    (e.p1 == f.p1 && e.p2 == f.p2) || (e.p1 == f.p2 && e.p2 == f.p1)
  }

  predicate Touches(e: Edge, v: int) { e.p1 == v || e.p2 == v }

  /** No node appears in two different edges of `m` (a loop `Edge(v, v)` is one edge). */
  predicate IsMatching(m: Matching)
  {
    forall e, f :: e in m && f in m && e != f ==>
      e.p1 != f.p1 && e.p1 != f.p2 && e.p2 != f.p1 && e.p2 != f.p2
  }

  predicate NoLoops(m: Matching) { forall e :: e in m ==> e.p1 != e.p2 }

  function Endpoints(m: Matching): set<int>
  {
    (set e | e in m :: e.p1) + (set e | e in m :: e.p2)
  }

  /** Adding a pairing of two nodes the matching does not touch keeps it a matching and adds both nodes. */
  lemma AddToMatching(m: Matching, e: Edge)
    requires IsMatching(m) && e.p1 !in Endpoints(m) && e.p2 !in Endpoints(m)
    ensures IsMatching(m + {e}) && Endpoints(m + {e}) == Endpoints(m) + {e.p1, e.p2} && |m + {e}| == |m| + 1
  {
    forall f | f in m ensures f.p1 in Endpoints(m) && f.p2 in Endpoints(m) {
    }
    assert e !in m;
  }

  /** `MatchStatus` is a Go int enum. */
  type MatchStatus = int
  const MatchScheduled: MatchStatus := 0
  const MatchOngoing: MatchStatus := 1
  const MatchCompleted: MatchStatus := 2

  /** `TournamentType` is a Go int enum. */
  type TournamentType = int
  const TournamentTypeEmpty: TournamentType := 0
  const TournamentTypeRodeo: TournamentType := 1

  datatype Match = Match(teamA: Team, teamB: Team, status: MatchStatus, courtId: int)

  /** `Rodeo`: a named tournament on a day, its teams and its rounds of matches. */
  datatype Rodeo = Rodeo(name: string, dateStart: Date, teams: seq<Team>, rounds: seq<seq<Match>>)

  /** `TournamentData`: the same shape, as read back from storage. */
  datatype TournamentData = TournamentData(name: string, dateStart: Date, teams: seq<Team>, rounds: seq<seq<Match>>)
}

/**
 * The value classes of the C++ library: `Team::Person`, `Team::Team`,
 * `Tournament::MatchResult`, `Tournament::Match` and the equality of
 * `Tournament::Tournament`.
 *
 * A C++ match holds optional *pointers* to teams, so comparing two matches
 * compares team identity; a Dafny class reference stands for such a pointer.
 * A tournament, on the other hand, compares its team lists by value.
 */
module CppValues {
  import opened Wrappers

  datatype CppGender = MALE | FEMALE
  datatype Level = BEGINNER | MEDIUM | ADVANCED

  /** `Team::Person`; `==` compares all four fields, which datatype equality does. */
  datatype CppPerson = CppPerson(name: string, age: int, gender: CppGender, level: Level)

  /** A person built from a name alone takes the member defaults. */
  function PersonOf(name: string): (p: CppPerson)
    ensures p.name == name && p.age == 35 && p.gender == MALE && p.level == BEGINNER
  {
    CppPerson(name, 35, MALE, BEGINNER)
  }

  /** `Team::Team`: two people; a reference to one is a `const Team*`. */
  class CppTeam {
    const first: CppPerson
    const second: CppPerson

    constructor (first: CppPerson, second: CppPerson)
      ensures this.first == first && this.second == second
    {
      this.first := first;
      this.second := second;
    }
  }

  /** `Team::operator==`: both people equal, whatever the objects. */
  predicate TeamEquals(a: CppTeam, b: CppTeam)
  {
    a.first == b.first && a.second == b.second
  }

  datatype MatchStatus = OVER | ONGOING | NOT_STARTED | TBD

  datatype MatchResult = MatchResult(gamesTeam1: int, gamesTeam2: int)

  /** `MatchResult::operator==`: both game counts agree. */
  function ResultEquals(a: MatchResult, b: MatchResult): (eq: bool)
    ensures eq <==> a == b
  {
    a.gamesTeam1 == b.gamesTeam1 && a.gamesTeam2 == b.gamesTeam2
  }

  /** `MatchResult::operator!=`: the negation of `==`. */
  function ResultDiffers(a: MatchResult, b: MatchResult): (ne: bool)
    ensures ne <==> a != b
  {
    !ResultEquals(a, b)
  }

  /** `Tournament::Match`: optional team pointers, a result and a status. */
  datatype CppMatch = CppMatch(team1: Option<CppTeam>, team2: Option<CppTeam>, result: MatchResult, status: MatchStatus)

  /** `Match()`: no teams yet, a zero result, to be decided. */
  function DefaultMatch(): (m: CppMatch)
    ensures m.team1 == None && m.team2 == None
    ensures m.result == MatchResult(0, 0) && m.status == TBD
  {
    CppMatch(None, None, MatchResult(0, 0), TBD)
  }

  /** `Match(t1, t2)`: both teams set, not started, a zero result. */
  function NewMatch(t1: CppTeam, t2: CppTeam): (m: CppMatch)
    ensures m.team1 == Some(t1) && m.team2 == Some(t2)
    ensures m.result == MatchResult(0, 0) && m.status == NOT_STARTED
  {
    CppMatch(Some(t1), Some(t2), MatchResult(0, 0), NOT_STARTED)
  }

  predicate Complete(m: CppMatch) { m.team1.Some? && m.team2.Some? }

  /**
   * `Match::operator==`. It dereferences this match's two optionals and the
   * other's first one (undefined behaviour when empty), and compares this
   * match's second pointer with the other's optional, which is false when
   * the other has no second team. Pointers compare by identity, so the
   * operator is exactly equality of the two match values.
   */
  function MatchEquals(a: CppMatch, b: CppMatch): (eq: bool)
    requires Complete(a) && b.team1.Some?
    ensures eq <==> a == b
  {
    a.team1.value == b.team1.value && b.team2 == Some(a.team2.value)
      && ResultEquals(a.result, b.result) && a.status == b.status
  }

  /** `Match::operator!=` as written: it returns `*this == other`. */
  function MatchDiffers(a: CppMatch, b: CppMatch): (ne: bool)
    requires Complete(a) && b.team1.Some?
    ensures ne <==> a == b
  {
    MatchEquals(a, b)
  }

  /** Every complete match "differs" from itself under the operator as written. */
  lemma MatchDiffersFromItself(m: CppMatch)
    requires Complete(m)
    ensures MatchDiffers(m, m)
    ensures !MatchDiffersIntended(m, m)
  {
  }

  /** The evident intent of `Match::operator!=`: the negation of `==`. */
  function MatchDiffersIntended(a: CppMatch, b: CppMatch): (ne: bool)
    requires Complete(a) && b.team1.Some?
    ensures ne <==> a != b
  {
    !MatchEquals(a, b)
  }

  /**
   * Two distinct team objects with the same people are equal teams, yet the
   * matches built from them are different matches.
   */
  lemma MatchesCompareIdentity(t: CppTeam, u: CppTeam, v: CppTeam)
    requires t != u && TeamEquals(t, u)
    ensures !MatchEquals(NewMatch(t, v), NewMatch(u, v))
  {
  }

  /** `std::vector<Match>::operator==`: same length and pairwise `Match::operator==`. */
  function TurnEquals(a: seq<CppMatch>, b: seq<CppMatch>): (eq: bool)
    requires forall j :: 0 <= j < |a| ==> a[j].team1.Some? && a[j].team2.Some?
    requires forall j :: 0 <= j < |b| ==> b[j].team1.Some? && b[j].team2.Some?
    ensures eq <==> a == b
  {
    |a| == |b| && forall j :: 0 <= j < |a| && j < |b| ==> MatchEquals(a[j], b[j])
  }

  predicate AllComplete(turns: seq<seq<CppMatch>>)
  {
    forall k, j :: 0 <= k < |turns| && 0 <= j < |turns[k]| ==> Complete(turns[k][j])
  }

  /** Both team lists have the same length and equal teams, position by position. */
  predicate SameTeams(a: seq<CppTeam>, b: seq<CppTeam>)
  {
    |a| == |b| && forall i :: 0 <= i < |a| ==> TeamEquals(a[i], b[i])
  }

  /** `Tournament::Tournament`: a team list and its turns, both fixed at construction. */
  class CppTournament {
    const teams: seq<CppTeam>
    const turns: seq<seq<CppMatch>>

    constructor (teams: seq<CppTeam>, turns: seq<seq<CppMatch>>)
      ensures this.teams == teams && this.turns == turns
    {
      this.teams := teams;
      this.turns := turns;
    }

    /**
     * `Tournament::operator==`: sizes first, then teams by value, then turns
     * match by match, returning at the first difference.
     */
    method Equals(other: CppTournament) returns (eq: bool)
      requires AllComplete(turns) && AllComplete(other.turns)
      ensures eq <==> SameTeams(teams, other.teams) && turns == other.turns
    {
      if |teams| != |other.teams| {
        return false;
      }
      if |turns| != |other.turns| {
        return false;
      }
      var i := 0;
      while i < |teams|
        invariant 0 <= i <= |teams|
        invariant forall x :: 0 <= x < i ==> TeamEquals(teams[x], other.teams[x])
      {
        if !TeamEquals(teams[i], other.teams[i]) {
          return false;
        }
        i := i + 1;
      }
      i := 0;
      while i < |turns|
        invariant 0 <= i <= |turns|
        invariant forall x :: 0 <= x < i ==> turns[x] == other.turns[x]
      {
        var same := TurnEquals(turns[i], other.turns[i]);
        if !same {
          return false;
        }
        i := i + 1;
      }
      return true;
    }

    /** `Tournament::operator!=`: the negation of `==`. */
    method NotEquals(other: CppTournament) returns (ne: bool)
      requires AllComplete(turns) && AllComplete(other.turns)
      ensures ne <==> !(SameTeams(teams, other.teams) && turns == other.turns)
    {
      var eq := Equals(other);
      ne := !eq;
    }
  }
}

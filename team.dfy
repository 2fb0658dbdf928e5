/**
 * Teams and genders of the Go package `tournament`: parsing a gender name,
 * counting and filtering teams by gender. `MakeTeam`/`NewTeam` are the
 * `Team` constructor of `Domain`.
 */
module Teams {
  import opened Domain

  /** `GetAllGenders`: the three genders in declaration order. */
  function GetAllGenders(): (r: seq<Gender>)
    ensures |r| == 3 && r[0] == Male && r[1] == Female && r[2] == Else
    ensures forall g :: g in r <==> KnownGender(g)
  {
    [Male, Female, Else]
  }

  /** `GenderFromString`: "Male"/"M" and "Female"/"F"; any other text is `Else`. */
  function GenderFromString(s: string): (g: Gender)
    ensures KnownGender(g)
    ensures g == Male <==> s == "Male" || s == "M"
    ensures g == Female <==> s == "Female" || s == "F"
  {
    if s == "Male" || s == "M" then Male
    else if s == "Female" || s == "F" then Female
    else Else
  }

  /** `GenderFromString` of the earlier snapshot: only the full names are recognised. */
  function LegacyGenderFromString(s: string): (g: Gender)
    ensures KnownGender(g)
    ensures g == Male <==> s == "Male"
    ensures g == Female <==> s == "Female"
  {
    if s == "Male" then Male
    else if s == "Female" then Female
    else Else
  }

  /** The two parsers agree on every text but the one-letter codes, which the earlier one reads as `Else`. */
  lemma GenderParsersAgree(s: string)
    ensures s != "M" && s != "F" ==> LegacyGenderFromString(s) == GenderFromString(s)
    ensures s == "M" || s == "F" ==> LegacyGenderFromString(s) == Else != GenderFromString(s)
  {
  }

  /** The number of teams of gender `g`. */
  function CountGender(teams: seq<Team>, g: Gender): nat
  {
    if teams == [] then 0
    else CountGender(teams[..|teams| - 1], g) + (if teams[|teams| - 1].gender == g then 1 else 0)
  }

  /** The teams of gender `g`, in their original order. */
  function FilterGender(teams: seq<Team>, g: Gender): (r: seq<Team>)
    ensures forall t :: t in r <==> t in teams && t.gender == g
    ensures |r| == CountGender(teams, g) <= |teams|
  {
    if teams == [] then []
    else
      var init := FilterGender(teams[..|teams| - 1], g);
      assert teams == teams[..|teams| - 1] + [teams[|teams| - 1]];
      if teams[|teams| - 1].gender == g then init + [teams[|teams| - 1]] else init
  }

  /** Filtering splits over concatenation, so it keeps the teams' relative order. */
  lemma {:induction false} FilterGenderAppend(a: seq<Team>, b: seq<Team>, g: Gender)
    ensures FilterGender(a + b, g) == FilterGender(a, g) + FilterGender(b, g)
    decreases |b|
  {
    if b == [] {
      assert a + b == a;
    } else {
      var b' := b[..|b| - 1];
      assert (a + b)[..|a + b| - 1] == a + b';
      assert (a + b)[|a + b| - 1] == b[|b| - 1];
      FilterGenderAppend(a, b', g);
    }
  }

  /** With known genders only, the three gender counts add up to the number of teams. */
  lemma {:induction false} CountsCoverTeams(teams: seq<Team>)
    requires forall t :: t in teams ==> KnownGender(t.gender)
    ensures CountGender(teams, Male) + CountGender(teams, Female) + CountGender(teams, Else) == |teams|
  {
    if teams != [] {
      var init := teams[..|teams| - 1];
      assert forall t :: t in init ==> t in teams;
      assert teams[|teams| - 1] in teams;
      CountsCoverTeams(init);
    }
  }

  /** The three gender counts never add up to more than the number of teams. */
  lemma {:induction false} CountsWithinTeams(teams: seq<Team>)
    ensures CountGender(teams, Male) + CountGender(teams, Female) + CountGender(teams, Else) <= |teams|
  {
    if teams != [] {
      CountsWithinTeams(teams[..|teams| - 1]);
    }
  }

  /** `GenderCount`: counts in one pass over the teams. */
  method GenderCount(teams: seq<Team>, g: Gender) returns (count: int)
    ensures count == CountGender(teams, g)
  {
    count := 0;
    var i := 0;
    while i < |teams|
      invariant 0 <= i <= |teams|
      invariant count == CountGender(teams[..i], g)
    {
      assert teams[..i + 1][..i] == teams[..i];
      if teams[i].gender == g {
        count := count + 1;
      }
      i := i + 1;
    }
    assert teams[..|teams|] == teams;
  }

  /** `GetTeamsByGender`: appends each team of gender `g` in turn. */
  method GetTeamsByGender(teams: seq<Team>, g: Gender) returns (filtered: seq<Team>)
    ensures filtered == FilterGender(teams, g)
  {
    filtered := [];
    var i := 0;
    while i < |teams|
      invariant 0 <= i <= |teams|
      invariant filtered == FilterGender(teams[..i], g)
    {
      assert teams[..i + 1][..i] == teams[..i];
      if teams[i].gender == g {
        filtered := filtered + [teams[i]];
      }
      i := i + 1;
    }
    assert teams[..|teams|] == teams;
  }
}

/**
 * Arranging teams by gender before the pairing graph is built
 * (`prepend`, `orderTeamsByGender`, `canAllGendersPlayOnlyAgainstEachOther`).
 *
 * Female teams form a block in the middle; Else (mixed) teams and then Male
 * teams are placed around it, alternately in front of and behind what is
 * there already, starting in front. Because the circulant graph pairs each
 * node with its nearest neighbours, this favours same-gender matches.
 * The older snapshot of the engine never switches back to "in front", so
 * there at most one team goes in front of the Female block.
 */
module GenderOrder {
  import opened Domain
  import opened Teams
  import Cardinality

  /** `prepend`: `t` followed by the teams of `tms`. */
  function Prepend(tms: seq<Team>, t: Team): (r: seq<Team>)
    ensures |r| == |tms| + 1 && r[0] == t && r[1..] == tms
  {
    [t] + tms
  }

  /** The bucket of gender `g`; a missing key reads as the empty slice. */
  function Bucket(buckets: map<Gender, seq<Team>>, g: Gender): seq<Team>
  {
    if g in buckets then buckets[g] else []
  }

  /** The teams an alternating loop puts in front: those at even positions, the latest first. */
  function Prepended(xs: seq<Team>): seq<Team>
  {
    if xs == [] then []
    else
      var j := |xs| - 1;
      if j % 2 == 0 then [xs[j]] + Prepended(xs[..j]) else Prepended(xs[..j])
  }

  /** The teams an alternating loop puts behind: those at odd positions, in order. */
  function Appended(xs: seq<Team>): seq<Team>
  {
    if xs == [] then []
    else
      var j := |xs| - 1;
      if j % 2 == 1 then Appended(xs[..j]) + [xs[j]] else Appended(xs[..j])
  }

  /** The arrangement `orderTeamsByGender` produces. */
  function OrderedByGender(teams: seq<Team>): seq<Team>
  {
    var female := FilterGender(teams, Female);
    var mixed := FilterGender(teams, Else);
    var male := FilterGender(teams, Male);
    Prepended(male) + (Prepended(mixed) + female + Appended(mixed)) + Appended(male)
  }

  /**
   * Alternation, position by position: the `i`-th team in front is the one
   * at position `2 * (p - 1 - i)` of `xs`, the `i`-th team behind the one at
   * position `2 * i + 1`; so the first team goes in front, the second behind,
   * and so on.
   */
  lemma {:induction false} AlternationPositions(xs: seq<Team>)
    ensures |Prepended(xs)| == (|xs| + 1) / 2 && |Appended(xs)| == |xs| / 2
    ensures forall i :: 0 <= i < |Prepended(xs)| ==> Prepended(xs)[i] == xs[2 * (|Prepended(xs)| - 1 - i)]
    ensures forall i :: 0 <= i < |Appended(xs)| ==> Appended(xs)[i] == xs[2 * i + 1]
  {
    PrependedPositions(xs);
    AppendedPositions(xs);
  }

  /** The teams in front, position by position. */
  lemma {:induction false} PrependedPositions(xs: seq<Team>)
    ensures |Prepended(xs)| == (|xs| + 1) / 2
    ensures forall i :: 0 <= i < |Prepended(xs)| ==> Prepended(xs)[i] == xs[2 * (|Prepended(xs)| - 1 - i)]
  {
    if xs != [] {
      var j := |xs| - 1;
      var init := xs[..j];
      var p := Prepended(init);
      PrependedPositions(init);
      var r := Prepended(xs);
      if j % 2 == 0 {
        assert r == [xs[j]] + p;
        forall i | 0 <= i < |r| ensures r[i] == xs[2 * (|r| - 1 - i)] {
          if i > 0 {
            assert r[i] == p[i - 1] == init[2 * (|p| - i)];
          }
        }
      } else {
        assert r == p;
        forall i | 0 <= i < |r| ensures r[i] == xs[2 * (|r| - 1 - i)] {
          assert r[i] == init[2 * (|p| - 1 - i)];
        }
      }
    }
  }

  /** The teams behind, position by position. */
  lemma {:induction false} AppendedPositions(xs: seq<Team>)
    ensures |Appended(xs)| == |xs| / 2
    ensures forall i :: 0 <= i < |Appended(xs)| ==> Appended(xs)[i] == xs[2 * i + 1]
  {
    if xs != [] {
      var j := |xs| - 1;
      var init := xs[..j];
      var a := Appended(init);
      AppendedPositions(init);
      var r := Appended(xs);
      if j % 2 == 1 {
        assert r == a + [xs[j]];
        forall i | 0 <= i < |r| ensures r[i] == xs[2 * i + 1] {
          if i < |a| {
            assert r[i] == a[i] == init[2 * i + 1];
          }
        }
      } else {
        assert r == a;
        forall i | 0 <= i < |r| ensures r[i] == xs[2 * i + 1] {
          assert r[i] == init[2 * i + 1];
        }
      }
    }
  }

  /** Together, the teams in front and behind are exactly the teams of `xs`. */
  lemma {:induction false} AlternationKeepsTeams(xs: seq<Team>)
    ensures multiset(Prepended(xs)) + multiset(Appended(xs)) == multiset(xs)
  {
    if xs != [] {
      var j := |xs| - 1;
      AlternationKeepsTeams(xs[..j]);
      assert xs == xs[..j] + [xs[j]];
    }
  }

  /**
   * `orderTeamsByGender` keeps every Male, Female and Else team exactly once
   * and drops teams of any other gender value.
   */
  lemma OrderKeepsKnownTeams(teams: seq<Team>)
    ensures var r := OrderedByGender(teams);
      multiset(r) == multiset(FilterGender(teams, Female)) + multiset(FilterGender(teams, Else))
                     + multiset(FilterGender(teams, Male))
      && (forall t :: t in r <==> t in teams && KnownGender(t.gender))
      && |r| == CountGender(teams, Male) + CountGender(teams, Female) + CountGender(teams, Else)
  {
    var female := FilterGender(teams, Female);
    var mixed := FilterGender(teams, Else);
    var male := FilterGender(teams, Male);
    AlternationKeepsTeams(mixed);
    AlternationKeepsTeams(male);
    var r := OrderedByGender(teams);
    assert multiset(r) == multiset(female) + multiset(mixed) + multiset(male);
    forall t ensures t in r <==> t in teams && KnownGender(t.gender) {
      assert t in r <==> t in multiset(r);
      assert t in female <==> t in multiset(female);
      assert t in mixed <==> t in multiset(mixed);
      assert t in male <==> t in multiset(male);
    }
    assert |multiset(r)| == |r|;
  }

  /** With only known genders nothing is dropped. */
  lemma OrderKeepsAllKnown(teams: seq<Team>)
    requires forall t :: t in teams ==> KnownGender(t.gender)
    ensures |OrderedByGender(teams)| == |teams|
  {
    OrderKeepsKnownTeams(teams);
    CountsCoverTeams(teams);
  }

  /** The Female teams stay together, in input order, in the middle. */
  lemma FemaleBlockContiguous(teams: seq<Team>)
    ensures var r := OrderedByGender(teams);
      var a := |Prepended(FilterGender(teams, Male))| + |Prepended(FilterGender(teams, Else))|;
      a + |FilterGender(teams, Female)| <= |r| && r[a..a + |FilterGender(teams, Female)|] == FilterGender(teams, Female)
  {
  }

  /**
   * One alternating loop of `orderTeamsByGender`: starting in front, each
   * team of `xs` goes in front of `core` or behind it, in turn.
   */
  method AlternateAround(core: seq<Team>, xs: seq<Team>) returns (r: seq<Team>)
    ensures r == Prepended(xs) + core + Appended(xs)
  {
    r := core;
    var top := true;
    var j := 0;
    while j < |xs|
      invariant 0 <= j <= |xs|
      invariant top == (j % 2 == 0)
      invariant r == Prepended(xs[..j]) + core + Appended(xs[..j])
    {
      assert xs[..j + 1][..j] == xs[..j];
      if top {
        r := Prepend(r, xs[j]);
        top := false;
      } else {
        r := r + [xs[j]];
        top := true;
      }
      j := j + 1;
    }
    assert xs[..|xs|] == xs;
  }

  /** The gender buckets: each team appended to the slice of its gender. */
  method GenderBuckets(teams: seq<Team>) returns (buckets: map<Gender, seq<Team>>)
    ensures forall g :: Bucket(buckets, g) == FilterGender(teams, g)
  {
    buckets := map[];
    var i := 0;
    while i < |teams|
      invariant 0 <= i <= |teams|
      invariant forall g :: Bucket(buckets, g) == FilterGender(teams[..i], g)
    {
      assert teams[..i + 1][..i] == teams[..i];
      var t := teams[i];
      buckets := buckets[t.gender := Bucket(buckets, t.gender) + [t]];
      i := i + 1;
    }
    assert teams[..|teams|] == teams;
  }

  /** `orderTeamsByGender` (current engine). */
  method OrderTeamsByGender(teams: seq<Team>) returns (ordered: seq<Team>)
    ensures ordered == OrderedByGender(teams)
  {
    var buckets := GenderBuckets(teams);
    ordered := Bucket(buckets, Female);
    ordered := AlternateAround(ordered, Bucket(buckets, Else));
    ordered := AlternateAround(ordered, Bucket(buckets, Male));
  }

  // ----- the older snapshot -----

  /**
   * A loop of the older `orderTeamsByGender`, entered with flag `top`: only
   * the first team can go in front, the rest go behind.
   */
  function LegacyAlternate(core: seq<Team>, xs: seq<Team>, top: bool): seq<Team>
  {
    if top && xs != [] then [xs[0]] + core + xs[1..] else core + xs
  }

  /** The arrangement the older `orderTeamsByGender` produces; `top` carries over between its loops. */
  function LegacyOrderedByGender(teams: seq<Team>): seq<Team>
  {
    var mixed := FilterGender(teams, Else);
    var afterMixed := LegacyAlternate(FilterGender(teams, Female), mixed, true);
    LegacyAlternate(afterMixed, FilterGender(teams, Male), mixed == [])
  }

  /** A loop of the older version; `top` is cleared once and never set again. */
  method LegacyAlternateAround(core: seq<Team>, xs: seq<Team>, top0: bool) returns (r: seq<Team>, top: bool)
    ensures r == LegacyAlternate(core, xs, top0)
    ensures top == (top0 && xs == [])
  {
    r := core;
    top := top0;
    var j := 0;
    while j < |xs|
      invariant 0 <= j <= |xs|
      invariant top == (top0 && j == 0)
      invariant r == LegacyAlternate(core, xs[..j], top0)
    {
      if top {
        r := Prepend(r, xs[j]);
        top := false;
      } else {
        assert top0 ==> xs[..j + 1][1..] == xs[..j][1..] + [xs[j]];
        r := r + [xs[j]];
      }
      j := j + 1;
    }
    assert xs[..|xs|] == xs;
  }

  /** `orderTeamsByGender` of the older snapshot. */
  method LegacyOrderTeamsByGender(teams: seq<Team>) returns (ordered: seq<Team>)
    ensures ordered == LegacyOrderedByGender(teams)
  {
    var buckets := GenderBuckets(teams);
    ordered := Bucket(buckets, Female);
    var top;
    ordered, top := LegacyAlternateAround(ordered, Bucket(buckets, Else), true);
    ordered, top := LegacyAlternateAround(ordered, Bucket(buckets, Male), top);
  }

  /** A loop of the older version neither drops nor duplicates a team. */
  lemma LegacyAlternateKeeps(core: seq<Team>, xs: seq<Team>, top: bool)
    ensures multiset(LegacyAlternate(core, xs, top)) == multiset(core) + multiset(xs)
  {
    if top && xs != [] {
      assert xs == [xs[0]] + xs[1..];
    }
  }

  /** The older version keeps exactly the teams the current one keeps. */
  lemma LegacyKeepsTeams(teams: seq<Team>)
    ensures multiset(LegacyOrderedByGender(teams)) == multiset(OrderedByGender(teams))
  {
    var female := FilterGender(teams, Female);
    var mixed := FilterGender(teams, Else);
    var male := FilterGender(teams, Male);
    LegacyAlternateKeeps(female, mixed, true);
    LegacyAlternateKeeps(LegacyAlternate(female, mixed, true), male, mixed == []);
    OrderKeepsKnownTeams(teams);
  }

  /**
   * In the older version at most one team goes in front: the Female block
   * starts at position 1 when there is an Else or a Male team, else at 0.
   */
  lemma LegacyOneInFront(teams: seq<Team>)
    ensures var r := LegacyOrderedByGender(teams); var f := FilterGender(teams, Female);
      var a := if FilterGender(teams, Else) != [] || FilterGender(teams, Male) != [] then 1 else 0;
      a + |f| <= |r| && r[a..a + |f|] == f
  {
    var female := FilterGender(teams, Female);
    var mixed := FilterGender(teams, Else);
    var male := FilterGender(teams, Male);
    LegacyArrangement(female, mixed, male);
  }

  /** The older arrangement, stated on the three buckets. */
  lemma LegacyArrangement(female: seq<Team>, mixed: seq<Team>, male: seq<Team>)
    ensures var r := LegacyAlternate(LegacyAlternate(female, mixed, true), male, mixed == []);
      var a := if mixed != [] || male != [] then 1 else 0;
      a + |female| <= |r| && r[a..a + |female|] == female
  {
    if mixed != [] {
      var r := LegacyAlternate(LegacyAlternate(female, mixed, true), male, false);
      assert r == ([mixed[0]] + female + mixed[1..]) + male;
      assert r == [mixed[0]] + female + (mixed[1..] + male);
      FrontSlice(mixed[0], female, mixed[1..] + male);
    } else if male != [] {
      FrontSlice(male[0], female, male[1..]);
    }
  }

  /** The teams after one leading team and before the rest are the middle block. */
  lemma FrontSlice(x: Team, f: seq<Team>, rest: seq<Team>)
    ensures 1 + |f| <= |[x] + f + rest| && ([x] + f + rest)[1..1 + |f|] == f
  {
    var r := [x] + f + rest;
    forall i | 0 <= i < |f| ensures r[1..1 + |f|][i] == f[i] {
      assert r[1 + i] == f[i];
    }
  }

  /** Teams all of gender `g` are their own `g` bucket, and no other bucket gets any of them. */
  lemma {:induction false} FilterSingleGender(s: seq<Team>, g: Gender, h: Gender)
    requires forall t :: t in s ==> t.gender == g
    ensures FilterGender(s, g) == s
    ensures h != g ==> FilterGender(s, h) == []
  {
    if s != [] {
      var init := s[..|s| - 1];
      assert forall t :: t in init ==> t in s;
      assert s[|s| - 1] in s;
      FilterSingleGender(init, g, h);
      assert s == init + [s[|s| - 1]];
    }
  }

  /** Three Else teams: the current version puts the third in front, the older one behind. */
  lemma LegacyOrderDiffers()
    ensures var a := Team(Person("a1"), Person("a2"), Else);
      var b := Team(Person("b1"), Person("b2"), Else);
      var c := Team(Person("c1"), Person("c2"), Else);
      OrderedByGender([a, b, c]) == [c, a, b] && LegacyOrderedByGender([a, b, c]) == [a, b, c]
  {
    var a := Team(Person("a1"), Person("a2"), Else);
    var b := Team(Person("b1"), Person("b2"), Else);
    var c := Team(Person("c1"), Person("c2"), Else);
    var s := [a, b, c];
    FilterSingleGender(s, Else, Female);
    FilterSingleGender(s, Else, Male);
    assert s[..2] == [a, b] && s[..2][..1] == [a] && [a][..0] == [];
    assert Prepended([a]) == [a] && Appended([a]) == [];
    assert Prepended([a, b]) == [a] && Appended([a, b]) == [b];
    assert Prepended(s) == [c, a] && Appended(s) == [b];
    assert s[1..] == [b, c];
  }

  // ----- the gender-split test -----

  /** The gender values that occur in `teams`. */
  function GendersOf(teams: seq<Team>): set<Gender>
  {
    set t | t in teams :: t.gender
  }

  /** A gender no team carries has count 0. */
  lemma {:induction false} CountAbsent(teams: seq<Team>, g: Gender)
    requires g !in GendersOf(teams)
    ensures CountGender(teams, g) == 0
  {
    if teams != [] {
      var init := teams[..|teams| - 1];
      assert teams[|teams| - 1] in teams;
      assert forall t :: t in init ==> t in teams;
      CountAbsent(init, g);
    }
  }

  /** `counts` holds, for every known gender and every gender of the first `i` teams, how many of those teams have it. */
  ghost predicate CountsUpTo(counts: map<Gender, int>, teams: seq<Team>, i: int)
    requires 0 <= i <= |teams|
  {
    (forall g :: g in counts <==> KnownGender(g) || g in GendersOf(teams[..i]))
    && (forall g :: g in counts ==> counts[g] == CountGender(teams[..i], g))
  }

  /** The body of the counting loop: team `i` adds one to its gender's count. */
  method CountTeam(counts: map<Gender, int>, teams: seq<Team>, i: int) returns (c: map<Gender, int>)
    requires 0 <= i < |teams| && CountsUpTo(counts, teams, i)
    ensures CountsUpTo(c, teams, i + 1)
  {
    assert teams[..i + 1][..i] == teams[..i];
    assert GendersOf(teams[..i + 1]) == GendersOf(teams[..i]) + {teams[i].gender};
    var g := teams[i].gender;
    if g !in counts {
      CountAbsent(teams[..i], g);
    }
    c := counts[g := (if g in counts then counts[g] else 0) + 1];
  }

  /**
   * `canAllGendersPlayOnlyAgainstEachOther`: every gender in the count map
   * (the three known ones, plus any other value some team carries) has more
   * than `matchesPerTeam` teams.
   */
  method CanAllGendersPlayOnlyAgainstEachOther(teams: seq<Team>, matchesPerTeam: int) returns (r: bool)
    ensures r <==> (forall g :: KnownGender(g) ==> CountGender(teams, g) > matchesPerTeam)
                   && (forall t :: t in teams ==> CountGender(teams, t.gender) > matchesPerTeam)
  {
    var counts: map<Gender, int> := map[];
    var all := GetAllGenders();
    var k := 0;
    while k < |all|
      invariant 0 <= k <= |all|
      invariant forall g :: g in counts <==> g in all[..k]
      invariant forall g :: g in counts ==> counts[g] == 0
    {
      counts := counts[all[k] := 0];
      k := k + 1;
    }
    assert all[..3] == all;
    var i := 0;
    while i < |teams|
      invariant 0 <= i <= |teams|
      invariant CountsUpTo(counts, teams, i)
    {
      counts := CountTeam(counts, teams, i);
      i := i + 1;
    }
    assert teams[..|teams|] == teams;
    r := true;
    var rest := counts.Keys;
    while rest != {}
      invariant rest <= counts.Keys
      invariant r <==> forall g :: g in counts && g !in rest ==> counts[g] > matchesPerTeam
      decreases |rest|
    {
      ghost var w := Cardinality.Pick(rest);
      var g :| g in rest;
      if counts[g] <= matchesPerTeam {
        r := false;
      }
      rest := rest - {g};
    }
    forall t | t in teams ensures t.gender in counts {
      assert t.gender in GendersOf(teams);
    }
  }
}

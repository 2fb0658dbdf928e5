/**
 * `RodeoFactory::validate_rodeo` of the C++ library. It numbers the team
 * objects by position, turns every turn into an ordered set of position
 * pairs, checks that no team plays twice in a turn and that every position
 * plays equally often, and answers with no message or with the first
 * complaint.
 *
 * `team_to_int.at` throws `std::out_of_range` for a team missing from the
 * list; the verdict `OutOfRange` stands for that exception.
 */
module CppValidate {
  import opened Wrappers
  import opened Domain
  import opened Text
  import opened Cardinality
  import opened CppValues
  import opened CppSearch
  import opened CppFactory
  import opened Backtracking

  /** No message, a message, or the exception thrown by `std::map::at`. */
  datatype Verdict = Valid | Invalid(message: string) | OutOfRange

  const UnsetMessage := "There is a match whose teams were not all set"
  const UnevenMessage := "There is at least a team that plays less than the others"

  function TwiceMessage(a: int): string
  {
    "Player " + IntToString(a) + " plays twice during turn (teams_in_turn)"
  }

  // ---------------------------------------------------------------------
  // Numbering the teams

  /** The number `team_to_int` keeps for `t`: its last position, since later writes overwrite earlier ones. */
  function LastIndex(teams: seq<CppTeam>, t: CppTeam): (r: Option<nat>)
    ensures r.None? <==> t !in teams
    ensures r.Some? ==> r.value < |teams| && teams[r.value] == t
    ensures r.Some? ==> forall j :: r.value < j < |teams| ==> teams[j] != t
    decreases |teams|
  {
    if |teams| == 0 then None
    else if teams[|teams| - 1] == t then Some(|teams| - 1)
    else LastIndex(teams[..|teams| - 1], t)
  }

  /**
   * The loop that fills `team_to_int`, every listed team a key holding its
   * last position, and starts `overall_tournament` at zero for every position.
   */
  method IndexTeams(teams: seq<CppTeam>) returns (index: map<CppTeam, int>, counts: map<int, int>)
    ensures forall t :: t in index <==> t in teams
    ensures forall t :: t in index ==> LastIndex(teams, t) == Some(index[t])
    ensures forall x :: x in counts <==> 0 <= x < |teams|
    ensures forall x :: x in counts ==> counts[x] == 0
  {
    index := map[];
    counts := map[];
    var i := 0;
    while i < |teams|
      invariant 0 <= i <= |teams|
      invariant forall t :: t in index <==> t in teams[..i]
      invariant forall t :: t in index ==> LastIndex(teams[..i], t) == Some(index[t])
      invariant forall x :: x in counts <==> 0 <= x < i
      invariant forall x :: x in counts ==> counts[x] == 0
    {
      assert teams[..i + 1][..i] == teams[..i];
      assert teams[..i + 1] == teams[..i] + [teams[i]];
      index := index[teams[i] := i];
      counts := counts[i := 0];
      i := i + 1;
    }
    assert teams[..i] == teams;
  }

  // ---------------------------------------------------------------------
  // First pass: from matches to position pairs

  /** The complaint a match raises in the first pass, if any. */
  function MatchFault(teams: seq<CppTeam>, m: CppMatch): Option<Verdict>
  {
    if !Complete(m) then Some(Invalid(UnsetMessage))
    else if m.team1.value !in teams || m.team2.value !in teams then Some(OutOfRange)
    else None
  }

  /** The first complaint of the first pass over one turn. */
  function TurnFault(teams: seq<CppTeam>, turn: seq<CppMatch>): Option<Verdict>
    decreases |turn|
  {
    if |turn| == 0 then None
    else
      var f := TurnFault(teams, turn[..|turn| - 1]);
      if f.Some? then f else MatchFault(teams, turn[|turn| - 1])
  }

  /** The first complaint of the first pass, turn by turn and match by match. */
  function Fault(teams: seq<CppTeam>, turns: seq<seq<CppMatch>>): Option<Verdict>
    decreases |turns|
  {
    if |turns| == 0 then None
    else
      var f := Fault(teams, turns[..|turns| - 1]);
      if f.Some? then f else TurnFault(teams, turns[|turns| - 1])
  }

  /** The pair `{team_to_int.at(team_1), team_to_int.at(team_2)}` of a match. */
  function PairOf(teams: seq<CppTeam>, m: CppMatch): (e: Edge)
    requires MatchFault(teams, m) == None
    ensures 0 <= e.p1 < |teams| && 0 <= e.p2 < |teams|
    ensures teams[e.p1] == m.team1.value && teams[e.p2] == m.team2.value
  {
    Edge(LastIndex(teams, m.team1.value).value, LastIndex(teams, m.team2.value).value)
  }

  /** The ordered set of pairs a turn becomes. */
  function PairsOf(teams: seq<CppTeam>, turn: seq<CppMatch>): (s: Matching)
    requires TurnFault(teams, turn) == None
    ensures forall e :: e in s ==> 0 <= e.p1 < |teams| && 0 <= e.p2 < |teams|
    decreases |turn|
  {
    if |turn| == 0 then {}
    else PairsOf(teams, turn[..|turn| - 1]) + {PairOf(teams, turn[|turn| - 1])}
  }

  /** The `Matchings` the first pass builds, one set per turn. */
  function AllPairs(teams: seq<CppTeam>, turns: seq<seq<CppMatch>>): (r: seq<Matching>)
    requires Fault(teams, turns) == None
    ensures |r| == |turns|
    ensures forall k, e :: 0 <= k < |r| && e in r[k] ==> 0 <= e.p1 < |teams| && 0 <= e.p2 < |teams|
    decreases |turns|
  {
    if |turns| == 0 then []
    else AllPairs(teams, turns[..|turns| - 1]) + [PairsOf(teams, turns[|turns| - 1])]
  }

  /** The inner loop of the first pass over one turn. */
  method CollectTurn(teams: seq<CppTeam>, index: map<CppTeam, int>, turn: seq<CppMatch>)
    returns (fault: Option<Verdict>, pairs: Matching)
    requires forall t :: t in index <==> t in teams
    requires forall t :: t in index ==> LastIndex(teams, t) == Some(index[t])
    ensures fault == TurnFault(teams, turn)
    ensures fault == None ==> pairs == PairsOf(teams, turn)
  {
    pairs := {};
    var j := 0;
    while j < |turn|
      invariant 0 <= j <= |turn|
      invariant TurnFault(teams, turn[..j]) == None
      invariant pairs == PairsOf(teams, turn[..j])
    {
      assert turn[..j + 1][..j] == turn[..j];
      var m := turn[j];
      if m.team1.None? || m.team2.None? {
        assert TurnFault(teams, turn[..j + 1]) == Some(Invalid(UnsetMessage));
        TurnFaultPrefix(teams, turn, j + 1);
        return Some(Invalid(UnsetMessage)), pairs;
      }
      if m.team1.value !in index || m.team2.value !in index {
        assert TurnFault(teams, turn[..j + 1]) == Some(OutOfRange);
        TurnFaultPrefix(teams, turn, j + 1);
        return Some(OutOfRange), pairs;
      }
      pairs := pairs + {Edge(index[m.team1.value], index[m.team2.value])};
      j := j + 1;
    }
    assert turn[..j] == turn;
    fault := None;
  }

  /** The outer loop of the first pass. */
  method CollectPairs(teams: seq<CppTeam>, index: map<CppTeam, int>, turns: seq<seq<CppMatch>>)
    returns (fault: Option<Verdict>, matchings: seq<Matching>)
    requires forall t :: t in index <==> t in teams
    requires forall t :: t in index ==> LastIndex(teams, t) == Some(index[t])
    ensures fault == Fault(teams, turns)
    ensures fault == None ==> matchings == AllPairs(teams, turns)
  {
    matchings := [];
    var k := 0;
    while k < |turns|
      invariant 0 <= k <= |turns|
      invariant Fault(teams, turns[..k]) == None
      invariant matchings == AllPairs(teams, turns[..k])
    {
      assert turns[..k + 1][..k] == turns[..k];
      var f, pairs := CollectTurn(teams, index, turns[k]);
      if f.Some? {
        FaultPrefix(teams, turns, k + 1);
        return f, matchings;
      }
      matchings := matchings + [pairs];
      k := k + 1;
    }
    assert turns[..k] == turns;
    fault := None;
  }

  lemma {:induction false} TurnFaultPrefix(teams: seq<CppTeam>, turn: seq<CppMatch>, j: nat)
    requires j <= |turn| && TurnFault(teams, turn[..j]).Some?
    ensures TurnFault(teams, turn) == TurnFault(teams, turn[..j])
    decreases |turn| - j
  {
    if j < |turn| {
      assert turn[..j + 1][..j] == turn[..j];
      TurnFaultPrefix(teams, turn, j + 1);
    } else {
      assert turn[..j] == turn;
    }
  }

  lemma {:induction false} FaultPrefix(teams: seq<CppTeam>, turns: seq<seq<CppMatch>>, k: nat)
    requires k <= |turns| && Fault(teams, turns[..k]).Some?
    ensures Fault(teams, turns) == Fault(teams, turns[..k])
    decreases |turns| - k
  {
    if k < |turns| {
      assert turns[..k + 1][..k] == turns[..k];
      FaultPrefix(teams, turns, k + 1);
    } else {
      assert turns[..k] == turns;
    }
  }

  /** The first pass finds nothing exactly when every match has both teams and both are listed. */
  lemma {:induction false} TurnFaultFree(teams: seq<CppTeam>, turn: seq<CppMatch>)
    ensures TurnFault(teams, turn) == None <==> forall j :: 0 <= j < |turn| ==> MatchFault(teams, turn[j]) == None
    decreases |turn|
  {
    if |turn| > 0 {
      var front := turn[..|turn| - 1];
      TurnFaultFree(teams, front);
      assert forall j :: 0 <= j < |front| ==> front[j] == turn[j];
    }
  }

  lemma {:induction false} FaultFree(teams: seq<CppTeam>, turns: seq<seq<CppMatch>>)
    ensures Fault(teams, turns) == None <==>
      forall k, j :: 0 <= k < |turns| && 0 <= j < |turns[k]| ==>
        Complete(turns[k][j]) && turns[k][j].team1.value in teams && turns[k][j].team2.value in teams
    decreases |turns|
  {
    if |turns| > 0 {
      var front := turns[..|turns| - 1];
      FaultFree(teams, front);
      TurnFaultFree(teams, turns[|turns| - 1]);
      assert forall k :: 0 <= k < |front| ==> front[k] == turns[k];
    }
  }

  // ---------------------------------------------------------------------
  // Second pass: no team twice in a turn, and the match counts

  /** The first team met twice when the pairs of `list` are visited in order, `seen` holding the teams already met. */
  function ClashFrom(list: seq<Edge>, seen: set<int>): Option<int>
    decreases |list|
  {
    if |list| == 0 then None
    else if list[0].p1 in seen then Some(list[0].p1)
    else if list[0].p2 in seen then Some(list[0].p2)
    else ClashFrom(list[1..], seen + {list[0].p1, list[0].p2})
  }

  /** The team the check of one turn complains about, if any. */
  function Clash(list: seq<Edge>): Option<int>
  {
    ClashFrom(list, {})
  }

  /** The first complaint over the turns, in order. */
  function FirstClash(lists: seq<seq<Edge>>): Option<int>
    decreases |lists|
  {
    if |lists| == 0 then None
    else
      var c := FirstClash(lists[..|lists| - 1]);
      if c.Some? then c else Clash(lists[|lists| - 1])
  }

  /** How many times `x` is one end of a pair of `list`; a team paired with itself counts twice. */
  function Occurrences(list: seq<Edge>, x: int): nat
    decreases |list|
  {
    if |list| == 0 then 0
    else
      var e := list[|list| - 1];
      Occurrences(list[..|list| - 1], x) + (if e.p1 == x then 1 else 0) + (if e.p2 == x then 1 else 0)
  }

  /** The `overall_tournament` count of `x` over all turns. */
  function Count(lists: seq<seq<Edge>>, x: int): nat
    decreases |lists|
  {
    if |lists| == 0 then 0
    else Count(lists[..|lists| - 1], x) + Occurrences(lists[|lists| - 1], x)
  }

  /** The verdict of the second and third passes over the ordered turns, for `n` teams. */
  function Judge(lists: seq<seq<Edge>>, n: nat): Verdict
  {
    var c := FirstClash(lists);
    if c.Some? then Invalid(TwiceMessage(c.value))
    else if forall x :: 0 <= x < n ==> Count(lists, x) == Count(lists, 0) then Valid
    else Invalid(UnevenMessage)
  }

  /** The count map holds `before` plus the occurrences in `list`, for every key. */
  predicate CountsAdd(after: map<int, int>, before: map<int, int>, list: seq<Edge>)
  {
    after.Keys == before.Keys && forall x :: x in before ==> after[x] == before[x] + Occurrences(list, x)
  }

  /** The loop over one turn's ordered pairs with its `teams_in_turn` set. */
  method CheckTurn(list: seq<Edge>, counts: map<int, int>) returns (clash: Option<int>, counts': map<int, int>)
    requires forall j :: 0 <= j < |list| ==> list[j].p1 in counts && list[j].p2 in counts
    ensures clash == Clash(list)
    ensures clash == None ==> CountsAdd(counts', counts, list)
  {
    var seen: set<int> := {};
    counts' := counts;
    var j := 0;
    while j < |list|
      invariant 0 <= j <= |list|
      invariant ClashFrom(list[j..], seen) == Clash(list)
      invariant CountsAdd(counts', counts, list[..j])
    {
      var a := list[j].p1;
      var b := list[j].p2;
      if a in seen {
        return Some(a), counts';
      }
      if b in seen {
        return Some(b), counts';
      }
      assert list[j..][1..] == list[j + 1..];
      seen := seen + {a, b};
      assert list[..j + 1][..j] == list[..j];
      counts' := counts'[a := counts'[a] + 1];
      counts' := counts'[b := counts'[b] + 1];
      j := j + 1;
    }
    assert list[..j] == list;
    clash := None;
  }

  /** The loop over the turns of the second pass, the counts starting at zero for positions `0..n-1`. */
  method CheckTurns(lists: seq<seq<Edge>>, n: nat, zero: map<int, int>) returns (clash: Option<int>, counts: map<int, int>)
    requires forall k, j :: 0 <= k < |lists| && 0 <= j < |lists[k]| ==>
      0 <= lists[k][j].p1 < n && 0 <= lists[k][j].p2 < n
    requires forall x :: x in zero <==> 0 <= x < n
    requires forall x :: x in zero ==> zero[x] == 0
    ensures clash == FirstClash(lists)
    ensures clash == None ==> forall x :: (x in counts <==> 0 <= x < n)
    ensures clash == None ==> forall x :: 0 <= x < n ==> counts[x] == Count(lists, x)
  {
    counts := zero;
    var k := 0;
    while k < |lists|
      invariant 0 <= k <= |lists|
      invariant FirstClash(lists[..k]) == None
      invariant forall x :: x in counts <==> 0 <= x < n
      invariant forall x :: 0 <= x < n ==> counts[x] == Count(lists[..k], x)
    {
      assert lists[..k + 1][..k] == lists[..k];
      var c, counts' := CheckTurn(lists[k], counts);
      if c.Some? {
        FirstClashPrefix(lists, k + 1);
        return c, counts;
      }
      counts := counts';
      k := k + 1;
    }
    assert lists[..k] == lists;
    clash := None;
  }

  lemma {:induction false} FirstClashPrefix(lists: seq<seq<Edge>>, k: nat)
    requires k <= |lists| && FirstClash(lists[..k]).Some?
    ensures FirstClash(lists) == FirstClash(lists[..k])
    decreases |lists| - k
  {
    if k < |lists| {
      assert lists[..k + 1][..k] == lists[..k];
      FirstClashPrefix(lists, k + 1);
    } else {
      assert lists[..k] == lists;
    }
  }

  /** The ordered pairs of each turn's set, as iterating the `std::set` visits them. */
  method OrderTurns(matchings: seq<Matching>) returns (lists: seq<seq<Edge>>)
    ensures |lists| == |matchings|
    ensures forall k :: 0 <= k < |lists| ==> Listing(lists[k], matchings[k])
  {
    lists := [];
    var k := 0;
    while k < |matchings|
      invariant 0 <= k <= |matchings| && |lists| == k
      invariant forall x :: 0 <= x < k ==> Listing(lists[x], matchings[x])
    {
      var list := SortedEdges(matchings[k]);
      lists := lists + [list];
      k := k + 1;
    }
  }

  /** The loop collecting `unique_match_counts` from the count map. */
  method DistinctCounts(counts: map<int, int>, n: nat) returns (unique: set<int>)
    requires forall x :: 0 <= x < n ==> x in counts
    ensures forall c :: c in unique <==> exists x :: 0 <= x < n && counts[x] == c
  {
    unique := {};
    var x := 0;
    while x < n
      invariant 0 <= x <= n
      invariant forall c :: c in unique <==> exists y :: 0 <= y < x && counts[y] == c
    {
      unique := unique + {counts[x]};
      x := x + 1;
    }
  }

  /** More than one distinct count exactly when some count differs from the first. */
  lemma Spread(unique: set<int>, counts: map<int, int>, n: nat)
    requires forall x :: 0 <= x < n ==> x in counts
    requires forall c :: c in unique <==> exists x :: 0 <= x < n && counts[x] == c
    ensures |unique| > 1 <==> exists x :: 0 <= x < n && counts[x] != counts[0]
  {
    if exists x :: 0 <= x < n && counts[x] != counts[0] {
      var x :| 0 <= x < n && counts[x] != counts[0];
      assert {counts[0], counts[x]} <= unique;
      SubsetSize({counts[0], counts[x]}, unique);
    } else if n == 0 {
      assert forall c :: c !in unique;
      assert unique == {};
    } else {
      forall c | c in unique ensures c in {counts[0]} {
        var x :| 0 <= x < n && counts[x] == c;
      }
      SubsetSize(unique, {counts[0]});
    }
  }

  // ---------------------------------------------------------------------
  // The whole check

  /**
   * `validate_rodeo`: the first pass's complaint if there is one; otherwise
   * the verdict of the later passes over the turns' pairs in ascending order.
   */
  method ValidateRodeo(rodeo: CppTournament) returns (v: Verdict, ghost lists: seq<seq<Edge>>)
    ensures Fault(rodeo.teams, rodeo.turns).Some? ==> v == Fault(rodeo.teams, rodeo.turns).value
    ensures Fault(rodeo.teams, rodeo.turns) == None ==>
      var pairs := AllPairs(rodeo.teams, rodeo.turns);
      |lists| == |pairs| && (forall k :: 0 <= k < |lists| ==> Listing(lists[k], pairs[k]))
      && v == Judge(lists, |rodeo.teams|)
  {
    var teams := rodeo.teams;
    var index, zero := IndexTeams(teams);
    var fault, matchings := CollectPairs(teams, index, rodeo.turns);
    if fault.Some? {
      return fault.value, [];
    }
    var ordered := OrderTurns(matchings);
    lists := ordered;
    forall k, j | 0 <= k < |ordered| && 0 <= j < |ordered[k]|
      ensures 0 <= ordered[k][j].p1 < |teams| && 0 <= ordered[k][j].p2 < |teams|
    {
      assert ordered[k][j] in matchings[k];
    }
    var clash, counts := CheckTurns(ordered, |teams|, zero);
    if clash.Some? {
      return Invalid(TwiceMessage(clash.value)), lists;
    }
    var unique := DistinctCounts(counts, |teams|);
    Spread(unique, counts, |teams|);
    if |unique| > 1 {
      v := Invalid(UnevenMessage);
    } else {
      v := Valid;
    }
  }

  // ---------------------------------------------------------------------
  // What the verdict means

  /** Two strictly ascending listings of the same set are the same list, so the verdict does not depend on the choice of `lists`. */
  lemma {:induction false} ListingUnique(a: seq<Edge>, b: seq<Edge>, m: Matching)
    requires Listing(a, m) && Listing(b, m)
    ensures a == b
    decreases |a|
  {
    ListingSize(a, m);
    ListingSize(b, m);
    if |a| > 0 {
      assert a[0] in m;
      assert b[0] in m;
      Smallest(a, m);
      Smallest(b, m);
      assert a[0] == b[0];
      var rest := m - {a[0]};
      Drop(a, m);
      Drop(b, m);
      ListingUnique(a[1..], b[1..], rest);
      assert a == [a[0]] + a[1..] && b == [b[0]] + b[1..];
    }
  }

  /** A listing holds each element of its set once. */
  lemma {:induction false} ListingSize(a: seq<Edge>, m: Matching)
    requires Listing(a, m)
    ensures |a| == |m|
    decreases |a|
  {
    if |a| == 0 {
      assert forall e :: e !in m;
      assert m == {};
    } else {
      assert a[0] in m;
      Drop(a, m);
      ListingSize(a[1..], m - {a[0]});
    }
  }

  /** The head of a listing comes before every element of the set. */
  lemma Smallest(a: seq<Edge>, m: Matching)
    requires Listing(a, m) && |a| > 0
    ensures forall e :: e in m ==> EdgeBefore(a[0], e)
  {
    forall e | e in m ensures EdgeBefore(a[0], e) {
      var i :| 0 <= i < |a| && a[i] == e;
      if i == 0 {
        assert EdgeBefore(a[0], a[0]);
      }
    }
  }

  /** Without its head a listing lists the rest of the set. */
  lemma Drop(a: seq<Edge>, m: Matching)
    requires Listing(a, m) && |a| > 0
    ensures Listing(a[1..], m - {a[0]})
  {
    forall e ensures e in m - {a[0]} <==> e in a[1..] {
      if e in a[1..] {
        var i :| 1 <= i < |a| && a[i] == e;
      }
    }
  }

  /** Two pairs share a team. */
  predicate Shares(e: Edge, f: Edge)
  {
    e.p1 == f.p1 || e.p1 == f.p2 || e.p2 == f.p1 || e.p2 == f.p2
  }

  /**
   * The check of a turn finds nothing exactly when no pair meets a team in
   * `seen` and no two pairs share a team; a team paired with itself alone
   * raises nothing.
   */
  lemma {:induction false} ClashFromNone(list: seq<Edge>, seen: set<int>)
    ensures ClashFrom(list, seen) == None <==>
      (forall i :: 0 <= i < |list| ==> list[i].p1 !in seen && list[i].p2 !in seen)
      && (forall i, j :: 0 <= i < j < |list| ==> !Shares(list[i], list[j]))
    decreases |list|
  {
    if |list| > 0 {
      var e := list[0];
      var rest := list[1..];
      ClashFromNone(rest, seen + {e.p1, e.p2});
      assert forall i :: 1 <= i < |list| ==> list[i] == rest[i - 1];
      if e.p1 !in seen && e.p2 !in seen && ClashFrom(rest, seen + {e.p1, e.p2}) == None {
        forall i, j | 0 <= i < j < |list| ensures !Shares(list[i], list[j]) {
          if i > 0 {
            assert !Shares(rest[i - 1], rest[j - 1]);
          } else {
            assert rest[j - 1].p1 !in seen + {e.p1, e.p2};
          }
        }
      }
      if (forall i :: 0 <= i < |list| ==> list[i].p1 !in seen && list[i].p2 !in seen)
        && (forall i, j :: 0 <= i < j < |list| ==> !Shares(list[i], list[j])) {
        forall i | 0 <= i < |rest| ensures rest[i].p1 !in seen + {e.p1, e.p2} && rest[i].p2 !in seen + {e.p1, e.p2} {
          assert !Shares(list[0], list[i + 1]);
        }
        forall i, j | 0 <= i < j < |rest| ensures !Shares(rest[i], rest[j]) {
          assert !Shares(list[i + 1], list[j + 1]);
        }
      }
    }
  }

  /** No turn complains exactly when no two pairs of any turn share a team. */
  lemma {:induction false} FirstClashNone(lists: seq<seq<Edge>>)
    ensures FirstClash(lists) == None <==>
      forall k, i, j :: 0 <= k < |lists| && 0 <= i < j < |lists[k]| ==> !Shares(lists[k][i], lists[k][j])
    decreases |lists|
  {
    if |lists| > 0 {
      var front := lists[..|lists| - 1];
      FirstClashNone(front);
      ClashFromNone(lists[|lists| - 1], {});
      assert forall k :: 0 <= k < |front| ==> front[k] == lists[k];
    }
  }

  /**
   * The rodeo is accepted exactly when no team plays two pairs of one turn
   * and every position `0..n-1` plays equally often.
   */
  lemma JudgeValid(lists: seq<seq<Edge>>, n: nat)
    ensures Judge(lists, n) == Valid ==>
      (forall k, i, j :: 0 <= k < |lists| && 0 <= i < j < |lists[k]| ==> !Shares(lists[k][i], lists[k][j]))
    ensures Judge(lists, n) == Valid ==>
      (forall x, y :: 0 <= x < n && 0 <= y < n ==> Count(lists, x) == Count(lists, y))
    ensures (forall k, i, j :: 0 <= k < |lists| && 0 <= i < j < |lists[k]| ==> !Shares(lists[k][i], lists[k][j]))
      && (forall x, y :: 0 <= x < n && 0 <= y < n ==> Count(lists, x) == Count(lists, y))
      ==> Judge(lists, n) == Valid
  {
    FirstClashNone(lists);
    if forall x :: 0 <= x < n ==> Count(lists, x) == Count(lists, 0) {
      forall x, y | 0 <= x < n && 0 <= y < n ensures Count(lists, x) == Count(lists, y) {
        assert Count(lists, x) == Count(lists, 0) == Count(lists, y);
      }
    } else {
      var x :| 0 <= x < n && Count(lists, x) != Count(lists, 0);
      assert Judge(lists, n) != Valid;
      assert x < n && 0 < n && Count(lists, x) != Count(lists, 0);
      assert !(forall x, y :: 0 <= x < n && 0 <= y < n ==> Count(lists, x) == Count(lists, y)) by {
        assert 0 <= 0 < n;
      }
    }
  }

  /** A one-team rodeo whose single match pits the team against itself passes the check. */
  lemma SelfPairingAccepted(t: CppTeam)
    ensures Fault([t], [[NewMatch(t, t)]]) == None
    ensures AllPairs([t], [[NewMatch(t, t)]]) == [{Edge(0, 0)}]
    ensures Listing([Edge(0, 0)], {Edge(0, 0)})
    ensures Judge([[Edge(0, 0)]], 1) == Valid
  {
    var turn: seq<CppMatch> := [NewMatch(t, t)];
    var turns: seq<seq<CppMatch>> := [turn];
    var lists: seq<seq<Edge>> := [[Edge(0, 0)]];
    assert turn[..0] == [];
    assert turns[..0] == [];
    assert lists[..0] == [];
    assert LastIndex([t], t) == Some(0);
    assert MatchFault([t], turn[0]) == None;
    assert TurnFault([t], turn) == None;
    assert Fault([t], turns) == None;
    assert PairsOf([t], turn) == {Edge(0, 0)};
    assert Occurrences([Edge(0, 0)], 0) == 2;
  }

  // ---------------------------------------------------------------------
  // The factory's turns

  predicate Distinct(teams: seq<CppTeam>)
  {
    forall i, j :: 0 <= i < j < |teams| ==> teams[i] != teams[j]
  }

  /** A turn of matches built from the listed pairs of positions of distinct teams gives back those pairs. */
  lemma {:induction false} TurnPairs(teams: seq<CppTeam>, list: seq<Edge>, turn: seq<CppMatch>)
    requires Distinct(teams) && |turn| == |list|
    requires forall j :: 0 <= j < |list| ==> 0 <= list[j].p1 < |teams| && 0 <= list[j].p2 < |teams|
    requires forall j :: 0 <= j < |list| ==> turn[j] == NewMatch(teams[list[j].p1], teams[list[j].p2])
    ensures TurnFault(teams, turn) == None
    ensures forall e :: e in PairsOf(teams, turn) <==> e in list
    decreases |turn|
  {
    if |turn| > 0 {
      var n := |turn| - 1;
      TurnPairs(teams, list[..n], turn[..n]);
      var e := list[n];
      MatchPair(teams, e, turn[n]);
      assert list == list[..n] + [e];
    }
  }

  /** A match between two of the distinct teams is accepted and gives back their positions. */
  lemma MatchPair(teams: seq<CppTeam>, e: Edge, m: CppMatch)
    requires Distinct(teams) && 0 <= e.p1 < |teams| && 0 <= e.p2 < |teams|
    requires m == NewMatch(teams[e.p1], teams[e.p2])
    ensures MatchFault(teams, m) == None && PairOf(teams, m) == e
  {
    assert LastIndex(teams, teams[e.p1]) == Some(e.p1);
    assert LastIndex(teams, teams[e.p2]) == Some(e.p2);
  }

  /** The first pass over `turn` finds nothing and collects `round`. */
  ghost predicate TurnCollects(teams: seq<CppTeam>, turn: seq<CppMatch>, round: Matching)
  {
    TurnFault(teams, turn) == None && PairsOf(teams, turn) == round
  }

  lemma {:induction false} CollectsAll(teams: seq<CppTeam>, turns: seq<seq<CppMatch>>, rounds: seq<Matching>)
    requires |turns| == |rounds|
    requires forall k :: 0 <= k < |turns| ==> TurnCollects(teams, turns[k], rounds[k])
    ensures Fault(teams, turns) == None && AllPairs(teams, turns) == rounds
    decreases |turns|
  {
    if |turns| > 0 {
      var n := |turns| - 1;
      var tp, rp := turns[..n], rounds[..n];
      forall k | 0 <= k < n ensures TurnCollects(teams, tp[k], rp[k]) {
        assert tp[k] == turns[k] && rp[k] == rounds[k];
      }
      CollectsAll(teams, tp, rp);
      assert TurnCollects(teams, turns[n], rounds[n]);
      assert Fault(teams, turns) == None;
      assert AllPairs(teams, turns) == AllPairs(teams, tp) + [rounds[n]];
      assert rounds == rp + [rounds[n]];
    }
  }

  /**
   * The turns `make_tournament` builds for distinct teams pass the first
   * pass of the check, and the pairs it collects are the rounds again.
   */
  lemma FactoryTurnsPass(teams: seq<CppTeam>, rounds: seq<Matching>, turns: seq<seq<CppMatch>>)
    requires Distinct(teams) && TurnsOf(teams, rounds, turns)
    ensures Fault(teams, turns) == None && AllPairs(teams, turns) == rounds
  {
    forall k | 0 <= k < |turns| ensures TurnCollects(teams, turns[k], rounds[k]) {
      var list: seq<Edge> :| Listing(list, rounds[k]) && |list| == |turns[k]|
        && forall j :: 0 <= j < |list| ==> turns[k][j] == NewMatch(teams[list[j].p1], teams[list[j].p2]);
      ListedTurn(teams, rounds[k], list, turns[k]);
    }
    CollectsAll(teams, turns, rounds);
  }

  lemma ListedTurn(teams: seq<CppTeam>, round: Matching, list: seq<Edge>, turn: seq<CppMatch>)
    requires Distinct(teams) && Listing(list, round) && |list| == |turn|
    requires forall e :: e in round ==> 0 <= e.p1 < |teams| && 0 <= e.p2 < |teams|
    requires forall j :: 0 <= j < |list| ==> turn[j] == NewMatch(teams[list[j].p1], teams[list[j].p2])
    ensures TurnCollects(teams, turn, round)
  {
    forall j | 0 <= j < |list| ensures 0 <= list[j].p1 < |teams| && 0 <= list[j].p2 < |teams| {
      assert list[j] in round;
    }
    TurnPairs(teams, list, turn);
  }
}

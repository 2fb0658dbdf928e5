/**
 * The Python sketch of the algorithm: the graph built from a set of
 * pairings (`Graph.from_set`, `Graph.empty`) and the check of a finished
 * schedule (`validate_turns`).
 *
 * A pairing is a two-element `frozenset`; it is written here as an `Edge`
 * whose two ends are equal exactly when the frozenset would hold a single
 * team. A match of a turn is a tuple `(a, b)`, an `Edge` in its own order.
 * The exceptions Python raises become the `Err` of a result, named by their
 * class.
 */
module Poc {
  import opened Wrappers
  import opened Domain
  import opened Text
  import opened Graphs
  import opened Feasibility
  import opened Cardinality
  import Circulant
  import CppGreedy
  import CppValidate
  import Backtracking

  const KeyError := "KeyError"
  const AssertionError := "AssertionError"
  const UnevenMessage := "There is at least a team that plays less than the others"

  /** `get_matches_per_team(5, 5, 3)`, the call the sketch prints: 10 matches, 2 per turn, 4 per team. */
  lemma PrintedDraw()
    ensures BestDraw(5, 5, 3, false) == Draw(10, 2.0, 4)
  {
  }

  // ---------------------------------------------------------------------
  // Graph.from_set and Graph.empty

  /** The number of distinct teams the pairings name: the size of the union the sketch reduces to. */
  function NodeCount(edges: Matching): nat
  {
    |Endpoints(edges)|
  }

  /** A pairing `from_set` stores: two distinct teams, both numbered below the node count. */
  predicate Storable(edges: Matching, e: Edge)
  {
    e.p1 != e.p2 && 0 <= e.p1 < NodeCount(edges) && 0 <= e.p2 < NodeCount(edges)
  }

  /**
   * `Graph.from_set`: one empty row per number `0..n-1`, `n` the number of
   * distinct teams, then both directions of every pairing. A single-team
   * pairing fails the assertion; a team numbered outside the rows raises
   * `KeyError`. The pairings are visited in no particular order, so when
   * both kinds of fault are present either may surface.
   */
  method FromSet(edges: Matching) returns (r: Result<Adjacency>)
    ensures r.Ok? <==> forall e :: e in edges ==> Storable(edges, e)
    ensures r.Ok? ==> forall u :: u in r.value <==> 0 <= u < NodeCount(edges)
    ensures r.Ok? ==> forall u :: u in r.value ==> r.value[u] == CppGreedy.NeighboursIn(edges, u)
    ensures r.Err? && NoLoops(edges) ==> r.error == KeyError
    ensures r.Err? && (forall e :: e in edges ==> 0 <= e.p1 < NodeCount(edges) && 0 <= e.p2 < NodeCount(edges))
      ==> r.error == AssertionError
  {
    var n := |Endpoints(edges)|;
    var res := EmptyRows(n);
    var rest := edges;
    ghost var done: Matching := {};
    while rest != {}
      invariant rest + done == edges && rest !! done
      invariant Rows(res, n, done)
      invariant forall e :: e in done ==> Storable(edges, e)
      decreases |rest|
    {
      ghost var w := Pick(rest);
      var e :| e in rest;
      var step := AddPairing(res, e, n, edges, done);
      if step.Err? {
        FaultOf(edges, e, step.error);
        return Err(step.error);
      }
      res := step.value;
      rest, done := rest - {e}, done + {e};
    }
    assert done == edges;
    return Ok(res);
  }

  /** The rows `from_set` starts from: one empty row per number `0..n-1`. */
  method EmptyRows(n: int) returns (res: Adjacency)
    ensures Rows(res, n, {})
  {
    res := map u | u in Circulant.Range(0, n) :: {};
  }

  /** A pairing that cannot be stored makes the whole set unstorable, and names the fault the set's shape allows. */
  lemma FaultOf(edges: Matching, e: Edge, error: string)
    requires e in edges && !Storable(edges, e)
    requires error == if e.p1 == e.p2 then AssertionError else KeyError
    ensures !forall f :: f in edges ==> Storable(edges, f)
    ensures NoLoops(edges) ==> error == KeyError
    ensures (forall f :: f in edges ==> 0 <= f.p1 < NodeCount(edges) && 0 <= f.p2 < NodeCount(edges))
      ==> error == AssertionError
  {
  }

  /**
   * The body of the loop of `from_set`: a single-team pairing fails the
   * assertion, a team outside the rows raises, otherwise both directions of
   * the pairing are stored.
   */
  method AddPairing(res: Adjacency, e: Edge, n: int, ghost edges: Matching, ghost done: Matching) returns (r: Result<Adjacency>)
    requires Rows(res, n, done) && n == NodeCount(edges)
    ensures r.Ok? <==> Storable(edges, e)
    ensures r.Ok? ==> Rows(r.value, n, done + {e})
    ensures r.Err? ==> r.error == if e.p1 == e.p2 then AssertionError else KeyError
  {
    if e.p1 == e.p2 {
      return Err(AssertionError);
    }
    if e.p1 !in res {
      return Err(KeyError);
    }
    var r1 := res[e.p1 := res[e.p1] + {e.p2}];
    if e.p2 !in r1 {
      return Err(KeyError);
    }
    RowsAdd(res, n, done, e);
    return Ok(r1[e.p2 := r1[e.p2] + {e.p1}]);
  }

  /** Rows `0..n-1`, each holding the neighbours the pairings of `done` give it. */
  ghost predicate Rows(res: Adjacency, n: int, done: Matching)
  {
    (forall u :: u in res <==> 0 <= u < n)
    && forall u :: u in res ==> res[u] == CppGreedy.NeighboursIn(done, u)
  }

  lemma RowsAdd(res: Adjacency, n: int, done: Matching, e: Edge)
    requires Rows(res, n, done) && 0 <= e.p1 < n && 0 <= e.p2 < n
    ensures var r1 := res[e.p1 := res[e.p1] + {e.p2}];
      Rows(r1[e.p2 := r1[e.p2] + {e.p1}], n, done + {e})
  {
    var r1 := res[e.p1 := res[e.p1] + {e.p2}];
    var r2 := r1[e.p2 := r1[e.p2] + {e.p1}];
    forall u | u in r2 ensures r2[u] == CppGreedy.NeighboursIn(done + {e}, u) {
      CppGreedy.NeighboursAdd(done, e, u);
    }
  }

  /**
   * Every pairing is in range exactly when the teams are numbered `0..n-1`
   * with no gap, `n` their number: the only input `from_set` accepts
   * besides loop-freedom.
   */
  lemma NumberedWithoutGaps(edges: Matching)
    ensures (forall e :: e in edges ==> 0 <= e.p1 < NodeCount(edges) && 0 <= e.p2 < NodeCount(edges))
      <==> Endpoints(edges) == Circulant.Range(0, NodeCount(edges))
  {
    var nodes, range := Endpoints(edges), Circulant.Range(0, NodeCount(edges));
    if nodes == range {
      forall e | e in edges ensures 0 <= e.p1 < NodeCount(edges) && 0 <= e.p2 < NodeCount(edges) {
        assert e.p1 in nodes && e.p2 in nodes;
      }
    }
    if forall e :: e in edges ==> 0 <= e.p1 < NodeCount(edges) && 0 <= e.p2 < NodeCount(edges) {
      assert nodes <= range;
      if nodes != range {
        var x :| x in range && x !in nodes;
        Backtracking.SubsetSize(nodes, range - {x});
        assert false;
      }
    }
  }

  /** `Graph.empty`: no node has a neighbour left, that is, no direction is stored at all. */
  function IsEmpty(adj: Adjacency): (b: bool)
    ensures b <==> Arcs(adj) == {}
  {
    NoEdgesNoArcs(adj);
    forall u :: u in adj ==> |adj[u]| == 0
  }

  // ---------------------------------------------------------------------
  // validate_turns

  datatype Fault = Twice(player: int) | Missing

  /**
   * The scan of one turn from `seen` on: a match whose first team, then
   * second team, is already seen is reported; otherwise a team that is not
   * a node of the graph raises on its count.
   */
  function ScanTurn(t: seq<Edge>, seen: set<int>, keys: set<int>): Option<Fault>
    decreases |t|
  {
    if |t| == 0 then None
    else if t[0].p1 in seen then Some(Twice(t[0].p1))
    else if t[0].p2 in seen then Some(Twice(t[0].p2))
    else if t[0].p1 !in keys || t[0].p2 !in keys then Some(Missing)
    else ScanTurn(t[1..], seen + {t[0].p1, t[0].p2}, keys)
  }

  /** The first fault over the turns, with the index of its turn. */
  function Scan(turns: seq<seq<Edge>>, keys: set<int>): (r: Option<(Fault, nat)>)
    ensures r.Some? ==> r.value.1 < |turns|
    decreases |turns|
  {
    if |turns| == 0 then None
    else
      var f := Scan(turns[..|turns| - 1], keys);
      if f.Some? then f
      else
        var g := ScanTurn(turns[|turns| - 1], {}, keys);
        if g.Some? then Some((g.value, |turns| - 1)) else None
  }

  /** Python's `repr` of a turn: `[(a, b), (c, d)]`. */
  function TurnRepr(t: seq<Edge>): string
  {
    "[" + Join(seq(|t|, j requires 0 <= j < |t| => "(" + IntToString(t[j].p1) + ", " + IntToString(t[j].p2) + ")"), ", ") + "]"
  }

  datatype Check = Accepted | Rejected(message: string) | Raises(exception: string)

  /** What `validate_turns` returns or raises for a graph with nodes `keys`. */
  function Validation(keys: set<int>, turns: seq<seq<Edge>>): Check
  {
    match Scan(turns, keys)
    case Some((Twice(x), k)) => Rejected("Player " + IntToString(x) + " plays twice during turn " + TurnRepr(turns[k]))
    case Some((Missing, _)) => Raises(KeyError)
    case None =>
      if forall x, y :: x in keys && y in keys ==> CppValidate.Count(turns, x) == CppValidate.Count(turns, y) then Accepted
      else Rejected(UnevenMessage)
  }

  /** The inner loop of `validate_turns` over one turn's matches. */
  method CheckTurn(t: seq<Edge>, keys: set<int>, counts: map<int, int>) returns (fault: Option<Fault>, counts': map<int, int>)
    requires counts.Keys == keys
    ensures fault == ScanTurn(t, {}, keys)
    ensures fault == None ==> CppValidate.CountsAdd(counts', counts, t)
  {
    var teams: set<int> := {};
    counts' := counts;
    var j := 0;
    while j < |t|
      invariant 0 <= j <= |t|
      invariant ScanTurn(t[j..], teams, keys) == ScanTurn(t, {}, keys)
      invariant CppValidate.CountsAdd(counts', counts, t[..j])
    {
      var (a, b) := (t[j].p1, t[j].p2);
      assert t[j..][1..] == t[j + 1..];
      if a in teams {
        return Some(Twice(a)), counts';
      }
      if b in teams {
        return Some(Twice(b)), counts';
      }
      teams := teams + {a, b};
      if a !in counts' {
        return Some(Missing), counts';
      }
      counts' := counts'[a := counts'[a] + 1];
      if b !in counts' {
        return Some(Missing), counts';
      }
      counts' := counts'[b := counts'[b] + 1];
      assert t[..j + 1][..j] == t[..j];
      j := j + 1;
    }
    assert t[..j] == t;
    fault := None;
  }

  /** `validate_turns(graph, turns_matches)`. */
  method ValidateTurns(g: Graph, turns: seq<seq<Edge>>) returns (v: Check)
    ensures v == Validation(g.nodes.Keys, turns)
  {
    var keys := g.nodes.Keys;
    var counts: map<int, int> := map x | x in g.nodes :: 0;
    var k := 0;
    while k < |turns|
      invariant 0 <= k <= |turns|
      invariant Scan(turns[..k], keys) == None
      invariant counts.Keys == keys
      invariant forall x :: x in counts ==> counts[x] == CppValidate.Count(turns[..k], x)
    {
      assert turns[..k + 1][..k] == turns[..k];
      var fault, counts' := CheckTurn(turns[k], keys, counts);
      if fault.Some? {
        assert Scan(turns[..k + 1], keys) == Some((fault.value, k));
        ScanStops(turns, k + 1, keys);
        if fault.value.Twice? {
          return Rejected("Player " + IntToString(fault.value.player) + " plays twice during turn " + TurnRepr(turns[k]));
        }
        return Raises(KeyError);
      }
      counts := counts';
      k := k + 1;
    }
    assert turns[..k] == turns;
    var values := set x | x in counts :: counts[x];
    if |values| > 1 {
      Uneven(values, counts);
      v := Rejected(UnevenMessage);
    } else {
      Even(values, counts);
      v := Accepted;
    }
  }

  /** Once a prefix holds a fault, the whole scan reports that fault. */
  lemma {:induction false} ScanStops(turns: seq<seq<Edge>>, k: nat, keys: set<int>)
    requires k <= |turns| && Scan(turns[..k], keys).Some?
    ensures Scan(turns, keys) == Scan(turns[..k], keys)
    decreases |turns| - k
  {
    if k < |turns| {
      assert turns[..k + 1][..k] == turns[..k];
      ScanStops(turns, k + 1, keys);
    } else {
      assert turns[..k] == turns;
    }
  }

  lemma Uneven(values: set<int>, counts: map<int, int>)
    requires values == set x | x in counts :: counts[x]
    requires |values| > 1
    ensures exists x, y :: x in counts && y in counts && counts[x] != counts[y]
  {
    var c := Pick(values);
    if forall x :: x in counts ==> counts[x] == c {
      Backtracking.SubsetSize(values, {c});
      assert false;
    }
  }

  lemma Even(values: set<int>, counts: map<int, int>)
    requires values == set x | x in counts :: counts[x]
    requires |values| <= 1
    ensures forall x, y :: x in counts && y in counts ==> counts[x] == counts[y]
  {
    forall x, y | x in counts && y in counts ensures counts[x] == counts[y] {
      if counts[x] != counts[y] {
        Backtracking.SubsetSize({counts[x], counts[y]}, values);
        assert false;
      }
    }
  }

  // ---------------------------------------------------------------------
  // What the verdict means

  /** A turn scans clean exactly when its teams are all nodes and none plays two of its matches. */
  lemma {:induction false} ScanTurnNone(t: seq<Edge>, seen: set<int>, keys: set<int>)
    ensures ScanTurn(t, seen, keys) == None <==>
      CppValidate.ClashFrom(t, seen) == None && forall j :: 0 <= j < |t| ==> t[j].p1 in keys && t[j].p2 in keys
    decreases |t|
  {
    if |t| > 0 {
      ScanTurnNone(t[1..], seen + {t[0].p1, t[0].p2}, keys);
      assert forall j :: 1 <= j < |t| ==> t[j] == t[1..][j - 1];
    }
  }

  /** The turns scan clean exactly when every team is a node and no turn has a team in two matches. */
  lemma {:induction false} ScanNone(turns: seq<seq<Edge>>, keys: set<int>)
    ensures Scan(turns, keys) == None <==>
      CppValidate.FirstClash(turns) == None && NodesOnly(turns, keys)
    decreases |turns|
  {
    if |turns| > 0 {
      var front := turns[..|turns| - 1];
      var last := turns[|turns| - 1];
      ScanNone(front, keys);
      ScanTurnNone(last, {}, keys);
      assert forall k :: 0 <= k < |front| ==> front[k] == turns[k];
    }
  }

  ghost predicate NodesOnly(turns: seq<seq<Edge>>, keys: set<int>)
  {
    forall k, j :: 0 <= k < |turns| && 0 <= j < |turns[k]| ==> turns[k][j].p1 in keys && turns[k][j].p2 in keys
  }

  /**
   * The schedule is accepted exactly when every team it names is a node of
   * the graph, no team plays two matches of one turn (a team paired with
   * itself aside) and all nodes play equally often.
   */
  lemma Accepts(keys: set<int>, turns: seq<seq<Edge>>)
    ensures Validation(keys, turns) == Accepted ==> NodesOnly(turns, keys)
    ensures Validation(keys, turns) == Accepted ==>
      forall k, i, j :: 0 <= k < |turns| && 0 <= i < j < |turns[k]| ==> !CppValidate.Shares(turns[k][i], turns[k][j])
    ensures Validation(keys, turns) == Accepted ==>
      forall x, y :: x in keys && y in keys ==> CppValidate.Count(turns, x) == CppValidate.Count(turns, y)
    ensures NodesOnly(turns, keys)
      && (forall k, i, j :: 0 <= k < |turns| && 0 <= i < j < |turns[k]| ==> !CppValidate.Shares(turns[k][i], turns[k][j]))
      && (forall x, y :: x in keys && y in keys ==> CppValidate.Count(turns, x) == CppValidate.Count(turns, y))
      ==> Validation(keys, turns) == Accepted
  {
    ScanNone(turns, keys);
    CppValidate.FirstClashNone(turns);
  }
}

/**
 * The exhaustive fallback of the Go engine (`makeMatchingsBacktracking`,
 * `solveRecursive`, `copyMatchings`).
 *
 * Every edge of the pairing graph must go into one of `totalMatchings`
 * buckets (rounds); a bucket takes an edge when neither endpoint is in it
 * yet and it holds fewer than `maxSize` edges. The search always places
 * next an edge with the fewest admitting buckets, gives up at once when
 * some edge has none, tries the admitting buckets in order, and undoes a
 * placement in place when the search below it fails.
 *
 * The search is complete: it reports failure only when no assignment
 * exists (`SolveRecursive`). Cancellation of the Go context is not modelled:
 * the context is taken to be never cancelled.
 */
module Backtracking {
  import opened Domain
  import opened Wrappers
  import opened Cardinality
  import opened Graphs
  import Feasibility

  /** Bucket `bucket`, whose nodes are `used`, can take `e`. */
  predicate Admits(bucket: Matching, used: set<int>, e: Edge, maxSize: int)
  {
    e.p1 !in used && e.p2 !in used && |bucket| < maxSize
  }

  /** The number of buckets among the first `j` that can take `e`. */
  function OptionsAmong(buckets: seq<Matching>, used: seq<set<int>>, e: Edge, maxSize: int, j: int): (r: nat)
    requires 0 <= j <= |buckets| == |used|
    ensures r <= j
  {
    if j == 0 then 0
    else OptionsAmong(buckets, used, e, maxSize, j - 1) + (if Admits(buckets[j - 1], used[j - 1], e, maxSize) then 1 else 0)
  }

  /**
   * The search state: each bucket is a matching within the size limit whose
   * nodes are recorded, no edge is in two buckets, and the edges still to
   * place are in none.
   */
  ghost predicate State(buckets: seq<Matching>, used: seq<set<int>>, remaining: set<Edge>, maxSize: int)
  {
    |used| == |buckets|
    && (forall i :: 0 <= i < |buckets| ==>
          used[i] == Endpoints(buckets[i]) && IsMatching(buckets[i]) && (buckets[i] == {} || |buckets[i]| <= maxSize))
    && (forall i, j :: 0 <= i < j < |buckets| ==> buckets[i] !! buckets[j])
    && (forall i :: 0 <= i < |buckets| ==> buckets[i] !! remaining)
  }

  /**
   * `sol` completes `base` with the edges of `extra`: each bucket keeps its
   * edges and gains only edges of `extra`, each edge of `extra` lands in a
   * bucket, no edge is in two buckets, and every bucket is a matching within
   * the size limit.
   */
  ghost predicate Packing(sol: seq<Matching>, base: seq<Matching>, extra: set<Edge>, maxSize: int)
  {
    |sol| == |base|
    && (forall i :: 0 <= i < |sol| ==> base[i] <= sol[i] && sol[i] - base[i] <= extra)
    && (forall e :: e in extra ==> exists i :: 0 <= i < |sol| && e in sol[i])
    && (forall i, j :: 0 <= i < j < |sol| ==> sol[i] !! sol[j])
    && (forall i :: 0 <= i < |sol| ==> IsMatching(sol[i]) && (sol[i] == {} || |sol[i]| <= maxSize))
  }

  /** Placing an edge into a bucket that admits it keeps the search state. */
  lemma PlaceKeepsState(buckets: seq<Matching>, used: seq<set<int>>, remaining: set<Edge>, maxSize: int, i: int, e: Edge)
    requires State(buckets, used, remaining, maxSize)
    requires 0 <= i < |buckets| && e in remaining && Admits(buckets[i], used[i], e, maxSize)
    ensures State(buckets[i := buckets[i] + {e}], used[i := used[i] + {e.p1, e.p2}], remaining - {e}, maxSize)
  {
    var b' := buckets[i := buckets[i] + {e}];
    var u' := used[i := used[i] + {e.p1, e.p2}];
    forall j | 0 <= j < |b'|
      ensures u'[j] == Endpoints(b'[j]) && IsMatching(b'[j]) && (b'[j] == {} || |b'[j]| <= maxSize)
    {
      if j == i {
        AddToMatching(buckets[i], e);
      }
    }
    forall j, k | 0 <= j < k < |b'| ensures b'[j] !! b'[k] {
      assert buckets[j] !! buckets[k];
      assert e !in buckets[j] && e !in buckets[k];
    }
    forall j | 0 <= j < |b'| ensures b'[j] !! (remaining - {e}) {
      assert buckets[j] !! remaining;
    }
  }

  /** A completion of the state after a placement is a completion of the state before it. */
  lemma PackingExtend(sol: seq<Matching>, buckets: seq<Matching>, remaining: set<Edge>, maxSize: int, i: int, e: Edge)
    requires 0 <= i < |buckets| && e in remaining
    requires Packing(sol, buckets[i := buckets[i] + {e}], remaining - {e}, maxSize)
    ensures Packing(sol, buckets, remaining, maxSize)
  {
    var base' := buckets[i := buckets[i] + {e}];
    forall j | 0 <= j < |sol| ensures buckets[j] <= sol[j] && sol[j] - buckets[j] <= remaining {
      assert base'[j] <= sol[j] && sol[j] - base'[j] <= remaining - {e};
      forall f | f in sol[j] - buckets[j] ensures f in remaining {
        if f !in base'[j] {
          assert f in sol[j] - base'[j];
        }
      }
    }
    forall f | f in remaining ensures exists j :: 0 <= j < |sol| && f in sol[j] {
      if f == e {
        assert base'[i] <= sol[i];
      } else {
        assert f in remaining - {e};
      }
    }
  }

  /** A completion that puts `e` into bucket `i` is a completion of the state after that placement. */
  lemma PackingRestrict(sol: seq<Matching>, buckets: seq<Matching>, remaining: set<Edge>, maxSize: int, i: int, e: Edge)
    requires Packing(sol, buckets, remaining, maxSize)
    requires 0 <= i < |buckets| && e in remaining && e in sol[i]
    ensures Packing(sol, buckets[i := buckets[i] + {e}], remaining - {e}, maxSize)
  {
    forall f | f in remaining - {e} ensures exists j :: 0 <= j < |sol| && f in sol[j] {
      assert f in remaining;
    }
    forall j | 0 <= j < |sol| && j != i ensures e !in sol[j] {
      if j < i {
        assert sol[j] !! sol[i];
      } else {
        assert sol[i] !! sol[j];
      }
    }
  }

  /** An edge added to a matching beyond `b` shares no node with `b`. */
  lemma FreshOfSubmatching(b: Matching, m: Matching, f: Edge)
    requires b <= m && IsMatching(m) && f in m && f !in b
    ensures f.p1 !in Endpoints(b) && f.p2 !in Endpoints(b)
  {
    forall g | g in b ensures g.p1 != f.p1 && g.p2 != f.p1 && g.p1 != f.p2 && g.p2 != f.p2 {
      assert g in m && g != f;
    }
  }

  /** A bucket that receives an edge in some completion admits that edge now. */
  lemma PackingAdmits(sol: seq<Matching>, buckets: seq<Matching>, used: seq<set<int>>, remaining: set<Edge>,
                      maxSize: int, j: int, f: Edge)
    requires State(buckets, used, remaining, maxSize) && Packing(sol, buckets, remaining, maxSize)
    requires 0 <= j < |buckets| && f in remaining && f in sol[j]
    ensures Admits(buckets[j], used[j], f, maxSize)
  {
    var b := buckets[j];
    assert f !in b;
    FreshOfSubmatching(b, sol[j], f);
    assert b + {f} <= sol[j];
    SubsetSize(b + {f}, sol[j]);
  }

  /** When every completion keeps `e` out of bucket `i` once `e` is placed there, it keeps `e` out of bucket `i`. */
  lemma RefusedAfterFailure(buckets: seq<Matching>, remaining: set<Edge>, maxSize: int, i: int, e: Edge,
                            placed: seq<Matching>, rest: set<Edge>)
    requires 0 <= i < |buckets| && e in remaining
    requires placed == buckets[i := buckets[i] + {e}] && rest == remaining - {e}
    requires forall s :: !Packing(s, placed, rest, maxSize)
    ensures forall s :: Packing(s, buckets, remaining, maxSize) ==> e !in s[i]
  {
    forall s | Packing(s, buckets, remaining, maxSize) && e in s[i] ensures false {
      PackingRestrict(s, buckets, remaining, maxSize, i, e);
    }
  }

  /** A bucket that does not admit `e` gets `e` in no completion. */
  lemma RefusedWhenFull(buckets: seq<Matching>, used: seq<set<int>>, remaining: set<Edge>, maxSize: int, i: int, e: Edge)
    requires State(buckets, used, remaining, maxSize)
    requires 0 <= i < |buckets| && e in remaining && !Admits(buckets[i], used[i], e, maxSize)
    ensures forall s :: Packing(s, buckets, remaining, maxSize) ==> e !in s[i]
  {
    forall s | Packing(s, buckets, remaining, maxSize) && e in s[i] ensures false {
      PackingAdmits(s, buckets, used, remaining, maxSize, i, e);
    }
  }

  /** An edge still to place that no completion puts into any bucket leaves no completion. */
  lemma RefusedEverywhere(buckets: seq<Matching>, remaining: set<Edge>, maxSize: int, e: Edge)
    requires e in remaining
    requires forall s :: Packing(s, buckets, remaining, maxSize) ==> forall j :: 0 <= j < |buckets| ==> e !in s[j]
    ensures forall s :: !Packing(s, buckets, remaining, maxSize)
  {
    forall s | Packing(s, buckets, remaining, maxSize) ensures false {
    }
  }

  /** A subset is no larger than its superset. */
  lemma {:induction false} SubsetSize<T>(a: set<T>, b: set<T>)
    requires a <= b
    ensures |a| <= |b|
  {
    assert b == a + (b - a);
    assert a !! (b - a);
  }

  /** An admitting bucket among the first `j` makes the option count positive. */
  lemma {:induction false} OptionsPositive(buckets: seq<Matching>, used: seq<set<int>>, e: Edge, maxSize: int, j: int, k: int)
    requires 0 <= k < j <= |buckets| == |used| && Admits(buckets[k], used[k], e, maxSize)
    ensures OptionsAmong(buckets, used, e, maxSize, j) >= 1
    decreases j
  {
    if k < j - 1 {
      OptionsPositive(buckets, used, e, maxSize, j - 1, k);
    }
  }

  /** `copyMatchings`: a bucket-by-bucket copy. */
  method CopyMatchings(src: seq<Matching>) returns (dst: seq<Matching>)
    ensures |dst| == |src| && forall i :: 0 <= i < |src| ==> dst[i] == src[i]
  {
    dst := [];
    var i := 0;
    while i < |src|
      invariant 0 <= i <= |src| && |dst| == i
      invariant forall j :: 0 <= j < i ==> dst[j] == src[j]
    {
      dst := dst + [src[i]];
      i := i + 1;
    }
  }

  /**
   * The state `solveRecursive` changes in place: the buckets, the nodes in
   * each bucket, and the edges still to place.
   */
  class Solver {
    var buckets: seq<Matching>
    var usedNodes: seq<set<int>>
    var remaining: set<Edge>
    const maxSize: int

    constructor (buckets0: seq<Matching>, used0: seq<set<int>>, remaining0: set<Edge>, maxSize0: int)
      ensures buckets == buckets0 && usedNodes == used0 && remaining == remaining0 && maxSize == maxSize0
    {
      buckets, usedNodes, remaining, maxSize := buckets0, used0, remaining0, maxSize0;
    }

    ghost predicate Valid()
      reads this
    {
      State(buckets, usedNodes, remaining, maxSize)
    }

    /** The number of buckets that can take `e` now. */
    function Options(e: Edge): nat
      reads this
      requires |usedNodes| == |buckets|
    {
      OptionsAmong(buckets, usedNodes, e, maxSize, |buckets|)
    }

    /** The inner `options` count of the selection loop. */
    method CountOptions(e: Edge) returns (options: int)
      requires |usedNodes| == |buckets|
      ensures options == Options(e)
    {
      options := 0;
      var i := 0;
      while i < |buckets|
        invariant 0 <= i <= |buckets|
        invariant options == OptionsAmong(buckets, usedNodes, e, maxSize, i)
      {
        if e.p1 !in usedNodes[i] && e.p2 !in usedNodes[i] && |buckets[i]| < maxSize {
          options := options + 1;
        }
        i := i + 1;
      }
    }

    /** The body of the selection loop: counts the options of `f` and keeps it when it has fewer than the best so far. */
    method ConsiderEdge(f: Edge, e: Edge, minOptions: int, ghost seen: set<Edge>) returns (options: int, e': Edge, min': int)
      requires |usedNodes| == |buckets|
      requires (seen == {} && minOptions == |buckets| + 1) || (e in seen && Options(e) == minOptions >= 1)
      requires forall g :: g in seen ==> minOptions <= Options(g)
      ensures options == Options(f)
      ensures options != 0 ==> e' in seen + {f} && Options(e') == min' >= 1
      ensures options != 0 ==> forall g :: g in seen + {f} ==> min' <= Options(g)
    {
      options := CountOptions(f);
      e', min' := e, minOptions;
      if options != 0 && options < minOptions {
        min' := options;
        e' := f;
      }
    }

    /**
     * The selection loop: visits the remaining edges in any order, stops
     * with `stuck` at an edge no bucket can take, and otherwise returns an
     * edge with the fewest options (or the first one met with a single
     * option).
     */
    method ChooseEdge(fallback: Edge) returns (e: Edge, stuck: bool)
      requires |usedNodes| == |buckets| && remaining != {}
      ensures e in remaining
      ensures stuck ==> Options(e) == 0
      ensures !stuck ==> (Options(e) >= 1 && (Options(e) == 1 || forall f :: f in remaining ==> Options(e) <= Options(f)))
    {
      var minOptions := |buckets| + 1;
      e, stuck := fallback, false;
      var rest := remaining;
      ghost var seen: set<Edge> := {};
      while rest != {}
        invariant seen + rest == remaining
        invariant (seen == {} && minOptions == |buckets| + 1) || (e in seen && Options(e) == minOptions >= 1)
        invariant forall f :: f in seen ==> minOptions <= Options(f)
        decreases |rest|
      {
        ghost var w := Pick(rest);
        var f :| f in rest;
        var options;
        options, e, minOptions := ConsiderEdge(f, e, minOptions, seen);
        assert f in remaining && seen + {f} <= remaining;
        if options == 0 {
          return f, true;
        }
        if minOptions == 1 {
          assert e in remaining;
          return e, false;
        }
        rest := rest - {f};
        seen := seen + {f};
      }
      assert seen == remaining;
    }

    /**
     * `solveRecursive` with `edgeIdx` edges of `allEdges` already placed.
     * On success it returns a completion of the buckets it was given with
     * every remaining edge; on failure it has restored every bucket, node set
     * and the remaining edges exactly, and no completion exists.
     */
    method SolveRecursive(allEdges: seq<Edge>, edgeIdx: int) returns (sol: seq<Matching>, found: bool)
      requires Valid() && 0 <= edgeIdx <= |allEdges| && |remaining| == |allEdges| - edgeIdx
      modifies this
      ensures Valid()
      ensures found ==> Packing(sol, old(buckets), old(remaining), maxSize)
      ensures !found ==> buckets == old(buckets) && usedNodes == old(usedNodes) && remaining == old(remaining)
      ensures !found ==> forall s :: !Packing(s, old(buckets), old(remaining), maxSize)
      decreases |remaining|, 1
    {
      if edgeIdx == |allEdges| {
        sol := CopyMatchings(buckets);
        return sol, true;
      }
      var currentEdge, stuck := ChooseEdge(allEdges[edgeIdx]);
      if stuck {
        NoPackingWhenStuck(currentEdge);
        return [], false;
      }
      var i := 0;
      while i < |buckets|
        invariant 0 <= i <= |buckets| && Valid()
        invariant buckets == old(buckets) && usedNodes == old(usedNodes) && remaining == old(remaining)
        invariant forall s :: Packing(s, buckets, remaining, maxSize) ==>
          forall j :: 0 <= j < i ==> currentEdge !in s[j]
      {
        sol, found := TryBucket(allEdges, edgeIdx, i, currentEdge);
        if found {
          return;
        }
        i := i + 1;
      }
      RefusedEverywhere(buckets, remaining, maxSize, currentEdge);
      return [], false;
    }

    /**
     * One turn of the bucket loop of `solveRecursive`: when bucket `i` can
     * take `e`, place it there and search on, undoing the placement when
     * that fails. Failure means that no completion puts `e` into bucket `i`.
     */
    method TryBucket(allEdges: seq<Edge>, edgeIdx: int, i: int, e: Edge) returns (sol: seq<Matching>, found: bool)
      requires Valid() && 0 <= edgeIdx < |allEdges| && |remaining| == |allEdges| - edgeIdx
      requires 0 <= i < |buckets| && e in remaining
      modifies this
      ensures Valid()
      ensures found ==> Packing(sol, old(buckets), old(remaining), maxSize)
      ensures !found ==> buckets == old(buckets) && usedNodes == old(usedNodes) && remaining == old(remaining)
      ensures !found ==> forall s :: Packing(s, buckets, remaining, maxSize) ==> e !in s[i]
      decreases |remaining|, 0
    {
      sol, found := [], false;
      var p1, p2 := e.p1, e.p2;
      ghost var b, u, r := buckets, usedNodes, remaining;
      if p1 !in usedNodes[i] && p2 !in usedNodes[i] && |buckets[i]| < maxSize {
        PlaceKeepsState(b, u, r, maxSize, i, e);
        buckets := buckets[i := buckets[i] + {e}];
        usedNodes := usedNodes[i := usedNodes[i] + {p1, p2}];
        remaining := remaining - {e};
        sol, found := SolveRecursive(allEdges, edgeIdx + 1);
        if found {
          PackingExtend(sol, b, r, maxSize, i, e);
          return;
        }
        remaining := remaining + {e};
        buckets := buckets[i := buckets[i] - {e}];
        usedNodes := usedNodes[i := usedNodes[i] - {p1} - {p2}];
        Restored(b, u, r, i, e);
        RefusedAfterFailure(b, r, maxSize, i, e, b[i := b[i] + {e}], r - {e});
      } else {
        RefusedWhenFull(b, u, r, maxSize, i, e);
      }
    }

    /** An edge no bucket can take leaves no completion. */
    lemma NoPackingWhenStuck(e: Edge)
      requires Valid() && e in remaining && Options(e) == 0
      ensures forall s :: !Packing(s, buckets, remaining, maxSize)
    {
      forall s | Packing(s, buckets, remaining, maxSize) ensures false {
        var j :| 0 <= j < |s| && e in s[j];
        PackingAdmits(s, buckets, usedNodes, remaining, maxSize, j, e);
        OptionsPositive(buckets, usedNodes, e, maxSize, |buckets|, j);
      }
    }

    /** Undoing a placement gives back the state before it. */
    static lemma Restored(b: seq<Matching>, u: seq<set<int>>, r: set<Edge>, i: int, e: Edge)
      requires 0 <= i < |b| == |u| && e in r && b[i] !! r && e.p1 !in u[i] && e.p2 !in u[i]
      ensures (r - {e}) + {e} == r
      ensures b[i := b[i] + {e}][i := b[i] + {e} - {e}] == b
      ensures u[i := u[i] + {e.p1, e.p2}][i := u[i] + {e.p1, e.p2} - {e.p1} - {e.p2}] == u
    {
      assert b[i] + {e} - {e} == b[i];
      assert u[i] + {e.p1, e.p2} - {e.p1} - {e.p2} == u[i];
    }
  }

  /** The undirected edges of `adj`, each once, in one of its two directions. */
  ghost predicate EdgesOf(edges: set<Edge>, adj: Adjacency)
  {
    (forall e :: e in edges ==> Adjacent(adj, e.p1, e.p2))
    && (forall u, v :: Adjacent(adj, u, v) ==> Edge(u, v) in edges || Edge(v, u) in edges)
    && (forall e, f :: e in edges && f in edges && e != f ==> !SamePair(e, f))
  }

  /** `n` empty buckets. */
  function EmptyBuckets(n: nat): (r: seq<Matching>)
    ensures |r| == n && forall i :: 0 <= i < n ==> r[i] == {}
  {
    seq(n, _ => {})
  }

  /** The search state at the start: empty buckets and every edge still to place. */
  lemma StartState(n: nat, edges: set<Edge>, maxSize: int)
    ensures State(EmptyBuckets(n), seq(n, _ => {}), edges, maxSize)
  {
    var b := EmptyBuckets(n);
    forall i | 0 <= i < n ensures Endpoints(b[i]) == {} {
    }
  }

  /** The two `make` loops: `n` empty buckets and `n` empty node sets. */
  method NewBuckets(n: nat) returns (buckets: seq<Matching>, usedNodes: seq<set<int>>)
    ensures buckets == EmptyBuckets(n) && usedNodes == seq(n, _ => {})
  {
    buckets, usedNodes := [], [];
    while |buckets| < n
      invariant |buckets| <= n && |usedNodes| == |buckets|
      invariant buckets == EmptyBuckets(|buckets|) && usedNodes == seq(|buckets|, _ => {})
    {
      buckets, usedNodes := buckets + [{}], usedNodes + [{}];
    }
  }

  /** The `remainingEdges` loop: the set of a list of distinct pairings has one element per entry. */
  method EdgeSet(edgeList: seq<Edge>) returns (remaining: set<Edge>)
    requires forall i, j :: 0 <= i < j < |edgeList| ==> !SamePair(edgeList[i], edgeList[j])
    ensures forall e :: e in remaining <==> e in edgeList
    ensures |remaining| == |edgeList|
  {
    remaining := {};
    var i := 0;
    while i < |edgeList|
      invariant 0 <= i <= |edgeList| && |remaining| == i
      invariant remaining == set j | 0 <= j < i :: edgeList[j]
    {
      assert edgeList[i] !in remaining by {
        forall j | 0 <= j < i ensures edgeList[j] != edgeList[i] {
          assert !SamePair(edgeList[j], edgeList[i]);
        }
      }
      remaining := remaining + {edgeList[i]};
      i := i + 1;
    }
  }

  /** The listed edges of the graph, as a set, are its edges each once. */
  lemma ListedEdges(edgeList: seq<Edge>, edges: set<Edge>, adj: Adjacency)
    requires forall e :: e in edges <==> e in edgeList
    requires forall u, v :: u in adj && v in adj[u] ==> Edge(u, v) in edgeList || Edge(v, u) in edgeList
    requires forall e :: e in edgeList ==> e.p1 in adj && e.p2 in adj[e.p1]
    requires forall i, j :: 0 <= i < j < |edgeList| ==> !SamePair(edgeList[i], edgeList[j])
    ensures EdgesOf(edges, adj)
  {
    forall e, f | e in edges && f in edges && e != f ensures !SamePair(e, f) {
      var j :| 0 <= j < |edgeList| && edgeList[j] == e;
      var k :| 0 <= k < |edgeList| && edgeList[k] == f;
      if k < j {
        assert !SamePair(edgeList[k], edgeList[j]);
      }
    }
  }

  /**
   * `makeMatchingsBacktracking`: lists the edges of the graph, starts from
   * `totalMatchings` empty buckets of at most `ceil(avgMatchingSize)` edges
   * each, and runs the search. The result puts every edge of the graph into
   * exactly one round, each round a matching within the limit; the error
   * comes back only when no such schedule exists.
   */
  method MakeMatchingsBacktracking(g: Graph, avgMatchingSize: real, totalMatchings: int)
    returns (r: Result<seq<Matching>>, ghost edges: set<Edge>)
    requires totalMatchings >= 0
    ensures EdgesOf(edges, g.nodes)
    ensures r.Ok? ==> Packing(r.value, EmptyBuckets(totalMatchings), edges, Feasibility.Ceil(avgMatchingSize))
    ensures r.Err? ==> r.error == "could not find valid matchings with the given parameters"
    ensures r.Err? ==> forall s :: !Packing(s, EmptyBuckets(totalMatchings), edges, Feasibility.Ceil(avgMatchingSize))
  {
    var maxMatchingSize := Feasibility.Ceil(avgMatchingSize);
    var edgeList := g.GetEdgesIterator();
    var buckets, usedNodes := NewBuckets(totalMatchings);
    var remainingEdges := EdgeSet(edgeList);
    edges := remainingEdges;
    ListedEdges(edgeList, edges, g.nodes);
    StartState(totalMatchings, remainingEdges, maxMatchingSize);
    var solver := new Solver(buckets, usedNodes, remainingEdges, maxMatchingSize);
    var result, success := solver.SolveRecursive(edgeList, 0);
    if success {
      return Ok(result), edges;
    }
    return Err("could not find valid matchings with the given parameters"), edges;
  }
}

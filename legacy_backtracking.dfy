/**
 * The exhaustive fallback of the earlier Go engine (`padel-services`):
 * the same bucket search as `Backtracking`, but it places the edges in list
 * order instead of choosing the most constrained one, and it keeps no set of
 * edges still to place (that set is the suffix of the list, a ghost here).
 * It meets the same specification: success returns a packing of every edge,
 * failure means none exists.
 */
module LegacyBacktracking {
  import opened Domain
  import opened Wrappers
  import opened Graphs
  import opened Backtracking
  import Feasibility

  /** The edges at positions `edgeIdx` onwards. */
  function Suffix(allEdges: seq<Edge>, edgeIdx: int): set<Edge>
    requires 0 <= edgeIdx <= |allEdges|
    decreases |allEdges| - edgeIdx
  {
    if edgeIdx == |allEdges| then {} else {allEdges[edgeIdx]} + Suffix(allEdges, edgeIdx + 1)
  }

  predicate Distinct(allEdges: seq<Edge>)
  {
    forall i, j :: 0 <= i < j < |allEdges| ==> allEdges[i] != allEdges[j]
  }

  /** The suffix holds exactly the entries at positions `edgeIdx` onwards. */
  lemma {:induction false} SuffixMembers(allEdges: seq<Edge>, edgeIdx: int, e: Edge)
    requires 0 <= edgeIdx <= |allEdges|
    ensures e in Suffix(allEdges, edgeIdx) <==> exists j :: edgeIdx <= j < |allEdges| && allEdges[j] == e
    decreases |allEdges| - edgeIdx
  {
    if edgeIdx < |allEdges| {
      SuffixMembers(allEdges, edgeIdx + 1, e);
    }
  }

  /** Placing the edge at `edgeIdx` leaves exactly the later edges to place. */
  lemma SuffixStep(allEdges: seq<Edge>, edgeIdx: int)
    requires Distinct(allEdges) && 0 <= edgeIdx < |allEdges|
    ensures allEdges[edgeIdx] in Suffix(allEdges, edgeIdx)
    ensures Suffix(allEdges, edgeIdx + 1) == Suffix(allEdges, edgeIdx) - {allEdges[edgeIdx]}
  {
    var e := allEdges[edgeIdx];
    SuffixMembers(allEdges, edgeIdx + 1, e);
    assert e !in Suffix(allEdges, edgeIdx + 1);
  }

  /** The buckets and node sets the earlier `solveRecursive` changes in place. */
  class LegacySolver {
    var buckets: seq<Matching>
    var usedNodes: seq<set<int>>
    const maxSize: int

    constructor (buckets0: seq<Matching>, used0: seq<set<int>>, maxSize0: int)
      ensures buckets == buckets0 && usedNodes == used0 && maxSize == maxSize0
    {
      buckets, usedNodes, maxSize := buckets0, used0, maxSize0;
    }

    /** The search state with the edges from `edgeIdx` on still to place. */
    ghost predicate Valid(allEdges: seq<Edge>, edgeIdx: int)
      reads this
    {
      Distinct(allEdges) && 0 <= edgeIdx <= |allEdges| && State(buckets, usedNodes, Suffix(allEdges, edgeIdx), maxSize)
    }

    /**
     * The earlier `solveRecursive`: on success a completion of the buckets
     * it was given with every later edge (the buckets themselves are left
     * as the search filled them); on failure the buckets and node sets are
     * restored and no completion exists.
     */
    method SolveRecursive(allEdges: seq<Edge>, edgeIdx: int) returns (sol: seq<Matching>, found: bool)
      requires Valid(allEdges, edgeIdx)
      modifies this
      ensures !found ==> Valid(allEdges, edgeIdx)
      ensures found ==> Packing(sol, old(buckets), Suffix(allEdges, edgeIdx), maxSize)
      ensures !found ==> buckets == old(buckets) && usedNodes == old(usedNodes)
      ensures !found ==> forall s :: !Packing(s, old(buckets), Suffix(allEdges, edgeIdx), maxSize)
      decreases |allEdges| - edgeIdx, 1
    {
      if edgeIdx == |allEdges| {
        sol := CopyMatchings(buckets);
        return sol, true;
      }
      var currentEdge := allEdges[edgeIdx];
      var i := 0;
      while i < |buckets|
        invariant 0 <= i <= |buckets| && Valid(allEdges, edgeIdx)
        invariant buckets == old(buckets) && usedNodes == old(usedNodes)
        invariant forall s :: Packing(s, buckets, Suffix(allEdges, edgeIdx), maxSize) ==>
          forall j :: 0 <= j < i ==> currentEdge !in s[j]
      {
        sol, found := TryBucket(allEdges, edgeIdx, i);
        if found {
          return;
        }
        i := i + 1;
      }
      SuffixStep(allEdges, edgeIdx);
      RefusedEverywhere(buckets, Suffix(allEdges, edgeIdx), maxSize, currentEdge);
      return [], false;
    }

    /** One turn of the bucket loop for the edge at `edgeIdx`; failure means no completion puts it into bucket `i`. */
    method TryBucket(allEdges: seq<Edge>, edgeIdx: int, i: int) returns (sol: seq<Matching>, found: bool)
      requires Valid(allEdges, edgeIdx) && edgeIdx < |allEdges| && 0 <= i < |buckets|
      modifies this
      ensures !found ==> Valid(allEdges, edgeIdx)
      ensures found ==> Packing(sol, old(buckets), Suffix(allEdges, edgeIdx), maxSize)
      ensures !found ==> buckets == old(buckets) && usedNodes == old(usedNodes)
      ensures !found ==> forall s :: Packing(s, buckets, Suffix(allEdges, edgeIdx), maxSize) ==> allEdges[edgeIdx] !in s[i]
      decreases |allEdges| - edgeIdx, 0
    {
      sol, found := [], false;
      var e := allEdges[edgeIdx];
      var p1, p2 := e.p1, e.p2;
      ghost var b, u, r := buckets, usedNodes, Suffix(allEdges, edgeIdx);
      SuffixStep(allEdges, edgeIdx);
      if p1 !in usedNodes[i] && p2 !in usedNodes[i] && |buckets[i]| < maxSize {
        PlaceKeepsState(b, u, r, maxSize, i, e);
        buckets := buckets[i := buckets[i] + {e}];
        usedNodes := usedNodes[i := usedNodes[i] + {p1, p2}];
        sol, found := SolveRecursive(allEdges, edgeIdx + 1);
        if found {
          PackingExtend(sol, b, r, maxSize, i, e);
          return;
        }
        buckets := buckets[i := buckets[i] - {e}];
        usedNodes := usedNodes[i := usedNodes[i] - {p1} - {p2}];
        Solver.Restored(b, u, r, i, e);
        RefusedAfterFailure(b, r, maxSize, i, e, b[i := b[i] + {e}], r - {e});
      } else {
        RefusedWhenFull(b, u, r, maxSize, i, e);
      }
    }
  }

  /**
   * The earlier `makeMatchingsBacktracking`: the same contract as the
   * current one, reached by placing the edges in list order.
   */
  method MakeMatchingsBacktracking(g: Graph, avgMatchingSize: real, totalMatchings: int)
    returns (r: Result<seq<Matching>>, ghost edges: set<Edge>)
    requires totalMatchings >= 0
    ensures EdgesOf(edges, g.nodes)
    ensures r.Ok? ==> Packing(r.value, EmptyBuckets(totalMatchings), edges, Feasibility.Ceil(avgMatchingSize))
    ensures r.Err? ==> r.error == "could not find valid matchings with the given parameters"
    ensures r.Err? ==> forall s :: !Packing(s, EmptyBuckets(totalMatchings), edges, Feasibility.Ceil(avgMatchingSize))
  {
    var maxMatchingSize := Feasibility.Ceil(avgMatchingSize);
    var edgeList := g.GetEdgesIterator();
    var buckets, usedNodes := NewBuckets(totalMatchings);
    edges := Suffix(edgeList, 0);
    assert Distinct(edgeList) by {
      forall i, j | 0 <= i < j < |edgeList| ensures edgeList[i] != edgeList[j] {
        assert !SamePair(edgeList[i], edgeList[j]);
      }
    }
    forall e ensures e in edges <==> e in edgeList {
      SuffixMembers(edgeList, 0, e);
    }
    ListedEdges(edgeList, edges, g.nodes);
    StartState(totalMatchings, edges, maxMatchingSize);
    var solver := new LegacySolver(buckets, usedNodes, maxMatchingSize);
    var result, success := solver.SolveRecursive(edgeList, 0);
    if success {
      return Ok(result), edges;
    }
    return Err("could not find valid matchings with the given parameters"), edges;
  }
}

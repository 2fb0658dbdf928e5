/**
 * The exhaustive search of the C++ library
 * (`RodeoFactory::make_matchings_brute_force`).
 *
 * A depth-first search over an explicit stack of states. Each state holds
 * `total_matchings` buckets, the nodes already used in each bucket and the
 * edges still to place. The smallest edge still to place goes into every
 * bucket that has room and does not yet use either of its nodes, one new
 * state per bucket. The first state with no edge left is the answer; an
 * exhausted stack gives no rounds at all.
 */
module CppSearch {
  import opened Domain
  import opened Cardinality
  import opened Backtracking
  import Feasibility

  /** One entry of the stack: the buckets, the edges still to place and each bucket's nodes. */
  datatype SearchState = SearchState(buckets: seq<Matching>, remaining: set<Edge>, used: seq<set<int>>)

  /** The order of `std::pair<int, int>`: by first node, then by second. */
  predicate EdgeBefore(a: Edge, b: Edge)
  {
    a.p1 < b.p1 || (a.p1 == b.p1 && a.p2 <= b.p2)
  }

  /** `*s.begin()` of an ordered set of pairs: its smallest pair. */
  method SmallestEdge(s: set<Edge>) returns (e: Edge)
    requires s != {}
    ensures e in s && forall f :: f in s ==> EdgeBefore(e, f)
  {
    ghost var w := Pick(s);
    e :| e in s;
    var rest := s - {e};
    while rest != {}
      invariant rest <= s && e in s
      invariant forall f :: f in s && f !in rest ==> EdgeBefore(e, f)
      decreases |rest|
    {
      ghost var y0 := Pick(rest);
      var f :| f in rest;
      if !EdgeBefore(e, f) {
        e := f;
      }
      rest := rest - {f};
    }
  }

  /**
   * A state the search can reach from `total` empty buckets and the edges
   * `edges`: a search state in the sense of the Go search, whose buckets
   * hold only edges of `edges`, and every edge of `edges` is either still to
   * place or already in a bucket.
   */
  ghost predicate Reached(st: SearchState, edges: Matching, total: nat, maxSize: int)
  {
    |st.buckets| == total
    && State(st.buckets, st.used, st.remaining, maxSize)
    && Covers(st.buckets, st.remaining, edges)
  }

  /** The buckets and the edges still to place split `edges` between them. */
  ghost predicate Covers(buckets: seq<Matching>, remaining: set<Edge>, edges: Matching)
  {
    remaining <= edges
    && (forall i :: 0 <= i < |buckets| ==> buckets[i] <= edges)
    && (forall e :: e in edges && e !in remaining ==> exists i :: 0 <= i < |buckets| && e in buckets[i])
  }

  lemma PlaceCovers(buckets: seq<Matching>, remaining: set<Edge>, edges: Matching, i: int, e: Edge)
    requires Covers(buckets, remaining, edges) && 0 <= i < |buckets| && e in remaining
    ensures Covers(buckets[i := buckets[i] + {e}], remaining - {e}, edges)
  {
    var next := buckets[i := buckets[i] + {e}];
    forall f | f in edges && f !in remaining - {e} ensures exists j :: 0 <= j < |next| && f in next[j] {
      if f == e {
        assert f in next[i];
      } else {
        var j :| 0 <= j < |buckets| && f in buckets[j];
        assert f in next[j];
      }
    }
  }

  /** `n` copies of `p`, added up (a product written without multiplication). */
  function Repeat(p: nat, n: nat): (s: nat)
    ensures n >= 1 ==> s >= p
  {
    if n == 0 then 0 else Repeat(p, n - 1) + p
  }

  /** `b` to the power `k`. */
  function Pow(b: nat, k: nat): (p: nat)
    ensures b >= 1 ==> p >= 1
  {
    if k == 0 then 1 else Repeat(Pow(b, k - 1), b)
  }

  /**
   * The termination measure of the search: every state weighs `b` to the
   * power of its edges still to place; a state is replaced by fewer than
   * `b` states with one edge less.
   */
  function Weight(stack: seq<SearchState>, b: nat): nat
  {
    WeightUpTo(stack, |stack|, b)
  }

  /** The weight of the first `n` states of `stack`. */
  function WeightUpTo(stack: seq<SearchState>, n: nat, b: nat): nat
    requires n <= |stack|
  {
    if n == 0 then 0 else WeightUpTo(stack, n - 1, b) + Pow(b, |stack[n - 1].remaining|)
  }

  lemma {:induction false} WeightUpToPrefix(s: seq<SearchState>, t: seq<SearchState>, n: nat, b: nat)
    requires n <= |s|
    ensures WeightUpTo(s + t, n, b) == WeightUpTo(s, n, b)
    decreases n
  {
    if n > 0 {
      WeightUpToPrefix(s, t, n - 1, b);
      assert (s + t)[n - 1] == s[n - 1];
    }
  }

  lemma {:induction false} WeightUpToAppend(s: seq<SearchState>, t: seq<SearchState>, m: nat, b: nat)
    requires m <= |t|
    ensures WeightUpTo(s + t, |s| + m, b) == Weight(s, b) + WeightUpTo(t, m, b)
    decreases m
  {
    if m == 0 {
      WeightUpToPrefix(s, t, |s|, b);
    } else {
      WeightUpToAppend(s, t, m - 1, b);
      assert (s + t)[|s| + m - 1] == t[m - 1];
    }
  }

  lemma WeightAppend(s: seq<SearchState>, t: seq<SearchState>, b: nat)
    ensures Weight(s + t, b) == Weight(s, b) + Weight(t, b)
  {
    WeightUpToAppend(s, t, |t|, b);
  }

  /** Fewer than `b` states with `r` edges to place weigh less than one state with `r + 1`. */
  lemma {:induction false} ChildrenLighter(children: seq<SearchState>, b: nat, r: nat)
    requires |children| < b
    requires OneLess(children, r + 1)
    ensures Weight(children, b) < Pow(b, r + 1)
  {
    RepeatWeight(children, |children|, b, r);
    RepeatMonotone(Pow(b, r), |children|, b - 1);
  }

  lemma {:induction false} RepeatWeight(children: seq<SearchState>, n: nat, b: nat, r: nat)
    requires n <= |children| && OneLess(children, r + 1)
    ensures WeightUpTo(children, n, b) == Repeat(Pow(b, r), n)
    decreases n
  {
    if n > 0 {
      RepeatWeight(children, n - 1, b, r);
      assert |children[n - 1].remaining| + 1 == r + 1;
    }
  }

  lemma {:induction false} RepeatMonotone(p: nat, m: nat, n: nat)
    requires m <= n
    ensures Repeat(p, m) <= Repeat(p, n)
    decreases n
  {
    if m < n {
      RepeatMonotone(p, m, n - 1);
    }
  }

  /**
   * Replacing the top of the stack by fewer than `b` states with one edge
   * less to place makes the stack lighter.
   */
  lemma StepLighter(rest: seq<SearchState>, current: SearchState,
                    children: seq<SearchState>, b: nat)
    requires current.remaining != {} && |children| < b && OneLess(children, |current.remaining|)
    ensures Weight(rest + children, b) < Weight(rest + [current], b)
  {
    ChildrenLighter(children, b, |current.remaining| - 1);
    WeightAppend(rest, [current], b);
    WeightAppend(rest, children, b);
  }

  /** The state after placing `e` into bucket `i`. */
  function Place(st: SearchState, i: int, e: Edge): SearchState
    requires 0 <= i < |st.buckets| && |st.used| == |st.buckets|
  {
    SearchState(st.buckets[i := st.buckets[i] + {e}], st.remaining - {e}, st.used[i := st.used[i] + {e.p1, e.p2}])
  }

  /** Placing an edge still to place into a bucket that admits it reaches a state. */
  lemma PlaceReached(st: SearchState, edges: Matching, total: nat, maxSize: int, i: int, e: Edge)
    requires Reached(st, edges, total, maxSize)
    requires 0 <= i < total && e in st.remaining && Admits(st.buckets[i], st.used[i], e, maxSize)
    ensures Reached(Place(st, i, e), edges, total, maxSize)
    ensures |Place(st, i, e).remaining| + 1 == |st.remaining|
  {
    PlaceKeepsState(st.buckets, st.used, st.remaining, maxSize, i, e);
    PlaceCovers(st.buckets, st.remaining, edges, i, e);
  }

  /** The initial state reaches itself. */
  lemma StartReached(edges: Matching, total: nat, maxSize: int)
    ensures Reached(SearchState(EmptyBuckets(total), edges, seq(total, _ => {})), edges, total, maxSize)
  {
    StartState(total, edges, maxSize);
  }

  /** A reached state with nothing left to place is a complete schedule. */
  lemma DoneIsPacking(st: SearchState, edges: Matching, total: nat, maxSize: int)
    requires Reached(st, edges, total, maxSize) && st.remaining == {}
    ensures Packing(st.buckets, EmptyBuckets(total), edges, maxSize)
  {
  }

  /** Every state of a stack is reached. */
  ghost predicate AllReached(stack: seq<SearchState>, edges: Matching, total: nat, maxSize: int)
  {
    forall k :: 0 <= k < |stack| ==> Reached(stack[k], edges, total, maxSize)
  }

  lemma AllReachedAppend(s: seq<SearchState>, t: seq<SearchState>, edges: Matching, total: nat, maxSize: int)
    requires AllReached(s, edges, total, maxSize) && AllReached(t, edges, total, maxSize)
    ensures AllReached(s + t, edges, total, maxSize)
  {
    forall k | 0 <= k < |s + t| ensures Reached((s + t)[k], edges, total, maxSize) {
      if k < |s| {
        assert (s + t)[k] == s[k];
      } else {
        assert (s + t)[k] == t[k - |s|];
      }
    }
  }

  /** Every state of `children` has one edge less to place than `n`. */
  ghost predicate OneLess(children: seq<SearchState>, n: int)
  {
    forall k :: 0 <= k < |children| ==> |children[k].remaining| + 1 == n
  }

  lemma OneLessSnoc(children: seq<SearchState>, next: SearchState, n: int)
    requires OneLess(children, n) && |next.remaining| + 1 == n
    ensures OneLess(children + [next], n)
  {
    forall k | 0 <= k < |children| + 1 ensures |(children + [next])[k].remaining| + 1 == n {
      if k < |children| {
        assert (children + [next])[k] == children[k];
      }
    }
  }

  /** The states pushed so far for one expansion of `top`: reached, each with one edge less to place. */
  ghost predicate Expanded(children: seq<SearchState>, top: SearchState, edges: Matching, total: nat, maxSize: int)
  {
    AllReached(children, edges, total, maxSize) && OneLess(children, |top.remaining|)
  }

  /** The complete schedule `sol` extends the state at position `holder` of `stack`. */
  ghost predicate Holds(stack: seq<SearchState>, holder: int, sol: seq<Matching>, maxSize: int)
  {
    0 <= holder < |stack| && Packing(sol, stack[holder].buckets, stack[holder].remaining, maxSize)
  }

  /**
   * The body of the expansion for bucket `i`: push the state with `e` in
   * bucket `i` when that bucket has room and uses neither node of `e`.
   */
  method Offer(children: seq<SearchState>, top: SearchState, e: Edge, i: int, total: nat, maxSize: int,
               ghost edges: Matching, ghost want: bool, ghost sol: seq<Matching>, ghost j: int, ghost holder: int)
    returns (after: seq<SearchState>, ghost holder': int)
    requires Reached(top, edges, total, maxSize) && e in top.remaining && 0 <= i < total
    requires Expanded(children, top, edges, total, maxSize) && |children| <= i
    requires want ==> Packing(sol, top.buckets, top.remaining, maxSize) && 0 <= j < total
                      && e in sol[j] && Admits(top.buckets[j], top.used[j], e, maxSize)
    requires want && j < i ==> Holds(children, holder, sol, maxSize)
    ensures Expanded(after, top, edges, total, maxSize) && |after| <= i + 1
    ensures want && j < i + 1 ==> Holds(after, holder', sol, maxSize)
  {
    after, holder' := children, holder;
    var players := top.used[i];
    if e.p1 !in players && e.p2 !in players && |top.buckets[i]| < maxSize {
      var next := Place(top, i, e);
      PushExpanded(children, top, edges, total, maxSize, i, e);
      if want && i == j {
        holder' := |children|;
        HoldsNew(children, top, sol, maxSize, i, e);
      } else if want && j < i {
        HoldsKept(children, next, holder, sol, maxSize);
      }
      after := children + [next];
    }
  }

  lemma PushExpanded(children: seq<SearchState>, top: SearchState, edges: Matching, total: nat, maxSize: int, i: int, e: Edge)
    requires Reached(top, edges, total, maxSize) && Expanded(children, top, edges, total, maxSize)
    requires 0 <= i < total && e in top.remaining && Admits(top.buckets[i], top.used[i], e, maxSize)
    ensures Expanded(children + [Place(top, i, e)], top, edges, total, maxSize)
  {
    var next := Place(top, i, e);
    PlaceReached(top, edges, total, maxSize, i, e);
    AllReachedSnoc(children, next, edges, total, maxSize);
    OneLessSnoc(children, next, |top.remaining|);
  }

  lemma AllReachedSnoc(s: seq<SearchState>, next: SearchState, edges: Matching, total: nat, maxSize: int)
    requires AllReached(s, edges, total, maxSize) && Reached(next, edges, total, maxSize)
    ensures AllReached(s + [next], edges, total, maxSize)
  {
    forall k | 0 <= k < |s| + 1 ensures Reached((s + [next])[k], edges, total, maxSize) {
      if k < |s| {
        assert (s + [next])[k] == s[k];
      }
    }
  }

  lemma HoldsNew(children: seq<SearchState>, top: SearchState, sol: seq<Matching>, maxSize: int, i: int, e: Edge)
    requires Packing(sol, top.buckets, top.remaining, maxSize) && |top.used| == |top.buckets|
    requires 0 <= i < |top.buckets| && e in top.remaining && e in sol[i]
    ensures Holds(children + [Place(top, i, e)], |children|, sol, maxSize)
  {
    PackingRestrict(sol, top.buckets, top.remaining, maxSize, i, e);
    assert (children + [Place(top, i, e)])[|children|] == Place(top, i, e);
  }

  lemma HoldsKept(children: seq<SearchState>, next: SearchState, holder: int, sol: seq<Matching>, maxSize: int)
    requires Holds(children, holder, sol, maxSize)
    ensures Holds(children + [next], holder, sol, maxSize)
  {
    assert (children + [next])[holder] == children[holder];
  }

  /** The top of a stack of reached states, and the rest of it, are reached. */
  lemma SplitTop(stack: seq<SearchState>, edges: Matching, total: nat, maxSize: int)
    requires AllReached(stack, edges, total, maxSize) && stack != []
    ensures stack == stack[..|stack| - 1] + [stack[|stack| - 1]]
    ensures AllReached(stack[..|stack| - 1], edges, total, maxSize)
    ensures Reached(stack[|stack| - 1], edges, total, maxSize)
  {
    assert stack == stack[..|stack| - 1] + [stack[|stack| - 1]];
  }

  lemma HoldsShift(rest: seq<SearchState>, children: seq<SearchState>, stack: seq<SearchState>, h: int,
                   sol: seq<Matching>, maxSize: int)
    requires Holds(children, h, sol, maxSize) && stack == rest + children
    ensures Holds(stack, |rest| + h, sol, maxSize)
  {
    assert stack[|rest| + h] == children[h];
  }

  lemma HoldsPrefix(rest: seq<SearchState>, current: SearchState, children: seq<SearchState>, stack: seq<SearchState>,
                    holder: int, sol: seq<Matching>, maxSize: int)
    requires Holds(rest + [current], holder, sol, maxSize) && holder != |rest| && stack == rest + children
    ensures Holds(stack, holder, sol, maxSize)
  {
    assert stack[holder] == (rest + [current])[holder];
  }

  /**
   * One expansion: a new state for every bucket, in increasing order, that
   * admits the smallest edge still to place. When a complete schedule `sol`
   * extends the expanded state, it extends one of the new states.
   */
  method Expand(top: SearchState, e: Edge, total: nat, maxSize: int,
                ghost edges: Matching, ghost want: bool, ghost sol: seq<Matching>)
    returns (children: seq<SearchState>, ghost holder: int)
    requires Reached(top, edges, total, maxSize) && e in top.remaining
    requires want ==> Packing(sol, top.buckets, top.remaining, maxSize)
    ensures Expanded(children, top, edges, total, maxSize) && |children| <= total
    ensures want ==> Holds(children, holder, sol, maxSize)
  {
    children := [];
    holder := -1;
    ghost var j := -1;
    if want {
      j :| 0 <= j < |sol| && e in sol[j];
      PackingAdmits(sol, top.buckets, top.used, top.remaining, maxSize, j, e);
    }
    var i := 0;
    while i < total
      invariant 0 <= i <= total
      invariant Expanded(children, top, edges, total, maxSize) && |children| <= i
      invariant want ==> 0 <= j < total
      invariant want && j < i ==> Holds(children, holder, sol, maxSize)
    {
      children, holder := Offer(children, top, e, i, total, maxSize, edges, want, sol, j, holder);
      i := i + 1;
    }
  }

  /**
   * One turn of the search loop: pop the top state; when it has nothing
   * left to place it is the answer, otherwise push its expansion.
   */
  method SearchStep(stack: seq<SearchState>, edges: Matching, total: nat, maxSize: int,
                    ghost want: bool, ghost sol: seq<Matching>, ghost holder: int)
    returns (done: bool, res: seq<Matching>, stack': seq<SearchState>, ghost holder': int)
    requires stack != [] && AllReached(stack, edges, total, maxSize)
    requires want ==> Holds(stack, holder, sol, maxSize)
    ensures done ==> |res| == total && Packing(res, EmptyBuckets(total), edges, maxSize)
    ensures !done ==> AllReached(stack', edges, total, maxSize)
                      && (want ==> Holds(stack', holder', sol, maxSize))
                      && Weight(stack', total + 1) < Weight(stack, total + 1)
  {
    var current := stack[|stack| - 1];
    var rest := stack[..|stack| - 1];
    SplitTop(stack, edges, total, maxSize);
    if current.remaining == {} {
      DoneIsPacking(current, edges, total, maxSize);
      return true, current.buckets, stack, holder;
    }
    var e := SmallestEdge(current.remaining);
    ghost var onTop := want && holder == |rest|;
    var children;
    ghost var h;
    children, h := Expand(current, e, total, maxSize, edges, onTop, sol);
    done, res, stack' := false, [], rest + children;
    AllReachedAppend(rest, children, edges, total, maxSize);
    StepLighter(rest, current, children, total + 1);
    holder' := if onTop then |rest| + h else holder;
    HoldsAfterStep(stack, rest, current, children, stack', holder, h, sol, maxSize, want, onTop);
  }

  /** The state a complete schedule extends is still on the stack after a step, on top or where it was. */
  lemma HoldsAfterStep(stack: seq<SearchState>, rest: seq<SearchState>, current: SearchState,
                       children: seq<SearchState>, stack': seq<SearchState>, holder: int, h: int,
                       sol: seq<Matching>, maxSize: int, want: bool, onTop: bool)
    requires stack == rest + [current] && stack' == rest + children
    requires want ==> Holds(stack, holder, sol, maxSize)
    requires onTop == (want && holder == |rest|)
    requires onTop ==> Holds(children, h, sol, maxSize)
    ensures want ==> Holds(stack', if onTop then |rest| + h else holder, sol, maxSize)
  {
    if onTop {
      HoldsShift(rest, children, stack', h, sol, maxSize);
    } else if want {
      HoldsPrefix(rest, current, children, stack', holder, sol, maxSize);
    }
  }

  /**
   * `make_matchings_brute_force`: either `totalMatchings` rounds that put
   * every edge of `initialEdges` into exactly one round, each round a
   * matching of at most `ceil(avgMatchingSize)` edges, or no rounds at all,
   * and then no such schedule exists.
   */
  method MakeMatchingsBruteForce(initialEdges: Matching, avgMatchingSize: real, totalMatchings: nat)
    returns (res: seq<Matching>)
    ensures (|res| == totalMatchings
             && Packing(res, EmptyBuckets(totalMatchings), initialEdges, Feasibility.Ceil(avgMatchingSize)))
         || (res == []
             && forall s :: !Packing(s, EmptyBuckets(totalMatchings), initialEdges, Feasibility.Ceil(avgMatchingSize)))
  {
    var maxSize := Feasibility.Ceil(avgMatchingSize);
    ghost var b := totalMatchings + 1;
    var start := SearchState(EmptyBuckets(totalMatchings), initialEdges, seq(totalMatchings, _ => {}));
    StartReached(initialEdges, totalMatchings, maxSize);
    var stack := [start];
    ghost var want := exists s :: Packing(s, EmptyBuckets(totalMatchings), initialEdges, maxSize);
    ghost var sol: seq<Matching> := [];
    if want {
      sol :| Packing(sol, EmptyBuckets(totalMatchings), initialEdges, maxSize);
    }
    ghost var holder := 0;
    while stack != []
      invariant AllReached(stack, initialEdges, totalMatchings, maxSize)
      invariant want ==> Holds(stack, holder, sol, maxSize)
      decreases Weight(stack, b)
    {
      var done;
      done, res, stack, holder := SearchStep(stack, initialEdges, totalMatchings, maxSize, want, sol, holder);
      if done {
        return res;
      }
    }
    return [];
  }
}

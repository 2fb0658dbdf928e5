/**
 * The pairing graph of a Rodeo (`makeEdges`, `kRegularEven`, `kRegularOdd`,
 * `addCanonicalEdge`).
 *
 * The nodes are laid out on a circle; with `h = k / 2`, each node is paired
 * with the `h` nodes on either side of it, and for odd `k` also with the node
 * opposite it.  Every edge is stored smaller id first, so each pairing is
 * stored once.  The main result: whenever `makeEdges` builds anything, every
 * node is paired with exactly `k` others.
 */
module Circulant {
  import opened Domain
  import opened Cardinality

  /** `addCanonicalEdge`: the edge between `a` and `b`, smaller id first. */
  function Canonical(a: int, b: int): (e: Edge)
    ensures e.p1 <= e.p2 && SamePair(e, Edge(a, b))
  {
    if a < b then Edge(a, b) else Edge(b, a)
  }

  predicate Distinct(nodes: seq<int>)
  {
    forall i, j :: 0 <= i < |nodes| && 0 <= j < |nodes| && nodes[i] == nodes[j] ==> i == j
  }

  /** Clockwise distance from position `a` to position `b` on a circle of `n`. */
  function Dist(n: int, a: int, b: int): int
  {
    if a <= b then b - a else b - a + n
  }

  /** Within `h` steps of each other, either way round. */
  predicate InBand(n: int, h: int, d: int)
  {
    (1 <= d <= h) || (n - h <= d <= n - 1)
  }

  /** The clockwise distances at which `makeEdges(nodes, k)` pairs two nodes. */
  predicate Offset(n: int, k: int, d: int)
  {
    InBand(n, k / 2, d) || (k % 2 == 1 && 2 * d == n)
  }

  /** Every edge joins two different nodes of `nodes`, smaller id first. */
  predicate Spans(res: Matching, nodes: seq<int>)
  {
    forall e :: e in res ==> e.p1 < e.p2 && e.p1 in nodes && e.p2 in nodes
  }

  /** `res` pairs the nodes at positions `a` and `b` exactly when `Offset` holds. */
  predicate CirculantOf(nodes: seq<int>, k: int, res: Matching)
  {
    Spans(res, nodes) &&
    forall a, b :: 0 <= a < |nodes| && 0 <= b < |nodes| ==>
      (Canonical(nodes[a], nodes[b]) in res <==> Offset(|nodes|, k, Dist(|nodes|, a, b)))
  }

  // ----- progress of the loops of kRegularEven -----

  predicate RowDone(n: int, i: int, md: int, pd: int, x: int, y: int)
  {
    x == i && ((n - md <= Dist(n, x, y) <= n - 1) || (1 <= Dist(n, x, y) <= pd))
  }

  /**
   * After rows `0..i-1`, and in row `i` the first `md` backward and `pd`
   * forward steps, the pair at positions `a`, `b` has been added.
   */
  predicate EvenSoFar(n: int, h: int, i: int, md: int, pd: int, a: int, b: int)
  {
    InBand(n, h, Dist(n, a, b))
    && (a < i || b < i || RowDone(n, i, md, pd, a, b) || RowDone(n, i, md, pd, b, a))
  }

  ghost predicate EvenAfter(nodes: seq<int>, h: int, i: int, md: int, pd: int, res: Matching)
  {
    forall a, b {:trigger Canonical(nodes[a], nodes[b])} :: 0 <= a < |nodes| && 0 <= b < |nodes| ==>
      (Canonical(nodes[a], nodes[b]) in res <==> EvenSoFar(|nodes|, h, i, md, pd, a, b))
  }

  lemma CanonicalAt(nodes: seq<int>, a: int, b: int, x: int, y: int)
    requires Distinct(nodes)
    requires 0 <= a < |nodes| && 0 <= b < |nodes| && 0 <= x < |nodes| && 0 <= y < |nodes|
    ensures Canonical(nodes[a], nodes[b]) == Canonical(nodes[x], nodes[y]) <==>
      (a == x && b == y) || (a == y && b == x)
  {
  }

  lemma {:induction false} EvenStep(nodes: seq<int>, h: int, i: int, md: int, pd: int, res: Matching, j: int,
                                    md': int, pd': int)
    requires Distinct(nodes) && 2 * h < |nodes|
    requires 0 <= i < |nodes| && 0 <= j < |nodes|
    requires EvenAfter(nodes, h, i, md, pd, res)
    requires (pd == 0 && 0 <= md < h && Dist(|nodes|, i, j) == |nodes| - (md + 1) && md' == md + 1 && pd' == 0)
          || (md == h && 0 <= pd < h && Dist(|nodes|, i, j) == pd + 1 && md' == h && pd' == pd + 1)
    ensures EvenAfter(nodes, h, i, md', pd', res + {Canonical(nodes[j], nodes[i])})
  {
    var n := |nodes|;
    forall a, b | 0 <= a < n && 0 <= b < n
      ensures Canonical(nodes[a], nodes[b]) in res + {Canonical(nodes[j], nodes[i])}
          <==> EvenSoFar(n, h, i, md', pd', a, b)
    {
      CanonicalAt(nodes, a, b, j, i);
    }
  }

  lemma SpansAdd(nodes: seq<int>, res: Matching, i: int, j: int)
    requires Distinct(nodes) && Spans(res, nodes)
    requires 0 <= i < |nodes| && 0 <= j < |nodes| && i != j
    ensures Spans(res + {Canonical(nodes[j], nodes[i])}, nodes)
  {
  }

  /**
   * Go's `x % n` for `n > 0`: the remainder of division truncated toward
   * zero, so it takes the sign of `x` (unlike Dafny's Euclidean `%`).
   */
  function Rem(x: int, n: int): (r: int)
    requires n > 0
    ensures -n < r < n && (x >= 0 ==> r >= 0) && (x <= 0 ==> r <= 0)
    decreases if x < 0 then -x else x
  {
    if -n < x < n then x
    else if x >= n then Rem(x - n, n)
    else Rem(x + n, n)
  }

  /** Go's `(jIndex%n + n) % n` with `jIndex = i - count`: the position `count` steps back from `i`. */
  function BackwardOf(i: int, count: int, n: int): int
    requires n > 0
  {
    Rem(Rem(i - count, n) + n, n)
  }

  /** Go's `jIndex % n` with `jIndex = i + count`: the position `count` steps on from `i`. */
  function ForwardOf(i: int, count: int, n: int): int
    requires n > 0
  {
    Rem(i + count, n)
  }

  /** Go's `(j%n + n) % n` for `j = i - count` lands `n - count` steps clockwise of `i`. */
  lemma BackwardIndex(i: int, count: int, n: int)
    requires 0 <= i < n && 1 <= count < n
    ensures var j := BackwardOf(i, count, n); 0 <= j < n && j != i && Dist(n, i, j) == n - count
  {
    assert Rem(i - count, n) == i - count;
    if i - count + n >= n {
      assert Rem(i - count + n, n) == Rem(i - count, n);
    }
  }

  lemma ForwardIndex(i: int, count: int, n: int)
    requires 0 <= i < n && 1 <= count < n
    ensures var j := ForwardOf(i, count, n); 0 <= j < n && j != i && Dist(n, i, j) == count
  {
    if i + count >= n {
      assert Rem(i + count, n) == Rem(i + count - n, n);
    }
  }

  /** Adding the pair of positions `i` and `j` at the next backward or forward distance. */
  lemma {:induction false} RowStep(nodes: seq<int>, h: int, i: int, md: int, pd: int, res: Matching, j: int,
                                   md': int, pd': int)
    requires Distinct(nodes) && 2 * h < |nodes|
    requires 0 <= i < |nodes| && 0 <= j < |nodes| && i != j
    requires Spans(res, nodes) && EvenAfter(nodes, h, i, md, pd, res)
    requires (pd == 0 && 0 <= md < h && Dist(|nodes|, i, j) == |nodes| - (md + 1) && md' == md + 1 && pd' == 0)
          || (md == h && 0 <= pd < h && Dist(|nodes|, i, j) == pd + 1 && md' == h && pd' == pd + 1)
    ensures Spans(res + {Canonical(nodes[j], nodes[i])}, nodes)
    ensures EvenAfter(nodes, h, i, md', pd', res + {Canonical(nodes[j], nodes[i])})
  {
    SpansAdd(nodes, res, i, j);
    EvenStep(nodes, h, i, md, pd, res, j, md', pd');
  }

  /** One pass of the first inner loop of row `i`. */
  lemma {:induction false} BackwardStep(nodes: seq<int>, h: int, i: int, count: int, res: Matching)
    requires Distinct(nodes) && 2 * h < |nodes| && 0 <= i < |nodes| && 1 <= count <= h
    requires Spans(res, nodes) && EvenAfter(nodes, h, i, count - 1, 0, res)
    ensures var n := |nodes|; var j := BackwardOf(i, count, n);
      0 <= j < n && Spans(res + {Canonical(nodes[j], nodes[i])}, nodes)
      && EvenAfter(nodes, h, i, count, 0, res + {Canonical(nodes[j], nodes[i])})
  {
    BackwardIndex(i, count, |nodes|);
    RowStep(nodes, h, i, count - 1, 0, res, BackwardOf(i, count, |nodes|), count, 0);
  }

  /** One pass of the second inner loop of row `i`. */
  lemma {:induction false} ForwardStep(nodes: seq<int>, h: int, i: int, count: int, res: Matching)
    requires Distinct(nodes) && 2 * h < |nodes| && 0 <= i < |nodes| && 1 <= count <= h
    requires Spans(res, nodes) && EvenAfter(nodes, h, i, h, count - 1, res)
    ensures var n := |nodes|; var j := ForwardOf(i, count, n);
      0 <= j < n && Spans(res + {Canonical(nodes[j], nodes[i])}, nodes)
      && EvenAfter(nodes, h, i, h, count, res + {Canonical(nodes[j], nodes[i])})
  {
    ForwardIndex(i, count, |nodes|);
    RowStep(nodes, h, i, h, count - 1, res, ForwardOf(i, count, |nodes|), h, count);
  }

  lemma {:induction false} EvenNextRow(nodes: seq<int>, h: int, i: int, res: Matching)
    requires 0 <= h && 0 <= i < |nodes|
    requires EvenAfter(nodes, h, i, h, h, res)
    ensures EvenAfter(nodes, h, i + 1, 0, 0, res)
  {
    var n := |nodes|;
    forall a, b | 0 <= a < n && 0 <= b < n
      ensures EvenSoFar(n, h, i, h, h, a, b) == EvenSoFar(n, h, i + 1, 0, 0, a, b)
    {
    }
  }

  /** The first inner loop of `kRegularEven` for row `i`: the `h` positions counter-clockwise. */
  method AddBackwardPairs(nodes: seq<int>, h: int, i: int, res0: Matching) returns (res: Matching)
    requires Distinct(nodes) && 0 <= h && 2 * h < |nodes| && 0 <= i < |nodes|
    requires Spans(res0, nodes) && EvenAfter(nodes, h, i, 0, 0, res0)
    ensures Spans(res, nodes) && EvenAfter(nodes, h, i, h, 0, res)
  {
    var n := |nodes|;
    res := res0;
    var count := 1;
    while count <= h
      invariant 1 <= count <= h + 1
      invariant Spans(res, nodes) && EvenAfter(nodes, h, i, count - 1, 0, res)
    {
      var jModN := BackwardOf(i, count, n);
      BackwardStep(nodes, h, i, count, res);
      res := res + {Canonical(nodes[jModN], nodes[i])};
      count := count + 1;
    }
  }

  /** The second inner loop of `kRegularEven` for row `i`: the `h` positions clockwise. */
  method AddForwardPairs(nodes: seq<int>, h: int, i: int, res0: Matching) returns (res: Matching)
    requires Distinct(nodes) && 0 <= h && 2 * h < |nodes| && 0 <= i < |nodes|
    requires Spans(res0, nodes) && EvenAfter(nodes, h, i, h, 0, res0)
    ensures Spans(res, nodes) && EvenAfter(nodes, h, i, h, h, res)
  {
    var n := |nodes|;
    res := res0;
    var count := 1;
    while count <= h
      invariant 1 <= count <= h + 1
      invariant Spans(res, nodes) && EvenAfter(nodes, h, i, h, count - 1, res)
    {
      var jModN := ForwardOf(i, count, n);
      ForwardStep(nodes, h, i, count, res);
      res := res + {Canonical(nodes[jModN], nodes[i])};
      count := count + 1;
    }
  }

  /**
   * `kRegularEven`: each node paired with the `k / 2` nodes on either side;
   * the two inner loops of each row are `AddBackwardPairs` and `AddForwardPairs`.
   */
  method KRegularEven(nodes: seq<int>, k: nat) returns (res: Matching)
    requires Distinct(nodes) && k < |nodes|
    ensures Spans(res, nodes)
    ensures EvenAfter(nodes, k / 2, |nodes|, 0, 0, res)
  {
    var n := |nodes|;
    var h := k / 2;
    res := {};
    var i := 0;
    while i < n
      invariant 0 <= i <= n
      invariant Spans(res, nodes) && EvenAfter(nodes, h, i, 0, 0, res)
    {
      res := AddBackwardPairs(nodes, h, i, res);
      res := AddForwardPairs(nodes, h, i, res);
      EvenNextRow(nodes, h, i, res);
      i := i + 1;
    }
  }

  // ----- kRegularOdd -----

  /** Go's `(i + n/2) % n`: the position opposite `i`. */
  function PartnerOf(i: int, n: int): int
    requires n > 0
  {
    Rem(i + n / 2, n)
  }

  lemma PartnerIndex(i: int, n: int)
    requires 0 <= i < n && n % 2 == 0
    ensures var p := PartnerOf(i, n); 0 <= p < n && p != i && 2 * Dist(n, i, p) == n
  {
    if i + n / 2 >= n {
      assert Rem(i + n / 2, n) == Rem(i + n / 2 - n, n);
    }
  }

  /** After rows `0..i-1` of the loop of `kRegularOdd`. */
  ghost predicate OddAfter(nodes: seq<int>, h: int, i: int, res: Matching)
  {
    forall a, b {:trigger Canonical(nodes[a], nodes[b])} :: 0 <= a < |nodes| && 0 <= b < |nodes| ==>
      (Canonical(nodes[a], nodes[b]) in res <==>
        InBand(|nodes|, h, Dist(|nodes|, a, b)) || (2 * Dist(|nodes|, a, b) == |nodes| && (a < i || b < i)))
  }

  lemma {:induction false} OddStart(nodes: seq<int>, h: int, res: Matching)
    requires EvenAfter(nodes, h, |nodes|, 0, 0, res)
    ensures OddAfter(nodes, h, 0, res)
  {
    var n := |nodes|;
    forall a, b | 0 <= a < n && 0 <= b < n
      ensures Canonical(nodes[a], nodes[b]) in res <==> InBand(n, h, Dist(n, a, b))
    {
    }
  }

  lemma {:induction false} OddStep(nodes: seq<int>, h: int, i: int, res: Matching)
    requires Distinct(nodes) && |nodes| % 2 == 0 && 0 <= i < |nodes|
    requires Spans(res, nodes) && OddAfter(nodes, h, i, res)
    ensures var p := PartnerOf(i, |nodes|);
      0 <= p < |nodes| && Spans(res + {Canonical(nodes[i], nodes[p])}, nodes)
      && OddAfter(nodes, h, i + 1, res + {Canonical(nodes[i], nodes[p])})
  {
    var n := |nodes|;
    var p := PartnerOf(i, n);
    PartnerIndex(i, n);
    SpansAdd(nodes, res, p, i);
    forall a, b | 0 <= a < n && 0 <= b < n
      ensures Canonical(nodes[a], nodes[b]) in res + {Canonical(nodes[i], nodes[p])} <==>
        InBand(n, h, Dist(n, a, b)) || (2 * Dist(n, a, b) == n && (a < i + 1 || b < i + 1))
    {
      CanonicalAt(nodes, a, b, i, p);
    }
  }

  /** `kRegularOdd`: the even pattern for `k - 1`, plus each node's opposite. */
  method KRegularOdd(nodes: seq<int>, k: nat) returns (res: Matching)
    requires Distinct(nodes) && k < |nodes| && k % 2 == 1 && |nodes| % 2 == 0
    ensures CirculantOf(nodes, k, res)
  {
    var n := |nodes|;
    res := KRegularEven(nodes, k - 1);
    OddStart(nodes, k / 2, res);
    var i := 0;
    while i < n
      invariant 0 <= i <= n
      invariant Spans(res, nodes) && OddAfter(nodes, k / 2, i, res)
    {
      var partnerIndex := PartnerOf(i, n);
      OddStep(nodes, k / 2, i, res);
      res := res + {Canonical(nodes[i], nodes[partnerIndex])};
      i := i + 1;
    }
    OddDone(nodes, k, res);
  }

  lemma {:induction false} OddDone(nodes: seq<int>, k: nat, res: Matching)
    requires k % 2 == 1 && Spans(res, nodes) && OddAfter(nodes, k / 2, |nodes|, res)
    ensures CirculantOf(nodes, k, res)
  {
    var n := |nodes|;
    forall a, b | 0 <= a < n && 0 <= b < n
      ensures Canonical(nodes[a], nodes[b]) in res <==> Offset(n, k, Dist(n, a, b))
    {
    }
  }

  lemma {:induction false} EvenDone(nodes: seq<int>, k: nat, res: Matching)
    requires k % 2 == 0 && Spans(res, nodes) && EvenAfter(nodes, k / 2, |nodes|, 0, 0, res)
    ensures CirculantOf(nodes, k, res)
  {
    var n := |nodes|;
    forall a, b | 0 <= a < n && 0 <= b < n
      ensures Canonical(nodes[a], nodes[b]) in res <==> Offset(n, k, Dist(n, a, b))
    {
    }
  }

  lemma OddProductEven(n: int, k: int)
    requires (n * k) % 2 == 0 && k % 2 == 1
    ensures n % 2 == 0
  {
    if n % 2 == 1 {
      assert n * k == 2 * ((n / 2) * k + k / 2) + 1 by {
        assert n == 2 * (n / 2) + 1 && k == 2 * (k / 2) + 1;
      }
    }
  }

  /**
   * `makeEdges`: no edge at all unless `n * k` is even and `n > k`; otherwise
   * the circulant pattern, in which each node has exactly `k` partners
   * (`CirculantDegree`).
   */
  method MakeEdges(nodes: seq<int>, k: nat) returns (res: Matching)
    requires Distinct(nodes)
    ensures Spans(res, nodes)
    ensures ((|nodes| * k) % 2 != 0 || |nodes| <= k) ==> res == {}
    ensures ((|nodes| * k) % 2 == 0 && |nodes| > k) ==> CirculantOf(nodes, k, res)
  {
    var n := |nodes|;
    var isEvenNK := (n * k) % 2 == 0;
    var isNGreaterThanK := n > k;
    if !isEvenNK || !isNGreaterThanK {
      return {};
    }
    if k % 2 == 0 {
      res := KRegularEven(nodes, k);
      EvenDone(nodes, k, res);
    } else {
      OddProductEven(n, k);
      res := KRegularOdd(nodes, k);
    }
  }

  // ----- every node has exactly k partners -----

  function Shift(n: int, a: int, d: int): int
  {
    if a + d < n then a + d else a + d - n
  }

  /** The integers `lo..hi-1`. */
  function Range(lo: int, hi: int): (r: set<int>)
    ensures forall x :: x in r <==> lo <= x < hi
    ensures lo <= hi ==> |r| == hi - lo
    decreases hi - lo
  {
    if lo >= hi then {} else {lo} + Range(lo + 1, hi)
  }

  lemma ShiftImageSize(n: int, a: int, ds: set<int>)
    requires 0 <= a < n
    requires forall d :: d in ds ==> 0 <= d < n
    ensures |set d | d in ds :: Shift(n, a, d)| == |ds|
  {
    var image := set d | d in ds :: Shift(n, a, d);
    var f := (d: int) => Shift(n, a, d);
    forall y | y in image ensures exists d :: d in ds && f(d) == y {
      var d :| d in ds && Shift(n, a, d) == y;
      assert f(d) == y;
    }
    BijectionSize(ds, image, f);
  }

  /** The distances at which `makeEdges` pairs two nodes, as three ranges. */
  lemma OffsetSet(n: int, k: int)
    requires 0 <= k < n && (k % 2 == 1 ==> n % 2 == 0)
    ensures (set d | 0 <= d < n && Offset(n, k, d))
      == Range(1, k / 2 + 1) + Range(n - k / 2, n) + (if k % 2 == 1 then {n / 2} else {})
  {
    var rhs := Range(1, k / 2 + 1) + Range(n - k / 2, n) + (if k % 2 == 1 then {n / 2} else {});
    forall d ensures d in rhs <==> 0 <= d < n && Offset(n, k, d) {
    }
  }

  /** There are exactly `k` distances at which two nodes are paired. */
  lemma {:induction false} OffsetCount(n: int, k: int)
    requires 0 <= k < n && (k % 2 == 1 ==> n % 2 == 0)
    ensures |set d | 0 <= d < n && Offset(n, k, d)| == k
  {
    var lower := Range(1, k / 2 + 1);
    var upper := Range(n - k / 2, n);
    var mid: set<int> := if k % 2 == 1 then {n / 2} else {};
    OffsetSet(n, k);
    assert lower !! upper;
    assert (lower + upper) !! mid;
    assert |lower + upper| == |lower| + |upper|;
  }

  /**
   * Degree: whenever `makeEdges` builds the circulant pattern, the node at
   * each position is paired with exactly `k` positions.
   */
  lemma {:induction false} CirculantDegree(nodes: seq<int>, k: nat, res: Matching, a: int)
    requires CirculantOf(nodes, k, res) && k < |nodes| && (|nodes| * k) % 2 == 0
    requires 0 <= a < |nodes|
    ensures |set b | 0 <= b < |nodes| && Canonical(nodes[a], nodes[b]) in res| == k
  {
    var n := |nodes|;
    var ds := set d | 0 <= d < n && Offset(n, k, d);
    var partners := set b | 0 <= b < n && Canonical(nodes[a], nodes[b]) in res;
    assert partners == set d | d in ds :: Shift(n, a, d) by {
      forall b | b in partners ensures b in set d | d in ds :: Shift(n, a, d) {
        assert Shift(n, a, Dist(n, a, b)) == b;
      }
      forall d | d in ds ensures Shift(n, a, d) in partners {
        assert Dist(n, a, Shift(n, a, d)) == d;
      }
    }
    ShiftImageSize(n, a, ds);
    if k % 2 == 1 {
      OddProductEven(n, k);
    }
    OffsetCount(n, k);
  }

  // ----- there are n * k / 2 edges -----

  /** The positions of the partners of the node at position `a`. */
  ghost function Partners(nodes: seq<int>, res: Matching, a: int): set<int>
    requires 0 <= a < |nodes|
  {
    set b | 0 <= b < |nodes| && Canonical(nodes[a], nodes[b]) in res
  }

  /** All pairs of positions on a circle of `n`. */
  ghost function Grid(n: int): (r: set<(int, int)>)
    ensures forall p :: p in r <==> 0 <= p.0 < n && 0 <= p.1 < n
  {
    var r := set a, b | 0 <= a < n && 0 <= b < n :: (a, b);
    assert forall p: (int, int) :: 0 <= p.0 < n && 0 <= p.1 < n ==> (p.0, p.1) in r;
    r
  }

  /** The paired positions `(a, b)` with `a` below `m`, each pairing seen from both ends. */
  ghost function PairedPositions(nodes: seq<int>, res: Matching, m: int): set<(int, int)>
    requires m <= |nodes|
  {
    set p | p in Grid(|nodes|) && p.0 < m && Canonical(nodes[p.0], nodes[p.1]) in res
  }

  /** The row of position `a`: its partners, paired with `a`. */
  ghost function Row(nodes: seq<int>, res: Matching, a: int): set<(int, int)>
    requires 0 <= a < |nodes|
  {
    var partners := Partners(nodes, res, a);
    set b | b in partners :: (a, b)
  }

  /** One more position adds its row, apart from the earlier ones. */
  lemma RowsSplit(nodes: seq<int>, res: Matching, m: int)
    requires 1 <= m <= |nodes|
    ensures PairedPositions(nodes, res, m) == PairedPositions(nodes, res, m - 1) + Row(nodes, res, m - 1)
    ensures PairedPositions(nodes, res, m - 1) !! Row(nodes, res, m - 1)
  {
    var whole, before, row := PairedPositions(nodes, res, m), PairedPositions(nodes, res, m - 1), Row(nodes, res, m - 1);
    forall p | p in whole ensures p in before || p in row {
      if p.0 == m - 1 {
        assert p.1 in Partners(nodes, res, m - 1);
      }
    }
    forall p | p in row ensures p in whole {
      assert p.1 in Partners(nodes, res, m - 1);
    }
  }

  /** The rows of the first `m` positions hold `m * k` paired positions when every row holds `k`. */
  lemma {:induction false} RowsCount(nodes: seq<int>, k: nat, res: Matching, m: nat)
    requires forall a :: 0 <= a < |nodes| ==> |Partners(nodes, res, a)| == k
    requires m <= |nodes|
    ensures |PairedPositions(nodes, res, m)| == m * k
  {
    if m == 0 {
      assert PairedPositions(nodes, res, 0) == {};
    } else {
      RowsCount(nodes, k, res, m - 1);
      RowsSplit(nodes, res, m);
      RowSize(m - 1, Partners(nodes, res, m - 1));
      assert (m - 1) * k + k == m * k;
    }
  }

  /** The paired positions whose first node has the smaller id. */
  ghost function UpPositions(nodes: seq<int>, res: Matching): set<(int, int)>
  {
    set p | p in Grid(|nodes|) && Canonical(nodes[p.0], nodes[p.1]) in res && nodes[p.0] < nodes[p.1]
  }

  /** The paired positions whose first node has the larger id. */
  ghost function DownPositions(nodes: seq<int>, res: Matching): set<(int, int)>
  {
    set p | p in Grid(|nodes|) && Canonical(nodes[p.0], nodes[p.1]) in res && nodes[p.0] > nodes[p.1]
  }

  /** The edge between the nodes at the two positions of `p`. */
  function EdgeAt(nodes: seq<int>, p: (int, int)): Edge
  {
    if 0 <= p.0 < |nodes| && 0 <= p.1 < |nodes| then Edge(nodes[p.0], nodes[p.1]) else Edge(0, 0)
  }

  lemma EdgeAtInjective(nodes: seq<int>, p: (int, int), q: (int, int))
    requires Distinct(nodes) && p in Grid(|nodes|) && q in Grid(|nodes|)
    requires EdgeAt(nodes, p) == EdgeAt(nodes, q)
    ensures p == q
  {
    assert nodes[p.0] == nodes[q.0] && nodes[p.1] == nodes[q.1];
  }

  lemma EdgeAtOnto(nodes: seq<int>, res: Matching, e: Edge) returns (p: (int, int))
    requires Spans(res, nodes) && e in res
    ensures p in UpPositions(nodes, res) && EdgeAt(nodes, p) == e
  {
    var a :| 0 <= a < |nodes| && nodes[a] == e.p1;
    var b :| 0 <= b < |nodes| && nodes[b] == e.p2;
    p := (a, b);
  }

  /** Seen smaller id first, the paired positions are the edges themselves. */
  lemma UpwardPositions(nodes: seq<int>, res: Matching)
    requires Distinct(nodes) && Spans(res, nodes)
    ensures |UpPositions(nodes, res)| == |res|
  {
    var up := UpPositions(nodes, res);
    var f := (p: (int, int)) => EdgeAt(nodes, p);
    forall p | p in up ensures f(p) in res {
    }
    forall e | e in res ensures exists p :: p in up && f(p) == e {
      var p := EdgeAtOnto(nodes, res, e);
      assert f(p) == e;
    }
    forall p, q | p in up && q in up && f(p) == f(q) ensures p == q {
      EdgeAtInjective(nodes, p, q);
    }
    BijectionSize(up, res, f);
  }

  /** Every pairing is seen from both of its ends. */
  lemma BothEnds(nodes: seq<int>, res: Matching)
    requires Distinct(nodes) && Spans(res, nodes)
    ensures |PairedPositions(nodes, res, |nodes|)| == 2 * |res|
  {
    var all, up, down := PairedPositions(nodes, res, |nodes|), UpPositions(nodes, res), DownPositions(nodes, res);
    assert all == up + down;
    assert up !! down;
    var swap := (p: (int, int)) => (p.1, p.0);
    forall p | p in up ensures swap(p) in down {
      assert Canonical(nodes[p.1], nodes[p.0]) == Canonical(nodes[p.0], nodes[p.1]);
    }
    forall p | p in down ensures exists q :: q in up && swap(q) == p {
      assert Canonical(nodes[p.1], nodes[p.0]) == Canonical(nodes[p.0], nodes[p.1]);
      assert swap((p.1, p.0)) == p;
    }
    BijectionSize(up, down, swap);
    UpwardPositions(nodes, res);
  }

  /**
   * Edge count: whenever `makeEdges` builds the circulant pattern on `n`
   * distinct nodes, it holds exactly `n * k / 2` pairings.
   */
  lemma CirculantEdgeCount(nodes: seq<int>, k: nat, res: Matching)
    requires Distinct(nodes) && CirculantOf(nodes, k, res) && k < |nodes| && (|nodes| * k) % 2 == 0
    ensures |res| == |nodes| * k / 2
  {
    forall a | 0 <= a < |nodes| ensures |Partners(nodes, res, a)| == k {
      CirculantDegree(nodes, k, res, a);
    }
    RowsCount(nodes, k, res, |nodes|);
    BothEnds(nodes, res);
  }

  /** No node is paired with itself, and pairs are stored once, smaller id first. */
  lemma CirculantCanonical(nodes: seq<int>, k: nat, res: Matching)
    requires CirculantOf(nodes, k, res)
    ensures forall e :: e in res ==> e.p1 < e.p2 && Canonical(e.p1, e.p2) == e
  {
  }
}

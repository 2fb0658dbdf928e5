/** Counting facts about finite sets used by the degree and edge-count proofs. */
module Cardinality {
  /** Some element of a non-empty set. */
  lemma Pick<T>(s: set<T>) returns (w: T)
    requires s != {}
    ensures w in s
  {
    if forall y :: y !in s {
      assert false;
    }
    w :| w in s;
  }

  /** `f` maps `s` one-to-one onto `t`. */
  ghost predicate Bijection<A, B>(s: set<A>, t: set<B>, f: A -> B)
  {
    (forall x :: x in s ==> f(x) in t)
    && (forall y :: y in t ==> exists x :: x in s && f(x) == y)
    && (forall x, x' :: x in s && x' in s && f(x) == f(x') ==> x == x')
  }

  /** Two sets in one-to-one correspondence have the same size. */
  lemma {:induction false} BijectionSize<A, B>(s: set<A>, t: set<B>, f: A -> B)
    requires Bijection(s, t, f)
    ensures |s| == |t|
    decreases |s|
  {
    if s == {} {
      if t != {} {
        var y := Pick(t);
        assert false;
      }
    } else {
      var x := Pick(s);
      var s' := s - {x};
      var t' := t - {f(x)};
      forall y | y in t' ensures exists z :: z in s' && f(z) == y {
        var z :| z in s && f(z) == y;
        assert z in s';
      }
      BijectionSize(s', t', f);
    }
  }

  /** The pairs `(u, v)` for `v` in `s` are as many as `s`. */
  lemma RowSize(u: int, s: set<int>)
    ensures |set v | v in s :: (u, v)| == |s|
  {
    var row := set v | v in s :: (u, v);
    var f := (v: int) => (u, v);
    forall v | v in s ensures f(v) in row {
      assert f(v) == (u, v);
    }
    forall y | y in row ensures exists v :: v in s && f(v) == y {
      var v :| v in s && (u, v) == y;
      assert f(v) == y;
    }
    BijectionSize(s, row, f);
  }
}

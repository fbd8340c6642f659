/** Small helpers shared by the rest of the model: an optional value and the
    least / greatest element of a finite set (the firstKey / lastKey /
    floorEntry / ceilingEntry of the source's sorted collections). */
module Basics {

  datatype Option<+T> = None | Some(value: T)

  /** Some element of a non-empty set. */
  lemma Pick<T>(s: set<T>) returns (x: T)
    requires s != {}
    ensures x in s
  {
    assert !(forall y :: y in s <==> y in {});
    var y :| y in s;
    x := y;
  }

  /** A non-empty set of integers has a least element: remove one element
      and recur on the rest. */
  lemma {:induction false} IntHasLeast(s: set<int>)
    requires s != {}
    ensures exists m :: m in s && forall y :: y in s ==> m <= y
    decreases |s|
  {
    var x := Pick(s);
    var rest := s - {x};
    if rest == {} {
      forall y | y in s ensures x <= y {
        assert y !in rest;
      }
      assert x in s && forall y :: y in s ==> x <= y;
    } else {
      IntHasLeast(rest);
      var r :| r in rest && forall y :: y in rest ==> r <= y;
      var m := if x < r then x else r;
      forall y | y in s ensures m <= y {
        if y != x { assert y in rest; }
      }
      assert m in s && forall y :: y in s ==> m <= y;
    }
  }

  lemma {:induction false} IntHasGreatest(s: set<int>)
    requires s != {}
    ensures exists m :: m in s && forall y :: y in s ==> y <= m
    decreases |s|
  {
    var x := Pick(s);
    var rest := s - {x};
    if rest == {} {
      forall y | y in s ensures y <= x {
        assert y !in rest;
      }
      assert x in s && forall y :: y in s ==> y <= x;
    } else {
      IntHasGreatest(rest);
      var r :| r in rest && forall y :: y in rest ==> y <= r;
      var m := if x > r then x else r;
      forall y | y in s ensures y <= m {
        if y != x { assert y in rest; }
      }
      assert m in s && forall y :: y in s ==> y <= m;
    }
  }

  /** The same two facts for sets of reals. */
  lemma {:induction false} RealHasLeast(s: set<real>)
    requires s != {}
    ensures exists m :: m in s && forall y :: y in s ==> m <= y
    decreases |s|
  {
    var x := Pick(s);
    var rest := s - {x};
    if rest == {} {
      forall y | y in s ensures x <= y {
        assert y !in rest;
      }
      assert x in s && forall y :: y in s ==> x <= y;
    } else {
      RealHasLeast(rest);
      var r :| r in rest && forall y :: y in rest ==> r <= y;
      var m := if x < r then x else r;
      forall y | y in s ensures m <= y {
        if y != x { assert y in rest; }
      }
      assert m in s && forall y :: y in s ==> m <= y;
    }
  }

  lemma {:induction false} RealHasGreatest(s: set<real>)
    requires s != {}
    ensures exists m :: m in s && forall y :: y in s ==> y <= m
    decreases |s|
  {
    var x := Pick(s);
    var rest := s - {x};
    if rest == {} {
      forall y | y in s ensures y <= x {
        assert y !in rest;
      }
      assert x in s && forall y :: y in s ==> y <= x;
    } else {
      RealHasGreatest(rest);
      var r :| r in rest && forall y :: y in rest ==> y <= r;
      var m := if x > r then x else r;
      forall y | y in s ensures y <= m {
        if y != x { assert y in rest; }
      }
      assert m in s && forall y :: y in s ==> y <= m;
    }
  }

  /** The least element of a non-empty set of integers. */
  function MinOf(s: set<int>): (m: int)
    requires s != {}
    ensures m in s && forall y :: y in s ==> m <= y
  {
    IntHasLeast(s);
    var m :| m in s && forall y :: y in s ==> m <= y; m
  }

  /** The greatest element of a non-empty set of integers. */
  function MaxOf(s: set<int>): (m: int)
    requires s != {}
    ensures m in s && forall y :: y in s ==> y <= m
  {
    IntHasGreatest(s);
    var m :| m in s && forall y :: y in s ==> y <= m; m
  }

  /** The least element of a non-empty set of reals. */
  function MinReal(s: set<real>): (m: real)
    requires s != {}
    ensures m in s && forall y :: y in s ==> m <= y
  {
    RealHasLeast(s);
    var m :| m in s && forall y :: y in s ==> m <= y; m
  }

  /** The greatest element of a non-empty set of reals. */
  function MaxReal(s: set<real>): (m: real)
    requires s != {}
    ensures m in s && forall y :: y in s ==> y <= m
  {
    RealHasGreatest(s);
    var m :| m in s && forall y :: y in s ==> y <= m; m
  }
}

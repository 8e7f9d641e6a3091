/** Cardinalities of finite sets: disjoint unions, bijections and products. */
module FiniteSets {

  lemma DisjointUnion<T>(a: set<T>, b: set<T>)
    requires a !! b
    ensures |a + b| == |a| + |b|
  {
  }

  lemma {:induction false} SubsetSize<T>(a: set<T>, b: set<T>)
    requires a <= b
    ensures |a| <= |b|
    ensures |a| == |b| ==> a == b
  {
    if a != {} {
      var x :| x in a;
      SubsetSize(a - {x}, b - {x});
      assert a == (a - {x}) + {x} && b == (b - {x}) + {x};
    }
  }

  /** Two sets in bijection have the same size. */
  lemma {:induction false} BijectionSize<S(!new), T(!new)>(a: set<S>, b: set<T>, f: S -> T, g: T -> S)
    requires forall x :: x in a ==> f(x) in b && g(f(x)) == x
    requires forall y :: y in b ==> g(y) in a && f(g(y)) == y
    ensures |a| == |b|
  {
    if a == {} {
      assert forall y :: y !in b;
      assert b == {};
    } else {
      var x :| x in a;
      BijectionSize(a - {x}, b - {f(x)}, f, g);
    }
  }

  /** c corresponds to the pairs of a and b: f pairs up, p and q project. */
  ghost predicate Pairs<S(!new), T(!new), U(!new)>(
      a: set<S>, b: set<T>, c: set<U>, f: (S, T) -> U, p: U -> S, q: U -> T)
  {
    && (forall x, y :: x in a && y in b ==> f(x, y) in c && p(f(x, y)) == x && q(f(x, y)) == y)
    && (forall u :: u in c ==> p(u) in a && q(u) in b && f(p(u), q(u)) == u)
  }

  lemma FiberSplit<S(!new), T(!new), U(!new)>(
      a: set<S>, b: set<T>, c: set<U>, f: (S, T) -> U, p: U -> S, q: U -> T, x: S) returns (rest: set<U>)
    requires Pairs(a, b, c, f, p, q) && x in a
    ensures Pairs(a - {x}, b, rest, f, p, q) && |c| == |rest| + |b|
  {
    var row := set u | u in c && p(u) == x;
    rest := set u | u in c && p(u) != x;
    BijectionSize(b, row, y => f(x, y), q);
    DisjointUnion(rest, row);
    assert c == rest + row;
  }

  /** A set in bijection with pairs has the product of the sizes. */
  lemma {:induction false} ProductSize<S(!new), T(!new), U(!new)>(
      a: set<S>, b: set<T>, c: set<U>, f: (S, T) -> U, p: U -> S, q: U -> T)
    requires Pairs(a, b, c, f, p, q)
    ensures |c| == |a| * |b|
  {
    if a == {} {
      assert forall u :: u !in c;
      assert c == {};
    } else {
      var x :| x in a;
      var rest := FiberSplit(a, b, c, f, p, q, x);
      hide Pairs;
      ProductSize(a - {x}, b, rest, f, p, q);
      assert |a| == |a - {x}| + 1;
    }
  }
}

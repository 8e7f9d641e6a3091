/** Fiber roots, inverse tables, window tables and the vanishing function Z_H. */
module CircleTables {
  import opened M31
  import F = M31Field
  import opened Bits
  import opened Nonlinear
  import opened Circle
  import opened CircleDomain
  import opened CircleOrder

  // --------------------------------------------- exponents of a domain, as odd multiples

  lemma ExponentForm(m: nat, r: nat)
    requires m <= 29
    ensures Exponent(m, r) == Pow2(29 - m) * (4 * r + 1)
  {
    hide Pow2;
    Pow2Succ(29 - m);
    Pow2Succ(30 - m);
    Distribute(Pow2(29 - m), 4 * r, 1);
    Assoc(Pow2(29 - m), 4, r);
    Assoc(4, Pow2(29 - m), r);
  }

  lemma Aligned(m: nat)
    requires m <= 29
    ensures ORDER == Pow2(29 - m) * (4 * Pow2(m)) && QUARTER == Pow2(29 - m) * Pow2(m)
  {
    hide Pow2;
    Pow2Values();
    var a := 29 - m;
    Pow2Add(a, m);
    assert a + m == 29;
    Assoc(Pow2(a), Pow2(m), 4);
  }

  lemma ExponentRange(m: nat, r: nat)
    requires m <= 29 && r < Pow2(m)
    ensures 0 < Exponent(m, r) < ORDER
  {
    hide Pow2, Exponent;
    ExponentForm(m, r);
    Aligned(m);
    var u := Pow2(29 - m);
    MulLe(u, 1, 4 * r + 1);
    MulLe(u, 4 * r + 2, 4 * Pow2(m));
    Distribute(u, 4 * r + 1, 1);
  }

  lemma OddMultiples(m: nat, r: nat, s: nat)
    requires m <= 29
    ensures Exponent(m, r) == Exponent(m, s) ==> r == s
    ensures Exponent(m, r) + Exponent(m, s) != ORDER
  {
    hide Pow2, Exponent;
    ExponentForm(m, r);
    ExponentForm(m, s);
    Aligned(m);
    var u := Pow2(29 - m);
    if Exponent(m, r) == Exponent(m, s) {
      MulCancel(u, 4 * r + 1, 4 * s + 1);
    }
    if Exponent(m, r) + Exponent(m, s) == ORDER {
      Distribute(u, 4 * r + 1, 4 * s + 1);
      MulCancel(u, (4 * r + 1) + (4 * s + 1), 4 * Pow2(m));
    }
  }

  /** Stored line coordinates are pairwise distinct and never 1. */
  lemma LineXDistinct(m: nat, f: nat, g: nat)
    requires m <= 29 && f < Pow2(m) && g < Pow2(m)
    ensures LineX(m, f) == LineX(m, g) ==> f == g
    ensures LineX(m, f) != 1
  {
    hide CPow, Pow2, Exponent, BitReverse;
    var r, s := BitReverse(f, m), BitReverse(g, m);
    ExponentRange(m, r);
    ExponentRange(m, s);
    if LineX(m, f) == LineX(m, g) {
      SameXExponents(Exponent(m, r), Exponent(m, s));
      OddMultiples(m, r, s);
      BitReverseTwice(f, m);
      BitReverseTwice(g, m);
    }
    if LineX(m, f) == 1 {
      CPowZero(GENERATOR);
      SameXExponents(Exponent(m, r), 0);
    }
  }

  lemma LineXNonzero(m: nat, i: nat)
    requires 1 <= m <= 29
    ensures LineX(m, i) != 0
  {
    hide CPow, Pow2, Exponent, BitReverse;
    var r := BitReverse(i, m);
    var e := Exponent(m, r);
    XZero(e);
    if e % HALF_ORDER == QUARTER {
      var q := e / HALF_ORDER;
      assert e == QUARTER * (2 * q + 1);
      Pow2Values();
      NotAligned(m, r, m, 2 * q + 1);
    }
  }

  /** An odd multiple of 2^(29-m) is not a multiple of 2^(29-m+j), j >= 1. */
  lemma NotAligned(m: nat, r: nat, j: nat, k: nat)
    requires 1 <= j <= m + 1 && m <= 29
    ensures Exponent(m, r) != Pow2(29 - m + j) * k
  {
    hide Pow2, Exponent;
    ExponentForm(m, r);
    var u := 29 - m;
    Pow2Add(u, j);
    Pow2Succ(j - 1);
    if Exponent(m, r) == Pow2(u + j) * k {
      Assoc(Pow2(u), Pow2(j), k);
      MulCancel(Pow2(u), 4 * r + 1, Pow2(j) * k);
      Assoc(2, Pow2(j - 1), k);
    }
  }

  lemma CircleYNonzero(n: nat, b: nat)
    requires 1 <= n <= 30
    ensures CirclePoint(n, 2 * b).y != 0
  {
    hide CPow, Pow2, Exponent, BitReverse, CirclePoint;
    CirclePointEven(n, b);
    var r := BitReverse(b, n - 1);
    var e := Exponent(n - 1, r);
    YZero(e);
    if e % HALF_ORDER == 0 {
      assert e == HALF_ORDER * (e / HALF_ORDER);
      Pow2Values();
      NotAligned(n - 1, r, n, e / HALF_ORDER);
    }
  }

  // --------------------------------------------------------------------- fiber roots

  /** The root 2x^2 - 1 of an arity-four fiber. */
  function FiberRoot(n: nat, fiber: nat): Elem
    requires 2 <= n <= 30
  {
    hide CirclePoint;
    DoubleX(CirclePoint(n, 4 * fiber).x)
  }

  /** Transport: a fiber root is the next line domain's x-coordinate. */
  lemma Transport(n: nat, fiber: nat)
    requires 2 <= n <= 30
    ensures FiberRoot(n, fiber) == LineX(n - 2, fiber)
  {
    hide CirclePoint, LineX, DoubleX;
    CirclePointX(n, 4 * fiber);
    LineXDouble(n - 1, 2 * fiber);
  }

  /** All fiber roots of a domain are distinct, and none is 1. */
  lemma FiberRootsDistinct(n: nat, f: nat, g: nat)
    requires 2 <= n <= 30 && f < Pow2(n - 2) && g < Pow2(n - 2)
    ensures FiberRoot(n, f) == FiberRoot(n, g) ==> f == g
    ensures FiberRoot(n, f) != 1
  {
    hide FiberRoot, LineX;
    Transport(n, f);
    Transport(n, g);
    LineXDistinct(n - 2, f, g);
  }

  lemma WalkPoint(log: nat, j: nat)
    requires log <= 29
    ensures CAdd(GroupPoint(Exponent(log, j)), GroupPoint(Step(log))) == GroupPoint(Exponent(log, j + 1))
  {
    hide CAdd, CPow, Initial, Step;
    CPowAdd(GENERATOR, Exponent(log, j), Step(log));
    Distribute(Step(log), j, 1);
  }

  lemma ExponentZero(log: nat)
    requires log <= 29
    ensures Exponent(log, 0) == Initial(log)
  {
    hide Pow2;
    assert Step(log) * 0 == 0;
  }

  /** `fiber_root_walk`: the sequential walk meets every fiber root, each once. */
  method FiberRootWalk(n: nat) returns (roots: seq<Elem>)
    requires 2 <= n <= 30
    ensures |roots| == Pow2(n - 2)
    ensures forall f :: 0 <= f < Pow2(n - 2) ==> roots[BitReverse(f, n - 2)] == FiberRoot(n, f)
    ensures forall i, j :: 0 <= i < j < |roots| ==> roots[i] != roots[j]
    ensures 1 !in roots
  {
    hide CAdd, CPow, Initial, Step, Exponent, Pow2, BitReverse, FiberRoot, DoubleX;
    var log := n - 1;
    var point := CMulLoop(GENERATOR, Initial(log));
    var step := CMulLoop(GENERATOR, Step(log));
    ExponentZero(log);
    roots := [];
    for j := 0 to Pow2(n - 2)
      invariant point == GroupPoint(Exponent(log, j))
      invariant |roots| == j
      invariant forall k :: 0 <= k < j ==> roots[k] == DoubleX(GroupPoint(Exponent(log, k)).x)
    {
      roots := roots + [DoubleX(point.x)];
      point := CAdd(point, step);
      WalkPoint(log, j);
    }
    forall f | 0 <= f < Pow2(n - 2)
      ensures roots[BitReverse(f, n - 2)] == FiberRoot(n, f)
      ensures BitReverse(BitReverse(f, n - 2), n - 2) == f
    {
      FiberNatural(n, f);
      BitReverseTwice(f, n - 2);
    }
    forall i | 0 <= i < |roots| ensures roots[i] == FiberRoot(n, BitReverse(i, n - 2)) && roots[i] != 1 {
      var f := BitReverse(i, n - 2);
      BitReverseTwice(i, n - 2);
      assert roots[BitReverse(f, n - 2)] == FiberRoot(n, f);
      FiberRootsDistinct(n, f, f);
    }
    forall i, j | 0 <= i < j < |roots| ensures roots[i] != roots[j] {
      BitReverseTwice(i, n - 2);
      BitReverseTwice(j, n - 2);
      FiberRootsDistinct(n, BitReverse(i, n - 2), BitReverse(j, n - 2));
    }
  }

  lemma FiberNatural(n: nat, f: nat)
    requires 2 <= n <= 30
    ensures FiberRoot(n, f) == DoubleX(GroupPoint(Exponent(n - 1, BitReverse(f, n - 2))).x)
  {
    hide CPow, Exponent, BitReverse, CirclePoint, DoubleX;
    CirclePointEven(n, 2 * f);
    BitReverseDouble(f, n - 1);
    assert 2 * (2 * f) == 4 * f;
  }

  // ------------------------------------------------------------------ inverse tables

  lemma TwiceNonzero(x: Elem)
    requires x != 0
    ensures Mod(2 * x) != 0
  {
  }

  /** The circle tables of build.rs: inverses of 2x and 2y on every fiber; nothing
      passed to the Fermat inverse is zero. */
  method CircleInverseTables(n: nat) returns (xs: seq<Elem>, ys: seq<Elem>)
    requires 2 <= n <= 30
    ensures |xs| == |ys| == Pow2(n - 2)
    ensures forall f :: 0 <= f < Pow2(n - 2) ==>
      && Mul(Mod(2 * CirclePoint(n, 4 * f).x), xs[f]) == 1
      && Mul(Mod(2 * CirclePoint(n, 4 * f).y), ys[f]) == 1
  {
    hide Pow2, CirclePoint, F.Inv, Mul, Mod;
    xs, ys := [], [];
    for f := 0 to Pow2(n - 2)
      invariant |xs| == |ys| == f
      invariant forall k :: 0 <= k < f ==>
        && Mul(Mod(2 * CirclePoint(n, 4 * k).x), xs[k]) == 1
        && Mul(Mod(2 * CirclePoint(n, 4 * k).y), ys[k]) == 1
    {
      var point := CirclePoint(n, 4 * f);
      FiberCoordinates(n, f);
      var ix := F.InvLoop(Mod(2 * point.x));
      var iy := F.InvLoop(Mod(2 * point.y));
      xs, ys := xs + [ix], ys + [iy];
    }
  }

  lemma FiberCoordinates(n: nat, f: nat)
    requires 2 <= n <= 30
    ensures Mod(2 * CirclePoint(n, 4 * f).x) != 0 && Mod(2 * CirclePoint(n, 4 * f).y) != 0
  {
    hide CirclePoint, LineX, Mod;
    CirclePointX(n, 4 * f);
    LineXNonzero(n - 1, 2 * f);
    CircleYNonzero(n, 2 * f);
    assert 2 * (2 * f) == 4 * f;
    TwiceNonzero(CirclePoint(n, 4 * f).x);
    TwiceNonzero(CirclePoint(n, 4 * f).y);
  }

  /** The three inverses a later layer stores for one fiber. */
  ghost predicate LineEntry(logSize: nat, f: nat, a: Elem, b: Elem, c: Elem)
    requires 2 <= logSize <= 29
  {
    && Mul(Mod(2 * LineX(logSize, 4 * f)), a) == 1
    && Mul(Mod(2 * LineX(logSize, 4 * f + 2)), b) == 1
    && Mul(Mod(2 * LineX(logSize - 1, 2 * f)), c) == 1
  }

  method InverseOfTwice(x: Elem) returns (r: Elem)
    requires x != 0
    ensures Mul(Mod(2 * x), r) == 1
  {
    TwiceNonzero(x);
    r := F.InvLoop(Mod(2 * x));
  }

  /** One later-layer table of build.rs. */
  method LineInverseTable(logSize: nat) returns (values: seq<Elem>)
    requires 2 <= logSize <= 29
    ensures |values| == 3 * Pow2(logSize - 2)
    ensures forall f :: 0 <= f < Pow2(logSize - 2) ==>
      LineEntry(logSize, f, values[3 * f], values[3 * f + 1], values[3 * f + 2])
  {
    hide Pow2, LineX, Mul, Mod, LineEntry;
    values := [];
    for f := 0 to Pow2(logSize - 2)
      invariant |values| == 3 * f
      invariant forall k :: 0 <= k < f ==>
        LineEntry(logSize, k, values[3 * k], values[3 * k + 1], values[3 * k + 2])
    {
      LineXNonzero(logSize, 4 * f);
      LineXNonzero(logSize, 4 * f + 2);
      LineXNonzero(logSize - 1, 2 * f);
      var a := InverseOfTwice(LineX(logSize, 4 * f));
      var b := InverseOfTwice(LineX(logSize, 4 * f + 2));
      var c := InverseOfTwice(LineX(logSize - 1, 2 * f));
      LineEntryIntro(logSize, f, a, b, c);
      values := values + [a, b, c];
    }
  }

  lemma LineEntryIntro(logSize: nat, f: nat, a: Elem, b: Elem, c: Elem)
    requires 2 <= logSize <= 29
    requires Mul(Mod(2 * LineX(logSize, 4 * f)), a) == 1
    requires Mul(Mod(2 * LineX(logSize, 4 * f + 2)), b) == 1
    requires Mul(Mod(2 * LineX(logSize - 1, 2 * f)), c) == 1
    ensures LineEntry(logSize, f, a, b, c)
  {
  }

  // ------------------------------------------------------------------- window tables

  /** A window table: start, start + step, start + 2 step, ... */
  method Window(start: Point, step: Point, count: nat) returns (table: seq<Point>)
    ensures |table| == count && forall k :: 0 <= k < count ==> table[k] == CAdd(start, CPow(step, k))
  {
    hide CAdd;
    table := [];
    var current := start;
    CAddIdentity(start);
    for k := 0 to count
      invariant |table| == k && current == CAdd(start, CPow(step, k))
      invariant forall t :: 0 <= t < k ==> table[t] == CAdd(start, CPow(step, t))
    {
      table := table + [current];
      current := CAdd(current, step);
      CAddAssoc(start, CPow(step, k), step);
      CAddComm(CPow(step, k), step);
    }
  }

  /** The index whose low part is `low` and whose part above `shift` is `high`. */
  function Joined(low: nat, shift: nat, high: nat): nat
  {
    MulLe(shift, 0, high);
    low + shift * high
  }

  lemma WindowSum(log: nat, low: nat, shift: nat, high: nat)
    requires log <= 29
    ensures CAdd(GroupPoint(Exponent(log, low)), CPow(GroupPoint(Shifted(log, shift)), high))
         == GroupPoint(Exponent(log, Joined(low, shift, high)))
  {
    hide CAdd, CPow, Initial, Step;
    MulLe(Step(log), 0, shift);
    MulLe(Step(log) * shift, 0, high);
    MulLe(shift, 0, high);
    CPowMul(GENERATOR, Step(log) * shift, high);
    Assoc(Step(log), shift, high);
    Distribute(Step(log), low, shift * high);
    CPowAdd(GENERATOR, Exponent(log, low), Step(log) * (shift * high));
  }

  function Shifted(log: nat, shift: nat): nat
    requires log <= 29
  {
    hide Step;
    MulLe(Step(log), 0, shift);
    Step(log) * shift
  }

  /** Two windows: the group sum of a low and a high entry is the direct point. */
  method TwoWindows(log: nat, lowBits: nat, highBits: nat) returns (low: seq<Point>, high: seq<Point>)
    requires log <= 29
    ensures |low| == Pow2(lowBits) && |high| == Pow2(highBits)
    ensures forall l, h :: 0 <= l < |low| && 0 <= h < |high| ==>
      CAdd(low[l], high[h]) == GroupPoint(Exponent(log, Joined(l, Pow2(lowBits), h)))
  {
    hide CAdd, CPow, Initial, Step, Exponent, Pow2, Shifted, Joined;
    var start := CMulLoop(GENERATOR, Initial(log));
    var step := CMulLoop(GENERATOR, Step(log));
    low := Window(start, step, Pow2(lowBits));
    var highStep := CMulLoop(GENERATOR, Shifted(log, Pow2(lowBits)));
    high := Window(IDENTITY, highStep, Pow2(highBits));
    forall l, h | 0 <= l < |low| && 0 <= h < |high|
      ensures CAdd(low[l], high[h]) == GroupPoint(Exponent(log, Joined(l, Pow2(lowBits), h)))
    {
      CosetPoint(log, l);
      CAddIdentity(CPow(highStep, h));
      WindowSum(log, l, Pow2(lowBits), h);
    }
  }

  /** Three windows, as the 18-bit fiber index is decomposed. */
  method ThreeWindows(log: nat, a: nat, b: nat, c: nat)
    returns (low: seq<Point>, middle: seq<Point>, high: seq<Point>)
    requires log <= 29
    ensures |low| == Pow2(a) && |middle| == Pow2(b) && |high| == Pow2(c)
    ensures forall l, m, h :: 0 <= l < |low| && 0 <= m < |middle| && 0 <= h < |high| ==>
      CAdd(CAdd(low[l], middle[m]), high[h])
        == GroupPoint(Exponent(log, Joined(Joined(l, Pow2(a), m), Pow2(a + b), h)))
  {
    hide CAdd, CPow, Initial, Step, Exponent, Pow2, Shifted, Joined;
    low, middle := TwoWindows(log, a, b);
    var highStep := CMulLoop(GENERATOR, Shifted(log, Pow2(a + b)));
    high := Window(IDENTITY, highStep, Pow2(c));
    forall l, m, h | 0 <= l < |low| && 0 <= m < |middle| && 0 <= h < |high|
      ensures CAdd(CAdd(low[l], middle[m]), high[h])
        == GroupPoint(Exponent(log, Joined(Joined(l, Pow2(a), m), Pow2(a + b), h)))
    {
      CAddIdentity(CPow(highStep, h));
      WindowSum(log, Joined(l, Pow2(a), m), Pow2(a + b), h);
    }
  }

  // --------------------------------------------------------- the vanishing function Z_H

  /** `phi9_x`-style iterated x-doubling. */
  function DoubleIter(k: nat, x: Elem): Elem
  {
    if k == 0 then x else DoubleX(DoubleIter(k - 1, x))
  }

  lemma {:induction false} DoubleIterPoint(k: nat, e: nat)
    ensures DoubleIter(k, GroupPoint(e).x) == GroupPoint(e * Pow2(k)).x
  {
    hide CPow, CAdd, DoubleX;
    if k == 0 {
      assert e * Pow2(0) == e;
    } else {
      DoubleIterPoint(k - 1, e);
      var d := e * Pow2(k - 1);
      Assoc(e, Pow2(k - 1), 2);
      CPowDouble(GENERATOR, d);
      GroupOnCircle(d);
      DoubleIsDoubleX(GroupPoint(d));
    }
  }

  /** Z_H(x) = phi(x) - c collapses the domain of log size h; the constant c is 0. */
  function VanishingH(h: nat, x: Elem): Elem
    requires h >= 1
  {
    DoubleIter(h - 1, x)
  }

  ghost predicate InDomain(h: nat, p: Point)
    requires 1 <= h <= 30
  {
    exists i: nat :: i < Pow2(h) && CirclePoint(h, i) == p
  }

  lemma {:induction false} DoubleIterLine(k: nat, m: nat, i: nat) returns (j: nat)
    requires k <= m <= 29
    ensures DoubleIter(k, LineX(m, i)) == LineX(m - k, j)
  {
    hide LineX, DoubleX;
    if k == 0 {
      j := i;
    } else {
      j := DoubleIterLine(k - 1, m, i);
      LineXDouble(m - k + 1, j);
      j := j / 2;
    }
  }

  /** Z_H vanishes on all of H. */
  lemma VanishesOnDomain(h: nat, i: nat)
    requires 1 <= h <= 30
    ensures VanishingH(h, CirclePoint(h, i).x) == 0
  {
    hide CirclePoint, LineX, DoubleIter;
    CirclePointX(h, i);
    var j := DoubleIterLine(h - 1, h - 1, i / 2);
    LineXRoot(j);
  }

  lemma LineXRoot(j: nat)
    ensures LineX(0, j) == 0
  {
    hide CPow, Exponent, Pow2;
    ExponentZero(0);
    Pow2Values();
    Turns();
    assert BitReverse(j, 0) == 0;
  }

  /** ... and nowhere on any larger domain, so the two are disjoint. */
  lemma NonzeroOnLargerDomain(h: nat, n: nat, i: nat)
    requires 1 <= h < n <= 30
    ensures VanishingH(h, CirclePoint(n, i).x) != 0
  {
    hide CirclePoint, LineX, DoubleIter;
    CirclePointX(n, i);
    var j := DoubleIterLine(h - 1, n - 1, i / 2);
    LineXNonzero(n - h, j);
  }

  lemma InverseExponents(a: nat, b: nat)
    requires (a + b) % ORDER == 0
    ensures GroupPoint(a) == Conj(GroupPoint(b))
  {
    hide CPow, CAdd, Conj;
    var p, q := GroupPoint(a), GroupPoint(b);
    CPowAdd(GENERATOR, a, b);
    ExactOrder(a + b);
    GroupOnCircle(b);
    ConjInverse(q);
    CAddAssoc(p, q, Conj(q));
    CAddIdentity(p);
    CAddIdentity(Conj(q));
  }

  lemma EqualExponents(a: nat, b: nat)
    requires b <= a && (a - b) % ORDER == 0
    ensures GroupPoint(a) == GroupPoint(b)
  {
    hide CPow, CAdd;
    CPowAdd(GENERATOR, a - b, b);
    ExactOrder(a - b);
    CAddIdentity(GroupPoint(b));
  }

  lemma MultipleOfOrder(m: nat, k: nat)
    requires m <= 29
    ensures (Pow2(29 - m) * (4 * (Pow2(m) * k))) % ORDER == 0
  {
    hide Pow2;
    Aligned(m);
    var u := Pow2(29 - m);
    Assoc(4, Pow2(m), k);
    Assoc(u, 4 * Pow2(m), k);
    MultipleMod(ORDER, k);
  }

  /** An exponent that is an odd multiple of 2^(29-m) names a point of the domain. */
  lemma OddMultipleInDomain(h: nat, e: nat, q: nat)
    requires 1 <= h <= 30 && e == Pow2(30 - h) * (2 * q + 1)
    ensures InDomain(h, GroupPoint(e))
  {
    hide CPow, Pow2, Exponent, BitReverse, Conj;
    var m := h - 1;
    var n := Pow2(m);
    var u := Pow2(30 - h);
    var k := q / 2;
    var t, c := k / n, k % n;
    assert k == n * t + c;
    Pow2Succ(m);
    if q % 2 == 0 {
      ExponentForm(m, c);
      Distribute(u, 4 * k + 1, 4 * c + 1);
      assert (4 * k + 1) - (4 * c + 1) == 4 * (n * t);
      MultipleOfOrder(m, t);
      MulLe(u, 4 * c + 1, 4 * k + 1);
      EqualExponents(e, Exponent(m, c));
      var i := BitReverse(c, h);
      BitReverseTwice(c, h);
      assert CirclePoint(h, i) == GroupPoint(e);
    } else {
      var r := n - 1 - c;
      ExponentForm(m, r);
      Distribute(u, 4 * k + 3, 4 * r + 1);
      Distribute(n, t, 1);
      assert (4 * k + 3) + (4 * r + 1) == 4 * (n * (t + 1));
      MultipleOfOrder(m, t + 1);
      InverseExponents(e, Exponent(m, r));
      var i := BitReverse(r + n, h);
      BitReverseTwice(r + n, h);
      assert CirclePoint(h, i) == GroupPoint(e);
    }
  }

  /** Z_H is zero at a point of the group exactly when that point lies in H. */
  lemma VanishesExactlyOnDomain(h: nat, e: nat)
    requires 1 <= h <= 30
    ensures VanishingH(h, GroupPoint(e).x) == 0 <==> InDomain(h, GroupPoint(e))
  {
    hide CPow, Pow2, DoubleIter, CirclePoint, BitReverse;
    if InDomain(h, GroupPoint(e)) {
      var i: nat :| i < Pow2(h) && CirclePoint(h, i) == GroupPoint(e);
      VanishesOnDomain(h, i);
    }
    if VanishingH(h, GroupPoint(e).x) == 0 {
      DoubleIterPoint(h - 1, e);
      MulLe(e, 0, Pow2(h - 1));
      var d := e * Pow2(h - 1);
      XZero(d);
      var q := d / HALF_ORDER;
      assert d == QUARTER * (2 * q + 1);
      Aligned(h - 1);
      Assoc(Pow2(30 - h), Pow2(h - 1), 2 * q + 1);
      Assoc(Pow2(h - 1), Pow2(30 - h), 2 * q + 1);
      MulCancel(Pow2(h - 1), e, Pow2(30 - h) * (2 * q + 1));
      OddMultipleInDomain(h, e, q);
    }
  }
}

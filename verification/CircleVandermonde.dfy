/** Why the circle-Vandermonde matrix can be singular at distinct points.

  In the basis B_(2h+1) = y * L_h(x) every y * prod (x - a_k) with fewer than b / 2
  roots has coefficients, the top one nonzero, so wherever such a product vanishes the
  rows of basis values share a kernel vector. */
module CircleVandermonde {
  import opened Options
  import opened QM31
  import opened CircleBasis
  import opened Determinant
  import opened QDeterminant
  import FiniteSets

  const HALF := Quad(1073741824, 0, 0, 0)

  /** Sum over i < k of c[i] * L_i(x). */
  ghost function Sum(c: Row, x: Quad, k: nat): Quad
    requires k <= |c|
  {
    if k == 0 then ZERO else QAdd(Sum(c, x, k - 1), QMul(c[k - 1], LineBasis(k - 1, x)))
  }

  function Even(c: Row): Row { seq((|c| + 1) / 2, g requires 0 <= g < (|c| + 1) / 2 => c[2 * g]) }

  function Odd(c: Row): Row { seq(|c| / 2, g requires 0 <= g < |c| / 2 => c[2 * g + 1]) }

  /** A combination splits over the doubled coordinate. */
  lemma {:induction false} SumSplit(c: Row, x: Quad, k: nat)
    requires k <= |c|
    ensures Sum(c, x, k)
         == QAdd(Sum(Even(c), QDouble(x), (k + 1) / 2), QMul(x, Sum(Odd(c), QDouble(x), k / 2)))
  {
    hide QAdd, QMul, QDouble, LineBasis;
    var u := QDouble(x);
    if k == 0 {
      QMulZero(x);
      QAddZero(ZERO);
    } else {
      SumSplit(c, x, k - 1);
      var g := (k - 1) / 2;
      var e, o := Sum(Even(c), u, k / 2), Sum(Odd(c), u, (k - 1) / 2);
      if k % 2 == 1 {
        LineBasisEven(g, x);
        assert 2 * g == k - 1;
        Rotate(e, QMul(x, o), QMul(c[k - 1], LineBasis(g, u)));
      } else {
        LineBasisOdd(g, x);
        assert 2 * g + 1 == k - 1;
        OddTerm(e, x, o, c[k - 1], LineBasis(g, u));
      }
    }
  }

  lemma OddTerm(e: Quad, x: Quad, o: Quad, c: Quad, l: Quad)
    ensures QAdd(QAdd(e, QMul(x, o)), QMul(c, QMul(x, l))) == QAdd(e, QMul(x, QAdd(o, QMul(c, l))))
  {
    hide QAdd, QMul;
    QMulAssoc(c, x, l);
    QMulComm(c, x);
    QMulAssoc(x, c, l);
    QMulAdd(x, o, QMul(c, l));
    QAddAssoc(e, QMul(x, o), QMul(x, QMul(c, l)));
  }

  // --------------------------------------------------------------- multiplication by x

  function At(c: Row, i: nat): Quad { if i < |c| then c[i] else ZERO }

  /** Coefficients of x times a combination. */
  ghost function TimesX(c: Row): (r: Row)
    ensures |r| == |c| + 1
    decreases |c|
  {
    if c == [] then [ZERO]
    else
      var z := TimesX(Odd(c));
      seq(|c| + 1, i requires 0 <= i <= |c| =>
        if i % 2 == 1 then c[i - 1] else QMul(HALF, QAdd(At(Odd(c), i / 2), z[i / 2])))
  }

  ghost function Averaged(o: Row, z: Row): (r: Row)
    ensures |r| == |z|
  {
    seq(|z|, g requires 0 <= g < |z| => QMul(HALF, QAdd(At(o, g), z[g])))
  }

  lemma TimesXEntry(c: Row, i: nat)
    requires c != [] && i <= |c|
    ensures |TimesX(Odd(c))| == |c| / 2 + 1
    ensures TimesX(c)[i] == if i % 2 == 1 then c[i - 1] else QMul(HALF, QAdd(At(Odd(c), i / 2), TimesX(Odd(c))[i / 2]))
  {
    hide QAdd, QMul, At;
  }

  lemma TimesXParts(c: Row)
    requires c != []
    ensures Even(TimesX(c)) == Averaged(Odd(c), TimesX(Odd(c)))
    ensures Odd(TimesX(c)) == Even(c)
  {
    hide QAdd, QMul, TimesX, At;
    var r, z := TimesX(c), TimesX(Odd(c));
    assert |Even(r)| == |z| && |Odd(r)| == |Even(c)|;
    forall g | 0 <= g < |z| ensures Even(r)[g] == Averaged(Odd(c), z)[g] {
      TimesXEntry(c, 2 * g);
    }
    forall g | 0 <= g < |Odd(r)| ensures Odd(r)[g] == Even(c)[g] {
      TimesXEntry(c, 2 * g + 1);
    }
  }

  lemma {:induction false} SumAveraged(o: Row, z: Row, u: Quad, k: nat)
    requires k <= |z|
    ensures Sum(Averaged(o, z), u, k)
         == QMul(HALF, QAdd(Sum(o, u, if k <= |o| then k else |o|), Sum(z, u, k)))
  {
    hide QAdd, QMul, LineBasis;
    if k == 0 {
      QMulZero(HALF);
      QAddZero(ZERO);
    } else {
      SumAveraged(o, z, u, k - 1);
      var l := LineBasis(k - 1, u);
      var a, b := Sum(o, u, if k - 1 <= |o| then k - 1 else |o|), Sum(z, u, k - 1);
      var p, q := At(o, k - 1), z[k - 1];
      AverageTerm(a, b, p, q, l);
      if k > |o| {
        QMulZero(l);
        QAddZero(a);
      }
    }
  }

  lemma AverageTerm(a: Quad, b: Quad, p: Quad, q: Quad, l: Quad)
    ensures QAdd(QMul(HALF, QAdd(a, b)), QMul(QMul(HALF, QAdd(p, q)), l))
         == QMul(HALF, QAdd(QAdd(a, QMul(p, l)), QAdd(b, QMul(q, l))))
  {
    hide QAdd, QMul;
    QMulAssoc(HALF, QAdd(p, q), l);
    QMulAdd(l, p, q);
    QMulAdd(HALF, QAdd(a, b), QAdd(QMul(p, l), QMul(q, l)));
    QAddSwap(a, b, QMul(p, l), QMul(q, l));
  }

  lemma HalfTwice()
    ensures QAdd(HALF, HALF) == ONE && HALF != ZERO
  {
  }

  /** (s + (2 x^2 - 1) s) / 2 == x (x s) */
  lemma HalfDouble(x: Quad, s: Quad)
    ensures QMul(HALF, QAdd(s, QMul(QDouble(x), s))) == QMul(x, QMul(x, s))
  {
    hide QAdd, QMul, QSub, QNeg;
    var q := QMul(x, x);
    var t := QAdd(q, q);
    QMulAssoc(x, x, s);
    // s + (t - 1) s == t s
    QSubIsAddNeg(t, ONE);
    QMulAdd(s, t, QNeg(ONE));
    QMulNeg(s, ONE);
    QMulOne(s);
    QAddComm(QMul(t, s), QNeg(s));
    QAddAssoc(s, QNeg(s), QMul(t, s));
    QAddNeg(s);
    QAddZero(QMul(t, s));
    // half (q s + q s) == q s
    QMulAdd(s, q, q);
    var w := QMul(q, s);
    QMulAdd(HALF, w, w);
    QMulAdd(w, HALF, HALF);
    HalfTwice();
    QMulOne(w);
  }

  lemma {:induction false} SumTimesX(c: Row, x: Quad)
    ensures Sum(TimesX(c), x, |c| + 1) == QMul(x, Sum(c, x, |c|))
    decreases |c|
  {
    hide QAdd, QMul, QDouble, LineBasis, TimesX, Even, Odd, Averaged;
    if c == [] {
      EmptyTimesX(x);
      QMulZero(x);
    } else {
      var u, o, e := QDouble(x), Odd(c), Even(c);
      Lengths(c);
      var z := TimesX(o);
      SumTimesX(o, u);
      TimesXParts(c);
      SumSplit(TimesX(c), x, |c| + 1);
      SumSplit(c, x, |c|);
      SumAveraged(o, z, u, |z|);
      var so, se := Sum(o, u, |o|), Sum(e, u, |e|);
      HalfDouble(x, so);
      QMulAdd(x, se, QMul(x, so));
      QAddComm(QMul(x, se), QMul(x, QMul(x, so)));
    }
  }

  lemma Lengths(c: Row)
    ensures |Odd(c)| == |c| / 2 && |Even(c)| == (|c| + 1) / 2
  {
  }

  lemma EmptyTimesX(x: Quad)
    ensures Sum(TimesX([]), x, 1) == ZERO && Sum([], x, 0) == ZERO
  {
    hide QAdd, QMul, LineBasis;
    var c := TimesX([]);
    assert c == [ZERO];
    QMulZero(LineBasis(0, x));
    QAddZero(ZERO);
    assert Sum(c, x, 0) == ZERO;
  }

  lemma {:induction false} TopTimesX(c: Row)
    requires c != [] && c[|c| - 1] != ZERO
    ensures TimesX(c)[|c|] != ZERO
    decreases |c|
  {
    hide QAdd, QMul, TimesX;
    TimesXEntry(c, |c|);
    if |c| % 2 == 0 {
      var o := Odd(c);
      assert o[|o| - 1] == c[|c| - 1];
      TopTimesX(o);
      var z := TimesX(o)[|o|];
      QAddZero(z);
      HalfTwice();
      QNoZeroDivisors(HALF, z);
    }
  }

  // ---------------------------------------------------------- products of linear factors

  /** prod over i < k of (x - roots[i]) */
  ghost function Product(roots: Row, x: Quad, k: nat): Quad
    requires k <= |roots|
  {
    if k == 0 then ONE else QMul(QSub(x, roots[k - 1]), Product(roots, x, k - 1))
  }

  ghost function Coefficients(roots: Row, k: nat): (c: Row)
    requires k <= |roots|
    ensures |c| == k + 1
  {
    if k == 0 then [ONE]
    else
      var c := Coefficients(roots, k - 1);
      QElim(TimesX(c), roots[k - 1], c + [ZERO])
  }

  lemma {:induction false} SumPrefix(c: Row, d: Row, x: Quad, k: nat)
    requires k <= |c| && k <= |d| && c[..k] == d[..k]
    ensures Sum(c, x, k) == Sum(d, x, k)
  {
    hide QAdd, QMul, LineBasis;
    if k > 0 {
      assert c[k - 1] == c[..k][k - 1] == d[..k][k - 1] == d[k - 1];
      assert c[..k - 1] == c[..k][..k - 1] == d[..k - 1];
      SumPrefix(c, d, x, k - 1);
    }
  }

  lemma SumPadded(c: Row, x: Quad)
    ensures Sum(c + [ZERO], x, |c| + 1) == Sum(c, x, |c|)
  {
    hide QAdd, QMul, LineBasis;
    var d := c + [ZERO];
    assert c[..|c|] == d[..|c|];
    SumPrefix(c, d, x, |c|);
    QMulZero(LineBasis(|c|, x));
    QAddZero(Sum(c, x, |c|));
    assert Sum(d, x, |c| + 1) == QAdd(Sum(d, x, |c|), QMul(d[|c|], LineBasis(|c|, x)));
  }

  lemma {:induction false} SumElim(u: Row, f: Quad, w: Row, x: Quad, k: nat)
    requires k <= |u| == |w|
    ensures Sum(QElim(u, f, w), x, k) == QSub(Sum(u, x, k), QMul(f, Sum(w, x, k)))
  {
    hide QAdd, QSub, QMul, LineBasis;
    if k == 0 {
      QMulZero(f);
      QSubZero(ZERO);
    } else {
      SumElim(u, f, w, x, k - 1);
      var l := LineBasis(k - 1, x);
      MulElim(l, u[k - 1], f, w[k - 1]);
      AddElim(Sum(u, x, k - 1), Sum(w, x, k - 1), f, QMul(u[k - 1], l), QMul(w[k - 1], l));
    }
  }

  lemma {:induction false} SumIsProduct(roots: Row, x: Quad, k: nat)
    requires k <= |roots|
    ensures Sum(Coefficients(roots, k), x, k + 1) == Product(roots, x, k)
  {
    hide QAdd, QSub, QMul, LineBasis, Sum, QElim, TimesX;
    if k == 0 {
      SumOne(x);
    } else {
      SumIsProduct(roots, x, k - 1);
      var c := Coefficients(roots, k - 1);
      var a, s := roots[k - 1], Sum(c, x, k);
      SumElim(TimesX(c), a, c + [ZERO], x, k + 1);
      SumTimesX(c, x);
      SumPadded(c, x);
      FactorOut(x, a, s);
    }
  }

  lemma SumOne(x: Quad)
    ensures Sum([ONE], x, 1) == ONE
  {
    hide QAdd, QMul;
    assert Sum([ONE], x, 0) == ZERO;
    assert LineBasis(0, x) == ONE;
    QMulOne(ONE);
    QAddZero(ONE);
  }

  lemma FactorOut(x: Quad, a: Quad, s: Quad)
    ensures QSub(QMul(x, s), QMul(a, s)) == QMul(QSub(x, a), s)
  {
    hide QAdd, QSub, QMul;
    MulElim(s, x, ONE, a);
    QMulOne(a);
    QMulOne(QMul(a, s));
  }

  lemma {:induction false} TopCoefficient(roots: Row, k: nat)
    requires k <= |roots|
    ensures Coefficients(roots, k)[k] != ZERO
  {
    hide QMul, QSub, TimesX;
    if k > 0 {
      TopCoefficient(roots, k - 1);
      var c := Coefficients(roots, k - 1);
      TopTimesX(c);
      QMulZero(roots[k - 1]);
      QSubZero(TimesX(c)[k]);
    }
  }

  lemma {:induction false} ProductVanishes(roots: Row, x: Quad, k: nat, i: nat)
    requires i < k <= |roots| && x == roots[i]
    ensures Product(roots, x, k) == ZERO
  {
    hide QSub, QMul;
    if i == k - 1 {
      QSubSelf(x);
      QMulZero(Product(roots, x, k - 1));
    } else {
      ProductVanishes(roots, x, k - 1, i);
      QMulZero(QSub(x, roots[k - 1]));
    }
  }

  // --------------------------------------------------------------- the kernel vector

  /** Coefficients c placed on the odd basis functions. */
  ghost function Spread(c: Row): (v: Row)
    ensures |v| == 2 * |c|
  {
    seq(2 * |c|, j requires 0 <= j < 2 * |c| => if j % 2 == 1 then c[j / 2] else ZERO)
  }

  ghost predicate BasisValues(row: Row, x: Quad, y: Quad)
  {
    forall j :: 0 <= j < |row| ==> row[j] == Basis(j, x, y)
  }

  lemma {:induction false} DotSpread(row: Row, x: Quad, y: Quad, c: Row, h: nat)
    requires |row| == 2 * |c| && BasisValues(row, x, y) && h <= |c|
    ensures Dot(row, Spread(c), 2 * h) == QMul(y, Sum(c, x, h))
  {
    hide QAdd, QMul, LineBasis;
    var v := Spread(c);
    if h == 0 {
      QMulZero(y);
    } else {
      DotSpread(row, x, y, c, h - 1);
      var l := LineBasis(h - 1, x);
      var d := Dot(row, v, 2 * h - 2);
      assert v[2 * h - 2] == ZERO && v[2 * h - 1] == c[h - 1];
      QMulZero(row[2 * h - 2]);
      QAddZero(d);
      assert Dot(row, v, 2 * h - 1) == d;
      assert row[2 * h - 1] == QMul(y, l);
      QMulAssoc(y, l, c[h - 1]);
      QMulComm(l, c[h - 1]);
      QMulAdd(y, Sum(c, x, h - 1), QMul(c[h - 1], l));
    }
  }

  /** Every row of the matrix sits where y * prod (x - a_k) vanishes. */
  ghost predicate RowsOnZeros(m: Matrix, points: seq<(Quad, Quad)>, roots: Row)
  {
    && |m| == |points|
    && (forall r :: 0 <= r < |m| ==> |m[r]| == |m| && BasisValues(m[r], points[r].0, points[r].1))
    && (forall r :: 0 <= r < |m| ==> QMul(points[r].1, Product(roots, points[r].0, |roots|)) == ZERO)
  }

  /** For every even size: rows of basis values at zeros of y * prod (x - a_k), with
      fewer than b / 2 roots, form a singular matrix. */
  lemma ZerosAreSingular(m: Matrix, points: seq<(Quad, Quad)>, roots: Row)
    requires RowsOnZeros(m, points, roots) && |m| == 2 * (|roots| + 1)
    ensures Singular(m)
  {
    hide QMul, Basis, Product, Coefficients, Sum, Dot;
    var k := |roots|;
    var c := Coefficients(roots, k);
    var v := Spread(c);
    TopCoefficient(roots, k);
    assert v[2 * k + 1] == c[k];
    forall r | 0 <= r < |m| ensures Dot(m[r], v, |v|) == ZERO {
      DotSpread(m[r], points[r].0, points[r].1, c, k + 1);
      SumIsProduct(roots, points[r].0, k);
    }
    assert NonZero(v);
    assert Kills(m, v);
  }

  // ------------------------------------------------------------------ the construction

  predicate OnCircle(p: (Quad, Quad)) { QAdd(QMul(p.0, p.0), QMul(p.1, p.1)) == ONE }

  ghost predicate Distinct(points: seq<(Quad, Quad)>)
  {
    forall i, j :: 0 <= i < j < |points| ==> points[i] != points[j]
  }

  /** Two poles and a conjugate pair over every root. */
  ghost predicate Conjugates(points: seq<(Quad, Quad)>, roots: Row)
  {
    && |points| == 2 * |roots| + 2
    && points[0] == (ONE, ZERO) && points[1] == (QNeg(ONE), ZERO)
    && (forall k :: 0 <= k < |roots| ==>
          points[2 * k + 2].0 == points[2 * k + 3].0 == roots[k] && points[2 * k + 3].1 == QNeg(points[2 * k + 2].1))
  }

  ghost predicate NoPoles(points: seq<(Quad, Quad)>, roots: Row)
    requires Conjugates(points, roots)
  {
    && (forall k :: 0 <= k < |roots| ==> roots[k] != ONE && roots[k] != QNeg(ONE) && points[2 * k + 2].1 != ZERO)
    && (forall i, j :: 0 <= i < j < |roots| ==> roots[i] != roots[j])
  }

  lemma ConjugatesVanish(points: seq<(Quad, Quad)>, roots: Row, r: nat)
    requires Conjugates(points, roots) && r < |points|
    ensures QMul(points[r].1, Product(roots, points[r].0, |roots|)) == ZERO
  {
    hide QMul, Product, QNeg;
    QMulZero(Product(roots, points[r].0, |roots|));
    QMulZero(points[r].1);
    if r >= 2 {
      var k := (r - 2) / 2;
      assert r == 2 * k + 2 || r == 2 * k + 3;
      ProductVanishes(roots, points[r].0, |roots|, k);
    }
  }

  lemma ConjugatesDistinct(points: seq<(Quad, Quad)>, roots: Row)
    requires Conjugates(points, roots) && NoPoles(points, roots)
    ensures Distinct(points)
  {
    hide QNeg;
    PolesDiffer();
    forall i, j | 0 <= i < j < |points| ensures points[i] != points[j] {
      if j >= 2 {
        var l := (j - 2) / 2;
        assert j == 2 * l + 2 || j == 2 * l + 3;
        if i >= 2 {
          var k := (i - 2) / 2;
          assert i == 2 * k + 2 || i == 2 * k + 3;
          if k == l { NegDiffers(points[i].1); }
        }
      }
    }
  }

  lemma PolesDiffer()
    ensures ONE != QNeg(ONE)
  {
  }

  lemma NegDiffers(y: Quad)
    requires y != ZERO
    ensures y != QNeg(y)
  {
    if y == QNeg(y) { SelfNegated(y); }
  }

  lemma PolesOnCircle()
    ensures OnCircle((ONE, ZERO)) && OnCircle((QNeg(ONE), ZERO))
  {
    hide QAdd, QMul, QNeg;
    NegOnCircle(ZERO, ONE);
    QMulOne(ONE);
    QMulZero(ZERO);
    QAddZero(ONE);
    QMulNeg(QNeg(ONE), ONE);
    QMulNeg(ONE, ONE);
    QNegNeg(ONE);
  }

  lemma NegOnCircle(x: Quad, y: Quad)
    ensures OnCircle((x, y)) <==> OnCircle((x, QNeg(y)))
  {
    hide QAdd, QMul, QNeg;
    QMulNeg(QNeg(y), y);
    QMulNeg(y, y);
    QNegNeg(QMul(y, y));
  }

  /** A draw the sampler can use: a point of the circle off the x-axis and off the poles. */
  ghost predicate Acceptable(t: Quad)
  {
    var p := SecurePoint(t);
    p.Some? && p.value.1 != ZERO && p.value.0 != ONE && p.value.0 != QNeg(ONE)
  }

  /** The x-coordinates of the acceptable ones among the first k draws. */
  ghost function Usable(draws: Row, k: nat): set<Quad>
    requires k <= |draws|
  {
    if k == 0 then {}
    else Usable(draws, k - 1) + if Acceptable(draws[k - 1]) then {SecurePoint(draws[k - 1]).value.0} else {}
  }

  lemma UsableNext(draws: Row, k: nat)
    requires k < |draws|
    ensures Usable(draws, k + 1)
         == Usable(draws, k) + if Acceptable(draws[k]) then {SecurePoint(draws[k]).value.0} else {}
  {
    hide Acceptable, SecurePoint;
  }

  lemma {:induction false} UsableGrows(draws: Row, k: nat)
    requires k <= |draws|
    ensures Usable(draws, k) <= Usable(draws, |draws|) && |Usable(draws, k)| <= |Usable(draws, |draws|)|
    decreases |draws| - k
  {
    hide Acceptable, SecurePoint, Usable;
    if k < |draws| {
      UsableNext(draws, k);
      UsableGrows(draws, k + 1);
    }
    FiniteSets.SubsetSize(Usable(draws, k), Usable(draws, |draws|));
  }

  /** The roots collected so far are the usable x-coordinates seen so far, each once. */
  ghost predicate Collected(draws: Row, next: nat, roots: Row)
    requires next <= |draws|
  {
    (forall x :: x in roots <==> x in Usable(draws, next)) && |roots| == |Usable(draws, next)|
  }

  lemma CollectedNext(draws: Row, next: nat, roots: Row)
    requires next < |draws| && Collected(draws, next, roots)
    ensures Acceptable(draws[next]) && SecurePoint(draws[next]).value.0 !in roots ==>
      Collected(draws, next + 1, roots + [SecurePoint(draws[next]).value.0])
    ensures !Acceptable(draws[next]) || SecurePoint(draws[next]).value.0 in roots ==>
      Collected(draws, next + 1, roots)
  {
    hide SecurePoint, Usable;
    UsableNext(draws, next);
    if Acceptable(draws[next]) && SecurePoint(draws[next]).value.0 in roots {
      assert Usable(draws, next + 1) == Usable(draws, next);
    }
  }

  /** Rejection sampling of conjugate pairs from a stream of parameters: whatever the
      draws, the b points are distinct points of the circle and zeros of the product.
      None exactly when the stream holds too few usable x-coordinates. */
  method SingularYq(draws: Row, b: nat) returns (found: Option<(seq<(Quad, Quad)>, Row)>)
    requires b % 2 == 0 && b > 0
    ensures found.None? <==> |Usable(draws, |draws|)| < b / 2 - 1
    ensures found.Some? ==>
      var (points, roots) := found.value;
      && |points| == b && Conjugates(points, roots) && Distinct(points)
      && (forall p :: p in points ==> OnCircle(p))
      && (forall x :: x in roots ==> x in Usable(draws, |draws|))
  {
    hide QMul, QAdd, QNeg, SecurePoint, OnCircle, Usable, Collected;
    var m := b / 2;
    var points: seq<(Quad, Quad)>, roots: Row := [(ONE, ZERO), (QNeg(ONE), ZERO)], [];
    PolesOnCircle();
    NothingCollected(draws);
    var next := 0;
    while |roots| < m - 1
      invariant next <= |draws| && |roots| <= m - 1
      invariant Conjugates(points, roots) && NoPoles(points, roots) && Collected(draws, next, roots)
      invariant forall p :: p in points ==> OnCircle(p)
      decreases |draws| - next
    {
      CollectedSize(draws, next, roots);
      if next == |draws| { return None; }
      var point := SecurePoint(draws[next]);
      SecurePointOnCircle(draws[next]);
      CollectedNext(draws, next, roots);
      next := next + 1;
      if point.None? { continue; }
      var (x, y) := point.value;
      if y == ZERO { continue; }
      if x in roots || x == ONE || x == QNeg(ONE) { continue; }
      PointOnCircle(x, y);
      NegOnCircle(x, y);
      roots := roots + [x];
      points := points + [(x, y), (x, QNeg(y))];
    }
    CollectedSize(draws, next, roots);
    ConjugatesDistinct(points, roots);
    return Some((points, roots));
  }

  lemma NothingCollected(draws: Row)
    ensures Collected(draws, 0, [])
  {
  }

  lemma CollectedSize(draws: Row, next: nat, roots: Row)
    requires next <= |draws| && Collected(draws, next, roots)
    ensures |roots| <= |Usable(draws, |draws|)| && (next == |draws| ==> |roots| == |Usable(draws, |draws|)|)
    ensures forall x :: x in roots ==> x in Usable(draws, |draws|)
  {
    hide Usable;
    UsableGrows(draws, next);
  }

  lemma PointOnCircle(x: Quad, y: Quad)
    requires QAdd(QMul(x, x), QMul(y, y)) == ONE
    ensures OnCircle((x, y))
  {
  }

  /** The circle-Vandermonde determinant at any such configuration is zero. */
  method SingularDeterminant(points: seq<(Quad, Quad)>, ghost roots: Row) returns (det: Quad)
    requires Conjugates(points, roots)
    ensures det == ZERO
  {
    hide QMul, Basis, Product, Singular, Det, Conjugates;
    var matrix: Matrix := [];
    ConjugateCount(points, roots);
    for r := 0 to |points|
      invariant |matrix| == r
      invariant forall i :: 0 <= i < r ==> |matrix[i]| == |points| && BasisValues(matrix[i], points[i].0, points[i].1)
    {
      var row := BasisRow(points[r].0, points[r].1, |points|);
      matrix := matrix + [row];
    }
    forall r | 0 <= r < |points| ensures QMul(points[r].1, Product(roots, points[r].0, |roots|)) == ZERO {
      ConjugatesVanish(points, roots, r);
    }
    ZerosAreSingular(matrix, points, roots);
    det := Qdet(matrix);
  }

  lemma ConjugateCount(points: seq<(Quad, Quad)>, roots: Row)
    requires Conjugates(points, roots)
    ensures |points| == 2 * (|roots| + 1)
  {
  }
}

/** What fixes the mask factors of the sumcheck: the tower basis they are multiplied by, the
    linear form they are powers of, and their values at the zero point. */
module MaskFactor {
  import opened M31
  import opened GaussianTower
  import opened QM31
  import opened Determinant
  import opened QPoly
  import opened Sumcheck

  // ------------------------------------------------------------------ the tower basis

  /** The M31 combination of the four tower elements. */
  function Combination(a: Elem, b: Elem, c: Elem, d: Elem): Quad
  {
    QAdd(QAdd(QScale(Tower(0), a), QScale(Tower(1), b)), QAdd(QScale(Tower(2), c), QScale(Tower(3), d)))
  }

  lemma ScaleTower(s: Elem)
    ensures QScale(Tower(0), s) == Quad(s, 0, 0, 0) && QScale(Tower(1), s) == Quad(0, s, 0, 0)
    ensures QScale(Tower(2), s) == Quad(0, 0, s, 0) && QScale(Tower(3), s) == Quad(0, 0, 0, s)
  {
    assert 0 * s == 0 && 1 * s == s;
  }

  lemma CombinationIs(a: Elem, b: Elem, c: Elem, d: Elem)
    ensures Combination(a, b, c, d) == Quad(a, b, c, d)
  {
    hide QScale, Tower;
    ScaleTower(a);
    ScaleTower(b);
    ScaleTower(c);
    ScaleTower(d);
  }

  /** Every QM31 element is exactly one combination of the tower elements. */
  lemma TowerBasis(x: Quad)
    ensures exists a, b, c, d :: Combination(a, b, c, d) == x
    ensures forall a, b, c, d, e, f, g, h ::
      Combination(a, b, c, d) == x && Combination(e, f, g, h) == x ==> a == e && b == f && c == g && d == h
  {
    hide Combination;
    forall a, b, c, d ensures Combination(a, b, c, d) == Quad(a, b, c, d) { CombinationIs(a, b, c, d); }
    assert Combination(x.a, x.b, x.c, x.d) == x;
  }

  lemma TowerProduct(x: Quad, y: Quad, z: L)
    requires LMul(Up(x), Up(y)) == z
    ensures QMul(x, y) == Red(z)
  {
    hide QMul, LMul, Up, Red;
    MulIsSchoolbook(x, y);
  }

  lemma LiftHigh(x: G, y: G)
    ensures LMul(L(G(0, 0), x), L(G(0, 0), y)) == L(GTwist(GMul(x, y)), G(0, 0))
  {
    hide GMul;
    GMulZero(x);
    GMulZero(y);
    GMulZero(G(0, 0));
  }

  lemma LiftCross(x: G, y: G)
    ensures LMul(L(x, G(0, 0)), L(G(0, 0), y)) == L(G(0, 0), GMul(x, y))
  {
    hide GMul;
    GMulZero(x);
    GMulZero(y);
    GMulZero(G(0, 0));
  }

  lemma GMulOne(x: G)
    ensures GMul(x, G(1, 0)) == x
  {
  }

  lemma GImaginary(i: G)
    requires i == G(0, 1)
    ensures GMul(i, i) == G(-1, 0)
  {
  }

  lemma TowerLifts(one: G, i: G)
    requires one == G(1, 0) && i == G(0, 1)
    ensures LMul(L(i, G(0, 0)), L(i, G(0, 0))) == L(G(-1, 0), G(0, 0))
    ensures LMul(L(G(0, 0), one), L(G(0, 0), one)) == L(G(2, 1), G(0, 0))
    ensures LMul(L(i, G(0, 0)), L(G(0, 0), one)) == L(G(0, 0), i)
  {
    hide GMul, LMul;
    GImaginary(i);
    LMulBase(i, i);
    GMulOne(one);
    LiftHigh(one, one);
    GMulOne(i);
    LiftCross(i, one);
  }

  /** The basis is 1, i, u, iu with i^2 = -1 and u^2 = 2 + i. */
  lemma TowerLaws(one: Quad, x: Quad, y: Quad)
    requires one == Tower(0) && x == Tower(1) && y == Tower(2)
    ensures one == ONE
    ensures QAdd(QMul(x, x), ONE) == ZERO
    ensures QMul(y, y) == QAdd(QAdd(ONE, ONE), x)
    ensures QMul(x, y) == Tower(3)
  {
    hide QMul, QAdd, Red, LMul;
    TowerLifts(G(1, 0), G(0, 1));
    TowerSums();
    TowerProduct(x, x, L(G(-1, 0), G(0, 0)));
    TowerProduct(y, y, L(G(2, 1), G(0, 0)));
    TowerProduct(x, y, L(G(0, 0), G(0, 1)));
  }

  lemma TowerSums()
    ensures QAdd(Red(L(G(-1, 0), G(0, 0))), ONE) == ZERO
    ensures Red(L(G(2, 1), G(0, 0))) == QAdd(QAdd(ONE, ONE), Tower(1))
    ensures Red(L(G(0, 0), G(0, 1))) == Tower(3)
  {
  }

  // ------------------------------------------------------------------- the linear form

  /** The linear form is additive in the point. */
  lemma {:induction false} LinearPlus(p: Row, q: Row, family: nat, k: nat)
    requires k <= |p| == |q|
    ensures LinearTo(Plus(p, q), family, k) == QAdd(LinearTo(p, family, k), LinearTo(q, family, k))
  {
    hide QAdd, QScale, Scalar;
    if k == 0 {
      QAddZero(ZERO);
    } else {
      LinearPlus(p, q, family, k - 1);
      var s := Scalar(family, k - 1);
      ScaleOf(QAdd(p[k - 1], q[k - 1]), s);
      ScaleOf(p[k - 1], s);
      ScaleOf(q[k - 1], s);
      QMulAdd(Embed(s), p[k - 1], q[k - 1]);
      QAddSwap(LinearTo(p, family, k - 1), LinearTo(q, family, k - 1), QScale(p[k - 1], s), QScale(q[k - 1], s));
    }
  }

  lemma ScaleOf(x: Quad, s: Elem)
    ensures QScale(x, s) == QMul(Embed(s), x)
  {
    ScaleIsMul(x, s);
  }

  /** The linear form is homogeneous in the point. */
  lemma {:induction false} LinearScaled(t: Quad, p: Row, family: nat, k: nat)
    requires k <= |p|
    ensures LinearTo(Scaled(t, p), family, k) == QMul(t, LinearTo(p, family, k))
  {
    hide QAdd, QScale, QMul, Scalar;
    if k == 0 {
      QMulZero(t);
    } else {
      LinearScaled(t, p, family, k - 1);
      var s := Scalar(family, k - 1);
      ScaleOf(QMul(t, p[k - 1]), s);
      ScaleOf(p[k - 1], s);
      QMulAssoc(Embed(s), t, p[k - 1]);
      QMulComm(Embed(s), t);
      QMulAssoc(t, Embed(s), p[k - 1]);
      QMulAdd(t, LinearTo(p, family, k - 1), QScale(p[k - 1], s));
    }
  }

  function UnitPoint(n: nat, c: nat): (p: Row)
    ensures |p| == n
  {
    seq(n, i => if i == c then ONE else ZERO)
  }

  lemma {:induction false} LinearUnitTo(n: nat, c: nat, family: nat, k: nat)
    requires k <= n
    ensures LinearTo(UnitPoint(n, c), family, k) == if c < k then Embed(Scalar(family, c)) else ZERO
  {
    hide QAdd, QScale, QMul, Scalar;
    if k > 0 {
      LinearUnitTo(n, c, family, k - 1);
      var s := Scalar(family, k - 1);
      ScaleOf(UnitPoint(n, c)[k - 1], s);
      QMulOne(Embed(s));
      QMulZero(Embed(s));
      QAddZero(Embed(s));
      QAddZero(Embed(Scalar(family, c)));
      QAddZero(ZERO);
    }
  }

  /** At the c-th unit point the form starts at 3 + 17 * family and grows by 22 + 8 * family per coordinate. */
  lemma LinearUnit(n: nat, c: nat, family: nat)
    requires c < n
    ensures LinearTo(UnitPoint(n, c), family, n) == Embed(Mod((3 + 17 * family) + c * (22 + 8 * family)))
  {
    hide Scalar;
    LinearUnitTo(n, c, family, n);
    ScalarValue(family, c);
  }

  lemma ScalarValue(family: nat, c: nat)
    ensures Scalar(family, c) == Mod((3 + 17 * family) + c * (22 + 8 * family))
  {
    assert family * (17 + 8 * c) == 17 * family + 8 * (family * c);
    assert c * (22 + 8 * family) == 22 * c + 8 * (c * family);
  }

  // ------------------------------------------------------------------------ the factor

  /** The explicit factor is one plus the plain factor of the same family and exponent. */
  lemma ExplicitFactor(p: Row, family: nat, exp: nat, tower: nat)
    ensures Factor(p, Spec(family, exp, tower, true)) == QAdd(ONE, Factor(p, Spec(family, exp, 0, false)))
  {
    hide QAdd, QMul, LinearTo;
    QMulOne(QPow(LinearTo(p, family, |p|), exp));
  }

  /** A plain factor is its tower element times the one over the first tower element. */
  lemma TowerFactor(p: Row, family: nat, exp: nat, tower: nat)
    ensures Factor(p, Spec(family, exp, tower, false))
         == QMul(Factor(p, Spec(family, exp, 0, false)), Tower(tower))
  {
    hide QAdd, QMul, LinearTo;
    QMulOne(QPow(LinearTo(p, family, |p|), exp));
  }

  lemma {:induction false} PowerAdds(x: Quad, e: nat, f: nat)
    ensures QPow(x, e + f) == QMul(QPow(x, e), QPow(x, f))
  {
    hide QMul;
    if e == 0 {
      QMulOne(QPow(x, f));
    } else {
      PowerAdds(x, e - 1, f);
      QMulAssoc(x, QPow(x, e - 1), QPow(x, f));
    }
  }

  /** Plain factors of one family multiply by adding exponents. */
  lemma FactorsMultiply(p: Row, family: nat, e: nat, f: nat)
    ensures Factor(p, Spec(family, e + f, 0, false))
         == QMul(Factor(p, Spec(family, e, 0, false)), Factor(p, Spec(family, f, 0, false)))
  {
    hide QMul, LinearTo, QPow;
    var l := LinearTo(p, family, |p|);
    PowerAdds(l, e, f);
    QMulOne(QPow(l, e));
    QMulOne(QPow(l, f));
    QMulOne(QPow(l, e + f));
  }

  /** The plain factor of exponent one is the linear form times its tower element. */
  lemma FirstPower(p: Row, family: nat, tower: nat)
    ensures Factor(p, Spec(family, 1, tower, false)) == QMul(LinearTo(p, family, |p|), Tower(tower))
  {
    hide QMul, LinearTo, Tower;
    var l := LinearTo(p, family, |p|);
    assert QPow(l, 1) == QMul(l, QPow(l, 0));
    QMulOne(l);
  }

  lemma {:induction false} LinearZero(p: Row, family: nat, k: nat)
    requires k <= |p| && forall c :: 0 <= c < k ==> p[c] == ZERO
    ensures LinearTo(p, family, k) == ZERO
  {
    hide QAdd, QScale, QMul, Scalar;
    if k > 0 {
      LinearZero(p, family, k - 1);
      ScaleOf(ZERO, Scalar(family, k - 1));
      QMulZero(Embed(Scalar(family, k - 1)));
      QAddZero(ZERO);
    }
  }

  /** At the zero point the explicit factor is one and every plain factor vanishes. */
  lemma FactorAtZero(p: Row, spec: Spec)
    requires spec.exp > 0 && forall c :: 0 <= c < |p| ==> p[c] == ZERO
    ensures Factor(p, spec) == if spec.addOne then ONE else ZERO
  {
    hide QAdd, QMul, LinearTo, Tower;
    LinearZero(p, spec.family, |p|);
    QMulZero(QPow(ZERO, spec.exp - 1));
    QMulZero(Tower(spec.tower));
    QAddZero(ONE);
  }
}

/** The vanishing function at secure-field points: among all points of the circle over QM31, Z_H
    is zero exactly on H.

  Z_H is a polynomial of degree 2^(h-1) in x with 2^(h-1) different roots, the x-coordinates of H,
  so it has no others; and over each root the circle has just the two conjugate points of H. */
module CircleVanishing {
  import opened M31
  import opened QM31
  import opened Bits
  import opened Determinant
  import opened QPoly
  import opened Lagrange
  import opened NaturalBasis
  import CB = CircleBasis
  import Circle
  import opened CircleDomain
  import opened CircleTables
  import BasisChange

  /** `ZH_q`: iterated doubling in QM31, the collapse value 0 subtracted. */
  function ZHq(h: nat, x: Quad): Quad
    requires h >= 1
  {
    QSub(CB.Phi(h - 1, x), Embed(0))
  }

  lemma ZHqIsPhi(h: nat, x: Quad)
    requires h >= 1
    ensures ZHq(h, x) == CB.Phi(h - 1, x)
  {
    hide QSub, CB.Phi;
    QSubZero(CB.Phi(h - 1, x));
  }

  /** Doubling commutes with the embedding of M31. */
  lemma {:induction false} PhiEmbed(k: nat, x: Elem)
    ensures CB.Phi(k, Embed(x)) == Embed(DoubleIter(k, x))
  {
    hide CB.QDouble, DoubleX, Embed;
    if k > 0 {
      PhiEmbed(k - 1, x);
      CB.EmbedDouble(DoubleIter(k - 1, x));
    }
  }

  /** The coefficients of the k-fold doubling. */
  lemma {:induction false} FactorExists(k: nat) returns (p: Poly)
    ensures IsFactor(p, k)
  {
    hide IsFactor;
    if k == 0 {
      FirstFactor();
      p := [0, 1];
    } else {
      var f := FactorExists(k - 1);
      FactorLength(f, k - 1);
      FactorStep(f, k - 1);
      p := NextFactor(f);
    }
  }

  /** The 2^k line coordinates, all roots and all different. */
  ghost function Roots(k: nat): (xs: Row)
    requires k <= 29
    ensures |xs| == Pow2(k)
  {
    seq(Pow2(k), i requires 0 <= i < Pow2(k) => Embed(LineX(k, i)))
  }

  lemma RootsVanish(k: nat, i: nat)
    requires k <= 29 && i < Pow2(k)
    ensures CB.Phi(k, Roots(k)[i]) == ZERO
  {
    hide CB.Phi, LineX, DoubleIter, Pow2;
    PhiEmbed(k, LineX(k, i));
    var j := DoubleIterLine(k, k, i);
    LineXRoot(j);
  }

  lemma RootsDistinct(k: nat)
    requires k <= 29
    ensures DistinctPoints(Roots(k))
  {
    hide LineX, Embed, Pow2;
    forall i, j | 0 <= i < j < Pow2(k) ensures Roots(k)[i] != Roots(k)[j] {
      LineXDistinct(k, i, j);
      EmbedInjective(LineX(k, i), LineX(k, j));
    }
  }

  lemma FactorLeads(p: Poly, k: nat)
    requires IsFactor(p, k)
    ensures |p| == Pow2(k) + 1 && EmbedRow(p)[Pow2(k)] != ZERO
  {
    hide Pow, At, Pow2;
    BasisChange.PowerNonzero(Pow2(k) - 1);
  }

  lemma FactorValue(p: Poly, k: nat, x: Quad)
    requires IsFactor(p, k)
    ensures Eval(EmbedRow(p), x) == CB.Phi(k, x)
  {
    hide Eval, CB.Phi, Pow2;
    assert At(p, x) == CB.Phi(k, x);
  }

  /** No other root: the k-fold doubling vanishes only at line coordinates. */
  lemma OnlyRoots(k: nat, x: Quad)
    requires k <= 29 && CB.Phi(k, x) == ZERO
    ensures x in Roots(k)
  {
    hide CB.Phi, IsFactor, Roots, Eval, Pow2;
    if x !in Roots(k) {
      var p := FactorExists(k);
      FactorLeads(p, k);
      var xs := Roots(k) + [x];
      RootsDistinct(k);
      forall i | 0 <= i < |xs| ensures Eval(EmbedRow(p), xs[i]) == ZERO {
        FactorValue(p, k, xs[i]);
        if i < Pow2(k) { RootsVanish(k, i); }
      }
      ManyRoots(EmbedRow(p), xs);
    }
  }

  /** (x, y) is the stored point i of H, in QM31. */
  ghost predicate IsPoint(h: nat, i: nat, x: Quad, y: Quad)
    requires 1 <= h <= 30
  {
    var p := CirclePoint(h, i);
    x == Embed(p.x) && y == Embed(p.y)
  }

  ghost predicate InH(h: nat, x: Quad, y: Quad)
    requires 1 <= h <= 30
  {
    exists i: nat :: i < Pow2(h) && IsPoint(h, i, x, y)
  }

  lemma EmbedCircle(p: Circle.Point)
    requires Circle.OnCircle(p)
    ensures QAdd(QMul(Embed(p.x), Embed(p.x)), QMul(Embed(p.y), Embed(p.y))) == ONE
  {
    hide QMul, QAdd, Embed, Mul, Add;
    EmbedMul(p.x, p.x);
    EmbedMul(p.y, p.y);
    EmbedAdd(Mul(p.x, p.x), Mul(p.y, p.y));
    CircleSum(p);
    EmbedZeroOne();
  }

  lemma CircleSum(p: Circle.Point)
    requires Circle.OnCircle(p)
    ensures Add(Mul(p.x, p.x), Mul(p.y, p.y)) == 1
  {
    ModAdd(p.x * p.x, p.y * p.y);
  }

  /** Over one x the circle has at most two points, which are conjugate. */
  lemma TwoOver(x: Quad, y: Quad, z: Quad)
    requires QAdd(QMul(x, x), QMul(y, y)) == ONE && QAdd(QMul(x, x), QMul(z, z)) == ONE
    ensures y == z || y == QNeg(z)
  {
    hide QMul, QAdd, QNeg, QSub;
    var s, t := QMul(y, y), QMul(z, z);
    DropCommon(QMul(x, x), s, t);
    QSubSelf(ONE);
    QSubZeroOnly(s, t);
    // (y - z)(y + z) == y y - z z == 0
    Squares(y, z);
    QSubSelf(s);
    QNoZeroDivisors(QSub(y, z), QAdd(y, z));
    if QSub(y, z) == ZERO {
      QSubZeroOnly(y, z);
    } else {
      QAddComm(y, z);
      QNegUnique(z, y);
    }
  }

  lemma Squares(y: Quad, z: Quad)
    ensures QMul(QSub(y, z), QAdd(y, z)) == QSub(QMul(y, y), QMul(z, z))
  {
    hide QMul, QAdd, QNeg, QSub;
    var s := QAdd(y, z);
    MulElim(s, y, ONE, z);
    QMulOne(z);
    QMulOne(QMul(z, s));
    QMulAdd(y, y, z);
    QMulAdd(z, y, z);
    QMulComm(y, z);
    var c := QMul(z, y);
    QAddComm(QMul(y, y), c);
    DropCommon(c, QMul(y, y), QMul(z, z));
  }

  lemma EvenPointOnCircle(h: nat, i: nat)
    requires 1 <= h <= 30
    ensures Circle.OnCircle(CirclePoint(h, 2 * i))
  {
    hide Circle.CPow, CirclePoint, BitReverse, Exponent, Circle.OnCircle;
    CirclePointEven(h, i);
    GroupOnCircle(Exponent(h - 1, BitReverse(i, h - 1)));
  }

  lemma EmbedNeg(a: Elem)
    ensures Embed(Neg(a)) == QNeg(Embed(a))
  {
  }

  /** Over a root lie two points of H. */
  lemma PointsOverRoot(h: nat, i: nat, x: Quad, y: Quad)
    requires 1 <= h <= 30 && i < Pow2(h - 1) && x == Embed(LineX(h - 1, i))
    requires QAdd(QMul(x, x), QMul(y, y)) == ONE
    ensures InH(h, x, y)
  {
    hide QMul, QAdd, QNeg, Embed, CirclePoint, LineX, Circle.OnCircle, Pow2, Neg;
    var p := CirclePoint(h, 2 * i);
    CirclePointX(h, 2 * i);
    CirclePointOdd(h, i);
    EvenPointOnCircle(h, i);
    EmbedCircle(p);
    TwoOver(x, y, Embed(p.y));
    EmbedNeg(p.y);
    Pow2Succ(h - 1);
    if y == Embed(p.y) {
      assert IsPoint(h, 2 * i, x, y);
    } else {
      assert IsPoint(h, 2 * i + 1, x, y);
    }
  }

  /** At every QM31 point of the circle, Z_H is zero exactly when the point lies in H. */
  lemma VanishesExactlyOnH(h: nat, x: Quad, y: Quad)
    requires 1 <= h <= 30 && QAdd(QMul(x, x), QMul(y, y)) == ONE
    ensures ZHq(h, x) == ZERO <==> InH(h, x, y)
  {
    hide QMul, QAdd, Embed, CirclePoint, LineX, Pow2, CB.Phi, ZHq, VanishingH;
    ZHqIsPhi(h, x);
    if ZHq(h, x) == ZERO {
      OnlyRoots(h - 1, x);
      var i :| 0 <= i < |Roots(h - 1)| && Roots(h - 1)[i] == x;
      PointsOverRoot(h, i, x, y);
    }
    if InH(h, x, y) {
      var i: nat :| i < Pow2(h) && IsPoint(h, i, x, y);
      VanishesAt(h, i);
    }
  }

  lemma VanishesAt(h: nat, i: nat)
    requires 1 <= h <= 30
    ensures CB.Phi(h - 1, Embed(CirclePoint(h, i).x)) == ZERO
  {
    hide CirclePoint, CB.Phi, DoubleIter;
    VanishesOnDomain(h, i);
    PhiEmbed(h - 1, CirclePoint(h, i).x);
  }
}

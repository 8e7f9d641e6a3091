/** The generator has order exactly 2^31, and what that gives the domains: distinct
    fiber roots, nonzero denominators, and the vanishing function of a domain. */
module CircleOrder {
  import opened M31
  import F = M31Field
  import opened Bits
  import opened Nonlinear
  import opened Circle
  import opened CircleDomain

  const ORDER := 0x8000_0000
  const HALF_ORDER := 0x4000_0000
  const QUARTER := 0x2000_0000

  // ------------------------------------------------------------- which generator it is

  lemma ProductOf(a: int, b: int, x: Elem, y: Elem)
    requires x == a % P && y == b % P
    ensures Mul(x, y) == (a * b) % P
  {
    ModMul(a, b);
  }

  lemma SumTimesDifference(y: int, g: int)
    ensures (y + g) * (y - g) == y * y - g * g
  {
  }

  lemma EqualSquares(y: Elem, g: Elem)
    requires Mod(y * y) == Mod(g * g)
    ensures Mul(Add(y, g), Sub(y, g)) == 0
  {
    hide Mul;
    ProductOf(y + g, y - g, Add(y, g), Sub(y, g));
    SumTimesDifference(y, g);
    ZeroDifference(y * y, g * g);
  }

  lemma ZeroDifference(s: int, t: int)
    requires Mod(s) == Mod(t)
    ensures (s - t) % P == 0
  {
    ModSub(s, t);
  }

  lemma Residue(x: int)
    ensures Mod(x) == x % P
  {
  }

  /** The generator is the point over x = 2 whose y is the larger square root of -3. */
  lemma GeneratorIs(y: Elem)
    ensures GENERATOR.x == 2
    ensures y == GENERATOR.y <==> Mod(y * y) == P - 3 && 2 * y > P
  {
    hide Mod, Mul;
    assert Mod(GENERATOR.y * GENERATOR.y) == P - 3 by { Residue(1268011823 * 1268011823); }
    if Mod(y * y) == P - 3 && 2 * y > P {
      EqualSquares(y, GENERATOR.y);
      F.NoZeroDivisors(Add(y, GENERATOR.y), Sub(y, GENERATOR.y));
    }
  }

  // --------------------------------------------------------------- the exact order

  lemma {:induction false} HalfTurnPower(m: nat)
    ensures GroupPoint(HALF_ORDER * m) == if m % 2 == 0 then IDENTITY else Point(P - 1, 0)
  {
    hide CPow, CAdd;
    if m == 0 {
      CPowZero(GENERATOR);
    } else {
      HalfTurnPower(m - 1);
      HalfTurn(HALF_ORDER * (m - 1));
    }
  }

  lemma {:induction false} OrderStep(e: nat, k: nat)
    requires k <= 31 && GroupPoint(e) == IDENTITY
    ensures e % Pow2(k) == 0
  {
    hide CPow, CAdd, Pow2;
    if k == 0 {
      Pow2Values();
      DivModUnique(e, 1, e, 0);
    } else {
      OrderStep(e, k - 1);
      var m := e / Pow2(k - 1);
      assert e == Pow2(k - 1) * m;
      CPowMul(GENERATOR, e, Pow2(31 - k));
      IdentityPower(Pow2(31 - k));
      ExponentAlign(e, k, m);
      HalfTurnPower(m);
      Pow2Succ(k - 1);
      assert m == 2 * (m / 2);
      Assoc(Pow2(k - 1), 2, m / 2);
      MultipleMod(Pow2(k), m / 2);
    }
  }

  lemma Pow2Values()
    ensures Pow2(0) == 1 && Pow2(29) == QUARTER && Pow2(30) == HALF_ORDER && Pow2(31) == ORDER
  {
    BigPowers();
  }

  lemma ExponentAlign(e: nat, k: nat, m: nat)
    requires 1 <= k <= 31 && e == Pow2(k - 1) * m
    ensures e * Pow2(31 - k) == HALF_ORDER * m
  {
    hide Pow2;
    Pow2Values();
    var a := 31 - k;
    Pow2Add(a, k - 1);
    assert a + (k - 1) == 30;
    Assoc(Pow2(a), Pow2(k - 1), m);
  }

  lemma {:induction false} IdentityPower(n: nat)
    ensures CPow(IDENTITY, n) == IDENTITY
  {
    hide CAdd;
    if n > 0 {
      IdentityPower(n - 1);
      CAddIdentity(IDENTITY);
    }
  }

  /** The order of the generator is exactly 2^31. */
  lemma ExactOrder(e: nat)
    ensures GroupPoint(e) == IDENTITY <==> e % ORDER == 0
  {
    hide CPow, CAdd;
    if GroupPoint(e) == IDENTITY {
      OrderStep(e, 31);
      Pow2Values();
    }
    if e % ORDER == 0 {
      var m := e / ORDER;
      HalfTurnPower(2 * m);
    }
  }

  lemma GroupPointInjective(a: nat, b: nat)
    requires a <= b < ORDER && GroupPoint(a) == GroupPoint(b)
    ensures a == b
  {
    hide CPow, CAdd, Conj;
    var d := b - a;
    CPowAdd(GENERATOR, a, d);
    GroupOnCircle(a);
    var p := GroupPoint(a);
    ConjInverse(p);
    CAddComm(p, Conj(p));
    CAddAssoc(Conj(p), p, GroupPoint(d));
    CAddIdentity(GroupPoint(d));
    ExactOrder(d);
  }

  // ------------------------------------------------------------ zeros of coordinates

  lemma UnitFactors(x: Elem)
    requires Mul(x, x) == 1
    ensures Mul(Mod(x - 1), Mod(x + 1)) == 0
  {
    hide Mul, Mod;
    ProductOfResidues(x - 1, x + 1);
    DifferenceOfSquares(x, 1);
    OneLess(x);
  }

  lemma OneLess(x: Elem)
    requires Mul(x, x) == 1
    ensures Mod(x * x - 1 * 1) == 0
  {
    var s := x * x;
    ModSub(s, 1);
  }

  lemma UnitSquare(x: Elem)
    requires Mul(x, x) == 1
    ensures x == 1 || x == P - 1
  {
    hide Mul, Mod, Neg;
    UnitFactors(x);
    F.NoZeroDivisors(Mod(x - 1), Mod(x + 1));
    EqualOrOpposite(x, 1);
    NegOne();
  }

  lemma HalfOrders(e: nat)
    ensures e % ORDER == 0 || (e + HALF_ORDER) % ORDER == 0 ==> e % HALF_ORDER == 0
  {
  }

  lemma AxisPoint(e: nat)
    requires GroupPoint(e).y == 0
    ensures GroupPoint(e) == IDENTITY || GroupPoint(e + HALF_ORDER) == IDENTITY
  {
    hide CPow, CAdd, Mul;
    var p := GroupPoint(e);
    GroupOnCircle(e);
    SquareOnAxis(p);
    UnitSquare(p.x);
    if p.x != 1 { HalfTurn(e); }
  }

  /** A point of the group has y = 0 exactly at the identity and the half turn. */
  lemma YZero(e: nat)
    ensures GroupPoint(e).y == 0 <==> e % HALF_ORDER == 0
  {
    hide CPow, CAdd, Mul, GroupPoint;
    if GroupPoint(e).y == 0 {
      AxisPoint(e);
      ExactOrder(e);
      ExactOrder(e + HALF_ORDER);
      HalfOrders(e);
    }
    if e % HALF_ORDER == 0 {
      HalfTurnPower(e / HALF_ORDER);
    }
  }

  lemma SquareOnAxis(p: Point)
    requires OnCircle(p) && p.y == 0
    ensures Mul(p.x, p.x) == 1
  {
  }

  lemma XZero(e: nat)
    ensures GroupPoint(e).x == 0 <==> e % HALF_ORDER == QUARTER
  {
    hide CPow, CAdd;
    QuarterTurnPoint(e);
    YZero(e + QUARTER);
  }

  /** Two group points share an x-coordinate only if equal or conjugate. */
  lemma SameX(a: nat, b: nat)
    requires GroupPoint(a).x == GroupPoint(b).x
    ensures GroupPoint(a) == GroupPoint(b) || GroupPoint(a) == Conj(GroupPoint(b))
  {
    hide CPow, CAdd;
    GroupOnCircle(a);
    GroupOnCircle(b);
    SameSquare(GroupPoint(a), GroupPoint(b));
  }

  lemma DifferenceOfSquares(a: int, b: int)
    ensures (a - b) * (a + b) == a * a - b * b
  {
  }

  lemma SquareDifference(p: Point, q: Point)
    requires OnCircle(p) && OnCircle(q) && p.x == q.x
    ensures Mul(Mod(p.y - q.y), Mod(p.y + q.y)) == 0
  {
    hide OnCircle, Mul, Mod;
    ProductOfResidues(p.y - q.y, p.y + q.y);
    DifferenceOfSquares(p.y, q.y);
    SameNorm(p.x, p.y, q.y, p, q);
  }

  lemma ProductOfResidues(a: int, b: int)
    ensures Mul(Mod(a), Mod(b)) == Mod(a * b)
  {
    ModMul(a, b);
  }

  lemma SameNorm(x: Elem, y: Elem, z: Elem, p: Point, q: Point)
    requires OnCircle(p) && OnCircle(q) && p == Point(x, y) && q == Point(x, z)
    ensures Mod(y * y - z * z) == 0
  {
    var n, m, k := x * x, y * y, z * z;
    ModSub(n + m, n + k);
    assert (n + m) - (n + k) == m - k;
  }

  lemma EqualOrOpposite(a: Elem, b: Elem)
    requires Mod(a - b) == 0 || Mod(a + b) == 0
    ensures a == b || a == Neg(b)
  {
  }

  lemma SameSquare(p: Point, q: Point)
    requires OnCircle(p) && OnCircle(q) && p.x == q.x
    ensures p == q || p == Conj(q)
  {
    hide Mul, Mod, OnCircle, Neg;
    SquareDifference(p, q);
    F.NoZeroDivisors(Mod(p.y - q.y), Mod(p.y + q.y));
    EqualOrOpposite(p.y, q.y);
  }

  lemma ConjPoint(e: nat)
    requires e <= ORDER
    ensures Conj(GroupPoint(e)) == GroupPoint(ORDER - e)
  {
    hide CPow, CAdd, Conj;
    var p, q := GroupPoint(e), GroupPoint(ORDER - e);
    CPowAdd(GENERATOR, e, ORDER - e);
    ExactOrder(ORDER);
    GroupOnCircle(e);
    ConjInverse(p);
    CAddComm(p, Conj(p));
    CAddAssoc(Conj(p), p, q);
    CAddIdentity(q);
    CAddIdentity(Conj(p));
  }

  lemma SameXExponents(a: nat, b: nat)
    requires a < ORDER && b < ORDER && GroupPoint(a).x == GroupPoint(b).x
    ensures a == b || a + b == ORDER || a + b == 0
  {
    hide CPow, CAdd, Conj;
    SameX(a, b);
    ConjPoint(b);
    if GroupPoint(a) == GroupPoint(b) {
      if a <= b { GroupPointInjective(a, b); } else { GroupPointInjective(b, a); }
    } else if b == 0 {
      ExactOrder(a);
      ExactOrder(ORDER);
    } else {
      var c := ORDER - b;
      if a <= c { GroupPointInjective(a, c); } else { GroupPointInjective(c, a); }
    }
  }
}

/** The circle group x^2 + y^2 = 1 over M31, its generator of order 2^31, and
    the stored (bit-reversed) order of its domains. */
module Circle {
  import opened M31
  import opened Nonlinear
  import Q = QM31

  datatype Point = Point(x: Elem, y: Elem)

  const GENERATOR := Point(2, 1268011823)
  const IDENTITY := Point(1, 0)

  function CAdd(a: Point, b: Point): Point
  {
    Point(Mod(a.x * b.x - a.y * b.y), Mod(a.x * b.y + a.y * b.x))
  }

  function Conj(a: Point): Point { Point(a.x, Neg(a.y)) }

  function Negate(a: Point): Point { Point(Neg(a.x), Neg(a.y)) }

  function CPow(p: Point, e: nat): Point
  {
    if e == 0 then IDENTITY else CAdd(p, CPow(p, e - 1))
  }

  predicate OnCircle(p: Point) { Mod(p.x * p.x + p.y * p.y) == 1 }

  // --------------------------------------- group laws, inherited from the field tower

  function Tower(p: Point): Q.Quad { Q.Quad(p.x, p.y, 0, 0) }

  lemma CAddIsMul(a: Point, b: Point)
    ensures Q.QMul(Tower(a), Tower(b)) == Tower(CAdd(a, b))
  {
    hide Mod, Q.QMul, Q.GaussianTower.LMul;
    Q.MulIsSchoolbook(Tower(a), Tower(b));
    Q.GaussianTower.LMulBase(Q.GaussianTower.G(a.x, a.y), Q.GaussianTower.G(b.x, b.y));
    Q.ModZero();
  }

  lemma CAddComm(a: Point, b: Point)
    ensures CAdd(a, b) == CAdd(b, a)
  {
    hide CAdd, Q.QMul;
    CAddIsMul(a, b);
    CAddIsMul(b, a);
    Q.QMulComm(Tower(a), Tower(b));
  }

  lemma CAddAssoc(a: Point, b: Point, c: Point)
    ensures CAdd(CAdd(a, b), c) == CAdd(a, CAdd(b, c))
  {
    hide CAdd, Q.QMul;
    CAddIsMul(a, b);
    CAddIsMul(CAdd(a, b), c);
    CAddIsMul(b, c);
    CAddIsMul(a, CAdd(b, c));
    Q.QMulAssoc(Tower(a), Tower(b), Tower(c));
  }

  lemma CAddIdentity(a: Point)
    ensures CAdd(a, IDENTITY) == a == CAdd(IDENTITY, a)
  {
    hide CAdd, Q.QMul;
    CAddIsMul(a, IDENTITY);
    CAddComm(a, IDENTITY);
    Q.QMulOne(Tower(a));
  }

  lemma {:induction false} CPowAdd(p: Point, m: nat, n: nat)
    ensures CPow(p, m + n) == CAdd(CPow(p, m), CPow(p, n))
  {
    hide CAdd;
    if m == 0 {
      CAddIdentity(CPow(p, n));
    } else {
      CPowAdd(p, m - 1, n);
      CAddAssoc(p, CPow(p, m - 1), CPow(p, n));
    }
  }

  lemma {:induction false} CPowMul(p: Point, m: nat, n: nat)
    ensures CPow(CPow(p, m), n) == CPow(p, m * n)
  {
    hide CAdd;
    if n == 0 {
      assert m * n == 0;
    } else {
      CPowMul(p, m, n - 1);
      Distribute(m, 1, n - 1);
      CPowAdd(p, m, m * (n - 1));
    }
  }

  lemma CPowOne(p: Point)
    ensures CPow(p, 1) == p
  {
    hide CAdd;
    CAddIdentity(p);
    assert CPow(p, 1) == CAdd(p, CPow(p, 0));
  }

  lemma CPowDouble(p: Point, e: nat)
    ensures CPow(p, 2 * e) == CAdd(CPow(p, e), CPow(p, e))
  {
    hide CAdd, CPow;
    CPowAdd(p, e, e);
  }

  lemma CPowSquare(p: Point, e: nat)
    ensures CPow(CAdd(p, p), e) == CPow(p, 2 * e)
  {
    hide CAdd, CPow;
    CPowMul(p, 2, e);
    CPowDouble(p, 1);
    CPowOne(p);
  }

  lemma MulStep(r: Point, p: Point, h: nat, odd: bool)
    ensures CAdd(if odd then CAdd(r, p) else r, CPow(CAdd(p, p), h))
         == CAdd(r, CPow(p, if odd then 1 + 2 * h else 2 * h))
  {
    hide CAdd, CPow;
    CPowSquare(p, h);
    if odd {
      CPowAdd(p, 1, 2 * h);
      CPowOne(p);
      CAddAssoc(r, p, CPow(p, 2 * h));
    }
  }

  /** The double-and-add loop (`cmul`, `cpow`, `pow`). */
  method CMulLoop(p: Point, scalar: nat) returns (r: Point)
    ensures r == CPow(p, scalar)
  {
    hide CAdd, CPow;
    var power, s := p, scalar;
    r := IDENTITY;
    CAddIdentity(CPow(p, scalar));
    while s != 0
      invariant CAdd(r, CPow(power, s)) == CPow(p, scalar)
    {
      MulStep(r, power, s / 2, s % 2 == 1);
      if s % 2 == 1 {
        r := CAdd(r, power);
      }
      power := CAdd(power, power);
      s := s / 2;
    }
    CAddIdentity(r);
    CPowZero(power);
  }

  lemma CPowZero(p: Point)
    ensures CPow(p, 0) == IDENTITY
  {
  }

  // ------------------------------------------------------ the generator, order 2^31

  function GroupPoint(e: nat): Point { CPow(GENERATOR, e) }

  predicate IsDouble(p: Point, q: Point)
  {
    (p.x * p.x - p.y * p.y) % P == q.x && (p.x * p.y + p.y * p.x) % P == q.y
  }

  lemma Doubled(e: nat, p: Point, q: Point)
    requires GroupPoint(e) == p && IsDouble(p, q)
    ensures GroupPoint(2 * e) == q
  {
    hide CPow;
    CPowDouble(GENERATOR, e);
  }

  lemma Doublings(e: nat, a: Point, b: Point, c: Point, d: Point, z: Point)
    requires GroupPoint(e) == a && IsDouble(a, b) && IsDouble(b, c) && IsDouble(c, d) && IsDouble(d, z)
    ensures GroupPoint(16 * e) == z
  {
    hide GroupPoint, IsDouble;
    Doubled(e, a, b);
    Doubled(2 * e, b, c);
    Doubled(4 * e, c, d);
    Doubled(8 * e, d, z);
  }

  lemma Turn4()
    ensures GroupPoint(0x10) == Point(708158977, 683185920)
  {
    assert GroupPoint(1) == GENERATOR by { CPowOne(GENERATOR); }
    hide GroupPoint;
    Doublings(0x1, Point(2, 1268011823), Point(7, 777079998),
              Point(97, 141701737), Point(18817, 1720333214),
              Point(708158977, 683185920));
  }

  lemma Turn8()
    ensures GroupPoint(0x100) == Point(421007138, 256177860)
  {
    Turn4();
    hide GroupPoint;
    Doublings(0x10, Point(708158977, 683185920), Point(334835419, 1444967316),
              Point(2042371533, 1362265296), Point(212706801, 1223819887),
              Point(421007138, 256177860));
  }

  lemma Turn12()
    ensures GroupPoint(0x1000) == Point(595037635, 2111542451)
  {
    Turn8();
    hide GroupPoint;
    Doublings(0x100, Point(421007138, 256177860), Point(6346213, 905523693),
              Point(1022251061, 788094511), Point(1633461177, 574296567),
              Point(595037635, 2111542451));
  }

  lemma Turn16()
    ensures GroupPoint(0x10000) == Point(1543902459, 1632329423)
  {
    Turn12();
    hide GroupPoint;
    Doublings(0x1000, Point(595037635, 2111542451), Point(1799120754, 343598868),
              Point(438833264, 1327019128), Point(1389168750, 838891026),
              Point(1543902459, 1632329423));
  }

  lemma Turn20()
    ensures GroupPoint(0x100000) == Point(996212859, 1140996376)
  {
    Turn16();
    hide GroupPoint;
    Doublings(0x10000, Point(1543902459, 1632329423), Point(1330239767, 1446369578),
              Point(1420207432, 2023238517), Point(2015554631, 1088093947),
              Point(996212859, 1140996376));
  }

  lemma Turn24()
    ensures GroupPoint(0x1000000) == Point(838195206, 1774253895)
  {
    Turn20();
    hide GroupPoint;
    Doublings(0x100000, Point(996212859, 1140996376), Point(1434706457, 1835793811),
              Point(13610297, 1064696601), Point(785043271, 1260750973),
              Point(838195206, 1774253895));
  }

  lemma Turn28()
    ensures GroupPoint(0x10000000) == Point(32768, 2147450879)
  {
    Turn24();
    hide GroupPoint;
    Doublings(0x1000000, Point(838195206, 1774253895), Point(579625837, 1690787918),
              Point(1179735656, 1241207368), Point(590768354, 978592373),
              Point(32768, 2147450879));
  }

  /** Literal doublings reach a quarter turn, a half turn, and the identity. */
  lemma Turns()
    ensures GroupPoint(0x2000_0000) == Point(0, P - 1)
    ensures GroupPoint(0x4000_0000) == Point(P - 1, 0)
    ensures GroupPoint(0x8000_0000) == IDENTITY
  {
    Turn28();
    hide GroupPoint;
    Doubled(0x10000000, Point(32768, 2147450879), Point(0, 2147483646));
    Doubled(0x20000000, Point(0, 2147483646), Point(2147483646, 0));
    Doubled(0x40000000, Point(2147483646, 0), Point(1, 0));
  }
}

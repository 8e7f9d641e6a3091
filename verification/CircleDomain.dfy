/** Stored-order geometry of the circle domains, for every log size. */
module CircleDomain {
  import opened M31
  import opened Bits
  import opened Nonlinear
  import opened Circle
  import Q = QM31

  const LOG_ORDER := 31

  function Initial(logSize: nat): nat
    requires logSize <= 29
  {
    Pow2(LOG_ORDER - (logSize + 2))
  }

  function Step(logSize: nat): nat
    requires logSize <= 31
  {
    Pow2(LOG_ORDER - logSize)
  }

  /** Exponent of the natural-order coset point: initial + step * natural. */
  function Exponent(logSize: nat, natural: nat): nat
    requires logSize <= 29
  {
    hide Pow2;
    MulLe(Step(logSize), 0, natural);
    Initial(logSize) + Step(logSize) * natural
  }

  /** The domain point at a stored index. */
  function CirclePoint(logSize: nat, stored: nat): Point
    requires 1 <= logSize <= 30
  {
    hide CPow, Exponent;
    var natural := BitReverse(stored, logSize);
    var half := Pow2(logSize - 1);
    if natural < half then
      GroupPoint(Exponent(logSize - 1, natural))
    else
      Conj(GroupPoint(Exponent(logSize - 1, natural - half)))
  }

  /** The line-domain x-coordinate at a stored index. */
  function LineX(logSize: nat, stored: nat): Elem
    requires logSize <= 29
  {
    hide CPow, Exponent;
    GroupPoint(Exponent(logSize, BitReverse(stored, logSize))).x
  }

  function DoubleX(x: Elem): Elem { Mod(2 * x * x - 1) }

  // ---------------------------------------------------------- reflections and turns

  lemma NegTimes(x: Elem, y: Elem)
    ensures Mod(x * Neg(y)) == Mod(-(x * y))
  {
    if y == 0 {
      assert x * Neg(y) == 0 && x * y == 0;
    } else {
      assert Neg(y) == P - y;
      Distribute(x, P, y);
      ModUnique(x * (P - y), -(x * y), x);
    }
  }

  lemma ModDiff(a: int, b: int, c: int)
    requires Mod(b) == Mod(c)
    ensures Mod(a - b) == Mod(a - c)
    ensures Mod(a + b) == Mod(a + c)
  {
    ModUnique(a - b, a - c, c / P - b / P);
    ModUnique(a + b, a + c, b / P - c / P);
  }

  /** On the circle, the conjugate is the group inverse. */
  lemma ConjInverse(p: Point)
    ensures OnCircle(p) <==> CAdd(p, Conj(p)) == IDENTITY
  {
    hide Mod, Neg;
    NegTimes(p.y, p.y);
    ModDiff(p.x * p.x, p.y * Neg(p.y), -(p.y * p.y));
    NegTimes(p.x, p.y);
    ModDiff(p.y * p.x, p.x * Neg(p.y), -(p.x * p.y));
    assert p.y * p.x + -(p.x * p.y) == 0;
    assert p.x * Neg(p.y) + p.y * p.x == p.y * p.x + p.x * Neg(p.y);
    Q.ModZero();
  }

  lemma NegMod(x: int)
    ensures Neg(Mod(x)) == Mod(-x)
  {
    ModUnique(P - Mod(x), -x, x / P + 1);
  }

  lemma NegNeg(x: Elem, y: Elem)
    ensures Mod(Neg(x) * Neg(y)) == Mod(x * y)
  {
    hide Mod, Neg;
    NegTimes(Neg(x), y);
    NegTimes(y, x);
    assert Neg(x) * y == y * Neg(x);
    ModDiff(0, y * Neg(x), -(y * x));
    assert y * x == x * y;
  }

  lemma ConjAdd(a: Point, b: Point)
    ensures Conj(CAdd(a, b)) == CAdd(Conj(a), Conj(b))
  {
    hide Mod, Neg;
    NegNeg(a.y, b.y);
    ModDiff(a.x * b.x, Neg(a.y) * Neg(b.y), a.y * b.y);
    NegMod(a.x * b.y + a.y * b.x);
    NegTimes(a.x, b.y);
    NegTimes(b.x, a.y);
    assert Neg(a.y) * b.x == b.x * Neg(a.y) && a.y * b.x == b.x * a.y;
    ModDiff(a.x * Neg(b.y), b.x * Neg(a.y), -(b.x * a.y));
    ModDiff(-(b.x * a.y), a.x * Neg(b.y), -(a.x * b.y));
  }

  lemma NegateAdd(a: Point, b: Point)
    ensures CAdd(a, Negate(b)) == Negate(CAdd(a, b))
  {
    hide Mod, Neg;
    NegTimes(a.x, b.x);
    NegTimes(a.y, b.y);
    NegTimes(a.x, b.y);
    NegTimes(a.y, b.x);
    ModDiff(a.x * Neg(b.x), a.y * Neg(b.y), -(a.y * b.y));
    ModDiff(a.y * b.y, a.x * Neg(b.x), -(a.x * b.x));
    ModDiff(a.x * Neg(b.y), a.y * Neg(b.x), -(a.y * b.x));
    ModDiff(-(a.y * b.x), a.x * Neg(b.y), -(a.x * b.y));
    NegMod(a.x * b.x - a.y * b.y);
    NegMod(a.x * b.y + a.y * b.x);
  }

  lemma QuarterTurn(p: Point)
    ensures CAdd(p, Point(0, P - 1)) == Point(p.y, Neg(p.x))
  {
    assert p.x * 0 == 0 && p.y * 0 == 0;
    Distribute(p.y, P, 1);
    Distribute(p.x, P, 1);
    ModUnique(p.x * 0 - p.y * (P - 1), p.y, -(p.y as int));
    ModUnique(p.x * (P - 1) + p.y * 0, P - p.x, p.x - 1);
  }

  lemma {:induction false} GroupOnCircle(e: nat)
    ensures OnCircle(GroupPoint(e))
  {
    hide OnCircle, CAdd, Conj;
    ConjInverse(GroupPoint(e));
    if e == 0 {
      IdentityOnCircle();
    } else {
      var p := GroupPoint(e - 1);
      GroupOnCircle(e - 1);
      ConjInverse(p);
      GeneratorOnCircle();
      ConjInverse(GENERATOR);
      ConjAdd(GENERATOR, p);
      Regroup(GENERATOR, p, Conj(GENERATOR), Conj(p));
      CAddIdentity(IDENTITY);
    }
  }

  lemma IdentityOnCircle()
    ensures OnCircle(IDENTITY)
  {
  }

  lemma GeneratorOnCircle()
    ensures OnCircle(GENERATOR)
  {
  }

  lemma Regroup(a: Point, b: Point, c: Point, d: Point)
    ensures CAdd(CAdd(a, b), CAdd(c, d)) == CAdd(CAdd(a, c), CAdd(b, d))
  {
    hide CAdd;
    CAddAssoc(a, b, CAdd(c, d));
    CAddAssoc(b, c, d);
    CAddComm(b, c);
    CAddAssoc(c, b, d);
    CAddAssoc(a, c, CAdd(b, d));
  }

  lemma DoubleIsDoubleX(p: Point)
    requires OnCircle(p)
    ensures CAdd(p, p).x == DoubleX(p.x)
  {
    var k := (p.x * p.x + p.y * p.y) / P;
    assert p.x * p.x + p.y * p.y == k * P + 1;
    assert 2 * p.x * p.x == 2 * (p.x * p.x);
    ModUnique(p.x * p.x - p.y * p.y, 2 * p.x * p.x - 1, -k);
  }

  lemma HalfTurn(e: nat)
    ensures GroupPoint(e + 0x4000_0000) == Negate(GroupPoint(e))
  {
    Turns();
    hide CPow, CAdd;
    CPowAdd(GENERATOR, e, 0x4000_0000);
    assert Point(P - 1, 0) == Negate(IDENTITY);
    NegateAdd(GroupPoint(e), IDENTITY);
    CAddIdentity(GroupPoint(e));
  }

  lemma FullTurn(e: nat)
    ensures GroupPoint(e + 0x8000_0000) == GroupPoint(e)
  {
    Turns();
    hide CPow, CAdd;
    CPowAdd(GENERATOR, e, 0x8000_0000);
    CAddIdentity(GroupPoint(e));
  }

  lemma QuarterTurnPoint(e: nat)
    ensures GroupPoint(e + 0x2000_0000) == Point(GroupPoint(e).y, Neg(GroupPoint(e).x))
  {
    Turns();
    hide CPow, CAdd;
    CPowAdd(GENERATOR, e, 0x2000_0000);
    QuarterTurn(GroupPoint(e));
  }

  // -------------------------------------------------------------- the stored order

  lemma StepSpan(logSize: nat, k: nat, log: nat)
    requires logSize <= 29 && k <= logSize && log == 31 - logSize + k
    ensures Step(logSize) * Pow2(k) == Pow2(log)
  {
    hide Pow2;
    Pow2Add(31 - logSize, k);
  }

  lemma BigPowers()
    ensures Pow2(29) == 0x2000_0000 && Pow2(30) == 0x4000_0000 && Pow2(31) == 0x8000_0000
  {
    assert Pow2(8) == 0x100;
    assert Pow2(16) == 0x1_0000;
    assert Pow2(24) == 0x100_0000;
  }

  lemma ExponentShift(logSize: nat, natural: nat, k: nat, log: nat)
    requires logSize <= 29 && k <= logSize && log == 31 - logSize + k
    ensures Exponent(logSize, natural + Pow2(k)) == Exponent(logSize, natural) + Pow2(log)
  {
    hide Pow2, Step, Initial;
    StepSpan(logSize, k, log);
    Distribute(Step(logSize), natural, Pow2(k));
  }

  lemma CosetPoint(log: nat, i: nat)
    requires log <= 29
    ensures CAdd(GroupPoint(Initial(log)), CPow(GroupPoint(Step(log)), i)) == GroupPoint(Exponent(log, i))
  {
    hide CAdd, CPow, Initial, Step;
    CPowMul(GENERATOR, Step(log), i);
    MulLe(Step(log), 0, i);
    CPowAdd(GENERATOR, Initial(log), Step(log) * i);
  }

  lemma ExponentDouble(logSize: nat, natural: nat)
    requires 1 <= logSize <= 29
    ensures 2 * Exponent(logSize, natural) == Exponent(logSize - 1, natural)
  {
    assert Pow2(30 - logSize) == 2 * Pow2(29 - logSize);
    assert Pow2(32 - logSize) == 2 * Pow2(31 - logSize);
    hide Pow2;
    Assoc(2, Step(logSize), natural);
  }

  /** Adjacent stored indices of a line domain are opposite. */
  lemma LineXOdd(logSize: nat, b: nat)
    requires 1 <= logSize <= 29
    ensures LineX(logSize, 2 * b + 1) == Neg(LineX(logSize, 2 * b))
  {
    hide CPow, Exponent, BitReverse;
    var r := BitReverse(b, logSize - 1);
    BitReverseDouble(b, logSize);
    ExponentShift(logSize, r, logSize - 1, 30);
    BigPowers();
    HalfTurn(Exponent(logSize, r));
  }

  /** x-doubling maps a line domain onto the next, at the halved stored index. */
  lemma LineXDouble(logSize: nat, i: nat)
    requires 1 <= logSize <= 29
    ensures DoubleX(LineX(logSize, i)) == LineX(logSize - 1, i / 2)
  {
    hide CPow, Exponent, CAdd, DoubleX;
    var r := BitReverse(i / 2, logSize - 1);
    if i % 2 == 1 {
      ExponentShift(logSize, r, logSize - 1, 30);
      BigPowers();
    }
    var e := Exponent(logSize, BitReverse(i, logSize));
    GroupOnCircle(e);
    DoubleIsDoubleX(GroupPoint(e));
    CPowDouble(GENERATOR, e);
    ExponentDouble(logSize, r);
    if i % 2 == 1 { FullTurn(2 * Exponent(logSize, r)); }
  }

  lemma CirclePointEven(logSize: nat, b: nat)
    requires 1 <= logSize <= 30
    ensures CirclePoint(logSize, 2 * b) == GroupPoint(Exponent(logSize - 1, BitReverse(b, logSize - 1)))
  {
    hide CPow, Exponent;
    BitReverseDouble(b, logSize);
    hide BitReverse, Pow2;
  }

  /** An odd stored index holds the conjugate of its even neighbour. */
  lemma CirclePointOdd(logSize: nat, b: nat)
    requires 1 <= logSize <= 30
    ensures CirclePoint(logSize, 2 * b + 1) == Conj(CirclePoint(logSize, 2 * b))
  {
    hide CPow, Exponent;
    BitReverseDouble(b, logSize);
    hide BitReverse, Pow2;
  }

  lemma CirclePointX(logSize: nat, i: nat)
    requires 1 <= logSize <= 30
    ensures CirclePoint(logSize, i).x == LineX(logSize - 1, i / 2)
  {
    hide CPow, Exponent, BitReverse, CirclePoint;
    CirclePointEven(logSize, i / 2);
    if i % 2 == 1 {
      CirclePointOdd(logSize, i / 2);
      assert i == 2 * (i / 2) + 1;
    } else {
      assert i == 2 * (i / 2);
    }
  }

  /** The four slots of a fiber are (x, y), (x, -y), (-x, -y), (-x, y). */
  lemma FiberSlots(logSize: nat, fiber: nat)
    requires 2 <= logSize <= 30
    ensures var p := CirclePoint(logSize, 4 * fiber);
      && CirclePoint(logSize, 4 * fiber + 1) == Point(p.x, Neg(p.y))
      && CirclePoint(logSize, 4 * fiber + 2) == Point(Neg(p.x), Neg(p.y))
      && CirclePoint(logSize, 4 * fiber + 3) == Point(Neg(p.x), p.y)
  {
    hide CPow, Exponent, CirclePoint, BitReverse;
    CirclePointOdd(logSize, 2 * fiber);
    CirclePointOdd(logSize, 2 * fiber + 1);
    CirclePointEven(logSize, 2 * fiber);
    CirclePointEven(logSize, 2 * fiber + 1);
    var r := BitReverse(fiber, logSize - 2);
    BitReverseDouble(fiber, logSize - 1);
    ExponentShift(logSize - 1, r, logSize - 2, 30);
    BigPowers();
    HalfTurn(Exponent(logSize - 1, r));
  }

  /** Two neighbouring fibers differ by a quarter turn. */
  lemma NeighbourFiber(logSize: nat, q: nat)
    requires 3 <= logSize <= 30
    ensures var p := CirclePoint(logSize, 8 * q);
      CirclePoint(logSize, 8 * q + 4) == Point(p.y, Neg(p.x))
  {
    hide CPow, Exponent, CirclePoint, BitReverse;
    CirclePointEven(logSize, 4 * q);
    CirclePointEven(logSize, 4 * q + 2);
    var r := BitReverse(q, logSize - 3);
    BitReverseDouble(q, logSize - 2);
    BitReverseDouble(2 * q, logSize - 1);
    BitReverseDouble(2 * q + 1, logSize - 1);
    assert 2 * (2 * q) == 4 * q && 2 * (2 * q + 1) == 4 * q + 2;
    ExponentShift(logSize - 1, r, logSize - 3, 29);
    BigPowers();
    QuarterTurnPoint(Exponent(logSize - 1, r));
  }
}

/** The secure field QM31 = CM31[u] / (u^2 - (2 + i)), CM31 = M31[i] / (i^2 + 1).

  `QMul` and `QInv` follow the code (Karatsuba product, norm-based inverse).
  The ring laws come from the integer lift, reduced modulo P. */
module QM31 {
  import opened Options
  import opened M31
  import opened GaussianTower
  import F = M31Field

  /** (a + b i) + (c + d i) u */
  datatype Quad = Quad(a: Elem, b: Elem, c: Elem, d: Elem)

  const ZERO := Quad(0, 0, 0, 0)
  const ONE := Quad(1, 0, 0, 0)

  function Embed(v: Elem): Quad { Quad(v, 0, 0, 0) }

  function QAdd(x: Quad, y: Quad): Quad
  {
    Quad(Mod(x.a + y.a), Mod(x.b + y.b), Mod(x.c + y.c), Mod(x.d + y.d))
  }

  function QSub(x: Quad, y: Quad): Quad
  {
    Quad(Mod(x.a - y.a), Mod(x.b - y.b), Mod(x.c - y.c), Mod(x.d - y.d))
  }

  function QNeg(x: Quad): Quad { Quad(Neg(x.a), Neg(x.b), Neg(x.c), Neg(x.d)) }

  function QScale(x: Quad, s: Elem): Quad
  {
    Quad(Mod(x.a * s), Mod(x.b * s), Mod(x.c * s), Mod(x.d * s))
  }

  /** Karatsuba over CM31: three products instead of four. */
  function QMul(x: Quad, y: Quad): Quad
  {
    var s1a, s1b := x.a + x.c, x.b + x.d;
    var s2a, s2b := y.a + y.c, y.b + y.d;
    Recombine(x.a * y.a - x.b * y.b, x.a * y.b + x.b * y.a,
              x.c * y.c - x.d * y.d, x.c * y.d + x.d * y.c,
              s1a * s2a - s1b * s2b, s1a * s2b + s1b * s2a)
  }

  /** Reduces the three CM31 products, multiplies the middle one by u^2 = 2 + i,
      and recovers the cross terms by subtraction. */
  function Recombine(p0: int, q0: int, p1: int, q1: int, p2: int, q2: int): Quad
  {
    var m0a, m0b := Mod(p0), Mod(q0);
    var m1a, m1b := Mod(p1), Mod(q1);
    var m2a, m2b := Mod(p2), Mod(q2);
    var ra := Mod(2 * m1a - m1b);
    var rb := Mod(m1a + 2 * m1b);
    Quad(Mod(m0a + ra), Mod(m0b + rb), Mod(m2a - m0a - m1a), Mod(m2b - m0b - m1b))
  }

  // ------------------------------------------------------- lifting and reducing

  function Up(x: Quad): L { L(G(x.a, x.b), G(x.c, x.d)) }

  function Red(x: L): Quad { Quad(Mod(x.lo.re), Mod(x.lo.im), Mod(x.hi.re), Mod(x.hi.im)) }

  function Times(k: L): L
  {
    L(G(k.lo.re * P, k.lo.im * P), G(k.hi.re * P, k.hi.im * P))
  }

  lemma RedDiffer(x: L, y: L, k: L)
    requires x == LAdd(y, Times(k))
    ensures Red(x) == Red(y)
  {
    ModUnique(x.lo.re, y.lo.re, k.lo.re);
    ModUnique(x.lo.im, y.lo.im, k.lo.im);
    ModUnique(x.hi.re, y.hi.re, k.hi.re);
    ModUnique(x.hi.im, y.hi.im, k.hi.im);
  }

  lemma TimesMul(k: L, y: L)
    ensures LMul(Times(k), y) == Times(LMul(k, y))
  {
    GTimes(k.lo, y.lo);
    GTimes(k.hi, y.hi);
    GTimes(k.lo, y.hi);
    GTimes(k.hi, y.lo);
    hide GMul;
  }

  lemma GTimes(k: G, y: G)
    ensures GMul(G(k.re * P, k.im * P), y) == G(GMul(k, y).re * P, GMul(k, y).im * P)
  {
  }

  /** Reducing one factor first does not change the reduced product. */
  lemma RedMul(x: L, y: L)
    ensures Red(LMul(Up(Red(x)), y)) == Red(LMul(x, y))
  {
    hide LMul;
    var k := L(G(x.lo.re / P, x.lo.im / P), G(x.hi.re / P, x.hi.im / P));
    assert x == LAdd(Up(Red(x)), Times(k));
    LMulComm(x, y);
    LMulAdd(y, Up(Red(x)), Times(k));
    LMulComm(y, Up(Red(x)));
    LMulComm(y, Times(k));
    TimesMul(k, y);
    RedDiffer(LMul(x, y), LMul(Up(Red(x)), y), LMul(k, y));
  }

  lemma Combine(p0: int, q0: int, p1: int, q1: int)
    ensures Mod(Mod(p0) + Mod(2 * Mod(p1) - Mod(q1))) == Mod(p0 + (2 * p1 - q1))
    ensures Mod(Mod(q0) + Mod(Mod(p1) + 2 * Mod(q1))) == Mod(q0 + (p1 + 2 * q1))
  {
    ModUnique(2 * (p1 % P) - q1 % P, 2 * p1 - q1, q1 / P - 2 * (p1 / P));
    ModUnique(p1 % P + 2 * (q1 % P), p1 + 2 * q1, -(p1 / P) - 2 * (q1 / P));
    ModAdd(p0, 2 * p1 - q1);
    ModAdd(q0, p1 + 2 * q1);
  }

  lemma CombineCross(p: int, q: int, r: int)
    ensures Mod(Mod(p) - Mod(q) - Mod(r)) == Mod(p - q - r)
  {
    ModUnique(p % P - q % P - r % P, p - q - r, q / P + r / P - p / P);
  }

  lemma RecombineIs(p0: int, q0: int, p1: int, q1: int, p2: int, q2: int)
    ensures Recombine(p0, q0, p1, q1, p2, q2)
         == Quad(Mod(p0 + (2 * p1 - q1)), Mod(q0 + (p1 + 2 * q1)), Mod(p2 - p0 - p1), Mod(q2 - q0 - q1))
  {
    hide Mod;
    Combine(p0, q0, p1, q1);
    CombineCross(p2, p0, p1);
    CombineCross(q2, q0, q1);
  }

  /** The coded Karatsuba product is the schoolbook tower product modulo P. */
  lemma MulIsSchoolbook(x: Quad, y: Quad)
    ensures QMul(x, y) == Red(LMul(Up(x), Up(y)))
  {
    hide Mod, Recombine;
    RecombineIs(x.a * y.a - x.b * y.b, x.a * y.b + x.b * y.a,
                x.c * y.c - x.d * y.d, x.c * y.d + x.d * y.c,
                (x.a + x.c) * (y.a + y.c) - (x.b + x.d) * (y.b + y.d),
                (x.a + x.c) * (y.b + y.d) + (x.b + x.d) * (y.a + y.c));
    KaratsubaIdentity(x.a, x.b, x.c, x.d, y.a, y.b, y.c, y.d);
  }

  lemma KaratsubaIdentity(a: int, b: int, c: int, d: int, e: int, f: int, g: int, h: int)
    ensures (a + c) * (e + g) - (b + d) * (f + h) - (a * e - b * f) - (c * g - d * h)
         == (a * g - b * h) + (c * e - d * f)
    ensures (a + c) * (f + h) + (b + d) * (e + g) - (a * f + b * e) - (c * h + d * g)
         == (a * h + b * g) + (c * f + d * e)
  {
  }

  // ------------------------------------------------------------------ ring laws

  lemma QMulComm(x: Quad, y: Quad)
    ensures QMul(x, y) == QMul(y, x)
  {
    hide QMul;
    MulIsSchoolbook(x, y);
    MulIsSchoolbook(y, x);
    LMulComm(Up(x), Up(y));
  }

  lemma QMulAssoc(x: Quad, y: Quad, z: Quad)
    ensures QMul(QMul(x, y), z) == QMul(x, QMul(y, z))
  {
    hide QMul, LMul;
    MulIsSchoolbook(x, y);
    MulIsSchoolbook(QMul(x, y), z);
    RedMul(LMul(Up(x), Up(y)), Up(z));
    MulIsSchoolbook(y, z);
    MulIsSchoolbook(QMul(y, z), x);
    RedMul(LMul(Up(y), Up(z)), Up(x));
    LMulAssoc(Up(x), Up(y), Up(z));
    LMulComm(Up(x), LMul(Up(y), Up(z)));
    QMulComm(x, QMul(y, z));
  }

  lemma AddIsRed(x: Quad, y: Quad)
    ensures QAdd(x, y) == Red(LAdd(Up(x), Up(y)))
  {
    hide Mod;
  }

  lemma RedAdd(x: L, y: L)
    ensures QAdd(Red(x), Red(y)) == Red(LAdd(x, y))
  {
    ModAdd(x.lo.re, y.lo.re);
    ModAdd(x.lo.im, y.lo.im);
    ModAdd(x.hi.re, y.hi.re);
    ModAdd(x.hi.im, y.hi.im);
  }

  lemma QMulAdd(x: Quad, y: Quad, z: Quad)
    ensures QMul(x, QAdd(y, z)) == QAdd(QMul(x, y), QMul(x, z))
    ensures QMul(QAdd(y, z), x) == QAdd(QMul(y, x), QMul(z, x))
  {
    hide QMul, LMul, QAdd;
    AddIsRed(y, z);
    MulIsSchoolbook(QAdd(y, z), x);
    RedMul(LAdd(Up(y), Up(z)), Up(x));
    LMulComm(LAdd(Up(y), Up(z)), Up(x));
    LMulAdd(Up(x), Up(y), Up(z));
    MulIsSchoolbook(x, y);
    MulIsSchoolbook(x, z);
    RedAdd(LMul(Up(x), Up(y)), LMul(Up(x), Up(z)));
    QMulComm(x, QAdd(y, z));
    QMulComm(x, y);
    QMulComm(x, z);
  }

  lemma QAddComm(x: Quad, y: Quad)
    ensures QAdd(x, y) == QAdd(y, x)
  {
  }

  lemma ModAddAssoc(x: Elem, y: Elem, z: Elem)
    ensures Mod(Mod(x + y) + z) == Mod(x + Mod(y + z))
  {
    AddAssoc(x, y, z);
  }

  lemma QAddAssoc(x: Quad, y: Quad, z: Quad)
    ensures QAdd(QAdd(x, y), z) == QAdd(x, QAdd(y, z))
  {
    hide Mod;
    ModAddAssoc(x.a, y.a, z.a);
    ModAddAssoc(x.b, y.b, z.b);
    ModAddAssoc(x.c, y.c, z.c);
    ModAddAssoc(x.d, y.d, z.d);
  }

  lemma RedUp(x: Quad)
    ensures Red(Up(x)) == x
  {
  }

  lemma QAddZero(x: Quad)
    ensures QAdd(x, ZERO) == x == QAdd(ZERO, x)
  {
  }

  lemma QAddNeg(x: Quad)
    ensures QAdd(x, QNeg(x)) == ZERO
  {
  }

  lemma ModSubNeg(x: Elem, y: Elem)
    ensures Mod(x - y) == Mod(x + Neg(y))
  {
    SubIsAddNeg(x, y);
  }

  lemma QSubIsAddNeg(x: Quad, y: Quad)
    ensures QSub(x, y) == QAdd(x, QNeg(y))
  {
    hide Mod, Neg;
    ModSubNeg(x.a, y.a);
    ModSubNeg(x.b, y.b);
    ModSubNeg(x.c, y.c);
    ModSubNeg(x.d, y.d);
  }

  lemma QMulOne(x: Quad)
    ensures QMul(x, ONE) == x == QMul(ONE, x)
  {
    hide Mod, QMul;
    MulIsSchoolbook(x, ONE);
    QMulComm(x, ONE);
    assert LMul(Up(x), Up(ONE)) == Up(x);
    RedUp(x);
  }

  lemma QMulZero(x: Quad)
    ensures QMul(x, ZERO) == ZERO == QMul(ZERO, x)
  {
    hide Mod, QMul;
    MulIsSchoolbook(x, ZERO);
    QMulComm(x, ZERO);
    assert LMul(Up(x), Up(ZERO)) == Up(ZERO);
    RedUp(ZERO);
  }

  // ---------------------------------------------------------------- the inverse

  datatype Norm = Norm(na: Elem, nb: Elem, nn: Elem)

  /** The CM31 norm c0^2 - (2 + i) c1^2 and its own norm, as `qinv` computes them. */
  function NormOf(x: Quad): Norm
  {
    var c0sa := Mod(x.a * x.a - x.b * x.b);
    var c0sb := Mod(2 * x.a * x.b);
    var c1sa := Mod(x.c * x.c - x.d * x.d);
    var c1sb := Mod(2 * x.c * x.d);
    var ra := Mod(2 * c1sa - c1sb);
    var rb := Mod(c1sa + 2 * c1sb);
    var na := Mod(c0sa - ra);
    var nb := Mod(c0sb - rb);
    Norm(na, nb, Mod(na * na + nb * nb))
  }

  function QInv(x: Quad): Quad
  {
    var n := NormOf(x);
    var inn := F.Inv(n.nn);
    Divide(x, Mod(n.na * inn), Mod(0 - n.nb * inn))
  }

  /** (c0 - c1 u) times the inverse ina + inb i of the norm. */
  function Divide(x: Quad, ina: Elem, inb: Elem): Quad
  {
    var nc, nd := Neg(x.c), Neg(x.d);
    Quad(Mod(x.a * ina - x.b * inb), Mod(x.a * inb + x.b * ina),
         Mod(nc * ina - nd * inb), Mod(nc * inb + nd * ina))
  }

  lemma RedMulBoth(x: L, y: L)
    ensures QMul(Red(x), Red(y)) == Red(LMul(x, y))
  {
    hide QMul, LMul, Mod;
    MulIsSchoolbook(Red(x), Red(y));
    RedMul(x, Up(Red(y)));
    LMulComm(x, Up(Red(y)));
    RedMul(y, x);
    LMulComm(y, x);
  }

  function QConj(x: Quad): Quad { Quad(x.a, x.b, Neg(x.c), Neg(x.d)) }

  lemma ConjIs(x: Quad)
    ensures QConj(x) == Red(L(G(x.a, x.b), G(-(x.c as int), -(x.d as int))))
  {
  }

  lemma NormIs(x: Quad)
    ensures var n := NormOf(x);
      && n.na == Mod(x.a * x.a - x.b * x.b - (2 * (x.c * x.c - x.d * x.d) - 2 * (x.c * x.d)))
      && n.nb == Mod(2 * (x.a * x.b) - ((x.c * x.c - x.d * x.d) + 2 * (2 * (x.c * x.d))))
  {
    hide Mod;
    CombineSub(x.a * x.a - x.b * x.b, 2 * (x.a * x.b), x.c * x.c - x.d * x.d, 2 * (x.c * x.d));
    assert 2 * x.a * x.b == 2 * (x.a * x.b) && 2 * x.c * x.d == 2 * (x.c * x.d);
  }

  lemma CombineSub(p0: int, q0: int, p1: int, q1: int)
    ensures Mod(Mod(p0) - Mod(2 * Mod(p1) - Mod(q1))) == Mod(p0 - (2 * p1 - q1))
    ensures Mod(Mod(q0) - Mod(Mod(p1) + 2 * Mod(q1))) == Mod(q0 - (p1 + 2 * q1))
  {
    ModUnique(2 * (p1 % P) - q1 % P, 2 * p1 - q1, q1 / P - 2 * (p1 / P));
    ModUnique(p1 % P + 2 * (q1 % P), p1 + 2 * q1, -(p1 / P) - 2 * (q1 / P));
    ModSub(p0, 2 * p1 - q1);
    ModSub(q0, p1 + 2 * q1);
  }

  lemma MulConj(x: Quad)
    ensures QMul(x, QConj(x)) == Quad(NormOf(x).na, NormOf(x).nb, 0, 0)
  {
    hide Mod, QMul, NormOf, QConj;
    ConjIs(x);
    NormIs(x);
    RedUp(x);
    var y := L(G(x.a, x.b), G(-(x.c as int), -(x.d as int)));
    RedMulBoth(Up(x), y);
    var z := LMul(Up(x), y);
    ConjProduct(x.a, x.b, x.c, x.d);
    ModZero();
  }

  lemma ModZero()
    ensures Mod(0) == 0
  {
  }

  lemma ConjProduct(a: int, b: int, c: int, d: int)
    ensures LMul(L(G(a, b), G(c, d)), L(G(a, b), G(-c, -d)))
      == L(G(a * a - b * b - (2 * (c * c - d * d) - 2 * (c * d)),
             2 * (a * b) - ((c * c - d * d) + 2 * (2 * (c * d)))), G(0, 0))
  {
    assert c * -c == -(c * c) && d * -d == -(d * d) && c * -d == -(c * d) && d * -c == -(c * d);
    assert a * -c == -(a * c) && b * -d == -(b * d) && a * -d == -(a * d) && b * -c == -(b * c);
    assert b * a == a * b && c * a == a * c && d * b == b * d && c * b == b * c && d * a == a * d;
  }

  lemma MulNormConj(n: Norm)
    requires n.nn == Mod(n.na * n.na + n.nb * n.nb)
    ensures QMul(Quad(n.na, n.nb, 0, 0), Quad(n.na, Neg(n.nb), 0, 0)) == Embed(n.nn)
  {
    hide Mod, QMul, LMul;
    var x, y := L(G(n.na, n.nb), G(0, 0)), L(G(n.na, -(n.nb as int)), G(0, 0));
    LMulBase(x.lo, y.lo);
    ModSmall(n.na);
    ModSmall(n.nb);
    ModNegated(n.nb);
    ModZero();
    RedMulBoth(x, y);
    assert n.na * -(n.nb as int) == -(n.na * n.nb) && n.nb * n.na == n.na * n.nb
        && n.nb * -(n.nb as int) == -(n.nb * n.nb);
    assert LMul(x, y) == L(G(n.na * n.na + n.nb * n.nb, 0), G(0, 0));
  }

  lemma ModSmall(x: Elem)
    ensures Mod(x) == x
  {
  }

  lemma ModNegated(x: Elem)
    ensures Mod(-(x as int)) == Neg(x)
  {
  }

  lemma MulEmbed(a: Elem, b: Elem, s: Elem)
    ensures QMul(Quad(a, b, 0, 0), Embed(s)) == Quad(Mod(a * s), Mod(b * s), 0, 0)
  {
    hide Mod, QMul, LMul;
    var x := Quad(a, b, 0, 0);
    MulIsSchoolbook(x, Embed(s));
    ModZero();
    LMulBase(G(a, b), G(s, 0));
    assert GMul(G(a, b), G(s, 0)) == G(a * s, b * s);
  }

  lemma ModNegProduct(x: Elem, y: Elem)
    ensures Mod(Neg(x) * y) == Mod(0 - x * y)
  {
    if x == 0 {
      assert Neg(x) * y == 0 && x * y == 0;
    } else {
      assert Neg(x) == P - x;
      assert (P - x) * y == 0 - x * y + y * P;
      ModUnique(Neg(x) * y, 0 - x * y, y);
    }
  }

  lemma DivideIs(x: Quad, ina: Elem, inb: Elem)
    ensures Divide(x, ina, inb) == QMul(QConj(x), Quad(ina, inb, 0, 0))
  {
    hide Mod, QMul, Neg;
    var y := Quad(ina, inb, 0, 0);
    MulIsSchoolbook(QConj(x), y);
    assert LMul(Up(QConj(x)), Up(y))
        == L(G(x.a * ina - x.b * inb, x.a * inb + x.b * ina),
             G(Neg(x.c) * ina - Neg(x.d) * inb, Neg(x.c) * inb + Neg(x.d) * ina));
  }

  /** `qinv` is a true inverse wherever the norm it divides by is nonzero. */
  lemma MulInvFromNorm(x: Quad)
    requires NormOf(x).nn != 0
    ensures QMul(x, QInv(x)) == ONE
  {
    hide Mod, QMul, QConj, Divide, Neg, Mul, Pow, F.Inv, NormOf;
    var n := NormOf(x);
    var inn := F.Inv(n.nn);
    assert n.nn == Mod(n.na * n.na + n.nb * n.nb) by { NormShape(x); }
    var bar := Quad(n.na, Neg(n.nb), 0, 0);
    ModNegProduct(n.nb, inn);
    MulEmbed(n.na, Neg(n.nb), inn);
    var y := QMul(bar, Embed(inn));
    DivideIs(x, y.a, y.b);
    assert QInv(x) == QMul(QConj(x), y);
    QMulAssoc(x, QConj(x), y);
    MulConj(x);
    QMulAssoc(Quad(n.na, n.nb, 0, 0), bar, Embed(inn));
    MulNormConj(n);
    MulEmbed(n.nn, 0, inn);
    F.MulInv(n.nn);
    UnitProduct(n.nn, inn);
  }

  lemma NormShape(x: Quad)
    ensures NormOf(x).nn == Mod(NormOf(x).na * NormOf(x).na + NormOf(x).nb * NormOf(x).nb)
  {
    hide Mod;
  }

  lemma UnitProduct(a: Elem, b: Elem)
    requires Mul(a, b) == 1
    ensures Mod(a * b) == 1 && Mod(0 * b) == 0
  {
  }

  // ------------------------------------------------- the norm vanishes only at zero

  lemma SumOfSquares(a: Elem, b: Elem)
    requires Mod(a * a + b * b) == 0
    ensures a == 0 && b == 0
  {
    hide Pow;
    F.MinusOneNonResidue();
    assert Mul(a, a) == Mul(P - 1, Mul(b, b)) by {
      ModMulLeft(b * b, P - 1);
      assert ((b * b) % P) * (P - 1) == (P - 1) * ((b * b) % P);
      assert (b * b) * (P - 1) == -(b * b) + (b * b) * P;
      ModUnique((b * b) * (P - 1), -(b * b), b * b);
      var k := (a * a + b * b) / P;
      assert a * a == -(b * b) + k * P;
      ModUnique(a * a, -(b * b), k);
    }
    F.NonResidue(P - 1, a, b);
  }

  lemma NormIdentities(a: int, b: int, c: int, d: int)
    ensures var p, q := a * a - b * b, 2 * (a * b);
      p * p + q * q == (a * a + b * b) * (a * a + b * b)
    ensures var w, z := c * c - d * d, 2 * (c * d);
      (2 * w - z) * (2 * w - z) + (w + 2 * z) * (w + 2 * z) == 5 * ((c * c + d * d) * (c * c + d * d))
  {
    SquareNorm(a * a, b * b, a * b);
    SquareNorm(c * c, d * d, c * d);
    assert (a * b) * (a * b) == (a * a) * (b * b);
    assert (c * d) * (c * d) == (c * c) * (d * d);
    TwistNorm(c * c - d * d, 2 * (c * d));
  }

  lemma SquareNorm(x: int, y: int, m: int)
    requires m * m == x * y
    ensures (x - y) * (x - y) + (2 * m) * (2 * m) == (x + y) * (x + y)
  {
  }

  lemma TwistNorm(w: int, z: int)
    ensures (2 * w - z) * (2 * w - z) + (w + 2 * z) * (w + 2 * z) == 5 * (w * w + z * z)
  {
  }

  lemma SquaresAgree(p: int, q: int, u: int, v: int)
    requires Mod(p - u) == 0 && Mod(q - v) == 0
    ensures Mod(p * p + q * q) == Mod(u * u + v * v)
  {
    var j, k := (p - u) / P, (q - v) / P;
    assert p - u == j * P && q - v == k * P;
    assert p * p - u * u == (p - u) * (p + u) == (j * P) * (p + u) == (j * (p + u)) * P;
    assert q * q - v * v == (q - v) * (q + v) == (k * P) * (q + v) == (k * (q + v)) * P;
    var m := j * (p + u) + k * (q + v);
    assert p * p + q * q == u * u + v * v + m * P;
    ModUnique(p * p + q * q, u * u + v * v, m);
  }

  lemma ModSquare(x: int, s: Elem)
    ensures Mul(s, Mul(Mod(x), Mod(x))) == Mod(s * (x * x))
  {
    ModMul(x, x);
    ModMulLeft(x * x, s);
    assert s * ((x * x) % P) == ((x * x) % P) * s;
    assert s * (x * x) == (x * x) * s;
  }

  /** 2 + i is not a square in CM31, so the norm `qinv` divides by is never zero
      on a nonzero element. */
  lemma NormNonzero(x: Quad)
    ensures NormOf(x).nn == 0 <==> x == ZERO
  {
    if NormOf(x).nn == 0 {
      hide Mod, NormOf, Pow, Mul;
      var n := NormOf(x);
      NormShape(x);
      SumOfSquares(n.na, n.nb);
      NormIs(x);
      var p, q := x.a * x.a - x.b * x.b, 2 * (x.a * x.b);
      var w, z := x.c * x.c - x.d * x.d, 2 * (x.c * x.d);
      SquaresAgree(p, q, 2 * w - z, w + 2 * z);
      NormIdentities(x.a, x.b, x.c, x.d);
      var A, B := x.a * x.a + x.b * x.b, x.c * x.c + x.d * x.d;
      ModSquare(A, 1);
      ModSquare(B, 5);
      MulOne(Mul(Mod(A), Mod(A)));
      assert Mod(1 * (A * A)) == Mod(5 * (B * B));
      F.FiveNonResidue();
      F.NonResidue(5, Mod(A), Mod(B));
      SumOfSquares(x.a, x.b);
      SumOfSquares(x.c, x.d);
    }
  }

  /** QM31 is a field: the coded inverse is a true inverse. */
  lemma QMulInv(x: Quad)
    requires x != ZERO
    ensures QMul(x, QInv(x)) == ONE == QMul(QInv(x), x)
  {
    hide QMul, QInv, NormOf;
    NormNonzero(x);
    MulInvFromNorm(x);
    QMulComm(x, QInv(x));
  }

  lemma QNoZeroDivisors(x: Quad, y: Quad)
    ensures QMul(x, y) == ZERO <==> x == ZERO || y == ZERO
  {
    hide QMul, QInv;
    QMulZero(x);
    QMulZero(y);
    if x != ZERO && QMul(x, y) == ZERO {
      QMulInv(x);
      QMulAssoc(QInv(x), x, y);
      QMulOne(y);
      QMulZero(QInv(x));
    }
  }

  /** `qinv` with its ZeroDivisionError: it is raised exactly at zero. */
  function QInvChecked(x: Quad): (r: Option<Quad>)
    ensures r.None? <==> x == ZERO
    ensures r.Some? ==> QMul(x, r.value) == ONE
  {
    hide QMul, QInv, NormOf;
    NormNonzero(x);
    if NormOf(x).nn == 0 then None else QMulInv(x); Some(QInv(x))
  }

  /** A rational-parameter point ((1-t^2)/(1+t^2), 2t/(1+t^2)); raises at t^2 = -1. */
  function SecurePoint(t: Quad): (r: Option<(Quad, Quad)>)
  {
    var sq := QMul(t, t);
    var inv := QInvChecked(QAdd(ONE, sq));
    if inv.None? then None
    else Some((QMul(QSub(ONE, sq), inv.value), QMul(QAdd(t, t), inv.value)))
  }

  lemma QMulSwap(a: Quad, b: Quad, c: Quad, d: Quad)
    ensures QMul(QMul(a, b), QMul(c, d)) == QMul(QMul(a, c), QMul(b, d))
  {
    hide QMul;
    QMulAssoc(a, b, QMul(c, d));
    QMulAssoc(b, c, d);
    QMulComm(b, c);
    QMulAssoc(c, b, d);
    QMulAssoc(a, c, QMul(b, d));
  }

  lemma QAddSwap(a: Quad, b: Quad, c: Quad, d: Quad)
    ensures QAdd(QAdd(a, b), QAdd(c, d)) == QAdd(QAdd(a, c), QAdd(b, d))
  {
    hide QAdd;
    QAddAssoc(a, b, QAdd(c, d));
    QAddAssoc(b, c, d);
    QAddComm(b, c);
    QAddAssoc(c, b, d);
    QAddAssoc(a, c, QAdd(b, d));
  }

  lemma QNegUnique(x: Quad, y: Quad)
    requires QAdd(x, y) == ZERO
    ensures y == QNeg(x)
  {
    hide QAdd, QNeg;
    QAddNeg(x);
    QAddAssoc(QNeg(x), x, y);
    QAddComm(QNeg(x), x);
    QAddZero(y);
    QAddZero(QNeg(x));
  }

  lemma QMulNeg(x: Quad, y: Quad)
    ensures QMul(x, QNeg(y)) == QNeg(QMul(x, y))
    ensures QMul(QNeg(y), x) == QNeg(QMul(y, x))
  {
    hide QMul, QAdd, QNeg;
    QMulAdd(x, y, QNeg(y));
    QAddNeg(y);
    QMulZero(x);
    QNegUnique(QMul(x, y), QMul(x, QNeg(y)));
    QMulComm(x, QNeg(y));
    QMulComm(x, y);
  }

  lemma QNegNeg(x: Quad)
    ensures QNeg(QNeg(x)) == x
  {
    hide QAdd, QNeg;
    QAddNeg(x);
    QAddComm(x, QNeg(x));
    QNegUnique(QNeg(x), x);
  }

  /** (1 + s)^2 = 1 + (s + s) + s^2 */
  lemma SquarePlus(s: Quad)
    ensures QMul(QAdd(ONE, s), QAdd(ONE, s)) == QAdd(QAdd(ONE, QMul(s, s)), QAdd(s, s))
  {
    hide QMul, QAdd;
    var d := QAdd(ONE, s);
    QMulAdd(d, ONE, s);
    QMulOne(d);
    QMulAdd(s, ONE, s);
    QMulOne(s);
    QAddComm(s, QMul(s, s));
    QAddSwap(ONE, s, QMul(s, s), s);
  }

  lemma ParameterIdentity(t: Quad)
    ensures var s := QMul(t, t);
      QAdd(QMul(QSub(ONE, s), QSub(ONE, s)), QMul(QAdd(t, t), QAdd(t, t))) == QMul(QAdd(ONE, s), QAdd(ONE, s))
  {
    hide QMul, QAdd, QNeg, QSub;
    var s := QMul(t, t);
    var n := QNeg(s);
    var q := QMul(s, s);
    QSubIsAddNeg(ONE, s);
    SquarePlus(s);
    SquarePlus(n);
    QMulNeg(n, s);
    QMulNeg(s, s);
    QNegNeg(q);
    QMulAdd(QAdd(t, t), t, t);
    QMulAdd(t, t, t);
    var two := QAdd(s, s);
    QAddAssoc(QAdd(ONE, q), QAdd(n, n), QAdd(two, two));
    QAddAssoc(QAdd(n, n), two, two);
    QAddSwap(n, n, s, s);
    QAddComm(n, s);
    QAddNeg(s);
    QAddZero(ZERO);
    QAddZero(two);
  }

  /** Every rational-parameter point lies on the circle. */
  lemma SecurePointOnCircle(t: Quad)
    ensures var p := SecurePoint(t);
      p.Some? ==> QAdd(QMul(p.value.0, p.value.0), QMul(p.value.1, p.value.1)) == ONE
  {
    hide QMul, QAdd, QNeg, QSub, QInv, QInvChecked;
    var s := QMul(t, t);
    var d := QAdd(ONE, s);
    var inv := QInvChecked(d);
    if inv.Some? {
      var i := inv.value;
      var a, b := QSub(ONE, s), QAdd(t, t);
      QMulSwap(a, i, a, i);
      QMulSwap(b, i, b, i);
      QMulAdd(QMul(i, i), QMul(a, a), QMul(b, b));
      ParameterIdentity(t);
      QMulSwap(d, i, d, i);
      QMulOne(ONE);
    }
  }

  /** t is the tangent of the half angle: t (1 + x) = y; there is no point exactly when t^2 = -1. */
  lemma SecurePointHalfAngle(t: Quad)
    ensures SecurePoint(t).None? <==> QAdd(ONE, QMul(t, t)) == ZERO
    ensures var p := SecurePoint(t);
      p.Some? ==> QMul(t, QAdd(ONE, p.value.0)) == p.value.1
  {
    hide QMul, QAdd, QNeg, QSub, QInv, QInvChecked;
    var s := QMul(t, t);
    var d := QAdd(ONE, s);
    var inv := QInvChecked(d);
    if inv.Some? {
      var i := inv.value;
      var a := QSub(ONE, s);
      var two := QAdd(ONE, ONE);
      QMulAdd(i, d, a);
      SumOfEnds(s);
      QMulAssoc(t, two, i);
      QMulAdd(t, ONE, ONE);
      QMulOne(t);
    }
  }

  /** (1 + s) + (1 - s) = 1 + 1 */
  lemma SumOfEnds(s: Quad)
    ensures QAdd(QAdd(ONE, s), QSub(ONE, s)) == QAdd(ONE, ONE)
  {
    hide QAdd, QNeg, QSub;
    QSubIsAddNeg(ONE, s);
    QAddSwap(ONE, s, ONE, QNeg(s));
    QAddNeg(s);
    QAddZero(QAdd(ONE, ONE));
  }

  function QPow(x: Quad, e: nat): Quad
  {
    if e == 0 then ONE else QMul(x, QPow(x, e - 1))
  }

  // ------------------------------------------------------------------- base field

  lemma EmbedAdd(a: Elem, b: Elem)
    ensures Embed(Add(a, b)) == QAdd(Embed(a), Embed(b))
  {
  }

  lemma EmbedMul(a: Elem, b: Elem)
    ensures Embed(Mul(a, b)) == QMul(Embed(a), Embed(b))
  {
    hide QMul;
    MulEmbed(a, 0, b);
  }

  lemma EmbedSub(a: Elem, b: Elem)
    ensures Embed(Sub(a, b)) == QSub(Embed(a), Embed(b))
  {
  }

  lemma ScaleIsMul(x: Quad, s: Elem)
    ensures QScale(x, s) == QMul(Embed(s), x)
  {
    hide Mod, QMul, LMul, GMul;
    MulIsSchoolbook(Embed(s), x);
    LScale(G(s, 0), Up(x).lo, Up(x).hi);
    GScale(x.a, x.b, s);
    GScale(x.c, x.d, s);
  }

  lemma ScaleZero(x: Quad)
    ensures QScale(x, 0) == ZERO
  {
    assert x.a * 0 == 0 && x.b * 0 == 0 && x.c * 0 == 0 && x.d * 0 == 0;
  }
}

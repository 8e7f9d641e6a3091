/** The integer lift of the tower: Z[i] and Z[i][u] with u^2 = 2 + i.  Here the
    ring laws are polynomial identities over the integers. */
module GaussianTower {

  datatype G = G(re: int, im: int)

  function GAdd(x: G, y: G): G { G(x.re + y.re, x.im + y.im) }

  function GMul(x: G, y: G): G { G(x.re * y.re - x.im * y.im, x.re * y.im + x.im * y.re) }

  /** Multiplication by u^2 = 2 + i. */
  function GTwist(x: G): G { G(2 * x.re - x.im, x.re + 2 * x.im) }

  lemma GMulComm(x: G, y: G)
    ensures GMul(x, y) == GMul(y, x)
  {
  }

  lemma GMulAdd(x: G, y: G, z: G)
    ensures GMul(x, GAdd(y, z)) == GAdd(GMul(x, y), GMul(x, z))
    ensures GMul(GAdd(y, z), x) == GAdd(GMul(y, x), GMul(z, x))
  {
  }

  lemma GMulAssoc(x: G, y: G, z: G)
    ensures GMul(GMul(x, y), z) == GMul(x, GMul(y, z))
  {
  }

  lemma GTwistMul(x: G, y: G)
    ensures GMul(GTwist(x), y) == GTwist(GMul(x, y)) == GMul(x, GTwist(y))
  {
  }

  // ------------------------------------------------------------------- Z[i][u]

  datatype L = L(lo: G, hi: G)

  function LAdd(x: L, y: L): L { L(GAdd(x.lo, y.lo), GAdd(x.hi, y.hi)) }

  /** Schoolbook product. */
  function LMul(x: L, y: L): L
  {
    L(GAdd(GMul(x.lo, y.lo), GTwist(GMul(x.hi, y.hi))),
      GAdd(GMul(x.lo, y.hi), GMul(x.hi, y.lo)))
  }

  lemma LMulComm(x: L, y: L)
    ensures LMul(x, y) == LMul(y, x)
  {
    hide GMul;
    GMulComm(x.lo, y.lo);
    GMulComm(x.hi, y.hi);
    GMulComm(x.lo, y.hi);
    GMulComm(x.hi, y.lo);
  }

  lemma LMulAdd(x: L, y: L, z: L)
    ensures LMul(x, LAdd(y, z)) == LAdd(LMul(x, y), LMul(x, z))
  {
    hide GMul;
    GMulAdd(x.lo, y.lo, z.lo);
    GMulAdd(x.hi, y.hi, z.hi);
    GMulAdd(x.lo, y.hi, z.hi);
    GMulAdd(x.hi, y.lo, z.lo);
  }

  lemma LMulAssoc(x: L, y: L, z: L)
    ensures LMul(LMul(x, y), z) == LMul(x, LMul(y, z))
  {
    hide GMul;
    LeftSum(x, y, z.lo);
    LeftSum(x, y, z.hi);
    RightSum(x.lo, y, z);
    RightSum(x.hi, y, z);
  }

  lemma LeftSum(x: L, y: L, z: G)
    ensures GMul(LMul(x, y).lo, z) == GAdd(GMul(x.lo, GMul(y.lo, z)), GTwist(GMul(x.hi, GMul(y.hi, z))))
    ensures GMul(LMul(x, y).hi, z) == GAdd(GMul(x.lo, GMul(y.hi, z)), GMul(x.hi, GMul(y.lo, z)))
  {
    hide GMul;
    GMulAdd(z, GMul(x.lo, y.lo), GTwist(GMul(x.hi, y.hi)));
    GMulAdd(z, GMul(x.lo, y.hi), GMul(x.hi, y.lo));
    GTwistMul(GMul(x.hi, y.hi), z);
    GMulAssoc(x.lo, y.lo, z);
    GMulAssoc(x.hi, y.hi, z);
    GMulAssoc(x.lo, y.hi, z);
    GMulAssoc(x.hi, y.lo, z);
  }

  lemma RightSum(x: G, y: L, z: L)
    ensures GMul(x, LMul(y, z).lo) == GAdd(GMul(x, GMul(y.lo, z.lo)), GTwist(GMul(x, GMul(y.hi, z.hi))))
    ensures GMul(x, LMul(y, z).hi) == GAdd(GMul(x, GMul(y.lo, z.hi)), GMul(x, GMul(y.hi, z.lo)))
  {
    hide GMul;
    GMulAdd(x, GMul(y.lo, z.lo), GTwist(GMul(y.hi, z.hi)));
    GMulAdd(x, GMul(y.lo, z.hi), GMul(y.hi, z.lo));
    GTwistMul(x, GMul(y.hi, z.hi));
  }

  lemma GMulZero(x: G)
    ensures GMul(x, G(0, 0)) == G(0, 0) == GMul(G(0, 0), x)
  {
  }

  lemma LMulBase(x: G, y: G)
    ensures LMul(L(x, G(0, 0)), L(y, G(0, 0))) == L(GMul(x, y), G(0, 0))
  {
    hide GMul;
    GMulZero(x);
    GMulZero(y);
    GMulZero(G(0, 0));
  }

  lemma GScale(a: int, b: int, s: int)
    ensures GMul(G(s, 0), G(a, b)) == G(a * s, b * s)
  {
  }

  lemma GAddZero(x: G)
    ensures GAdd(x, G(0, 0)) == x && GTwist(G(0, 0)) == G(0, 0)
  {
  }

  lemma LScale(t: G, lo: G, hi: G)
    ensures LMul(L(t, G(0, 0)), L(lo, hi)) == L(GMul(t, lo), GMul(t, hi))
  {
    hide GMul, GAdd, GTwist;
    GMulZero(lo);
    GMulZero(hi);
    GAddZero(GMul(t, lo));
    GAddZero(GMul(t, hi));
  }
}

/** The masked sumcheck observation vector.

  For one row of the trace and one mask factor, the observed claim and round
  coefficients are those of a genuine sumcheck of eq(., row) * factor(.) over the
  Boolean cube: every round polynomial is the sum over all Boolean suffixes, the kept
  coefficients are its coefficients, and the omitted linear one can be recovered. */
module Sumcheck {
  import opened M31
  import opened QM31
  import opened Bits
  import opened Determinant
  import opened QPoly
  import opened Lagrange

  datatype Spec = Spec(family: nat, exp: nat, tower: nat, addOne: bool)

  function Tower(i: nat): Quad
  {
    if i == 0 then Quad(1, 0, 0, 0) else if i == 1 then Quad(0, 1, 0, 0)
    else if i == 2 then Quad(0, 0, 1, 0) else Quad(0, 0, 0, 1)
  }

  function Scalar(family: nat, c: nat): Elem { Mod(3 + 22 * c + family * (17 + 8 * c)) }

  /** The mask factor as a function of its linear form. */
  function FactorOf(spec: Spec, l: Quad): Quad
  {
    if spec.addOne then QAdd(ONE, QPow(l, spec.exp)) else QMul(QPow(l, spec.exp), Tower(spec.tower))
  }

  function RowBits(row: nat, rounds: nat): (bits: seq<bool>)
    ensures |bits| == rounds
  {
    seq(rounds, c requires 0 <= c < rounds => Bit(row, rounds - 1 - c))
  }

  function Bit(row: nat, i: nat): bool { (row / Pow2(i)) % 2 == 1 }

  function BitPoint(bits: seq<bool>): (p: Row)
    ensures |p| == |bits|
  {
    seq(|bits|, c requires 0 <= c < |bits| => if bits[c] then ONE else ZERO)
  }

  /** x or 1 - x */
  function Literal(bit: bool, x: Quad): Quad { if bit then x else QSub(ONE, x) }

  ghost function EqTo(p: Row, bits: seq<bool>, k: nat): Quad
    requires k <= |p| && k <= |bits|
  {
    if k == 0 then ONE else QMul(EqTo(p, bits, k - 1), Literal(bits[k - 1], p[k - 1]))
  }

  ghost function LinearTo(p: Row, family: nat, k: nat): Quad
    requires k <= |p|
  {
    if k == 0 then ZERO else QAdd(LinearTo(p, family, k - 1), QScale(p[k - 1], Scalar(family, k - 1)))
  }

  ghost function Factor(p: Row, spec: Spec): Quad { FactorOf(spec, LinearTo(p, spec.family, |p|)) }

  /** The polynomial being summed. */
  ghost function Summand(p: Row, bits: seq<bool>, spec: Spec): Quad
    requires |p| == |bits|
  {
    QMul(EqTo(p, bits, |p|), Factor(p, spec))
  }

  /** Sum of the summand over all Boolean values of the coordinates from r on. */
  ghost function CubeSum(p: Row, bits: seq<bool>, spec: Spec, r: nat): Quad
    requires |p| == |bits| && r <= |p|
    decreases |p| - r
  {
    if r == |p| then Summand(p, bits, spec)
    else QAdd(CubeSum(p[r := ZERO], bits, spec, r + 1), CubeSum(p[r := ONE], bits, spec, r + 1))
  }

  /** The round polynomial as a function of the round variable. */
  ghost function RoundAt(p: Row, bits: seq<bool>, spec: Spec, r: nat, x: Quad): Quad
    requires |p| == |bits| && r < |p|
  {
    CubeSum(p[r := x], bits, spec, r + 1)
  }

  // ------------------------------------------------- the cube sum collapses to one term

  ghost function Filled(p: Row, bits: seq<bool>, r: nat): (q: Row)
    requires |p| == |bits| && r <= |p|
    ensures |q| == |p|
  {
    p[..r] + BitPoint(bits)[r..]
  }

  lemma {:induction false} EqZero(p: Row, bits: seq<bool>, k: nat, c: nat)
    requires c < k <= |p| && k <= |bits| && Literal(bits[c], p[c]) == ZERO
    ensures EqTo(p, bits, k) == ZERO
  {
    hide QMul, Literal;
    if c == k - 1 {
      QMulZero(EqTo(p, bits, k - 1));
    } else {
      EqZero(p, bits, k - 1, c);
      QMulZero(Literal(bits[k - 1], p[k - 1]));
    }
  }

  lemma LiteralOff(bit: bool)
    ensures Literal(bit, if bit then ZERO else ONE) == ZERO
    ensures Literal(bit, if bit then ONE else ZERO) == ONE
  {
  }

  lemma {:induction false} CubeSumCollapses(p: Row, bits: seq<bool>, spec: Spec, r: nat)
    requires |p| == |bits| && r <= |p|
    ensures CubeSum(p, bits, spec, r) == Summand(Filled(p, bits, r), bits, spec)
    decreases |p| - r
  {
    hide QAdd, QMul, Factor, Literal, EqTo;
    if r == |p| {
      assert Filled(p, bits, r) == p;
    } else {
      var on, off := p[r := if bits[r] then ONE else ZERO], p[r := if bits[r] then ZERO else ONE];
      CubeSumCollapses(on, bits, spec, r + 1);
      CubeSumCollapses(off, bits, spec, r + 1);
      assert Filled(on, bits, r + 1) == Filled(p, bits, r);
      var q := Filled(off, bits, r + 1);
      LiteralOff(bits[r]);
      assert q[r] == off[r];
      EqZero(q, bits, |q|, r);
      QMulZero(Factor(q, spec));
      QAddZero(CubeSum(on, bits, spec, r + 1));
    }
  }

  /** Consecutive claims: g_r(0) + g_r(1) is the sum with coordinate r still free. */
  lemma RoundSplits(p: Row, bits: seq<bool>, spec: Spec, r: nat)
    requires |p| == |bits| && r < |p|
    ensures QAdd(RoundAt(p, bits, spec, r, ZERO), RoundAt(p, bits, spec, r, ONE)) == CubeSum(p, bits, spec, r)
  {
    hide QAdd;
  }

  // --------------------------------------------- one coordinate at a time, the others fixed

  ghost function EqSkip(p: Row, bits: seq<bool>, k: nat, r: nat): Quad
    requires k <= |p| && k <= |bits|
  {
    if k == 0 then ONE
    else if k - 1 == r then EqSkip(p, bits, k - 1, r)
    else QMul(EqSkip(p, bits, k - 1, r), Literal(bits[k - 1], p[k - 1]))
  }

  ghost function LinearSkip(p: Row, family: nat, k: nat, r: nat): Quad
    requires k <= |p|
  {
    if k == 0 then ZERO
    else if k - 1 == r then LinearSkip(p, family, k - 1, r)
    else QAdd(LinearSkip(p, family, k - 1, r), QScale(p[k - 1], Scalar(family, k - 1)))
  }

  lemma {:induction false} EqSplits(p: Row, bits: seq<bool>, k: nat, r: nat, x: Quad)
    requires k <= |p| == |bits| && r < |p|
    ensures EqTo(p[r := x], bits, k)
         == if r < k then QMul(EqSkip(p, bits, k, r), Literal(bits[r], x)) else EqSkip(p, bits, k, r)
  {
    hide QMul, Literal;
    if k > 0 {
      EqSplits(p, bits, k - 1, r, x);
      if r < k - 1 {
        var e, l, m := EqSkip(p, bits, k - 1, r), Literal(bits[r], x), Literal(bits[k - 1], p[k - 1]);
        QMulAssoc(e, l, m);
        QMulComm(l, m);
        QMulAssoc(e, m, l);
      }
    }
  }

  lemma {:induction false} LinearSplits(p: Row, family: nat, k: nat, r: nat, x: Quad)
    requires k <= |p| && r < |p|
    ensures LinearTo(p[r := x], family, k)
         == if r < k then QAdd(LinearSkip(p, family, k, r), QScale(x, Scalar(family, r)))
            else LinearSkip(p, family, k, r)
  {
    hide QAdd, QScale, Scalar;
    if k > 0 {
      LinearSplits(p, family, k - 1, r, x);
      if r < k - 1 {
        var e := LinearSkip(p, family, k - 1, r);
        var l, m := QScale(x, Scalar(family, r)), QScale(p[k - 1], Scalar(family, k - 1));
        QAddAssoc(e, l, m);
        QAddComm(l, m);
        QAddAssoc(e, m, l);
      }
    }
  }

  lemma SummandAt(p: Row, bits: seq<bool>, spec: Spec, r: nat, x: Quad)
    requires |p| == |bits| && r < |p|
    ensures Summand(p[r := x], bits, spec)
         == QMul(QMul(EqSkip(p, bits, |p|, r), Literal(bits[r], x)),
                 FactorOf(spec, QAdd(LinearSkip(p, spec.family, |p|, r), QScale(x, Scalar(spec.family, r)))))
  {
    hide QMul, QAdd, Literal, FactorOf, QScale, Scalar, EqTo, LinearTo;
    EqSplits(p, bits, |p|, r, x);
    LinearSplits(p, spec.family, |p|, r, x);
  }

  // -------------------------------------------------------- its polynomial in one variable

  ghost function Power(n: nat, a: Quad, b: Quad, e: nat): (c: Row)
    ensures |c| == n
  {
    if e == 0 then Constant(n, ONE) else TimesLinear(Power(n, a, b, e - 1), a, b)
  }

  lemma {:induction false} PowerEval(n: nat, a: Quad, b: Quad, e: nat, x: Quad)
    requires e < n
    ensures DegreeAtMost(Power(n, a, b, e), e)
    ensures Eval(Power(n, a, b, e), x) == QPow(QAdd(a, QMul(b, x)), e)
  {
    hide QMul, QAdd, Eval, TimesLinear;
    if e == 0 {
      ConstantEval(n, ONE, x);
    } else {
      PowerEval(n, a, b, e - 1, x);
      TimesLinearDegree(Power(n, a, b, e - 1), a, b, e - 1);
      TimesLinearEval(Power(n, a, b, e - 1), a, b, x);
    }
  }

  ghost function FactorPoly(n: nat, spec: Spec, a: Quad, b: Quad): (c: Row)
    ensures |c| == n
  {
    var w := Power(n, a, b, spec.exp);
    if spec.addOne then Plus(Constant(n, ONE), w) else Scaled(Tower(spec.tower), w)
  }

  lemma FactorPolyEval(n: nat, spec: Spec, a: Quad, b: Quad, x: Quad)
    requires spec.exp + 2 <= n
    ensures Eval(FactorPoly(n, spec, a, b), x) == FactorOf(spec, QAdd(a, QMul(b, x)))
    ensures FactorPoly(n, spec, a, b)[n - 1] == ZERO
  {
    hide QMul, QAdd, Eval, Power, QPow, Tower;
    var w := Power(n, a, b, spec.exp);
    PowerEval(n, a, b, spec.exp, x);
    ConstantEval(n, ONE, x);
    PlusEval(Constant(n, ONE), w, x);
    ScaledEval(Tower(spec.tower), w, x);
    QMulComm(Tower(spec.tower), QPow(QAdd(a, QMul(b, x)), spec.exp));
    QMulZero(Tower(spec.tower));
    QAddZero(ZERO);
  }

  /** The coefficients of the round polynomial. */
  ghost function RoundPoly(p: Row, bits: seq<bool>, spec: Spec, n: nat, r: nat): (c: Row)
    requires |p| == |bits| && r < |p|
    ensures |c| == n
  {
    var f := FactorPoly(n, spec, LinearSkip(p, spec.family, |p|, r), Embed(Scalar(spec.family, r)));
    Scaled(EqSkip(p, bits, |p|, r), if bits[r] then TimesLinear(f, ZERO, ONE) else TimesLinear(f, ONE, QNeg(ONE)))
  }

  lemma LiteralLinear(bit: bool, x: Quad)
    ensures Literal(bit, x) == if bit then QAdd(ZERO, QMul(ONE, x)) else QAdd(ONE, QMul(QNeg(ONE), x))
  {
    hide QMul, QAdd, QSub, QNeg;
    QMulOne(x);
    QAddZero(x);
    Negated(x);
    QSubIsAddNeg(ONE, x);
  }

  lemma RoundPolyEval(p: Row, bits: seq<bool>, spec: Spec, n: nat, r: nat, x: Quad)
    requires |p| == |bits| && r < |p| && spec.exp + 2 <= n
    ensures Eval(RoundPoly(p, bits, spec, n, r), x) == Summand(p[r := x], bits, spec)
  {
    hide QMul, QAdd, Eval, Literal, FactorOf, FactorPoly, TimesLinear, EqSkip, LinearSkip, Summand;
    hide QScale, Embed, Scalar, Scaled, QNeg;
    var a, s := LinearSkip(p, spec.family, |p|, r), Scalar(spec.family, r);
    var f := FactorPoly(n, spec, a, Embed(s));
    var e := EqSkip(p, bits, |p|, r);
    SummandAt(p, bits, spec, r, x);
    ScaleIsMul(x, s);
    FactorPolyEval(n, spec, a, Embed(s), x);
    LiteralLinear(bits[r], x);
    var v := FactorOf(spec, QAdd(a, QMul(Embed(s), x)));
    if bits[r] {
      TimesLinearEval(f, ZERO, ONE, x);
      ScaledEval(e, TimesLinear(f, ZERO, ONE), x);
    } else {
      TimesLinearEval(f, ONE, QNeg(ONE), x);
      ScaledEval(e, TimesLinear(f, ONE, QNeg(ONE)), x);
    }
    QMulAssoc(e, Literal(bits[r], x), v);
  }

  /** Challenges before round r, the row's own bits from r on. */
  ghost function Prefix(z: Row, bits: seq<bool>, r: nat): (p: Row)
    requires |z| == |bits| && r <= |z|
    ensures |p| == |z|
  {
    z[..r] + BitPoint(bits)[r..]
  }

  /** Faithfulness of one round: the coefficients evaluate, everywhere, to the sum over
      all Boolean suffixes. */
  lemma RoundPolyIsSum(z: Row, bits: seq<bool>, spec: Spec, n: nat, r: nat, x: Quad)
    requires |z| == |bits| && r < |z| && spec.exp + 2 <= n
    ensures Eval(RoundPoly(Prefix(z, bits, r), bits, spec, n, r), x) == RoundAt(Prefix(z, bits, r), bits, spec, r, x)
  {
    hide Eval, RoundPoly, Summand, CubeSum;
    var p := Prefix(z, bits, r);
    RoundPolyEval(p, bits, spec, n, r, x);
    CubeSumCollapses(p[r := x], bits, spec, r + 1);
    assert Filled(p[r := x], bits, r + 1) == p[r := x];
  }

  /** The claim entering round r. */
  ghost function Claim(z: Row, bits: seq<bool>, spec: Spec, r: nat): Quad
    requires |z| == |bits| && r <= |z|
  {
    CubeSum(Prefix(z, bits, r), bits, spec, r)
  }

  /** g_r(0) + g_r(1) is the claim entering the round and g_r(z_r) the one leaving it. */
  lemma ClaimsChain(z: Row, bits: seq<bool>, spec: Spec, n: nat, r: nat)
    requires |z| == |bits| && r < |z| && spec.exp + 2 <= n
    ensures var g := RoundPoly(Prefix(z, bits, r), bits, spec, n, r);
      && QAdd(Eval(g, ZERO), Eval(g, ONE)) == Claim(z, bits, spec, r)
      && Eval(g, z[r]) == Claim(z, bits, spec, r + 1)
  {
    hide Eval, RoundPoly, QAdd, Summand;
    var p := Prefix(z, bits, r);
    RoundPolyIsSum(z, bits, spec, n, r, ZERO);
    RoundPolyIsSum(z, bits, spec, n, r, ONE);
    RoundPolyIsSum(z, bits, spec, n, r, z[r]);
    RoundSplits(p, bits, spec, r);
    var q := Prefix(z, bits, r + 1);
    CubeSumCollapses(p[r := z[r]], bits, spec, r + 1);
    CubeSumCollapses(q, bits, spec, r + 1);
    assert Filled(p[r := z[r]], bits, r + 1) == Filled(q, bits, r + 1);
  }
}

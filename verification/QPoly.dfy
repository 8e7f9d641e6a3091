/** Polynomials over QM31 as coefficient rows of a fixed length, evaluated by Horner's
    rule, and uniqueness of interpolation. */
module QPoly {
  import opened QM31
  import opened Determinant

  /** Sum over j >= i of c[j] * x^(j - i). */
  ghost function EvalFrom(c: Row, x: Quad, i: nat): Quad
    requires i <= |c|
    decreases |c| - i
  {
    if i == |c| then ZERO else QAdd(c[i], QMul(x, EvalFrom(c, x, i + 1)))
  }

  ghost function Eval(c: Row, x: Quad): Quad { EvalFrom(c, x, 0) }

  function Previous(c: Row, i: nat): Quad
    requires i <= |c|
  {
    if i == 0 then ZERO else c[i - 1]
  }

  /** No coefficient above degree d. */
  ghost predicate DegreeAtMost(c: Row, d: nat)
  {
    forall i :: d < i < |c| ==> c[i] == ZERO
  }

  // ------------------------------------------------------------ products with a + b x

  function TimesLinear(c: Row, a: Quad, b: Quad): (r: Row)
    ensures |r| == |c|
  {
    seq(|c|, i requires 0 <= i < |c| => QAdd(QMul(b, Previous(c, i)), QMul(a, c[i])))
  }

  lemma TimesLinearDegree(c: Row, a: Quad, b: Quad, d: nat)
    requires DegreeAtMost(c, d)
    ensures DegreeAtMost(TimesLinear(c, a, b), d + 1)
  {
    hide QAdd, QMul;
    QMulZero(a);
    QMulZero(b);
    QAddZero(ZERO);
  }

  lemma {:induction false} TimesLinearFrom(c: Row, a: Quad, b: Quad, x: Quad, i: nat)
    requires i <= |c| && c != [] && c[|c| - 1] == ZERO
    ensures EvalFrom(TimesLinear(c, a, b), x, i)
         == QAdd(QMul(b, Previous(c, i)), QMul(QAdd(a, QMul(b, x)), EvalFrom(c, x, i)))
    decreases |c| - i
  {
    hide QAdd, QMul;
    var l := QAdd(a, QMul(b, x));
    if i == |c| {
      QMulZero(b);
      QMulZero(l);
      QAddZero(ZERO);
    } else {
      TimesLinearFrom(c, a, b, x, i + 1);
      HornerLinear(QMul(b, Previous(c, i)), a, b, c[i], x, EvalFrom(c, x, i + 1));
    }
  }

  /** (p + a c) + x (b c + (a + b x) e) == p + (a + b x)(c + x e) */
  lemma HornerLinear(p: Quad, a: Quad, b: Quad, c: Quad, x: Quad, e: Quad)
    ensures var l := QAdd(a, QMul(b, x));
      QAdd(QAdd(p, QMul(a, c)), QMul(x, QAdd(QMul(b, c), QMul(l, e)))) == QAdd(p, QMul(l, QAdd(c, QMul(x, e))))
  {
    hide QAdd, QMul;
    var l := QAdd(a, QMul(b, x));
    QMulAdd(x, QMul(b, c), QMul(l, e));
    QMulAdd(l, c, QMul(x, e));
    QMulAdd(c, a, QMul(b, x));
    // x (b c) == (b x) c
    QMulAssoc(x, b, c);
    QMulComm(x, b);
    // x (l e) == l (x e)
    QMulAssoc(x, l, e);
    QMulComm(x, l);
    QMulAssoc(l, x, e);
    var ac, bc, le := QMul(a, c), QMul(QMul(b, x), c), QMul(l, QMul(x, e));
    QAddAssoc(p, ac, QAdd(bc, le));
    QAddAssoc(ac, bc, le);
  }

  lemma TimesLinearEval(c: Row, a: Quad, b: Quad, x: Quad)
    requires c != [] && c[|c| - 1] == ZERO
    ensures Eval(TimesLinear(c, a, b), x) == QMul(QAdd(a, QMul(b, x)), Eval(c, x))
  {
    hide QAdd, QMul, EvalFrom, TimesLinear;
    TimesLinearFrom(c, a, b, x, 0);
    QMulZero(b);
    QAddZero(QMul(QAdd(a, QMul(b, x)), Eval(c, x)));
  }

  // --------------------------------------------------------------- scaling and adding

  function Scaled(t: Quad, c: Row): (r: Row)
    ensures |r| == |c|
  {
    seq(|c|, i requires 0 <= i < |c| => QMul(t, c[i]))
  }

  function Plus(c: Row, d: Row): (r: Row)
    requires |c| == |d|
    ensures |r| == |c|
  {
    seq(|c|, i requires 0 <= i < |c| => QAdd(c[i], d[i]))
  }

  lemma {:induction false} ScaledFrom(t: Quad, c: Row, x: Quad, i: nat)
    requires i <= |c|
    ensures EvalFrom(Scaled(t, c), x, i) == QMul(t, EvalFrom(c, x, i))
    decreases |c| - i
  {
    hide QAdd, QMul;
    if i == |c| {
      QMulZero(t);
    } else {
      ScaledFrom(t, c, x, i + 1);
      var e := EvalFrom(c, x, i + 1);
      QMulAdd(t, c[i], QMul(x, e));
      QMulAssoc(x, t, e);
      QMulComm(x, t);
      QMulAssoc(t, x, e);
    }
  }

  lemma {:induction false} PlusFrom(c: Row, d: Row, x: Quad, i: nat)
    requires i <= |c| == |d|
    ensures EvalFrom(Plus(c, d), x, i) == QAdd(EvalFrom(c, x, i), EvalFrom(d, x, i))
    decreases |c| - i
  {
    hide QAdd, QMul;
    if i == |c| {
      QAddZero(ZERO);
    } else {
      PlusFrom(c, d, x, i + 1);
      var e, f := EvalFrom(c, x, i + 1), EvalFrom(d, x, i + 1);
      QMulAdd(x, e, f);
      QAddSwap(c[i], d[i], QMul(x, e), QMul(x, f));
    }
  }

  /** The constant polynomial. */
  function Constant(n: nat, k: Quad): (r: Row)
    ensures |r| == n
  {
    seq(n, i => if i == 0 then k else ZERO)
  }

  lemma {:induction false} ZeroTail(c: Row, x: Quad, i: nat)
    requires i <= |c| && forall j :: i <= j < |c| ==> c[j] == ZERO
    ensures EvalFrom(c, x, i) == ZERO
    decreases |c| - i
  {
    hide QAdd, QMul;
    if i < |c| {
      ZeroTail(c, x, i + 1);
      QMulZero(x);
      QAddZero(ZERO);
    }
  }

  lemma ConstantEval(n: nat, k: Quad, x: Quad)
    requires n > 0
    ensures Eval(Constant(n, k), x) == k
  {
    hide QAdd, QMul;
    ZeroTail(Constant(n, k), x, 1);
    QMulZero(x);
    QAddZero(k);
  }

  // -------------------------------------------------------- values at zero and at one

  ghost function SumFrom(c: Row, i: nat): Quad
    requires i <= |c|
    decreases |c| - i
  {
    if i == |c| then ZERO else QAdd(c[i], SumFrom(c, i + 1))
  }

  lemma {:induction false} EvalOne(c: Row, i: nat)
    requires i <= |c|
    ensures EvalFrom(c, ONE, i) == SumFrom(c, i)
    decreases |c| - i
  {
    hide QAdd, QMul;
    if i < |c| {
      EvalOne(c, i + 1);
      QMulOne(EvalFrom(c, ONE, i + 1));
    }
  }

  lemma EvalZero(c: Row)
    requires c != []
    ensures Eval(c, ZERO) == c[0]
  {
    hide QAdd, QMul;
    QMulZero(EvalFrom(c, ZERO, 1));
    QAddZero(c[0]);
  }

  // ----------------------------------------------------------------- interpolation

  ghost function Quotient(c: Row, a: Quad): (q: Row)
    requires c != []
    ensures |q| == |c| - 1
  {
    seq(|c| - 1, i requires 0 <= i < |c| - 1 => EvalFrom(c, a, i + 1))
  }

  /** c(x) - c(a) == (x - a) q(x) */
  lemma {:induction false} QuotientFrom(c: Row, a: Quad, x: Quad, i: nat)
    requires i < |c|
    ensures QSub(EvalFrom(c, x, i), EvalFrom(c, a, i)) == QMul(QSub(x, a), EvalFrom(Quotient(c, a), x, i))
    decreases |c| - i
  {
    hide QAdd, QMul, QSub;
    var q := Quotient(c, a);
    if i == |c| - 1 {
      assert EvalFrom(c, x, i + 1) == ZERO && EvalFrom(c, a, i + 1) == ZERO;
      QMulZero(x);
      QMulZero(a);
      QSubSelf(EvalFrom(c, x, i));
      QMulZero(QSub(x, a));
    } else {
      QuotientFrom(c, a, x, i + 1);
      HornerQuotient(c[i], x, EvalFrom(c, x, i + 1), a, EvalFrom(c, a, i + 1), EvalFrom(q, x, i + 1));
    }
  }

  lemma HornerQuotient(c: Quad, x: Quad, e: Quad, a: Quad, f: Quad, q: Quad)
    requires QSub(e, f) == QMul(QSub(x, a), q)
    ensures QSub(QAdd(c, QMul(x, e)), QAdd(c, QMul(a, f))) == QMul(QSub(x, a), QAdd(f, QMul(x, q)))
  {
    hide QAdd, QMul, QSub, QNeg;
    var d := QSub(x, a);
    DropCommon(c, QMul(x, e), QMul(a, f));
    // x e - a f == x (e - f) + (x - a) f
    MulElim(x, e, ONE, f);
    QMulOne(f);
    QMulOne(QMul(x, f));
    MulElim(f, x, ONE, a);
    QMulOne(a);
    QMulOne(QMul(a, f));
    Telescope(QMul(x, e), QMul(x, f), QMul(a, f));
    // x (d q) == d (x q)
    QMulAssoc(x, d, q);
    QMulComm(x, d);
    QMulAssoc(d, x, q);
    QMulAdd(d, f, QMul(x, q));
    QAddComm(QMul(d, f), QMul(d, QMul(x, q)));
  }

  lemma DropCommon(c: Quad, u: Quad, v: Quad)
    ensures QSub(QAdd(c, u), QAdd(c, v)) == QSub(u, v)
  {
    hide QAdd, QSub, QNeg;
    QSubIsAddNeg(QAdd(c, u), QAdd(c, v));
    QNegAdd(c, v);
    QAddSwap(c, u, QNeg(c), QNeg(v));
    QAddNeg(c);
    QAddZero(QAdd(u, QNeg(v)));
    QSubIsAddNeg(u, v);
  }

  lemma Telescope(u: Quad, v: Quad, w: Quad)
    ensures QSub(u, w) == QAdd(QSub(u, v), QSub(v, w))
  {
    hide QAdd, QSub, QNeg;
    QSubIsAddNeg(u, w);
    QSubIsAddNeg(u, v);
    QSubIsAddNeg(v, w);
    QAddAssoc(u, QNeg(v), QAdd(v, QNeg(w)));
    QAddAssoc(QNeg(v), v, QNeg(w));
    QAddComm(QNeg(v), v);
    QAddNeg(v);
    QAddZero(QNeg(w));
  }

  ghost predicate DistinctPoints(xs: Row)
  {
    forall i, j :: 0 <= i < j < |xs| ==> xs[i] != xs[j]
  }

  /** A row of n coefficients that vanishes at n distinct points is zero. */
  lemma {:induction false} ManyRoots(c: Row, xs: Row)
    requires |c| == |xs| && DistinctPoints(xs)
    requires forall i :: 0 <= i < |xs| ==> Eval(c, xs[i]) == ZERO
    ensures forall i :: 0 <= i < |c| ==> c[i] == ZERO
    decreases |c|
  {
    hide QAdd, QMul, QSub, EvalFrom;
    if c != [] {
      var n := |c| - 1;
      var a := xs[n];
      var q := Quotient(c, a);
      forall i | 0 <= i < n ensures Eval(q, xs[..n][i]) == ZERO {
        QuotientFrom(c, a, xs[i], 0);
        QSubSelf(ZERO);
        QNoZeroDivisors(QSub(xs[i], a), Eval(q, xs[i]));
        if QSub(xs[i], a) == ZERO { QSubZeroOnly(xs[i], a); }
      }
      ManyRoots(q, xs[..n]);
      forall i | 0 <= i < |c| ensures c[i] == ZERO {
        ZeroQuotient(c, a, i);
      }
    }
  }

  lemma ZeroQuotient(c: Row, a: Quad, i: nat)
    requires i < |c| && Eval(c, a) == ZERO
    requires forall j :: 0 <= j < |c| - 1 ==> Quotient(c, a)[j] == ZERO
    ensures c[i] == ZERO
  {
    hide QAdd, QMul;
    var q := Quotient(c, a);
    if i > 0 { assert q[i - 1] == EvalFrom(c, a, i); }
    if i < |c| - 1 { assert q[i] == EvalFrom(c, a, i + 1); }
    assert EvalFrom(c, a, i) == QAdd(c[i], QMul(a, EvalFrom(c, a, i + 1)));
    QMulZero(a);
    QAddZero(c[i]);
  }

  /** Two rows of n coefficients that agree at n distinct points are equal. */
  lemma SamePolynomial(c: Row, d: Row, xs: Row)
    requires |c| == |d| == |xs| && DistinctPoints(xs)
    requires forall i :: 0 <= i < |xs| ==> Eval(c, xs[i]) == Eval(d, xs[i])
    ensures c == d
  {
    hide QAdd, QMul, QSub, EvalFrom, QNeg;
    var m := Scaled(QNeg(ONE), d);
    var e := Plus(c, m);
    forall i | 0 <= i < |xs| ensures Eval(e, xs[i]) == ZERO {
      PlusFrom(c, m, xs[i], 0);
      ScaledFrom(QNeg(ONE), d, xs[i], 0);
      Negated(Eval(d, xs[i]));
      QAddNeg(Eval(d, xs[i]));
    }
    ManyRoots(e, xs);
    forall i | 0 <= i < |c| ensures c[i] == d[i] {
      assert e[i] == QAdd(c[i], QMul(QNeg(ONE), d[i]));
      Negated(d[i]);
      QSubIsAddNeg(c[i], d[i]);
      QSubZeroOnly(c[i], d[i]);
    }
  }

  lemma Negated(x: Quad)
    ensures QMul(QNeg(ONE), x) == QNeg(x)
  {
    hide QMul, QNeg;
    QMulNeg(x, ONE);
    QMulOne(x);
  }
}

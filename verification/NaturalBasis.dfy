/** The natural line basis as coefficient vectors.

  N_i is the product, over the set bits k of i, of the k-fold doubling of x under
  t -> 2 t^2 - 1.  The tables are built by in-place convolutions. */
module NaturalBasis {
  import opened M31
  import opened QM31
  import opened Bits
  import opened Determinant
  import opened QPoly
  import opened Lagrange
  import CB = CircleBasis

  type Poly = seq<Elem>

  ghost function At(p: Poly, x: Quad): Quad { Eval(EmbedRow(p), x) }

  // -------------------------------------------------------------------- polynomial product

  /** p + c * x^l * b */
  function AddRow(p: Poly, c: Elem, b: Poly, l: nat): (r: Poly)
    ensures |r| == |p|
  {
    seq(|p|, k requires 0 <= k < |p| => if l <= k < l + |b| then Add(p[k], Mul(c, b[k - l])) else p[k])
  }

  function ProductTo(a: Poly, b: Poly, l: nat): (r: Poly)
    requires a != [] && b != [] && l <= |a|
    ensures |r| == |a| + |b| - 1
  {
    if l == 0 then seq(|a| + |b| - 1, _ => 0) else AddRow(ProductTo(a, b, l - 1), a[l - 1], b, l - 1)
  }

  /** The double loop over the coefficients of both factors. */
  method MulPoly(a: Poly, b: Poly) returns (poly: Poly)
    requires a != [] && b != []
    ensures poly == ProductTo(a, b, |a|)
  {
    hide Add, Mul;
    poly := seq(|a| + |b| - 1, _ => 0);
    for l := 0 to |a|
      invariant poly == ProductTo(a, b, l)
    {
      ghost var before := poly;
      for r := 0 to |b|
        invariant |poly| == |before|
        invariant forall k :: 0 <= k < |poly| ==>
          poly[k] == if l <= k < l + r then Add(before[k], Mul(a[l], b[k - l])) else before[k]
      {
        poly := poly[l + r := Add(poly[l + r], Mul(a[l], b[r]))];
      }
      assert poly == AddRow(before, a[l], b, l);
    }
  }

  ghost function Head(c: Row, x: Quad, l: nat): Quad
    requires l <= |c|
  {
    if l == 0 then ZERO else QAdd(Head(c, x, l - 1), QMul(c[l - 1], QPow(x, l - 1)))
  }

  lemma {:induction false} HeadRest(c: Row, x: Quad, i: nat)
    requires i <= |c|
    ensures QAdd(Head(c, x, i), QMul(QPow(x, i), EvalFrom(c, x, i))) == Eval(c, x)
  {
    hide QAdd, QMul;
    if i == 0 {
      QMulOne(Eval(c, x));
      QAddZero(Eval(c, x));
    } else {
      HeadRest(c, x, i - 1);
      var w, e := QPow(x, i - 1), EvalFrom(c, x, i);
      QMulAdd(w, c[i - 1], QMul(x, e));
      QMulComm(w, c[i - 1]);
      QMulAssoc(w, x, e);
      QMulComm(w, x);
      QAddAssoc(Head(c, x, i - 1), QMul(c[i - 1], w), QMul(QMul(x, w), e));
    }
  }

  lemma HeadAll(c: Row, x: Quad)
    ensures Head(c, x, |c|) == Eval(c, x)
  {
    hide QAdd, QMul, Head, Eval, QPow;
    HeadRest(c, x, |c|);
    assert EvalFrom(c, x, |c|) == ZERO;
    QMulZero(QPow(x, |c|));
    QAddZero(Head(c, x, |c|));
  }

  ghost function TailAt(b: Row, x: Quad, j: nat): Quad { if j <= |b| then EvalFrom(b, x, j) else ZERO }

  /** What adding c * x^l * b contributes to the value of the coefficients from i on. */
  ghost function Contribution(c: Quad, b: Row, x: Quad, l: nat, i: nat): Quad
  {
    if i <= l then QMul(c, QMul(QPow(x, l - i), Eval(b, x))) else QMul(c, TailAt(b, x, i - l))
  }

  lemma EmbedEntry(p: Poly, c: Elem, b: Poly, l: nat, i: nat)
    requires i < |p|
    ensures EmbedRow(AddRow(p, c, b, l))[i]
         == if l <= i < l + |b| then QAdd(EmbedRow(p)[i], QMul(Embed(c), EmbedRow(b)[i - l])) else EmbedRow(p)[i]
  {
    hide Add, Mul, QAdd, QMul, Embed;
    if l <= i < l + |b| {
      EmbedAdd(p[i], Mul(c, b[i - l]));
      EmbedMul(c, b[i - l]);
    }
  }

  lemma {:induction false} AddRowFrom(p: Poly, c: Elem, b: Poly, l: nat, x: Quad, i: nat)
    requires i <= |p| && b != [] && l + |b| <= |p|
    ensures EvalFrom(EmbedRow(AddRow(p, c, b, l)), x, i)
         == QAdd(EvalFrom(EmbedRow(p), x, i), Contribution(Embed(c), EmbedRow(b), x, l, i))
    decreases |p| - i
  {
    hide Add, Mul, QAdd, QMul, Embed, AddRow, EmbedRow, Contribution;
    var q, e, f, c' := EmbedRow(AddRow(p, c, b, l)), EmbedRow(p), EmbedRow(b), Embed(c);
    if i == |p| {
      LastContribution(c', f, x, l, i);
      QAddZero(ZERO);
    } else {
      AddRowFrom(p, c, b, l, x, i + 1);
      EmbedEntry(p, c, b, l, i);
      ContributionStep(c', f, x, l, i);
      var r := Contribution(c', f, x, l, i + 1);
      var s := EvalFrom(e, x, i + 1);
      QMulAdd(x, s, r);
      if l <= i < l + |b| {
        QAddSwap(e[i], QMul(c', f[i - l]), QMul(x, s), QMul(x, r));
      } else {
        QAddAssoc(e[i], QMul(x, s), QMul(x, r));
      }
    }
  }

  lemma LastContribution(c: Quad, b: Row, x: Quad, l: nat, i: nat)
    requires b != [] && l + |b| <= i
    ensures Contribution(c, b, x, l, i) == ZERO
  {
    hide QMul, QAdd;
    QMulZero(c);
  }

  lemma ContributionStep(c: Quad, b: Row, x: Quad, l: nat, i: nat)
    requires b != []
    ensures Contribution(c, b, x, l, i)
         == if l <= i < l + |b| then QAdd(QMul(c, b[i - l]), QMul(x, Contribution(c, b, x, l, i + 1)))
            else QMul(x, Contribution(c, b, x, l, i + 1))
  {
    hide QMul, QAdd;
    if i < l {
      var w := QMul(QPow(x, l - i - 1), Eval(b, x));
      Pull(x, c, w);
      QMulAssoc(x, QPow(x, l - i - 1), Eval(b, x));
    } else if i < l + |b| {
      var e := EvalFrom(b, x, i - l + 1);
      QMulAdd(c, b[i - l], QMul(x, e));
      Pull(x, c, e);
      if i == l { QMulOne(Eval(b, x)); }
    } else {
      QMulZero(c);
      QMulZero(x);
    }
  }

  /** x (c w) == c (x w) */
  lemma Pull(x: Quad, c: Quad, w: Quad)
    ensures QMul(x, QMul(c, w)) == QMul(c, QMul(x, w))
  {
    hide QMul;
    QMulAssoc(x, c, w);
    QMulComm(x, c);
    QMulAssoc(c, x, w);
  }

  lemma {:induction false} ProductToEval(a: Poly, b: Poly, l: nat, x: Quad)
    requires a != [] && b != [] && l <= |a|
    ensures At(ProductTo(a, b, l), x) == QMul(Head(EmbedRow(a), x, l), At(b, x))
  {
    hide QAdd, QMul, Embed, AddRow, EvalFrom, Eval;
    var v := At(b, x);
    if l == 0 {
      ZeroEval(|a| + |b| - 1, x);
      QMulZero(v);
    } else {
      ProductToEval(a, b, l - 1, x);
      AddRowEval(ProductTo(a, b, l - 1), a[l - 1], b, l - 1, x);
      var c, w := Embed(a[l - 1]), QPow(x, l - 1);
      QMulAssoc(c, w, v);
      QMulAdd(v, Head(EmbedRow(a), x, l - 1), QMul(c, w));
    }
  }

  lemma AddRowEval(p: Poly, c: Elem, b: Poly, l: nat, x: Quad)
    requires b != [] && l + |b| <= |p|
    ensures At(AddRow(p, c, b, l), x) == QAdd(At(p, x), QMul(Embed(c), QMul(QPow(x, l), At(b, x))))
  {
    hide QAdd, QMul, Embed, AddRow, EmbedRow, EvalFrom;
    AddRowFrom(p, c, b, l, x, 0);
  }

  lemma ZeroEval(n: nat, x: Quad)
    ensures At(seq(n, _ => 0), x) == ZERO
  {
    hide EvalFrom, Embed;
    EmbedZeroOne();
    ZeroTail(EmbedRow(seq(n, _ => 0)), x, 0);
  }

  /** The convolution multiplies values. */
  lemma ProductEval(a: Poly, b: Poly, x: Quad)
    requires a != [] && b != []
    ensures At(ProductTo(a, b, |a|), x) == QMul(At(a, x), At(b, x))
  {
    hide QMul, Eval, Embed;
    ProductToEval(a, b, |a|, x);
    HeadAll(EmbedRow(a), x);
  }

  // --------------------------------------------------------- leading coefficient and parity

  lemma {:induction false} ProductHigh(a: Poly, b: Poly, l: nat, k: nat)
    requires a != [] && b != [] && l <= |a| && l + |b| - 1 <= k < |a| + |b| - 1
    ensures ProductTo(a, b, l)[k] == 0
  {
    hide Add, Mul;
    if l > 0 { ProductHigh(a, b, l - 1, k); }
  }

  lemma ProductNext(a: Poly, b: Poly, l: nat)
    requires a != [] && b != [] && l < |a|
    ensures ProductTo(a, b, l + 1) == AddRow(ProductTo(a, b, l), a[l], b, l)
  {
    hide AddRow;
  }

  lemma AddRowLead(p: Poly, c: Elem, b: Poly, l: nat)
    requires b != [] && |p| == l + |b| && p[|p| - 1] == 0
    ensures AddRow(p, c, b, l)[|p| - 1] == Mul(c, b[|b| - 1])
  {
    hide Add, Mul;
    AddZero(Mul(c, b[|b| - 1]));
  }

  lemma ProductLead(a: Poly, b: Poly)
    requires a != [] && b != []
    ensures var p := ProductTo(a, b, |a|); p[|p| - 1] == Mul(a[|a| - 1], b[|b| - 1])
  {
    hide Add, Mul, ProductTo, AddRow;
    var l := |a| - 1;
    var p := ProductTo(a, b, l);
    ProductHigh(a, b, l, |p| - 1);
    ProductNext(a, b, l);
    AddRowLead(p, a[l], b, l);
  }

  /** Only monomials whose degree has the given parity. */
  predicate HasParity(p: Poly, e: nat)
  {
    forall k :: 0 <= k < |p| && k % 2 != e % 2 ==> p[k] == 0
  }

  lemma AddRowParity(p: Poly, c: Elem, b: Poly, l: nat, e: nat, f: nat)
    requires HasParity(p, e + f) && HasParity(b, f) && (l % 2 != e % 2 ==> c == 0)
    ensures HasParity(AddRow(p, c, b, l), e + f)
  {
    hide Add, Mul;
    AddZero(0);
    MulZero(c);
    forall k | 0 <= k < |p| && k % 2 != (e + f) % 2 ensures AddRow(p, c, b, l)[k] == 0 {
      if l <= k < l + |b| {
        OddOneOut(k, l, e, f);
        MulZero(b[k - l]);
      }
    }
  }

  lemma OddOneOut(k: nat, l: nat, e: nat, f: nat)
    requires l <= k && k % 2 != (e + f) % 2
    ensures l % 2 != e % 2 || (k - l) % 2 != f % 2
  {
  }

  lemma {:induction false} ProductParity(a: Poly, b: Poly, l: nat, e: nat, f: nat)
    requires a != [] && b != [] && l <= |a| && HasParity(a, e) && HasParity(b, f)
    ensures HasParity(ProductTo(a, b, l), e + f)
  {
    hide AddRow;
    if l > 0 {
      ProductParity(a, b, l - 1, e, f);
      AddRowParity(ProductTo(a, b, l - 1), a[l - 1], b, l - 1, e, f);
    }
  }

  // ------------------------------------------------------------------- the doubling factors

  /** The k-fold doubling of x: degree 2^k, one parity, leading coefficient 2^(2^k - 1). */
  ghost predicate IsFactor(p: Poly, k: nat)
  {
    && |p| == Pow2(k) + 1
    && HasParity(p, if k == 0 then 1 else 0)
    && p[Pow2(k)] == Pow(2, Pow2(k) - 1)
    && (forall x: Quad :: At(p, x) == CB.Phi(k, x))
  }

  lemma FirstFactor()
    ensures IsFactor([0, 1], 0)
  {
    hide QAdd, QMul, CB.QDouble;
    forall x: Quad ensures At([0, 1], x) == x {
      var c := EmbedRow([0, 1]);
      assert c == [ZERO, ONE];
      assert EvalFrom(c, x, 2) == ZERO;
      QMulZero(x);
      QAddZero(ONE);
      QMulOne(x);
      QAddZero(x);
      assert EvalFrom(c, x, 1) == QAdd(ONE, QMul(x, EvalFrom(c, x, 2)));
    }
    assert Pow(2, 0) == 1;
    assert Pow2(0) == 1;
  }

  function Doubled(p: Poly): (r: Poly)
    ensures |r| == |p|
  {
    seq(|p|, k requires 0 <= k < |p| => Add(p[k], p[k]))
  }

  lemma DoubledEval(p: Poly, x: Quad)
    ensures At(Doubled(p), x) == QAdd(At(p, x), At(p, x))
  {
    hide QAdd, Eval, Embed, Add;
    var e := EmbedRow(p);
    forall k | 0 <= k < |p| ensures EmbedRow(Doubled(p))[k] == Plus(e, e)[k] { EmbedAdd(p[k], p[k]); }
    assert EmbedRow(Doubled(p)) == Plus(e, e);
    PlusEval(e, e, x);
  }

  lemma LessOneEval(p: Poly, x: Quad)
    requires p != []
    ensures At(p[0 := Sub(p[0], 1)], x) == QSub(At(p, x), ONE)
  {
    hide QAdd, QSub, QMul, QNeg, Sub, Embed;
    var q, e := EmbedRow(p[0 := Sub(p[0], 1)]), EmbedRow(p);
    SameTail(q, e, x, 1);
    EmbedSub(p[0], 1);
    EmbedZeroOne();
    var t := QMul(x, EvalFrom(e, x, 1));
    assert Eval(q, x) == QAdd(QSub(e[0], ONE), t);
    QSubIsAddNeg(e[0], ONE);
    QSubIsAddNeg(QAdd(e[0], t), ONE);
    QAddAssoc(e[0], QNeg(ONE), t);
    QAddComm(QNeg(ONE), t);
    QAddAssoc(e[0], t, QNeg(ONE));
  }

  lemma {:induction false} SameTail(c: Row, d: Row, x: Quad, i: nat)
    requires |c| == |d| && i <= |c| && forall j :: i <= j < |c| ==> c[j] == d[j]
    ensures EvalFrom(c, x, i) == EvalFrom(d, x, i)
    decreases |c| - i
  {
    hide QAdd, QMul;
    if i < |c| { SameTail(c, d, x, i + 1); }
  }

  /** 2 f^2 - 1, as the code forms it. */
  function NextFactor(f: Poly): (r: Poly)
    requires f != []
    ensures |r| == 2 * |f| - 1
  {
    var squared := Doubled(ProductTo(f, f, |f|));
    squared[0 := Sub(squared[0], 1)]
  }

  lemma NextFactorEval(f: Poly, x: Quad)
    requires f != []
    ensures At(NextFactor(f), x) == CB.QDouble(At(f, x))
  {
    hide QAdd, QSub, QMul, Sub, Eval, EmbedRow, ProductTo, Doubled;
    ProductEval(f, f, x);
    DoubledEval(ProductTo(f, f, |f|), x);
    LessOneEval(Doubled(ProductTo(f, f, |f|)), x);
  }

  lemma NextFactorShape(f: Poly, e: nat)
    requires |f| >= 2 && HasParity(f, e)
    ensures HasParity(NextFactor(f), 0)
    ensures NextFactor(f)[2 * |f| - 2] == Mul(2, Mul(f[|f| - 1], f[|f| - 1]))
  {
    hide Mul, ProductTo;
    ProductParity(f, f, |f|, e, e);
    ProductLead(f, f);
    var p := ProductTo(f, f, |f|);
    AddSelf(p[2 * |f| - 2]);
    forall k | 0 <= k < |p| && k % 2 != 0 ensures NextFactor(f)[k] == 0 {
      assert p[k] == 0;
    }
  }

  lemma AddSelf(a: Elem)
    ensures Add(a, a) == Mul(2, a)
  {
  }

  lemma LeadSquare(k: nat)
    ensures Mul(2, Mul(Pow(2, Pow2(k) - 1), Pow(2, Pow2(k) - 1))) == Pow(2, Pow2(k + 1) - 1)
  {
    hide Mul, Pow;
    var e := Pow2(k) - 1;
    PowAdd(2, e, e);
    PowStep(2 * e);
  }

  lemma PowStep(e: nat)
    ensures Mul(2, Pow(2, e)) == Pow(2, e + 1)
  {
    hide Mul;
  }

  lemma FactorStep(f: Poly, k: nat)
    requires IsFactor(f, k)
    ensures IsFactor(NextFactor(f), k + 1)
  {
    hide Mul, Pow, NextFactor, CB.QDouble, At;
    var e := if k == 0 then 1 else 0;
    NextFactorShape(f, e);
    LeadSquare(k);
    forall x: Quad ensures At(NextFactor(f), x) == CB.Phi(k + 1, x) { NextFactorEval(f, x); }
  }

  method Factors(logSize: nat) returns (factors: seq<Poly>)
    ensures |factors| == if logSize == 0 then 1 else logSize
    ensures forall k :: 0 <= k < |factors| ==> IsFactor(factors[k], k)
  {
    hide IsFactor;
    factors := [[0, 1]];
    FirstFactor();
    for bit := 1 to if logSize == 0 then 1 else logSize
      invariant |factors| == bit
      invariant forall k :: 0 <= k < |factors| ==> IsFactor(factors[k], k)
    {
      var previous := factors[bit - 1];
      FactorLength(previous, bit - 1);
      var squared := SquareStep(previous);
      FactorStep(previous, bit - 1);
      factors := factors + [squared];
    }
  }

  lemma FactorLength(f: Poly, k: nat)
    requires IsFactor(f, k)
    ensures |f| == Pow2(k) + 1 && f != []
  {
  }

  method SquareStep(previous: Poly) returns (squared: Poly)
    requires previous != []
    ensures squared == NextFactor(previous)
  {
    hide Add, Sub, ProductTo;
    squared := MulPoly(previous, previous);
    ghost var product := squared;
    for k := 0 to |squared|
      invariant |squared| == |product|
      invariant forall i :: 0 <= i < |squared| ==>
        squared[i] == if i < k then Add(product[i], product[i]) else product[i]
    {
      squared := squared[k := Add(squared[k], squared[k])];
    }
    assert squared == Doubled(product);
    squared := squared[0 := Sub(squared[0], 1)];
  }

  // ------------------------------------------------------------------------- the basis

  function PopCount(i: nat): (c: nat)
    ensures c <= i
  {
    if i == 0 then 0 else i % 2 + PopCount(i / 2)
  }

  function TrailingZeros(i: nat): nat
    requires i > 0
  {
    if i % 2 == 1 then 0 else 1 + TrailingZeros(i / 2)
  }

  /** i with its lowest set bit cleared. */
  function Cleared(i: nat): (r: nat)
    requires i > 0
    ensures r < i
  {
    LowBit(i);
    i - Pow2(TrailingZeros(i))
  }

  lemma {:induction false} LowBit(i: nat)
    requires i > 0
    ensures Pow2(TrailingZeros(i)) <= i
  {
    if i % 2 == 0 { LowBit(i / 2); }
  }

  lemma ClearedSteps(i: nat)
    requires i > 0
    ensures i % 2 == 1 ==> Cleared(i) == i - 1 && TrailingZeros(i) == 0
    ensures i % 2 == 0 ==> Cleared(i) == 2 * Cleared(i / 2) && TrailingZeros(i) == 1 + TrailingZeros(i / 2)
  {
    LowBit(i);
    if i % 2 == 0 { LowBit(i / 2); }
  }

  lemma PopCountEven(c: nat)
    ensures PopCount(2 * c) == PopCount(c) && PopCount(2 * c + 1) == PopCount(c) + 1
  {
    assert (2 * c) / 2 == c && (2 * c + 1) / 2 == c;
  }

  lemma {:induction false} ClearedFacts(i: nat)
    requires i > 0
    ensures PopCount(i) == PopCount(Cleared(i)) + 1
    ensures Cleared(i) % 2 == 0
    ensures i % 2 == if TrailingZeros(i) == 0 then 1 else 0
  {
    hide PopCount, Cleared, TrailingZeros;
    ClearedSteps(i);
    PopCountEven(i / 2);
    if i % 2 == 0 {
      ClearedFacts(i / 2);
      PopCountEven(Cleared(i / 2));
    }
  }

  lemma {:induction false} PhiShift(k: nat, x: Quad)
    ensures CB.Phi(k, CB.QDouble(x)) == CB.Phi(k + 1, x)
  {
    hide CB.QDouble;
    if k > 0 { PhiShift(k - 1, x); }
  }

  /** The closed-form basis multiplies in the lowest bit's factor. */
  lemma {:induction false} LineBasisLow(i: nat, x: Quad)
    requires i > 0
    ensures CB.LineBasis(i, x) == QMul(CB.LineBasis(Cleared(i), x), CB.Phi(TrailingZeros(i), x))
  {
    hide QMul, CB.QDouble, Cleared, TrailingZeros;
    ClearedSteps(i);
    if i % 2 == 1 {
      assert i - 1 == 2 * (i / 2);
      CB.LineBasisEven(i / 2, x);
      QMulComm(x, CB.LineBasis(i / 2, CB.QDouble(x)));
    } else {
      LineBasisLow(i / 2, CB.QDouble(x));
      PhiShift(TrailingZeros(i / 2), x);
      CB.LineBasisEven(Cleared(i / 2), x);
    }
  }

  /** N_i: degree exactly i, monomials of one parity, leading coefficient
      2^(i - popcount i), and the closed-form basis function as its value everywhere. */
  ghost predicate IsNatural(p: Poly, i: nat)
  {
    && |p| == i + 1
    && HasParity(p, i)
    && p[i] == Pow(2, i - PopCount(i))
    && (forall x: Quad :: At(p, x) == CB.LineBasis(i, x))
  }

  lemma FirstNatural()
    ensures IsNatural([1], 0)
  {
    hide QAdd, QMul, CB.QDouble;
    forall x: Quad ensures At([1], x) == CB.LineBasis(0, x) {
      var c := EmbedRow([1]);
      assert c == [ONE];
      assert EvalFrom(c, x, 1) == ZERO;
      QMulZero(x);
      QAddZero(ONE);
    }
    assert Pow(2, 0) == 1;
  }

  lemma NaturalStep(prefix: Poly, factor: Poly, i: nat)
    requires i > 0 && IsNatural(prefix, Cleared(i)) && IsFactor(factor, TrailingZeros(i))
    ensures IsNatural(ProductTo(prefix, factor, |prefix|), i)
  {
    hide QMul, CB.LineBasis, CB.Phi, At, ProductTo, Pow, Mul, TrailingZeros, HasParity;
    var k, j := TrailingZeros(i), Cleared(i);
    var e := if k == 0 then 1 else 0;
    var p := ProductTo(prefix, factor, |prefix|);
    ClearedFacts(i);
    ProductParity(prefix, factor, |prefix|, j, e);
    SameParity(p, j + e, i);
    ProductLead(prefix, factor);
    PowAdd(2, j - PopCount(j), Pow2(k) - 1);
    forall x: Quad ensures At(p, x) == CB.LineBasis(i, x) {
      ProductEval(prefix, factor, x);
      LineBasisLow(i, x);
    }
  }

  lemma SameParity(p: Poly, e: nat, f: nat)
    requires HasParity(p, e) && e % 2 == f % 2
    ensures HasParity(p, f)
  {
  }

  lemma {:induction false} TrailingBound(i: nat, b: nat)
    requires 0 < i < Pow2(b)
    ensures TrailingZeros(i) < b
  {
    if i % 2 == 0 { TrailingBound(i / 2, b - 1); }
  }

  /** `natural_line_basis_polynomials`, for every size. */
  method NaturalLineBasis(size: nat) returns (basis: seq<Poly>)
    requires size >= 1
    ensures |basis| == size
    ensures forall i :: 0 <= i < size ==> IsNatural(basis[i], i)
  {
    hide IsFactor, IsNatural, BitLength, TrailingZeros, Cleared, Pow2;
    var logSize := BitLength(size - 1);
    var factors := Factors(logSize);
    basis := [[1]];
    FirstNatural();
    for index := 1 to size
      invariant |basis| == index
      invariant forall i :: 0 <= i < index ==> IsNatural(basis[i], i)
    {
      var bit := TrailingZeros(index);
      TrailingBound(index, logSize);
      var prefix := basis[Cleared(index)];
      FactorLength(factors[bit], bit);
      NaturalLength(prefix, Cleared(index));
      var poly := MulPoly(prefix, factors[bit]);
      NaturalStep(prefix, factors[bit], index);
      basis := basis + [poly];
    }
  }

  lemma NaturalLength(p: Poly, i: nat)
    requires IsNatural(p, i)
    ensures |p| == i + 1 && p != []
  {
  }
}

/** The closed-form circle basis B_j(x, y) = y^(bit 0 of j) * prod_k phi_k(x)^(bit k of j)
    over QM31, and the theorem that the butterfly encoder evaluates exactly the
    combination of it that the message spells out. */
module CircleBasis {
  import opened M31
  import opened QM31
  import opened Bits
  import opened Nonlinear
  import CircleDomain
  import Fft = CircleFft
  import Encoder = CircleEncoder

  /** phi_(k+1) = 2 phi_k^2 - 1 */
  function QDouble(x: Quad): Quad
  {
    QSub(QAdd(QMul(x, x), QMul(x, x)), ONE)
  }

  /** phi_(k+1)(x), with phi_1(x) = x. */
  function Phi(k: nat, x: Quad): Quad
  {
    if k == 0 then x else QDouble(Phi(k - 1, x))
  }

  /** Product over the set bits t of h of phi_(t+1)(x). */
  function LineBasis(h: nat, x: Quad): Quad
  {
    if h == 0 then ONE
    else if h % 2 == 1 then QMul(x, LineBasis(h / 2, QDouble(x)))
    else LineBasis(h / 2, QDouble(x))
  }

  lemma LineBasisEven(g: nat, x: Quad)
    ensures LineBasis(2 * g, x) == LineBasis(g, QDouble(x))
  {
    hide QMul, QDouble;
    if g == 0 { assert LineBasis(0, QDouble(x)) == ONE; }
  }

  lemma LineBasisOdd(g: nat, x: Quad)
    ensures LineBasis(2 * g + 1, x) == QMul(x, LineBasis(g, QDouble(x)))
  {
    hide QMul, QDouble;
    assert (2 * g + 1) / 2 == g;
  }

  function Basis(j: nat, x: Quad, y: Quad): Quad
  {
    QMul(if j % 2 == 1 then y else ONE, LineBasis(j / 2, x))
  }

  // ------------------------------------------------------------ computing basis rows

  /** `phi_tower`. */
  method PhiTower(x: Quad, kmax: nat) returns (tower: seq<Quad>)
    requires kmax >= 1
    ensures |tower| == kmax && forall k :: 0 <= k < kmax ==> tower[k] == Phi(k, x)
  {
    hide QDouble;
    tower := [x];
    var cur := x;
    for k := 1 to kmax
      invariant |tower| == k && cur == Phi(k - 1, x)
      invariant forall t :: 0 <= t < k ==> tower[t] == Phi(t, x)
    {
      cur := QDouble(cur);
      tower := tower + [cur];
    }
  }

  lemma BasisBit(val: Quad, jj: nat, k: nat, x: Quad)
    requires jj > 0
    ensures QMul(if jj % 2 == 1 then QMul(val, Phi(k, x)) else val, LineBasis(jj / 2, Phi(k + 1, x)))
         == QMul(val, LineBasis(jj, Phi(k, x)))
  {
    hide QMul, QDouble;
    QMulAssoc(val, Phi(k, x), LineBasis(jj / 2, Phi(k + 1, x)));
  }

  /** `basis_row`: the entries B_0 .. B_(b-1) at one point. */
  method BasisRow(x: Quad, y: Quad, b: nat) returns (row: seq<Quad>)
    ensures |row| == b && forall j :: 0 <= j < b ==> row[j] == Basis(j, x, y)
  {
    hide QMul, QDouble, LineBasis, Phi, Pow2, BitLength;
    var kmax := if b <= 1 then 1 else BitLength(b - 1);
    if b > 1 { BitLengthPositive(b - 1); }
    var phis := PhiTower(x, kmax);
    row := [];
    for j := 0 to b
      invariant |row| == j && forall t :: 0 <= t < j ==> row[t] == Basis(t, x, y)
    {
      var val := if j % 2 == 1 then y else ONE;
      var jj: nat, k: nat := j / 2, 1;
      assert Phi(0, x) == x by { PhiZero(x); }
      TopBit(j, b, kmax);
      while jj != 0
        invariant 1 <= k <= kmax && jj < Pow2(kmax - k)
        invariant QMul(val, LineBasis(jj, Phi(k - 1, x))) == Basis(j, x, y)
      {
        BasisBit(val, jj, k - 1, x);
        Shrink(jj, kmax - k);
        if jj % 2 == 1 {
          val := QMul(val, phis[k - 1]);
        }
        jj := jj / 2;
        k := k + 1;
      }
      LineBasisZero(Phi(k - 1, x));
      QMulOne(val);
      row := row + [val];
    }
  }

  lemma PhiZero(x: Quad)
    ensures Phi(0, x) == x
  {
  }

  lemma LineBasisZero(x: Quad)
    ensures LineBasis(0, x) == ONE
  {
  }

  lemma BitLengthPositive(n: nat)
    requires n > 0
    ensures BitLength(n) >= 1
  {
  }

  lemma Shrink(jj: nat, e: nat)
    requires 0 < jj < Pow2(e)
    ensures e > 0 && jj / 2 < Pow2(e - 1)
  {
  }

  lemma TopBit(j: nat, b: nat, kmax: nat)
    requires j < b && kmax == if b <= 1 then 1 else BitLength(b - 1)
    ensures kmax >= 1 && j / 2 < Pow2(kmax - 1)
  {
  }

  // ---------------------------------------------------- the encoder computes this basis

  function At(m: seq<Elem>, i: nat): Elem { if i < |m| then m[i] else 0 }

  /** Sum over h < count of m[lo + h * w] * LineBasis(h, x). */
  ghost function LineSum(m: seq<Elem>, lo: nat, w: nat, count: nat, x: Quad): Quad
    decreases count
  {
    if count == 0 then ZERO
    else QAdd(LineSum(m, lo, w, count - 1, x), LineTerm(m, lo, w, count - 1, x))
  }

  ghost function LineTerm(m: seq<Elem>, lo: nat, w: nat, h: nat, x: Quad): Quad
  {
    QMul(Embed(At(m, Coefficient(lo, w, h))), LineBasis(h, x))
  }

  function Coefficient(lo: nat, w: nat, h: nat): nat
  {
    MulLe(w, 0, h);
    lo + w * h
  }

  lemma CoefficientSplit(lo: nat, w: nat, h: nat)
    ensures Coefficient(lo, w, 2 * h) == Coefficient(lo, 2 * w, h)
    ensures Coefficient(lo, w, 2 * h + 1) == Coefficient(lo + w, 2 * w, h)
  {
    Assoc(w, 2, h);
    Assoc(2, w, h);
    Distribute(w, 2 * h, 1);
  }

  lemma TermSplit(m: seq<Elem>, lo: nat, w: nat, h: nat, x: Quad)
    ensures LineTerm(m, lo, w, 2 * h, x) == LineTerm(m, lo, 2 * w, h, QDouble(x))
    ensures LineTerm(m, lo, w, 2 * h + 1, x) == QMul(x, LineTerm(m, lo + w, 2 * w, h, QDouble(x)))
  {
    hide QMul, QDouble, Coefficient, At;
    CoefficientSplit(lo, w, h);
    BasisSplit(h, x);
    hide LineBasis;
    var c := Embed(At(m, Coefficient(lo + w, 2 * w, h)));
    QMulAssoc(c, x, LineBasis(h, QDouble(x)));
    QMulComm(c, x);
    QMulAssoc(x, c, LineBasis(h, QDouble(x)));
  }

  lemma BasisSplit(h: nat, x: Quad)
    ensures LineBasis(2 * h, x) == LineBasis(h, QDouble(x))
    ensures LineBasis(2 * h + 1, x) == QMul(x, LineBasis(h, QDouble(x)))
  {
    hide QMul, QDouble;
    assert (2 * h) / 2 == h && (2 * h + 1) / 2 == h;
  }

  /** Splitting a sum into its even and odd terms. */
  lemma {:induction false} SumSplit(m: seq<Elem>, lo: nat, w: nat, count: nat, x: Quad)
    ensures LineSum(m, lo, w, 2 * count, x)
         == QAdd(LineSum(m, lo, 2 * w, count, QDouble(x)), QMul(x, LineSum(m, lo + w, 2 * w, count, QDouble(x))))
    decreases count
  {
    hide QMul, QAdd, QDouble, LineTerm;
    if count == 0 {
      QMulZero(x);
      QAddZero(ZERO);
    } else {
      var d := QDouble(x);
      var e, o := LineSum(m, lo, 2 * w, count - 1, d), LineSum(m, lo + w, 2 * w, count - 1, d);
      var te, to := LineTerm(m, lo, 2 * w, count - 1, d), LineTerm(m, lo + w, 2 * w, count - 1, d);
      SumSplit(m, lo, w, count - 1, x);
      TermSplit(m, lo, w, count - 1, x);
      assert LineSum(m, lo, w, 2 * count - 1, x) == QAdd(LineSum(m, lo, w, 2 * (count - 1), x), te);
      QMulAdd(x, o, to);
      AddSwap(e, QMul(x, o), te, QMul(x, to));
    }
  }

  lemma AddSwap(a: Quad, b: Quad, c: Quad, d: Quad)
    ensures QAdd(QAdd(QAdd(a, b), c), d) == QAdd(QAdd(a, c), QAdd(b, d))
  {
    hide QAdd;
    QAddAssoc(a, b, c);
    QAddComm(b, c);
    QAddAssoc(a, c, b);
    QAddAssoc(QAdd(a, c), b, d);
  }

  lemma EmbedDouble(x: Elem)
    ensures Embed(CircleDomain.DoubleX(x)) == QDouble(Embed(x))
  {
    hide QMul, Mul, QAdd, QSub, Add, Sub, CircleDomain.DoubleX;
    var s := Mul(x, x);
    EmbedMul(x, x);
    EmbedAdd(s, s);
    EmbedSub(Add(s, s), 1);
    DoubleMod(x);
  }

  lemma DoubleMod(x: Elem)
    ensures CircleDomain.DoubleX(x) == Sub(Add(Mul(x, x), Mul(x, x)), 1)
  {
    var k := (x * x) / P;
    assert x * x == k * P + Mul(x, x);
    assert 2 * x * x == 2 * (x * x);
    var s := Mul(x, x) + Mul(x, x);
    ModUnique(2 * x * x - 1, s - 1, 2 * k);
    ModUnique(s - 1, s % P - 1, s / P);
  }

  /** `LineEval` is the sum over the closed-form line basis. */
  lemma {:induction false} EvalIsSum(m: seq<Elem>, lo: nat, w: nat, k: nat, x: Elem)
    requires lo < w && Fft.Span(w, k) == |m|
    ensures Embed(Fft.LineEval(m, lo, w, k, x)) == LineSum(m, lo, w, Pow2(k), Embed(x))
    decreases k
  {
    hide QMul, QAdd, QDouble, Mul, Add, LineTerm, CircleDomain.DoubleX, Fft.Span;
    if k == 0 {
      Fft.SpanZero(w);
      SingleTerm(m, lo, w, Embed(x));
    } else {
      Fft.SpanHalf(w, k);
      var d := CircleDomain.DoubleX(x);
      EvalIsSum(m, lo, 2 * w, k - 1, d);
      EvalIsSum(m, lo + w, 2 * w, k - 1, d);
      EmbedDouble(x);
      SumSplit(m, lo, w, Pow2(k - 1), Embed(x));
      var e, o := Fft.LineEval(m, lo, 2 * w, k - 1, d), Fft.LineEval(m, lo + w, 2 * w, k - 1, d);
      EmbedMul(x, o);
      EmbedAdd(e, Mul(x, o));
    }
  }

  lemma SingleTerm(m: seq<Elem>, lo: nat, w: nat, x: Quad)
    requires lo < |m|
    ensures LineSum(m, lo, w, 1, x) == Embed(m[lo])
  {
    hide QMul, QAdd;
    assert LineSum(m, lo, w, 1, x) == QAdd(LineSum(m, lo, w, 0, x), LineTerm(m, lo, w, 0, x));
    assert w * 0 == 0;
    QMulOne(Embed(m[lo]));
    QAddZero(Embed(m[lo]));
  }

  /** Sum over j < count of message[j] * B_j(x, y). */
  ghost function CodewordSum(m: seq<Elem>, count: nat, x: Quad, y: Quad): Quad
    decreases count
  {
    if count == 0 then ZERO
    else QAdd(CodewordSum(m, count - 1, x, y), QScale(Basis(count - 1, x, y), At(m, count - 1)))
  }

  lemma CodewordTerm(m: seq<Elem>, j: nat, x: Quad, y: Quad)
    ensures QScale(Basis(j, x, y), At(m, j))
         == if j % 2 == 0 then LineTerm(m, 0, 2, j / 2, x) else QMul(y, LineTerm(m, 1, 2, j / 2, x))
  {
    hide QMul, QScale, LineBasis, At;
    ScaleIsMul(Basis(j, x, y), At(m, j));
    var h, c := j / 2, Embed(At(m, j));
    if j % 2 == 0 {
      assert Coefficient(0, 2, h) == j;
      QMulOne(LineBasis(h, x));
    } else {
      assert Coefficient(1, 2, h) == j;
      QMulAssoc(c, y, LineBasis(h, x));
      QMulComm(c, y);
      QMulAssoc(y, c, LineBasis(h, x));
    }
  }

  lemma {:induction false} CodewordSplit(m: seq<Elem>, count: nat, x: Quad, y: Quad)
    ensures CodewordSum(m, 2 * count, x, y)
         == QAdd(LineSum(m, 0, 2, count, x), QMul(y, LineSum(m, 1, 2, count, x)))
    decreases count
  {
    hide QMul, QAdd, QScale, LineTerm, Basis;
    if count == 0 {
      QMulZero(y);
      QAddZero(ZERO);
    } else {
      var e, o := LineSum(m, 0, 2, count - 1, x), LineSum(m, 1, 2, count - 1, x);
      var te, to := LineTerm(m, 0, 2, count - 1, x), LineTerm(m, 1, 2, count - 1, x);
      CodewordSplit(m, count - 1, x, y);
      CodewordTerm(m, 2 * count - 2, x, y);
      CodewordTerm(m, 2 * count - 1, x, y);
      assert CodewordSum(m, 2 * count - 1, x, y)
        == QAdd(CodewordSum(m, 2 * (count - 1), x, y), te);
      QMulAdd(y, o, to);
      AddSwap(e, QMul(y, o), te, QMul(y, to));
    }
  }

  /** What the encoder leaves at stored index i is the sum over j of
      message[j] * B_j at the domain point of i. */
  lemma EvaluationIsBasisSum(m: seq<Elem>, n: nat, i: nat)
    requires 1 <= n <= 30 && |m| == Pow2(n)
    ensures var p := CircleDomain.CirclePoint(n, i);
      Embed(Fft.CircleEval(m, n, i)) == CodewordSum(m, Pow2(n), Embed(p.x), Embed(p.y))
  {
    hide QMul, QAdd, Mul, Add, CircleDomain.CirclePoint, Fft.Span, Fft.LineEval, LineSum, CodewordSum, Pow2;
    var p := CircleDomain.CirclePoint(n, i);
    Fft.SpanPow(1, n);
    Fft.Pow2One();
    Pow2Succ(n - 1);
    EvalIsSum(m, 0, 2, n - 1, p.x);
    EvalIsSum(m, 1, 2, n - 1, p.x);
    CodewordSplit(m, Pow2(n - 1), Embed(p.x), Embed(p.y));
    var e, o := Fft.LineEval(m, 0, 2, n - 1, p.x), Fft.LineEval(m, 1, 2, n - 1, p.x);
    EmbedMul(p.y, o);
    EmbedAdd(e, Mul(p.y, o));
  }

  lemma {:induction false} TrailingZeros(m: seq<Elem>, size: nat, count: nat, x: Quad, y: Quad)
    requires |m| <= count <= size
    ensures CodewordSum(Encoder.Padded(m, size), count, x, y) == CodewordSum(m, |m|, x, y)
    decreases count
  {
    hide QAdd, QScale, Basis;
    if count > |m| {
      TrailingZeros(m, size, count - 1, x, y);
      ScaleZero(Basis(count - 1, x, y));
      QAddZero(CodewordSum(m, |m|, x, y));
    } else {
      SamePrefix(m, Encoder.Padded(m, size), count, x, y);
    }
  }

  lemma {:induction false} SamePrefix(m: seq<Elem>, l: seq<Elem>, count: nat, x: Quad, y: Quad)
    requires count <= |m| <= |l| && forall j :: 0 <= j < count ==> m[j] == l[j]
    ensures CodewordSum(l, count, x, y) == CodewordSum(m, count, x, y)
    decreases count
  {
    hide QAdd, QScale, Basis;
    if count > 0 { SamePrefix(m, l, count - 1, x, y); }
  }

  /** Circle FFT correctness: table construction, zero padding and in-place
      butterflies together send any message of length at most 2^n to its
      combination of basis functions at every stored domain point. */
  method EncodeMessage(message: seq<Elem>, n: nat) returns (codeword: seq<Elem>)
    requires 3 <= n <= 30 && |message| <= Pow2(n)
    ensures |codeword| == Pow2(n)
    ensures forall i :: 0 <= i < Pow2(n) ==>
      var p := CircleDomain.CirclePoint(n, i);
      Embed(codeword[i]) == CodewordSum(message, |message|, Embed(p.x), Embed(p.y))
  {
    hide Pow2, Fft.CircleEval, CodewordSum, CircleDomain.CirclePoint;
    var values := Encoder.BuildAndEncode(message, n);
    codeword := values[..];
    forall i | 0 <= i < Pow2(n)
      ensures var p := CircleDomain.CirclePoint(n, i);
        Embed(codeword[i]) == CodewordSum(message, |message|, Embed(p.x), Embed(p.y))
    {
      var p := CircleDomain.CirclePoint(n, i);
      EvaluationIsBasisSum(Encoder.Padded(message, Pow2(n)), n, i);
      TrailingZeros(message, Pow2(n), Pow2(n), Embed(p.x), Embed(p.y));
    }
  }
}

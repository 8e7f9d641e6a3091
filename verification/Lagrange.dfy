/** The Lagrange coefficient table over the sample points 0 .. n-1: dotted with the
    samples of any polynomial of length n, it returns that polynomial's coefficients. */
module Lagrange {
  import opened M31
  import F = M31Field
  import opened QM31
  import opened Determinant
  import opened QPoly

  function EmbedRow(v: seq<Elem>): (r: Row)
    ensures |r| == |v|
  {
    seq(|v|, i requires 0 <= i < |v| => Embed(v[i]))
  }

  /** prod over t < j, t != i of (x - t) */
  ghost function Prod(x: Quad, i: nat, j: nat): Quad
    requires j <= P
  {
    if j == 0 then ONE
    else if j - 1 == i then Prod(x, i, j - 1)
    else QMul(QSub(x, Embed(j - 1)), Prod(x, i, j - 1))
  }

  lemma {:induction false} ProdRoot(i: nat, j: nat, t: nat)
    requires t < j <= P && t != i
    ensures Prod(Embed(t), i, j) == ZERO
  {
    hide QMul, QSub;
    if t == j - 1 {
      QSubSelf(Embed(t));
      QMulZero(Prod(Embed(t), i, j - 1));
    } else {
      ProdRoot(i, j - 1, t);
      QMulZero(QSub(Embed(t), Embed(j - 1)));
    }
  }

  function ShiftedDown(prev: seq<Elem>, root: Elem): (r: seq<Elem>)
    ensures |r| == |prev|
  {
    seq(|prev|, k requires 0 <= k < |prev| => Sub(if k >= 1 then prev[k - 1] else 0, Mul(prev[k], root)))
  }

  /** The inner loop: multiply by (X - root), one degree higher. */
  method MultiplyRoot(prev: seq<Elem>, degree: nat, root: Elem) returns (basis: seq<Elem>)
    requires degree + 2 <= |prev| && forall k :: degree < k < |prev| ==> prev[k] == 0
    ensures basis == ShiftedDown(prev, root)
  {
    hide Sub, Mul;
    basis := prev;
    MulZero(root);
    for coeff := 0 to degree + 2
      invariant |basis| == |prev|
      invariant forall k :: 0 <= k < coeff ==> basis[k] == ShiftedDown(prev, root)[k]
      invariant forall k :: coeff <= k < |prev| ==> basis[k] == prev[k]
    {
      var shifted := if coeff >= 1 then prev[coeff - 1] else 0;
      var const_ := if coeff <= degree then Mul(prev[coeff], root) else 0;
      basis := basis[coeff := Sub(shifted, const_)];
    }
    assert Sub(0, 0) == 0 by { ZeroSub(); }
  }

  lemma ZeroSub()
    ensures Sub(0, 0) == 0
  {
  }

  lemma EmbedEntry(p: Elem, c: Elem, root: Elem)
    ensures Embed(Sub(p, Mul(c, root))) == QAdd(QMul(ONE, Embed(p)), QMul(QNeg(Embed(root)), Embed(c)))
  {
    hide Sub, Mul, QAdd, QMul, QNeg, Embed;
    EmbedSub(p, Mul(c, root));
    EmbedMul(c, root);
    QSubIsAddNeg(Embed(p), QMul(Embed(c), Embed(root)));
    QMulOne(Embed(p));
    QMulNeg(Embed(c), Embed(root));
    QMulComm(Embed(c), QNeg(Embed(root)));
  }

  lemma EmbedShifted(prev: seq<Elem>, root: Elem)
    ensures EmbedRow(ShiftedDown(prev, root)) == TimesLinear(EmbedRow(prev), QNeg(Embed(root)), ONE)
  {
    hide Sub, Mul, QAdd, QMul, QNeg, Embed, EmbedRow, ShiftedDown, TimesLinear;
    var left, right := EmbedRow(ShiftedDown(prev, root)), TimesLinear(EmbedRow(prev), QNeg(Embed(root)), ONE);
    forall k | 0 <= k < |prev| ensures left[k] == right[k] { EmbedShiftedAt(prev, root, k); }
  }

  lemma EmbedShiftedAt(prev: seq<Elem>, root: Elem, k: nat)
    requires k < |prev|
    ensures EmbedRow(ShiftedDown(prev, root))[k] == TimesLinear(EmbedRow(prev), QNeg(Embed(root)), ONE)[k]
  {
    hide Sub, Mul, QAdd, QMul, QNeg, Embed, EmbedRow, ShiftedDown, TimesLinear, Previous;
    var p := if k >= 1 then prev[k - 1] else 0;
    EmbedAt(ShiftedDown(prev, root), k);
    ShiftedAt(prev, root, k);
    EmbedEntry(p, prev[k], root);
    EmbedAt(prev, k);
    PreviousAt(prev, k);
    LinearAt(EmbedRow(prev), QNeg(Embed(root)), ONE, k);
  }

  lemma EmbedAt(v: seq<Elem>, k: nat)
    requires k < |v|
    ensures EmbedRow(v)[k] == Embed(v[k])
  {
  }

  lemma PreviousAt(v: seq<Elem>, k: nat)
    requires k < |v|
    ensures Previous(EmbedRow(v), k) == Embed(if k >= 1 then v[k - 1] else 0)
  {
  }

  lemma ShiftedAt(prev: seq<Elem>, root: Elem, k: nat)
    requires k < |prev|
    ensures ShiftedDown(prev, root)[k] == Sub(if k >= 1 then prev[k - 1] else 0, Mul(prev[k], root))
  {
    hide Sub, Mul;
  }

  lemma LinearAt(c: Row, a: Quad, b: Quad, k: nat)
    requires k < |c|
    ensures TimesLinear(c, a, b)[k] == QAdd(QMul(b, Previous(c, k)), QMul(a, c[k]))
  {
    hide QAdd, QMul;
  }

  lemma EmbedZeroOne()
    ensures Embed(0) == ZERO && Embed(1) == ONE
    ensures forall a: Elem :: Embed(a) == ZERO ==> a == 0
  {
  }

  lemma ShiftedEval(prev: seq<Elem>, root: Elem, x: Quad)
    requires prev != [] && prev[|prev| - 1] == 0
    ensures Eval(EmbedRow(ShiftedDown(prev, root)), x) == QMul(QSub(x, Embed(root)), Eval(EmbedRow(prev), x))
  {
    hide Sub, Mul, QAdd, QMul, QNeg, Embed, QSub, Eval, ShiftedDown, TimesLinear;
    EmbedZeroOne();
    EmbedShifted(prev, root);
    var a := QNeg(Embed(root));
    TimesLinearEval(EmbedRow(prev), a, ONE, x);
    QMulOne(x);
    QAddComm(a, x);
    QSubIsAddNeg(x, Embed(root));
  }

  lemma DenominatorStep(denom: Elem, i: nat, j: nat)
    requires i != j && i < P && j < P && denom != 0
    ensures Embed(Mul(denom, Sub(i, j))) == QMul(QSub(Embed(i), Embed(j)), Embed(denom))
    ensures Mul(denom, Sub(i, j)) != 0
  {
    hide Mul, QMul, QSub, Embed, Sub;
    EmbedSub(i, j);
    EmbedMul(denom, Sub(i, j));
    QMulComm(Embed(denom), Embed(Sub(i, j)));
    F.NoZeroDivisors(denom, Sub(i, j));
    SubDiffers(i, j);
  }

  lemma SubDiffers(a: Elem, b: Elem)
    requires a != b
    ensures Sub(a, b) != 0
  {
  }

  /** The i-th cardinal polynomial: one at i, zero at the other sample points. */
  ghost predicate Cardinal(row: seq<Elem>, i: nat, n: nat)
    requires n <= P
  {
    |row| == n && forall j :: 0 <= j < n ==> Eval(EmbedRow(row), Embed(j)) == if j == i then ONE else ZERO
  }

  ghost predicate Product(basis: seq<Elem>, i: nat, j: nat)
    requires j <= P
  {
    forall x: Quad :: Eval(EmbedRow(basis), x) == Prod(x, i, j)
  }

  lemma ProductStart(n: nat, i: nat)
    requires n > 0
    ensures Product(seq(n, k => if k == 0 then 1 else 0), i, 0)
  {
    hide Eval;
    var b: seq<Elem> := seq(n, k => if k == 0 then 1 else 0);
    assert EmbedRow(b) == Constant(n, ONE);
    forall x: Quad ensures Eval(EmbedRow(b), x) == Prod(x, i, 0) { ConstantEval(n, ONE, x); }
  }

  lemma ProductStep(prev: seq<Elem>, i: nat, j: nat)
    requires j < P && j != i && Product(prev, i, j) && prev != [] && prev[|prev| - 1] == 0
    ensures Product(ShiftedDown(prev, j), i, j + 1)
  {
    hide Eval, Embed, QMul, QSub, ShiftedDown;
    forall x: Quad ensures Eval(EmbedRow(ShiftedDown(prev, j)), x) == Prod(x, i, j + 1) {
      ShiftedEval(prev, j, x);
    }
  }

  lemma ShiftedDegree(prev: seq<Elem>, degree: nat, root: Elem)
    requires forall k :: degree < k < |prev| ==> prev[k] == 0
    ensures forall k :: degree + 1 < k < |prev| ==> ShiftedDown(prev, root)[k] == 0
  {
    hide Mul, Sub;
    MulZero(root);
    ZeroSub();
  }

  method LagrangeRow(i: nat, n: nat) returns (row: seq<Elem>)
    requires i < n <= P
    ensures Cardinal(row, i, n)
  {
    hide Mul, Sub, Embed, QMul, QSub, Product, ShiftedDown, Cardinal, F.Inv;
    var basis: seq<Elem> := seq(n, k => if k == 0 then 1 else 0);
    var degree, denom: Elem := 0, 1;
    ProductStart(n, i);
    EmbedZeroOne();
    for j := 0 to n
      invariant degree == if j <= i then j else j - 1
      invariant |basis| == n && forall k :: degree < k < n ==> basis[k] == 0
      invariant Product(basis, i, j)
      invariant denom != 0 && Embed(denom) == Prod(Embed(i), i, j)
    {
      if i == j {
        ProductSkip(basis, i);
        continue;
      }
      ProductStep(basis, i, j);
      ShiftedDegree(basis, degree, j);
      basis := MultiplyRoot(basis, degree, j);
      degree := degree + 1;
      DenominatorStep(denom, i, j);
      denom := Mul(denom, Sub(i, j));
    }
    var inv := F.InvLoop(denom);
    row := seq(n, k requires 0 <= k < n => Mul(basis[k], inv));
    CardinalRow(basis, denom, i, n);
  }

  lemma ProductSkip(basis: seq<Elem>, i: nat)
    requires i < P && Product(basis, i, i)
    ensures Product(basis, i, i + 1)
  {
    hide Eval, Embed;
  }

  lemma CardinalRow(basis: seq<Elem>, denom: Elem, i: nat, n: nat)
    requires i < n <= P && |basis| == n && Product(basis, i, n)
    requires denom != 0 && Embed(denom) == Prod(Embed(i), i, n)
    ensures Cardinal(seq(n, k requires 0 <= k < n => Mul(basis[k], F.Inv(denom))), i, n)
  {
    hide Mul, Embed, QMul, Eval, F.Inv, Prod;
    var inv := F.Inv(denom);
    var row := seq(n, k requires 0 <= k < n => Mul(basis[k], inv));
    forall k | 0 <= k < n ensures EmbedRow(row)[k] == Scaled(Embed(inv), EmbedRow(basis))[k] {
      EmbedMul(basis[k], inv);
      QMulComm(Embed(basis[k]), Embed(inv));
    }
    assert EmbedRow(row) == Scaled(Embed(inv), EmbedRow(basis));
    forall j | 0 <= j < n ensures Eval(EmbedRow(row), Embed(j)) == if j == i then ONE else ZERO {
      ScaledEval(Embed(inv), EmbedRow(basis), Embed(j));
      if j == i {
        EmbedMul(denom, inv);
        QMulComm(Embed(denom), Embed(inv));
        F.MulInv(denom);
        EmbedZeroOne();
      } else {
        ProdRoot(i, n, j);
        QMulZero(Embed(inv));
      }
    }
  }

  lemma ScaledEval(t: Quad, c: Row, x: Quad)
    ensures Eval(Scaled(t, c), x) == QMul(t, Eval(c, x))
  {
    hide QMul, EvalFrom;
    ScaledFrom(t, c, x, 0);
  }

  // ------------------------------------------------------------ the transposed table

  ghost function Column(table: seq<seq<Elem>>, n: nat, s: nat): (c: seq<Elem>)
    requires |table| == n && s < n && forall k :: 0 <= k < n ==> |table[k]| == n
  {
    seq(n, k requires 0 <= k < n => table[k][s])
  }

  ghost predicate LagrangeTable(table: seq<seq<Elem>>, n: nat)
  {
    && n <= P && |table| == n && (forall k :: 0 <= k < n ==> |table[k]| == n)
    && (forall s :: 0 <= s < n ==> Cardinal(Column(table, n, s), s, n))
  }

  /** `lagrange_basis_transposed`, for any number of sample points. */
  method LagrangeBasisTransposed(n: nat) returns (table: seq<seq<Elem>>)
    requires n <= P
    ensures LagrangeTable(table, n)
  {
    hide Cardinal;
    var rows: seq<seq<Elem>> := [];
    for i := 0 to n
      invariant |rows| == i && forall s :: 0 <= s < i ==> |rows[s]| == n && Cardinal(rows[s], s, n)
    {
      var row := LagrangeRow(i, n);
      CardinalLength(row, i, n);
      rows := rows + [row];
    }
    table := seq(n, k requires 0 <= k < n => seq(n, s requires 0 <= s < n => rows[s][k]));
    forall s | 0 <= s < n ensures Cardinal(Column(table, n, s), s, n) {
      assert Column(table, n, s) == rows[s];
    }
  }

  lemma CardinalLength(row: seq<Elem>, i: nat, n: nat)
    requires n <= P && Cardinal(row, i, n)
    ensures |row| == n
  {
  }

  // ------------------------------------------------------------------- interpolation

  ghost function DotSum(samples: Row, col: seq<Elem>, m: nat): Quad
    requires m <= |samples| && m <= |col|
  {
    if m == 0 then ZERO else QAdd(DotSum(samples, col, m - 1), QScale(samples[m - 1], col[m - 1]))
  }

  /** `_dot`. */
  method DotLoop(samples: Row, col: seq<Elem>) returns (acc: Quad)
    requires |samples| == |col|
    ensures acc == DotSum(samples, col, |col|)
  {
    hide QAdd, QScale;
    acc := ZERO;
    for s := 0 to |col|
      invariant acc == DotSum(samples, col, s)
    {
      if col[s] != 0 {
        acc := QAdd(acc, QScale(samples[s], col[s]));
      } else {
        ScaleZero(samples[s]);
        QAddZero(acc);
      }
    }
  }

  ghost function Blend(table: seq<seq<Elem>>, n: nat, samples: Row, m: nat): (r: Row)
    requires LagrangeTable(table, n) && |samples| == n && m <= n
    ensures |r| == n
  {
    if m == 0 then Constant(n, ZERO)
    else Plus(Blend(table, n, samples, m - 1), Scaled(samples[m - 1], EmbedRow(Column(table, n, m - 1))))
  }

  lemma {:induction false} BlendEntry(table: seq<seq<Elem>>, n: nat, samples: Row, m: nat, k: nat)
    requires LagrangeTable(table, n) && |samples| == n && m <= n && k < n
    ensures Blend(table, n, samples, m)[k] == DotSum(samples, table[k], m)
  {
    hide QAdd, QScale, QMul, Embed, Cardinal;
    if m > 0 {
      BlendEntry(table, n, samples, m - 1, k);
      ScaleIsMul(samples[m - 1], table[k][m - 1]);
      QMulComm(Embed(table[k][m - 1]), samples[m - 1]);
      assert Column(table, n, m - 1)[k] == table[k][m - 1];
    }
  }

  lemma {:induction false} BlendEval(table: seq<seq<Elem>>, n: nat, samples: Row, m: nat, j: nat)
    requires LagrangeTable(table, n) && |samples| == n && m <= n && j < n
    ensures Eval(Blend(table, n, samples, m), Embed(j)) == if j < m then samples[j] else ZERO
  {
    hide QAdd, QMul, Embed, Eval;
    if m == 0 {
      ConstantEval(n, ZERO, Embed(j));
    } else {
      BlendEval(table, n, samples, m - 1, j);
      var c := EmbedRow(Column(table, n, m - 1));
      PlusEval(Blend(table, n, samples, m - 1), Scaled(samples[m - 1], c), Embed(j));
      ScaledEval(samples[m - 1], c, Embed(j));
      QMulZero(samples[m - 1]);
      QMulOne(samples[m - 1]);
      QAddZero(if j < m then samples[j] else ZERO);
    }
  }

  lemma PlusEval(c: Row, d: Row, x: Quad)
    requires |c| == |d|
    ensures Eval(Plus(c, d), x) == QAdd(Eval(c, x), Eval(d, x))
  {
    hide QAdd, EvalFrom;
    PlusFrom(c, d, x, 0);
  }

  /** Dotting the samples of c with row k of the table returns c[k]. */
  lemma Interpolates(table: seq<seq<Elem>>, n: nat, samples: Row, c: Row)
    requires LagrangeTable(table, n) && |samples| == |c| == n
    requires forall s :: 0 <= s < n ==> samples[s] == Eval(c, Embed(s))
    ensures forall k :: 0 <= k < n ==> DotSum(samples, table[k], n) == c[k]
  {
    hide Eval, Embed, LagrangeTable, DotSum, Blend;
    TableSize(table, n);
    var b := Blend(table, n, samples, n);
    var xs := seq(n, s requires 0 <= s < n => Embed(s));
    forall i, j | 0 <= i < j < n ensures xs[i] != xs[j] { EmbedInjective(i, j); }
    forall s | 0 <= s < n ensures Eval(b, xs[s]) == Eval(c, xs[s]) { BlendEval(table, n, samples, n, s); }
    SamePolynomial(b, c, xs);
    forall k | 0 <= k < n ensures DotSum(samples, table[k], n) == c[k] { BlendEntry(table, n, samples, n, k); }
  }

  lemma TableSize(table: seq<seq<Elem>>, n: nat)
    requires LagrangeTable(table, n)
    ensures n <= P && |table| == n && forall k :: 0 <= k < n ==> |table[k]| == n
  {
  }

  lemma EmbedInjective(a: Elem, b: Elem)
    requires a != b
    ensures Embed(a) != Embed(b)
  {
  }
}

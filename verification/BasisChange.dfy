/** Converting between ordinary monomials and the natural line basis: back-substitution
    always clears the residual, and the two tables are mutual inverses. */
module BasisChange {
  import opened M31
  import F = M31Field
  import opened Vectors
  import opened Matrices
  import GJ = GaussJordan
  import opened NaturalBasis

  function Pad(p: Vec, n: nat): (v: Vec)
    ensures |v| == n
  {
    seq(n, k requires 0 <= k < n => if k < |p| then p[k] else 0)
  }

  /** Row i holds the coefficients of the i-th polynomial. */
  function CoefficientMatrix(basis: seq<Poly>, n: nat): (m: Matrix)
    requires |basis| == n
    ensures Shape(m, n, n)
  {
    seq(n, i requires 0 <= i < n => Pad(basis[i], n))
  }

  /** Zero above a nonzero diagonal. */
  ghost predicate Triangular(m: Matrix, n: nat)
  {
    && Shape(m, n, n)
    && (forall i, j :: 0 <= i < j < n ==> m[i][j] == 0)
    && (forall i :: 0 <= i < n ==> m[i][i] != 0)
  }

  lemma {:induction false} PowerNonzero(e: nat)
    ensures Pow(2, e) != 0
  {
    hide Mul;
    if e > 0 {
      PowerNonzero(e - 1);
      F.NoZeroDivisors(2, Pow(2, e - 1));
    }
  }

  lemma NaturalTriangular(basis: seq<Poly>, n: nat)
    requires |basis| == n && forall i :: 0 <= i < n ==> IsNatural(basis[i], i)
    ensures Triangular(CoefficientMatrix(basis, n), n)
  {
    hide IsNatural;
    var m := CoefficientMatrix(basis, n);
    forall i | 0 <= i < n ensures |basis[i]| == i + 1 && m[i][i] != 0 { NaturalDiagonal(basis[i], i); }
  }

  lemma NaturalDiagonal(p: Poly, i: nat)
    requires IsNatural(p, i)
    ensures |p| == i + 1 && p[i] != 0
  {
    hide Pow, At;
    PowerNonzero(i - PopCount(i));
  }

  // ------------------------------------------------------------------- back-substitution

  lemma {:induction false} CombUpdate(v: Vec, m: Matrix, k: nat, n: nat, p: nat, s: Elem)
    requires k <= |v| && k <= |m| && Shape(m, |m|, n) && p < |v| && p < |m| && v[p] == 0
    ensures Comb(v[p := s], m, k, n) == if p < k then VAdd(Comb(v, m, k, n), VScale(s, m[p])) else Comb(v, m, k, n)
  {
    hide VAdd, VScale, Zero;
    if k > 0 {
      CombUpdate(v, m, k - 1, n, p, s);
      var c := Comb(v, m, k - 1, n);
      if p == k - 1 {
        ScaleByZero(m[p]);
        AddZeroVec(c);
      } else if p < k - 1 {
        VAddRotate(c, VScale(s, m[p]), VScale(v[k - 1], m[k - 1]));
      }
    }
  }

  lemma ScaleByZero(v: Vec)
    ensures VScale(0, v) == Zero(|v|)
  {
    hide Mul;
    forall i | 0 <= i < |v| ensures Mul(0, v[i]) == 0 { MulZero(v[i]); }
  }

  lemma AddZeroVec(v: Vec)
    ensures VAdd(v, Zero(|v|)) == v == VAdd(Zero(|v|), v)
  {
    hide Add;
    forall i | 0 <= i < |v| ensures Add(v[i], 0) == v[i] == Add(0, v[i]) { AddZero(v[i]); }
  }

  lemma VAddRotate(a: Vec, b: Vec, c: Vec)
    requires |a| == |b| == |c|
    ensures VAdd(VAdd(a, b), c) == VAdd(VAdd(a, c), b)
  {
    hide Add;
    forall i | 0 <= i < |a| ensures Add(Add(a[i], b[i]), c[i]) == Add(Add(a[i], c[i]), b[i]) {
      AddAssoc(a[i], b[i], c[i]);
      AddComm(b[i], c[i]);
      AddAssoc(a[i], c[i], b[i]);
    }
  }

  lemma VAddShift(r: Vec, c: Vec, w: Vec, s: Elem, target: Vec)
    requires |r| == |c| == |w| && VAdd(r, c) == target
    ensures VAdd(Eliminate(r, s, w), VAdd(c, VScale(s, w))) == target
  {
    hide Add, Mul, Sub;
    forall i | 0 <= i < |r|
      ensures Add(Sub(r[i], Mul(s, w[i])), Add(c[i], Mul(s, w[i]))) == Add(r[i], c[i])
    {
      var t := Mul(s, w[i]);
      AddComm(c[i], t);
      AddAssoc(Sub(r[i], t), t, c[i]);
      SubAdd(r[i], t);
    }
    assert forall i :: 0 <= i < |r| ==> VAdd(r, c)[i] == Add(r[i], c[i]);
  }

  /** What is left plus what has been expressed is the target; nothing is left from
      `pivot` on and nothing is expressed before it. */
  ghost predicate Expressed(m: Matrix, n: nat, target: Vec, residual: Vec, coefficients: Vec, pivot: nat)
    requires Shape(m, n, n)
  {
    && |target| == |residual| == |coefficients| == n && pivot <= n
    && VAdd(residual, Comb(coefficients, m, n, n)) == target
    && (forall k :: pivot <= k < n ==> residual[k] == 0)
    && (forall k :: 0 <= k < pivot ==> coefficients[k] == 0)
  }

  lemma ExpressedStart(m: Matrix, n: nat, target: Vec, top: nat)
    requires Shape(m, n, n) && |target| == n && top <= n && forall k :: top <= k < n ==> target[k] == 0
    ensures Expressed(m, n, target, target, Zero(n), top)
  {
    CombZero(m, n, n);
    AddZeroVec(target);
  }

  lemma {:induction false} CombZero(m: Matrix, n: nat, k: nat)
    requires Shape(m, n, n) && k <= n
    ensures Comb(Zero(n), m, k, n) == Zero(n)
  {
    hide VAdd, VScale;
    if k > 0 {
      CombZero(m, n, k - 1);
      ScaleByZero(m[k - 1]);
      AddZeroVec(Zero(n));
    }
  }

  lemma ExpressedStep(m: Matrix, n: nat, target: Vec, residual: Vec, coefficients: Vec, p: nat)
    requires Triangular(m, n) && p < n && Expressed(m, n, target, residual, coefficients, p + 1)
    ensures var s := Mul(residual[p], F.Inv(m[p][p]));
      Expressed(m, n, target, Eliminate(residual, s, m[p]), coefficients[p := s], p)
  {
    hide VAdd, VScale, F.Inv, Comb, Mul;
    var s := Mul(residual[p], F.Inv(m[p][p]));
    CombUpdate(coefficients, m, n, n, p, s);
    VAddShift(residual, Comb(coefficients, m, n, n), m[p], s, target);
    forall k | p <= k < n ensures Eliminate(residual, s, m[p])[k] == 0 {
      if k == p {
        PivotClears(residual[p], m[p][p]);
      } else {
        MulZero(s);
        SubZero(0);
      }
    }
  }

  lemma PivotClears(a: Elem, d: Elem)
    requires d != 0
    ensures Sub(a, Mul(Mul(a, F.Inv(d)), d)) == 0
  {
    hide Mul, F.Inv, Sub;
    MulAssoc(a, F.Inv(d), d);
    MulComm(F.Inv(d), d);
    F.MulInv(d);
    MulOne(a);
    SubSelf(a);
  }

  lemma ExpressedDone(m: Matrix, n: nat, target: Vec, residual: Vec, coefficients: Vec)
    requires Shape(m, n, n) && Expressed(m, n, target, residual, coefficients, 0)
    ensures Comb(coefficients, m, n, n) == target && residual == Zero(n)
  {
    hide VAdd;
    assert residual == Zero(n);
    AddZeroVec(Comb(coefficients, m, n, n));
  }

  /** residual[j] -= scale * poly[j] over the polynomial's own coefficients. */
  method SubtractPoly(residual: Vec, scale: Elem, poly: Poly) returns (out: Vec)
    requires |poly| <= |residual|
    ensures out == Eliminate(residual, scale, Pad(poly, |residual|))
  {
    hide Mul, Sub;
    out := residual;
    MulZero(scale);
    for j := 0 to |poly|
      invariant |out| == |residual|
      invariant forall k :: 0 <= k < |out| ==>
        out[k] == if k < j then Sub(residual[k], Mul(scale, poly[k])) else residual[k]
    {
      out := out[j := Sub(out[j], Mul(scale, poly[j]))];
    }
    forall k | |poly| <= k < |residual| ensures Sub(residual[k], Mul(scale, 0)) == residual[k] { SubZero(residual[k]); }
  }

  /** One row of the conversion: x^degree in the natural basis.  The assertion that the
      residual vanished always holds. */
  method MonomialInNatural(basis: seq<Poly>, size: nat, degree: nat) returns (coefficients: Vec, cleared: bool)
    requires |basis| == size && degree < size && forall i :: 0 <= i < size ==> |basis[i]| == i + 1
    requires Triangular(CoefficientMatrix(basis, size), size)
    ensures cleared && |coefficients| == size
    ensures Comb(coefficients, CoefficientMatrix(basis, size), size, size) == Unit(size, degree)
  {
    hide Mul, F.Inv, Comb, Eliminate, VAdd;
    ghost var m := CoefficientMatrix(basis, size);
    ghost var target := Unit(size, degree);
    var residual: Vec := Unit(size, degree);
    coefficients := Zero(size);
    ExpressedStart(m, size, target, degree + 1);
    var pivot: nat := degree + 1;
    while pivot > 0
      invariant pivot <= size && Expressed(m, size, target, residual, coefficients, pivot)
    {
      pivot := pivot - 1;
      var diagonal := basis[pivot][pivot];
      assert diagonal == m[pivot][pivot];
      var inverse := F.InvLoop(diagonal);
      var scale := Mul(residual[pivot], inverse);
      ExpressedStep(m, size, target, residual, coefficients, pivot);
      coefficients := coefficients[pivot := scale];
      residual := SubtractPoly(residual, scale, basis[pivot]);
    }
    ExpressedDone(m, size, target, residual, coefficients);
    cleared := forall k :: 0 <= k < size ==> residual[k] == 0;
  }

  /** `ordinary_to_natural`: any polynomial, expressed in a triangular basis. */
  method OrdinaryToNatural(ordinary: Vec, polys: Matrix) returns (natural: Vec)
    requires |ordinary| <= |polys| && Triangular(polys, |polys|)
    ensures |natural| == |polys| && Comb(natural, polys, |polys|, |polys|) == Pad(ordinary, |polys|)
  {
    hide Mul, F.Inv, Comb, Eliminate, VAdd;
    var cap := |polys|;
    var rem := Pad(ordinary, cap);
    natural := Zero(cap);
    ExpressedStart(polys, cap, rem, cap);
    ghost var target := rem;
    var degree: nat := cap;
    while degree > 0
      invariant degree <= cap && Expressed(polys, cap, target, rem, natural, degree)
    {
      degree := degree - 1;
      var inverse := F.InvLoop(polys[degree][degree]);
      var coeff := Mul(rem[degree], inverse);
      ExpressedStep(polys, cap, target, rem, natural, degree);
      natural := natural[degree := coeff];
      if coeff != 0 {
        rem := SubtractPoly(rem, coeff, polys[degree]);
        assert Pad(polys[degree], cap) == polys[degree];
      } else {
        EliminateZero(rem, polys[degree]);
      }
    }
    ExpressedDone(polys, cap, target, rem, natural);
  }

  // ---------------------------------------------------------- the other side of the inverse

  lemma LeftAction(c: Matrix, m: Matrix, n: nat, v: Vec, j: nat)
    requires Shape(c, n, n) && Shape(m, n, n) && Times(c, m, n) == Identity(n) && |v| == n && j < n
    ensures Dot(Comb(v, c, n, n), Column(m, j), n) == v[j]
  {
    hide Dot, Comb;
    var x := Column(m, j);
    Adjoint(v, c, x, n);
    forall r | 0 <= r < n ensures MatVec(c, x)[r] == Unit(n, j)[r] {
      CombEntry(c[r], m, n, j);
      assert Times(c, m, n)[r] == Identity(n)[r];
    }
    assert MatVec(c, x) == Unit(n, j);
    DotUnit(v, n, j);
  }

  lemma DotDifference(u: Vec, w: Vec, x: Vec, n: nat)
    requires |u| == |w| == |x| == n && Dot(u, x, n) == Dot(w, x, n)
    ensures Dot(VAdd(u, GJ.Minus(w)), x, n) == 0
  {
    hide Dot, VAdd, VScale, Add, Mul, Neg;
    DotAdd(u, GJ.Minus(w), x, n);
    DotScale(P - 1, w, x, n);
    GJ.MinusOne(Dot(w, x, n));
    AddNeg(Dot(w, x, n));
  }

  /** Equal combinations of triangular rows have equal coefficients. */
  lemma {:induction false} TriangularInjective(u: Vec, w: Vec, m: Matrix, n: nat, j: nat)
    requires Triangular(m, n) && |u| == |w| == n && j <= n
    requires forall c :: 0 <= c < n ==> Dot(u, Column(m, c), n) == Dot(w, Column(m, c), n)
    ensures forall k :: j <= k < n ==> u[k] == w[k]
    decreases n - j
  {
    hide Dot, Mul, Add, Neg;
    if j < n {
      TriangularInjective(u, w, m, n, j + 1);
      var d, x := VAdd(u, GJ.Minus(w)), Column(m, j);
      DotDifference(u, w, x, n);
      forall k | 0 <= k < n ensures d[k] == Add(u[k], Neg(w[k])) { GJ.MinusOne(w[k]); }
      forall k | 0 <= k < n && k != j ensures d[k] == 0 || x[k] == 0 {
        if k > j { AddNeg(u[k]); }
      }
      DotAlone(d, x, n, j);
      F.NoZeroDivisors(d[j], x[j]);
      GJ.AddNegZero(u[j], w[j]);
    }
  }

  lemma LeftIsRight(c: Matrix, m: Matrix, n: nat)
    requires Shape(c, n, n) && Triangular(m, n) && Times(c, m, n) == Identity(n)
    ensures Inverses(m, c, n)
  {
    hide Dot, Comb, Unit;
    forall i | 0 <= i < n ensures Times(m, c, n)[i] == Identity(n)[i] {
      var u, w := Comb(m[i], c, n, n), Unit(n, i);
      forall j | 0 <= j < n ensures Dot(u, Column(m, j), n) == Dot(w, Column(m, j), n) {
        LeftAction(c, m, n, m[i], j);
        DotUnit(Column(m, j), n, i);
      }
      TriangularInjective(u, w, m, n, 0);
    }
  }

  /** Both tables, for every size: the residual assertion never fires, and conversion and
      coefficient matrix are inverse on both sides. */
  method ConversionTables(size: nat) returns (basis: seq<Poly>, conversion: Matrix)
    requires size >= 1
    ensures |basis| == size && forall i :: 0 <= i < size ==> IsNatural(basis[i], i)
    ensures Inverses(CoefficientMatrix(basis, size), conversion, size)
  {
    hide IsNatural, Triangular, Comb, Unit;
    basis := NaturalLineBasis(size);
    NaturalTriangular(basis, size);
    forall i | 0 <= i < size ensures |basis[i]| == i + 1 { NaturalLength(basis[i], i); }
    conversion := [];
    ghost var m := CoefficientMatrix(basis, size);
    for degree := 0 to size
      invariant |conversion| == degree
      invariant forall d :: 0 <= d < degree ==>
        |conversion[d]| == size && Comb(conversion[d], m, size, size) == Unit(size, d)
    {
      var row, cleared := MonomialInNatural(basis, size, degree);
      conversion := conversion + [row];
    }
    assert Times(conversion, m, size) == Identity(size);
    LeftIsRight(conversion, m, size);
  }
}

/** Gauss-Jordan inversion on an augmented matrix, and the multiply-by-X map in a
    converted basis. */
module GaussJordan {
  import opened Options
  import opened M31
  import F = M31Field
  import opened Vectors
  import opened Matrices

  // ------------------------------------------------------------- rows and what they kill

  ghost predicate Kills(m: Matrix, v: Vec)
  {
    forall r :: 0 <= r < |m| ==> |m[r]| == |v| && Dot(m[r], v, |v|) == 0
  }

  ghost predicate SameKernel(a: Matrix, b: Matrix)
  {
    |a| == |b| && forall v: Vec :: Kills(a, v) <==> Kills(b, v)
  }

  lemma DotEliminate(u: Vec, f: Elem, w: Vec, v: Vec)
    requires |u| == |w| == |v|
    ensures Dot(w, v, |v|) == 0 ==> (Dot(Eliminate(u, f, w), v, |v|) == 0 <==> Dot(u, v, |v|) == 0)
  {
    hide Dot, Add, Mul, VAdd, VScale, Eliminate, Neg;
    EliminateIs(u, f, w);
    DotAdd(u, VScale(Neg(f), w), v, |v|);
    DotScale(Neg(f), w, v, |v|);
    MulZero(Neg(f));
    AddZero(Dot(u, v, |v|));
  }

  /** Replacing row r by a row that vanishes with it, given the others. */
  lemma ReplaceRow(m: Matrix, r: nat, row: Vec, v: Vec)
    requires r < |m| && |row| == |m[r]|
    requires (forall t :: 0 <= t < |m| && t != r ==> |m[t]| == |v| && Dot(m[t], v, |v|) == 0) && |v| == |m[r]|
             ==> (Dot(row, v, |v|) == 0 <==> Dot(m[r], v, |v|) == 0)
    ensures Kills(m, v) <==> Kills(m[r := row], v)
  {
    hide Dot;
    var q := m[r := row];
    if Kills(q, v) {
      assert q[r] == row;
      forall t | 0 <= t < |m| && t != r ensures |m[t]| == |v| && Dot(m[t], v, |v|) == 0 { assert q[t] == m[t]; }
    }
  }

  lemma EliminateSame(m: Matrix, cols: nat, r: nat, s: nat, f: Elem)
    requires Shape(m, |m|, cols) && r < |m| && s < |m| && r != s
    ensures SameKernel(m, m[r := Eliminate(m[r], f, m[s])])
  {
    hide Dot, Kills;
    forall v: Vec ensures Kills(m, v) <==> Kills(m[r := Eliminate(m[r], f, m[s])], v) {
      if |v| == cols { DotEliminate(m[r], f, m[s], v); }
      ReplaceRow(m, r, Eliminate(m[r], f, m[s]), v);
    }
  }

  lemma ScaleSame(m: Matrix, cols: nat, r: nat, c: Elem)
    requires Shape(m, |m|, cols) && r < |m| && c != 0
    ensures SameKernel(m, m[r := VScale(c, m[r])])
  {
    hide Dot, Kills, Mul;
    forall v: Vec ensures Kills(m, v) <==> Kills(m[r := VScale(c, m[r])], v) {
      if |v| == cols {
        DotScale(c, m[r], v, cols);
        F.NoZeroDivisors(c, Dot(m[r], v, cols));
      }
      ReplaceRow(m, r, VScale(c, m[r]), v);
    }
  }

  lemma SwapSame(m: Matrix, r: nat, s: nat)
    requires r < |m| && s < |m|
    ensures SameKernel(m, m[r := m[s]][s := m[r]])
  {
    hide Dot;
    var q := m[r := m[s]][s := m[r]];
    forall v: Vec ensures Kills(m, v) <==> Kills(q, v) {
      assert m[r] == q[s] && m[s] == q[r];
      if Kills(q, v) {
        forall t | 0 <= t < |m| ensures |m[t]| == |v| && Dot(m[t], v, |v|) == 0 {
          if t != r && t != s { assert q[t] == m[t]; }
        }
      }
    }
  }

  lemma SameTrans(a: Matrix, b: Matrix, c: Matrix)
    requires SameKernel(a, b) && SameKernel(b, c)
    ensures SameKernel(a, c)
  {
    hide Kills;
  }

  // ---------------------------------------------------------- the augmented matrix [A | I]

  function Augment(a: Matrix, b: Matrix, n: nat): (m: Matrix)
    requires Shape(a, n, n) && Shape(b, n, n)
    ensures Shape(m, n, 2 * n)
  {
    seq(n, r requires 0 <= r < n => a[r] + b[r])
  }

  lemma {:induction false} DotConcat(a: Vec, b: Vec, x: Vec, y: Vec, k: nat)
    requires |a| == |x| && |b| == |y| && k <= |b|
    ensures Dot(a + b, x + y, |a| + k) == Add(Dot(a, x, |a|), Dot(b, y, k))
  {
    hide Add, Mul;
    if k == 0 {
      DotPrefix(a, b, x, y, |a|);
      AddZero(Dot(a, x, |a|));
    } else {
      DotConcat(a, b, x, y, k - 1);
      AddAssoc(Dot(a, x, |a|), Dot(b, y, k - 1), Mul(b[k - 1], y[k - 1]));
      assert (a + b)[|a| + k - 1] == b[k - 1] && (x + y)[|a| + k - 1] == y[k - 1];
    }
  }

  lemma {:induction false} DotPrefix(a: Vec, b: Vec, x: Vec, y: Vec, k: nat)
    requires |a| == |x| && k <= |a|
    ensures Dot(a + b, x + y, k) == Dot(a, x, k)
  {
    hide Add, Mul;
    if k > 0 { DotPrefix(a, b, x, y, k - 1); }
  }

  function Minus(y: Vec): (r: Vec)
    ensures |r| == |y|
  {
    VScale(P - 1, y)
  }

  lemma {:induction false} DotMinus(b: Vec, y: Vec, k: nat)
    requires k <= |b| && k <= |y|
    ensures Dot(b, Minus(y), k) == Neg(Dot(b, y, k))
  {
    hide Add, Mul, Neg;
    if k == 0 {
      NegZero();
    } else {
      DotMinus(b, y, k - 1);
      MinusOne(y[k - 1]);
      MulNeg(b[k - 1], y[k - 1]);
      NegAdd(Dot(b, y, k - 1), Mul(b[k - 1], y[k - 1]));
    }
  }

  lemma NegZero()
    ensures Neg(0) == 0
  {
  }

  lemma MinusOne(a: Elem)
    ensures Mul(P - 1, a) == Neg(a)
  {
    hide Mul, Neg;
    NegOne();
    MulComm(P - 1, a);
    MulNeg(a, 1);
    MulOne(a);
  }

  lemma NegAdd(a: Elem, b: Elem)
    ensures Neg(Add(a, b)) == Add(Neg(a), Neg(b))
  {
  }

  lemma AddNegZero(a: Elem, b: Elem)
    ensures Add(a, Neg(b)) == 0 <==> a == b
  {
  }

  /** The augmented rows kill (x, -y) exactly when A x == B y. */
  lemma AugmentKills(a: Matrix, b: Matrix, n: nat, x: Vec, y: Vec)
    requires Shape(a, n, n) && Shape(b, n, n) && |x| == |y| == n
    ensures Kills(Augment(a, b, n), x + Minus(y)) <==> MatVec(a, x) == MatVec(b, y)
  {
    hide Dot, Add, Neg, Minus;
    var m, v := Augment(a, b, n), x + Minus(y);
    forall r | 0 <= r < n ensures Dot(m[r], v, 2 * n) == 0 <==> MatVec(a, x)[r] == MatVec(b, y)[r] {
      DotConcat(a[r], b[r], x, Minus(y), n);
      DotMinus(b[r], y, n);
      AddNegZero(Dot(a[r], x, n), Dot(b[r], y, n));
    }
    if Kills(m, v) {
      forall r | 0 <= r < n ensures MatVec(a, x)[r] == MatVec(b, y)[r] {
        assert |m[r]| == |v| && Dot(m[r], v, |v|) == 0;
      }
    }
  }

  // --------------------------------------------------------------------- the elimination

  /** Columns before col are identity columns. */
  ghost predicate Reduced(m: Matrix, n: nat, col: nat)
  {
    && Shape(m, n, 2 * n) && col <= n
    && (forall r, c :: 0 <= r < n && 0 <= c < col ==> m[r][c] == if r == c then 1 else 0)
  }

  lemma ReducedNext(m: Matrix, n: nat, col: nat)
    requires Reduced(m, n, col) && col < n && m[col][col] == 1
    requires forall r :: 0 <= r < n && r != col ==> m[r][col] == 0
    ensures Reduced(m, n, col + 1)
  {
  }

  lemma ReducedShape(m: Matrix, n: nat, col: nat)
    requires Reduced(m, n, col)
    ensures Shape(m, n, 2 * n)
  {
  }

  lemma ReducedSwap(m: Matrix, n: nat, col: nat, piv: nat)
    requires Reduced(m, n, col) && col <= piv < n
    ensures Reduced(m[col := m[piv]][piv := m[col]], n, col)
  {
  }

  lemma ReducedScale(m: Matrix, n: nat, col: nat, c: Elem)
    requires Reduced(m, n, col) && col < n
    ensures Reduced(m[col := VScale(c, m[col])], n, col)
  {
    hide Mul;
    MulZero(c);
  }

  lemma ReducedEliminate(m: Matrix, n: nat, col: nat, r: nat, f: Elem)
    requires Reduced(m, n, col) && col < n && r < n && r != col
    ensures Reduced(m[r := Eliminate(m[r], f, m[col])], n, col)
  {
    hide Mul, Sub;
    MulZero(f);
    forall c | 0 <= c < col ensures Sub(m[r][c], Mul(f, m[col][c])) == m[r][c] { SubZero(m[r][c]); }
  }

  lemma ClearsEntry(u: Vec, w: Vec, col: nat)
    requires col < |u| == |w| && w[col] == 1
    ensures Eliminate(u, u[col], w)[col] == 0
  {
    hide Mul, Sub;
    MulOne(u[col]);
    SubSelf(u[col]);
  }

  lemma NormalisedEntry(u: Vec, col: nat)
    requires col < |u| && u[col] != 0
    ensures VScale(F.Inv(u[col]), u)[col] == 1 && F.Inv(u[col]) != 0
  {
    hide Mul, F.Inv;
    F.MulInv(u[col]);
    MulComm(u[col], F.Inv(u[col]));
    MulZero(u[col]);
  }

  method ClearColumn(start: Matrix, n: nat, col: nat) returns (m: Matrix)
    requires Reduced(start, n, col) && col < n && start[col][col] == 1
    ensures Reduced(m, n, col + 1) && SameKernel(start, m)
  {
    hide Reduced, SameKernel, Eliminate;
    ReducedShape(start, n, col);
    m := start;
    SameSelf(start);
    for r := 0 to n
      invariant Shape(m, n, 2 * n) && Reduced(m, n, col) && SameKernel(start, m) && m[col] == start[col]
      invariant forall t :: 0 <= t < r && t != col ==> m[t][col] == 0
    {
      if r == col || m[r][col] == 0 { continue; }
      var scale := m[r][col];
      ReducedEliminate(m, n, col, r, scale);
      EliminateSame(m, 2 * n, r, col, scale);
      SameTrans(start, m, m[r := Eliminate(m[r], scale, m[col])]);
      ClearsEntry(m[r], m[col], col);
      m := m[r := Eliminate(m[r], scale, m[col])];
    }
    ReducedNext(m, n, col);
  }

  lemma SameSelf(m: Matrix)
    ensures SameKernel(m, m)
  {
  }

  method FindPivot(m: Matrix, n: nat, col: nat) returns (piv: nat)
    requires Shape(m, n, 2 * n) && col < n
    ensures col <= piv <= n && (piv < n ==> m[piv][col] != 0)
    ensures forall r :: col <= r < piv ==> m[r][col] == 0
  {
    for r := col to n
      invariant forall t :: col <= t < r ==> m[t][col] == 0
    {
      if m[r][col] != 0 { return r; }
    }
    return n;
  }

  // ----------------------------------------------------------------------- the two exits

  ghost predicate HasInverse(a: Matrix, n: nat)
  {
    exists b :: Inverses(a, b, n)
  }

  /** A column without a pivot gives a nonzero x with A x == 0. */
  lemma NoPivot(a: Matrix, m: Matrix, n: nat, col: nat)
    requires Shape(a, n, n) && SameKernel(Augment(a, Identity(n), n), m) && Reduced(m, n, col) && col < n
    requires forall r :: col <= r < n ==> m[r][col] == 0
    ensures !HasInverse(a, n)
  {
    hide Kills, MatVec, Dot, Augment, Inverses;
    var x: Vec := seq(n, c requires 0 <= c < n => if c < col then Neg(m[c][col]) else if c == col then 1 else 0);
    KernelVector(m, n, col, x);
    AugmentKills(a, Identity(n), n, x, Zero(n));
    IdentityVec(n, Zero(n));
    if HasInverse(a, n) {
      var b :| Inverses(a, b, n);
      InverseKillsNothing(a, b, n, x);
      NonzeroAt(x, col);
    }
  }

  lemma NonzeroAt(x: Vec, c: nat)
    requires c < |x| && x[c] == 1
    ensures x != Zero(|x|)
  {
    assert Zero(|x|)[c] == 0;
  }

  lemma MinusZero(n: nat)
    ensures Minus(Zero(n)) == Zero(n)
  {
    hide Mul;
    MulZero(P - 1);
  }

  lemma KernelVector(m: Matrix, n: nat, col: nat, x: Vec)
    requires Reduced(m, n, col) && col < n && |x| == n
    requires forall r :: col <= r < n ==> m[r][col] == 0
    requires forall c :: 0 <= c < n ==> x[c] == if c < col then Neg(m[c][col]) else if c == col then 1 else 0
    ensures Kills(m, x + Minus(Zero(n)))
  {
    hide Dot, Neg, Mul, Add, Minus;
    MinusZero(n);
    var v := x + Zero(n);
    forall r | 0 <= r < n ensures Dot(m[r], v, 2 * n) == 0 {
      if r < col {
        DotPair(m[r], v, 2 * n, r, col);
        MulOne(v[r]);
        MulOne(m[r][col]);
        AddComm(v[r], m[r][col]);
        AddNeg(m[r][col]);
      } else {
        DotAlone(m[r], v, 2 * n, col);
        MulZero(v[col]);
      }
    }
  }

  lemma {:induction false} DotPair(v: Vec, w: Vec, k: nat, s: nat, t: nat)
    requires k <= |v| && k <= |w| && s < t < |v| && t < |w|
    requires forall i :: 0 <= i < k && i != s && i != t ==> v[i] == 0 || w[i] == 0
    ensures t < k ==> Dot(v, w, k) == Add(Mul(v[s], w[s]), Mul(v[t], w[t]))
  {
    hide Add, Mul;
    if t < k - 1 {
      DotPair(v, w, k - 1, s, t);
      MulZero(v[k - 1]);
      MulZero(w[k - 1]);
      AddZero(Dot(v, w, k - 1));
    } else if t == k - 1 {
      DotAlone(v, w, k - 1, s);
    }
  }

  lemma InverseKillsNothing(a: Matrix, b: Matrix, n: nat, x: Vec)
    requires Inverses(a, b, n) && |x| == n && MatVec(a, x) == Zero(n)
    ensures x == Zero(n)
  {
    hide MatVec;
    TimesVec(b, a, n, x);
    IdentityVec(n, x);
    MatVecZero(b, n);
  }

  lemma MatVecZero(b: Matrix, n: nat)
    requires Shape(b, n, n)
    ensures MatVec(b, Zero(n)) == Zero(n)
  {
    hide Dot;
    forall r | 0 <= r < n ensures Dot(b[r], Zero(n), n) == 0 { DotZero(n, b[r], n); }
  }

  function RightHalf(m: Matrix, n: nat): (b: Matrix)
    requires Shape(m, n, 2 * n)
    ensures Shape(b, n, n)
  {
    seq(n, r requires 0 <= r < n => m[r][n..])
  }

  lemma ReducedIsAugment(m: Matrix, n: nat)
    requires Reduced(m, n, n)
    ensures m == Augment(Identity(n), RightHalf(m, n), n)
  {
    forall r | 0 <= r < n ensures m[r] == Identity(n)[r] + RightHalf(m, n)[r] {
      assert m[r] == m[r][..n] + m[r][n..];
      assert m[r][..n] == Unit(n, r);
    }
  }

  /** A x == y exactly when x == B y. */
  lemma Solves(a: Matrix, b: Matrix, n: nat, x: Vec, y: Vec)
    requires Shape(a, n, n) && Shape(b, n, n) && |x| == |y| == n
    requires SameKernel(Augment(a, Identity(n), n), Augment(Identity(n), b, n))
    ensures MatVec(a, x) == y <==> x == MatVec(b, y)
  {
    hide Kills, MatVec, Augment, Identity;
    AugmentKills(a, Identity(n), n, x, y);
    AugmentKills(Identity(n), b, n, x, y);
    IdentityVec(n, x);
    IdentityVec(n, y);
  }

  lemma TwoSided(a: Matrix, b: Matrix, n: nat)
    requires Shape(a, n, n) && Shape(b, n, n)
    requires SameKernel(Augment(a, Identity(n), n), Augment(Identity(n), b, n))
    ensures Inverses(a, b, n)
  {
    hide MatVec, Augment, SameKernel, Times;
    forall c | 0 <= c < n
      ensures MatVec(Times(a, b, n), Unit(n, c)) == MatVec(Identity(n), Unit(n, c))
      ensures MatVec(Identity(n), Unit(n, c)) == MatVec(Times(b, a, n), Unit(n, c))
    {
      var e := Unit(n, c);
      IdentityVec(n, e);
      TimesVec(a, b, n, e);
      TimesVec(b, a, n, e);
      Solves(a, b, n, MatVec(b, e), e);
      Solves(a, b, n, e, MatVec(a, e));
    }
    SameAction(Times(a, b, n), Identity(n), n);
    SameAction(Times(b, a, n), Identity(n), n);
  }

  /** `invert`: a two-sided inverse, or a report of singularity exactly when there is none. */
  method Invert(a: Matrix, n: nat) returns (inverse: Option<Matrix>)
    requires Shape(a, n, n)
    ensures inverse.Some? ==> Inverses(a, inverse.value, n)
    ensures inverse.None? <==> !HasInverse(a, n)
  {
    hide Reduced, SameKernel, Inverses, VScale, Augment, Identity, F.Inv;
    ghost var start := Augment(a, Identity(n), n);
    var m := Augment(a, Identity(n), n);
    SameSelf(start);
    StartReduced(m, n);
    for column := 0 to n
      invariant Reduced(m, n, column) && Shape(m, n, 2 * n) && SameKernel(start, m)
    {
      var pivot := FindPivot(m, n, column);
      if pivot == n {
        NoPivot(a, m, n, column);
        return None;
      }
      SwapSame(m, column, pivot);
      ReducedSwap(m, n, column, pivot);
      ghost var before := m;
      m := m[column := m[pivot]][pivot := m[column]];
      SameTrans(start, before, m);
      ReducedShape(m, n, column);
      var scale := F.InvLoop(m[column][column]);
      NormalisedEntry(m[column], column);
      ScaleSame(m, 2 * n, column, scale);
      ReducedScale(m, n, column, scale);
      before := m;
      m := m[column := VScale(scale, m[column])];
      SameTrans(start, before, m);
      before := m;
      m := ClearColumn(m, n, column);
      SameTrans(start, before, m);
      ReducedShape(m, n, column + 1);
    }
    ReducedIsAugment(m, n);
    TwoSided(a, RightHalf(m, n), n);
    inverse := Some(RightHalf(m, n));
  }

  lemma StartReduced(m: Matrix, n: nat)
    requires Shape(m, n, 2 * n)
    ensures Reduced(m, n, 0)
  {
  }

  // -------------------------------------------------------------- multiplication by X

  /** Rows of the inverse moved down by one, zero on top: the ordinary shift times it. */
  function ShiftRows(inverse: Matrix, n: nat): (w: Matrix)
    requires Shape(inverse, n, n)
    ensures Shape(w, n, n)
  {
    seq(n, d requires 0 <= d < n => if d == 0 then Zero(n) else inverse[d - 1])
  }

  method Multiply(left: Matrix, right: Matrix, n: nat) returns (p: Matrix)
    requires Shape(left, n, n) && Shape(right, n, n)
    ensures p == Times(left, right, n)
  {
    hide Dot, Comb;
    p := seq(n, row requires 0 <= row < n =>
      seq(n, column requires 0 <= column < n => Dot(left[row], Column(right, column), n)));
    forall row | 0 <= row < n ensures p[row] == Times(left, right, n)[row] {
      forall column | 0 <= column < n ensures p[row][column] == Comb(left[row], right, n, n)[column] {
        CombEntry(left[row], right, n, column);
      }
    }
  }

  /** e_(d+1), or zero past the top degree. */
  function NextUnit(n: nat, d: nat): Vec { if d + 1 < n then Unit(n, d + 1) else Zero(n) }

  ghost predicate CommutingSquare(conversion: Matrix, shift: Matrix, n: nat)
    requires Shape(conversion, n, n) && Shape(shift, n, n)
  {
    forall d :: 0 <= d < n ==> MatVec(shift, MatVec(conversion, Unit(n, d))) == MatVec(conversion, NextUnit(n, d))
  }

  lemma ShiftedAction(conversion: Matrix, inverse: Matrix, n: nat, d: nat)
    requires Inverses(conversion, inverse, n) && d < n
    ensures MatVec(ShiftRows(inverse, n), MatVec(conversion, Unit(n, d))) == NextUnit(n, d)
  {
    hide Dot, Unit, Inverses;
    InverseShape(conversion, inverse, n);
    var y := MatVec(conversion, Unit(n, d));
    TimesVec(inverse, conversion, n, Unit(n, d));
    IdentityVec(n, Unit(n, d));
    var w := ShiftRows(inverse, n);
    forall r | 0 <= r < n ensures MatVec(w, y)[r] == NextUnit(n, d)[r] {
      if r == 0 {
        DotZero(n, y, n);
      } else {
        assert MatVec(w, y)[r] == MatVec(inverse, y)[r - 1];
      }
      UnitShift(n, d, r);
    }
  }

  lemma UnitShift(n: nat, d: nat, r: nat)
    requires d < n && r < n
    ensures NextUnit(n, d)[r] == if r == 0 then 0 else Unit(n, d)[r - 1]
  {
  }

  lemma InverseShape(a: Matrix, b: Matrix, n: nat)
    requires Inverses(a, b, n)
    ensures Shape(a, n, n) && Shape(b, n, n) && Times(b, a, n) == Identity(n)
  {
  }

  /** `derive_shift`: for every invertible conversion the derived map is multiplication
      by X in the converted basis, the top degree going to zero. */
  method DeriveShift(conversion: Matrix, n: nat) returns (shift: Option<Matrix>)
    requires Shape(conversion, n, n)
    ensures shift.None? <==> !HasInverse(conversion, n)
    ensures shift.Some? ==> Shape(shift.value, n, n) && CommutingSquare(conversion, shift.value, n)
  {
    hide Times, Inverses, HasInverse, MatVec, Unit;
    var inverse := Invert(conversion, n);
    if inverse.None? { return None; }
    InverseShape(conversion, inverse.value, n);
    var w := ShiftRows(inverse.value, n);
    var s := Multiply(conversion, w, n);
    forall d | 0 <= d < n
      ensures MatVec(s, MatVec(conversion, Unit(n, d))) == MatVec(conversion, NextUnit(n, d))
    {
      ShiftedAction(conversion, inverse.value, n, d);
      TimesVec(conversion, w, n, MatVec(conversion, Unit(n, d)));
    }
    shift := Some(s);
  }
}

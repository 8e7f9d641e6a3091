/** Gaussian elimination over QM31: `qdet` computes the determinant, and it is zero
    exactly when some nonzero vector is mapped to zero. */
module QDeterminant {
  import opened QM31
  import opened Determinant

  // ------------------------------------------------------------------ kernel vectors

  ghost function Dot(row: Row, v: Row, k: nat): Quad
    requires k <= |row| && k <= |v|
  {
    if k == 0 then ZERO else QAdd(Dot(row, v, k - 1), QMul(row[k - 1], v[k - 1]))
  }

  ghost predicate Kills(m: Matrix, v: Row)
  {
    forall r :: 0 <= r < |m| ==> |m[r]| == |v| && Dot(m[r], v, |v|) == ZERO
  }

  ghost predicate NonZero(v: Row)
  {
    exists i :: 0 <= i < |v| && v[i] != ZERO
  }

  ghost predicate Singular(m: Matrix)
  {
    exists v: Row :: |v| == |m| && NonZero(v) && Kills(m, v)
  }

  /** The same vectors are killed. */
  ghost predicate SameKernel(a: Matrix, b: Matrix)
  {
    |a| == |b| && forall v: Row :: Kills(a, v) <==> Kills(b, v)
  }

  lemma {:induction false} DotElim(u: Row, f: Quad, w: Row, v: Row, k: nat)
    requires |u| == |w| == |v| && k <= |v|
    ensures Dot(QElim(u, f, w), v, k) == QSub(Dot(u, v, k), QMul(f, Dot(w, v, k)))
  {
    hide QAdd, QSub, QMul;
    if k == 0 {
      QMulZero(f);
      QSubZero(ZERO);
    } else {
      DotElim(u, f, w, v, k - 1);
      MulElim(v[k - 1], u[k - 1], f, w[k - 1]);
      AddElim(Dot(u, v, k - 1), Dot(w, v, k - 1), f, QMul(u[k - 1], v[k - 1]), QMul(w[k - 1], v[k - 1]));
    }
  }

  lemma ElimKills(m: Matrix, r: nat, s: nat, f: Quad, v: Row)
    requires Square(m, |m|) && |v| == |m| && r < |m| && s < |m| && r != s
    ensures Kills(m, v) <==> Kills(m[r := QElim(m[r], f, m[s])], v)
  {
    hide QSub, QMul, Dot, QElim;
    var q := m[r := QElim(m[r], f, m[s])];
    DotElim(m[r], f, m[s], v, |v|);
    QMulZero(f);
    QSubZero(Dot(m[r], v, |v|));
    if Kills(m, v) {
      forall t | 0 <= t < |q| ensures |q[t]| == |v| && Dot(q[t], v, |v|) == ZERO { assert |m[t]| == |v|; }
    }
    if Kills(q, v) {
      assert q[s] == m[s] && q[r] == QElim(m[r], f, m[s]);
      forall t | 0 <= t < |m| ensures |m[t]| == |v| && Dot(m[t], v, |v|) == ZERO {
        if t != r { assert q[t] == m[t]; }
      }
    }
  }

  lemma ElimSame(m: Matrix, r: nat, s: nat, f: Quad)
    requires Square(m, |m|) && r < |m| && s < |m| && r != s
    ensures SameKernel(m, m[r := QElim(m[r], f, m[s])])
  {
    hide QElim, Dot;
    var q := m[r := QElim(m[r], f, m[s])];
    forall v: Row ensures Kills(m, v) <==> Kills(q, v) {
      if |v| == |m| {
        ElimKills(m, r, s, f, v);
      } else {
        assert |m[s]| != |v| && |q[s]| != |v|;
      }
    }
  }

  lemma SwapSame(m: Matrix, r: nat, s: nat)
    requires r < |m| && s < |m|
    ensures SameKernel(m, Swap(m, r, s))
  {
    hide Dot;
    var q := Swap(m, r, s);
    forall v: Row ensures Kills(m, v) <==> Kills(q, v) {
      assert m[r] == q[s] && m[s] == q[r];
      if Kills(q, v) {
        forall t | 0 <= t < |m| ensures |m[t]| == |v| && Dot(m[t], v, |v|) == ZERO {
          if t != r && t != s { assert q[t] == m[t]; }
        }
      }
    }
  }

  // ------------------------------------------------------------ solving from the bottom

  /** Columns before col are cleared below a nonzero diagonal. */
  ghost predicate Upper(m: Matrix, n: nat, col: nat)
  {
    && Square(m, n) && col <= n
    && (forall r, c :: 0 <= c < col && c < r < n ==> m[r][c] == ZERO)
    && (forall c :: 0 <= c < col ==> m[c][c] != ZERO)
  }

  lemma {:induction false} DotAlone(row: Row, v: Row, k: nat, t: nat)
    requires k <= |row| && k <= |v| && t < |row| && t < |v|
    requires forall i :: 0 <= i < k && i != t ==> row[i] == ZERO || v[i] == ZERO
    ensures Dot(row, v, k) == if t < k then QMul(row[t], v[t]) else ZERO
  {
    hide QAdd, QMul;
    if k > 0 {
      DotAlone(row, v, k - 1, t);
      if k - 1 != t {
        QMulZero(row[k - 1]);
        QMulZero(v[k - 1]);
        QAddZero(Dot(row, v, k - 1));
      } else {
        QAddZero(QMul(row[t], v[t]));
      }
    }
  }

  /** A full nonzero diagonal kills only zero. */
  lemma {:induction false} OnlyZero(m: Matrix, n: nat, v: Row, i: nat)
    requires Upper(m, n, n) && |v| == n && Kills(m, v) && i <= n
    ensures forall j :: i <= j < n ==> v[j] == ZERO
    decreases n - i
  {
    hide QMul, Dot;
    if i < n {
      OnlyZero(m, n, v, i + 1);
      DotAlone(m[i], v, n, i);
      QNoZeroDivisors(m[i][i], v[i]);
    }
  }

  lemma UpperRegular(m: Matrix, n: nat)
    requires Upper(m, n, n)
    ensures !Singular(m)
  {
    hide Upper, Kills;
    if Singular(m) {
      UpperSquare(m, n, n);
      var v: Row :| |v| == |m| && NonZero(v) && Kills(m, v);
      OnlyZero(m, n, v, 0);
    }
  }

  lemma UpperSquare(m: Matrix, n: nat, col: nat)
    requires Upper(m, n, col)
    ensures |m| == n && Square(m, n)
  {
  }

  lemma {:induction false} DotUpdate(row: Row, v: Row, t: nat, x: Quad, k: nat)
    requires k <= |row| == |v| && t < |v| && v[t] == ZERO
    ensures Dot(row, v[t := x], k) == if t < k then QAdd(Dot(row, v, k), QMul(row[t], x)) else Dot(row, v, k)
  {
    hide QAdd, QMul;
    if k > 0 {
      DotUpdate(row, v, t, x, k - 1);
      if t == k - 1 {
        QMulZero(row[t]);
        QAddZero(Dot(row, v, k - 1));
      } else if t < k - 1 {
        Rotate(Dot(row, v, k - 1), QMul(row[t], x), QMul(row[k - 1], v[k - 1]));
      }
    }
  }

  lemma Rotate(a: Quad, b: Quad, c: Quad)
    ensures QAdd(QAdd(a, b), c) == QAdd(QAdd(a, c), b)
  {
    hide QAdd;
    QAddAssoc(a, b, c);
    QAddComm(b, c);
    QAddAssoc(a, c, b);
  }

  /** Rows from i on are satisfied by v, which is supported on [i, col]. */
  ghost predicate Solved(m: Matrix, n: nat, col: nat, v: Row, i: nat)
    requires Square(m, n) && i <= col < n
  {
    && |v| == n && v[col] == ONE
    && (forall j :: 0 <= j < i || col < j < n ==> v[j] == ZERO)
    && (forall r :: i <= r < n ==> Dot(m[r], v, n) == ZERO)
  }

  /** A column with nothing left to pivot on yields a kernel vector. */
  lemma {:induction false} BackSolve(m: Matrix, n: nat, col: nat, i: nat) returns (v: Row)
    requires Upper(m, n, col) && i <= col < n && forall r :: col <= r < n ==> m[r][col] == ZERO
    ensures Solved(m, n, col, v, i)
    decreases col - i
  {
    hide QAdd, QMul, Dot, QInv, QNeg;
    if i == col {
      v := seq(n, j => if j == col then ONE else ZERO);
      forall r | col <= r < n ensures Dot(m[r], v, n) == ZERO {
        DotAlone(m[r], v, n, col);
        QMulZero(v[col]);
      }
    } else {
      var u := BackSolve(m, n, col, i + 1);
      var d := Dot(m[i], u, n);
      var x := QMul(QInv(m[i][i]), QNeg(d));
      v := u[i := x];
      forall r | i <= r < n ensures Dot(m[r], v, n) == ZERO {
        DotUpdate(m[r], u, i, x, n);
        if r == i {
          Cancelling(m[i][i], d);
        } else {
          QMulZero(x);
          QAddZero(ZERO);
        }
      }
    }
  }

  lemma Cancelling(p: Quad, d: Quad)
    requires p != ZERO
    ensures QAdd(d, QMul(p, QMul(QInv(p), QNeg(d)))) == ZERO
  {
    hide QAdd, QMul, QInv, QNeg;
    QMulInv(p);
    QMulAssoc(p, QInv(p), QNeg(d));
    QMulOne(QNeg(d));
    QAddNeg(d);
  }

  lemma NoPivot(m: Matrix, n: nat, col: nat)
    requires Upper(m, n, col) && col < n && forall r :: col <= r < n ==> m[r][col] == ZERO
    ensures Singular(m)
  {
    hide Dot;
    var v := BackSolve(m, n, col, 0);
    assert v[col] != ZERO;
    assert Kills(m, v);
  }

  lemma SingularSame(a: Matrix, b: Matrix)
    requires SameKernel(a, b)
    ensures Singular(a) <==> Singular(b)
  {
    hide Kills, NonZero;
  }

  // ------------------------------------------------------------- products of pivots

  ghost function Pivots(m: Matrix, n: nat, col: nat): Quad
    requires Square(m, n) && col <= n
  {
    if col == 0 then ONE else QMul(Pivots(m, n, col - 1), m[col - 1][col - 1])
  }

  lemma {:induction false} PivotsDiagonal(m: Matrix, n: nat, col: nat)
    requires Square(m, n) && col <= n
    ensures QMul(Pivots(m, n, col), Diagonal(m, col, n)) == Diagonal(m, 0, n)
  {
    hide QMul;
    if col == 0 {
      QMulOne(Diagonal(m, 0, n));
    } else {
      PivotsDiagonal(m, n, col - 1);
      QMulAssoc(Pivots(m, n, col - 1), m[col - 1][col - 1], Diagonal(m, col, n));
    }
  }

  lemma {:induction false} PivotsFrame(a: Matrix, b: Matrix, n: nat, col: nat)
    requires Square(a, n) && Square(b, n) && col <= n && a[..col] == b[..col]
    ensures Pivots(a, n, col) == Pivots(b, n, col)
  {
    hide QMul;
    if col > 0 {
      assert a[..col][col - 1] == b[..col][col - 1];
      assert a[..col - 1] == a[..col][..col - 1] == b[..col - 1];
      PivotsFrame(a, b, n, col - 1);
    }
  }

  lemma {:induction false} PivotsNonzero(m: Matrix, n: nat, col: nat)
    requires Upper(m, n, col)
    ensures Pivots(m, n, col) != ZERO
  {
    hide QMul;
    if col > 0 {
      PivotsNonzero(m, n, col - 1);
      QNoZeroDivisors(Pivots(m, n, col - 1), m[col - 1][col - 1]);
    }
  }

  /** A column with nothing left to pivot on makes the determinant zero. */
  lemma {:induction false} ZeroCorner(m: Matrix, n: nat, col: nat, i: nat)
    requires Upper(m, n, col) && i <= col < n && forall r :: col <= r < n ==> m[r][col] == ZERO
    ensures Det(Corner(m, i, n)) == ZERO
    decreases col - i
  {
    hide QAdd, QMul, Minor, Expand;
    var c := Corner(m, i, n);
    ExpandFirst(c, n - i);
    if i == col {
      QMulZero(Det(Minor(c, 0)));
    } else {
      ZeroCorner(m, n, col, i + 1);
      CornerMinor(m, i, n);
      QMulZero(c[0][0]);
    }
  }

  // ------------------------------------------------------------------- the algorithm

  /** Linked by row operations: the same kernel, and determinants in the ratio s. */
  ghost predicate Linked(matrix: Matrix, mat: Matrix, s: Quad)
  {
    && Square(matrix, |matrix|) && Square(mat, |matrix|) && SameKernel(matrix, mat)
    && Det(matrix) == QMul(s, Det(mat))
  }

  lemma LinkedSelf(m: Matrix)
    requires Square(m, |m|)
    ensures Linked(m, m, ONE)
  {
    hide QMul, Det, Kills;
    QMulOne(Det(m));
  }

  lemma LinkedSwap(matrix: Matrix, mat: Matrix, s: Quad, r: nat, t: nat)
    requires Linked(matrix, mat, s) && r < t < |mat|
    ensures Linked(matrix, Swap(mat, r, t), QNeg(s))
  {
    hide QMul, Det, Kills, QNeg;
    SwapSame(mat, r, t);
    DetSwap(mat, r, t);
    QMulNeg(QNeg(s), Det(mat));
    QMulNeg(Det(mat), s);
    QNegNeg(QMul(s, Det(mat)));
  }

  lemma LinkedElim(matrix: Matrix, mat: Matrix, s: Quad, r: nat, t: nat, f: Quad)
    requires Linked(matrix, mat, s) && r < |mat| && t < |mat| && r != t
    ensures Linked(matrix, mat[r := QElim(mat[r], f, mat[t])], s)
  {
    hide QMul, Det, Kills, QNeg, QElim;
    ElimSame(mat, r, t, f);
    DetElim(mat, r, t, f);
  }

  lemma LinkedZero(matrix: Matrix, mat: Matrix, s: Quad, col: nat)
    requires Linked(matrix, mat, s) && Upper(mat, |mat|, col) && col < |mat|
    requires forall r :: col <= r < |mat| ==> mat[r][col] == ZERO
    ensures Det(matrix) == ZERO && Singular(matrix)
  {
    hide QMul, Det, Kills;
    NoPivot(mat, |mat|, col);
    SingularSame(matrix, mat);
    ZeroCorner(mat, |mat|, col, 0);
    assert Corner(mat, 0, |mat|) == mat;
    QMulZero(s);
  }

  lemma LinkedFull(matrix: Matrix, mat: Matrix, s: Quad)
    requires Linked(matrix, mat, s) && Upper(mat, |mat|, |mat|) && s != ZERO
    ensures Det(matrix) == QMul(s, Pivots(mat, |mat|, |mat|)) != ZERO && !Singular(matrix)
  {
    hide QMul, Det, Kills, Pivots;
    var n := |mat|;
    UpperRegular(mat, n);
    SingularSame(matrix, mat);
    DetTriangular(mat, n);
    PivotsDiagonal(mat, n, n);
    QMulOne(Pivots(mat, n, n));
    PivotsNonzero(mat, n, n);
    QNoZeroDivisors(s, Pivots(mat, n, n));
  }

  /** row[c] -= factor * pivot[c] from column col on; the pivot row is zero before it. */
  method ElimRow(row: Row, factor: Quad, pivot: Row, col: nat) returns (out: Row)
    requires |row| == |pivot| && col <= |row| && forall c :: 0 <= c < col ==> pivot[c] == ZERO
    ensures out == QElim(row, factor, pivot)
  {
    hide QSub, QMul;
    out := row;
    QMulZero(factor);
    forall c | 0 <= c < col ensures row[c] == QSub(row[c], QMul(factor, pivot[c])) { QSubZero(row[c]); }
    for c := col to |row|
      invariant |out| == |row|
      invariant forall i :: 0 <= i < c ==> out[i] == QSub(row[i], QMul(factor, pivot[i]))
      invariant forall i :: c <= i < |row| ==> out[i] == row[i]
    {
      out := out[c := QSub(out[c], QMul(factor, pivot[c]))];
    }
  }

  lemma ClearsColumn(a: Quad, p: Quad)
    requires p != ZERO
    ensures QSub(a, QMul(QMul(a, QInv(p)), p)) == ZERO
    ensures QMul(a, QInv(p)) == ZERO <==> a == ZERO
  {
    hide QSub, QMul, QInv;
    QMulAssoc(a, QInv(p), p);
    QMulInv(p);
    QMulOne(a);
    QSubSelf(a);
    QNoZeroDivisors(a, QInv(p));
    QMulZero(p);
  }

  lemma UpperElim(m: Matrix, n: nat, col: nat, r: nat, f: Quad)
    requires Upper(m, n, col) && col < r < n
    ensures Upper(m[r := QElim(m[r], f, m[col])], n, col)
  {
    hide QSub, QMul;
    QMulZero(f);
    QSubZero(ZERO);
  }

  lemma UpperSwap(m: Matrix, n: nat, col: nat, r: nat)
    requires Upper(m, n, col) && col <= r < n
    ensures Upper(Swap(m, col, r), n, col)
  {
  }

  lemma UpperNext(m: Matrix, n: nat, col: nat)
    requires Upper(m, n, col) && col < n && m[col][col] != ZERO
    requires forall t :: col < t < n ==> m[t][col] == ZERO
    ensures Upper(m, n, col + 1)
  {
  }

  /** Subtract multiples of row col from every row below it. */
  method ClearBelow(matrix: Matrix, start: Matrix, ghost s: Quad, n: nat, col: nat) returns (mat: Matrix)
    requires n == |matrix| && Linked(matrix, start, s) && Upper(start, n, col) && col < n && start[col][col] != ZERO
    ensures Linked(matrix, mat, s) && Upper(mat, n, col + 1) && mat[..col + 1] == start[..col + 1]
  {
    hide Linked, Upper, QSub, QMul, QElim, QInv;
    UpperSquare(start, n, col);
    mat := start;
    var inverse := QInv(start[col][col]);
    for r := col + 1 to n
      invariant Square(mat, n) && Linked(matrix, mat, s) && Upper(mat, n, col)
      invariant mat[..col + 1] == start[..col + 1]
      invariant forall t :: col < t < r ==> mat[t][col] == ZERO
    {
      assert mat[col] == mat[..col + 1][col] == start[..col + 1][col] == start[col];
      var factor := QMul(mat[r][col], inverse);
      ClearsColumn(mat[r][col], mat[col][col]);
      if factor == ZERO {
        continue;
      }
      LinkedElim(matrix, mat, s, r, col, factor);
      UpperElim(mat, n, col, r, factor);
      UpperRow(mat, n, col);
      var row := ElimRow(mat[r], factor, mat[col], col);
      ElimEntry(mat[r], factor, mat[col], col);
      mat := mat[r := row];
    }
    assert mat[col] == mat[..col + 1][col] == start[..col + 1][col] == start[col];
    UpperNext(mat, n, col);
  }

  lemma ElimEntry(u: Row, f: Quad, w: Row, i: nat)
    requires i < |u| == |w|
    ensures QElim(u, f, w)[i] == QSub(u[i], QMul(f, w[i]))
  {
    hide QSub, QMul;
  }

  lemma UpperRow(m: Matrix, n: nat, col: nat)
    requires Upper(m, n, col) && col < n
    ensures forall c :: 0 <= c < col ==> m[col][c] == ZERO
  {
  }

  method FindPivot(mat: Matrix, n: nat, col: nat) returns (piv: nat)
    requires Square(mat, n) && col < n
    ensures col <= piv <= n
    ensures forall r :: col <= r < piv ==> mat[r][col] == ZERO
    ensures piv < n ==> mat[piv][col] != ZERO
  {
    for r := col to n
      invariant forall t :: col <= t < r ==> mat[t][col] == ZERO
    {
      if mat[r][col] != ZERO { return r; }
    }
    return n;
  }

  /** `qdet`: the determinant, zero exactly when the matrix kills a nonzero vector. */
  method Qdet(matrix: Matrix) returns (det: Quad)
    requires Square(matrix, |matrix|)
    ensures det == Det(matrix)
    ensures det == ZERO <==> Singular(matrix)
  {
    hide Linked, Upper, QSub, QMul, QNeg, Det, Singular, Pivots, Swap;
    var n := |matrix|;
    var mat := matrix;
    det := ONE;
    ghost var s := ONE;
    LinkedSelf(matrix);
    Start(matrix);
    for col := 0 to n
      invariant Linked(matrix, mat, s) && Upper(mat, n, col) && Square(mat, n)
      invariant s != ZERO && det == QMul(s, Pivots(mat, n, col))
    {
      ghost var before := mat;
      var piv := FindPivot(mat, n, col);
      if piv == n {
        LinkedZero(matrix, mat, s, col);
        return ZERO;
      }
      if piv != col {
        LinkedSwap(matrix, mat, s, col, piv);
        UpperSwap(mat, n, col, piv);
        SwapSquare(mat, col, piv);
        SwapRows(mat, col, piv);
        FlipSign(s, Pivots(mat, n, col));
        mat := Swap(mat, col, piv);
        det := QNeg(det);
        s := QNeg(s);
        PivotsFrame(before, mat, n, col);
      }
      var pv := mat[col][col];
      ghost var swapped := mat;
      det := QMul(det, pv);
      QMulAssoc(s, Pivots(mat, n, col), pv);
      mat := ClearBelow(matrix, mat, s, n, col);
      UpperSquare(mat, n, col + 1);
      PivotsFrame(swapped, mat, n, col + 1);
      PivotsStep(swapped, n, col);
    }
    LinkedFull(matrix, mat, s);
  }

  lemma Start(m: Matrix)
    requires Square(m, |m|)
    ensures Upper(m, |m|, 0) && Pivots(m, |m|, 0) == ONE && QMul(ONE, ONE) == ONE
  {
    QMulOne(ONE);
  }

  lemma SwapRows(m: Matrix, r: nat, s: nat)
    requires r < s < |m|
    ensures Swap(m, r, s)[..r] == m[..r] && Swap(m, r, s)[r] == m[s]
  {
  }

  lemma FlipSign(s: Quad, x: Quad)
    ensures QNeg(QMul(s, x)) == QMul(QNeg(s), x)
    ensures s != ZERO ==> QNeg(s) != ZERO
  {
    hide QMul, QNeg;
    QMulNeg(x, s);
    QNegNeg(s);
    QNegZero();
  }

  lemma PivotsStep(m: Matrix, n: nat, col: nat)
    requires Square(m, n) && col < n
    ensures Pivots(m, n, col + 1) == QMul(Pivots(m, n, col), m[col][col])
  {
  }
}

/** The determinant over QM31, by expansion along the first column, and the three facts
    Gaussian elimination rests on: it changes sign under a row exchange, is unchanged
    by subtracting a multiple of one row from another, and is the diagonal product of
    a triangular matrix. */
module Determinant {
  import opened M31
  import opened QM31

  type Row = seq<Quad>
  type Matrix = seq<Row>

  predicate Square(m: Matrix, n: nat)
  {
    |m| == n && forall r :: 0 <= r < n ==> |m[r]| == n
  }

  /** Row i and column 0 removed. */
  function Minor(m: Matrix, i: nat): (r: Matrix)
    requires Square(m, |m|) && i < |m|
    ensures Square(r, |m| - 1)
  {
    seq(|m| - 1, r requires 0 <= r < |m| - 1 => m[Skip(i, r)][1..])
  }

  function Skip(i: nat, r: nat): nat { if r < i then r else r + 1 }

  function Signed(i: nat, x: Quad): Quad { if i % 2 == 0 then x else QNeg(x) }

  ghost function Det(m: Matrix): Quad
    requires Square(m, |m|)
    decreases |m|, |m| + 1
  {
    if |m| == 0 then ONE else Expand(m, |m|)
  }

  ghost function Expand(m: Matrix, k: nat): Quad
    requires Square(m, |m|) && k <= |m|
    decreases |m|, k
  {
    if k == 0 then ZERO else QAdd(Expand(m, k - 1), Signed(k - 1, QMul(m[k - 1][0], Det(Minor(m, k - 1)))))
  }

  ghost function Term(m: Matrix, i: nat): Quad
    requires Square(m, |m|) && i < |m|
  {
    Signed(i, QMul(m[i][0], Det(Minor(m, i))))
  }

  lemma ExpandNext(m: Matrix, k: nat)
    requires Square(m, |m|) && k < |m|
    ensures Expand(m, k + 1) == QAdd(Expand(m, k), Term(m, k))
  {
    hide QAdd, QMul, Det;
  }

  lemma ExpandNone(m: Matrix)
    requires Square(m, |m|)
    ensures Expand(m, 0) == ZERO
  {
  }

  lemma DetUnfold(m: Matrix)
    requires Square(m, |m|) && |m| > 0
    ensures Det(m) == Expand(m, |m|)
  {
    hide Expand;
  }

  // ----------------------------------------------------------------- field identities

  lemma QNegAdd(x: Quad, y: Quad)
    ensures QNeg(QAdd(x, y)) == QAdd(QNeg(x), QNeg(y))
  {
    hide QAdd, QNeg;
    QAddSwap(x, y, QNeg(x), QNeg(y));
    QAddNeg(x);
    QAddNeg(y);
    QAddZero(ZERO);
    QNegUnique(QAdd(x, y), QAdd(QNeg(x), QNeg(y)));
  }

  lemma QNegZero()
    ensures QNeg(ZERO) == ZERO
  {
  }

  lemma QSubSelf(x: Quad)
    ensures QSub(x, x) == ZERO
  {
    hide QAdd, QNeg, QSub;
    QSubIsAddNeg(x, x);
    QAddNeg(x);
  }

  lemma QSubZero(x: Quad)
    ensures QSub(x, ZERO) == x
  {
    hide QAdd, QNeg, QSub;
    QSubIsAddNeg(x, ZERO);
    QNegZero();
    QAddZero(x);
  }

  lemma QSubZeroOnly(x: Quad, y: Quad)
    requires QSub(x, y) == ZERO
    ensures x == y
  {
    hide QAdd, QNeg, QSub;
    QSubIsAddNeg(x, y);
    QAddComm(x, QNeg(y));
    QNegUnique(QNeg(y), x);
    QNegNeg(y);
  }

  /** x (a - f b) == x a - f (x b) */
  lemma MulElim(x: Quad, a: Quad, f: Quad, b: Quad)
    ensures QMul(QSub(a, QMul(f, b)), x) == QSub(QMul(a, x), QMul(f, QMul(b, x)))
    ensures QMul(x, QSub(a, QMul(f, b))) == QSub(QMul(x, a), QMul(f, QMul(x, b)))
  {
    hide QAdd, QNeg, QSub, QMul;
    QSubIsAddNeg(a, QMul(f, b));
    QMulAdd(x, a, QNeg(QMul(f, b)));
    QMulNeg(x, QMul(f, b));
    QMulAssoc(f, b, x);
    QSubIsAddNeg(QMul(a, x), QMul(f, QMul(b, x)));
    QMulComm(x, QSub(a, QMul(f, b)));
    QMulComm(x, a);
    QMulComm(x, b);
  }

  lemma AddElim(a: Quad, b: Quad, f: Quad, c: Quad, d: Quad)
    ensures QAdd(QSub(a, QMul(f, b)), QSub(c, QMul(f, d))) == QSub(QAdd(a, c), QMul(f, QAdd(b, d)))
  {
    hide QAdd, QNeg, QSub, QMul;
    QSubIsAddNeg(a, QMul(f, b));
    QSubIsAddNeg(c, QMul(f, d));
    QAddSwap(a, QNeg(QMul(f, b)), c, QNeg(QMul(f, d)));
    QNegAdd(QMul(f, b), QMul(f, d));
    QMulAdd(f, b, d);
    QSubIsAddNeg(QAdd(a, c), QMul(f, QAdd(b, d)));
  }

  lemma NegElim(a: Quad, f: Quad, b: Quad)
    ensures QNeg(QSub(a, QMul(f, b))) == QSub(QNeg(a), QMul(f, QNeg(b)))
  {
    hide QAdd, QNeg, QSub, QMul;
    QSubIsAddNeg(a, QMul(f, b));
    QNegAdd(a, QNeg(QMul(f, b)));
    QMulNeg(f, b);
    QSubIsAddNeg(QNeg(a), QMul(f, QNeg(b)));
  }

  lemma SignedElim(i: nat, a: Quad, f: Quad, b: Quad)
    ensures Signed(i, QSub(a, QMul(f, b))) == QSub(Signed(i, a), QMul(f, Signed(i, b)))
  {
    hide QNeg, QSub, QMul;
    NegElim(a, f, b);
  }

  lemma SignedFlip(i: nat, x: Quad)
    ensures Signed(i, QNeg(x)) == QNeg(Signed(i, x)) == Signed(i + 1, x)
  {
    hide QNeg;
    QNegNeg(x);
  }

  /** Two is not zero in QM31. */
  lemma SelfNegated(x: Quad)
    requires x == QNeg(x)
    ensures x == ZERO
  {
    HalfZero(x.a);
    HalfZero(x.b);
    HalfZero(x.c);
    HalfZero(x.d);
  }

  lemma HalfZero(a: Elem)
    requires a == Neg(a)
    ensures a == 0
  {
  }

  // ---------------------------------------------------------------- linear in each row

  /** u - f w, the row operation of the elimination. */
  function QElim(u: Row, f: Quad, w: Row): (r: Row)
    requires |u| == |w|
    ensures |r| == |u|
  {
    seq(|u|, i requires 0 <= i < |u| => QSub(u[i], QMul(f, w[i])))
  }

  function Below(i: nat, r: nat): nat
    requires r != i
  {
    if r < i then r else r - 1
  }

  lemma MinorSame(m: Matrix, r: nat, x: Row)
    requires Square(m, |m|) && r < |m| && |x| == |m|
    ensures Minor(m[r := x], r) == Minor(m, r)
  {
  }

  lemma MinorUpdate(m: Matrix, r: nat, x: Row, i: nat)
    requires Square(m, |m|) && r < |m| && i < |m| && i != r && |x| == |m|
    ensures Minor(m[r := x], i) == Minor(m, i)[Below(i, r) := x[1..]]
  {
  }

  lemma ElimTail(u: Row, f: Quad, w: Row)
    requires |u| == |w| > 0
    ensures QElim(u, f, w)[1..] == QElim(u[1..], f, w[1..])
    ensures QElim(u, f, w)[0] == QSub(u[0], QMul(f, w[0]))
  {
    hide QSub, QMul;
  }

  lemma {:induction false} DetLinear(m: Matrix, r: nat, u: Row, f: Quad, w: Row)
    requires Square(m, |m|) && r < |m| && |u| == |w| == |m|
    ensures Det(m[r := QElim(u, f, w)]) == QSub(Det(m[r := u]), QMul(f, Det(m[r := w])))
    decreases |m|, |m| + 1
  {
    hide QAdd, QSub, QMul, QElim, Det, Expand;
    DetUnfold(m[r := QElim(u, f, w)]);
    DetUnfold(m[r := u]);
    DetUnfold(m[r := w]);
    ExpandLinear(m, r, u, f, w, |m|);
  }

  lemma {:induction false} ExpandLinear(m: Matrix, r: nat, u: Row, f: Quad, w: Row, k: nat)
    requires Square(m, |m|) && r < |m| && |u| == |w| == |m| && k <= |m|
    ensures Expand(m[r := QElim(u, f, w)], k) == QSub(Expand(m[r := u], k), QMul(f, Expand(m[r := w], k)))
    decreases |m|, k
  {
    hide QAdd, QSub, QMul, QElim, Det, Expand, Term;
    var x := m[r := QElim(u, f, w)];
    if k == 0 {
      ExpandNone(x);
      ExpandNone(m[r := u]);
      ExpandNone(m[r := w]);
      QMulZero(f);
      QSubZero(ZERO);
    } else {
      ExpandLinear(m, r, u, f, w, k - 1);
      TermLinear(m, r, u, f, w, k - 1);
      ExpandNext(x, k - 1);
      ExpandNext(m[r := u], k - 1);
      ExpandNext(m[r := w], k - 1);
      AddElim(Expand(m[r := u], k - 1), Expand(m[r := w], k - 1), f, Term(m[r := u], k - 1), Term(m[r := w], k - 1));
    }
  }

  lemma {:induction false} TermLinear(m: Matrix, r: nat, u: Row, f: Quad, w: Row, i: nat)
    requires Square(m, |m|) && r < |m| && |u| == |w| == |m| && i < |m|
    ensures Term(m[r := QElim(u, f, w)], i) == QSub(Term(m[r := u], i), QMul(f, Term(m[r := w], i)))
    decreases |m|, 0
  {
    hide QAdd, QSub, QMul, QElim, Det, Minor, Signed;
    var e := QElim(u, f, w);
    ElimTail(u, f, w);
    if i == r {
      MinorSame(m, r, e);
      MinorSame(m, r, u);
      MinorSame(m, r, w);
      var d := Det(Minor(m, r));
      MulElim(d, u[0], f, w[0]);
      SignedElim(i, QMul(u[0], d), f, QMul(w[0], d));
    } else {
      MinorUpdate(m, r, e, i);
      MinorUpdate(m, r, u, i);
      MinorUpdate(m, r, w, i);
      var n, s := Minor(m, i), Below(i, r);
      DetLinear(n, s, u[1..], f, w[1..]);
      var du, dw := Det(n[s := u[1..]]), Det(n[s := w[1..]]);
      MulElim(m[i][0], du, f, dw);
      SignedElim(i, QMul(m[i][0], du), f, QMul(m[i][0], dw));
    }
  }

  // ---------------------------------------------------------------------- alternation

  function Swap(m: Matrix, r: nat, s: nat): (q: Matrix)
    requires r < |m| && s < |m|
    ensures |q| == |m|
  {
    m[r := m[s]][s := m[r]]
  }

  lemma MinorSwapApart(m: Matrix, k: nat, i: nat)
    requires Square(m, |m|) && k + 1 < |m| && i < |m| && i != k && i != k + 1
    ensures Below(i, k + 1) == Below(i, k) + 1 < |m| - 1
    ensures Minor(Swap(m, k, k + 1), i) == Swap(Minor(m, i), Below(i, k), Below(i, k) + 1)
  {
  }

  lemma MinorSwapAt(m: Matrix, k: nat)
    requires Square(m, |m|) && k + 1 < |m|
    ensures Minor(Swap(m, k, k + 1), k) == Minor(m, k + 1)
    ensures Minor(Swap(m, k, k + 1), k + 1) == Minor(m, k)
  {
  }

  lemma {:induction false} AdjacentSwap(m: Matrix, k: nat)
    requires Square(m, |m|) && k + 1 < |m|
    ensures Det(Swap(m, k, k + 1)) == QNeg(Det(m))
    decreases |m|, |m| + 1
  {
    hide QNeg, Det, Expand;
    DetUnfold(m);
    DetUnfold(Swap(m, k, k + 1));
    ExpandSwap(m, k, |m|);
  }

  lemma {:induction false} ExpandSwap(m: Matrix, k: nat, j: nat)
    requires Square(m, |m|) && k + 1 < |m| && j <= |m| && j != k + 1
    ensures Expand(Swap(m, k, k + 1), j) == QNeg(Expand(m, j))
    decreases |m|, j
  {
    hide QAdd, QNeg, Det, Expand, Term, Swap;
    SwapSquare(m, k, k + 1);
    var q := Swap(m, k, k + 1);
    if j == 0 {
      ExpandNone(m);
      ExpandNone(q);
      QNegZero();
    } else if j == k + 2 {
      ExpandSwap(m, k, k);
      TermSwapAt(m, k);
      ExpandNext(q, k);
      ExpandNext(q, k + 1);
      ExpandNext(m, k);
      ExpandNext(m, k + 1);
      SwapSum(Expand(m, k), Term(m, k), Term(m, k + 1));
    } else {
      ExpandSwap(m, k, j - 1);
      TermSwapApart(m, k, j - 1);
      ExpandNext(q, j - 1);
      ExpandNext(m, j - 1);
      QNegAdd(Expand(m, j - 1), Term(m, j - 1));
    }
  }

  lemma SwapSquare(m: Matrix, r: nat, s: nat)
    requires Square(m, |m|) && r < |m| && s < |m|
    ensures Square(Swap(m, r, s), |m|)
  {
  }

  lemma SwapSum(e: Quad, x: Quad, y: Quad)
    ensures QAdd(QAdd(QNeg(e), QNeg(y)), QNeg(x)) == QNeg(QAdd(QAdd(e, x), y))
  {
    hide QAdd, QNeg;
    QNegAdd(QAdd(e, x), y);
    QNegAdd(e, x);
    QAddAssoc(QNeg(e), QNeg(y), QNeg(x));
    QAddComm(QNeg(y), QNeg(x));
    QAddAssoc(QNeg(e), QNeg(x), QNeg(y));
  }

  lemma TermSwapAt(m: Matrix, k: nat)
    requires Square(m, |m|) && k + 1 < |m|
    ensures Term(Swap(m, k, k + 1), k) == QNeg(Term(m, k + 1))
    ensures Term(Swap(m, k, k + 1), k + 1) == QNeg(Term(m, k))
  {
    hide QAdd, QNeg, QMul, Det, Minor, Signed;
    MinorSwapAt(m, k);
    var x := QMul(m[k + 1][0], Det(Minor(m, k + 1)));
    var y := QMul(m[k][0], Det(Minor(m, k)));
    SignedFlip(k, x);
    SignedFlip(k, y);
    QNegNeg(Signed(k, x));
  }

  lemma {:induction false} TermSwapApart(m: Matrix, k: nat, i: nat)
    requires Square(m, |m|) && k + 1 < |m| && i < |m| && i != k && i != k + 1
    ensures Term(Swap(m, k, k + 1), i) == QNeg(Term(m, i))
    decreases |m|, 0
  {
    hide QAdd, QNeg, QMul, Det, Minor, Signed;
    MinorSwapApart(m, k, i);
    AdjacentSwap(Minor(m, i), Below(i, k));
    var d := Det(Minor(m, i));
    QMulNeg(m[i][0], d);
    SignedFlip(i, QMul(m[i][0], d));
  }

  /** Exchanging any two different rows negates the determinant. */
  lemma {:induction false} DetSwap(m: Matrix, r: nat, s: nat)
    requires Square(m, |m|) && r < s < |m|
    ensures Det(Swap(m, r, s)) == QNeg(Det(m))
    decreases s - r
  {
    hide QNeg, Det;
    if s == r + 1 {
      AdjacentSwap(m, r);
    } else {
      var m1 := Swap(m, s - 1, s);
      var m2 := Swap(m1, r, s - 1);
      assert Swap(m2, s - 1, s) == Swap(m, r, s);
      AdjacentSwap(m, s - 1);
      DetSwap(m1, r, s - 1);
      AdjacentSwap(m2, s - 1);
      QNegNeg(Det(m));
    }
  }

  lemma EqualRows(m: Matrix, r: nat, s: nat)
    requires Square(m, |m|) && r < |m| && s < |m| && r != s && m[r] == m[s]
    ensures Det(m) == ZERO
  {
    hide QNeg, Det;
    var a, b := if r < s then r else s, if r < s then s else r;
    assert Swap(m, a, b) == m;
    DetSwap(m, a, b);
    SelfNegated(Det(m));
  }

  /** Subtracting a multiple of another row changes nothing. */
  lemma DetElim(m: Matrix, r: nat, s: nat, f: Quad)
    requires Square(m, |m|) && r < |m| && s < |m| && r != s
    ensures Det(m[r := QElim(m[r], f, m[s])]) == Det(m)
  {
    hide QSub, QMul, Det, QElim;
    DetLinear(m, r, m[r], f, m[s]);
    assert m[r := m[r]] == m;
    EqualRows(m[r := m[s]], r, s);
    QMulZero(f);
    QSubZero(Det(m));
  }

  // ----------------------------------------------------------------------- triangular

  ghost predicate Triangular(m: Matrix, n: nat)
  {
    Square(m, n) && forall r, c :: 0 <= c < r < n ==> m[r][c] == ZERO
  }

  ghost function Diagonal(m: Matrix, i: nat, n: nat): Quad
    requires Square(m, n) && i <= n
    decreases n - i
  {
    if i == n then ONE else QMul(m[i][i], Diagonal(m, i + 1, n))
  }

  /** The block of rows and columns from i on. */
  function Corner(m: Matrix, i: nat, n: nat): (r: Matrix)
    requires Square(m, n) && i <= n
    ensures Square(r, n - i)
  {
    seq(n - i, r requires 0 <= r < n - i => m[r + i][i..])
  }

  lemma CornerMinor(m: Matrix, i: nat, n: nat)
    requires Square(m, n) && i < n
    ensures Minor(Corner(m, i, n), 0) == Corner(m, i + 1, n)
  {
    var a, b := Minor(Corner(m, i, n), 0), Corner(m, i + 1, n);
    forall r | 0 <= r < n - i - 1 ensures a[r] == b[r] {
      assert m[r + 1 + i][i..][1..] == m[r + i + 1][i + 1..];
    }
  }

  lemma {:induction false} ExpandFirst(m: Matrix, k: nat)
    requires Square(m, |m|) && 1 <= k <= |m|
    requires forall r :: 1 <= r < |m| ==> m[r][0] == ZERO
    ensures Expand(m, k) == QMul(m[0][0], Det(Minor(m, 0)))
  {
    hide QAdd, QMul, Det, Minor, Expand;
    ExpandNext(m, k - 1);
    if k == 1 {
      ExpandNone(m);
      QAddZero(QMul(m[0][0], Det(Minor(m, 0))));
    } else {
      ExpandFirst(m, k - 1);
      QMulZero(Det(Minor(m, k - 1)));
      QNegZero();
      QAddZero(Expand(m, k - 1));
    }
  }

  lemma {:induction false} DetCorner(m: Matrix, i: nat, n: nat)
    requires Triangular(m, n) && i <= n
    ensures Det(Corner(m, i, n)) == Diagonal(m, i, n)
    decreases n - i
  {
    hide QAdd, QMul, Minor, Expand;
    if i < n {
      var c := Corner(m, i, n);
      DetCorner(m, i + 1, n);
      CornerMinor(m, i, n);
      ExpandFirst(c, n - i);
    }
  }

  lemma DetTriangular(m: Matrix, n: nat)
    requires Triangular(m, n)
    ensures Det(m) == Diagonal(m, 0, n)
  {
    hide Det, Diagonal;
    DetCorner(m, 0, n);
    assert Corner(m, 0, n) == m;
  }
}

/** Matrices over M31: rows, dot products, and products of matrices. */
module Matrices {
  import opened M31
  import opened Vectors

  type Matrix = seq<Vec>

  predicate Shape(m: Matrix, rows: nat, cols: nat)
  {
    |m| == rows && forall r :: 0 <= r < rows ==> |m[r]| == cols
  }

  function Dot(v: Vec, w: Vec, k: nat): Elem
    requires k <= |v| && k <= |w|
  {
    if k == 0 then 0 else Add(Dot(v, w, k - 1), Mul(v[k - 1], w[k - 1]))
  }

  /** Sum over i < k of v[i] * m[i]. */
  function Comb(v: Vec, m: Matrix, k: nat, cols: nat): (r: Vec)
    requires k <= |v| && k <= |m| && Shape(m, |m|, cols)
    ensures |r| == cols
  {
    if k == 0 then Zero(cols) else VAdd(Comb(v, m, k - 1, cols), VScale(v[k - 1], m[k - 1]))
  }

  function Unit(n: nat, i: nat): (v: Vec)
    ensures |v| == n
  {
    seq(n, j => if j == i then 1 else 0)
  }

  function Identity(n: nat): (m: Matrix)
    ensures Shape(m, n, n)
  {
    seq(n, i requires 0 <= i < n => Unit(n, i))
  }

  function Column(m: Matrix, c: nat): (v: Vec)
    requires forall r :: 0 <= r < |m| ==> c < |m[r]|
    ensures |v| == |m|
  {
    seq(|m|, r requires 0 <= r < |m| => m[r][c])
  }

  function MatVec(m: Matrix, x: Vec): (y: Vec)
    requires Shape(m, |m|, |x|)
    ensures |y| == |m|
  {
    seq(|m|, r requires 0 <= r < |m| => Dot(m[r], x, |x|))
  }

  /** The product, row by row. */
  function Times(a: Matrix, b: Matrix, n: nat): (p: Matrix)
    requires Shape(a, n, n) && Shape(b, n, n)
    ensures Shape(p, n, n)
  {
    seq(n, r requires 0 <= r < n => Comb(a[r], b, n, n))
  }

  /** Both products are the identity. */
  ghost predicate Inverses(a: Matrix, b: Matrix, n: nat)
  {
    Shape(a, n, n) && Shape(b, n, n) && Times(a, b, n) == Identity(n) && Times(b, a, n) == Identity(n)
  }

  // ------------------------------------------------------------------ arithmetic helpers

  lemma AddSwap(a: Elem, b: Elem, c: Elem, d: Elem)
    ensures Add(Add(a, b), Add(c, d)) == Add(Add(a, c), Add(b, d))
  {
    hide Add;
    AddAssoc(a, b, Add(c, d));
    AddAssoc(b, c, d);
    AddComm(b, c);
    AddAssoc(c, b, d);
    AddAssoc(a, c, Add(b, d));
  }

  // ----------------------------------------------------------------------- dot products

  lemma {:induction false} DotAdd(u: Vec, v: Vec, x: Vec, k: nat)
    requires |u| == |v| && k <= |u| && k <= |x|
    ensures Dot(VAdd(u, v), x, k) == Add(Dot(u, x, k), Dot(v, x, k))
  {
    hide Add, Mul;
    if k == 0 {
      AddZero(0);
    } else {
      DotAdd(u, v, x, k - 1);
      var a, b, y := u[k - 1], v[k - 1], x[k - 1];
      MulComm(Add(a, b), y);
      MulAdd(y, a, b);
      MulComm(y, a);
      MulComm(y, b);
      AddSwap(Dot(u, x, k - 1), Dot(v, x, k - 1), Mul(a, y), Mul(b, y));
    }
  }

  lemma {:induction false} DotScale(c: Elem, v: Vec, x: Vec, k: nat)
    requires k <= |v| && k <= |x|
    ensures Dot(VScale(c, v), x, k) == Mul(c, Dot(v, x, k))
  {
    hide Add, Mul;
    if k == 0 {
      MulZero(c);
    } else {
      DotScale(c, v, x, k - 1);
      MulAssoc(c, v[k - 1], x[k - 1]);
      MulAdd(c, Dot(v, x, k - 1), Mul(v[k - 1], x[k - 1]));
    }
  }

  lemma {:induction false} DotZero(n: nat, x: Vec, k: nat)
    requires k <= n && k <= |x|
    ensures Dot(Zero(n), x, k) == 0 && Dot(x, Zero(n), k) == 0
  {
    hide Add, Mul;
    if k > 0 {
      DotZero(n, x, k - 1);
      MulZero(x[k - 1]);
      AddZero(0);
    }
  }

  lemma {:induction false} DotAlone(v: Vec, w: Vec, k: nat, t: nat)
    requires k <= |v| && k <= |w| && t < |v| && t < |w|
    requires forall i :: 0 <= i < k && i != t ==> v[i] == 0 || w[i] == 0
    ensures Dot(v, w, k) == if t < k then Mul(v[t], w[t]) else 0
  {
    hide Add, Mul;
    if k > 0 {
      DotAlone(v, w, k - 1, t);
      if k - 1 != t {
        MulZero(v[k - 1]);
        MulZero(w[k - 1]);
        AddZero(Dot(v, w, k - 1));
      } else {
        AddZero(Mul(v[t], w[t]));
      }
    }
  }

  lemma DotUnit(v: Vec, n: nat, i: nat)
    requires |v| == n && i < n
    ensures Dot(v, Unit(n, i), n) == v[i] == Dot(Unit(n, i), v, n)
  {
    hide Dot, Mul;
    DotAlone(v, Unit(n, i), n, i);
    DotAlone(Unit(n, i), v, n, i);
    MulOne(v[i]);
  }

  /** (v M) . x == v . (M x) */
  lemma {:induction false} Adjoint(v: Vec, m: Matrix, x: Vec, k: nat)
    requires k <= |v| && k <= |m| && Shape(m, |m|, |x|)
    ensures Dot(Comb(v, m, k, |x|), x, |x|) == Dot(v, MatVec(m, x), k)
  {
    hide Add, Mul, VAdd, VScale, Zero;
    if k == 0 {
      DotZero(|x|, x, |x|);
      assert Dot(v, MatVec(m, x), 0) == 0;
    } else {
      Adjoint(v, m, x, k - 1);
      DotAdd(Comb(v, m, k - 1, |x|), VScale(v[k - 1], m[k - 1]), x, |x|);
      DotScale(v[k - 1], m[k - 1], x, |x|);
    }
  }

  lemma MatVecUnit(m: Matrix, n: nat, c: nat)
    requires Shape(m, |m|, n) && c < n
    ensures MatVec(m, Unit(n, c)) == Column(m, c)
  {
    hide Dot, Unit;
    forall r | 0 <= r < |m| ensures Dot(m[r], Unit(n, c), n) == m[r][c] { DotUnit(m[r], n, c); }
  }

  /** Entry c of a combination of rows is a dot product with column c. */
  lemma CombEntry(v: Vec, m: Matrix, n: nat, c: nat)
    requires |v| == |m| && Shape(m, |m|, n) && c < n
    ensures Comb(v, m, |m|, n)[c] == Dot(v, Column(m, c), |m|)
  {
    hide Dot, Unit, Comb;
    Adjoint(v, m, Unit(n, c), |m|);
    DotUnit(Comb(v, m, |m|, n), n, c);
    MatVecUnit(m, n, c);
  }

  // ------------------------------------------------------------------------ products

  /** Products from one side determine vectors: M (N x) == (M N) x. */
  lemma TimesVec(a: Matrix, b: Matrix, n: nat, x: Vec)
    requires Shape(a, n, n) && Shape(b, n, n) && |x| == n
    ensures MatVec(Times(a, b, n), x) == MatVec(a, MatVec(b, x))
  {
    hide Dot, Comb;
    forall r | 0 <= r < n ensures MatVec(Times(a, b, n), x)[r] == MatVec(a, MatVec(b, x))[r] {
      Adjoint(a[r], b, x, n);
    }
  }

  /** Matrices that act alike are equal. */
  lemma SameAction(a: Matrix, b: Matrix, n: nat)
    requires Shape(a, n, n) && Shape(b, n, n)
    requires forall c :: 0 <= c < n ==> MatVec(a, Unit(n, c)) == MatVec(b, Unit(n, c))
    ensures a == b
  {
    hide MatVec, Unit;
    forall r, c | 0 <= r < n && 0 <= c < n ensures a[r][c] == b[r][c] {
      MatVecUnit(a, n, c);
      MatVecUnit(b, n, c);
      assert Column(a, c)[r] == Column(b, c)[r];
    }
    forall r | 0 <= r < n ensures a[r] == b[r] {
    }
  }

  lemma IdentityVec(n: nat, x: Vec)
    requires |x| == n
    ensures MatVec(Identity(n), x) == x
  {
    hide Dot, Unit;
    forall r | 0 <= r < n ensures Dot(Identity(n)[r], x, n) == x[r] { DotUnit(x, n, r); }
  }
}

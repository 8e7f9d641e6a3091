/** The invariant of streaming elimination and what it yields: exact membership,
    rank, and the Schur image of the carried part. */
module Schur {
  import opened Options
  import opened M31
  import F = M31Field
  import opened Vectors
  import opened Elimination

  /** The reduction of the first p positions only. */
  ghost function Partial(piv: Pivots, p: nat, v: Vec): (r: Vec)
    requires Echelon(piv, |v|) && p <= |piv|
    ensures |r| == |v|
  {
    if p == 0 then v else Step(piv, p - 1, Partial(piv, p - 1, v))
  }

  lemma {:induction false} PartialReduce(piv: Pivots, p: nat, v: Vec)
    requires Echelon(piv, |v|) && p <= |piv|
    ensures Reduce(piv, p, Partial(piv, p, v)) == Reduce(piv, 0, v)
  {
    hide Step, Echelon;
    if p > 0 {
      PartialReduce(piv, p - 1, v);
    }
  }

  lemma {:induction false} PartialSpan(piv: Pivots, p: nat, v: Vec, gens: seq<Vec>)
    requires Echelon(piv, |v|) && p <= |piv|
    requires forall q :: 0 <= q < |piv| && piv[q].Some? ==> InSpan(gens, |v|, piv[q].value)
    ensures InSpan(gens, |v|, v) <==> InSpan(gens, |v|, Partial(piv, p, v))
  {
    hide InSpan, Eliminate;
    if p > 0 {
      PartialSpan(piv, p - 1, v, gens);
      var u := Partial(piv, p - 1, v);
      if piv[p - 1].Some? { SpanEliminate(gens, |v|, u, u[p - 1], piv[p - 1].value); }
    }
  }

  // --------------------------------------------------------------------- the invariant

  /** The vector whose eliminated part is zero and whose carried part is c. */
  function Carried(n: nat, c: Vec): Vec { Zero(n) + c }

  ghost predicate Residue(piv: Pivots, n: nat, k: nat, v: Vec, residuals: seq<Vec>)
    requires n <= k && |piv| == n && Echelon(piv, k) && |v| == k
  {
    var r := Reduce(piv, 0, v);
    r[..n] == Zero(n) && InSpan(residuals, k - n, r[n..])
  }

  /** State after streaming `history` (vectors of length k, pivots in the first n
      positions), having returned `residuals`. */
  ghost predicate Inv(piv: Pivots, n: nat, k: nat, history: seq<Vec>, residuals: seq<Vec>)
  {
    && n <= k && |piv| == n && Echelon(piv, k)
    && (forall v :: v in history ==> |v| == k)
    && (forall p :: 0 <= p < n && piv[p].Some? ==> InSpan(history, k, piv[p].value))
    && (forall v :: v in history ==> |v| == k && Residue(piv, n, k, v, residuals))
    && (forall c :: c in residuals ==> |c| == k - n && InSpan(history, k, Carried(n, c)))
  }

  lemma InvInit(n: nat, k: nat)
    requires n <= k
    ensures Inv(seq(n, _ => None), n, k, [], [])
  {
  }

  lemma SpanMore(history: seq<Vec>, v: Vec, k: nat, w: Vec)
    requires InSpan(history, k, w)
    ensures InSpan(history + [v], k, w)
  {
    hide InSpan;
    forall g | g in history ensures InSpan(history + [v], k, g) { SpanGenerator(history + [v], k, g); }
    SpanMonotone(history, history + [v], k, w);
  }

  lemma ResidueMore(piv: Pivots, n: nat, k: nat, v: Vec, residuals: seq<Vec>, c: Vec)
    requires n <= k && |piv| == n && Echelon(piv, k) && |v| == k
    requires Residue(piv, n, k, v, residuals)
    ensures Residue(piv, n, k, v, residuals + [c])
  {
    hide InSpan, Reduce;
    SpanMore(residuals, c, k - n, Reduce(piv, 0, v)[n..]);
  }

  lemma ResidualCarried(piv: Pivots, n: nat, k: nat, v: Vec, more: seq<Vec>)
    requires n <= k && |piv| == n && Echelon(piv, k) && |v| == k
    requires forall p :: 0 <= p < n && piv[p].Some? ==> InSpan(more, k, piv[p].value)
    requires v in more && Reduce(piv, 0, v)[..n] == Zero(n)
    ensures InSpan(more, k, Carried(n, Reduce(piv, 0, v)[n..]))
  {
    hide InSpan, Reduce, Zero;
    SpanGenerator(more, k, v);
    ReduceSpan(piv, 0, v, more);
    assert Carried(n, Reduce(piv, 0, v)[n..]) == Reduce(piv, 0, v);
  }

  lemma PivotsMore(piv: Pivots, n: nat, k: nat, history: seq<Vec>, residuals: seq<Vec>, v: Vec)
    requires Inv(piv, n, k, history, residuals)
    ensures forall p :: 0 <= p < n && piv[p].Some? ==> InSpan(history + [v], k, piv[p].value)
    ensures forall c :: c in residuals ==> InSpan(history + [v], k, Carried(n, c))
  {
    hide InSpan, Residue, Echelon;
    forall p | 0 <= p < n && piv[p].Some? ensures InSpan(history + [v], k, piv[p].value) {
      SpanMore(history, v, k, piv[p].value);
    }
    forall c | c in residuals ensures InSpan(history + [v], k, Carried(n, c)) {
      SpanMore(history, v, k, Carried(n, c));
    }
  }

  /** No free position: the vector is absorbed and its carried part is a residual. */
  lemma InvResidual(piv: Pivots, n: nat, k: nat, history: seq<Vec>, residuals: seq<Vec>, v: Vec)
    requires Inv(piv, n, k, history, residuals) && |v| == k
    requires Reduce(piv, 0, v)[..n] == Zero(n)
    ensures Inv(piv, n, k, history + [v], residuals + [Reduce(piv, 0, v)[n..]])
  {
    hide InSpan, Reduce, Zero, Echelon, Residue, Carried;
    var c := Reduce(piv, 0, v)[n..];
    var res := residuals + [c];
    forall w | w in history ensures |w| == k && Residue(piv, n, k, w, res) { ResidueMore(piv, n, k, w, residuals, c); }
    ResidueLast(piv, n, k, v, residuals);
    PivotsMore(piv, n, k, history, residuals, v);
    ResidualCarried(piv, n, k, v, history + [v]);
  }

  lemma ResidueLast(piv: Pivots, n: nat, k: nat, v: Vec, residuals: seq<Vec>)
    requires n <= k && |piv| == n && Echelon(piv, k) && |v| == k && Reduce(piv, 0, v)[..n] == Zero(n)
    ensures Residue(piv, n, k, v, residuals + [Reduce(piv, 0, v)[n..]])
  {
    hide InSpan, Reduce, Zero;
    SpanGenerator(residuals + [Reduce(piv, 0, v)[n..]], k - n, Reduce(piv, 0, v)[n..]);
  }

  /** A free position: the normalised remainder becomes its pivot. */
  lemma InvPivot(piv: Pivots, n: nat, k: nat, history: seq<Vec>, residuals: seq<Vec>, v: Vec, q: nat, b: Vec)
    requires Inv(piv, n, k, history, residuals) && |v| == k && q < n && piv[q].None?
    requires var u := Partial(piv, q, v); u[q] != 0 && b == VScale(F.Inv(u[q]), u)
    requires IsPivot(b, q, k)
    ensures Inv(piv[q := Some(b)], n, k, history + [v], residuals)
  {
    hide InSpan, Reduce, Zero, VScale, Partial, F.Inv;
    var next, more := piv[q := Some(b)], history + [v];
    var u := Partial(piv, q, v);
    forall p | 0 <= p < n && piv[p].Some? ensures InSpan(more, k, piv[p].value) {
      SpanMore(history, v, k, piv[p].value);
    }
    SpanGenerator(more, k, v);
    PartialSpan(piv, q, v, more);
    SpanScale(more, k, F.Inv(u[q]), u);
    assert Echelon(next, k);
    forall w | w in history ensures |w| == k && Residue(next, n, k, w, residuals) {
      ResidueStable(piv, n, k, w, residuals, q, b);
    }
    NewPivotResidue(piv, n, k, v, q, b, residuals);
    forall c | c in residuals ensures InSpan(more, k, Carried(n, c)) { SpanMore(history, v, k, Carried(n, c)); }
  }

  lemma ResidueStable(piv: Pivots, n: nat, k: nat, w: Vec, residuals: seq<Vec>, q: nat, b: Vec)
    requires n <= k && |piv| == n && Echelon(piv, k) && |w| == k && Residue(piv, n, k, w, residuals)
    requires q < n && piv[q].None? && IsPivot(b, q, k)
    ensures Echelon(piv[q := Some(b)], k) && Residue(piv[q := Some(b)], n, k, w, residuals)
  {
    hide InSpan;
    assert Reduce(piv, 0, w)[q] == Reduce(piv, 0, w)[..n][q];
    ReduceStable(piv, 0, w, q, b);
  }

  lemma {:induction false} PartialPrefix(piv: Pivots, next: Pivots, q: nat, p: nat, v: Vec)
    requires Echelon(piv, |v|) && Echelon(next, |v|) && |piv| == |next| && p <= q < |piv|
    requires forall i :: 0 <= i < q ==> next[i] == piv[i]
    ensures Partial(next, p, v) == Partial(piv, p, v)
  {
    hide Eliminate;
    if p > 0 { PartialPrefix(piv, next, q, p - 1, v); }
  }

  lemma NewPivotResidue(piv: Pivots, n: nat, k: nat, v: Vec, q: nat, b: Vec, residuals: seq<Vec>)
    requires n <= k && |piv| == n && Echelon(piv, k) && |v| == k && q < n && piv[q].None?
    requires var u := Partial(piv, q, v); u[q] != 0 && b == VScale(F.Inv(u[q]), u)
    requires IsPivot(b, q, k)
    ensures Echelon(piv[q := Some(b)], k) && Residue(piv[q := Some(b)], n, k, v, residuals)
  {
    hide InSpan, VScale, Partial, F.Inv, Reduce;
    var next := piv[q := Some(b)];
    assert Echelon(next, k);
    var u := Partial(piv, q, v);
    PartialPrefix(piv, next, q, q, v);
    PartialReduce(next, q, v);
    Unscale(u, u[q]);
    ReducePivot(next, q, u, q);
    SpanZero(residuals, k - n);
    assert Zero(k)[n..] == Zero(k - n) && Zero(k)[..n] == Zero(n);
  }

  lemma Unscale(u: Vec, c: Elem)
    requires c != 0
    ensures u == VScale(c, VScale(F.Inv(c), u))
  {
    hide Mul, F.Inv;
    F.MulInv(c);
    forall i | 0 <= i < |u| ensures u[i] == Mul(c, Mul(F.Inv(c), u[i])) {
      MulAssoc(c, F.Inv(c), u[i]);
      MulOne(u[i]);
    }
  }

  // ----------------------------------------------------------------- what it guarantees

  /** The vectors that reduce into the span of the residuals form a subspace. */
  ghost function Absorbed(piv: Pivots, n: nat, k: nat, residuals: seq<Vec>): iset<Vec>
    requires n <= k && |piv| == n && Echelon(piv, k)
  {
    iset v: Vec | |v| == k && Residue(piv, n, k, v, residuals)
  }

  lemma AbsorbedIsSubspace(piv: Pivots, n: nat, k: nat, residuals: seq<Vec>)
    requires n <= k && |piv| == n && Echelon(piv, k)
    ensures IsSubspace(Absorbed(piv, n, k, residuals), k)
  {
    hide InSpan, Reduce, VAdd, VScale, Zero;
    var W := Absorbed(piv, n, k, residuals);
    ReduceZero(piv, 0, k);
    SpanZero(residuals, k - n);
    ZeroParts(n, k);
    forall v, w | v in W && w in W ensures VAdd(v, w) in W {
      ReduceAdd(piv, 0, v, w);
      var x, y := Reduce(piv, 0, v), Reduce(piv, 0, w);
      AddParts(x, y, n);
      SpanAdd(residuals, k - n, x[n..], y[n..]);
    }
    forall c: Elem, v | v in W ensures VScale(c, v) in W {
      ReduceScale(piv, 0, c, v);
      var x := Reduce(piv, 0, v);
      ScaleParts(c, x, n);
      SpanScale(residuals, k - n, c, x[n..]);
    }
  }

  lemma ZeroParts(n: nat, k: nat)
    requires n <= k
    ensures Zero(k)[..n] == Zero(n) && Zero(k)[n..] == Zero(k - n)
  {
  }

  lemma AddParts(x: Vec, y: Vec, n: nat)
    requires n <= |x| == |y| && x[..n] == Zero(n) && y[..n] == Zero(n)
    ensures VAdd(x, y)[n..] == VAdd(x[n..], y[n..]) && VAdd(x, y)[..n] == Zero(n)
  {
    hide Add;
    AddZero(0);
    forall i | 0 <= i < n ensures VAdd(x, y)[i] == 0 {
      assert x[i] == x[..n][i] && y[i] == y[..n][i];
    }
  }

  lemma ScaleParts(c: Elem, x: Vec, n: nat)
    requires n <= |x| && x[..n] == Zero(n)
    ensures VScale(c, x)[n..] == VScale(c, x[n..]) && VScale(c, x)[..n] == Zero(n)
  {
    hide Mul;
    MulZero(c);
    forall i | 0 <= i < n ensures VScale(c, x)[i] == 0 { assert x[i] == x[..n][i]; }
  }

  lemma SpanIsAbsorbed(piv: Pivots, n: nat, k: nat, history: seq<Vec>, residuals: seq<Vec>, v: Vec)
    requires Inv(piv, n, k, history, residuals) && InSpan(history, k, v)
    ensures |v| == k && Residue(piv, n, k, v, residuals)
  {
    hide InSpan, Residue;
    AbsorbedIsSubspace(piv, n, k, residuals);
    SpanInSubspace(Absorbed(piv, n, k, residuals), history, k, v);
  }

  /** Streaming Schur elimination: the residuals span exactly the carries c for which
      (0, c) lies in the span of everything inserted. */
  lemma SchurImage(piv: Pivots, n: nat, k: nat, history: seq<Vec>, residuals: seq<Vec>, c: Vec)
    requires Inv(piv, n, k, history, residuals) && |c| == k - n
    ensures InSpan(residuals, k - n, c) <==> InSpan(history, k, Carried(n, c))
  {
    hide InSpan, Reduce;
    if InSpan(history, k, Carried(n, c)) {
      SpanIsAbsorbed(piv, n, k, history, residuals, Carried(n, c));
      ReduceCarried(piv, 0, n, c);
    }
    if InSpan(residuals, k - n, c) {
      CarriedIsSubspace(n, k, history);
      SpanInSubspace(CarriedInSpan(n, k, history), residuals, k - n, c);
    }
  }

  ghost function CarriedInSpan(n: nat, k: nat, history: seq<Vec>): iset<Vec>
    requires n <= k
  {
    iset c: Vec | |c| == k - n && InSpan(history, k, Carried(n, c))
  }

  lemma CarriedIsSubspace(n: nat, k: nat, history: seq<Vec>)
    requires n <= k
    ensures IsSubspace(CarriedInSpan(n, k, history), k - n)
  {
    hide InSpan, VAdd, VScale, Zero;
    var W := CarriedInSpan(n, k, history);
    SpanZero(history, k);
    ZeroSplit(n, k);
    forall v, w | v in W && w in W ensures VAdd(v, w) in W {
      SpanAdd(history, k, Carried(n, v), Carried(n, w));
      CarriedAdd(n, v, w);
    }
    forall c: Elem, v | v in W ensures VScale(c, v) in W {
      SpanScale(history, k, c, Carried(n, v));
      CarriedScale(n, c, v);
    }
  }

  lemma ZeroSplit(n: nat, k: nat)
    requires n <= k
    ensures Carried(n, Zero(k - n)) == Zero(k)
  {
  }

  lemma CarriedAdd(n: nat, v: Vec, w: Vec)
    requires |v| == |w|
    ensures VAdd(Carried(n, v), Carried(n, w)) == Carried(n, VAdd(v, w))
  {
    hide Add;
    AddZero(0);
  }

  lemma CarriedScale(n: nat, c: Elem, v: Vec)
    ensures VScale(c, Carried(n, v)) == Carried(n, VScale(c, v))
  {
    hide Mul;
    MulZero(c);
  }

  lemma {:induction false} ReduceCarried(piv: Pivots, p: nat, n: nat, c: Vec)
    requires |piv| == n && Echelon(piv, n + |c|) && p <= n
    ensures Reduce(piv, p, Carried(n, c)) == Carried(n, c)
    ensures Carried(n, c)[n..] == c
    decreases n - p
  {
    hide Eliminate;
    if p < n {
      if piv[p].Some? { EliminateZero(Carried(n, c), piv[p].value); }
      ReduceCarried(piv, p + 1, n, c);
    }
  }

  // --------------------------------------------------------------- membership and rank

  /** With nothing carried, reduction decides membership in the span. */
  lemma Membership(piv: Pivots, n: nat, history: seq<Vec>, residuals: seq<Vec>, v: Vec)
    requires Inv(piv, n, n, history, residuals) && |v| == n
    ensures InSpan(history, n, v) <==> Reduce(piv, 0, v) == Zero(n)
  {
    hide InSpan, Zero;
    var r := Reduce(piv, 0, v);
    assert r[..n] == r;
    if InSpan(history, n, v) { SpanIsAbsorbed(piv, n, n, history, residuals, v); }
    if r == Zero(n) {
      SpanZero(history, n);
      ReduceSpan(piv, 0, v, history);
    }
  }

  /** Position p is the first nonzero position of v. */
  ghost predicate Leads(v: Vec, p: nat)
  {
    p < |v| && v[p] != 0 && forall i :: 0 <= i < p ==> v[i] == 0
  }

  ghost predicate HasLeader(history: seq<Vec>, k: nat, p: nat)
  {
    exists v: Vec :: InSpan(history, k, v) && Leads(v, p)
  }

  lemma {:induction false} LeadersSurvive(piv: Pivots, p: nat, v: Vec, q: nat)
    requires Echelon(piv, |v|) && p <= q < |piv| && piv[q].None? && Leads(v, q)
    ensures Reduce(piv, p, v)[q] != 0
    decreases |piv| - p
  {
    hide Eliminate;
    if p < q {
      if piv[p].Some? { EliminateZero(v, piv[p].value); }
      LeadersSurvive(piv, p + 1, v, q);
    } else {
      ReduceEntry(piv, q + 1, v, q);
    }
  }

  lemma ResidueEntry(piv: Pivots, n: nat, k: nat, v: Vec, residuals: seq<Vec>, p: nat)
    requires n <= k && |piv| == n && Echelon(piv, k) && |v| == k && Residue(piv, n, k, v, residuals) && p < n
    ensures Reduce(piv, 0, v)[p] == 0
  {
    assert Reduce(piv, 0, v)[p] == Reduce(piv, 0, v)[..n][p];
  }

  /** A position has a pivot exactly when some vector of the span leads there. */
  lemma PivotsAreLeaders(piv: Pivots, n: nat, k: nat, history: seq<Vec>, residuals: seq<Vec>, p: nat)
    requires Inv(piv, n, k, history, residuals) && p < n
    ensures piv[p].Some? <==> HasLeader(history, k, p)
  {
    hide InSpan, Reduce, Residue;
    if piv[p].Some? {
      assert Leads(piv[p].value, p);
    }
    if HasLeader(history, k, p) && piv[p].None? {
      var v :| InSpan(history, k, v) && Leads(v, p);
      SpanIsAbsorbed(piv, n, k, history, residuals, v);
      LeadersSurvive(piv, 0, v, p);
      ResidueEntry(piv, n, k, v, residuals, p);
    }
  }
}

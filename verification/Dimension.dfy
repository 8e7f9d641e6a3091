/** Rank as dimension.

  The number of pivots found by streaming elimination is the number of inserted
  vectors outside the span of their predecessors, and it depends on nothing but the
  span: every independent list with the same span has exactly that length. */
module Dimension {
  import opened Options
  import opened M31
  import F = M31Field
  import opened Vectors
  import opened Elimination
  import opened Schur

  /** How many vectors of the list lie outside the span of those before them. */
  ghost function FreshCount(history: seq<Vec>, k: nat): (r: nat)
    ensures r <= |history|
  {
    if history == [] then 0
    else
      var before := history[..|history| - 1];
      FreshCount(before, k) + if InSpan(before, k, history[|history| - 1]) then 0 else 1
  }

  ghost predicate Independent(vs: seq<Vec>, k: nat)
  {
    forall i :: 0 <= i < |vs| ==> !InSpan(vs[..i], k, vs[i])
  }

  ghost predicate SameSpan(a: seq<Vec>, b: seq<Vec>, k: nat)
  {
    forall v: Vec :: InSpan(a, k, v) <==> InSpan(b, k, v)
  }

  /** The positions at which some vector of the span leads. */
  ghost function Leaders(history: seq<Vec>, k: nat, n: nat): set<nat>
  {
    set p: nat | p < n && HasLeader(history, k, p)
  }

  ghost function PivotSet(piv: Pivots): set<nat>
  {
    set p: nat | p < |piv| && piv[p].Some?
  }

  lemma FreshCountSnoc(history: seq<Vec>, v: Vec, k: nat)
    ensures FreshCount(history + [v], k) == FreshCount(history, k) + if InSpan(history, k, v) then 0 else 1
  {
    hide InSpan;
    assert (history + [v])[..|history|] == history;
  }

  lemma PivotSetAdd(piv: Pivots, q: nat, b: Vec)
    requires q < |piv| && piv[q].None?
    ensures |PivotSet(piv[q := Some(b)])| == |PivotSet(piv)| + 1
  {
    assert PivotSet(piv[q := Some(b)]) == PivotSet(piv) + {q};
  }

  lemma PivotSetEmpty(n: nat)
    ensures |PivotSet(seq(n, _ => None))| == 0
  {
    assert PivotSet(seq(n, _ => None)) == {};
  }

  lemma PivotSetIsLeaders(piv: Pivots, n: nat, k: nat, history: seq<Vec>, residuals: seq<Vec>)
    requires Inv(piv, n, k, history, residuals)
    ensures PivotSet(piv) == Leaders(history, k, n)
  {
    hide Inv, HasLeader;
    PivotsLength(piv, n, k, history, residuals);
    forall p: nat | p < n ensures p in PivotSet(piv) <==> p in Leaders(history, k, n) {
      PivotsAreLeaders(piv, n, k, history, residuals, p);
    }
  }

  lemma PivotsLength(piv: Pivots, n: nat, k: nat, history: seq<Vec>, residuals: seq<Vec>)
    requires Inv(piv, n, k, history, residuals)
    ensures n <= k && |piv| == n && Echelon(piv, k)
  {
  }

  // ------------------------------------------------------------- one streaming step

  /** Everything before position p has been cleared from the vector. */
  ghost predicate Cleared(u: Vec, p: nat)
  {
    p <= |u| && forall i :: 0 <= i < p ==> u[i] == 0
  }

  lemma ClearNext(piv: Pivots, p: nat, v: Vec)
    requires Echelon(piv, |v|) && p < |piv| && Cleared(Partial(piv, p, v), p)
    requires piv[p].Some? || Partial(piv, p, v)[p] == 0
    ensures Cleared(Partial(piv, p + 1, v), p + 1)
  {
    hide Step, Echelon;
    var u := Partial(piv, p, v);
    StepDefined(piv, p, v);
    forall i | 0 <= i < p + 1 ensures Step(piv, p, u)[i] == 0 {
      StepEntry(piv, p, u, i);
      StepFree(piv, p, u);
    }
  }

  lemma StepFree(piv: Pivots, p: nat, u: Vec)
    requires p < |piv| && p < |u| && (piv[p].Some? ==> |piv[p].value| == |u|)
    ensures piv[p].None? || u[p] == 0 ==> Step(piv, p, u) == u
  {
    if piv[p].Some? { EliminateZero(u, piv[p].value); }
  }

  lemma NormalisedPivot(u: Vec, q: nat)
    requires q < |u| && Cleared(u, q) && u[q] != 0
    ensures IsPivot(VScale(F.Inv(u[q]), u), q, |u|)
  {
    hide Mul, F.Inv;
    F.MulInv(u[q]);
    MulComm(u[q], F.Inv(u[q]));
    MulZero(F.Inv(u[q]));
  }

  /** A vector that meets a free position is outside the span. */
  lemma PivotIsFresh(piv: Pivots, n: nat, history: seq<Vec>, residuals: seq<Vec>, v: Vec, q: nat)
    requires Inv(piv, n, n, history, residuals) && |v| == n && q < n && piv[q].None?
    requires Partial(piv, q, v)[q] != 0
    ensures !InSpan(history, n, v)
  {
    hide InSpan, Reduce, Partial, Echelon;
    PivotsLength(piv, n, n, history, residuals);
    Membership(piv, n, history, residuals, v);
    PartialReduce(piv, q, v);
    var u := Partial(piv, q, v);
    StepDefined(piv, q, u);
    StepFree(piv, q, u);
    ReduceUnfold(piv, q, u);
    ReduceEntry(piv, q + 1, u, q);
  }

  lemma ReduceUnfold(piv: Pivots, p: nat, v: Vec)
    requires Echelon(piv, |v|) && p < |piv|
    ensures Reduce(piv, p, v) == Reduce(piv, p + 1, Step(piv, p, v))
  {
    hide Step;
  }

  lemma ClearedReduces(piv: Pivots, v: Vec)
    requires Echelon(piv, |v|) && Cleared(Partial(piv, |piv|, v), |piv|)
    ensures Reduce(piv, 0, v) == Partial(piv, |piv|, v)
    ensures Reduce(piv, 0, v)[..|piv|] == Zero(|piv|)
  {
    hide Partial;
    PartialReduce(piv, |piv|, v);
  }

  /** An absorbed vector was already in the span. */
  lemma AbsorbedIsStale(piv: Pivots, n: nat, history: seq<Vec>, residuals: seq<Vec>, v: Vec)
    requires Inv(piv, n, n, history, residuals) && |v| == n
    requires Cleared(Partial(piv, n, v), n)
    ensures InSpan(history, n, v)
  {
    hide InSpan, Reduce, Partial;
    ClearedReduces(piv, v);
    assert Reduce(piv, 0, v)[..n] == Reduce(piv, 0, v);
    Membership(piv, n, history, residuals, v);
  }

  // -------------------------------------------------------------- rank of any list

  /** The position at which the scan of `insert` stops, n when it runs through. */
  ghost function Stop(piv: Pivots, v: Vec, p: nat): (q: nat)
    requires Echelon(piv, |v|) && p <= |piv| && Cleared(Partial(piv, p, v), p)
    ensures p <= q <= |piv|
    ensures Cleared(Partial(piv, q, v), q)
    ensures q < |piv| ==> piv[q].None? && Partial(piv, q, v)[q] != 0
    decreases |piv| - p
  {
    if p == |piv| || (piv[p].None? && Partial(piv, p, v)[p] != 0) then p
    else
      ClearNext(piv, p, v);
      Stop(piv, v, p + 1)
  }

  /** Every list of vectors has an echelon state, with one pivot per fresh vector. */
  lemma {:induction false} EchelonExists(history: seq<Vec>, n: nat) returns (piv: Pivots, residuals: seq<Vec>)
    requires forall v :: v in history ==> |v| == n
    ensures Inv(piv, n, n, history, residuals)
    ensures |PivotSet(piv)| == FreshCount(history, n)
  {
    hide InSpan, Inv, Partial, PivotSet, Echelon, VScale, F.Inv, IsPivot, Reduce;
    if history == [] {
      piv, residuals := seq(n, _ => None), [];
      InvInit(n, n);
      PivotSetEmpty(n);
    } else {
      var before, v := history[..|history| - 1], history[|history| - 1];
      piv, residuals := EchelonExists(before, n);
      PivotsLength(piv, n, n, before, residuals);
      assert history == before + [v];
      FreshCountSnoc(before, v, n);
      PartialStart(piv, v);
      var q := Stop(piv, v, 0);
      if q < n {
        var u := Partial(piv, q, v);
        PivotIsFresh(piv, n, before, residuals, v, q);
        NormalisedPivot(u, q);
        InvPivot(piv, n, n, before, residuals, v, q, VScale(F.Inv(u[q]), u));
        PivotSetAdd(piv, q, VScale(F.Inv(u[q]), u));
        piv := piv[q := Some(VScale(F.Inv(u[q]), u))];
      } else {
        AbsorbedIsStale(piv, n, before, residuals, v);
        ClearedReduces(piv, v);
        InvResidual(piv, n, n, before, residuals, v);
        residuals := residuals + [Reduce(piv, 0, v)[n..]];
      }
    }
  }

  lemma PartialStart(piv: Pivots, v: Vec)
    requires Echelon(piv, |v|)
    ensures Partial(piv, 0, v) == v && Cleared(v, 0)
  {
  }

  lemma FreshCountIsLeaders(history: seq<Vec>, n: nat)
    requires forall v :: v in history ==> |v| == n
    ensures FreshCount(history, n) == |Leaders(history, n, n)|
  {
    hide Inv, PivotSet, Leaders, FreshCount;
    var piv, residuals := EchelonExists(history, n);
    PivotSetIsLeaders(piv, n, n, history, residuals);
  }

  lemma {:induction false} IndependentCount(vs: seq<Vec>, k: nat)
    requires Independent(vs, k)
    ensures FreshCount(vs, k) == |vs|
  {
    hide InSpan;
    if vs != [] {
      var before := vs[..|vs| - 1];
      forall i | 0 <= i < |before| ensures !InSpan(before[..i], k, before[i]) {
        assert before[..i] == vs[..i];
      }
      IndependentCount(before, k);
    }
  }

  lemma SameLeaders(a: seq<Vec>, b: seq<Vec>, k: nat, n: nat)
    requires SameSpan(a, b, k)
    ensures Leaders(a, k, n) == Leaders(b, k, n)
  {
    hide InSpan, Leads;
    forall p: nat ensures HasLeader(a, k, p) <==> HasLeader(b, k, p) {
    }
  }

  /** Dimension: every independent list with the same span has length `FreshCount`. */
  lemma DimensionUnique(history: seq<Vec>, basis: seq<Vec>, n: nat)
    requires forall v :: v in history ==> |v| == n
    requires forall v :: v in basis ==> |v| == n
    requires Independent(basis, n) && SameSpan(basis, history, n)
    ensures |basis| == FreshCount(history, n)
  {
    hide InSpan, FreshCount, Leaders, Independent, SameSpan;
    FreshCountIsLeaders(history, n);
    FreshCountIsLeaders(basis, n);
    IndependentCount(basis, n);
    SameLeaders(basis, history, n, n);
  }

  /** The vectors of the list that lie outside the span of their predecessors. */
  ghost function FreshOnes(history: seq<Vec>, k: nat): (r: seq<Vec>)
    ensures |r| == FreshCount(history, k)
    ensures forall v :: v in r ==> v in history
  {
    if history == [] then []
    else
      var before, v := history[..|history| - 1], history[|history| - 1];
      if InSpan(before, k, v) then FreshOnes(before, k) else FreshOnes(before, k) + [v]
  }

  lemma SpanSnoc(a: seq<Vec>, b: seq<Vec>, k: nat, v: Vec)
    requires SameSpan(a, b, k)
    ensures SameSpan(a + [v], b + [v], k)
  {
    hide InSpan;
    SpanSnocHalf(a, b, k, v);
    SpanSnocHalf(b, a, k, v);
  }

  lemma SpanSnocHalf(a: seq<Vec>, b: seq<Vec>, k: nat, v: Vec)
    requires SameSpan(a, b, k)
    ensures forall w: Vec :: InSpan(a + [v], k, w) ==> InSpan(b + [v], k, w)
  {
    hide InSpan;
    forall w: Vec | InSpan(a + [v], k, w) ensures InSpan(b + [v], k, w) {
      forall g | g in a + [v] ensures InSpan(b + [v], k, g) {
        if g in a {
          SpanGenerator(a, k, g);
          SpanMore(b, v, k, g);
        } else {
          SpanGenerator(b + [v], k, v);
        }
      }
      SpanMonotone(a + [v], b + [v], k, w);
    }
  }

  lemma SpanStale(a: seq<Vec>, k: nat, v: Vec)
    requires InSpan(a, k, v)
    ensures SameSpan(a, a + [v], k)
  {
    hide InSpan;
    forall w: Vec ensures InSpan(a, k, w) <==> InSpan(a + [v], k, w) {
      if InSpan(a, k, w) { SpanMore(a, v, k, w); }
      if InSpan(a + [v], k, w) {
        forall g | g in a + [v] ensures InSpan(a, k, g) {
          if g in a { SpanGenerator(a, k, g); }
        }
        SpanMonotone(a + [v], a, k, w);
      }
    }
  }

  /** The fresh vectors are a basis of the span, so a basis always exists. */
  lemma {:induction false} FreshOnesBasis(history: seq<Vec>, k: nat)
    ensures Independent(FreshOnes(history, k), k)
    ensures SameSpan(FreshOnes(history, k), history, k)
  {
    hide InSpan;
    if history != [] {
      var before, v := history[..|history| - 1], history[|history| - 1];
      FreshOnesBasis(before, k);
      assert history == before + [v];
      var basis := FreshOnes(before, k);
      if InSpan(before, k, v) {
        SpanStale(before, k, v);
      } else {
        SpanSnoc(basis, before, k, v);
        IndependentSnoc(basis, k, v);
      }
    }
  }

  lemma IndependentSnoc(vs: seq<Vec>, k: nat, v: Vec)
    requires Independent(vs, k) && !InSpan(vs, k, v)
    ensures Independent(vs + [v], k)
  {
    hide InSpan;
    forall i | 0 <= i < |vs + [v]| ensures !InSpan((vs + [v])[..i], k, (vs + [v])[i]) {
      assert (vs + [v])[..i] == vs[..i];
      assert vs[..|vs|] == vs;
    }
  }
}

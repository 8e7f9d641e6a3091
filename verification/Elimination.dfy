/** Reduction against echelon pivots, as a linear map.

  The two streaming classes keep at most one pivot per leading position, each
  normalised to 1 there and zero before it.  `Reduce` is the elimination their
  loops perform; because it is linear, the vectors it sends to a given subspace
  form a subspace, which is what the correctness of streaming rests on. */
module Elimination {
  import opened Options
  import opened M31
  import opened Vectors

  type Pivots = seq<Option<Vec>>

  /** Pivots for the first |piv| positions of vectors of length k. */
  ghost predicate Echelon(piv: Pivots, k: nat)
  {
    |piv| <= k && forall p :: 0 <= p < |piv| && piv[p].Some? ==> IsPivot(piv[p].value, p, k)
  }

  ghost predicate IsPivot(b: Vec, p: nat, k: nat)
  {
    p < k && |b| == k && b[p] == 1 && forall i :: 0 <= i < p ==> b[i] == 0
  }

  function Step(piv: Pivots, p: nat, v: Vec): (r: Vec)
    requires p < |piv| && p < |v| && (piv[p].Some? ==> |piv[p].value| == |v|)
    ensures |r| == |v|
  {
    if piv[p].Some? then Eliminate(v, v[p], piv[p].value) else v
  }

  ghost function Reduce(piv: Pivots, p: nat, v: Vec): (r: Vec)
    requires Echelon(piv, |v|) && p <= |piv|
    ensures |r| == |v|
    decreases |piv| - p
  {
    if p == |piv| then v else Reduce(piv, p + 1, Step(piv, p, v))
  }

  // ------------------------------------------------------------------------ linearity

  lemma StepAdd(piv: Pivots, p: nat, v: Vec, w: Vec)
    requires |v| == |w| && Echelon(piv, |v|) && p < |piv|
    ensures Step(piv, p, VAdd(v, w)) == VAdd(Step(piv, p, v), Step(piv, p, w))
  {
    hide Add, Mul, Sub;
    if piv[p].Some? {
      var b := piv[p].value;
      forall i | 0 <= i < |v|
        ensures Sub(Add(v[i], w[i]), Mul(Add(v[p], w[p]), b[i]))
             == Add(Sub(v[i], Mul(v[p], b[i])), Sub(w[i], Mul(w[p], b[i])))
      {
        MulComm(Add(v[p], w[p]), b[i]);
        MulAdd(b[i], v[p], w[p]);
        MulComm(b[i], v[p]);
        MulComm(b[i], w[p]);
        SubAddSwap(v[i], w[i], Mul(v[p], b[i]), Mul(w[p], b[i]));
      }
    }
  }

  lemma SubAddSwap(a: Elem, b: Elem, c: Elem, d: Elem)
    ensures Sub(Add(a, b), Add(c, d)) == Add(Sub(a, c), Sub(b, d))
  {
    ModSub(a + b, c + d);
    ModAdd(a - c, b - d);
    assert (a + b) - (c + d) == (a - c) + (b - d);
  }

  lemma StepScale(piv: Pivots, p: nat, c: Elem, v: Vec)
    requires Echelon(piv, |v|) && p < |piv|
    ensures Step(piv, p, VScale(c, v)) == VScale(c, Step(piv, p, v))
  {
    hide Add, Mul, Sub;
    if piv[p].Some? {
      var b := piv[p].value;
      forall i | 0 <= i < |v|
        ensures Sub(Mul(c, v[i]), Mul(Mul(c, v[p]), b[i])) == Mul(c, Sub(v[i], Mul(v[p], b[i])))
      {
        MulAssoc(c, v[p], b[i]);
        MulSub(c, v[i], Mul(v[p], b[i]));
      }
    }
  }

  lemma {:induction false} ReduceAdd(piv: Pivots, p: nat, v: Vec, w: Vec)
    requires |v| == |w| && Echelon(piv, |v|) && p <= |piv|
    ensures Reduce(piv, p, VAdd(v, w)) == VAdd(Reduce(piv, p, v), Reduce(piv, p, w))
    decreases |piv| - p
  {
    hide VAdd, Step, Echelon;
    if p < |piv| {
      StepDefined(piv, p, v);
      StepAdd(piv, p, v, w);
      ReduceAdd(piv, p + 1, Step(piv, p, v), Step(piv, p, w));
    }
  }

  lemma StepDefined(piv: Pivots, p: nat, v: Vec)
    requires Echelon(piv, |v|) && p < |piv|
    ensures p < |v| && (piv[p].Some? ==> |piv[p].value| == |v|)
  {
  }

  lemma {:induction false} ReduceScale(piv: Pivots, p: nat, c: Elem, v: Vec)
    requires Echelon(piv, |v|) && p <= |piv|
    ensures Reduce(piv, p, VScale(c, v)) == VScale(c, Reduce(piv, p, v))
    decreases |piv| - p
  {
    hide VScale, Step, Echelon;
    if p < |piv| {
      StepDefined(piv, p, v);
      StepScale(piv, p, c, v);
      ReduceScale(piv, p + 1, c, Step(piv, p, v));
    }
  }

  lemma {:induction false} ReduceZero(piv: Pivots, p: nat, k: nat)
    requires Echelon(piv, k) && p <= |piv|
    ensures Reduce(piv, p, Zero(k)) == Zero(k)
    decreases |piv| - p
  {
    hide Eliminate;
    if p < |piv| {
      if piv[p].Some? { EliminateZero(Zero(k), piv[p].value); }
      ReduceZero(piv, p + 1, k);
    }
  }

  // ---------------------------------------------------------------- what reduction does

  lemma StepEntry(piv: Pivots, p: nat, v: Vec, i: nat)
    requires Echelon(piv, |v|) && p < |piv| && i <= p
    ensures i < p ==> Step(piv, p, v)[i] == v[i]
    ensures piv[p].Some? && i == p ==> Step(piv, p, v)[i] == 0
  {
    hide Add, Mul, Sub;
    if piv[p].Some? {
      if i < p {
        MulZero(v[p]);
        SubZero(v[i]);
      } else {
        MulOne(v[p]);
        SubSelf(v[p]);
      }
    }
  }

  /** Entries before the current position are final. */
  lemma {:induction false} ReduceEntry(piv: Pivots, p: nat, v: Vec, i: nat)
    requires Echelon(piv, |v|) && i < p <= |piv|
    ensures Reduce(piv, p, v)[i] == v[i]
    decreases |piv| - p
  {
    hide Step, Echelon;
    if p < |piv| {
      StepDefined(piv, p, v);
      StepEntry(piv, p, v, i);
      ReduceEntry(piv, p + 1, Step(piv, p, v), i);
    }
  }

  lemma {:induction false} ReduceSpan(piv: Pivots, p: nat, v: Vec, gens: seq<Vec>)
    requires Echelon(piv, |v|) && p <= |piv|
    requires forall q :: 0 <= q < |piv| && piv[q].Some? ==> InSpan(gens, |v|, piv[q].value)
    ensures InSpan(gens, |v|, v) <==> InSpan(gens, |v|, Reduce(piv, p, v))
    decreases |piv| - p
  {
    hide InSpan, Eliminate;
    if p < |piv| {
      if piv[p].Some? { SpanEliminate(gens, |v|, v, v[p], piv[p].value); }
      ReduceSpan(piv, p + 1, Step(piv, p, v), gens);
    }
  }

  /** Adding a pivot at a free position does not disturb what already reduces to zero
      there. */
  lemma {:induction false} ReduceStable(piv: Pivots, p: nat, v: Vec, q: nat, b: Vec)
    requires Echelon(piv, |v|) && p <= |piv| && q < |piv| && piv[q].None? && IsPivot(b, q, |v|)
    requires Reduce(piv, p, v)[q] == 0
    ensures Echelon(piv[q := Some(b)], |v|)
    ensures Reduce(piv[q := Some(b)], p, v) == Reduce(piv, p, v)
    decreases |piv| - p
  {
    hide Eliminate;
    var more := piv[q := Some(b)];
    assert Echelon(more, |v|);
    if p < |piv| {
      if p == q {
        ReduceEntry(piv, q + 1, v, q);
        EliminateZero(v, b);
      }
      ReduceStable(piv, p + 1, Step(piv, p, v), q, b);
    }
  }

  /** The vector that becomes a pivot reduces to zero afterwards. */
  lemma {:induction false} ReducePivot(piv: Pivots, p: nat, v: Vec, q: nat)
    requires Echelon(piv, |v|) && p <= q < |piv| && piv[q].Some?
    requires v == VScale(v[q], piv[q].value)
    ensures Reduce(piv, p, v) == Zero(|v|)
    decreases |piv| - p
  {
    if p < q {
      PivotPrefix(piv, v, q, p);
      ReducePivot(piv, p + 1, v, q);
    } else {
      EliminateSelf(v, v[q], piv[q].value);
      ReduceZero(piv, p + 1, |v|);
    }
  }

  lemma PivotPrefix(piv: Pivots, v: Vec, q: nat, p: nat)
    requires Echelon(piv, |v|) && p < q < |piv| && piv[q].Some?
    requires v == VScale(v[q], piv[q].value)
    ensures Step(piv, p, v) == v
  {
    hide Mul, Eliminate;
    MulZero(v[q]);
    assert v[p] == Mul(v[q], piv[q].value[p]);
    if piv[p].Some? { EliminateZero(v, piv[p].value); }
  }

  lemma EliminateSelf(v: Vec, c: Elem, b: Vec)
    requires |v| == |b| && v == VScale(c, b)
    ensures Eliminate(v, c, b) == Zero(|v|)
  {
    hide Mul, Sub;
    forall i | 0 <= i < |v| ensures Sub(v[i], Mul(c, b[i])) == 0 { SubSelf(v[i]); }
  }
}

/** Vectors over M31 and the span of a list of vectors. */
module Vectors {
  import opened M31

  type Vec = seq<Elem>

  function Zero(k: nat): (v: Vec)
    ensures |v| == k
  {
    seq(k, _ => 0)
  }

  function VAdd(v: Vec, w: Vec): (r: Vec)
    requires |v| == |w|
    ensures |r| == |v|
  {
    seq(|v|, i requires 0 <= i < |v| => Add(v[i], w[i]))
  }

  function VScale(c: Elem, v: Vec): (r: Vec)
    ensures |r| == |v|
  {
    seq(|v|, i requires 0 <= i < |v| => Mul(c, v[i]))
  }

  /** v - c * b, the elementary elimination step. */
  function Eliminate(v: Vec, c: Elem, b: Vec): (r: Vec)
    requires |v| == |b|
    ensures |r| == |v|
  {
    seq(|v|, i requires 0 <= i < |v| => Sub(v[i], Mul(c, b[i])))
  }

  lemma EliminateIs(v: Vec, c: Elem, b: Vec)
    requires |v| == |b|
    ensures Eliminate(v, c, b) == VAdd(v, VScale(Neg(c), b))
  {
    hide Add, Mul, Sub, Neg;
    forall i | 0 <= i < |v| ensures Sub(v[i], Mul(c, b[i])) == Add(v[i], Mul(Neg(c), b[i])) {
      SubIsAddNeg(v[i], Mul(c, b[i]));
      MulComm(c, b[i]);
      MulNeg(b[i], c);
      MulComm(Neg(c), b[i]);
    }
  }

  lemma EliminateZero(v: Vec, b: Vec)
    requires |v| == |b|
    ensures Eliminate(v, 0, b) == v
  {
    hide Add, Mul, Sub;
    forall i | 0 <= i < |v| ensures Sub(v[i], Mul(0, b[i])) == v[i] {
      MulZero(b[i]);
      SubZero(v[i]);
    }
  }

  lemma SubZero(a: Elem)
    ensures Sub(a, 0) == a
  {
  }

  lemma SubSelf(a: Elem)
    ensures Sub(a, a) == 0
  {
  }

  // ------------------------------------------------------------------------- subspaces

  ghost predicate IsSubspace(W: iset<Vec>, k: nat)
  {
    && (forall v :: v in W ==> |v| == k)
    && Zero(k) in W
    && (forall v, w :: v in W && w in W ==> |v| == |w| && VAdd(v, w) in W)
    && (forall c: Elem, v :: v in W ==> VScale(c, v) in W)
  }

  ghost predicate Contains(W: iset<Vec>, gens: seq<Vec>)
  {
    forall g :: g in gens ==> g in W
  }

  /** v lies in every subspace that contains the generators. */
  ghost predicate InSpan(gens: seq<Vec>, k: nat, v: Vec)
  {
    forall W: iset<Vec> :: IsSubspace(W, k) && Contains(W, gens) ==> v in W
  }

  lemma SpanGenerator(gens: seq<Vec>, k: nat, v: Vec)
    requires v in gens
    ensures InSpan(gens, k, v)
  {
  }

  lemma SpanZero(gens: seq<Vec>, k: nat)
    ensures InSpan(gens, k, Zero(k))
  {
    hide Contains;
  }

  lemma SpanAdd(gens: seq<Vec>, k: nat, v: Vec, w: Vec)
    requires InSpan(gens, k, v) && InSpan(gens, k, w) && |v| == |w|
    ensures InSpan(gens, k, VAdd(v, w))
  {
    hide VAdd;
  }

  lemma SpanScale(gens: seq<Vec>, k: nat, c: Elem, v: Vec)
    requires InSpan(gens, k, v)
    ensures InSpan(gens, k, VScale(c, v))
  {
    hide VScale;
  }

  lemma SpanEliminate(gens: seq<Vec>, k: nat, v: Vec, c: Elem, b: Vec)
    requires |v| == |b| && InSpan(gens, k, b)
    ensures InSpan(gens, k, v) <==> InSpan(gens, k, Eliminate(v, c, b))
  {
    hide InSpan, Eliminate, VAdd, VScale;
    EliminateIs(v, c, b);
    SpanScale(gens, k, Neg(c), b);
    SpanScale(gens, k, c, b);
    if InSpan(gens, k, v) { SpanAdd(gens, k, v, VScale(Neg(c), b)); }
    if InSpan(gens, k, Eliminate(v, c, b)) {
      SpanAdd(gens, k, Eliminate(v, c, b), VScale(c, b));
      Restore(v, c, b);
    }
  }

  lemma Restore(v: Vec, c: Elem, b: Vec)
    requires |v| == |b|
    ensures VAdd(Eliminate(v, c, b), VScale(c, b)) == v
  {
    hide Add, Mul, Sub;
    forall i | 0 <= i < |v| ensures Add(Sub(v[i], Mul(c, b[i])), Mul(c, b[i])) == v[i] {
      SubAdd(v[i], Mul(c, b[i]));
    }
  }

  lemma SubAdd(a: Elem, b: Elem)
    ensures Add(Sub(a, b), b) == a
  {
  }

  /** Spans are ordered by where the generators lie. */
  lemma SpanMonotone(gens: seq<Vec>, more: seq<Vec>, k: nat, v: Vec)
    requires forall g :: g in gens ==> InSpan(more, k, g)
    requires InSpan(gens, k, v)
    ensures InSpan(more, k, v)
  {
    forall W: iset<Vec> | IsSubspace(W, k) && Contains(W, more) ensures v in W {
      assert Contains(W, gens);
    }
  }

  /** The span is a subspace: the members of any subspace with the generators. */
  lemma SpanInSubspace(W: iset<Vec>, gens: seq<Vec>, k: nat, v: Vec)
    requires IsSubspace(W, k) && Contains(W, gens) && InSpan(gens, k, v)
    ensures v in W
  {
  }

  lemma SpanLength(gens: seq<Vec>, k: nat, v: Vec)
    requires (forall g :: g in gens ==> |g| == k) && InSpan(gens, k, v)
    ensures |v| == k
  {
    var W := iset w: Vec | |w| == k;
    assert IsSubspace(W, k);
  }
}

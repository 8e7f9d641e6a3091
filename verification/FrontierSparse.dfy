/** Sparse evaluation of the frontier recurrence: the support envelope, the
    restricted convolution, and the worklist closures of the two generators. */
module FrontierSparse {
  import opened Bits
  import opened FrontierCount

  // -------------------------------------------------------------- the support envelope

  function Max(a: nat, b: nat): nat { if a >= b then a else b }

  function Min(a: nat, b: nat): nat { if a <= b then a else b }

  /** `support_max`. */
  function SupportMax(d: nat, k: nat): nat
    decreases d, 1, 0
  {
    if d == 0 then 0 else Max(SupportMax(d - 1, k) + 1, SplitMax(d - 1, k, k))
  }

  /** Maximum over 1 <= a < l of the two halves' envelopes; 0 if there is none. */
  function SplitMax(d: nat, k: nat, l: nat): nat
    requires l <= k
    decreases d, 2, l
  {
    if l <= 1 then 0 else Max(SplitMax(d, k, l - 1), SupportMax(d, l - 1) + SupportMax(d, k - (l - 1)))
  }

  /** `cell_within_proved_support`. */
  predicate Within(d: nat, k: nat, f: nat) { k <= Pow2(d) && f <= SupportMax(d, k) }

  lemma {:induction false} SplitMaxAbove(d: nat, k: nat, l: nat, a: nat)
    requires 1 <= a < l <= k
    ensures SupportMax(d, a) + SupportMax(d, k - a) <= SplitMax(d, k, l)
    decreases l
  {
    hide SupportMax;
    if a < l - 1 { SplitMaxAbove(d, k, l - 1, a); }
  }

  /** Every nonzero coefficient lies inside the envelope. */
  lemma {:induction false} ZeroOutside(d: nat, k: nat, f: nat)
    requires !Within(d, k, f)
    ensures Coeff(d, k, f) == 0
    decreases d, 3, 0
  {
    hide Pow2;
    if d == 0 {
      PowZeroIs();
    } else {
      Pow2Succ(d - 1);
      if f > 0 { ZeroOutside(d - 1, k, f - 1); }
      SplitOutside(d - 1, k, f, k);
    }
  }

  lemma PowZeroIs()
    ensures Pow2(0) == 1
  {
  }

  lemma {:induction false} SplitOutside(d: nat, k: nat, f: nat, l: nat)
    requires !Within(d + 1, k, f) && l <= k
    ensures SplitSum(d, k, f, l) == 0
    decreases d, 5, l
  {
    hide Pow2, Coeff, SupportMax;
    if l > 1 {
      SplitOutside(d, k, f, l - 1);
      ConvOutside(d, k, l - 1, f, f + 1);
    }
  }

  lemma {:induction false} ConvOutside(d: nat, k: nat, a: nat, f: nat, t: nat)
    requires !Within(d + 1, k, f) && 1 <= a < k && t <= f + 1
    ensures Conv(d, a, k - a, f, t) == 0
    decreases d, 4, t
  {
    hide Pow2, Coeff, SplitMax;
    if t > 0 {
      ConvOutside(d, k, a, f, t - 1);
      var g := t - 1;
      SplitMaxAbove(d, k, k, a);
      Pow2Succ(d);
      if Within(d, a, g) { ZeroOutside(d, k - a, f - g); } else { ZeroOutside(d, a, g); }
    }
  }

  /** Hence a finite envelope for the conservation law of the weighted counts. */
  lemma EnvelopeTotal(d: nat, k: nat)
    requires k >= 1
    ensures WeightBelow(d, k, SupportMax(d, k) + 1) == Binomial(Pow2(d), k)
  {
    hide Pow2, Coeff, SupportMax, Binomial, WeightBelow;
    forall f: nat | f >= SupportMax(d, k) + 1 ensures Coeff(d, k, f) == 0 { ZeroOutside(d, k, f); }
    TotalIsBinomial(d, k, SupportMax(d, k) + 1);
  }

  // --------------------------------------------------------- the restricted convolution

  /** Products with left frontier in [lower, upper). */
  function ConvRange(d: nat, a: nat, b: nat, f: nat, lower: nat, upper: nat): nat
    requires upper <= f + 1
    decreases upper
  {
    if upper <= lower then 0
    else ConvRange(d, a, b, f, lower, upper - 1) + Coeff(d, a, upper - 1) * Coeff(d, b, f - (upper - 1))
  }

  function Lower(d: nat, b: nat, f: nat): nat
  {
    if f <= SupportMax(d, b) then 0 else f - SupportMax(d, b)
  }

  function Upper(d: nat, a: nat, f: nat): nat { Min(f, SupportMax(d, a)) }

  lemma {:induction false} RangeIsFull(d: nat, a: nat, b: nat, f: nat, t: nat)
    requires t <= f + 1
    ensures Conv(d, a, b, f, t) == ConvRange(d, a, b, f, Lower(d, b, f), Min(t, Upper(d, a, f) + 1))
    decreases t
  {
    hide Coeff, SupportMax, Pow2;
    if t > 0 {
      RangeIsFull(d, a, b, f, t - 1);
      var g := t - 1;
      if g < Lower(d, b, f) { ZeroOutside(d, b, f - g); }
      if g > Upper(d, a, f) { ZeroOutside(d, a, g); }
    }
  }

  /** The convolution over `supported_frontiers` equals the full one. */
  lemma SupportedConvolution(d: nat, a: nat, b: nat, f: nat)
    ensures Conv(d, a, b, f, f + 1) == ConvRange(d, a, b, f, Lower(d, b, f), Upper(d, a, f) + 1)
  {
    hide Coeff, SupportMax, Conv, ConvRange;
    RangeIsFull(d, a, b, f, f + 1);
  }
}

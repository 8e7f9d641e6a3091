/** When the support envelope is attained: exactly up to half of the leaves.

  Extended by 1 at zero, the envelope is concave in the number of selected leaves, so the
  best split is the balanced one; past half of the leaves it stays at 2^(d-1) while the
  frontier itself cannot exceed the number of leaves left out. */
module FrontierEnvelope {
  import opened Bits
  import opened FrontierCount
  import opened FrontierSparse

  /** The envelope, with an unselected subtree counting as one supplied node. */
  function Extended(d: nat, k: nat): int { if k == 0 then 1 else SupportMax(d, k) }

  ghost predicate Concave(d: nat)
  {
    forall k: nat :: k >= 1 ==> Extended(d, k + 1) + Extended(d, k - 1) <= 2 * Extended(d, k)
  }

  function Balanced(d: nat, k: nat): int { Extended(d, k / 2) + Extended(d, k - k / 2) }

  lemma ConcaveAt(d: nat, k: nat)
    requires Concave(d) && k >= 1
    ensures Extended(d, k + 1) + Extended(d, k - 1) <= 2 * Extended(d, k)
  {
    hide Extended;
  }

  /** Increments do not grow. */
  lemma {:induction false} Increments(d: nat, a: nat, b: nat)
    requires Concave(d) && a <= b
    ensures Extended(d, b + 1) - Extended(d, b) <= Extended(d, a + 1) - Extended(d, a)
    decreases b - a
  {
    hide Extended, Concave;
    if a < b {
      Increments(d, a, b - 1);
      ConcaveAt(d, b);
    }
  }

  /** Moving towards the middle never loses. */
  lemma {:induction false} BalancedBest(d: nat, a: nat, b: nat)
    requires Concave(d) && a <= b
    ensures Extended(d, a) + Extended(d, b) <= Balanced(d, a + b)
    decreases b - a
  {
    hide Extended, Concave;
    if b - a >= 2 {
      Increments(d, a, b - 1);
      BalancedBest(d, a + 1, b - 1);
    } else {
      assert (a + b) / 2 == a;
    }
  }

  lemma BalancedBestEither(d: nat, a: nat, b: nat)
    requires Concave(d)
    ensures Extended(d, a) + Extended(d, b) <= Balanced(d, a + b)
  {
    hide Extended, Concave, Balanced;
    if a <= b { BalancedBest(d, a, b); } else { BalancedBest(d, b, a); }
  }

  lemma {:induction false} SplitMaxBelow(d: nat, k: nat, l: nat)
    requires Concave(d) && 1 <= l <= k && Balanced(d, k) >= 0
    ensures SplitMax(d, k, l) <= Balanced(d, k)
    decreases l
  {
    hide SupportMax, Concave, Balanced;
    if l > 1 {
      SplitMaxBelow(d, k, l - 1);
      BalancedBestEither(d, l - 1, k - (l - 1));
    }
  }

  lemma BalancedIfConcave(d: nat, k: nat)
    requires Concave(d) && k >= 1
    ensures SupportMax(d + 1, k) == Balanced(d, k)
  {
    hide Concave;
    BalancedBestEither(d, 0, k);
    BalancedPositive(d, k);
    SplitMaxBelow(d, k, k);
    if k >= 2 { SplitMaxAbove(d, k, k, k / 2); }
  }

  lemma BalancedPositive(d: nat, k: nat)
    ensures Balanced(d, k) >= 0
  {
  }

  lemma {:induction false} ConcaveFrom(d: nat)
    requires d >= 1
    ensures Concave(d)
  {
    hide SupportMax, Balanced;
    if d == 1 {
      forall k: nat | k >= 1 ensures Extended(1, k + 1) + Extended(1, k - 1) <= 2 * Extended(1, k) {
        DepthOne(k);
        DepthOne(k + 1);
        if k >= 2 { DepthOne(k - 1); }
      }
    } else {
      ConcaveFrom(d - 1);
      forall k: nat | k >= 1 ensures Extended(d, k + 1) + Extended(d, k - 1) <= 2 * Extended(d, k) {
        BalancedIfConcave(d - 1, k);
        BalancedIfConcave(d - 1, k + 1);
        if k >= 2 { BalancedIfConcave(d - 1, k - 1); }
        BalancedConcave(d - 1, k);
      }
    }
  }

  lemma BalancedConcave(d: nat, k: nat)
    requires Concave(d) && k >= 1
    ensures k >= 2 ==> Balanced(d, k + 1) + Balanced(d, k - 1) <= 2 * Balanced(d, k)
    ensures k == 1 ==> Balanced(d, k + 1) + 1 <= 2 * Balanced(d, k)
  {
    hide SupportMax, Concave;
    var m := k / 2;
    if k == 1 {
      assert Balanced(d, 1) == Extended(d, 0) + Extended(d, 1) && Balanced(d, 2) == Extended(d, 1) + Extended(d, 1);
    } else if k % 2 == 0 {
      ConcaveAt(d, m);
      assert k == 2 * m && (k + 1) / 2 == m && (k - 1) / 2 == m - 1;
    } else {
      assert k == 2 * m + 1 && (k + 1) / 2 == m + 1 && (k - 1) / 2 == m;
    }
  }

  lemma {:induction false} DepthOne(k: nat)
    requires k >= 1
    ensures SupportMax(1, k) == 1
  {
    assert SupportMax(0, k) == 0;
    DepthOneSplits(k, k);
  }

  lemma {:induction false} DepthOneSplits(k: nat, l: nat)
    requires l <= k
    ensures SplitMax(0, k, l) == 0
  {
    if l > 1 {
      DepthOneSplits(k, l - 1);
      assert SupportMax(0, l - 1) == 0 && SupportMax(0, k - (l - 1)) == 0;
    }
  }

  /** One level up the envelope is the balanced split, except at depth 1 with several leaves: there it
      is 1, from a single child, while the balanced split gives 0. */
  lemma EnvelopeIsBalanced(d: nat, k: nat)
    requires k >= 1
    ensures SupportMax(d + 1, k) == Balanced(d, k) <==> d >= 1 || k == 1
  {
    hide SupportMax;
    if d >= 1 {
      ConcaveFrom(d);
      BalancedIfConcave(d, k);
    } else {
      DepthOne(k);
      DepthZero(k / 2);
      DepthZero(k - k / 2);
    }
  }

  lemma DepthZero(k: nat)
    ensures SupportMax(0, k) == 0
  {
  }

  // ------------------------------------------------------------- attained up to one half

  lemma {:induction false} ConvAtLeast(d: nat, a: nat, b: nat, f: nat, t: nat, g: nat)
    requires g < t <= f + 1
    ensures Conv(d, a, b, f, t) >= Coeff(d, a, g) * Coeff(d, b, f - g)
    decreases t
  {
    hide Coeff;
    if g < t - 1 { ConvAtLeast(d, a, b, f, t - 1, g); }
  }

  lemma {:induction false} SplitAtLeast(d: nat, k: nat, f: nat, l: nat, a: nat)
    requires 1 <= a < l <= k
    ensures SplitSum(d, k, f, l) >= Conv(d, a, k - a, f, f + 1)
    decreases l
  {
    hide Conv;
    if a < l - 1 { SplitAtLeast(d, k, f, l - 1, a); }
  }

  lemma PositiveProduct(x: nat, y: nat)
    requires x > 0 && y > 0
    ensures x * y > 0
  {
  }

  lemma FirstAttained()
    ensures Coeff(1, 1, 1) > 0
  {
    assert Coeff(0, 1, 0) == 1;
  }

  lemma {:induction false} AttainedBelow(d: nat, k: nat)
    requires d >= 1 && 1 <= k && 2 * k <= Pow2(d)
    ensures Coeff(d, k, SupportMax(d, k)) > 0
  {
    hide Pow2, SupportMax, Coeff, Balanced, Concave;
    Pow2Succ(d - 1);
    if d == 1 {
      PowZeroIs();
      DepthOne(1);
      FirstAttained();
    } else {
      ConcaveFrom(d - 1);
      BalancedIfConcave(d - 1, k);
      Pow2Succ(d - 2);
      if k == 1 {
        AttainedBelow(d - 1, 1);
        OneLeaf(d - 1);
      } else {
        AttainedBelow(d - 1, k / 2);
        AttainedBelow(d - 1, k - k / 2);
        BalancedHalves(d - 1, k);
        BothChildren(d - 1, k, k / 2, SupportMax(d - 1, k / 2), SupportMax(d - 1, k - k / 2));
      }
    }
  }

  lemma BalancedHalves(d: nat, k: nat)
    requires k >= 2
    ensures Balanced(d, k) == SupportMax(d, k / 2) + SupportMax(d, k - k / 2)
  {
    hide SupportMax;
  }

  lemma OneLeaf(d: nat)
    requires Coeff(d, 1, SupportMax(d, 1)) > 0
    ensures Balanced(d, 1) == SupportMax(d, 1) + 1
    ensures Coeff(d + 1, 1, SupportMax(d, 1) + 1) > 0
  {
    hide SupportMax;
  }

  lemma BothChildren(d: nat, k: nat, a: nat, f: nat, g: nat)
    requires 1 <= a < k && Coeff(d, a, f) > 0 && Coeff(d, k - a, g) > 0
    ensures Coeff(d + 1, k, f + g) > 0
  {
    hide SupportMax, Conv, SplitSum;
    PositiveProduct(Coeff(d, a, f), Coeff(d, k - a, g));
    ConvAtLeast(d, a, k - a, f + g, f + g + 1, f);
    SplitAtLeast(d, k, f + g, k, a);
  }

  // ------------------------------------------------------------- not attained beyond it

  /** A nonzero coefficient leaves room: every frontier node covers an unselected leaf. */
  lemma {:induction false} FrontierBound(d: nat, k: nat, f: nat)
    requires k >= 1 && f + k > Pow2(d)
    ensures Coeff(d, k, f) == 0
    decreases d, 3, 0
  {
    hide Pow2;
    if d == 0 {
      PowZeroIs();
    } else {
      Pow2Succ(d - 1);
      if f > 0 { FrontierBound(d - 1, k, f - 1); }
      SplitBound(d - 1, k, f, k);
    }
  }

  lemma {:induction false} SplitBound(d: nat, k: nat, f: nat, l: nat)
    requires l <= k && f + k > 2 * Pow2(d)
    ensures SplitSum(d, k, f, l) == 0
    decreases d, 5, l
  {
    hide Pow2, Coeff;
    if l > 1 {
      SplitBound(d, k, f, l - 1);
      ConvBound(d, k, l - 1, f, f + 1);
    }
  }

  lemma {:induction false} ConvBound(d: nat, k: nat, a: nat, f: nat, t: nat)
    requires 1 <= a < k && t <= f + 1 && f + k > 2 * Pow2(d)
    ensures Conv(d, a, k - a, f, t) == 0
    decreases d, 4, t
  {
    hide Pow2, Coeff;
    if t > 0 {
      ConvBound(d, k, a, f, t - 1);
      if t - 1 + a > Pow2(d) { FrontierBound(d, a, t - 1); } else { FrontierBound(d, k - a, f - (t - 1)); }
    }
  }

  lemma {:induction false} EnvelopeHigh(d: nat, k: nat)
    requires d >= 1 && 2 * k >= Pow2(d)
    ensures 2 * SupportMax(d, k) >= Pow2(d)
  {
    hide Pow2, SupportMax;
    Pow2Succ(d - 1);
    if d == 1 {
      PowZeroIs();
      DepthOne(k);
    } else {
      Pow2Succ(d - 2);
      EnvelopeHigh(d - 1, k / 2);
      EnvelopeHigh(d - 1, k - k / 2);
      AtLeastSplit(d - 1, k);
    }
  }

  lemma AtLeastSplit(d: nat, k: nat)
    requires k >= 2
    ensures SupportMax(d + 1, k) >= SupportMax(d, k / 2) + SupportMax(d, k - k / 2)
  {
    SplitMaxAbove(d, k, k, k / 2);
  }

  /** The envelope value is attained exactly when at most half of the leaves are selected, or at the
      single leaf of depth 0. */
  lemma EnvelopeAttained(d: nat, k: nat)
    requires k >= 1
    ensures Coeff(d, k, SupportMax(d, k)) > 0 <==> 2 * k <= Pow2(d) || (d == 0 && k == 1)
  {
    hide SupportMax, Pow2;
    if d == 0 {
      PowZeroIs();
      DepthZero(k);
    } else if 2 * k <= Pow2(d) {
      AttainedBelow(d, k);
    } else {
      EnvelopeHigh(d, k);
      FrontierBound(d, k, SupportMax(d, k));
    }
  }
}

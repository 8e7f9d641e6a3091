/** Powers of two and bit reversal of fixed-width indices. */
module Bits {
  import opened Nonlinear

  function Pow2(n: nat): (p: nat)
    ensures p > 0
  {
    if n == 0 then 1 else 2 * Pow2(n - 1)
  }

  lemma Pow2Succ(n: nat)
    ensures Pow2(n + 1) == 2 * Pow2(n)
  {
  }

  lemma {:induction false} Pow2Add(m: nat, n: nat)
    ensures Pow2(m + n) == Pow2(m) * Pow2(n)
  {
    if m > 0 {
      Pow2Add(m - 1, n);
      Assoc(2, Pow2(m - 1), Pow2(n));
    }
  }

  /** `int.bit_length`. */
  function BitLength(n: nat): (b: nat)
    ensures n < Pow2(b)
  {
    if n == 0 then 0 else 1 + BitLength(n / 2)
  }

  /** The `width` low bits of an index, read in the opposite order. */
  function BitReverse(index: nat, width: nat): (r: nat)
    ensures r < Pow2(width)
    decreases width
  {
    if width == 0 then 0
    else (if index % 2 == 1 then Pow2(width - 1) else 0) + BitReverse(index / 2, width - 1)
  }

  lemma BitReverseDouble(b: nat, width: nat)
    requires width > 0
    ensures BitReverse(2 * b, width) == BitReverse(b, width - 1)
    ensures BitReverse(2 * b + 1, width) == BitReverse(b, width - 1) + Pow2(width - 1)
  {
    assert (2 * b) / 2 == b && (2 * b + 1) / 2 == b;
  }

  /** Reversal can equally be peeled from the most significant end. */
  lemma {:induction false} BitReverseTop(low: nat, hi: bool, width: nat)
    requires width > 0 && low < Pow2(width - 1)
    ensures BitReverse(if hi then low + Pow2(width - 1) else low, width)
         == 2 * BitReverse(low, width - 1) + if hi then 1 else 0
    decreases width
  {
    if width > 1 {
      BitReverseTop(low / 2, hi, width - 1);
    }
  }

  /** Bit reversal is an involution on its range. */
  lemma {:induction false} BitReverseTwice(index: nat, width: nat)
    requires index < Pow2(width)
    ensures BitReverse(BitReverse(index, width), width) == index
    decreases width
  {
    if width > 0 {
      BitReverseTwice(index / 2, width - 1);
      BitReverseTop(BitReverse(index / 2, width - 1), index % 2 == 1, width);
    }
  }
}

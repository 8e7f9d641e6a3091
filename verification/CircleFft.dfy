/** The in-place butterfly encoder and what it computes.

  `LineEval` is the coefficient-stride recursion of the circle FFT basis; the
  encoder is shown to leave, at every stored index, the evaluation at the domain
  point of that index. */
module CircleFft {
  import opened M31
  import opened Bits
  import opened Nonlinear
  import opened CircleDomain

  function Span(w: nat, k: nat): nat { w * Pow2(k) }

  lemma SpanHalf(w: nat, k: nat)
    requires k > 0
    ensures Span(2 * w, k - 1) == Span(w, k)
  {
    Assoc(2, w, Pow2(k - 1));
    Assoc(w, 2, Pow2(k - 1));
  }

  lemma SpanPow(L: nat, n: nat)
    requires L <= n
    ensures Span(Pow2(L), n - L) == Pow2(n)
  {
    hide Pow2;
    var k := n - L;
    Pow2Add(L, k);
    assert L + k == n;
  }

  lemma Pow2One()
    ensures Pow2(1) == 2
  {
  }

  lemma SpanZero(w: nat)
    ensures Span(w, 0) == w
  {
  }

  /** Sum over h < 2^k of m[lo + h * w] times the basis product of h at x. */
  ghost function LineEval(m: seq<Elem>, lo: nat, w: nat, k: nat, x: Elem): Elem
    requires lo < w && Span(w, k) == |m|
    decreases k
  {
    hide DoubleX, Span;
    SpanZero(w);
    if k == 0 then m[lo]
    else
      SpanHalf(w, k);
      Add(LineEval(m, lo, 2 * w, k - 1, DoubleX(x)),
          Mul(x, LineEval(m, lo + w, 2 * w, k - 1, DoubleX(x))))
  }

  /** Evaluation at the stored index i of the domain of size 2^n. */
  ghost function CircleEval(m: seq<Elem>, n: nat, i: nat): Elem
    requires 1 <= n <= 30 && |m| == Pow2(n)
  {
    hide LineEval, Mul, Add, CirclePoint, Span;
    SpanPow(1, n);
    Pow2One();
    var p := CirclePoint(n, i);
    Add(LineEval(m, 0, 2, n - 1, p.x), Mul(p.y, LineEval(m, 1, 2, n - 1, p.x)))
  }

  function Row(i: nat, w: nat): nat
    requires w > 0
  {
    i / w
  }

  function Lane(i: nat, w: nat): (r: nat)
    requires w > 0
    ensures r < w
  {
    i % w
  }

  /** What the values hold once the layers above level L have been applied. */
  ghost function LevelValue(m: seq<Elem>, n: nat, L: nat, i: nat): Elem
    requires 1 <= L <= n <= 30 && |m| == Pow2(n)
  {
    hide LineEval, Span;
    SpanPow(L, n);
    LineEval(m, Lane(i, Pow2(L)), Pow2(L), n - L, LineX(n - L, Row(i, Pow2(L))))
  }

  // ------------------------------------------------------------------ one butterfly

  function Butterfly(s: seq<Elem>, w: nat, twiddles: seq<Elem>, i: nat): Elem
    requires w > 0 && |s| == Base(|twiddles|, w) && i < |s|
  {
    hide Mul, Add, Sub, Row, Lane;
    Position(i, w, |twiddles|);
    var t := twiddles[Row(i, 2 * w)];
    if Row(i, w) % 2 == 0 then Add(s[i], Mul(s[i + w], t)) else Sub(s[i - w], Mul(s[i], t))
  }

  lemma Indices(b: nat, lo: nat, w: nat)
    requires lo < w
    ensures var i := b * (2 * w) + lo;
      && i >= 0 && Lane(i, w) == lo && Row(i, w) == 2 * b && Lane(i + w, w) == lo && Row(i + w, w) == 2 * b + 1
      && Lane(i, 2 * w) == lo && Row(i, 2 * w) == b && Lane(i + w, 2 * w) == lo + w && Row(i + w, 2 * w) == b
  {
    var i := b * (2 * w) + lo;
    MulLe(2 * w, 0, b);
    Assoc(w, 2, b);
    Distribute(w, 2 * b, 1);
    DivModUnique(i, w, 2 * b, lo);
    DivModUnique(i + w, w, 2 * b + 1, lo);
    DivModUnique(i, 2 * w, b, lo);
    DivModUnique(i + w, 2 * w, b, lo + w);
  }

  /** Where index i sits: its block, its lane and which half of the block. */
  lemma PositionOf(i: nat, w: nat, b: nat, r: nat, blocks: nat)
    requires w > 0 && i < blocks * (2 * w) && b == i / (2 * w) && r == i % (2 * w)
    ensures b < blocks && i == b * (2 * w) + r && b * (2 * w) + 2 * w <= blocks * (2 * w)
  {
    assert i == 2 * w * b + r;
    if b >= blocks { MulLe(2 * w, blocks, b); }
    MulLe(2 * w, b + 1, blocks);
    Distribute(2 * w, b, 1);
  }

  lemma Position(i: nat, w: nat, blocks: nat)
    requires w > 0 && i < blocks * (2 * w)
    ensures Row(i, 2 * w) < blocks
    ensures Row(i, w) % 2 == 0 ==> i + w < blocks * (2 * w) && i == Row(i, 2 * w) * (2 * w) + Lane(i, w)
    ensures Row(i, w) % 2 == 1 ==> i >= w && i == Row(i, 2 * w) * (2 * w) + Lane(i, w) + w
  {
    hide Row, Lane;
    var b, r := i / (2 * w), i % (2 * w);
    PositionOf(i, w, b, r, blocks);
    if r < w { Indices(b, r, w); } else { Indices(b, r - w, w); }
  }

  lemma PlusMinus(e: Elem, x: Elem, o: Elem)
    ensures Add(e, Mul(o, x)) == Add(e, Mul(x, o))
    ensures Sub(e, Mul(o, x)) == Add(e, Mul(Neg(x), o))
  {
    hide Add, Mul, Sub, Neg;
    MulComm(o, x);
    MulComm(Neg(x), o);
    MulNeg(o, x);
    SubIsAddNeg(e, Mul(o, x));
  }

  lemma LevelAt(m: seq<Elem>, n: nat, L: nat, i: nat, lo: nat, hi: nat)
    requires 1 <= L <= n <= 30 && |m| == Pow2(n)
    requires Lane(i, Pow2(L)) == lo && Row(i, Pow2(L)) == hi
    ensures Span(Pow2(L), n - L) == |m|
    ensures LevelValue(m, n, L, i) == LineEval(m, lo, Pow2(L), n - L, LineX(n - L, hi))
  {
    hide LineEval, LineX, Pow2, Row, Lane, Span;
    SpanPow(L, n);
  }

  /** `LineEval` at a row of level L, as its recursion sees it. */
  lemma RowSplit(m: seq<Elem>, n: nat, L: nat, b: nat, lo: nat, row: nat)
    requires 1 <= L < n <= 30 && |m| == Pow2(n) && lo < Pow2(L) && row / 2 == b
    ensures Span(Pow2(L), n - L) == |m| == Span(Pow2(L + 1), n - L - 1) && Pow2(L + 1) == 2 * Pow2(L)
    ensures LineEval(m, lo, Pow2(L), n - L, LineX(n - L, row))
         == Add(LineEval(m, lo, Pow2(L + 1), n - L - 1, LineX(n - L - 1, b)),
                Mul(LineX(n - L, row), LineEval(m, lo + Pow2(L), Pow2(L + 1), n - L - 1, LineX(n - L - 1, b))))
  {
    hide Pow2, Mul, Add, DoubleX, LineX, LineEval, Span;
    Pow2Succ(L);
    SpanPow(L, n);
    SpanPow(L + 1, n);
    LineXDouble(n - L, row);
    UnfoldEval(m, lo, Pow2(L), n - L, LineX(n - L, row));
  }

  /** The recursion of `LineEval`, read off the stored indices it pairs. */
  lemma LevelSplit(m: seq<Elem>, n: nat, L: nat, b: nat, lo: nat, i: nat)
    requires 1 <= L < n <= 30 && |m| == Pow2(n) && lo < Pow2(L) && i == b * (2 * Pow2(L)) + lo
    ensures var e, o := LevelValue(m, n, L + 1, i), LevelValue(m, n, L + 1, i + Pow2(L));
      && LevelValue(m, n, L, i) == Add(e, Mul(LineX(n - L, 2 * b), o))
      && LevelValue(m, n, L, i + Pow2(L)) == Add(e, Mul(LineX(n - L, 2 * b + 1), o))
  {
    hide Pow2, Mul, Add, LineX, LevelValue, Row, Lane, LineEval, Span;
    var w := Pow2(L);
    RowSplit(m, n, L, b, lo, 2 * b);
    RowSplit(m, n, L, b, lo, 2 * b + 1);
    Indices(b, lo, w);
    LevelAt(m, n, L, i, lo, 2 * b);
    LevelAt(m, n, L, i + w, lo, 2 * b + 1);
    LevelAt(m, n, L + 1, i, lo, b);
    LevelAt(m, n, L + 1, i + w, lo + w, b);
  }

  lemma UnfoldEval(m: seq<Elem>, lo: nat, w: nat, k: nat, x: Elem)
    requires k > 0 && lo < w && Span(w, k) == |m|
    ensures Span(2 * w, k - 1) == |m|
    ensures LineEval(m, lo, w, k, x)
         == Add(LineEval(m, lo, 2 * w, k - 1, DoubleX(x)), Mul(x, LineEval(m, lo + w, 2 * w, k - 1, DoubleX(x))))
  {
    hide DoubleX, Add, Mul, Span;
    SpanHalf(w, k);
  }

  /** One line layer takes the level-(L+1) values to the level-L values. */
  lemma LevelStep(m: seq<Elem>, n: nat, L: nat, s: seq<Elem>, twiddles: seq<Elem>, i: nat)
    requires 1 <= L < n <= 30 && |m| == |s| == Pow2(n) && i < |s|
    requires Base(|twiddles|, Pow2(L)) == |s|
    requires forall j :: 0 <= j < |s| ==> s[j] == LevelValue(m, n, L + 1, j)
    requires forall b :: 0 <= b < |twiddles| ==> twiddles[b] == LineX(n - L, 2 * b)
    ensures Butterfly(s, Pow2(L), twiddles, i) == LevelValue(m, n, L, i)
  {
    hide Pow2, Mul, Add, Sub, Neg, LineX, LevelValue, Row, Lane;
    var w := Pow2(L);
    Position(i, w, |twiddles|);
    var b := Row(i, 2 * w);
    LineXOdd(n - L, b);
    var i0 := if Row(i, w) % 2 == 0 then i else i - w;
    LevelSplit(m, n, L, b, Lane(i, w), i0);
    PlusMinus(s[i0], twiddles[b], s[i0 + w]);
  }

  lemma CircleSplit(m: seq<Elem>, n: nat, b: nat)
    requires 1 <= n <= 30 && |m| == Pow2(n)
    ensures var e, o := LevelValue(m, n, 1, 2 * b), LevelValue(m, n, 1, 2 * b + 1);
      var y := CirclePoint(n, 2 * b).y;
      && CircleEval(m, n, 2 * b) == Add(e, Mul(y, o))
      && CircleEval(m, n, 2 * b + 1) == Add(e, Mul(Neg(y), o))
  {
    hide Pow2, Mul, Add, Neg, LineX, LineEval, CirclePoint, LevelValue, Row, Lane, Span;
    Pow2One();
    Indices(b, 0, 1);
    CirclePointX(n, 2 * b);
    CirclePointX(n, 2 * b + 1);
    LevelAt(m, n, 1, 2 * b, 0, b);
    LevelAt(m, n, 1, 2 * b + 1, 1, b);
    CirclePointOdd(n, b);
  }

  /** The final circle layer yields the evaluation at every stored index. */
  lemma CircleStep(m: seq<Elem>, n: nat, s: seq<Elem>, twiddles: seq<Elem>, i: nat)
    requires 1 <= n <= 30 && |m| == |s| == Pow2(n) && i < |s|
    requires Base(|twiddles|, 1) == |s|
    requires forall j :: 0 <= j < |s| ==> s[j] == LevelValue(m, n, 1, j)
    requires forall b :: 0 <= b < |twiddles| ==> twiddles[b] == CirclePoint(n, 2 * b).y
    ensures Butterfly(s, 1, twiddles, i) == CircleEval(m, n, i)
  {
    hide Pow2, Mul, Add, Sub, Neg, LineX, LineEval, CirclePoint, LevelValue, CircleEval, Row, Lane;
    Position(i, 1, |twiddles|);
    var b := Row(i, 2);
    CircleSplit(m, n, b);
    PlusMinus(s[2 * b], twiddles[b], s[2 * b + 1]);
  }

  // -------------------------------------------------------------------- the encoder

  /** The lanes of one block: pairs at distance `span` from `base` on. */
  method ButterflyLanes(values: array<Elem>, base: nat, span: nat, twiddle: Elem)
    requires base + 2 * span <= values.Length
    modifies values
    ensures forall i :: base <= i < base + span ==>
      values[i] == Add(old(values[..])[i], Mul(old(values[..])[i + span], twiddle))
    ensures forall i :: base + span <= i < base + 2 * span ==>
      values[i] == Sub(old(values[..])[i - span], Mul(old(values[..])[i], twiddle))
    ensures forall i :: 0 <= i < values.Length && !(base <= i < base + 2 * span) ==> values[i] == old(values[..])[i]
  {
    hide Mul, Add, Sub;
    ghost var before := values[..];
    for lane := 0 to span
      invariant forall i :: base <= i < base + lane ==>
        values[i] == Add(before[i], Mul(before[i + span], twiddle))
      invariant forall i :: base + span <= i < base + span + lane ==>
        values[i] == Sub(before[i - span], Mul(before[i], twiddle))
      invariant forall i :: 0 <= i < base ==> values[i] == before[i]
      invariant forall i :: base + lane <= i < base + span ==> values[i] == before[i]
      invariant forall i :: base + span + lane <= i < values.Length ==> values[i] == before[i]
    {
      var i0 := base + lane;
      var i1 := i0 + span;
      var left := values[i0];
      var wr := Mul(values[i1], twiddle);
      values[i0] := Add(left, wr);
      values[i1] := Sub(left, wr);
    }
  }

  function Base(b: nat, w: nat): nat { b * (2 * w) }

  lemma BaseSteps(b: nat, w: nat)
    ensures Base(0, w) == 0 && Base(b + 1, w) == Base(b, w) + 2 * w
  {
    Distribute(2 * w, b, 1);
  }

  lemma BaseLe(b: nat, c: nat, w: nat)
    requires b <= c
    ensures Base(b, w) <= Base(c, w)
  {
    MulLe(2 * w, b, c);
  }

  lemma ButterflyAt(s: seq<Elem>, w: nat, twiddles: seq<Elem>, b: nat, i: nat)
    requires w > 0 && |s| == Base(|twiddles|, w) && b < |twiddles| && Base(b, w) <= i < Base(b, w) + 2 * w <= |s|
    ensures Butterfly(s, w, twiddles, i)
         == if i < Base(b, w) + w then Add(s[i], Mul(s[i + w], twiddles[b])) else Sub(s[i - w], Mul(s[i], twiddles[b]))
  {
    hide Mul, Add, Sub, Row, Lane;
    var r := i - Base(b, w);
    if r < w { Indices(b, r, w); } else { Indices(b, r - w, w); }
  }

  /** One layer: `_fft_layer` on every block, each with its own twiddle. */
  method ApplyLayer(values: array<Elem>, layer: nat, twiddles: seq<Elem>)
    requires values.Length == Base(|twiddles|, Pow2(layer))
    modifies values
    ensures forall i :: 0 <= i < values.Length ==>
      values[i] == Butterfly(old(values[..]), Pow2(layer), twiddles, i)
  {
    hide Pow2, Mul, Add, Sub, Butterfly, Base;
    ghost var before := values[..];
    var span := Pow2(layer);
    BaseSteps(0, span);
    for block := 0 to |twiddles|
      invariant Base(block, span) <= values.Length
      invariant forall i :: 0 <= i < Base(block, span) ==> values[i] == Butterfly(before, span, twiddles, i)
      invariant forall i :: Base(block, span) <= i < values.Length ==> values[i] == before[i]
    {
      var base := Base(block, span);
      BaseSteps(block, span);
      BaseLe(block + 1, |twiddles|, span);
      ghost var prior := values[..];
      assert forall i :: base <= i < values.Length ==> prior[i] == before[i];
      ButterflyLanes(values, base, span, twiddles[block]);
      forall i | base <= i < base + 2 * span
        ensures values[i] == Butterfly(before, span, twiddles, i)
      {
        ButterflyAt(before, span, twiddles, block, i);
      }
    }
  }
}

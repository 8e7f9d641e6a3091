/** Twiddle tables and the encoder that uses them, as the tool builds and runs them. */
module CircleEncoder {
  import opened M31
  import opened Bits
  import opened Nonlinear
  import opened Circle
  import opened CircleDomain
  import opened CircleFft

  /** Layer k of the line twiddles: one x-coordinate per block. */
  ghost predicate IsLineLayers(n: nat, layers: seq<seq<Elem>>)
  {
    && 2 <= n <= 30 && |layers| == n - 1
    && forall k :: 0 <= k < n - 1 ==> IsSegment(n - 1 - k, layers[k])
  }

  ghost predicate IsSegment(m: nat, s: seq<Elem>)
  {
    && 1 <= m <= 29 && |s| == Pow2(m - 1)
    && forall b :: 0 <= b < |s| ==> s[b] == LineX(m, 2 * b)
  }

  ghost predicate IsCircleTwiddles(n: nat, t: seq<Elem>)
  {
    && 1 <= n <= 30 && |t| == Pow2(n - 1)
    && forall b :: 0 <= b < |t| ==> t[b] == CirclePoint(n, 2 * b).y
  }

  function Padded(message: seq<Elem>, size: nat): (r: seq<Elem>)
    requires |message| <= size
    ensures |r| == size
  {
    message + seq(size - |message|, _ => 0)
  }

  // ----------------------------------------------------------------------- encoding

  lemma LevelTop(m: seq<Elem>, n: nat, i: nat)
    requires 1 <= n <= 30 && |m| == Pow2(n) && i < |m|
    ensures LevelValue(m, n, n, i) == m[i]
  {
    hide Pow2, LineX, Row, Lane, Span, LevelValue;
    LaneBelow(i, Pow2(n));
    LevelAt(m, n, n, i, i, 0);
  }

  lemma LaneBelow(i: nat, w: nat)
    requires i < w
    ensures Lane(i, w) == i && Row(i, w) == 0
  {
    DivModUnique(i, w, 0, i);
  }

  lemma BlockCount(n: nat, L: nat)
    requires L < n
    ensures Base(Pow2(n - L - 1), Pow2(L)) == Pow2(n)
  {
    hide Pow2;
    Pow2Succ(L);
    var k := n - L - 1;
    Pow2Add(k, L + 1);
    assert k + (L + 1) == n;
  }

  /** `encode_c1_message`: zero-pad, run the line layers from the top, then the
      circle layer.  Every slot ends up with the evaluation at its domain point. */
  method Encode(message: seq<Elem>, lineLayers: seq<seq<Elem>>, firstCircle: seq<Elem>, n: nat)
    returns (values: array<Elem>)
    requires 2 <= n <= 30 && |message| <= Pow2(n)
    requires IsLineLayers(n, lineLayers) && IsCircleTwiddles(n, firstCircle)
    ensures fresh(values) && values.Length == Pow2(n)
    ensures forall i :: 0 <= i < Pow2(n) ==> values[i] == CircleEval(Padded(message, Pow2(n)), n, i)
  {
    hide Pow2, LevelValue, CircleEval, Butterfly, LineX, CirclePoint, Base;
    var size := Pow2(n);
    values := new Elem[size](_ => 0);
    for i := 0 to |message|
      invariant forall j :: 0 <= j < i ==> values[j] == message[j]
      invariant forall j :: i <= j < size ==> values[j] == 0
    {
      values[i] := message[i];
    }
    ghost var m := Padded(message, size);
    forall i | 0 <= i < size ensures values[i] == LevelValue(m, n, n, i) { LevelTop(m, n, i); }
    var layer := |lineLayers|;
    while layer > 0
      invariant 0 <= layer <= n - 1
      invariant forall i :: 0 <= i < size ==> values[i] == LevelValue(m, n, layer + 1, i)
    {
      layer := layer - 1;
      ghost var s := values[..];
      BlockCount(n, layer + 1);
      assert IsSegment(n - 1 - layer, lineLayers[layer]);
      ApplyLayer(values, layer + 1, lineLayers[layer]);
      forall i | 0 <= i < size ensures values[i] == LevelValue(m, n, layer + 1, i) {
        LevelStep(m, n, layer + 1, s, lineLayers[layer], i);
      }
    }
    ghost var s := values[..];
    BlockCount(n, 0);
    assert Pow2(0) == 1 by { Pow2Zero(); }
    ApplyLayer(values, 0, firstCircle);
    forall i | 0 <= i < size ensures values[i] == CircleEval(m, n, i) {
      CircleStep(m, n, s, firstCircle, i);
    }
  }

  lemma Pow2Zero()
    ensures Pow2(0) == 1
  {
  }

  // ------------------------------------------------------------------ twiddle tables

  /** `_bit_reverse_slice`: swap each index with its reversal, once per pair. */
  method BitReverseSlice(values: array<Elem>, log: nat)
    requires values.Length == Pow2(log)
    modifies values
    ensures forall i :: 0 <= i < values.Length ==> values[i] == old(values[..])[BitReverse(i, log)]
  {
    hide BitReverse, Pow2;
    ghost var before := values[..];
    for i := 0 to values.Length
      invariant forall j :: 0 <= j < values.Length ==>
        values[j] == if j < i || BitReverse(j, log) < i then before[BitReverse(j, log)] else before[j]
    {
      var r := BitReverse(i, log);
      BitReverseTwice(i, log);
      forall j | 0 <= j < values.Length ensures BitReverse(BitReverse(j, log), log) == j { BitReverseTwice(j, log); }
      if r > i {
        values[i], values[r] := values[r], values[i];
      }
    }
  }

  lemma CosetDouble(log: nat)
    requires 1 <= log <= 29
    ensures CAdd(GroupPoint(Initial(log)), GroupPoint(Initial(log))) == GroupPoint(Initial(log - 1))
    ensures CAdd(GroupPoint(Step(log)), GroupPoint(Step(log))) == GroupPoint(Step(log - 1))
  {
    hide CAdd, CPow, Pow2;
    CPowDouble(GENERATOR, Initial(log));
    CPowDouble(GENERATOR, Step(log));
    Pow2Succ(29 - log);
    Pow2Succ(31 - log);
  }

  /** The segments of the flat twiddle list, largest first. */
  ghost function AllSegments(m: nat): (s: seq<Elem>)
    requires m <= 29
    ensures |s| == Pow2(m) - 1
  {
    if m == 0 then [] else Segment(m) + AllSegments(m - 1)
  }

  ghost function Segment(m: nat): (s: seq<Elem>)
    requires 1 <= m <= 29
    ensures IsSegment(m, s)
  {
    seq(Pow2(m - 1), b requires 0 <= b < Pow2(m - 1) => LineX(m, 2 * b))
  }

  /** One segment of `_precompute_twiddles`: coset x-coordinates, bit-reversed. */
  method BuildSegment(init: Point, step: Point, log: nat) returns (segment: seq<Elem>)
    requires 1 <= log <= 29
    requires init == GroupPoint(Initial(log)) && step == GroupPoint(Step(log))
    ensures segment == Segment(log)
  {
    hide CAdd, CPow, Pow2, Initial, Step, BitReverse, Exponent;
    var size := Pow2(log - 1);
    var a := new Elem[size](_ => 0);
    for i := 0 to size
      invariant forall j :: 0 <= j < i ==> a[j] == GroupPoint(Exponent(log, j)).x
    {
      var p := CMulLoop(step, i);
      CosetPoint(log, i);
      a[i] := CAdd(init, p).x;
    }
    ghost var before := a[..];
    BitReverseSlice(a, log - 1);
    segment := a[..];
    forall b | 0 <= b < size ensures segment[b] == LineX(log, 2 * b) {
      BitReverseDouble(b, log);
      assert segment[b] == before[BitReverse(b, log - 1)];
    }
    assert segment == Segment(log);
  }

  /** `_precompute_twiddles`: halve the coset until it is a single point. */
  method PrecomputeTwiddles(n: nat) returns (twiddles: seq<Elem>)
    requires 1 <= n <= 30
    ensures twiddles == AllSegments(n - 1) + [1]
  {
    hide CAdd, CPow, Pow2, Initial, Step, Segment, AllSegments;
    var log := n - 1;
    var init := CMulLoop(GENERATOR, Initial(log));
    var step := CMulLoop(GENERATOR, Step(log));
    twiddles := [];
    while log != 0
      invariant log <= n - 1
      invariant init == GroupPoint(Initial(log)) && step == GroupPoint(Step(log))
      invariant twiddles + AllSegments(log) == AllSegments(n - 1)
    {
      var segment := BuildSegment(init, step, log);
      AllSegmentsStep(log);
      assert twiddles + (segment + AllSegments(log - 1)) == twiddles + segment + AllSegments(log - 1);
      twiddles := twiddles + segment;
      CosetDouble(log);
      init, step, log := CAdd(init, init), CAdd(step, step), log - 1;
    }
    NoSegments();
    assert twiddles + [] == twiddles;
    twiddles := twiddles + [1];
  }

  lemma NoSegments()
    ensures AllSegments(0) == []
  {
  }

  lemma AllSegmentsStep(m: nat)
    requires 1 <= m <= 29
    ensures |Segment(m)| == Pow2(m - 1) && AllSegments(m) == Segment(m) + AllSegments(m - 1)
  {
    hide Pow2, Segment;
  }

  lemma {:induction false} SegmentSlice(m: nat, l: nat)
    requires l < m <= 29
    ensures Pow2(l) < Pow2(l + 1) <= Pow2(m)
    ensures AllSegments(m)[Pow2(m) - Pow2(l + 1)..Pow2(m) - Pow2(l)] == Segment(l + 1)
    decreases m
  {
    hide Pow2, Segment, AllSegments;
    Pow2Succ(l);
    Pow2Succ(m - 1);
    AllSegmentsStep(m);
    if l < m - 1 {
      SegmentSlice(m - 1, l);
      SuffixSlice(Segment(m), AllSegments(m - 1), Pow2(m - 1) - Pow2(l + 1), Pow2(m - 1) - Pow2(l));
    } else {
      assert (Segment(m) + AllSegments(m - 1))[0..Pow2(l)] == Segment(m);
    }
  }

  lemma SuffixSlice(s: seq<Elem>, t: seq<Elem>, a: nat, b: nat)
    requires a <= b <= |t|
    ensures (s + t)[|s| + a..|s| + b] == t[a..b]
  {
  }

  /** `_line_twiddle_layers`: cut the flat list from its end, then reverse. */
  method LineTwiddleLayers(twiddles: seq<Elem>, n: nat) returns (layers: seq<seq<Elem>>)
    requires 2 <= n <= 30 && twiddles == AllSegments(n - 1) + [1]
    ensures IsLineLayers(n, layers)
  {
    hide Pow2, Segment, AllSegments;
    var lineLog := n - 1;
    var total := |twiddles|;
    layers := [];
    for layer := 0 to lineLog
      invariant |layers| == layer
      invariant forall k :: 0 <= k < layer ==> IsSegment(k + 1, layers[k])
    {
      var ln := Pow2(layer);
      SegmentSlice(n - 1, layer);
      Pow2Succ(layer);
      var slice := twiddles[total - 2 * ln..total - ln];
      assert slice == AllSegments(n - 1)[total - 2 * ln..total - ln];
      layers := layers + [slice];
    }
    layers := Reversed(layers);
  }

  function Reversed<T>(s: seq<T>): (r: seq<T>)
    ensures |r| == |s| && forall k :: 0 <= k < |s| ==> r[k] == s[|s| - 1 - k]
  {
    if s == [] then [] else Reversed(s[1..]) + [s[0]]
  }

  lemma NegTwice(x: Elem)
    ensures Neg(Neg(x)) == x
  {
  }

  lemma QuarterTurnTwiddles(n: nat, q: nat)
    requires 3 <= n <= 30
    ensures var x, y := LineX(n - 1, 4 * q), LineX(n - 1, 4 * q + 2);
      && CirclePoint(n, 8 * q).y == y && CirclePoint(n, 8 * q + 2).y == Neg(y)
      && CirclePoint(n, 8 * q + 4).y == Neg(x) && CirclePoint(n, 8 * q + 6).y == x
  {
    hide CirclePoint, LineX, Neg;
    CirclePointX(n, 8 * q);
    CirclePointX(n, 8 * q + 4);
    NeighbourFiber(n, q);
    FiberSlots(n, 2 * q);
    FiberSlots(n, 2 * q + 1);
    NegTwice(CirclePoint(n, 8 * q).x);
  }

  /** `_circle_twiddles`: [y, -y, -x, x] for each pair of x-coordinates. */
  method CircleTwiddles(first: seq<Elem>, n: nat) returns (result: seq<Elem>)
    requires 3 <= n <= 30 && IsSegment(n - 1, first)
    ensures IsCircleTwiddles(n, result)
  {
    hide Pow2, CirclePoint, LineX, Neg;
    result := [];
    Pow2Succ(n - 3);
    Pow2Succ(n - 2);
    var i := 0;
    while i < |first|
      invariant i % 2 == 0 && i <= |first|
      invariant |result| == 2 * i
      invariant forall b :: 0 <= b < 2 * i ==> result[b] == CirclePoint(n, 2 * b).y
    {
      var x, y := first[i], first[i + 1];
      var q := i / 2;
      QuarterTurnTwiddles(n, q);
      assert x == LineX(n - 1, 4 * q) && y == LineX(n - 1, 4 * q + 2);
      var more := [y, Neg(y), Neg(x), x];
      assert forall t :: 0 <= t < 4 ==> more[t] == CirclePoint(n, 2 * (2 * i + t)).y by {
        assert 2 * (2 * i) == 8 * q;
      }
      result := result + more;
      i := i + 2;
    }
  }

  /** `build_encoder` followed by `encode_c1_message`, for every log size the group
      supports: the codeword is the evaluation of the message at every stored index. */
  method BuildAndEncode(message: seq<Elem>, n: nat) returns (values: array<Elem>)
    requires 3 <= n <= 30 && |message| <= Pow2(n)
    ensures values.Length == Pow2(n)
    ensures forall i :: 0 <= i < Pow2(n) ==> values[i] == CircleEval(Padded(message, Pow2(n)), n, i)
  {
    hide Pow2, CircleEval, AllSegments;
    var twiddles := PrecomputeTwiddles(n);
    var lineLayers := LineTwiddleLayers(twiddles, n);
    assert IsSegment(n - 1 - 0, lineLayers[0]);
    var firstCircle := CircleTwiddles(lineLayers[0], n);
    values := Encode(message, lineLayers, firstCircle, n);
  }
}

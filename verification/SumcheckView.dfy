/** Computing the observation vector, and reading it back. */
module SumcheckView {
  import opened M31
  import opened QM31
  import opened Determinant
  import opened QPoly
  import opened Lagrange
  import opened Sumcheck

  /** c0, c2, c3, ... : the linear coefficient is not sent. */
  function Kept(c: Row): (k: Row)
    requires |c| >= 2
    ensures |k| == |c| - 1
  {
    [c[0]] + c[2..]
  }

  ghost function RoundOf(z: Row, bits: seq<bool>, spec: Spec, n: nat, r: nat): (c: Row)
    requires |z| == |bits| && r < |z|
    ensures |c| == n
  {
    RoundPoly(Prefix(z, bits, r), bits, spec, n, r)
  }

  /** What is observed from round r on. */
  ghost function Tail(z: Row, bits: seq<bool>, spec: Spec, n: nat, r: nat): Row
    requires |z| == |bits| && r <= |z| && n >= 2
    decreases |z| - r
  {
    if r == |z| then [] else Kept(RoundOf(z, bits, spec, n, r)) + Tail(z, bits, spec, n, r + 1)
  }

  // ---------------------------------------------------------------------- computing it

  lemma QPowHalf(v: Quad, e: nat)
    ensures QPow(v, e) == if e % 2 == 0 then QPow(QMul(v, v), e / 2) else QMul(v, QPow(QMul(v, v), e / 2))
  {
    hide QMul;
    QPowDouble(v, e / 2);
    if e % 2 == 1 { assert e == 2 * (e / 2) + 1; }
  }

  lemma {:induction false} QPowDouble(v: Quad, h: nat)
    ensures QPow(v, 2 * h) == QPow(QMul(v, v), h)
  {
    hide QMul;
    if h > 0 {
      QPowDouble(v, h - 1);
      assert QPow(v, 2 * h) == QMul(v, QMul(v, QPow(v, 2 * h - 2)));
      QMulAssoc(v, v, QPow(v, 2 * h - 2));
    }
  }

  /** `qpow`. */
  method QPowLoop(x: Quad, exp: nat) returns (acc: Quad)
    ensures acc == QPow(x, exp)
  {
    hide QMul, QPow;
    var base, e := x, exp;
    acc := ONE;
    QMulOne(QPow(x, exp));
    while e > 0
      invariant QMul(acc, QPow(base, e)) == QPow(x, exp)
    {
      QPowHalf(base, e);
      if e % 2 == 1 {
        QMulAssoc(acc, base, QPow(QMul(base, base), e / 2));
        acc := QMul(acc, base);
      }
      base := QMul(base, base);
      e := e / 2;
    }
    QPowNone(base);
    QMulOne(acc);
  }

  lemma QPowNone(x: Quad)
    ensures QPow(x, 0) == ONE
  {
  }

  method FactorLoop(spec: Spec, l: Quad) returns (v: Quad)
    ensures v == FactorOf(spec, l)
  {
    hide QMul, QAdd, QPow, Tower;
    var lp := QPowLoop(l, spec.exp);
    v := if spec.addOne then QAdd(ONE, lp) else QMul(lp, Tower(spec.tower));
  }

  /** `factor_value`. */
  method FactorValue(p: Row, spec: Spec) returns (v: Quad)
    ensures v == Factor(p, spec)
  {
    hide QAdd, QScale, Scalar, FactorOf;
    var l := ZERO;
    for c := 0 to |p|
      invariant l == LinearTo(p, spec.family, c)
    {
      l := QAdd(l, QScale(p[c], Scalar(spec.family, c)));
    }
    v := FactorLoop(spec, l);
  }

  /** The two accumulations over the coordinates other than the round variable. */
  method OtherCoordinates(p: Row, bits: seq<bool>, family: nat, r: nat) returns (eqr: Quad, base: Quad)
    requires |p| == |bits|
    ensures eqr == EqSkip(p, bits, |p|, r) && base == LinearSkip(p, family, |p|, r)
  {
    hide QAdd, QMul, QScale, Scalar, Literal;
    eqr, base := ONE, ZERO;
    for c := 0 to |p|
      invariant eqr == EqSkip(p, bits, c, r) && base == LinearSkip(p, family, c, r)
    {
      if c == r { continue; }
      eqr := QMul(eqr, Literal(bits[c], p[c]));
      if Scalar(family, c) != 0 {
        base := QAdd(base, QScale(p[c], Scalar(family, c)));
      } else {
        ScaleZero(p[c]);
        QAddZero(base);
      }
    }
  }

  lemma SampleValue(p: Row, bits: seq<bool>, spec: Spec, r: nat, s: Elem, eqr: Quad, base: Quad)
    requires |p| == |bits| && r < |p|
    requires eqr == EqSkip(p, bits, |p|, r) && base == LinearSkip(p, spec.family, |p|, r)
    ensures QMul(QScale(eqr, if bits[r] then s else Sub(1, s)),
                 FactorOf(spec, QAdd(base, Embed(Mul(s, Scalar(spec.family, r))))))
         == Summand(p[r := Embed(s)], bits, spec)
  {
    hide QAdd, QMul, QScale, Scalar, FactorOf, Summand, Sub, Mul, Embed, QSub, EqSkip, LinearSkip;
    var w := if bits[r] then s else Sub(1, s);
    SummandAt(p, bits, spec, r, Embed(s));
    EmbedSub(1, s);
    EmbedZeroOne();
    assert Embed(w) == Literal(bits[r], Embed(s));
    ScaleIsMul(eqr, w);
    QMulComm(Embed(w), eqr);
    ScaleIsMul(Embed(s), Scalar(spec.family, r));
    EmbedMul(s, Scalar(spec.family, r));
    QMulComm(Embed(s), Embed(Scalar(spec.family, r)));
  }

  /** One round: sample at 0 .. n-1 and interpolate the kept coefficients. */
  method RoundObservations(table: seq<seq<Elem>>, n: nat, p: Row, bits: seq<bool>, spec: Spec, r: nat)
    returns (kept: Row)
    requires LagrangeTable(table, n) && spec.exp + 2 <= n && |p| == |bits| && r < |p|
    ensures kept == Kept(RoundPoly(p, bits, spec, n, r))
  {
    hide QAdd, QMul, QScale, Scalar, FactorOf, Summand, Sub, Mul, Embed, EqSkip, LinearSkip;
    hide LagrangeTable, RoundPoly, Eval, DotSum;
    TableSize(table, n);
    ghost var c := RoundPoly(p, bits, spec, n, r);
    var eqr, base := OtherCoordinates(p, bits, spec.family, r);
    var samples: Row := [];
    for s := 0 to n
      invariant |samples| == s && forall t :: 0 <= t < s ==> samples[t] == Eval(c, Embed(t))
    {
      var fac := FactorLoop(spec, QAdd(base, Embed(Mul(s, Scalar(spec.family, r)))));
      var weight := if bits[r] then s else Sub(1, s);
      SampleValue(p, bits, spec, r, s, eqr, base);
      RoundPolyEval(p, bits, spec, n, r, Embed(s));
      samples := samples + [QMul(QScale(eqr, weight), fac)];
    }
    Interpolates(table, n, samples, c);
    var first := DotLoop(samples, table[0]);
    kept := [first];
    for k := 2 to n
      invariant kept == [c[0]] + c[2..k]
    {
      var v := DotLoop(samples, table[k]);
      assert c[2..k + 1] == c[2..k] + [c[k]];
      kept := kept + [v];
    }
    assert c[2..n] == c[2..];
  }

  lemma InitialClaim(z: Row, bits: seq<bool>, spec: Spec)
    requires |z| == |bits|
    ensures Factor(BitPoint(bits), spec) == Claim(z, bits, spec, 0)
  {
    hide QMul, Factor, CubeSum, EqTo;
    var p := BitPoint(bits);
    assert Prefix(z, bits, 0) == p;
    CubeSumCollapses(p, bits, spec, 0);
    assert Filled(p, bits, 0) == p;
    EqAtRow(bits, |bits|);
    QMulOne(Factor(p, spec));
  }

  lemma {:induction false} EqAtRow(bits: seq<bool>, k: nat)
    requires k <= |bits|
    ensures EqTo(BitPoint(bits), bits, k) == ONE
  {
    hide QMul, Literal;
    if k > 0 {
      EqAtRow(bits, k - 1);
      LiteralOff(bits[k - 1]);
      QMulOne(ONE);
    }
  }

  /** `observations`: the claim followed by the kept coefficients of every true round
      polynomial. */
  method Observations(table: seq<seq<Elem>>, n: nat, row: nat, z: Row, spec: Spec) returns (obs: Row)
    requires LagrangeTable(table, n) && spec.exp + 2 <= n
    ensures var bits := RowBits(row, |z|);
      obs == [Claim(z, bits, spec, 0)] + Tail(z, bits, spec, n, 0)
  {
    hide LagrangeTable, RoundPoly, Factor, RowBits, Claim, Kept, BitPoint;
    var bits := RowBits(row, |z|);
    var point := BitPoint(bits);
    var first := FactorValue(point, spec);
    InitialClaim(z, bits, spec);
    obs := [first];
    var prefix := point;
    for r := 0 to |z|
      invariant prefix == Prefix(z, bits, r)
      invariant obs + Tail(z, bits, spec, n, r) == [first] + Tail(z, bits, spec, n, 0)
    {
      var kept := RoundObservations(table, n, prefix, bits, spec, r);
      assert obs + (kept + Tail(z, bits, spec, n, r + 1)) == (obs + kept) + Tail(z, bits, spec, n, r + 1);
      obs := obs + kept;
      prefix := prefix[r := z[r]];
    }
    assert obs + [] == obs;
  }

  // ------------------------------------------------------------------- reading it back

  /** Complete the kept coefficients with the linear one the boundary forces. */
  ghost function Recover(claim: Quad, kept: Row): (c: Row)
    requires kept != []
    ensures |c| == |kept| + 1
  {
    [kept[0], QSub(QSub(claim, QAdd(kept[0], kept[0])), SumFrom(kept, 1))] + kept[1..]
  }

  lemma {:induction false} SumShift(c: Row, d: Row, i: nat, j: nat)
    requires i <= |c| && j <= |d| && c[i..] == d[j..]
    ensures SumFrom(c, i) == SumFrom(d, j)
    decreases |c| - i
  {
    hide QAdd;
    assert |c| - i == |c[i..]| == |d[j..]| == |d| - j;
    if i < |c| {
      assert c[i] == c[i..][0] == d[j..][0] == d[j];
      assert c[i + 1..] == c[i..][1..] == d[j + 1..];
      SumShift(c, d, i + 1, j + 1);
    }
  }

  /** From c0, c2, ... and g(0) + g(1) alone, all of g is recovered. */
  lemma RecoverExact(c: Row, claim: Quad)
    requires |c| >= 2 && QAdd(Eval(c, ZERO), Eval(c, ONE)) == claim
    ensures Recover(claim, Kept(c)) == c
  {
    hide QAdd, QSub, SumFrom, Eval;
    var kept := Kept(c);
    EvalZero(c);
    EvalOneSum(c);
    assert kept[1..] == c[2..];
    SumShift(kept, c, 1, 2);
    Isolate(c[0], c[1], SumFrom(c, 2));
    assert c == [c[0], c[1]] + c[2..];
  }

  lemma EvalOneSum(c: Row)
    requires |c| >= 2
    ensures Eval(c, ONE) == QAdd(c[0], QAdd(c[1], SumFrom(c, 2)))
  {
    hide QAdd, EvalFrom;
    EvalOne(c, 0);
    assert SumFrom(c, 1) == QAdd(c[1], SumFrom(c, 2));
  }

  lemma Isolate(a: Quad, b: Quad, s: Quad)
    ensures QSub(QSub(QAdd(a, QAdd(a, QAdd(b, s))), QAdd(a, a)), s) == b
  {
    hide QAdd, QSub, QNeg;
    var t := QAdd(b, s);
    QAddAssoc(a, a, t);
    CancelFirst(QAdd(a, a), t);
    QAddComm(b, s);
    CancelFirst(s, b);
  }

  lemma CancelFirst(a: Quad, t: Quad)
    ensures QSub(QAdd(a, t), a) == t
  {
    hide QAdd, QSub, QNeg;
    QSubIsAddNeg(QAdd(a, t), a);
    QAddComm(a, t);
    QAddAssoc(t, a, QNeg(a));
    QAddNeg(a);
    QAddZero(t);
  }

  datatype Transcript = Transcript(polys: seq<Row>, finalClaim: Quad)

  /** A verifier's reading: complete each round, evaluate at the challenge, go on. */
  ghost function Replay(claim: Quad, rest: Row, z: Row, n: nat): Transcript
    requires n >= 2
    decreases |z|
  {
    if z == [] || |rest| < n - 1 then Transcript([], claim)
    else
      var c := Recover(claim, rest[..n - 1]);
      var t := Replay(Eval(c, z[0]), rest[n - 1..], z[1..], n);
      Transcript([c] + t.polys, t.finalClaim)
  }

  ghost function TruePolys(z: Row, bits: seq<bool>, spec: Spec, n: nat, r: nat): seq<Row>
    requires |z| == |bits| && r <= |z|
    decreases |z| - r
  {
    if r == |z| then [] else [RoundOf(z, bits, spec, n, r)] + TruePolys(z, bits, spec, n, r + 1)
  }

  lemma {:induction false} ReplayFrom(z: Row, bits: seq<bool>, spec: Spec, n: nat, r: nat)
    requires |z| == |bits| && r <= |z| && spec.exp + 2 <= n
    ensures Replay(Claim(z, bits, spec, r), Tail(z, bits, spec, n, r), z[r..], n)
         == Transcript(TruePolys(z, bits, spec, n, r), Claim(z, bits, spec, |z|))
    decreases |z| - r
  {
    hide RoundPoly, Claim, Kept, Recover, Eval, QAdd;
    if r < |z| {
      var c := RoundOf(z, bits, spec, n, r);
      var rest := Tail(z, bits, spec, n, r);
      ReplayFrom(z, bits, spec, n, r + 1);
      ClaimsChain(z, bits, spec, n, r);
      RecoverExact(c, Claim(z, bits, spec, r));
      assert rest[..n - 1] == Kept(c);
      assert rest[n - 1..] == Tail(z, bits, spec, n, r + 1);
      assert z[r..][1..] == z[r + 1..] && z[r..][0] == z[r];
    }
  }

  /** The observation vector determines the whole sumcheck: reading it back yields every
      true round polynomial and ends at the summand evaluated at the challenges. */
  lemma ReplayExact(z: Row, bits: seq<bool>, spec: Spec, n: nat)
    requires |z| == |bits| && spec.exp + 2 <= n
    ensures Replay(Claim(z, bits, spec, 0), Tail(z, bits, spec, n, 0), z, n)
         == Transcript(TruePolys(z, bits, spec, n, 0), Summand(z, bits, spec))
  {
    hide Replay, Tail, TruePolys, Summand;
    ReplayFrom(z, bits, spec, n, 0);
    assert z[0..] == z;
    assert Prefix(z, bits, |z|) == z;
  }
}

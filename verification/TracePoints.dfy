/** Row selectors on the Boolean cube: the eq weight picks one row, and the successor point of
    a row is the next row. */
module TracePoints {
  import opened M31
  import opened QM31
  import opened Bits
  import Nonlinear
  import opened Determinant
  import opened Sumcheck

  /** `eq_weight`: the product over all coordinates of v or 1 - v. */
  method EqWeight(point: Row, row: nat) returns (w: Quad)
    ensures w == EqTo(point, RowBits(row, |point|), |point|)
  {
    hide QMul, Literal, RowBits;
    var bits := RowBits(row, |point|);
    w := ONE;
    for c := 0 to |point|
      invariant w == EqTo(point, bits, c)
    {
      w := QMul(w, Literal(bits[c], point[c]));
    }
  }

  /** On Boolean points the weight is the indicator of the row. */
  lemma {:induction false} EqIsIndicator(a: seq<bool>, b: seq<bool>, k: nat)
    requires k <= |a| == |b|
    ensures EqTo(BitPoint(a), b, k) == if a[..k] == b[..k] then ONE else ZERO
  {
    hide QMul, Literal;
    if k > 0 {
      EqIsIndicator(a, b, k - 1);
      LiteralOff(b[k - 1]);
      var e := EqTo(BitPoint(a), b, k - 1);
      QMulOne(e);
      QMulZero(e);
      assert a[..k] == a[..k - 1] + [a[k - 1]] && b[..k] == b[..k - 1] + [b[k - 1]];
    }
  }

  // ------------------------------------------------------------------- successor point

  /** Big-endian value of a bit string. */
  function Value(bits: seq<bool>): nat
  {
    if bits == [] then 0 else 2 * Value(bits[..|bits| - 1]) + if bits[|bits| - 1] then 1 else 0
  }

  /** The carry into coordinate c, entering from the right. */
  ghost function CarryInto(point: Row, c: nat): Quad
    requires c <= |point|
    decreases |point| - c
  {
    if c == |point| then ONE else QMul(CarryInto(point, c + 1), point[c])
  }

  /** v + carry - 2 v carry */
  function Toggled(v: Quad, carry: Quad): Quad
  {
    QSub(QAdd(v, carry), QAdd(QMul(v, carry), QMul(v, carry)))
  }

  /** `binary_successor_point`, right to left. */
  method BinarySuccessorPoint(point: Row) returns (succ: Row)
    ensures |succ| == |point|
    ensures forall c :: 0 <= c < |point| ==> succ[c] == Toggled(point[c], CarryInto(point, c + 1))
  {
    hide QMul, Toggled;
    succ := seq(|point|, _ => ZERO);
    var carry := ONE;
    var c: nat := |point|;
    while c > 0
      invariant c <= |point| == |succ| && carry == CarryInto(point, c)
      invariant forall i :: c <= i < |point| ==> succ[i] == Toggled(point[i], CarryInto(point, i + 1))
    {
      c := c - 1;
      succ := succ[c := Toggled(point[c], carry)];
      carry := QMul(carry, point[c]);
    }
  }

  /** All bits from c on are set. */
  predicate Ones(bits: seq<bool>, c: nat)
    requires c <= |bits|
  {
    forall i :: c <= i < |bits| ==> bits[i]
  }

  /** The bits of the next row, wrapping at the end. */
  function Successor(bits: seq<bool>): (s: seq<bool>)
    ensures |s| == |bits|
  {
    seq(|bits|, c requires 0 <= c < |bits| => bits[c] != Ones(bits, c + 1))
  }

  lemma {:induction false} CarryIsOnes(bits: seq<bool>, c: nat)
    requires c <= |bits|
    ensures CarryInto(BitPoint(bits), c) == if Ones(bits, c) then ONE else ZERO
    decreases |bits| - c
  {
    hide QMul;
    if c < |bits| {
      CarryIsOnes(bits, c + 1);
      QMulOne(ONE);
      QMulZero(ONE);
      QMulZero(ZERO);
      assert Ones(bits, c) <==> bits[c] && Ones(bits, c + 1);
    }
  }

  lemma ToggledBit(a: bool, b: bool)
    ensures Toggled(if a then ONE else ZERO, if b then ONE else ZERO) == if a != b then ONE else ZERO
  {
    hide QMul, QAdd, QSub;
    var v, carry := if a then ONE else ZERO, if b then ONE else ZERO;
    QMulOne(v);
    QMulZero(v);
    QAddZero(v);
    QAddZero(carry);
    QAddZero(ZERO);
    QSubZero(v);
    QSubZero(carry);
    QSubSelf(QAdd(v, carry));
  }

  lemma {:induction false} SuccessorValue(bits: seq<bool>)
    ensures Value(Successor(bits)) == if Ones(bits, 0) then 0 else Value(bits) + 1
    ensures Ones(bits, 0) <==> Value(bits) + 1 == Pow2(|bits|)
    ensures Value(bits) < Pow2(|bits|)
  {
    if bits != [] {
      var n := |bits| - 1;
      var init, last := bits[..n], bits[n];
      SuccessorValue(init);
      var s := Successor(bits);
      assert s[n] == !last;
      forall c | 0 <= c < n ensures s[c] == if last then Successor(init)[c] else init[c] {
        assert Ones(bits, c + 1) <==> Ones(init, c + 1) && last;
      }
      assert s[..n] == if last then Successor(init) else init;
      assert Ones(bits, 0) <==> Ones(init, 0) && last;
    }
  }

  lemma CyclicValue(bits: seq<bool>)
    ensures Value(Successor(bits)) == (Value(bits) + 1) % Pow2(|bits|)
  {
    hide Successor, Value, Ones, Pow2;
    SuccessorValue(bits);
    WrapsAround(Value(bits), Pow2(|bits|));
  }

  lemma WrapsAround(v: nat, n: nat)
    requires v < n
    ensures (v + 1) % n == if v + 1 == n then 0 else v + 1
  {
    if v + 1 < n { Nonlinear.DivModUnique(v + 1, n, 0, v + 1); } else { Nonlinear.DivModUnique(n, n, 1, 0); }
  }

  lemma SuccessorAt(bits: seq<bool>, c: nat)
    requires c < |bits|
    ensures Toggled(BitPoint(bits)[c], CarryInto(BitPoint(bits), c + 1)) == BitPoint(Successor(bits))[c]
  {
    hide Toggled, CarryInto, Ones;
    CarryIsOnes(bits, c + 1);
    ToggledBit(bits[c], Ones(bits, c + 1));
  }

  /** On the row with the given bits, the successor point is the row one further, cyclically. */
  lemma SuccessorIsNextRow(bits: seq<bool>, succ: Row)
    requires |succ| == |bits|
    requires forall c :: 0 <= c < |bits| ==> succ[c] == Toggled(BitPoint(bits)[c], CarryInto(BitPoint(bits), c + 1))
    ensures succ == BitPoint(Successor(bits))
    ensures Value(Successor(bits)) == (Value(bits) + 1) % Pow2(|bits|)
  {
    hide Toggled, CarryInto, Value, Pow2, Successor, BitPoint;
    forall c | 0 <= c < |bits| ensures succ[c] == BitPoint(Successor(bits))[c] { SuccessorAt(bits, c); }
    CyclicValue(bits);
  }

  // -------------------------------------------------------------------- row indices

  lemma BitHalf(row: nat, i: nat)
    ensures Bit(row, i + 1) == Bit(row / 2, i)
  {
    hide Pow2;
    Pow2Succ(i);
    Nonlinear.NestedDivision(row, 2, Pow2(i));
  }

  lemma RowBitsInit(row: nat, n: nat)
    requires n > 0
    ensures RowBits(row, n)[..n - 1] == RowBits(row / 2, n - 1) && RowBits(row, n)[n - 1] == (row % 2 == 1)
  {
    hide Bit;
    var bits := RowBits(row, n);
    forall c | 0 <= c < n - 1 ensures bits[c] == RowBits(row / 2, n - 1)[c] { BitHalf(row, n - 2 - c); }
    LastBit(row);
  }

  lemma LastBit(row: nat)
    ensures Bit(row, 0) == (row % 2 == 1)
  {
  }

  /** The bits of a row spell the row, modulo the number of rows. */
  lemma {:induction false} RowBitsValue(row: nat, n: nat)
    ensures Value(RowBits(row, n)) == row % Pow2(n)
  {
    hide RowBits, Pow2;
    if n == 0 {
      PowNone();
      assert RowBits(row, 0) == [];
    } else {
      RowBitsValue(row / 2, n - 1);
      RowBitsInit(row, n);
      Pow2Succ(n - 1);
      HalfRemainder(row, Pow2(n - 1));
    }
  }

  lemma PowNone()
    ensures Pow2(0) == 1
  {
  }

  lemma HalfRemainder(row: nat, p: nat)
    requires p > 0
    ensures row % (2 * p) == 2 * ((row / 2) % p) + row % 2
  {
    var h := row / 2;
    assert h == p * (h / p) + h % p;
    Nonlinear.DivModUnique(row, 2 * p, h / p, 2 * (h % p) + row % 2);
  }

  /** Bit strings of equal length and value are equal. */
  lemma {:induction false} ValueInjective(a: seq<bool>, b: seq<bool>)
    requires |a| == |b| && Value(a) == Value(b)
    ensures a == b
  {
    if a != [] {
      var n := |a| - 1;
      ValueInjective(a[..n], b[..n]);
      assert a == a[..n] + [a[n]] && b == b[..n] + [b[n]];
    }
  }

  lemma SuccessorBits(row: nat, n: nat)
    ensures Successor(RowBits(row, n)) == RowBits(row + 1, n)
  {
    hide RowBits, Pow2, Successor, Value;
    CyclicValue(RowBits(row, n));
    RowBitsValue(row, n);
    RowBitsValue(row + 1, n);
    NextRemainder(row, Pow2(n));
    ValueInjective(Successor(RowBits(row, n)), RowBits(row + 1, n));
  }

  lemma NextRemainder(row: nat, p: nat)
    requires p > 0
    ensures (row % p + 1) % p == (row + 1) % p
  {
    var q, r := row / p, row % p;
    assert row == p * q + r;
    if r + 1 < p {
      Nonlinear.DivModUnique(row + 1, p, q, r + 1);
      Nonlinear.DivModUnique(r + 1, p, 0, r + 1);
    } else {
      Nonlinear.Distribute(p, q, 1);
      Nonlinear.DivModUnique(row + 1, p, q + 1, 0);
      Nonlinear.DivModUnique(p, p, 1, 0);
    }
  }

  /** `binary_successor_point` of the point of a row is the point of the next row, and `eq_weight`
      there selects exactly the rows congruent to it modulo the number of rows. */
  lemma SuccessorSelects(row: nat, other: nat, n: nat, succ: Row)
    requires |succ| == n
    requires forall c :: 0 <= c < n ==>
      succ[c] == Toggled(BitPoint(RowBits(row, n))[c], CarryInto(BitPoint(RowBits(row, n)), c + 1))
    ensures succ == BitPoint(RowBits(row + 1, n))
    ensures EqTo(succ, RowBits(other, n), n) == if other % Pow2(n) == (row + 1) % Pow2(n) then ONE else ZERO
  {
    hide RowBits, Pow2, Successor, Value, Toggled, CarryInto, EqTo, BitPoint;
    var a, b := RowBits(row + 1, n), RowBits(other, n);
    SuccessorIsNextRow(RowBits(row, n), succ);
    SuccessorBits(row, n);
    EqIsIndicator(a, b, n);
    assert a[..n] == a && b[..n] == b;
    RowBitsValue(row + 1, n);
    RowBitsValue(other, n);
    if Value(a) == Value(b) { ValueInjective(a, b); }
  }
}

/** `coefficient_tables`: the dictionary program that fills the frontier table. */
module FrontierTable {
  import opened FrontierCount
  import opened Nonlinear

  type Row = map<nat, nat>
  type Table = map<nat, Row>

  function Val(row: Row, f: nat): nat { if f in row then row[f] else 0 }

  function RowOf(table: Table, k: nat): Row { if k in table then table[k] else map[] }

  /** `row[key] += amount` on a defaultdict. */
  function Bump(row: Row, key: nat, amount: nat): (r: Row)
    ensures forall f: nat :: Val(r, f) == Val(row, f) + if f == key then amount else 0
  {
    row[key := Val(row, key) + amount]
  }

  // ---------------------------------------------------- sums over dictionary entries

  /** Products whose left frontier is below t and in `done`. */
  ghost function Masked(left: Row, right: Row, done: set<nat>, f: nat, t: nat): nat
    requires t <= f + 1
  {
    if t == 0 then 0
    else if t - 1 in done then Masked(left, right, done, f, t - 1) + Val(left, t - 1) * Val(right, f - (t - 1))
    else Masked(left, right, done, f, t - 1)
  }

  ghost function Collected(left: Row, right: Row, done: set<nat>, f: nat): nat
  {
    Masked(left, right, done, f, f + 1)
  }

  lemma {:induction false} MaskedAdd(left: Row, right: Row, done: set<nat>, g: nat, f: nat, t: nat)
    requires t <= f + 1 && g !in done
    ensures Masked(left, right, done + {g}, f, t)
         == Masked(left, right, done, f, t) + if g < t then Val(left, g) * Val(right, f - g) else 0
  {
    hide Val;
    if t > 0 { MaskedAdd(left, right, done, g, f, t - 1); }
  }

  lemma {:induction false} MaskedNone(left: Row, right: Row, f: nat, t: nat)
    requires t <= f + 1
    ensures Masked(left, right, {}, f, t) == 0
  {
    if t > 0 { MaskedNone(left, right, f, t - 1); }
  }

  /** The rows a and b of a correct depth-d table. */
  ghost predicate IsRow(row: Row, d: nat, k: nat)
  {
    forall f: nat :: Val(row, f) == Coeff(d, k, f)
  }

  lemma {:induction false} MaskedAll(left: Row, right: Row, d: nat, a: nat, b: nat, f: nat, t: nat)
    requires t <= f + 1 && IsRow(left, d, a) && IsRow(right, d, b)
    ensures Masked(left, right, left.Keys, f, t) == Conv(d, a, b, f, t)
    decreases t
  {
    hide Coeff;
    if t > 0 {
      MaskedAll(left, right, d, a, b, f, t - 1);
      assert Val(left, t - 1) == Coeff(d, a, t - 1) && Val(right, f - (t - 1)) == Coeff(d, b, f - (t - 1));
      if t - 1 !in left { assert Val(left, t - 1) == 0; }
    }
  }

  // ----------------------------------------------------------------------- the loops

  /** The innermost loop: one left entry against every right entry. */
  method AddShifted(row: Row, g: nat, count: nat, right: Row) returns (out: Row)
    ensures forall f: nat :: Val(out, f) == Val(row, f) + if f >= g then count * Val(right, f - g) else 0
  {
    out := row;
    var rest := right.Keys;
    while rest != {}
      invariant rest <= right.Keys
      invariant forall f: nat ::
        Val(out, f) == Val(row, f)
          + (if f >= g && f - g in right && f - g !in rest then count * Val(right, f - g) else 0)
      decreases rest
    {
      var h :| h in rest;
      rest := rest - {h};
      MulLe(count, 0, right[h]);
      out := Bump(out, g + h, count * right[h]);
    }
  }

  method AddProducts(row: Row, left: Row, right: Row) returns (out: Row)
    ensures forall f: nat :: Val(out, f) == Val(row, f) + Collected(left, right, left.Keys, f)
  {
    hide Val, Masked;
    out := row;
    var rest := left.Keys;
    forall f: nat ensures Collected(left, right, left.Keys - rest, f) == 0 {
      assert left.Keys - rest == {};
      MaskedNone(left, right, f, f + 1);
    }
    while rest != {}
      invariant rest <= left.Keys
      invariant forall f: nat :: Val(out, f) == Val(row, f) + Collected(left, right, left.Keys - rest, f)
      decreases rest
    {
      var g :| g in rest;
      ghost var done := left.Keys - rest;
      rest := rest - {g};
      assert left.Keys - rest == done + {g};
      forall f: nat
        ensures Collected(left, right, left.Keys - rest, f)
             == Collected(left, right, done, f) + if f >= g then Val(left, g) * Val(right, f - g) else 0
      {
        MaskedAdd(left, right, done, g, f, f + 1);
      }
      out := AddShifted(out, g, Val(left, g), right);
    }
    assert left.Keys - rest == left.Keys;
  }

  method ShiftByOne(source: Row) returns (row: Row)
    ensures forall f: nat :: Val(row, f) == if f > 0 then Val(source, f - 1) else 0
  {
    row := map[];
    var rest := source.Keys;
    while rest != {}
      invariant rest <= source.Keys
      invariant forall f: nat ::
        Val(row, f) == if f > 0 && f - 1 in source && f - 1 !in rest then Val(source, f - 1) else 0
      decreases rest
    {
      var g :| g in rest;
      rest := rest - {g};
      row := Bump(row, g + 1, source[g]);
    }
  }

  ghost predicate IsTable(table: Table, d: nat, selected: nat)
  {
    forall k: nat :: 1 <= k <= selected ==> IsRow(RowOf(table, k), d, k)
  }

  /** The part of the next coefficient from the single child and left sizes below l. */
  ghost function Upto(d: nat, k: nat, f: nat, l: nat): nat
    requires l <= k
  {
    (if f > 0 then Coeff(d, k, f - 1) else 0) + SplitSum(d, k, f, l)
  }

  lemma UptoFirst(d: nat, k: nat, f: nat)
    requires k >= 1
    ensures Upto(d, k, f, 1) == if f > 0 then Coeff(d, k, f - 1) else 0
  {
    hide Coeff;
  }

  lemma UptoNext(d: nat, k: nat, f: nat, l: nat)
    requires 1 <= l < k
    ensures Upto(d, k, f, l + 1) == Upto(d, k, f, l) + Conv(d, l, k - l, f, f + 1)
  {
    hide Coeff, Conv;
  }

  lemma UptoLast(d: nat, k: nat, f: nat)
    ensures Upto(d, k, f, k) == Coeff(d + 1, k, f)
  {
    hide SplitSum;
  }

  method NextRow(current: Table, k: nat, ghost d: nat, ghost selected: nat) returns (row: Row)
    requires IsTable(current, d, selected) && 1 <= k <= selected
    ensures IsRow(row, d + 1, k)
  {
    hide Val, RowOf, Conv, Collected, Coeff, Upto;
    row := ShiftByOne(RowOf(current, k));
    forall f: nat ensures Val(row, f) == Upto(d, k, f, 1) { UptoFirst(d, k, f); }
    for l := 1 to k
      invariant forall f: nat :: Val(row, f) == Upto(d, k, f, l)
    {
      var left, right := RowOf(current, l), RowOf(current, k - l);
      forall f: nat ensures Upto(d, k, f, l + 1) == Upto(d, k, f, l) + Collected(left, right, left.Keys, f) {
        CollectedAll(left, right, d, l, k - l, f);
        UptoNext(d, k, f, l);
      }
      row := AddProducts(row, left, right);
    }
    forall f: nat ensures Val(row, f) == Coeff(d + 1, k, f) { UptoLast(d, k, f); }
  }

  lemma CollectedAll(left: Row, right: Row, d: nat, a: nat, b: nat, f: nat)
    requires IsRow(left, d, a) && IsRow(right, d, b)
    ensures Collected(left, right, left.Keys, f) == Conv(d, a, b, f, f + 1)
  {
    hide Val, Conv, Masked, IsRow;
    MaskedAll(left, right, d, a, b, f, f + 1);
  }

  /** The whole program: one dictionary per depth, each entry the dense coefficient. */
  method CoefficientTables(depth: nat, selected: nat) returns (result: seq<Table>)
    ensures |result| == depth + 1
    ensures forall d: nat :: d <= depth ==> IsTable(result[d], d, selected)
  {
    hide IsRow;
    var current: Table := map[1 := map[0 := 1]];
    FirstTable(selected);
    result := [current];
    for d := 0 to depth
      invariant |result| == d + 1 && result[d] == current
      invariant forall i: nat :: i <= d ==> IsTable(result[i], i, selected)
    {
      var following: Table := map[];
      for k := 1 to selected + 1
        invariant forall j: nat :: 1 <= j < k ==> IsRow(RowOf(following, j), d + 1, j)
      {
        var row := NextRow(current, k, d, selected);
        ghost var before := following;
        following := following[k := row];
        assert forall j: nat :: 1 <= j < k ==> RowOf(following, j) == RowOf(before, j);
        assert RowOf(following, k) == row;
      }
      current := following;
      assert IsTable(current, d + 1, selected);
      result := result + [current];
    }
  }

  lemma FirstTable(selected: nat)
    ensures IsTable(map[1 := map[0 := 1]], 0, selected)
  {
  }
}

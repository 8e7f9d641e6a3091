/** The streaming echelon forms, with their columns reduced in place. */
module Echelons {
  import opened Options
  import opened M31
  import F = M31Field
  import opened Vectors
  import opened Elimination
  import opened Schur
  import opened Dimension

  /** Subtract c times the basis vector from position `from` on; the basis is zero before it. */
  method EliminateFrom(a: array<Elem>, c: Elem, basis: array<Elem>, from: nat)
    requires a != basis && a.Length == basis.Length && from <= a.Length
    requires Cleared(basis[..], from)
    modifies a
    ensures a[..] == Eliminate(old(a[..]), c, basis[..])
  {
    hide Mul, Sub;
    ghost var before := a[..];
    MulZero(c);
    forall j | 0 <= j < from ensures a[j] == Sub(before[j], Mul(c, basis[j])) {
      assert basis[j] == basis[..][j];
      SubZero(before[j]);
    }
    for i := from to a.Length
      invariant forall j :: 0 <= j < i ==> a[j] == Sub(before[j], Mul(c, basis[j]))
      invariant forall j :: i <= j < a.Length ==> a[j] == before[j]
    {
      if basis[i] != 0 {
        a[i] := Sub(a[i], Mul(c, basis[i]));
      } else {
        SubZero(a[i]);
      }
    }
  }

  /** Scale by c from position `from` on; the vector is zero before it. */
  method ScaleFrom(a: array<Elem>, c: Elem, from: nat)
    requires from <= a.Length && Cleared(a[..], from)
    modifies a
    ensures a[..] == VScale(c, old(a[..]))
  {
    hide Mul;
    ghost var before := a[..];
    MulZero(c);
    assert forall j :: 0 <= j < from ==> before[j] == 0;
    for i := from to a.Length
      invariant forall j :: 0 <= j < i ==> a[j] == Mul(c, before[j])
      invariant forall j :: i <= j < a.Length ==> a[j] == before[j]
    {
      MulComm(a[i], c);
      a[i] := Mul(a[i], c);
    }
  }

  lemma PivotCleared(piv: Pivots, k: nat, p: nat)
    requires Echelon(piv, k) && p < |piv| && piv[p].Some?
    ensures |piv[p].value| == k && Cleared(piv[p].value, p)
  {
  }

  lemma PartialNext(piv: Pivots, p: nat, v: Vec)
    requires Echelon(piv, |v|) && p < |piv|
    ensures piv[p].Some? ==> |piv[p].value| == |v|
    ensures Partial(piv, p + 1, v) == Step(piv, p, Partial(piv, p, v))
    ensures piv[p].Some? ==>
      Partial(piv, p + 1, v) == Eliminate(Partial(piv, p, v), Partial(piv, p, v)[p], piv[p].value)
  {
  }

  lemma FreshCountEmpty(k: nat)
    ensures FreshCount([], k) == 0
  {
  }

  class ColumnEchelon {
    const n: nat
    /** The stored pivots are the caller's own columns, kept by reference. */
    var pivots: seq<array?<Elem>>
    var rank: nat
    ghost var view: Pivots
    ghost var history: seq<Vec>
    ghost var residuals: seq<Vec>

    ghost predicate Stored()
      reads this, pivots
    {
      && |pivots| == |view| == n
      && (forall p :: 0 <= p < n ==> (pivots[p] == null <==> view[p].None?))
      && (forall p :: 0 <= p < n && pivots[p] != null ==> pivots[p][..] == view[p].value)
    }

    ghost predicate Valid()
      reads this, pivots
    {
      && Stored()
      && Inv(view, n, n, history, residuals)
      && rank == |PivotSet(view)| == FreshCount(history, n)
    }

    constructor (rows: nat)
      ensures Valid() && n == rows && rank == 0 && history == [] && forall p <- pivots :: p == null
    {
      n := rows;
      pivots := seq(rows, _ => null);
      rank := 0;
      view := seq(rows, _ => None);
      history := [];
      residuals := [];
      InvInit(rows, rows);
      PivotSetEmpty(rows);
      FreshCountEmpty(rows);
    }

    /** True exactly when the column was outside the span of the earlier ones; the
        rank stays the dimension of the span. */
    method Insert(column: array<Elem>) returns (grew: bool)
      requires Valid() && column.Length == n && column !in pivots
      modifies this, column
      ensures Valid()
      ensures history == old(history) + [old(column[..])]
      ensures grew <==> !InSpan(old(history), n, old(column[..]))
      ensures rank == old(rank) + if grew then 1 else 0
      ensures forall p :: 0 <= p < n ==> pivots[p] == old(pivots[p]) || pivots[p] == column
      ensures grew <==> column in pivots
      ensures !grew ==> column[..] == Zero(n)
    {
      hide InSpan, Inv, Partial, PivotSet, Echelon, VScale, F.Inv, IsPivot, Reduce, FreshCount, Cleared, Step;
      ghost var v := column[..];
      PivotsLength(view, n, n, history, residuals);
      PartialStart(view, v);
      FreshCountSnoc(history, v, n);
      for p := 0 to n
        invariant unchanged(this) && Stored()
        invariant column[..] == Partial(view, p, v) && Cleared(column[..], p)
      {
        var cp := column[p];
        PartialNext(view, p, v);
        StepFree(view, p, column[..]);
        if cp == 0 {
          ClearNext(view, p, v);
          continue;
        }
        var basis := pivots[p];
        if basis != null {
          ClearNext(view, p, v);
          PivotCleared(view, n, p);
          EliminateFrom(column, cp, basis, p);
          continue;
        }
        ghost var u := column[..];
        var inv := F.InvLoop(cp);
        ScaleFrom(column, inv, p);
        PivotIsFresh(view, n, history, residuals, v, p);
        NormalisedPivot(u, p);
        InvPivot(view, n, n, history, residuals, v, p, column[..]);
        PivotSetAdd(view, p, column[..]);
        pivots := pivots[p := column];
        view := view[p := Some(column[..])];
        rank := rank + 1;
        history := history + [v];
        return true;
      }
      AbsorbedIsStale(view, n, history, residuals, v);
      ClearedReduces(view, v);
      assert column[..] == column[..][..n];
      InvResidual(view, n, n, history, residuals, v);
      residuals := residuals + [Reduce(view, 0, v)[n..]];
      history := history + [v];
      return false;
    }
  }

  // ---------------------------------------------------------------- carried columns

  lemma EliminateParts(x: Vec, y: Vec, c: Elem, bx: Vec, bw: Vec)
    requires |x| == |bx| && |y| == |bw|
    ensures Eliminate(x + y, c, bx + bw) == Eliminate(x, c, bx) + Eliminate(y, c, bw)
  {
    hide Mul, Sub;
  }

  lemma VScaleParts(c: Elem, x: Vec, y: Vec)
    ensures VScale(c, x + y) == VScale(c, x) + VScale(c, y)
  {
    hide Mul;
  }

  lemma ClearedParts(x: Vec, y: Vec, p: nat)
    requires Cleared(x, p)
    ensures Cleared(x + y, p)
  {
  }

  lemma ClearedEmpty(x: Vec)
    ensures Cleared(x, 0)
  {
  }

  method EliminatePair(raw: array<Elem>, carry: array<Elem>, c: Elem, braw: array<Elem>, bcarry: array<Elem>, p: nat)
    requires raw.Length == braw.Length && carry.Length == bcarry.Length && p <= raw.Length
    requires raw != carry && raw !in {braw, bcarry} && carry !in {braw, bcarry}
    requires Cleared(braw[..], p)
    modifies raw, carry
    ensures raw[..] == Eliminate(old(raw[..]), c, braw[..])
    ensures raw[..] + carry[..] == Eliminate(old(raw[..] + carry[..]), c, braw[..] + bcarry[..])
  {
    hide Eliminate;
    EliminateParts(raw[..], carry[..], c, braw[..], bcarry[..]);
    ClearedEmpty(bcarry[..]);
    EliminateFrom(raw, c, braw, p);
    EliminateFrom(carry, c, bcarry, 0);
  }

  method ScalePair(raw: array<Elem>, carry: array<Elem>, c: Elem, p: nat)
    requires raw != carry && p <= raw.Length && Cleared(raw[..], p)
    modifies raw, carry
    ensures raw[..] == VScale(c, old(raw[..]))
    ensures raw[..] + carry[..] == VScale(c, old(raw[..] + carry[..]))
  {
    hide VScale;
    VScaleParts(c, raw[..], carry[..]);
    ClearedEmpty(carry[..]);
    ScaleFrom(raw, c, p);
    ScaleFrom(carry, c, 0);
  }

  /** The pivots seen whole and through their raw parts. */
  ghost predicate Projects(view: Pivots, rawView: Pivots, n: nat, m: nat)
  {
    && |view| == |rawView| == n
    && (forall p :: 0 <= p < n ==> (view[p].Some? <==> rawView[p].Some?))
    && (forall p :: 0 <= p < n && view[p].Some? ==>
          |view[p].value| == n + m && rawView[p].value == view[p].value[..n])
  }

  lemma ProjectsPivot(view: Pivots, rawView: Pivots, n: nat, m: nat, p: nat, b: Vec, rb: Vec)
    requires Projects(view, rawView, n, m) && p < n && |b| == n + m && rb == b[..n]
    ensures Projects(view[p := Some(b)], rawView[p := Some(rb)], n, m)
  {
  }

  class CarryEchelon {
    const n: nat
    ghost const m: nat
    var pivots: seq<Option<(array<Elem>, array<Elem>)>>
    var rank: nat
    ghost var view: Pivots
    ghost var rawView: Pivots
    ghost var history: seq<Vec>
    ghost var residuals: seq<Vec>
    ghost var rawHistory: seq<Vec>
    ghost var rawResiduals: seq<Vec>
    ghost var repr: set<array<Elem>>

    ghost predicate Stored()
      reads this, repr
    {
      && |pivots| == |view| == n
      && (forall p :: 0 <= p < n ==> (pivots[p].None? <==> view[p].None?))
      && (forall p :: 0 <= p < n && pivots[p].Some? ==>
            && pivots[p].value.0 in repr && pivots[p].value.1 in repr
            && pivots[p].value.0.Length == n && pivots[p].value.1.Length == m
            && pivots[p].value.0[..] + pivots[p].value.1[..] == view[p].value)
    }

    ghost predicate Valid()
      reads this, repr
    {
      && Stored() && Projects(view, rawView, n, m)
      && Inv(view, n, n + m, history, residuals)
      && Inv(rawView, n, n, rawHistory, rawResiduals)
      && |rawHistory| == |history|
      && (forall i :: 0 <= i < |history| ==> |history[i]| == n + m && rawHistory[i] == history[i][..n])
      && rank == |PivotSet(view)| == FreshCount(rawHistory, n)
    }

    constructor (rawRows: nat, ghost carryRows: nat)
      ensures Valid() && n == rawRows && m == carryRows && rank == 0 && history == residuals == rawHistory == []
      ensures repr == {}
    {
      n := rawRows;
      m := carryRows;
      pivots := seq(rawRows, _ => None);
      rank := 0;
      repr := {};
      view := seq(rawRows, _ => None);
      rawView := seq(rawRows, _ => None);
      history, residuals := [], [];
      rawHistory, rawResiduals := [], [];
      InvInit(rawRows, rawRows);
      InvInit(rawRows, rawRows + carryRows);
      PivotSetEmpty(rawRows);
      FreshCountEmpty(rawRows);
    }

    /** The carries returned so far span exactly the c with (0, c) in the span of all
        inserted pairs. */
    lemma Image(c: Vec)
      requires Valid() && |c| == m
      ensures InSpan(residuals, m, c) <==> InSpan(history, n + m, Carried(n, c))
    {
      hide Inv, InSpan;
      SchurImage(view, n, n + m, history, residuals, c);
    }

    lemma StoredParts(p: nat)
      requires Stored() && Projects(view, rawView, n, m) && Echelon(view, n + m) && p < n && pivots[p].Some?
      ensures pivots[p].value.0[..] == rawView[p].value && Cleared(rawView[p].value, p)
    {
      PivotCleared(view, n + m, p);
    }

    /** Absorb one pair.  A pair whose raw part is new becomes a pivot; any other one
        is reduced to (0, c), and c is handed back. */
    method Reduce(raw: array<Elem>, carry: array<Elem>) returns (residual: array?<Elem>)
      requires Valid() && raw.Length == n && carry.Length == m && raw != carry
      requires raw !in repr && carry !in repr
      modifies this, raw, carry
      ensures Valid()
      ensures history == old(history) + [old(raw[..] + carry[..])]
      ensures rawHistory == old(rawHistory) + [old(raw[..])]
      ensures residual == null || (residual == carry && raw[..] == Zero(n))
      ensures residual == null <==> !InSpan(old(rawHistory), n, old(raw[..]))
      ensures residuals == old(residuals) + if residual == null then [] else [carry[..]]
      ensures rank == old(rank) + if residual == null then 1 else 0
      ensures repr == old(repr) + if residual == null then {raw, carry} else {}
    {
      hide InSpan, Inv, Partial, PivotSet, Echelon, VScale, F.Inv, IsPivot;
      hide Elimination.Reduce, FreshCount, Cleared, Step;
      ghost var rv, v := raw[..], raw[..] + carry[..];
      PivotsLength(view, n, n + m, history, residuals);
      PivotsLength(rawView, n, n, rawHistory, rawResiduals);
      PartialStart(view, v);
      PartialStart(rawView, rv);
      FreshCountSnoc(rawHistory, rv, n);
      for p := 0 to n
        invariant unchanged(this) && Stored()
        invariant raw[..] == Partial(rawView, p, rv) && Cleared(raw[..], p)
        invariant raw[..] + carry[..] == Partial(view, p, v) && Cleared(raw[..] + carry[..], p)
      {
        var rp := raw[p];
        PartialNext(view, p, v);
        PartialNext(rawView, p, rv);
        if rp == 0 {
          StepFree(view, p, raw[..] + carry[..]);
          StepFree(rawView, p, raw[..]);
          ClearNext(view, p, v);
          ClearNext(rawView, p, rv);
          continue;
        }
        if pivots[p].Some? {
          ClearNext(view, p, v);
          ClearNext(rawView, p, rv);
          var braw, bcarry := pivots[p].value.0, pivots[p].value.1;
          StoredParts(p);
          EliminatePair(raw, carry, rp, braw, bcarry, p);
          continue;
        }
        AddPivot(raw, carry, p, v, rv);
        return null;
      }
      AbsorbedIsStale(rawView, n, rawHistory, rawResiduals, rv);
      ClearedReduces(rawView, rv);
      assert raw[..] == raw[..][..n];
      InvResidual(rawView, n, n, rawHistory, rawResiduals, rv);
      rawResiduals := rawResiduals + [Elimination.Reduce(rawView, 0, rv)[n..]];
      rawHistory := rawHistory + [rv];
      ClearedReduces(view, v);
      InvResidual(view, n, n + m, history, residuals, v);
      residuals := residuals + [carry[..]];
      history := history + [v];
      return carry;
    }

    method AddPivot(raw: array<Elem>, carry: array<Elem>, p: nat, ghost v: Vec, ghost rv: Vec)
      requires Valid() && p < n && pivots[p].None? && |v| == n + m && rv == v[..n]
      requires raw.Length == n && carry.Length == m && raw != carry && raw[p] != 0
      requires raw !in repr && carry !in repr
      requires raw[..] == Partial(rawView, p, rv) && Cleared(raw[..], p)
      requires raw[..] + carry[..] == Partial(view, p, v)
      modifies this, raw, carry
      ensures Valid()
      ensures history == old(history) + [v] && rawHistory == old(rawHistory) + [rv]
      ensures residuals == old(residuals) && rank == old(rank) + 1
      ensures !InSpan(old(rawHistory), n, rv)
      ensures repr == old(repr) + {raw, carry}
    {
      hide InSpan, Inv, Partial, PivotSet, Echelon, VScale, F.Inv, IsPivot, Elimination.Reduce, FreshCount, Cleared;
      ghost var x, y := raw[..], carry[..];
      var inv := F.InvLoop(raw[p]);
      FreshCountSnoc(rawHistory, rv, n);
      PivotIsFresh(rawView, n, rawHistory, rawResiduals, rv, p);
      NormalisedPivot(x, p);
      ClearedParts(x, y, p);
      NormalisedPivot(x + y, p);
      ScalePair(raw, carry, inv, p);
      ghost var rb, b := raw[..], raw[..] + carry[..];
      InvPivot(rawView, n, n, rawHistory, rawResiduals, rv, p, rb);
      InvPivot(view, n, n + m, history, residuals, v, p, b);
      PivotSetAdd(view, p, b);
      ProjectsPivot(view, rawView, n, m, p, b, rb);
      pivots := pivots[p := Some((raw, carry))];
      repr := repr + {raw, carry};
      view, rawView := view[p := Some(b)], rawView[p := Some(rb)];
      rank := rank + 1;
      history, rawHistory := history + [v], rawHistory + [rv];
    }
  }
}

/** Replaying finalized loader writes into an image, whatever their order. */
module Replay {
  import opened Options
  import opened Base58
  import Wire
  import opened Upload

  datatype State = State(image: Bytes, covered: seq<bool>, duplicateChunks: nat, duplicateBytes: nat)

  function Empty(n: nat): State { State(seq(n, _ => 0), seq(n, _ => false), 0, 0) }

  /** How many of the positions [i, j) are covered. */
  function Count(c: seq<bool>, i: nat, j: nat): (k: nat)
    requires i <= j <= |c|
    ensures k <= j - i
  {
    if i == j then 0 else Count(c, i, j - 1) + if c[j - 1] then 1 else 0
  }

  /** One write: refused out of bounds, or when part of its range is covered or covered with other
      bytes; counted as a duplicate when its whole range is covered and agrees, whether or not the
      same write came before; applied on untouched bytes. */
  function Apply(s: State, w: Write): (r: Option<State>)
    requires |s.image| == |s.covered|
    ensures r.Some? ==> |r.value.image| == |r.value.covered| == |s.image|
  {
    if End(w) > |s.image| then None
    else
      var already := Count(s.covered, w.offset, End(w));
      if already > 0 then
        if already != |w.payload| || s.image[w.offset..End(w)] != w.payload then None
        else Some(s.(duplicateChunks := s.duplicateChunks + 1, duplicateBytes := s.duplicateBytes + |w.payload|))
      else
        Some(s.(image := s.image[..w.offset] + w.payload + s.image[End(w)..],
                covered := s.covered[..w.offset] + seq(|w.payload|, _ => true) + s.covered[End(w)..]))
  }

  function Run(n: nat, ws: seq<Write>): (r: Option<State>)
    ensures r.Some? ==> |r.value.image| == |r.value.covered| == n
  {
    if ws == [] then Some(Empty(n))
    else
      var before := Run(n, ws[..|ws| - 1]);
      if before.None? then None else Apply(before.value, ws[|ws| - 1])
  }

  function TotalLength(ws: seq<Write>): nat
  {
    if ws == [] then 0 else TotalLength(ws[..|ws| - 1]) + |ws[|ws| - 1].payload|
  }

  // ------------------------------------------------------------------------- counting

  lemma {:induction false} CountNone(c: seq<bool>, i: nat, j: nat)
    requires i <= j <= |c|
    ensures Count(c, i, j) == 0 <==> forall k :: i <= k < j ==> !c[k]
  {
    if i < j { CountNone(c, i, j - 1); }
  }

  lemma {:induction false} CountAll(c: seq<bool>, i: nat, j: nat)
    requires i <= j <= |c|
    ensures Count(c, i, j) == j - i <==> forall k :: i <= k < j ==> c[k]
  {
    if i < j { CountAll(c, i, j - 1); }
  }

  lemma {:induction false} CountSplit(c: seq<bool>, i: nat, m: nat, j: nat)
    requires i <= m <= j <= |c|
    ensures Count(c, i, j) == Count(c, i, m) + Count(c, m, j)
  {
    if m < j { CountSplit(c, i, m, j - 1); }
  }

  lemma {:induction false} CountSame(c: seq<bool>, d: seq<bool>, i: nat, j: nat)
    requires i <= j <= |c| == |d| && forall k :: i <= k < j ==> c[k] == d[k]
    ensures Count(c, i, j) == Count(d, i, j)
  {
    if i < j { CountSame(c, d, i, j - 1); }
  }

  // ------------------------------------------------------ what every accepted history means

  ghost predicate CoveredBy(ws: seq<Write>, k: nat)
  {
    exists w :: w in ws && w.offset <= k < End(w)
  }

  /** Covered plus repeated bytes make up everything written; every write agrees with the
      image; exactly the written positions are covered, and the others are still zero. */
  ghost predicate Consistent(s: State, n: nat, ws: seq<Write>)
  {
    && |s.image| == |s.covered| == n
    && Count(s.covered, 0, n) + s.duplicateBytes == TotalLength(ws)
    && (forall w :: w in ws ==> End(w) <= n && s.image[w.offset..End(w)] == w.payload)
    && (forall k :: 0 <= k < n ==> (s.covered[k] <==> CoveredBy(ws, k)))
    && (forall k :: 0 <= k < n && !s.covered[k] ==> s.image[k] == 0)
  }

  lemma CoveredSnoc(ws: seq<Write>, w: Write, k: nat)
    ensures CoveredBy(ws + [w], k) <==> CoveredBy(ws, k) || w.offset <= k < End(w)
  {
    if CoveredBy(ws, k) {
      var v :| v in ws && v.offset <= k < End(v);
      assert v in ws + [w];
    }
    if w.offset <= k < End(w) { assert w in ws + [w]; }
  }

  lemma TotalSnoc(ws: seq<Write>, w: Write)
    ensures TotalLength(ws + [w]) == TotalLength(ws) + |w.payload|
  {
    assert (ws + [w])[..|ws|] == ws;
  }

  lemma RepeatKeeps(s: State, n: nat, ws: seq<Write>, w: Write)
    requires Consistent(s, n, ws) && End(w) <= n
    requires Count(s.covered, w.offset, End(w)) == |w.payload| && s.image[w.offset..End(w)] == w.payload
    ensures Consistent(s.(duplicateChunks := s.duplicateChunks + 1,
                          duplicateBytes := s.duplicateBytes + |w.payload|), n, ws + [w])
  {
    TotalSnoc(ws, w);
    CountAll(s.covered, w.offset, End(w));
    forall k | 0 <= k < n ensures s.covered[k] <==> CoveredBy(ws + [w], k) { CoveredSnoc(ws, w, k); }
  }

  lemma Untouched(s: State, n: nat, ws: seq<Write>, w: Write, v: Write)
    requires Consistent(s, n, ws) && End(w) <= n && v in ws
    requires forall k :: w.offset <= k < End(w) ==> !s.covered[k]
    ensures End(v) <= w.offset || End(w) <= v.offset || v.payload == [] || w.payload == []
  {
    if v.offset < End(w) && w.offset < End(v) && v.payload != [] && w.payload != [] {
      var k := if v.offset <= w.offset then w.offset else v.offset;
      assert CoveredBy(ws, k);
    }
  }

  lemma SplicedSlice(image: Bytes, w: Write, v: Write)
    requires End(w) <= |image| && End(v) <= |image|
    requires End(v) <= w.offset || End(w) <= v.offset || v.payload == [] || w.payload == []
    ensures var next := image[..w.offset] + w.payload + image[End(w)..];
      next[v.offset..End(v)] == image[v.offset..End(v)]
  {
  }

  lemma FreshKeeps(s: State, n: nat, ws: seq<Write>, w: Write)
    requires Consistent(s, n, ws) && End(w) <= n && Count(s.covered, w.offset, End(w)) == 0
    ensures Consistent(s.(image := s.image[..w.offset] + w.payload + s.image[End(w)..],
                          covered := s.covered[..w.offset] + seq(|w.payload|, _ => true) + s.covered[End(w)..]),
                       n, ws + [w])
  {
    hide Count, CoveredBy, TotalLength;
    var image := s.image[..w.offset] + w.payload + s.image[End(w)..];
    var covered := s.covered[..w.offset] + seq(|w.payload|, _ => true) + s.covered[End(w)..];
    CountNone(s.covered, w.offset, End(w));
    TotalSnoc(ws, w);
    CountAdded(s.covered, covered, n, w);
    forall v | v in ws + [w] ensures End(v) <= n && image[v.offset..End(v)] == v.payload {
      if v in ws {
        Untouched(s, n, ws, w, v);
        SplicedSlice(s.image, w, v);
      }
    }
    forall k | 0 <= k < n ensures covered[k] <==> CoveredBy(ws + [w], k) { CoveredSnoc(ws, w, k); }
  }

  lemma CountAdded(c: seq<bool>, d: seq<bool>, n: nat, w: Write)
    requires |c| == |d| == n && End(w) <= n && Count(c, w.offset, End(w)) == 0
    requires d == c[..w.offset] + seq(|w.payload|, _ => true) + c[End(w)..]
    ensures Count(d, 0, n) == Count(c, 0, n) + |w.payload|
  {
    hide Count;
    CountSplit(c, 0, w.offset, n);
    CountSplit(c, w.offset, End(w), n);
    CountSplit(d, 0, w.offset, n);
    CountSplit(d, w.offset, End(w), n);
    CountSame(c, d, 0, w.offset);
    CountSame(c, d, End(w), n);
    CountAll(d, w.offset, End(w));
  }

  /** Every accepted history is consistent. */
  lemma {:induction false} AcceptedConsistent(n: nat, ws: seq<Write>)
    requires Run(n, ws).Some?
    ensures Consistent(Run(n, ws).value, n, ws)
  {
    hide Consistent, Count;
    if ws == [] {
      EmptyConsistent(n);
    } else {
      var before, w := ws[..|ws| - 1], ws[|ws| - 1];
      AcceptedConsistent(n, before);
      assert ws == before + [w];
      var s := Run(n, before).value;
      if Count(s.covered, w.offset, End(w)) > 0 { RepeatKeeps(s, n, before, w); } else { FreshKeeps(s, n, before, w); }
    }
  }

  lemma EmptyConsistent(n: nat)
    ensures Consistent(Empty(n), n, [])
  {
    CountNone(Empty(n).covered, 0, n);
  }

  // ----------------------------------------------------------- exactly what is accepted

  /** No byte of the range was written before. */
  ghost predicate Untried(before: seq<Write>, w: Write)
  {
    forall k: nat :: w.offset <= k < End(w) ==> !CoveredBy(before, k)
  }

  ghost predicate WroteByte(before: seq<Write>, k: nat, b: Octet)
  {
    exists v :: v in before && v.offset <= k < End(v) && v.payload[k - v.offset] == b
  }

  /** Every byte of the range was written before, with the same value. */
  ghost predicate Rewrites(before: seq<Write>, w: Write)
  {
    forall i :: 0 <= i < |w.payload| ==> WroteByte(before, w.offset + i, w.payload[i])
  }

  ghost predicate Acceptable(n: nat, before: seq<Write>, w: Write)
  {
    End(w) <= n && (Untried(before, w) || Rewrites(before, w))
  }

  lemma WrittenByte(s: State, n: nat, ws: seq<Write>, k: nat, b: Octet)
    requires Consistent(s, n, ws) && k < n
    ensures WroteByte(ws, k, b) <==> s.covered[k] && s.image[k] == b
  {
    hide Count, TotalLength;
    forall v | v in ws && v.offset <= k < End(v) ensures s.image[k] == v.payload[k - v.offset] {
      assert s.image[v.offset..End(v)][k - v.offset] == s.image[k];
    }
  }

  lemma RewritesExactly(s: State, n: nat, ws: seq<Write>, w: Write)
    requires Consistent(s, n, ws) && End(w) <= n
    ensures Rewrites(ws, w)
       <==> Count(s.covered, w.offset, End(w)) == |w.payload| && s.image[w.offset..End(w)] == w.payload
  {
    hide Consistent, Count, WroteByte;
    Conserved(s, n, ws);
    CountAll(s.covered, w.offset, End(w));
    var slice := s.image[w.offset..End(w)];
    forall i | 0 <= i < |w.payload|
      ensures WroteByte(ws, w.offset + i, w.payload[i]) <==> s.covered[w.offset + i] && slice[i] == w.payload[i]
    {
      WrittenByte(s, n, ws, w.offset + i, w.payload[i]);
    }
    if Rewrites(ws, w) {
      forall k | w.offset <= k < End(w) ensures s.covered[k] {
        assert WroteByte(ws, w.offset + (k - w.offset), w.payload[k - w.offset]);
      }
    }
  }

  lemma UntriedExactly(s: State, n: nat, ws: seq<Write>, w: Write)
    requires Consistent(s, n, ws) && End(w) <= n
    ensures Untried(ws, w) <==> Count(s.covered, w.offset, End(w)) == 0
  {
    hide CoveredBy, Count, TotalLength;
    CountNone(s.covered, w.offset, End(w));
  }

  lemma ApplyExactly(s: State, n: nat, ws: seq<Write>, w: Write)
    requires Consistent(s, n, ws)
    ensures |s.image| == |s.covered| == n
    ensures var r := Apply(s, w);
      && (r.Some? <==> Acceptable(n, ws, w))
      && (r.Some? ==> r.value.duplicateChunks == s.duplicateChunks + if Untried(ws, w) then 0 else 1)
  {
    hide Consistent, Count, Untried, Rewrites;
    Conserved(s, n, ws);
    if End(w) <= n {
      UntriedExactly(s, n, ws, w);
      RewritesExactly(s, n, ws, w);
    }
  }

  /** How many writes go over bytes written before. */
  ghost function Surplus(ws: seq<Write>): nat
  {
    if ws == [] then 0
    else
      var before := ws[..|ws| - 1];
      Surplus(before) + if Untried(before, ws[|ws| - 1]) then 0 else 1
  }

  /** A history is accepted exactly when every write stays in bounds and either touches nothing written
      before it or repeats, byte for byte, what was; the latter are what is counted as duplicates. */
  lemma {:induction false} AcceptedExactly(n: nat, ws: seq<Write>)
    ensures Run(n, ws).Some? <==> forall j :: 0 <= j < |ws| ==> Acceptable(n, ws[..j], ws[j])
    ensures Run(n, ws).Some? ==> Run(n, ws).value.duplicateChunks == Surplus(ws)
  {
    hide Apply, Acceptable, Untried, Consistent;
    if ws != [] {
      var m := |ws| - 1;
      var before, w := ws[..m], ws[m];
      AcceptedExactly(n, before);
      assert forall j :: 0 <= j < m ==> before[..j] == ws[..j] && before[j] == ws[j];
      if Run(n, before).Some? {
        AcceptedConsistent(n, before);
        ApplyExactly(Run(n, before).value, n, before, w);
      }
    }
  }

  // ------------------------------------------------------ any order, with any exact retries

  lemma {:induction false} TilesApart(plan: seq<Write>, image: Bytes, i: nat, j: nat)
    requires Tiling(plan, image) && i < j < |plan|
    ensures End(plan[i]) <= plan[j].offset
    decreases j
  {
    if i < j - 1 { TilesApart(plan, image, i, j - 1); }
  }

  lemma TilesDisjoint(plan: seq<Write>, image: Bytes, v: Write, w: Write)
    requires Tiling(plan, image) && v in plan && w in plan && v != w
    ensures End(v) <= w.offset || End(w) <= v.offset
  {
    var i :| 0 <= i < |plan| && plan[i] == v;
    var j :| 0 <= j < |plan| && plan[j] == w;
    if i < j { TilesApart(plan, image, i, j); } else { TilesApart(plan, image, j, i); }
  }

  lemma {:induction false} TilesReach(plan: seq<Write>, image: Bytes, k: nat, j: nat)
    requires Tiling(plan, image) && j < |plan| && k < End(plan[j])
    ensures CoveredBy(plan, k)
  {
    if plan[j].offset <= k {
      assert plan[j] in plan;
    } else {
      TilesReach(plan, image, k, j - 1);
    }
  }

  lemma TileOf(plan: seq<Write>, image: Bytes, w: Write)
    requires Tiling(plan, image) && w in plan
    ensures w.payload != [] && End(w) <= |image| && w.payload == image[w.offset..End(w)]
  {
  }

  ghost function Distinct(ws: seq<Write>): set<Write> { set w | w in ws }

  lemma DistinctSnoc(ws: seq<Write>, w: Write)
    ensures Distinct(ws + [w]) == Distinct(ws) + {w}
    ensures |Distinct(ws + [w])| == |Distinct(ws)| + if w in ws then 0 else 1
  {
    assert Distinct(ws + [w]) == Distinct(ws) + {w};
  }

  /** A history drawn from a plan is accepted, and its repeats are counted exactly. */
  lemma {:induction false} DrawnAccepted(plan: seq<Write>, image: Bytes, ws: seq<Write>)
    requires Tiling(plan, image) && forall w :: w in ws ==> w in plan
    ensures Run(|image|, ws).Some?
    ensures Run(|image|, ws).value.duplicateChunks + |Distinct(ws)| == |ws|
  {
    hide Tiling, Consistent, Distinct, Count;
    if ws == [] {
      NoDistinct();
    } else {
      var before, w := ws[..|ws| - 1], ws[|ws| - 1];
      assert ws == before + [w];
      DrawnAccepted(plan, image, before);
      AcceptedConsistent(|image|, before);
      DistinctSnoc(before, w);
      var s := Run(|image|, before).value;
      TileOf(plan, image, w);
      if w in before { SeenTile(s, |image|, before, w); } else { NewTile(plan, image, s, before, w); }
    }
  }

  lemma NoDistinct()
    ensures Distinct([]) == {}
  {
  }

  lemma SeenTile(s: State, n: nat, ws: seq<Write>, w: Write)
    requires Consistent(s, n, ws) && w in ws && w.payload != []
    ensures End(w) <= n && Count(s.covered, w.offset, End(w)) == |w.payload| > 0
    ensures s.image[w.offset..End(w)] == w.payload
  {
    forall k | w.offset <= k < End(w) ensures s.covered[k] { assert CoveredBy(ws, k); }
    CountAll(s.covered, w.offset, End(w));
  }

  lemma NewTile(plan: seq<Write>, image: Bytes, s: State, ws: seq<Write>, w: Write)
    requires Tiling(plan, image) && Consistent(s, |image|, ws) && w in plan && w !in ws
    requires forall v :: v in ws ==> v in plan
    ensures End(w) <= |image| && Count(s.covered, w.offset, End(w)) == 0
  {
    hide Tiling, Consistent, Count;
    TileOf(plan, image, w);
    forall v | v in ws && v.payload != [] ensures End(v) <= w.offset || End(w) <= v.offset {
      TilesDisjoint(plan, image, v, w);
    }
    NothingCovered(s, |image|, ws, w);
  }

  /** Replaying the writes of a plan in any order with any exact retries rebuilds the image;
      covered bytes are total length minus repeats, and the repeats are the surplus writes. */
  lemma AnyOrderRebuilds(plan: seq<Write>, image: Bytes, ws: seq<Write>)
    requires Tiling(plan, image)
    requires (forall w :: w in ws ==> w in plan) && (forall w :: w in plan ==> w in ws)
    ensures Run(|image|, ws).Some?
    ensures var s := Run(|image|, ws).value;
      && s.image == image
      && (forall k :: 0 <= k < |image| ==> s.covered[k])
      && TotalLength(ws) - s.duplicateBytes == |image|
      && s.duplicateChunks == |ws| - |plan|
  {
    hide TotalLength, Count, Distinct, Run, Tiling, Consistent;
    DrawnAccepted(plan, image, ws);
    AcceptedConsistent(|image|, ws);
    var s := Run(|image|, ws).value;
    forall k | 0 <= k < |image| ensures s.covered[k] && s.image[k] == image[k] { Rebuilt(plan, image, s, ws, k); }
    CountAll(s.covered, 0, |image|);
    Conserved(s, |image|, ws);
    PlanDistinct(plan, image, |plan|);
    SameDistinct(plan, ws);
  }

  lemma Rebuilt(plan: seq<Write>, image: Bytes, s: State, ws: seq<Write>, k: nat)
    requires Tiling(plan, image) && Consistent(s, |image|, ws) && k < |image|
    requires forall w :: w in plan ==> w in ws
    ensures s.covered[k] && s.image[k] == image[k]
  {
    hide TotalLength, Count;
    TilesReach(plan, image, k, |plan| - 1);
    var w :| w in plan && w.offset <= k < End(w);
    TileOf(plan, image, w);
    assert w in ws && CoveredBy(ws, k);
    assert s.image[w.offset..End(w)][k - w.offset] == image[w.offset..End(w)][k - w.offset];
  }

  lemma Conserved(s: State, n: nat, ws: seq<Write>)
    requires Consistent(s, n, ws)
    ensures |s.image| == |s.covered| == n && Count(s.covered, 0, n) + s.duplicateBytes == TotalLength(ws)
  {
  }

  lemma SameDistinct(a: seq<Write>, b: seq<Write>)
    requires (forall w :: w in a ==> w in b) && (forall w :: w in b ==> w in a)
    ensures Distinct(a) == Distinct(b) && Distinct(a[..|a|]) == Distinct(a)
  {
    assert a[..|a|] == a;
  }

  lemma {:induction false} PlanDistinct(plan: seq<Write>, image: Bytes, j: nat)
    requires Tiling(plan, image) && j <= |plan|
    ensures |Distinct(plan[..j])| == j
  {
    hide Tiling, Distinct;
    if j == 0 {
      NoDistinct();
      assert plan[..0] == [];
    } else {
      PlanDistinct(plan, image, j - 1);
      assert plan[..j] == plan[..j - 1] + [plan[j - 1]];
      DistinctSnoc(plan[..j - 1], plan[j - 1]);
      if plan[j - 1] in plan[..j - 1] {
        var i :| 0 <= i < j - 1 && plan[i] == plan[j - 1];
        TilesApart(plan, image, i, j - 1);
        TileOf(plan, image, plan[i]);
      }
    }
  }

  // ----------------------------------------------------------- when order does not matter

  /** In bounds, and any two nonempty writes are equal or disjoint. */
  ghost predicate Orderly(n: nat, ws: seq<Write>)
  {
    && (forall w :: w in ws ==> End(w) <= n)
    && (forall v, w :: v in ws && w in ws && v.payload != [] && w.payload != [] ==>
          v == w || End(v) <= w.offset || End(w) <= v.offset)
  }

  lemma NothingCovered(s: State, n: nat, ws: seq<Write>, w: Write)
    requires Consistent(s, n, ws) && End(w) <= n
    requires forall v :: v in ws && v.payload != [] ==> End(v) <= w.offset || End(w) <= v.offset
    ensures Count(s.covered, w.offset, End(w)) == 0
  {
    hide Count, TotalLength;
    forall k | w.offset <= k < End(w) ensures !s.covered[k] {
      assert !CoveredBy(ws, k);
    }
    CountNone(s.covered, w.offset, End(w));
  }

  lemma {:induction false} OrderlyAccepted(n: nat, ws: seq<Write>)
    requires Orderly(n, ws)
    ensures Run(n, ws).Some?
  {
    hide Consistent, Count;
    if ws != [] {
      var before, w := ws[..|ws| - 1], ws[|ws| - 1];
      assert ws == before + [w];
      OrderlyAccepted(n, before);
      AcceptedConsistent(n, before);
      var s := Run(n, before).value;
      assert End(w) <= n == |s.covered|;
      if w.payload == [] {
        EmptyCount(s.covered, w.offset);
      } else if w in before {
        SeenTile(s, n, before, w);
      } else {
        NothingCovered(s, n, before, w);
      }
    }
  }

  lemma EmptyCount(c: seq<bool>, i: nat)
    requires i <= |c|
    ensures Count(c, i, i) == 0
  {
  }

  lemma {:induction false} AcceptedPrefix(n: nat, ws: seq<Write>, k: nat)
    requires k <= |ws| && Run(n, ws).Some?
    ensures Run(n, ws[..k]).Some?
    decreases |ws|
  {
    hide Apply;
    if k == |ws| {
      assert ws[..k] == ws;
    } else {
      AcceptedPrefix(n, ws[..|ws| - 1], k);
      assert ws[..|ws| - 1][..k] == ws[..k];
    }
  }

  /** An accepted second write that meets the first lies inside it and agrees with it. */
  lemma SecondInside(n: nat, v: Write, w: Write)
    requires Run(n, [v, w]).Some? && v.payload != [] && w.payload != []
    requires v.offset < End(w) && w.offset < End(v)
    ensures v.offset <= w.offset && End(w) <= End(v)
    ensures v.payload[w.offset - v.offset..End(w) - v.offset] == w.payload
  {
    hide Count, TotalLength, Consistent, Apply, Run;
    RunSnoc(n, [v], w);
    assert [v] + [w] == [v, w];
    AcceptedConsistent(n, [v]);
    AcceptedConsistent(n, [v, w]);
    var s, t := Run(n, [v]).value, Run(n, [v, w]).value;
    AllInside(n, s, v, w);
    Agree(n, t, v, w);
  }

  lemma Agree(n: nat, t: State, v: Write, w: Write)
    requires Consistent(t, n, [v, w]) && v.offset <= w.offset && End(w) <= End(v)
    ensures v.payload[w.offset - v.offset..End(w) - v.offset] == w.payload
  {
    hide TotalLength, Count, CoveredBy;
    assert v in [v, w] && w in [v, w];
    Wire.SliceSlice(t.image, v.offset, End(v), w.offset - v.offset, End(w) - v.offset);
  }

  lemma AllInside(n: nat, s: State, v: Write, w: Write)
    requires Consistent(s, n, [v]) && Apply(s, w).Some? && v.payload != [] && w.payload != []
    requires v.offset < End(w) && w.offset < End(v)
    ensures v.offset <= w.offset && End(w) <= End(v)
  {
    hide TotalLength;
    var k := if v.offset <= w.offset then w.offset else v.offset;
    OnlyBy(v, k);
    CountNone(s.covered, w.offset, End(w));
    CountAll(s.covered, w.offset, End(w));
    OnlyBy(v, w.offset);
    OnlyBy(v, End(w) - 1);
  }

  lemma OnlyBy(v: Write, k: nat)
    ensures CoveredBy([v], k) <==> v.offset <= k < End(v)
  {
    assert v in [v];
  }

  /** Two different writes that meet are refused in one order or the other. */
  lemma MeetingRefused(n: nat, v: Write, w: Write)
    requires v != w && v.payload != [] && w.payload != [] && v.offset < End(w) && w.offset < End(v)
    ensures Run(n, [v, w]).None? || Run(n, [w, v]).None?
  {
    hide Run;
    if Run(n, [v, w]).Some? && Run(n, [w, v]).Some? {
      SecondInside(n, v, w);
      SecondInside(n, w, v);
      SamePlace(v, w);
    }
  }

  lemma SamePlace(v: Write, w: Write)
    requires v.offset == w.offset && End(v) == End(w) && v.payload[..|v.payload|] == w.payload
    ensures v == w
  {
    assert v.payload[..|v.payload|] == v.payload;
  }

  /** The writes at i and j moved to the front. */
  ghost function Pulled(ws: seq<Write>, i: nat, j: nat): (us: seq<Write>)
    requires i < |ws| && j < |ws| && i != j
  {
    var a, b := if i < j then i else j, if i < j then j else i;
    [ws[i], ws[j]] + (ws[..a] + ws[a + 1..b] + ws[b + 1..])
  }

  lemma InPlace(p: seq<Write>, v: Write, q: seq<Write>, w: Write, r: seq<Write>)
    ensures multiset(p + [v] + q + [w] + r) == multiset(p) + multiset(q) + multiset(r) + multiset{v, w}
  {
  }

  lemma InFront(v: Write, w: Write, p: seq<Write>, q: seq<Write>, r: seq<Write>)
    ensures multiset([v, w] + (p + q + r)) == multiset(p) + multiset(q) + multiset(r) + multiset{v, w}
  {
  }

  lemma Cut(ws: seq<Write>, a: nat, b: nat)
    requires a < b < |ws|
    ensures ws == ws[..a] + [ws[a]] + ws[a + 1..b] + [ws[b]] + ws[b + 1..]
  {
  }

  lemma Rearranged(ws: seq<Write>, us: seq<Write>, p: seq<Write>, v: Write, q: seq<Write>, w: Write, r: seq<Write>)
    requires ws == p + [v] + q + [w] + r
    requires us == [v, w] + (p + q + r) || us == [w, v] + (p + q + r)
    ensures multiset(us) == multiset(ws)
  {
    InPlace(p, v, q, w, r);
    InFront(v, w, p, q, r);
    InFront(w, v, p, q, r);
  }

  lemma PulledSame(ws: seq<Write>, i: nat, j: nat)
    requires i < |ws| && j < |ws| && i != j
    ensures multiset(Pulled(ws, i, j)) == multiset(ws)
  {
    var us := Pulled(ws, i, j);
    if i < j {
      Cut(ws, i, j);
      Rearranged(ws, us, ws[..i], ws[i], ws[i + 1..j], ws[j], ws[j + 1..]);
    } else {
      Cut(ws, j, i);
      Rearranged(ws, us, ws[..j], ws[j], ws[j + 1..i], ws[i], ws[i + 1..]);
    }
  }

  lemma PulledFirst(ws: seq<Write>, i: nat, j: nat)
    requires i < |ws| && j < |ws| && i != j
    ensures |Pulled(ws, i, j)| >= 2 && Pulled(ws, i, j)[..2] == [ws[i], ws[j]]
  {
  }

  lemma SameMembers(us: seq<Write>, ws: seq<Write>)
    requires multiset(us) == multiset(ws)
    ensures forall w :: w in us <==> w in ws
  {
    forall w ensures w in us <==> w in ws {
      assert w in us <==> w in multiset(us);
      assert w in ws <==> w in multiset(ws);
    }
  }

  ghost predicate EveryOrder(n: nat, ws: seq<Write>)
  {
    forall us: seq<Write> :: multiset(us) == multiset(ws) ==> Run(n, us).Some?
  }

  lemma OneOrder(n: nat, ws: seq<Write>, us: seq<Write>)
    requires EveryOrder(n, ws) && multiset(us) == multiset(ws)
    ensures Run(n, us).Some?
  {
    hide Run;
  }

  lemma PulledAccepted(n: nat, ws: seq<Write>, v: Write, w: Write)
    requires EveryOrder(n, ws) && v in ws && w in ws && v != w
    ensures Run(n, [v, w]).Some?
  {
    hide Run, EveryOrder, Pulled;
    var i :| 0 <= i < |ws| && ws[i] == v;
    var j :| 0 <= j < |ws| && ws[j] == w;
    PulledSame(ws, i, j);
    PulledFirst(ws, i, j);
    OneOrder(n, ws, Pulled(ws, i, j));
    AcceptedPrefix(n, Pulled(ws, i, j), 2);
  }

  /** Every order of a history is accepted exactly when any two nonempty writes are equal or
      disjoint and all are in bounds. */
  lemma EveryOrderAccepted(n: nat, ws: seq<Write>)
    ensures EveryOrder(n, ws) <==> Orderly(n, ws)
  {
    hide Run, Consistent;
    if Orderly(n, ws) {
      forall us: seq<Write> | multiset(us) == multiset(ws) ensures Run(n, us).Some? {
        SameMembers(us, ws);
        OrderlyAccepted(n, us);
      }
    }
    if EveryOrder(n, ws) { OrdersOrderly(n, ws); }
  }

  lemma OrdersOrderly(n: nat, ws: seq<Write>)
    requires EveryOrder(n, ws)
    ensures Orderly(n, ws)
  {
    hide Run, Consistent, EveryOrder;
    OneOrder(n, ws, ws);
    AcceptedConsistent(n, ws);
    InBounds(Run(n, ws).value, n, ws);
    forall v, w | v in ws && w in ws && v.payload != [] && w.payload != []
      ensures v == w || End(v) <= w.offset || End(w) <= v.offset
    {
      if v != w && v.offset < End(w) && w.offset < End(v) {
        PulledAccepted(n, ws, v, w);
        PulledAccepted(n, ws, w, v);
        MeetingRefused(n, v, w);
      }
    }
  }

  lemma InBounds(s: State, n: nat, ws: seq<Write>)
    requires Consistent(s, n, ws)
    ensures forall w :: w in ws ==> End(w) <= n
  {
  }

  lemma FirstWrite(n: nat, w: Write)
    requires End(w) <= n
    ensures Run(n, [w]).Some?
    ensures var s := Run(n, [w]).value; forall k :: 0 <= k < n ==> (s.covered[k] <==> w.offset <= k < End(w))
    ensures Run(n, [w]).value.image[w.offset..End(w)] == w.payload
  {
    hide Run, Consistent;
    assert Orderly(n, [w]);
    OrderlyAccepted(n, [w]);
    AcceptedConsistent(n, [w]);
    FirstState(n, Run(n, [w]).value, w);
  }

  lemma FirstState(n: nat, s: State, w: Write)
    requires Consistent(s, n, [w])
    ensures End(w) <= n && s.image[w.offset..End(w)] == w.payload
    ensures forall k :: 0 <= k < n ==> (s.covered[k] <==> w.offset <= k < End(w))
  {
    hide Count, TotalLength;
    assert w in [w];
    forall k | 0 <= k < n ensures s.covered[k] <==> w.offset <= k < End(w) { OnlyBy(w, k); }
  }

  /** A write inside an earlier one that agrees with it is accepted. */
  lemma InsideAccepted(n: nat, v: Write, w: Write)
    requires End(v) <= n && v.offset <= w.offset && End(w) <= End(v) && w.payload != []
    requires v.payload[w.offset - v.offset..End(w) - v.offset] == w.payload
    ensures Run(n, [v, w]).Some?
  {
    hide Run, Count;
    FirstWrite(n, v);
    var s := Run(n, [v]).value;
    CountAll(s.covered, w.offset, End(w));
    Wire.SliceSlice(s.image, v.offset, End(v), w.offset - v.offset, End(w) - v.offset);
    RunSnoc(n, [v], w);
    assert [v] + [w] == [v, w];
  }

  /** Otherwise order matters: the larger write first is accepted, the smaller first is not. */
  lemma OrderMatters()
    ensures Run(4, [Write(0, [1, 2, 3, 4]), Write(1, [2, 3])]).Some?
    ensures Run(4, [Write(1, [2, 3]), Write(0, [1, 2, 3, 4])]).None?
  {
    hide Run;
    var large, small := Write(0, [1, 2, 3, 4]), Write(1, [2, 3]);
    assert large.payload[1..3] == small.payload;
    InsideAccepted(4, large, small);
    if Run(4, [small, large]).Some? { SecondInside(4, small, large); }
  }

  /** Whenever two orders of the same writes are both accepted, they rebuild the same image. */
  lemma SameWritesSameImage(n: nat, us: seq<Write>, ws: seq<Write>)
    requires Run(n, us).Some? && Run(n, ws).Some? && forall w :: w in us <==> w in ws
    ensures Run(n, us).value.image == Run(n, ws).value.image && Run(n, us).value.covered == Run(n, ws).value.covered
  {
    hide Run, TotalLength, Count;
    AcceptedConsistent(n, us);
    AcceptedConsistent(n, ws);
    var s, t := Run(n, us).value, Run(n, ws).value;
    forall k | 0 <= k < n ensures s.covered[k] == t.covered[k] && s.image[k] == t.image[k] {
      SameCover(us, ws, k);
      if CoveredBy(us, k) {
        var w :| w in us && w.offset <= k < End(w);
        assert w in ws;
        assert s.image[w.offset..End(w)][k - w.offset] == t.image[w.offset..End(w)][k - w.offset];
      }
    }
  }

  lemma SameCover(us: seq<Write>, ws: seq<Write>, k: nat)
    requires forall w :: w in us <==> w in ws
    ensures CoveredBy(us, k) <==> CoveredBy(ws, k)
  {
  }

  // ------------------------------------------------------------------------ the program

  /** The decoded writes, when every instruction decodes. */
  function DecodeAll(datas: seq<Bytes>): (r: Option<seq<Write>>)
    ensures r.Some? ==> |r.value| == |datas|
  {
    if datas == [] then Some([])
    else
      var before, last := DecodeAll(datas[..|datas| - 1]), DecodeWrite(datas[|datas| - 1]);
      if before.None? || last.None? then None else Some(before.value + [last.value])
  }

  datatype Verdict = Refused | Repeated | Written

  /** One write on the two buffers. */
  method ApplyInPlace(image: array<Octet>, covered: array<bool>, w: Write, ghost s: State) returns (verdict: Verdict)
    requires image.Length == covered.Length && s.image == image[..] && s.covered == covered[..]
    modifies image, covered
    ensures verdict.Refused? <==> Apply(s, w).None?
    ensures verdict.Repeated? ==>
      Apply(s, w) == Some(State(image[..], covered[..], s.duplicateChunks + 1, s.duplicateBytes + |w.payload|))
    ensures verdict.Written? ==> Apply(s, w) == Some(State(image[..], covered[..], s.duplicateChunks, s.duplicateBytes))
  {
    hide Count;
    if End(w) > image.Length { return Refused; }
    var already := CountLoop(covered, w.offset, End(w));
    if already > 0 {
      if already != |w.payload| || image[w.offset..End(w)] != w.payload { return Refused; }
      return Repeated;
    }
    CopyInto(image, covered, w);
    return Written;
  }

  method CopyInto(image: array<Octet>, covered: array<bool>, w: Write)
    requires image.Length == covered.Length && End(w) <= image.Length
    modifies image, covered
    ensures image[..] == old(image[..w.offset]) + w.payload + old(image[End(w)..])
    ensures covered[..] == old(covered[..w.offset]) + seq(|w.payload|, _ => true) + old(covered[End(w)..])
  {
    ghost var b, c := image[..], covered[..];
    for k := 0 to |w.payload|
      invariant forall j :: 0 <= j < image.Length ==>
        image[j] == if w.offset <= j < w.offset + k then w.payload[j - w.offset] else b[j]
      invariant forall j :: 0 <= j < image.Length ==> covered[j] == (w.offset <= j < w.offset + k || c[j])
    {
      image[w.offset + k] := w.payload[k];
      covered[w.offset + k] := true;
    }
    assert image[..] == b[..w.offset] + w.payload + b[End(w)..];
    assert covered[..] == c[..w.offset] + seq(|w.payload|, _ => true) + c[End(w)..];
  }

  method CountLoop(c: array<bool>, i: nat, j: nat) returns (k: nat)
    requires i <= j <= c.Length
    ensures k == Count(c[..], i, j)
  {
    k := 0;
    for t := i to j
      invariant k == Count(c[..], i, t)
    {
      if c[t] { k := k + 1; }
    }
  }

  /** The replay loop: None where the original fails. */
  method ReplayWrites(n: nat, datas: seq<Bytes>) returns (final: Option<State>, total: nat)
    ensures var ws := DecodeAll(datas);
      final == (if ws.None? then None else Run(n, ws.value))
    ensures final.Some? ==> total == TotalLength(DecodeAll(datas).value)
  {
    hide Apply, DecodeWrite, Count, Run, DecodeAll, TotalLength;
    var image := new Octet[n](_ => 0);
    var covered := new bool[n](_ => false);
    var duplicateChunks: nat, duplicateBytes: nat := 0, 0;
    total := 0;
    ghost var ws: seq<Write> := [];
    NothingYet(n, datas);
    assert image[..] == Empty(n).image && covered[..] == Empty(n).covered;
    for i := 0 to |datas|
      invariant DecodeAll(datas[..i]) == Some(ws) && total == TotalLength(ws)
      invariant fresh(image) && fresh(covered) && image.Length == covered.Length == n
      invariant Run(n, ws) == Some(State(image[..], covered[..], duplicateChunks, duplicateBytes))
    {
      var decoded := DecodeWrite(datas[i]);
      DecodeNext(datas, i);
      if decoded.None? {
        DecodeBroken(datas, i + 1);
        return None, 0;
      }
      var w := decoded.value;
      ghost var s := State(image[..], covered[..], duplicateChunks, duplicateBytes);
      RunSnoc(n, ws, w);
      TotalSnoc(ws, w);
      var verdict := ApplyInPlace(image, covered, w, s);
      ws := ws + [w];
      if verdict.Refused? {
        RunBroken(n, datas, i + 1);
        return None, 0;
      }
      if verdict.Repeated? {
        duplicateChunks, duplicateBytes := duplicateChunks + 1, duplicateBytes + |w.payload|;
      }
      total := total + |w.payload|;
    }
    assert datas[..|datas|] == datas;
    final := Some(State(image[..], covered[..], duplicateChunks, duplicateBytes));
  }

  lemma NothingYet(n: nat, datas: seq<Bytes>)
    ensures Run(n, []) == Some(Empty(n)) && TotalLength([]) == 0 && DecodeAll(datas[..0]) == Some([])
  {
  }

  lemma DecodeNext(datas: seq<Bytes>, i: nat)
    requires i < |datas|
    ensures var before, last := DecodeAll(datas[..i]), DecodeWrite(datas[i]);
      DecodeAll(datas[..i + 1]) == if before.None? || last.None? then None else Some(before.value + [last.value])
  {
    hide DecodeWrite;
    assert datas[..i + 1][..i] == datas[..i];
  }

  lemma RunSnoc(n: nat, ws: seq<Write>, w: Write)
    ensures Run(n, ws + [w]) == if Run(n, ws).None? then None else Apply(Run(n, ws).value, w)
  {
    hide Apply;
    assert (ws + [w])[..|ws|] == ws;
  }

  lemma {:induction false} DecodeBroken(datas: seq<Bytes>, i: nat)
    requires i <= |datas| && DecodeAll(datas[..i]).None?
    ensures DecodeAll(datas).None?
    decreases |datas| - i
  {
    hide DecodeWrite;
    if i == |datas| {
      assert datas[..i] == datas;
    } else {
      assert datas[..i + 1][..i] == datas[..i];
      DecodeBroken(datas, i + 1);
    }
  }

  lemma {:induction false} RunBroken(n: nat, datas: seq<Bytes>, i: nat)
    requires i <= |datas| && DecodeAll(datas[..i]).Some? && Run(n, DecodeAll(datas[..i]).value).None?
    ensures DecodeAll(datas).Some? ==> Run(n, DecodeAll(datas).value).None?
    decreases |datas| - i
  {
    hide DecodeWrite, Apply;
    if i == |datas| {
      assert datas[..i] == datas;
    } else {
      var next := datas[..i + 1];
      assert next[..i] == datas[..i];
      if DecodeAll(next).None? {
        DecodeBroken(datas, i + 1);
      } else {
        RunSnoc(n, DecodeAll(datas[..i]).value, DecodeWrite(datas[i]).value);
        RunBroken(n, datas, i + 1);
      }
    }
  }

  /** The acceptance test at the end of the replay: no gaps, covered bytes are total length
      minus repeats, the expected number of repeats, and the image itself. */
  ghost predicate Accepts(sbf: Bytes, datas: seq<Bytes>, repeats: int)
  {
    && DecodeAll(datas).Some?
    && var ws := DecodeAll(datas).value; var final := Run(|sbf|, ws);
       && final.Some? && (forall k :: 0 <= k < |sbf| ==> final.value.covered[k])
       && TotalLength(ws) - final.value.duplicateBytes == |sbf|
       && final.value.duplicateChunks == repeats && final.value.image == sbf
  }

  method Reconstructs(sbf: Bytes, datas: seq<Bytes>, repeats: nat) returns (ok: bool)
    ensures ok <==> Accepts(sbf, datas, repeats)
  {
    hide Run, DecodeAll, TotalLength;
    var final, total := ReplayWrites(|sbf|, datas);
    if final.None? { return false; }
    var s := final.value;
    ok := (forall k :: 0 <= k < |sbf| ==> s.covered[k]) && total - s.duplicateBytes == |sbf|
      && s.duplicateChunks == repeats && s.image == sbf;
  }

  /** What acceptance means for the history: every write is a slice of the image, and every
      byte of the image was written. */
  lemma AcceptedWritesAgree(sbf: Bytes, datas: seq<Bytes>, repeats: nat)
    requires Accepts(sbf, datas, repeats)
    ensures var ws := DecodeAll(datas).value;
      && (forall w :: w in ws ==> End(w) <= |sbf| && w.payload == sbf[w.offset..End(w)])
      && (forall k :: 0 <= k < |sbf| ==> CoveredBy(ws, k))
  {
    hide Run, DecodeAll, TotalLength;
    AcceptedConsistent(|sbf|, DecodeAll(datas).value);
  }

  /** Every byte of the range was written before. */
  ghost predicate Tried(before: seq<Write>, w: Write)
  {
    forall k: nat :: w.offset <= k < End(w) ==> CoveredBy(before, k)
  }

  ghost predicate Slices(sbf: Bytes, ws: seq<Write>)
  {
    forall w :: w in ws ==> End(w) <= |sbf| && w.payload == sbf[w.offset..End(w)]
  }

  /** Each write goes over bytes all new or all written before it. */
  ghost predicate Whole(ws: seq<Write>)
  {
    forall j :: 0 <= j < |ws| ==> Untried(ws[..j], ws[j]) || Tried(ws[..j], ws[j])
  }

  lemma SliceByte(sbf: Bytes, ws: seq<Write>, k: nat)
    requires Slices(sbf, ws) && CoveredBy(ws, k)
    ensures k < |sbf| && WroteByte(ws, k, sbf[k])
  {
    var v :| v in ws && v.offset <= k < End(v);
    assert v.payload[k - v.offset] == sbf[k];
  }

  /** Slices of one image rewrite each other as soon as they overlap. */
  lemma SlicesRewrite(sbf: Bytes, before: seq<Write>, w: Write)
    requires Slices(sbf, before) && End(w) <= |sbf| && w.payload == sbf[w.offset..End(w)]
    ensures Rewrites(before, w) <==> Tried(before, w)
  {
    hide Slices;
    if Tried(before, w) {
      forall i | 0 <= i < |w.payload| ensures WroteByte(before, w.offset + i, w.payload[i]) {
        assert CoveredBy(before, w.offset + i);
        SliceByte(sbf, before, w.offset + i);
      }
    }
    if Rewrites(before, w) {
      forall k: nat | w.offset <= k < End(w) ensures CoveredBy(before, k) {
        assert WroteByte(before, w.offset + (k - w.offset), w.payload[k - w.offset]);
      }
    }
  }

  lemma SlicesAcceptable(sbf: Bytes, ws: seq<Write>)
    requires Slices(sbf, ws)
    ensures Whole(ws) <==> forall j :: 0 <= j < |ws| ==> Acceptable(|sbf|, ws[..j], ws[j])
  {
    hide Untried, Rewrites, Tried;
    forall j | 0 <= j < |ws| ensures Rewrites(ws[..j], ws[j]) <==> Tried(ws[..j], ws[j]) {
      SlicesRewrite(sbf, ws[..j], ws[j]);
    }
  }

  lemma SlicesRebuild(s: State, sbf: Bytes, ws: seq<Write>)
    requires Consistent(s, |sbf|, ws) && Slices(sbf, ws) && forall k :: 0 <= k < |sbf| ==> CoveredBy(ws, k)
    ensures (forall k :: 0 <= k < |sbf| ==> s.covered[k]) && s.image == sbf
    ensures TotalLength(ws) - s.duplicateBytes == |sbf|
  {
    hide Consistent, Slices, CoveredBy, Count, TotalLength;
    Conserved(s, |sbf|, ws);
    forall k | 0 <= k < |sbf| ensures s.covered[k] && s.image[k] == sbf[k] {
      SliceByte(sbf, ws, k);
      WrittenByte(s, |sbf|, ws, k, sbf[k]);
    }
    CountAll(s.covered, 0, |sbf|);
  }

  /** The acceptance test passes exactly when the data decode to slices of the image that cover it, each
      over bytes all new or all written before, with the expected number of repeats. */
  lemma AcceptsExactly(sbf: Bytes, datas: seq<Bytes>, repeats: nat)
    ensures Accepts(sbf, datas, repeats) <==>
      && DecodeAll(datas).Some?
      && var ws := DecodeAll(datas).value;
        && Slices(sbf, ws) && (forall k :: 0 <= k < |sbf| ==> CoveredBy(ws, k))
        && Whole(ws) && Surplus(ws) == repeats
  {
    hide Run, DecodeAll, TotalLength, CoveredBy, Consistent, Whole, Surplus, Acceptable;
    if DecodeAll(datas).Some? {
      var ws := DecodeAll(datas).value;
      AcceptedExactly(|sbf|, ws);
      if Accepts(sbf, datas, repeats) { AcceptedWritesAgree(sbf, datas, repeats); }
      if Slices(sbf, ws) { SlicesAcceptable(sbf, ws); }
      if Run(|sbf|, ws).Some? && Slices(sbf, ws) && forall k :: 0 <= k < |sbf| ==> CoveredBy(ws, k) {
        AcceptedConsistent(|sbf|, ws);
        SlicesRebuild(Run(|sbf|, ws).value, sbf, ws);
      }
    }
  }

  function Encoded(ws: seq<Write>): (r: seq<Bytes>)
    ensures |r| == |ws|
  {
    seq(|ws|, i requires 0 <= i < |ws| => WriteData(ws[i]))
  }

  lemma {:induction false} DecodeEncoded(ws: seq<Write>)
    requires forall w :: w in ws ==> w.offset < Pow256(4) && |w.payload| < Pow256(8)
    ensures DecodeAll(Encoded(ws)) == Some(ws)
  {
    hide DecodeWrite, WriteData, Pow256;
    if ws == [] {
      assert Encoded(ws) == [];
    } else {
      var before, w := ws[..|ws| - 1], ws[|ws| - 1];
      DecodeEncoded(before);
      DecodeWriteData(w);
      assert Encoded(ws)[..|ws| - 1] == Encoded(before);
      assert ws == before + [w];
    }
  }

  /** End to end: the write instructions of a plan, landed in any order with any exact retries,
      are accepted with the surplus writes as the repeat count. */
  lemma AnyOrderAccepted(plan: seq<Write>, sbf: Bytes, history: seq<Write>)
    requires Tiling(plan, sbf) && |sbf| <= MAX_OFFSET
    requires (forall w :: w in history ==> w in plan) && (forall w :: w in plan ==> w in history)
    ensures Accepts(sbf, Encoded(history), |history| - |plan|)
  {
    hide Run, DecodeAll, TotalLength, Encoded, Tiling;
    TilingEnds(plan, sbf);
    Bounded(plan, history);
    DecodeEncoded(history);
    AnyOrderRebuilds(plan, sbf, history);
  }

  lemma Bounded(plan: seq<Write>, history: seq<Write>)
    requires (forall w :: w in history ==> w in plan) && forall w :: w in plan ==> End(w) <= MAX_OFFSET
    ensures forall w :: w in history ==> w.offset < Pow256(4) && |w.payload| < Pow256(8)
  {
    assert Pow256(4) == 0x1_0000_0000;
    assert Pow256(8) == Pow256(4) * 0x1_0000_0000;
  }
}

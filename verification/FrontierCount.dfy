/** The frontier coefficient recurrence counts query schedules: an entry times 2^f is
    the number of k-subsets of the 2^d leaves whose multiproof frontier has size f. */
module FrontierCount {
  import opened Bits
  import opened Nonlinear
  import opened FiniteSets
  import opened MerkleFrontier

  // ------------------------------------------------------------------ the recurrence

  /** The dense table entry for depth d, k selected leaves, frontier f. */
  function Coeff(d: nat, k: nat, f: nat): nat
    decreases d, 0, 0
  {
    if d == 0 then if k == 1 && f == 0 then 1 else 0
    else (if f > 0 then Coeff(d - 1, k, f - 1) else 0) + SplitSum(d - 1, k, f, k)
  }

  /** Sum over left sizes 1 <= a < l of the convolutions. */
  function SplitSum(d: nat, k: nat, f: nat, l: nat): nat
    requires l <= k
    decreases d, 2, l
  {
    if l <= 1 then 0 else SplitSum(d, k, f, l - 1) + Conv(d, l - 1, k - (l - 1), f, f + 1)
  }

  /** Sum over left frontiers below t of the products with the matching right one. */
  function Conv(d: nat, a: nat, b: nat, f: nat, t: nat): nat
    requires t <= f + 1
    decreases d, 1, t
  {
    if t == 0 then 0 else Conv(d, a, b, f, t - 1) + Coeff(d, a, t - 1) * Coeff(d, b, f - (t - 1))
  }

  // --------------------------------------------------------------- counting schedules

  ghost predicate IsSchedule(d: nat, k: nat, f: nat, s: set<nat>)
  {
    s <= Leaves(d) && |s| == k && Frontier(d, s) == f
  }

  ghost function Schedules(d: nat, k: nat, f: nat): set<set<nat>>
  {
    set s: set<nat> | s <= Leaves(d) && IsSchedule(d, k, f, s)
  }

  /** Schedules whose left half has size l and frontier g. */
  ghost function Class(d: nat, k: nat, f: nat, l: nat, g: nat): set<set<nat>>
  {
    set s | s in Schedules(d + 1, k, f) && |Left(d, s)| == l && Frontier(d, Left(d, s)) == g
  }

  lemma EmptyFrontier(d: nat)
    ensures Frontier(d, {}) == 0
  {
    hide Pow2;
    forall n | n in FrontierNodes(d, {}) ensures false { InFrontier(d, {}, n); }
    assert FrontierNodes(d, {}) == {};
  }

  lemma EmptySize(s: set<nat>)
    ensures |s| == 0 <==> s == {}
  {
  }

  /** Both halves nonempty: the class is a product. */
  lemma ClassProduct(d: nat, k: nat, f: nat, l: nat, g: nat)
    requires 1 <= l < k && g <= f
    ensures |Class(d, k, f, l, g)| == |Schedules(d, l, g)| * |Schedules(d, k - l, f - g)|
  {
    hide Frontier, Left, Right, Join, Leaves;
    var a, b, c := Schedules(d, l, g), Schedules(d, k - l, f - g), Class(d, k, f, l, g);
    forall x, y | x in a && y in b
      ensures Join(d, x, y) in c && Left(d, Join(d, x, y)) == x && Right(d, Join(d, x, y)) == y
    {
      SplitJoin(d, x, y);
      FrontierSplit(d, Join(d, x, y));
      EmptySize(x);
      EmptySize(y);
    }
    forall s | s in c
      ensures Left(d, s) in a && Right(d, s) in b && Join(d, Left(d, s), Right(d, s)) == s
    {
      JoinSplit(d, s);
      FrontierSplit(d, s);
      EmptySize(Left(d, s));
      EmptySize(Right(d, s));
    }
    ProductSize(a, b, c, (x, y) => Join(d, x, y), s => Left(d, s), s => Right(d, s));
  }

  ghost function ByLeft(d: nat, k: nat, f: nat, l: nat): set<set<nat>>
  {
    set s | s in Schedules(d + 1, k, f) && |Left(d, s)| == l
  }

  ghost function OneSideCount(d: nat, k: nat, f: nat): nat
  {
    if f > 0 then |Schedules(d, k, f - 1)| else 0
  }

  lemma LeftOnly(d: nat, k: nat, f: nat)
    requires k >= 1
    ensures |ByLeft(d, k, f, k)| == OneSideCount(d, k, f)
  {
    hide Frontier, Left, Right, Join, Leaves;
    var c := ByLeft(d, k, f, k);
    var a := if f > 0 then Schedules(d, k, f - 1) else {};
    EmptyFrontier(d);
    EmptyLeaves(d);
    forall x | x in a ensures Join(d, x, {}) in c && Left(d, Join(d, x, {})) == x {
      SplitJoin(d, x, {});
      FrontierSplit(d, Join(d, x, {}));
      EmptySize(x);
    }
    forall s | s in c ensures f > 0 && Left(d, s) in a && Join(d, Left(d, s), {}) == s {
      JoinSplit(d, s);
      FrontierSplit(d, s);
      EmptySize(Right(d, s));
      EmptySize(Left(d, s));
    }
    BijectionSize(a, c, x => Join(d, x, {}), s => Left(d, s));
  }

  lemma EmptyLeaves(d: nat)
    ensures {} <= Leaves(d)
  {
  }

  lemma RightOnly(d: nat, k: nat, f: nat)
    requires k >= 1
    ensures |ByLeft(d, k, f, 0)| == OneSideCount(d, k, f)
  {
    hide Frontier, Left, Right, Join, Leaves;
    var c := ByLeft(d, k, f, 0);
    var b := if f > 0 then Schedules(d, k, f - 1) else {};
    EmptyFrontier(d);
    EmptyLeaves(d);
    forall x | x in b ensures Join(d, {}, x) in c && Right(d, Join(d, {}, x)) == x {
      SplitJoin(d, {}, x);
      FrontierSplit(d, Join(d, {}, x));
      EmptySize(x);
    }
    forall s | s in c ensures f > 0 && Right(d, s) in b && Join(d, {}, Right(d, s)) == s {
      JoinSplit(d, s);
      FrontierSplit(d, s);
      EmptySize(Left(d, s));
      EmptySize(Right(d, s));
    }
    BijectionSize(b, c, x => Join(d, {}, x), s => Right(d, s));
  }

  /** The induction hypothesis at depth d. */
  ghost predicate Counted(d: nat)
  {
    forall k: nat, f: nat :: k >= 1 ==> |Schedules(d, k, f)| == Weighted(d, k, f)
  }

  function Weighted(d: nat, k: nat, f: nat): nat
  {
    MulLe(Coeff(d, k, f), 0, Pow2(f));
    Coeff(d, k, f) * Pow2(f)
  }

  lemma ProductWeight(x: nat, y: nat, g: nat, f: nat)
    requires g <= f
    ensures (x * Pow2(g)) * (y * Pow2(f - g)) == (x * y) * Pow2(f)
  {
    hide Pow2;
    var h := f - g;
    Pow2Add(g, h);
    assert g + h == f;
    var p, q := Pow2(g), Pow2(h);
    assert (x * p) * (y * q) == (x * y) * (p * q) by {
      Assoc(x, p, y * q);
      Assoc(p, y, q);
      Assoc(y, p, q);
      Assoc(x, y, p * q);
      assert p * y == y * p;
    }
  }

  lemma ClassWeight(d: nat, k: nat, f: nat, l: nat, g: nat)
    requires Counted(d) && 1 <= l < k && g <= f
    ensures |Class(d, k, f, l, g)| == (Coeff(d, l, g) * Coeff(d, k - l, f - g)) * Pow2(f)
  {
    hide Pow2, Coeff, Class, Schedules;
    ClassProduct(d, k, f, l, g);
    ProductWeight(Coeff(d, l, g), Coeff(d, k - l, f - g), g, f);
  }

  ghost function ByLeftBelow(d: nat, k: nat, f: nat, l: nat, t: nat): set<set<nat>>
  {
    set s | s in ByLeft(d, k, f, l) && Frontier(d, Left(d, s)) < t
  }

  lemma NoneBelow(d: nat, k: nat, f: nat, l: nat)
    ensures ByLeftBelow(d, k, f, l, 0) == {}
  {
  }

  lemma ByLeftNext(d: nat, k: nat, f: nat, l: nat, t: nat)
    ensures ByLeftBelow(d, k, f, l, t + 1) == ByLeftBelow(d, k, f, l, t) + Class(d, k, f, l, t)
    ensures ByLeftBelow(d, k, f, l, t) !! Class(d, k, f, l, t)
  {
    hide Schedules, Frontier, Left;
  }

  lemma {:induction false} ByLeftBelowSize(d: nat, k: nat, f: nat, l: nat, t: nat)
    requires Counted(d) && 1 <= l < k && t <= f + 1
    ensures |ByLeftBelow(d, k, f, l, t)| == Conv(d, l, k - l, f, t) * Pow2(f)
    decreases t
  {
    hide Pow2, Coeff, Counted, ByLeftBelow, Class;
    if t == 0 {
      NoneBelow(d, k, f, l);
    } else {
      ByLeftBelowSize(d, k, f, l, t - 1);
      ClassWeight(d, k, f, l, t - 1);
      ByLeftNext(d, k, f, l, t - 1);
      DisjointUnion(ByLeftBelow(d, k, f, l, t - 1), Class(d, k, f, l, t - 1));
      Distribute(Pow2(f), Conv(d, l, k - l, f, t - 1), Coeff(d, l, t - 1) * Coeff(d, k - l, f - (t - 1)));
    }
  }

  lemma MiddleSize(d: nat, k: nat, f: nat, l: nat)
    requires Counted(d) && 1 <= l < k
    ensures |ByLeft(d, k, f, l)| == Conv(d, l, k - l, f, f + 1) * Pow2(f)
  {
    hide Pow2, Conv, Counted, Left, Frontier, Leaves;
    ByLeftBelowSize(d, k, f, l, f + 1);
    forall s | s in ByLeft(d, k, f, l) ensures Frontier(d, Left(d, s)) < f + 1 {
      FrontierSplit(d, s);
    }
    assert ByLeftBelow(d, k, f, l, f + 1) == ByLeft(d, k, f, l);
  }

  ghost function LeftBelow(d: nat, k: nat, f: nat, l: nat): set<set<nat>>
  {
    set s | s in Schedules(d + 1, k, f) && |Left(d, s)| < l
  }

  lemma LeftBelowStep(d: nat, k: nat, f: nat, l: nat)
    ensures |LeftBelow(d, k, f, l + 1)| == |LeftBelow(d, k, f, l)| + |ByLeft(d, k, f, l)|
  {
    hide Schedules, Left;
    DisjointUnion(LeftBelow(d, k, f, l), ByLeft(d, k, f, l));
    assert LeftBelow(d, k, f, l + 1) == LeftBelow(d, k, f, l) + ByLeft(d, k, f, l);
  }

  lemma {:induction false} LeftBelowSize(d: nat, k: nat, f: nat, l: nat)
    requires Counted(d) && 1 <= l <= k
    ensures |LeftBelow(d, k, f, l)| == OneSideCount(d, k, f) + SplitSum(d, k, f, l) * Pow2(f)
    decreases l
  {
    hide Pow2, Conv, Counted, Schedules, OneSideCount, LeftBelow, ByLeft;
    LeftBelowStep(d, k, f, l - 1);
    if l == 1 {
      NothingBelow(d, k, f);
      RightOnly(d, k, f);
    } else {
      LeftBelowSize(d, k, f, l - 1);
      MiddleSize(d, k, f, l - 1);
      Distribute(Pow2(f), SplitSum(d, k, f, l - 1), Conv(d, l - 1, k - (l - 1), f, f + 1));
    }
  }

  lemma NothingBelow(d: nat, k: nat, f: nat)
    ensures LeftBelow(d, k, f, 0) == {}
  {
  }

  lemma AllBelow(d: nat, k: nat, f: nat)
    ensures LeftBelow(d, k, f, k + 1) == Schedules(d + 1, k, f)
  {
    hide Left, Frontier;
    forall s | s in Schedules(d + 1, k, f) ensures |Left(d, s)| < k + 1 { JoinSplit(d, s); }
  }

  lemma CountStep(d: nat, k: nat, f: nat)
    requires Counted(d) && k >= 1
    ensures |Schedules(d + 1, k, f)| == Weighted(d + 1, k, f)
  {
    hide Pow2, SplitSum, Schedules, LeftBelow, ByLeft;
    AllBelow(d, k, f);
    LeftBelowStep(d, k, f, k);
    LeftBelowSize(d, k, f, k);
    LeftOnly(d, k, f);
    var sum := SplitSum(d, k, f, k);
    if f > 0 {
      assert |Schedules(d, k, f - 1)| == Weighted(d, k, f - 1);
      HalfWeight(Coeff(d, k, f - 1), f);
      Distribute(Pow2(f), Coeff(d, k, f - 1), sum);
    }
  }

  lemma HalfWeight(c: nat, f: nat)
    requires f > 0
    ensures c * Pow2(f - 1) + c * Pow2(f - 1) == c * Pow2(f)
  {
    Distribute(c, Pow2(f - 1), Pow2(f - 1));
  }

  lemma LeafZero(i: nat)
    ensures IsLeaf(0, i) <==> i == 0
  {
    assert Pow2(0) == 1;
  }

  lemma LeavesZero()
    ensures Leaves(0) == {0}
  {
    hide Pow2, IsLeaf;
    assert forall i: nat :: i in Leaves(0) ==> IsLeaf(0, i);
    forall i: nat ensures i in Leaves(0) <==> i == 0 {
      LeafZero(i);
      LeafBound(0, i);
    }
  }

  lemma LeafBound(d: nat, i: nat)
    ensures IsLeaf(d, i) <==> i < Pow2(d)
  {
  }

  lemma OnlyLeaf()
    ensures Leaves(0) == {0} && FrontierNodes(0, {0}) == {} && Pow2(0) == 1
  {
    hide Leaves;
    LeavesZero();
  }

  lemma CountBase(k: nat, f: nat)
    requires k >= 1
    ensures |Schedules(0, k, f)| == Weighted(0, k, f)
  {
    hide Leaves, FrontierNodes, Pow2;
    OnlyLeaf();
    forall s | s in Schedules(0, k, f) ensures s == {0} { SubsetSize(s, {0}); }
    if k == 1 && f == 0 {
      assert IsSchedule(0, 1, 0, {0});
      assert Schedules(0, 1, 0) == {{0}};
    } else {
      assert forall s :: s !in Schedules(0, k, f);
      assert Schedules(0, k, f) == {};
    }
  }

  lemma {:induction false} CountedAt(d: nat)
    ensures Counted(d)
  {
    hide Weighted, Schedules;
    forall k: nat, f: nat | k >= 1 ensures |Schedules(d, k, f)| == Weighted(d, k, f) {
      if d == 0 {
        CountBase(k, f);
      } else {
        CountedAt(d - 1);
        CountStep(d - 1, k, f);
      }
    }
  }

  lemma EntryWeighted(d: nat, k: nat, f: nat)
    requires k >= 1
    ensures |Schedules(d, k, f)| == Weighted(d, k, f)
  {
    hide Weighted, Schedules;
    CountedAt(d);
  }

  /** Frontier counting: for every depth, size and frontier, the table entry times 2^f
      is the number of selections with that multiproof frontier. */
  lemma EntryCountsSchedules(d: nat, k: nat, f: nat)
    requires k >= 1
    ensures |Schedules(d, k, f)| == Coeff(d, k, f) * Pow2(f)
  {
    hide Coeff, Schedules, Pow2;
    EntryWeighted(d, k, f);
  }

  // ------------------------------------------------------- conservation over frontiers

  /** Pascal's rule. */
  function Binomial(n: nat, k: nat): nat
  {
    if k == 0 then 1 else if n == 0 then 0 else Binomial(n - 1, k) + Binomial(n - 1, k - 1)
  }

  ghost predicate HasSize(s: set<nat>, k: nat) { |s| == k }

  ghost function Choose(u: set<nat>, k: nat): set<set<nat>>
  {
    set s: set<nat> | s <= u && HasSize(s, k)
  }

  /** The subsets of size k that contain x. */
  ghost function ChooseWith(u: set<nat>, k: nat, x: nat): set<set<nat>>
  {
    set s | s in Choose(u, k) && x in s
  }

  lemma AddPoint(u: set<nat>, k: nat, x: nat, s: set<nat>)
    requires x in u && k > 0 && s in Choose(u - {x}, k - 1)
    ensures s + {x} in ChooseWith(u, k, x) && (s + {x}) - {x} == s
  {
    assert x !in s;
    assert HasSize(s + {x}, k);
  }

  lemma DropPoint(u: set<nat>, k: nat, x: nat, s: set<nat>)
    requires x in u && k > 0 && s in ChooseWith(u, k, x)
    ensures s - {x} in Choose(u - {x}, k - 1) && (s - {x}) + {x} == s
  {
    assert HasSize(s - {x}, k - 1);
  }

  lemma ChooseWithSize(u: set<nat>, k: nat, x: nat)
    requires x in u && k > 0
    ensures |ChooseWith(u, k, x)| == |Choose(u - {x}, k - 1)|
  {
    hide Choose, ChooseWith;
    var v := u - {x};
    forall s | s in Choose(v, k - 1) ensures s + {x} in ChooseWith(u, k, x) && (s + {x}) - {x} == s {
      AddPoint(u, k, x, s);
    }
    forall s | s in ChooseWith(u, k, x) ensures s - {x} in Choose(v, k - 1) && (s - {x}) + {x} == s {
      DropPoint(u, k, x, s);
    }
    BijectionSize<set<nat>, set<nat>>(Choose(v, k - 1), ChooseWith(u, k, x), s => s + {x}, s => s - {x});
  }

  lemma ChooseParts(u: set<nat>, k: nat, x: nat)
    requires x in u
    ensures Choose(u, k) == Choose(u - {x}, k) + ChooseWith(u, k, x)
    ensures Choose(u - {x}, k) !! ChooseWith(u, k, x)
  {
  }

  lemma ChooseStep(u: set<nat>, k: nat, x: nat)
    requires x in u && k > 0
    ensures |Choose(u, k)| == |Choose(u - {x}, k)| + |Choose(u - {x}, k - 1)|
  {
    hide Choose, ChooseWith;
    ChooseParts(u, k, x);
    ChooseWithSize(u, k, x);
    DisjointUnion(Choose(u - {x}, k), ChooseWith(u, k, x));
  }

  lemma {:induction false} ChooseSize(u: set<nat>, k: nat)
    ensures |Choose(u, k)| == Binomial(|u|, k)
    decreases |u|, k
  {
    if k == 0 {
      forall s | s in Choose(u, 0) ensures s == {} { EmptySize(s); }
      assert HasSize({}, 0);
      assert Choose(u, 0) == {{}};
    } else if u == {} {
      assert forall s :: s in Choose(u, k) ==> |s| == 0;
      assert Choose(u, k) == {};
    } else {
      hide Choose;
      var x :| x in u;
      ChooseStep(u, k, x);
      ChooseSize(u - {x}, k);
      ChooseSize(u - {x}, k - 1);
    }
  }

  ghost function Range(n: nat): set<nat>
  {
    if n == 0 then {} else Range(n - 1) + {n - 1}
  }

  lemma {:induction false} RangeSize(n: nat)
    ensures |Range(n)| == n
    ensures forall x: nat :: x in Range(n) <==> x < n
  {
    if n > 0 { RangeSize(n - 1); }
  }

  lemma LeavesSize(d: nat)
    ensures |Leaves(d)| == Pow2(d)
  {
    hide Pow2, Range;
    RangeSize(Pow2(d));
    assert Leaves(d) == Range(Pow2(d));
  }

  /** Sum of the weighted entries with frontier below t. */
  ghost function WeightBelow(d: nat, k: nat, t: nat): nat
  {
    if t == 0 then 0 else WeightBelow(d, k, t - 1) + Weighted(d, k, t - 1)
  }

  ghost function ChooseBelow(d: nat, k: nat, t: nat): set<set<nat>>
  {
    set s | s in Choose(Leaves(d), k) && Frontier(d, s) < t
  }

  lemma {:induction false} WeightBelowCounts(d: nat, k: nat, t: nat)
    requires k >= 1
    ensures WeightBelow(d, k, t) == |ChooseBelow(d, k, t)|
  {
    hide Weighted, Frontier, Leaves;
    if t == 0 {
      assert ChooseBelow(d, k, 0) == {};
    } else {
      WeightBelowCounts(d, k, t - 1);
      EntryWeighted(d, k, t - 1);
      DisjointUnion(ChooseBelow(d, k, t - 1), Schedules(d, k, t - 1));
      assert ChooseBelow(d, k, t) == ChooseBelow(d, k, t - 1) + Schedules(d, k, t - 1);
    }
  }

  /** Conservation: summed over any range that covers every frontier, the weighted
      entries give all the ways to choose k of the 2^d leaves. */
  lemma TotalIsBinomial(d: nat, k: nat, t: nat)
    requires k >= 1
    requires forall f: nat :: f >= t ==> Coeff(d, k, f) == 0
    ensures WeightBelow(d, k, t) == Binomial(Pow2(d), k)
  {
    hide Frontier, Leaves, Pow2, Schedules, Coeff;
    WeightBelowCounts(d, k, t);
    LeavesSize(d);
    ChooseSize(Leaves(d), k);
    forall s | s in Choose(Leaves(d), k) ensures Frontier(d, s) < t {
      InSchedules(d, k, s);
      if Frontier(d, s) >= t { NoSchedules(d, k, Frontier(d, s)); }
    }
    assert ChooseBelow(d, k, t) == Choose(Leaves(d), k);
  }

  lemma InSchedules(d: nat, k: nat, s: set<nat>)
    requires s in Choose(Leaves(d), k)
    ensures s in Schedules(d, k, Frontier(d, s))
  {
    hide Frontier, Leaves;
  }

  lemma NoSchedules(d: nat, k: nat, f: nat)
    requires k >= 1 && Coeff(d, k, f) == 0
    ensures Schedules(d, k, f) == {}
  {
    hide Coeff, Schedules;
    EntryWeighted(d, k, f);
  }
}

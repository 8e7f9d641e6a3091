/** Merkle multiproof frontiers of leaf subsets.

  The frontier of a selection is the set of tree nodes whose hashes a multiproof
  must supply: a node is supplied when no selected leaf lies below it but one
  lies below its parent. */
module MerkleFrontier {
  import opened Bits
  import opened Nonlinear
  import opened FiniteSets

  predicate IsLeaf(d: nat, i: nat) { i < Pow2(d) }

  ghost function Leaves(d: nat): set<nat> { set i: nat | i < Pow2(d) && IsLeaf(d, i) }

  /** The ancestor of leaf x at height h. */
  function Above(x: nat, h: nat): nat
  {
    hide Pow2;
    x / Pow2(h)
  }

  ghost predicate Covers(s: set<nat>, h: nat, i: nat)
  {
    exists x :: x in s && Above(x, h) == i
  }

  datatype Node = Node(height: nat, index: nat)

  ghost predicate IsSupplied(d: nat, s: set<nat>, n: Node)
  {
    n.height < d && n.index < Pow2(d - n.height)
    && !Covers(s, n.height, n.index) && Covers(s, n.height + 1, n.index / 2)
  }

  ghost function FrontierNodes(d: nat, s: set<nat>): set<Node>
  {
    set h: nat, i: nat | h < d && i < Pow2(d - h) && IsSupplied(d, s, Node(h, i)) :: Node(h, i)
  }

  ghost function Frontier(d: nat, s: set<nat>): nat { |FrontierNodes(d, s)| }

  // ------------------------------------------------------------ splitting at the root

  ghost function Left(d: nat, s: set<nat>): set<nat> { set x | x in s && x < Pow2(d) }

  ghost function Right(d: nat, s: set<nat>): set<nat> { set x | x in s && x >= Pow2(d) :: x - Pow2(d) }

  ghost function Join(d: nat, a: set<nat>, b: set<nat>): set<nat>
  {
    a + Raised(d, b)
  }

  ghost function Raised(d: nat, b: set<nat>): set<nat> { set x | x in b :: x + Pow2(d) }

  lemma RaisedSize(d: nat, b: set<nat>)
    ensures |Raised(d, b)| == |b|
  {
    hide Pow2;
    BijectionSize<nat, nat>(b, Raised(d, b), x => x + Pow2(d), x => if x >= Pow2(d) then x - Pow2(d) else 0);
  }

  lemma SplitJoin(d: nat, a: set<nat>, b: set<nat>)
    requires a <= Leaves(d) && b <= Leaves(d)
    ensures Left(d, Join(d, a, b)) == a && Right(d, Join(d, a, b)) == b
    ensures Join(d, a, b) <= Leaves(d + 1)
    ensures |Join(d, a, b)| == |a| + |b|
  {
    hide Pow2;
    Pow2Succ(d);
    RaisedSize(d, b);
    DisjointUnion(a, Raised(d, b));
    RightOfJoin(d, a, b);
  }

  lemma RightOfJoin(d: nat, a: set<nat>, b: set<nat>)
    requires a <= Leaves(d)
    ensures Right(d, Join(d, a, b)) == b
  {
    hide Pow2;
    forall x | x in b ensures x in Right(d, Join(d, a, b)) { assert x + Pow2(d) in Join(d, a, b); }
  }

  lemma JoinSplit(d: nat, s: set<nat>)
    requires s <= Leaves(d + 1)
    ensures Join(d, Left(d, s), Right(d, s)) == s
    ensures Left(d, s) <= Leaves(d) && Right(d, s) <= Leaves(d)
    ensures |s| == |Left(d, s)| + |Right(d, s)|
  {
    hide Pow2;
    Pow2Succ(d);
    forall x | x in s ensures x in Join(d, Left(d, s), Right(d, s)) {
      if x >= Pow2(d) { assert x - Pow2(d) in Right(d, s); }
    }
    assert Join(d, Left(d, s), Right(d, s)) == s;
    SplitJoin(d, Left(d, s), Right(d, s));
  }

  lemma AboveShift(d: nat, h: nat, x: nat)
    requires h <= d
    ensures Above(x + Pow2(d), h) == Above(x, h) + Pow2(d - h)
    ensures x < Pow2(d) <==> Above(x, h) < Pow2(d - h)
  {
    hide Pow2;
    var k := d - h;
    Pow2Add(h, k);
    assert h + k == d;
    var w, q, r := Pow2(h), x / Pow2(h), x % Pow2(h);
    assert x == w * q + r;
    Distribute(w, q, Pow2(k));
    DivModUnique(x + Pow2(d), w, q + Pow2(k), r);
    if q < Pow2(k) {
      MulLe(w, q + 1, Pow2(k));
      Distribute(w, q, 1);
    } else {
      MulLe(w, Pow2(k), q);
    }
  }

  lemma CoversLeft(d: nat, s: set<nat>, h: nat, i: nat)
    requires h <= d && i < Pow2(d - h)
    ensures Covers(s, h, i) <==> Covers(Left(d, s), h, i)
  {
    hide Pow2, Above;
    forall x | x in s && Above(x, h) == i ensures x in Left(d, s) { AboveShift(d, h, x); }
  }

  lemma CoversRight(d: nat, s: set<nat>, h: nat, i: nat)
    requires h <= d
    ensures Covers(s, h, i + Pow2(d - h)) <==> Covers(Right(d, s), h, i)
  {
    hide Pow2, Above;
    forall x | x in s && Above(x, h) == i + Pow2(d - h)
      ensures x >= Pow2(d) && x - Pow2(d) in Right(d, s) && Above(x - Pow2(d), h) == i
    {
      AboveShift(d, h, x);
      assert x >= Pow2(d);
      AboveShift(d, h, x - Pow2(d));
    }
    forall x | x in Right(d, s) && Above(x, h) == i
      ensures x + Pow2(d) in s && Above(x + Pow2(d), h) == i + Pow2(d - h)
    {
      AboveShift(d, h, x);
    }
  }

  lemma SuppliedLeft(d: nat, s: set<nat>, n: Node)
    requires n.height < d && n.index < Pow2(d - n.height)
    ensures IsSupplied(d + 1, s, n) <==> IsSupplied(d, Left(d, s), n)
  {
    hide Pow2, Covers;
    Pow2Succ(d - n.height);
    Pow2Succ(d - n.height - 1);
    CoversLeft(d, s, n.height, n.index);
    CoversLeft(d, s, n.height + 1, n.index / 2);
  }

  function Raise(d: nat, n: Node): Node
  {
    if n.height < d then Node(n.height, n.index + Pow2(d - n.height)) else n
  }

  function Lower(d: nat, n: Node): Node
  {
    if n.height < d && n.index >= Pow2(d - n.height) then Node(n.height, n.index - Pow2(d - n.height)) else n
  }

  lemma SuppliedRight(d: nat, s: set<nat>, n: Node)
    requires n.height < d
    ensures IsSupplied(d + 1, s, Raise(d, n)) <==> IsSupplied(d, Right(d, s), n)
  {
    hide Pow2, Covers;
    Pow2Succ(d - n.height);
    Pow2Succ(d - n.height - 1);
    CoversRight(d, s, n.height, n.index);
    CoversRight(d, s, n.height + 1, n.index / 2);
    assert (n.index + Pow2(d - n.height)) / 2 == n.index / 2 + Pow2(d - n.height - 1);
  }

  lemma CoversTop(d: nat, s: set<nat>)
    requires s <= Leaves(d + 1)
    ensures Covers(s, d, 0) <==> Left(d, s) != {}
    ensures Covers(s, d, 1) <==> Right(d, s) != {}
    ensures Covers(s, d + 1, 0) <==> s != {}
  {
    hide Pow2, Above, Covers, Left, Right, Leaves, Join;
    PowZero(d);
    CoversLeft(d, s, d, 0);
    CoversRight(d, s, d, 0);
    JoinSplit(d, s);
    CoversRoot(d, Left(d, s));
    CoversRoot(d, Right(d, s));
    CoversRoot(d + 1, s);
  }

  lemma PowZero(d: nat)
    ensures Pow2(d - d) == 1
  {
  }

  lemma AboveLeaf(d: nat)
    ensures forall x: nat :: IsLeaf(d, x) ==> Above(x, d) == 0
  {
    forall x: nat | IsLeaf(d, x) ensures Above(x, d) == 0 { DivModUnique(x, Pow2(d), 0, x); }
  }

  lemma CoversRoot(d: nat, s: set<nat>)
    requires s <= Leaves(d)
    ensures Covers(s, d, 0) <==> s != {}
  {
    hide Pow2, Above;
    AboveLeaf(d);
    if s != {} {
      var x :| x in s;
      assert x in Leaves(d);
    }
  }

  /** The recursion of the frontier: both halves, plus one node when exactly one
      half is empty. */
  lemma FrontierSplit(d: nat, s: set<nat>)
    requires s <= Leaves(d + 1)
    ensures Frontier(d + 1, s) == Frontier(d, Left(d, s)) + Frontier(d, Right(d, s))
      + if (Left(d, s) == {}) != (Right(d, s) == {}) then 1 else 0
  {
    hide Pow2, FrontierNodes, Left, Right, Leaves, IsSupplied, Covers;
    var all := FrontierNodes(d + 1, s);
    forall n | n in all ensures n.height <= d { InFrontier(d + 1, s, n); SuppliedHeight(d + 1, s, n); }
    var top, left, right := ThreeParts(d, all);
    LeftPart(d, s, left);
    RightPart(d, s, right);
    TopPart(d, s, top);
  }

  lemma ThreeParts(d: nat, all: set<Node>) returns (top: set<Node>, left: set<Node>, right: set<Node>)
    requires forall n :: n in all ==> n.height <= d
    ensures top == set n | n in all && n.height == d
    ensures left == set n | n in all && n.height < d && n.index < Pow2(d - n.height)
    ensures right == set n | n in all && n.height < d && n.index >= Pow2(d - n.height)
    ensures |all| == |left| + |right| + |top|
  {
    hide Pow2;
    top := set n | n in all && n.height == d;
    left := set n | n in all && n.height < d && n.index < Pow2(d - n.height);
    right := set n | n in all && n.height < d && n.index >= Pow2(d - n.height);
    assert all == top + (left + right);
    DisjointUnion(left, right);
    DisjointUnion(top, left + right);
  }

  lemma LeftPart(d: nat, s: set<nat>, left: set<Node>)
    requires left == set n | n in FrontierNodes(d + 1, s) && n.height < d && n.index < Pow2(d - n.height)
    ensures left == FrontierNodes(d, Left(d, s))
  {
    hide Pow2, IsSupplied;
    var target := FrontierNodes(d, Left(d, s));
    forall n | n in left ensures n in target { SuppliedLeft(d, s, n); }
    forall n | n in target ensures n in left {
      InFrontier(d, Left(d, s), n);
      SuppliedLeft(d, s, n);
      InFrontier(d + 1, s, n);
    }
  }

  lemma InFrontier(d: nat, s: set<nat>, n: Node)
    ensures n in FrontierNodes(d, s) <==> IsSupplied(d, s, n)
  {
    assert n == Node(n.height, n.index);
  }

  lemma RightPart(d: nat, s: set<nat>, right: set<Node>)
    requires right == set n | n in FrontierNodes(d + 1, s) && n.height < d && n.index >= Pow2(d - n.height)
    ensures |right| == Frontier(d, Right(d, s))
  {
    hide Pow2, IsSupplied, FrontierNodes;
    var target := FrontierNodes(d, Right(d, s));
    forall n | n in target
      ensures Raise(d, n) in right && Lower(d, Raise(d, n)) == n
    {
      InFrontier(d, Right(d, s), n);
      SuppliedHeight(d, Right(d, s), n);
      SuppliedRight(d, s, n);
      InFrontier(d + 1, s, Raise(d, n));
    }
    forall n | n in right ensures Lower(d, n) in target && Raise(d, Lower(d, n)) == n {
      InFrontier(d + 1, s, n);
      SuppliedRight(d, s, Lower(d, n));
      InFrontier(d, Right(d, s), Lower(d, n));
    }
    BijectionSize(target, right, n => Raise(d, n), n => Lower(d, n));
  }

  lemma SuppliedHeight(d: nat, s: set<nat>, n: Node)
    requires IsSupplied(d, s, n)
    ensures n.height < d && n.index < Pow2(d - n.height)
  {
  }

  lemma TopPart(d: nat, s: set<nat>, top: set<Node>)
    requires s <= Leaves(d + 1)
    requires top == set n | n in FrontierNodes(d + 1, s) && n.height == d
    ensures |top| == if (Left(d, s) == {}) != (Right(d, s) == {}) then 1 else 0
  {
    hide Pow2, FrontierNodes, Covers, Above, Left, Right, Leaves;
    CoversTop(d, s);
    PowOne();
    InFrontier(d + 1, s, Node(d, 0));
    InFrontier(d + 1, s, Node(d, 1));
    forall n | n in top ensures n == Node(d, 0) || n == Node(d, 1) { InFrontier(d + 1, s, n); }
    EmptyJoin(d, s);
    if Left(d, s) == {} && Right(d, s) != {} {
      assert top == {Node(d, 0)};
    } else if Left(d, s) != {} && Right(d, s) == {} {
      assert top == {Node(d, 1)};
    } else {
      assert top == {};
    }
  }

  lemma PowOne()
    ensures Pow2(1) == 2
  {
  }

  lemma EmptyJoin(d: nat, s: set<nat>)
    requires s <= Leaves(d + 1)
    ensures s == {} <==> Left(d, s) == {} && Right(d, s) == {}
  {
    hide Pow2;
    JoinSplit(d, s);
  }
}

/** The radix-4 Merkle tree over SHA-256 and what its root commits to. */
module Radix4 {
  import opened Options
  import opened Sha256

  type Bytes = seq<Byte>

  function Sha(input: Bytes): (d: Bytes)
    ensures |d| == 32
  {
    hide Digest, DigestBytes;
    DigestBytes(Digest(input))
  }

  function LeafInput(tag: Byte, leaf: Bytes): Bytes { [0x10, tag] + leaf }

  function NodeInput(a: Bytes, b: Bytes, c: Bytes, d: Bytes): Bytes { [0x12] + a + b + c + d }

  // ----------------------------------------------------------------------- the levels

  predicate Digests(level: seq<Bytes>)
  {
    forall i :: 0 <= i < |level| ==> |level[i]| == 32
  }

  function LeafLevel(tag: Byte, leaves: seq<Bytes>): (level: seq<Bytes>)
    ensures |level| == |leaves| && Digests(level)
  {
    seq(|leaves|, i requires 0 <= i < |leaves| => Sha(LeafInput(tag, leaves[i])))
  }

  function Group(level: seq<Bytes>, i: nat): Bytes
    requires 4 * i + 3 < |level|
  {
    NodeInput(level[4 * i], level[4 * i + 1], level[4 * i + 2], level[4 * i + 3])
  }

  function Up(level: seq<Bytes>): (next: seq<Bytes>)
    requires |level| % 4 == 0
    ensures |next| == |level| / 4 && Digests(next)
  {
    seq(|level| / 4, i requires 0 <= i < |level| / 4 => Sha(Group(level, i)))
  }

  function Pow4(h: nat): (r: nat)
    ensures r > 0
  {
    if h == 0 then 1 else 4 * Pow4(h - 1)
  }

  /** The root above a level of height h. */
  function Root(level: seq<Bytes>, h: nat): (r: Bytes)
    requires |level| == Pow4(h)
    decreases h
  {
    if h == 0 then level[0] else Root(Up(level), h - 1)
  }

  /** Every input hashed above a level. */
  ghost function NodeInputs(level: seq<Bytes>, h: nat): set<Bytes>
    requires |level| == Pow4(h)
    decreases h
  {
    if h == 0 then {}
    else (set i: nat | i < |level| / 4 :: Group(level, i)) + NodeInputs(Up(level), h - 1)
  }

  /** Every input hashed while computing the root of these leaves. */
  ghost function HashedInputs(tag: Byte, leaves: seq<Bytes>, h: nat): set<Bytes>
    requires |leaves| == Pow4(h)
  {
    (set i: nat | i < |leaves| :: LeafInput(tag, leaves[i])) + NodeInputs(LeafLevel(tag, leaves), h)
  }

  // ---------------------------------------------------------------------- the program

  /** What the loop makes of a level: None where its length assertion or the final index
      panics. */
  function Climb(level: seq<Bytes>): Option<Bytes>
    decreases |level|
  {
    if |level| == 0 then None
    else if |level| == 1 then Some(level[0])
    else if |level| % 4 != 0 then None
    else Climb(Up(level))
  }

  /** `radix4_root`. */
  method Radix4Root(tag: Byte, leaves: seq<Bytes>) returns (root: Option<Bytes>)
    ensures root.Some? <==> exists h: nat :: |leaves| == Pow4(h)
    ensures forall h: nat :: |leaves| == Pow4(h) ==> root == Some(Root(LeafLevel(tag, leaves), h))
  {
    hide Sha, Pow4, Root;
    var level: seq<Bytes> := [];
    for i := 0 to |leaves|
      invariant level == LeafLevel(tag, leaves)[..i]
    {
      var d := Hash(LeafInput(tag, leaves[i]));
      ShaIs(LeafInput(tag, leaves[i]));
      level := level + [d];
    }
    ghost var start := LeafLevel(tag, leaves);
    assert level == start;
    forall h: nat ensures |start| == Pow4(h) ==> Climb(start) == Some(Root(start, h)) {
      if |start| == Pow4(h) { ClimbIsRoot(start, h); }
    }
    if Climb(start).Some? { var h := ClimbHeight(start); }
    while |level| > 1
      invariant Climb(level) == Climb(start)
    {
      if |level| % 4 != 0 { return None; }
      level := LevelUp(level);
    }
    return if |level| == 0 then None else Some(level[0]);
  }

  /** On a power-of-four length the loop ends at the root. */
  lemma {:induction false} ClimbIsRoot(level: seq<Bytes>, h: nat)
    requires |level| == Pow4(h)
    ensures Climb(level) == Some(Root(level, h))
    decreases h
  {
    hide Up;
    if h > 0 { ClimbIsRoot(Up(level), h - 1); }
  }

  /** It ends at a root only on such a length. */
  lemma {:induction false} ClimbHeight(level: seq<Bytes>) returns (h: nat)
    requires Climb(level).Some?
    ensures |level| == Pow4(h)
    decreases |level|
  {
    hide Up;
    h := 0;
    if |level| > 1 {
      h := ClimbHeight(Up(level));
      h := h + 1;
    }
  }

  lemma ShaIs(input: Bytes)
    ensures Sha(input) == DigestBytes(Digest(input))
  {
    hide Digest, DigestBytes;
  }

  method LevelUp(level: seq<Bytes>) returns (next: seq<Bytes>)
    requires |level| % 4 == 0
    ensures next == Up(level)
  {
    hide Sha;
    next := [];
    for i := 0 to |level| / 4
      invariant next == Up(level)[..i]
    {
      var d := Hash(Group(level, i));
      ShaIs(Group(level, i));
      next := next + [d];
    }
  }

  // ----------------------------------------------------------------- what is hashed where

  /** A node hashes the prefix 0x12 and its four children in order. */
  lemma GroupLayout(level: seq<Bytes>, i: nat, k: nat)
    requires Digests(level) && 4 * i + 3 < |level| && k < 4
    ensures |Group(level, i)| == 129 && Group(level, i)[0] == 0x12
    ensures Group(level, i)[1 + 32 * k..33 + 32 * k] == level[4 * i + k]
  {
    var x := Group(level, i);
    if k == 0 {
      assert x[1..33] == level[4 * i];
    } else if k == 1 {
      assert x[33..65] == level[4 * i + 1];
    } else if k == 2 {
      assert x[65..97] == level[4 * i + 2];
    } else {
      assert x[97..129] == level[4 * i + 3];
    }
  }

  /** A leaf hashes the prefix 0x10, the tag and the leaf. */
  lemma LeafLayout(tag: Byte, leaf: Bytes)
    ensures |LeafInput(tag, leaf)| == |leaf| + 2
    ensures LeafInput(tag, leaf)[..2] == [0x10, tag] && LeafInput(tag, leaf)[2..] == leaf
  {
  }

  /** Quarter k of a level of 4 n. */
  function Quarter(level: seq<Bytes>, n: nat, k: nat): (q: seq<Bytes>)
    requires |level| == 4 * n && k < 4
    ensures |q| == n
  {
    assert k * n + n <= 4 * n by { Quarters(n, k); }
    level[k * n..k * n + n]
  }

  lemma Quarters(n: nat, k: nat)
    requires k < 4
    ensures k * n + n <= 4 * n
  {
  }

  lemma UpQuarter(level: seq<Bytes>, n: nat, k: nat)
    requires |level| == 16 * n && k < 4
    ensures Up(Quarter(level, 4 * n, k)) == Quarter(Up(level), n, k)
  {
    hide Sha, Quarter;
    var q := Quarter(level, 4 * n, k);
    var above := Quarter(Up(level), n, k);
    forall i | 0 <= i < n ensures Up(q)[i] == above[i] {
      QuarterAt(Up(level), n, k, i);
      QuarterAt(level, 4 * n, k, 4 * i);
      QuarterAt(level, 4 * n, k, 4 * i + 1);
      QuarterAt(level, 4 * n, k, 4 * i + 2);
      QuarterAt(level, 4 * n, k, 4 * i + 3);
      assert k * (4 * n) == 4 * (k * n);
      assert Group(q, i) == Group(level, k * n + i);
    }
  }

  lemma QuarterAt(level: seq<Bytes>, n: nat, k: nat, i: nat)
    requires |level| == 4 * n && k < 4 && i < n
    ensures 0 <= k * n + i < |level| && Quarter(level, n, k)[i] == level[k * n + i]
  {
    Quarters(n, k);
  }

  /** The root of a tree is the node over the roots of its four quarters, in order. */
  lemma {:induction false} RootOfQuarters(level: seq<Bytes>, h: nat)
    requires |level| == Pow4(h + 1)
    ensures var n := Pow4(h);
      Root(level, h + 1) == Sha([0x12] + Root(Quarter(level, n, 0), h) + Root(Quarter(level, n, 1), h)
                                + Root(Quarter(level, n, 2), h) + Root(Quarter(level, n, 3), h))
    decreases h
  {
    hide Sha, Up, Quarter;
    if h == 0 {
      RootOfFour(level);
    } else {
      var m := Pow4(h - 1);
      RootOfQuarters(Up(level), h - 1);
      UpQuarter(level, m, 0);
      UpQuarter(level, m, 1);
      UpQuarter(level, m, 2);
      UpQuarter(level, m, 3);
    }
  }

  lemma RootOfFour(level: seq<Bytes>)
    requires |level| == 4
    ensures Root(level, 1) == Sha([0x12] + Quarter(level, 1, 0)[0] + Quarter(level, 1, 1)[0]
                                  + Quarter(level, 1, 2)[0] + Quarter(level, 1, 3)[0])
  {
    hide Sha;
    assert Root(level, 1) == Root(Up(level), 0);
    assert Up(level)[0] == Sha(Group(level, 0));
  }

  // ------------------------------------------------------------------------- binding

  /** A collision between an input hashed on one side and one hashed on the other. */
  ghost predicate Collides(x: Bytes, y: Bytes, left: set<Bytes>, right: set<Bytes>)
  {
    x in left && y in right && x != y && Sha(x) == Sha(y)
  }

  lemma NodeInjective(a: seq<Bytes>, b: seq<Bytes>, i: nat)
    requires Digests(a) && Digests(b) && 4 * i + 3 < |a| && |a| == |b| && Group(a, i) == Group(b, i)
    ensures forall k :: 4 * i <= k < 4 * i + 4 ==> a[k] == b[k]
  {
    var x, y := Group(a, i), Group(b, i);
    assert x[1..33] == a[4 * i] && x[33..65] == a[4 * i + 1] && x[65..97] == a[4 * i + 2] && x[97..129] == a[4 * i + 3];
    assert y[1..33] == b[4 * i] && y[33..65] == b[4 * i + 1] && y[65..97] == b[4 * i + 2] && y[97..129] == b[4 * i + 3];
  }

  /** Equal parents mean equal children or a collision at the first group that differs. */
  lemma UpBinds(a: seq<Bytes>, b: seq<Bytes>) returns (i: nat)
    requires Digests(a) && Digests(b) && |a| == |b| && |a| % 4 == 0 && Up(a) == Up(b)
    ensures a == b || (i < |a| / 4 && Group(a, i) != Group(b, i) && Sha(Group(a, i)) == Sha(Group(b, i)))
  {
    hide Sha, Group;
    if forall j :: 0 <= j < |a| / 4 ==> Group(a, j) == Group(b, j) {
      forall k | 0 <= k < |a| ensures a[k] == b[k] { NodeInjective(a, b, k / 4); }
      i := 0;
    } else {
      i :| 0 <= i < |a| / 4 && Group(a, i) != Group(b, i);
      assert Up(a)[i] == Up(b)[i];
    }
  }

  lemma {:induction false} SameHeight(a: seq<Bytes>, b: seq<Bytes>, h: nat) returns (x: Bytes, y: Bytes)
    requires |a| == |b| == Pow4(h) && Digests(a) && Digests(b) && Root(a, h) == Root(b, h)
    ensures a == b || Collides(x, y, NodeInputs(a, h), NodeInputs(b, h))
    decreases h
  {
    hide Sha, Group, Up;
    x, y := [], [];
    if h == 0 {
      assert a == b;
    } else {
      x, y := SameHeight(Up(a), Up(b), h - 1);
      if Up(a) == Up(b) {
        var i := UpBinds(a, b);
        if a != b { x, y := Group(a, i), Group(b, i); }
      }
    }
  }

  /** The hash of one of these inputs, which starts with the node prefix. */
  ghost predicate IsNode(d: Bytes, inputs: set<Bytes>)
  {
    exists x :: x in inputs && x != [] && x[0] == 0x12 && d == Sha(x)
  }

  ghost predicate NodeLevel(level: seq<Bytes>, inputs: set<Bytes>)
  {
    forall i :: 0 <= i < |level| ==> IsNode(level[i], inputs)
  }

  /** A leaf level against a strictly taller tree: climbing the taller one to the same
      height puts leaf hashes opposite node hashes. */
  lemma {:induction false} Taller(tag: Byte, leaves: seq<Bytes>, h: nat, b: seq<Bytes>, g: nat, inputs: set<Bytes>)
    returns (x: Bytes, y: Bytes)
    requires |leaves| == Pow4(h) && |b| == Pow4(g) && h <= g && Digests(b)
    requires NodeInputs(b, g) <= inputs && (h == g ==> NodeLevel(b, inputs))
    requires Root(LeafLevel(tag, leaves), h) == Root(b, g)
    ensures Collides(x, y, HashedInputs(tag, leaves, h), inputs)
    decreases g
  {
    hide Sha, Group, LeafInput;
    var a := LeafLevel(tag, leaves);
    if h == g {
      x, y := SameHeight(a, b, h);
      if a == b {
        assert a[0] == b[0];
        y :| y in inputs && y != [] && y[0] == 0x12 && b[0] == Sha(y);
        x := LeafInput(tag, leaves[0]);
        LeafPrefix(tag, leaves[0]);
      }
    } else {
      UpIsNodeLevel(b, g, inputs);
      x, y := Taller(tag, leaves, h, Up(b), g - 1, inputs);
    }
  }

  lemma LeafPrefix(tag: Byte, leaf: Bytes)
    ensures LeafInput(tag, leaf) != [] && LeafInput(tag, leaf)[0] == 0x10
  {
  }

  lemma GroupHashed(b: seq<Bytes>, g: nat, i: nat, inputs: set<Bytes>)
    requires g > 0 && |b| == Pow4(g) && |b| % 4 == 0 && i < |b| / 4 && NodeInputs(b, g) <= inputs
    ensures IsNode(Up(b)[i], inputs)
  {
    hide Sha;
    var x := Group(b, i);
    assert x in NodeInputs(b, g) && x[0] == 0x12 && Up(b)[i] == Sha(x);
  }

  lemma UpIsNodeLevel(b: seq<Bytes>, g: nat, inputs: set<Bytes>)
    requires g > 0 && |b| == Pow4(g) && NodeInputs(b, g) <= inputs
    ensures |Up(b)| == Pow4(g - 1) && NodeLevel(Up(b), inputs) && NodeInputs(Up(b), g - 1) <= inputs
  {
    hide Sha, Group, Up, IsNode;
    forall i | 0 <= i < |Up(b)| ensures IsNode(Up(b)[i], inputs) { GroupHashed(b, g, i, inputs); }
  }

  lemma LeavesBind(tag: Byte, a: seq<Bytes>, b: seq<Bytes>) returns (i: nat)
    requires |a| == |b| && LeafLevel(tag, a) == LeafLevel(tag, b)
    ensures a == b || (i < |a| && LeafInput(tag, a[i]) != LeafInput(tag, b[i])
                       && Sha(LeafInput(tag, a[i])) == Sha(LeafInput(tag, b[i])))
  {
    hide Sha;
    i := 0;
    if a != b {
      i :| 0 <= i < |a| && a[i] != b[i];
      assert LeafInput(tag, a[i])[2..] == a[i] && LeafInput(tag, b[i])[2..] == b[i];
      assert LeafLevel(tag, a)[i] == LeafLevel(tag, b)[i];
    }
  }

  /** Root binding: leaf lists of any power-of-four lengths with equal roots are equal, or
      two different inputs hashed by the two computations have the same digest. */
  lemma RootBinds(tag: Byte, a: seq<Bytes>, h: nat, b: seq<Bytes>, g: nat) returns (x: Bytes, y: Bytes)
    requires |a| == Pow4(h) && |b| == Pow4(g)
    requires Root(LeafLevel(tag, a), h) == Root(LeafLevel(tag, b), g)
    ensures a == b || Collides(x, y, HashedInputs(tag, a, h), HashedInputs(tag, b, g))
  {
    hide Sha, LeafInput, Root, NodeInputs;
    x, y := [], [];
    var la, lb := LeafLevel(tag, a), LeafLevel(tag, b);
    if h < g {
      x, y := Taller(tag, a, h, lb, g, HashedInputs(tag, b, g));
    } else if g < h {
      y, x := Taller(tag, b, g, la, h, HashedInputs(tag, a, h));
    } else {
      x, y := SameHeight(la, lb, h);
      if la == lb {
        var i := LeavesBind(tag, a, b);
        if a != b { x, y := LeafInput(tag, a[i]), LeafInput(tag, b[i]); }
      }
    }
  }

  // --------------------------------------------------------------------- leaf packing

  /** A field element is held as a 32-bit word and written in little-endian order. */
  function LittleEndian(v: Word): (b: Bytes)
    ensures |b| == 4
  {
    [ByteOf(v, 0), ByteOf(v, 8), ByteOf(v, 16), ByteOf(v, 24)]
  }

  /** The values of all columns at one domain index. */
  function SlotBytes(codewords: seq<seq<Word>>, index: nat, k: nat): (b: Bytes)
    requires k <= |codewords| && forall c :: 0 <= c < |codewords| ==> index < |codewords[c]|
    ensures |b| == 4 * k
  {
    if k == 0 then [] else SlotBytes(codewords, index, k - 1) + LittleEndian(codewords[k - 1][index])
  }

  predicate Columns(codewords: seq<seq<Word>>, fibers: nat)
  {
    forall c :: 0 <= c < |codewords| ==> |codewords[c]| == 4 * fibers
  }

  /** The four slots of one fiber, all columns per slot. */
  function Leaf(codewords: seq<seq<Word>>, fibers: nat, fiber: nat): Bytes
    requires Columns(codewords, fibers) && fiber < fibers
  {
    var n := |codewords|;
    SlotBytes(codewords, 4 * fiber, n) + SlotBytes(codewords, 4 * fiber + 1, n)
    + SlotBytes(codewords, 4 * fiber + 2, n) + SlotBytes(codewords, 4 * fiber + 3, n)
  }

  function Leaves(codewords: seq<seq<Word>>, fibers: nat): (leaves: seq<Bytes>)
    requires Columns(codewords, fibers)
    ensures |leaves| == fibers
  {
    seq(fibers, f requires 0 <= f < fibers => Leaf(codewords, fibers, f))
  }

  /** `c1_leaves`: the nested loops over fibers, slots and columns. */
  method C1Leaves(codewords: seq<seq<Word>>, fibers: nat) returns (leaves: seq<Bytes>)
    requires Columns(codewords, fibers)
    ensures leaves == Leaves(codewords, fibers)
  {
    hide Leaf, Columns;
    leaves := [];
    for fiber := 0 to fibers
      invariant leaves == Leaves(codewords, fibers)[..fiber]
    {
      var leaf := PackLeaf(codewords, fibers, fiber);
      leaves := leaves + [leaf];
    }
  }

  method PackLeaf(codewords: seq<seq<Word>>, fibers: nat, fiber: nat) returns (leaf: Bytes)
    requires Columns(codewords, fibers) && fiber < fibers
    ensures leaf == Leaf(codewords, fibers, fiber)
  {
    hide SlotBytes, Leaf;
    leaf := [];
    for slot := 0 to 4
      invariant leaf == SlotsTo(codewords, fibers, fiber, slot)
    {
      leaf := AppendSlot(codewords, 4 * fiber + slot, leaf);
    }
    FourSlots(codewords, fibers, fiber);
  }

  method AppendSlot(codewords: seq<seq<Word>>, index: nat, before: Bytes) returns (leaf: Bytes)
    requires forall c :: 0 <= c < |codewords| ==> index < |codewords[c]|
    ensures leaf == before + SlotBytes(codewords, index, |codewords|)
  {
    hide LittleEndian;
    leaf := before;
    for c := 0 to |codewords|
      invariant leaf == before + SlotBytes(codewords, index, c)
    {
      leaf := leaf + LittleEndian(codewords[c][index]);
    }
  }

  function SlotsTo(codewords: seq<seq<Word>>, fibers: nat, fiber: nat, slots: nat): Bytes
    requires Columns(codewords, fibers) && fiber < fibers && slots <= 4
  {
    if slots == 0 then []
    else SlotsTo(codewords, fibers, fiber, slots - 1) + SlotBytes(codewords, 4 * fiber + slots - 1, |codewords|)
  }

  lemma FourSlots(codewords: seq<seq<Word>>, fibers: nat, fiber: nat)
    requires Columns(codewords, fibers) && fiber < fibers
    ensures SlotsTo(codewords, fibers, fiber, 4) == Leaf(codewords, fibers, fiber)
  {
    hide SlotBytes;
    assert SlotsTo(codewords, fibers, fiber, 0) == [];
    assert SlotsTo(codewords, fibers, fiber, 1) == SlotBytes(codewords, 4 * fiber, |codewords|);
    assert SlotsTo(codewords, fibers, fiber, 2)
        == SlotsTo(codewords, fibers, fiber, 1) + SlotBytes(codewords, 4 * fiber + 1, |codewords|);
    assert SlotsTo(codewords, fibers, fiber, 3)
        == SlotsTo(codewords, fibers, fiber, 2) + SlotBytes(codewords, 4 * fiber + 2, |codewords|);
  }

  lemma LittleEndianInjective(v: Word, w: Word)
    requires LittleEndian(v) == LittleEndian(w)
    ensures v == w
  {
    hide ByteOf;
    var a, b := LittleEndian(v), LittleEndian(w);
    assert a[0] == b[0] && a[1] == b[1] && a[2] == b[2] && a[3] == b[3];
    SameWord(v, w);
  }

  lemma SameWord(v: Word, w: Word)
    requires ByteOf(v, 0) == ByteOf(w, 0) && ByteOf(v, 8) == ByteOf(w, 8)
    requires ByteOf(v, 16) == ByteOf(w, 16) && ByteOf(v, 24) == ByteOf(w, 24)
    ensures v == w
  {
  }

  lemma {:induction false} SlotInjective(a: seq<seq<Word>>, b: seq<seq<Word>>, index: nat, k: nat)
    requires k <= |a| == |b|
    requires forall c :: 0 <= c < |a| ==> index < |a[c]| && index < |b[c]|
    requires SlotBytes(a, index, k) == SlotBytes(b, index, k)
    ensures forall c :: 0 <= c < k ==> a[c][index] == b[c][index]
  {
    hide LittleEndian;
    if k > 0 {
      var x, y := SlotBytes(a, index, k), SlotBytes(b, index, k);
      assert x[..4 * (k - 1)] == SlotBytes(a, index, k - 1) && y[..4 * (k - 1)] == SlotBytes(b, index, k - 1);
      assert x[4 * (k - 1)..] == LittleEndian(a[k - 1][index]) && y[4 * (k - 1)..] == LittleEndian(b[k - 1][index]);
      LittleEndianInjective(a[k - 1][index], b[k - 1][index]);
      SlotInjective(a, b, index, k - 1);
    }
  }

  lemma LeafInjective(a: seq<seq<Word>>, b: seq<seq<Word>>, fibers: nat, fiber: nat, slot: nat)
    requires |a| == |b| && Columns(a, fibers) && Columns(b, fibers) && fiber < fibers && slot < 4
    requires Leaf(a, fibers, fiber) == Leaf(b, fibers, fiber)
    ensures forall c :: 0 <= c < |a| ==> a[c][4 * fiber + slot] == b[c][4 * fiber + slot]
  {
    hide SlotBytes;
    var w := 4 * |a|;
    var x, y := Leaf(a, fibers, fiber), Leaf(b, fibers, fiber);
    LeafParts(a, fibers, fiber);
    LeafParts(b, fibers, fiber);
    SlotInjective(a, b, 4 * fiber + slot, |a|);
  }

  lemma LeafParts(a: seq<seq<Word>>, fibers: nat, fiber: nat)
    requires Columns(a, fibers) && fiber < fibers
    ensures var x, w := Leaf(a, fibers, fiber), 4 * |a|;
      && |x| == 4 * w
      && SlotBytes(a, 4 * fiber, |a|) == x[..w]
      && SlotBytes(a, 4 * fiber + 1, |a|) == x[w..2 * w]
      && SlotBytes(a, 4 * fiber + 2, |a|) == x[2 * w..3 * w]
      && SlotBytes(a, 4 * fiber + 3, |a|) == x[3 * w..]
  {
    hide SlotBytes;
  }

  lemma {:induction false} SlotWord(codewords: seq<seq<Word>>, index: nat, k: nat, c: nat)
    requires k <= |codewords| && forall d :: 0 <= d < |codewords| ==> index < |codewords[d]|
    requires c < k
    ensures SlotBytes(codewords, index, k)[4 * c..4 * c + 4] == LittleEndian(codewords[c][index])
  {
    hide LittleEndian;
    var b := SlotBytes(codewords, index, k);
    if c < k - 1 {
      SlotWord(codewords, index, k - 1, c);
      assert b[4 * c..4 * c + 4] == SlotBytes(codewords, index, k - 1)[4 * c..4 * c + 4];
    }
  }

  lemma LeafSlot(a: seq<seq<Word>>, fibers: nat, fiber: nat, slot: nat, w: nat)
    requires Columns(a, fibers) && fiber < fibers && slot < 4 && w == 4 * |a|
    ensures |Leaf(a, fibers, fiber)| == 4 * w && 0 <= slot * w <= slot * w + w <= 4 * w
    ensures Leaf(a, fibers, fiber)[slot * w..slot * w + w] == SlotBytes(a, 4 * fiber + slot, |a|)
  {
    hide SlotBytes, Leaf;
    LeafParts(a, fibers, fiber);
    if slot == 0 {
      assert slot * w == 0;
    } else if slot == 1 {
      assert slot * w == w;
    } else if slot == 2 {
      assert slot * w == 2 * w;
    } else {
      assert slot * w == 3 * w;
    }
  }

  lemma Inside(b: Bytes, start: nat, part: Bytes, at: nat)
    requires start + |part| <= |b| && b[start..start + |part|] == part && at + 4 <= |part|
    ensures b[start + at..start + at + 4] == part[at..at + 4]
  {
    var x, y := b[start + at..start + at + 4], part[at..at + 4];
    forall j | 0 <= j < 4 ensures x[j] == y[j] { assert part[at + j] == b[start..start + |part|][at + j]; }
  }

  lemma FourBytes(b: Bytes, at: nat, v: Word)
    requires at + 4 <= |b| && b[at..at + 4] == LittleEndian(v)
    ensures BigEndian(b[at + 3], b[at + 2], b[at + 1], b[at]) == v
  {
    hide BigEndian, ByteOf;
    var four := b[at..at + 4];
    assert b[at + 3] == four[3] && b[at + 2] == four[2] && b[at + 1] == four[1] && b[at] == four[0];
    WordReadBack(v);
  }

  /** Read little-endian, the word at 4 (slot n + c) of a leaf is column c at domain index 4 fiber + slot. */
  lemma LeafWord(a: seq<seq<Word>>, fibers: nat, fiber: nat, slot: nat, c: nat)
    requires Columns(a, fibers) && fiber < fibers && slot < 4 && c < |a|
    ensures var leaf, at := Leaf(a, fibers, fiber), 4 * (slot * |a| + c);
      && |leaf| == 16 * |a| && at + 4 <= |leaf|
      && BigEndian(leaf[at + 3], leaf[at + 2], leaf[at + 1], leaf[at]) == a[c][4 * fiber + slot]
  {
    hide SlotBytes, Leaf, BigEndian, ByteOf;
    var n := |a|;
    var leaf, at := Leaf(a, fibers, fiber), 4 * (slot * n + c);
    var part := SlotBytes(a, 4 * fiber + slot, n);
    LeafSlot(a, fibers, fiber, slot, 4 * n);
    SlotWord(a, 4 * fiber + slot, n, c);
    var start := slot * (4 * n);
    assert at == start + 4 * c;
    var v := a[c][4 * fiber + slot];
    Inside(leaf, start, part, 4 * c);
    FourBytes(leaf, at, v);
  }

  lemma LeavesInjective(a: seq<seq<Word>>, b: seq<seq<Word>>, fibers: nat)
    requires |a| == |b| && Columns(a, fibers) && Columns(b, fibers) && Leaves(a, fibers) == Leaves(b, fibers)
    ensures a == b
  {
    hide Leaf;
    forall c, i | 0 <= c < |a| && 0 <= i < 4 * fibers ensures a[c][i] == b[c][i] {
      var f := i / 4;
      assert Leaves(a, fibers)[f] == Leaves(b, fibers)[f];
      LeafInjective(a, b, fibers, f, i % 4);
      assert i == 4 * f + i % 4;
    }
    forall c | 0 <= c < |a| ensures a[c] == b[c] {
    }
  }

  /** The root commits to the codewords: over 4^h fibers, equal roots mean equal codewords
      or a collision between hashed inputs. */
  lemma RootBindsCodewords(tag: Byte, a: seq<seq<Word>>, b: seq<seq<Word>>, h: nat) returns (x: Bytes, y: Bytes)
    requires |a| == |b| && Columns(a, Pow4(h)) && Columns(b, Pow4(h))
    requires Root(LeafLevel(tag, Leaves(a, Pow4(h))), h) == Root(LeafLevel(tag, Leaves(b, Pow4(h))), h)
    ensures a == b || Collides(x, y, HashedInputs(tag, Leaves(a, Pow4(h)), h), HashedInputs(tag, Leaves(b, Pow4(h)), h))
  {
    hide Root, Leaves, LeafLevel, HashedInputs, Pow4, Columns;
    x, y := RootBinds(tag, Leaves(a, Pow4(h)), h, Leaves(b, Pow4(h)), h);
    if Leaves(a, Pow4(h)) == Leaves(b, Pow4(h)) { LeavesInjective(a, b, Pow4(h)); }
  }
}

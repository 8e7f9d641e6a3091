/** The dependency worklists of the two certificate generators, and why evaluating
    only the cells they collect gives the dense values. */
module FrontierClosure {
  import opened FrontierCount
  import opened FrontierSparse
  import FiniteSets

  datatype Cell = Cell(d: nat, k: nat, f: nat)

  /** A product of the recurrence not killed by the support envelope. */
  predicate Live(d: nat, k: nat, f: nat, l: nat, g: nat)
  {
    1 <= l < k && g <= f && Within(d, l, g) && Within(d, k - l, f - g)
  }

  /** `dependencies`: previous-depth cells of live terms. */
  function Dependencies(c: Cell): set<Cell>
  {
    if c.d == 0 then {}
    else
      var d := c.d - 1;
      (if c.f > 0 && Within(d, c.k, c.f - 1) then {Cell(d, c.k, c.f - 1)} else {})
      + (set l: nat, g: nat | 1 <= l < c.k && g <= c.f && Live(d, c.k, c.f, l, g) :: Cell(d, l, g))
      + (set l: nat, g: nat | 1 <= l < c.k && g <= c.f && Live(d, c.k, c.f, l, g) :: Cell(d, c.k - l, c.f - g))
  }

  /** The dependencies are exactly the cells one level down, inside the envelope, that are the single
      child with one frontier node less or a factor of a product whose other factor is inside as well. */
  lemma DependenciesExactly(c: Cell, x: Cell)
    ensures x in Dependencies(c) <==>
      && x.d + 1 == c.d && Within(x.d, x.k, x.f)
      && ((x.k == c.k && x.f + 1 == c.f)
          || (1 <= x.k < c.k && x.f <= c.f && Within(x.d, c.k - x.k, c.f - x.f)))
  {
    hide Within;
    if x.d + 1 == c.d && 1 <= x.k < c.k && x.f <= c.f {
      assert Live(x.d, c.k, c.f, x.k, x.f)
        <==> Within(x.d, x.k, x.f) && Within(x.d, c.k - x.k, c.f - x.f);
    }
  }

  // ----------------------------------------------------------------------- worklists

  /** Closed except at cells whose value is taken from elsewhere. */
  ghost predicate ClosedExcept(cells: set<Cell>, stop: set<Cell>)
  {
    forall c :: c in cells && c !in stop ==> Dependencies(c) <= cells
  }

  ghost predicate IsClosureOf(cells: set<Cell>, seeds: seq<Cell>, stop: set<Cell>)
  {
    (forall c :: c in seeds ==> c in cells) && ClosedExcept(cells, stop)
  }

  ghost function Universe(top: Cell): set<Cell>
  {
    set d: nat, k: nat, f: nat | d <= top.d && k <= top.k && f <= top.f :: Cell(d, k, f)
  }

  lemma DependenciesBelow(c: Cell, top: Cell)
    requires c in Universe(top)
    ensures Dependencies(c) <= Universe(top)
  {
    hide Within;
  }

  /** `dependency_closure` (stop empty) and the traversal of `delta_symbol_graph`
      (stop = the V6 symbols): the least set that contains the seeds and is closed
      outside `stop`. */
  method Closure(seeds: seq<Cell>, stop: set<Cell>, ghost top: Cell) returns (needed: set<Cell>)
    requires forall c :: c in seeds ==> c in Universe(top)
    ensures IsClosureOf(needed, seeds, stop)
    ensures forall other: set<Cell> :: IsClosureOf(other, seeds, stop) ==> needed <= other
  {
    hide Dependencies, Universe;
    needed := set c | c in seeds;
    var pending := seeds;
    while pending != []
      invariant forall c :: c in seeds ==> c in needed
      invariant forall c :: c in pending ==> c in needed
      invariant needed <= Universe(top)
      invariant forall c :: c in needed && c !in stop && c !in pending ==> Dependencies(c) <= needed
      invariant forall other: set<Cell> :: IsClosureOf(other, seeds, stop) ==> needed <= other
      decreases |Universe(top) - needed|, |pending|
    {
      var state := pending[|pending| - 1];
      ghost var before, waiting := needed, pending;
      pending := pending[..|pending| - 1];
      assert forall c :: c in waiting ==> c in pending || c == state;
      if state !in stop {
        DependenciesBelow(state, top);
        var rest := Dependencies(state);
        while rest != {}
          invariant rest <= Dependencies(state)
          invariant before <= needed <= Universe(top)
          invariant Dependencies(state) - rest <= needed <= before + Dependencies(state)
          invariant forall c :: c in pending ==> c in needed
          invariant forall c :: c in needed && c !in before ==> c in pending
          invariant forall c :: c in waiting ==> c in pending || c == state
          invariant needed == before ==> pending == waiting[..|waiting| - 1]
          decreases rest
        {
          var dependency :| dependency in rest;
          rest := rest - {dependency};
          if dependency !in needed {
            needed := needed + {dependency};
            pending := pending + [dependency];
          }
        }
        StrictlyFewer(Universe(top), before, needed);
      }
    }
  }

  lemma StrictlyFewer(u: set<Cell>, a: set<Cell>, b: set<Cell>)
    requires a <= b <= u
    ensures a == b || |u - b| < |u - a|
  {
    if a != b {
      var x :| x in b && x !in a;
      FiniteSets.SubsetSize(u - b, (u - a) - {x});
    }
  }

  // ---------------------------------------------------- evaluating only the collected cells

  /** The recurrence with every cell outside `cells` read as zero. */
  function Sparse(cells: set<Cell>, d: nat, k: nat, f: nat): nat
    decreases d, 0, 0
  {
    if Cell(d, k, f) !in cells then 0
    else if d == 0 then if k == 1 && f == 0 then 1 else 0
    else (if f > 0 then Sparse(cells, d - 1, k, f - 1) else 0) + SparseSplit(cells, d - 1, k, f, k)
  }

  function SparseSplit(cells: set<Cell>, d: nat, k: nat, f: nat, l: nat): nat
    requires l <= k
    decreases d, 2, l
  {
    if l <= 1 then 0 else SparseSplit(cells, d, k, f, l - 1) + SparseConv(cells, d, l - 1, k - (l - 1), f, f + 1)
  }

  function SparseConv(cells: set<Cell>, d: nat, a: nat, b: nat, f: nat, t: nat): nat
    requires t <= f + 1
    decreases d, 1, t
  {
    if t == 0 then 0
    else SparseConv(cells, d, a, b, f, t - 1) + Sparse(cells, d, a, t - 1) * Sparse(cells, d, b, f - (t - 1))
  }

  ghost predicate Closed(cells: set<Cell>)
  {
    forall c :: c in cells ==> Dependencies(c) <= cells
  }

  /** On a closed set of cells, sparse evaluation gives the dense values. */
  lemma {:induction false} SparseIsDense(cells: set<Cell>, d: nat, k: nat, f: nat)
    requires Closed(cells) && Cell(d, k, f) in cells
    ensures Sparse(cells, d, k, f) == Coeff(d, k, f)
    decreases d, 3, 0
  {
    hide Within, Closed;
    if d > 0 {
      if f > 0 { PreviousTerm(cells, d, k, f); }
      SplitIsDense(cells, d, k, f, k);
    }
  }

  lemma {:induction false} CellIsDense(cells: set<Cell>, d: nat, k: nat, f: nat)
    requires Closed(cells) && (Cell(d, k, f) in cells || !Within(d, k, f))
    ensures Sparse(cells, d, k, f) == Coeff(d, k, f)
    decreases d, 4, 0
  {
    hide Within, Closed, Coeff;
    if Cell(d, k, f) in cells { SparseIsDense(cells, d, k, f); } else { ZeroOutside(d, k, f); }
  }

  lemma ClosedAt(cells: set<Cell>, c: Cell)
    requires Closed(cells) && c in cells
    ensures Dependencies(c) <= cells
  {
    hide Dependencies;
  }

  lemma {:induction false} PreviousTerm(cells: set<Cell>, d: nat, k: nat, f: nat)
    requires Closed(cells) && Cell(d, k, f) in cells && d > 0 && f > 0
    ensures Sparse(cells, d - 1, k, f - 1) == Coeff(d - 1, k, f - 1)
    decreases d - 1, 5, 0
  {
    hide Within, Closed, Coeff, Sparse;
    ClosedAt(cells, Cell(d, k, f));
    if Within(d - 1, k, f - 1) {
      assert Cell(d - 1, k, f - 1) in Dependencies(Cell(d, k, f));
    }
    CellIsDense(cells, d - 1, k, f - 1);
  }

  lemma {:induction false} SplitIsDense(cells: set<Cell>, d: nat, k: nat, f: nat, l: nat)
    requires Closed(cells) && Cell(d, k, f) in cells && d > 0 && l <= k
    ensures SparseSplit(cells, d - 1, k, f, l) == SplitSum(d - 1, k, f, l)
    decreases d - 1, 8, l
  {
    hide Closed, Dependencies, SparseConv, Conv;
    if l > 1 {
      SplitIsDense(cells, d, k, f, l - 1);
      ConvIsDense(cells, d, k, f, l - 1, f + 1);
    }
  }

  lemma {:induction false} ConvIsDense(cells: set<Cell>, d: nat, k: nat, f: nat, a: nat, t: nat)
    requires Closed(cells) && Cell(d, k, f) in cells && d > 0 && 1 <= a < k && t <= f + 1
    ensures SparseConv(cells, d - 1, a, k - a, f, t) == Conv(d - 1, a, k - a, f, t)
    decreases d - 1, 7, t
  {
    hide Closed, Dependencies, Sparse, Coeff;
    if t > 0 {
      ConvIsDense(cells, d, k, f, a, t - 1);
      TermIsDense(cells, d, k, f, a, t - 1);
    }
  }

  lemma {:induction false} TermIsDense(cells: set<Cell>, d: nat, k: nat, f: nat, a: nat, g: nat)
    requires Closed(cells) && Cell(d, k, f) in cells && d > 0 && 1 <= a < k && g <= f
    ensures Sparse(cells, d - 1, a, g) * Sparse(cells, d - 1, k - a, f - g)
         == Coeff(d - 1, a, g) * Coeff(d - 1, k - a, f - g)
    decreases d - 1, 6, 0
  {
    hide Within, Closed, Coeff, Sparse;
    ClosedAt(cells, Cell(d, k, f));
    if Live(d - 1, k, f, a, g) {
      assert Cell(d - 1, a, g) in Dependencies(Cell(d, k, f));
      assert Cell(d - 1, k - a, f - g) in Dependencies(Cell(d, k, f));
      CellIsDense(cells, d - 1, a, g);
      CellIsDense(cells, d - 1, k - a, f - g);
    } else if !Within(d - 1, a, g) {
      CellIsDense(cells, d - 1, a, g);
      ZeroOutside(d - 1, a, g);
    } else {
      CellIsDense(cells, d - 1, k - a, f - g);
      ZeroOutside(d - 1, k - a, f - g);
    }
  }

  /** V7's local cells together with the whole V6 closure are closed, so the delta is
      computed from them alone. */
  lemma DeltaClosed(needed: set<Cell>, v6: set<Cell>)
    requires Closed(v6) && ClosedExcept(needed, v6)
    ensures Closed((needed - v6) + v6)
    ensures forall c :: c in needed - v6 ==> Dependencies(c) <= (needed - v6) + (needed * v6)
    ensures forall c :: c in needed - v6 ==>
      Sparse((needed - v6) + v6, c.d, c.k, c.f) == Coeff(c.d, c.k, c.f)
  {
    hide Dependencies, Sparse, Coeff;
    forall c | c in needed - v6
      ensures Sparse((needed - v6) + v6, c.d, c.k, c.f) == Coeff(c.d, c.k, c.f)
    {
      SparseIsDense((needed - v6) + v6, c.d, c.k, c.f);
    }
  }

  /** Both generators, for every choice of seeds: the V6 worklist, the V7 worklist stopped at the V6
      cells, and the split into local and external cells.  Nothing stays unresolved, and every cell
      of either takes its dense value from these cells alone. */
  method DeltaSymbolGraph(seeds6: seq<Cell>, seeds7: seq<Cell>, ghost top: Cell)
    returns (v6: set<Cell>, local: set<Cell>, external: set<Cell>)
    requires forall c :: c in seeds6 || c in seeds7 ==> c in Universe(top)
    ensures IsClosureOf(v6, seeds6, {})
    ensures local !! v6 && external <= v6 && forall c :: c in seeds7 ==> c in local + external
    ensures forall c :: c in local ==> Dependencies(c) <= local + external
    ensures Closed(local + v6)
    ensures forall c :: c in local + v6 ==> Sparse(local + v6, c.d, c.k, c.f) == Coeff(c.d, c.k, c.f)
    ensures forall other: set<Cell> :: IsClosureOf(other, seeds7, v6) ==> local + external <= other
  {
    hide Dependencies, Sparse, Coeff, Universe;
    v6 := Closure(seeds6, {}, top);
    var needed := Closure(seeds7, v6, top);
    local, external := needed - v6, needed * v6;
    DeltaClosed(needed, v6);
    assert needed == local + external;
    forall c | c in local + v6 ensures Sparse(local + v6, c.d, c.k, c.f) == Coeff(c.d, c.k, c.f) {
      SparseIsDense(local + v6, c.d, c.k, c.f);
    }
  }

  /** The envelope is an upper bound, not always attained: at depth 1 with both leaves
      selected it allows frontier 1, where the coefficient is zero. */
  lemma EnvelopeNotAttained()
    ensures Within(1, 2, 1) && Coeff(1, 2, 1) == 0
  {
    assert SupportMax(0, 2) == 0;
    assert Coeff(0, 2, 0) == 0;
    assert Conv(0, 1, 1, 1, 1) == Coeff(0, 1, 0) * Coeff(0, 1, 1) == 0;
    assert Conv(0, 1, 1, 1, 2) == Conv(0, 1, 1, 1, 1) + Coeff(0, 1, 1) * Coeff(0, 1, 0);
    assert SplitSum(0, 2, 1, 2) == SplitSum(0, 2, 1, 1) + Conv(0, 1, 1, 1, 2);
  }
}

/** The query / terminal pipeline: one carried elimination feeding a second echelon. */
module RawSchur {
  import opened M31
  import opened Vectors
  import opened Schur
  import opened Dimension
  import opened Echelons

  ghost function RawParts(columns: seq<Vec>, n: nat): (r: seq<Vec>)
    requires forall v :: v in columns ==> n <= |v|
    ensures |r| == |columns| && forall v :: v in r ==> |v| == n
  {
    seq(|columns|, i requires 0 <= i < |columns| => columns[i][..n])
  }

  /** A basis of the carries c for which (0, c) is a combination of the columns. */
  ghost predicate SchurBasis(basis: seq<Vec>, columns: seq<Vec>, n: nat, m: nat)
  {
    && (forall c :: c in basis ==> |c| == m)
    && Independent(basis, m)
    && (forall c: Vec :: |c| == m ==> (InSpan(basis, m, c) <==> InSpan(columns, n + m, Carried(n, c))))
  }

  ghost predicate SameImage(residuals: seq<Vec>, columns: seq<Vec>, n: nat, m: nat)
  {
    && (forall c :: c in residuals ==> |c| == m)
    && (forall c: Vec :: |c| == m ==> (InSpan(residuals, m, c) <==> InSpan(columns, n + m, Carried(n, c))))
  }

  lemma ImageDimension(residuals: seq<Vec>, columns: seq<Vec>, n: nat, m: nat, basis: seq<Vec>)
    requires SameImage(residuals, columns, n, m) && SchurBasis(basis, columns, n, m)
    ensures |basis| == FreshCount(residuals, m)
  {
    hide InSpan, FreshCount, Independent, Carried;
    forall v: Vec ensures InSpan(basis, m, v) <==> InSpan(residuals, m, v) {
      if InSpan(basis, m, v) { SpanLength(basis, m, v); }
      if InSpan(residuals, m, v) { SpanLength(residuals, m, v); }
    }
    DimensionUnique(residuals, basis, m);
  }

  lemma ImageBasis(residuals: seq<Vec>, columns: seq<Vec>, n: nat, m: nat)
    requires SameImage(residuals, columns, n, m)
    ensures SchurBasis(FreshOnes(residuals, m), columns, n, m)
  {
    hide InSpan, FreshCount, Independent, Carried;
    FreshOnesBasis(residuals, m);
  }

  method ToArray(v: Vec) returns (a: array<Elem>)
    ensures fresh(a) && a[..] == v
  {
    a := new Elem[|v|](i requires 0 <= i < |v| => v[i]);
  }

  /** No list is a pivot of both forms. */
  ghost predicate Apart(query: CarryEchelon, schur: ColumnEchelon)
    reads query, schur
  {
    forall a: array?<Elem> :: a in schur.pivots && a != null ==> a !in query.repr
  }

  /** One column: eliminate its raw part, hand any residual on. */
  method Feed(query: CarryEchelon, schur: ColumnEchelon, column: Vec)
    requires query.Valid() && schur.Valid() && Apart(query, schur)
    requires |column| == query.n + query.m && schur.n == query.m
    requires schur.history == query.residuals
    modifies query, schur
    ensures query.Valid() && schur.Valid() && Apart(query, schur)
    ensures query.history == old(query.history) + [column]
    ensures schur.history == query.residuals
  {
    hide InSpan, CarryEchelon.Valid, ColumnEchelon.Valid;
    var raw := ToArray(column[..query.n]);
    var carry := ToArray(column[query.n..]);
    assert column == column[..query.n] + column[query.n..];
    var residual := query.Reduce(raw, carry);
    if residual != null {
      InsertResidual(query, schur, carry);
    }
  }

  method InsertResidual(query: CarryEchelon, schur: ColumnEchelon, carry: array<Elem>)
    requires query.Valid() && schur.Valid() && Apart(query, schur)
    requires carry.Length == schur.n && carry !in query.repr && carry !in schur.pivots
    modifies schur, carry
    ensures query.Valid() && schur.Valid() && Apart(query, schur)
    ensures schur.history == old(schur.history) + [old(carry[..])]
  {
    hide InSpan, CarryEchelon.Valid;
    var _ := schur.Insert(carry);
    forall a: array?<Elem> | a in schur.pivots && a != null ensures a !in query.repr {
      var p :| 0 <= p < schur.n && schur.pivots[p] == a;
    }
  }

  /** `queryRank` is the dimension of the raw parts' span and `schurRank` the dimension
      of the space of carries left once every raw part is eliminated. */
  method VerifyRawSchur(columns: seq<Vec>, n: nat, m: nat) returns (queryRank: nat, schurRank: nat)
    requires forall v :: v in columns ==> |v| == n + m
    ensures queryRank == FreshCount(RawParts(columns, n), n)
    ensures exists basis :: SchurBasis(basis, columns, n, m)
    ensures forall basis :: SchurBasis(basis, columns, n, m) ==> schurRank == |basis|
  {
    hide InSpan, FreshCount, SameImage, SchurBasis, RawParts, CarryEchelon.Valid;
    var query := new CarryEchelon(n, m);
    var schur := new ColumnEchelon(m);
    for i := 0 to |columns|
      invariant query.Valid() && schur.Valid() && Apart(query, schur)
      invariant query.history == columns[..i] && schur.history == query.residuals
    {
      Feed(query, schur, columns[i]);
    }
    queryRank, schurRank := query.rank, schur.rank;
    assert columns[..|columns|] == columns;
    RawHistory(query);
    ResidualImage(query);
    ImageBasis(query.residuals, columns, n, m);
    forall basis | SchurBasis(basis, columns, n, m) ensures schurRank == |basis| {
      ImageDimension(query.residuals, columns, n, m, basis);
    }
  }

  lemma RawHistory(query: CarryEchelon)
    requires query.Valid()
    ensures forall v :: v in query.history ==> |v| == query.n + query.m
    ensures query.rank == FreshCount(RawParts(query.history, query.n), query.n)
  {
    hide InSpan, FreshCount;
    assert query.rawHistory == RawParts(query.history, query.n);
  }

  lemma ResidualImage(query: CarryEchelon)
    requires query.Valid()
    ensures SameImage(query.residuals, query.history, query.n, query.m)
  {
    hide InSpan, FreshCount;
    forall c: Vec | |c| == query.m
      ensures InSpan(query.residuals, query.m, c) <==> InSpan(query.history, query.n + query.m, Carried(query.n, c))
    {
      query.Image(c);
    }
  }
}

/** gauss and findNonzero of poly.go: in-place Gaussian elimination on a
    k x (k+1) matrix held as k distinct row arrays. */
module Elimination {
  import opened Errors
  import opened GF
  import opened Poly
  import opened Matrix
  import opened Collections

  /** The row arrays of m. */
  ghost function RowSet(m: array<array<Word>>): set<array<Word>>
    reads m
  {
    Elements(m[..])
  }

  /** k row arrays of width k + 1, no two of them the same array. */
  ghost predicate RowArrays(s: seq<array<Word>>) {
    && (forall i :: 0 <= i < |s| ==> s[i].Length == |s| + 1)
    && (forall i, j :: 0 <= i < |s| && 0 <= j < |s| && i != j ==> s[i] != s[j])
  }

  /** Exchanging two row arrays keeps the shape and the set of arrays. */
  lemma SwapRowArrays(s: seq<array<Word>>, r: nat, i: nat)
    requires RowArrays(s) && r < |s| && i < |s|
    ensures RowArrays(s[r := s[i]][i := s[r]])
    ensures Elements(s[r := s[i]][i := s[r]]) == Elements(s)
  {
    var t := s[r := s[i]][i := s[r]];
    forall a | a in s ensures a in t {
      var j :| 0 <= j < |s| && s[j] == a;
      if j == r {
        assert t[i] == a;
      } else if j == i {
        assert t[r] == a;
      } else {
        assert t[j] == a;
      }
    }
  }

  /** The contents of m as a value. */
  ghost function Rows(m: array<array<Word>>): (M: seq<seq<Word>>)
    reads m, RowSet(m)
    ensures |M| == m.Length && forall i :: 0 <= i < m.Length ==> M[i] == m[i][..]
  {
    seq(m.Length, i requires 0 <= i < m.Length reads m, RowSet(m) => m[i][..])
  }

  /** m holds k distinct rows of width k + 1. */
  ghost predicate IsMatrix(m: array<array<Word>>)
    reads m
  {
    RowArrays(m[..])
  }

  /** findNonzero: the first row at or below r with a non-zero entry in column
      r, or -1 when there is none. */
  method FindNonzero(m: array<array<Word>>, r: nat) returns (k: int)
    requires forall i :: r <= i < m.Length ==> r < m[i].Length
    ensures k == -1 || r <= k < m.Length
    ensures k == -1 <==> forall i :: r <= i < m.Length ==> m[i][r] == 0
    ensures k != -1 ==> m[k][r] != 0 && forall i :: r <= i < k ==> m[i][r] == 0
  {
    var i := r;
    while i < m.Length
      invariant r <= i && (r <= m.Length ==> i <= m.Length)
      invariant forall j :: r <= j < i && j < m.Length ==> m[j][r] == 0
    {
      if m[i][r] != 0 {
        return i;
      }
      i := i + 1;
    }
    return -1;
  }

  /** When every row but row i still holds what M recorded, the matrix is M
      with row i replaced. */
  lemma RowsOneChanged(m: array<array<Word>>, M: seq<seq<Word>>, i: nat)
    requires |M| == m.Length && i < m.Length
    requires forall j :: 0 <= j < m.Length && j != i ==> m[j][..] == M[j]
    ensures Rows(m) == M[i := m[i][..]]
  {
  }

  /** The state of the loop at poly.go:20-25 before row i: the first r
      columns stay reduced, the solutions are those of M0, and the rows
      r .. i-1 carry 0 or 1 in column r. */
  ghost predicate Normalizing(F: Field, M: seq<seq<Word>>, M0: seq<seq<Word>>, r: nat, i: nat) {
    && Echelon(M, r) && SameSolutions(F, M, M0)
    && r <= i <= |M| && r < |M| && M[r][r] != 0
    && forall j :: r <= j < i ==> M[j][r] == 0 || M[j][r] == 1
  }

  /** One step of the loop at poly.go:20-25, on values: a row whose entry in
      column r is non-zero is scaled by that entry's inverse. */
  lemma NormalizeStep(F: Field, M: seq<seq<Word>>, M0: seq<seq<Word>>, r: nat, i: nat, a: Word)
    requires IsField(F)
    requires Normalizing(F, M, M0, r, i) && i < |M|
    requires a != 0 && F.mul(M[i][r], a) == 1
    ensures Normalizing(F, M[i := Scaled(F, M[i], a)], M0, r, i + 1)
  {
    var N := M[i := Scaled(F, M[i], a)];
    ScaleSameSolutions(F, M, i, a);
    forall j | 0 <= j < r ensures N[i][j] == 0 {
      MulZero(F, a);
    }
  }

  /** The loop at poly.go:20-25 skips a row whose entry in column r is 0. */
  lemma NormalizeSkip(F: Field, M: seq<seq<Word>>, M0: seq<seq<Word>>, r: nat, i: nat)
    requires Normalizing(F, M, M0, r, i) && i < |M| && M[i][r] == 0
    ensures Normalizing(F, M, M0, r, i + 1)
  {
  }

  /** When the loop at poly.go:20-25 ends, the pivot is 1 and the loop at
      poly.go:27-32 can start. */
  lemma NormalizeDone(F: Field, M: seq<seq<Word>>, M0: seq<seq<Word>>, r: nat)
    requires Normalizing(F, M, M0, r, |M|)
    ensures Eliminating(F, M, M, r, r + 1) && SameSolutions(F, M, M0)
  {
  }

  /** What the loop at poly.go:20-25 has done before row i: each earlier row
      at or below r whose entry in column r was non-zero is scaled by the
      inverse of that entry, and every other row holds its contents in M0. */
  ghost predicate ScaledBefore(F: Field, M: seq<seq<Word>>, M0: seq<seq<Word>>, r: nat, i: nat) {
    && IsField(F) && Shaped(M0) && |M| == |M0| && r < |M0| && i <= |M0|
    && (forall j :: 0 <= j < i ==>
          M[j] == if r <= j && M0[j][r] != 0 then Scaled(F, M0[j], Inverse(F, M0[j][r])) else M0[j])
    && (forall j :: i <= j < |M| ==> M[j] == M0[j])
  }

  /** One more row of the loop at poly.go:20-25, as far as contents go. */
  lemma ScaledBeforeStep(F: Field, M: seq<seq<Word>>, M0: seq<seq<Word>>, r: nat, i: nat, a: Word)
    requires ScaledBefore(F, M, M0, r, i) && r <= i < |M|
    requires M[i][r] != 0 && a == Inverse(F, M[i][r])
    ensures ScaledBefore(F, M[i := Scaled(F, M[i], a)], M0, r, i + 1)
  {
  }

  /** A row whose entry in column r is 0 is left as it was. */
  lemma ScaledBeforeSkip(F: Field, M: seq<seq<Word>>, M0: seq<seq<Word>>, r: nat, i: nat)
    requires ScaledBefore(F, M, M0, r, i) && r <= i < |M| && M[i][r] == 0
    ensures ScaledBefore(F, M, M0, r, i + 1)
  {
  }

  /** The state of the loop at poly.go:27-32 before row i: column r is
      cleared on rows r+1 .. i-1 and holds 0 or 1 below. */
  ghost predicate Eliminating(F: Field, M: seq<seq<Word>>, M0: seq<seq<Word>>, r: nat, i: nat) {
    && Echelon(M, r) && SameSolutions(F, M, M0)
    && r < i <= |M| && M[r][r] == 1
    && (forall j :: r < j < i ==> M[j][r] == 0)
    && (forall j :: i <= j < |M| ==> M[j][r] == 0 || M[j][r] == 1)
  }

  /** One step of the loop at poly.go:27-32, on values: a row whose entry in
      column r is 1 gets row r added to it. */
  lemma EliminateStep(F: Field, M: seq<seq<Word>>, M0: seq<seq<Word>>, r: nat, i: nat)
    requires IsField(F)
    requires Eliminating(F, M, M0, r, i) && i < |M| && M[i][r] != 0
    ensures Eliminating(F, M[i := Added(M[i], M[r])], M0, r, i + 1)
  {
    AddSameSolutions(F, M, i, r);
  }

  /** What the loop at poly.go:27-32 has done before row i: each earlier row
      below r whose entry in column r was non-zero has row r added to it, and
      every other row holds its contents in M0. */
  ghost predicate AddedBefore(M: seq<seq<Word>>, M0: seq<seq<Word>>, r: nat, i: nat) {
    && Shaped(M0) && |M| == |M0| && r < |M0| && i <= |M0|
    && (forall j :: 0 <= j < i ==>
          M[j] == if r < j && M0[j][r] != 0 then Added(M0[j], M0[r]) else M0[j])
    && (forall j :: i <= j < |M| ==> M[j] == M0[j])
  }

  /** One more row of the loop at poly.go:27-32, as far as contents go. */
  lemma AddedBeforeStep(M: seq<seq<Word>>, M0: seq<seq<Word>>, r: nat, i: nat)
    requires AddedBefore(M, M0, r, i) && r < i < |M| && M[i][r] != 0
    ensures AddedBefore(M[i := Added(M[i], M[r])], M0, r, i + 1)
  {
  }

  /** A row whose entry in column r is 0 is left as it was. */
  lemma AddedBeforeSkip(M: seq<seq<Word>>, M0: seq<seq<Word>>, r: nat, i: nat)
    requires AddedBefore(M, M0, r, i) && r < i < |M| && M[i][r] == 0
    ensures AddedBefore(M, M0, r, i + 1)
  {
  }

  /** The loop at poly.go:27-32 skips a row whose entry in column r is 0. */
  lemma EliminateSkip(F: Field, M: seq<seq<Word>>, M0: seq<seq<Word>>, r: nat, i: nat)
    requires Eliminating(F, M, M0, r, i) && i < |M| && M[i][r] == 0
    ensures Eliminating(F, M, M0, r, i + 1)
  {
  }

  /** When the loop at poly.go:27-32 ends, column r is reduced as well. */
  lemma EliminateDone(F: Field, M: seq<seq<Word>>, M0: seq<seq<Word>>, r: nat)
    requires Eliminating(F, M, M0, r, |M|)
    ensures Echelon(M, r + 1) && SameSolutions(F, M, M0)
  {
  }

  /** One step of the loop at poly.go:36-39, on values: row r is scaled by
      row 0's entry in column r and added into row 0, clearing that entry. */
  lemma BackStep(F: Field, M: seq<seq<Word>>, U: seq<seq<Word>>, r: nat)
    requires IsField(F)
    requires Echelon(U, |U|) && Shaped(M) && |M| == |U|
    requires 1 <= r < |M|
    requires forall j :: r <= j < |M| ==> M[j] == U[j]
    requires M[0][0] == 1 && forall j :: 1 <= j < r ==> M[0][j] == 0
    requires forall v :: Satisfies(F, U, v) ==> Satisfies(F, M, v)
    ensures var M1 := M[r := Scaled(F, M[r], M[0][r])];
      var N := M1[0 := Added(M1[0], M1[r])];
      && Shaped(N)
      && (forall j :: r < j < |N| ==> N[j] == U[j])
      && N[0][0] == 1 && (forall j :: 1 <= j <= r ==> N[0][j] == 0)
      && (forall v :: Satisfies(F, U, v) ==> Satisfies(F, N, v))
  {
    var a := M[0][r];
    var M1 := M[r := Scaled(F, M[r], a)];
    var N := M1[0 := Added(M1[0], M1[r])];
    MulZero(F, a);
    MulOne(F, a);
    forall v | Satisfies(F, U, v) ensures Satisfies(F, N, v) {
      ScaleKeepsSolutions(F, M, r, a, v);
      AddSameSolutions(F, M1, 0, r);
    }
  }

  /** The exchange at poly.go:18 on values: rows r and i >= r trade places. */
  lemma SwapStep(F: Field, M: seq<seq<Word>>, r: nat, i: nat)
    requires Echelon(M, r) && r <= i < |M| && M[i][r] != 0
    ensures var N := M[r := M[i]][i := M[r]];
      Echelon(N, r) && SameSolutions(F, N, M) && N[r][r] != 0
  {
    SwapSameSolutions(F, M, r, i);
  }

  lemma SameSolutionsRefl(F: Field, A: seq<seq<Word>>)
    ensures SameSolutions(F, A, A)
  {
  }

  lemma SameSolutionsSym(F: Field, A: seq<seq<Word>>, B: seq<seq<Word>>)
    requires SameSolutions(F, A, B)
    ensures SameSolutions(F, B, A)
  {
  }

  lemma SameSolutionsTrans(F: Field, A: seq<seq<Word>>, B: seq<seq<Word>>, C: seq<seq<Word>>)
    requires SameSolutions(F, A, B) && SameSolutions(F, B, C)
    ensures SameSolutions(F, A, C)
  {
  }

  /** scalePoly(m[i], m[i], a) on a matrix row: row i is multiplied by a,
      the other rows keep their contents. */
  method ScaleRow(F: Field, m: array<array<Word>>, i: nat, a: Word)
    requires IsMatrix(m) && i < m.Length
    modifies m[i]
    ensures Rows(m) == old(Rows(m))[i := Scaled(F, old(Rows(m))[i], a)]
  {
    ghost var M := Rows(m);
    ScalePoly(F, m[i], m[i], a);
    assert m[i][..] == m[i][..m.Length + 1];
    RowsOneChanged(m, M, i);
  }

  /** addPoly(m[i], m[i], m[r]) on matrix rows: row r is added into row i,
      the other rows keep their contents. */
  method AddRow(F: Field, m: array<array<Word>>, i: nat, r: nat)
    requires IsMatrix(m) && i < m.Length && r < m.Length && i != r
    modifies m[i]
    ensures Rows(m) == old(Rows(m))[i := Added(old(Rows(m))[i], old(Rows(m))[r])]
  {
    ghost var M := Rows(m);
    AddPoly(F, m[i], m[i], m[r]);
    assert m[i][..] == m[i][..m.Length + 1];
    RowsOneChanged(m, M, i);
  }

  /** poly.go:20-25: every row at or below r with a non-zero entry in column
      r is scaled by the inverse of that entry, so that the entry becomes 1;
      every other row is left as it was. */
  method NormalizeColumn(F: Field, m: array<array<Word>>, r: nat)
    requires IsField(F) && IsMatrix(m) && r < m.Length
    requires Echelon(Rows(m), r) && m[r][r] != 0
    modifies RowSet(m)
    ensures Normalizing(F, Rows(m), old(Rows(m)), r, m.Length)
    ensures forall j :: 0 <= j < m.Length ==>
              Rows(m)[j] == if r <= j && old(Rows(m))[j][r] != 0
                            then Scaled(F, old(Rows(m))[j], Inverse(F, old(Rows(m))[j][r]))
                            else old(Rows(m))[j]
  {
    ghost var M0 := Rows(m);
    ghost var M := M0;
    for i := r to m.Length
      invariant M == Rows(m) && Normalizing(F, M, M0, r, i)
      invariant ScaledBefore(F, M, M0, r, i)
    {
      if m[i][r] != 0 {
        var a := Inverse(F, m[i][r]);
        ScaleRow(F, m, i, a);
        NormalizeStep(F, M, M0, r, i, a);
        ScaledBeforeStep(F, M, M0, r, i, a);
        M := M[i := Scaled(F, M[i], a)];
      } else {
        NormalizeSkip(F, M, M0, r, i);
        ScaledBeforeSkip(F, M, M0, r, i);
      }
    }
  }

  /** poly.go:27-32: row r (pivot 1) is added into every lower row whose entry
      in column r is non-zero (after normalisation: 1), clearing column r
      below the pivot; every other row is left as it was. */
  method EliminateBelow(F: Field, m: array<array<Word>>, r: nat)
    requires IsField(F) && IsMatrix(m) && r < m.Length
    requires Eliminating(F, Rows(m), Rows(m), r, r + 1)
    modifies RowSet(m)
    ensures Echelon(Rows(m), r + 1) && SameSolutions(F, Rows(m), old(Rows(m)))
    ensures forall j :: 0 <= j < m.Length ==>
              Rows(m)[j] == if r < j && old(Rows(m))[j][r] != 0
                            then Added(old(Rows(m))[j], old(Rows(m))[r])
                            else old(Rows(m))[j]
  {
    ghost var M0 := Rows(m);
    ghost var M := M0;
    for i := r + 1 to m.Length
      invariant M == Rows(m) && Eliminating(F, M, M0, r, i)
      invariant AddedBefore(M, M0, r, i)
    {
      if m[i][r] != 0 {
        AddRow(F, m, i, r);
        EliminateStep(F, M, M0, r, i);
        AddedBeforeStep(M, M0, r, i);
        M := M[i := Added(M[i], M[r])];
      } else {
        EliminateSkip(F, M, M0, r, i);
        AddedBeforeSkip(M, M0, r, i);
      }
    }
    EliminateDone(F, M, M0, r);
  }

  /** poly.go:35-39: the shortened back substitution that clears row 0
      beyond its pivot. */
  method BackSubstitute(F: Field, m: array<array<Word>>)
    requires IsField(F) && IsMatrix(m)
    requires Echelon(Rows(m), m.Length)
    modifies RowSet(m)
    ensures m.Length > 0 ==> m[0][0] == 1 && forall j :: 1 <= j < m.Length ==> m[0][j] == 0
    ensures forall v :: Satisfies(F, old(Rows(m)), v) ==> Satisfies(F, Rows(m), v)
  {
    ghost var U := Rows(m);
    ghost var M := U;
    var r := 1;
    while r < m.Length
      invariant 1 <= r && (m.Length > 0 ==> r <= m.Length)
      invariant M == Rows(m) && Shaped(M)
      invariant forall j :: r <= j < m.Length ==> M[j] == U[j]
      invariant m.Length > 0 ==> M[0][0] == 1 && forall j :: 1 <= j < r ==> M[0][j] == 0
      invariant forall v :: Satisfies(F, U, v) ==> Satisfies(F, M, v)
    {
      var a := m[0][r];
      ScaleRow(F, m, r, a);
      ghost var M1 := M[r := Scaled(F, M[r], a)];
      AddRow(F, m, 0, r);
      BackStep(F, M, U, r);
      M := M1[0 := Added(M1[0], M1[r])];
      r := r + 1;
    }
  }

  /** The exchange of row arrays at poly.go:18. */
  method SwapRows(m: array<array<Word>>, r: nat, i: nat)
    requires IsMatrix(m) && r < m.Length && i < m.Length
    modifies m
    ensures IsMatrix(m) && RowSet(m) == old(RowSet(m))
    ensures Rows(m) == old(Rows(m))[r := old(Rows(m))[i]][i := old(Rows(m))[r]]
  {
    ghost var M := Rows(m);
    ghost var s := m[..];
    m[r], m[i] := m[i], m[r];
    assert m[..] == s[r := s[i]][i := s[r]];
    SwapRowArrays(s, r, i);
    assert Rows(m) == M[r := M[i]][i := M[r]];
  }

  /** poly.go:12-19: make the pivot m[r][r] non-zero by exchanging row r with
      the first lower row that has a non-zero entry in column r; report false
      when there is none, in which case the system is singular. */
  method Pivot(F: Field, m: array<array<Word>>, r: nat) returns (found: bool)
    requires IsField(F) && IsMatrix(m) && r < m.Length && Echelon(Rows(m), r)
    modifies m
    ensures IsMatrix(m) && RowSet(m) == old(RowSet(m))
    ensures found ==> Echelon(Rows(m), r) && SameSolutions(F, Rows(m), old(Rows(m))) && m[r][r] != 0
    ensures !found ==> Singular(F, old(Rows(m)))
    ensures found <==> exists j :: r <= j < m.Length && old(Rows(m))[j][r] != 0
    ensures old(Rows(m))[r][r] != 0 ==> Rows(m) == old(Rows(m))
    ensures old(Rows(m))[r][r] == 0 && found ==>
              exists k :: && r < k < m.Length && old(Rows(m))[k][r] != 0
                          && (forall j :: r <= j < k ==> old(Rows(m))[j][r] == 0)
                          && Rows(m) == old(Rows(m))[r := old(Rows(m))[k]][k := old(Rows(m))[r]]
  {
    ghost var M := Rows(m);
    if m[r][r] != 0 {
      SameSolutionsRefl(F, M);
      assert M[r][r] != 0;
      return true;
    }
    var i := FindNonzero(m, r);
    if i == -1 {
      assert forall j :: r <= j < m.Length ==> M[j][r] == m[j][r];
      StallSingular(F, M, r);
      return false;
    }
    assert M[i][r] != 0 && forall j :: r <= j < i ==> M[j][r] == m[j][r];
    SwapRows(m, r, i);
    ghost var N := Rows(m);
    assert N == M[r := M[i]][i := M[r]];
    SwapStep(F, M, r, i);
    assert m[r][..] == M[i];
    return true;
  }

  /** One pass of the loop at poly.go:11-33: pivot, normalize and clear
      column r, or report that no pivot exists. */
  method ReduceColumn(F: Field, m: array<array<Word>>, r: nat) returns (found: bool)
    requires IsField(F) && IsMatrix(m) && r < m.Length && Echelon(Rows(m), r)
    modifies m, RowSet(m)
    ensures IsMatrix(m) && RowSet(m) == old(RowSet(m))
    ensures found ==> Echelon(Rows(m), r + 1) && SameSolutions(F, Rows(m), old(Rows(m)))
    ensures !found ==> Singular(F, old(Rows(m)))
    ensures found <==> exists j :: r <= j < m.Length && old(Rows(m))[j][r] != 0
  {
    ghost var M0 := Rows(m);
    found := Pivot(F, m, r);
    if !found {
      return;
    }
    ghost var M1 := Rows(m);
    NormalizeColumn(F, m, r);
    NormalizeDone(F, Rows(m), M1, r);
    SameSolutionsTrans(F, Rows(m), M1, M0);
    ghost var M2 := Rows(m);
    EliminateBelow(F, m, r);
    SameSolutionsTrans(F, Rows(m), M2, M0);
  }

  /** A system with the solutions of a triangular one is not singular. */
  lemma EchelonNonsingular(F: Field, U: seq<seq<Word>>, M0: seq<seq<Word>>)
    requires IsField(F) && Echelon(U, |U|) && SameSolutions(F, U, M0)
    ensures !Singular(F, M0)
  {
    TriangularNonsingular(F, U);
    if Singular(F, M0) {
      SameSolutionsSym(F, U, M0);
      SingularTransfer(F, M0, U);
      assert false;
    }
  }

  /** Once row 0 reads [1, 0, ..., 0, s], every solution c + [1] of the
      original system has c[0] == s. */
  lemma SolvedRowReads(F: Field, M0: seq<seq<Word>>, U: seq<seq<Word>>, R: seq<seq<Word>>)
    requires IsField(F) && |R| == |U| >= 1 && |R[0]| == |R| + 1
    requires R[0][0] == 1 && forall j :: 1 <= j < |R| ==> R[0][j] == 0
    requires SameSolutions(F, U, M0)
    requires forall v :: Satisfies(F, U, v) ==> Satisfies(F, R, v)
    ensures forall c :: |c| == |R| && Satisfies(F, M0, c + [1]) ==> c[0] == R[0][|R|]
  {
    forall c | |c| == |R| && Satisfies(F, M0, c + [1]) ensures c[0] == R[0][|R|] {
      assert Satisfies(F, U, c + [1]);
      ReducedRowValue(F, R[0], c);
    }
  }

  /** The first loop of gauss: brings the matrix to upper triangular form
      with ones on the diagonal, or finds a column with no pivot. */
  method Triangularize(F: Field, m: array<array<Word>>) returns (found: bool)
    requires IsField(F) && IsMatrix(m)
    modifies m, RowSet(m)
    ensures IsMatrix(m) && RowSet(m) == old(RowSet(m))
    ensures found ==> Echelon(Rows(m), m.Length) && SameSolutions(F, Rows(m), old(Rows(m)))
    ensures !found ==> Singular(F, old(Rows(m)))
  {
    ghost var S := RowSet(m);
    ghost var M0 := Rows(m);
    for r := 0 to m.Length
      invariant IsMatrix(m) && RowSet(m) == S
      invariant Echelon(Rows(m), r) && SameSolutions(F, Rows(m), M0)
    {
      ghost var M := Rows(m);
      found := ReduceColumn(F, m, r);
      if !found {
        SingularTransfer(F, M, M0);
        return;
      }
      SameSolutionsTrans(F, Rows(m), M, M0);
    }
    found := true;
  }

  /** gauss: forward elimination to unit upper-triangular form, then the
      shortened back substitution that only clears row 0. It fails exactly
      when the coefficient part of the input is singular; on success row 0
      is [1, 0, ..., 0, s] and s is c[0] for every solution c of the input. */
  method Gauss(F: Field, m: array<array<Word>>) returns (result: Outcome)
    requires IsField(F)
    requires IsMatrix(m)
    modifies m, RowSet(m)
    ensures IsMatrix(m)
    ensures result == Pass || result == Fail(SingularMatrix)
    ensures result == Pass <==> !Singular(F, old(Rows(m)))
    ensures result == Pass && m.Length > 0 ==>
              m[0][0] == 1 && forall j :: 1 <= j < m.Length ==> m[0][j] == 0
    ensures result == Pass && m.Length > 0 ==>
              forall c :: |c| == m.Length && Satisfies(F, old(Rows(m)), c + [1]) ==> c[0] == m[0][m.Length]
  {
    var k := m.Length;
    ghost var M0 := Rows(m);
    var triangular := Triangularize(F, m);
    if !triangular {
      return Fail(SingularMatrix);
    }

    // back substitute to have row[0] = [1, 0, 0, ..., secret]
    ghost var U := Rows(m);
    EchelonNonsingular(F, U, M0);
    BackSubstitute(F, m);
    if k > 0 {
      SolvedRowReads(F, M0, U, Rows(m));
    }
    return Pass;
  }
}

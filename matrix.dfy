/** The linear algebra behind gauss: a k x (k+1) matrix M over the field is the
    system M[i][0]*c[0] + ... + M[i][k-1]*c[k-1] = M[i][k]; in characteristic 2
    that is "Dot(M[i], c + [1]) == 0". Row operations are judged by the set of
    vectors v with Dot(M[i], v) == 0 for every row. */
module Matrix {
  import opened GF
  import opened Poly

  /** Sum of u[j] * v[j]. */
  function Dot(F: Field, u: seq<Word>, v: seq<Word>): Word
    requires |u| == |v|
  {
    if |u| == 0 then 0
    else Add(Dot(F, u[..|u| - 1], v[..|v| - 1]), F.mul(u[|u| - 1], v[|v| - 1]))
  }

  /** v lies in the null space of every row of M. */
  ghost predicate Satisfies(F: Field, M: seq<seq<Word>>, v: seq<Word>) {
    forall i :: 0 <= i < |M| ==> |M[i]| == |v| && Dot(F, M[i], v) == 0
  }

  /** M and N, both with |M| rows, admit exactly the same vectors of width |M|+1. */
  ghost predicate SameSolutions(F: Field, M: seq<seq<Word>>, N: seq<seq<Word>>) {
    && |M| == |N|
    && forall v {:trigger Satisfies(F, M, v)} {:trigger Satisfies(F, N, v)} ::
         |v| == |M| + 1 ==> (Satisfies(F, M, v) <==> Satisfies(F, N, v))
  }

  ghost predicate NonZero(v: seq<Word>) {
    exists j :: 0 <= j < |v| && v[j] != 0
  }

  /** The coefficient part (all but the last column) of M has a non-trivial
      null space: the system has no unique solution. */
  ghost predicate Singular(F: Field, M: seq<seq<Word>>) {
    exists v :: |v| == |M| + 1 && v[|M|] == 0 && NonZero(v) && Satisfies(F, M, v)
  }

  /** Every row has width |M| + 1. */
  ghost predicate Shaped(M: seq<seq<Word>>) {
    forall i :: 0 <= i < |M| ==> |M[i]| == |M| + 1
  }

  /** The first r columns are in reduced form: unit pivots on the diagonal and
      zeros below them. */
  ghost predicate Echelon(M: seq<seq<Word>>, r: nat) {
    && Shaped(M)
    && r <= |M|
    && (forall i :: 0 <= i < r ==> M[i][i] == 1)
    && (forall i, j :: 0 <= j < r && j < i < |M| ==> M[i][j] == 0)
  }

  lemma {:induction false} DotScaled(F: Field, u: seq<Word>, a: Word, v: seq<Word>)
    requires IsField(F)
    requires |u| == |v|
    ensures Dot(F, Scaled(F, u, a), v) == F.mul(a, Dot(F, u, v))
  {
    MulZero(F, a);
    if |u| > 0 {
      var n := |u|;
      assert Scaled(F, u, a)[..n - 1] == Scaled(F, u[..n - 1], a);
      DotScaled(F, u[..n - 1], a, v[..n - 1]);
      MulComm(F, u[n - 1], a);
      MulAssoc(F, a, u[n - 1], v[n - 1]);
      Distrib(F, a, Dot(F, u[..n - 1], v[..n - 1]), F.mul(u[n - 1], v[n - 1]));
    }
  }

  lemma {:induction false} DotAdded(F: Field, u: seq<Word>, w: seq<Word>, v: seq<Word>)
    requires IsField(F)
    requires |u| == |w| == |v|
    ensures Dot(F, Added(u, w), v) == Add(Dot(F, u, v), Dot(F, w, v))
  {
    if |u| > 0 {
      var n := |u|;
      assert Added(u, w)[..n - 1] == Added(u[..n - 1], w[..n - 1]);
      DotAdded(F, u[..n - 1], w[..n - 1], v[..n - 1]);
      DistribRight(F, u[n - 1], w[n - 1], v[n - 1]);
    }
  }

  lemma {:induction false} DotSplit(F: Field, u: seq<Word>, v: seq<Word>, n: nat)
    requires |u| == |v| && n <= |u|
    ensures Dot(F, u, v) == Add(Dot(F, u[..n], v[..n]), Dot(F, u[n..], v[n..]))
  {
    var N := |u|;
    if n == N {
      assert u[..n] == u && v[..n] == v;
    } else {
      var u', v' := u[..N - 1], v[..N - 1];
      DotSplit(F, u', v', n);
      assert u'[..n] == u[..n] && v'[..n] == v[..n];
      var tu, tv := u[n..], v[n..];
      assert tu[..|tu| - 1] == u'[n..] && tv[..|tv| - 1] == v'[n..];
      AddAssoc(Dot(F, u[..n], v[..n]), Dot(F, u'[n..], v'[n..]), F.mul(u[N - 1], v[N - 1]));
    }
  }

  lemma {:induction false} DotZero(F: Field, u: seq<Word>, v: seq<Word>)
    requires IsField(F)
    requires |u| == |v|
    requires forall j :: 0 <= j < |u| ==> u[j] == 0 || v[j] == 0
    ensures Dot(F, u, v) == 0
  {
    if |u| > 0 {
      DotZero(F, u[..|u| - 1], v[..|v| - 1]);
      MulZero(F, u[|u| - 1]);
      MulZero(F, v[|v| - 1]);
    }
  }

  /** Dot of a vector starting with a single non-zero-able entry: the head
      product plus the dot of the tails. */
  lemma DotHead(F: Field, u: seq<Word>, v: seq<Word>)
    requires |u| == |v| && |u| >= 1
    ensures Dot(F, u, v) == Add(F.mul(u[0], v[0]), Dot(F, u[1..], v[1..]))
  {
    DotSplit(F, u, v, 1);
    assert u[..1][..0] == [] && v[..1][..0] == [];
  }

  /** Exchanging two rows keeps the solutions. */
  lemma SwapSameSolutions(F: Field, M: seq<seq<Word>>, r: nat, i: nat)
    requires r < |M| && i < |M|
    ensures SameSolutions(F, M[r := M[i]][i := M[r]], M)
  {
    var N := M[r := M[i]][i := M[r]];
    forall v | |v| == |M| + 1
      ensures Satisfies(F, N, v) <==> Satisfies(F, M, v)
    {
      if Satisfies(F, N, v) {
        forall j | 0 <= j < |M| ensures |M[j]| == |v| && Dot(F, M[j], v) == 0 {
          var src := if j == r then i else if j == i then r else j;
          assert N[src] == M[j];
        }
      }
    }
  }

  /** Replacing row i by one with the same width and the same solutions
      keeps the solutions of the whole system. */
  lemma ReplaceRow(F: Field, M: seq<seq<Word>>, i: nat, row: seq<Word>, v: seq<Word>)
    requires i < |M| && |row| == |M[i]|
    requires |row| == |v| ==> (Dot(F, row, v) == 0 <==> Dot(F, M[i], v) == 0)
    ensures Satisfies(F, M[i := row], v) <==> Satisfies(F, M, v)
  {
    var N := M[i := row];
    if Satisfies(F, N, v) {
      forall j | 0 <= j < |M| ensures |M[j]| == |v| && Dot(F, M[j], v) == 0 {
        assert j != i ==> N[j] == M[j];
      }
    }
    if Satisfies(F, M, v) {
      forall j | 0 <= j < |N| ensures |N[j]| == |v| && Dot(F, N[j], v) == 0 {
        assert j != i ==> N[j] == M[j];
      }
    }
  }

  /** Scaling a row by a non-zero factor keeps the solutions. */
  lemma ScaleSameSolutions(F: Field, M: seq<seq<Word>>, i: nat, a: Word)
    requires IsField(F)
    requires i < |M| && a != 0
    ensures SameSolutions(F, M[i := Scaled(F, M[i], a)], M)
  {
    var N := M[i := Scaled(F, M[i], a)];
    forall v | |v| == |M| + 1
      ensures Satisfies(F, N, v) <==> Satisfies(F, M, v)
    {
      if |M[i]| == |v| {
        DotScaled(F, M[i], a, v);
        MulZero(F, a);
        if Dot(F, N[i], v) == 0 {
          NoZeroDivisors(F, a, Dot(F, M[i], v));
        }
      }
      ReplaceRow(F, M, i, Scaled(F, M[i], a), v);
    }
  }

  /** Scaling a row by any factor, zero included, keeps every solution. */
  lemma ScaleKeepsSolutions(F: Field, M: seq<seq<Word>>, i: nat, a: Word, v: seq<Word>)
    requires IsField(F)
    requires i < |M|
    requires Satisfies(F, M, v)
    ensures Satisfies(F, M[i := Scaled(F, M[i], a)], v)
  {
    DotScaled(F, M[i], a, v);
    MulZero(F, a);
  }

  /** Adding row r into a different row i keeps the solutions. */
  lemma AddSameSolutions(F: Field, M: seq<seq<Word>>, i: nat, r: nat)
    requires IsField(F)
    requires i < |M| && r < |M| && i != r && |M[i]| == |M[r]|
    ensures SameSolutions(F, M[i := Added(M[i], M[r])], M)
  {
    var N := M[i := Added(M[i], M[r])];
    forall v | |v| == |M| + 1
      ensures Satisfies(F, N, v) <==> Satisfies(F, M, v)
    {
      if Satisfies(F, N, v) {
        assert N[r] == M[r];
        DotAdded(F, M[i], M[r], v);
        forall j | 0 <= j < |M| ensures |M[j]| == |v| && Dot(F, M[j], v) == 0 {
          assert j != i ==> N[j] == M[j];
        }
      }
      if Satisfies(F, M, v) {
        DotAdded(F, M[i], M[r], v);
        forall j | 0 <= j < |N| ensures |N[j]| == |v| && Dot(F, N[j], v) == 0 {
          assert j != i ==> N[j] == M[j];
        }
      }
    }
  }

  /** In an upper unit-triangular system a solution with last entry 0 that
      vanishes beyond j vanishes from j on. */
  lemma {:induction false} TriangularKernelZero(F: Field, U: seq<seq<Word>>, v: seq<Word>, j: nat)
    requires IsField(F)
    requires Echelon(U, |U|)
    requires |v| == |U| + 1 && v[|U|] == 0 && Satisfies(F, U, v)
    requires j <= |U|
    ensures forall l :: j <= l < |v| ==> v[l] == 0
    decreases |U| - j
  {
    if j < |U| {
      TriangularKernelZero(F, U, v, j + 1);
      var row := U[j];
      DotSplit(F, row, v, j);
      DotZero(F, row[..j], v[..j]);
      DotHead(F, row[j..], v[j..]);
      assert row[j..][1..] == row[j + 1..] && v[j..][1..] == v[j + 1..];
      DotZero(F, row[j + 1..], v[j + 1..]);
      MulOne(F, v[j]);
    }
  }

  /** An upper unit-triangular system is not singular. */
  lemma TriangularNonsingular(F: Field, U: seq<seq<Word>>)
    requires IsField(F)
    requires Echelon(U, |U|)
    ensures !Singular(F, U)
  {
    if Singular(F, U) {
      var v :| |v| == |U| + 1 && v[|U|] == 0 && NonZero(v) && Satisfies(F, U, v);
      TriangularKernelZero(F, U, v, 0);
      assert false;
    }
  }

  /** The tail v[i..] of the null-space vector built when elimination stalls
      at column r: v[r] = 1, v[l] = 0 beyond r, and each earlier entry is
      chosen so that row i's equation holds. */
  ghost function BackSolve(F: Field, M: seq<seq<Word>>, r: nat, i: nat): (t: seq<Word>)
    requires Shaped(M) && i <= r < |M|
    ensures |t| == |M| + 1 - i
    decreases r - i
  {
    if i == r then [1] + Zeros(|M| - r)
    else
      var rest := BackSolve(F, M, r, i + 1);
      [Dot(F, M[i][i + 1..], rest)] + rest
  }

  lemma {:induction false} BackSolveTail(F: Field, M: seq<seq<Word>>, r: nat, i: nat)
    requires Shaped(M) && i <= r < |M|
    ensures BackSolve(F, M, r, 0)[i..] == BackSolve(F, M, r, i)
  {
    if i > 0 {
      BackSolveTail(F, M, r, i - 1);
      assert BackSolve(F, M, r, 0)[i..] == BackSolve(F, M, r, 0)[i - 1..][1..];
    }
  }

  /** Each pivot row above the stalled column r holds for the vector
      BackSolve builds: its pivot entry is the dot of the rest of the row with
      the tail, which cancels in characteristic 2. */
  lemma StallRow(F: Field, M: seq<seq<Word>>, r: nat, i: nat)
    requires IsField(F)
    requires Echelon(M, r) && i < r < |M|
    ensures Dot(F, M[i], BackSolve(F, M, r, 0)) == 0
  {
    var v := BackSolve(F, M, r, 0);
    var row := M[i];
    BackSolveTail(F, M, r, i);
    BackSolveTail(F, M, r, i + 1);
    DotSplit(F, row, v, i);
    DotZero(F, row[..i], v[..i]);
    DotHead(F, row[i..], v[i..]);
    assert row[i..][1..] == row[i + 1..] && v[i..][1..] == v[i + 1..];
    MulOne(F, v[i]);
  }

  /** If no row at or below r has a non-zero entry in column r once the first
      r columns are reduced, the system is singular. */
  lemma StallSingular(F: Field, M: seq<seq<Word>>, r: nat)
    requires IsField(F)
    requires Echelon(M, r) && r < |M|
    requires forall j :: r <= j < |M| ==> M[j][r] == 0
    ensures Singular(F, M)
  {
    var k := |M|;
    var v := BackSolve(F, M, r, 0);
    BackSolveTail(F, M, r, r);
    assert v[r] == 1;
    forall l | r < l <= k ensures v[l] == 0 {
      assert v[l] == v[r..][l - r];
    }
    forall i | 0 <= i < k ensures |M[i]| == |v| && Dot(F, M[i], v) == 0 {
      if i < r {
        StallRow(F, M, r, i);
      } else {
        DotZero(F, M[i], v);
      }
    }
    assert v[k] == 0 && NonZero(v) && Satisfies(F, M, v);
  }

  /** Systems with the same solutions are singular together. */
  lemma SingularTransfer(F: Field, M: seq<seq<Word>>, N: seq<seq<Word>>)
    requires SameSolutions(F, M, N) && Singular(F, M)
    ensures Singular(F, N)
  {
    var v :| |v| == |M| + 1 && v[|M|] == 0 && NonZero(v) && Satisfies(F, M, v);
    assert Satisfies(F, N, v);
  }

  /** The coefficient part [1, 0, ..., 0] of a solved row picks out c[0]. */
  lemma UnitRowDot(F: Field, head: seq<Word>, c: seq<Word>)
    requires IsField(F)
    requires |head| == |c| >= 1
    requires head[0] == 1 && forall j :: 1 <= j < |c| ==> head[j] == 0
    ensures Dot(F, head, c) == c[0]
  {
    DotHead(F, head, c);
    DotZero(F, head[1..], c[1..]);
    MulOne(F, c[0]);
  }

  lemma DotSingle(F: Field, a: Word, b: Word)
    ensures Dot(F, [a], [b]) == F.mul(a, b)
  {
    assert [a][..0] == [] && [b][..0] == [];
  }

  /** A solved row [1, 0, ..., 0, s] admits c + [1] only when c[0] == s. */
  lemma ReducedRowValue(F: Field, row: seq<Word>, c: seq<Word>)
    requires IsField(F)
    requires |c| >= 1 && |row| == |c| + 1
    requires row[0] == 1 && forall j :: 1 <= j < |c| ==> row[j] == 0
    requires Dot(F, row, c + [1]) == 0
    ensures c[0] == row[|c|]
  {
    var v := c + [1];
    var k := |c|;
    DotSplit(F, row, v, k);
    assert v[..k] == c && v[k..] == [1] && row[k..] == [row[k]];
    UnitRowDot(F, row[..k], c);
    DotSingle(F, row[k], 1);
    MulOne(F, row[k]);
    AddCancel(c[0], row[k]);
  }
}

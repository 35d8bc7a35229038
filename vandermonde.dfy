/** The linear system combineSingle hands to gauss (shamir.go:216-230): row i
    is [x_i^0, ..., x_i^(k-1), y_i], so a solution c + [1] is a polynomial c
    with k coefficients through the points (x_i, y_i). The system is singular
    exactly when two x-coordinates coincide. */
module Vandermonde {
  import opened GF
  import opened Poly
  import opened Matrix

  /** No two entries are equal. */
  ghost predicate Distinct(xs: seq<Word>) {
    forall i, j :: 0 <= i < j < |xs| ==> xs[i] != xs[j]
  }

  /** One row of the system: the powers of x followed by y. */
  function Row(F: Field, x: Word, y: Word, k: nat): (row: seq<Word>)
    ensures |row| == k + 1 && row[k] == y
  {
    Powers(F, x, k) + [y]
  }

  /** The matrix combineSingle builds from xs and the first |xs| entries of ys. */
  function System(F: Field, xs: seq<Word>, ys: seq<Word>): (M: seq<seq<Word>>)
    requires |xs| <= |ys|
    ensures |M| == |xs| && Shaped(M)
  {
    seq(|xs|, i requires 0 <= i < |xs| => Row(F, xs[i], ys[i], |xs|))
  }

  /** The polynomial p passes through every point (xs[i], ys[i]). */
  ghost predicate Fits(F: Field, p: seq<Word>, xs: seq<Word>, ys: seq<Word>)
    requires |xs| <= |ys|
  {
    forall i :: 0 <= i < |xs| ==> Eval(F, p, xs[i]) == ys[i]
  }

  /** s is the constant term of every polynomial with at most |xs|
      coefficients through the points: the secret those points share. */
  ghost predicate Interpolates(F: Field, xs: seq<Word>, ys: seq<Word>, s: Word)
    requires |xs| <= |ys|
  {
    forall p :: 0 < |p| <= |xs| && Fits(F, p, xs, ys) ==> p[0] == s
  }

  /** The dot product with the powers of x evaluates the polynomial at x. */
  lemma {:induction false} DotPowers(F: Field, x: Word, c: seq<Word>)
    ensures Dot(F, Powers(F, x, |c|), c) == Eval(F, c, x)
  {
    var n := |c|;
    if n > 0 {
      assert Powers(F, x, n)[..n - 1] == Powers(F, x, n - 1);
      DotPowers(F, x, c[..n - 1]);
    }
  }

  /** A row applied to v is the polynomial v[..k] at x plus y * v[k]. */
  lemma DotRow(F: Field, x: Word, y: Word, v: seq<Word>)
    requires |v| >= 1
    ensures Dot(F, Row(F, x, y, |v| - 1), v) == Add(Eval(F, v[..|v| - 1], x), F.mul(y, v[|v| - 1]))
  {
    var k := |v| - 1;
    assert Row(F, x, y, k)[..k] == Powers(F, x, k);
    DotPowers(F, x, v[..k]);
  }

  /** c + [1] solves the system exactly when c fits the points. */
  lemma SolutionFits(F: Field, xs: seq<Word>, ys: seq<Word>, c: seq<Word>)
    requires IsField(F)
    requires |xs| <= |ys| && |c| == |xs|
    ensures Satisfies(F, System(F, xs, ys), c + [1]) <==> Fits(F, c, xs, ys)
  {
    var M := System(F, xs, ys);
    var v := c + [1];
    assert v[..|c|] == c;
    forall i | 0 <= i < |xs|
      ensures Dot(F, M[i], v) == Add(Eval(F, c, xs[i]), ys[i])
    {
      DotRow(F, xs[i], ys[i], v);
      MulOne(F, ys[i]);
    }
    forall i | 0 <= i < |xs|
      ensures Dot(F, M[i], v) == 0 <==> Eval(F, c, xs[i]) == ys[i]
    {
      AddCancel(Eval(F, c, xs[i]), ys[i]);
    }
  }

  /** A vector with last entry 0 solves the system exactly when its first k
      entries form a polynomial vanishing at every x. */
  lemma KernelRoots(F: Field, xs: seq<Word>, ys: seq<Word>, v: seq<Word>)
    requires IsField(F)
    requires |xs| <= |ys| && |v| == |xs| + 1 && v[|xs|] == 0
    ensures Satisfies(F, System(F, xs, ys), v) <==>
              forall i :: 0 <= i < |xs| ==> Eval(F, v[..|xs|], xs[i]) == 0
  {
    var M := System(F, xs, ys);
    forall i | 0 <= i < |xs|
      ensures Dot(F, M[i], v) == Eval(F, v[..|xs|], xs[i])
    {
      DotRow(F, xs[i], ys[i], v);
      MulZero(F, ys[i]);
    }
  }

  /** The coefficients of (X + a) * q. */
  function MulLinear(F: Field, q: seq<Word>, a: Word): (r: seq<Word>)
    ensures |r| == |q| + 1
  {
    Added([0] + q, Scaled(F, q, a) + [0])
  }

  lemma EvalMulLinear(F: Field, q: seq<Word>, a: Word, x: Word)
    requires IsField(F)
    ensures Eval(F, MulLinear(F, q, a), x) == F.mul(Add(x, a), Eval(F, q, x))
  {
    EvalAdded(F, [0] + q, Scaled(F, q, a) + [0], x);
    EvalShift(F, q, x);
    assert Zeros(1) == [0];
    EvalPadded(F, Scaled(F, q, a), 1, x);
    EvalScaled(F, q, a, x);
    DistribRight(F, x, a, Eval(F, q, x));
  }

  /** Synthetic division by X + a: the quotient of c. */
  function Quot(F: Field, c: seq<Word>, a: Word): (q: seq<Word>)
    requires |c| >= 1
    ensures |q| == |c| - 1
    decreases |c|
  {
    if |c| == 1 then [] else [Eval(F, c[1..], a)] + Quot(F, c[1..], a)
  }

  /** Multiplying [e] + q by X + a: the product of q shifted up by one, with
      e added in and e * a as the new constant term. */
  lemma MulLinearCons(F: Field, e: Word, q: seq<Word>, a: Word)
    ensures MulLinear(F, [e] + q, a) ==
              [F.mul(e, a)] + ([Add(e, MulLinear(F, q, a)[0])] + MulLinear(F, q, a)[1..])
  {
    var lhs := MulLinear(F, [e] + q, a);
    var inner := MulLinear(F, q, a);
    var rhs := [F.mul(e, a)] + ([Add(e, inner[0])] + inner[1..]);
    forall j | 0 <= j < |lhs| ensures lhs[j] == rhs[j] {
      if j >= 2 {
        assert lhs[j] == inner[j - 1];
      }
    }
  }

  /** The remainder step of synthetic division: c[0] + c(a) == c[1..](a) * a. */
  lemma RemainderStep(F: Field, c: seq<Word>, a: Word)
    requires IsField(F)
    requires |c| >= 2
    ensures Add(c[0], Eval(F, c, a)) == F.mul(Eval(F, c[1..], a), a)
  {
    var e := Eval(F, c[1..], a);
    Horner(F, c, a);
    MulComm(F, a, e);
    AddAssoc(c[0], c[0], F.mul(e, a));
  }

  /** The inductive step of QuotSpec: from the tail c[1..] to c. */
  lemma QuotStep(F: Field, c: seq<Word>, a: Word)
    requires |c| >= 2
    requires MulLinear(F, Quot(F, c[1..], a), a) == [Add(c[1], Eval(F, c[1..], a))] + c[2..]
    ensures MulLinear(F, Quot(F, c, a), a) == [F.mul(Eval(F, c[1..], a), a)] + c[1..]
  {
    var t := c[1..];
    var e := Eval(F, t, a);
    var q' := Quot(F, t, a);
    UndoConstant(e, t, MulLinear(F, q', a));
    MulLinearCons(F, e, q', a);
  }

  /** Adding e back into a constant term that had e added cancels it. */
  lemma UndoConstant(e: Word, t: seq<Word>, u: seq<Word>)
    requires |t| >= 1 && u == [Add(t[0], e)] + t[1..]
    ensures [Add(e, u[0])] + u[1..] == t
  {
    AddAssoc(e, t[0], e);
  }

  /** (X + a) * Quot(c, a) is c with the remainder c(a) added to its constant
      term. */
  lemma {:induction false} QuotSpec(F: Field, c: seq<Word>, a: Word)
    requires IsField(F)
    requires |c| >= 1
    ensures MulLinear(F, Quot(F, c, a), a) == [Add(c[0], Eval(F, c, a))] + c[1..]
    decreases |c|
  {
    if |c| == 1 {
      EvalShortPolynomials(F, c[0], a);
      assert c == [c[0]];
    } else {
      QuotSpec(F, c[1..], a);
      assert c[1..][0] == c[1] && c[1..][1..] == c[2..];
      QuotStep(F, c, a);
      RemainderStep(F, c, a);
    }
  }

  /** The factor theorem: c(x) + c(a) == (x + a) * Quot(c, a)(x). */
  lemma EvalFactor(F: Field, c: seq<Word>, a: Word, x: Word)
    requires IsField(F)
    requires |c| >= 1
    ensures Add(Eval(F, c, x), Eval(F, c, a)) == F.mul(Add(x, a), Eval(F, Quot(F, c, a), x))
  {
    var d := [Add(c[0], Eval(F, c, a))] + c[1..];
    QuotSpec(F, c, a);
    EvalMulLinear(F, Quot(F, c, a), a, x);
    Horner(F, d, x);
    Horner(F, c, x);
    assert d[1..] == c[1..];
  }

  /** (X + a) * 0 == 0. */
  lemma MulLinearZero(F: Field, q: seq<Word>, a: Word)
    requires IsField(F)
    requires forall j :: 0 <= j < |q| ==> q[j] == 0
    ensures forall j :: 0 <= j < |q| + 1 ==> MulLinear(F, q, a)[j] == 0
  {
    MulZero(F, a);
  }

  /** A polynomial with at most k coefficients and k distinct roots is zero. */
  lemma {:induction false} RootsForceZero(F: Field, c: seq<Word>, xs: seq<Word>)
    requires IsField(F)
    requires Distinct(xs) && |c| <= |xs|
    requires forall i :: 0 <= i < |xs| ==> Eval(F, c, xs[i]) == 0
    ensures forall j :: 0 <= j < |c| ==> c[j] == 0
    decreases |c|
  {
    if |c| > 0 {
      var a := xs[0];
      var q := Quot(F, c, a);
      var rest := xs[1..];
      forall i | 0 <= i < |rest| ensures Eval(F, q, rest[i]) == 0 {
        EvalFactor(F, c, a, rest[i]);
        AddCancel(rest[i], a);
        NoZeroDivisors(F, Add(rest[i], a), Eval(F, q, rest[i]));
      }
      RootsForceZero(F, q, rest);
      QuotSpec(F, c, a);
      MulLinearZero(F, q, a);
      assert c == [Add(c[0], Eval(F, c, a))] + c[1..];
    }
  }

  /** Distinct x-coordinates give a non-singular system. */
  lemma DistinctNonsingular(F: Field, xs: seq<Word>, ys: seq<Word>)
    requires IsField(F)
    requires |xs| <= |ys| && Distinct(xs)
    ensures !Singular(F, System(F, xs, ys))
  {
    var k := |xs|;
    forall v | |v| == k + 1 && v[k] == 0 && Satisfies(F, System(F, xs, ys), v)
      ensures !NonZero(v)
    {
      KernelRoots(F, xs, ys, v);
      RootsForceZero(F, v[..k], xs);
      forall j | 0 <= j < k ensures v[j] == 0 {
        assert v[j] == v[..k][j];
      }
    }
  }

  /** The monic polynomial (X + D[0]) * ... * (X + D[|D|-1]). */
  function Vanish(F: Field, D: seq<Word>): (r: seq<Word>)
    ensures |r| == |D| + 1
  {
    if |D| == 0 then [1] else MulLinear(F, Vanish(F, D[..|D| - 1]), D[|D| - 1])
  }

  lemma {:induction false} VanishMonic(F: Field, D: seq<Word>)
    ensures Vanish(F, D)[|D|] == 1
  {
    if |D| > 0 {
      VanishMonic(F, D[..|D| - 1]);
    }
  }

  lemma {:induction false} VanishRoots(F: Field, D: seq<Word>)
    requires IsField(F)
    ensures forall l :: 0 <= l < |D| ==> Eval(F, Vanish(F, D), D[l]) == 0
  {
    if |D| > 0 {
      var init, d := D[..|D| - 1], D[|D| - 1];
      VanishRoots(F, init);
      forall l | 0 <= l < |D| ensures Eval(F, Vanish(F, D), D[l]) == 0 {
        EvalMulLinear(F, Vanish(F, init), d, D[l]);
        if l < |D| - 1 {
          assert D[l] == init[l];
          MulZero(F, Add(D[l], d));
        } else {
          MulZero(F, Eval(F, Vanish(F, init), d));
        }
      }
    }
  }

  /** Two equal x-coordinates make the system singular: the polynomial
      vanishing on the other k - 1 coordinates gives a null vector. */
  lemma DuplicateSingular(F: Field, xs: seq<Word>, ys: seq<Word>)
    requires IsField(F)
    requires |xs| <= |ys| && !Distinct(xs)
    ensures Singular(F, System(F, xs, ys))
  {
    var k := |xs|;
    var i, j :| 0 <= i < j < k && xs[i] == xs[j];
    var D := xs[..j] + xs[j + 1..];
    var c := Vanish(F, D);
    var v := c + [0];
    VanishRoots(F, D);
    VanishMonic(F, D);
    assert v[..k] == c;
    forall l | 0 <= l < k ensures Eval(F, v[..k], xs[l]) == 0 {
      if l < j {
        assert xs[l] == D[l];
      } else if l == j {
        assert xs[l] == D[i];
      } else {
        assert xs[l] == D[l - 1];
      }
    }
    KernelRoots(F, xs, ys, v);
    assert v[k - 1] != 0;
  }

  /** The system is singular exactly when two x-coordinates coincide. */
  lemma SingularIffDuplicate(F: Field, xs: seq<Word>, ys: seq<Word>)
    requires IsField(F)
    requires |xs| <= |ys|
    ensures Singular(F, System(F, xs, ys)) <==> !Distinct(xs)
  {
    if Distinct(xs) {
      DistinctNonsingular(F, xs, ys);
    } else {
      DuplicateSingular(F, xs, ys);
    }
  }

  /** When every solution c + [1] of the system has c[0] == s, s interpolates
      the points: shorter polynomials are padded with zero coefficients. */
  lemma SolutionsInterpolate(F: Field, xs: seq<Word>, ys: seq<Word>, s: Word)
    requires IsField(F)
    requires 1 <= |xs| <= |ys|
    requires forall c :: |c| == |xs| && Satisfies(F, System(F, xs, ys), c + [1]) ==> c[0] == s
    ensures Interpolates(F, xs, ys, s)
  {
    forall p | 0 < |p| <= |xs| && Fits(F, p, xs, ys) ensures p[0] == s {
      var c := p + Zeros(|xs| - |p|);
      forall i | 0 <= i < |xs| ensures Eval(F, c, xs[i]) == ys[i] {
        EvalPadded(F, p, |xs| - |p|, xs[i]);
      }
      SolutionFits(F, xs, ys, c);
      assert c[0] == p[0];
    }
  }

  /** Two polynomials with at most |xs| coefficients through the same points
      at distinct x-coordinates share their constant term. */
  lemma FitsUnique(F: Field, xs: seq<Word>, ys: seq<Word>, p: seq<Word>, q: seq<Word>)
    requires IsField(F)
    requires |xs| <= |ys| && Distinct(xs)
    requires 0 < |p| <= |xs| && 0 < |q| <= |xs|
    requires Fits(F, p, xs, ys) && Fits(F, q, xs, ys)
    ensures p[0] == q[0]
  {
    var k := |xs|;
    var pp, qq := p + Zeros(k - |p|), q + Zeros(k - |q|);
    var d := Added(pp, qq);
    forall i | 0 <= i < k ensures Eval(F, d, xs[i]) == 0 {
      EvalPadded(F, p, k - |p|, xs[i]);
      EvalPadded(F, q, k - |q|, xs[i]);
      EvalAdded(F, pp, qq, xs[i]);
      AddCancel(ys[i], ys[i]);
    }
    RootsForceZero(F, d, xs);
    assert d[0] == Add(p[0], q[0]);
    AddCancel(p[0], q[0]);
  }

  /** The points of a polynomial with at most |xs| coefficients, taken at
      distinct x-coordinates, interpolate its constant term. */
  lemma FitInterpolates(F: Field, xs: seq<Word>, ys: seq<Word>, c: seq<Word>)
    requires IsField(F)
    requires |xs| <= |ys| && Distinct(xs)
    requires 0 < |c| <= |xs| && Fits(F, c, xs, ys)
    ensures Interpolates(F, xs, ys, c[0])
  {
    forall p | 0 < |p| <= |xs| && Fits(F, p, xs, ys) ensures p[0] == c[0] {
      FitsUnique(F, xs, ys, p, c);
    }
  }
}

/** Vector helpers of poly.go: powers of x, polynomial evaluation, and the two
    element-wise row operations used by the Gaussian elimination. */
module Poly {
  import opened GF

  /** x^i, built the way pows and evalPoly build it: p := p * x per step. */
  function Pow(F: Field, x: Word, i: nat): Word {
    if i == 0 then 1 else F.mul(Pow(F, x, i - 1), x)
  }

  /** [x^0, x^1, ..., x^(n-1)]. */
  function Powers(F: Field, x: Word, n: nat): seq<Word> {
    seq(n, i requires 0 <= i < n => Pow(F, x, i))
  }

  /** The value of the polynomial c[0] + c[1]*x + ... at x. */
  function Eval(F: Field, c: seq<Word>, x: Word): Word {
    if |c| == 0 then 0
    else Add(Eval(F, c[..|c| - 1], x), F.mul(Pow(F, x, |c| - 1), c[|c| - 1]))
  }

  /** The vector u with every entry multiplied by a. */
  function Scaled(F: Field, u: seq<Word>, a: Word): seq<Word> {
    seq(|u|, i requires 0 <= i < |u| => F.mul(u[i], a))
  }

  /** The entry-wise sum of u and the first |u| entries of w. */
  function Added(u: seq<Word>, w: seq<Word>): seq<Word>
    requires |u| <= |w|
  {
    seq(|u|, i requires 0 <= i < |u| => Add(u[i], w[i]))
  }

  /** n zero words. */
  function Zeros(n: nat): seq<Word> {
    seq(n, i => 0)
  }

  /** pows: sets the slice v[:n] to [x^0, ..., x^(n-1)] and touches nothing else. */
  method Pows(F: Field, v: array<Word>, n: nat, x: Word)
    requires n <= v.Length
    modifies v
    ensures v[..n] == Powers(F, x, n)
    ensures v[n..] == old(v[n..])
  {
    var p: Word := 1;
    for i := 0 to n
      invariant p == Pow(F, x, i)
      invariant forall j :: 0 <= j < i ==> v[j] == Pow(F, x, j)
      invariant forall j :: n <= j < v.Length ==> v[j] == old(v[j])
    {
      v[i] := p;
      p := F.mul(p, x);
    }
  }

  /** evalPoly: accumulates coeff[i] * x^i while advancing the running power. */
  method EvalPoly(F: Field, coeff: seq<Word>, x: Word) returns (r: Word)
    ensures r == Eval(F, coeff, x)
  {
    var p: Word := 1;
    r := 0;
    for i := 0 to |coeff|
      invariant p == Pow(F, x, i)
      invariant r == Eval(F, coeff[..i], x)
    {
      assert coeff[..i + 1][..i] == coeff[..i];
      r := Add(r, F.mul(p, coeff[i]));
      p := F.mul(p, x);
    }
    assert coeff[..|coeff|] == coeff;
  }

  /** scalePoly: z[i] := coeff[i] * x for i < len(coeff); the rest of z is kept.
      Correct also when z and coeff are the same array, as in gauss. */
  method ScalePoly(F: Field, z: array<Word>, coeff: array<Word>, x: Word)
    requires coeff.Length <= z.Length
    modifies z
    ensures z[..coeff.Length] == Scaled(F, old(coeff[..]), x)
    ensures z[coeff.Length..] == old(z[coeff.Length..])
  {
    ghost var c := coeff[..];
    for i := 0 to coeff.Length
      invariant forall j :: 0 <= j < i ==> z[j] == F.mul(c[j], x)
      invariant forall j :: i <= j < coeff.Length ==> coeff[j] == c[j]
      invariant forall j :: i <= j < z.Length ==> z[j] == old(z[j])
    {
      z[i] := F.mul(coeff[i], x);
    }
  }

  /** addPoly: z[i] := a[i] + b[i] for i < len(a); the rest of z is kept.
      Correct also when z is the same array as a or b, as in gauss. */
  method AddPoly(F: Field, z: array<Word>, a: array<Word>, b: array<Word>)
    requires a.Length <= z.Length && a.Length <= b.Length
    modifies z
    ensures z[..a.Length] == Added(old(a[..]), old(b[..]))
    ensures z[a.Length..] == old(z[a.Length..])
  {
    ghost var u, w := a[..], b[..];
    for i := 0 to a.Length
      invariant forall j :: 0 <= j < i ==> z[j] == Add(u[j], w[j])
      invariant forall j :: i <= j < a.Length ==> a[j] == u[j] && b[j] == w[j]
      invariant forall j :: i <= j < z.Length ==> z[j] == old(z[j])
    {
      z[i] := Add(a[i], b[i]);
    }
  }

  /** The empty polynomial evaluates to 0 and a constant polynomial to its
      constant, at every x. */
  lemma EvalShortPolynomials(F: Field, a: Word, x: Word)
    requires IsField(F)
    ensures Eval(F, [], x) == 0
    ensures Eval(F, [a], x) == a
  {
    assert [a][..0] == [];
  }

  /** Horner's form: c(x) = c[0] + x * (c[1] + c[2]*x + ...). */
  lemma {:induction false} Horner(F: Field, c: seq<Word>, x: Word)
    requires IsField(F)
    requires |c| >= 1
    ensures Eval(F, c, x) == Add(c[0], F.mul(x, Eval(F, c[1..], x)))
  {
    var n := |c|;
    if n == 1 {
      assert c[..0] == [] && c[1..] == [];
      MulZero(F, x);
      MulOne(F, c[0]);
    } else {
      var init, last := c[..n - 1], c[n - 1];
      Horner(F, init, x);
      assert c[1..][..n - 2] == init[1..];
      var q := Pow(F, x, n - 2);
      var X, P := F.mul(x, Eval(F, init[1..], x)), F.mul(Pow(F, x, n - 1), last);
      assert Eval(F, c[1..], x) == Add(Eval(F, init[1..], x), F.mul(q, last));
      Distrib(F, x, Eval(F, init[1..], x), F.mul(q, last));
      MulAssoc(F, x, q, last);
      MulComm(F, x, q);
      assert F.mul(x, Eval(F, c[1..], x)) == Add(X, P);
      assert Eval(F, c, x) == Add(Add(c[0], X), P);
      AddAssoc(c[0], X, P);
    }
  }

  /** At x = 0 a polynomial evaluates to its constant term. */
  lemma EvalAtZero(F: Field, c: seq<Word>)
    requires IsField(F)
    requires |c| >= 1
    ensures Eval(F, c, 0) == c[0]
  {
    Horner(F, c, 0);
    MulZero(F, Eval(F, c[1..], 0));
  }

  /** Shifting the coefficients up by one multiplies the value by x. */
  lemma EvalShift(F: Field, c: seq<Word>, x: Word)
    requires IsField(F)
    ensures Eval(F, [0] + c, x) == F.mul(x, Eval(F, c, x))
  {
    Horner(F, [0] + c, x);
    assert ([0] + c)[1..] == c;
  }

  /** Evaluation is linear in the coefficients: scaling. */
  lemma {:induction false} EvalScaled(F: Field, c: seq<Word>, a: Word, x: Word)
    requires IsField(F)
    ensures Eval(F, Scaled(F, c, a), x) == F.mul(a, Eval(F, c, x))
  {
    MulZero(F, a);
    if |c| > 0 {
      var n := |c|;
      assert Scaled(F, c, a)[..n - 1] == Scaled(F, c[..n - 1], a);
      EvalScaled(F, c[..n - 1], a, x);
      var p := Pow(F, x, n - 1);
      MulAssoc(F, p, c[n - 1], a);
      MulComm(F, F.mul(p, c[n - 1]), a);
      Distrib(F, a, Eval(F, c[..n - 1], x), F.mul(p, c[n - 1]));
    }
  }

  /** Evaluation is linear in the coefficients: addition. */
  lemma {:induction false} EvalAdded(F: Field, u: seq<Word>, w: seq<Word>, x: Word)
    requires IsField(F)
    requires |u| == |w|
    ensures Eval(F, Added(u, w), x) == Add(Eval(F, u, x), Eval(F, w, x))
  {
    if |u| > 0 {
      var n := |u|;
      assert Added(u, w)[..n - 1] == Added(u[..n - 1], w[..n - 1]);
      EvalAdded(F, u[..n - 1], w[..n - 1], x);
      var p := Pow(F, x, n - 1);
      Distrib(F, p, u[n - 1], w[n - 1]);
    }
  }

  /** Trailing zero coefficients do not change the value. */
  lemma {:induction false} EvalPadded(F: Field, c: seq<Word>, k: nat, x: Word)
    requires IsField(F)
    ensures Eval(F, c + Zeros(k), x) == Eval(F, c, x)
  {
    if k > 0 {
      assert (c + Zeros(k))[..|c| + k - 1] == c + Zeros(k - 1);
      EvalPadded(F, c, k - 1, x);
      MulZero(F, Pow(F, x, |c| + k - 1));
    } else {
      assert c + Zeros(0) == c;
    }
  }
}

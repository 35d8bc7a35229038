/** split, combine, splitSingle and combineSingle of shamir.go: a secret of
    words is shared column by column, each word as the constant term of a
    random polynomial with threshold coefficients, and recovered column by
    column by solving the Vandermonde system of the shares' points. */
module Shamir {
  import opened Errors
  import opened GF
  import opened Poly
  import opened Matrix
  import opened Elimination
  import opened Vandermonde
  import opened Sampling

  /** The polynomial c evaluated at each of the x-coordinates. */
  function Evaluations(F: Field, c: seq<Word>, xs: seq<Word>): (ys: seq<Word>)
    ensures |ys| == |xs| && Fits(F, c, xs, ys)
  {
    seq(|xs|, j requires 0 <= j < |xs| => Eval(F, c, xs[j]))
  }

  /** splitSingle: the polynomial is the secret word followed by threshold - 1
      words of the stream; z[j] becomes its value at xvals[j]. When the stream
      holds fewer words the read fails and z is untouched. */
  method SplitSingle(F: Field, rand: seq<Word>, threshold: nat, z: array<Word>, xvals: array<Word>, secret: Word)
    returns (rest: seq<Word>, result: Outcome)
    requires threshold >= 1 && xvals.Length <= z.Length && z != xvals
    modifies z
    ensures |rand| < threshold - 1 ==>
              result == Fail(RandomExhausted) && rest == [] && z[..] == old(z[..])
    ensures |rand| >= threshold - 1 ==>
              && result == Pass
              && rest == rand[threshold - 1..]
              && z[..xvals.Length] == Evaluations(F, [secret] + rand[..threshold - 1], xvals[..])
              && z[xvals.Length..] == old(z[xvals.Length..])
  {
    var polynomial := new Word[threshold](_ => 0);
    polynomial[0] := secret;
    if |rand| < threshold - 1 {
      return [], Fail(RandomExhausted);
    }
    forall i | 1 <= i < threshold {
      polynomial[i] := rand[i - 1];
    }
    ghost var p := [secret] + rand[..threshold - 1];
    assert polynomial[..] == p;
    rest := rand[threshold - 1..];
    for j := 0 to xvals.Length
      invariant polynomial[..] == p
      invariant z[..j] == Evaluations(F, p, xvals[..j])
      invariant z[j..] == old(z[j..])
    {
      z[j] := EvalPoly(F, polynomial[..], xvals[j]);
      assert z[..j + 1] == z[..j] + [z[j]];
      assert Evaluations(F, p, xvals[..j + 1]) == Evaluations(F, p, xvals[..j]) + [Eval(F, p, xvals[j])];
    }
    assert xvals[..xvals.Length] == xvals[..];
    return rest, Pass;
  }

  /** One row of combineSingle's system: pows writes the powers of x into
      the first k entries and y goes into the last. */
  method NewRow(F: Field, x: Word, y: Word, k: nat) returns (row: array<Word>)
    ensures fresh(row) && row[..] == Row(F, x, y, k)
  {
    row := new Word[k + 1];
    Pows(F, row, k, x);
    row[k] := y;
    assert row[..] == row[..k] + [row[k]];
  }

  /** The first loop of combineSingle: row i of m is a fresh array holding
      [1, x_i, ..., x_i^(k-1), y_i]. */
  method BuildSystem(F: Field, xvals: array<Word>, yvals: array<Word>) returns (m: array<array<Word>>)
    requires xvals.Length <= yvals.Length
    ensures fresh(m) && IsMatrix(m) && m.Length == xvals.Length
    ensures forall a :: a in RowSet(m) ==> fresh(a)
    ensures Rows(m) == System(F, xvals[..], yvals[..])
  {
    var k := xvals.Length;
    var rows: seq<array<Word>> := [];
    for i := 0 to k
      invariant |rows| == i
      invariant forall j :: 0 <= j < i ==> fresh(rows[j]) && rows[j][..] == Row(F, xvals[j], yvals[j], k)
      invariant forall j, l :: 0 <= j < i && 0 <= l < i && j != l ==> rows[j] != rows[l]
    {
      var row := NewRow(F, xvals[i], yvals[i], k);
      rows := rows + [row];
    }
    m := new array<Word>[k](i requires 0 <= i < k => rows[i]);
    assert m[..] == rows;
  }

  /** combineSingle: builds the system with rows [1, x, ..., x^(k-1), y] in
      fresh arrays and runs gauss. It fails exactly when two x-coordinates
      coincide; otherwise the word it returns is the constant term of every
      polynomial with at most k coefficients through the k points. */
  method CombineSingle(F: Field, xvals: array<Word>, yvals: array<Word>) returns (result: Result<Word>)
    requires IsField(F)
    requires 1 <= xvals.Length <= yvals.Length
    ensures result.Err? <==> !Distinct(xvals[..])
    ensures result.Err? ==> result.error == SingularMatrix
    ensures result.Ok? ==> Interpolates(F, xvals[..], yvals[..], result.value)
  {
    var k := xvals.Length;
    ghost var xs, ys := xvals[..], yvals[..];
    var m := BuildSystem(F, xvals, yvals);
    var outcome := Gauss(F, m);
    SingularIffDuplicate(F, xs, ys);
    if outcome != Pass {
      return Err(SingularMatrix);
    }
    SolutionsInterpolate(F, xs, ys, m[0][k]);
    return Ok(m[0][k]);
  }

  /** w * a grows with a. */
  lemma MulMono(w: nat, a: nat, b: nat)
    requires a <= b
    ensures w * a <= w * b
  {
    assert w * b == w * a + w * (b - a);
  }

  /** Where the random words of column i end in the words split reads after
      the x-coordinates, w to a column. */
  function End(w: nat, i: nat): nat {
    w * (i + 1)
  }

  /** The polynomial of column i: the secret word and the w random words that
      column i reads from R, the words split reads after the x-coordinates. */
  function Coefficients(secret: seq<Word>, R: seq<Word>, w: nat, i: nat): (p: seq<Word>)
    requires i < |secret| && End(w, i) <= |R|
    ensures |p| == w + 1 && p[0] == secret[i]
  {
    MulMono(w, i, i + 1);
    [secret[i]] + R[w * i..w * (i + 1)]
  }

  /** The share at x once i of the columns are written: x, the values of the
      first i column polynomials at x, and zeros for the columns still to come. */
  function ShareAt(F: Field, x: Word, secret: seq<Word>, R: seq<Word>, w: nat, i: nat): (s: seq<Word>)
    requires i <= |secret| && w * i <= |R|
    ensures |s| == |secret| + 1 && s[0] == x
    ensures forall c :: 0 <= c < i ==> End(w, c) <= |R|
    ensures forall c :: 0 <= c < i ==> s[c + 1] == Eval(F, Coefficients(secret, R, w, c), x)
    ensures forall c :: i < c <= |secret| ==> s[c] == 0
  {
    var e := ColumnValues(F, x, secret, R, w, i);
    var z := Zeros(|secret| - i);
    var s := [x] + e + z;
    forall c | 0 <= c < i ensures End(w, c) <= |R| && s[c + 1] == e[c] {
      MulMono(w, c + 1, i);
    }
    assert forall c :: i < c <= |secret| ==> s[c] == z[c - 1 - i];
    s
  }

  /** The values at x of the first i column polynomials. */
  function ColumnValues(F: Field, x: Word, secret: seq<Word>, R: seq<Word>, w: nat, i: nat): (e: seq<Word>)
    requires i <= |secret| && w * i <= |R|
    ensures |e| == i
    ensures forall c :: 0 <= c < i ==> e[c] == Eval(F, Coefficients(secret, R, w, c), x)
  {
    seq(i, c requires 0 <= c < i => (MulMono(w, c + 1, i); Eval(F, Coefficients(secret, R, w, c), x)))
  }

  /** The shares split returns: one per x-coordinate. */
  function Shares(F: Field, xs: seq<Word>, secret: seq<Word>, R: seq<Word>, w: nat): (S: seq<seq<Word>>)
    requires w * |secret| <= |R|
    ensures |S| == |xs|
    ensures forall j :: 0 <= j < |xs| ==> S[j] == ShareAt(F, xs[j], secret, R, w, |secret|)
  {
    seq(|xs|, j requires 0 <= j < |xs| => ShareAt(F, xs[j], secret, R, w, |secret|))
  }

  /** What split returns and the words of the stream it leaves unread. The
      parameters are checked first, in the source's order, and consume
      nothing; then distinctXes draws n x-coordinates and each secret word
      reads threshold - 1 coefficients. A stream that runs dry is consumed
      to its end. */
  function SplitSpec(F: Field, rand: seq<Word>, threshold: int, n: int, secret: seq<Word>)
    : (out: (Result<seq<seq<Word>>>, seq<Word>))
    ensures out.0 != Err(CountNotPositive)
    ensures out.0.Err? && out.0.error != RandomExhausted ==> out.1 == rand
    ensures out.0 == Err(RandomExhausted) ==> out.1 == []
    ensures out.0.Ok? ==> 1 <= threshold <= n && |secret| >= 1 && |out.0.value| == n
    ensures out.0.Ok? ==> forall j :: 0 <= j < n ==> |out.0.value[j]| == |secret| + 1
    ensures |out.1| <= |rand|
  {
    if threshold > n then (Err(ThresholdAboveN), rand)
    else if threshold < 1 then (Err(ThresholdNotPositive), rand)
    else if n < 1 then (Err(CountNotPositive), rand)
    else if |secret| == 0 then (Err(NilSecret), rand)
    else
      var d := Sample(rand, Zeros(n), 0);
      var w := threshold - 1;
      if !d.ok || |d.rest| < w * |secret| then (Err(RandomExhausted), [])
      else (Ok(Shares(F, d.v, secret, d.rest, w)), d.rest[w * |secret|..])
  }

  /** Writing column i + 1 of a share advances it from i to i + 1 columns. */
  lemma ShareAtStep(F: Field, x: Word, secret: seq<Word>, R: seq<Word>, w: nat, i: nat)
    requires i < |secret| && w * i <= w * (i + 1) <= |R|
    ensures ShareAt(F, x, secret, R, w, i)[i + 1 := Eval(F, Coefficients(secret, R, w, i), x)]
        == ShareAt(F, x, secret, R, w, i + 1)
  {
    MulMono(w, i, i + 1);
  }

  /** split: the words the column loop has read after the x-coordinates, and
      the shares after i columns. */
  ghost predicate Columns(F: Field, shares: seq<seq<Word>>, xs: seq<Word>, secret: seq<Word>,
                          R: seq<Word>, w: nat, rest: seq<Word>, i: nat)
  {
    && i <= |secret| && w * i <= |R| && rest == R[w * i..]
    && |shares| == |xs|
    && forall j :: 0 <= j < |xs| ==> shares[j] == ShareAt(F, xs[j], secret, R, w, i)
  }

  /** split: validates the parameters, draws the x-coordinates with
      distinctXes and fills the shares one secret word at a time with
      splitSingle. */
  method Split(F: Field, rand: seq<Word>, threshold: int, n: int, secret: seq<Word>)
    returns (result: Result<seq<seq<Word>>>, rest: seq<Word>)
    ensures (result, rest) == SplitSpec(F, rand, threshold, n, secret)
  {
    if threshold > n {
      return Err(ThresholdAboveN), rand;
    }
    if threshold < 1 {
      return Err(ThresholdNotPositive), rand;
    }
    if n < 1 {
      return Err(CountNotPositive), rand;
    }
    if |secret| == 0 {
      return Err(NilSecret), rand;
    }

    var xvals := new Word[n](_ => 0);
    var z := new Word[n](_ => 0);
    assert xvals[..] == Zeros(n);

    var outcome;
    rest, outcome := DistinctXes(rand, xvals);
    if outcome != Pass {
      return Err(outcome.error), rest;
    }
    ghost var xs, R := xvals[..], rest;
    var w := threshold - 1;

    var shares := BlankShares(xvals, |secret|);
    ColumnStart(F, shares, xs, secret, R, w);
    result, rest := FillColumns(F, rest, threshold, z, xvals, secret, shares);
  }

  /** The column loop of split: splitSingle draws the polynomial of each
      secret word in turn and its values at the x-coordinates become the
      next entry of every share. It fails once the stream cannot supply the
      threshold - 1 coefficients of a column. */
  method FillColumns(F: Field, rand: seq<Word>, threshold: nat, z: array<Word>, xvals: array<Word>,
                     secret: seq<Word>, shares: seq<seq<Word>>)
    returns (result: Result<seq<seq<Word>>>, rest: seq<Word>)
    requires threshold >= 1 && z.Length == xvals.Length && z != xvals
    requires Columns(F, shares, xvals[..], secret, rand, threshold - 1, rand, 0)
    modifies z
    ensures var w := threshold - 1;
      if |rand| < w * |secret| then result == Err(RandomExhausted) && rest == []
      else result == Ok(Shares(F, xvals[..], secret, rand, w)) && rest == rand[w * |secret|..]
  {
    var w := threshold - 1;
    ghost var xs, R := xvals[..], rand;
    var columns := shares;
    rest := rand;
    for i := 0 to |secret|
      invariant xvals[..] == xs
      invariant Columns(F, columns, xs, secret, R, w, rest, i)
    {
      ghost var written := columns;
      var out;
      rest, out := SplitSingle(F, rest, threshold, z, xvals, secret[i]);
      if out != Pass {
        MulMono(w, i + 1, |secret|);
        return Err(out.error), rest;
      }
      columns := StoreColumn(columns, z, i);
      ColumnStep(F, written, columns, z[..], xs, secret, R, w, i);
    }
    assert columns == Shares(F, xs, secret, R, w);
    return Ok(columns), rest;
  }

  /** The shares before any column is written: x-coordinate, then zeros. */
  method BlankShares(xvals: array<Word>, L: nat) returns (shares: seq<seq<Word>>)
    ensures |shares| == xvals.Length
    ensures forall j :: 0 <= j < xvals.Length ==> shares[j] == [xvals[j]] + Zeros(L)
  {
    shares := [];
    for j := 0 to xvals.Length
      invariant |shares| == j
      invariant forall l :: 0 <= l < j ==> shares[l] == [xvals[l]] + Zeros(L)
    {
      shares := shares + [[xvals[j]] + Zeros(L)];
    }
  }

  /** Writes z[j] into entry i + 1 of share j, for every share. */
  method StoreColumn(shares: seq<seq<Word>>, z: array<Word>, i: nat) returns (result: seq<seq<Word>>)
    requires |shares| <= z.Length
    requires forall j :: 0 <= j < |shares| ==> i + 1 < |shares[j]|
    ensures |result| == |shares|
    ensures forall j :: 0 <= j < |shares| ==> result[j] == shares[j][i + 1 := z[j]]
  {
    result := shares;
    for j := 0 to |shares|
      invariant |result| == |shares|
      invariant forall l :: 0 <= l < j ==> result[l] == shares[l][i + 1 := z[l]]
      invariant forall l :: j <= l < |shares| ==> result[l] == shares[l]
    {
      result := result[j := result[j][i + 1 := z[j]]];
    }
  }

  /** The shares before the first column are ShareAt with no column written. */
  lemma ColumnStart(F: Field, shares: seq<seq<Word>>, xs: seq<Word>, secret: seq<Word>, R: seq<Word>, w: nat)
    requires |shares| == |xs|
    requires forall j :: 0 <= j < |xs| ==> shares[j] == [xs[j]] + Zeros(|secret|)
    ensures Columns(F, shares, xs, secret, R, w, R, 0)
  {
    assert R[w * 0..] == R;
  }

  /** One column of split: the values splitSingle wrote into z, stored in
      entry i + 1 of each share, advance the shares from i to i + 1 columns. */
  lemma ColumnStep(F: Field, shares: seq<seq<Word>>, next: seq<seq<Word>>, zs: seq<Word>,
                   xs: seq<Word>, secret: seq<Word>, R: seq<Word>, w: nat, i: nat)
    requires i < |secret| && w * i <= |R| && Columns(F, shares, xs, secret, R, w, R[w * i..], i)
    requires |R[w * i..]| >= w && |xs| <= |zs|
    requires zs[..|xs|] == Evaluations(F, [secret[i]] + R[w * i..][..w], xs)
    requires |next| == |shares| && forall j :: 0 <= j < |shares| ==> next[j] == shares[j][i + 1 := zs[j]]
    ensures Columns(F, next, xs, secret, R, w, R[w * i..][w..], i + 1)
  {
    MulMono(w, i, i + 1);
    assert [secret[i]] + R[w * i..][..w] == Coefficients(secret, R, w, i);
    assert R[w * i..][w..] == R[w * (i + 1)..];
    forall j | 0 <= j < |xs| ensures next[j] == ShareAt(F, xs[j], secret, R, w, i + 1) {
      assert zs[j] == zs[..|xs|][j];
      ShareAtStep(F, xs[j], secret, R, w, i);
    }
  }

  /** Every share has the length of the first, as combine checks. */
  ghost predicate Consistent(shares: seq<seq<Word>>) {
    forall r :: 0 <= r < |shares| ==> |shares[r]| == |shares[0]|
  }

  /** Entry c of every share: the x-coordinates for c == 0, else the points'
      values of secret word c - 1. */
  function Column(shares: seq<seq<Word>>, c: nat): (col: seq<Word>)
    requires forall r :: 0 <= r < |shares| ==> c < |shares[r]|
    ensures |col| == |shares|
  {
    seq(|shares|, r requires 0 <= r < |shares| => shares[r][c])
  }

  /** What combine returns for the shares. An empty list and shares of
      different lengths are refused; shares with no words at all make the
      source panic; a single-word share yields the empty secret without a
      look at the x-coordinates; otherwise the recovery fails exactly when
      two x-coordinates coincide, and each word of the secret is the one its
      column's points interpolate. */
  ghost predicate Combined(F: Field, shares: seq<seq<Word>>, result: Result<seq<Word>>) {
    if |shares| == 0 then result == Err(NilShares)
    else if !Consistent(shares) then result == Err(InconsistentShareLength)
    else if |shares[0]| == 0 then result == Err(NegativeLength)
    else if |shares[0]| >= 2 && !Distinct(Column(shares, 0)) then result == Err(SingularMatrix)
    else
      && result.Ok? && |result.value| == |shares[0]| - 1
      && forall c :: 0 <= c < |result.value| ==>
           Interpolates(F, Column(shares, 0), Column(shares, c + 1), result.value[c])
  }

  /** The first c secret words are the values the columns' points interpolate. */
  ghost predicate Recovered(F: Field, shares: seq<seq<Word>>, secrets: seq<Word>, c: nat)
    requires Consistent(shares) && |shares| >= 1 && c < |shares[0]| && c <= |secrets|
  {
    forall l :: 0 <= l < c ==> Interpolates(F, Column(shares, 0), Column(shares, l + 1), secrets[l])
  }

  /** Recording the word of column c keeps the words before it. */
  lemma RecoveredStep(F: Field, shares: seq<seq<Word>>, before: seq<Word>, after: seq<Word>, c: nat)
    requires Consistent(shares) && |shares| >= 1 && c + 1 < |shares[0]| && c < |before| == |after|
    requires Recovered(F, shares, before, c)
    requires forall l :: 0 <= l < c ==> after[l] == before[l]
    requires Interpolates(F, Column(shares, 0), Column(shares, c + 1), after[c])
    ensures Recovered(F, shares, after, c + 1)
  {
  }

  /** combine: checks the shares, collects the x-coordinates, then recovers
      one secret word per column with combineSingle. */
  method Combine(F: Field, shares: seq<seq<Word>>) returns (result: Result<seq<Word>>)
    requires IsField(F)
    ensures Combined(F, shares, result)
  {
    if |shares| == 0 {
      return Err(NilShares);
    }
    var consistent := SameLengths(shares);
    if !consistent {
      return Err(InconsistentShareLength);
    }
    var secretLen := |shares[0]| - 1;

    var k := |shares|;
    var xvals := new Word[k](_ => 0);
    var yvals := new Word[k](_ => 0);
    if secretLen < 0 {
      return Err(NegativeLength);
    }
    var secrets := new Word[secretLen](_ => 0);

    GatherColumn(shares, 0, xvals);
    var outcome := RecoverColumns(F, shares, xvals, yvals, secrets);
    if outcome != Pass {
      return Err(outcome.error);
    }
    return Ok(secrets[..]);
  }

  /** The length check of combine: every share after the first has the
      first one's length. */
  method SameLengths(shares: seq<seq<Word>>) returns (consistent: bool)
    requires |shares| >= 1
    ensures consistent <==> Consistent(shares)
  {
    var secretLen := |shares[0]| - 1;
    for r := 1 to |shares|
      invariant forall l :: 0 <= l < r ==> |shares[l]| == secretLen + 1
    {
      if |shares[r]| != secretLen + 1 {
        return false;
      }
    }
    return true;
  }

  /** Copies entry c of every share into v. */
  method GatherColumn(shares: seq<seq<Word>>, c: nat, v: array<Word>)
    requires forall r :: 0 <= r < |shares| ==> c < |shares[r]|
    requires v.Length == |shares|
    modifies v
    ensures v[..] == Column(shares, c)
  {
    for r := 0 to |shares|
      invariant forall l :: 0 <= l < r ==> v[l] == shares[l][c]
    {
      v[r] := shares[r][c];
    }
  }

  /** The column loop of combine: secret word c - 1 is what combineSingle
      recovers from the x-coordinates and entry c of every share. Only the
      first column can fail, and it does exactly when two x-coordinates
      coincide. */
  method RecoverColumns(F: Field, shares: seq<seq<Word>>, xvals: array<Word>, yvals: array<Word>,
                        secrets: array<Word>) returns (result: Outcome)
    requires IsField(F) && |shares| >= 1 && Consistent(shares) && |shares[0]| >= 1
    requires xvals.Length == yvals.Length == |shares| && secrets.Length == |shares[0]| - 1
    requires xvals[..] == Column(shares, 0)
    requires yvals != xvals && secrets != xvals && secrets != yvals
    modifies yvals, secrets
    ensures result == Pass || result == Fail(SingularMatrix)
    ensures result != Pass <==> |shares[0]| >= 2 && !Distinct(Column(shares, 0))
    ensures result == Pass ==> Recovered(F, shares, secrets[..], |shares[0]| - 1)
  {
    ghost var xs := Column(shares, 0);
    for c := 1 to |shares[0]|
      invariant xvals[..] == xs
      invariant c >= 2 ==> Distinct(xs)
      invariant Recovered(F, shares, secrets[..], c - 1)
    {
      var ok := RecoverColumn(F, shares, xvals, yvals, secrets, c);
      if !ok {
        return Fail(SingularMatrix);
      }
    }
    return Pass;
  }

  /** One pass of combine's column loop: combineSingle on the x-coordinates
      and entry c of every share, the word stored as secret word c - 1. It
      fails exactly when two x-coordinates coincide. */
  method RecoverColumn(F: Field, shares: seq<seq<Word>>, xvals: array<Word>, yvals: array<Word>,
                       secrets: array<Word>, c: nat) returns (ok: bool)
    requires IsField(F) && |shares| >= 1 && Consistent(shares) && 1 <= c < |shares[0]|
    requires xvals.Length == yvals.Length == |shares| && secrets.Length == |shares[0]| - 1
    requires xvals[..] == Column(shares, 0)
    requires yvals != xvals && secrets != xvals && secrets != yvals
    requires Recovered(F, shares, secrets[..], c - 1)
    modifies yvals, secrets
    ensures ok <==> Distinct(Column(shares, 0))
    ensures ok ==> Recovered(F, shares, secrets[..], c)
  {
    GatherColumn(shares, c, yvals);
    var single := CombineSingle(F, xvals, yvals);
    if single.Err? {
      return false;
    }
    ghost var before := secrets[..];
    secrets[c - 1] := single.value;
    RecoveredStep(F, shares, before, secrets[..], c - 1);
    return true;
  }
}

/** What split and combine promise together: the shares carry usable
    x-coordinates, each column lies on a polynomial with threshold
    coefficients whose constant term is the secret word, and any threshold
    distinct shares give the secret back. */
module ShamirLaws {
  import opened Errors
  import opened GF
  import opened Poly
  import opened Vandermonde
  import opened Sampling
  import opened Collections
  import opened Shamir

  /** The shares at positions idx, in that order. */
  function Pick<T>(S: seq<T>, idx: seq<nat>): (P: seq<T>)
    requires forall a :: 0 <= a < |idx| ==> idx[a] < |S|
    ensures |P| == |idx| && forall a :: 0 <= a < |idx| ==> P[a] == S[idx[a]]
  {
    seq(|idx|, a requires 0 <= a < |idx| => S[idx[a]])
  }

  /** No position is picked twice. */
  ghost predicate NoRepeats(idx: seq<nat>) {
    forall a, b :: 0 <= a < b < |idx| ==> idx[a] != idx[b]
  }

  /** S is a set of shares of secret with threshold t: equal lengths,
      distinct x-coordinates, and every column on a polynomial with t
      coefficients whose constant term is the secret word. */
  ghost predicate SharesOf(F: Field, S: seq<seq<Word>>, secret: seq<Word>, t: int) {
    && (forall j :: 0 <= j < |S| ==> |S[j]| == |secret| + 1)
    && Distinct(Column(S, 0))
    && forall c :: 0 <= c < |secret| ==> OnPolynomial(F, S, secret, t, c)
  }

  /** Column c + 1 of the shares lies on a polynomial with t coefficients
      whose constant term is secret word c. */
  ghost predicate OnPolynomial(F: Field, S: seq<seq<Word>>, secret: seq<Word>, t: int, c: nat)
    requires c < |secret| && forall j :: 0 <= j < |S| ==> |S[j]| == |secret| + 1
  {
    exists p :: 0 < |p| == t && p[0] == secret[c] && Fits(F, p, Column(S, 0), Column(S, c + 1))
  }

  /** The x-coordinates split hands out are non-zero and pairwise distinct. */
  lemma SplitXCoordinates(F: Field, rand: seq<Word>, threshold: int, n: int, secret: seq<Word>)
    requires SplitSpec(F, rand, threshold, n, secret).0.Ok?
    ensures XCoordinates(Column(SplitSpec(F, rand, threshold, n, secret).0.value, 0))
  {
    var S := SplitSpec(F, rand, threshold, n, secret).0.value;
    var d := Sample(rand, Zeros(n), 0);
    SampleSound(rand, Zeros(n), 0);
    assert Column(S, 0) == d.v;
  }

  /** Column c of the shares is the graph of a polynomial with threshold
      coefficients whose constant term is secret word c. */
  lemma SplitColumnsFit(F: Field, rand: seq<Word>, threshold: int, n: int, secret: seq<Word>, c: nat)
    requires SplitSpec(F, rand, threshold, n, secret).0.Ok? && c < |secret|
    ensures OnPolynomial(F, SplitSpec(F, rand, threshold, n, secret).0.value, secret, threshold, c)
  {
    var S := SplitSpec(F, rand, threshold, n, secret).0.value;
    var d := Sample(rand, Zeros(n), 0);
    var w := threshold - 1;
    MulMono(w, c + 1, |secret|);
    var p := Coefficients(secret, d.rest, w, c);
    forall j | 0 <= j < n ensures Eval(F, p, Column(S, 0)[j]) == Column(S, c + 1)[j] {
      assert S[j] == ShareAt(F, d.v[j], secret, d.rest, w, |secret|);
    }
    assert Fits(F, p, Column(S, 0), Column(S, c + 1));
  }

  /** Picking distinct positions of distinct x-coordinates keeps them distinct. */
  lemma PickDistinct(S: seq<seq<Word>>, idx: seq<nat>)
    requires forall a :: 0 <= a < |idx| ==> idx[a] < |S|
    requires forall r :: 0 <= r < |S| ==> |S[r]| >= 1
    requires Distinct(Column(S, 0)) && NoRepeats(idx)
    ensures Distinct(Column(Pick(S, idx), 0))
  {
    var P := Pick(S, idx);
    forall a, b | 0 <= a < b < |idx| ensures Column(P, 0)[a] != Column(P, 0)[b] {
      if idx[a] < idx[b] {
        assert Column(S, 0)[idx[a]] != Column(S, 0)[idx[b]];
      } else {
        assert Column(S, 0)[idx[b]] != Column(S, 0)[idx[a]];
      }
    }
  }

  /** What split returns is a set of shares of the secret. */
  lemma SplitShares(F: Field, rand: seq<Word>, threshold: int, n: int, secret: seq<Word>)
    requires SplitSpec(F, rand, threshold, n, secret).0.Ok?
    ensures SharesOf(F, SplitSpec(F, rand, threshold, n, secret).0.value, secret, threshold)
  {
    var S := SplitSpec(F, rand, threshold, n, secret).0.value;
    SplitXCoordinates(F, rand, threshold, n, secret);
    forall c | 0 <= c < |secret| ensures OnPolynomial(F, S, secret, threshold, c) {
      SplitColumnsFit(F, rand, threshold, n, secret, c);
    }
  }

  /** A picked column lies on every polynomial the whole column lies on. */
  lemma PickFits(F: Field, S: seq<seq<Word>>, idx: seq<nat>, c: nat, p: seq<Word>)
    requires forall a :: 0 <= a < |idx| ==> idx[a] < |S|
    requires forall r :: 0 <= r < |S| ==> c < |S[r]|
    requires Fits(F, p, Column(S, 0), Column(S, c))
    ensures Fits(F, p, Column(Pick(S, idx), 0), Column(Pick(S, idx), c))
  {
    var P := Pick(S, idx);
    forall a | 0 <= a < |idx| ensures Eval(F, p, Column(P, 0)[a]) == Column(P, c)[a] {
      assert Column(P, 0)[a] == Column(S, 0)[idx[a]];
      assert Column(P, c)[a] == Column(S, c)[idx[a]];
    }
  }

  /** Any t or more distinct shares of a secret make combine return it. */
  lemma CombineShares(F: Field, S: seq<seq<Word>>, secret: seq<Word>, t: int, idx: seq<nat>,
                      result: Result<seq<Word>>)
    requires IsField(F) && SharesOf(F, S, secret, t) && |secret| >= 1 && t >= 1
    requires |idx| >= t && NoRepeats(idx) && forall a :: 0 <= a < |idx| ==> idx[a] < |S|
    requires Combined(F, Pick(S, idx), result)
    ensures result == Ok(secret)
  {
    var P := Pick(S, idx);
    assert |P[0]| == |secret| + 1 && Consistent(P);
    PickDistinct(S, idx);
    assert result.Ok? && |result.value| == |secret|;
    var v := result.value;
    forall c | 0 <= c < |secret| ensures v[c] == secret[c] {
      assert Interpolates(F, Column(P, 0), Column(P, c + 1), v[c]);
      CombineColumn(F, S, secret, t, idx, c, v[c]);
    }
    assert v == secret;
  }

  /** A word that picked shares interpolate in column c + 1 is secret word c. */
  lemma CombineColumn(F: Field, S: seq<seq<Word>>, secret: seq<Word>, t: int, idx: seq<nat>, c: nat, v: Word)
    requires SharesOf(F, S, secret, t) && t >= 1 && c < |secret|
    requires |idx| >= t && forall a :: 0 <= a < |idx| ==> idx[a] < |S|
    requires Interpolates(F, Column(Pick(S, idx), 0), Column(Pick(S, idx), c + 1), v)
    ensures v == secret[c]
  {
    assert OnPolynomial(F, S, secret, t, c);
    var p :| 0 < |p| == t && p[0] == secret[c] && Fits(F, p, Column(S, 0), Column(S, c + 1));
    PickFits(F, S, idx, c + 1, p);
  }

  /** The round trip: combine, given any threshold or more of the shares
      split made, in any order and without repeats, returns the secret. */
  lemma SplitThenCombine(F: Field, rand: seq<Word>, threshold: int, n: int, secret: seq<Word>,
                         idx: seq<nat>, result: Result<seq<Word>>)
    requires IsField(F)
    requires SplitSpec(F, rand, threshold, n, secret).0.Ok?
    requires |idx| >= threshold && NoRepeats(idx)
    requires forall a :: 0 <= a < |idx| ==> idx[a] < n
    requires Combined(F, Pick(SplitSpec(F, rand, threshold, n, secret).0.value, idx), result)
    ensures result == Ok(secret)
  {
    SplitShares(F, rand, threshold, n, secret);
    CombineShares(F, SplitSpec(F, rand, threshold, n, secret).0.value, secret, threshold, idx, result);
  }

  /** splitSingle followed by combineSingle on the same x-coordinates: a
      word the points interpolate is the secret word. */
  lemma SingleRoundTrip(F: Field, xs: seq<Word>, coeffs: seq<Word>, secret: Word, v: Word)
    requires IsField(F)
    requires Distinct(xs) && |coeffs| + 1 <= |xs|
    requires Interpolates(F, xs, Evaluations(F, [secret] + coeffs, xs), v)
    ensures v == secret
  {
    FitInterpolates(F, xs, Evaluations(F, [secret] + coeffs, xs), [secret] + coeffs);
  }

  /** When the stream holds fewer distinct non-zero words than there are
      shares, split cannot draw the x-coordinates and fails. */
  lemma SplitNeedsDistinctWords(F: Field, rand: seq<Word>, threshold: int, n: int, secret: seq<Word>)
    requires 1 <= threshold <= n && |secret| >= 1
    requires |NonZeros(rand)| < n
    ensures SplitSpec(F, rand, threshold, n, secret) == (Err(RandomExhausted), [])
  {
    var v := Zeros(n);
    assert Elements(v[..0]) + NonZeros(rand) == NonZeros(rand);
    SampleFailsIff(rand, v, 0);
  }

    /** split refuses bad parameters before reading anything: a threshold
      above n, a threshold below 1, and an empty secret. */
  lemma SplitRefuses(F: Field, rand: seq<Word>)
    ensures SplitSpec(F, rand, 5, 3, [42069]) == (Err(ThresholdAboveN), rand)
    ensures SplitSpec(F, rand, 0, 0, [0xdeca, 0xfbad]) == (Err(ThresholdNotPositive), rand)
    ensures SplitSpec(F, rand, 3, 5, []) == (Err(NilSecret), rand)
    ensures SplitSpec(F, rand, 0, 5, [0xf00d]) == (Err(ThresholdNotPositive), rand)
  {
  }

/** The stream of the "bad rand source" case: 18 bytes, nine words, for ten
      shares. */
  lemma SplitBadSource(F: Field, rand: seq<Word>, secret: seq<Word>)
    requires |rand| == 9 && |secret| >= 1
    ensures SplitSpec(F, rand, 5, 10, secret) == (Err(RandomExhausted), [])
  {
    NineWordsForTen(rand, Zeros(10));
  }

  /** The random words of the "valid" split case: the x-coordinates come
      first, then two coefficients per secret word. */
  const VectorRandom: seq<Word> := [0xa7f0, 0x0e7a, 0x8a1e, 0x362e, 0x59fb, 0x84bb, 0x6597]
  const VectorSecret: seq<Word> := [0xb16b, 0x00b5]

  /** The "valid" split case with threshold 3 and 3 shares: share j is
      x_j followed by the values at x_j of b16b + 362e x + 59fb x^2 and
      00b5 + 84bb x + 6597 x^2, and the stream is used up. */
  lemma SplitVector(F: Field)
    ensures var xs := [0xa7f0, 0x0e7a, 0x8a1e];
      var p0, p1 := [0xb16b, 0x362e, 0x59fb], [0x00b5, 0x84bb, 0x6597];
      SplitSpec(F, VectorRandom, 3, 3, VectorSecret) ==
        (Ok([[xs[0], Eval(F, p0, xs[0]), Eval(F, p1, xs[0])],
             [xs[1], Eval(F, p0, xs[1]), Eval(F, p1, xs[1])],
             [xs[2], Eval(F, p0, xs[2]), Eval(F, p1, xs[2])]]), [])
  {
    var R: seq<Word> := [0x362e, 0x59fb, 0x84bb, 0x6597];
    var xs: seq<Word> := [0xa7f0, 0x0e7a, 0x8a1e];
    VectorXCoordinates();
    var S := Shares(F, xs, VectorSecret, R, 2);
    VectorShare(F, xs[0]);
    VectorShare(F, xs[1]);
    VectorShare(F, xs[2]);
    assert S == [S[0], S[1], S[2]];
    assert R[2 * |VectorSecret|..] == [];
  }

  /** distinctXes on the stream of the "valid" case takes its first three
      words, all non-zero and distinct. */
  lemma VectorXCoordinates()
    ensures Sample(VectorRandom, Zeros(3), 0) ==
            Draw([0xa7f0, 0x0e7a, 0x8a1e], [0x362e, 0x59fb, 0x84bb, 0x6597], true)
  {
    var a, b, c: Word := 0xa7f0, 0x0e7a, 0x8a1e;
    assert VectorRandom[1..][1..][1..] == [0x362e, 0x59fb, 0x84bb, 0x6597];
    assert Zeros(3) == [0, 0, 0];
    assert Sample(VectorRandom, Zeros(3), 0) == Sample(VectorRandom[1..], [a, 0, 0], 1);
    assert Sample(VectorRandom[1..], [a, 0, 0], 1) == Sample(VectorRandom[1..][1..], [a, b, 0], 2) by {
      assert b !in [a, 0, 0][..1];
    }
    assert Sample(VectorRandom[1..][1..], [a, b, 0], 2) == Sample(VectorRandom[1..][1..][1..], [a, b, c], 3) by {
      assert c !in [a, b, 0][..2];
    }
  }

  /** The share at x in the "valid" case. */
  lemma VectorShare(F: Field, x: Word)
    ensures ShareAt(F, x, VectorSecret, [0x362e, 0x59fb, 0x84bb, 0x6597], 2, 2) ==
            [x, Eval(F, [0xb16b, 0x362e, 0x59fb], x), Eval(F, [0x00b5, 0x84bb, 0x6597], x)]
  {
    var R: seq<Word> := [0x362e, 0x59fb, 0x84bb, 0x6597];
    assert R[0..2] == [0x362e, 0x59fb] && R[2..4] == [0x84bb, 0x6597];
    assert Coefficients(VectorSecret, R, 2, 0) == [0xb16b, 0x362e, 0x59fb];
    assert Coefficients(VectorSecret, R, 2, 1) == [0x00b5, 0x84bb, 0x6597];
  }

  /** Combining the three shares of the "valid" case, in any order, gives
      the secret b16b 00b5 back. */
  lemma CombineVector(F: Field, idx: seq<nat>, result: Result<seq<Word>>)
    requires IsField(F)
    requires |idx| == 3 && NoRepeats(idx) && forall a :: 0 <= a < 3 ==> idx[a] < 3
    requires Combined(F, Pick(SplitSpec(F, VectorRandom, 3, 3, VectorSecret).0.value, idx), result)
    ensures result == Ok([0xb16b, 0x00b5])
  {
    SplitVector(F);
    SplitThenCombine(F, VectorRandom, 3, 3, VectorSecret, idx, result);
  }

  /** The refused combine cases: shares of lengths 3, 2, 3, and two shares
      with the same x-coordinate. */
  lemma CombineRefuses(F: Field, r1: Result<seq<Word>>, r2: Result<seq<Word>>)
    requires Combined(F, [[1, 2, 3], [1, 2], [5, 4, 3]], r1)
    requires Combined(F, [[0xa7f0, 0xc423, 0xe7ac], [0x0e7a, 0xdcbc, 0x4e6e], [0x0e7a, 0xdcbc, 0x4e6e]], r2)
    ensures r1 == Err(InconsistentShareLength)
    ensures r2 == Err(SingularMatrix)
  {
    var S1: seq<seq<Word>> := [[1, 2, 3], [1, 2], [5, 4, 3]];
    assert |S1[1]| != |S1[0]|;
    var S2: seq<seq<Word>> := [[0xa7f0, 0xc423, 0xe7ac], [0x0e7a, 0xdcbc, 0x4e6e], [0x0e7a, 0xdcbc, 0x4e6e]];
    assert Column(S2, 0)[1] == Column(S2, 0)[2];
  }
}

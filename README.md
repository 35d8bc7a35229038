# Shamir secret sharing over GF(2^16), modelled in Dafny

This project models the core of `wbrc/shamir`, a Go package for Shamir secret
sharing over the field GF(2^16). A secret is a sequence of 16-bit words. For
each word, `split` draws a random polynomial of degree `threshold - 1` whose
constant term is that word. Share `j` holds an x-coordinate followed by the
value of every word's polynomial at that x. `combine` rebuilds each word by
solving a Vandermonde system with Gaussian elimination (`gauss` in `poly.go`).
A `Dealer` wraps both for byte strings: it turns bytes into words and back,
and falls back to default settings for any it was not given.

The model follows the source's own form.

- The helpers of `poly.go` are methods, each proved against a specification
  function. `Poly.Pows`, `Poly.ScalePoly` and `Poly.AddPoly` write into arrays.
  `Poly.EvalPoly` only reads its coefficients, so it takes them as a sequence.
- `gauss` is an in-place method over an `array<array<Word>>`. Each of its loops
  is its own method, proved against the solution set of the system.
- `distinctXes`, `splitSingle`, `split`, `combineSingle` and `combine` are
  methods with loops. Each is proved equal to, or to satisfy, a specification
  function or predicate.
- The `Dealer` is a class whose `Init`, `Split` and `Combine` update its fields.

The files are:

| file | module | models |
|---|---|---|
| `seqs.dfy` | `Collections` | the elements of a sequence, as a set |
| `errors.dfy` | `Errors` | the error strings and the result wrappers |
| `field.dfy` | `GF` | the field: XOR addition and the laws of multiplication and inverse |
| `poly.dfy` | `Poly` | `pows`, `evalPoly`, `scalePoly`, `addPoly` |
| `matrix.dfy` | `Matrix` | solutions of a linear system, singularity, row operations |
| `gauss.dfy` | `Elimination` | `gauss` and `findNonzero` on row arrays |
| `vandermonde.dfy` | `Vandermonde` | the system `combineSingle` builds, and why it is singular exactly when two x-coordinates coincide |
| `sample.dfy` | `Sampling` | `distinctXes` |
| `shamir.dfy` | `Shamir` | `split`, `splitSingle`, `combine`, `combineSingle` |
| `shamir_laws.dfy` | `ShamirLaws` | the round trip and the test vectors of `shamir_test.go` |
| `dealer.dfy` | `Dealing` | `Dealer`, `init`, byte/word conversion |

The main results:

- **The round trip.** Take any `threshold` or more distinct shares that `split`
  made, in any order. `combine` returns the secret (`ShamirLaws.SplitThenCombine`).
  The same holds for bytes through the Dealer (`Dealing.DealerRoundTrip`).
- **Gauss.** `gauss` succeeds exactly when the system has no non-zero
  homogeneous solution. On success, row 0 reads `[1, 0, ..., 0, s]`, and every
  solution of the original system has first coordinate `s`.
- **combineSingle.** It fails exactly when two x-coordinates coincide. Otherwise
  it returns the constant term shared by every polynomial of at most `k`
  coefficients through the `k` points.
- **distinctXes.** On success the words are non-zero, pairwise distinct and
  taken from the stream. It fails exactly when the stream holds too few
  distinct non-zero words.

Modelling choices:

- **Field.** The field is a parameter `F` with a multiplication and an inverse.
  `GF.IsField` lists the laws the proofs use. Addition is XOR, as in GF(2^k).
- **Random source.** The `io.Reader` is a sequence of words, read two bytes at
  a time. Every reading method returns the words it left unread. A read that
  runs short fails with `RandomExhausted` and consumes the rest of the stream.
- **Unreachable check.** The `n < 1` check of `split` cannot fire, because
  `threshold > n` and `threshold < 1` are tested first.
  `Shamir.SplitSpec` keeps the branch and proves that `CountNotPositive` is
  never returned.
- **Empty shares.** `combine` given shares of length 0 calls
  `make([]uint16, -1)`, which panics at run time. The model returns
  `Err(NegativeLength)` for this case.
- **Share length.** `Dealer.Combine` reads each share as `len(shares[0])/2`
  words:
  - a longer share is read only up to that length;
  - a share shorter than `2 * (len(shares[0]) / 2)` bytes fails to decode
    (`BufferTooSmall`);
  - a share one byte shorter than an odd-length `shares[0]` still holds
    enough bytes, so it decodes (a 4-byte share beside a 5-byte `shares[0]`
    is read as two words).

  So `InconsistentShareLength` cannot arise through the Dealer
  (`Dealing.CombineBytesConsistent`).

## Model

| member | source | states |
|---|---|---|
| Poly.Pows | poly.go:56-63 | the first n slots of v become x^0, x^1, ..., x^(n-1); the rest of v is unchanged |
| Poly.EvalPoly | poly.go:65-73 | the loop's accumulator equals the polynomial's value at x (Eval) |
| Poly.ScalePoly | poly.go:75-79 | z's first len(coeff) entries become coeff times x, computed from the old coeff even when z aliases coeff; the rest of z is unchanged |
| Poly.AddPoly | poly.go:81-85 | z's first len(a) entries become a + b entrywise, computed from the old a and b even under aliasing; the rest of z is unchanged |
| Poly.Horner | poly.go:65-73 | evaluation obeys Horner's rule: c0 + x * (value of the remaining coefficients) |
| Poly.EvalShortPolynomials | poly.go:65-73 | the empty polynomial evaluates to 0; a constant evaluates to itself |
| Poly.EvalAtZero | poly.go:65-73 | a polynomial's value at 0 is its constant term, the word a share hides |
| Poly.EvalScaled | poly.go:75-79 | evaluating a scaled polynomial scales its value |
| Poly.EvalAdded | poly.go:81-85 | evaluating a sum of polynomials adds their values |
| Poly.EvalPadded | poly.go:65-73 | trailing zero coefficients do not change the value |
| Elimination.FindNonzero | poly.go:44-54 | returns -1 exactly when column r is zero from row r down; otherwise the first row at or below r with a non-zero entry in column r |
| Elimination.SwapRows | poly.go:17 | exchanges rows r and i and keeps the shape and the set of row arrays |
| Elimination.ScaleRow | poly.go:24 | row i becomes row i times a; the other rows are unchanged |
| Elimination.AddRow | poly.go:31 | row i becomes row i + row r; the other rows are unchanged |
| Elimination.Pivot | poly.go:12-18 | succeeds exactly when some row from r down has a non-zero entry in column r; leaves the matrix alone when m[r][r] is already non-zero, and otherwise swaps row r with the first such row; on success the solutions are kept and m[r][r] != 0, on failure the original system is singular |
| Elimination.NormalizeColumn | poly.go:20-25 | every row from r down with a non-zero entry in column r is multiplied by that entry's inverse; every other row is unchanged; column r then holds 0 or 1 from r down and the solutions are kept |
| Elimination.EliminateBelow | poly.go:27-32 | row r is added into every lower row whose entry in column r is non-zero; every other row is unchanged; the first r + 1 columns are then in echelon form and the solutions are kept |
| Elimination.ReduceColumn | poly.go:11-33 | one pass of the outer loop: succeeds exactly when some row from r down has a non-zero entry in column r; then column r is reduced with the solutions kept, otherwise the original system is singular |
| Elimination.Triangularize | poly.go:10-33 | the first loop: reaches full echelon form with the same solutions, or reports a system that is singular |
| Elimination.BackSubstitute | poly.go:35-39 | row 0 becomes [1, 0, ..., 0, s]; every solution of the triangular system remains a solution |
| Elimination.EchelonNonsingular | poly.go:35-41 | a system with the solutions of a full echelon form is not singular, so gauss never fails after the first loop |
| Elimination.SolvedRowReads | poly.go:35-39 | once row 0 is reduced, every solution c + [1] of the original system has c[0] equal to row 0's last entry |
| Elimination.Gauss | poly.go:9-42 | fails with "matrix is singular" exactly when the system has a non-zero homogeneous solution; on success row 0 is [1, 0, ..., 0, s] and every solution's first coordinate is s |
| Matrix.SwapSameSolutions | poly.go:17 | swapping two rows keeps the solution set |
| Matrix.ScaleSameSolutions | poly.go:24 | scaling a row by a non-zero word keeps the solution set |
| Matrix.AddSameSolutions | poly.go:31 | adding one row to another keeps the solution set |
| Matrix.ScaleKeepsSolutions | poly.go:37 | scaling a row by any word, zero included, keeps every solution |
| Matrix.StallSingular | poly.go:13-16 | if no row at or below r has a non-zero entry in column r, the system is singular |
| Matrix.StallRow | poly.go:13-16 | each reduced row above the stalled column is satisfied by the null vector built for it |
| Matrix.TriangularNonsingular | poly.go:35-41 | a full echelon form has no non-zero homogeneous solution |
| Matrix.ReducedRowValue | poly.go:35-39 | a row [1, 0, ..., 0, s] forces c[0] == s for any solution c + [1] |
| Vandermonde.SolutionFits | shamir.go:217-222 | c + [1] solves the system exactly when the polynomial c passes through every point |
| Vandermonde.KernelRoots | shamir.go:217-222 | a homogeneous solution is a polynomial that vanishes at every x-coordinate |
| Vandermonde.RootsForceZero | shamir.go:216-230 | a polynomial with at most k coefficients that vanishes at k distinct points is zero |
| Vandermonde.DistinctNonsingular | shamir.go:216-227 | distinct x-coordinates give a nonsingular system |
| Vandermonde.DuplicateSingular | shamir.go:216-227 | a repeated x-coordinate makes the system singular |
| Vandermonde.SingularIffDuplicate | shamir.go:216-227 | the system is singular if and only if two x-coordinates coincide |
| Vandermonde.SolutionsInterpolate | shamir.go:224-229 | a word that every solution starts with is the constant term of every polynomial through the points |
| Vandermonde.FitsUnique | shamir.go:216-230 | two polynomials of at most k coefficients through k points with distinct x-coordinates share their constant term |
| Vandermonde.FitInterpolates | shamir.go:216-230 | the constant term of any polynomial through the points is the word those points interpolate |
| Sampling.Sample | shamir.go:232-252 | the specification of distinctXes: slots already filled are kept, never more words are left than were given, and a failed draw consumes the whole stream |
| Sampling.DistinctXes | shamir.go:232-252 | the loop with its set of seen words computes Sample: same array, same unread words, and it fails with RandomExhausted exactly when Sample does |
| Sampling.SampleSound | shamir.go:232-252 | on success the words drawn are non-zero and pairwise distinct, each one read from the stream, and the unread words are a suffix of the stream |
| Sampling.SampleFailsIff | shamir.go:236-239 | distinctXes fails exactly when the stream holds fewer distinct non-zero words than slots remain |
| Sampling.ShortStreamFails | shamir.go:236-239 | a stream shorter than the slots to fill always fails |
| Sampling.NineWordsForTen | shamir_test.go:170-178 | nine words cannot fill ten x-coordinates |
| Shamir.SplitSingle | shamir.go:199-214 | with fewer than threshold - 1 words left it fails with RandomExhausted and leaves z alone; otherwise z[i] is the value at xvals[i] of [secret] followed by the next threshold - 1 words, and those words are consumed |
| Shamir.NewRow | shamir.go:219-221 | a fresh row [x^0, ..., x^(k-1), y] |
| Shamir.BuildSystem | shamir.go:217-222 | a fresh matrix of distinct row arrays whose rows are the Vandermonde system of the points |
| Shamir.CombineSingle | shamir.go:216-230 | fails with SingularMatrix if and only if two x-coordinates coincide; otherwise returns the word the points interpolate |
| Shamir.Coefficients | shamir.go:200-204 | the polynomial of secret word i has threshold coefficients and constant term secret[i] |
| Shamir.SplitSpec | shamir.go:121-161 | parameter errors in the source's order consume nothing; CountNotPositive never occurs; a run-dry stream gives RandomExhausted with nothing left; on success 1 <= threshold <= n, the secret is non-empty and there are n shares of len(secret) + 1 words |
| Shamir.Split | shamir.go:121-161 | the method computes SplitSpec: same result and same words left unread |
| Shamir.FillColumns | shamir.go:149-158 | fails with RandomExhausted, and empties the stream, when it is shorter than (threshold - 1) * len(secret); otherwise share j is xvals[j] followed by, for each secret word c, the value at xvals[j] of the polynomial [secret[c]] + the c-th block of threshold - 1 stream words, and exactly those words are consumed |
| Shamir.BlankShares | shamir.go:144-147 | each share starts as its x-coordinate followed by zeros |
| Shamir.StoreColumn | shamir.go:155-157 | entry i + 1 of each share becomes z[j]; nothing else changes |
| Shamir.ShareAtStep | shamir.go:155-157 | writing column i + 1 advances each share from i to i + 1 written columns |
| Shamir.Combine | shamir.go:163-197 | combine in full: no shares give NilShares; unequal lengths give InconsistentShareLength; empty shares give the panic; repeated x-coordinates give SingularMatrix when there is at least one column; otherwise len(shares[0]) - 1 words, each the word its column interpolates |
| Shamir.SameLengths | shamir.go:168-173 | true exactly when every share has the first share's length |
| Shamir.GatherColumn | shamir.go:179-186 | v becomes entry c of every share, in order |
| Shamir.RecoverColumns | shamir.go:183-194 | fails only with SingularMatrix, and exactly when there is a column and two x-coordinates coincide; on success every secret word is what its column interpolates |
| Shamir.RecoverColumn | shamir.go:184-193 | one pass succeeds exactly when the x-coordinates are distinct, and then records the interpolated word of column c |
| ShamirLaws.SplitXCoordinates | shamir.go:139-147 | the shares split returns carry non-zero, pairwise-distinct x-coordinates |
| ShamirLaws.SplitColumnsFit | shamir.go:149-158 | every column of split's shares lies on a polynomial with threshold coefficients whose constant term is that secret word |
| ShamirLaws.SplitShares | shamir.go:121-161 | split's output is a threshold sharing of the secret: equal lengths, distinct x-coordinates, every column on such a polynomial |
| ShamirLaws.PickDistinct | shamir_test.go:96-105 | a subset of shares in any order, without repeats, keeps distinct x-coordinates |
| ShamirLaws.PickFits | shamir_test.go:96-105 | a polynomial through all the points passes through any subset of them |
| ShamirLaws.CombineColumn | shamir.go:183-194 | a word that threshold or more shares interpolate in a column is that column's secret word |
| ShamirLaws.CombineShares | shamir.go:163-197 | combine on threshold or more distinct shares of a threshold sharing returns exactly the secret |
| ShamirLaws.SplitThenCombine | shamir.go:28-32 | any threshold or more of split's shares, in any order and without repeats, combine to the original secret |
| ShamirLaws.SingleRoundTrip | shamir_test.go:266-290 | combineSingle's word for the points of splitSingle is the secret word |
| ShamirLaws.SplitNeedsDistinctWords | shamir.go:139-142 | with valid parameters, a stream with fewer than n distinct non-zero words makes split fail with RandomExhausted |
| ShamirLaws.SplitRefuses | shamir_test.go:130-168 | the four invalid-parameter cases give ThresholdAboveN, ThresholdNotPositive, NilSecret and ThresholdNotPositive, and read nothing |
| ShamirLaws.SplitBadSource | shamir_test.go:169-178 | eighteen bytes of entropy (nine words) for ten shares fail with RandomExhausted |
| ShamirLaws.VectorXCoordinates | shamir_test.go:182-183 | the test stream yields x-coordinates 0xa7f0, 0x0e7a, 0x8a1e and leaves the four coefficient words |
| ShamirLaws.VectorShare | shamir_test.go:182-192 | the share at x is x, then the values of [0xb16b, 0x362e, 0x59fb] and [0x00b5, 0x84bb, 0x6597] at x |
| ShamirLaws.SplitVector | shamir_test.go:179-193 | the "valid" case splits into the shares at those x-coordinates, with those two polynomials, and reads the stream to its end |
| ShamirLaws.CombineVector | shamir_test.go:242-250 | combining the "valid" shares in any order returns [0xb16b, 0x00b5] |
| ShamirLaws.CombineRefuses | shamir_test.go:224-241 | the "inconsistent" shares give InconsistentShareLength; the "unsolvable" shares, with a repeated x, give SingularMatrix |
| Dealing.WordRoundTrip | shamir.go:40-44 | decoding the two bytes of an encoded word gives the word back, in either byte order |
| Dealing.BytesRoundTrip | shamir.go:51-58 | encoding the word that two bytes decode to gives the two bytes back |
| Dealing.DecodeEncode | shamir.go:73-80 | decoding an encoded word sequence gives the words back |
| Dealing.EncodeDecode | shamir.go:87-91 | encoding the words decoded from an even number of bytes gives the bytes back |
| Dealing.DecodePrefix | shamir.go:75-76 | decoding count words reads only the first 2 * count bytes |
| Dealing.SplitBytes | shamir.go:33-61 | an odd-length secret gives OddSecret and reads nothing; on success n shares of len(secret) + 2 bytes |
| Dealing.DecodeShares | shamir.go:73-80 | every share is read as len(shares[0]) / 2 words |
| Dealing.EncodeAll | shamir.go:51-58 | one byte share per word share, each word written as two bytes in the given order |
| Dealing.DecodeAll | shamir.go:73-80 | the decoding loop computes DecodeShares, or fails with BufferTooSmall when a share is shorter than the first share's whole words |
| Dealing.Dealer.constructor | shamir.go:22-26 | a Dealer literal with the given fields, None standing for Go's zero value |
| Dealing.Dealer.Init | shamir.go:109-119 | each field left at its zero value takes its default (BigEndian for the byte order); set fields are kept |
| Dealing.Dealer.Split | shamir.go:33-61 | after init, returns SplitBytes of the dealer's field, stream and byte order, and the stream advances past the words read |
| Dealing.Dealer.Combine | shamir.go:66-94 | after init, no shares give NilShares, an undecodable share gives BufferTooSmall, and otherwise combine runs on the decoded shares: its error is returned unchanged, or its secret words come back as two bytes each in the dealer's order; the stream is only defaulted, never read |
| Dealing.CombineBytesConsistent | shamir.go:73-80 | the Dealer never returns InconsistentShareLength |
| Dealing.DecodePicked | shamir.go:73-80 | decoding any selection of encoded equal-length shares gives the same selection of word shares |
| Dealing.SplitBytesXCoordinates | shamir.go:51-58 | every byte share from Dealer.Split opens with the two bytes of its x-coordinate (set at shamir.go:143-146): never both zero, and different for any two shares |
| Dealing.DealerRoundTrip | shamir.go:63-65 | Dealer.Combine on threshold or more distinct shares from Dealer.Split returns the secret bytes |
| Dealing.DealerRefuses | shamir_test.go:26-43 | a 3-byte secret gives OddSecret; threshold 0 gives ThresholdNotPositive |

## Left out

- The concrete field. `gf65536` is not part of this model. Multiplication and
  inverse are parameters that satisfy the field laws, so the test's concrete
  share values (0xc423, 0xe7ac, ...) appear only as values of `Eval` on the test
  polynomials.
- `crypto/rand` and `binary.Read` with `NativeEndian`. The random source is a
  sequence of 16-bit words, already read in the machine's byte order. A
  trailing odd byte of the stream, and the partial reads of `io.Reader`, are
  not modelled.
- Secrecy. That fewer than `threshold` shares reveal nothing is a statement
  about probability. The "invalid" cases of `TestDealer`, which combine too few
  shares, check only that the result differs from the secret, which can fail
  by chance.
- `Default`, and the package-level `Split` and `Combine`. They forward to a
  shared zero-value `Dealer`, and concurrent use of that dealer is not
  modelled.
- `cmd/`, and byte orders other than big- and little-endian.
- Elimination.Gauss: the three loops of `gauss` are separate methods
  (`Triangularize`, with `Pivot`, `NormalizeColumn` and `EliminateBelow`, and
  `BackSubstitute`). The arithmetic is the same, in the same order.
- Shamir.Split and Shamir.Combine: the share buffers are `seq` values, rebuilt
  column by column. The `z`, `xvals`, `yvals` and `secrets` buffers are arrays
  updated in place.
- Shamir.Combine: an empty share is reported as `NegativeLength` instead of the
  run-time panic of `make([]uint16, -1)`.
- Vandermonde.Interpolates: states that every polynomial through the points
  has the returned constant term. It does not state that such a polynomial
  exists; with distinct x-coordinates one always does.
- The errors that `binary.Decode` and `binary.Encode` cannot return here: the
  buffers are always sized for the words. The decode error of a short share is
  modelled as `BufferTooSmall`.

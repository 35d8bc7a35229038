/** The Dealer of shamir.go: the byte-level Split and Combine, which turn
    byte strings into 16-bit words, call split and combine, and turn the
    words back into bytes. */
module Dealing {
  import opened Errors
  import opened GF
  import opened Shamir
  import opened ShamirLaws

  type Byte = bv8

  /** The two byte orders of encoding/binary a Dealer can be given. */
  datatype ByteOrder = BigEndian | LittleEndian

  datatype Option<T> = None | Some(value: T)

  /** A field of the Dealer: its own value when set, the default otherwise. */
  function Fill<T>(o: Option<T>, default: T): T {
    if o.Some? then o.value else default
  }

  /** The high and the low byte of a word. */
  function High(w: Word): Byte {
    (w >> 8) as Byte
  }

  function Low(w: Word): Byte {
    (w & 0xFF) as Byte
  }

  /** The word with high byte hi and low byte lo. */
  function Join(hi: Byte, lo: Byte): Word {
    (hi as Word << 8) | lo as Word
  }

  /** A word is the join of its high and low bytes. */
  lemma JoinHighLow(w: Word)
    ensures Join(High(w), Low(w)) == w
  {
  }

  /** The high and low bytes of a join are the bytes joined. */
  lemma HighLowJoin(hi: Byte, lo: Byte)
    ensures High(Join(hi, lo)) == hi && Low(Join(hi, lo)) == lo
  {
  }

  /** A word as two bytes in the given order. */
  function WordBytes(order: ByteOrder, w: Word): (b: seq<Byte>)
    ensures |b| == 2
  {
    match order
    case BigEndian => [High(w), Low(w)]
    case LittleEndian => [Low(w), High(w)]
  }

  /** The word two bytes stand for in the given order. */
  function BytesWord(order: ByteOrder, b0: Byte, b1: Byte): Word {
    match order
    case BigEndian => Join(b0, b1)
    case LittleEndian => Join(b1, b0)
  }

  /** Encoding a word and decoding its bytes gives the word back. */
  lemma WordRoundTrip(order: ByteOrder, w: Word)
    ensures BytesWord(order, WordBytes(order, w)[0], WordBytes(order, w)[1]) == w
  {
    JoinHighLow(w);
  }

  /** Decoding two bytes and encoding the word gives the bytes back. */
  lemma BytesRoundTrip(order: ByteOrder, b0: Byte, b1: Byte)
    ensures WordBytes(order, BytesWord(order, b0, b1)) == [b0, b1]
  {
    HighLowJoin(b0, b1);
    HighLowJoin(b1, b0);
  }

  /** binary.Encode of a word slice: two bytes per word. */
  function WordsToBytes(order: ByteOrder, ws: seq<Word>): (bs: seq<Byte>)
    ensures |bs| == 2 * |ws|
  {
    if |ws| == 0 then [] else WordBytes(order, ws[0]) + WordsToBytes(order, ws[1..])
  }

  /** binary.Decode into count words: the first 2 * count bytes, two per word;
      any bytes after them are not read. */
  function BytesToWords(order: ByteOrder, bs: seq<Byte>, count: nat): (ws: seq<Word>)
    requires 2 * count <= |bs|
    ensures |ws| == count
  {
    if count == 0 then [] else [BytesWord(order, bs[0], bs[1])] + BytesToWords(order, bs[2..], count - 1)
  }

  /** Decoding the encoding of words gives the words back. */
  lemma {:induction false} DecodeEncode(order: ByteOrder, ws: seq<Word>)
    ensures BytesToWords(order, WordsToBytes(order, ws), |ws|) == ws
  {
    if |ws| > 0 {
      var bs := WordsToBytes(order, ws);
      WordRoundTrip(order, ws[0]);
      assert bs[2..] == WordsToBytes(order, ws[1..]);
      DecodeEncode(order, ws[1..]);
    }
  }

  /** Encoding the decoding of an even number of bytes gives the bytes back. */
  lemma {:induction false} EncodeDecode(order: ByteOrder, bs: seq<Byte>)
    requires |bs| % 2 == 0
    ensures WordsToBytes(order, BytesToWords(order, bs, |bs| / 2)) == bs
    decreases |bs|
  {
    if |bs| > 0 {
      var ws := BytesToWords(order, bs, |bs| / 2);
      BytesRoundTrip(order, bs[0], bs[1]);
      EncodeDecode(order, bs[2..]);
      assert ws[1..] == BytesToWords(order, bs[2..], |bs[2..]| / 2);
      assert bs == [bs[0], bs[1]] + bs[2..];
    }
  }

  /** Decoding reads only the first 2 * count bytes. */
  lemma {:induction false} DecodePrefix(order: ByteOrder, bs: seq<Byte>, count: nat)
    requires 2 * count <= |bs|
    ensures BytesToWords(order, bs, count) == BytesToWords(order, bs[..2 * count], count)
  {
    if count > 0 {
      assert bs[..2 * count][2..] == bs[2..][..2 * (count - 1)];
      DecodePrefix(order, bs[2..], count - 1);
    }
  }

  /** The byte shares Split hands out for word shares S. */
  function EncodeShares(order: ByteOrder, S: seq<seq<Word>>): (B: seq<seq<Byte>>)
    ensures |B| == |S| && forall j :: 0 <= j < |S| ==> B[j] == WordsToBytes(order, S[j])
  {
    seq(|S|, j requires 0 <= j < |S| => WordsToBytes(order, S[j]))
  }

  /** What Dealer.Split returns once the dealer's field, stream and byte order
      are settled, and the stream it leaves. An odd number of secret bytes is
      refused before anything is read. */
  function SplitBytes(F: Field, rand: seq<Word>, order: ByteOrder, threshold: int, n: int, secret: seq<Byte>)
    : (out: (Result<seq<seq<Byte>>>, seq<Word>))
    ensures |secret| % 2 != 0 ==> out == (Err(OddSecret), rand)
    ensures out.0.Ok? ==> |out.0.value| == n && forall j :: 0 <= j < n ==> |out.0.value[j]| == |secret| + 2
  {
    if |secret| % 2 != 0 then (Err(OddSecret), rand)
    else
      var words := SplitSpec(F, rand, threshold, n, BytesToWords(order, secret, |secret| / 2));
      match words.0
      case Ok(S) => (Ok(EncodeShares(order, S)), words.1)
      case Err(e) => (Err(e), words.1)
  }

  /** Every share holds at least as many bytes as the first share's whole
      words need. */
  ghost predicate Decodable(shares: seq<seq<Byte>>)
    requires |shares| >= 1
  {
    forall i :: 0 <= i < |shares| ==> 2 * (|shares[0]| / 2) <= |shares[i]|
  }

  /** The word shares Dealer.Combine decodes: each share read as as many
      words as the first one holds. */
  function DecodeShares(order: ByteOrder, shares: seq<seq<Byte>>): (W: seq<seq<Word>>)
    requires |shares| >= 1 && Decodable(shares)
    ensures |W| == |shares| && forall i :: 0 <= i < |W| ==> |W[i]| == |shares[0]| / 2
  {
    seq(|shares|, i requires 0 <= i < |shares| => BytesToWords(order, shares[i], |shares[0]| / 2))
  }

  /** A word-level result carried over to bytes. */
  function EncodeResult(order: ByteOrder, r: Result<seq<Word>>): (b: Result<seq<Byte>>)
    ensures b.Ok? <==> r.Ok?
    ensures r.Err? ==> b == Err(r.error)
    ensures r.Ok? ==> b.value == WordsToBytes(order, r.value)
  {
    match r
    case Ok(ws) => Ok(WordsToBytes(order, ws))
    case Err(e) => Err(e)
  }

  /** What Dealer.Combine returns: no shares is refused, a share too short for
      the first share's words fails to decode, and otherwise the result is
      combine's on the decoded shares, encoded again. */
  ghost predicate CombinedBytes(F: Field, order: ByteOrder, shares: seq<seq<Byte>>, result: Result<seq<Byte>>) {
    if |shares| == 0 then result == Err(NilShares)
    else if !Decodable(shares) then result == Err(BufferTooSmall)
    else exists r :: Combined(F, DecodeShares(order, shares), r) && result == EncodeResult(order, r)
  }

  class Dealer {
    /** The field, random stream and byte order; None is Go's zero value. */
    var F: Option<Field>
    var Rand: Option<seq<Word>>
    var Order: Option<ByteOrder>
    /** The package defaults init falls back to. */
    const DefaultField: Field
    const DefaultRand: seq<Word>

    /** A Dealer literal, with the defaults it will fall back to. */
    constructor (defaultField: Field, defaultRand: seq<Word>,
                 f: Option<Field>, rand: Option<seq<Word>>, order: Option<ByteOrder>)
      ensures F == f && Rand == rand && Order == order
      ensures DefaultField == defaultField && DefaultRand == defaultRand
    {
      DefaultField, DefaultRand := defaultField, defaultRand;
      F, Rand, Order := f, rand, order;
    }

    /** The dealer is usable: its field, set or default, satisfies the field laws. */
    ghost predicate Valid()
      reads this
    {
      IsField(Fill(F, DefaultField))
    }

    /** init: fills in every field still at its zero value and leaves the
        others alone, so a second call changes nothing. */
    method Init()
      modifies this
      ensures F == Some(Fill(old(F), DefaultField))
      ensures Rand == Some(Fill(old(Rand), DefaultRand))
      ensures Order == Some(Fill(old(Order), BigEndian))
    {
      if F.None? {
        F := Some(DefaultField);
      }
      if Rand.None? {
        Rand := Some(DefaultRand);
      }
      if Order.None? {
        Order := Some(BigEndian);
      }
    }

    /** Dealer.Split: the secret bytes become words, split shares them, and
        each word share becomes len(secret) + 2 bytes. The stream advances
        past the words split read. */
    method Split(threshold: int, n: int, secret: seq<Byte>) returns (result: Result<seq<seq<Byte>>>)
      modifies this
      ensures F == Some(Fill(old(F), DefaultField)) && Order == Some(Fill(old(Order), BigEndian))
      ensures var out := SplitBytes(F.value, Fill(old(Rand), DefaultRand), Order.value, threshold, n, secret);
        result == out.0 && Rand == Some(out.1)
    {
      Init();
      if |secret| % 2 != 0 {
        return Err(OddSecret);
      }
      var secretWords := BytesToWords(Order.value, secret, |secret| / 2);
      var shares, rest := Shamir.Split(F.value, Rand.value, threshold, n, secretWords);
      Rand := Some(rest);
      if shares.Err? {
        return Err(shares.error);
      }
      var byteShares := EncodeAll(Order.value, shares.value);
      return Ok(byteShares);
    }

    /** Dealer.Combine: each share is read as as many words as the first one
        holds, combine recovers the secret words, and they are encoded again. */
    method Combine(shares: seq<seq<Byte>>) returns (result: Result<seq<Byte>>)
      requires Valid()
      modifies this
      ensures F == Some(Fill(old(F), DefaultField)) && Order == Some(Fill(old(Order), BigEndian))
      ensures Rand == Some(Fill(old(Rand), DefaultRand))
      ensures CombinedBytes(F.value, Order.value, shares, result)
    {
      Init();
      if |shares| == 0 {
        return Err(NilShares);
      }
      var wordShares := DecodeAll(Order.value, shares);
      if wordShares.Err? {
        return Err(wordShares.error);
      }
      var secretWords := Shamir.Combine(F.value, wordShares.value);
      if secretWords.Err? {
        return Err(secretWords.error);
      }
      return Ok(WordsToBytes(Order.value, secretWords.value));
    }
  }

  /** The encoding loop of Dealer.Split. */
  method EncodeAll(order: ByteOrder, shares: seq<seq<Word>>) returns (byteShares: seq<seq<Byte>>)
    ensures byteShares == EncodeShares(order, shares)
  {
    byteShares := [];
    for i := 0 to |shares|
      invariant byteShares == EncodeShares(order, shares[..i])
    {
      byteShares := byteShares + [WordsToBytes(order, shares[i])];
    }
    assert shares[..|shares|] == shares;
  }

  /** The decoding loop of Dealer.Combine: fails on the first share shorter
      than the first share's whole words. */
  method DecodeAll(order: ByteOrder, shares: seq<seq<Byte>>) returns (result: Result<seq<seq<Word>>>)
    requires |shares| >= 1
    ensures Decodable(shares) ==> result == Ok(DecodeShares(order, shares))
    ensures !Decodable(shares) ==> result == Err(BufferTooSmall)
  {
    var count := |shares[0]| / 2;
    var wordShares: seq<seq<Word>> := [];
    for i := 0 to |shares|
      invariant |wordShares| == i
      invariant forall l :: 0 <= l < i ==> 2 * count <= |shares[l]|
      invariant forall l :: 0 <= l < i ==> wordShares[l] == BytesToWords(order, shares[l], count)
    {
      if |shares[i]| < 2 * count {
        return Err(BufferTooSmall);
      }
      wordShares := wordShares + [BytesToWords(order, shares[i], count)];
    }
    assert wordShares == DecodeShares(order, shares);
    return Ok(wordShares);
  }

  /** The shares Dealer.Combine decodes always agree in length, so combine's
      length check can never fire behind Dealer.Combine. */
  lemma CombineBytesConsistent(F: Field, order: ByteOrder, shares: seq<seq<Byte>>, result: Result<seq<Byte>>)
    requires CombinedBytes(F, order, shares, result)
    ensures result != Err(InconsistentShareLength)
  {
    if |shares| > 0 && Decodable(shares) {
      var r :| Combined(F, DecodeShares(order, shares), r) && result == EncodeResult(order, r);
      assert Consistent(DecodeShares(order, shares));
    }
  }

  /** Decoding picked byte shares gives the picked word shares. */
  lemma DecodePicked(order: ByteOrder, S: seq<seq<Word>>, L: nat, idx: seq<nat>)
    requires |idx| >= 1 && forall a :: 0 <= a < |idx| ==> idx[a] < |S|
    requires forall j :: 0 <= j < |S| ==> |S[j]| == L
    ensures var B := Pick(EncodeShares(order, S), idx);
      Decodable(B) && DecodeShares(order, B) == Pick(S, idx)
  {
    var B := Pick(EncodeShares(order, S), idx);
    forall a | 0 <= a < |idx| ensures BytesToWords(order, B[a], |B[0]| / 2) == S[idx[a]] {
      DecodeEncode(order, S[idx[a]]);
    }
  }

  /** Two words with the same bytes are the same word; zero is two zero bytes. */
  lemma WordBytesInjective(order: ByteOrder, u: Word, w: Word)
    ensures WordBytes(order, u) == WordBytes(order, w) ==> u == w
    ensures WordBytes(order, 0) == [0, 0]
  {
    WordRoundTrip(order, u);
    WordRoundTrip(order, w);
  }

  /** The encoding of words opens with the two bytes of the first word. */
  lemma EncodingOpens(order: ByteOrder, ws: seq<Word>)
    requires |ws| >= 1
    ensures WordsToBytes(order, ws)[..2] == WordBytes(order, ws[0])
  {
  }

  /** Every byte share that Dealer.Split hands out opens with the two bytes of
      its x-coordinate: never both zero, and different for any two shares. */
  lemma SplitBytesXCoordinates(F: Field, rand: seq<Word>, order: ByteOrder, threshold: int, n: int,
                               secret: seq<Byte>)
    requires SplitBytes(F, rand, order, threshold, n, secret).0.Ok?
    ensures var B := SplitBytes(F, rand, order, threshold, n, secret).0.value;
      && (forall j :: 0 <= j < |B| ==> |B[j]| >= 2 && B[j][..2] != [0, 0])
      && (forall j, k :: 0 <= j < k < |B| ==> B[j][..2] != B[k][..2])
  {
    var B := SplitBytes(F, rand, order, threshold, n, secret).0.value;
    var words := BytesToWords(order, secret, |secret| / 2);
    var S := SplitSpec(F, rand, threshold, n, words).0.value;
    assert B == EncodeShares(order, S);
    SplitXCoordinates(F, rand, threshold, n, words);
    var xs := Column(S, 0);
    forall j | 0 <= j < |B| ensures B[j][..2] == WordBytes(order, xs[j]) {
      EncodingOpens(order, S[j]);
    }
    forall j, k | 0 <= j < k < |B|
      ensures B[j][..2] != [0, 0] && B[j][..2] != B[k][..2] && B[k][..2] != [0, 0]
    {
      WordBytesInjective(order, xs[j], 0);
      WordBytesInjective(order, xs[k], 0);
      WordBytesInjective(order, xs[j], xs[k]);
    }
    if |B| == 1 {
      WordBytesInjective(order, xs[0], 0);
    }
  }

  /** The byte-level round trip: Dealer.Combine, given threshold or more of
      the shares Dealer.Split made, without repeats, returns the secret. */
  lemma DealerRoundTrip(F: Field, rand: seq<Word>, order: ByteOrder, threshold: int, n: int,
                        secret: seq<Byte>, idx: seq<nat>, result: Result<seq<Byte>>)
    requires IsField(F)
    requires SplitBytes(F, rand, order, threshold, n, secret).0.Ok?
    requires |idx| >= threshold && NoRepeats(idx) && forall a :: 0 <= a < |idx| ==> idx[a] < n
    requires CombinedBytes(F, order, Pick(SplitBytes(F, rand, order, threshold, n, secret).0.value, idx), result)
    ensures result == Ok(secret)
  {
    var words := BytesToWords(order, secret, |secret| / 2);
    var S := SplitSpec(F, rand, threshold, n, words).0.value;
    DecodePicked(order, S, |words| + 1, idx);
    var r :| Combined(F, Pick(S, idx), r) && result == EncodeResult(order, r);
    SplitThenCombine(F, rand, threshold, n, words, idx, r);
    EncodeDecode(order, secret);
  }

  /** Dealer.Split refuses a secret of an odd number of bytes and a
      threshold of 0. */
  lemma DealerRefuses(F: Field, rand: seq<Word>, order: ByteOrder)
    ensures SplitBytes(F, rand, order, 3, 5, [0xde, 0xca, 0xfb]) == (Err(OddSecret), rand)
    ensures SplitBytes(F, rand, order, 0, 10, [0xde, 0xca, 0xfb, 0xad]) == (Err(ThresholdNotPositive), rand)
  {
  }
}

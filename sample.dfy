/** distinctXes of shamir.go: rejection sampling of pairwise-distinct,
    non-zero x-coordinates from the stream of random words. */
module Sampling {
  import opened Errors
  import opened GF
  import opened Vandermonde
  import opened Collections

  /** The array after sampling, the words left unread, and whether every
      slot was filled. */
  datatype Draw = Draw(v: seq<Word>, rest: seq<Word>, ok: bool)

  /** Usable x-coordinates: non-zero and pairwise distinct. */
  ghost predicate XCoordinates(xs: seq<Word>) {
    && (forall j :: 0 <= j < |xs| ==> xs[j] != 0)
    && Distinct(xs)
  }

  /** The non-zero words of the random stream. */
  ghost function NonZeros(rand: seq<Word>): set<Word> {
    set w | w in rand && w != 0
  }

  /** distinctXes (shamir.go:233-252) once the first i slots of v hold
      accepted words: every word read is written to slot i, and i advances
      only when the word is non-zero and not among v[..i]. */
  function Sample(rand: seq<Word>, v: seq<Word>, i: nat): (d: Draw)
    requires i <= |v|
    ensures |d.v| == |v| && d.v[..i] == v[..i]
    ensures |d.rest| <= |rand| && (!d.ok ==> d.rest == [])
    decreases |rand|
  {
    if i == |v| then Draw(v, rand, true)
    else if |rand| == 0 then Draw(v, [], false)
    else
      var w := rand[0];
      var v' := v[i := w];
      assert v'[..i] == v[..i];
      if w == 0 || w in v[..i] then Sample(rand[1..], v', i)
      else Sample(rand[1..], v', i + 1)
  }

  /** distinctXes: fills v with pairwise-distinct non-zero words read from
      rand, or fails with RandomExhausted when rand runs out first. */
  method DistinctXes(rand: seq<Word>, v: array<Word>) returns (rest: seq<Word>, result: Outcome)
    modifies v
    ensures var d := Sample(rand, old(v[..]), 0);
      && v[..] == d.v && rest == d.rest
      && (result == Pass <==> d.ok)
      && (result != Pass ==> result == Fail(RandomExhausted))
  {
    ghost var v0 := v[..];
    var xes: set<Word> := {};
    var i := 0;
    rest := rand;
    while i < v.Length
      invariant 0 <= i <= v.Length
      invariant forall w :: w in xes <==> w in v[..i]
      invariant Sample(rand, v0, 0) == Sample(rest, v[..], i)
      decreases |rest|
    {
      if |rest| == 0 {
        return [], Fail(RandomExhausted);
      }
      ghost var before := v[..];
      v[i] := rest[0];
      assert v[..] == before[i := rest[0]];
      assert v[..i] == before[..i];
      rest := rest[1..];
      if v[i] == 0 {
        continue;
      }
      if v[i] in xes {
        continue;
      }
      xes := xes + {v[i]};
      assert v[..i + 1] == v[..i] + [v[i]];
      i := i + 1;
    }
    result := Pass;
  }

  /** What distinctXes promises: on success every slot holds a usable
      x-coordinate, the slots it filled hold words of the stream, and the
      unread words are a suffix of the stream. */
  ghost predicate Sound(rand: seq<Word>, v: seq<Word>, i: nat, d: Draw)
    requires i <= |v| == |d.v| && |d.rest| <= |rand|
  {
    d.ok ==> && XCoordinates(d.v)
             && (forall j :: i <= j < |v| ==> d.v[j] in rand)
             && d.rest == rand[|rand| - |d.rest|..]
  }

  lemma {:induction false} SampleSound(rand: seq<Word>, v: seq<Word>, i: nat)
    requires i <= |v| && XCoordinates(v[..i])
    ensures Sound(rand, v, i, Sample(rand, v, i))
    decreases |rand|, 1
  {
    if i == |v| {
      assert v[..i] == v;
    } else if |rand| > 0 {
      if rand[0] == 0 || rand[0] in v[..i] {
        SoundSkip(rand, v, i);
      } else {
        SoundAccept(rand, v, i);
      }
    }
  }

  lemma {:induction false} SoundSkip(rand: seq<Word>, v: seq<Word>, i: nat)
    requires i < |v| && |rand| > 0 && (rand[0] == 0 || rand[0] in v[..i])
    requires XCoordinates(v[..i])
    ensures Sound(rand, v, i, Sample(rand, v, i))
    decreases |rand|, 0
  {
    var v', t := v[i := rand[0]], rand[1..];
    var d := Sample(rand, v, i);
    assert d == Sample(t, v', i);
    assert v'[..i] == v[..i];
    SampleSound(t, v', i);
    if d.ok {
      assert t[|t| - |d.rest|..] == rand[|rand| - |d.rest|..];
      assert forall j :: i <= j < |v| ==> d.v[j] in t ==> d.v[j] in rand;
    }
  }

  lemma {:induction false} SoundAccept(rand: seq<Word>, v: seq<Word>, i: nat)
    requires i < |v| && |rand| > 0 && rand[0] != 0 && rand[0] !in v[..i]
    requires XCoordinates(v[..i])
    ensures Sound(rand, v, i, Sample(rand, v, i))
    decreases |rand|, 0
  {
    var v', t := v[i := rand[0]], rand[1..];
    var d := Sample(rand, v, i);
    assert d == Sample(t, v', i + 1);
    assert v'[..i + 1] == v[..i] + [rand[0]];
    XCoordinatesSnoc(v[..i], rand[0]);
    SampleSound(t, v', i + 1);
    if d.ok {
      assert t[|t| - |d.rest|..] == rand[|rand| - |d.rest|..];
      assert d.v[..i + 1][i] == rand[0];
      assert forall j :: i < j < |v| ==> d.v[j] in t ==> d.v[j] in rand;
    }
  }

  /** |s| distinct words make a set of |s| elements. */
  lemma {:induction false} DistinctCard(s: seq<Word>)
    requires Distinct(s)
    ensures |Elements(s)| == |s|
  {
    if |s| > 0 {
      var init := s[..|s| - 1];
      DistinctCard(init);
      assert Elements(s) == Elements(init) + {s[|s| - 1]};
      assert s[|s| - 1] !in Elements(init);
    }
  }

  /** Reading one word w adds it to the pool of candidates exactly when it
      is non-zero and new. */
  lemma PoolStep(A: set<Word>, w: Word, t: seq<Word>)
    ensures A + NonZeros([w] + t) == (if w == 0 || w in A then A else A + {w}) + NonZeros(t)
  {
    assert forall u :: u in [w] + t <==> u == w || u in t;
  }


  lemma XCoordinatesSnoc(s: seq<Word>, w: Word)
    requires XCoordinates(s) && w != 0 && w !in s
    ensures XCoordinates(s + [w])
  {
  }

  lemma CardUnion(A: set<Word>, B: set<Word>)
    ensures |A + B| >= |A|
  {
    assert A + B == A + (B - A);
  }

  /** The accepted words and the non-zero words still to be read supply at
      least |v| distinct candidates. */
  ghost predicate Enough(rand: seq<Word>, v: seq<Word>, i: nat)
    requires i <= |v|
  {
    |Elements(v[..i]) + NonZeros(rand)| >= |v|
  }

  /** A rejected word leaves the candidates as they were. */
  lemma EnoughSkip(rand: seq<Word>, v: seq<Word>, i: nat)
    requires i < |v| && |rand| > 0 && (rand[0] == 0 || rand[0] in v[..i])
    ensures Enough(rand, v, i) == Enough(rand[1..], v[i := rand[0]], i)
  {
    var w, t := rand[0], rand[1..];
    var A := Elements(v[..i]);
    assert rand == [w] + t;
    PoolStep(A, w, t);
    assert v[i := w][..i] == v[..i];
  }

  /** An accepted word moves from the stream to the filled slots. */
  lemma EnoughAccept(rand: seq<Word>, v: seq<Word>, i: nat)
    requires i < |v| && |rand| > 0 && rand[0] != 0 && rand[0] !in v[..i]
    ensures Enough(rand, v, i) == Enough(rand[1..], v[i := rand[0]], i + 1)
  {
    var w, t := rand[0], rand[1..];
    var A := Elements(v[..i]);
    assert rand == [w] + t;
    PoolStep(A, w, t);
    assert v[i := w][..i + 1] == v[..i] + [w];
    ElementsSnoc(v[..i], w);
  }

  /** With every slot filled the candidates are enough. */
  lemma EnoughFull(rand: seq<Word>, v: seq<Word>)
    requires XCoordinates(v)
    ensures Enough(rand, v, |v|)
  {
    assert v[..|v|] == v;
    DistinctCard(v);
    CardUnion(Elements(v), NonZeros(rand));
  }

  /** With an empty slot and nothing left to read they are not. */
  lemma EnoughEmpty(v: seq<Word>, i: nat)
    requires i < |v| && XCoordinates(v[..i])
    ensures !Enough([], v, i)
  {
    DistinctCard(v[..i]);
    assert Elements(v[..i]) + NonZeros([]) == Elements(v[..i]);
  }

  /** distinctXes fails exactly when the stream, together with the words
      already accepted, offers fewer than |v| distinct non-zero words. */
  lemma {:induction false} SampleFailsIff(rand: seq<Word>, v: seq<Word>, i: nat)
    requires i <= |v| && XCoordinates(v[..i])
    ensures !Sample(rand, v, i).ok <==> !Enough(rand, v, i)
    decreases |rand|, 1
  {
    if i == |v| {
      assert v[..i] == v;
      EnoughFull(rand, v);
    } else if |rand| == 0 {
      EnoughEmpty(v, i);
    } else if rand[0] == 0 || rand[0] in v[..i] {
      FailsIffSkip(rand, v, i);
    } else {
      FailsIffAccept(rand, v, i);
    }
  }

  lemma {:induction false} FailsIffSkip(rand: seq<Word>, v: seq<Word>, i: nat)
    requires i < |v| && |rand| > 0 && (rand[0] == 0 || rand[0] in v[..i])
    requires XCoordinates(v[..i])
    ensures !Sample(rand, v, i).ok <==> !Enough(rand, v, i)
    decreases |rand|, 0
  {
    var v' := v[i := rand[0]];
    assert Sample(rand, v, i) == Sample(rand[1..], v', i);
    EnoughSkip(rand, v, i);
    assert v'[..i] == v[..i];
    SampleFailsIff(rand[1..], v', i);
  }

  lemma {:induction false} FailsIffAccept(rand: seq<Word>, v: seq<Word>, i: nat)
    requires i < |v| && |rand| > 0 && rand[0] != 0 && rand[0] !in v[..i]
    requires XCoordinates(v[..i])
    ensures !Sample(rand, v, i).ok <==> !Enough(rand, v, i)
    decreases |rand|, 0
  {
    var v' := v[i := rand[0]];
    assert Sample(rand, v, i) == Sample(rand[1..], v', i + 1);
    EnoughAccept(rand, v, i);
    assert v'[..i + 1] == v[..i] + [rand[0]];
    XCoordinatesSnoc(v[..i], rand[0]);
    SampleFailsIff(rand[1..], v', i + 1);
  }

  /** Each slot needs at least one word: a stream shorter than the number of
      empty slots always runs out. */
  lemma {:induction false} ShortStreamFails(rand: seq<Word>, v: seq<Word>, i: nat)
    requires i <= |v| && |rand| < |v| - i
    ensures !Sample(rand, v, i).ok
    decreases |rand|
  {
    if |rand| > 0 {
      var w := rand[0];
      if w == 0 || w in v[..i] {
        ShortStreamFails(rand[1..], v[i := w], i);
      } else {
        ShortStreamFails(rand[1..], v[i := w], i + 1);
      }
    }
  }

  /** Nine random words cannot supply ten x-coordinates. */
  lemma NineWordsForTen(rand: seq<Word>, v: seq<Word>)
    requires |rand| == 9 && |v| == 10
    ensures !Sample(rand, v, 0).ok
  {
    ShortStreamFails(rand, v, 0);
  }
}

/** GF(2^16) as the core consumes it: a capability with Add, Mul and Inv.
    Add is XOR on 16-bit words; Mul and Inv come from outside and are only
    known through the field laws collected in IsField. */
module GF {

  type Word = bv16

  /** The field object the dealer is configured with: its multiplication and
      its multiplicative inverse (unspecified at 0). */
  datatype Field = Field(mul: (Word, Word) -> Word, inv: Word -> Word)

  /** Addition in characteristic 2. */
  function Add(a: Word, b: Word): Word {
    a ^ b
  }

  /** Every word is its own additive inverse. */
  lemma AddCancel(a: Word, b: Word)
    ensures Add(a, b) == 0 <==> a == b
  {
  }

  lemma AddAssoc(a: Word, b: Word, c: Word)
    ensures Add(Add(a, b), c) == Add(a, Add(b, c))
  {
  }

  /** Markers that keep the binary and ternary field laws from being
      instantiated on every product in sight: a law is used for a, b (, c)
      only where a proof mentions the marker, through the lemmas below. */
  ghost predicate Pair(a: Word, b: Word) { true }
  ghost predicate Triple(a: Word, b: Word, c: Word) { true }

  /** The laws of GF(2^16) that the elimination and the interpolation rely on. */
  ghost predicate IsField(F: Field) {
    && (forall a: Word :: F.mul(1, a) == a)
    && (forall a: Word, b: Word {:trigger Pair(a, b)} :: F.mul(a, b) == F.mul(b, a))
    && (forall a: Word, b: Word, c: Word {:trigger Triple(a, b, c)} ::
          F.mul(F.mul(a, b), c) == F.mul(a, F.mul(b, c)))
    && (forall a: Word, b: Word, c: Word {:trigger Triple(a, b, c)} ::
          F.mul(a, Add(b, c)) == Add(F.mul(a, b), F.mul(a, c)))
    && (forall a: Word :: a != 0 ==> F.mul(a, F.inv(a)) == 1)
  }

  lemma MulComm(F: Field, a: Word, b: Word)
    requires IsField(F)
    ensures F.mul(a, b) == F.mul(b, a)
  {
    assert Pair(a, b);
  }

  lemma MulAssoc(F: Field, a: Word, b: Word, c: Word)
    requires IsField(F)
    ensures F.mul(F.mul(a, b), c) == F.mul(a, F.mul(b, c))
  {
    assert Triple(a, b, c);
  }

  lemma Distrib(F: Field, a: Word, b: Word, c: Word)
    requires IsField(F)
    ensures F.mul(a, Add(b, c)) == Add(F.mul(a, b), F.mul(a, c))
  {
    assert Triple(a, b, c);
  }

  /** Distributivity from the right. */
  lemma DistribRight(F: Field, a: Word, b: Word, c: Word)
    requires IsField(F)
    ensures F.mul(Add(a, b), c) == Add(F.mul(a, c), F.mul(b, c))
  {
    MulComm(F, Add(a, b), c);
    Distrib(F, c, a, b);
    MulComm(F, a, c);
    MulComm(F, b, c);
  }

  /** Multiplying by zero gives zero; it follows from distributivity. */
  lemma MulZero(F: Field, a: Word)
    requires IsField(F)
    ensures F.mul(a, 0) == 0 && F.mul(0, a) == 0
  {
    Distrib(F, a, 0, 0);
    MulComm(F, a, 0);
  }

  /** One is a unit on both sides. */
  lemma MulOne(F: Field, a: Word)
    requires IsField(F)
    ensures F.mul(1, a) == a && F.mul(a, 1) == a
  {
    MulComm(F, a, 1);
  }

  /** Inv, guarded: the core only ever inverts non-zero entries. */
  function Inverse(F: Field, a: Word): (r: Word)
    requires IsField(F)
    requires a != 0
    ensures F.mul(a, r) == 1 && r != 0
  {
    MulZero(F, a);
    F.inv(a)
  }

  /** A field has no zero divisors. */
  lemma NoZeroDivisors(F: Field, a: Word, b: Word)
    requires IsField(F)
    requires a != 0 && F.mul(a, b) == 0
    ensures b == 0
  {
    var i := F.inv(a);
    MulZero(F, i);
    MulComm(F, a, i);
    MulAssoc(F, i, a, b);
    calc {
      b;
      F.mul(1, b);
      F.mul(F.mul(a, i), b);
      F.mul(F.mul(i, a), b);
      F.mul(i, F.mul(a, b));
      F.mul(i, 0);
      0;
    }
  }
}

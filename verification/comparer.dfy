/**
 The equality comparer the crossing pipeline hands to `Distinct`: two hits
 are equal when their references name the same `(LinkedElementId, ElementId)`
 pair, whatever their distances; its hash mixes the two ids' hashes with
 unchecked 32-bit arithmetic.
 */
module ElementComparer {
  import opened References

  /** `Equals(x, y)`. The leading identity shortcut (`ReferenceEquals`) is
      modelled as equality of values: an object is always value-equal to
      itself, so the shortcut only ever answers what the key test would. */
  function Equals(x: Nullable<Hit>, y: Nullable<Hit>): (r: bool)
    ensures r <==> (x.Null? && y.Null?)
                   || (x.NonNull? && y.NonNull? && KeyOf(x.value) == KeyOf(y.value))
  {
    if x == y then true
    else if x.Null? then false
    else if y.Null? then false
    else
      var xReference := x.value.reference;
      var yReference := y.value.reference;
      xReference.linkedElementId == yReference.linkedElementId
      && xReference.elementId == yReference.elementId
  }

  /** `GetHashCode(obj)`: `(linkedHash * 397) ^ elemHash`, wrapping on overflow.
      `idHash` stands for the host's `ElementId.GetHashCode`, which is not part
      of this model; `bv32` arithmetic is the unchecked `int` arithmetic.
      Every hit the comparer calls equal to `obj` mixes to the same code. */
  function GetHashCode(obj: Hit, idHash: ElementId -> bv32): (r: bv32)
    ensures forall y: Hit :: Equals(NonNull(obj), NonNull(y)) ==>
              r == MixHash(idHash(y.reference.linkedElementId), idHash(y.reference.elementId))
  {
    var reference := obj.reference;
    MixHash(idHash(reference.linkedElementId), idHash(reference.elementId))
  }

  /** The combining step of `GetHashCode`, on the two ids' hash codes; the
      element's hash can be taken back out of the result. */
  function MixHash(linkedHash: bv32, elemHash: bv32): (r: bv32)
    ensures r ^ elemHash == linkedHash * 397
  {
    (linkedHash * 397) ^ elemHash
  }

  /** The comparer is an equivalence relation on possibly-null hits. */
  lemma EqualsIsEquivalence()
    ensures forall x: Nullable<Hit> :: Equals(x, x)
    ensures forall x: Nullable<Hit>, y: Nullable<Hit> :: Equals(x, y) == Equals(y, x)
    ensures forall x: Nullable<Hit>, y: Nullable<Hit>, z: Nullable<Hit> ::
              Equals(x, y) && Equals(y, z) ==> Equals(x, z)
  {
  }

  /** A null hit never equals a non-null one, in either argument position. */
  lemma EqualsOneNull(x: Hit)
    ensures !Equals(NonNull(x), Null)
    ensures !Equals(Null, NonNull(x))
  {
  }

  /** Two hits at different distances on the same wall are equal. */
  lemma EqualsIgnoresProximity(r: Reference, p: real, q: real)
    ensures Equals(NonNull(Hit(r, p)), NonNull(Hit(r, q)))
  {
  }

  /** Hits the comparer calls equal have equal hash codes, for every choice of
      the ids' own hash. */
  lemma HashConsistent(x: Hit, y: Hit, idHash: ElementId -> bv32)
    requires Equals(NonNull(x), NonNull(y))
    ensures GetHashCode(x, idHash) == GetHashCode(y, idHash)
  {
  }

  /** The hash wraps around: with a linked id hashing to 2^24 the product
      397 * 2^24 exceeds 32 bits and keeps only its low 32 bits. */
  lemma HashWrapsAround(r: Reference, p: real, idHash: ElementId -> bv32)
    requires idHash(r.linkedElementId) == 0x0100_0000
    requires idHash(r.elementId) == 0
    ensures GetHashCode(Hit(r, p), idHash) == 0x8D00_0000
  {
  }
}

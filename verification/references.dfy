/**
 The identities a ray hit carries. A hit (the host's `ReferenceWithContext`)
 pairs a reference to the element that was struck with its distance from the
 ray origin. A reference names an element by its id in the document that
 owns the reference and, when the element lives in a linked document, by its
 id inside that linked document as well.
 */
module References {

  /** An element id of the host model, compared by value */
  datatype ElementId = ElementId(value: int)

  /** A reference to a struck element: `ElementId` is the element in the host
      document, `LinkedElementId` the element inside a linked document (the
      invalid id when the element is not linked). */
  datatype Reference = Reference(elementId: ElementId, linkedElementId: ElementId)

  /** One raw ray hit: the struck reference and the distance from the ray
      origin (`Proximity`). */
  datatype Hit = Hit(reference: Reference, proximity: real)

  /** The compound identity of a logical wall: `(LinkedElementId, ElementId)` */
  datatype WallKey = WallKey(linked: ElementId, element: ElementId)

  /** Possibly-null object, for the comparer's null handling */
  datatype Nullable<T> = Null | NonNull(value: T)

  function KeyOf(h: Hit): WallKey {
    WallKey(h.reference.linkedElementId, h.reference.elementId)
  }

  /** The walls a sequence of hits touches */
  function KeysOf(s: seq<Hit>): set<WallKey> {
    set h | h in s :: KeyOf(h)
  }

  /** No two hits of `s` name the same wall */
  predicate NoDuplicateKeys(s: seq<Hit>) {
    forall i, j :: 0 <= i < j < |s| ==> KeyOf(s[i]) != KeyOf(s[j])
  }

  /** How many hits of `s` name wall `k` */
  function CountOfKey(s: seq<Hit>, k: WallKey): nat {
    if |s| == 0 then 0
    else (if KeyOf(s[0]) == k then 1 else 0) + CountOfKey(s[1..], k)
  }

  lemma KeysOfCons(x: Hit, s: seq<Hit>)
    ensures KeysOf([x] + s) == {KeyOf(x)} + KeysOf(s)
  {
  }

  lemma KeysOfSnoc(s: seq<Hit>, x: Hit)
    ensures KeysOf(s + [x]) == KeysOf(s) + {KeyOf(x)}
  {
  }

  lemma KeysOfSplit(s: seq<Hit>)
    requires |s| > 0
    ensures KeysOf(s) == {KeyOf(s[0])} + KeysOf(s[1..])
  {
  }

  /** A duplicate-free sequence names as many walls as it has hits. */
  lemma {:induction false} NoDuplicateKeysCardinality(s: seq<Hit>)
    requires NoDuplicateKeys(s)
    ensures |KeysOf(s)| == |s|
  {
    if |s| > 0 {
      KeysOfSplit(s);
      assert NoDuplicateKeys(s[1..]) by {
        forall i, j | 0 <= i < j < |s[1..]|
          ensures KeyOf(s[1..][i]) != KeyOf(s[1..][j])
        {
          assert s[1..][i] == s[i + 1] && s[1..][j] == s[j + 1];
        }
      }
      NoDuplicateKeysCardinality(s[1..]);
      assert KeyOf(s[0]) !in KeysOf(s[1..]);
    }
  }

  /** In a duplicate-free sequence each wall it names occurs exactly once,
      and every other wall not at all. */
  lemma {:induction false} NoDuplicateKeysCount(s: seq<Hit>, k: WallKey)
    requires NoDuplicateKeys(s)
    ensures CountOfKey(s, k) == if k in KeysOf(s) then 1 else 0
  {
    if |s| > 0 {
      KeysOfSplit(s);
      assert NoDuplicateKeys(s[1..]) by {
        forall i, j | 0 <= i < j < |s[1..]|
          ensures KeyOf(s[1..][i]) != KeyOf(s[1..][j])
        {
          assert s[1..][i] == s[i + 1] && s[1..][j] == s[j + 1];
        }
      }
      NoDuplicateKeysCount(s[1..], k);
      assert KeyOf(s[0]) !in KeysOf(s[1..]);
    }
  }
}

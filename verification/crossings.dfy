/**
 The per-duct crossing pipeline: the raw hits of the ray cast are filtered
 to those within the duct's length (`Where`), then reduced to one hit per
 wall (`Distinct` with the element comparer), then materialized (`ToList`).
 */
module Crossings {
  import opened References
  import opened ElementComparer

  /** `r` is `s` with some elements dropped and the rest in their order */
  predicate IsSubsequence(r: seq<Hit>, s: seq<Hit>)
    decreases |s|
  {
    if |r| == 0 then true
    else if |s| == 0 then false
    else (r[0] == s[0] && IsSubsequence(r[1..], s[1..])) || IsSubsequence(r, s[1..])
  }

  /** `Where(x => x.Proximity <= length)`: the hits the duct reaches */
  function InRange(hits: seq<Hit>, length: real): (r: seq<Hit>)
    ensures |r| <= |hits|
    ensures forall i :: 0 <= i < |r| ==> r[i].proximity <= length
  {
    if |hits| == 0 then []
    else if hits[0].proximity <= length then [hits[0]] + InRange(hits[1..], length)
    else InRange(hits[1..], length)
  }

  /** The `Distinct` iterator resumed with the walls in `seen` already yielded:
      a hit is passed on when its wall is new and then remembered. */
  function DistinctFrom(s: seq<Hit>, seen: set<WallKey>): (r: seq<Hit>)
    ensures |r| <= |s|
    ensures forall i :: 0 <= i < |r| ==> KeyOf(r[i]) !in seen
  {
    if |s| == 0 then []
    else if KeyOf(s[0]) in seen then DistinctFrom(s[1..], seen)
    else [s[0]] + DistinctFrom(s[1..], seen + {KeyOf(s[0])})
  }

  /** `Distinct` with the element comparer: one hit per wall, the first one */
  function Distinct(s: seq<Hit>): (r: seq<Hit>)
    ensures NoDuplicateKeys(r)
    ensures KeysOf(r) == KeysOf(s)
    ensures IsSubsequence(r, s)
  {
    DistinctFromOncePerWall(s, {});
    DistinctFromIsSubsequence(s, {});
    DistinctFrom(s, {})
  }

  /** The crossings of one duct: `Find(...).Where(...).Distinct(...).ToList()` */
  function FindCrossings(hits: seq<Hit>, length: real): (r: seq<Hit>)
    ensures forall i :: 0 <= i < |r| ==> r[i].proximity <= length
    ensures NoDuplicateKeys(r)
    ensures KeysOf(r) == KeysOf(InRange(hits, length))
  {
    var inRange := InRange(hits, length);
    var r := Distinct(inRange);
    forall i | 0 <= i < |r| ensures r[i].proximity <= length {
      SubsequenceMembers(r, inRange, r[i]);
    }
    r
  }

  /** An independent description of the same result, looking backwards:
      keep a hit exactly when no earlier hit names its wall. */
  function KeepFirsts(s: seq<Hit>): seq<Hit> {
    if |s| == 0 then []
    else
      var p := s[..|s| - 1];
      var x := s[|s| - 1];
      KeepFirsts(p) + (if KeyOf(x) in KeysOf(p) then [] else [x])
  }

  /** `Add` on the `Distinct` iterator's hash set: the stored slots are probed
      for one whose hash code agrees and which the comparer calls equal; when
      there is none the hit is stored and `Add` reports that it was new. */
  method SetAdd(slots: seq<Hit>, x: Hit, idHash: ElementId -> bv32)
    returns (added: bool, slots': seq<Hit>)
    ensures added <==> KeyOf(x) !in KeysOf(slots)
    ensures slots' == if added then slots + [x] else slots
  {
    var k := 0;
    while k < |slots|
      invariant 0 <= k <= |slots|
      invariant forall m :: 0 <= m < k ==> KeyOf(slots[m]) != KeyOf(x)
    {
      if GetHashCode(slots[k], idHash) == GetHashCode(x, idHash)
         && Equals(NonNull(slots[k]), NonNull(x)) {
        return false, slots;
      }
      k := k + 1;
    }
    return true, slots + [x];
  }

  /** The pipeline as the lazy enumerators run it: each raw hit is compared
      with the length, then offered to the set of hits already yielded. */
  method CollectCrossings(hits: seq<Hit>, length: real, idHash: ElementId -> bv32)
    returns (r: seq<Hit>)
    ensures r == FindCrossings(hits, length)
  {
    ghost var crossings := FindCrossings(hits, length);
    r := [];
    var i := 0;
    assert hits[i..] == hits;
    assert KeysOf(r) == {};
    while i < |hits|
      invariant 0 <= i <= |hits|
      invariant r + DistinctFrom(InRange(hits[i..], length), KeysOf(r)) == crossings
    {
      var hit := hits[i];
      assert hits[i..] == [hit] + hits[i + 1..];
      CollectStep(r, hit, hits[i + 1..], length);
      if hit.proximity <= length {
        var added;
        added, r := SetAdd(r, hit, idHash);
      }
      i := i + 1;
    }
  }

  // ---------------------------------------------------------------------
  // Lemmas

  /** The filter keeps exactly the hits within the length, every copy of
      each, in their order. */
  lemma {:induction false} InRangeKeepsReachable(hits: seq<Hit>, length: real)
    ensures forall h :: h in InRange(hits, length) <==> h in hits && h.proximity <= length
    ensures forall h :: multiset(InRange(hits, length))[h]
                        == if h.proximity <= length then multiset(hits)[h] else 0
    ensures IsSubsequence(InRange(hits, length), hits)
  {
    InRangeCounts(hits, length);
    if |hits| > 0 {
      InRangeKeepsReachable(hits[1..], length);
      var r := InRange(hits, length);
      if hits[0].proximity <= length {
        assert r[0] == hits[0] && r[1..] == InRange(hits[1..], length);
      }
    }
  }

  /** The filter keeps every copy of a hit within the length, and nothing else. */
  lemma {:induction false} InRangeCounts(hits: seq<Hit>, length: real)
    ensures forall h :: multiset(InRange(hits, length))[h]
                        == if h.proximity <= length then multiset(hits)[h] else 0
  {
    if |hits| > 0 {
      InRangeCounts(hits[1..], length);
      assert hits == [hits[0]] + hits[1..];
      assert multiset(hits) == multiset{hits[0]} + multiset(hits[1..]);
      if hits[0].proximity <= length {
        var r := InRange(hits, length);
        assert r == [hits[0]] + InRange(hits[1..], length);
        assert multiset(r) == multiset{hits[0]} + multiset(InRange(hits[1..], length));
      }
    }
  }

  /** `Distinct` yields each wall not seen before exactly once. */
  lemma {:induction false} DistinctFromOncePerWall(s: seq<Hit>, seen: set<WallKey>)
    ensures NoDuplicateKeys(DistinctFrom(s, seen))
    ensures KeysOf(DistinctFrom(s, seen)) == KeysOf(s) - seen
  {
    if |s| > 0 {
      KeysOfSplit(s);
      var k := KeyOf(s[0]);
      if k in seen {
        DistinctFromOncePerWall(s[1..], seen);
      } else {
        var rest := DistinctFrom(s[1..], seen + {k});
        DistinctFromOncePerWall(s[1..], seen + {k});
        KeysOfCons(s[0], rest);
        NoDuplicateKeysCons(s[0], rest);
      }
    }
  }

  /** A hit on a wall the rest does not name keeps the rest duplicate-free. */
  lemma NoDuplicateKeysCons(x: Hit, rest: seq<Hit>)
    requires NoDuplicateKeys(rest)
    requires KeyOf(x) !in KeysOf(rest)
    ensures NoDuplicateKeys([x] + rest)
  {
    var r := [x] + rest;
    forall i, j | 0 <= i < j < |r| ensures KeyOf(r[i]) != KeyOf(r[j]) {
      if i == 0 {
        assert r[j] == rest[j - 1];
      } else {
        assert r[i] == rest[i - 1] && r[j] == rest[j - 1];
      }
    }
  }

  /** `Distinct` drops hits and keeps the order of the rest. */
  lemma {:induction false} DistinctFromIsSubsequence(s: seq<Hit>, seen: set<WallKey>)
    ensures IsSubsequence(DistinctFrom(s, seen), s)
  {
    if |s| > 0 {
      var k := KeyOf(s[0]);
      if k in seen {
        DistinctFromIsSubsequence(s[1..], seen);
      } else {
        DistinctFromIsSubsequence(s[1..], seen + {k});
        var r := DistinctFrom(s, seen);
        assert r[0] == s[0] && r[1..] == DistinctFrom(s[1..], seen + {k});
      }
    }
  }

  /** The crossings are raw hits in their original order, and no hit beyond the
      duct's end is among them. */
  lemma FindCrossingsFromRawHits(hits: seq<Hit>, length: real)
    ensures IsSubsequence(FindCrossings(hits, length), hits)
    ensures forall h :: h in hits && h.proximity > length ==> h !in FindCrossings(hits, length)
  {
    var inRange := InRange(hits, length);
    InRangeKeepsReachable(hits, length);
    DistinctFromIsSubsequence(inRange, {});
    SubsequenceTransitive(FindCrossings(hits, length), inRange, hits);
  }

  lemma {:induction false} SubsequenceMembers(r: seq<Hit>, s: seq<Hit>, h: Hit)
    requires IsSubsequence(r, s)
    requires h in r
    ensures h in s
    decreases |s|
  {
    if r[0] == s[0] && IsSubsequence(r[1..], s[1..]) {
      if h != r[0] {
        assert h in r[1..];
        SubsequenceMembers(r[1..], s[1..], h);
      }
    } else {
      SubsequenceMembers(r, s[1..], h);
    }
  }

  lemma {:induction false} SubsequenceTransitive(a: seq<Hit>, b: seq<Hit>, c: seq<Hit>)
    requires IsSubsequence(a, b) && IsSubsequence(b, c)
    ensures IsSubsequence(a, c)
    decreases |c|
  {
    if |a| > 0 {
      if b[0] == c[0] && IsSubsequence(b[1..], c[1..]) {
        if a[0] == b[0] && IsSubsequence(a[1..], b[1..]) {
          SubsequenceTransitive(a[1..], b[1..], c[1..]);
        } else {
          SubsequenceTransitive(a, b[1..], c[1..]);
        }
      } else {
        SubsequenceTransitive(a, b, c[1..]);
      }
    }
  }

  /** One raw hit passing through the lazy `Where` and `Distinct` enumerators */
  lemma PipelineStep(x: Hit, rest: seq<Hit>, length: real, seen: set<WallKey>)
    ensures DistinctFrom(InRange([x] + rest, length), seen)
            == if x.proximity <= length && KeyOf(x) !in seen
               then [x] + DistinctFrom(InRange(rest, length), seen + {KeyOf(x)})
               else DistinctFrom(InRange(rest, length), seen)
  {
  }

  /** One loop step of `CollectCrossings`: the hits yielded so far plus what
      the rest of the pipeline yields stay the same. */
  lemma CollectStep(r: seq<Hit>, x: Hit, rest: seq<Hit>, length: real)
    ensures r + DistinctFrom(InRange([x] + rest, length), KeysOf(r))
            == var r' := if x.proximity <= length && KeyOf(x) !in KeysOf(r) then r + [x] else r;
               r' + DistinctFrom(InRange(rest, length), KeysOf(r'))
  {
    PipelineStep(x, rest, length, KeysOf(r));
    KeysOfSnoc(r, x);
  }

  /** Offering one more hit to the `Distinct` iterator appends it exactly when
      its wall has not been seen or yielded before. */
  lemma {:induction false} DistinctFromSnoc(s: seq<Hit>, x: Hit, seen: set<WallKey>)
    ensures DistinctFrom(s + [x], seen)
            == DistinctFrom(s, seen) + (if KeyOf(x) in seen + KeysOf(s) then [] else [x])
  {
    if |s| == 0 {
      assert s + [x] == [x];
      assert [x][1..] == [];
    } else {
      var t := s + [x];
      assert t[0] == s[0];
      assert t[1..] == s[1..] + [x];
      KeysOfSplit(s);
      var k := KeyOf(s[0]);
      if k in seen {
        DistinctFromSnoc(s[1..], x, seen);
        assert seen + KeysOf(s) == seen + KeysOf(s[1..]);
      } else {
        DistinctFromSnoc(s[1..], x, seen + {k});
        assert seen + KeysOf(s) == seen + {k} + KeysOf(s[1..]);
      }
    }
  }

  /** `Distinct` keeps the first hit of each wall, drops every later one and
      keeps the relative order: it agrees with the backward description. */
  lemma {:induction false} DistinctKeepsFirsts(s: seq<Hit>)
    ensures Distinct(s) == KeepFirsts(s)
    decreases |s|
  {
    if |s| > 0 {
      var p := s[..|s| - 1];
      var x := s[|s| - 1];
      assert s == p + [x];
      DistinctFromSnoc(p, x, {});
      DistinctKeepsFirsts(p);
    }
  }

  /** A sequence that already names each wall once passes `Distinct` unchanged. */
  lemma {:induction false} DistinctFromNoDuplicates(s: seq<Hit>, seen: set<WallKey>)
    requires NoDuplicateKeys(s)
    requires KeysOf(s) !! seen
    ensures DistinctFrom(s, seen) == s
  {
    if |s| > 0 {
      KeysOfSplit(s);
      var k := KeyOf(s[0]);
      assert NoDuplicateKeys(s[1..]) by {
        forall i, j | 0 <= i < j < |s[1..]|
          ensures KeyOf(s[1..][i]) != KeyOf(s[1..][j])
        {
          assert s[1..][i] == s[i + 1] && s[1..][j] == s[j + 1];
        }
      }
      assert k !in KeysOf(s[1..]);
      DistinctFromNoDuplicates(s[1..], seen + {k});
      assert s == [s[0]] + s[1..];
    }
  }

  /** Hits already within the length all pass the filter. */
  lemma {:induction false} InRangeAllWithin(s: seq<Hit>, length: real)
    requires forall i :: 0 <= i < |s| ==> s[i].proximity <= length
    ensures InRange(s, length) == s
  {
    if |s| > 0 {
      InRangeAllWithin(s[1..], length);
      assert s == [s[0]] + s[1..];
    }
  }

  /** Filtering and deduplicating the crossings once more changes nothing. */
  lemma FindCrossingsIdempotent(hits: seq<Hit>, length: real)
    ensures FindCrossings(FindCrossings(hits, length), length) == FindCrossings(hits, length)
  {
    var r := FindCrossings(hits, length);
    InRangeAllWithin(r, length);
    DistinctFromNoDuplicates(r, {});
  }

  /** Every wall struck within the duct's length yields exactly one crossing,
      and no other wall yields any. */
  lemma FindCrossingsOncePerWall(hits: seq<Hit>, length: real, k: WallKey)
    ensures CountOfKey(FindCrossings(hits, length), k)
            == if k in KeysOf(InRange(hits, length)) then 1 else 0
  {
    NoDuplicateKeysCount(FindCrossings(hits, length), k);
  }

  /** There are exactly as many crossings as walls struck within the length,
      hence no more than the walls struck at all or the raw hits. */
  lemma FindCrossingsCount(hits: seq<Hit>, length: real)
    ensures |FindCrossings(hits, length)| == |KeysOf(InRange(hits, length))|
    ensures |FindCrossings(hits, length)| <= |KeysOf(hits)|
    ensures |FindCrossings(hits, length)| <= |hits|
  {
    var inRange := InRange(hits, length);
    NoDuplicateKeysCardinality(FindCrossings(hits, length));
    InRangeKeepsReachable(hits, length);
    assert KeysOf(inRange) <= KeysOf(hits);
    SubsetCardinality(KeysOf(inRange), KeysOf(hits));
    KeysOfCardinality(hits);
  }

  lemma SubsetCardinality(a: set<WallKey>, b: set<WallKey>)
    requires a <= b
    ensures |a| <= |b|
  {
    assert b == a + (b - a);
  }

  lemma {:induction false} KeysOfCardinality(s: seq<Hit>)
    ensures |KeysOf(s)| <= |s|
  {
    if |s| > 0 {
      KeysOfSplit(s);
      KeysOfCardinality(s[1..]);
    }
  }

  /** A duct whose ray strikes nothing has no crossings. */
  lemma FindCrossingsEmpty(length: real)
    ensures FindCrossings([], length) == []
  {
  }

  /** Three hits on one wall at 2, 2.01 and 1.99 (tessellation noise) collapse
      to the first of them. */
  lemma FindCrossingsCollapsesDuplicates(wall: Reference)
    ensures FindCrossings([Hit(wall, 2.0), Hit(wall, 2.01), Hit(wall, 1.99)], 10.0)
            == [Hit(wall, 2.0)]
  {
    var s := [Hit(wall, 2.0), Hit(wall, 2.01), Hit(wall, 1.99)];
    assert s[1..] == [Hit(wall, 2.01), Hit(wall, 1.99)];
    assert s[1..][1..] == [Hit(wall, 1.99)];
    var k := KeyOf(Hit(wall, 2.0));
    InRangeAllWithin(s, 10.0);
    assert DistinctFrom(s[1..][1..], {k}) == [];
    assert DistinctFrom(s[1..], {k}) == [];
    var none: set<WallKey> := {};
    assert none + {k} == {k};
    assert DistinctFrom(s, {}) == [Hit(wall, 2.0)] + DistinctFrom(s[1..], {k});
  }
}

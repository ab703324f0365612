# HolePlugin crossing pipeline, modelled in Dafny

HolePlugin is a Revit command (`AddHole`) that cuts rectangular openings in
walls where ducts of a linked mechanical model pass through them. For every
duct it takes the centreline, casts a ray from the line's start along its
direction, and collects the walls it strikes. Then, per duct:

1. it drops hits farther away than the length of the centreline;
2. it drops later hits on a wall that was already struck (LINQ `Distinct`
   with an equality comparer on the reference's
   `(LinkedElementId, ElementId)` pair);
3. for every remaining crossing it asks the host for an opening at
   `start + direction * proximity` on the struck wall and that wall's level,
   and sets both its width and its height to the duct's diameter.

This project models that pipeline and the comparer, and proves what it
promises.

- `geometry.dfy` (`Geometry`): points and vectors with exact real
  coordinates, and the point a ray reaches after a given distance.
- `references.dfy` (`References`): element ids, references, ray hits
  (`ReferenceWithContext`), the wall key `(LinkedElementId, ElementId)`,
  and facts about duplicate-free hit sequences.
- `comparer.dfy` (`ElementComparer`): `Equals` and `GetHashCode` of
  `ReferenceWithContextElementEqualityComparer`, with 32-bit wrap-around
  (`bv32`).
- `crossings.dfy` (`Crossings`): the `Where` filter, `Distinct` (as the
  iterator runs it, and as an independent backward description), the hash
  set's `Add` probe, and the streaming pipeline as a loop.
- `placement.dfy` (`Placement`): one opening per crossing, one plan per
  duct, and the command's loop over all ducts.

The ray cast (`ReferenceIntersector.Find`) is an input: a sequence of hits per
duct, or a function `cast` from duct to hits for the whole run. Reading a
wall's level is a function parameter `levelOf`. The host's
`ElementId.GetHashCode` is a function parameter `idHash`. Every property about
hashing holds for any choice of `idHash`.

The code has no check for a zero direction vector, a non-positive diameter
or a wall without a level; the model has none either. The code keeps the
first hit per wall and the order of the crossings (`DistinctKeepsFirsts`).

`ReferenceEquals(x, y)` at the top of `Equals` is modelled as equality of
values. An object is always value-equal to itself, and two value-equal hits
have the same wall key. So this shortcut never gives an answer that the key
comparison would not also give.

## Model

| member | source | states |
|---|---|---|
| `ElementComparer.Equals` | HolePlugin/AddHole.cs:111-123 | two possibly-null hits are equal exactly when both are null, or both are non-null with the same `(LinkedElementId, ElementId)` pair |
| `ElementComparer.GetHashCode` | HolePlugin/AddHole.cs:125-133 | every hit the comparer calls equal to `obj` mixes, from its own linked id and element id, to the same hash code as `obj` (see also `HashConsistent`, `HashWrapsAround`) |
| `ElementComparer.MixHash` | HolePlugin/AddHole.cs:131 | the mix is the linked hash times 397, wrapped to 32 bits, combined by exclusive or with the element hash, which can be recovered from the result |
| `ElementComparer.EqualsIsEquivalence` | HolePlugin/AddHole.cs:111-122 | the comparer is reflexive, symmetric and transitive on possibly-null hits |
| `ElementComparer.EqualsOneNull` | HolePlugin/AddHole.cs:113-115 | a null hit is never equal to a non-null one, whichever argument is null |
| `ElementComparer.EqualsIgnoresProximity` | HolePlugin/AddHole.cs:117-122 | two hits on the same reference are equal, whatever their distances |
| `ElementComparer.HashConsistent` | HolePlugin/AddHole.cs:121-132 | hits the comparer calls equal get the same hash code, for every hash function on ids |
| `ElementComparer.HashWrapsAround` | HolePlugin/AddHole.cs:129-131 | the `* 397` wraps around modulo 2^32: a linked-id hash of 2^24 and an element-id hash of 0 give the low 32 bits `0x8D000000` |
| `Crossings.InRange` | HolePlugin/AddHole.cs:79-80 | the filter keeps no more hits than it is given, and every kept hit is within the duct's length |
| `Crossings.InRangeKeepsReachable` | HolePlugin/AddHole.cs:79-80 | a hit is kept exactly when it is a raw hit within the length, every copy of such a hit is kept and no other, and kept hits keep their order |
| `Crossings.DistinctFrom` | HolePlugin/AddHole.cs:81 | the `Distinct` iterator, resumed after yielding the walls in `seen`, yields no more hits than it is given and none on a wall already seen (see also `DistinctFromOncePerWall`, `DistinctFromSnoc`) |
| `Crossings.Distinct` | HolePlugin/AddHole.cs:81 | `Distinct` with the element comparer yields no wall twice, loses no wall of its input, and only drops hits, keeping the order (see also `DistinctKeepsFirsts`) |
| `Crossings.FindCrossings` | HolePlugin/AddHole.cs:79-82 | every crossing is within the duct's length, no two crossings name the same wall, and the crossings name exactly the walls struck within the length |
| `Crossings.FindCrossingsFromRawHits` | HolePlugin/AddHole.cs:79-82 | the crossings are raw hits in their original order, and no hit beyond the duct's end is among them |
| `Crossings.DistinctFromOncePerWall` | HolePlugin/AddHole.cs:81 | `Distinct` yields no wall twice and yields exactly the walls of its input that it had not yet seen |
| `Crossings.DistinctFromIsSubsequence` | HolePlugin/AddHole.cs:81 | `Distinct` only drops hits and keeps the order of the rest |
| `Crossings.DistinctFromSnoc` | HolePlugin/AddHole.cs:81 | offering one more hit to `Distinct` appends it exactly when its wall was not seen before |
| `Crossings.DistinctKeepsFirsts` | HolePlugin/AddHole.cs:81 | `Distinct` equals the independent description "keep a hit exactly when no earlier hit names its wall": the first hit per wall is kept, later ones are dropped, the order is kept |
| `Crossings.DistinctFromNoDuplicates` | HolePlugin/AddHole.cs:81 | a sequence that already names each wall once passes `Distinct` unchanged |
| `Crossings.InRangeAllWithin` | HolePlugin/AddHole.cs:80 | hits that are all within the length pass the filter unchanged |
| `Crossings.SetAdd` | HolePlugin/AddHole.cs:81-131 | probing the stored hits by hash code and `Equals` reports a new hit exactly when its wall is not stored yet, and stores it only then |
| `Crossings.PipelineStep` | HolePlugin/AddHole.cs:79-81 | one raw hit goes through `Where` and `Distinct`: it is yielded exactly when it is within the length and its wall is new |
| `Crossings.CollectCrossings` | HolePlugin/AddHole.cs:79-82 | the streaming loop, using the hash-set probe, collects exactly the crossings of the pipeline |
| `Crossings.FindCrossingsIdempotent` | HolePlugin/AddHole.cs:79-82 | filtering and deduplicating the crossings a second time returns the same sequence |
| `Crossings.FindCrossingsOncePerWall` | HolePlugin/AddHole.cs:79-82 | every wall struck within the length occurs exactly once among the crossings, and any other wall does not occur |
| `Crossings.FindCrossingsCount` | HolePlugin/AddHole.cs:79-82 | there are as many crossings as walls struck within the length, and no more than walls struck at all or raw hits |
| `Crossings.FindCrossingsEmpty` | HolePlugin/AddHole.cs:79-83 | no raw hits give no crossings, not a failure |
| `Crossings.FindCrossingsCollapsesDuplicates` | HolePlugin/AddHole.cs:79-82 | three hits on one wall at 2, 2.01 and 1.99 collapse to the first one |
| `References.NoDuplicateKeysCardinality` | HolePlugin/AddHole.cs:81 | a duplicate-free hit sequence names as many walls as it has hits |
| `References.NoDuplicateKeysCount` | HolePlugin/AddHole.cs:81 | in a duplicate-free hit sequence each wall it names occurs exactly once |
| `Geometry.PointAlongDistance` | HolePlugin/AddHole.cs:94 | the insertion point is `proximity` lengths of the direction away from the start (squared distance) |
| `Geometry.PointAlongWithin` | HolePlugin/AddHole.cs:94 | along a unit direction, a point at a distance between 0 and a bound is exactly that distance from the start, and so within the bound |
| `Placement.PlaceOpening` | HolePlugin/AddHole.cs:86-101 | the opening's point (`Geometry.PointAlong`, line 94) is displaced from the duct's start by the direction scaled by `proximity`, so along a unit direction it is exactly `proximity` away; it is hosted by the struck wall, on that wall's level, with width and height equal to the duct's diameter |
| `Placement.PlanDuct` | HolePlugin/AddHole.cs:79-101 | a duct gets exactly one opening per crossing kept for it, in order, each placed and sized as for that crossing |
| `Placement.Openings` | HolePlugin/AddHole.cs:83-101 | one opening per crossing, in order: at `start + direction * proximity`, hosted by the struck wall, on that wall's level, with width and height equal to the duct's diameter |
| `Placement.PlanDuctPlacesEachCrossing` | HolePlugin/AddHole.cs:79-101 | no wall the ray strikes within the duct's length is missed: each such raw hit's wall hosts an opening |
| `Placement.PlanDuctFromRawHits` | HolePlugin/AddHole.cs:79-101 | no opening is made up: each sits at the point of some raw hit within the duct's length, on that hit's wall |
| `Placement.OpeningWithinDuct` | HolePlugin/AddHole.cs:80-94 | an opening for a crossing within the length lies within the duct's length of its start |
| `Placement.PlanDuctWithinDuct` | HolePlugin/AddHole.cs:79-94 | with a unit direction and hits in front of the start, every opening of a duct lies within the duct's length of its start |
| `Placement.PlanDuctEmpty` | HolePlugin/AddHole.cs:79-83 | a duct whose ray strikes nothing gets no openings |
| `Placement.PlanDuctExample` | HolePlugin/AddHole.cs:83-101 | start (0,0,0), direction (1,0,0), length 10, diameter 0.3 and one hit at 4 give one 0.3 by 0.3 opening at (4,0,0) |
| `Placement.PlaceAll` | HolePlugin/AddHole.cs:83-102 | the inner loop produces exactly the openings of the duct's crossings |
| `Placement.Execute` | HolePlugin/AddHole.cs:70-103 | the run requests exactly as many openings as the ducts have crossings between them |
| `Placement.ExecuteLoop` | HolePlugin/AddHole.cs:70-103 | the nested loops, with the streaming pipeline, request exactly the openings of `Execute` |
| `Placement.ExecuteAppend` | HolePlugin/AddHole.cs:70-103 | ducts are processed independently and in order: two batches one after the other give the openings of both |
| `Placement.ExecuteSnoc` | HolePlugin/AddHole.cs:70-103 | one more duct adds exactly that duct's openings at the end |
| `Placement.ExecuteDiameter` | HolePlugin/AddHole.cs:98-101 | when all ducts share one diameter, every opening of the run has that width and height |

## Left out

- Finding the mechanical document, the opening family and a 3D view, and their error dialogs (HolePlugin/AddHole.cs:20-50): host lookups and user interface.
- Collecting the ducts and building the `ReferenceIntersector` (HolePlugin/AddHole.cs:53-59), and the ray cast itself: a geometric primitive of the host. Its result is an input sequence of hits, or the `cast` parameter.
- Activating the family symbol and the two transactions (HolePlugin/AddHole.cs:61-69, 104): host bookkeeping.
- `NewFamilyInstance` and `LookupParameter(...).Set` (HolePlugin/AddHole.cs:96-101): only the resulting opening record is modelled, not the side effects on the document.
- `GetElement` for the wall and the level (HolePlugin/AddHole.cs:90-92): the level lookup is the parameter `levelOf`. The case where the element is not a wall, which would make the code throw, is not modelled.
- A duct whose location is not a line (HolePlugin/AddHole.cs:73), which would make the code throw: not modelled.
- `ElementId.GetHashCode` of the host: not visible, so it is the parameter `idHash`.
- Bucket selection in the `Distinct` hash set: the model probes every stored hit. Bucket selection only skips hits whose hash codes differ, and such hits are never equal (`HashConsistent`). So the outcome is the same.
- The ray cast of a duct is modelled as unaffected by the openings placed for earlier ducts in the same run. In the code each cast runs against the architectural document, in which earlier iterations of the same open transaction have already created wall-hosted openings (HolePlugin/AddHole.cs:79, 96). `ExecuteAppend` and `ExecuteSnoc` rely on this.
- A duct that is not round is not modelled: the code reads `Diameter` for every duct (HolePlugin/AddHole.cs:100-101) and never checks the duct's shape, and in the model width and height come from that diameter only.
- Floating-point rounding: coordinates, distances, lengths and diameters are exact reals.

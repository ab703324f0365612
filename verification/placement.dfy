/**
 From crossings to openings. For every duct the ray is cast from the start
 of its centreline along its direction; every crossing kept for the duct
 becomes one opening request: the point the ray reached, the struck wall as
 host, the wall's level, and the duct's diameter as both width and height.
 */
module Placement {
  import opened Geometry
  import opened References
  import opened Crossings

  /** What the command reads from a duct: the start point of its centreline
      (`GetEndPoint(0)`), the line's unit `Direction` and `Length`, and the
      duct's `Diameter`. */
  datatype DuctLine = DuctLine(start: Xyz, direction: Xyz, length: real, diameter: real)

  /** The opening instance the command asks the host to create, with its
      `Width` and `Height` parameters as set afterwards. */
  datatype Opening = Opening(point: Xyz, host: ElementId, level: ElementId, width: real, height: real)

  /** The opening for one crossing. `levelOf` stands for reading the struck
      wall's `LevelId`. The point is `proximity` along the line from its start:
      displaced by the direction scaled by `proximity`, and so, along a unit
      direction, exactly `proximity` away from it. */
  function PlaceOpening(duct: DuctLine, crossing: Hit, levelOf: ElementId -> ElementId): (o: Opening)
    ensures Sub(o.point, duct.start) == Scale(duct.direction, crossing.proximity)
    ensures IsUnit(duct.direction) ==>
              SqLength(Sub(o.point, duct.start)) == crossing.proximity * crossing.proximity
    ensures o.host == crossing.reference.elementId
    ensures o.level == levelOf(o.host)
    ensures o.width == duct.diameter && o.height == duct.diameter
  {
    PointAlongDistance(duct.start, duct.direction, crossing.proximity);
    var wall := crossing.reference.elementId;
    Opening(PointAlong(duct.start, duct.direction, crossing.proximity),
            wall, levelOf(wall), duct.diameter, duct.diameter)
  }

  /** What one opening request promises about the crossing it came from */
  predicate Places(duct: DuctLine, crossing: Hit, levelOf: ElementId -> ElementId, o: Opening) {
    && o.point == PointAlong(duct.start, duct.direction, crossing.proximity)
    && o.host == crossing.reference.elementId
    && o.level == levelOf(o.host)
    && o.width == duct.diameter
    && o.height == duct.diameter
  }

  /** The inner loop over one duct's crossings: one opening per crossing, in
      the crossings' order. */
  function Openings(duct: DuctLine, crossings: seq<Hit>, levelOf: ElementId -> ElementId): (r: seq<Opening>)
    ensures |r| == |crossings|
    ensures forall i :: 0 <= i < |r| ==> Places(duct, crossings[i], levelOf, r[i])
  {
    if |crossings| == 0 then []
    else [PlaceOpening(duct, crossings[0], levelOf)] + Openings(duct, crossings[1..], levelOf)
  }

  /** Everything the command requests for one duct, given the ray's raw hits */
  function PlanDuct(duct: DuctLine, hits: seq<Hit>, levelOf: ElementId -> ElementId): (r: seq<Opening>)
    ensures var crossings := FindCrossings(hits, duct.length);
            && |r| == |crossings|
            && forall i :: 0 <= i < |r| ==> Places(duct, crossings[i], levelOf, r[i])
  {
    Openings(duct, FindCrossings(hits, duct.length), levelOf)
  }

  /** The outer loop over all ducts. `cast` stands for the ray cast from a
      duct's start along its direction against the walls of the 3D view. */
  function Execute(ducts: seq<DuctLine>, cast: DuctLine -> seq<Hit>, levelOf: ElementId -> ElementId)
    : (r: seq<Opening>)
    ensures |r| == TotalCrossings(ducts, cast)
  {
    if |ducts| == 0 then []
    else PlanDuct(ducts[0], cast(ducts[0]), levelOf) + Execute(ducts[1..], cast, levelOf)
  }

  /** How many crossings the ducts have between them */
  function TotalCrossings(ducts: seq<DuctLine>, cast: DuctLine -> seq<Hit>): nat {
    if |ducts| == 0 then 0
    else |FindCrossings(cast(ducts[0]), ducts[0].length)| + TotalCrossings(ducts[1..], cast)
  }

  /** The inner loop: one opening request per crossing of duct `d` */
  method PlaceAll(d: DuctLine, intersections: seq<Hit>, levelOf: ElementId -> ElementId)
    returns (holes: seq<Opening>)
    ensures holes == Openings(d, intersections, levelOf)
  {
    holes := [];
    var j := 0;
    while j < |intersections|
      invariant 0 <= j <= |intersections|
      invariant holes == Openings(d, intersections[..j], levelOf)
    {
      OpeningsSnoc(d, intersections[..j], intersections[j], levelOf);
      assert intersections[..j + 1] == intersections[..j] + [intersections[j]];
      holes := holes + [PlaceOpening(d, intersections[j], levelOf)];
      j := j + 1;
    }
    assert intersections[..j] == intersections;
  }

  /** The command's outer loop over the ducts, with each duct's crossings
      collected as the enumerators run them. */
  method ExecuteLoop(ducts: seq<DuctLine>, cast: DuctLine -> seq<Hit>,
                     levelOf: ElementId -> ElementId, idHash: ElementId -> bv32)
    returns (holes: seq<Opening>)
    ensures holes == Execute(ducts, cast, levelOf)
  {
    holes := [];
    var i := 0;
    while i < |ducts|
      invariant 0 <= i <= |ducts|
      invariant holes == Execute(ducts[..i], cast, levelOf)
    {
      var d := ducts[i];
      var intersections := CollectCrossings(cast(d), d.length, idHash);
      var placed := PlaceAll(d, intersections, levelOf);
      assert placed == PlanDuct(d, cast(d), levelOf);
      assert ducts[..i + 1] == ducts[..i] + [d];
      ExecuteSnoc(ducts[..i], d, cast, levelOf);
      holes := holes + placed;
      i := i + 1;
    }
    assert ducts[..i] == ducts;
  }

  // ---------------------------------------------------------------------
  // Lemmas

  lemma OpeningsSnoc(duct: DuctLine, crossings: seq<Hit>, c: Hit, levelOf: ElementId -> ElementId)
    ensures Openings(duct, crossings + [c], levelOf)
            == Openings(duct, crossings, levelOf) + [PlaceOpening(duct, c, levelOf)]
  {
  }

  /** Ducts are processed independently and in order: running the command on
      two batches of ducts one after the other gives the openings of both. */
  lemma {:induction false} ExecuteAppend(a: seq<DuctLine>, b: seq<DuctLine>,
                                         cast: DuctLine -> seq<Hit>, levelOf: ElementId -> ElementId)
    ensures Execute(a + b, cast, levelOf) == Execute(a, cast, levelOf) + Execute(b, cast, levelOf)
  {
    if |a| == 0 {
      assert a + b == b;
    } else {
      assert (a + b)[0] == a[0];
      assert (a + b)[1..] == a[1..] + b;
      ExecuteAppend(a[1..], b, cast, levelOf);
    }
  }

  lemma ExecuteSnoc(a: seq<DuctLine>, d: DuctLine, cast: DuctLine -> seq<Hit>, levelOf: ElementId -> ElementId)
    ensures Execute(a + [d], cast, levelOf) == Execute(a, cast, levelOf) + PlanDuct(d, cast(d), levelOf)
  {
    ExecuteAppend(a, [d], cast, levelOf);
    assert [d][1..] == [];
  }

  /** No wall the ray strikes within the duct's length is missed: each one
      gets an opening hosted by it. */
  lemma PlanDuctPlacesEachCrossing(duct: DuctLine, hits: seq<Hit>, levelOf: ElementId -> ElementId)
    ensures forall h :: h in hits && h.proximity <= duct.length ==>
              exists o :: o in PlanDuct(duct, hits, levelOf) && o.host == h.reference.elementId
  {
    var crossings := FindCrossings(hits, duct.length);
    var r := PlanDuct(duct, hits, levelOf);
    InRangeKeepsReachable(hits, duct.length);
    forall h | h in hits && h.proximity <= duct.length
      ensures exists o :: o in r && o.host == h.reference.elementId
    {
      assert KeyOf(h) in KeysOf(InRange(hits, duct.length));
      var c :| c in crossings && KeyOf(c) == KeyOf(h);
      var i :| 0 <= i < |crossings| && crossings[i] == c;
      assert r[i] in r;
    }
  }

  /** No opening is made up: every opening sits where some raw hit within the
      duct's length was, on that hit's wall. */
  lemma PlanDuctFromRawHits(duct: DuctLine, hits: seq<Hit>, levelOf: ElementId -> ElementId)
    ensures forall o :: o in PlanDuct(duct, hits, levelOf) ==>
              exists h :: h in hits && h.proximity <= duct.length
                          && o.host == h.reference.elementId
                          && o.point == PointAlong(duct.start, duct.direction, h.proximity)
  {
    var crossings := FindCrossings(hits, duct.length);
    var r := PlanDuct(duct, hits, levelOf);
    FindCrossingsFromRawHits(hits, duct.length);
    forall o | o in r
      ensures exists h :: h in hits && h.proximity <= duct.length
                          && o.host == h.reference.elementId
                          && o.point == PointAlong(duct.start, duct.direction, h.proximity)
    {
      var i :| 0 <= i < |r| && r[i] == o;
      SubsequenceMembers(crossings, hits, crossings[i]);
    }
  }

  /** With a unit direction and hits in front of the start, every opening lies
      on the duct's centreline within the duct's length of its start. */
  lemma PlanDuctWithinDuct(duct: DuctLine, hits: seq<Hit>, levelOf: ElementId -> ElementId)
    requires IsUnit(duct.direction)
    requires forall h :: h in hits ==> h.proximity >= 0.0
    ensures forall o :: o in PlanDuct(duct, hits, levelOf) ==>
              SqLength(Sub(o.point, duct.start)) <= duct.length * duct.length
  {
    var crossings := FindCrossings(hits, duct.length);
    var r := PlanDuct(duct, hits, levelOf);
    FindCrossingsFromRawHits(hits, duct.length);
    forall i | 0 <= i < |r|
      ensures SqLength(Sub(r[i].point, duct.start)) <= duct.length * duct.length
    {
      SubsequenceMembers(crossings, hits, crossings[i]);
      OpeningWithinDuct(duct, crossings[i], levelOf, r[i]);
    }
  }

  /** One crossing's opening lies within the duct's length of its start. */
  lemma OpeningWithinDuct(duct: DuctLine, c: Hit, levelOf: ElementId -> ElementId, o: Opening)
    requires IsUnit(duct.direction)
    requires 0.0 <= c.proximity <= duct.length
    requires Places(duct, c, levelOf, o)
    ensures SqLength(Sub(o.point, duct.start)) <= duct.length * duct.length
  {
  }

  /** A duct whose ray strikes nothing gets no openings; this is not a failure. */
  lemma PlanDuctEmpty(duct: DuctLine, levelOf: ElementId -> ElementId)
    ensures PlanDuct(duct, [], levelOf) == []
  {
  }

  /** A duct starting at the origin along the x axis, 10 long and 0.3 across,
      that strikes one wall 4 along gets one 0.3 by 0.3 opening at (4, 0, 0). */
  lemma PlanDuctExample(wall: Reference, levelOf: ElementId -> ElementId)
    ensures var duct := DuctLine(Xyz(0.0, 0.0, 0.0), Xyz(1.0, 0.0, 0.0), 10.0, 0.3);
            PlanDuct(duct, [Hit(wall, 4.0)], levelOf)
            == [Opening(Xyz(4.0, 0.0, 0.0), wall.elementId, levelOf(wall.elementId), 0.3, 0.3)]
  {
    var s := [Hit(wall, 4.0)];
    assert s[1..] == [];
    InRangeAllWithin(s, 10.0);
    var none: set<WallKey> := {};
    assert none + {KeyOf(s[0])} == {KeyOf(s[0])};
    assert DistinctFrom(s, none) == [s[0]] + DistinctFrom(s[1..], {KeyOf(s[0])});
    assert FindCrossings(s, 10.0) == s;
  }

  /** Every opening of a run is sized to the one diameter all its ducts share. */
  lemma ExecuteDiameter(ducts: seq<DuctLine>, cast: DuctLine -> seq<Hit>,
                        levelOf: ElementId -> ElementId, diameter: real)
    requires forall d :: d in ducts ==> d.diameter == diameter
    ensures forall o :: o in Execute(ducts, cast, levelOf) ==> o.width == diameter && o.height == diameter
  {
  }
}

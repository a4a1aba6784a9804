/** The orientation-pruning cases of src/logic/getMeaningfulPlacements.test.ts,
    worked out on the model. */
module PlacementExamples {
  import opened Wrappers
  import opened Types
  import opened Helpers
  import opened Seqs
  import opened MeaningfulPlacements

  /** The tile with road on its north and east sides ("DD__"). */
  const RoadCorner: TileString := Tile([Road, Road, NoTrack, NoTrack], false)
  /** The road corner turned to join west and north ("D__D"). */
  const RoadCornerNW: TileString := Tile([Road, NoTrack, NoTrack, Road], false)
  /** The road corner turned to join south and west ("__DD"). */
  const RoadCornerSW: TileString := Tile([NoTrack, NoTrack, Road, Road], false)
  /** The road corner turned to join east and south ("_DD_"). */
  const RoadCornerES: TileString := Tile([NoTrack, Road, Road, NoTrack], false)

  /** The slot "EE_D": edges north and east, a trackless neighbour south and
      a road to the west. */
  const EdgeCornerSlot: OpenSlot := [Edge, Edge, NoTrack, Road]

  /** The four orientations of the road corner are different tiles. */
  lemma RoadCornersDiffer()
    ensures RoadCorner != RoadCornerNW && RoadCorner != RoadCornerSW && RoadCorner != RoadCornerES
    ensures RoadCornerNW != RoadCornerSW && RoadCornerNW != RoadCornerES && RoadCornerSW != RoadCornerES
  {
    assert RoadCorner.sides[1] != RoadCornerNW.sides[1];
    assert RoadCorner.sides[0] != RoadCornerSW.sides[0];
    assert RoadCorner.sides[0] != RoadCornerES.sides[0];
    assert RoadCornerNW.sides[0] != RoadCornerSW.sides[0];
    assert RoadCornerNW.sides[0] != RoadCornerES.sides[0];
    assert RoadCornerSW.sides[1] != RoadCornerES.sides[1];
  }

  /** The road corner's transforms give each orientation twice. */
  lemma RoadCornerTransforms()
    ensures AllTransformedTiles(RoadCorner) ==
      [RoadCorner, RoadCornerNW, RoadCornerES, RoadCornerSW, RoadCornerSW, RoadCornerES, RoadCornerNW, RoadCorner]
  {
    var ts := AllTransformedTiles(RoadCorner);
    assert ts[0] == RoadCorner && ts[7] == RoadCorner;
    assert ts[1] == RoadCornerNW && ts[6] == RoadCornerNW;
    assert ts[2] == RoadCornerES && ts[5] == RoadCornerES;
    assert ts[3] == RoadCornerSW && ts[4] == RoadCornerSW;
  }

  /** How each orientation of the road corner fares against "EE_D": the
      north-west corner matches the road without error, the south-west corner
      matches it but puts track against the trackless neighbour, and the
      other two leave the road unmatched. */
  lemma RoadCornerAgainstEdgeSlot()
    ensures Assess(RoadCorner, EdgeCornerSlot) == None
    ensures Assess(RoadCornerES, EdgeCornerSlot) == None
    ensures Assess(RoadCornerNW, EdgeCornerSlot) == Some(Placement(RoadCornerNW, true, 1, 0))
    ensures Assess(RoadCornerSW, EdgeCornerSlot) == Some(Placement(RoadCornerSW, true, 1, 1))
  {
    var s := EdgeCornerSlot;
    assert MatchCount(RoadCorner, s, 0) == 0;
    assert MatchCount(RoadCornerES, s, 0) == 0;
    assert MatchCount(RoadCornerNW, s, 0) == 1 && ErrorCount(RoadCornerNW, s, 0) == 0;
    assert MatchCount(RoadCornerSW, s, 0) == 1 && ErrorCount(RoadCornerSW, s, 0) == 1;
  }

  /** Every transform of the road corner is one of its four orientations. */
  lemma RoadCornerOrbit(u: TileString)
    requires u in AllTransformedTiles(RoadCorner)
    ensures u == RoadCorner || u == RoadCornerNW || u == RoadCornerES || u == RoadCornerSW
  {
    RoadCornerTransforms();
  }

  /** A candidate of the road corner against "EE_D" is one of the two
      corners that reach the road. */
  lemma RoadCornerCandidate(tile: TileString, slot: OpenSlot, c: Placement)
    requires tile == RoadCorner && slot == EdgeCornerSlot && c in CandidatesOf(tile, slot)
    ensures c == Placement(RoadCornerNW, true, 1, 0) || c == Placement(RoadCornerSW, true, 1, 1)
  {
    CandidatesExact(AllTransformedTiles(tile), slot);
    RoadCornerOrbit(c.tile);
    RoadCornerAgainstEdgeSlot();
  }

  /** The north-west corner is a candidate of the road corner against "EE_D". */
  lemma NorthWestIsCandidate(tile: TileString, slot: OpenSlot)
    requires tile == RoadCorner && slot == EdgeCornerSlot
    ensures Placement(RoadCornerNW, true, 1, 0) in CandidatesOf(tile, slot)
  {
    RoadCornerTransforms();
    assert RoadCornerNW in AllTransformedTiles(tile) by {
      assert AllTransformedTiles(tile)[1] == RoadCornerNW;
    }
    CandidatesExact(AllTransformedTiles(tile), slot);
    RoadCornerAgainstEdgeSlot();
  }

  /** No candidate of the road corner against "EE_D" beats the north-west corner. */
  lemma NorthWestUnbeaten(tile: TileString, slot: OpenSlot)
    requires tile == RoadCorner && slot == EdgeCornerSlot
    ensures NoneBetter(CandidatesOf(tile, slot), Placement(RoadCornerNW, true, 1, 0))
  {
    forall c | c in CandidatesOf(tile, slot)
      ensures !Better(c, Placement(RoadCornerNW, true, 1, 0))
    {
      RoadCornerCandidate(tile, slot, c);
    }
  }

  /** The north-west corner appears twice among the road corner's transforms. */
  lemma NorthWestTwice()
    ensures Count(AllTransformedTiles(RoadCorner), RoadCornerNW) >= 2
  {
    var ts := AllTransformedTiles(RoadCorner);
    assert ts[1] == RoadCornerNW && ts[6] == RoadCornerNW;
    CountTwoPositions(ts, 1, 6);
  }

  /** Against "EE_D" the north-west corner wins, but the source returns it
      more than once: once for each transform that produces it. */
  lemma AsWrittenRepeatsCorner(tile: TileString, slot: OpenSlot)
    requires tile == RoadCorner && slot == EdgeCornerSlot
    ensures Count(GetMeaningfulPlacementsAsWritten(tile, slot), RoadCornerNW) >= 2
  {
    RoadCornerAgainstEdgeSlot();
    NorthWestUnbeaten(tile, slot);
    AsWrittenCount(tile, slot, RoadCornerNW);
    NorthWestTwice();
  }

  /** The only tile the source returns for "DD__" against "EE_D" is "D__D". */
  lemma OnlyNorthWestReturned(tile: TileString, slot: OpenSlot, u: TileString)
    requires tile == RoadCorner && slot == EdgeCornerSlot
    requires u in GetMeaningfulPlacementsAsWritten(tile, slot)
    ensures u == RoadCornerNW
  {
    AsWrittenCount(tile, slot, u);
    RoadCornerOrbit(u);
    RoadCornerAgainstEdgeSlot();
    NorthWestIsCandidate(tile, slot);
    assert Better(Placement(RoadCornerNW, true, 1, 0), Placement(RoadCornerSW, true, 1, 1));
  }

  /** With duplicates removed, "DD__" against "EE_D" gives the single corner
      "D__D" that the source's tests expect. */
  lemma CornerGoesOffEdge(tile: TileString, slot: OpenSlot)
    requires tile == RoadCorner && slot == EdgeCornerSlot
    ensures GetMeaningfulPlacements(tile, slot) == [RoadCornerNW]
  {
    var res := GetMeaningfulPlacements(tile, slot);
    AsWrittenRepeatsCorner(tile, slot);
    forall u | u in res ensures u == RoadCornerNW {
      OnlyNorthWestReturned(tile, slot, u);
    }
    DistinctSingleton(res, RoadCornerNW);
  }

  /** The straight road "D_D_" and its quarter turn "_D_D". */
  const RoadStraight: TileString := Tile([Road, NoTrack, Road, NoTrack], false)
  const RoadStraightEW: TileString := Tile([NoTrack, Road, NoTrack, Road], false)

  /** The slot "L...": rail to the north, the other sides unfilled. */
  const RailNorthSlot: OpenSlot := [Rail, Unfilled, Unfilled, Unfilled]

  /** Every transform of the straight road runs north-south or east-west. */
  lemma RoadStraightOrbit(u: TileString)
    requires u in AllTransformedTiles(RoadStraight)
    ensures u == RoadStraight || u == RoadStraightEW
  {
    var ts := AllTransformedTiles(RoadStraight);
    var k :| 0 <= k < 8 && ts[k] == u;
    assert u.sides == SidesOf(RoadStraight.sides, k);
  }

  /** Against "L..." neither orientation of the straight road survives: one
      puts road against the rail, the other matches nothing. */
  lemma RoadStraightAgainstRail()
    ensures Assess(RoadStraight, RailNorthSlot) == None
    ensures Assess(RoadStraightEW, RailNorthSlot) == None
  {
    assert IsConflict(RoadStraight, RailNorthSlot, 0);
    assert MatchCount(RoadStraightEW, RailNorthSlot, 0) == 0;
  }

  /** "D_D_" against "L..." gives no placement at all. */
  lemma NoValidPlacements(tile: TileString, slot: OpenSlot)
    requires tile == RoadStraight && slot == RailNorthSlot
    ensures forall u :: u !in GetMeaningfulPlacementsAsWritten(tile, slot)
    ensures forall u :: u !in GetMeaningfulPlacements(tile, slot)
  {
    var res := GetMeaningfulPlacementsAsWritten(tile, slot);
    forall u | u in AllTransformedTiles(tile) ensures Assess(u, slot).None? {
      RoadStraightOrbit(u);
      RoadStraightAgainstRail();
    }
    forall u ensures u !in res {
      AsWrittenCount(tile, slot, u);
    }
  }

  /** The junction "DDD_" in its four orientations. */
  const Junction: TileString := Tile([Road, Road, Road, NoTrack], false)
  const JunctionNoEast: TileString := Tile([Road, NoTrack, Road, Road], false)
  const JunctionNoNorth: TileString := Tile([NoTrack, Road, Road, Road], false)
  const JunctionNoSouth: TileString := Tile([Road, Road, NoTrack, Road], false)

  /** The slot "EDDD": an edge north and road on the other three sides. */
  const ThreeRoadSlot: OpenSlot := [Edge, Road, Road, Road]

  /** Every transform of the junction is one of its four orientations. */
  lemma JunctionOrbit(u: TileString)
    requires u in AllTransformedTiles(Junction)
    ensures u == Junction || u == JunctionNoEast || u == JunctionNoNorth || u == JunctionNoSouth
  {
    var ts := AllTransformedTiles(Junction);
    var k :| 0 <= k < 8 && ts[k] == u;
    assert u.sides == SidesOf(Junction.sides, k);
  }

  /** Against "EDDD" the junction that turns its blank side to the edge
      matches all three roads without error. */
  lemma FullJunctionAgainstThreeRoads()
    ensures Assess(JunctionNoNorth, ThreeRoadSlot) == Some(Placement(JunctionNoNorth, true, 3, 0))
  {
    assert MatchCount(JunctionNoNorth, ThreeRoadSlot, 0) == 3 && ErrorCount(JunctionNoNorth, ThreeRoadSlot, 0) == 0;
  }

  /** Against "EDDD" every other orientation of the junction matches two
      roads and leaves the third with an error. */
  lemma PartialJunctionsAgainstThreeRoads(u: TileString)
    requires u == Junction || u == JunctionNoEast || u == JunctionNoSouth
    ensures Assess(u, ThreeRoadSlot) == Some(Placement(u, true, 2, 1))
  {
    assert MatchCount(u, ThreeRoadSlot, 0) == 2 && ErrorCount(u, ThreeRoadSlot, 0) == 1;
  }

  /** The only tile returned for "DDD_" against "EDDD" is "_DDD". */
  lemma OnlyFullJunctionReturned(tile: TileString, slot: OpenSlot, u: TileString)
    requires tile == Junction && slot == ThreeRoadSlot
    requires u in GetMeaningfulPlacementsAsWritten(tile, slot)
    ensures u == JunctionNoNorth
  {
    AsWrittenCount(tile, slot, u);
    JunctionOrbit(u);
    FullJunctionAgainstThreeRoads();
    if u != JunctionNoNorth {
      PartialJunctionsAgainstThreeRoads(u);
    }
    var ts := AllTransformedTiles(tile);
    assert ts[2].sides == SidesOf(Junction.sides, 2);
    assert ts[2] == JunctionNoNorth;
    CandidatesExact(ts, slot);
    assert Placement(JunctionNoNorth, true, 3, 0) in CandidatesOf(tile, slot);
  }

  /** "DDD_" against "EDDD" gives exactly "_DDD" once duplicates are removed. */
  lemma JunctionConnects(tile: TileString, slot: OpenSlot)
    requires tile == Junction && slot == ThreeRoadSlot
    ensures GetMeaningfulPlacements(tile, slot) == [JunctionNoNorth]
  {
    var res := GetMeaningfulPlacements(tile, slot);
    var ts := AllTransformedTiles(tile);
    assert ts[2].sides == SidesOf(Junction.sides, 2);
    assert ts[2] == JunctionNoNorth;
    FullJunctionAgainstThreeRoads();
    forall c | c in CandidatesOf(tile, slot)
      ensures !Better(c, Placement(JunctionNoNorth, true, 3, 0))
    {
      CandidatesExact(ts, slot);
      JunctionOrbit(c.tile);
      if c.tile != JunctionNoNorth {
        PartialJunctionsAgainstThreeRoads(c.tile);
      }
    }
    AsWrittenCount(tile, slot, JunctionNoNorth);
    forall u | u in res ensures u == JunctionNoNorth {
      OnlyFullJunctionReturned(tile, slot, u);
    }
    DistinctSingleton(res, JunctionNoNorth);
  }
}

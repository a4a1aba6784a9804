/** The placement cases of src/logic/board.test.ts that build on earlier
    placements, worked out on the tile board. Each case places its tiles in
    order on a new board and asks whether the last one is valid. */
module TileBoardExamples {
  import opened Wrappers
  import opened Types
  import opened Helpers
  import opened BoardExits
  import Grids
  import opened TileBoard

  /** No exit sits on side `r` of cell `p`. */
  lemma NoExitOn(p: Pos, r: Rotation)
    requires forall x :: x in Exits ==> !(x.Position() == p && x.r == r)
    ensures FindExit(p, r).None?
  {
    FindExitFromSpec(p, r, 0);
    assert forall k :: 0 <= k < |Exits| ==> Exits[k] in Exits;
  }

  /** The road corner joining east and south at the east exit of row 3
      connects to that exit. */
  lemma CornerAtEastExit(p: Pos, tile: TileString)
    requires p == Pos(3, 6) && tile == Tile([NoTrack, Road, Road, NoTrack], false)
    ensures IsValid(NewBoard(), p, tile) == Ok(true)
  {
    EastExitRow3(p);
    assert ExitMatch(p, tile, 1);
    NoExitOn(p, 2);
    assert Step(p, 2) == Some(Pos(4, 6));
    assert Facing(NewBoard(), p, 2) == NoTrack;
    assert Step(p, 1).None?;
    forall r: Rotation
      ensures !ExitConflict(p, tile, r) && !NeighbourConflict(NewBoard(), p, tile, r)
    {
    }
    IsValidIff(NewBoard(), p, tile);
  }

  /** Placing the straight road at the east exit of row 3 a second time is
      invalid: the cell is already filled. */
  lemma SpaceAlreadyFilled(p: Pos, tile: TileString)
    requires p == Pos(3, 6) && tile == Tile([NoTrack, Road, NoTrack, Road], false)
    ensures Set(NewBoard(), p, tile).Ok?
    ensures IsValid(Set(NewBoard(), p, tile).value, p, tile) == Ok(false)
  {
    ExitConnection(p, tile);
    SetThenOccupied(NewBoard(), p, tile, tile);
  }

  /** After the corner at the east exit, the cell below it shows road on its
      north side and nothing on its west side. */
  lemma BelowCorner(p1: Pos, t1: TileString, p2: Pos)
    requires p1 == Pos(3, 6) && t1 == Tile([NoTrack, Road, Road, NoTrack], false) && p2 == Pos(4, 6)
    ensures Set(NewBoard(), p1, t1).Ok?
    ensures var b := Set(NewBoard(), p1, t1).value;
      && Grids.Get(b.grid, p2).None?
      && Facing(b, p2, 0) == Road
      && Facing(b, p2, 3) == NoTrack
      && Step(p2, 1).None?
      && FindExit(p2, 0).None? && FindExit(p2, 1).None? && FindExit(p2, 3).None?
  {
    CornerAtEastExit(p1, t1);
    var b := Set(NewBoard(), p1, t1).value;
    assert Step(p2, 0) == Some(p1);
    assert Grids.Get(b.grid, p1) == Some(t1);
    assert Step(p2, 3) == Some(Pos(4, 5));
    assert Grids.Get(b.grid, Pos(4, 5)) == Grids.Get(NewBoard().grid, Pos(4, 5));
    NoExitOn(p2, 0);
    NoExitOn(p2, 1);
    NoExitOn(p2, 3);
  }

  /** A road corner below the first one, joining north and west, connects
      to it. */
  lemma ExistingTileConnection(p1: Pos, t1: TileString, p2: Pos, t2: TileString)
    requires p1 == Pos(3, 6) && t1 == Tile([NoTrack, Road, Road, NoTrack], false)
    requires p2 == Pos(4, 6) && t2 == Tile([Road, NoTrack, NoTrack, Road], false)
    ensures Set(NewBoard(), p1, t1).Ok?
    ensures IsValid(Set(NewBoard(), p1, t1).value, p2, t2) == Ok(true)
  {
    BelowCorner(p1, t1, p2);
    var b := Set(NewBoard(), p1, t1).value;
    assert NeighbourMatch(b, p2, t2, 0);
    forall r: Rotation
      ensures !ExitConflict(p2, t2, r) && !NeighbourConflict(b, p2, t2, r)
    {
    }
    IsValidIff(b, p2, t2);
  }

  /** A rail corner there meets the first corner's road with the other
      track type. */
  lemma ExistingTileWrongType(p1: Pos, t1: TileString, p2: Pos, t2: TileString)
    requires p1 == Pos(3, 6) && t1 == Tile([NoTrack, Road, Road, NoTrack], false)
    requires p2 == Pos(4, 6) && t2 == Tile([Rail, NoTrack, NoTrack, Rail], false)
    ensures Set(NewBoard(), p1, t1).Ok?
    ensures IsValid(Set(NewBoard(), p1, t1).value, p2, t2) == Ok(false)
  {
    BelowCorner(p1, t1, p2);
    var b := Set(NewBoard(), p1, t1).value;
    NeighbourConflictRejected(b, p2, t2, 0);
  }

  /** A straight east-west road there touches neither the corner nor an
      exit. */
  lemma ExistingTileWrongRotation(p1: Pos, t1: TileString, p2: Pos, t2: TileString)
    requires p1 == Pos(3, 6) && t1 == Tile([NoTrack, Road, Road, NoTrack], false)
    requires p2 == Pos(4, 6) && t2 == Tile([NoTrack, Road, NoTrack, Road], false)
    ensures Set(NewBoard(), p1, t1).Ok?
    ensures IsValid(Set(NewBoard(), p1, t1).value, p2, t2) == Ok(false)
  {
    BelowCorner(p1, t1, p2);
    var b := Set(NewBoard(), p1, t1).value;
    assert Step(p2, 3) == Some(Pos(4, 5));
    assert Grids.Get(b.grid, Pos(4, 5)) == Grids.Get(NewBoard().grid, Pos(4, 5));
    IsolatedTileRejected(b, p2, t2);
  }

  /** A straight rail at the west exit of row 5 connects to that exit. */
  lemma RailAtWestExit(p: Pos, tile: TileString)
    requires p == Pos(5, 0) && tile == Tile([NoTrack, Rail, NoTrack, Rail], false)
    ensures IsValid(NewBoard(), p, tile) == Ok(true)
  {
    WestExitRow5(p);
    assert ExitMatch(p, tile, 3);
    NoExitOn(p, 1);
    assert Step(p, 1) == Some(Pos(5, 1));
    assert Facing(NewBoard(), p, 1) == NoTrack;
    assert Step(p, 3).None?;
    forall r: Rotation
      ensures !ExitConflict(p, tile, r) && !NeighbourConflict(NewBoard(), p, tile, r)
    {
    }
    IsValidIff(NewBoard(), p, tile);
  }

  /** On any board where the corner cell (6, 0) and the cell to its east
      are empty, a straight east-west road there touches no exit and no
      tile, whatever sits above it. */
  lemma CornerRoadIsolated(b: Board, p2: Pos, t2: TileString)
    requires p2 == Pos(6, 0) && t2 == Tile([NoTrack, Road, NoTrack, Road], false)
    requires Grids.Get(b.grid, Pos(6, 1)).None?
    ensures IsValid(b, p2, t2) != Ok(true)
  {
    NoExitOn(p2, 1);
    NoExitOn(p2, 3);
    assert Step(p2, 1) == Some(Pos(6, 1));
    assert Step(p2, 3).None?;
    IsolatedTileRejected(b, p2, t2);
  }

  /** A straight road in the corner below the rail touches no exit and no
      tile: the rail above has no track on its south side. */
  lemma ExistingTileNoConnection(p1: Pos, t1: TileString, p2: Pos, t2: TileString)
    requires p1 == Pos(5, 0) && t1 == Tile([NoTrack, Rail, NoTrack, Rail], false)
    requires p2 == Pos(6, 0) && t2 == Tile([NoTrack, Road, NoTrack, Road], false)
    ensures Set(NewBoard(), p1, t1).Ok?
    ensures IsValid(Set(NewBoard(), p1, t1).value, p2, t2) == Ok(false)
  {
    RailAtWestExit(p1, t1);
    var b := Set(NewBoard(), p1, t1).value;
    assert Grids.Get(b.grid, p2) == Grids.Get(NewBoard().grid, p2);
    assert Grids.Get(b.grid, Pos(6, 1)) == Grids.Get(NewBoard().grid, Pos(6, 1));
    CornerRoadIsolated(b, p2, t2);
  }

  /** The west exit of row 5 is the tenth exit the search meets. */
  lemma WestExitRow5(p: Pos)
    requires p == Pos(5, 0)
    ensures FindExit(p, 3) == Some(Exit(5, 0, 3, Rail))
  {
    assert FindExitFrom(p, 3, 9) == Some(Exit(5, 0, 3, Rail));
    FindExitFromSpec(p, 3, 0);
    FindExitFromSpec(p, 3, 9);
  }

  /** A corner with rail to the west and road to the south, at the west
      exit of row 5, connects to that rail exit. */
  lemma MixedCornerAtWestExit(p: Pos, tile: TileString)
    requires p == Pos(5, 0) && tile == Tile([NoTrack, NoTrack, Road, Rail], false)
    ensures IsValid(NewBoard(), p, tile) == Ok(true)
  {
    WestExitRow5(p);
    assert ExitMatch(p, tile, 3);
    NoExitOn(p, 2);
    assert Step(p, 2) == Some(Pos(6, 0));
    assert Facing(NewBoard(), p, 2) == NoTrack;
    assert Step(p, 3).None?;
    forall r: Rotation
      ensures !ExitConflict(p, tile, r) && !NeighbourConflict(NewBoard(), p, tile, r)
    {
    }
    IsValidIff(NewBoard(), p, tile);
  }

  /** On any board where the corner cell (6, 0) and the cell to its east
      are empty and a tile with road on its south side sits above it, a
      road corner joining north and east is valid at (6, 0). */
  lemma CornerJoinsNorth(b: Board, p1: Pos, t1: TileString, p2: Pos, t2: TileString)
    requires p1 == Pos(5, 0) && t1.sides[2] == Road
    requires p2 == Pos(6, 0) && t2 == Tile([Road, Road, NoTrack, NoTrack], false)
    requires Grids.Get(b.grid, p2).None? && Grids.Get(b.grid, Pos(6, 1)).None? && Grids.Get(b.grid, p1) == Some(t1)
    ensures IsValid(b, p2, t2) == Ok(true)
  {
    NoExitOn(p2, 0);
    NoExitOn(p2, 1);
    assert Step(p2, 0) == Some(p1);
    assert NeighbourMatch(b, p2, t2, 0);
    assert Step(p2, 1) == Some(Pos(6, 1));
    forall r: Rotation
      ensures !ExitConflict(p2, t2, r) && !NeighbourConflict(b, p2, t2, r)
    {
    }
    IsValidIff(b, p2, t2);
  }

  /** Below it, in the board's corner, a road corner joining north and east
      connects to the road coming down. */
  lemma CornerBelowMixed(p1: Pos, t1: TileString, p2: Pos, t2: TileString)
    requires p1 == Pos(5, 0) && t1 == Tile([NoTrack, NoTrack, Road, Rail], false)
    requires p2 == Pos(6, 0) && t2 == Tile([Road, Road, NoTrack, NoTrack], false)
    ensures Set(NewBoard(), p1, t1).Ok?
    ensures IsValid(Set(NewBoard(), p1, t1).value, p2, t2) == Ok(true)
  {
    MixedCornerAtWestExit(p1, t1);
    var b := Set(NewBoard(), p1, t1).value;
    assert Grids.Get(b.grid, p2) == Grids.Get(NewBoard().grid, p2);
    assert Grids.Get(b.grid, Pos(6, 1)) == Grids.Get(NewBoard().grid, Pos(6, 1));
    CornerJoinsNorth(b, p1, t1, p2, t2);
  }

  /** After the two corners, the exit cell (6, 1) and the cell above it are
      empty, and the bottom corner sits to its west. */
  lemma BesideBottomCorner(p1: Pos, t1: TileString, p2: Pos, t2: TileString)
    requires p1 == Pos(5, 0) && t1 == Tile([NoTrack, NoTrack, Road, Rail], false)
    requires p2 == Pos(6, 0) && t2 == Tile([Road, Road, NoTrack, NoTrack], false)
    ensures Set(NewBoard(), p1, t1).Ok?
    ensures Set(Set(NewBoard(), p1, t1).value, p2, t2).Ok?
    ensures var b := Set(Set(NewBoard(), p1, t1).value, p2, t2).value;
      && Grids.Get(b.grid, Pos(6, 1)).None?
      && Grids.Get(b.grid, Pos(5, 1)).None?
      && Grids.Get(b.grid, p2) == Some(t2)
  {
    CornerBelowMixed(p1, t1, p2, t2);
    var b1 := Set(NewBoard(), p1, t1).value;
    var b := Set(b1, p2, t2).value;
    assert Grids.Get(b.grid, Pos(6, 1)) == Grids.Get(b1.grid, Pos(6, 1)) == Grids.Get(NewBoard().grid, Pos(6, 1));
    assert Grids.Get(b.grid, Pos(5, 1)) == Grids.Get(b1.grid, Pos(5, 1)) == Grids.Get(NewBoard().grid, Pos(5, 1));
  }

  /** On any board where the exit cell (6, 1) and the cell above it are
      empty and a tile with road on its east side sits at (6, 0), a road
      corner joining north and west is valid at (6, 1). */
  lemma CornerJoinsWest(b: Board, p2: Pos, t2: TileString, p3: Pos, t3: TileString)
    requires p2 == Pos(6, 0) && t2.sides[1] == Road
    requires p3 == Pos(6, 1) && t3 == Tile([Road, NoTrack, NoTrack, Road], false)
    requires Grids.Get(b.grid, p3).None? && Grids.Get(b.grid, Pos(5, 1)).None? && Grids.Get(b.grid, p2) == Some(t2)
    ensures IsValid(b, p3, t3) == Ok(true)
  {
    NoExitOn(p3, 0);
    NoExitOn(p3, 3);
    assert Step(p3, 0) == Some(Pos(5, 1));
    assert Step(p3, 3) == Some(p2);
    assert NeighbourMatch(b, p3, t3, 3);
    forall r: Rotation
      ensures !ExitConflict(p3, t3, r) && !NeighbourConflict(b, p3, t3, r)
    {
    }
    IsValidIff(b, p3, t3);
  }

  /** A road corner joining north and west at the exit cell (6, 1) is valid
      through its road link to the west, although its south side leaves the
      road exit there unconnected. */
  lemma ExistingTileIgnoringExit(p1: Pos, t1: TileString, p2: Pos, t2: TileString, p3: Pos, t3: TileString)
    requires p1 == Pos(5, 0) && t1 == Tile([NoTrack, NoTrack, Road, Rail], false)
    requires p2 == Pos(6, 0) && t2 == Tile([Road, Road, NoTrack, NoTrack], false)
    requires p3 == Pos(6, 1) && t3 == Tile([Road, NoTrack, NoTrack, Road], false)
    ensures Set(NewBoard(), p1, t1).Ok?
    ensures Set(Set(NewBoard(), p1, t1).value, p2, t2).Ok?
    ensures IsValid(Set(Set(NewBoard(), p1, t1).value, p2, t2).value, p3, t3) == Ok(true)
  {
    BesideBottomCorner(p1, t1, p2, t2);
    CornerJoinsWest(Set(Set(NewBoard(), p1, t1).value, p2, t2).value, p2, t2, p3, t3);
  }
}

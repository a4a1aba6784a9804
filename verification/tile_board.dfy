/** An earlier board (src/logic/board.ts): placed tiles only, with placement
    validity computed directly from the exits and the neighbouring tiles. */
module TileBoard {
  import opened Wrappers
  import opened Types
  import opened Helpers
  import opened Grids
  import opened BoardExits
  import TileGrid

  datatype Board = Board(grid: Grid<TileString>)

  function NewBoard(): Board {
    Board(Empty())
  }

  /** The first exit from index `i` on at cell `p` on side `r`. */
  function FindExitFrom(p: Pos, r: Rotation, i: nat): Option<Exit>
    requires i <= |Exits|
    decreases |Exits| - i
  {
    if i == |Exits| then None
    else if Exits[i].y == p.y && Exits[i].x == p.x && Exits[i].r == r then Some(Exits[i])
    else FindExitFrom(p, r, i + 1)
  }

  /** The search returns an exit at `p` on side `r`, and finds none exactly
      when no exit from index `i` on sits there. */
  lemma {:induction false} FindExitFromSpec(p: Pos, r: Rotation, i: nat)
    requires i <= |Exits|
    decreases |Exits| - i
    ensures FindExitFrom(p, r, i).Some? ==>
      FindExitFrom(p, r, i).value in Exits && FindExitFrom(p, r, i).value.Position() == p && FindExitFrom(p, r, i).value.r == r
    ensures FindExitFrom(p, r, i).None? <==>
      forall k :: i <= k < |Exits| ==> !(Exits[k].Position() == p && Exits[k].r == r)
  {
    if i < |Exits| {
      FindExitFromSpec(p, r, i + 1);
    }
  }

  /** The exit at cell `p` on side `r`, if any. */
  function FindExit(p: Pos, r: Rotation): Option<Exit> {
    FindExitFrom(p, r, 0)
  }

  /** The track the neighbour across side `r` shows back towards `p`; no track
      when that neighbour is off the board or empty. */
  function Facing(b: Board, p: Pos, r: Rotation): Side {
    match Step(p, r)
    case None => NoTrack
    case Some(q) =>
      match Grids.Get(b.grid, q)
      case None => NoTrack
      case Some(t) => t.sides[FlipRotation(r)]
  }

  /** Side `r` of the tile carries track onto an exit of the other type. */
  predicate ExitConflict(p: Pos, tile: TileString, r: Rotation) {
    tile.sides[r] != NoTrack && FindExit(p, r).Some? && FindExit(p, r).value.t != tile.sides[r]
  }

  /** Side `r` of the tile carries track onto an exit of the same type. */
  predicate ExitMatch(p: Pos, tile: TileString, r: Rotation) {
    tile.sides[r] != NoTrack && FindExit(p, r).Some? && FindExit(p, r).value.t == tile.sides[r]
  }

  /** Side `r` of the tile meets track of the other type on the neighbour. */
  predicate NeighbourConflict(b: Board, p: Pos, tile: TileString, r: Rotation) {
    tile.sides[r] != NoTrack && Facing(b, p, r) != NoTrack && Facing(b, p, r) != tile.sides[r]
  }

  /** Side `r` of the tile meets track of the same type on the neighbour. */
  predicate NeighbourMatch(b: Board, p: Pos, tile: TileString, r: Rotation) {
    tile.sides[r] != NoTrack && Facing(b, p, r) == tile.sides[r]
  }

  /** One iteration of the validity loop, for side `r`: `None` when the side
      rejects the placement, otherwise the number of connections it matched. */
  function SideOutcome(b: Board, p: Pos, tile: TileString, r: Rotation): Option<nat> {
    if tile.sides[r] == NoTrack then Some(0)
    else
      var exit := FindExit(p, r);
      if exit.Some? && exit.value.t != tile.sides[r] then None
      else
        var m := if exit.Some? then 1 else 0;
        match Step(p, r)
        case None => Some(m)
        case Some(q) =>
          var adjacent := Grids.Get(b.grid, q);
          if adjacent.None? || adjacent.value.sides[FlipRotation(r)] == NoTrack then Some(m)
          else if adjacent.value.sides[FlipRotation(r)] == tile.sides[r] then Some(m + 1)
          else None
  }

  /** The outcome of every side; indexes past the last side count nothing. */
  function SideOutcomes(b: Board, p: Pos, tile: TileString): nat -> Option<nat> {
    (i: nat) => if i < 4 then SideOutcome(b, p, tile, i) else Some(0)
  }

  /** The loop over sides `r..3` of the validity check, given each side's
      outcome and the connections counted so far: a rejecting side ends it with
      false, and at the end at least one connection must have matched. */
  function ScanSides(outcome: nat -> Option<nat>, r: nat, matches: nat): bool
    requires r <= 4
    decreases 4 - r
  {
    if r == 4 then matches >= 1
    else
      match outcome(r)
      case None => false
      case Some(g) => ScanSides(outcome, r + 1, matches + g)
  }

  /** The scan accepts exactly when no remaining side rejects and a connection
      matched, before or at one of the remaining sides. */
  lemma {:induction false} ScanSidesIff(outcome: nat -> Option<nat>, r: nat, matches: nat)
    requires r <= 4
    decreases 4 - r
    ensures ScanSides(outcome, r, matches) <==>
      (forall i :: r <= i < 4 ==> outcome(i).Some?)
      && (matches >= 1 || exists i :: r <= i < 4 && outcome(i).Some? && outcome(i).value >= 1)
  {
    if r < 4 && outcome(r).Some? {
      ScanSidesIff(outcome, r + 1, matches + outcome(r).value);
    }
  }

  /** No side conflicts with an exit or a neighbour. */
  ghost predicate NoConflict(b: Board, p: Pos, tile: TileString) {
    forall r: Rotation :: !ExitConflict(p, tile, r) && !NeighbourConflict(b, p, tile, r)
  }

  /** Some side connects to an exit or a neighbour of its type. */
  ghost predicate SomeMatch(b: Board, p: Pos, tile: TileString) {
    exists r: Rotation :: ExitMatch(p, tile, r) || NeighbourMatch(b, p, tile, r)
  }

  /** The connections side `r` adds to the count: one for a matching exit and
      one for a matching neighbour. */
  function Gain(b: Board, p: Pos, tile: TileString, r: Rotation): nat {
    (if ExitMatch(p, tile, r) then 1 else 0) + (if NeighbourMatch(b, p, tile, r) then 1 else 0)
  }

  /** Side `r` rejects exactly on a conflict with an exit or a neighbour, and
      otherwise counts one connection for a matching exit and one for a
      matching neighbour. */
  lemma SideOutcomeSpec(b: Board, p: Pos, tile: TileString, r: Rotation)
    ensures SideOutcome(b, p, tile, r) ==
      if ExitConflict(p, tile, r) || NeighbourConflict(b, p, tile, r) then None else Some(Gain(b, p, tile, r))
  {
  }

  /** The scan over all four sides accepts exactly when no side conflicts and
      some side matches. */
  lemma ScanAllSidesIff(b: Board, p: Pos, tile: TileString)
    ensures ScanSides(SideOutcomes(b, p, tile), 0, 0) <==> NoConflict(b, p, tile) && SomeMatch(b, p, tile)
  {
    var f := SideOutcomes(b, p, tile);
    assert ScanSides(f, 0, 0) <==>
      (forall i :: 0 <= i < 4 ==> f(i).Some?) && (exists i :: 0 <= i < 4 && f(i).Some? && f(i).value >= 1)
    by {
      ScanSidesIff(f, 0, 0);
    }
    forall r: Rotation
      ensures f(r) == if ExitConflict(p, tile, r) || NeighbourConflict(b, p, tile, r) then None else Some(Gain(b, p, tile, r))
    {
      SideOutcomeSpec(b, p, tile, r);
    }
    if SomeMatch(b, p, tile) && NoConflict(b, p, tile) {
      var r: Rotation :| ExitMatch(p, tile, r) || NeighbourMatch(b, p, tile, r);
      assert f(r).Some? && f(r).value >= 1;
    }
    if exists i :: 0 <= i < 4 && f(i).Some? && f(i).value >= 1 {
      var i :| 0 <= i < 4 && f(i).Some? && f(i).value >= 1;
      var r: Rotation := i;
      assert ExitMatch(p, tile, r) || NeighbourMatch(b, p, tile, r);
    }
  }

  /** Whether `tile` may go at `p`: off-board coordinates throw, an occupied
      cell is invalid, and otherwise the side scan decides. */
  function IsValid(b: Board, p: Pos, tile: TileString): (res: Result<bool>)
    ensures res.Err? <==> !InBounds(p)
    ensures res.Err? ==> res.error == OutOfBounds
    ensures InBounds(p) && Grids.Get(b.grid, p).Some? ==> res == Ok(false)
  {
    if !InBounds(p) then Err(OutOfBounds)
    else if Grids.Get(b.grid, p).Some? then Ok(false)
    else Ok(ScanSides(SideOutcomes(b, p, tile), 0, 0))
  }

  /** A placement is valid exactly when the cell is on the board and empty, no
      track side meets an exit or a neighbouring track of the other type, and
      at least one track side meets an exit or a neighbouring track of its own
      type. */
  lemma IsValidIff(b: Board, p: Pos, tile: TileString)
    ensures IsValid(b, p, tile) == Ok(true) <==>
      InBounds(p) && Grids.Get(b.grid, p).None?
      && NoConflict(b, p, tile) && SomeMatch(b, p, tile)
  {
    ScanAllSidesIff(b, p, tile);
  }

  /** A tile none of whose track sides meets an exit or an occupied neighbour
      is rejected: it connects to nothing. */
  lemma IsolatedTileRejected(b: Board, p: Pos, tile: TileString)
    requires forall r: Rotation :: tile.sides[r] != NoTrack ==>
      FindExit(p, r).None? && (Step(p, r).Some? ==> Grids.Get(b.grid, Step(p, r).value).None?)
    ensures IsValid(b, p, tile) != Ok(true)
  {
    IsValidIff(b, p, tile);
  }

  /** Away from the exit cells, a tile with no occupied neighbour is rejected. */
  lemma NoExitNoNeighbourRejected(b: Board, p: Pos, tile: TileString)
    requires !IsExitCell(p)
    requires forall r: Rotation :: Step(p, r).Some? ==> Grids.Get(b.grid, Step(p, r).value).None?
    ensures IsValid(b, p, tile) != Ok(true)
  {
    forall r: Rotation
      ensures FindExit(p, r).None?
    {
      FindExitFromSpec(p, r, 0);
    }
    IsolatedTileRejected(b, p, tile);
  }

  /** A track side placed onto an exit of the other type makes the placement
      invalid, whatever the other sides connect to. */
  lemma ExitConflictRejected(b: Board, p: Pos, tile: TileString, r: Rotation)
    requires ExitConflict(p, tile, r)
    ensures IsValid(b, p, tile) != Ok(true)
  {
    IsValidIff(b, p, tile);
  }

  /** A track side meeting neighbouring track of the other type makes the
      placement invalid. */
  lemma NeighbourConflictRejected(b: Board, p: Pos, tile: TileString, r: Rotation)
    requires NeighbourConflict(b, p, tile, r)
    ensures IsValid(b, p, tile) != Ok(true)
  {
    IsValidIff(b, p, tile);
  }

  /** The number of track sides facing an on-board cell without track on the
      facing side. */
  function CountErrors(b: Board): (n: nat)
    ensures n <= 4 * |Entries(b.grid)|
  {
    TileGrid.CountErrors(b.grid)
  }

  /** Places a tile in a copy of the grid: off-board coordinates and invalid
      placements throw. */
  function Set(b: Board, p: Pos, tile: TileString): (res: Result<Board>)
    ensures res.Ok? <==> IsValid(b, p, tile) == Ok(true)
    ensures res.Err? ==> res.error == if InBounds(p) then InvalidPlacement else OutOfBounds
    ensures res.Ok? ==> Grids.Get(res.value.grid, p) == Some(tile)
    ensures res.Ok? ==> forall q :: InBounds(q) && q != p ==> Grids.Get(res.value.grid, q) == Grids.Get(b.grid, q)
  {
    if !InBounds(p) then Err(OutOfBounds)
    else if IsValid(b, p, tile) != Ok(true) then Err(InvalidPlacement)
    else
      forall q | InBounds(q) && q != p
        ensures Index(q) != Index(p)
      {
        IndexInjective(p, q);
      }
      Ok(Board(Grids.Set(Clone(b.grid), p, tile)))
  }

  /** After a placement the cell is occupied, so placing there again is invalid. */
  lemma SetThenOccupied(b: Board, p: Pos, tile: TileString, tile2: TileString)
    requires Set(b, p, tile).Ok?
    ensures IsValid(Set(b, p, tile).value, p, tile2) == Ok(false)
  {
  }

  /** The neighbours connected to the tile at `p` along track of type `t`:
      off-board coordinates and an empty cell throw. Otherwise the result
      holds, for every side of the tile with track (of type `t` on an
      overpass) whose neighbour shows the same track on the facing side, that
      neighbour with the track type; and nothing else. */
  function GetConnectedTiles(b: Board, p: Pos, t: TrackType): (res: Result<seq<TrackPos>>)
    ensures res.Err? <==> !InBounds(p) || Grids.Get(b.grid, p).None?
    ensures res.Err? ==> res.error == if InBounds(p) then NoTileAtCoordinates else OutOfBounds
    ensures res.Ok? ==> |res.value| <= 4
    ensures res.Ok? ==> forall e :: e in res.value ==>
      && InBounds(e.p) && Grids.Get(b.grid, e.p).Some? && e.t != NoTrack
      && (exists r :: 0 <= r < 4 && Adjacent(p, r, e.p)
                      && Grids.Get(b.grid, p).value.sides[r] == e.t
                      && Grids.Get(b.grid, e.p).value.sides[FlipRotation(r)] == e.t)
      && (Grids.Get(b.grid, p).value.overpass ==> e.t == t)
    ensures res.Ok? ==> forall r: Rotation ::
      TileGrid.IsConnectedSide(b.grid, TrackPos(p, t), None, Grids.Get(b.grid, p).value, r) ==>
        TrackPos(Step(p, r).value, Grids.Get(b.grid, p).value.sides[r]) in res.value
  {
    if !InBounds(p) then Err(OutOfBounds)
    else
      var res := TileGrid.ConnectedTiles(b.grid, TrackPos(p, t), None);
      forall e | res.Ok? && e in res.value
        ensures InBounds(e.p) && Grids.Get(b.grid, e.p).Some? && e.t != NoTrack
        ensures exists r :: 0 <= r < 4 && Adjacent(p, r, e.p)
                            && Grids.Get(b.grid, p).value.sides[r] == e.t
                            && Grids.Get(b.grid, e.p).value.sides[FlipRotation(r)] == e.t
        ensures Grids.Get(b.grid, p).value.overpass ==> e.t == t
      {
        TileGrid.ConnectedTilesSound(b.grid, TrackPos(p, t), None, e);
      }
      res
  }

  /** The east exit of row 3 is the fifth exit the search meets. */
  lemma EastExitRow3(p: Pos)
    requires p == Pos(3, 6)
    ensures FindExit(p, 1) == Some(Exit(3, 6, 1, Road))
  {
    assert FindExitFrom(p, 1, 4) == Some(Exit(3, 6, 1, Road));
    assert FindExitFrom(p, 1, 3) == FindExitFrom(p, 1, 4);
    assert FindExitFrom(p, 1, 2) == FindExitFrom(p, 1, 3);
    assert FindExitFrom(p, 1, 1) == FindExitFrom(p, 1, 2);
    assert FindExitFrom(p, 1, 0) == FindExitFrom(p, 1, 1);
  }

  /** A straight road across the east exit at row 3 connects to it. */
  lemma ExitConnection(p: Pos, tile: TileString)
    requires p == Pos(3, 6) && tile == Tile([NoTrack, Road, NoTrack, Road], false)
    ensures IsValid(NewBoard(), p, tile) == Ok(true)
  {
    EastExitRow3(p);
    assert tile.sides[1] == Road && tile.sides[3] == Road;
    var outcome := SideOutcomes(NewBoard(), p, tile);
    assert outcome(0) == Some(0) && outcome(2) == Some(0);
    assert Step(p, 1).None?;
    assert FindExit(p, 1).value.t == tile.sides[1];
    assert SideOutcome(NewBoard(), p, tile, 1) == Some(1);
    assert outcome(1) == Some(1);
    FindExitFromSpec(p, 3, 0);
    assert FindExit(p, 3).None?;
    assert Step(p, 3) == Some(Pos(3, 5));
    assert Grids.Get(NewBoard().grid, Pos(3, 5)).None?;
    assert outcome(3) == Some(0);
    assert ScanSides(outcome, 4, 1);
    assert ScanSides(outcome, 2, 1) == ScanSides(outcome, 3, 1) == ScanSides(outcome, 4, 1);
    assert ScanSides(outcome, 0, 0) == ScanSides(outcome, 1, 0) == ScanSides(outcome, 2, 1);
  }

  /** A straight rail there meets the road exit with the other track type. */
  lemma ExitConnectionWrongType(p: Pos, tile: TileString)
    requires p == Pos(3, 6) && tile == Tile([NoTrack, Rail, NoTrack, Rail], false)
    ensures IsValid(NewBoard(), p, tile) == Ok(false)
  {
    EastExitRow3(p);
    assert tile.sides[0] == NoTrack && tile.sides[1] == Rail;
    var outcome := SideOutcomes(NewBoard(), p, tile);
    assert outcome(0) == Some(0);
    assert outcome(1) == None;
    assert !ScanSides(outcome, 1, 0);
  }

  /** A road turned north-south there touches neither the exit nor a tile. */
  lemma ExitConnectionWrongRotation(p: Pos, tile: TileString)
    requires p == Pos(3, 6) && tile == Tile([Road, NoTrack, Road, NoTrack], false)
    ensures IsValid(NewBoard(), p, tile) == Ok(false)
  {
    assert FindExit(p, 0).None? && FindExit(p, 2).None?;
    IsolatedTileRejected(NewBoard(), p, tile);
  }

  /** A road in the middle of an empty board connects to nothing. */
  lemma NotConnectedToAnything(p: Pos, tile: TileString)
    requires p == Pos(3, 3)
    ensures IsValid(NewBoard(), p, tile) == Ok(false)
  {
    ExitsOnBoundary();
    NoExitNoNeighbourRejected(NewBoard(), p, tile);
  }
}

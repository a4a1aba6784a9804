/** The current board (src/logic/Board.ts): placed tiles plus an open slot for
    each empty cell that some placed tile or exit constrains. */
module SlotBoard {
  import opened Wrappers
  import opened Types
  import opened Helpers
  import opened Grids
  import opened BoardExits
  import TileGrid

  datatype Board = Board(tiles: Grid<TileString>, openSlots: Grid<OpenSlot>)

  /** The slot used for a cell that has none yet: no constraint on any side. */
  const NoSlot: OpenSlot := [NoTrack, NoTrack, NoTrack, NoTrack]

  const D := Road
  const L := Rail
  const N := NoTrack

  /** The open slots of a fresh board: one per exit, demanding the exit's track
      type on the exit's side. */
  const ExitSlotList: seq<(Pos, OpenSlot)> := [
    (Pos(0, 1), [D, N, N, N]), (Pos(0, 3), [L, N, N, N]), (Pos(0, 5), [D, N, N, N]),
    (Pos(1, 6), [N, L, N, N]), (Pos(3, 6), [N, D, N, N]), (Pos(5, 6), [N, L, N, N]),
    (Pos(6, 5), [N, N, D, N]), (Pos(6, 3), [N, N, L, N]), (Pos(6, 1), [N, N, D, N]),
    (Pos(5, 0), [N, N, N, L]), (Pos(3, 0), [N, N, N, D]), (Pos(1, 0), [N, N, N, L])
  ]

  const ExitSlots: Grid<OpenSlot> := FromList(ExitSlotList)

  /** A board with no tiles whose open slots are the exit slots. */
  function NewBoard(): Board {
    Board(Empty(), ExitSlots)
  }

  function Get(b: Board, p: Pos): Option<TileString> {
    Grids.Get(b.tiles, p)
  }

  /** The exit slots are exactly the exits: each exit cell's slot demands the
      exit's track type on the exit's side and nothing else, and no other cell
      has a slot. */
  lemma ExitSlotsMatchExits(p: Pos)
    requires InBounds(p)
    ensures forall i :: 0 <= i < |Exits| && Exits[i].Position() == p ==>
      Grids.Get(ExitSlots, p) == Some(UpdateSlot(Exits[i].r, Exits[i].t, NoSlot))
    ensures !IsExitCell(p) ==> Grids.Get(ExitSlots, p) == None
  {
    ExitsOnBoundary();
    assert |ExitSlotList| == 12;
    forall i | 0 <= i < 12
      ensures ExitSlotList[i] == (Exits[i].Position(), UpdateSlot(Exits[i].r, Exits[i].t, NoSlot))
    {
      var u := UpdateSlot(Exits[i].r, Exits[i].t, NoSlot);
      assert u[0] == ExitSlotList[i].1[0] && u[1] == ExitSlotList[i].1[1];
      assert u[2] == ExitSlotList[i].1[2] && u[3] == ExitSlotList[i].1[3];
      assert u == ExitSlotList[i].1;
      assert Exits[i].Position() == ExitSlotList[i].0;
    }
    forall i | 0 <= i < |Exits| && Exits[i].Position() == p
      ensures Grids.Get(ExitSlots, p) == Some(UpdateSlot(Exits[i].r, Exits[i].t, NoSlot))
    {
      forall k | i < k < 12
        ensures Index(ExitSlotList[k].0) != Index(p)
      {
        IndexInjective(Exits[k].Position(), p);
      }
      FromListLastWins(ExitSlotList, i, p);
    }
    if !IsExitCell(p) {
      forall k | 0 <= k < 12
        ensures Index(ExitSlotList[k].0) != Index(p)
      {
        IndexInjective(Exits[k].Position(), p);
      }
      FromListUntouched(ExitSlotList, p);
    }
  }

  /** The number of track sides facing an on-board cell that is empty or has no
      track on the facing side. */
  function CountErrors(b: Board): nat {
    TileGrid.CountErrors(b.tiles)
  }

  /** A tile may go at `p` when `p` has an open slot and the tile fits it. */
  function IsValid(b: Board, p: Pos, tile: TileString): (v: bool)
    ensures v ==> Grids.Get(b.openSlots, p).Some?
  {
    match Grids.Get(b.openSlots, p)
    case None => false
    case Some(slot) => TileFitsInSlot(tile, slot)
  }

  /** On a fresh board only the twelve exit cells accept a tile. */
  lemma NewBoardValidOnlyAtExits(p: Pos, tile: TileString)
    requires InBounds(p) && IsValid(NewBoard(), p, tile)
    ensures IsExitCell(p)
  {
    ExitSlotsMatchExits(p);
  }

  function AnyValid(b: Board, p: Pos, ts: seq<TileString>): (v: bool)
    ensures v <==> exists k :: 0 <= k < |ts| && IsValid(b, p, ts[k])
  {
    if |ts| == 0 then false
    else if IsValid(b, p, ts[0]) then true
    else
      var v := AnyValid(b, p, ts[1..]);
      assert forall k :: 1 <= k < |ts| ==> ts[k] == ts[1..][k - 1];
      v
  }

  /** True when some transform of the tile may go at `p`. */
  function IsValidWithTransform(b: Board, p: Pos, tile: TileString): (v: bool)
    ensures v <==> exists k :: 0 <= k < 8 && IsValid(b, p, AllTransformedTiles(tile)[k])
  {
    AnyValid(b, p, AllTransformedTiles(tile))
  }

  /** Collects the valid tiles of `ts` not already in `acc`, in order. */
  function CollectValid(b: Board, p: Pos, ts: seq<TileString>, acc: seq<TileString>): (res: seq<TileString>)
    requires forall i, j :: 0 <= i < j < |acc| ==> acc[i] != acc[j]
    ensures acc <= res
    ensures forall i, j :: 0 <= i < j < |res| ==> res[i] != res[j]
    ensures forall u :: u in res ==> u in acc || (u in ts && IsValid(b, p, u))
    ensures forall u :: u in ts && IsValid(b, p, u) ==> u in res
    decreases |ts|
  {
    if |ts| == 0 then acc
    else if IsValid(b, p, ts[0]) && ts[0] !in acc then
      var res := CollectValid(b, p, ts[1..], acc + [ts[0]]);
      assert ts[0] in acc + [ts[0]];
      res
    else CollectValid(b, p, ts[1..], acc)
  }

  /** The valid transforms of the tile at `p`, each once, in transform order. */
  function GetAllValidTransformedTiles(b: Board, p: Pos, tile: TileString): (res: seq<TileString>)
    ensures forall i, j :: 0 <= i < j < |res| ==> res[i] != res[j]
    ensures forall u :: u in res <==> u in AllTransformedTiles(tile) && IsValid(b, p, u)
  {
    CollectValid(b, p, AllTransformedTiles(tile), [])
  }

  /** Some transform is valid exactly when the list of valid transforms is not empty. */
  lemma ValidWithTransformIffSomeValid(b: Board, p: Pos, tile: TileString)
    ensures IsValidWithTransform(b, p, tile) <==> |GetAllValidTransformedTiles(b, p, tile)| > 0
  {
    var res := GetAllValidTransformedTiles(b, p, tile);
    if IsValidWithTransform(b, p, tile) {
      var k :| 0 <= k < 8 && IsValid(b, p, AllTransformedTiles(tile)[k]);
      assert AllTransformedTiles(tile)[k] in res;
    }
    if |res| > 0 {
      assert res[0] in res;
    }
  }

  function GetConnectedTiles(b: Board, tp: TrackPos, only: Option<TrackType>): Result<seq<TrackPos>> {
    TileGrid.ConnectedTiles(b.tiles, tp, only)
  }

  /** Side `r` of a tile placed at `p` constrains the neighbour there: the
      neighbour is on the board and still empty, and the side carries track. */
  predicate Feeds(b: Board, p: Pos, tile: TileString, r: Rotation) {
    Step(p, r).Some? && Get(b, Step(p, r).value).None? && tile.sides[r] != NoTrack
  }

  /** The neighbour's slot after the placement: its facing side set to the track type. */
  function FedSlot(slots: Grid<OpenSlot>, p: Pos, tile: TileString, r: Rotation): OpenSlot
    requires Step(p, r).Some? && tile.sides[r] != NoTrack
  {
    UpdateSlot(FlipRotation(r), tile.sides[r], Grids.Get(slots, Step(p, r).value).GetOr(NoSlot))
  }

  /** Updates the slots of the neighbours across sides `r..3`. */
  function UpdateNeighbours(b: Board, p: Pos, tile: TileString, slots: Grid<OpenSlot>, r: nat): (res: Grid<OpenSlot>)
    requires r <= 4
    decreases 4 - r
    ensures forall i :: r <= i < 4 && Feeds(b, p, tile, i) ==>
      Grids.Get(res, Step(p, i).value) == Some(FedSlot(slots, p, tile, i))
    ensures forall q :: InBounds(q) && (forall i :: r <= i < 4 && Feeds(b, p, tile, i) ==> Step(p, i).value != q) ==>
      Grids.Get(res, q) == Grids.Get(slots, q)
  {
    if r == 4 then slots
    else
      StepSound(p, r);
      var slots' := if Feeds(b, p, tile, r) then Grids.Set(slots, Step(p, r).value, FedSlot(slots, p, tile, r)) else slots;
      forall i | r < i < 4 && Feeds(b, p, tile, i) && Feeds(b, p, tile, r)
        ensures Step(p, i).value != Step(p, r).value
      {
        StepInjective(p, r, i);
      }
      forall q | InBounds(q) && Feeds(b, p, tile, r) && q != Step(p, r).value
        ensures Grids.Get(slots', q) == Grids.Get(slots, q)
      {
        IndexInjective(q, Step(p, r).value);
      }
      UpdateNeighbours(b, p, tile, slots', r + 1)
  }

  /** Places a tile: fails when the placement is invalid; otherwise the tile
      occupies `p`, `p` loses its slot, and each empty on-board neighbour facing
      a track side gets that track type on its facing slot side. */
  function Set(b: Board, p: Pos, tile: TileString): (res: Result<Board>)
    ensures res.Ok? <==> IsValid(b, p, tile)
    ensures res.Ok? ==> Get(res.value, p) == Some(tile)
    ensures res.Ok? ==> forall q :: Index(q) != Index(p) ==> Get(res.value, q) == Get(b, q)
    ensures res.Ok? && InBounds(p) ==> Grids.Get(res.value.openSlots, p) == None
    ensures res.Ok? && InBounds(p) ==> forall r :: 0 <= r < 4 && Feeds(b, p, tile, r) ==>
      Grids.Get(res.value.openSlots, Step(p, r).value) == Some(FedSlot(b.openSlots, p, tile, r))
    ensures res.Ok? && InBounds(p) ==> forall q :: InBounds(q) && q != p && (forall r :: 0 <= r < 4 && Feeds(b, p, tile, r) ==> Step(p, r).value != q) ==>
      Grids.Get(res.value.openSlots, q) == Grids.Get(b.openSlots, q)
  {
    if !IsValid(b, p, tile) then Err(InvalidPlacement)
    else
      var tiles := Grids.Set(Clone(b.tiles), p, tile);
      var cleared := Grids.Delete(Clone(b.openSlots), p);
      var openSlots := UpdateNeighbours(b, p, tile, cleared, 0);
      if InBounds(p) then
        forall r | 0 <= r < 4 && Feeds(b, p, tile, r)
          ensures FedSlot(cleared, p, tile, r) == FedSlot(b.openSlots, p, tile, r)
          ensures Step(p, r).value != p
        {
          IndexInjective(p, Step(p, r).value);
        }
        forall q | InBounds(q) && q != p
          ensures Grids.Get(cleared, q) == Grids.Get(b.openSlots, q)
        {
          IndexInjective(p, q);
        }
        Ok(Board(tiles, openSlots))
      else
        Ok(Board(tiles, openSlots))
  }

  /** Once a tile is placed at an on-board cell, nothing more may be placed there. */
  lemma SetThenOccupied(b: Board, p: Pos, tile: TileString, tile2: TileString)
    requires InBounds(p) && Set(b, p, tile).Ok?
    ensures !IsValid(Set(b, p, tile).value, p, tile2)
  {
  }

  /** Some side from `r` on feeds an empty neighbour. */
  function FeedsFrom(b: Board, p: Pos, tile: TileString, r: nat): (v: bool)
    requires r <= 4
    decreases 4 - r
    ensures v <==> exists i :: r <= i < 4 && Feeds(b, p, tile, i)
  {
    if r == 4 then false else Feeds(b, p, tile, r) || FeedsFrom(b, p, tile, r + 1)
  }

  /** `set` as the source writes it: the neighbour update passes no slot to
      `updateSlot`, whose `substring` on the missing slot throws as soon as a
      side feeds an empty neighbour. So a valid placement succeeds only when
      every track side faces the edge or a placed tile. */
  function SetAsWritten(b: Board, p: Pos, tile: TileString): (res: Result<Board>)
    ensures res == Err(SlotUndefined) <==> IsValid(b, p, tile) && exists r :: 0 <= r < 4 && Feeds(b, p, tile, r)
    ensures res == Err(InvalidPlacement) <==> !IsValid(b, p, tile)
    ensures res.Ok? ==> res == Set(b, p, tile)
  {
    if !IsValid(b, p, tile) then Err(InvalidPlacement)
    else if FeedsFrom(b, p, tile, 0) then Err(SlotUndefined)
    else Set(b, p, tile)
  }

  /** The road corner joining east and south at the east exit of row 3 is valid
      on a new board, and its south side feeds the empty cell below. */
  lemma CornerAtEastExit(p: Pos, tile: TileString)
    requires p == Pos(3, 6) && tile == Tile([NoTrack, Road, Road, NoTrack], false)
    ensures IsValid(NewBoard(), p, tile)
    ensures Feeds(NewBoard(), p, tile, 2) && Step(p, 2) == Some(Pos(4, 6))
  {
    ExitSlotsMatchExits(p);
    ExitsOnBoundary();
    assert Exits[4].Position() == p;
    var slot := Grids.Get(ExitSlots, p).value;
    assert slot == [NoTrack, Road, NoTrack, NoTrack];
    assert Constrained(tile, slot, 1) && tile.sides[1] == slot[1];
  }

  /** As written, the first placement of the "existing tile connection" case
      of the board's tests throws: the corner's road faces the empty cell
      (4, 6), whose missing slot reaches `substring`. */
  lemma AsWrittenSetThrows(p: Pos, tile: TileString)
    requires p == Pos(3, 6) && tile == Tile([NoTrack, Road, Road, NoTrack], false)
    ensures SetAsWritten(NewBoard(), p, tile) == Err(SlotUndefined)
    ensures Set(NewBoard(), p, tile).Ok?
  {
    CornerAtEastExit(p, tile);
  }

  /** On any board where the corner is valid at (3, 6) and the cell (4, 6)
      below it is empty and has no slot yet, placing the corner feeds (4, 6)
      a road on its north slot side, so the road corner joining north and
      west fits there. */
  lemma FedCornerFits(b: Board, p: Pos, tile: TileString, q: Pos, tile2: TileString)
    requires p == Pos(3, 6) && tile == Tile([NoTrack, Road, Road, NoTrack], false)
    requires q == Pos(4, 6) && tile2 == Tile([Road, NoTrack, NoTrack, Road], false)
    requires IsValid(b, p, tile) && Get(b, q).None? && Grids.Get(b.openSlots, q).None?
    ensures Set(b, p, tile).Ok?
    ensures IsValid(Set(b, p, tile).value, q, tile2)
  {
    assert Step(p, 2) == Some(q);
    assert Feeds(b, p, tile, 2);
    var fed := FedSlot(b.openSlots, p, tile, 2);
    assert fed == UpdateSlot(0, Road, NoSlot);
    assert fed == [Road, NoTrack, NoTrack, NoTrack];
    var slot := Grids.Get(Set(b, p, tile).value.openSlots, q).value;
    assert slot == fed;
    assert Constrained(tile2, slot, 0) && tile2.sides[0] == slot[0];
  }

  /** With the neighbour's slot updated as intended, the "existing tile
      connection" case of the board's tests holds: after the corner at the east
      exit of row 3, the road corner joining north and west is valid below it. */
  lemma ExistingTileConnection(p: Pos, tile: TileString, q: Pos, tile2: TileString)
    requires p == Pos(3, 6) && tile == Tile([NoTrack, Road, Road, NoTrack], false)
    requires q == Pos(4, 6) && tile2 == Tile([Road, NoTrack, NoTrack, Road], false)
    ensures Set(NewBoard(), p, tile).Ok?
    ensures IsValid(Set(NewBoard(), p, tile).value, q, tile2)
  {
    CornerAtEastExit(p, tile);
    ExitSlotsMatchExits(q);
    ExitsOnBoundary();
    assert !IsExitCell(q);
    FedCornerFits(NewBoard(), p, tile, q, tile2);
  }

  /** The open positions: every on-board cell with a slot, in row-major order. */
  function OpenPositions(b: Board): (ps: seq<Pos>)
    ensures forall q :: q in ps <==> InBounds(q) && Grids.Get(b.openSlots, q).Some?
  {
    forall q ensures q in Keys(b.openSlots) <==> InBounds(q) && Grids.Get(b.openSlots, q).Some? {
      KeysExactlyDefined(b.openSlots, q);
    }
    Keys(b.openSlots)
  }
}

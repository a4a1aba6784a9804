/** Queries over a grid of placed tiles that several board revisions share:
    the bounds-checked read (src/logic/board.ts:40-43, src/board.ts:41-44), the error count (src/logic/Board.ts:73-88, src/logic/board.ts:54-67) and the
    connected neighbours (src/logic/Board.ts:109-135, src/logic/board.ts:97-115). */
module TileGrid {
  import opened Wrappers
  import opened Types
  import opened Helpers
  import opened Grids

  /** Reads a cell; coordinates off the board throw. */
  function CheckedGet(tiles: Grid<TileString>, p: Pos): (res: Result<Option<TileString>>)
    ensures res.Err? <==> !InBounds(p)
    ensures res.Err? ==> res.error == OutOfBounds
    ensures res.Ok? ==> res.value == Get(tiles, p)
  {
    if !InBounds(p) then Err(OutOfBounds) else Ok(Get(tiles, p))
  }

  /** Side `r` of `tile` at `p` is an error: it carries track and faces an
      on-board cell that is empty or shows no track on the facing side. */
  predicate IsErrorSide(tiles: Grid<TileString>, p: Pos, tile: TileString, r: Rotation) {
    && tile.sides[r] != NoTrack
    && Step(p, r).Some?
    && (Get(tiles, Step(p, r).value).None? || Get(tiles, Step(p, r).value).value.sides[FlipRotation(r)] == NoTrack)
  }

  /** The error sides among sides `r..3`. */
  function ErrorSides(tiles: Grid<TileString>, p: Pos, tile: TileString, r: nat): set<Rotation> {
    set i: Rotation | r <= i && IsErrorSide(tiles, p, tile, i)
  }

  /** Counts the error sides among sides `r..3`. */
  function ErrorsFrom(tiles: Grid<TileString>, p: Pos, tile: TileString, r: nat): nat
    requires r <= 4
    decreases 4 - r
  {
    if r == 4 then 0
    else (if IsErrorSide(tiles, p, tile, r) then 1 else 0) + ErrorsFrom(tiles, p, tile, r + 1)
  }

  /** The count is the number of error sides. */
  lemma {:induction false} ErrorsFromIsSize(tiles: Grid<TileString>, p: Pos, tile: TileString, r: nat)
    requires r <= 4
    decreases 4 - r
    ensures ErrorsFrom(tiles, p, tile, r) == |ErrorSides(tiles, p, tile, r)|
  {
    if r == 4 {
      assert ErrorSides(tiles, p, tile, r) == {};
    } else {
      ErrorsFromIsSize(tiles, p, tile, r + 1);
      if IsErrorSide(tiles, p, tile, r) {
        assert ErrorSides(tiles, p, tile, r) == ErrorSides(tiles, p, tile, r + 1) + {r};
      } else {
        assert ErrorSides(tiles, p, tile, r) == ErrorSides(tiles, p, tile, r + 1);
      }
    }
  }

  /** The number of error sides of the tile at `p`: its track sides that face
      an on-board cell which is empty or shows no track back. */
  function ErrorsAt(tiles: Grid<TileString>, p: Pos, tile: TileString): (n: nat)
    ensures n == |ErrorSides(tiles, p, tile, 0)|
    ensures n <= 4
  {
    var s := ErrorSides(tiles, p, tile, 0);
    assert s <= {0, 1, 2, 3};
    SubsetCard(s, {0, 1, 2, 3});
    ErrorsFromIsSize(tiles, p, tile, 0);
    ErrorsFrom(tiles, p, tile, 0)
  }

  lemma SubsetCard(a: set<Rotation>, b: set<Rotation>)
    requires a <= b
    ensures |a| <= |b|
  {
    assert b == a + (b - a);
  }

  /** Sums the error sides of a list of placed tiles. */
  function SumErrors(tiles: Grid<TileString>, es: seq<(Pos, TileString)>): (n: nat)
    ensures n <= 4 * |es|
  {
    if |es| == 0 then 0 else ErrorsAt(tiles, es[0].0, es[0].1) + SumErrors(tiles, es[1..])
  }

  /** The total number of error sides over all placed tiles. */
  function CountErrors(tiles: Grid<TileString>): (n: nat)
    ensures n <= 4 * |Entries(tiles)|
  {
    SumErrors(tiles, Entries(tiles))
  }

  /** A grid with no tiles has no errors. */
  lemma CountErrorsEmpty()
    ensures CountErrors(Empty<TileString>()) == 0
  {
    Grids.EntriesEmpty<TileString>(0);
  }

  /** Side `r` of `tile` leads to a connected tile: it carries track (of type
      `only` when given; of the followed type `tp.t` on an overpass), and the
      on-board neighbour across it is occupied with the same track facing back. */
  predicate IsConnectedSide(tiles: Grid<TileString>, tp: TrackPos, only: Option<TrackType>, tile: TileString, r: Rotation) {
    var newT := tile.sides[r];
    && newT != NoTrack
    && (only.None? || newT == only.value)
    && (!tile.overpass || newT == tp.t)
    && Step(tp.p, r).Some?
    && Get(tiles, Step(tp.p, r).value).Some?
    && Get(tiles, Step(tp.p, r).value).value.sides[FlipRotation(r)] == newT
  }

  /** The connected neighbour across side `r`, with the track type followed into it. */
  function Neighbour(tp: TrackPos, tile: TileString, r: Rotation): TrackPos
    requires Step(tp.p, r).Some? && tile.sides[r] != NoTrack
  {
    TrackPos(Step(tp.p, r).value, tile.sides[r])
  }

  function ConnectedFrom(tiles: Grid<TileString>, tp: TrackPos, only: Option<TrackType>, tile: TileString, r: nat): (res: seq<TrackPos>)
    requires r <= 4
    decreases 4 - r
    ensures |res| <= 4 - r
    ensures forall e :: e in res ==> exists i :: r <= i < 4 && IsConnectedSide(tiles, tp, only, tile, i) && e == Neighbour(tp, tile, i)
    ensures forall i :: r <= i < 4 && IsConnectedSide(tiles, tp, only, tile, i) ==> Neighbour(tp, tile, i) in res
  {
    if r == 4 then []
    else
      var rest := ConnectedFrom(tiles, tp, only, tile, r + 1);
      if IsConnectedSide(tiles, tp, only, tile, r) then [Neighbour(tp, tile, r)] + rest else rest
  }

  /** The occupied neighbours reachable from the tile at `tp.p`; fails when that
      cell is empty. */
  function ConnectedTiles(tiles: Grid<TileString>, tp: TrackPos, only: Option<TrackType>): (res: Result<seq<TrackPos>>)
    ensures res.Err? <==> Get(tiles, tp.p).None?
    ensures res.Ok? ==> |res.value| <= 4
    ensures res.Ok? ==> forall e :: e in res.value ==>
      exists i :: 0 <= i < 4 && IsConnectedSide(tiles, tp, only, Get(tiles, tp.p).value, i) && e == Neighbour(tp, Get(tiles, tp.p).value, i)
    ensures res.Ok? ==> forall i :: 0 <= i < 4 && IsConnectedSide(tiles, tp, only, Get(tiles, tp.p).value, i) ==>
      Neighbour(tp, Get(tiles, tp.p).value, i) in res.value
  {
    match Get(tiles, tp.p)
    case None => Err(NoTileAtCoordinates)
    case Some(tile) => Ok(ConnectedFrom(tiles, tp, only, tile, 0))
  }

  /** Every connected tile is an occupied on-board neighbour whose facing side
      carries the followed track; on an overpass only the arriving track type is
      followed, and `only` restricts the type when given. */
  lemma ConnectedTilesSound(tiles: Grid<TileString>, tp: TrackPos, only: Option<TrackType>, e: TrackPos)
    requires ConnectedTiles(tiles, tp, only).Ok? && e in ConnectedTiles(tiles, tp, only).value
    ensures InBounds(e.p) && Get(tiles, e.p).Some?
    ensures exists r :: 0 <= r < 4 && Adjacent(tp.p, r, e.p) && Get(tiles, e.p).value.sides[FlipRotation(r)] == e.t
                        && Get(tiles, tp.p).value.sides[r] == e.t
    ensures Get(tiles, tp.p).value.overpass ==> e.t == tp.t
    ensures only.Some? ==> e.t == only.value
  {
    var tile := Get(tiles, tp.p).value;
    var i :| 0 <= i < 4 && IsConnectedSide(tiles, tp, only, tile, i) && e == Neighbour(tp, tile, i);
    assert Adjacent(tp.p, i, e.p);
  }
}

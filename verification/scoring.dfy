/** End-of-game scoring (src/logic/calculateScore.ts) over the tile board of
    src/logic/board.ts: exit groups through a fixed table, the longest road and
    rail routes, the centre squares and the error penalty. */
module Scoring {
  import opened Wrappers
  import opened Types
  import opened Helpers
  import opened Grids
  import opened BoardExits
  import opened Seqs
  import TileGrid
  import TileBoard

  /** The five parts of a score. */
  datatype Score = Score(exits: int, road: int, rail: int, center: int, errors: int)

  // ----- Error penalty -----

  /** Minus the number of error sides; integers have no negative zero, so an
      error-free board scores 0. */
  function ErrorsScore(b: TileBoard.Board): (s: int)
    ensures -4 * |Entries(b.grid)| <= s <= 0
  {
    -(TileBoard.CountErrors(b) as int)
  }

  // ----- Centre squares -----

  /** The `k`-th of the nine centre squares, in the order the nested loops
      over rows and columns 2..4 visit them. */
  function CenterCell(k: nat): (q: Pos)
    requires k < 9
    ensures IsCenterSquare(q)
  {
    Pos(2 + k / 3, 2 + k % 3)
  }

  /** The centre cells visited from step `k` on are distinct from the one at
      step `k`, and every centre square is visited. */
  lemma CenterCellsEnumerate(q: Pos)
    requires IsCenterSquare(q)
    ensures CenterCell(3 * (q.y - 2) + (q.x - 2)) == q
  {
  }

  /** The occupied centre squares among steps `k..8`. */
  function OccupiedCenterFrom(g: Grid<TileString>, k: nat): set<Pos>
    requires k <= 9
  {
    set j | k <= j < 9 && Grids.Get(g, CenterCell(j)).Some? :: CenterCell(j)
  }

  /** Counts the occupied centre squares among steps `k..8`. */
  function CenterFrom(g: Grid<TileString>, k: nat): nat
    requires k <= 9
    decreases 9 - k
  {
    if k == 9 then 0 else (if Grids.Get(g, CenterCell(k)).Some? then 1 else 0) + CenterFrom(g, k + 1)
  }

  /** The count is the number of distinct occupied centre squares. */
  lemma {:induction false} CenterFromIsSize(g: Grid<TileString>, k: nat)
    requires k <= 9
    decreases 9 - k
    ensures CenterFrom(g, k) == |OccupiedCenterFrom(g, k)|
  {
    if k == 9 {
      assert OccupiedCenterFrom(g, k) == {};
    } else {
      CenterFromIsSize(g, k + 1);
      var rest := OccupiedCenterFrom(g, k + 1);
      assert CenterCell(k) !in rest;
      if Grids.Get(g, CenterCell(k)).Some? {
        assert OccupiedCenterFrom(g, k) == rest + {CenterCell(k)};
      } else {
        assert OccupiedCenterFrom(g, k) == rest;
      }
    }
  }

  /** The occupied cells among the nine centre squares. */
  function OccupiedCenter(g: Grid<TileString>): set<Pos> {
    set y, x | 2 <= y <= 4 && 2 <= x <= 4 && Grids.Get(g, Pos(y, x)).Some? :: Pos(y, x)
  }

  /** One point per occupied centre square (rows and columns 2..4). */
  function CenterScore(b: TileBoard.Board): (s: nat)
    ensures s <= 9
  {
    CenterFrom(b.grid, 0)
  }

  /** The centre score is the number of occupied centre squares. */
  lemma CenterScoreCounts(b: TileBoard.Board)
    ensures CenterScore(b) == |OccupiedCenter(b.grid)|
  {
    CenterFromIsSize(b.grid, 0);
    forall q | q in OccupiedCenter(b.grid)
      ensures q in OccupiedCenterFrom(b.grid, 0)
    {
      CenterCellsEnumerate(q);
    }
    assert OccupiedCenterFrom(b.grid, 0) == OccupiedCenter(b.grid);
  }

  // ----- Exit table -----

  /** The points for a group of `n` connected exits: 0 outside 2..12. */
  function ExitTable(n: int): (s: nat)
    ensures 2 <= n <= 11 ==> s == 4 * (n - 1)
    ensures n == 12 ==> s == 45
    ensures (n < 2 || n > 12) ==> s == 0
  {
    if n == 2 then 4
    else if n == 3 then 8
    else if n == 4 then 12
    else if n == 5 then 16
    else if n == 6 then 20
    else if n == 7 then 24
    else if n == 8 then 28
    else if n == 9 then 32
    else if n == 10 then 36
    else if n == 11 then 40
    else if n == 12 then 45
    else 0
  }

  /** The table never exceeds 45, reached only by all twelve exits, and more
      connected exits never score less. */
  lemma ExitTableBounds(n: int, m: int)
    ensures ExitTable(n) <= 45
    ensures ExitTable(n) == 45 <==> n == 12
    ensures 2 <= n <= m <= 12 ==> ExitTable(n) <= ExitTable(m)
  {
  }

  // ----- Longest route -----

  /** The key of the edge between two neighbouring cells: twice its midpoint,
      the same from either end. */
  function Mid(p: Pos, q: Pos): (int, int) {
    (p.y + q.y, p.x + q.x)
  }

  /** Every edge key of the board. */
  function EdgeKeys(): set<(int, int)> {
    set a, c | 0 <= a <= 2 * (Size - 1) && 0 <= c <= 2 * (Size - 1) :: (a, c)
  }

  /** The track on side `r` of the tile at `p`, `NoTrack` for an empty cell. */
  function TrackAt(g: Grid<TileString>, p: Pos, r: Rotation): Side {
    if Grids.Get(g, p).Some? then Grids.Get(g, p).value.sides[r] else NoTrack
  }

  /** Taking a new edge from an on-board cell keeps the used keys within the
      board's edges and leaves fewer edges to take. */
  lemma EdgeTaken(p: Pos, r: Rotation, used: set<(int, int)>)
    requires InBounds(p) && Step(p, r).Some? && used <= EdgeKeys()
    requires Mid(p, Step(p, r).value) !in used
    ensures used + {Mid(p, Step(p, r).value)} <= EdgeKeys()
    ensures |EdgeKeys() - (used + {Mid(p, Step(p, r).value)})| < |EdgeKeys() - used|
  {
    var c := Mid(p, Step(p, r).value);
    StepSound(p, r);
    assert c in EdgeKeys();
    assert EdgeKeys() - (used + {c}) == (EdgeKeys() - used) - {c};
  }

  /** The longest route from `p`, already `len` cells long, that uses no edge
      in `used`: the current length, or more through some side. */
  function Route(g: Grid<TileString>, t: TrackType, p: Pos, len: nat, used: set<(int, int)>): nat
    requires InBounds(p) && used <= EdgeKeys()
    decreases |EdgeKeys() - used|, 2, 0
  {
    var rest := RoutesFrom(g, t, p, len, used, 0);
    if rest > len then rest else len
  }

  /** The best route through sides `r..3` of `p`, 0 when none continues. */
  function RoutesFrom(g: Grid<TileString>, t: TrackType, p: Pos, len: nat, used: set<(int, int)>, r: nat): nat
    requires InBounds(p) && used <= EdgeKeys() && r <= 4
    decreases |EdgeKeys() - used|, 1, 4 - r
  {
    if r == 4 then 0
    else
      var here := Branch(g, t, p, len, used, r);
      var rest := RoutesFrom(g, t, p, len, used, r + 1);
      if here > rest then here else rest
  }

  /** The route continuing across side `r`: the side must carry `t`, the
      neighbour must be on the board and occupied (its facing side is not
      looked at) and the edge unused; 0 otherwise. */
  function Branch(g: Grid<TileString>, t: TrackType, p: Pos, len: nat, used: set<(int, int)>, r: Rotation): nat
    requires InBounds(p) && used <= EdgeKeys()
    decreases |EdgeKeys() - used|, 0, 0
  {
    if TrackAt(g, p, r) != t then 0
    else match Step(p, r)
      case None => 0
      case Some(p2) =>
        if Grids.Get(g, p2).None? then 0
        else
          var c := Mid(p, p2);
          if c in used then 0
          else
            EdgeTaken(p, r, used);
            Route(g, t, p2, len + 1, used + {c})
  }

  /** A walk along track of type `t` from `w[0]`: every cell occupied, each
      next cell reached across a side of type `t`, and no edge key repeated
      or taken from `used`. */
  ghost predicate RouteWalk(g: Grid<TileString>, t: TrackType, w: seq<Pos>, used: set<(int, int)>)
    decreases |w|
  {
    && |w| >= 1
    && InBounds(w[0]) && Grids.Get(g, w[0]).Some?
    && (|w| == 1 ||
        ((exists r: Rotation :: TrackAt(g, w[0], r) == t && Step(w[0], r) == Some(w[1]))
         && Mid(w[0], w[1]) !in used
         && RouteWalk(g, t, w[1..], used + {Mid(w[0], w[1])})))
  }

  /** The best of sides `k..3` is at least the route across side `r`. */
  lemma {:induction false} RoutesFromAtLeast(g: Grid<TileString>, t: TrackType, p: Pos, len: nat, used: set<(int, int)>, k: nat, r: Rotation)
    requires InBounds(p) && used <= EdgeKeys() && k <= r
    decreases 4 - k
    ensures RoutesFrom(g, t, p, len, used, k) >= Branch(g, t, p, len, used, r)
  {
    if k < r {
      RoutesFromAtLeast(g, t, p, len, used, k + 1, r);
    }
  }

  /** The best of sides `k..3` is 0 or the route across one of them. */
  lemma {:induction false} RoutesFromWitness(g: Grid<TileString>, t: TrackType, p: Pos, len: nat, used: set<(int, int)>, k: nat)
    returns (r: Rotation)
    requires InBounds(p) && used <= EdgeKeys() && k < 4
    decreases 4 - k
    ensures k <= r && Branch(g, t, p, len, used, r) == RoutesFrom(g, t, p, len, used, k)
  {
    if k == 3 || Branch(g, t, p, len, used, k) > RoutesFrom(g, t, p, len, used, k + 1) {
      r := k;
    } else {
      r := RoutesFromWitness(g, t, p, len, used, k + 1);
    }
  }

  /** Every walk from `p` avoiding `used` is covered: the search reports at
      least its length. */
  lemma {:induction false} RouteComplete(g: Grid<TileString>, t: TrackType, p: Pos, len: nat, used: set<(int, int)>, w: seq<Pos>)
    requires InBounds(p) && used <= EdgeKeys()
    requires RouteWalk(g, t, w, used) && w[0] == p
    decreases |w|
    ensures Route(g, t, p, len, used) >= len + |w| - 1
  {
    if |w| > 1 {
      var r: Rotation :| TrackAt(g, p, r) == t && Step(p, r) == Some(w[1]);
      var c := Mid(p, w[1]);
      assert c !in used && RouteWalk(g, t, w[1..], used + {c});
      EdgeTaken(p, r, used);
      RouteComplete(g, t, w[1], len + 1, used + {c}, w[1..]);
      assert Branch(g, t, p, len, used, r) == Route(g, t, w[1], len + 1, used + {c});
      RoutesFromAtLeast(g, t, p, len, used, 0, r);
    }
  }

  /** A branch that reports anything crossed side `r` into an occupied
      neighbour over an unused edge. */
  lemma BranchTaken(g: Grid<TileString>, t: TrackType, p: Pos, len: nat, used: set<(int, int)>, r: Rotation)
    requires InBounds(p) && used <= EdgeKeys()
    requires Branch(g, t, p, len, used, r) > 0
    ensures TrackAt(g, p, r) == t && Step(p, r).Some? && Grids.Get(g, Step(p, r).value).Some?
    ensures Mid(p, Step(p, r).value) !in used
    ensures Branch(g, t, p, len, used, r) == Route(g, t, Step(p, r).value, len + 1, used + {Mid(p, Step(p, r).value)})
  {
  }

  /** The search reports the length of an actual walk from `p`. */
  lemma {:induction false} RouteSound(g: Grid<TileString>, t: TrackType, p: Pos, len: nat, used: set<(int, int)>)
    returns (w: seq<Pos>)
    requires InBounds(p) && Grids.Get(g, p).Some? && used <= EdgeKeys()
    decreases |EdgeKeys() - used|
    ensures RouteWalk(g, t, w, used) && w[0] == p
    ensures Route(g, t, p, len, used) == len + |w| - 1
  {
    if RoutesFrom(g, t, p, len, used, 0) <= len {
      w := [p];
    } else {
      var r := RoutesFromWitness(g, t, p, len, used, 0);
      BranchTaken(g, t, p, len, used, r);
      var p2 := Step(p, r).value;
      var c := Mid(p, p2);
      EdgeTaken(p, r, used);
      var w2 := RouteSound(g, t, p2, len + 1, used + {c});
      w := [p] + w2;
      assert RouteWalk(g, t, w, used) by {
        assert w[0] == p && w[1] == p2 && w[1..] == w2;
        assert TrackAt(g, w[0], r) == t && Step(w[0], r) == Some(w[1]);
      }
    }
  }

  /** Side of type `t` somewhere on the tile at flat index `i`. */
  predicate StartsRoute(g: Grid<TileString>, t: TrackType, i: nat)
    requires i < Size * Size
  {
    Grids.Get(g, PosOf(i)).Some? && HasTrackType(Grids.Get(g, PosOf(i)).value, t)
  }

  /** The longest route starting at the tiles with flat index `i` or more
      that carry track of type `t`, 0 when there is none. */
  function LongestFrom(g: Grid<TileString>, t: TrackType, i: nat): nat
    requires i <= Size * Size
    decreases Size * Size - i
  {
    if i == Size * Size then 0
    else
      var rest := LongestFrom(g, t, i + 1);
      if StartsRoute(g, t, i) then
        var here := Route(g, t, PosOf(i), 1, {});
        if here > rest then here else rest
      else rest
  }

  /** The longest route of type `t`, tried from every tile in row-major order. */
  function LongestRouteScore(b: TileBoard.Board, t: TrackType): nat {
    LongestFrom(b.grid, t, 0)
  }

  /** The scan is 0 exactly when no tile from index `i` on carries `t`, and it
      bounds the route from each such tile. */
  lemma {:induction false} LongestFromSpec(g: Grid<TileString>, t: TrackType, i: nat)
    requires i <= Size * Size
    decreases Size * Size - i
    ensures LongestFrom(g, t, i) == 0 <==> forall j :: i <= j < Size * Size ==> !StartsRoute(g, t, j)
    ensures forall j :: i <= j < Size * Size && StartsRoute(g, t, j) ==> LongestFrom(g, t, i) >= Route(g, t, PosOf(j), 1, {})
  {
    if i < Size * Size {
      LongestFromSpec(g, t, i + 1);
    }
  }

  /** The scan reports 0 or the route from one of the tiles it tried. */
  lemma {:induction false} LongestFromWitness(g: Grid<TileString>, t: TrackType, i: nat) returns (j: nat)
    requires i <= Size * Size && LongestFrom(g, t, i) > 0
    decreases Size * Size - i
    ensures i <= j < Size * Size && StartsRoute(g, t, j) && LongestFrom(g, t, i) == Route(g, t, PosOf(j), 1, {})
  {
    var rest := LongestFrom(g, t, i + 1);
    if StartsRoute(g, t, i) && Route(g, t, PosOf(i), 1, {}) >= rest {
      j := i;
    } else {
      assert LongestFrom(g, t, i) == rest;
      j := LongestFromWitness(g, t, i + 1);
    }
  }

  /** The route score is 0 exactly when no tile carries track of type `t`;
      otherwise it is the length of the longest walk along `t` that never
      reuses an edge, counted in cells, and at least 1. */
  lemma LongestRouteIsLongestWalk(b: TileBoard.Board, t: TrackType)
    ensures LongestRouteScore(b, t) == 0 <==>
      forall q :: InBounds(q) && Grids.Get(b.grid, q).Some? ==> !HasTrackType(Grids.Get(b.grid, q).value, t)
    ensures forall w :: RouteWalk(b.grid, t, w, {}) && HasTrackType(Grids.Get(b.grid, w[0]).value, t) ==>
      LongestRouteScore(b, t) >= |w|
    ensures LongestRouteScore(b, t) > 0 ==> exists w :: RouteWalk(b.grid, t, w, {}) && |w| == LongestRouteScore(b, t)
  {
    var g := b.grid;
    LongestFromSpec(g, t, 0);
    forall q | InBounds(q) && Grids.Get(g, q).Some? && HasTrackType(Grids.Get(g, q).value, t)
      ensures StartsRoute(g, t, Index(q))
    {
      PosOfIndex(q);
    }
    forall w | RouteWalk(g, t, w, {}) && HasTrackType(Grids.Get(g, w[0]).value, t)
      ensures LongestRouteScore(b, t) >= |w|
    {
      PosOfIndex(w[0]);
      RouteComplete(g, t, w[0], 1, {}, w);
    }
    if LongestRouteScore(b, t) > 0 {
      var j := LongestFromWitness(g, t, 0);
      var w := RouteSound(g, t, PosOf(j), 1, {});
    }
  }

  // ----- Exit groups -----

  /** What the breadth-first search marks as visited: the cell, plus the
      followed track type when the tile there is an overpass. */
  datatype VisitKey = VisitKey(y: int, x: int, t: Option<TrackType>)

  /** Every visit key of the board. */
  function VisitKeys(): set<VisitKey> {
    set y, x, o | 0 <= y < Size && 0 <= x < Size && o in {None, Some(Road), Some(Rail)} :: VisitKey(y, x, o)
  }

  function KeyOf(e: TrackPos, tile: TileString): VisitKey {
    VisitKey(e.p.y, e.p.x, if tile.overpass then Some(e.t) else None)
  }

  /** Exit `x` is recorded when the search stands on its cell with `tile`:
      the tile carries track on the exit's side and, on an overpass, that
      track is the type being followed. */
  predicate Reports(e: TrackPos, tile: TileString, x: Exit) {
    x.y == e.p.y && x.x == e.p.x && tile.sides[x.r] != NoTrack && (!tile.overpass || tile.sides[x.r] == e.t)
  }

  /** The first exit from index `i` on that the search records at `e`. */
  function ExitFrom(e: TrackPos, tile: TileString, i: nat): Option<Exit>
    requires i <= |Exits|
    decreases |Exits| - i
  {
    if i == |Exits| then None
    else if Exits[i].y == e.p.y && Exits[i].x == e.p.x && tile.sides[Exits[i].r] != NoTrack
      && (!tile.overpass || tile.sides[Exits[i].r] == e.t) then Some(Exits[i])
    else ExitFrom(e, tile, i + 1)
  }

  /** The lookup returns a reported exit, and none exactly when no exit from
      index `i` on is reported. */
  lemma {:induction false} ExitFromSpec(e: TrackPos, tile: TileString, i: nat)
    requires i <= |Exits|
    decreases |Exits| - i
    ensures ExitFrom(e, tile, i).Some? ==> ExitFrom(e, tile, i).value in Exits && Reports(e, tile, ExitFrom(e, tile, i).value)
    ensures ExitFrom(e, tile, i).None? <==> forall k :: i <= k < |Exits| ==> !Reports(e, tile, Exits[k])
  {
    if i < |Exits| {
      ExitFromSpec(e, tile, i + 1);
    }
  }

  /** Every queued position is an occupied cell of the board. */
  predicate Queued(g: Grid<TileString>, queue: seq<TrackPos>) {
    forall e :: e in queue ==> InBounds(e.p) && Grids.Get(g, e.p).Some?
  }

  /** The connected neighbours of `e`, as `getConnectedTiles` of
      src/logic/board.ts yields them. */
  function Next(g: Grid<TileString>, e: TrackPos, tile: TileString): (res: seq<TrackPos>)
    ensures Queued(g, res)
  {
    var res := TileGrid.ConnectedFrom(g, e, None, tile, 0);
    forall n | n in res
      ensures InBounds(n.p) && Grids.Get(g, n.p).Some?
    {
      var r :| 0 <= r < 4 && TileGrid.IsConnectedSide(g, e, None, tile, r) && n == TileGrid.Neighbour(e, tile, r);
      StepSound(e.p, r);
    }
    res
  }

  /** The breadth-first search: take the first queued position, skip it when
      its key was visited, otherwise mark it, record the exit it reaches and
      queue its connected neighbours. */
  function Explore(g: Grid<TileString>, queue: seq<TrackPos>, visited: set<VisitKey>, found: seq<Exit>): seq<Exit>
    requires Queued(g, queue) && visited <= VisitKeys()
    decreases |VisitKeys() - visited|, |queue|
  {
    if |queue| == 0 then found
    else
      var e := queue[0];
      var tile := Grids.Get(g, e.p).value;
      var key := KeyOf(e, tile);
      if key in visited then Explore(g, queue[1..], visited, found)
      else
        var found2 := match ExitFrom(e, tile, 0) case Some(x) => found + [x] case None => found;
        assert key in VisitKeys();
        assert VisitKeys() - (visited + {key}) == (VisitKeys() - visited) - {key};
        Explore(g, queue[1..] + Next(g, e, tile), visited + {key}, found2)
  }

  /** The exits connected to `x`: `[x]` alone when its cell is empty or has no
      track on the exit side, otherwise the search from the exit's cell
      following the exit's track type. */
  function Traverse(g: Grid<TileString>, x: Exit): (res: seq<Exit>)
    requires InBounds(x.Position())
    ensures Grids.Get(g, x.Position()).None? || Grids.Get(g, x.Position()).value.sides[x.r] == NoTrack ==> res == [x]
  {
    match Grids.Get(g, x.Position())
    case None => [x]
    case Some(tile) =>
      if tile.sides[x.r] == NoTrack then [x]
      else Explore(g, [TrackPos(x.Position(), x.t)], {}, [])
  }

  /** `b` is a connected neighbour of `a`. */
  predicate Link(g: Grid<TileString>, a: TrackPos, b: TrackPos) {
    Grids.Get(g, a.p).Some? && b in TileGrid.ConnectedFrom(g, a, None, Grids.Get(g, a.p).value, 0)
  }

  function Links(g: Grid<TileString>): (TrackPos, TrackPos) -> bool {
    (a: TrackPos, b: TrackPos) => Link(g, a, b)
  }

  /** `e` is reached from `s` through a chain of connected neighbours. */
  ghost predicate Reaches(g: Grid<TileString>, s: TrackPos, e: TrackPos) {
    ReachesBy(Links(g), s, e)
  }

  /** An exit is recorded by the search only when some position reached from
      `s` reports it. */
  ghost predicate ReportedFrom(g: Grid<TileString>, s: TrackPos, x: Exit) {
    exists e :: Reaches(g, s, e) && Grids.Get(g, e.p).Some? && Reports(e, Grids.Get(g, e.p).value, x)
  }

  lemma {:induction false} ExploreSound(g: Grid<TileString>, s: TrackPos, queue: seq<TrackPos>, visited: set<VisitKey>, found: seq<Exit>, x: Exit)
    requires Queued(g, queue) && visited <= VisitKeys()
    requires forall e :: e in queue ==> Reaches(g, s, e)
    requires x in Explore(g, queue, visited, found)
    decreases |VisitKeys() - visited|, |queue|
    ensures x in found || (x in Exits && ReportedFrom(g, s, x))
  {
    if |queue| > 0 {
      var e := queue[0];
      var tile := Grids.Get(g, e.p).value;
      var key := KeyOf(e, tile);
      assert e in queue;
      if key in visited {
        assert forall n :: n in queue[1..] ==> n in queue;
        ExploreSound(g, s, queue[1..], visited, found, x);
      } else {
        var found2 := match ExitFrom(e, tile, 0) case Some(x) => found + [x] case None => found;
        var queue2 := queue[1..] + Next(g, e, tile);
        assert forall n :: n in queue2 ==> Reaches(g, s, n) by {
          forall n | n in queue2
            ensures Reaches(g, s, n)
          {
            if n in queue[1..] {
              assert n in queue;
            } else {
              assert Links(g)(e, n);
              ReachesByStep(Links(g), s, e, n);
            }
          }
        }
        assert key in VisitKeys();
        assert VisitKeys() - (visited + {key}) == (VisitKeys() - visited) - {key};
        ExploreSound(g, s, queue2, visited + {key}, found2, x);
        if x !in found && x in found2 {
          ExitFromSpec(e, tile, 0);
        }
      }
    }
  }

  /** Every exit in a group is its starting exit or an exit reported at a
      position connected to the start along the start's track type; on an
      overpass only the followed type is continued or reported. */
  lemma TraverseSound(g: Grid<TileString>, x0: Exit, x: Exit)
    requires InBounds(x0.Position())
    requires x in Traverse(g, x0)
    ensures x == x0 || (x in Exits && ReportedFrom(g, TrackPos(x0.Position(), x0.t), x))
  {
    var s := TrackPos(x0.Position(), x0.t);
    if Grids.Get(g, x0.Position()).Some? && Grids.Get(g, x0.Position()).value.sides[x0.r] != NoTrack {
      ReachesByStart(Links(g), s);
      ExploreSound(g, s, [s], {}, [], x);
    }
  }

  /** A starting exit and the exits its search reached. */
  datatype ExitGroup = ExitGroup(start: Exit, reached: seq<Exit>)

  /** The search of this scorer as a function of the exit: `Traverse` for an
      exit on the board. */
  function Search(g: Grid<TileString>): Exit -> seq<Exit> {
    (x: Exit) => if InBounds(x.Position()) then Traverse(g, x) else [x]
  }

  /** The loop over the exits `xs[i..]`: an exit already reached by an
      earlier search is skipped; otherwise it starts a new group holding what
      `search` reaches from it. Every revision of the scorer runs this loop,
      each with its own search. */
  function ExitGroups(search: Exit -> seq<Exit>, xs: seq<Exit>, i: nat, checked: seq<Exit>): seq<ExitGroup>
    requires i <= |xs|
    decreases |xs| - i
  {
    if i == |xs| then []
    else if xs[i] in checked then ExitGroups(search, xs, i + 1, checked)
    else
      var reached := search(xs[i]);
      [ExitGroup(xs[i], reached)] + ExitGroups(search, xs, i + 1, checked + reached)
  }

  /** Every group starts at an exit of `xs` that is not in `checked`. */
  predicate StartsFresh(gs: seq<ExitGroup>, xs: seq<Exit>, checked: seq<Exit>) {
    forall k :: 0 <= k < |gs| ==> gs[k].start in xs && gs[k].start !in checked
  }

  /** Every group holds the search from its start. */
  predicate GroupsAreSearches(search: Exit -> seq<Exit>, gs: seq<ExitGroup>) {
    forall k :: 0 <= k < |gs| ==> gs[k].reached == search(gs[k].start)
  }

  /** No group starts at an exit an earlier group reached. */
  predicate NeverRestarted(gs: seq<ExitGroup>) {
    forall k, l :: 0 <= k < l < |gs| ==> gs[l].start !in gs[k].reached
  }

  /** Each group starts at an exit of the list not checked on entry and not
      reached by an earlier group, and holds that exit's search. */
  lemma {:induction false} ExitGroupsStarts(search: Exit -> seq<Exit>, xs: seq<Exit>, i: nat, checked: seq<Exit>)
    requires i <= |xs|
    decreases |xs| - i
    ensures StartsFresh(ExitGroups(search, xs, i, checked), xs, checked)
    ensures GroupsAreSearches(search, ExitGroups(search, xs, i, checked))
    ensures NeverRestarted(ExitGroups(search, xs, i, checked))
  {
    if i < |xs| {
      if xs[i] in checked {
        ExitGroupsStarts(search, xs, i + 1, checked);
        assert ExitGroups(search, xs, i, checked) == ExitGroups(search, xs, i + 1, checked);
      } else {
        var reached := search(xs[i]);
        ExitGroupsStarts(search, xs, i + 1, checked + reached);
        var rest := ExitGroups(search, xs, i + 1, checked + reached);
        assert ExitGroups(search, xs, i, checked) == [ExitGroup(xs[i], reached)] + rest;
        ConsGroup(search, xs, checked, xs[i], reached, rest);
      }
    }
  }

  /** Putting a fresh group in front of groups that avoid its exits keeps the
      three facts. */
  lemma ConsGroup(search: Exit -> seq<Exit>, xs: seq<Exit>, checked: seq<Exit>, x: Exit, reached: seq<Exit>, rest: seq<ExitGroup>)
    requires x in xs && x !in checked && reached == search(x)
    requires StartsFresh(rest, xs, checked + reached) && GroupsAreSearches(search, rest) && NeverRestarted(rest)
    ensures StartsFresh([ExitGroup(x, reached)] + rest, xs, checked)
    ensures GroupsAreSearches(search, [ExitGroup(x, reached)] + rest)
    ensures NeverRestarted([ExitGroup(x, reached)] + rest)
  {
    var gs := [ExitGroup(x, reached)] + rest;
    forall k | 1 <= k < |gs|
      ensures gs[k] == rest[k - 1] && gs[k].start !in checked && gs[k].start !in reached
    {
      assert rest[k - 1].start !in checked + reached;
    }
  }

  /** Every exit of `xs[i..]` is checked on entry, starts a group or is
      reached by one. */
  lemma {:induction false} ExitGroupsCover(search: Exit -> seq<Exit>, xs: seq<Exit>, i: nat, checked: seq<Exit>)
    requires i <= |xs|
    decreases |xs| - i
    ensures var gs := ExitGroups(search, xs, i, checked);
      forall j :: i <= j < |xs| ==>
        (xs[j] in checked || exists k :: 0 <= k < |gs| && (gs[k].start == xs[j] || xs[j] in gs[k].reached))
  {
    if i < |xs| {
      if xs[i] in checked {
        ExitGroupsCover(search, xs, i + 1, checked);
        assert ExitGroups(search, xs, i, checked) == ExitGroups(search, xs, i + 1, checked);
      } else {
        var reached := search(xs[i]);
        ExitGroupsCover(search, xs, i + 1, checked + reached);
        var rest := ExitGroups(search, xs, i + 1, checked + reached);
        var gs := ExitGroups(search, xs, i, checked);
        assert gs == [ExitGroup(xs[i], reached)] + rest;
        forall j | i <= j < |xs| && xs[j] !in checked
          ensures exists k :: 0 <= k < |gs| && (gs[k].start == xs[j] || xs[j] in gs[k].reached)
        {
          if j == i {
            assert gs[0].start == xs[j];
          } else if xs[j] in reached {
            assert xs[j] in gs[0].reached;
          } else {
            var k :| 0 <= k < |rest| && (rest[k].start == xs[j] || xs[j] in rest[k].reached);
            assert gs[k + 1] == rest[k];
          }
        }
      }
    }
  }

  /** The points of a list of groups. */
  function SumTable(gs: seq<ExitGroup>): nat {
    if |gs| == 0 then 0 else ExitTable(|gs[0].reached|) + SumTable(gs[1..])
  }

  /** The groups of the twelve exits, in exit order. */
  function BoardExitGroups(g: Grid<TileString>): seq<ExitGroup> {
    ExitGroups(Search(g), Exits, 0, [])
  }

  /** The exit points: every group scores the table entry for its size. */
  function ExitsScore(b: TileBoard.Board): nat {
    SumTable(BoardExitGroups(b.grid))
  }

  /** Groups of one score nothing. */
  lemma {:induction false} SumTableSingles(gs: seq<ExitGroup>)
    requires forall k :: 0 <= k < |gs| ==> |gs[k].reached| == 1
    ensures SumTable(gs) == 0
  {
    if |gs| > 0 {
      SumTableSingles(gs[1..]);
    }
  }

  /** The full score of a board. */
  function CalculateScore(b: TileBoard.Board): Score {
    Score(ExitsScore(b), LongestRouteScore(b, Road), LongestRouteScore(b, Rail), CenterScore(b), ErrorsScore(b))
  }

  /** On a board without tiles every exit is a group of one, scoring nothing. */
  lemma EmptyBoardExitsZero(b: TileBoard.Board)
    requires forall q :: Grids.Get(b.grid, q).None?
    ensures ExitsScore(b) == 0
  {
    NoTilesNoPoints(b.grid, Exits, 0, []);
  }

  /** Without tiles every search stops at its start, so no group scores. */
  lemma NoTilesNoPoints(g: Grid<TileString>, xs: seq<Exit>, i: nat, checked: seq<Exit>)
    requires i <= |xs|
    requires forall q :: Grids.Get(g, q).None?
    ensures SumTable(ExitGroups(Search(g), xs, i, checked)) == 0
  {
    ExitGroupsStarts(Search(g), xs, i, checked);
    SumTableSingles(ExitGroups(Search(g), xs, i, checked));
  }

  /** Without tiles no route of either type starts anywhere. */
  lemma NoTilesNoRoute(b: TileBoard.Board, t: TrackType)
    requires forall q :: Grids.Get(b.grid, q).None?
    ensures LongestRouteScore(b, t) == 0
  {
    LongestRouteIsLongestWalk(b, t);
  }

  /** Without tiles no centre square is occupied. */
  lemma NoTilesNoCenter(b: TileBoard.Board)
    requires forall q :: Grids.Get(b.grid, q).None?
    ensures CenterScore(b) == 0
  {
    CenterScoreCounts(b);
    assert OccupiedCenter(b.grid) == {};
  }

  /** An empty board scores 0 in every part. */
  lemma EmptyBoardScoresZero(b: TileBoard.Board)
    requires b == TileBoard.NewBoard()
    ensures CalculateScore(b) == Score(0, 0, 0, 0, 0)
  {
    EmptyBoardExitsZero(b);
    NoTilesNoRoute(b, Road);
    NoTilesNoRoute(b, Rail);
    NoTilesNoCenter(b);
    TileGrid.CountErrorsEmpty();
  }
}

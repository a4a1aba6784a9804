/** The two earlier scorers. src/calculateScore.ts scores the open-connection
    board of src/board.ts: exits and centre only, road, rail and errors fixed
    at 0. svelte/src/logic/calculateScore.ts adds the longest routes and the
    error penalty. Both group the exits with the same breadth-first search,
    which enters a tile only through a side carrying the arriving track type
    and scores a group as one more than the exits it reached. */
module LegacyScoring {
  import opened Wrappers
  import opened Types
  import opened Helpers
  import opened Grids
  import opened BoardExits
  import opened Seqs
  import TileGrid
  import TileBoard
  import ConnectionBoard
  import Scoring

  type Connection = ConnectionBoard.Connection

  /** Every connection of the list sits on the board. */
  predicate OnBoard(cs: seq<Connection>) {
    forall c :: c in cs ==> InBounds(c.Position())
  }

  /** Having arrived through `c`, the search follows side `r` of `tile`: not
      the arrival side, carrying track, and on an overpass only track of the
      arriving type. */
  predicate Follows(c: Connection, tile: TileString, r: Rotation) {
    r != c.r && tile.sides[r] != NoTrack && (!tile.overpass || tile.sides[r] == c.t)
  }

  /** The exits of `xs` on side `r` of the cell of `c`, carrying the track
      type of that side of `tile`. */
  function ExitsOnSide(xs: seq<Exit>, c: Connection, tile: TileString, r: Rotation): (res: seq<Exit>)
    ensures forall x :: x in res <==> x in xs && x.y == c.y && x.x == c.x && x.r == r && x.t == tile.sides[r]
  {
    if |xs| == 0 then []
    else
      var rest := ExitsOnSide(xs[1..], c, tile, r);
      assert forall x :: x in xs <==> x == xs[0] || x in xs[1..];
      if xs[0].y == c.y && xs[0].x == c.x && xs[0].r == r && xs[0].t == tile.sides[r] then [xs[0]] + rest
      else rest
  }

  /** The exits recorded at `c` through the followed sides `r..3`: those on a
      followed side whose type is that side's type. */
  function Recorded(c: Connection, tile: TileString, r: nat): seq<Exit>
    decreases 4 - r
  {
    if r >= 4 then []
    else (if Follows(c, tile, r) then ExitsOnSide(Exits, c, tile, r) else []) + Recorded(c, tile, r + 1)
  }

  /** An exit is recorded exactly when it is a board exit on a followed side
      of the cell, carrying that side's track type. */
  lemma {:induction false} RecordedSpec(c: Connection, tile: TileString, r: nat, x: Exit)
    decreases 4 - r
    ensures x in Recorded(c, tile, r) <==>
      x in Exits && x.y == c.y && x.x == c.x && r <= x.r && Follows(c, tile, x.r) && x.t == tile.sides[x.r]
  {
    if r < 4 {
      RecordedSpec(c, tile, r + 1, x);
    }
  }

  /** The connections queued from `c` through the followed sides `r..3`: the
      on-board neighbour across the side, arrived at through its facing side
      with the side's track type. */
  function Pushed(c: Connection, tile: TileString, r: nat): (res: seq<Connection>)
    decreases 4 - r
    ensures OnBoard(res)
  {
    if r >= 4 then []
    else
      var rest := Pushed(c, tile, r + 1);
      var here := match Step(c.Position(), r)
        case Some(q) =>
          if Follows(c, tile, r) then
            StepSound(c.Position(), r);
            [Exit(q.y, q.x, FlipRotation(r), tile.sides[r])]
          else []
        case None => [];
      here + rest
  }

  /** The tile at the cell of `c` carries the arriving track type on the
      arrival side, so the search enters it. */
  predicate Entered(g: Grid<TileString>, c: Connection) {
    Grids.Get(g, c.Position()).Some? && Grids.Get(g, c.Position()).value.sides[c.r] == c.t
  }

  /** The visited key of `c`: the cell, plus the track type on an overpass. */
  function KeyOf(c: Connection, tile: TileString): Scoring.VisitKey {
    Scoring.VisitKey(c.y, c.x, if tile.overpass then Some(c.t) else None)
  }

  /** The breadth-first search: take the first queued connection and skip it
      unless its tile is entered and its key unvisited; otherwise mark the
      key, record the exits on the followed sides and queue the neighbours. */
  function Explore(g: Grid<TileString>, queue: seq<Connection>, visited: set<Scoring.VisitKey>, found: seq<Exit>): seq<Exit>
    requires OnBoard(queue) && visited <= Scoring.VisitKeys()
    decreases |Scoring.VisitKeys() - visited|, |queue|
  {
    if |queue| == 0 then found
    else
      var c := queue[0];
      assert c in queue;
      if !Entered(g, c) then Explore(g, queue[1..], visited, found)
      else
        var tile := Grids.Get(g, c.Position()).value;
        var key := KeyOf(c, tile);
        if key in visited then Explore(g, queue[1..], visited, found)
        else
          KeyTaken(c, tile, visited);
          Explore(g, queue[1..] + Pushed(c, tile, 0), visited + {key}, found + Recorded(c, tile, 0))
  }

  /** The exits reached from exit `x`, not counting `x`: none when the tile
      on its cell does not carry the exit's type on the exit side. */
  function Traverse(g: Grid<TileString>, x: Exit): (res: seq<Exit>)
    requires InBounds(x.Position())
    ensures !Entered(g, x) ==> res == []
  {
    assert [x][1..] == [];
    assert !Entered(g, x) ==> Explore(g, [x], {}, []) == Explore(g, [], {}, []);
    Explore(g, [x], {}, [])
  }

  /** A connection is queued exactly when it is the on-board neighbour across
      a followed side, entered through the facing side with that side's
      track type. */
  lemma {:induction false} PushedSpec(c: Connection, tile: TileString, r: nat, n: Connection)
    decreases 4 - r
    ensures n in Pushed(c, tile, r) <==>
      r <= FlipRotation(n.r) && Follows(c, tile, FlipRotation(n.r))
      && Step(c.Position(), FlipRotation(n.r)) == Some(n.Position()) && n.t == tile.sides[FlipRotation(n.r)]
  {
    if r < 4 {
      PushedSpec(c, tile, r + 1, n);
    }
  }

  // ----- What the search reaches -----

  /** `b` is queued when the search enters `a`. */
  predicate Link(g: Grid<TileString>, a: Connection, b: Connection) {
    Entered(g, a) && b in Pushed(a, Grids.Get(g, a.Position()).value, 0)
  }

  function Links(g: Grid<TileString>): (Connection, Connection) -> bool {
    (a: Connection, b: Connection) => Link(g, a, b)
  }

  /** `e` is reached from `s` through a chain of queued connections. */
  ghost predicate Reaches(g: Grid<TileString>, s: Connection, e: Connection) {
    ReachesBy(Links(g), s, e)
  }

  /** Exit `x` is recorded at some entered connection reached from `s`. */
  ghost predicate RecordedFrom(g: Grid<TileString>, s: Connection, x: Exit) {
    exists c :: Reaches(g, s, c) && Entered(g, c) && x in Recorded(c, Grids.Get(g, c.Position()).value, 0)
  }

  /** The search only adds exits recorded at connections reachable from `s`. */
  lemma {:induction false} ExploreSound(g: Grid<TileString>, s: Connection, queue: seq<Connection>, visited: set<Scoring.VisitKey>, found: seq<Exit>, x: Exit)
    requires OnBoard(queue) && visited <= Scoring.VisitKeys()
    requires forall e :: e in queue ==> Reaches(g, s, e)
    requires x in Explore(g, queue, visited, found)
    decreases |Scoring.VisitKeys() - visited|, |queue|
    ensures x in found || RecordedFrom(g, s, x)
  {
    if |queue| > 0 {
      var c := queue[0];
      assert c in queue;
      assert forall n :: n in queue[1..] ==> n in queue;
      if !Entered(g, c) || KeyOf(c, Grids.Get(g, c.Position()).value) in visited {
        ExploreSound(g, s, queue[1..], visited, found, x);
      } else {
        var tile := Grids.Get(g, c.Position()).value;
        var key := KeyOf(c, tile);
        QueueReaches(g, s, queue, tile);
        KeyTaken(c, tile, visited);
        ExploreSound(g, s, queue[1..] + Pushed(c, tile, 0), visited + {key}, found + Recorded(c, tile, 0), x);
        if x !in found && x in Recorded(c, tile, 0) {
          assert Reaches(g, s, c) && Entered(g, c);
        }
      }
    }
  }

  /** Marking an unvisited key leaves fewer keys to visit. */
  lemma KeyTaken(c: Connection, tile: TileString, visited: set<Scoring.VisitKey>)
    requires InBounds(c.Position()) && visited <= Scoring.VisitKeys() && KeyOf(c, tile) !in visited
    ensures visited + {KeyOf(c, tile)} <= Scoring.VisitKeys()
    ensures |Scoring.VisitKeys() - (visited + {KeyOf(c, tile)})| < |Scoring.VisitKeys() - visited|
  {
    var key := KeyOf(c, tile);
    assert key in Scoring.VisitKeys();
    assert Scoring.VisitKeys() - (visited + {key}) == (Scoring.VisitKeys() - visited) - {key};
  }

  /** Entering the head of a queue of reachable connections queues only
      reachable connections. */
  lemma QueueReaches(g: Grid<TileString>, s: Connection, queue: seq<Connection>, tile: TileString)
    requires |queue| > 0 && Entered(g, queue[0]) && tile == Grids.Get(g, queue[0].Position()).value
    requires forall e :: e in queue ==> Reaches(g, s, e)
    ensures forall n :: n in queue[1..] + Pushed(queue[0], tile, 0) ==> Reaches(g, s, n)
  {
    forall n | n in queue[1..] + Pushed(queue[0], tile, 0)
      ensures Reaches(g, s, n)
    {
      if n in queue[1..] {
        assert n in queue;
      } else {
        assert queue[0] in queue;
        assert Links(g)(queue[0], n);
        ReachesByStep(Links(g), s, queue[0], n);
      }
    }
  }

  /** Every exit the search from `x0` reaches is a board exit on a side the
      search followed out of a tile it entered through a matching side. */
  lemma TraverseSound(g: Grid<TileString>, x0: Exit, x: Exit)
    requires InBounds(x0.Position())
    requires x in Traverse(g, x0)
    ensures x in Exits && RecordedFrom(g, x0, x)
  {
    ReachesByStart(Links(g), x0);
    ExploreSound(g, x0, [x0], {}, [], x);
    var c :| Reaches(g, x0, c) && Entered(g, c) && x in Recorded(c, Grids.Get(g, c.Position()).value, 0);
    RecordedSpec(c, Grids.Get(g, c.Position()).value, 0, x);
  }

  /** Once the key of the start's cell is visited, the start is never
      recorded again. */
  lemma {:induction false} ExploreAvoidsStart(g: Grid<TileString>, x0: Exit, queue: seq<Connection>, visited: set<Scoring.VisitKey>, found: seq<Exit>)
    requires OnBoard(queue) && visited <= Scoring.VisitKeys()
    requires x0 !in found
    requires Grids.Get(g, x0.Position()).Some? ==> KeyOf(x0, Grids.Get(g, x0.Position()).value) in visited
    decreases |Scoring.VisitKeys() - visited|, |queue|
    ensures x0 !in Explore(g, queue, visited, found)
  {
    if |queue| > 0 {
      var c := queue[0];
      assert c in queue;
      assert forall n :: n in queue[1..] ==> n in queue;
      if !Entered(g, c) || KeyOf(c, Grids.Get(g, c.Position()).value) in visited {
        ExploreAvoidsStart(g, x0, queue[1..], visited, found);
      } else {
        var tile := Grids.Get(g, c.Position()).value;
        var key := KeyOf(c, tile);
        assert x0 !in Recorded(c, tile, 0) by {
          RecordedSpec(c, tile, 0, x0);
        }
        KeyTaken(c, tile, visited);
        ExploreAvoidsStart(g, x0, queue[1..] + Pushed(c, tile, 0), visited + {key}, found + Recorded(c, tile, 0));
      }
    }
  }

  /** The search from an exit never counts that exit, so a group of the
      start and its reached exits has `1 + |reached|` distinct members at
      its head. */
  lemma TraverseAvoidsStart(g: Grid<TileString>, x0: Exit)
    requires InBounds(x0.Position())
    ensures x0 !in Traverse(g, x0)
  {
    if Entered(g, x0) {
      var tile := Grids.Get(g, x0.Position()).value;
      var key := KeyOf(x0, tile);
      var queue := Pushed(x0, tile, 0);
      var found := Recorded(x0, tile, 0);
      KeyTaken(x0, tile, {});
      assert Explore(g, [x0], {}, []) == Explore(g, [x0][1..] + queue, {} + {key}, [] + found);
      assert [x0][1..] + queue == queue && {} + {key} == {key} && [] + found == found;
      RecordedSpec(x0, tile, 0, x0);
      ExploreAvoidsStart(g, x0, queue, {key}, found);
    }
  }

  // ----- Exit score -----

  /** The search of these scorers as a function of the exit. */
  function Search(g: Grid<TileString>): Exit -> seq<Exit> {
    (x: Exit) => if InBounds(x.Position()) then Traverse(g, x) else []
  }

  /** The points of a list of groups: the table entry for one more than the
      reached exits, which counts the start. */
  function SumTable(gs: seq<Scoring.ExitGroup>): nat {
    if |gs| == 0 then 0 else Scoring.ExitTable(1 + |gs[0].reached|) + SumTable(gs[1..])
  }

  /** The groups of the twelve exits, in exit order. */
  function BoardExitGroups(g: Grid<TileString>): seq<Scoring.ExitGroup> {
    Scoring.ExitGroups(Search(g), Exits, 0, [])
  }

  function ExitsScore(g: Grid<TileString>): nat {
    SumTable(BoardExitGroups(g))
  }

  /** Groups that reached no other exit score nothing. */
  lemma {:induction false} SumTableLone(gs: seq<Scoring.ExitGroup>)
    requires forall k :: 0 <= k < |gs| ==> gs[k].reached == []
    ensures SumTable(gs) == 0
  {
    if |gs| > 0 {
      SumTableLone(gs[1..]);
    }
  }

  /** On a board where no exit's search enters a tile, the exits score 0. */
  lemma LoneExitsScoreNothing(g: Grid<TileString>)
    requires forall k :: 0 <= k < |Exits| ==> !Entered(g, Exits[k])
    ensures ExitsScore(g) == 0
  {
    Scoring.ExitGroupsStarts(Search(g), Exits, 0, []);
    var gs := BoardExitGroups(g);
    forall k | 0 <= k < |gs|
      ensures gs[k].reached == []
    {
      var i :| 0 <= i < |Exits| && Exits[i] == gs[k].start;
    }
    SumTableLone(gs);
  }

  // ----- src/calculateScore.ts -----

  /** The score of the open-connection board: exits and centre only. */
  function CalculateScore(b: ConnectionBoard.Board): (s: Scoring.Score)
    ensures s.road == 0 && s.rail == 0 && s.errors == 0
    ensures s.center == |Scoring.OccupiedCenter(b.grid)| <= 9
  {
    var tb := TileBoard.Board(b.grid);
    Scoring.CenterScoreCounts(tb);
    Scoring.Score(ExitsScore(b.grid), 0, 0, Scoring.CenterScore(tb), 0)
  }

  /** A new open-connection board scores 0 in every part. */
  lemma EmptyBoardScoresZero(b: ConnectionBoard.Board)
    requires b == ConnectionBoard.NewBoard()
    ensures CalculateScore(b) == Scoring.Score(0, 0, 0, 0, 0)
  {
    ExitsOnBoundary();
    LoneExitsScoreNothing(b.grid);
    Scoring.NoTilesNoCenter(TileBoard.Board(b.grid));
  }

  // ----- svelte/src/logic/calculateScore.ts -----

  /** The scorer's own `step`: the neighbour across side `r`, or nothing when
      it leaves the 7×7 board. */
  function LocalStep(p: Pos, r: Rotation): (res: Option<Pos>)
    ensures res.None? <==> !InBounds(Pos(p.y + DY(r), p.x + DX(r)))
    ensures res.Some? ==> Adjacent(p, r, res.value)
  {
    var y2 := if r == 0 then p.y - 1 else if r == 2 then p.y + 1 else p.y;
    var x2 := if r == 1 then p.x + 1 else if r == 3 then p.x - 1 else p.x;
    if y2 < 0 || x2 < 0 || y2 >= Size || x2 >= Size then None else Some(Pos(y2, x2))
  }

  /** The local step is the shared one, so the route search of this scorer is
      the one of src/logic/calculateScore.ts. */
  lemma LocalStepAgrees(p: Pos, r: Rotation)
    ensures LocalStep(p, r) == Step(p, r)
  {
  }

  /** The score of the svelte board: the breadth-first exit groups of the
      earlier scorer with the routes, centre and errors of the current one. */
  function SvelteCalculateScore(b: TileBoard.Board): (s: Scoring.Score)
    ensures s.center == |Scoring.OccupiedCenter(b.grid)| <= 9
    ensures s.errors == -(TileBoard.CountErrors(b) as int) <= 0
  {
    Scoring.CenterScoreCounts(b);
    Scoring.Score(ExitsScore(b.grid), Scoring.LongestRouteScore(b, Road), Scoring.LongestRouteScore(b, Rail),
      Scoring.CenterScore(b), Scoring.ErrorsScore(b))
  }

  /** A board without tiles scores 0 in every part. */
  lemma SvelteEmptyBoardScoresZero(b: TileBoard.Board)
    requires b == TileBoard.NewBoard()
    ensures SvelteCalculateScore(b) == Scoring.Score(0, 0, 0, 0, 0)
  {
    LoneExitsScoreNothing(b.grid);
    Scoring.NoTilesNoRoute(b, Road);
    Scoring.NoTilesNoRoute(b, Rail);
    Scoring.NoTilesNoCenter(b);
    TileGrid.CountErrorsEmpty();
  }
}

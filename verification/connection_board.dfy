/** The first board revision (src/board.ts): the grid of placed tiles plus a
    list of open connections, each a cell, a side of that cell and the track
    type a tile placed there must carry on that side. A new board's open
    connections are the twelve exits. A tile side without track (`undefined`
    in that revision) is `NoTrack` here. */
module ConnectionBoard {
  import opened Wrappers
  import opened Types
  import opened Helpers
  import opened Grids
  import opened BoardExits

  /** An open connection has the same shape as an exit. */
  type Connection = Exit

  datatype Board = Board(grid: Grid<TileString>, openConnections: seq<Connection>)

  /** An empty grid whose open connections are exactly the exits. */
  function NewBoard(): (b: Board)
    ensures b.openConnections == Exits
    ensures forall q :: Grids.Get(b.grid, q).None?
  {
    Board(Empty(), Exits)
  }

  predicate At(c: Connection, p: Pos) {
    c.y == p.y && c.x == p.x
  }

  /** The open connections on cell `p`, in list order. */
  function ConnectionsAt(cs: seq<Connection>, p: Pos): (res: seq<Connection>)
    ensures forall c :: c in res <==> c in cs && At(c, p)
  {
    if |cs| == 0 then []
    else
      var rest := ConnectionsAt(cs[1..], p);
      assert forall c :: c in cs <==> c == cs[0] || c in cs[1..];
      if At(cs[0], p) then [cs[0]] + rest else rest
  }

  /** The open connections on cell `p`, or `OutOfBounds` off the board. */
  function GetConnections(b: Board, p: Pos): (res: Result<seq<Connection>>)
    ensures res.Err? <==> !InBounds(p)
    ensures res.Err? ==> res.error == OutOfBounds
    ensures res.Ok? ==> forall c :: c in res.value <==> c in b.openConnections && At(c, p)
  {
    if !InBounds(p) then Err(OutOfBounds) else Ok(ConnectionsAt(b.openConnections, p))
  }

  /** The loop over the connections of a cell: a side without track is
      skipped, a side of the wrong type rejects the tile, a side of the right
      type counts as a match; at the end at least one match is needed. */
  function ScanConnections(tile: TileString, cs: seq<Connection>, matches: nat): bool
    decreases |cs|
  {
    if |cs| == 0 then matches >= 1
    else if tile.sides[cs[0].r] == NoTrack then ScanConnections(tile, cs[1..], matches)
    else if tile.sides[cs[0].r] != cs[0].t then false
    else ScanConnections(tile, cs[1..], matches + 1)
  }

  /** The tile agrees with connection `c`: no track on its side, or track of
      the type the connection asks for. */
  predicate Agrees(tile: TileString, c: Connection) {
    tile.sides[c.r] == NoTrack || tile.sides[c.r] == c.t
  }

  /** The scan accepts exactly when the tile agrees with every connection and
      either a match was already counted or some connection is matched. */
  lemma {:induction false} ScanConnectionsIff(tile: TileString, cs: seq<Connection>, matches: nat)
    decreases |cs|
    ensures ScanConnections(tile, cs, matches) <==>
      (forall c :: c in cs ==> Agrees(tile, c))
      && (matches >= 1 || exists c :: c in cs && tile.sides[c.r] == c.t)
  {
    if |cs| > 0 {
      assert forall c :: c in cs <==> c == cs[0] || c in cs[1..];
      if tile.sides[cs[0].r] == NoTrack {
        ScanConnectionsIff(tile, cs[1..], matches);
      } else if tile.sides[cs[0].r] == cs[0].t {
        ScanConnectionsIff(tile, cs[1..], matches + 1);
        assert cs[0] in cs && tile.sides[cs[0].r] == cs[0].t;
      } else {
        assert !Agrees(tile, cs[0]);
      }
    }
  }

  /** Whether `tile` may go at `p`: `OutOfBounds` off the board, never on an
      occupied cell, otherwise the scan over the cell's open connections. */
  function IsValid(b: Board, p: Pos, tile: TileString): (res: Result<bool>)
    ensures res.Err? <==> !InBounds(p)
    ensures res.Err? ==> res.error == OutOfBounds
    ensures res.Ok? && Grids.Get(b.grid, p).Some? ==> res.value == false
  {
    if !InBounds(p) then Err(OutOfBounds)
    else if Grids.Get(b.grid, p).Some? then Ok(false)
    else Ok(ScanConnections(tile, ConnectionsAt(b.openConnections, p), 0))
  }

  /** A placement is valid exactly when the cell is on the board and empty,
      the tile agrees with every open connection of the cell, and it carries
      the asked-for track on at least one of them. */
  lemma IsValidIff(b: Board, p: Pos, tile: TileString)
    ensures IsValid(b, p, tile) == Ok(true) <==>
      InBounds(p) && Grids.Get(b.grid, p).None?
      && (forall c :: c in b.openConnections && At(c, p) ==> Agrees(tile, c))
      && (exists c :: c in b.openConnections && At(c, p) && tile.sides[c.r] == c.t)
  {
    var cs := ConnectionsAt(b.openConnections, p);
    ScanConnectionsIff(tile, cs, 0);
  }

  /** On a new board only the twelve exit cells accept a tile. */
  lemma NewBoardValidOnlyAtExits(p: Pos, tile: TileString)
    requires IsValid(NewBoard(), p, tile) == Ok(true)
    ensures IsExitCell(p)
  {
    var i := ValidHasConnection(NewBoard(), p, tile);
    assert Exits[i].Position() == p;
  }

  /** A valid placement needs an open connection on its cell; returns the
      position of one in the list. */
  lemma ValidHasConnection(b: Board, p: Pos, tile: TileString) returns (i: nat)
    requires IsValid(b, p, tile) == Ok(true)
    ensures i < |b.openConnections| && At(b.openConnections[i], p)
  {
    IsValidIff(b, p, tile);
    var c :| c in b.openConnections && At(c, p) && tile.sides[c.r] == c.t;
    i :| i < |b.openConnections| && b.openConnections[i] == c;
  }

  /** The position of the first open connection on side `r` of cell `p`. */
  function FindConnection(cs: seq<Connection>, p: Pos, r: Rotation): (res: Option<nat>)
    ensures res.Some? ==> res.value < |cs| && At(cs[res.value], p) && cs[res.value].r == r
    ensures res.Some? ==> forall k :: 0 <= k < res.value ==> !(At(cs[k], p) && cs[k].r == r)
    ensures res.None? ==> forall c :: c in cs ==> !(At(c, p) && c.r == r)
  {
    if |cs| == 0 then None
    else if At(cs[0], p) && cs[0].r == r then Some(0)
    else match FindConnection(cs[1..], p, r)
      case None =>
        assert forall c :: c in cs ==> c == cs[0] || c in cs[1..];
        None
      case Some(i) => Some(i + 1)
  }

  /** `cs` without the element at index `i`. */
  function RemoveAt(cs: seq<Connection>, i: nat): (res: seq<Connection>)
    requires i < |cs|
    ensures |res| == |cs| - 1
    ensures forall k :: 0 <= k < |res| ==> res[k] == if k < i then cs[k] else cs[k + 1]
  {
    cs[..i] + cs[i + 1..]
  }

  /** Removing one element keeps every other element and adds none. */
  lemma RemoveAtMembers(cs: seq<Connection>, i: nat)
    requires i < |cs|
    ensures forall c :: c in RemoveAt(cs, i) ==> c in cs
    ensures forall c :: c in cs && c != cs[i] ==> c in RemoveAt(cs, i)
  {
    var res := RemoveAt(cs, i);
    forall c | c in res ensures c in cs {
      var k :| 0 <= k < |res| && res[k] == c;
    }
    forall c | c in cs && c != cs[i] ensures c in res {
      var k :| 0 <= k < |cs| && cs[k] == c;
      if k < i { assert res[k] == c; } else { assert res[k - 1] == c; }
    }
  }

  /** The connection a tile at `p` opens on the neighbour across side `r`:
      that neighbour's side facing back, with the tile's track type. */
  predicate Facing(p: Pos, tile: TileString, r: Rotation, c: Connection) {
    tile.sides[r] != NoTrack && Step(p, r).Some?
    && c == Exit(Step(p, r).value.y, Step(p, r).value.x, FlipRotation(r), tile.sides[r])
  }

  /** The loop of `set` over sides `r` to 3: where the list still holds a
      connection on side `r` of `p`, the first one is removed; otherwise a
      track side opens the facing connection on an on-board neighbour. */
  function UpdateConnections(cs: seq<Connection>, p: Pos, tile: TileString, r: nat): seq<Connection>
    requires r <= 4
    decreases 4 - r
  {
    if r == 4 then cs
    else match FindConnection(cs, p, r)
      case Some(i) => UpdateConnections(RemoveAt(cs, i), p, tile, r + 1)
      case None =>
        if tile.sides[r] == NoTrack then UpdateConnections(cs, p, tile, r + 1)
        else match Step(p, r)
          case None => UpdateConnections(cs, p, tile, r + 1)
          case Some(q) => UpdateConnections(cs + [Exit(q.y, q.x, FlipRotation(r), tile.sides[r])], p, tile, r + 1)
  }

  /** Places `tile` at `p`: `OutOfBounds` off the board, `InvalidPlacement`
      when the placement is not valid; otherwise only cell `p` of the grid
      changes and the open connections are updated side by side. */
  function Set(b: Board, p: Pos, tile: TileString): (res: Result<Board>)
    ensures res.Ok? <==> IsValid(b, p, tile) == Ok(true)
    ensures res.Err? ==> res.error == if InBounds(p) then InvalidPlacement else OutOfBounds
    ensures res.Ok? ==> Grids.Get(res.value.grid, p) == Some(tile)
    ensures res.Ok? ==> forall q :: InBounds(q) && q != p ==> Grids.Get(res.value.grid, q) == Grids.Get(b.grid, q)
  {
    if !InBounds(p) then Err(OutOfBounds)
    else if IsValid(b, p, tile) != Ok(true) then Err(InvalidPlacement)
    else
      forall q | InBounds(q) && q != p
        ensures Index(q) != Index(p)
      {
        IndexInjective(p, q);
      }
      Ok(Board(Grids.Set(Clone(b.grid), p, tile), UpdateConnections(b.openConnections, p, tile, 0)))
  }

  /** Every connection the update leaves either was in the list already or
      is one a track side of the tile opens. */
  lemma {:induction false} UpdateSound(cs: seq<Connection>, p: Pos, tile: TileString, r: nat, c: Connection)
    requires r <= 4
    requires c in UpdateConnections(cs, p, tile, r)
    decreases 4 - r
    ensures c in cs || exists s: Rotation :: r <= s && Facing(p, tile, s, c)
  {
    if r < 4 {
      match FindConnection(cs, p, r)
      case Some(i) =>
        UpdateSound(RemoveAt(cs, i), p, tile, r + 1, c);
        RemoveAtMembers(cs, i);
      case None =>
        if tile.sides[r] == NoTrack || Step(p, r).None? {
          UpdateSound(cs, p, tile, r + 1, c);
        } else {
          var q := Step(p, r).value;
          var n := Exit(q.y, q.x, FlipRotation(r), tile.sides[r]);
          UpdateSound(cs + [n], p, tile, r + 1, c);
          if c == n {
            assert Facing(p, tile, r, c);
          }
        }
    }
  }

  /** A connection off cell `p`, or on a side of `p` the update has already
      passed, survives the update. */
  lemma {:induction false} UpdateKeeps(cs: seq<Connection>, p: Pos, tile: TileString, r: nat, c: Connection)
    requires r <= 4
    requires c in cs && !(At(c, p) && r <= c.r)
    decreases 4 - r
    ensures c in UpdateConnections(cs, p, tile, r)
  {
    if r < 4 {
      match FindConnection(cs, p, r)
      case Some(i) =>
        RemoveAtMembers(cs, i);
        UpdateKeeps(RemoveAt(cs, i), p, tile, r + 1, c);
      case None =>
        if tile.sides[r] == NoTrack || Step(p, r).None? {
          UpdateKeeps(cs, p, tile, r + 1, c);
        } else {
          var q := Step(p, r).value;
          var n := Exit(q.y, q.x, FlipRotation(r), tile.sides[r]);
          UpdateKeeps(cs + [n], p, tile, r + 1, c);
        }
    }
  }

  /** No side of cell `p` from `r` on carries two open connections. */
  predicate SingleAt(cs: seq<Connection>, p: Pos, r: nat) {
    forall i, j :: 0 <= i < j < |cs| && At(cs[i], p) && At(cs[j], p) && r <= cs[i].r ==> cs[i].r != cs[j].r
  }

  /** A connection the tile opens lies on a neighbour, never on `p` itself. */
  lemma FacingNotAt(p: Pos, tile: TileString, r: Rotation, c: Connection)
    requires Facing(p, tile, r, c)
    ensures !At(c, p)
  {
    StepSound(p, r);
  }

  /** When no side of `p` carries two connections, the update leaves no
      connection on the sides of `p` it visits. */
  lemma {:induction false} UpdateDrops(cs: seq<Connection>, p: Pos, tile: TileString, r: nat, c: Connection)
    requires r <= 4
    requires SingleAt(cs, p, r)
    requires c in UpdateConnections(cs, p, tile, r) && At(c, p)
    decreases 4 - r
    ensures c in cs && c.r < r
  {
    if r < 4 {
      match FindConnection(cs, p, r)
      case Some(i) =>
        var rest := RemoveAt(cs, i);
        assert SingleAt(rest, p, r + 1);
        UpdateDrops(rest, p, tile, r + 1, c);
        RemoveAtMembers(cs, i);
      case None =>
        if tile.sides[r] == NoTrack || Step(p, r).None? {
          UpdateDrops(cs, p, tile, r + 1, c);
        } else {
          var q := Step(p, r).value;
          var n := Exit(q.y, q.x, FlipRotation(r), tile.sides[r]);
          FacingNotAt(p, tile, r, n);
          assert SingleAt(cs + [n], p, r + 1);
          UpdateDrops(cs + [n], p, tile, r + 1, c);
        }
    }
  }

  /** A track side of `p` with no open connection yet opens the facing
      connection on its on-board neighbour. */
  lemma {:induction false} UpdateAdds(cs: seq<Connection>, p: Pos, tile: TileString, r: nat, s: Rotation, c: Connection)
    requires r <= s
    requires Facing(p, tile, s, c)
    requires forall d :: d in cs ==> !(At(d, p) && d.r == s)
    decreases 4 - r
    ensures c in UpdateConnections(cs, p, tile, r)
  {
    FacingNotAt(p, tile, s, c);
    match FindConnection(cs, p, r)
    case Some(i) =>
      RemoveAtMembers(cs, i);
      UpdateAdds(RemoveAt(cs, i), p, tile, r + 1, s, c);
    case None =>
      if tile.sides[r] == NoTrack || Step(p, r).None? {
        UpdateAdds(cs, p, tile, r + 1, s, c);
      } else {
        var q := Step(p, r).value;
        var n := Exit(q.y, q.x, FlipRotation(r), tile.sides[r]);
        FacingNotAt(p, tile, r, n);
        if r == s {
          UpdateKeeps(cs + [n], p, tile, r + 1, c);
        } else {
          UpdateAdds(cs + [n], p, tile, r + 1, s, c);
        }
      }
  }

  /** What a successful `set` does to the open connections: connections off
      cell `p` stay, a side of `p` without an open connection that carries
      track opens the facing connection on its on-board neighbour, nothing
      else appears, and when no side of `p` carried two connections none is
      left on `p`. */
  lemma SetConnections(b: Board, p: Pos, tile: TileString, c: Connection)
    requires Set(b, p, tile).Ok?
    ensures c in b.openConnections && !At(c, p) ==> c in Set(b, p, tile).value.openConnections
    ensures (exists s: Rotation :: Facing(p, tile, s, c) && forall d :: d in b.openConnections ==> !(At(d, p) && d.r == s))
      ==> c in Set(b, p, tile).value.openConnections
    ensures c in Set(b, p, tile).value.openConnections ==>
      c in b.openConnections || exists s: Rotation :: Facing(p, tile, s, c)
    ensures SingleAt(b.openConnections, p, 0) && c in Set(b, p, tile).value.openConnections ==> !At(c, p)
  {
    var cs := b.openConnections;
    var res := Set(b, p, tile).value.openConnections;
    if c in cs && !At(c, p) {
      UpdateKeeps(cs, p, tile, 0, c);
    }
    if exists s: Rotation :: Facing(p, tile, s, c) && forall d :: d in cs ==> !(At(d, p) && d.r == s) {
      var s: Rotation :| Facing(p, tile, s, c) && forall d :: d in cs ==> !(At(d, p) && d.r == s);
      UpdateAdds(cs, p, tile, 0, s, c);
    }
    if c in res {
      UpdateSound(cs, p, tile, 0, c);
      if SingleAt(cs, p, 0) && At(c, p) {
        UpdateDrops(cs, p, tile, 0, c);
      }
    }
  }
  /** Two connections name the same side of the same cell. */
  predicate SameSide(c: Connection, d: Connection) {
    c.y == d.y && c.x == d.x && c.r == d.r
  }

  /** The open-connection list of a board reached by placements: every
      connection is on the board, no side of a cell carries two connections,
      and a connection whose side faces an on-board cell faces an occupied
      one (it was opened by the tile placed there). */
  ghost predicate WellFormed(b: Board) {
    && (forall c :: c in b.openConnections ==> InBounds(c.Position()))
    && DistinctSides(b.openConnections)
    && (forall c :: c in b.openConnections && Step(c.Position(), c.r).Some? ==>
          Grids.Get(b.grid, Step(c.Position(), c.r).value).Some?)
  }

  /** A new board is well formed: the exits sit on distinct cells and face
      off the board. */
  lemma NewBoardWellFormed()
    ensures WellFormed(NewBoard())
  {
    ExitsOnBoundary();
    forall c | c in Exits
      ensures Step(c.Position(), c.r).None?
    {
      StepSound(c.Position(), c.r);
    }
  }

  /** No side of a cell carries two connections of the list. */
  predicate DistinctSides(cs: seq<Connection>) {
    forall i, j :: 0 <= i < j < |cs| ==> !SameSide(cs[i], cs[j])
  }

  lemma RemoveAtDistinct(cs: seq<Connection>, i: nat)
    requires i < |cs| && DistinctSides(cs)
    ensures DistinctSides(RemoveAt(cs, i))
  {
    var rest := RemoveAt(cs, i);
    forall k, l | 0 <= k < l < |rest|
      ensures !SameSide(rest[k], rest[l])
    {
      var k' := if k < i then k else k + 1;
      var l' := if l < i then l else l + 1;
      assert rest[k] == cs[k'] && rest[l] == cs[l'];
    }
  }

  lemma AppendDistinct(cs: seq<Connection>, n: Connection)
    requires DistinctSides(cs)
    requires forall d :: d in cs ==> !SameSide(n, d)
    ensures DistinctSides(cs + [n])
  {
    var ext := cs + [n];
    forall k, l | 0 <= k < l < |ext|
      ensures !SameSide(ext[k], ext[l])
    {
      if l == |cs| {
        assert ext[k] in cs;
      }
    }
  }

  /** The update keeps sides distinct provided no connection the tile opens
      is on a side the list already holds. */
  lemma {:induction false} UpdateUnique(cs: seq<Connection>, p: Pos, tile: TileString, r: nat)
    requires r <= 4
    requires DistinctSides(cs)
    requires forall s: Rotation, c, d :: r <= s && Facing(p, tile, s, c) && d in cs ==> !SameSide(c, d)
    decreases 4 - r
    ensures DistinctSides(UpdateConnections(cs, p, tile, r))
  {
    if r < 4 {
      match FindConnection(cs, p, r)
      case Some(i) =>
        RemoveAtMembers(cs, i);
        RemoveAtDistinct(cs, i);
        UpdateUnique(RemoveAt(cs, i), p, tile, r + 1);
      case None =>
        if tile.sides[r] == NoTrack || Step(p, r).None? {
          UpdateUnique(cs, p, tile, r + 1);
        } else {
          var q := Step(p, r).value;
          var n := Exit(q.y, q.x, FlipRotation(r), tile.sides[r]);
          assert Facing(p, tile, r, n);
          AppendDistinct(cs, n);
          var ext := cs + [n];
          forall s: Rotation, c, d | r + 1 <= s && Facing(p, tile, s, c) && d in ext
            ensures !SameSide(c, d)
          {
            if d == n {
              StepInjective(p, r, s);
            }
          }
          UpdateUnique(ext, p, tile, r + 1);
        }
    }
  }

  /** A connection left after a placement is on the board and, when its side
      faces an on-board cell, faces an occupied one. */
  lemma SetKeepsConnection(b: Board, p: Pos, tile: TileString, c: Connection)
    requires WellFormed(b) && Set(b, p, tile).Ok?
    requires c in Set(b, p, tile).value.openConnections
    ensures InBounds(c.Position())
    ensures Step(c.Position(), c.r).Some? ==> Grids.Get(Set(b, p, tile).value.grid, Step(c.Position(), c.r).value).Some?
  {
    SetConnections(b, p, tile, c);
    if c !in b.openConnections {
      var s: Rotation :| Facing(p, tile, s, c);
      StepSound(p, s);
      StepBack(p, s, Step(p, s).value);
    } else {
      StepSound(c.Position(), c.r);
    }
  }

  /** No connection a placement opens is on a side the list already holds:
      such a side would face the cell being filled, which is empty. */
  lemma SetOpensFreshSides(b: Board, p: Pos, tile: TileString, s: Rotation, c: Connection, d: Connection)
    requires WellFormed(b) && IsValid(b, p, tile) == Ok(true)
    requires Facing(p, tile, s, c) && d in b.openConnections
    ensures !SameSide(c, d)
  {
    if SameSide(c, d) {
      StepBack(p, s, Step(p, s).value);
    }
  }

  /** Placing a tile keeps the open-connection list well formed. */
  lemma SetWellFormed(b: Board, p: Pos, tile: TileString)
    requires WellFormed(b) && Set(b, p, tile).Ok?
    ensures WellFormed(Set(b, p, tile).value)
  {
    var b2 := Set(b, p, tile).value;
    var cs := b.openConnections;
    assert forall c :: c in b2.openConnections ==>
      InBounds(c.Position()) && (Step(c.Position(), c.r).Some? ==> Grids.Get(b2.grid, Step(c.Position(), c.r).value).Some?) by {
      forall c | c in b2.openConnections
        ensures InBounds(c.Position())
        ensures Step(c.Position(), c.r).Some? ==> Grids.Get(b2.grid, Step(c.Position(), c.r).value).Some?
      {
        SetKeepsConnection(b, p, tile, c);
      }
    }
    assert forall s: Rotation, c, d :: Facing(p, tile, s, c) && d in cs ==> !SameSide(c, d) by {
      forall s: Rotation, c, d | Facing(p, tile, s, c) && d in cs
        ensures !SameSide(c, d)
      {
        SetOpensFreshSides(b, p, tile, s, c, d);
      }
    }
    assert b2.openConnections == UpdateConnections(cs, p, tile, 0);
    UpdateUnique(cs, p, tile, 0);
  }

  /** On a well-formed board a placement leaves no open connection on the
      cell it fills. */
  lemma SetClosesCell(b: Board, p: Pos, tile: TileString, c: Connection)
    requires WellFormed(b) && Set(b, p, tile).Ok?
    requires c in Set(b, p, tile).value.openConnections
    ensures !At(c, p)
  {
    assert SingleAt(b.openConnections, p, 0);
    SetConnections(b, p, tile, c);
  }
}

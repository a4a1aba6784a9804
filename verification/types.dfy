/** Connector values, tiles, open slots, rotations and positions: the vocabulary
    shared by every other module (src/logic/types.ts, src/logic/dice.ts). */
module Types {
  import opened Wrappers

  /** Side length of the square board. */
  const Size: int := 7

  /** The five connection types. A tile side carries `Road`, `Rail` or `NoTrack`;
      `Edge` and `Unfilled` only appear in open slots. */
  datatype Conn = Road | Rail | NoTrack | Edge | Unfilled

  /** The one-character code of each connection type. */
  function ConnChar(c: Conn): char {
    match c
    case Road => 'D'
    case Rail => 'L'
    case NoTrack => '_'
    case Edge => 'E'
    case Unfilled => '.'
  }

  /** Reads one connection-type character. */
  function ParseConn(ch: char): (r: Option<Conn>)
    ensures r.Some? ==> ConnChar(r.value) == ch
  {
    if ch == 'D' then Some(Road)
    else if ch == 'L' then Some(Rail)
    else if ch == '_' then Some(NoTrack)
    else if ch == 'E' then Some(Edge)
    else if ch == '.' then Some(Unfilled)
    else None
  }

  predicate IsTrack(c: Conn) {
    c == Road || c == Rail
  }

  /** A track type: road or rail. */
  type TrackType = c: Conn | c == Road || c == Rail witness Road

  /** A tile side: a track type or no track. */
  type Side = c: Conn | c == Road || c == Rail || c == NoTrack witness NoTrack

  /** A tile: four sides (N, E, S, W) and the overpass flag (suffix "o"). */
  datatype Tile = Tile(sides: seq<Side>, overpass: bool)

  /** A well-formed tile has exactly four sides. */
  type TileString = t: Tile | |t.sides| == 4 witness Tile([NoTrack, NoTrack, NoTrack, NoTrack], false)

  /** An open slot: one connection type per side. */
  type OpenSlot = s: seq<Conn> | |s| == 4 witness [NoTrack, NoTrack, NoTrack, NoTrack]

  /** Side index: 0 north, 1 east, 2 south, 3 west. */
  type Rotation = r: int | 0 <= r < 4

  datatype Pos = Pos(y: int, x: int)

  /** A position together with the track type being followed there. */
  datatype TrackPos = TrackPos(p: Pos, t: TrackType)

  predicate InBounds(p: Pos) {
    0 <= p.y < Size && 0 <= p.x < Size
  }

  /** The textual form of a tile: four side characters, then "o" for an overpass. */
  function TileChars(t: TileString): (s: seq<char>)
    ensures |s| == if t.overpass then 5 else 4
    ensures forall r :: 0 <= r < 4 ==> s[r] == ConnChar(t.sides[r])
  {
    [ConnChar(t.sides[0]), ConnChar(t.sides[1]), ConnChar(t.sides[2]), ConnChar(t.sides[3])]
      + (if t.overpass then ['o'] else [])
  }

  /** Reads a tile side character: only D, L and _ are sides. */
  function ParseSide(ch: char): (r: Option<Side>)
    ensures r.Some? <==> ch in {'D', 'L', '_'}
  {
    match ParseConn(ch)
    case Some(c) => if c == Road || c == Rail || c == NoTrack then Some(c) else None
    case None => None
  }

  /** Reads a tile string: four side characters optionally followed by "o". */
  function ParseTile(s: seq<char>): Option<TileString> {
    if !(|s| == 4 || (|s| == 5 && s[4] == 'o')) then None
    else
      match (ParseSide(s[0]), ParseSide(s[1]), ParseSide(s[2]), ParseSide(s[3]))
      case (Some(a), Some(b), Some(c), Some(d)) => Some(Tile([a, b, c, d], |s| == 5))
      case _ => None
  }

  /** The connection type has exactly five distinct one-character codes, and
      each code reads back as its connection type. */
  lemma ConnectionTypeAlphabet()
    ensures forall c: Conn :: ParseConn(ConnChar(c)) == Some(c)
    ensures forall c1: Conn, c2: Conn :: ConnChar(c1) == ConnChar(c2) ==> c1 == c2
    ensures (set c: Conn | true :: ConnChar(c)) == {'D', 'L', '_', 'E', '.'}
  {
    var all := set c: Conn | true :: ConnChar(c);
    assert ConnChar(Road) in all && ConnChar(Rail) in all && ConnChar(NoTrack) in all;
    assert ConnChar(Edge) in all && ConnChar(Unfilled) in all;
  }

  /** A side value is a track type exactly when it is road or rail, and the
      only other side value is no track. */
  lemma TrackTypes(c: Side)
    ensures IsTrack(c) <==> c in {Road, Rail}
    ensures !IsTrack(c) <==> c == NoTrack
  {
  }

  /** Printing a tile and reading it back gives the same tile. */
  lemma ParseTileChars(t: TileString)
    ensures ParseTile(TileChars(t)) == Some(t)
  {
    var s := TileChars(t);
    forall r | 0 <= r < 4
      ensures ParseSide(s[r]) == Some(t.sides[r])
    {
      assert s[r] == ConnChar(t.sides[r]);
    }
    assert Tile([t.sides[0], t.sides[1], t.sides[2], t.sides[3]], |s| == 5) == t;
  }

  /** Every string that reads as a tile is that tile's printed form. */
  lemma TileCharsOfParse(s: seq<char>, t: TileString)
    requires ParseTile(s) == Some(t)
    ensures TileChars(t) == s
  {
    forall r | 0 <= r < 4
      ensures ConnChar(t.sides[r]) == s[r]
    {
      assert ParseSide(s[r]) == Some(t.sides[r]);
    }
  }
}

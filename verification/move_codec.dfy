/** The move tokens of the Monte Carlo player (src/ai/monteCarloV2.ts): a move
    is written as its row digit, column digit and transformed tile, and a
    token is played back by finding an available tile of which the written
    tile is a transform. */
module MoveCodec {
  import opened Wrappers
  import opened Types
  import opened Helpers
  import GameStates
  import SlotBoard

  /** An available tile as the player reads it: its index among the dice,
      whether it is a special tile, and its sides. */
  datatype AvailableTile = AvailableTile(index: int, special: bool, tile: TileString)

  /** A candidate move: which tile, where, and in which transform. */
  datatype Move = Move(index: int, special: bool, p: Pos, tTile: TileString)

  /** The character of a decimal digit. */
  function DigitChar(d: nat): (c: char)
    requires d < 10
    ensures '0' <= c <= '9'
  {
    ('0' as int + d) as char
  }

  /** The decimal form of a natural number, as string interpolation writes it. */
  function NatString(n: nat): (s: seq<char>)
    ensures |s| >= 1 && (n < 10 <==> |s| == 1)
  {
    if n < 10 then [DigitChar(n)] else NatString(n / 10) + [DigitChar(n % 10)]
  }

  /** The decimal form of an integer, with a leading minus sign when negative. */
  function IntString(i: int): (s: seq<char>)
    ensures 0 <= i < 10 ==> s == [DigitChar(i)]
  {
    if i < 0 then ['-'] + NatString(-i) else NatString(i)
  }

  /** `parseInt` of a single character in base 10: its digit, or nothing
      for the NaN any other character gives. */
  function ParseDigit(ch: char): (d: Option<nat>)
    ensures d.Some? <==> '0' <= ch <= '9'
    ensures d.Some? ==> d.value < 10 && DigitChar(d.value) == ch
  {
    if '0' <= ch <= '9' then Some(ch as int - '0' as int) else None
  }

  /** The token of a move: row, column, then the transformed tile. */
  function EncodeMove(m: Move): seq<char> {
    IntString(m.p.y) + IntString(m.p.x) + TileChars(m.tTile)
  }

  /** The tile a token carries: everything after its first two characters. */
  function MoveTile(s: seq<char>): Option<TileString> {
    if |s| < 2 then None else ParseTile(s[2..])
  }

  /** The position a token carries: its first two characters as digits. */
  function MovePos(s: seq<char>): (res: Option<Pos>)
    ensures res.Some? <==> |s| >= 2 && '0' <= s[0] <= '9' && '0' <= s[1] <= '9'
    ensures res.Some? ==> 0 <= res.value.y < 10 && 0 <= res.value.x < 10
  {
    if |s| < 2 then None
    else match (ParseDigit(s[0]), ParseDigit(s[1]))
      case (Some(y), Some(x)) => Some(Pos(y, x))
      case _ => None
  }

  /** Available tile `j` can be turned into `t`. */
  predicate TransformsTo(avail: seq<AvailableTile>, j: nat, t: TileString)
    requires j < |avail|
  {
    avail[j].tile in AllTransformedTiles(t)
  }

  /** The first available tile from `i` on of which `t` is a transform, or -1. */
  function FindTransform(avail: seq<AvailableTile>, t: TileString, i: nat): (k: int)
    requires i <= |avail|
    decreases |avail| - i
    ensures k == -1 || (i <= k < |avail| && TransformsTo(avail, k, t))
    ensures forall j :: i <= j < |avail| && (k == -1 || j < k) ==> !TransformsTo(avail, j, t)
  {
    if i == |avail| then -1
    else if TransformsTo(avail, i, t) then i
    else FindTransform(avail, t, i + 1)
  }

  /** Plays a token: the first available tile of which the token's tile is
      a transform is placed, in the token's transform, at the token's
      position. Fails when no available tile matches; a token that is not
      two digits and a tile fails as malformed. */
  function MakeMove(gs: GameStates.GameState, avail: seq<AvailableTile>, s: seq<char>): (res: Result<GameStates.GameState>)
    ensures MoveTile(s).Some? ==>
      (res == Err(CannotMakeMove) <==> forall j :: 0 <= j < |avail| ==> !TransformsTo(avail, j, MoveTile(s).value))
    ensures res.Ok? ==>
      (MoveTile(s).Some? && MovePos(s).Some?
       && SlotBoard.Get(res.value.board, MovePos(s).value) == Some(MoveTile(s).value))
  {
    match MoveTile(s)
    case None => Err(MalformedMove)
    case Some(moveTile) =>
      var k := FindTransform(avail, moveTile, 0);
      if k < 0 then Err(CannotMakeMove)
      else match MovePos(s)
        case None => Err(MalformedMove)
        case Some(p) => GameStates.PlaceTile(gs, avail[k].index, avail[k].special, p, moveTile)
  }

  /** A move on the board reads back from its token as its position and tile. */
  lemma DecodeEncode(m: Move)
    requires 0 <= m.p.y < 10 && 0 <= m.p.x < 10
    ensures MovePos(EncodeMove(m)) == Some(m.p)
    ensures MoveTile(EncodeMove(m)) == Some(m.tTile)
  {
    var s := EncodeMove(m);
    assert s[0] == DigitChar(m.p.y) && s[1] == DigitChar(m.p.x);
    assert s[2..] == TileChars(m.tTile);
    ParseTileChars(m.tTile);
  }

  /** Two board moves share a token exactly when they share position and
      transformed tile; the tile index and special flag are not written. */
  lemma EncodeInjective(m1: Move, m2: Move)
    requires InBounds(m1.p) && InBounds(m2.p)
    ensures EncodeMove(m1) == EncodeMove(m2) <==> m1.p == m2.p && m1.tTile == m2.tTile
  {
    if EncodeMove(m1) == EncodeMove(m2) {
      DecodeEncode(m1);
      DecodeEncode(m2);
    }
  }

  /** Playing back the token of a move the player generated (a valid
      transform of some available tile) places exactly that transform at
      that position, spending the first available tile of which it is a
      transform, which is the move's own tile or an earlier one. */
  lemma MakeMoveReplays(gs: GameStates.GameState, avail: seq<AvailableTile>, m: Move, k: nat)
    requires InBounds(m.p) && k < |avail| && m.tTile in AllTransformedTiles(avail[k].tile)
    requires SlotBoard.IsValid(gs.board, m.p, m.tTile)
    ensures var res := MakeMove(gs, avail, EncodeMove(m));
      var j := FindTransform(avail, m.tTile, 0);
      && 0 <= j <= k
      && res.Ok?
      && SlotBoard.Get(res.value.board, m.p) == Some(m.tTile)
      && res.value.availableTiles == gs.availableTiles
      && (avail[j].special ==> res.value.usedSpecialTileIndexes == gs.usedSpecialTileIndexes + [avail[j].index])
      && (!avail[j].special ==> res.value.usedTileIndexes == gs.usedTileIndexes + [avail[j].index])
  {
    var s := EncodeMove(m);
    DecodeEncode(m);
    TransformSymmetric(avail[k].tile, m.tTile);
    assert TransformsTo(avail, k, m.tTile);
    var j := FindTransform(avail, m.tTile, 0);
    assert 0 <= j <= k;
    assert MakeMove(gs, avail, s) == GameStates.PlaceTile(gs, avail[j].index, avail[j].special, m.p, m.tTile);
  }
}

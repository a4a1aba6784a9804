/** The round state machine (src/logic/GameState.ts): tiles are placed from the
    current dice roll, and a round may end once no unused tile can go anywhere.
    The dice of the next round are a parameter instead of a random roll. */
module GameStates {
  import opened Wrappers
  import opened Types
  import opened Grids
  import opened Seqs
  import SlotBoard

  /** The number of rounds in a game. */
  const NumRounds: int := 7

  datatype GameState = GameState(
    gameEnded: bool,
    roundNumber: int,
    availableTiles: seq<TileString>,
    usedTileIndexes: seq<int>,
    usedSpecialTileIndexes: seq<int>,
    board: SlotBoard.Board)

  /** The state a game starts in, given the first roll of the dice. */
  function NewGame(dice: seq<TileString>): (gs: GameState)
    ensures !gs.gameEnded && gs.roundNumber == 1 && gs.availableTiles == dice
    ensures gs.usedTileIndexes == [] && gs.usedSpecialTileIndexes == []
    ensures gs.board == SlotBoard.NewBoard()
  {
    GameState(false, 1, dice, [], [], SlotBoard.NewBoard())
  }

  /** Places `tile` at `p` on the board and records the tile's index as used,
      among the special tiles when `special` holds. Fails exactly when the
      board rejects the placement. */
  function PlaceTile(gs: GameState, tileIndex: int, special: bool, p: Pos, tile: TileString): (res: Result<GameState>)
    ensures res.Ok? <==> SlotBoard.IsValid(gs.board, p, tile)
    ensures res.Err? ==> res.error == InvalidPlacement
    ensures res.Ok? ==> res.value.board == SlotBoard.Set(gs.board, p, tile).value
    ensures res.Ok? ==> SlotBoard.Get(res.value.board, p) == Some(tile)
    ensures res.Ok? ==> res.value.gameEnded == gs.gameEnded && res.value.roundNumber == gs.roundNumber
    ensures res.Ok? ==> res.value.availableTiles == gs.availableTiles
    ensures res.Ok? && special ==>
      res.value.usedSpecialTileIndexes == gs.usedSpecialTileIndexes + [tileIndex]
      && res.value.usedTileIndexes == gs.usedTileIndexes
    ensures res.Ok? && !special ==>
      res.value.usedTileIndexes == gs.usedTileIndexes + [tileIndex]
      && res.value.usedSpecialTileIndexes == gs.usedSpecialTileIndexes
  {
    match SlotBoard.Set(gs.board, p, tile)
    case Err(e) => Err(e)
    case Ok(board) =>
      if special then
        Ok(gs.(usedSpecialTileIndexes := gs.usedSpecialTileIndexes + [tileIndex], board := board))
      else
        Ok(gs.(usedTileIndexes := gs.usedTileIndexes + [tileIndex], board := board))
  }

  /** No cell accepts any transform of `tile`, scanning the cells in row-major
      order as the nested loops over `y` and `x` do. */
  predicate NoValidCell(b: SlotBoard.Board, tile: TileString) {
    AllFrom(RejectsAt(b, tile), Size * Size, 0)
  }

  /** Whether the cell with flat index `i` accepts no transform of `tile`. */
  function RejectsAt(b: SlotBoard.Board, tile: TileString): nat -> bool {
    (i: nat) => i >= Size * Size || !SlotBoard.IsValidWithTransform(b, PosOf(i), tile)
  }

  /** No on-board cell accepts any transform of `tile`. */
  ghost predicate FitsNowhere(b: SlotBoard.Board, tile: TileString) {
    forall q :: InBounds(q) ==> !SlotBoard.IsValidWithTransform(b, q, tile)
  }

  /** The row-major scan agrees with the quantified statement. */
  lemma NoValidCellIff(b: SlotBoard.Board, tile: TileString)
    ensures NoValidCell(b, tile) <==> FitsNowhere(b, tile)
  {
    var f := RejectsAt(b, tile);
    AllFromIff(f, Size * Size, 0);
    if NoValidCell(b, tile) {
      forall q | InBounds(q)
        ensures !SlotBoard.IsValidWithTransform(b, q, tile)
      {
        PosOfIndex(q);
        assert f(Index(q));
      }
    } else {
      var k :| 0 <= k < Size * Size && !f(k);
      assert InBounds(PosOf(k));
    }
  }

  /** The available tile at index `k` cannot keep the round from ending: it
      is used already or fits nowhere, or the index is past the end. */
  predicate CannotBlock(gs: GameState, k: nat) {
    k >= |gs.availableTiles| || k in gs.usedTileIndexes || NoValidCell(gs.board, gs.availableTiles[k])
  }

  /** A round may end when the game is still running and every available tile
      is used already or fits nowhere on the board in any orientation. */
  predicate CanEndRound(gs: GameState) {
    !gs.gameEnded && AllFrom(CannotBlockAt(gs), |gs.availableTiles|, 0)
  }

  function CannotBlockAt(gs: GameState): nat -> bool {
    (k: nat) => CannotBlock(gs, k)
  }

  /** The unused tile at index `i` cannot be placed anywhere. */
  ghost predicate Stuck(gs: GameState, i: int)
    requires 0 <= i < |gs.availableTiles|
  {
    FitsNowhere(gs.board, gs.availableTiles[i])
  }

  /** A round may end exactly when the game has not ended and every available
      tile whose index is unused fits at no cell in any of its transforms. */
  lemma CanEndRoundIff(gs: GameState)
    ensures CanEndRound(gs) <==>
      !gs.gameEnded
      && forall k :: 0 <= k < |gs.availableTiles| && k !in gs.usedTileIndexes ==> Stuck(gs, k)
  {
    var n := |gs.availableTiles|;
    assert CanEndRound(gs) <==> !gs.gameEnded && forall k :: 0 <= k < n ==> CannotBlockAt(gs)(k) by {
      AllFromIff(CannotBlockAt(gs), n, 0);
    }
    assert forall k :: 0 <= k < n ==> (CannotBlockAt(gs)(k) <==> k in gs.usedTileIndexes || Stuck(gs, k)) by {
      forall k | 0 <= k < n
        ensures CannotBlockAt(gs)(k) <==> k in gs.usedTileIndexes || Stuck(gs, k)
      {
        CannotBlockIff(gs, k);
      }
    }
  }

  lemma CannotBlockIff(gs: GameState, k: nat)
    requires k < |gs.availableTiles|
    ensures CannotBlock(gs, k) <==> k in gs.usedTileIndexes || Stuck(gs, k)
  {
    NoValidCellIff(gs.board, gs.availableTiles[k]);
  }

  /** Ends the round: fails unless the round may end; in the last round the
      game ends; otherwise the next round starts with `nextDice`, no regular
      tile used, and the board and special tiles carried over. */
  function EndRound(gs: GameState, nextDice: seq<TileString>): (res: Result<GameState>)
    ensures res.Ok? <==> CanEndRound(gs)
    ensures res.Err? ==> res.error == CannotEndRound
    ensures res.Ok? && gs.roundNumber == NumRounds ==>
      res.value == gs.(gameEnded := true)
    ensures res.Ok? && gs.roundNumber != NumRounds ==>
      && !res.value.gameEnded
      && res.value.roundNumber == gs.roundNumber + 1
      && res.value.availableTiles == nextDice
      && res.value.usedTileIndexes == []
      && res.value.usedSpecialTileIndexes == gs.usedSpecialTileIndexes
      && res.value.board == gs.board
  {
    if !CanEndRound(gs) then Err(CannotEndRound)
    else if gs.roundNumber == NumRounds then Ok(gs.(gameEnded := true))
    else Ok(gs.(roundNumber := gs.roundNumber + 1, availableTiles := nextDice, usedTileIndexes := []))
  }

  /** The states a game can be in: the round is between 1 and 7, and the game
      has only ended in the last round. */
  predicate Consistent(gs: GameState) {
    1 <= gs.roundNumber <= NumRounds && (gs.gameEnded ==> gs.roundNumber == NumRounds)
  }

  /** Rounds still to be ended, counting the current one. */
  function RoundsLeft(gs: GameState): nat
    requires Consistent(gs)
  {
    if gs.gameEnded then 0 else NumRounds + 1 - gs.roundNumber
  }

  /** A new game is consistent, with seven rounds to play. */
  lemma NewGameConsistent(dice: seq<TileString>)
    ensures Consistent(NewGame(dice)) && RoundsLeft(NewGame(dice)) == NumRounds
  {
  }

  /** Placing a tile keeps the state consistent and ends no round. */
  lemma PlaceTileConsistent(gs: GameState, tileIndex: int, special: bool, p: Pos, tile: TileString)
    requires Consistent(gs) && PlaceTile(gs, tileIndex, special, p, tile).Ok?
    ensures Consistent(PlaceTile(gs, tileIndex, special, p, tile).value)
    ensures RoundsLeft(PlaceTile(gs, tileIndex, special, p, tile).value) == RoundsLeft(gs)
  {
  }

  /** Ending a round keeps the state consistent and uses up one round, so a
      game ends after at most seven successful calls. */
  lemma EndRoundProgress(gs: GameState, nextDice: seq<TileString>)
    requires Consistent(gs) && EndRound(gs, nextDice).Ok?
    ensures Consistent(EndRound(gs, nextDice).value)
    ensures RoundsLeft(EndRound(gs, nextDice).value) == RoundsLeft(gs) - 1
  {
  }

  /** Once the game has ended no round can end again. */
  lemma EndedGameIsFinal(gs: GameState, nextDice: seq<TileString>)
    requires gs.gameEnded
    ensures !CanEndRound(gs) && EndRound(gs, nextDice) == Err(CannotEndRound)
  {
  }
}

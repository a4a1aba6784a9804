# Railroad Ink board, scoring and move model

This project models the rules engine of a Railroad Ink player in Dafny.
Railroad Ink is a roll-and-write game. Each round, dice show road and rail
tiles. The player draws them on a 7×7 board whose rim has twelve fixed
exits. At the end the board is scored:

- exits joined into networks;
- the longest road and the longest rail;
- the nine centre squares;
- a penalty for every open track end.

The model covers these parts of the repository:

- the tile vocabulary and tile geometry: sides, rotations, the eight transforms, and the slot test (`Types`, `Helpers`, `BoardExits`);
- the sparse 7×7 grid (`Grids`);
- three board revisions:
  - the current board with open slots (`SlotBoard`);
  - the tile-only board (`TileBoard`), with the placement cases of its tests that build on earlier placements (`TileBoardExamples`);
  - the first board with a list of open connections (`ConnectionBoard`);
  - plus the queries they share (`TileGrid`);
- the round state machine of a game (`GameStates`);
- orientation pruning, which keeps the meaningful transforms of a tile against a slot (`MeaningfulPlacements`), worked through its test cases (`PlacementExamples`);
- the three scorers: the current one (`Scoring`), and the first and svelte revisions (`LegacyScoring`);
- the incremental longest-route network: contraction, leaf pruning and laying a tile (`TrackNetworks`); route following and the longest route (`TrackRoutes`);
- the move tokens of the Monte Carlo player (`MoveCodec`).

Thrown exceptions become the `Err` side of a `Result`. `undefined` becomes
`None`.

Dice tiles are written as objects in `src/logic/dice.ts` and strings
elsewhere. Both are one `TileString`: four sides plus an overpass flag. An
absent side of an object tile is `NoTrack`, and `"d"`/`"l"` are `Road`/`Rail`.

The grid keeps the flat array index `y * 7 + x` as its key, so positions off
the board alias cells exactly as the source's array does.

Where the code is inconsistent, or disagrees with its surrounding
documentation, the model makes these choices:

- `Board.set` (src/logic/Board.ts:153) calls `updateSlot` with two
  arguments. `updateSlot` takes three, and its third, the slot, is then
  `undefined`. Calling `substring` on it throws a `TypeError`. So, as written,
  every placement whose track faces an empty cell throws. `SlotBoard.SetAsWritten`
  models that behaviour. `SlotBoard.Set` is a chosen repair, not what the code
  does: it updates the neighbour's existing slot, or `"____"` when the
  neighbour has none. The rest of the model uses the repair. See "Findings".
- The scorers of `src/logic/calculateScore.ts` and
  `svelte/src/logic/calculateScore.ts` use the tile board of
  `src/logic/board.ts` (its `get(y, x)` and `getConnectedTiles`). They do not
  use the current board, and the model scores that tile board.
- `getMeaningfulPlacements` as written returns a symmetric tile's
  orientation once per transform that produces it. Its tests expect each
  orientation once. See "Findings".

## Model

| member | source | states |
|---|---|---|
| Types.ParseConn | src/logic/types.ts:1-7 | a character that reads as a connection type is that type's code |
| Types.ConnectionTypeAlphabet | src/logic/types.ts:1-7 | the five connection types have five distinct codes D, L, _, E, . and each code reads back as its type |
| Types.TrackTypes | src/logic/types.ts:9-11 | a tile side is a track type exactly when it is road or rail; otherwise it is no track |
| Types.TileChars | src/logic/types.ts:13-16 | a printed tile is four side codes, plus "o" exactly for an overpass |
| Types.ParseSide | src/logic/types.ts:11 | only D, L and _ are tile sides |
| Types.ParseTileChars | src/logic/types.ts:13-16 | printing a tile and reading it back gives the same tile |
| Types.TileCharsOfParse | src/logic/types.ts:13-16 | every string that reads as a tile is that tile's printed form, so the tile string format has no aliases |
| Grids.PosOf | src/logic/Grid.ts:42-50 | every flat index of the 7×7 array names a board cell whose index it is |
| Grids.IndexInjective | src/logic/Grid.ts:20-26 | two board cells share an array slot only if they are the same cell |
| Grids.PosOfIndex | src/logic/Grid.ts:42-50 | a board cell's array index lies in 0..48 and maps back to the cell |
| Grids.Set | src/logic/Grid.ts:24-26 | after writing, the cell reads the value, and every cell with another index reads as before |
| Grids.Delete | src/logic/Grid.ts:28-30 | after deleting, the cell is empty, and every cell with another index reads as before |
| Grids.Clone | src/logic/Grid.ts:56-58 | the clone reads like the original at every position |
| Grids.CloneIndependent | src/logic/Grid.ts:56-58 | writing to a clone leaves the original grid unchanged |
| Grids.FromListLastWins | src/logic/Grid.ts:8-14 | when several list entries share a cell, the last one is the value stored |
| Grids.FromListUntouched | src/logic/Grid.ts:8-14 | a cell that no entry mentions stays empty |
| Grids.EntriesFrom | src/logic/Grid.ts:42-50 | the scan from an index yields exactly the defined on-board cells from there, each with its value, in strictly increasing index order |
| Grids.EntriesEmpty | src/logic/Grid.ts:42-50 | an empty grid has no entries |
| Grids.Entries | src/logic/Grid.ts:42-50 | the entries are exactly the defined on-board cells with their values, in row-major order without repeats |
| Grids.Keys | src/logic/Grid.ts:52-54 | the keys are the entries' positions, in the same order |
| Grids.KeysExactlyDefined | src/logic/Grid.ts:52-54 | a position is a key exactly when it is on the board and defined |
| Helpers.StepSound | src/logic/helpers.ts:11-22 | a step lands on the board next to the cell; from a board cell it fails exactly when the side faces the board edge |
| Helpers.AddRotation | src/logic/helpers.ts:24-26 | adding rotations works modulo 4 in both directions; the result is always a rotation |
| Helpers.FlipRotation | src/logic/helpers.ts:28-30 | the opposite side is two quarter turns away |
| Helpers.AddRotationInverse | src/logic/helpers.ts:24-26 | subtracting a rotation undoes adding it, and vice versa |
| Helpers.FlipRotationInvolution | src/logic/helpers.ts:28-30 | the opposite of the opposite side is the side itself, and a side is never its own opposite |
| Helpers.StepBack | src/logic/helpers.ts:11-30 | stepping across the opposite side returns to the starting cell |
| Helpers.StepInjective | src/logic/helpers.ts:11-22 | different sides of a cell lead to different cells |
| Helpers.HasTrackType | src/logic/helpers.ts:38-40 | a tile has a track type exactly when some side carries it |
| Helpers.RotateTile | src/logic/helpers.ts:42-46 | rotating moves each side r places clockwise and keeps the overpass flag |
| Helpers.FlipTile | src/logic/helpers.ts:48-52 | flipping swaps east and west, keeps north, south and the overpass flag |
| Helpers.AllTransformedTiles | src/logic/helpers.ts:56-70 | the transform list has eight entries, starts with the tile itself and holds the transforms in the order the loops enumerate them |
| Helpers.RotateZero | src/logic/helpers.ts:42-46 | rotating by zero changes nothing |
| Helpers.RotateCompose | src/logic/helpers.ts:42-46 | two rotations compose to one rotation by their sum modulo 4 |
| Helpers.RotateFourTimes | src/logic/helpers.ts:42-46 | four quarter turns give back the tile |
| Helpers.FlipInvolution | src/logic/helpers.ts:48-52 | flipping twice gives back the tile |
| Helpers.SidesOfCompose | src/logic/helpers.ts:56-75 | applying one of the eight transforms after another is again one of the eight |
| Helpers.SidesOfPermutes | src/logic/helpers.ts:56-75 | each transform keeps how many sides carry each value |
| Helpers.AllTransformedTilesArePermutations | src/logic/helpers.ts:56-70 | every transform of a tile only reorders its sides and keeps the overpass flag |
| Helpers.TransformOrbitClosed | src/logic/helpers.ts:56-75 | transforming a transform of a tile yields a transform of the tile |
| Helpers.Inverse | src/logic/helpers.ts:56-75 | every one of the eight transforms has an inverse among them |
| Helpers.SidesOfInverse | src/logic/helpers.ts:56-75 | applying a transform and then its inverse restores the sides |
| Helpers.TransformSymmetric | src/logic/helpers.ts:56-70 | if u is a transform of t, then t is a transform of u |
| Helpers.FitsFrom | src/logic/helpers.ts:98-106 | the side scan succeeds exactly when no side that both tile and slot constrain disagrees |
| Helpers.TileFitsInSlot | src/logic/helpers.ts:98-106 | a tile fits a slot exactly when every side that both constrain agrees; "_" on either side is no constraint |
| Helpers.UpdateSlot | src/logic/helpers.ts:108-110 | the updated slot shows the track type on the given side and is unchanged on the other three |
| BoardExits.ExitsOnBoundary | src/logic/Board.ts:24-37 | the twelve exits lie on distinct board cells, each on the edge its side faces |
| SlotBoard.ExitSlotsMatchExits | src/logic/Board.ts:39-52 | a fresh board's slot at each exit cell demands the exit's track on the exit's side and nothing else; no other cell has a slot |
| SlotBoard.IsValid | src/logic/Board.ts:90-93 | a valid placement needs an open slot at the cell |
| SlotBoard.NewBoardValidOnlyAtExits | src/logic/Board.ts:57-63 | on a fresh board only the twelve exit cells accept a tile |
| SlotBoard.AnyValid | src/logic/Board.ts:95-97 | some tile of the list is valid at the cell exactly when the scan says so |
| SlotBoard.IsValidWithTransform | src/logic/Board.ts:95-97 | true exactly when one of the eight transforms is valid at the cell |
| SlotBoard.CollectValid | src/logic/Board.ts:99-107 | the collected list keeps what it started with, adds exactly the valid tiles of the list, and never repeats a tile |
| SlotBoard.GetAllValidTransformedTiles | src/logic/Board.ts:99-107 | the result holds exactly the valid transforms, each once |
| SlotBoard.ValidWithTransformIffSomeValid | src/logic/Board.ts:95-107 | some transform is valid exactly when the list of valid transforms is non-empty |
| SlotBoard.UpdateNeighbours | src/logic/Board.ts:146-154 | each empty on-board neighbour facing a track side gets that track on its facing slot side, starting from its existing slot or "____"; every other cell's slot is unchanged |
| SlotBoard.Set | src/logic/Board.ts:137-157 | a placement succeeds exactly when it is valid; the tile then occupies the cell, no other cell changes, the cell loses its slot, fed neighbours' slots get the track on their facing side, starting from their existing slot or "____" (the repaired call, see Findings), and all other slots are unchanged |
| SlotBoard.SetThenOccupied | src/logic/Board.ts:137-157 | once a tile is placed, nothing more may be placed on that cell |
| SlotBoard.FeedsFrom | src/logic/Board.ts:146-154 | the side loop finds a side feeding an empty neighbour exactly when one exists |
| SlotBoard.SetAsWritten | src/logic/Board.ts:137-157 | as written, an invalid placement throws InvalidPlacement; a valid one throws the missing-slot TypeError exactly when some track side faces an empty on-board cell; otherwise it is the same as the repaired set |
| SlotBoard.CornerAtEastExit | src/logic/Board.test.ts:48-51 | the road corner joining east and south is valid at the east exit of row 3 on a new board, and its road faces the empty cell (4, 6) |
| SlotBoard.AsWrittenSetThrows | src/logic/Board.ts:153 | as written, that first placement of the test throws the missing-slot TypeError, while the repaired set succeeds |
| SlotBoard.FedCornerFits | src/logic/Board.ts:146-154 | on any board, placing the corner at (3, 6) feeds road to the north side of the empty, slotless (4, 6), so the road corner joining north and west fits there |
| SlotBoard.ExistingTileConnection | src/logic/Board.test.ts:48-56 | with the repaired set, the test's second tile is valid below the corner, as the test expects |
| SlotBoard.OpenPositions | src/logic/Board.ts:159-163 | the open positions are exactly the on-board cells with a slot |
| GameStates.NewGame | src/logic/GameState.ts:15-29 | a new game is in round 1, not ended, with no tile used, the given dice and a fresh board |
| GameStates.PlaceTile | src/logic/GameState.ts:31-52 | placing a tile fails exactly when the board rejects it; otherwise the board holds the tile, the round and the dice are unchanged, and the index is recorded among the special or the regular used tiles |
| GameStates.NoValidCellIff | src/logic/GameState.ts:57-67 | the row-major scan finds no cell exactly when no on-board cell accepts any transform of the tile |
| GameStates.CanEndRoundIff | src/logic/GameState.ts:54-68 | a round may end exactly when the game runs on and every unused available tile fits at no cell in any transform |
| GameStates.CannotBlockIff | src/logic/GameState.ts:57-67 | a tile cannot block the end of the round exactly when it is already used or fits in no open cell in any transform; so it blocks exactly when it is unused and fits somewhere |
| GameStates.EndRound | src/logic/GameState.ts:70-86 | ending a round fails exactly when the round may not end; the last round ends the game; otherwise the next round starts with the new dice and no regular tile used, keeping the board and the special tiles |
| GameStates.NewGameConsistent | src/logic/GameState.ts:6-29 | a new game is a consistent state with seven rounds to play |
| GameStates.PlaceTileConsistent | src/logic/GameState.ts:31-52 | a placement keeps the state consistent and uses up no round |
| GameStates.EndRoundProgress | src/logic/GameState.ts:70-86 | ending a round keeps the state consistent and uses up exactly one round, so a game ends after at most seven |
| GameStates.EndedGameIsFinal | src/logic/GameState.ts:54-56 | once the game has ended, no round can end again |
| MeaningfulPlacements.MatchCountIsSize | src/logic/getMeaningfulPlacements.ts:16-36 | the match counter counts the distinct matching sides |
| MeaningfulPlacements.ErrorCountIsSize | src/logic/getMeaningfulPlacements.ts:16-36 | the error counter counts the distinct error sides |
| MeaningfulPlacements.ConflictFromExists | src/logic/getMeaningfulPlacements.ts:16-36 | the side scan aborts exactly when some side conflicts with the slot |
| MeaningfulPlacements.AssessFrom | src/logic/getMeaningfulPlacements.ts:16-36 | the scan gives nothing exactly on a conflict; otherwise it adds the matching and error sides to its counters |
| MeaningfulPlacements.Assess | src/logic/getMeaningfulPlacements.ts:11-47 | a transform is dropped exactly when a side conflicts or no side matches; otherwise it is assessed as surrounded, with its match and error counts |
| MeaningfulPlacements.CandidatesExact | src/logic/getMeaningfulPlacements.ts:11-48 | the candidates are exactly the surviving assessments, in transform order |
| MeaningfulPlacements.HasBetterFrom | src/logic/getMeaningfulPlacements.ts:50-62 | the inner search finds a better placement exactly when another placement beats this one |
| MeaningfulPlacements.KeptFrom | src/logic/getMeaningfulPlacements.ts:50-63 | the filter keeps exactly the tiles of the kept placements, in order |
| MeaningfulPlacements.GetMeaningfulPlacementsAsWritten | src/logic/getMeaningfulPlacements.ts:10-64 | the source's result is a subsequence of the eight transforms |
| MeaningfulPlacements.GetMeaningfulPlacements | src/logic/getMeaningfulPlacements.ts:10-64 | the corrected result holds the same tiles as the source's, each once, in transform order |
| MeaningfulPlacements.KeptIffUndominated | src/logic/getMeaningfulPlacements.ts:50-62 | a surrounded placement is kept exactly when no other candidate beats it |
| MeaningfulPlacements.CandidatesSurrounded | src/logic/getMeaningfulPlacements.ts:42-47 | every candidate is surrounded and is its tile's own assessment |
| MeaningfulPlacements.PlacementsAreUndominated | src/logic/getMeaningfulPlacements.ts:10-64 | a tile is returned exactly when it is a candidate that no other candidate beats |
| MeaningfulPlacements.PlacementsConnectWithoutConflict | src/logic/getMeaningfulPlacements.ts:16-40 | every returned tile is a transform of the input with no conflicting side and at least one matching side |
| MeaningfulPlacements.ReturnedPlacementsTie | src/logic/getMeaningfulPlacements.ts:50-62 | all returned orientations have equal match and error counts |
| MeaningfulPlacements.AlwaysSurrounded | src/logic/getMeaningfulPlacements.ts:42-44 | every tile string has four filled sides, so the surrounded exemption never applies |
| MeaningfulPlacements.KeptIffNoneBetter | src/logic/getMeaningfulPlacements.ts:50-62 | a surrounded placement is kept exactly when nothing in the list beats it |
| MeaningfulPlacements.KeptFromCount | src/logic/getMeaningfulPlacements.ts:50-63 | copies of one placement are all kept or all dropped |
| MeaningfulPlacements.CandidatesCount | src/logic/getMeaningfulPlacements.ts:11-48 | each transform that survives assessment contributes one candidate |
| MeaningfulPlacements.AsWrittenCount | src/logic/getMeaningfulPlacements.ts:10-64 | the source returns a winning tile once per transform that produces it, and a losing tile not at all |
| MeaningfulPlacements.PlacementsOnce | src/logic/getMeaningfulPlacements.ts:10-64 | the corrected result holds each tile at most once |
| PlacementExamples.RoadCornersDiffer | src/logic/getMeaningfulPlacements.test.ts:21 | the four orientations of the road corner are different tiles |
| PlacementExamples.RoadCornerTransforms | src/logic/getMeaningfulPlacements.test.ts:21 | the road corner's eight transforms give each orientation twice |
| PlacementExamples.RoadCornerAgainstEdgeSlot | src/logic/getMeaningfulPlacements.test.ts:21 | against "EE_D", "D__D" matches without error, "__DD" matches with one error, and the other two are dropped |
| PlacementExamples.RoadCornerOrbit | src/logic/getMeaningfulPlacements.test.ts:21 | every transform of "DD__" is one of its four orientations |
| PlacementExamples.RoadCornerCandidate | src/logic/getMeaningfulPlacements.test.ts:21 | each candidate of "DD__" against "EE_D" is one of the two corners that reach the road |
| PlacementExamples.NorthWestIsCandidate | src/logic/getMeaningfulPlacements.test.ts:21 | "D__D" is a candidate |
| PlacementExamples.NorthWestUnbeaten | src/logic/getMeaningfulPlacements.test.ts:21 | no candidate beats "D__D" |
| PlacementExamples.NorthWestTwice | src/logic/getMeaningfulPlacements.test.ts:21 | "D__D" occurs at least twice among the transforms |
| PlacementExamples.AsWrittenRepeatsCorner | src/logic/getMeaningfulPlacements.ts:50-63 | the source returns "D__D" at least twice for "DD__" against "EE_D" |
| PlacementExamples.OnlyNorthWestReturned | src/logic/getMeaningfulPlacements.test.ts:21 | the only tile returned for "DD__" against "EE_D" is "D__D" |
| PlacementExamples.CornerGoesOffEdge | src/logic/getMeaningfulPlacements.test.ts:21 | the corrected result for "DD__" against "EE_D" is exactly ["D__D"] |
| PlacementExamples.RoadStraightOrbit | src/logic/getMeaningfulPlacements.test.ts:7 | every transform of "D_D_" is one of its two orientations |
| PlacementExamples.RoadStraightAgainstRail | src/logic/getMeaningfulPlacements.test.ts:7 | against "L...", neither orientation of the straight road survives assessment |
| PlacementExamples.NoValidPlacements | src/logic/getMeaningfulPlacements.test.ts:7 | "D_D_" against "L..." returns nothing, as written and corrected |
| PlacementExamples.JunctionOrbit | src/logic/getMeaningfulPlacements.test.ts:30 | every transform of "DDD_" is one of its four orientations |
| PlacementExamples.FullJunctionAgainstThreeRoads | src/logic/getMeaningfulPlacements.test.ts:30 | against "EDDD", "_DDD" matches all three roads without error |
| PlacementExamples.PartialJunctionsAgainstThreeRoads | src/logic/getMeaningfulPlacements.test.ts:30 | against "EDDD", every other orientation matches two roads with one error |
| PlacementExamples.OnlyFullJunctionReturned | src/logic/getMeaningfulPlacements.test.ts:30 | the only tile returned for "DDD_" against "EDDD" is "_DDD" |
| PlacementExamples.JunctionConnects | src/logic/getMeaningfulPlacements.test.ts:30 | the corrected result for "DDD_" against "EDDD" is exactly ["_DDD"] |
| TileGrid.ErrorsFromIsSize | src/logic/board.ts:54-67 | the side loop counts the distinct error sides of a tile |
| TileGrid.ErrorsAt | src/logic/Board.ts:73-88 | a tile's error count is its number of track sides facing an empty or trackless on-board side, at most four |
| TileGrid.SumErrors | src/logic/Board.ts:73-88 | a list of tiles has at most four errors per tile |
| TileGrid.CountErrors | src/logic/Board.ts:73-88 | the board's error count is at most four per placed tile |
| TileGrid.CountErrorsEmpty | src/logic/board.ts:54-67 | a board without tiles has no errors |
| TileGrid.ConnectedFrom | src/logic/board.ts:97-115 | the scan yields exactly the neighbours across connected sides, at most one per side |
| TileGrid.ConnectedTiles | src/logic/Board.ts:109-135 | the query fails exactly on an empty cell; otherwise it yields at most four neighbours, exactly those across connected sides |
| TileGrid.ConnectedTilesSound | src/logic/Board.ts:109-135 | every connected tile is an occupied neighbour showing the followed track back; on an overpass only the arriving track type is followed |
| TileGrid.CheckedGet | src/logic/board.ts:40-43 | reading a cell fails with OutOfBounds exactly off the board, otherwise gives the cell's tile; src/board.ts:41-44 is the same read |
| TileBoard.FindExitFromSpec | src/logic/board.ts:77-79 | the exit search returns an exit on that cell and side, and finds none exactly when there is none |
| TileBoard.ScanSidesIff | src/logic/board.ts:69-95 | the side loop accepts exactly when no side rejects and some side matched |
| TileBoard.SideOutcomeSpec | src/logic/board.ts:77-91 | a side rejects exactly on a conflict with an exit or a neighbour, and otherwise counts its matching exit and its matching neighbour |
| TileBoard.ScanAllSidesIff | src/logic/board.ts:69-95 | the loop over the four sides accepts exactly when no side conflicts and some side matches |
| TileBoard.IsValid | src/logic/board.ts:69-95 | validity throws exactly off the board, and is false on an occupied cell |
| TileBoard.IsValidIff | src/logic/board.ts:69-95 | a placement is valid exactly when the cell is empty and on the board, no track meets an exit or neighbour of the other type, and some track meets one of its own type |
| TileBoard.IsolatedTileRejected | src/logic/board.ts:69-95 | a tile that touches no exit and no occupied neighbour is rejected |
| TileBoard.NoExitNoNeighbourRejected | src/logic/board.ts:69-95 | away from the exit cells, a tile with no occupied neighbour is rejected |
| TileBoard.ExitConflictRejected | src/logic/board.ts:77-84 | track onto an exit of the other type rejects the placement, whatever else connects |
| TileBoard.NeighbourConflictRejected | src/logic/board.ts:81-91 | track meeting neighbouring track of the other type rejects the placement |
| TileBoard.CountErrors | src/logic/board.ts:54-67 | the board has at most four errors per placed tile |
| TileBoard.Set | src/logic/board.ts:117-125 | a placement succeeds exactly when valid, fails with OutOfBounds or InvalidPlacement otherwise, and changes only its own cell |
| TileBoard.SetThenOccupied | src/logic/board.ts:117-125 | after a placement, placing on the same cell again is invalid |
| TileBoard.GetConnectedTiles | src/logic/board.ts:97-115 | the query fails with OutOfBounds off the board and with NoTileAtCoordinates on an empty cell; otherwise it yields exactly the neighbours across sides with track (of the followed type on an overpass) whose facing side shows the same track, each with that track type, at most four |
| TileBoard.EastExitRow3 | src/logic/board.ts:14-27 | the east side of cell (3, 6) is the road exit |
| TileBoard.ExitConnection | src/logic/board.test.ts:22-24 | a straight road across the east exit of row 3 is valid on a new board |
| TileBoard.ExitConnectionWrongType | src/logic/board.test.ts:26-28 | a straight rail there is invalid |
| TileBoard.ExitConnectionWrongRotation | src/logic/board.test.ts:30-32 | a north-south road there is invalid |
| TileBoard.NotConnectedToAnything | src/logic/board.test.ts:34-36 | a road in the middle of a new board is invalid |
| TileBoardExamples.NoExitOn | src/logic/board.ts:77-79 | the exit search finds nothing on a side that carries none of the twelve exits |
| TileBoardExamples.CornerAtEastExit | src/logic/board.test.ts:48-51 | a road corner joining east and south is valid at the east exit of row 3 on a new board |
| TileBoardExamples.SpaceAlreadyFilled | src/logic/board.test.ts:38-46 | after the straight road is placed at the east exit of row 3, the same tile there again is invalid |
| TileBoardExamples.BelowCorner | src/logic/board.test.ts:48-52 | after the corner is placed, the cell below is empty, off the exits, and faces road from above |
| TileBoardExamples.ExistingTileConnection | src/logic/board.test.ts:48-56 | a road corner joining north and west below the corner connects to it and is valid |
| TileBoardExamples.ExistingTileWrongType | src/logic/board.test.ts:58-66 | a rail corner there meets the road above and is invalid |
| TileBoardExamples.ExistingTileWrongRotation | src/logic/board.test.ts:68-76 | a straight east-west road there touches no track and is invalid |
| TileBoardExamples.RailAtWestExit | src/logic/board.test.ts:78-81 | a straight rail across the west exit of row 5 is valid on a new board |
| TileBoardExamples.CornerRoadIsolated | src/logic/board.ts:69-95 | on any board with (6, 1) empty, a straight east-west road in the corner cell (6, 0) touches no exit and no tile and is rejected |
| TileBoardExamples.ExistingTileNoConnection | src/logic/board.test.ts:78-86 | below that rail a straight road in the corner cell is invalid, because the rail shows no track southwards |
| TileBoardExamples.WestExitRow5 | src/logic/board.ts:14-27 | the west side of cell (5, 0) is the rail exit |
| TileBoardExamples.MixedCornerAtWestExit | src/logic/board.test.ts:88-91 | a corner with rail west onto the rail exit and road south is valid on a new board |
| TileBoardExamples.CornerJoinsNorth | src/logic/board.ts:69-95 | on any board with road coming down from (5, 0) and (6, 0), (6, 1) empty, a road corner joining north and east is valid at (6, 0) |
| TileBoardExamples.CornerBelowMixed | src/logic/board.test.ts:88-92 | after the mixed corner, the road corner below it is valid |
| TileBoardExamples.BesideBottomCorner | src/logic/board.test.ts:88-93 | after the two corners the cell beside the bottom corner is empty and faces its road |
| TileBoardExamples.CornerJoinsWest | src/logic/board.ts:75-91 | a road corner joining north and west is valid at (6, 1) when road arrives from the west, although its north side faces the empty cell (5, 1) |
| TileBoardExamples.ExistingTileIgnoringExit | src/logic/board.test.ts:88-97 | the third placement is valid: a tile may leave a side unconnected when another side matches |
| ConnectionBoard.NewBoard | src/board.ts:31-34 | a new board has no tiles, and its open connections are exactly the exits |
| ConnectionBoard.ConnectionsAt | src/board.ts:46-49 | the filter keeps exactly the open connections on the cell |
| ConnectionBoard.GetConnections | src/board.ts:46-49 | the query fails exactly off the board, otherwise gives exactly the cell's open connections |
| ConnectionBoard.ScanConnectionsIff | src/board.ts:51-66 | the loop accepts exactly when the tile agrees with every connection of the cell and matches at least one |
| ConnectionBoard.IsValid | src/board.ts:51-66 | validity fails exactly off the board and is false on an occupied cell |
| ConnectionBoard.IsValidIff | src/board.ts:51-66 | a placement is valid exactly when the cell is on the board and empty, the tile agrees with each open connection there, and it carries the asked-for track on one |
| ConnectionBoard.NewBoardValidOnlyAtExits | src/board.ts:31-66 | on a new board only the exit cells accept a tile |
| ConnectionBoard.ValidHasConnection | src/board.ts:51-66 | a valid placement has an open connection on its cell |
| ConnectionBoard.FindConnection | src/board.ts:78-80 | the search returns the first open connection on that side of the cell, or none when there is none |
| ConnectionBoard.RemoveAt | src/board.ts:83 | removing index i shifts every later connection down by one and keeps the earlier ones |
| ConnectionBoard.RemoveAtMembers | src/board.ts:83 | removing one connection keeps every other one and adds none |
| ConnectionBoard.Set | src/board.ts:68-101 | a placement succeeds exactly when valid, fails with OutOfBounds or InvalidPlacement otherwise, and changes only its own cell of the grid |
| ConnectionBoard.UpdateSound | src/board.ts:68-101 | every connection after the update was open before or is opened by a track side of the tile |
| ConnectionBoard.UpdateKeeps | src/board.ts:68-101 | connections off the cell, and on sides the loop has passed, survive |
| ConnectionBoard.FacingNotAt | src/board.ts:96 | a connection the tile opens is on a neighbour, never on the cell itself |
| ConnectionBoard.UpdateDrops | src/board.ts:78-83 | when no side carries two connections, the update leaves no connection on the sides of the cell it visits |
| ConnectionBoard.UpdateAdds | src/board.ts:84-97 | a track side with no open connection opens the facing connection on its on-board neighbour |
| ConnectionBoard.SetConnections | src/board.ts:68-101 | after a placement, connections off the cell stay, each free track side opens its facing connection, nothing else appears, and the cell keeps no connection |
| ConnectionBoard.NewBoardWellFormed | src/board.ts:13-34 | a new board's open connections are well formed: on the board, one per side, and facing off the board |
| ConnectionBoard.UpdateUnique | src/board.ts:68-101 | the update keeps at most one connection per side when the new ones land on free sides |
| ConnectionBoard.SetKeepsConnection | src/board.ts:68-101 | after a placement, every connection is on the board and faces an occupied cell or the edge |
| ConnectionBoard.SetOpensFreshSides | src/board.ts:84-97 | a connection a placement opens never lands on a side that already holds one |
| ConnectionBoard.SetWellFormed | src/board.ts:68-101 | placing a tile keeps the open connections well formed |
| ConnectionBoard.SetClosesCell | src/board.ts:68-101 | on a well-formed board, a placement leaves no open connection on the cell it fills |
| Scoring.ErrorsScore | src/logic/calculateScore.ts:15-17 | the error score is between minus four per tile and 0 |
| Scoring.CenterCell | src/logic/calculateScore.ts:19-27 | every visited cell is a centre square |
| Scoring.CenterCellsEnumerate | src/logic/calculateScore.ts:19-27 | every centre square is visited by the nested loops |
| Scoring.CenterFromIsSize | src/logic/calculateScore.ts:19-27 | the loop counts distinct occupied centre squares |
| Scoring.CenterScore | src/logic/calculateScore.ts:19-27 | the centre score is at most 9 |
| Scoring.CenterScoreCounts | src/logic/calculateScore.ts:19-27 | the centre score is the number of occupied centre squares |
| Scoring.ExitTable | src/logic/calculateScore.ts:29-41 | a group of n exits scores 4(n-1) for 2..11, 45 for all twelve, and 0 otherwise |
| Scoring.ExitTableBounds | src/logic/calculateScore.ts:29-41 | the table is at most 45, reaches it only at twelve exits, and grows with the group size |
| Scoring.EdgeTaken | src/logic/calculateScore.ts:114-143 | each step of a route takes a new board edge, so the search ends |
| Scoring.RoutesFromAtLeast | src/logic/calculateScore.ts:114-143 | the best route over the sides is at least the route across each one |
| Scoring.RoutesFromWitness | src/logic/calculateScore.ts:114-143 | the best route over the sides is the route across one of them |
| Scoring.RouteComplete | src/logic/calculateScore.ts:114-143 | every walk that never reuses an edge is covered: the search reports at least its length |
| Scoring.BranchTaken | src/logic/calculateScore.ts:114-143 | a branch that reports anything crosses a side of the type into an occupied neighbour over an unused edge |
| Scoring.RouteSound | src/logic/calculateScore.ts:114-143 | the search reports the length of an actual walk |
| Scoring.LongestFromSpec | src/logic/calculateScore.ts:93-112 | the scan is 0 exactly when no tile carries the type, and it is at least the route from each tile that does |
| Scoring.LongestFromWitness | src/logic/calculateScore.ts:93-112 | the scan equals the route from one of the tiles it tried |
| Scoring.LongestRouteIsLongestWalk | src/logic/calculateScore.ts:93-143 | the road or rail score is 0 exactly when no tile carries the type; otherwise it is the length in cells of the longest walk along that type that never reuses an edge |
| Scoring.ExitFromSpec | src/logic/calculateScore.ts:78-84 | the exit lookup returns an exit reported at the position, and none exactly when no exit is reported |
| Scoring.Next | src/logic/calculateScore.ts:60-91 | the search queues only occupied board cells |
| Scoring.Traverse | src/logic/calculateScore.ts:60-62 | an exit whose cell is empty, or trackless on the exit side, forms a group of one |
| Scoring.ExploreSound | src/logic/calculateScore.ts:60-91 | the search only records exits reported at positions connected to the start |
| Scoring.TraverseSound | src/logic/calculateScore.ts:60-91 | every exit of a group is its start or an exit reported at a position connected to the start along its track |
| Scoring.ExitGroupsStarts | src/logic/calculateScore.ts:43-58 | each group starts at an exit not reached before, and holds that exit's search |
| Scoring.ExitGroupsCover | src/logic/calculateScore.ts:43-58 | every exit starts a group, is reached by one, or was checked before |
| Scoring.SumTableSingles | src/logic/calculateScore.ts:43-58 | groups of one score nothing |
| Scoring.EmptyBoardExitsZero | src/logic/calculateScore.test.ts:17-27 | on a board without tiles the exits score 0 |
| Scoring.NoTilesNoPoints | src/logic/calculateScore.ts:43-58 | without tiles no group scores |
| Scoring.NoTilesNoRoute | src/logic/calculateScore.ts:93-112 | without tiles neither route scores |
| Scoring.NoTilesNoCenter | src/logic/calculateScore.ts:19-27 | without tiles the centre scores 0 |
| Scoring.EmptyBoardScoresZero | src/logic/calculateScore.test.ts:17-27 | an empty board scores 0 in all five parts |
| LegacyScoring.ExitsOnSide | src/calculateScore.ts:76-85 | the lookup yields exactly the exits on that side of the cell carrying that side's track |
| LegacyScoring.RecordedSpec | src/calculateScore.ts:71-98 | an exit is recorded exactly when it is an exit on a followed side of the cell with that side's track |
| LegacyScoring.Pushed | src/calculateScore.ts:97 | every queued connection is on the board |
| LegacyScoring.Traverse | src/calculateScore.ts:55-103 | the search reaches nothing when the exit's cell does not carry its track on the exit side |
| LegacyScoring.PushedSpec | src/calculateScore.ts:71-98 | a connection is queued exactly when it is the on-board neighbour across a followed side, entered through the facing side with that track |
| LegacyScoring.ExploreSound | src/calculateScore.ts:55-103 | the search only records exits at connections reachable from the start |
| LegacyScoring.QueueReaches | src/calculateScore.ts:71-98 | entering a reachable connection queues only reachable ones |
| LegacyScoring.TraverseSound | src/calculateScore.ts:55-103 | every exit reached is a board exit recorded at a connection reachable from the start |
| LegacyScoring.ExploreAvoidsStart | src/calculateScore.ts:65-66 | once the start cell is visited, the start exit is never recorded again |
| LegacyScoring.TraverseAvoidsStart | src/calculateScore.ts:38-53 | the search from an exit never counts that exit, so a group's size is one plus what it reached |
| LegacyScoring.SumTableLone | src/calculateScore.ts:38-53 | groups that reached no other exit score nothing |
| LegacyScoring.LoneExitsScoreNothing | src/calculateScore.ts:38-53 | when no exit's search enters a tile, the exits score 0 |
| LegacyScoring.CalculateScore | src/calculateScore.ts:4-12 | the first scorer gives 0 for road, rail and errors, and the number of occupied centre squares for the centre |
| LegacyScoring.EmptyBoardScoresZero | src/calculateScore.ts:4-53 | a new open-connection board scores 0 in all five parts |
| LegacyScoring.LocalStep | svelte/src/logic/calculateScore.ts:159-166 | the scorer's own step fails exactly off the board, and otherwise reaches the adjacent cell |
| LegacyScoring.LocalStepAgrees | svelte/src/logic/calculateScore.ts:159-166 | the scorer's own step is the shared step |
| LegacyScoring.SvelteCalculateScore | svelte/src/logic/calculateScore.ts:4-16 | the svelte centre score counts occupied centre squares, and its error score is minus the board's errors |
| LegacyScoring.SvelteEmptyBoardScoresZero | svelte/src/logic/calculateScore.ts:4-57 | a board without tiles scores 0 in all five parts |
| TrackNetworks.NewNetwork | src/logic/TrackNetwork.ts:30-38 | a new network has the type, no nodes and no route so far |
| TrackNetworks.Slice | src/logic/TrackNetwork.ts:193-195 | slicing with bounds inside the node is the subsequence between them |
| TrackNetworks.UpdateNode | src/logic/TrackNetwork.ts:193-195 | for a side index of the node, that side is replaced and the others are kept |
| TrackNetworks.UpdateNodeMinusOne | src/logic/TrackNetwork.ts:193-195 | side index -1 makes the slices build a node of twice the length |
| TrackNetworks.ModifyNode | src/logic/TrackNetwork.ts:262-267 | modifying fails exactly when there is no node; otherwise only that node's side changes and the node positions stay the same |
| TrackNetworks.CountIfZero | src/logic/TrackNetwork.ts:197-207 | no side passes the test exactly when the count is 0 |
| TrackNetworks.CountIfOne | src/logic/TrackNetwork.ts:258-260 | the count is 1 exactly when one side, and only it, passes the test |
| TrackNetworks.IsLeafNodeIff | src/logic/TrackNetwork.ts:258-260 | a node is a leaf exactly when one side carries a connection and the rest are null |
| TrackNetworks.FindFirst | src/logic/TrackNetwork.ts:209-256 | findIndex returns the first side that passes, or -1 exactly when none does |
| TrackNetworks.FindLast | src/logic/TrackNetwork.ts:209-256 | findLastIndex returns the last side that passes, or -1 exactly when none does |
| TrackNetworks.NodeAt | src/logic/TrackNetwork.ts:40-42 | reading a node fails exactly when there is none |
| TrackNetworks.PrunePassthrough | src/logic/TrackNetwork.ts:209-256 | contraction only removes nodes, and leaves anything but a passthrough alone |
| TrackNetworks.PrunePassthroughRelinks | src/logic/TrackNetwork.ts:209-256 | a passthrough between two distinct neighbours is removed, and they are relinked with the summed length; nothing else changes |
| TrackNetworks.PrunePassthroughs | src/logic/TrackNetwork.ts:90-92 | contracting the candidates only removes nodes |
| TrackNetworks.MinLinkD | src/logic/TrackNetwork.ts:281-284 | the minimum is a length of one of the node's links, and no link is shorter |
| TrackNetworks.Shortest | src/logic/TrackNetwork.ts:281-284 | the side the sort puts first is a shortest link, and it leads to a leaf whenever some shortest link does |
| TrackNetworks.PruneAt | src/logic/TrackNetwork.ts:269-298 | a visit only removes nodes; reporting a change means a node was removed, and reporting none means nothing changed |
| TrackNetworks.PrunePass | src/logic/TrackNetwork.ts:269-298 | a pass only removes nodes; a pass that reports a change removed one, and a pass reporting none changed nothing |
| TrackNetworks.PruneLeaves | src/logic/TrackNetwork.ts:269-298 | leaf pruning only removes nodes |
| TrackNetworks.PruneLeavesSettles | src/logic/TrackNetwork.ts:295-297 | the pruned grid is one that no further pass changes |
| TrackNetworks.CutDeadSides | src/logic/TrackNetwork.ts:48-56 | cutting dead sides changes no node position |
| TrackNetworks.SideConnection | src/logic/TrackNetwork.ts:58-83 | a new node's side is a link exactly to an occupied neighbour showing track back, and open exactly towards an empty on-board cell |
| TrackNetworks.LaySide | src/logic/TrackNetwork.ts:58-83 | laying a side writes that connection, and for a link writes the matching link back on the neighbour; it fails exactly when that neighbour has no node |
| TrackNetworks.LaySides | src/logic/TrackNetwork.ts:58-83 | the laid node holds, for every side, what the tiles say that side connects to |
| TrackNetworks.Update | src/logic/TrackNetwork.ts:44-95 | an update keeps the network's type and its route so far |
| TrackNetworks.ModifyKeepsWellFormed | src/logic/TrackNetwork.ts:262-267 | replacing a side keeps every node four sides long |
| TrackNetworks.CutDeadSidesWellFormed | src/logic/TrackNetwork.ts:48-56 | cutting dead sides keeps every node four sides long |
| TrackNetworks.CutDeadSidesKeep | src/logic/TrackNetwork.ts:48-56 | cells that no cut side faces are unchanged |
| TrackNetworks.CutDeadSidesCuts | src/logic/TrackNetwork.ts:48-56 | a side without track cuts the facing side of the neighbouring node |
| TrackNetworks.LaySidesKeep | src/logic/TrackNetwork.ts:58-85 | cells that no laid side links to are unchanged |
| TrackNetworks.LaySidesLink | src/logic/TrackNetwork.ts:58-85 | a link laid from a side is matched on the neighbour by a link back with the same key and length 1 |
| TrackNetworks.LayLinksBothEnds | src/logic/TrackNetwork.ts:44-85 | after laying, the new node holds what the tiles say on each side, and each of its links is matched by a link back |
| TrackNetworks.LayCutsDeadSides | src/logic/TrackNetwork.ts:44-85 | after laying, each trackless side has cut the facing side of its neighbouring node |
| TrackNetworks.CutDeadSidesUntouched | src/logic/TrackNetwork.ts:48-56 | when no trackless side faces a node, nothing is cut or recorded |
| TrackNetworks.UpdateUntouched | src/logic/TrackNetwork.ts:86-88 | a tile without the type whose trackless sides face no node returns the same network |
| TrackRoutes.FollowAll | src/logic/TrackNetwork.ts:132-155 | following succeeds only from a node position |
| TrackRoutes.FollowEachNone | src/logic/TrackNetwork.ts:140-145 | without fresh links there is nothing to follow |
| TrackRoutes.FollowAllStep | src/logic/TrackNetwork.ts:132-155 | a node without fresh links ends a route of one plus the lengths taken; otherwise the result is that of its links |
| TrackRoutes.RouteCons | src/logic/TrackNetwork.ts:147-154 | a fresh link followed by a route from its end is a route |
| TrackRoutes.FollowAllAtLeast | src/logic/TrackNetwork.ts:132-155 | the longest route found is at least one plus the lengths already taken |
| TrackRoutes.FollowEachCovers | src/logic/TrackNetwork.ts:147-154 | the best over the links is at least the route through each link, and closed only when each is |
| TrackRoutes.FollowEachPicks | src/logic/TrackNetwork.ts:147-154 | the best over the links is the route through one of them, or 0 when there is none |
| TrackRoutes.FollowAllComplete | src/logic/TrackNetwork.ts:132-155 | no route from the node is longer than the one found |
| TrackRoutes.LongestRouteOf | src/logic/TrackNetwork.ts:132-155 | the longest length found is that of an actual route |
| TrackRoutes.FollowAllSound | src/logic/TrackNetwork.ts:132-155 | some route from the node has the longest length found |
| TrackRoutes.RouteToOpen | src/logic/TrackNetwork.ts:132-155 | when the routes are not all closed, some route ends at a node with an open side |
| TrackRoutes.ClosedRoutesAvoidOpen | src/logic/TrackNetwork.ts:132-155 | when all routes are closed, none ends at a node with an open side |
| TrackRoutes.FollowAllClosed | src/logic/TrackNetwork.ts:132-155 | the routes are all closed exactly when none ends at a node with an open side |
| TrackRoutes.FollowFrom | src/logic/TrackNetwork.ts:104-109 | following from every node succeeds exactly when each one does, with one result per node |
| TrackRoutes.MaxRoute | src/logic/TrackNetwork.ts:111-114 | the maximum is at least every route found, and equals one of them |
| TrackRoutes.DeleteClosed | src/logic/TrackNetwork.ts:116-123 | the nodes whose routes are all closed are deleted and every other cell is kept |
| TrackRoutes.GetLongestRoute | src/logic/TrackNetwork.ts:97-128 | the best never decreases and is stored in the network; the type is kept; an empty network is returned as it is |
| TrackRoutes.GetLongestRouteBest | src/logic/TrackNetwork.ts:97-128 | the new best is the old best or the longest route from some node, and no route from any node is longer |
| TrackRoutes.GetLongestRouteDropsClosed | src/logic/TrackNetwork.ts:116-123 | a node is dropped exactly when all its routes are closed |
| TrackRoutes.GetLongestRouteKeepsEmpty | src/logic/TrackNetwork.ts:116-123 | cells without a node stay without one |
| TrackRoutes.DeleteClosedAt | src/logic/TrackNetwork.ts:116-123 | a node position's cell is emptied exactly when its routes are closed |
| MoveCodec.DigitChar | src/ai/monteCarloV2.ts:128-130 | a digit prints as a character between 0 and 9 |
| MoveCodec.NatString | src/ai/monteCarloV2.ts:128-130 | a number prints as a single character exactly when it is below 10 |
| MoveCodec.IntString | src/ai/monteCarloV2.ts:128-130 | a board coordinate prints as its single digit |
| MoveCodec.ParseDigit | src/ai/monteCarloV2.ts:145-146 | a character parses as a number exactly when it is a digit, and the number prints back as it |
| MoveCodec.MovePos | src/ai/monteCarloV2.ts:145-146 | a token gives a position exactly when it starts with two digits, each below 10 |
| MoveCodec.FindTransform | src/ai/monteCarloV2.ts:137-139 | the search returns the first available tile of which the token's tile is a transform, or -1 exactly when none is |
| MoveCodec.MakeMove | src/ai/monteCarloV2.ts:132-149 | playing a well-formed token fails with CannotMakeMove exactly when no available tile transforms into its tile; success places the token's tile at the token's position |
| MoveCodec.DecodeEncode | src/ai/monteCarloV2.ts:128-146 | a move's token reads back as the move's position and tile |
| MoveCodec.EncodeInjective | src/ai/monteCarloV2.ts:128-130 | two board moves share a token exactly when they share position and tile |
| MoveCodec.MakeMoveReplays | src/ai/monteCarloV2.ts:128-149 | replaying a generated move places its tile at its position, spending the first matching available tile, which is the move's own or an earlier one |

## Left out

- Dice rolls, `randomPick` and `shuffle` (src/logic/helpers.ts:85-96) are randomness. The dice of a round are a parameter of `GameStates.NewGame` and `GameStates.EndRound`. The die face tables of src/logic/dice.ts:15-37 are data and are not modelled.
- The transform cache of src/logic/helpers.ts:54 only memoises `getAllTransformedTiles`, and is not modelled.
- `toString` of the boards, the grid's `forEach` callback form, logging, the UI and the AI search of the Monte Carlo player are left out. Only its move token codec is modelled.
- src/dice.ts and svelte/src/logic/board.ts are not part of this model. The svelte scorer is modelled over the board of src/logic/board.ts, whose interface it calls.
- ConnectionBoard.Set: src/board.ts mutates the receiver's connection list and returns a board sharing it. The model returns a new board and makes no claim about the old one.
- `findAllConnectedPositions` and `findSubNetworks` (src/logic/TrackNetwork.ts:157-191) are not called by the network's update or longest-route code, and are left out.
- Link keys are the triple (y, x, side) instead of the source's digit string. The two agree on board cells.
- Every thrown error of the track network is the single error `MissingNode`.
- TrackRoutes.GetLongestRoute: the source replaces the receiver's grid and best route in place. The model returns them as a new network.
- TrackNetworks.Shortest: the source sorts a node's links with a comparator that is not a total order on ties. The model takes the result of the engine's insertion sort on three or four links: the last shortest link to a leaf, else the first shortest link.
- TrackNetworks.Update: its contract states only that the type and the best route are kept. What the laid grid holds before pruning is stated by TrackNetworks.LayLinksBothEnds and TrackNetworks.LayCutsDeadSides. Pruning itself is stated only as removing nodes and settling.
- TrackNetworks.PruneLeaves: states only that pruning removes nodes and ends in a grid no pass changes, not which leaves go.
- Scoring.TraverseSound: states soundness (every grouped exit is connected to the start), not that every connected exit is found.
- LegacyScoring.TraverseSound: states soundness only, like Scoring.TraverseSound.
- Scoring.ErrorsScore: states the bounds of the penalty. Its value is the negated error count, which TileGrid.ErrorsAt characterises per tile.
- The concrete boards of src/logic/calculateScore.test.ts (the simple and tricky loops, the nine filled squares, one error) and of src/calculateScore.test.ts (two joined exits, all twelve exits, an overpass crossing) are not worked out, because each needs the whole traversal unfolded on a filled board. Only the empty board is (Scoring.EmptyBoardScoresZero).
- MoveCodec.MakeMove: the available tiles are a parameter holding index, special flag and tile. The shown game state keeps only tile strings. A token that is not two digits followed by a tile is the single error `MalformedMove`.
- MoveCodec.IntString: coordinates of 10 or more print as several digits, but the decoder reads only the first two characters. Round trips are stated for board coordinates only.
- SlotBoard.Set: models the repaired neighbour update, not the source. As written, src/logic/Board.ts:153 throws a `TypeError` (`substring` of an `undefined` slot) whenever a placed track faces an empty cell. That behaviour is SlotBoard.SetAsWritten, and GameStates.PlaceTile and MoveCodec.MakeMove use the repaired set.

## Findings

| source | as written | input that shows it | evidently intended | confidence | as-written member | corrected member |
|---|---|---|---|---|---|---|
| src/logic/getMeaningfulPlacements.ts:50-63 | the dominance filter and the final map keep one entry per transform, so a symmetric tile's winning orientation is returned once for every transform that produces it | tile "DD__" against slot "EE_D": the eight transforms hold "D__D" twice, both copies survive, and "D__D" is returned twice | each meaningful orientation returned once, as src/logic/getMeaningfulPlacements.test.ts:21 expects (["D__D"]) | not executed; high | PlacementExamples.AsWrittenRepeatsCorner | PlacementExamples.CornerGoesOffEdge |
| src/logic/Board.ts:153 | `updateSlot(flipRotation(r), t)` passes no slot, so `slot.substring` at src/logic/helpers.ts:108-110 throws a TypeError whenever a placed tile's track faces an empty on-board cell | placing "_DD_" at (3, 6) on a new board: its road faces the empty cell (4, 6) | the neighbour's slot gets the track on its facing side, so that "D__D" is then valid at (4, 6), as src/logic/Board.test.ts:48-56 expects; the model starts from the neighbour's existing slot, or "____" | not executed; high that it throws, medium on the exact repair | SlotBoard.AsWrittenSetThrows | SlotBoard.ExistingTileConnection |

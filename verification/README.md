# 2048 engine and swipe rule in Dafny

This project models the rules of a 2048 game:

- **Board.** A 4x4 board holds tiles `{value, id, isNew, isMerged}`. An empty cell is `null` in the game and `Empty` here.
- **Slide and merge.** `slideLeft` packs each row to the left. It merges neighbouring equal tiles, each tile at most once. The other three directions rotate the board, slide left and rotate back.
- **Spawn.** A new tile of value 2 or 4 is placed in a random empty cell.
- **Game state.** Score, best score, move count and the PLAYING / WON / LOST status change on every effective move.
- **Swipes.** A separate hook turns a touch gesture into at most one of the four directions.

The model has four modules:

- `Board` (`board.dfy`) covers:
  - tiles, cells and boards;
  - the row-major listing of empty cells;
  - placing one tile;
  - rotation by multiples of 90 degrees;
  - board totals;
  - the winning-tile test.
- `Slide` (`slide.dfy`) covers:
  - the row slide, as a specification function and as the source's scan loop;
  - the loop over the rows;
  - `slideAndMerge` with its rotations and its score and merged-id collection;
  - where every tile of a slid board comes from, and what became of every tile of the old board.
- `Game` (`game.dfy`) covers:
  - `createEmptyGrid`, `spawnRandomTile` and `initializeGame`;
  - the won and lost checks, as loops;
  - `isValidMove` and `applyMove`;
  - an invariant that every move keeps.
- `Touch` (`touch.dfy`) covers:
  - the classification rule of `handleTouchEnd`;
  - a `TouchHandler` class holding the `touchStart` cell that the two handlers set and clear.

The two calls of `Math.random()` in a spawn are parameters. Each one is a `Draw`, an exact fraction `num / den` in [0, 1). The index picked among `n` empty cells is `floor(num * n / den)`. The value is 2 exactly when `num / den < 9 / 10`.

Tile ids come from a counter, the *id supply*, that every operation creating tiles takes and returns. A fresh id is the current supply.

The loops of the source, the reassignments of `slideAndMerge` and the copy-and-assign of `spawnRandomTile` are methods, each proved equal to a specification function:

- the row scan `SlideRow` and its padding loop `PadRow`;
- the loop over the rows `SlideLeft`, and the reductions `SumScores` and `CollectMergedIds`;
- `SlideAndMerge`, which reassigns its working board around the slide;
- `SpawnRandomTile`.

`IsGameWon` and `IsGameLost` are loops proved against independent predicates. `createEmptyGrid`, `initializeGame` and `applyMove` are functions. `initializeGame` reassigns `grid` and `applyMove` reassigns `newStatus`, but each only builds a new value from the old one, so `InitializeGame` composes two spawns and `ApplyMove` uses the conditional `NextStatus`.

Three behaviours of the code that are easy to miss:

- **`isNew` is kept.** `slideLeft` copies an unmerged tile with only `isMerged` reset, so its `isNew` flag survives a move.
- **Flags count in `isValidMove`.** It compares the JSON texts of the two boards, so flags and ids count. A move that moves no tile and only clears a leftover `isMerged` flag is effective: a tile is spawned and the move is counted (`Game.FlagResetCountsAsMove`).
- **`bestScore` starts at 0.** `initializeGame` sets `bestScore` to 0 rather than keeping the stored best.

## Model

| member | source | states |
|---|---|---|
| `Board.EmptyCells` | 2048_game/src/game/gameLogic.js:9 | the listing has at most sixteen positions, all on the board, in strictly increasing row-major order, so no cell is listed twice |
| `Board.EmptyCellsMembers` | 2048_game/src/game/gameLogic.js:9 | a position is listed among the empty cells exactly when it is on the board and holds no tile |
| `Board.NoEmptyCells` | 2048_game/src/game/gameLogic.js:10 | the listing is empty exactly when every cell holds a tile |
| `Board.PlaceCount` | 2048_game/src/game/gameLogic.js:15-21 | putting a tile into an empty cell removes exactly one entry from the listing |
| `Board.PlaceAt` | 2048_game/src/game/gameLogic.js:15-21 | writing one cell of a copied board changes that cell and no other |
| `Board.PlaceTotal` | 2048_game/src/game/gameLogic.js:15-21 | writing one cell changes the board's total by the new cell's weight minus the old one's |
| `Board.Rotate` | 2048_game/src/game/gameLogic.js:87-106 | a rotated board is again 4x4 (where each cell goes: `Board.RotateTo`, `Board.RotationRoundTrips`) |
| `Board.RotationRoundTrips` | 2048_game/src/game/gameLogic.js:87-106 | each rotation before the slide is undone by the one after it (270 then 90, 90 then 270, 180 then 180), and four quarter turns are the identity |
| `Board.RotateTo` | 2048_game/src/game/gameLogic.js:100-106 | every cell of the original board lands on one cell of the rotated board, and the two position maps are inverse |
| `Board.RotateKeepsTotal` | 2048_game/src/game/gameLogic.js:87-106 | rotation keeps the total of any cell weight over the board |
| `Board.RotateKeepsIdsBelow` | 2048_game/src/game/gameLogic.js:87-106 | rotation keeps every id below the supply |
| `Board.RotateKeepsUniqueIds` | 2048_game/src/game/gameLogic.js:87-106 | rotation keeps the ids on the board unique |
| `Slide.CompactMembers` | 2048_game/src/game/gameLogic.js:42 | the tiles kept by the filter are exactly the tiles of the row |
| `Slide.CompactTotal` | 2048_game/src/game/gameLogic.js:42 | dropping the empty cells keeps the row's total |
| `Slide.PadCells` | 2048_game/src/game/gameLogic.js:74-76 | padding yields `GridSize` cells, the tiles first and in order, then empty cells, with the same tiles and total |
| `Slide.MergeTiles` | 2048_game/src/game/gameLogic.js:48-72 | the merged line is no longer than the line, and the id supply never goes back (what it holds: the `Slide.MergeTiles…` lemmas) |
| `Slide.MergeTilesCount` | 2048_game/src/game/gameLogic.js:48-72 | each merge turns two tiles into one and takes one fresh id |
| `Slide.MergeTilesTotals` | 2048_game/src/game/gameLogic.js:54-62 | the merge keeps the line's total value, and the score is the total value of the merged tiles created |
| `Slide.MergeTilesOrigins` | 2048_game/src/game/gameLogic.js:55-70 | a resulting tile is a merged tile (not new, with an id issued during this merge) or a tile of the line with only its merge flag cleared |
| `Slide.MergeTilesConsumes` | 2048_game/src/game/gameLogic.js:54-70 | every tile of the line survives with its flag cleared, or its id is recorded and a merged tile of twice its value exists |
| `Slide.MergeTilesMergedIds` | 2048_game/src/game/gameLogic.js:63-64 | every recorded id is the id of a tile of the line (which tiles exactly, given distinct ids: `Slide.MergeTilesRecorded`) |
| `Slide.MergeTilesKept` | 2048_game/src/game/gameLogic.js:54-70 | with distinct ids, the result's tiles that no merge created are, in order, exactly the line's tiles whose ids are not recorded, each with its merge flag cleared |
| `Slide.MergeTilesRecorded` | 2048_game/src/game/gameLogic.js:63-64 | with distinct ids, a tile's id is recorded exactly when the tile does not survive the merge |
| `Slide.MergeTilesValues` | 2048_game/src/game/gameLogic.js:46-65 | the values of the result are the line's values merged pairwise from the left, each value merging at most once |
| `Slide.MergeTilesFlags` | 2048_game/src/game/gameLogic.js:54-70 | the tile at each position of the result was created by a merge exactly when the reference scan merges at that position, so a merged tile takes the place of the left tile of its pair |
| `Slide.PadRow` | 2048_game/src/game/gameLogic.js:74-76 | the padding loop appends empty cells to the row until it is `GridSize` long |
| `Slide.SlideRow` | 2048_game/src/game/gameLogic.js:41-78 | the scan with its skip flag, its pushes and its padding computes the row slide |
| `Slide.SlideRowOf` | 2048_game/src/game/gameLogic.js:41-78 | a row of at most `GridSize` cells slides to exactly `GridSize` cells, and the id supply never goes back (what it holds: the `Slide.SlideRow…` lemmas) |
| `Slide.SlideRowShape` | 2048_game/src/game/gameLogic.js:42-76 | a slid row has `GridSize` cells, its tiles form a prefix, and they are the merge result of the row's tiles in order |
| `Slide.SlideRowTotals` | 2048_game/src/game/gameLogic.js:54-62 | a slide keeps the row's total value, and the row's score is the total value of its merged tiles |
| `Slide.SlideRowOrigins` | 2048_game/src/game/gameLogic.js:55-70 | each tile of a slid row is a fresh merged tile or a tile of the row with its merge flag cleared |
| `Slide.SlideRowConsumes` | 2048_game/src/game/gameLogic.js:54-70 | each tile of the row is either kept, with its merge flag cleared, or merged, in which case its id is recorded and a merged tile of twice its value exists |
| `Slide.SlideRowMergedIds` | 2048_game/src/game/gameLogic.js:63-64 | every recorded id belongs to a tile of the row (which tiles exactly, given unique ids: `Slide.SlideRowKept`) |
| `Slide.SlideRowKept` | 2048_game/src/game/gameLogic.js:42-76 | with unique ids in the row, the slid row's unmerged tiles are, in order, the row's tiles whose ids are not recorded, flags cleared; a tile's id is recorded exactly when it is not in the slid row |
| `Slide.SlideRowValues` | 2048_game/src/game/gameLogic.js:46-76 | a slid row is packed, its values are the row's values merged pairwise from the left, and its merged tiles sit exactly where the reference scan merges |
| `Slide.SlideRowPairs` | 2048_game/src/game/gameLogic.js:46-65 | the row 2 2 4 4 slides to 4 8 with two empty cells, scores 12 and records all four ids |
| `Slide.SlideRowTriple` | 2048_game/src/game/gameLogic.js:46-65 | the row 2 2 2 slides to 4 2: only the first pair merges, and the third tile keeps its id |
| `Slide.SlideLeft` | 2048_game/src/game/gameLogic.js:40-80 | the loop over the rows slides each row in turn, threading the id supply |
| `Slide.SumScores` | 2048_game/src/game/gameLogic.js:97 | the sum loop computes the total of the row scores |
| `Slide.CollectMergedIds` | 2048_game/src/game/gameLogic.js:98 | the collection loop computes the union of the rows' merged ids |
| `Slide.SlideAndMerge` | 2048_game/src/game/gameLogic.js:82-113 | rotating, sliding left, collecting and rotating back computes the move's outcome |
| `Slide.SlideRowsEach` | 2048_game/src/game/gameLogic.js:40-80 | each row of the result is that row slid with the supply the rows before it left |
| `Slide.SlideRowsSupply` | 2048_game/src/game/gameLogic.js:40-80 | the supply only grows from row to row |
| `Slide.SlideRowsTotals` | 2048_game/src/game/gameLogic.js:40-80 | sliding all rows keeps the board's total, and the summed score is the total value of the merged tiles |
| `Slide.AllMergedIdsMembers` | 2048_game/src/game/gameLogic.js:98 | an id is collected exactly when some row recorded it |
| `Slide.SlideAndMergeOf` | 2048_game/src/game/gameLogic.js:82-113 | a move gives a 4x4 board (what it does: the `Slide.SlideAndMerge…` lemmas) |
| `Slide.SlideAndMergeTotals` | 2048_game/src/game/gameLogic.js:82-113 | a move in any direction keeps the board's total value, and its score is the total value of the merged tiles on the new board |
| `Slide.SlideAndMergeOrigins` | 2048_game/src/game/gameLogic.js:82-113 | each tile after a move is a fresh merged tile with an id issued during the move, or a tile of the old board with its merge flag cleared |
| `Slide.SlideAndMergeConsumes` | 2048_game/src/game/gameLogic.js:82-113 | each tile of the old board is kept, with its merge flag cleared, or has its id recorded and a merged tile of twice its value on the new board; every recorded id is an old tile's (which tiles exactly, given unique ids: `Slide.SlideAndMergeRecorded`) |
| `Slide.SlideAndMergeRecorded` | 2048_game/src/game/gameLogic.js:82-113 | with unique ids on the board, a tile's id is reported as merged exactly when the tile, flag cleared, is nowhere on the board after the move |
| `Slide.SlideAndMergeKeepsIdsBelow` | 2048_game/src/game/gameLogic.js:82-113 | after a move every id is below the supply it leaves |
| `Slide.SlideAndMergeKeepsWin` | 2048_game/src/game/gameLogic.js:82-113 | a move never removes the last winning tile |
| `Slide.TurnedRowIsLine` | 2048_game/src/game/gameLogic.js:87-93 | row k after the first rotation is the k-th line of the board read in the move's direction |
| `Slide.TurnsUndo` | 2048_game/src/game/gameLogic.js:100-106 | the rotation after the slide is undone by the one before it |
| `Slide.SlideAndMergeLine` | 2048_game/src/game/gameLogic.js:82-113 | every line of the board, read in the move's direction, is slid like a row toward the move's side |
| `Slide.SlideAndMergeLineValues` | 2048_game/src/game/gameLogic.js:82-113 | every line read in the move's direction ends up packed toward that side, with its values merged pairwise and its merged tiles exactly where the reference scan merges |
| `Slide.SlideAndMergeLineKept` | 2048_game/src/game/gameLogic.js:82-113 | with unique ids on the board, the unmerged tiles of each line after the move are, in order, that line's tiles whose ids the move did not report, flags cleared |
| `Game.FloorDiv` | 2048_game/src/game/gameLogic.js:12 | integer division by the draw's denominator is the floor |
| `Game.PickIndex` | 2048_game/src/game/gameLogic.js:12 | the chosen index lies among the empty cells |
| `Game.PickIndexSlice` | 2048_game/src/game/gameLogic.js:12 | index k is chosen exactly when the draw lies in the k-th of n equal slices of [0, 1) |
| `Game.SpawnValue` | 2048_game/src/game/gameLogic.js:13 | a spawned value is 2 or 4 |
| `Game.SpawnValueOdds` | 2048_game/src/game/gameLogic.js:13 | of ten equally spaced draws, nine spawn a 2 and one spawns a 4 |
| `Game.CreateEmptyGrid` | 2048_game/src/game/gameLogic.js:4-6 | the new board is 4x4 (its contents: `Game.EmptyGridIsEmpty`) |
| `Game.EmptyGridIsEmpty` | 2048_game/src/game/gameLogic.js:4-6 | all sixteen cells of the new board are empty and listed, and its total is 0 |
| `Game.Spawn` | 2048_game/src/game/gameLogic.js:8-24 | a spawn keeps the board 4x4 (what it does: `Game.SpawnFillsOneEmptyCell`, `Game.SpawnOnFullBoard`) |
| `Game.SpawnRandomTile` | 2048_game/src/game/gameLogic.js:8-24 | copying the board and writing the chosen cell computes the spawn |
| `Game.SpawnFillsOneEmptyCell` | 2048_game/src/game/gameLogic.js:8-23 | with an empty cell, one previously empty cell gets a new tile (2 or 4, new, not merged, fresh id), every other cell stays, one id is used and one empty cell fewer remains |
| `Game.SpawnOnFullBoard` | 2048_game/src/game/gameLogic.js:10 | on a full board the spawn returns the board unchanged and uses no id |
| `Game.SpawnReachesEveryEmptyCell` | 2048_game/src/game/gameLogic.js:12 | every empty cell is chosen by some draw |
| `Game.SpawnTotal` | 2048_game/src/game/gameLogic.js:8-23 | a spawn adds the new tile's value to the board's total, or nothing on a full board |
| `Game.SpawnKeepsWin` | 2048_game/src/game/gameLogic.js:8-23 | a spawn keeps a winning tile |
| `Game.SpawnKeepsIdsBelow` | 2048_game/src/game/gameLogic.js:8-23 | a spawn keeps every id below the supply it leaves |
| `Game.SpawnKeepsValuesAtMost` | 2048_game/src/game/gameLogic.js:8-23 | a spawn keeps all values at most a bound of at least 4 |
| `Game.SpawnCounts` | 2048_game/src/game/gameLogic.js:8-23 | a spawn uses one empty cell and one id, or changes nothing on a full board |
| `Game.InitializeGame` | 2048_game/src/game/gameLogic.js:26-38 | a new game's board is 4x4 (its contents: `Game.InitialGame`) |
| `Game.InitialGame` | 2048_game/src/game/gameLogic.js:26-38 | a new game has two tiles and fourteen empty cells, a total equal to the two spawned values, score and best score 0, status playing, no move, and two ids used |
| `Game.InitialGameConsistent` | 2048_game/src/game/gameLogic.js:26-38 | a new game satisfies the game invariant |
| `Game.IsGameWon` | 2048_game/src/game/gameLogic.js:119-128 | the scan reports a win exactly when some tile's value is at least 2048 |
| `Game.IsGameLost` | 2048_game/src/game/gameLogic.js:130-150 | the scan reports a loss exactly when the board is full and no tile matches its right or lower neighbour |
| `Game.NoMatchesApart` | 2048_game/src/game/gameLogic.js:135-147 | on a full board, no tile matches its right or lower neighbour exactly when all adjacent tiles differ in value |
| `Game.LockedMeansFullAndStuck` | 2048_game/src/game/gameLogic.js:130-150 | a board is lost exactly when every cell holds a tile and all horizontally or vertically adjacent tiles differ in value |
| `Game.IsValidMoveCells` | 2048_game/src/game/gameLogic.js:115-117 | on two 4x4 boards a move is effective exactly when some cell differs, flags and ids included |
| `Game.NextStatus` | 2048_game/src/game/gameLogic.js:162-167 | lost stays lost; won never returns to playing; a new win needs a playing game and a winning tile; a new loss needs a locked board; playing continues only without a winning tile on an unlocked board |
| `Game.ApplyMove` | 2048_game/src/game/gameLogic.js:152-177 | a move keeps the board 4x4 (what it does: `Game.IneffectiveMoveKeepsState`, `Game.EffectiveMove`, `Game.StatusRule`) |
| `Game.IneffectiveMoveKeepsState` | 2048_game/src/game/gameLogic.js:153-157 | a move that leaves the board equal, flags and ids included, returns the state unchanged |
| `Game.EffectiveMove` | 2048_game/src/game/gameLogic.js:159-176 | on an effective move: the score grows by the value of the merged tiles, the best score is the larger of the old best and the new score, the count grows by one, the board is the slid board with one spawn, and its total grows by the spawned value |
| `Game.StatusRule` | 2048_game/src/game/gameLogic.js:162-167 | lost stays lost; won never returns to playing; a new loss needs a locked board; on an effective move a playing game with a winning tile becomes won; otherwise a locked board becomes lost and an unlocked board keeps its status; a new win needs a playing game and a winning tile |
| `Game.ApplyMoveKeepsConsistent` | 2048_game/src/game/gameLogic.js:152-177 | every move keeps the invariant: 4x4 board, ids below the supply, score at most best score, a winning tile present once won and absent while playing |
| `Game.CornerSlide` | 2048_game/src/game/gameLogic.js:66-70 | a lone corner tile with a leftover merge flag does not move, merges nothing and loses the flag when slid left |
| `Game.FlagResetCountsAsMove` | 2048_game/src/game/gameLogic.js:115-117 | that slide counts as an effective move, so a tile is spawned and the move is counted |
| `Touch.Classify` | game_2048/src/hooks/useTouch.js:28-39 | right exactly when dx exceeds both 50 and the size of dy; left exactly when -dx does; down exactly when dy exceeds 50 and is at least the size of dx; up exactly when -dy does; nothing exactly when both components are at most 50 in size |
| `Touch.ClassifyReversed` | game_2048/src/hooks/useTouch.js:31-39 | reversing a gesture reverses its direction |
| `Touch.TouchHandler.constructor` | game_2048/src/hooks/useTouch.js:7 | no touch is recorded at first |
| `Touch.TouchHandler.HandleTouchStart` | game_2048/src/hooks/useTouch.js:9-14 | a touch start records its point |
| `Touch.TouchHandler.HandleTouchEnd` | game_2048/src/hooks/useTouch.js:20-42 | without a recorded start nothing is reported and nothing changes; otherwise the travel since the start is classified and the start is cleared |

## Left out

- **Helper files.** `rotateGrid`, `getEmptyCells`, `generateTileId` and the constants are imported from `./gridUtils.js` and `./constants.js`, next to `gameLogic.js`; their text is not part of this model. The model assumes they behave like the same-named helpers in the repository's `2048 Game/src/game/` copy:
  - a quarter turn clockwise puts cell (3 - j, i) at (i, j);
  - a half turn puts cell (3 - i, 3 - j) at (i, j);
  - the 270-degree turn puts cell (j, 3 - i) at (i, j);
  - any other angle copies the board;
  - empty cells are listed row by row;
  - `GRID_SIZE` is 4, `WIN_TILE_VALUE` is 2048 and the spawn odds for a 2 are 0.9.

  This choice of rotation is an assumption of the model.
- **Randomness.** `Math.random()` is the foreign source of the spawn and is not modelled. The two draws are parameters. The odds 0.9 are taken as the exact fraction 9/10, where the source compares floating-point numbers.
- **Tile ids.** `generateTileId` builds strings from the clock and randomness. It is modelled as a counter that hands out the next number. The model proves that every id on the board was handed out by the counter (`IdsBelow`) and that merged and spawned tiles get fresh ones. It does not prove that ids on the board are pairwise distinct. The lemmas that say which tile survives and which ids are recorded (`Slide.MergeTilesKept`, `Slide.MergeTilesRecorded`, `Slide.SlideRowKept`, `Slide.SlideAndMergeRecorded`, `Slide.SlideAndMergeLineKept`) take distinct ids as a precondition. This is what `generateTileId` provides in practice.
- **Touch events.** Touch coordinates are modelled as exact reals, and the touch event objects are reduced to the point they carry. `handleTouchMove`, which only calls `preventDefault()`, is not modelled. The React state hooks and callbacks are reduced to the `touchStart` field and the returned direction.
- **Persistence and rendering.** Storage, the reducer that restores the best score and the React components are not part of this model.
- Game.CreateEmptyGrid: its own contract states only that the board is 4x4. `Game.EmptyGridIsEmpty` states that every cell is empty.
- Game.Spawn: its own contract states only that the board stays 4x4. The spawn lemmas state what it does.
- Game.InitializeGame: its own contract states only that the board is 4x4. `Game.InitialGame` and `Game.InitialGameConsistent` state the rest.
- Game.ApplyMove: its own contract states only that the board stays 4x4. `Game.IneffectiveMoveKeepsState` and `Game.EffectiveMove` state the score and count rules, and `Game.StatusRule` the whole status rule.
- Board.Rotate: its own contract states only that the board stays 4x4. `Board.RotateTo` and `Board.RotationRoundTrips` state where each cell goes.
- Slide.MergeTiles: its own contract bounds only the length and the supply. The other lemmas state what the merge produces:
  - `Slide.MergeTilesValues` gives the value at each position;
  - `Slide.MergeTilesFlags` gives which positions hold merged tiles;
  - `Slide.MergeTilesOrigins` gives the flags and fresh ids of merged tiles;
  - `Slide.MergeTilesTotals` gives the score;
  - with distinct ids, `Slide.MergeTilesKept` and `Slide.MergeTilesRecorded` give the surviving tiles in order and exactly which ids are recorded.

  No lemma fixes which fresh id each merged tile receives.
- Slide.SlideRowOf: its own contract states only the length and the supply. The `Slide.SlideRow…` lemmas state the slid row's values, merge positions, surviving tiles, score and recorded ids, as far as the `Slide.MergeTiles` line above says.
- Slide.SlideAndMergeOf: its own contract states only that the board stays 4x4. The `Slide.SlideAndMerge…` lemmas state what a move does.
- **Continue after a win.** The app's reducer can set a won game back to playing with the winning tile still on the board. That action is outside this engine, so `Game.Consistent` holds only for states that `initializeGame` and `applyMove` produce.

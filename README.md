# 2048 game-state engine in Dafny

This project models the game-state engine of a sliding-tile merge puzzle in
the style of 2048: class `Game` in `src/game.py`. A board of `nrows x ncols`
integer cells (0 is an empty cell) is changed in place by four directional
moves. Each move handles one line at a time. It compacts the tiles toward the
edge, merges equal neighbours once from the edge outward (adding each merged
value to the reward), then compacts again. After a move that changed the
board, a tile is spawned on a randomly drawn empty cell. The engine keeps the
score, the number of steps and the number of moves that changed nothing. It
reports a snapshot of the game with a win flag (some cell holds
`2^(1 + rows * cols)`) and a loss flag (the board is full and no two
orthogonal neighbours are equal).

The project has three modules:

- `Lines` (`lines.dfy`): the moves as pure functions on one line, read from
  the edge the tiles move toward.
  - Functions: compaction `Push`, the merge pass `Merge`, and their
    composition `Slide`, which also computes the change flag.
  - Properties of those functions, with the step-by-step states of the
    engine's scanning loops as functions (`PushScan`, `MergeScan`, and the
    backward scans of the right and down moves, `PushScanBack` and
    `MergeScanBack`). Each is proved to compute `Push` and `Merge`.
- `Grids` (`grids.dfy`): the board as a value.
  - The four directions map line `k`, position `i` to a cell. `MoveGrid`
    is the whole-board move specification.
  - The predicates `Lost`, `Won` and `Spawned`.
  - The spawn specification: `FirstEmpty` and `SpawnAt`.
  - Whole-board properties: a move keeps the cell sum, never adds a tile,
    keeps every cell empty or a power of two no smaller than 2, reports a
    change exactly when the board changed, and leaves an empty cell when it
    changed something. A board is lost exactly when no direction changes it.
- `Game2048` (`game.dfy`): class `Game`, with the board as an `array2<int>`
  changed in place.
  - One method per source method, each proved against the specification
    functions. The scanning loops carry loop invariants.
  - The class invariant `Valid`: every cell is empty or a power of two no
    smaller than 2, and so is every spawn value.
  - `Update`, whose new state is stated in terms of `MoveGrid`,
    `FirstEmpty` and `SpawnAt`.

Randomness is turned into parameters:

- `draws` is the sequence of coordinates `random_inboard_coord` would return.
- `pick` is the index into `spawn_values` that `np.random.choice` would return.

The rejection loop of `random_spawn` is modelled exactly: it stops at the
first draw that names an empty cell.

## Model

| member | source | states |
|---|---|---|
| Lines.Push | src/game.py:32-47 | compaction toward the edge: the tiles in their order, then the empty cells, with the line's length kept |
| Lines.PushSpec | src/game.py:32-47 | compaction leaves every tile before every empty cell, keeps the tiles in their order, and only rearranges the cells (multiset equality) |
| Lines.PushMultiset | src/game.py:39-45 | compaction is a permutation of the line's cells |
| Lines.PushFixedIff | src/game.py:32-47 | compaction leaves a line unchanged exactly when no empty cell precedes a tile |
| Lines.PushOfPushed | src/game.py:35-45 | a line already compacted is left as it is |
| Lines.PushTotal | src/game.py:39-45 | the total of any measure that ignores empty cells (sum, tile count) survives compaction |
| Lines.PushLoopStep | src/game.py:40-45 | one iteration of the swap loop keeps the invariant: the tiles read so far, then empty cells, then the unread cells |
| Lines.PushLoopEnd | src/game.py:40-47 | when the swap loop ends the line is compacted, and the cursor moved exactly when the line was not compacted already (the returned flag) |
| Lines.PushScanLoop | src/game.py:35-45 | the cell-by-cell state of the left/up push loops satisfies the loop invariant at every step |
| Lines.PushScanDone | src/game.py:35-47 | the left/up push loops compute Push, and their flag is true exactly when the line was not compacted |
| Lines.PushScanBackIsReversed | src/game.py:59-72 | the right/down push loops, scanning from the far end, are the left push loop on the reversed line, with the cursor mirrored |
| Lines.PushScanBackDone | src/game.py:59-74 | the right/down push loops leave the compacted line reversed, and their flag is true exactly when the line was not compacted |
| Lines.Merge | src/game.py:49-57 | the merge pass from the edge: an occupied cell equal to its successor doubles, the successor empties and is skipped, and each new value is added to the reward; the length is kept |
| Lines.MergeNoPair | src/game.py:49-57 | with no occupied cell equal to its neighbour, the merge pass changes nothing and earns nothing |
| Lines.MergeSpec | src/game.py:49-57 | on non-negative cells the merge pass keeps the sum, never adds a tile, earns a non-negative reward, earns a positive reward and removes a tile when some pair is equal, and is the identity otherwise |
| Lines.MergeStepPair | src/game.py:52-56 | merging cell i with i+1 and adding their sum to the reward is the first step of the merge of the rest of the line |
| Lines.MergeStepSkip | src/game.py:51-53 | passing over a cell that does not merge is the first step of the merge of the rest of the line |
| Lines.MergeScanLoop | src/game.py:51-56 | the cell-by-cell state of the left/up merge loops satisfies the merge invariant |
| Lines.MergeScanDone | src/game.py:49-57 | the left/up merge loops compute Merge's line and reward |
| Lines.MergeScanBackIsReversed | src/game.py:76-84 | the right/down merge loops, pairing a cell with its neighbour toward the start, are the left merge on the reversed line |
| Lines.MergeScanBackDone | src/game.py:76-84 | the right/down merge loops leave the merged line reversed and earn Merge's reward |
| Lines.Slide | src/game.py:144-147 | one line's move: push, merge, push, with the reward of the merge and a flag that is up when either push moved or the merge earned something; the length is kept |
| Lines.SlideSpec | src/game.py:144-147 | one line's move keeps the sum, never adds a tile, keeps cells non-negative, leaves the line compacted, and raises its flag exactly when the line changed |
| Lines.SlideRound | src/game.py:144-147 | the flag accumulated by the loop body (first push moved, running reward positive, second push moved) equals the previous flag or the line's change, given a running reward that is non-negative and positive only once the flag is up |
| Lines.SlideFixedIff | src/game.py:140-148 | a line is left alone exactly when it is compacted and no occupied cell equals its successor, and then it earns nothing |
| Lines.SlideChangedLeavesEmpty | src/game.py:144-147 | a line that changed has an empty cell afterwards |
| Lines.SlideIsCompacted | src/game.py:144-147 | the line that the last push leaves is compacted, so pushing it again moves nothing (the first push of a repeated move in the same direction) |
| Lines.TileDouble | src/game.py:54-55 | two equal tiles that are powers of two merge into a power of two |
| Lines.PushTiles | src/game.py:32-47 | compaction keeps a line of tiles a line of tiles |
| Lines.MergeTiles | src/game.py:49-57 | the merge pass keeps a line of tiles a line of tiles |
| Lines.SlideTiles | src/game.py:144-147 | one line's move keeps a line of tiles a line of tiles |
| Lines.CountBelowLength | src/game.py:183-190 | a line has fewer tiles than cells exactly when it has an empty cell |
| Lines.MergeThreeEqual | src/game.py:49-57 | on [2,2,2,0] the merge pass merges the pair at the edge: [4,0,2,0], reward 4 |
| Lines.SlideThreeEqual | src/game.py:140-148 | [2,2,2,0] slides to [4,2,0,0] with reward 4, and the flag is up |
| Lines.MergeLeadingPair | src/game.py:49-57 | [2,2,0,0] merges to [4,0,0,0] with reward 4 |
| Lines.SlideAcrossGaps | src/game.py:140-148 | [0,2,0,2] slides to [4,0,0,0] with reward 4 |
| Lines.SlideNoEffect | src/game.py:140-148 | [2,4,0,0] is left as it is, earns nothing, and its flag stays down |
| Grids.LineViews | src/game.py:32-138 | a Left line is a row, a Right line the reversed row, an Up line a column, a Down line the reversed column |
| Grids.MovedLine | src/game.py:140-178 | each line of the moved board is the slid line of the original board |
| Grids.MirroredMoves | src/game.py:140-178 | the right, up and down moves are the left move on the reversed row, the column and the reversed column |
| Grids.AnyChangedSome | src/game.py:141-147 | the flag accumulated over the lines is up exactly when some line's flag is |
| Grids.RewardSumSpec | src/game.py:142-145 | the accumulated reward is non-negative, and zero exactly when no line earned anything |
| Grids.PartialDone | src/game.py:140-148 | once every line is handled, the board, flag and reward built line by line are those of MoveGrid |
| Grids.MoveGrid | src/game.py:140-178 | a move slides every line of its direction independently; the reward is the sum of the lines' rewards and the flag is up when some line's flag is; the board keeps its shape |
| Grids.MoveNonneg | src/game.py:140-178 | a move keeps every cell non-negative and earns a non-negative reward |
| Grids.MoveTiles | src/game.py:140-178 | a move keeps every cell empty or a power of two no smaller than 2 |
| Grids.MoveChangedIff | src/game.py:140-178 | the change flag a move returns is true exactly when the board changed |
| Grids.MoveChangedLeavesEmpty | src/game.py:200-201 | after a move that changed the board there is an empty cell, so the spawn has somewhere to go |
| Grids.MoveConserves | src/game.py:140-178 | a move keeps the sum of all cells and never increases the number of tiles |
| Grids.AnyDirTotal | src/game.py:140-178 | the total over the lines of any direction is the total over the board |
| Grids.GapMoves | src/game.py:40-44 | an empty cell before a tile makes the line move |
| Grids.PairMoves | src/game.py:52-56 | two equal neighbouring tiles make the line move |
| Grids.Lost | src/game.py:183-190 | a board is lost when every cell is occupied and no cell equals its right or lower neighbour |
| Grids.Won | src/game.py:180-181 | a board is won when some cell holds 2^(1 + rows * cols) |
| Grids.LostMeansNoMove | src/game.py:183-190 | on a lost board every direction leaves the board unchanged, earns nothing and reports no change |
| Grids.UnlostLine | src/game.py:183-190 | on a board that is not lost but holds a tile, some line of some direction moves |
| Grids.StuckIffLost | src/game.py:183-190 | a board holding a tile is lost exactly when no direction changes it |
| Grids.WonAndLost | src/game.py:180-190 | won and lost are not exclusive: a full 1x2 board [8, 2] is both |
| Grids.Spawned | src/game.py:25-30 | one previously empty cell now holds one of the spawn values and every other cell is as before |
| Grids.FirstEmpty | src/game.py:26-28 | the rejection loop stops at a draw naming an empty cell, and every earlier draw named an occupied one |
| Grids.SpawnAt | src/game.py:30 | writing the spawned value sets that cell and leaves every other cell as it was |
| Grids.SpawnAtSpawned | src/game.py:25-30 | writing a spawn value into an empty cell is a spawn; it keeps cells non-negative, and a board of tiles one, when the value is |
| Grids.EmptyGridHits | src/game.py:19-20 | on the empty initial board the first draw is taken |
| Game2048.ParseAction | src/game.py:193-198 | the action table: "L", "R", "U" and "D" each name their own direction, and every other action names none |
| Game2048.Played | src/game.py:193-201 | the board after update: the moved board, with the spawn value at the first drawn empty cell when the move changed something; it keeps the board's shape |
| Game2048.PlayedSpec | src/game.py:192-203 | after update the board is the moved board plus one spawned tile if the move changed something, and the old board otherwise; a board of tiles stays one when the spawn value is a tile |
| Game2048.LostPlayStays | src/game.py:192-206 | on a lost board every action changes nothing, earns nothing and leaves the board as it is |
| Game2048.Game.constructor | src/game.py:11-20 | every counter is zero, and the board is the empty board with the first spawn written at the first draw |
| Game2048.Game.IsCellOccupied | src/game.py:22-23 | a cell is occupied exactly when it is not 0 |
| Game2048.Game.RandomSpawn | src/game.py:25-30 | the board becomes the old board with the chosen spawn value at the first drawn empty cell, which is a spawn |
| Game2048.Game.PushLeft | src/game.py:32-47 | row r becomes Push of its old contents, the result is true exactly when it was not compacted, and other rows are untouched |
| Game2048.Game.PushRight | src/game.py:59-74 | row r, read from the right, becomes Push of its old contents; the flag as for PushLeft; other rows are untouched |
| Game2048.Game.PushUp | src/game.py:86-101 | column c becomes Push of its old contents; the flag as for PushLeft; other columns are untouched |
| Game2048.Game.PushDown | src/game.py:113-128 | column c, read from the bottom, becomes Push of its old contents; the flag as for PushLeft; other columns are untouched |
| Game2048.Game.MergeLeft | src/game.py:49-57 | row r becomes Merge of its old contents, the result is Merge's reward, and other rows are untouched |
| Game2048.Game.MergeRight | src/game.py:76-84 | row r, read from the right, becomes Merge of its old contents, with Merge's reward |
| Game2048.Game.MergeUp | src/game.py:103-111 | column c becomes Merge of its old contents, with Merge's reward |
| Game2048.Game.MergeDown | src/game.py:130-138 | column c, read from the bottom, becomes Merge of its old contents, with Merge's reward |
| Game2048.Game.RoundLeft | src/game.py:144-147 | the loop body replaces row r by its slide, adds the slide's reward, and sets the flag to the old flag or the slide's change |
| Game2048.Game.RoundRight | src/game.py:154-157 | the same for row r moving right |
| Game2048.Game.RoundUp | src/game.py:164-167 | the same for column c moving up |
| Game2048.Game.RoundDown | src/game.py:174-177 | the same for column c moving down |
| Game2048.Game.MoveLeft | src/game.py:140-148 | the board becomes MoveGrid(old board, Left), and the returned flag and reward are MoveGrid's |
| Game2048.Game.MoveRight | src/game.py:150-158 | the board becomes MoveGrid(old board, Right), with MoveGrid's flag and reward |
| Game2048.Game.MoveUp | src/game.py:160-168 | the board becomes MoveGrid(old board, Up), with MoveGrid's flag and reward |
| Game2048.Game.MoveDown | src/game.py:170-178 | the board becomes MoveGrid(old board, Down), with MoveGrid's flag and reward |
| Game2048.Game.Move | src/game.py:193-198 | the action table: the chosen direction's move, with MoveGrid's board, flag and reward |
| Game2048.Game.IsWon | src/game.py:180-181 | true exactly when some cell holds 2^(2 + rows*cols - 1), the winning tile of Won |
| Game2048.Game.IsLost | src/game.py:183-190 | true exactly when the board is full and no cell equals its right or lower neighbour |
| Game2048.Game.GetEnv | src/game.py:215-223 | the snapshot holds the board's contents, the score, both counters, and the win and loss flags of the current board |
| Game2048.Game.AfterMove | src/game.py:200-206 | a changed board receives a spawn and an unchanged one counts an invalid move; the score grows by the reward and the step count by one |
| Game2048.Game.Update | src/game.py:192-213 | the score never decreases; an unknown action changes nothing; otherwise the board becomes Played(old board), the score grows by the move's reward, the invalid count grows exactly when nothing changed, the step count grows by one, and the result is the new snapshot with the reward and the flag |

## Left out

- Randomness. `random_inboard_coord` and `np.random.choice` are replaced by parameters: the sequence of coordinates drawn and the index of the chosen spawn value. The model admits every index; the probabilities `spawn_probs` are not stored or used.
- Game2048.Game.RandomSpawn: requires a draw that names an empty cell. On draws that never name one (a full board, or an unlucky infinite sequence), the source loops forever. `Grids.MoveChangedLeavesEmpty` shows that an empty cell exists whenever `update` spawns.
- Game2048.Game.Update: requires that, after a changed move, the draws hit an empty cell, for the same reason.
- Game2048.Game.constructor: requires `rows, cols >= 1` (with an empty dimension the source's first spawn draw fails) and spawn values that are powers of two no smaller than 2, which the game's design assumes and which keeps every cell such a power. The source does not check the configuration.
- Integer width: numpy's `int` cells are 64-bit, so the source wraps around once a tile or the score exceeds 2^63 - 1. The model uses unbounded integers.
- Aliasing: `get_env` returns the live board array, which later moves change. The model's `Env` holds a copy of the board's contents.
- An unknown action: `update` raises `KeyError` at the dictionary lookup, before any state changes. The model returns `UnknownAction` with the state unchanged.
- `env.update({...})`: the dictionary returned by `update` is modelled as the record `Step`, which holds the snapshot, the reward and the flag.
- `src/gui.py`, `benchmark.py` and `interactive.py` (display, agent and benchmark loop) are not part of this model.

# 2048: the game model

A Dafny model of the `Model` class of a 2048 game (`game2048/Model.java`):
- the `tilt` move engine;
- the game-over predicates;
- the score and lifecycle bookkeeping.

The board's contents and a model of each operation are proved against functional specifications.

- **Board.** `Game2048.Model` holds the board as an `array2<int>` in absolute coordinates: `board[x, y]` is column x, row y, with (0, 0) the lower-left corner and 0 for an empty cell. The class also holds the viewing perspective, `score`, `maxScore` and `gameOver`.
- **Viewing perspective** (module `Perspective`). Viewed from side `s`, logical cell (c, r) is an absolute cell given by a rotation. Logical row `size - 1` lies on edge `s`. A *lane* is one logical column read from the leading edge (the edge tiles move toward) to the trailing edge. `Lanes` and `FromLanes` are proved inverse to each other.
- **Lanes** (module `Columns`):
  - `Compact`: what one compaction pass leaves, the tiles packed toward the leading edge in order.
  - `Scan`: what the merge pass leaves when it runs leading cell first.
  - `Merge`: the greedy merge of tile values.
  - `Slide`: what a whole tilt leaves, `Merge` of the tiles, packed.

  Lemmas prove that compact, then scan, then compact is `Slide`. They also prove that the merge rules in the documentation of `tilt` (Model.java:94-104) determine `Merge` uniquely.
- **Whole boards** (module `Boards`):
  - `TiltBoard`: the board after a tilt toward a side.
  - `TiltGain`: the score that tilt earns.
  - Lemmas for conservation of the tile sum, the tile-count drop (equal to the number of merges), and no-op tilts.
- **Game-over rules** (module `Rules`). `AtLeastOneMove` and `Over` state the game-over test on absolute cells exactly as the code scans the board. This includes the hard-coded bound 4 and the `> 0` guards of `atLeastOneMoveExists`. An out-of-range read, which Java signals by an exception, is the outcome `IndexFault`. The module proves what the scan finds:
  - every reported move is real;
  - an empty cell is always a move;
  - from side 4 on, there is never a fault;
  - on sides 1 to 3, every full board with no equal neighbours and no 2048 tile faults;
  - on a full 4 by 4 board, every adjacent equal pair is found except (0,3)-(1,3) and (3,0)-(3,1);
  - two concrete boards show those two misses.
- **Imperative model.** `tilt` is modelled as the nested loops it is. `Tilt` calls `SlidePasses`, which runs two `CompactPass`es and one `MergePass`. Each pass loops over the columns (`CompactColumn`, `MergeColumn`), and each column loops over the rows (`CompactCell`, `MergeCell`). The `emptySpaces` counter, the `changed` flags, the in-place tile moves and the `score +=` are all kept. Each method is proved against the lane functions above.
- **Where the code departs from its own documentation, the model follows the code:**
  - `atLeastOneMoveExists` is documented (Model.java:208-213) to find a move whenever two adjacent tiles are equal. On a full 4 by 4 board the scan misses the two pairs above.
  - The same scan can fault on full boards of side 1 to 3: it faults on every such board with no equal neighbours and no 2048 tile (`Rules.FaultBelowFour`). The empty board of side 0 is reported over without a fault.
  - `_maxScore` is documented as updated when the game ends (Model.java:15, 73). `gameOver()` raises it on every query that finds the game over, not only on the transition to over. A tilt can still score after the game is over, for example while a 2048 tile is on the board (`Game2048.ScoresAfterOver`). A later query then raises `maxScore` again, which a transition-only rule would not.
- **In agreement with the documentation** of `gameOver()` (Model.java:58-59): from side 4 on, a full board with no equal neighbours and no winning tile is reported as over (`Rules.StuckIsOver`).

## Model

| member | source | states |
|---|---|---|
| Game2048.Model.Tilt | game2048/Model.java:106-160 | The board becomes `TiltBoard` of the old board toward `side`, and the score grows by `TiltGain`. The perspective is North again and `maxScore` is kept. The result is true exactly when the board changed. `gameOver` is recomputed, or the outcome is `IndexFault` when the game-over scan reads off the board. A false result leaves the score unchanged. |
| Game2048.Model.SlidePasses | game2048/Model.java:111-152 | The three passes turn every lane into `Slide` of it. The score grows by the greedy-merge gain of every lane. The flag is true exactly when some lane changed. |
| Game2048.Model.CompactPass | game2048/Model.java:113-126 | Every lane becomes `Compact` of it. The flag is true exactly when the lanes changed. |
| Game2048.Model.CompactColumn | game2048/Model.java:114-125 | The row loop with the `emptySpaces` counter compacts lane `c` and leaves the other lanes alone. The flag is true exactly when the lane was not packed. |
| Game2048.Model.CompactCell | game2048/Model.java:116-124 | One row step keeps the compaction invariant: the lane is compacted up to the row, and the counter is the number of empty cells below the packed tiles. |
| Game2048.Model.Shift | game2048/Model.java:121-123 | The target row `r + emptySpaces` is on the board and its cell is empty, so the move only relocates the tile. |
| Game2048.Model.MergePass | game2048/Model.java:128-137 | Every lane becomes `Scan` of it. The score grows by the sum of the lanes' `ScanGain`. The flag is true exactly when the lanes changed. |
| Game2048.Model.MergeColumn | game2048/Model.java:129-136 | The row loop turns lane `c` into `Scan` of it and adds `ScanGain` to the score. The flag is true exactly when the lane changed. |
| Game2048.Model.MergeCell | game2048/Model.java:130-135 | One row step keeps the merge invariant: the lane and the gain are the scan's state after that many steps. |
| Game2048.Model.Absorb | game2048/Model.java:131-132 | Merging the row `r-1` tile onto an equal tile at row `r` empties row `r-1` and doubles row `r`. |
| Game2048.Model.Move | game2048/Model.java:122 | Moving a tile within a logical column empties its old cell. The destination gets the value, or twice the value if it was occupied. Every other cell is kept. A move onto the tile's own cell is a no-op. |
| Game2048.Model.EmptySpaceExists | game2048/Model.java:177-187 | True exactly when some cell of the board is empty. |
| Game2048.Model.MaxTileExists | game2048/Model.java:194-205 | True exactly when some tile has the value 2048. |
| Game2048.Model.AtLeastOneMoveExists | game2048/Model.java:214-251 | The result is the guarded scan `AtLeastOneMove` of the board, including its `IndexFault` case. |
| Game2048.Model.CheckGameOverOf | game2048/Model.java:170-172 | The result is `Over`, which is true at a 2048 tile and otherwise the negation of the move scan. |
| Game2048.Model.CheckGameOver | game2048/Model.java:165-167 | `gameOver` becomes `Over` of the board, unless the scan faults. |
| Game2048.Model.GameOver | game2048/Model.java:60-66 | Returns `Over` of the board and stores it in `gameOver`. `maxScore` becomes the larger of itself and the score when the game is over, and is otherwise kept. It never decreases, and after a true result it is at least the score. |
| Game2048.Model.Clear | game2048/Model.java:79-84 | The board is empty, the score is 0 and `gameOver` is false. `maxScore` is kept. |
| Game2048.Model.AddTile | game2048/Model.java:88-92 | Exactly the given empty cell changes, to the new tile. `gameOver` is then recomputed. |
| Game2048.Model.constructor | game2048/Model.java:30-32 | The new game has an empty `size` by `size` board, score 0, max score 0, the game not over, and the North perspective. |
| Game2048.Model.Tile | game2048/Model.java:48-50 | The tile at logical (c, r) in the current perspective, 0 for none. |
| Game2048.Model.Size | game2048/Model.java:54-56 | The side of the board. |
| Game2048.Model.Score | game2048/Model.java:69-71 | The current score. |
| Game2048.Model.MaxScore | game2048/Model.java:74-76 | The best score recorded so far. |
| Columns.CompactSpec | game2048/Model.java:113-126 | Compaction keeps the tiles and their order, and packs them against the leading edge. It leaves a lane unchanged exactly when the lane is already packed. |
| Columns.CompactShift | game2048/Model.java:120-124 | When `emptySpaces > 0`, the target cell of a compaction move is empty, and the move keeps the compaction invariant. |
| Columns.CompactedDone | game2048/Model.java:115-125 | After the last row the compaction loop has produced `Compact` of the lane, and it has moved a tile exactly when the lane was not packed. |
| Columns.ScannedClosed | game2048/Model.java:129-136 | After i steps the merge loop's lane is the first i cells of `Scan` followed by the rest still to scan. The gain so far plus the rest's gain is the total `ScanGain`. |
| Columns.ScanDone | game2048/Model.java:129-136 | After the last row the merge loop has produced `Scan` of the lane and its gain. It merged exactly when the lane changed. |
| Columns.ScanOfPacked | game2048/Model.java:128-137 | On a packed lane the merge pass leaves the greedy merge of its tiles and earns the greedy merge's gain. |
| Columns.TiltPasses | game2048/Model.java:113-152 | Compact, then the merge pass, then compact, is `Slide`: the greedy merge of the tiles, packed against the leading edge. |
| Columns.SlideChanged | game2048/Model.java:121-149 | Some pass changes the lane exactly when the whole tilt changes it. An unchanged lane earns no score. |
| Columns.SlideConserves | game2048/Model.java:97-98 | A tilt keeps the sum of a lane's values. The tile count drops by the number of merges. |
| Columns.MergeFollowsRules | game2048/Model.java:96-104 | The greedy merge follows the documented rules: groups of one or two tiles, each tile in at most one merge, equal pairs doubled. A lone tile is never followed by an equal one. The gain is the total of the merged tiles. |
| Columns.RulesDetermineMerge | game2048/Model.java:96-104 | Any grouping and result that follow the documented rules are the greedy merge's. |
| Columns.ThreeEqual | game2048/Model.java:102-104 | Three equal leading tiles v, v, v become 2v, v. |
| Boards.TiltLanes | game2048/Model.java:106-160 | Read from the tilt side, every lane of the tilted board is `Slide` of the old lane. |
| Boards.PassesSlide | game2048/Model.java:113-152 | The three passes over all lanes give `SlideAll`. Some pass changes the board exactly when the whole tilt does. |
| Boards.TiltConserves | game2048/Model.java:131-134 | A tilt keeps the sum of all tile values. The tile count drops by the number of merges. |
| Boards.NoOpTilt | game2048/Model.java:156-159 | A tilt that leaves the board unchanged earns no score, so repeating it is again a no-op. |
| Boards.PerspectiveSymmetry | game2048/Model.java:111-153 | A tilt toward any side is the North tilt of the board rotated to that side, rotated back. |
| Perspective.Bijection | game2048/Model.java:111 | The perspective map is a bijection of the board, and the identity for North. |
| Perspective.RoundTrip | game2048/Model.java:153 | Viewing the board from a side and storing it back is lossless in both directions. |
| Perspective.LanesInjective | game2048/Model.java:156-159 | Two boards have equal lanes exactly when they are equal. |
| Perspective.LanesMove | game2048/Model.java:122 | A tile move on absolute cells is the same move within one lane. |
| Rules.EmptyCellIsMove | game2048/Model.java:216-218 | An empty cell always means a move exists. |
| Rules.MovesSound | game2048/Model.java:214-251 | A reported move is witnessed by an empty cell or by two orthogonally adjacent equal tiles. |
| Rules.MovesFromFull | game2048/Model.java:221-250 | On a full board of side at least 4, the scan never faults. It reports a move exactly when a cell not yet scanned passes one of the two guarded comparisons. |
| Rules.NoFaultFromFour | game2048/Model.java:228-238 | From side 4 on, neither the move scan nor the game-over test faults. |
| Rules.FullFourByFour | game2048/Model.java:221-250 | On a full 4 by 4 board, a move is reported exactly when some adjacent equal pair other than (0,3)-(1,3) and (3,0)-(3,1) exists. |
| Rules.MissedPairs | game2048/Model.java:228-238 | Two full 4 by 4 boards, each with one equal adjacent pair, (0,3)-(1,3) and (3,0)-(3,1), are declared over. |
| Rules.StuckIsOver | game2048/Model.java:170-172 | From side 4 on, a full board with no equal neighbours is over. |
| Rules.ColumnZeroFaults | game2048/Model.java:221-237 | Below side 4, on a full board with no equal neighbours, the scan of column 0 runs on to row n-1. There the first guard reads the upper neighbour off the board. |
| Rules.FaultBelowFour | game2048/Model.java:228-230 | On sides 1 to 3, a full board with no equal neighbours and no 2048 tile makes the move scan and the game-over test fault. |
| Rules.FaultingBoards | game2048/Model.java:228-230 | A concrete full board of each side 1, 2 and 3 on which the game-over test faults. |
| Rules.NoCellsIsOver | game2048/Model.java:214-251 | The board of side 0 has neither an empty cell nor a pair to compare, so the game is over without a fault. |
| Game2048.ScoresAfterOver | game2048/Model.java:60-66 | A board on which the game is over, because it holds a 2048 tile, still earns 4 on a North tilt. |

## Left out

- `Observable` and `setChanged()` (Model.java:10, 83, 91, 157) are left out. They only notify the user interface.
- `toString`, `equals` and `hashCode` (Model.java:253-289) are left out. They render and compare text. `toString` calls `gameOver()`, so printing a model raises `maxScore` just as `Game2048.Model.GameOver` does.
- The raw-values constructor `Model(int[][], int, int, boolean)` (Model.java:37-42) is left out. Its effect depends on `Board(int[][], int)`, which is not part of this model.
- `Board`, `Tile` and `Side` are not part of this model. The board is an `array2<int>` with 0 for an empty cell, and a tile is its value. The following are stated as assumptions:
  - `setViewingPerspective` is the rotation in `Perspective.Col`/`Perspective.Row`. What `Game2048.Model.Tilt` promises for East, South and West is stated through this rotation. The conservation proof `Boards.TiltConserves` rests on `Boards.LanesTotal`, which uses the rotation's formulas side by side.
  - `Board.move` empties the moved tile's cell and writes its value, or twice its value, to the destination.
  - `Board.addTile` stores the tile at its absolute column and row.
- Game2048.Model.Move: covers only moves within one logical column, which are the only moves `tilt` makes.
- Java `int` overflow of `_score` and of tile values is left out. Integers here are unbounded.
- Random tile spawning and input handling are left out. They are outside this class.
- Under North, `Game2048.Model.Tile` is `tile(col, row)`. Java returns a `Tile` object or `null`; the model returns the value or 0.
- Game2048.Model.AddTile: requires the cell to be empty, as the documentation of `addTile` demands (Model.java:86-87). It also requires the value to be positive, because a `Tile` always holds a value and 0 is this model's empty cell.

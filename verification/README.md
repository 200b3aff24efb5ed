# tetris-ai in Dafny

A model of the simulation and move-selection core of the tetris-ai program:

- **Catalog** (`tetromino.dfy`): the piece kinds (`Empty` = 0, I..Z = 1..7), their rotation counts and the occupancy matrix of every rotation.
- **Boards** (`board.dfy`): the 10x20 board with its sticky game-over flag, its counters of cleared lines and dropped pieces, and its per-column heights and hole counts. It covers creating and copying a board, reading a cell, and dropping a piece. A drop is the contract checks, the landing test at the top, the gravity scan, stamping the piece, clearing full rows in place, and refreshing the column statistics.
- **Search** (`ai.dfy`): the linear board heuristic, the depth-limited min/max evaluation with its alpha/beta cut-offs as the loops are written, and the two-ply choice of the next move with its tie list.

A board is an immutable value, so a copy made for a hypothetical move cannot be affected by moves on another board. `Drop` is a pure function that returns the new board and whether the drop ended the game.

The 4x4 matrices listed in internal/tetris/tetromino.go:46-185 cannot be the table the board uses. `Drop` rejects a column when the column plus the length of the matrix's first row exceeds the width (internal/tetris/board.go:143). With 4x4 matrices every piece would then be 4 wide, and the example in internal/tetris/board_test.go:28-34, which drops `L` at column 8, would panic. So the matrices here are trimmed to their bounding box, and `ShapesMatchSource` proves that padding them back gives the listed 4x4 table.

The core calls `Tetrominoes()`, `Valid()` and `TetrominoMatrices()`, but the tetromino and board sources modelled here do not define them. `tetromino.dfy` defines them as follows:
- `Tetrominoes` is the ordered kinds 1..7.
- `IsNonEmpty` is the predicate 1 ≤ t ≤ 7. internal/tetris/tetromino_test.go:23-31 expects a predicate of that name.
- `IsNonEmpty` also serves as `Valid()`. The source defines `IsValid` as 0 ≤ t ≤ 7 (internal/tetris/tetromino.go:20-22), which admits `Empty`. But the comments on `SetNext` and `DropSetNext` (internal/ai/ai.go:47 and 58) say both panic on an empty tetromino. `Drop` panics on `Empty` anyway, through `RotationsCount` (internal/tetris/board.go:130 and tetromino.go:32-33). So `Valid()` is read as "placeable".
- `Shapes` is the trimmed table, which `MatrixOf` looks up.

The search is stated against a reference definition. A `Judge` says which pairs of moves survive and what value a surviving pair gets under a given alpha. `Tried`, `RepliesTried` and `MovesTried` fold the pairs, in the order of the source's loops, into a trace of evaluations. Each surviving pair is appended with its value, taking as alpha the best value recorded before it. `SearchJudge` is the judge of the source's search: a pair survives when neither drop ends the game, and its value is `Evaluate` of the board that the model's `Drop` leaves (see `Search.SearchJudge` under "## Left out"). `SearchTrace` is the resulting trace. The methods that model the loops are proved to produce exactly this trace.

## Model

| member | source | states |
|---|---|---|
| Catalog.Tetrominoes | internal/tetris/tetromino.go:5-22 | There are exactly seven placeable kinds, numbered 1..7 in declaration order. A value is placeable exactly when it is valid and not `Empty`. |
| Catalog.RotationsCount | internal/tetris/tetromino.go:24-35 | Defined only for the seven placeable kinds, where the source panics otherwise. Every kind has between one and four rotations. |
| Catalog.RotationsMatchTables | internal/tetris/tetromino.go:24-187 | The rotation count of every kind equals the number of matrices the trimmed table and the source's 4x4 table hold for it. |
| Catalog.ShapesMatchSource | internal/tetris/tetromino.go:40-187 | Both tables have an entry per kind, and the `Empty` entry is empty. Every matrix is a minimal bounding box of at most 4x4 with exactly four occupied cells. Padding it to 4x4 gives the source's matrix. |
| Catalog.MatrixOf | internal/tetris/tetromino.go:46-185 | The matrix of any valid (kind, rotation) is a four-cell minimal bounding box. Its first-row width is the piece width the placement loops use. |
| Catalog.MatrixOfMatchesSource | internal/tetris/tetromino.go:46-185 | Padding the matrix of any valid (kind, rotation) gives exactly the source's matrix for it. |
| Catalog.WidthsMatchTable | internal/tetris/tetromino.go:46-185 | The width table that bounds placements agrees with the first row of every trimmed matrix. |
| Boards.NewBoard | internal/tetris/board.go:42-56 | The new board is 10 wide and 20 tall and every cell is empty. The game is not over, both counters are zero, and all heights and holes are zero, which is consistent with the grid. |
| Boards.NewBoardFromBoard | internal/tetris/board.go:58-75 | The copy, built cell by cell, equals the original. Being a value, it shares nothing with the original. |
| Boards.At | internal/tetris/board.go:110-120 | Only on-board coordinates may be asked for. The result is the cell at (row, col), a valid kind or `Empty`. |
| Boards.ValidCellIndexesGrid | internal/tetris/board.go:225-228 | `IsValidCell` holds when 0 ≤ row < 20 and 0 ≤ col < 10. On a grid, that is exactly when (row, col) indexes a cell. |
| Boards.CanBePutScan | internal/tetris/board.go:211-222 | `CanBePut` holds when every occupied cell of the matrix, placed with its top-left corner at (row, col), is a valid cell and is empty on the grid. The source's nested loops, which reject at the first occupied cell that is off the board or on a filled cell, return true exactly when `CanBePut` holds. |
| Boards.OffBoardNeverFits | internal/tetris/board.go:208-228 | No piece can be put with its top row below the floor or with its left edge left of column 0. |
| Boards.RestingRow | internal/tetris/board.go:162-168 | The piece fits at every row from the start down to the resting row, and it does not fit one row lower. |
| Boards.RestingRowUnique | internal/tetris/board.go:162-168 | The resting row is the only row with that property. |
| Boards.GravityScan | internal/tetris/board.go:162-168 | The source's loop over the rows stops at the resting row. |
| Boards.Stamp | internal/tetris/board.go:170-176 | Exactly the cells under the matrix's occupied cells take the piece's kind. Every other cell is unchanged. |
| Boards.FullRowScan | internal/tetris/board.go:232-239 | `IsFullRow` holds when the row has no empty cell. The source's scan, which stops at the first empty cell, returns true exactly then, that is, exactly when every cell of the row is occupied. |
| Boards.FullRowCount | internal/tetris/board.go:232-239 | The number of full rows is positive exactly when some row has no empty cell, and it is the number of rows that are not kept. |
| Boards.KeptRowsAreRows | internal/tetris/board.go:244-273 | Clearing invents no row: every kept row is a row of the input. |
| Boards.NonFullRowsAreKept | internal/tetris/board.go:244-273 | Clearing loses no row: every row that is not full is kept. |
| Boards.AllRowsKept | internal/tetris/board.go:244-273 | Without full rows, every row is kept in place. |
| Boards.Compact | internal/tetris/board.go:241-273 | The cleared grid has no full row. It has as many empty rows on top as there were full rows, then the kept rows in their original order. It is a grid when the input is, and it is the input itself when nothing was full. |
| Boards.ClearFullRows | internal/tetris/board.go:241-273 | Clearing yields the compacted grid and adds the number of full rows to the cleared-lines count. Nothing else changes. It reports true exactly when some row was full. |
| Boards.ClearFullRowsInPlace | internal/tetris/board.go:244-273 | The source's two-index in-place loop produces exactly the compacted grid. It counts the full rows and reports true exactly when there was one. |
| Boards.ClearingStep | internal/tetris/board.go:250-270 | One pass of the loop keeps the loop invariant. It strictly decreases the two indices and reports whether it cleared a row. |
| Boards.ColumnHeight | internal/tetris/board.go:193-201 | A column's height is zero exactly when the column is empty. Otherwise the cell that many rows above the floor is occupied and everything above it is empty. |
| Boards.ColumnHoles | internal/tetris/board.go:193-201 | A column's holes number fewer than its height whenever the column is not empty. |
| Boards.ColumnStatsAreLocal | internal/tetris/board.go:181-187 | A column's height and holes depend on that column only, which is why the refresh may skip the columns a drop did not touch. |
| Boards.ScanFromStoredValues | internal/tetris/board.go:188-203 | The source's scan, started from the stored values, yields the old height for an emptied column and the old hole count plus the fresh one. |
| Boards.RefreshAsWritten | internal/tetris/board.go:181-203 | The refresh as written leaves the cells and counters alone and changes no column outside the range. Inside the range it adds the fresh holes to the stored ones and keeps the stored height of an empty column. |
| Boards.StaleStatsCounterexample | internal/tetris/board.go:188-203 | A concrete board where the refresh as written leaves a wrong height, and another where it counts a hole twice. |
| Boards.FreshScanIsExact | internal/tetris/board.go:188-203 | Started from zero, the scan yields exactly the column's height and holes. |
| Boards.Refresh | internal/tetris/board.go:181-203 | The corrected refresh makes the statistics of every column in the range those of the grid and changes nothing else. |
| Boards.DropKeepsStats | internal/tetris/board.go:178-203 | After a successful drop every column's statistics are consistent with the grid, including the columns the refresh skipped. |
| Boards.Drop | internal/tetris/board.go:122-206 | The caller must supply a placeable kind, a valid rotation, a live board and a column range that fits. The game ends exactly when the piece does not fit at the top; then the piece is stamped there, the game is over, and nothing else changes. Otherwise one more piece is dropped, the grid is the compacted stamped grid at the resting row, the full rows are counted, and the statistics stay consistent. |
| Search.Utility | internal/ai/ai.go:160-193 | Wherever `utility` does not panic, the score lies in [MinUtility, MaxUtility]; a finished game scores MinUtility. |
| Search.ComputeUtility | internal/ai/ai.go:166-192 | The source's loop over the columns computes the same score as the sum definitions. |
| Search.PlayableUtility | internal/ai/ai.go:12-16 | A consistent board within the line budget never makes `utility` panic. If it is still in play, it scores strictly above a finished game. |
| Search.ExtraHoleLowersUtility | internal/ai/ai.go:183-186 | All else equal, one more hole lowers the score by exactly the hole weight. |
| Search.Evaluate | internal/ai/ai.go:126-158 | The value lies in [MinUtility, MaxUtility], as the source's comment promises. At depth 0, or once the game is over, it is the utility. Otherwise it is at most the maximum found for the first kind. |
| Search.ScanKinds | internal/ai/ai.go:131-157 | The loop over the kinds returns a value between MinUtility and the running minimum. That value is at most the maximum of the first kind it scans. |
| Search.ScanPlacements | internal/ai/ai.go:133-151 | The loops over rotations and columns never lower the running maximum or alpha. The result stays at most MaxUtility and is at least MinUtility once a placement was evaluated. |
| Search.EvaluatePlacement | internal/ai/ai.go:136-142 | Dropping on a copy and evaluating one ply shallower gives a value in [MinUtility, MaxUtility], whether or not the drop ended the game. |
| Search.NewAi | internal/ai/ai.go:31-37 | A new search starts on a new, consistent, live board with no piece set. |
| Search.SetNext | internal/ai/ai.go:44-53 | Only a placeable kind is accepted. It becomes the pending piece and the board is untouched. |
| Search.RowOf | internal/ai/ai.go:80-86 | The candidate moves of one rotation are its columns 0 up to the width minus the piece width, in order. |
| Search.Placements | internal/ai/ai.go:79-86 | The candidate moves are exactly the (rotation, column) pairs that fit the board's width. |
| Search.PlacementsInOrder | internal/ai/ai.go:79-86 | The candidates come rotation by rotation and column by column, as the loops run, and none repeats. |
| Search.Record | internal/ai/ai.go:100-106 | Folding one evaluation in appends it to the trace, and the new best value is the maximum of the old one and the new value. The best value is the largest value of the trace. The tie list holds, in order, the first move of every evaluation that reached that value. |
| Search.Tried | internal/ai/ai.go:95-106 | The reference step for one pair. It leaves the trace before it untouched. It appends one evaluation exactly when the judge says the pair survives, and that evaluation is valued with the trace's best value as alpha. |
| Search.RepliesTried | internal/ai/ai.go:92-107 | Trying replies in order only ever extends the trace it started from. |
| Search.SearchJudge | internal/ai/ai.go:87-100 | The search's judge agrees with the model's `Drop` and `Evaluate` for every pair. A pair survives exactly when the first drop and then the reply's drop both leave the game running. A surviving pair's value under any alpha is `Evaluate` of the board the two drops leave. |
| Search.AfterPair | internal/ai/ai.go:87-100 | The board that two live drops leave can still be evaluated to depth one within the line budget. |
| Search.RepliesTriedRecords | internal/ai/ai.go:92-106 | For any judge, every surviving reply among those tried is recorded after its first move, behind the trace the replies started from. |
| Search.RepliesTriedSkips | internal/ai/ai.go:92-98 | For any judge, when no tried reply survives, trying the replies records nothing. |
| Search.RepliesTriedSurvivors | internal/ai/ai.go:95-106 | For any judge, trying replies appends only pairs that survive. |
| Search.MovesTriedRecords | internal/ai/ai.go:79-108 | For any judge, every surviving pair whose first move is among those tried is recorded by the reference search. |
| Search.MovesTriedSurvivors | internal/ai/ai.go:79-108 | For any judge, every pair the reference search records survives. |
| Search.BestValuePrefix | internal/ai/ai.go:100-106 | The best value of a trace is at least that of any of its prefixes, so recording more never lowers it. |
| Search.SearchTraceSurvives | internal/ai/ai.go:87-98 | Every pair in the search's trace leaves the game running after both drops. |
| Search.SearchTraceComplete | internal/ai/ai.go:79-106 | Every pair of placements that leaves the game running is recorded in the search's trace. |
| Search.EmptySearchNoneEligible | internal/ai/ai.go:79-114 | When the search's trace is empty, no first move is eligible. |
| Search.EligibleRecords | internal/ai/ai.go:87-106 | Trying the replies to an eligible first move records at least one pair. |
| Search.IneligibleRecordsNothing | internal/ai/ai.go:87-98 | Trying the replies to a first move that is not eligible leaves the trace unchanged. |
| Search.FirstMoveJudges | internal/ai/ai.go:87-100 | On the board that a live first move left, the search's judge decides every reply as the source's inner loop does. It values every reply with `Evaluate` over the model's `Drop`, which uses the corrected refresh. |
| Search.RecordSurvivor | internal/ai/ai.go:100-106 | The evaluation recorded for the pair is `Evaluate` of the board the pair left, at depth one, with the best value so far as alpha and MaxUtility as beta. It is appended to the trace. The new best value is the larger of the old one and the recorded value, and the tie list is updated to match. |
| Search.TryReply | internal/ai/ai.go:95-106 | The new trace is the reference `Tried` of the pair: the reply is appended with its evaluation exactly when the judge says the pair survives. A reply whose drop ends the game leaves the trace, the best value and the tie list unchanged. The best value never decreases. |
| Search.TryReplies | internal/ai/ai.go:92-108 | The loop over the replies leaves exactly the reference trace `RepliesTried`: every placement of the next piece is tried in loop order, and each surviving reply is recorded with the value it is given under the best value so far. The best value and tie list match the trace, and the best value never decreases. |
| Search.FirstMoveEndsGame | internal/ai/ai.go:87-90 | A first move whose own drop ends the game is not eligible. |
| Search.TryMove | internal/ai/ai.go:82-108 | The body of the outer loop appends exactly the reference `RepliesTried` of its first move. The best value never decreases. The trace grows exactly when the move is eligible, that is, when its own drop and some reply's drop both leave the game running. |
| Search.SearchMoves | internal/ai/ai.go:74-110 | Both loops together leave exactly the reference `SearchTrace`: all surviving pairs in loop order, each with its value. Every recorded pair survives. The best value is the largest recorded, and the tie list holds the first moves that reached it. Every best move is a fitting placement, and the best value lies in [MinUtility, MaxUtility] once there is one. When the tie list is empty, no first move is eligible. |
| Search.ChooseMove | internal/ai/ai.go:74-116 | The search's trace is the reference `SearchTrace`, and its best value and tie list match it. The search fails exactly when the tie list is empty, and then no first move is eligible. Otherwise the chosen move is the one `pick` selects. It is a fitting placement that was evaluated with the best value, and its own drop keeps the game running. |
| Search.OutcomeIsEligible | internal/ai/ai.go:88-114 | The search succeeds exactly when some first move is eligible, and the move it chooses is eligible. |
| Search.ChosenIsBest | internal/ai/ai.go:100-116 | The chosen move is a best one. The search succeeds as soon as some pair survives. Every surviving pair was recorded with a value at most the best value, which the chosen first move reached. |
| Search.ChosenKeepsGame | internal/ai/ai.go:112-118 | The chosen move's own drop keeps the game running, so the error branch after it cannot be taken. |
| Search.DropSetNext | internal/ai/ai.go:55-124 | The search is the one `ChooseMove` states. When no move is eligible, nothing changes. Otherwise the chosen move is dropped on the live board, the board gains exactly one piece, and the argument becomes the pending piece. |

## Left out

- The GUI (internal/gui), the terminal front end (internal/cli) and main.go: rendering, input, sleeping loops and flag parsing, with no decision logic.
- The random tie-break at internal/ai/ai.go:116: the index is the parameter `pick`, and the move is `bestMoves[pick % |bestMoves|]`.
- `float64` arithmetic: scores are `real`, so rounding and the float equality of the tie test are not modelled.
- The `width` and `height` fields and their accessors: the source only ever builds 10x20 boards, so they are the constants `Width` and `Height`. The other trivial accessors (`GameOver`, `ClearedLines`, `DroppedTetrominoes`, `ColumnHeights`, `ColumnHoles`) are datatype fields.
- The aliasing of the slices that `ColumnHeights` and `ColumnHoles` return: boards are values here.
- The `matrices` field of the search: it is the same table as `Catalog.MatrixOf`.
- Boards.Drop: requires a column of at least 0. The source has no check for a negative column, but every piece has an occupied cell in its left column, so it would index outside the grid and panic.
- Boards.Drop: uses the corrected `Refresh` rather than the refresh as written. See the finding below.
- Search.Utility: requires that the score lies in range. The source panics otherwise.
- Search.Evaluate: requires a consistent board whose cleared-line count leaves room for `depth` more drops within `LineBudget`, which is 131000 lines. This keeps `utility` from panicking on any board the search reaches.
- Search.SearchJudge: values a pair with `Evaluate` of the board that the model's `Drop` leaves. That `Drop` uses the corrected `Refresh`, so its column statistics are always fresh. The source's refresh keeps stale heights and accumulates holes (see the finding below), and `utility` reads those statistics. So the values, the best value and the tie list equal the source's only while its stored statistics are fresh. Survival is unaffected.
- Search.FirstMoveJudges: values replies over the corrected `Drop`, for the same reason as `SearchJudge`.
- Search.SetNext: requires a placeable kind. This follows the reading of `Valid()` above; under the 0..7 `IsValid` the source would accept `Empty` here and panic only at the next drop.
- Search.DropSetNext: requires a live board with consistent statistics and room for three more drops within `LineBudget`, where the source demands only a live board. Beyond the budget the source's `utility` may panic.
- Search.DropSetNext: does not model the error branch after the chosen move is dropped (internal/ai/ai.go:117-118). `ChooseMove` proves that this drop never ends the game, so the branch is unreachable.
- The evaluation is modelled as its loops are written, including alpha carried across kinds and the strict `alpha > beta` cut-off. It is not proved equal to plain minimax.

## Findings

| source | as written | input that shows it | evidently intended | confidence | as-written member | corrected member |
|---|---|---|---|---|---|---|
| internal/tetris/board.go:188-203 | The refresh scans each column starting from the stored height and hole count. It never resets the holes to 0 and never sets the height of an emptied column to 0. | Clearing the bottom two rows in internal/tetris/board_test.go:138-161 leaves an empty grid with stored heights of 2. Re-scanning a column whose one hole is already counted stores 2 holes. | Recompute each refreshed column's height and holes from the grid, starting from zero, as board_test.go:159-160 expects. | not executed | Boards.RefreshAsWritten, Boards.StaleStatsCounterexample | Boards.Refresh, Boards.FreshScanIsExact |

# 2048 slide-and-merge engine in Dafny

A model of the engine of the orochaa/2048 game, with proofs about it. The engine covers:

- `sum`, which merges one line;
- `move`, which slides a whole board along rows or columns, towards the start or the end;
- `score`;
- `addRandomCell`;
- the `updateTable` and `startGame` logic of `generateActions`;
- the grid utilities `generateCell`/`Row`/`Table`, `copyCell`, `compareCells`/`Rows`/`Tables` and the random helpers.

Around it, the model states the app's loss rule and win rule, gives the app's initial state, and covers its size selection.

The source's loops are kept as methods, each proved against a function:

- `Actions.Sum` is a `while` loop with the index cursor that skips a merged partner.
- `Actions.Move` has a `for` loop per line. It uses `Actions.PadLine` to pad and `Actions.WriteLine` to write and stamp positions.

Values are handled as follows:

- `Math.random` is modelled by nondeterministic choice (`:|`) within the range the code can produce.
- The ids `nanoid` returns are parameters:
  - `pad[i][j]` is the id of the `j`-th zero cell `move` makes for line `i`;
  - `ids[r][c]` is the id of cell `(r, c)` of a fresh table;
  - `startId` is the id of the `startGame` cell.
- The game state the React setters hold becomes the fields of a class, `GameActions.Game`.
- The state change of `updateTable` is computed as a value (`GameActions.ApplyMove`), over the `Snapshot` datatype. `Game.UpdateTable` stores that value in the fields.

Modules:

| file | module | content |
|---|---|---|
| types.dfy | GameTypes | `Cell`, `Row`, `Table`, `Mode`, `Direction`, tile-value predicates |
| utils.dfy | Utils | src/utils.ts |
| actions.dfy | Actions | `sum`, `move`, `score`, `addRandomCell` of src/actions.ts |
| merge_facts.dfy | MergeFacts | properties of one line under `sum` and the per-line work of `move` |
| move_facts.dfy | MoveFacts | properties of a whole `move` |
| placement.dfy | Placement | properties of `addRandomCell` and of single-cell updates of the score |
| game.dfy | GameActions | `generateActions` (`updateTable`, `startGame`, the four moves), the app's initial state and size selection |
| rules.dfy | Rules | the loss and win rules of src/app.tsx, and a characterisation of lost boards |
| examples.dfy | Examples | line cases and a whole-table column case of src/actions.spec.ts |

Notes on what the code does:

- Two cells merge when their values are equal (`compareCells`). There is no separate "both non-empty" test, because empty cells are filtered out first.
- On a table without negative values (every table the game builds), `move` keeps the score exactly; it does not only not lower it. A negative cell is dropped by the `value > 0` filter and replaced by a 0, so on such a table the score can change.
- `move` does not check that the table is square. The model requires a square table instead of returning an `InvalidDimension` error.
- `addRandomCell` fails (`EmptyGridFull`) only on a table that has cells and none of them empty. A table with no cell at all (`[]` or `[[]]`) never runs the callback and comes back as it was. So `handleSelectSize(0)` succeeds, with the table `[]` and size 0. `startGame` at size 0 fails (`InvalidDimension`), because it writes into row 0 of the empty table.

## Model

| member | source | states |
|---|---|---|
| Utils.GetRandomValueBetween | src/utils.ts:3-5 | for `min <= max` the result is an integer of `[min, max]`; for `max < min` it lies in `(max, min]` |
| Utils.GetRandomValue | src/utils.ts:7-9 | `undefined` (None) exactly for the empty list, otherwise an element of the list |
| Utils.GenerateValue | src/utils.ts:11-13 | a new tile value is 2 or 4 |
| Utils.GenerateCell | src/utils.ts:15-20 | the given id and value, position 0/0 unless `params` overrides it |
| Utils.GenerateRow | src/utils.ts:22-34 | `size` cells, cell `c` with value 0, `posX = c`, `posY = rowIndex` and its own id, with `params` applied |
| Utils.GenerateTable | src/utils.ts:36-40 | a size-by-size table whose cell `(r, c)` has value 0, `posY = r`, `posX = c` and id `ids[r][c]` |
| Utils.CopyCell | src/utils.ts:42-44 | the id and every field not named are kept, each named field takes the given value |
| Utils.CompareCells | src/utils.ts:46-48 | two cells match when their values are equal; properties in `Utils.CompareCellsEquivalence` |
| Utils.CompareCellsEquivalence | src/utils.ts:42-48 | matching cells is reflexive, symmetric and transitive, and a copy that leaves the value alone matches the original and whatever the original matches |
| Utils.CompareRows | src/utils.ts:50-56 | rows of different lengths never match, otherwise cell by cell; properties in `Utils.CompareRowsIffValues` |
| Utils.CompareTables | src/utils.ts:58-64 | tables of different row counts never match, otherwise row by row; properties in `Utils.CompareTablesIffValues`, `Utils.CompareTablesEquivalence` |
| Utils.CompareRowsIffValues | src/utils.ts:50-56 | rows compare equal iff their value sequences are equal (so rows of different lengths never do) |
| Utils.CompareTablesIffValues | src/utils.ts:58-64 | tables compare equal iff they have the same row count and row by row the same values |
| Utils.CompareTablesEquivalence | src/utils.ts:58-64 | `compareTables` is reflexive, symmetric and transitive |
| Utils.GenerateTableIdsIrrelevant | src/utils.ts:36-40 | two fresh tables of the same size compare equal whatever ids they got |
| Actions.Nonzero | src/actions.ts:68 | the filter keeps only cells of positive value and never lengthens the line |
| Actions.Summed | src/actions.ts:26-58 | the summed line is never longer than the line; the method `Actions.Sum` is proved to compute it |
| Actions.Merge | src/actions.ts:31-55 | the merge pass shortens the line by at most half |
| Actions.Sum | src/actions.ts:26-58 | the loop with its skipping cursor (and the reversal for 'end') returns `Summed(row, direction)` |
| Actions.PadLine | src/actions.ts:70-76 | the padding loop pushes ('start') or unshifts ('end') `missingLength` zero cells: the line `Padded` describes |
| Actions.WriteLine | src/actions.ts:78-88 | the write loop puts cell `j` of the new line at `[i][j]` ('row') or `[j][i]` ('col'), stamped with that position, and leaves every other slot alone |
| Actions.Moved | src/actions.ts:60-92 | the moved table is an N-by-N table for an N-by-N input; its lines are described by `MoveFacts.MovedLineValues` |
| Actions.Move | src/actions.ts:60-92 | `move` returns `Moved(table, mode, direction, pad)`, an N-by-N table whose cell `[r][c]` has `posY = r`, `posX = c` |
| Actions.Score | src/actions.ts:94-100 | the sum of the values of all cells, never negative for a table without negative values |
| Actions.EmptyCells | src/actions.ts:14 | the empty cells list holds exactly the cells of value 0 in the table |
| Actions.EmptyCellsIff | src/actions.ts:14-15 | the list of empty cells is non-empty iff some position of the table holds a 0 |
| Actions.PlaceOn | src/actions.ts:18-22 | the cell with the chosen id becomes a copy with the new value; any other cell stays as it is |
| Actions.PlaceTileCells | src/actions.ts:17-23 | the table keeps its shape; every cell with the chosen id gets the new value, every other cell is unchanged |
| Actions.AddRandomCell | src/actions.ts:13-24 | fails (`EmptyGridFull`) exactly when the table has cells and none is empty; a table with no cell comes back as it was; otherwise a 2 or a 4 is placed on the id of an empty cell |
| MergeFacts.NonzeroTotal | src/actions.ts:68 | on a non-negative line, dropping the empty cells keeps the total |
| MergeFacts.NonzeroKeepsAll | src/actions.ts:68 | a filter that drops nothing returns the line unchanged |
| MergeFacts.NonzeroReverse | src/actions.ts:68 | dropping empty cells commutes with reversing |
| MergeFacts.MergeTotal | src/actions.ts:42-48 | a merge replaces v and v by 2v: the pass keeps the line's total |
| MergeFacts.MergeCount | src/actions.ts:42-54 | the line gets shorter by exactly the number of cells flagged `isMerge` |
| MergeFacts.MergePositive | src/actions.ts:42-54 | positive cells stay positive |
| MergeFacts.MergeNothing | src/actions.ts:42-54 | with no two equal neighbours every cell is kept as it is |
| MergeFacts.MergeKeepsLengthIff | src/actions.ts:42-54 | the pass keeps the length iff no two neighbours are equal |
| MergeFacts.MergeTiles | src/actions.ts:42-48 | merging tiles (0 or powers of two) gives tiles |
| MergeFacts.MergeIsGreedyPairing | src/actions.ts:31-55 | the output cuts the input into consecutive pieces of one or two cells: a kept cell, or two equal neighbours merged. A cell is kept alone only when it cannot merge with its right neighbour, so every input cell takes part in at most one merge |
| MergeFacts.GreedyPairingIsMerge | src/actions.ts:31-55 | any such greedy pairing equals the merge pass: a merged cell is never merged again, and no mergeable pair is left behind |
| MergeFacts.SlideLineTiles | src/actions.ts:67-76 | a slid line of tiles is a line of tiles |
| MergeFacts.PaddingValues | src/actions.ts:72-76 | the padding cells are zeros |
| MergeFacts.PaddedValues | src/actions.ts:70-76 | a padded line holds the merged values followed ('start') or preceded ('end') by zeros |
| MergeFacts.SlideLineValues | src/actions.ts:67-76 | a slid line holds the summed non-empty values, then zeros for 'start', or zeros, then the summed values for 'end', up to the line's length |
| MergeFacts.PaddedMirror | src/actions.ts:72-76 | unshifting padding before a reversed line is pushing it after the line, reversed |
| MergeFacts.SlideLineEndMirrorsStart | src/actions.ts:26-76 | sliding to 'end' is sliding the reversed line to 'start' and reversing back, ids included, so pairing starts at the target edge |
| MergeFacts.PaddedTotal | src/actions.ts:70-76 | padding adds nothing to a total that is 0 on zero cells |
| MergeFacts.SlideLineTotal | src/actions.ts:67-76 | on a non-negative line the slide keeps the total |
| MergeFacts.SummedOccupied | src/actions.ts:26-58 | a `sum` over tiles leaves as many tiles as it was given less the merges |
| MergeFacts.SlideLineOccupied | src/actions.ts:67-76 | the tiles of a slid line are the tiles of the line less the merges |
| MergeFacts.SlidePadded | src/actions.ts:70-76 | when padding is added, the cell at the far end from the target edge is empty |
| MergeFacts.SlideUnpadded | src/actions.ts:67-76 | a slide that adds no padding leaves the values as they were |
| MergeFacts.SlideLineFull | src/actions.ts:67-76 | a slid line with no empty cell has the values of the line before |
| MoveFacts.TotalColumns | src/actions.ts:94-100 | a table adds up to the same total column by column as row by row |
| MoveFacts.TotalLines | src/actions.ts:94-100 | the lines of either mode add up to the table's total |
| MoveFacts.MovedLine | src/actions.ts:78-88 | cell `k` of line `i` of the moved table is cell `k` of the new line `i`, stamped with its position |
| MoveFacts.TotalMoved | src/actions.ts:78-88 | the moved table totals what its new lines total, for any count that ignores positions |
| MoveFacts.MovedLineValues | src/actions.ts:60-92 | each output line holds `sum` of the input line's non-empty cells, then zeros ('start'), or zeros, then those cells ('end') |
| MoveFacts.MoveKeepsScore | src/actions.ts:60-100 | `score(move(t, m, d)) == score(t)` for a table without negative values |
| MoveFacts.MoveTileCount | src/actions.ts:60-92 | the number of tiles drops by exactly the number of cells flagged as merge products |
| MoveFacts.MoveKeepsTiles | src/actions.ts:60-92 | a move turns a table of tiles into a table of tiles |
| MoveFacts.FullMovedLine | src/actions.ts:60-92 | without an empty cell in the result, each new line has the values of the old one |
| MoveFacts.FullMoveChangesNothing | src/actions.ts:60-92 | a move after which no cell is empty compares equal to the input |
| MoveFacts.ChangedMoveLeavesEmptyCell | src/actions.ts:126-132 | a move that changes the board leaves an empty cell, so the tile `updateTable` adds always finds a place |
| Placement.TotalUpdate | src/actions.ts:94-100 | replacing one cell changes the total by the difference of the two cells |
| Placement.ScoreAtLeastCell | src/actions.ts:94-100 | a table without negative values scores at least the value of any one cell |
| Placement.PlaceTileKeepsTiles | src/actions.ts:13-24 | placing a 2 or a 4 keeps a table of tiles a table of tiles |
| Placement.PlaceTileAt | src/actions.ts:17-23 | with unique ids, placing on the id of cell `(r, k)` changes that cell's value and nothing else |
| Placement.AddedTileIsOne | src/actions.ts:13-24 | with unique ids, after `addRandomCell` exactly one previously empty cell holds a 2 or 4, every other cell is unchanged, and the score grows by that value |
| GameActions.ModeOf | src/actions.ts:162-173 | up and down move along columns, left and right along rows |
| GameActions.DirectionOf | src/actions.ts:162-173 | up and left press towards the start, down and right towards the end |
| GameActions.ActionsAreTheMoves | src/actions.ts:162-173 | every (mode, direction) pair is run by exactly one action |
| GameActions.BestScoreAfter | src/actions.ts:136-144 | the best score becomes the maximum of the old best and the new score |
| GameActions.StartTableHasOneTile | src/actions.ts:150-157 | the start table is a square table of tiles with exactly one tile, at the chosen position, and scores that tile's value |
| GameActions.TileAddedValid | src/actions.ts:132 | a tile added to a square table of tiles leaves a square table of tiles of the same size |
| GameActions.GeneratedTableEmpty | src/utils.ts:36-40 | a fresh table holds only zeros, and it has an empty cell iff its size is positive |
| GameActions.NextTable | src/actions.ts:126-132 | the move changed something iff `compareTables` says so; if not the table is returned as it was, otherwise the moved table with one new tile |
| GameActions.ApplyMove | src/actions.ts:121-147 | the whole state change: nothing at all for a move that changes no value; otherwise the new table with its tile, score = its score, best score raised when beaten, move counter + 1; the state stays valid |
| GameActions.Game.constructor | src/app.tsx:13-21 | the state the app mounts with: `addRandomCell(generateTable(4))`, size 4, score, best score and move counter 0 |
| GameActions.Game.UpdateTable | src/actions.ts:121-147 | the fields take the state `ApplyMove` describes; size unchanged, valid state kept |
| GameActions.Game.MoveUp | src/actions.ts:162-164 | `updateTable` with 'col'/'start' |
| GameActions.Game.MoveDown | src/actions.ts:165-167 | `updateTable` with 'col'/'end' |
| GameActions.Game.MoveLeft | src/actions.ts:168-170 | `updateTable` with 'row'/'start' |
| GameActions.Game.MoveRight | src/actions.ts:171-173 | `updateTable` with 'row'/'end' |
| GameActions.Game.StartGame | src/actions.ts:150-161 | a fresh table with one 2 or 4 at some position, score and move counter 0, best score kept; fails for size 0 without touching the state |
| GameActions.Game.SelectSize | src/app.tsx:60-63 | never fails: a fresh table of the chosen size with one new tile, and that size kept for `startGame`; size 0 gives the table `[]` and size 0 |
| Rules.IsLost | src/app.tsx:147-156 | every one of the four trial moves gives a table that compares equal to the table; characterised by `Rules.LostIff` |
| Rules.IsWin | src/app.tsx:168 | some cell holds 2048 |
| Rules.MoveValuesIgnoreIds | src/actions.ts:72-76 | the ids of the padding cells never affect a value: two runs of a move compare equal |
| Rules.IsLostIgnoresIds | src/app.tsx:147-156 | whether a table is lost does not depend on the ids the trial moves draw |
| Rules.IsLostIffNoActionChanges | src/app.tsx:147-156 | lost iff none of the four player actions changes the table |
| Rules.LostGameIsStuck | src/app.tsx:147-156 | on a lost table `updateTable` leaves the whole state as it was, whatever move is played |
| Rules.WinScore | src/app.tsx:168 | a board without negative values that shows 2048 scores at least 2048 |
| Rules.MoveUnchangedIffLines | src/utils.ts:58-64 | a move compares equal to its input iff it changes the values of no line |
| Rules.GapAndTileSlide | src/actions.ts:67-76 | a line without negative values that has an empty cell and a tile changes when slid towards the empty cell's side: to 'start' when the empty cell comes before the tile, to 'end' otherwise |
| Rules.FullLineSettledIff | src/actions.ts:67-76 | a line full of tiles keeps its values under a slide iff no two neighbours are equal |
| Rules.PackedStartSplit | src/actions.ts:67-76 | a line without negative values whose tiles are packed against 'start' is its tiles followed by empty cells |
| Rules.LineSettledStart | src/actions.ts:67-76 | for a line without negative values, sliding to 'start' keeps its values iff its tiles are packed against 'start' and no two neighbouring tiles are equal |
| Rules.LineSettledIff | src/actions.ts:26-76 | for a line without negative values and either direction, a slide keeps the line's values iff its tiles are packed against the target edge and no two neighbouring tiles are equal |
| Rules.MoveSettledIff | src/actions.ts:60-92 | on a table without negative values, a move compares equal to its input iff every line of its mode is packed against the target edge with no two equal neighbouring tiles |
| Rules.GapAndTileNotLost | src/app.tsx:147-156 | a table without negative values that has an empty cell and a tile is not lost |
| Rules.EmptyTableIsLost | src/app.tsx:147-156 | a table without tiles is lost |
| Rules.FullMoveUnchangedIff | src/app.tsx:150-156 | on a full table without negative values, a move changes nothing iff no line of its mode has equal neighbours |
| Rules.FullTableLostIff | src/app.tsx:147-156 | a full table without negative values is lost iff no row and no column has two equal neighbours |
| Rules.LostIff | src/app.tsx:147-156 | a table without negative values is lost iff it is empty, or full with no two equal neighbours in any row or column |
| Examples.LoneTileToStart | src/actions.spec.ts:51-66 | `[0,0,2,0]` slid to 'start' gives `[2,0,0,0]` |
| Examples.LoneTileToEnd | src/actions.spec.ts:67-82 | `[0,2,0,0]` slid to 'end' gives `[0,0,0,2]` |
| Examples.SumAcrossGap | src/actions.spec.ts:103-118 | `[2,0,0,2]` slid to 'start' gives `[4,0,0,0]` |
| Examples.ThreeEqualToStart | src/actions.spec.ts:254-269 | `[2,2,2,0]` slid to 'start' gives `[4,2,0,0]` |
| Examples.FourEqualToStart | src/actions.spec.ts:254-269 | `[2,2,2,2]` slid to 'start' gives `[4,4,0,0]`: a merged cell is not merged again |
| Examples.ThreeEqualToEnd | src/actions.spec.ts:286-301 | `[0,2,2,2]` slid to 'end' gives `[0,0,2,4]`: pairing starts at the target edge |
| Examples.GapThenPairToEnd | src/actions.spec.ts:286-301 | `[2,2,0,2]` slid to 'end' gives `[0,0,2,4]` |
| Examples.TileAtStartStays | src/actions.spec.ts:166-181 | `[2,0,0,0]` slid to 'start' stays `[2,0,0,0]` |
| Examples.PairToStart | src/actions.spec.ts:166-181 | `[2,2,0,0]` slid to 'start' gives `[4,0,0,0]` |
| Examples.SplitPairToStart | src/actions.spec.ts:166-181 | `[2,0,2,0]` slid to 'start' gives `[4,0,0,0]` |
| Examples.MovedColumn | src/actions.ts:78-88 | on a 'col' move, column `i` of the moved table holds the values of new line `i` from top to bottom |
| Examples.ColumnsToStart | src/actions.spec.ts:166-181 | 'col'/'start' on `[[2,2,2,2],[0,2,0,0],[0,0,2,0],[0,0,0,2]]` gives `[[2,4,4,4],[0,0,0,0],[0,0,0,0],[0,0,0,0]]` |

## Left out

- The React layer: rendering, animation, modals, the keyboard and touch handlers, window sizing, and the `isInfinity` flag that silences the win modal. None of it holds game logic. The win rule is `Rules.IsWin`; when the app shows it is not modelled.
- The React `Dispatch` setters. The new state is a value (`GameActions.ApplyMove`) stored in the fields of `GameActions.Game`. The setters' callbacks and their scheduling are not modelled.
- Best-score persistence through `localStorage`, both the write in `updateTable` and the read when the app mounts. This is I/O.
- The 0.1 probability of a 4 and the uniform choice of the empty cell. `Math.random` is floating point; the model keeps only the possible outcomes.
- JavaScript `number` is modelled as the unbounded `int`. Tile values and scores stay far below 2^53, where `number` stops being exact, so nothing the game reaches depends on the difference.
- `nanoid`: ids are parameters and are assumed unique where a lemma needs it (`UniqueIds`). That ids stay unique after a move or `startGame` is not proved: it holds only when `nanoid` never repeats an id, which the parameters do not promise.
- Mutation and aliasing: every table is a value, so `move` never changing its input holds by construction. So does `newTable[j][i].posY = j` acting on the cell just stored there.
- Actions.Move: requires a square table. The source never checks this. For a table of N rows that is not square:
  - in 'col' mode, a row shorter than N gives `undefined`, and reading `cell.value` in the filter throws a `TypeError`;
  - in 'col' mode, the columns past N are silently dropped;
  - in 'row' mode, a row longer than N can yield a line longer than N, which is written past the N-by-N table.
- Actions.AddRandomCell: places one drawn value `v` on every cell carrying the picked id. The source calls `generateValue` once per such cell, so with duplicate ids the values could differ; with unique ids (`Placement.AddedTileIsOne`) there is one such cell.
- The conflicting `Cell` declaration of src/@types/utils.d.ts is not part of this model. The data model is src/@types/game.d.ts.
- Repeating a move is not a no-op, and no lemma claims it: `[2,2,2,2]` becomes `[4,4,0,0]`, then `[8,0,0,0]`. On a line without negative values, a move leaves the line as it is exactly when its tiles are packed against the target edge and no two neighbouring tiles are equal (`Rules.LineSettledIff`, `Rules.MoveSettledIff`).
- `startGame` and the initial state set the score to 0 although the table holds one tile. The score is recomputed from the table only at the next changing move. The model keeps this as it is.
- Rules.IsLost: the app's check calls `move` four times, each with fresh ids. The predicate takes one set of padding ids for all four; `Rules.IsLostIgnoresIds` shows the ids do not matter.

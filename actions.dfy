/** The slide-and-merge engine (src/actions.ts): `sum` merges one line, `move` slides a
    whole table, `score` adds up its values and `addRandomCell` drops a new tile on an empty
    cell. Each loop of the source is a method proved against the function beside it; the
    properties of those functions are proved in MergeFacts and MoveFacts. */
module Actions {
  import opened GameTypes
  import opened Utils

  // ---------------------------------------------------------------- sequences

  /** `[...s].reverse()`. */
  function Reverse<T>(s: seq<T>): (r: seq<T>)
    ensures |r| == |s|
  {
    seq(|s|, k requires 0 <= k < |s| => s[|s| - 1 - k])
  }

  /** `row.filter(cell => cell.value > 0)`. */
  function Nonzero(row: Row): (r: Row)
    ensures |r| <= |row|
    ensures forall k :: 0 <= k < |r| ==> r[k].value > 0
  {
    if row == [] then []
    else if row[0].value > 0 then [row[0]] + Nonzero(row[1..])
    else Nonzero(row[1..])
  }

  // ---------------------------------------------------------------- sum

  /** A cell `sum` keeps as it is: `copyCell(currentCell, { isMerge: false })`. */
  function Kept(current: Cell): Cell {
    CopyCell(current, CellParams(None, None, None, Some(false)))
  }

  /** The cell a merge of `current` with `next` yields:
      `copyCell(nextCell, { value: currentCell.value * 2, isMerge: true })`. */
  function Merged(current: Cell, next: Cell): Cell {
    CopyCell(next, CellParams(Some(current.value * 2), None, None, Some(true)))
  }

  /** The merge pass of `sum` on an already oriented line, as a recursion: the first two
      cells merge when their values are equal and the pass goes on after both; otherwise
      the first cell is kept and the pass goes on from the second. At most every second
      cell disappears. */
  function Merge(ws: Row): (r: Row)
    ensures |r| <= |ws|
    ensures |ws| <= 2 * |r|
    decreases |ws|
  {
    if |ws| == 0 then []
    else if |ws| == 1 then [Kept(ws[0])]
    else if CompareCells(ws[0], ws[1]) then [Merged(ws[0], ws[1])] + Merge(ws[2..])
    else [Kept(ws[0])] + Merge(ws[1..])
  }

  /** What `sum(row, direction)` returns: the merge pass over the line, run on the
      reversed line and reversed back for 'end', so that pairing starts at the target edge. */
  function Summed(row: Row, direction: Direction): (r: Row)
    ensures |r| <= |row|
  {
    if direction == End then Reverse(Merge(Reverse(row))) else Merge(row)
  }

  /** The three steps of the merge pass at cursor `i`, as `sum`'s loop body takes them:
      `done` is what has been pushed so far. */
  lemma SumStepLast(done: Row, w: Row, i: nat)
    requires i + 1 == |w| && done + Merge(w[i..]) == Merge(w)
    ensures done + [Kept(w[i])] == Merge(w)
  {
  }

  lemma SumStepMerged(done: Row, w: Row, i: nat)
    requires i + 1 < |w| && CompareCells(w[i], w[i + 1]) && done + Merge(w[i..]) == Merge(w)
    ensures (done + [Merged(w[i], w[i + 1])]) + Merge(w[i + 2..]) == Merge(w)
  {
    assert w[i..][2..] == w[i + 2..];
    assert Merge(w[i..]) == [Merged(w[i], w[i + 1])] + Merge(w[i + 2..]);
  }

  lemma SumStepKept(done: Row, w: Row, i: nat)
    requires i + 1 < |w| && !CompareCells(w[i], w[i + 1]) && done + Merge(w[i..]) == Merge(w)
    ensures (done + [Kept(w[i])]) + Merge(w[i + 1..]) == Merge(w)
  {
    assert w[i..][1..] == w[i + 1..];
    assert Merge(w[i..]) == [Kept(w[i])] + Merge(w[i + 1..]);
  }

  /** `sum`: one pass with an index cursor over the oriented line, pushing into `newRow`;
      after a merge the cursor skips the partner cell. */
  method Sum(row: Row, direction: Direction) returns (newRow: Row)
    ensures newRow == Summed(row, direction)
  {
    newRow := [];
    var isReversed := direction == End;
    var workingRow := if isReversed then Reverse(row) else row;
    var i := 0;
    while i < |workingRow|
      invariant 0 <= i <= |workingRow|
      invariant newRow + Merge(workingRow[i..]) == Merge(workingRow)
      decreases |workingRow| - i
    {
      var currentCell := workingRow[i];
      var isLastCell := i + 1 == |workingRow|;
      if isLastCell {
        SumStepLast(newRow, workingRow, i);
        newRow := newRow + [Kept(currentCell)];
        break;
      }
      var nextCell := workingRow[i + 1];
      if CompareCells(currentCell, nextCell) {
        SumStepMerged(newRow, workingRow, i);
        newRow := newRow + [Merged(currentCell, nextCell)];
        i := i + 2;  // the `i++` in the body and the loop's own increment
        continue;
      }
      SumStepKept(newRow, workingRow, i);
      newRow := newRow + [Kept(currentCell)];
      i := i + 1;
    }
    assert newRow == Merge(workingRow) by {
      if i == |workingRow| {
        assert workingRow[i..] == [];
      }
    }
    if isReversed {
      newRow := Reverse(newRow);
    }
  }

  // ---------------------------------------------------------------- move

  /** Enough ids for the padding cells `move` generates: `pad[i][j]` is the id nanoid gives
      the `j`-th padding cell of line `i`. */
  predicate PadFits(pad: seq<seq<Id>>, n: nat) {
    |pad| == n && forall i :: 0 <= i < n ==> |pad[i]| >= n
  }

  /** Line `i` of the table: row `i` in 'row' mode, `table.map(row => row[i])` in 'col' mode. */
  function LineOf(t: Table, mode: Mode, i: nat): (line: Row)
    requires IsSquare(t) && i < |t|
    ensures |line| == |t|
  {
    if mode == ByRow then t[i] else seq(|t|, r requires 0 <= r < |t| => t[r][i])
  }

  /** The `k` padding cells `generateCell(0)`, in the order they are generated. */
  function Padding(ids: seq<Id>, k: nat): (p: Row)
    requires k <= |ids|
    ensures |p| == k
  {
    seq(k, j requires 0 <= j < k => GenerateCell(ids[j], 0, NoParams))
  }

  /** The merged line brought back to length `n`: padding pushed at the end for 'start',
      unshifted at the front (so in reverse order of generation) for 'end'. */
  function Padded(merged: Row, n: nat, direction: Direction, ids: seq<Id>): (r: Row)
    requires |merged| <= n && n - |merged| <= |ids|
    ensures |r| == n
  {
    var missing := Padding(ids, n - |merged|);
    if direction == End then Reverse(missing) + merged else merged + missing
  }

  /** What `move` makes of one line before writing it back: the empty cells dropped, the
      rest summed, and fresh zero cells (ids from `ids`) added back up to the line's length. */
  function SlideLine(line: Row, direction: Direction, ids: seq<Id>): (r: Row)
    requires |ids| >= |line|
    ensures |r| == |line|
  {
    Padded(Summed(Nonzero(line), direction), |line|, direction, ids)
  }

  /** The new line `i` that `move` builds before it writes it into the table. */
  function NewLine(t: Table, mode: Mode, direction: Direction, pad: seq<seq<Id>>, i: nat): (r: Row)
    requires IsSquare(t) && PadFits(pad, |t|) && i < |t|
    ensures |r| == |t|
  {
    SlideLine(LineOf(t, mode, i), direction, pad[i])
  }

  /** A cell written at row `r`, column `c`, with `posY` and `posX` assigned. */
  function Stamp(cell: Cell, r: int, c: int): Cell {
    cell.(posY := r, posX := c)
  }

  /** The cell `move` writes at row `r`, column `c`: cell `c` of new row `r` ('row' mode)
      or cell `r` of new column `c` ('col' mode), stamped with its position. */
  function MovedCell(t: Table, mode: Mode, direction: Direction, pad: seq<seq<Id>>, r: nat, c: nat): Cell
    requires IsSquare(t) && PadFits(pad, |t|) && r < |t| && c < |t|
  {
    if mode == ByRow then Stamp(NewLine(t, mode, direction, pad, r)[c], r, c)
    else Stamp(NewLine(t, mode, direction, pad, c)[r], r, c)
  }

  /** The table `move(table, mode, direction)` returns. */
  function Moved(t: Table, mode: Mode, direction: Direction, pad: seq<seq<Id>>): (out: Table)
    requires IsSquare(t) && PadFits(pad, |t|)
    ensures |out| == |t| && IsSquare(out)
  {
    var n := |t|;
    seq(n, r requires 0 <= r < n =>
      seq(n, c requires 0 <= c < n => MovedCell(t, mode, direction, pad, r, c)))
  }

  /** Placeholder for the slots of the freshly allocated table that are not written yet. */
  const Unwritten := Cell(0, 0, 0, 0, None)

  /** One more padding cell: pushed at the back, or unshifted at the front of the reversal. */
  lemma PaddingStep(ids: seq<Id>, j: nat)
    requires j < |ids|
    ensures Padding(ids, j + 1) == Padding(ids, j) + [GenerateCell(ids[j], 0, NoParams)]
    ensures Reverse(Padding(ids, j + 1)) == [GenerateCell(ids[j], 0, NoParams)] + Reverse(Padding(ids, j))
  {
    assert Padding(ids, j + 1) == Padding(ids, j) + [GenerateCell(ids[j], 0, NoParams)];
  }

  /** The padding loop of `move`: `missingLength` fresh zero cells, each pushed at the end
      ('start') or unshifted at the front ('end') of the summed line. */
  method PadLine(merged: Row, tableSize: nat, direction: Direction, ids: seq<Id>) returns (newRow: Row)
    requires |merged| <= tableSize && tableSize - |merged| <= |ids|
    ensures newRow == Padded(merged, tableSize, direction, ids)
  {
    newRow := merged;
    var missingLength := tableSize - |merged|;
    for j := 0 to missingLength
      invariant newRow == if direction == End then Reverse(Padding(ids, j)) + merged
                          else merged + Padding(ids, j)
    {
      var cell := GenerateCell(ids[j], 0, NoParams);
      PaddingStep(ids, j);
      if direction == End {
        newRow := [cell] + newRow;
      } else {
        newRow := newRow + [cell];
      }
    }
  }

  /** The write loop of `move`: cell `j` of the new line goes to `newTable[j][i]` ('col')
      or `newTable[i][j]` ('row'), with `posY`/`posX` set to where it lands; no other slot
      changes. */
  method WriteLine(newTable: Table, mode: Mode, i: nat, newRow: Row) returns (written: Table)
    requires IsSquare(newTable) && i < |newTable| && |newRow| == |newTable|
    ensures |written| == |newTable| && IsSquare(written)
    ensures forall r, c {:trigger written[r][c]} :: 0 <= r < |newTable| && 0 <= c < |newTable| ==>
      written[r][c] == if mode == ByRow && r == i then Stamp(newRow[c], r, c)
                       else if mode == ByCol && c == i then Stamp(newRow[r], r, c)
                       else newTable[r][c]
  {
    written := newTable;
    for j := 0 to |newRow|
      invariant |written| == |newTable| && IsSquare(written)
      invariant forall r, c {:trigger written[r][c]} :: 0 <= r < |newTable| && 0 <= c < |newTable| ==>
        written[r][c] == if mode == ByRow && r == i && c < j then Stamp(newRow[c], r, c)
                         else if mode == ByCol && c == i && r < j then Stamp(newRow[r], r, c)
                         else newTable[r][c]
    {
      if mode == ByCol {
        written := written[j := written[j][i := Stamp(newRow[j], j, i)]];
      } else {
        written := written[i := written[i][j := Stamp(newRow[j], i, j)]];
      }
    }
  }

  /** `move`: for each line, drop the empty cells, `sum` the rest, pad with fresh zero
      cells on the side away from the target edge, and write the cells into a new table,
      stamping `posY`/`posX`. The result is an n-by-n table whose every cell carries its own
      position. */
  method Move(table: Table, mode: Mode, direction: Direction, pad: seq<seq<Id>>) returns (newTable: Table)
    requires IsSquare(table) && PadFits(pad, |table|)
    ensures newTable == Moved(table, mode, direction, pad)
    ensures |newTable| == |table| && IsSquare(newTable)
    ensures forall r, c :: 0 <= r < |table| && 0 <= c < |table| ==>
      newTable[r][c].posY == r && newTable[r][c].posX == c
  {
    var tableSize := |table|;
    newTable := seq(tableSize, _ => seq(tableSize, _ => Unwritten));
    for i := 0 to tableSize
      invariant |newTable| == tableSize && IsSquare(newTable)
      invariant forall r, c {:trigger newTable[r][c]} :: (0 <= r < tableSize && 0 <= c < tableSize &&
        (if mode == ByRow then r else c) < i) ==> newTable[r][c] == MovedCell(table, mode, direction, pad, r, c)
    {
      var row := if mode == ByRow then table[i] else seq(tableSize, r requires 0 <= r < tableSize => table[r][i]);
      assert row == LineOf(table, mode, i);
      var filteredRow := Nonzero(row);
      var newRow := Sum(filteredRow, direction);
      newRow := PadLine(newRow, tableSize, direction, pad[i]);
      assert newRow == NewLine(table, mode, direction, pad, i);
      ghost var before := newTable;
      newTable := WriteLine(newTable, mode, i, newRow);
      forall r, c | 0 <= r < tableSize && 0 <= c < tableSize && (if mode == ByRow then r else c) <= i
        ensures newTable[r][c] == MovedCell(table, mode, direction, pad, r, c)
      {
        if (if mode == ByRow then r else c) < i {
          assert newTable[r][c] == before[r][c];
        }
      }
    }
    assert forall r :: 0 <= r < tableSize ==> newTable[r] == Moved(table, mode, direction, pad)[r];
    forall r, c | 0 <= r < tableSize && 0 <= c < tableSize
      ensures newTable[r][c].posY == r && newTable[r][c].posX == c
    {
      assert newTable[r][c] == MovedCell(table, mode, direction, pad, r, c);
    }
  }

  // ---------------------------------------------------------------- score

  /** The sum of `f` over a line. */
  function LineTotal(line: Row, f: Cell -> int): int {
    if line == [] then 0 else f(line[0]) + LineTotal(line[1..], f)
  }

  /** The sum of `f` over every cell of a table, row by row. */
  function Total(t: Table, f: Cell -> int): int {
    if t == [] then 0 else LineTotal(t[0], f) + Total(t[1..], f)
  }

  function CellValue(c: Cell): int {
    c.value
  }

  /** 1 for a cell flagged as the product of a merge, 0 otherwise. */
  function MergeFlag(c: Cell): int {
    if c.isMerge == Some(true) then 1 else 0
  }

  lemma {:induction false} LineScoreNonNegative(line: Row)
    requires forall k :: 0 <= k < |line| ==> line[k].value >= 0
    ensures LineTotal(line, CellValue) >= 0
  {
    if line != [] {
      LineScoreNonNegative(line[1..]);
    }
  }

  lemma {:induction false} TotalNonNegative(t: Table)
    ensures NonNegative(t) ==> Total(t, CellValue) >= 0
  {
    if t != [] && NonNegative(t) {
      LineScoreNonNegative(t[0]);
      TotalNonNegative(t[1..]);
    }
  }

  /** `score`: the nested `reduce` that adds up every cell's value. A table without
      negative values never scores below 0. */
  function Score(t: Table): (s: int)
    ensures NonNegative(t) ==> s >= 0
  {
    TotalNonNegative(t);
    Total(t, CellValue)
  }

  // ---------------------------------------------------------------- addRandomCell

  /** `table.flat()`. */
  function Flat(t: Table): (cells: Row)
    ensures forall c :: c in cells <==> exists r :: 0 <= r < |t| && c in t[r]
  {
    if t == [] then [] else t[0] + Flat(t[1..])
  }

  /** `row.filter(cell => cell.value === 0)`. */
  function Empties(row: Row): (r: Row)
    ensures forall c :: c in r <==> c in row && c.value == 0
  {
    if row == [] then []
    else if row[0].value == 0 then [row[0]] + Empties(row[1..])
    else Empties(row[1..])
  }

  /** `table.flat().filter(cell => cell.value === 0)`: the empty cells, row by row. */
  function EmptyCells(t: Table): (cells: Row)
    ensures forall c :: c in cells <==> c.value == 0 && exists r :: 0 <= r < |t| && c in t[r]
  {
    Empties(Flat(t))
  }

  /** The inner callback of `addRandomCell`'s map: the cell carrying id `id` becomes a copy
      with value `v`, any other cell stays the same cell. */
  function PlaceOn(cell: Cell, id: Id, v: int): (out: Cell)
    ensures out == if cell.id == id then cell.(value := v) else cell
  {
    if cell.id == id then CopyCell(cell, CellParams(Some(v), None, None, None)) else cell
  }

  /** `row.map(...)` with that callback. */
  function PlaceInRow(row: Row, id: Id, v: int): (out: Row)
    ensures |out| == |row|
  {
    if row == [] then [] else [PlaceOn(row[0], id, v)] + PlaceInRow(row[1..], id, v)
  }

  /** The table `addRandomCell` returns once it has picked the cell with id `id` and drawn
      the value `v`: `table.map(row => row.map(...))`. */
  function PlaceTile(t: Table, id: Id, v: int): (out: Table)
    ensures |out| == |t|
  {
    if t == [] then [] else [PlaceInRow(t[0], id, v)] + PlaceTile(t[1..], id, v)
  }

  lemma {:induction false} PlaceInRowCells(row: Row, id: Id, v: int)
    ensures forall c :: 0 <= c < |row| ==> PlaceInRow(row, id, v)[c] == PlaceOn(row[c], id, v)
  {
    if row != [] {
      PlaceInRowCells(row[1..], id, v);
    }
  }

  /** Cell by cell, every cell carrying id `id` becomes a copy with value `v` and every other
      cell is the same cell; the shape is kept. */
  lemma {:induction false} PlaceTileCells(t: Table, id: Id, v: int)
    ensures forall r :: 0 <= r < |t| ==> |PlaceTile(t, id, v)[r]| == |t[r]|
    ensures forall r, c :: 0 <= r < |t| && 0 <= c < |t[r]| ==>
      PlaceTile(t, id, v)[r][c] == (if t[r][c].id == id then t[r][c].(value := v) else t[r][c])
  {
    if t != [] {
      PlaceTileCells(t[1..], id, v);
      PlaceInRowCells(t[0], id, v);
      assert forall r :: 1 <= r < |t| ==> PlaceTile(t, id, v)[r] == PlaceTile(t[1..], id, v)[r - 1];
    }
  }

  /** Some position of the table holds an empty cell. */
  predicate HasEmptyCell(t: Table) {
    exists r, k :: 0 <= r < |t| && 0 <= k < |t[r]| && t[r][k].value == 0
  }

  /** The list of empty cells is non-empty exactly when some position holds an empty cell. */
  lemma EmptyCellsIff(t: Table)
    ensures EmptyCells(t) != [] <==> HasEmptyCell(t)
  {
    if HasEmptyCell(t) {
      var r, k :| 0 <= r < |t| && 0 <= k < |t[r]| && t[r][k].value == 0;
      assert t[r][k] in t[r];
      assert t[r][k] in EmptyCells(t);
    }
    if EmptyCells(t) != [] {
      var c := EmptyCells(t)[0];
      assert c in EmptyCells(t);
      var r :| 0 <= r < |t| && c in t[r];
      var k :| 0 <= k < |t[r]| && t[r][k] == c;
    }
  }

  /** `after` is `before` with a 2 or a 4 placed on an empty cell: the table
      `addRandomCell(before)` may return. */
  ghost predicate TileAdded(before: Table, after: Table) {
    exists i, j, v :: 0 <= i < |before| && 0 <= j < |before[i]| && before[i][j].value == 0 &&
      (v == 2 || v == 4) && after == PlaceTile(before, before[i][j].id, v)
  }

  /** `addRandomCell`: a random empty cell gets a new value of 2 or 4. Without an empty
      cell the pick is `undefined`, and the map fails reading its id at the first cell; a
      table with no cell at all never runs the callback and comes back as it was. */
  method AddRandomCell(table: Table) returns (r: Result<Table>)
    ensures r.Err? <==> Flat(table) != [] && !HasEmptyCell(table)
    ensures r.Err? ==> r.error == EmptyGridFull
    ensures r.Ok? && HasEmptyCell(table) ==> TileAdded(table, r.value)
    ensures r.Ok? && !HasEmptyCell(table) ==> r.value == table
  {
    var emptyCells := EmptyCells(table);
    EmptyCellsIff(table);
    var randomEmptyCell := GetRandomValue(emptyCells);
    if randomEmptyCell.None? {
      if Flat(table) == [] {
        return Ok(table);
      }
      return Err(EmptyGridFull);
    }
    var v := GenerateValue();
    ghost var cell := randomEmptyCell.value;
    ghost var i :| 0 <= i < |table| && cell in table[i];
    ghost var j :| 0 <= j < |table[i]| && table[i][j] == cell;
    r := Ok(PlaceTile(table, randomEmptyCell.value.id, v));
  }
}

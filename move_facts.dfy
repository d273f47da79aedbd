/** Properties of a whole `move` (src/actions.ts:60-91): what each output line holds,
    the score it keeps, the tiles it reduces by exactly the merges made, and the fact
    that a move which changes the board always leaves room for a new tile. */
module MoveFacts {
  import opened GameTypes
  import opened Utils
  import opened Actions
  import opened MergeFacts

  // ---------------------------------------------------------------- totals by line

  /** The columns of a table whose rows all have `w` cells. */
  function Columns(t: Table, w: nat): (cols: Table)
    requires forall r :: 0 <= r < |t| ==> |t[r]| == w
    ensures |cols| == w && forall c :: 0 <= c < w ==> |cols[c]| == |t|
  {
    seq(w, c requires 0 <= c < w => seq(|t|, r requires 0 <= r < |t| => t[r][c]))
  }

  /** The lines `move` works on: the rows in 'row' mode, the columns in 'col' mode. */
  function Lines(t: Table, mode: Mode): (ls: Table)
    requires IsSquare(t)
    ensures |ls| == |t| && forall i :: 0 <= i < |t| ==> ls[i] == LineOf(t, mode, i)
  {
    seq(|t|, i requires 0 <= i < |t| => LineOf(t, mode, i))
  }

  /** The new lines `move` computes, before they are written into the table. */
  function NewLines(t: Table, mode: Mode, direction: Direction, pad: seq<seq<Id>>): (ls: Table)
    requires IsSquare(t) && PadFits(pad, |t|)
    ensures |ls| == |t| && forall i :: 0 <= i < |t| ==> ls[i] == NewLine(t, mode, direction, pad, i)
  {
    seq(|t|, i requires 0 <= i < |t| => NewLine(t, mode, direction, pad, i))
  }

  lemma {:induction false} TotalEmptyLines(t: Table, f: Cell -> int)
    requires forall i :: 0 <= i < |t| ==> t[i] == []
    ensures Total(t, f) == 0
  {
    if t != [] {
      assert forall i :: 0 <= i < |t| - 1 ==> t[1..][i] == t[i + 1];
      TotalEmptyLines(t[1..], f);
    }
  }

  /** Putting cell `c` of `row` in front of line `c` of `rest` adds the row's sum to the total. */
  lemma {:induction false} TotalConsColumn(row: Row, rest: Table, f: Cell -> int)
    requires |row| == |rest|
    ensures Total(seq(|row|, c requires 0 <= c < |row| => [row[c]] + rest[c]), f) ==
            LineTotal(row, f) + Total(rest, f)
  {
    var joined := seq(|row|, c requires 0 <= c < |row| => [row[c]] + rest[c]);
    if row != [] {
      var tail := seq(|row| - 1, c requires 0 <= c < |row| - 1 => [row[1..][c]] + rest[1..][c]);
      assert joined[1..] == tail;
      TotalConsColumn(row[1..], rest[1..], f);
      assert joined[0][1..] == rest[0];
    }
  }

  /** Adding a table up column by column gives the same as adding it up row by row. */
  lemma {:induction false} TotalColumns(t: Table, w: nat, f: Cell -> int)
    requires forall r :: 0 <= r < |t| ==> |t[r]| == w
    ensures Total(Columns(t, w), f) == Total(t, f)
  {
    if t == [] {
      TotalEmptyLines(Columns(t, w), f);
    } else {
      TotalColumns(t[1..], w, f);
      var rest := Columns(t[1..], w);
      var joined := seq(w, c requires 0 <= c < w => [t[0][c]] + rest[c]);
      forall c | 0 <= c < w
        ensures Columns(t, w)[c] == joined[c]
      {
        assert forall r :: 1 <= r < |t| ==> rest[c][r - 1] == t[r][c];
      }
      assert Columns(t, w) == joined;
      TotalConsColumn(t[0], rest, f);
    }
  }

  /** The total over the lines of either mode is the total of the table. */
  lemma TotalLines(t: Table, mode: Mode, f: Cell -> int)
    requires IsSquare(t)
    ensures Total(Lines(t, mode), f) == Total(t, f)
  {
    if mode == ByRow {
      assert Lines(t, mode) == t;
    } else {
      assert Lines(t, mode) == Columns(t, |t|);
      TotalColumns(t, |t|, f);
    }
  }

  lemma {:induction false} LineTotalPointwise(a: Row, b: Row, f: Cell -> int)
    requires |a| == |b| && forall k :: 0 <= k < |a| ==> f(a[k]) == f(b[k])
    ensures LineTotal(a, f) == LineTotal(b, f)
  {
    if a != [] {
      assert forall k :: 0 <= k < |a| - 1 ==> a[1..][k] == a[k + 1] && b[1..][k] == b[k + 1];
      LineTotalPointwise(a[1..], b[1..], f);
    }
  }

  /** Line-wise relations between two tables carry over to their totals. */
  lemma {:induction false} TotalPointwise(a: Table, b: Table, f: Cell -> int, g: Cell -> int, h: Cell -> int)
    requires |a| == |b|
    requires forall i :: 0 <= i < |a| ==> LineTotal(a[i], f) == LineTotal(b[i], g) - LineTotal(a[i], h)
    ensures Total(a, f) == Total(b, g) - Total(a, h)
  {
    if a != [] {
      assert forall i :: 0 <= i < |a| - 1 ==> a[1..][i] == a[i + 1] && b[1..][i] == b[i + 1];
      TotalPointwise(a[1..], b[1..], f, g, h);
    }
  }

  /** Line-wise equal totals give equal table totals. */
  lemma {:induction false} TotalsEqual(a: Table, b: Table, f: Cell -> int, g: Cell -> int)
    requires |a| == |b|
    requires forall i :: 0 <= i < |a| ==> LineTotal(a[i], f) == LineTotal(b[i], g)
    ensures Total(a, f) == Total(b, g)
  {
    if a != [] {
      assert forall i :: 0 <= i < |a| - 1 ==> a[1..][i] == a[i + 1] && b[1..][i] == b[i + 1];
      TotalsEqual(a[1..], b[1..], f, g);
    }
  }

  // ---------------------------------------------------------------- the moved table

  /** `f` does not look at a cell's position. */
  ghost predicate PositionBlind(f: Cell -> int) {
    forall c: Cell, r: int, k: int :: f(Stamp(c, r, k)) == f(c)
  }

  lemma PositionBlindCounts()
    ensures PositionBlind(CellValue) && PositionBlind(Occupied) && PositionBlind(MergeFlag)
  {
  }

  /** Cell `k` of line `i` of the moved table is cell `k` of new line `i`, stamped with
      its position. */
  lemma MovedLine(t: Table, mode: Mode, direction: Direction, pad: seq<seq<Id>>, i: nat, k: nat)
    requires IsSquare(t) && PadFits(pad, |t|) && i < |t| && k < |t|
    ensures LineOf(Moved(t, mode, direction, pad), mode, i)[k] ==
      if mode == ByRow then Stamp(NewLine(t, mode, direction, pad, i)[k], i, k)
      else Stamp(NewLine(t, mode, direction, pad, i)[k], k, i)
  {
  }

  /** The moved table has the total of its new lines, for anything that ignores positions. */
  lemma TotalMoved(t: Table, mode: Mode, direction: Direction, pad: seq<seq<Id>>, f: Cell -> int)
    requires IsSquare(t) && PadFits(pad, |t|) && PositionBlind(f)
    ensures Total(Moved(t, mode, direction, pad), f) == Total(NewLines(t, mode, direction, pad), f)
  {
    var moved := Moved(t, mode, direction, pad);
    var news := NewLines(t, mode, direction, pad);
    forall i | 0 <= i < |t|
      ensures LineTotal(Lines(moved, mode)[i], f) == LineTotal(news[i], f)
    {
      forall k | 0 <= k < |t|
        ensures f(Lines(moved, mode)[i][k]) == f(news[i][k])
      {
        MovedLine(t, mode, direction, pad, i, k);
      }
      LineTotalPointwise(Lines(moved, mode)[i], news[i], f);
    }
    TotalsEqual(Lines(moved, mode), news, f, f);
    TotalLines(moved, mode, f);
  }

  /** Each output line holds the summed non-empty cells of the input line, then zeros
      ('start'), or zeros, then the summed cells ('end'). */
  lemma MovedLineValues(t: Table, mode: Mode, direction: Direction, pad: seq<seq<Id>>, i: nat)
    requires IsSquare(t) && PadFits(pad, |t|) && i < |t|
    ensures var summed := Summed(Nonzero(LineOf(t, mode, i)), direction);
      RowValues(LineOf(Moved(t, mode, direction, pad), mode, i)) ==
      if direction == Start then RowValues(summed) + Zeros(|t| - |summed|)
      else Zeros(|t| - |summed|) + RowValues(summed)
  {
    forall k | 0 <= k < |t|
      ensures LineOf(Moved(t, mode, direction, pad), mode, i)[k].value == NewLine(t, mode, direction, pad, i)[k].value
    {
      MovedLine(t, mode, direction, pad, i, k);
    }
    SlideLineValues(LineOf(t, mode, i), direction, pad[i]);
  }

  /** `move` keeps the score: merges add up and padding adds only zeros. */
  lemma MoveKeepsScore(t: Table, mode: Mode, direction: Direction, pad: seq<seq<Id>>)
    requires IsSquare(t) && PadFits(pad, |t|) && NonNegative(t)
    ensures Score(Moved(t, mode, direction, pad)) == Score(t)
  {
    var news := NewLines(t, mode, direction, pad);
    var lines := Lines(t, mode);
    PositionBlindCounts();
    TotalMoved(t, mode, direction, pad, CellValue);
    forall i | 0 <= i < |t|
      ensures LineTotal(news[i], CellValue) == LineTotal(lines[i], CellValue)
    {
      assert NonNegativeLine(LineOf(t, mode, i));
      SlideLineTotal(LineOf(t, mode, i), direction, pad[i]);
    }
    TotalsEqual(news, lines, CellValue, CellValue);
    TotalLines(t, mode, CellValue);
  }

  /** The number of tiles drops by exactly the number of merges the move made. */
  lemma MoveTileCount(t: Table, mode: Mode, direction: Direction, pad: seq<seq<Id>>)
    requires IsSquare(t) && PadFits(pad, |t|)
    ensures Total(Moved(t, mode, direction, pad), Occupied) ==
            Total(t, Occupied) - Total(Moved(t, mode, direction, pad), MergeFlag)
  {
    var news := NewLines(t, mode, direction, pad);
    var lines := Lines(t, mode);
    PositionBlindCounts();
    TotalMoved(t, mode, direction, pad, Occupied);
    TotalMoved(t, mode, direction, pad, MergeFlag);
    forall i | 0 <= i < |t|
      ensures LineTotal(news[i], Occupied) == LineTotal(lines[i], Occupied) - LineTotal(news[i], MergeFlag)
    {
      SlideLineOccupied(LineOf(t, mode, i), direction, pad[i]);
    }
    TotalPointwise(news, lines, Occupied, Occupied, MergeFlag);
    TotalLines(t, mode, Occupied);
  }

  /** A move turns a table of tiles into a table of tiles. */
  lemma MoveKeepsTiles(t: Table, mode: Mode, direction: Direction, pad: seq<seq<Id>>)
    requires IsSquare(t) && PadFits(pad, |t|) && ValidTiles(t)
    ensures ValidTiles(Moved(t, mode, direction, pad))
  {
    forall r: int, c: int | 0 <= r < |t| && 0 <= c < |t|
      ensures IsTileValue(Moved(t, mode, direction, pad)[r][c].value)
    {
      var i: nat, k: nat := if mode == ByRow then r else c, if mode == ByRow then c else r;
      assert TileLine(LineOf(t, mode, i));
      SlideLineTiles(LineOf(t, mode, i), direction, pad[i]);
      MovedLine(t, mode, direction, pad, i, k);
    }
  }

  // ---------------------------------------------------------------- room for a new tile

  /** Without an empty cell, a moved line holds the values of the input line. */
  lemma FullMovedLine(t: Table, mode: Mode, direction: Direction, pad: seq<seq<Id>>, i: nat)
    requires IsSquare(t) && PadFits(pad, |t|) && i < |t|
    requires forall r, c :: 0 <= r < |t| && 0 <= c < |t| ==> Moved(t, mode, direction, pad)[r][c].value != 0
    ensures RowValues(NewLine(t, mode, direction, pad, i)) == RowValues(LineOf(t, mode, i))
  {
    var moved := Moved(t, mode, direction, pad);
    forall k | 0 <= k < |t|
      ensures NewLine(t, mode, direction, pad, i)[k].value != 0
    {
      MovedLine(t, mode, direction, pad, i, k);
      assert LineOf(moved, mode, i)[k] == if mode == ByRow then moved[i][k] else moved[k][i];
    }
    assert NewLine(t, mode, direction, pad, i) == SlideLine(LineOf(t, mode, i), direction, pad[i]);
    SlideLineFull(LineOf(t, mode, i), direction, pad[i]);
  }

  /** A move after which no cell is empty changed no value. */
  lemma FullMoveChangesNothing(t: Table, mode: Mode, direction: Direction, pad: seq<seq<Id>>)
    requires IsSquare(t) && PadFits(pad, |t|)
    requires forall r, c :: 0 <= r < |t| && 0 <= c < |t| ==> Moved(t, mode, direction, pad)[r][c].value != 0
    ensures CompareTables(t, Moved(t, mode, direction, pad))
  {
    var moved := Moved(t, mode, direction, pad);
    forall r | 0 <= r < |t|
      ensures CompareRows(t[r], moved[r])
    {
      forall c | 0 <= c < |t|
        ensures CompareCells(t[r][c], moved[r][c])
      {
        var i: nat, k: nat := if mode == ByRow then r else c, if mode == ByRow then c else r;
        FullMovedLine(t, mode, direction, pad, i);
        MovedLine(t, mode, direction, pad, i, k);
        assert RowValues(NewLine(t, mode, direction, pad, i))[k] == RowValues(LineOf(t, mode, i))[k];
      }
    }
  }

  /** A move that changes the board leaves at least one empty cell, so the tile
      `updateTable` adds next always finds a place. */
  lemma ChangedMoveLeavesEmptyCell(t: Table, mode: Mode, direction: Direction, pad: seq<seq<Id>>)
    requires IsSquare(t) && PadFits(pad, |t|)
    ensures !CompareTables(t, Moved(t, mode, direction, pad)) ==> HasEmptyCell(Moved(t, mode, direction, pad))
  {
    if !HasEmptyCell(Moved(t, mode, direction, pad)) {
      FullMoveChangesNothing(t, mode, direction, pad);
    }
  }
}

/** The line-level cases of src/actions.spec.ts, worked out on the model: each test table
    is a stack of such lines (its rows in 'row' mode, its columns in 'col' mode), and
    `MoveFacts.MovedLineValues` says a moved table's line `i` holds exactly these values.
    One whole table of the 'col' cases is worked out column by column (`ColumnsToStart`). */
module Examples {
  import opened GameTypes
  import opened Utils
  import opened Actions
  import opened MergeFacts
  import opened MoveFacts

  /** A test line: `generateCell(value)` for each value (ids and positions do not matter). */
  function Line(vs: seq<int>): (line: Row)
    ensures |line| == |vs|
  {
    if vs == [] then [] else [Cell(0, vs[0], 0, 0, None)] + Line(vs[1..])
  }

  /** The values of a line after `move` has slid it. */
  function Slid(vs: seq<int>, direction: Direction): (ws: seq<int>)
    requires |vs| <= 4
    ensures |ws| == |vs|
  {
    RowValues(SlideLine(Line(vs), direction, [0, 0, 0, 0]))
  }

  /** 'should move all elements to given direction': a lone tile goes to the edge. */
  lemma LoneTileToStart()
    ensures Slid([0, 0, 2, 0], Start) == [2, 0, 0, 0]
  {
    var line := [Cell(0, 0, 0, 0, None), Cell(0, 0, 0, 0, None), Cell(0, 2, 0, 0, None), Cell(0, 0, 0, 0, None)];
    assert Line([0, 0, 2, 0]) == line;
    SlideLineValues(line, Start, [0, 0, 0, 0]);
    assert RowValues(Summed(Nonzero(line), Start)) == [2];
  }

  lemma LoneTileToEnd()
    ensures Slid([0, 2, 0, 0], End) == [0, 0, 0, 2]
  {
    var line := [Cell(0, 0, 0, 0, None), Cell(0, 2, 0, 0, None), Cell(0, 0, 0, 0, None), Cell(0, 0, 0, 0, None)];
    assert Line([0, 2, 0, 0]) == line;
    SlideLineValues(line, End, [0, 0, 0, 0]);
    assert RowValues(Summed(Nonzero(line), End)) == [2];
  }

  /** 'should sum values': equal tiles merge across the empty cells between them. */
  lemma SumAcrossGap()
    ensures Slid([2, 0, 0, 2], Start) == [4, 0, 0, 0]
  {
    var line := [Cell(0, 2, 0, 0, None), Cell(0, 0, 0, 0, None), Cell(0, 0, 0, 0, None), Cell(0, 2, 0, 0, None)];
    assert Line([2, 0, 0, 2]) == line;
    SlideLineValues(line, Start, [0, 0, 0, 0]);
    assert RowValues(Summed(Nonzero(line), Start)) == [4];
  }

  /** 'should sum last values': of three equal tiles the two nearest the target edge
      merge, and four equal tiles make two pairs. */
  lemma ThreeEqualToStart()
    ensures Slid([2, 2, 2, 0], Start) == [4, 2, 0, 0]
  {
    var line := [Cell(0, 2, 0, 0, None), Cell(0, 2, 0, 0, None), Cell(0, 2, 0, 0, None), Cell(0, 0, 0, 0, None)];
    assert Line([2, 2, 2, 0]) == line;
    SlideLineValues(line, Start, [0, 0, 0, 0]);
    assert RowValues(Summed(Nonzero(line), Start)) == [4, 2];
  }

  lemma ThreeEqualToEnd()
    ensures Slid([0, 2, 2, 2], End) == [0, 0, 2, 4]
  {
    var line := [Cell(0, 0, 0, 0, None), Cell(0, 2, 0, 0, None), Cell(0, 2, 0, 0, None), Cell(0, 2, 0, 0, None)];
    assert Line([0, 2, 2, 2]) == line;
    SlideLineValues(line, End, [0, 0, 0, 0]);
    assert RowValues(Summed(Nonzero(line), End)) == [2, 4];
  }

  lemma FourEqualToStart()
    ensures Slid([2, 2, 2, 2], Start) == [4, 4, 0, 0]
  {
    var line := [Cell(0, 2, 0, 0, None), Cell(0, 2, 0, 0, None), Cell(0, 2, 0, 0, None), Cell(0, 2, 0, 0, None)];
    assert Line([2, 2, 2, 2]) == line;
    SlideLineValues(line, Start, [0, 0, 0, 0]);
    assert RowValues(Summed(Nonzero(line), Start)) == [4, 4];
  }

  lemma GapThenPairToEnd()
    ensures Slid([2, 2, 0, 2], End) == [0, 0, 2, 4]
  {
    var line := [Cell(0, 2, 0, 0, None), Cell(0, 2, 0, 0, None), Cell(0, 0, 0, 0, None), Cell(0, 2, 0, 0, None)];
    assert Line([2, 2, 0, 2]) == line;
    SlideLineValues(line, End, [0, 0, 0, 0]);
    assert RowValues(Summed(Nonzero(line), End)) == [2, 4];
  }

  /** Column cases: a lone tile stays at the start, and a pair merges across a gap. */
  lemma TileAtStartStays()
    ensures Slid([2, 0, 0, 0], Start) == [2, 0, 0, 0]
  {
    var line := [Cell(0, 2, 0, 0, None), Cell(0, 0, 0, 0, None), Cell(0, 0, 0, 0, None), Cell(0, 0, 0, 0, None)];
    assert Line([2, 0, 0, 0]) == line;
    SlideLineValues(line, Start, [0, 0, 0, 0]);
    assert RowValues(Summed(Nonzero(line), Start)) == [2];
  }

  lemma PairToStart()
    ensures Slid([2, 2, 0, 0], Start) == [4, 0, 0, 0]
  {
    var line := [Cell(0, 2, 0, 0, None), Cell(0, 2, 0, 0, None), Cell(0, 0, 0, 0, None), Cell(0, 0, 0, 0, None)];
    assert Line([2, 2, 0, 0]) == line;
    SlideLineValues(line, Start, [0, 0, 0, 0]);
    assert Nonzero(line) == line[..2];
    assert RowValues(Summed(Nonzero(line), Start)) == [4];
  }

  lemma SplitPairToStart()
    ensures Slid([2, 0, 2, 0], Start) == [4, 0, 0, 0]
  {
    var line := [Cell(0, 2, 0, 0, None), Cell(0, 0, 0, 0, None), Cell(0, 2, 0, 0, None), Cell(0, 0, 0, 0, None)];
    assert Line([2, 0, 2, 0]) == line;
    SlideLineValues(line, Start, [0, 0, 0, 0]);
    assert RowValues(Summed(Nonzero(line), Start)) == [4];
  }

  /** The padding ids of a 4-by-4 move. */
  const Pad4: seq<seq<Id>> := [[0, 0, 0, 0], [0, 0, 0, 0], [0, 0, 0, 0], [0, 0, 0, 0]]

  /** A test table: row `r` is `Line(vss[r])`. */
  function Grid(vss: seq<seq<int>>): (t: Table)
    ensures |t| == |vss| && forall r :: 0 <= r < |vss| ==> t[r] == Line(vss[r])
  {
    seq(|vss|, r requires 0 <= r < |vss| => Line(vss[r]))
  }

  lemma {:induction false} LineCells(vs: seq<int>)
    ensures forall k :: 0 <= k < |vs| ==> Line(vs)[k] == Cell(0, vs[k], 0, 0, None)
  {
    if vs != [] {
      LineCells(vs[1..]);
    }
  }

  /** Column `i` of a 4-by-4 test table is the test line of the values in column `i`. */
  lemma ColumnOfGrid(vss: seq<seq<int>>, i: nat)
    requires |vss| == 4 && (forall r :: 0 <= r < 4 ==> |vss[r]| == 4) && i < 4
    ensures IsSquare(Grid(vss))
    ensures LineOf(Grid(vss), ByCol, i) == Line([vss[0][i], vss[1][i], vss[2][i], vss[3][i]])
  {
    var column := [vss[0][i], vss[1][i], vss[2][i], vss[3][i]];
    LineCells(column);
    forall r | 0 <= r < 4
      ensures Grid(vss)[r][i] == Line(column)[r]
    {
      LineCells(vss[r]);
    }
  }

  /** Column `i` of a 'col' move holds the values of the new line `i`. */
  lemma MovedColumn(t: Table, direction: Direction, pad: seq<seq<Id>>, i: nat, out: seq<int>)
    requires IsSquare(t) && PadFits(pad, |t|) && i < |t|
    requires RowValues(NewLine(t, ByCol, direction, pad, i)) == out
    ensures forall r :: 0 <= r < |t| ==> Moved(t, ByCol, direction, pad)[r][i].value == out[r]
  {
    forall r | 0 <= r < |t|
      ensures Moved(t, ByCol, direction, pad)[r][i].value == out[r]
    {
      MovedLine(t, ByCol, direction, pad, i, r);
    }
  }

  /** The first 'col'/'start' table of the test suite. */
  const ColTable: seq<seq<int>> := [[2, 2, 2, 2], [0, 2, 0, 0], [0, 0, 2, 0], [0, 0, 0, 2]]

  lemma ColumnsOfColTable(t: Table)
    requires t == Grid(ColTable)
    ensures IsSquare(t) && |t| == 4
    ensures LineOf(t, ByCol, 0) == Line([2, 0, 0, 0]) && LineOf(t, ByCol, 1) == Line([2, 2, 0, 0])
    ensures LineOf(t, ByCol, 2) == Line([2, 0, 2, 0]) && LineOf(t, ByCol, 3) == Line([2, 0, 0, 2])
  {
    ColumnOfGrid(ColTable, 0);
    ColumnOfGrid(ColTable, 1);
    ColumnOfGrid(ColTable, 2);
    ColumnOfGrid(ColTable, 3);
  }

  lemma ColTableColumn0(t: Table)
    requires t == Grid(ColTable)
    ensures IsSquare(t) && |t| == 4
    ensures forall r :: 0 <= r < 4 ==> Moved(t, ByCol, Start, Pad4)[r][0].value == [2, 0, 0, 0][r]
  {
    ColumnsOfColTable(t);
    TileAtStartStays();
    assert NewLine(t, ByCol, Start, Pad4, 0) == SlideLine(Line([2, 0, 0, 0]), Start, [0, 0, 0, 0]);
    MovedColumn(t, Start, Pad4, 0, [2, 0, 0, 0]);
  }

  lemma ColTableColumn1(t: Table)
    requires t == Grid(ColTable)
    ensures IsSquare(t) && |t| == 4
    ensures forall r :: 0 <= r < 4 ==> Moved(t, ByCol, Start, Pad4)[r][1].value == [4, 0, 0, 0][r]
  {
    ColumnsOfColTable(t);
    PairToStart();
    assert NewLine(t, ByCol, Start, Pad4, 1) == SlideLine(Line([2, 2, 0, 0]), Start, [0, 0, 0, 0]);
    MovedColumn(t, Start, Pad4, 1, [4, 0, 0, 0]);
  }

  lemma ColTableColumn2(t: Table)
    requires t == Grid(ColTable)
    ensures IsSquare(t) && |t| == 4
    ensures forall r :: 0 <= r < 4 ==> Moved(t, ByCol, Start, Pad4)[r][2].value == [4, 0, 0, 0][r]
  {
    ColumnsOfColTable(t);
    SplitPairToStart();
    assert NewLine(t, ByCol, Start, Pad4, 2) == SlideLine(Line([2, 0, 2, 0]), Start, [0, 0, 0, 0]);
    MovedColumn(t, Start, Pad4, 2, [4, 0, 0, 0]);
  }

  lemma ColTableColumn3(t: Table)
    requires t == Grid(ColTable)
    ensures IsSquare(t) && |t| == 4
    ensures forall r :: 0 <= r < 4 ==> Moved(t, ByCol, Start, Pad4)[r][3].value == [4, 0, 0, 0][r]
  {
    ColumnsOfColTable(t);
    SumAcrossGap();
    assert NewLine(t, ByCol, Start, Pad4, 3) == SlideLine(Line([2, 0, 0, 2]), Start, [0, 0, 0, 0]);
    MovedColumn(t, Start, Pad4, 3, [4, 0, 0, 0]);
  }

  /** A 4-by-4 table whose columns hold the expected values of the 'col'/'start' case. */
  lemma ColTableRows(m: Table)
    requires |m| == 4 && IsSquare(m)
    requires forall r :: 0 <= r < 4 ==> m[r][0].value == [2, 0, 0, 0][r]
    requires forall r :: 0 <= r < 4 ==> m[r][1].value == [4, 0, 0, 0][r]
    requires forall r :: 0 <= r < 4 ==> m[r][2].value == [4, 0, 0, 0][r]
    requires forall r :: 0 <= r < 4 ==> m[r][3].value == [4, 0, 0, 0][r]
    ensures TableValues(m) == [[2, 4, 4, 4], [0, 0, 0, 0], [0, 0, 0, 0], [0, 0, 0, 0]]
  {
    assert RowValues(m[0]) == [2, 4, 4, 4];
    assert RowValues(m[1]) == [0, 0, 0, 0];
    assert RowValues(m[2]) == [0, 0, 0, 0];
    assert RowValues(m[3]) == [0, 0, 0, 0];
  }

  /** 'should move and sum in col mode': each column of the table slides towards row 0,
      `[[2,2,2,2],[0,2,0,0],[0,0,2,0],[0,0,0,2]]` becoming `[[2,4,4,4],[0,0,0,0],…]`. */
  lemma ColumnsToStart(t: Table)
    requires t == Grid(ColTable)
    ensures IsSquare(t) &&
      TableValues(Moved(t, ByCol, Start, Pad4)) == [[2, 4, 4, 4], [0, 0, 0, 0], [0, 0, 0, 0], [0, 0, 0, 0]]
  {
    ColTableColumn0(t);
    ColTableColumn1(t);
    ColTableColumn2(t);
    ColTableColumn3(t);
    ColTableRows(Moved(t, ByCol, Start, Pad4));
  }
}

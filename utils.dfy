/** Grid utilities (src/utils.ts): random picks, cell/row/table construction,
    the record update `copyCell`, and value-only equality of cells, rows and tables.

    `Math.random()` is modelled by nondeterministic choice (`:|`) within the range the
    code can produce; the ids nanoid would return are passed in as parameters. */
module Utils {
  import opened GameTypes

  // ---------------------------------------------------------------- random picks

  /** `Math.floor(Math.random() * (max - min + 1)) + min` for integers, with the random
      number anywhere in [0, 1). For `min <= max` that is an integer of [min, max]; for
      `max < min` the factor `max - min + 1` is not positive and the result lies in (max, min]. */
  method GetRandomValueBetween(min: int, max: int) returns (r: int)
    ensures min <= max ==> min <= r <= max
    ensures max < min ==> max < r <= min
  {
    if min <= max {
      r :| min <= r <= max;
    } else {
      r :| max < r <= min;
    }
  }

  /** `list[getRandomValueBetween(0, list.length - 1)]`: an element of a non-empty list;
      on the empty list the index is 0, past the end, and the result is `undefined`. */
  method GetRandomValue<T>(list: seq<T>) returns (r: Option<T>)
    ensures r.None? <==> list == []
    ensures r.Some? ==> r.value in list
  {
    var k := GetRandomValueBetween(0, |list| - 1);
    r := if 0 <= k < |list| then Some(list[k]) else None;
  }

  /** A new tile's value: 4 when the random draw is below 0.1, otherwise 2. */
  method GenerateValue() returns (v: int)
    ensures v == 2 || v == 4
  {
    var four: bool :| true;
    v := if four then 4 else 2;
  }

  // ---------------------------------------------------------------- construction

  /** The optional fields of `Partial<Omit<Cell, 'id'>>`: a field that is `None` is not named. */
  datatype CellParams = CellParams(value: Option<int>, posX: Option<int>, posY: Option<int>, isMerge: Option<bool>)

  const NoParams := CellParams(None, None, None, None)

  /** `{ ...cell, ...params }`: the id and every field `params` does not name are kept,
      the named fields take the values given. */
  function CopyCell(cell: Cell, params: CellParams): (r: Cell)
    ensures r.id == cell.id
    ensures params.value.Some? ==> r.value == params.value.value
    ensures params.value.None? ==> r.value == cell.value
    ensures params.posX.Some? ==> r.posX == params.posX.value
    ensures params.posX.None? ==> r.posX == cell.posX
    ensures params.posY.Some? ==> r.posY == params.posY.value
    ensures params.posY.None? ==> r.posY == cell.posY
    ensures params.isMerge.Some? ==> r.isMerge == params.isMerge
    ensures params.isMerge.None? ==> r.isMerge == cell.isMerge
  {
    Cell(cell.id, params.value.GetOr(cell.value), params.posX.GetOr(cell.posX),
         params.posY.GetOr(cell.posY), if params.isMerge.Some? then params.isMerge else cell.isMerge)
  }

  /** `generateCell(value, params)`: `{ id: nanoid(), value, posX: 0, posY: 0, ...params }`,
      with the fresh id given as `id`. */
  function GenerateCell(id: Id, value: int, params: CellParams): (r: Cell)
    ensures r == CopyCell(Cell(id, value, 0, 0, None), params)
    ensures r.id == id
    ensures params == NoParams ==> r == Cell(id, value, 0, 0, None)
  {
    Cell(id, params.value.GetOr(value), params.posX.GetOr(0), params.posY.GetOr(0), params.isMerge)
  }

  /** `generateRow(size, rowIndex, params)`: `size` cells of value 0 at row `rowIndex`,
      column index as `posX`, each with its own id `ids[c]`, then `params` on top. */
  function GenerateRow(size: nat, rowIndex: int, params: CellParams, ids: seq<Id>): (r: Row)
    requires |ids| >= size
    ensures |r| == size
    ensures forall c :: 0 <= c < size ==> r[c] == CopyCell(Cell(ids[c], 0, c, rowIndex, None), params)
  {
    seq(size, c requires 0 <= c < size => CopyCell(Cell(ids[c], 0, c, rowIndex, None), params))
  }

  /** `generateTable(size)`: `size` rows built by `generateRow(size, rowIndex)`; row `r`
      takes its ids from `ids[r]`. */
  function GenerateTable(size: nat, ids: seq<seq<Id>>): (t: Table)
    requires |ids| >= size && forall r :: 0 <= r < size ==> |ids[r]| >= size
    ensures |t| == size && IsSquare(t)
    ensures forall r, c :: 0 <= r < size && 0 <= c < size ==>
      t[r][c] == Cell(ids[r][c], 0, c, r, None)
  {
    seq(size, r requires 0 <= r < size => GenerateRow(size, r, NoParams, ids[r]))
  }

  // ---------------------------------------------------------------- equality

  function CompareCells(a: Cell, b: Cell): bool {
    a.value == b.value
  }

  function CompareRows(a: Row, b: Row): bool {
    |a| == |b| && forall i :: 0 <= i < |a| ==> CompareCells(a[i], b[i])
  }

  function CompareTables(a: Table, b: Table): bool {
    |a| == |b| && forall i :: 0 <= i < |a| ==> CompareRows(a[i], b[i])
  }

  /** The values of a row, in order. */
  function RowValues(row: Row): (vs: seq<int>)
    ensures |vs| == |row| && forall k :: 0 <= k < |row| ==> vs[k] == row[k].value
  {
    seq(|row|, k requires 0 <= k < |row| => row[k].value)
  }

  /** The values of a table, row by row. */
  function TableValues(t: Table): (vs: seq<seq<int>>)
    ensures |vs| == |t| && forall r :: 0 <= r < |t| ==> vs[r] == RowValues(t[r])
  {
    seq(|t|, r requires 0 <= r < |t| => RowValues(t[r]))
  }

  /** `compareCells` is an equivalence on cells, and it sees nothing but the value: a copy
      that names no new value compares equal to the original, and compares with any other
      cell as the original does. */
  lemma CompareCellsEquivalence(a: Cell, b: Cell, c: Cell, p: CellParams)
    ensures CompareCells(a, a)
    ensures CompareCells(a, b) ==> CompareCells(b, a)
    ensures CompareCells(a, b) && CompareCells(b, c) ==> CompareCells(a, c)
    ensures p.value.None? ==>
      CompareCells(CopyCell(a, p), a) && (CompareCells(CopyCell(a, p), b) <==> CompareCells(a, b))
  {
  }

  /** Two rows compare equal exactly when their value sequences are equal. */
  lemma CompareRowsIffValues(a: Row, b: Row)
    ensures CompareRows(a, b) <==> RowValues(a) == RowValues(b)
  {
    if RowValues(a) == RowValues(b) {
      assert |a| == |RowValues(a)|;
      forall i | 0 <= i < |a| ensures CompareCells(a[i], b[i]) {
        assert RowValues(a)[i] == RowValues(b)[i];
      }
    }
  }

  /** Two tables compare equal exactly when their value tables are equal: same number of
      rows, and row by row the same values. */
  lemma CompareTablesIffValues(a: Table, b: Table)
    ensures CompareTables(a, b) <==> TableValues(a) == TableValues(b)
  {
    if CompareTables(a, b) {
      forall i | 0 <= i < |a| ensures TableValues(a)[i] == TableValues(b)[i] {
        CompareRowsIffValues(a[i], b[i]);
      }
    }
    if TableValues(a) == TableValues(b) {
      assert |a| == |TableValues(a)|;
      forall i | 0 <= i < |a| ensures CompareRows(a[i], b[i]) {
        assert TableValues(a)[i] == TableValues(b)[i];
        CompareRowsIffValues(a[i], b[i]);
      }
    }
  }

  /** `compareTables` is an equivalence relation. */
  lemma CompareTablesEquivalence(a: Table, b: Table, c: Table)
    ensures CompareTables(a, a)
    ensures CompareTables(a, b) ==> CompareTables(b, a)
    ensures CompareTables(a, b) && CompareTables(b, c) ==> CompareTables(a, c)
  {
    CompareTablesIffValues(a, a);
    CompareTablesIffValues(a, b);
    CompareTablesIffValues(b, a);
    CompareTablesIffValues(b, c);
    CompareTablesIffValues(a, c);
  }

  /** Two tables built by `generateTable` of the same size compare equal whatever their ids. */
  lemma GenerateTableIdsIrrelevant(size: nat, ids1: seq<seq<Id>>, ids2: seq<seq<Id>>)
    requires |ids1| >= size && forall r :: 0 <= r < size ==> |ids1[r]| >= size
    requires |ids2| >= size && forall r :: 0 <= r < size ==> |ids2[r]| >= size
    ensures CompareTables(GenerateTable(size, ids1), GenerateTable(size, ids2))
  {
  }
}

/** Properties of placing the new tile (`addRandomCell`, src/actions.ts:14-23) and of
    single-cell updates of a table's total. */
module Placement {
  import opened GameTypes
  import opened Utils
  import opened Actions

  /** A table with cell `(r, k)` replaced by `x`. */
  function WithCell(t: Table, r: nat, k: nat, x: Cell): (u: Table)
    requires r < |t| && k < |t[r]|
    ensures |u| == |t| && forall i :: 0 <= i < |t| ==> |u[i]| == |t[i]|
  {
    t[r := t[r][k := x]]
  }

  /** Replacing one cell of a line changes its total by the difference of the two cells. */
  lemma {:induction false} LineTotalUpdate(line: Row, k: nat, x: Cell, f: Cell -> int)
    requires k < |line|
    ensures LineTotal(line[k := x], f) == LineTotal(line, f) - f(line[k]) + f(x)
  {
    if k == 0 {
      assert line[k := x][1..] == line[1..];
    } else {
      assert line[k := x][1..] == line[1..][k - 1 := x];
      LineTotalUpdate(line[1..], k - 1, x, f);
    }
  }

  /** Replacing one cell of a table changes its total by the difference of the two cells. */
  lemma {:induction false} TotalUpdate(t: Table, r: nat, k: nat, x: Cell, f: Cell -> int)
    requires r < |t| && k < |t[r]|
    ensures Total(WithCell(t, r, k, x), f) == Total(t, f) - f(t[r][k]) + f(x)
  {
    LineTotalUpdate(t[r], k, x, f);
    if r == 0 {
      assert WithCell(t, r, k, x)[1..] == t[1..];
    } else {
      assert WithCell(t, r, k, x)[1..] == WithCell(t[1..], r - 1, k, x);
      TotalUpdate(t[1..], r - 1, k, x, f);
    }
  }

  /** On a table without negative values the score is at least any one cell's value. */
  lemma ScoreAtLeastCell(t: Table, r: nat, k: nat)
    requires NonNegative(t) && r < |t| && k < |t[r]|
    ensures Score(t) >= t[r][k].value
  {
    var cleared := WithCell(t, r, k, t[r][k].(value := 0));
    TotalUpdate(t, r, k, t[r][k].(value := 0), CellValue);
    assert NonNegative(cleared);
    assert Score(cleared) >= 0;
  }

  lemma TileValuesTwoFour()
    ensures IsTileValue(2) && IsTileValue(4)
  {
    assert IsPowerOfTwo(1);
    assert IsPowerOfTwo(2);
    assert IsPowerOfTwo(4);
  }

  /** A table of tiles has no negative value. */
  lemma TilesNonNegative(t: Table)
    requires ValidTiles(t)
    ensures NonNegative(t)
  {
  }

  /** Placing a 2 or a 4 keeps a table of tiles a table of tiles. */
  lemma PlaceTileKeepsTiles(t: Table, id: Id, v: int)
    requires ValidTiles(t) && (v == 2 || v == 4)
    ensures ValidTiles(PlaceTile(t, id, v))
  {
    TileValuesTwoFour();
    PlaceTileCells(t, id, v);
  }

  /** With unique ids, placing on the cell at `(r, k)` changes that cell's value and nothing else. */
  lemma PlaceTileAt(t: Table, r: nat, k: nat, v: int)
    requires UniqueIds(t) && r < |t| && k < |t[r]|
    ensures PlaceTile(t, t[r][k].id, v) == WithCell(t, r, k, t[r][k].(value := v))
  {
    var placed := PlaceTile(t, t[r][k].id, v);
    var expected := WithCell(t, r, k, t[r][k].(value := v));
    PlaceTileCells(t, t[r][k].id, v);
    forall i | 0 <= i < |t|
      ensures placed[i] == expected[i]
    {
      forall j | 0 <= j < |t[i]|
        ensures placed[i][j] == expected[i][j]
      {
        if t[i][j].id == t[r][k].id {
          assert i == r && j == k;
        }
      }
    }
  }

  /** `addRandomCell` with unique ids: exactly one previously empty cell now holds the new
      value, every other cell is unchanged, and the score grows by that value. */
  lemma AddedTileIsOne(t: Table, after: Table) returns (r: nat, k: nat, v: int)
    requires UniqueIds(t) && TileAdded(t, after)
    ensures r < |t| && k < |t[r]| && t[r][k].value == 0 && (v == 2 || v == 4)
    ensures after == WithCell(t, r, k, t[r][k].(value := v))
    ensures Score(after) == Score(t) + v
  {
    var i, j, w :| 0 <= i < |t| && 0 <= j < |t[i]| && t[i][j].value == 0 &&
      (w == 2 || w == 4) && after == PlaceTile(t, t[i][j].id, w);
    r, k, v := i, j, w;
    PlaceTileAt(t, r, k, v);
    TotalUpdate(t, r, k, t[r][k].(value := v), CellValue);
  }
}

/** The game state and the actions `generateActions` hands to the app
    (src/actions.ts:102-175): the state the React setters hold becomes the fields of a
    `Game` object, and each action a method that updates them. The app's initial state and
    its size selection (src/app.tsx:13-21, 60-63) are modelled as the constructor and
    `SelectSize`. */
module GameActions {
  import opened GameTypes
  import opened Utils
  import opened Actions
  import opened MoveFacts
  import opened Placement

  /** The four player moves; `moveUp` … `moveRight` each run `updateTable` with one
      (mode, direction) pair. */
  datatype Action = Up | Down | Left | Right

  function ModeOf(a: Action): (m: Mode)
    ensures m == ByCol <==> a == Up || a == Down
  {
    match a
    case Up => ByCol
    case Down => ByCol
    case Left => ByRow
    case Right => ByRow
  }

  function DirectionOf(a: Action): (d: Direction)
    ensures d == Start <==> a == Up || a == Left
  {
    match a
    case Up => Start
    case Down => End
    case Left => Start
    case Right => End
  }

  /** The four actions run four different moves, and every move is run by one of them. */
  lemma ActionsAreTheMoves(mode: Mode, direction: Direction)
    ensures exists a :: ModeOf(a) == mode && DirectionOf(a) == direction
    ensures forall a, b :: ModeOf(a) == ModeOf(b) && DirectionOf(a) == DirectionOf(b) ==> a == b
  {
    var a := if mode == ByCol then (if direction == Start then Up else Down)
             else (if direction == Start then Left else Right);
    assert ModeOf(a) == mode && DirectionOf(a) == direction;
  }

  /** The best score once a move has scored `newScore`: replaced only when beaten. */
  function BestScoreAfter(bestScore: int, newScore: int): (b: int)
    ensures b >= bestScore && b >= newScore
    ensures b == bestScore || b == newScore
    ensures newScore <= bestScore ==> b == bestScore
  {
    if newScore > bestScore then newScore else bestScore
  }

  /** The game state as a value. */
  datatype Snapshot = Snapshot(table: Table, score: int, bestScore: int, moveCounter: int)

  /** What `updateTable` does to the state: if the move changes no value, nothing at all;
      otherwise the moved table gets a 2 or a 4 on one of its empty cells, the score becomes
      that table's score, the best score is raised to it if beaten, and the move counter
      goes up by one. */
  ghost predicate Updated(before: Snapshot, mode: Mode, direction: Direction, pad: seq<seq<Id>>, after: Snapshot)
    requires IsSquare(before.table) && PadFits(pad, |before.table|)
  {
    var moved := Moved(before.table, mode, direction, pad);
    if CompareTables(before.table, moved) then after == before
    else
      TileAdded(moved, after.table) &&
      after.score == Score(after.table) &&
      after.bestScore == BestScoreAfter(before.bestScore, after.score) &&
      after.moveCounter == before.moveCounter + 1
  }

  /** The table `startGame` builds: a fresh table of zeros with one `generateCell`
      (id `startId`, value `v`) placed at row `r`, column `c`, stamped with that position. */
  function StartTable(size: nat, ids: seq<seq<Id>>, startId: Id, r: nat, c: nat, v: int): Table
    requires GridIds(ids, size) && r < size && c < size
  {
    var t := GenerateTable(size, ids);
    t[r := t[r][c := Cell(startId, v, c, r, None)]]
  }

  /** Enough ids for `generateTable(size)`: `ids[r][c]` is the id of the cell at row `r`, column `c`. */
  predicate GridIds(ids: seq<seq<Id>>, size: nat) {
    |ids| >= size && forall r :: 0 <= r < size ==> |ids[r]| >= size
  }

  /** The start table is a square table of tiles with exactly one tile, and its score is
      that tile's value. */
  lemma StartTableHasOneTile(size: nat, ids: seq<seq<Id>>, startId: Id, r: nat, c: nat, v: int)
    requires GridIds(ids, size) && r < size && c < size && (v == 2 || v == 4)
    ensures var t := StartTable(size, ids, startId, r, c, v);
      |t| == size && IsSquare(t) && ValidTiles(t) && Score(t) == v &&
      forall i, j :: 0 <= i < size && 0 <= j < size ==> (t[i][j].value != 0 <==> i == r && j == c)
  {
    var g := GenerateTable(size, ids);
    TileValuesTwoFour();
    assert StartTable(size, ids, startId, r, c, v) == WithCell(g, r, c, Cell(startId, v, c, r, None));
    TotalUpdate(g, r, c, Cell(startId, v, c, r, None), CellValue);
    ZeroTableScore(g);
  }

  lemma {:induction false} ZeroLineScore(line: Row)
    requires forall k :: 0 <= k < |line| ==> line[k].value == 0
    ensures LineTotal(line, CellValue) == 0
  {
    if line != [] {
      ZeroLineScore(line[1..]);
    }
  }

  /** A table of zeros scores 0. */
  lemma {:induction false} ZeroTableScore(t: Table)
    requires forall r, c :: 0 <= r < |t| && 0 <= c < |t[r]| ==> t[r][c].value == 0
    ensures Score(t) == 0
  {
    if t != [] {
      ZeroLineScore(t[0]);
      assert forall r, c :: 0 <= r < |t| - 1 && 0 <= c < |t[1..][r]| ==> t[1..][r][c] == t[r + 1][c];
      ZeroTableScore(t[1..]);
    }
  }

  /** A tile added to a square table of tiles leaves a square table of tiles of the same
      size, of non-negative score. */
  lemma TileAddedValid(t: Table, after: Table)
    requires IsSquare(t) && ValidTiles(t) && TileAdded(t, after)
    ensures |after| == |t| && IsSquare(after) && ValidTiles(after) && Score(after) >= 0
  {
    var i, j, v :| 0 <= i < |t| && 0 <= j < |t[i]| && t[i][j].value == 0 &&
      (v == 2 || v == 4) && after == PlaceTile(t, t[i][j].id, v);
    PlaceTileKeepsTiles(t, t[i][j].id, v);
    PlaceTileCells(t, t[i][j].id, v);
    TilesNonNegative(after);
  }

  /** A fresh table of positive size is a square table of zeros: it has an empty cell. */
  lemma GeneratedTableEmpty(size: nat, ids: seq<seq<Id>>)
    requires GridIds(ids, size)
    ensures var t := GenerateTable(size, ids); ValidTiles(t) && (size > 0 <==> HasEmptyCell(t))
  {
    var t: Table := GenerateTable(size, ids);
    if size > 0 {
      assert t[0][0].value == 0;
    }
  }

  /** The table `updateTable` computes: the move, then, when `compareTables` finds a
      change, `addRandomCell` on the moved table. `changed` is false when the move changes no
      value. The new tile always finds an empty cell, and the result is again a square table
      of tiles. */
  method NextTable(t: Table, mode: Mode, direction: Direction, pad: seq<seq<Id>>) returns (changed: bool, result: Table)
    requires IsSquare(t) && ValidTiles(t) && PadFits(pad, |t|)
    ensures changed <==> !CompareTables(t, Moved(t, mode, direction, pad))
    ensures !changed ==> result == t
    ensures changed ==> (TileAdded(Moved(t, mode, direction, pad), result) &&
      |result| == |t| && IsSquare(result) && ValidTiles(result) && Score(result) >= 0)
  {
    var newTable := Move(t, mode, direction, pad);
    if CompareTables(t, newTable) {
      return false, t;
    }
    ChangedMoveLeavesEmptyCell(t, mode, direction, pad);
    MoveKeepsTiles(t, mode, direction, pad);
    var added := AddRandomCell(newTable);
    if added.Err? {
      assert false;
    }
    TileAddedValid(newTable, added.value);
    return true, added.value;
  }

  /** A square table of tiles, `0 <= score <= bestScore`, and a non-negative move counter. */
  ghost predicate ValidState(s: Snapshot) {
    IsSquare(s.table) && ValidTiles(s.table) && 0 <= s.score <= s.bestScore && 0 <= s.moveCounter
  }

  /** The whole effect of `updateTable` on the game state: the table `NextTable` computes;
      when it changed, the move counter goes up by one, the score becomes the new table's
      score, and the best score is raised to it when beaten. */
  method ApplyMove(before: Snapshot, mode: Mode, direction: Direction, pad: seq<seq<Id>>) returns (after: Snapshot)
    requires ValidState(before) && PadFits(pad, |before.table|)
    ensures ValidState(after) && |after.table| == |before.table|
    ensures Updated(before, mode, direction, pad, after)
  {
    var changed, newTableWithNewCell := NextTable(before.table, mode, direction, pad);
    if !changed {
      return before;
    }
    var newScore := Score(newTableWithNewCell);
    var bestScore := before.bestScore;
    if newScore > bestScore {
      bestScore := newScore;
    }
    after := Snapshot(newTableWithNewCell, newScore, bestScore, before.moveCounter + 1);
  }

  /** The table size the app starts with. */
  const InitialSize: nat := 4

  class Game {
    /** The size `startGame` builds tables of. */
    var tableSize: nat
    var table: Table
    var score: int
    var bestScore: int
    var moveCounter: int

    function State(): Snapshot
      reads this
    {
      Snapshot(table, score, bestScore, moveCounter)
    }

    /** A valid state, on a table of the size the next `startGame` builds. */
    ghost predicate Valid()
      reads this
    {
      ValidState(State()) && |table| == tableSize
    }

    /** The state the app mounts with: `addRandomCell(generateTable(4))`, everything else 0. */
    constructor (ids: seq<seq<Id>>)
      requires GridIds(ids, InitialSize)
      ensures Valid() && tableSize == InitialSize
      ensures score == 0 && bestScore == 0 && moveCounter == 0
      ensures TileAdded(GenerateTable(InitialSize, ids), table)
    {
      var initialTable := GenerateTable(InitialSize, ids);
      GeneratedTableEmpty(InitialSize, ids);
      var added := AddRandomCell(initialTable);
      if added.Err? {
        assert false;
      }
      TileAddedValid(initialTable, added.value);
      tableSize := InitialSize;
      table := added.value;
      score := 0;
      bestScore := 0;
      moveCounter := 0;
    }

    /** `updateTable(table, mode, direction)` followed by `setTable` of its result: the
        four setters store the state `ApplyMove` computes. */
    method UpdateTable(mode: Mode, direction: Direction, pad: seq<seq<Id>>)
      requires Valid() && PadFits(pad, |table|)
      modifies this
      ensures Valid() && tableSize == old(tableSize)
      ensures Updated(old(State()), mode, direction, pad, State())
    {
      var after := ApplyMove(State(), mode, direction, pad);
      table, score, bestScore, moveCounter := after.table, after.score, after.bestScore, after.moveCounter;
    }

    /** `moveUp`: the board slides towards row 0. */
    method MoveUp(pad: seq<seq<Id>>)
      requires Valid() && PadFits(pad, |table|)
      modifies this
      ensures Valid() && tableSize == old(tableSize)
      ensures Updated(old(State()), ModeOf(Up), DirectionOf(Up), pad, State())
    {
      UpdateTable(ByCol, Start, pad);
    }

    /** `moveDown`: the board slides towards the last row. */
    method MoveDown(pad: seq<seq<Id>>)
      requires Valid() && PadFits(pad, |table|)
      modifies this
      ensures Valid() && tableSize == old(tableSize)
      ensures Updated(old(State()), ModeOf(Down), DirectionOf(Down), pad, State())
    {
      UpdateTable(ByCol, End, pad);
    }

    /** `moveLeft`: the board slides towards column 0. */
    method MoveLeft(pad: seq<seq<Id>>)
      requires Valid() && PadFits(pad, |table|)
      modifies this
      ensures Valid() && tableSize == old(tableSize)
      ensures Updated(old(State()), ModeOf(Left), DirectionOf(Left), pad, State())
    {
      UpdateTable(ByRow, Start, pad);
    }

    /** `moveRight`: the board slides towards the last column. */
    method MoveRight(pad: seq<seq<Id>>)
      requires Valid() && PadFits(pad, |table|)
      modifies this
      ensures Valid() && tableSize == old(tableSize)
      ensures Updated(old(State()), ModeOf(Right), DirectionOf(Right), pad, State())
    {
      UpdateTable(ByRow, End, pad);
    }

    /** `startGame`: a fresh table of `tableSize` with one 2 or 4 at a random position,
        score and move counter reset, best score kept. With size 0 the table has no row
        to write the start cell into and the action fails before touching the state. */
    method StartGame(ids: seq<seq<Id>>, startId: Id) returns (err: Option<Error>)
      requires Valid() && GridIds(ids, tableSize)
      modifies this
      ensures Valid() && tableSize == old(tableSize)
      ensures err.Some? <==> tableSize == 0
      ensures err.Some? ==> err.value == InvalidDimension && State() == old(State())
      ensures err.None? ==> (score == 0 && moveCounter == 0 && bestScore == old(bestScore) &&
        exists r, c, v :: 0 <= r < tableSize && 0 <= c < tableSize && (v == 2 || v == 4) &&
          table == StartTable(tableSize, ids, startId, r, c, v))
    {
      var newTable: Table := GenerateTable(tableSize, ids);
      var startRow := GetRandomValueBetween(0, tableSize - 1);
      var startCol := GetRandomValueBetween(0, tableSize - 1);
      var startValue := GenerateValue();
      if !(0 <= startRow < |newTable|) {
        return Some(InvalidDimension);
      }
      // the cell object written into the table is then given its position
      var startCell := GenerateCell(startId, startValue, NoParams);
      startCell := startCell.(posY := startRow);
      startCell := startCell.(posX := startCol);
      newTable := newTable[startRow := newTable[startRow][startCol := startCell]];
      assert newTable == StartTable(tableSize, ids, startId, startRow, startCol, startValue);
      StartTableHasOneTile(tableSize, ids, startId, startRow, startCol, startValue);
      table := newTable;
      moveCounter := 0;
      score := 0;
      err := None;
    }

    /** The size selector: `addRandomCell(generateTable(size))` becomes the table and `size`
        the size the next `startGame` builds; score, best score and move counter stay. Size 0
        gives the empty table, which `addRandomCell` returns as it is. */
    method SelectSize(size: nat, ids: seq<seq<Id>>)
      requires Valid() && GridIds(ids, size)
      modifies this
      ensures Valid() && tableSize == size
      ensures score == old(score) && bestScore == old(bestScore) && moveCounter == old(moveCounter)
      ensures size > 0 ==> TileAdded(GenerateTable(size, ids), table)
      ensures size == 0 ==> table == []
    {
      var sizedTable := GenerateTable(size, ids);
      GeneratedTableEmpty(size, ids);
      var added := AddRandomCell(sizedTable);
      if added.Err? {
        assert false;
      }
      if size > 0 {
        TileAddedValid(sizedTable, added.value);
      }
      table := added.value;
      tableSize := size;
    }
  }
}

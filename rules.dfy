/** The app's loss and win rules (src/app.tsx:147-156, 168), stated over `move` and
    `compareTables`, and what they mean for the board: a game is lost exactly when the
    board is empty, or full with no two equal neighbours in any row or column. */
module Rules {
  import opened GameTypes
  import opened Utils
  import opened Actions
  import opened MergeFacts
  import opened MoveFacts
  import opened Placement
  import opened GameActions

  /** The (mode, direction) pairs the loss check tries, in its order. */
  const PossibleMoves: seq<(Mode, Direction)> := [(ByCol, Start), (ByCol, End), (ByRow, Start), (ByRow, End)]

  /** `isLost`: every possible move gives a table that compares equal to the current one.
      The padding ids `pad` never matter (`IsLostIgnoresIds`). */
  predicate IsLost(t: Table, pad: seq<seq<Id>>)
    requires IsSquare(t) && PadFits(pad, |t|)
  {
    forall k :: 0 <= k < |PossibleMoves| ==>
      CompareTables(t, Moved(t, PossibleMoves[k].0, PossibleMoves[k].1, pad))
  }

  /** The tile value the win check looks for. */
  const WinningValue := 2048

  /** `isWin`: some cell of some row holds 2048. */
  predicate IsWin(t: Table) {
    exists r, c :: 0 <= r < |t| && 0 <= c < |t[r]| && t[r][c].value == WinningValue
  }

  /** Some cell holds a tile. */
  predicate HasTile(t: Table) {
    exists r, c :: 0 <= r < |t| && 0 <= c < |t[r]| && t[r][c].value != 0
  }

  /** The index of a (mode, direction) pair in `PossibleMoves`. */
  function MoveIndex(mode: Mode, direction: Direction): (k: nat)
    ensures k < |PossibleMoves| && PossibleMoves[k] == (mode, direction)
  {
    match (mode, direction)
    case (ByCol, Start) => 0
    case (ByCol, End) => 1
    case (ByRow, Start) => 2
    case (ByRow, End) => 3
  }

  // ---------------------------------------------------------------- ids do not matter

  /** The ids given to the padding cells never influence a value: two runs of the same
      move compare equal whatever ids they draw. */
  lemma MoveValuesIgnoreIds(t: Table, mode: Mode, direction: Direction, pad1: seq<seq<Id>>, pad2: seq<seq<Id>>)
    requires IsSquare(t) && PadFits(pad1, |t|) && PadFits(pad2, |t|)
    ensures CompareTables(Moved(t, mode, direction, pad1), Moved(t, mode, direction, pad2))
  {
    var m1 := Moved(t, mode, direction, pad1);
    var m2 := Moved(t, mode, direction, pad2);
    forall r | 0 <= r < |t|
      ensures CompareRows(m1[r], m2[r])
    {
      forall c | 0 <= c < |t|
        ensures CompareCells(m1[r][c], m2[r][c])
      {
        var i: nat, k: nat := if mode == ByRow then r else c, if mode == ByRow then c else r;
        MovedLineValues(t, mode, direction, pad1, i);
        MovedLineValues(t, mode, direction, pad2, i);
        assert RowValues(LineOf(m1, mode, i))[k] == RowValues(LineOf(m2, mode, i))[k];
      }
    }
  }

  /** Whether a table is lost does not depend on the ids the four trial moves draw. */
  lemma IsLostIgnoresIds(t: Table, pad1: seq<seq<Id>>, pad2: seq<seq<Id>>)
    requires IsSquare(t) && PadFits(pad1, |t|) && PadFits(pad2, |t|)
    ensures IsLost(t, pad1) <==> IsLost(t, pad2)
  {
    forall k | 0 <= k < |PossibleMoves|
      ensures CompareTables(t, Moved(t, PossibleMoves[k].0, PossibleMoves[k].1, pad1)) <==>
              CompareTables(t, Moved(t, PossibleMoves[k].0, PossibleMoves[k].1, pad2))
    {
      var m1 := Moved(t, PossibleMoves[k].0, PossibleMoves[k].1, pad1);
      var m2 := Moved(t, PossibleMoves[k].0, PossibleMoves[k].1, pad2);
      MoveValuesIgnoreIds(t, PossibleMoves[k].0, PossibleMoves[k].1, pad1, pad2);
      CompareTablesEquivalence(t, m1, m2);
      CompareTablesEquivalence(m2, m1, t);
      CompareTablesEquivalence(t, m2, m1);
    }
  }

  // ---------------------------------------------------------------- loss and the player's actions

  /** A table is lost exactly when none of the four player actions changes it. */
  lemma IsLostIffNoActionChanges(t: Table, pad: seq<seq<Id>>)
    requires IsSquare(t) && PadFits(pad, |t|)
    ensures IsLost(t, pad) <==>
      forall a :: CompareTables(t, Moved(t, ModeOf(a), DirectionOf(a), pad))
  {
    if IsLost(t, pad) {
      forall a
        ensures CompareTables(t, Moved(t, ModeOf(a), DirectionOf(a), pad))
      {
        var k := MoveIndex(ModeOf(a), DirectionOf(a));
      }
    }
    if forall a :: CompareTables(t, Moved(t, ModeOf(a), DirectionOf(a), pad)) {
      forall k | 0 <= k < |PossibleMoves|
        ensures CompareTables(t, Moved(t, PossibleMoves[k].0, PossibleMoves[k].1, pad))
      {
        ActionsAreTheMoves(PossibleMoves[k].0, PossibleMoves[k].1);
        var a :| ModeOf(a) == PossibleMoves[k].0 && DirectionOf(a) == PossibleMoves[k].1;
        assert CompareTables(t, Moved(t, ModeOf(a), DirectionOf(a), pad));
      }
    }
  }

  /** On a lost table `updateTable` changes nothing, whichever move is played and whatever
      ids it draws. */
  lemma LostGameIsStuck(before: Snapshot, mode: Mode, direction: Direction, pad: seq<seq<Id>>,
                        lossPad: seq<seq<Id>>, after: Snapshot)
    requires IsSquare(before.table) && PadFits(pad, |before.table|) && PadFits(lossPad, |before.table|)
    requires IsLost(before.table, lossPad)
    requires Updated(before, mode, direction, pad, after)
    ensures after == before
  {
    IsLostIgnoresIds(before.table, lossPad, pad);
    var k := MoveIndex(mode, direction);
    assert CompareTables(before.table, Moved(before.table, mode, direction, pad));
  }

  // ---------------------------------------------------------------- the win rule

  /** A board of non-negative values that shows 2048 scores at least 2048. */
  lemma WinScore(t: Table)
    requires NonNegative(t) && IsWin(t)
    ensures Score(t) >= WinningValue
  {
    var r, c :| 0 <= r < |t| && 0 <= c < |t[r]| && t[r][c].value == WinningValue;
    ScoreAtLeastCell(t, r, c);
  }

  // ---------------------------------------------------------------- lines

  /** A move changes nothing exactly when it changes the values of no line. */
  lemma MoveUnchangedIffLines(t: Table, mode: Mode, direction: Direction, pad: seq<seq<Id>>)
    requires IsSquare(t) && PadFits(pad, |t|)
    ensures CompareTables(t, Moved(t, mode, direction, pad)) <==>
      forall i :: 0 <= i < |t| ==>
        RowValues(NewLine(t, mode, direction, pad, i)) == RowValues(LineOf(t, mode, i))
  {
    var moved := Moved(t, mode, direction, pad);
    if CompareTables(t, moved) {
      forall i | 0 <= i < |t|
        ensures RowValues(NewLine(t, mode, direction, pad, i)) == RowValues(LineOf(t, mode, i))
      {
        forall k | 0 <= k < |t|
          ensures NewLine(t, mode, direction, pad, i)[k].value == LineOf(t, mode, i)[k].value
        {
          var r, c := if mode == ByRow then i else k, if mode == ByRow then k else i;
          assert CompareRows(t[r], moved[r]);
          MovedLine(t, mode, direction, pad, i, k);
        }
      }
    }
    if forall i :: 0 <= i < |t| ==>
        RowValues(NewLine(t, mode, direction, pad, i)) == RowValues(LineOf(t, mode, i)) {
      forall r | 0 <= r < |t|
        ensures CompareRows(t[r], moved[r])
      {
        forall c | 0 <= c < |t|
          ensures CompareCells(t[r][c], moved[r][c])
        {
          var i: nat, k: nat := if mode == ByRow then r else c, if mode == ByRow then c else r;
          MovedLine(t, mode, direction, pad, i, k);
          assert RowValues(NewLine(t, mode, direction, pad, i))[k] == RowValues(LineOf(t, mode, i))[k];
        }
      }
    }
  }

  /** The cells `sum` produces from the non-empty cells are tiles. */
  lemma SummedPositive(line: Row, direction: Direction)
    ensures PositiveLine(Summed(Nonzero(line), direction))
  {
    var nz := Nonzero(line);
    if direction == End {
      ReversePositive(nz);
      MergePositive(Reverse(nz));
      ReversePositive(Merge(Reverse(nz)));
    } else {
      MergePositive(nz);
    }
  }

  /** A line with an empty cell and a tile changes when slid towards the empty cell's
      side: to 'start' when the empty cell comes before the tile, to 'end' otherwise. */
  lemma GapAndTileSlide(line: Row, ids: seq<Id>, z: nat, p: nat)
    requires |ids| >= |line| && NonNegativeLine(line)
    requires z < |line| && p < |line| && line[z].value == 0 && line[p].value != 0
    ensures RowValues(SlideLine(line, if z < p then Start else End, ids)) != RowValues(line)
  {
    var d := if z < p then Start else End;
    var summed := Summed(Nonzero(line), d);
    var m := |line| - |summed|;
    SlideLineValues(line, d, ids);
    SummedPositive(line, d);
    var vals := RowValues(SlideLine(line, d, ids));
    if d == Start {
      if z < |summed| {
        assert vals[z] != RowValues(line)[z];
      } else {
        assert vals[p] != RowValues(line)[p];
      }
    } else {
      if p < m {
        assert vals[p] != RowValues(line)[p];
      } else {
        assert vals[z] != RowValues(line)[z];
      }
    }
  }

  lemma {:induction false} NonzeroOfPositive(line: Row)
    requires PositiveLine(line)
    ensures Nonzero(line) == line
  {
    if line != [] {
      NonzeroOfPositive(line[1..]);
    }
  }

  lemma {:induction false} NonzeroOfEmpty(line: Row)
    requires forall k :: 0 <= k < |line| ==> line[k].value == 0
    ensures Nonzero(line) == []
  {
    if line != [] {
      NonzeroOfEmpty(line[1..]);
    }
  }

  /** Read backwards, a line has equal neighbours exactly when it has them forwards. */
  lemma NoEqualNeighboursReverse(line: Row)
    ensures NoEqualNeighbours(Reverse(line)) <==> NoEqualNeighbours(line)
  {
    var n := |line|;
    if NoEqualNeighbours(line) {
      forall k | 0 <= k < n - 1
        ensures !CompareCells(Reverse(line)[k], Reverse(line)[k + 1])
      {
        assert !CompareCells(line[n - 2 - k], line[n - 1 - k]);
      }
    }
    if NoEqualNeighbours(Reverse(line)) {
      forall k | 0 <= k < n - 1
        ensures !CompareCells(line[k], line[k + 1])
      {
        assert !CompareCells(Reverse(line)[n - 2 - k], Reverse(line)[n - 1 - k]);
      }
    }
  }

  /** A line full of tiles stays as it is under a slide exactly when no two neighbours are
      equal, in either direction. */
  lemma FullLineSettledIff(line: Row, direction: Direction, ids: seq<Id>)
    requires |ids| >= |line| && PositiveLine(line)
    ensures RowValues(SlideLine(line, direction, ids)) == RowValues(line) <==> NoEqualNeighbours(line)
  {
    NonzeroOfPositive(line);
    var ws := if direction == End then Reverse(line) else line;
    MergeKeepsLengthIff(ws);
    NoEqualNeighboursReverse(line);
    if NoEqualNeighbours(line) {
      SlideUnpadded(line, direction, ids);
    } else {
      SlidePadded(line, direction, ids);
      var far := if direction == End then 0 else |line| - 1;
      assert RowValues(SlideLine(line, direction, ids))[far] != RowValues(line)[far];
    }
  }

  /** The tiles of the line are pressed against its target edge: no empty cell comes
      before a tile ('start'), or after one ('end'). */
  predicate Packed(line: Row, direction: Direction) {
    forall i, j :: 0 <= i < j < |line| ==>
      if direction == Start then (line[i].value == 0 ==> line[j].value == 0)
      else (line[j].value == 0 ==> line[i].value == 0)
  }

  /** A line packed towards 'start' is its tiles followed by empty cells. */
  lemma {:induction false} PackedStartSplit(line: Row)
    requires NonNegativeLine(line) && Packed(line, Start)
    ensures Nonzero(line) == line[..|Nonzero(line)|]
    ensures forall k :: |Nonzero(line)| <= k < |line| ==> line[k].value == 0
  {
    if line != [] {
      if line[0].value > 0 {
        var tail := line[1..];
        assert forall i, j :: 0 <= i < j < |tail| ==> tail[i] == line[i + 1] && tail[j] == line[j + 1];
        PackedStartSplit(tail);
        assert Nonzero(line) == [line[0]] + Nonzero(tail);
      } else {
        assert forall k :: 0 < k < |line| ==> line[k].value == 0;
        NonzeroOfEmpty(line);
      }
    }
  }

  /** The values of a line packed at the start: its tiles, then zeros. */
  lemma PackedStartValues(line: Row)
    requires NonNegativeLine(line) && Packed(line, Start)
    ensures RowValues(line) == RowValues(Nonzero(line)) + Zeros(|line| - |Nonzero(line)|)
  {
    PackedStartSplit(line);
  }

  /** A line whose values are positive ones followed by zeros has exactly those positive
      values as tiles. */
  lemma {:induction false} NonzeroOfPositiveThenZeros(line: Row, ps: seq<int>)
    requires |ps| <= |line| && forall k :: 0 <= k < |ps| ==> ps[k] > 0
    requires RowValues(line) == ps + Zeros(|line| - |ps|)
    ensures |Nonzero(line)| == |ps|
  {
    assert forall k :: 0 <= k < |line| ==> line[k].value == RowValues(line)[k];
    if ps == [] {
      NonzeroOfEmpty(line);
    } else {
      var tail := line[1..];
      assert RowValues(tail) == ps[1..] + Zeros(|tail| - |ps[1..]|);
      NonzeroOfPositiveThenZeros(tail, ps[1..]);
    }
  }

  /** A line whose values are positive ones followed by zeros is packed at the start, and
      its tiles are exactly those positive values. */
  lemma PositiveThenZeros(line: Row, ps: seq<int>)
    requires |ps| <= |line| && forall k :: 0 <= k < |ps| ==> ps[k] > 0
    requires RowValues(line) == ps + Zeros(|line| - |ps|)
    ensures Packed(line, Start) && |Nonzero(line)| == |ps|
  {
    assert forall k :: 0 <= k < |line| ==> line[k].value == RowValues(line)[k];
    NonzeroOfPositiveThenZeros(line, ps);
  }

  /** A line packed at the start without equal neighbouring tiles keeps its values. */
  lemma SettledStartKept(line: Row, ids: seq<Id>)
    requires |ids| >= |line| && NonNegativeLine(line)
    requires Packed(line, Start) && NoEqualNeighbours(Nonzero(line))
    ensures RowValues(SlideLine(line, Start, ids)) == RowValues(line)
  {
    var nz := Nonzero(line);
    SlideLineValues(line, Start, ids);
    PackedStartValues(line);
    MergeNothing(nz);
    AllKeptValues(nz);
  }

  /** A line whose values are its summed tiles followed by zeros is packed at the start,
      and its tiles have no equal neighbours. */
  lemma SummedThenZerosSettled(line: Row)
    requires RowValues(line) == RowValues(Merge(Nonzero(line))) + Zeros(|line| - |Merge(Nonzero(line))|)
    ensures Packed(line, Start) && NoEqualNeighbours(Nonzero(line))
  {
    var nz := Nonzero(line);
    MergePositive(nz);
    PositiveThenZeros(line, RowValues(Merge(nz)));
    MergeKeepsLengthIff(nz);
  }

  /** The values of a line slid to 'start': its merged tiles, then zeros. */
  lemma SlideStartValues(line: Row, ids: seq<Id>)
    requires |ids| >= |line|
    ensures RowValues(SlideLine(line, Start, ids)) ==
      RowValues(Merge(Nonzero(line))) + Zeros(|line| - |Merge(Nonzero(line))|)
  {
    SlideLineValues(line, Start, ids);
    assert Summed(Nonzero(line), Start) == Merge(Nonzero(line));
  }

  /** A line whose values a slide to 'start' keeps is packed at the start, and its tiles
      have no equal neighbours. */
  lemma KeptStartSettled(line: Row, ids: seq<Id>)
    requires |ids| >= |line|
    requires RowValues(SlideLine(line, Start, ids)) == RowValues(line)
    ensures Packed(line, Start) && NoEqualNeighbours(Nonzero(line))
  {
    SlideStartValues(line, ids);
    assert RowValues(line) == RowValues(Merge(Nonzero(line))) + Zeros(|line| - |Merge(Nonzero(line))|);
    SummedThenZerosSettled(line);
  }

  /** Sliding towards 'start' leaves a line's values as they are exactly when its tiles
      are already packed at the start and no two neighbouring tiles are equal. */
  lemma LineSettledStart(line: Row, ids: seq<Id>)
    requires |ids| >= |line| && NonNegativeLine(line)
    ensures RowValues(SlideLine(line, Start, ids)) == RowValues(line) <==>
      Packed(line, Start) && NoEqualNeighbours(Nonzero(line))
  {
    if Packed(line, Start) && NoEqualNeighbours(Nonzero(line)) {
      SettledStartKept(line, ids);
    }
    if RowValues(SlideLine(line, Start, ids)) == RowValues(line) {
      KeptStartSettled(line, ids);
    }
  }

  /** Packed towards 'end' is packed towards 'start' when read backwards. */
  lemma PackedReverse(line: Row)
    ensures Packed(line, End) <==> Packed(Reverse(line), Start)
  {
    var n := |line|;
    var rl := Reverse(line);
    if Packed(line, End) {
      forall i, j | 0 <= i < j < n && rl[i].value == 0
        ensures rl[j].value == 0
      {
        assert rl[i] == line[n - 1 - i] && rl[j] == line[n - 1 - j];
      }
    }
    if Packed(rl, Start) {
      forall i, j | 0 <= i < j < n && line[j].value == 0
        ensures line[i].value == 0
      {
        assert line[j] == rl[n - 1 - j] && line[i] == rl[n - 1 - i];
      }
    }
  }

  /** A slide leaves a line's values as they are exactly when nothing can slide and nothing
      can merge: the tiles are packed against the target edge and no two neighbouring tiles
      are equal. */
  lemma LineSettledIff(line: Row, direction: Direction, ids: seq<Id>)
    requires |ids| >= |line| && NonNegativeLine(line)
    ensures RowValues(SlideLine(line, direction, ids)) == RowValues(line) <==>
      Packed(line, direction) && NoEqualNeighbours(Nonzero(line))
  {
    if direction == Start {
      LineSettledStart(line, ids);
    } else {
      var rl := Reverse(line);
      assert NonNegativeLine(rl);
      LineSettledStart(rl, ids);
      SlideLineEndMirrorsStart(line, ids);
      var slid := SlideLine(rl, Start, ids);
      RowValuesReverse(slid);
      RowValuesReverse(rl);
      ReverseReverse(line);
      ReverseReverse(RowValues(slid));
      ReverseReverse(RowValues(rl));
      PackedReverse(line);
      NonzeroReverse(line);
      NoEqualNeighboursReverse(Nonzero(line));
    }
  }

  /** A move compares equal to its input exactly when, in every line of its mode, nothing
      can slide towards the target edge and no two neighbouring tiles are equal. */
  lemma MoveSettledIff(t: Table, mode: Mode, direction: Direction, pad: seq<seq<Id>>)
    requires IsSquare(t) && PadFits(pad, |t|) && NonNegative(t)
    ensures CompareTables(t, Moved(t, mode, direction, pad)) <==>
      forall i :: 0 <= i < |t| ==>
        Packed(LineOf(t, mode, i), direction) && NoEqualNeighbours(Nonzero(LineOf(t, mode, i)))
  {
    forall i | 0 <= i < |t|
      ensures RowValues(NewLine(t, mode, direction, pad, i)) == RowValues(LineOf(t, mode, i)) <==>
              Packed(LineOf(t, mode, i), direction) && NoEqualNeighbours(Nonzero(LineOf(t, mode, i)))
    {
      var line := LineOf(t, mode, i);
      assert NonNegativeLine(line) by {
        forall k | 0 <= k < |line|
          ensures line[k].value >= 0
        {
          var r, c := if mode == ByRow then i else k, if mode == ByRow then k else i;
          assert line[k] == t[r][c];
        }
      }
      LineSettledIff(line, direction, pad[i]);
    }
    MoveUnchangedIffLines(t, mode, direction, pad);
  }

  // ---------------------------------------------------------------- what a lost board looks like

  /** A table with an empty cell and a tile is not lost. */
  lemma GapAndTileNotLost(t: Table, pad: seq<seq<Id>>)
    requires IsSquare(t) && PadFits(pad, |t|) && NonNegative(t)
    requires HasEmptyCell(t) && HasTile(t)
    ensures !IsLost(t, pad)
  {
    var r0, c0 :| 0 <= r0 < |t| && 0 <= c0 < |t[r0]| && t[r0][c0].value == 0;
    var r1, c1 :| 0 <= r1 < |t| && 0 <= c1 < |t[r1]| && t[r1][c1].value != 0;
    var mode, i, z, p;
    if t[r0][c1].value != 0 {
      mode, i, z, p := ByRow, r0, c0, c1;
    } else {
      mode, i, z, p := ByCol, c1, r0, r1;
    }
    var line := LineOf(t, mode, i);
    assert line[z].value == 0 && line[p].value != 0;
    assert NonNegativeLine(line);
    var d := if z < p then Start else End;
    GapAndTileSlide(line, pad[i], z, p);
    MoveUnchangedIffLines(t, mode, d, pad);
    assert NewLine(t, mode, d, pad, i) == SlideLine(line, d, pad[i]);
    var k := MoveIndex(mode, d);
  }

  /** The empty table is lost: no move changes it. */
  lemma EmptyTableIsLost(t: Table, pad: seq<seq<Id>>)
    requires IsSquare(t) && PadFits(pad, |t|) && !HasTile(t)
    ensures IsLost(t, pad)
  {
    forall k | 0 <= k < |PossibleMoves|
      ensures CompareTables(t, Moved(t, PossibleMoves[k].0, PossibleMoves[k].1, pad))
    {
      var (mode, d) := PossibleMoves[k];
      forall i | 0 <= i < |t|
        ensures RowValues(NewLine(t, mode, d, pad, i)) == RowValues(LineOf(t, mode, i))
      {
        var line := LineOf(t, mode, i);
        NonzeroOfEmpty(line);
        assert Summed(Nonzero(line), d) == [];
        SlideLineValues(line, d, pad[i]);
        assert RowValues(line) == Zeros(|t|);
      }
      MoveUnchangedIffLines(t, mode, d, pad);
    }
  }

  /** No row (mode 'row') or no column (mode 'col') has two equal neighbours. */
  predicate NoEqualNeighboursIn(t: Table, mode: Mode)
    requires IsSquare(t)
  {
    forall i :: 0 <= i < |t| ==> NoEqualNeighbours(LineOf(t, mode, i))
  }

  /** On a full table of tiles a move changes nothing exactly when no line in its mode has
      two equal neighbours. */
  lemma FullMoveUnchangedIff(t: Table, mode: Mode, direction: Direction, pad: seq<seq<Id>>)
    requires IsSquare(t) && PadFits(pad, |t|) && NonNegative(t) && !HasEmptyCell(t)
    ensures CompareTables(t, Moved(t, mode, direction, pad)) <==> NoEqualNeighboursIn(t, mode)
  {
    forall i | 0 <= i < |t|
      ensures RowValues(NewLine(t, mode, direction, pad, i)) == RowValues(LineOf(t, mode, i)) <==>
              NoEqualNeighbours(LineOf(t, mode, i))
    {
      var line := LineOf(t, mode, i);
      assert PositiveLine(line) by {
        forall k | 0 <= k < |line|
          ensures line[k].value > 0
        {
          var r, c := if mode == ByRow then i else k, if mode == ByRow then k else i;
          assert line[k] == t[r][c];
        }
      }
      FullLineSettledIff(line, direction, pad[i]);
    }
    MoveUnchangedIffLines(t, mode, direction, pad);
  }

  /** A full table of tiles is lost exactly when no row and no column has two equal
      neighbours. */
  lemma FullTableLostIff(t: Table, pad: seq<seq<Id>>)
    requires IsSquare(t) && PadFits(pad, |t|) && NonNegative(t) && !HasEmptyCell(t)
    ensures IsLost(t, pad) <==> NoEqualNeighboursIn(t, ByRow) && NoEqualNeighboursIn(t, ByCol)
  {
    if IsLost(t, pad) {
      assert CompareTables(t, Moved(t, PossibleMoves[0].0, PossibleMoves[0].1, pad));
      assert CompareTables(t, Moved(t, PossibleMoves[2].0, PossibleMoves[2].1, pad));
      FullMoveUnchangedIff(t, ByCol, Start, pad);
      FullMoveUnchangedIff(t, ByRow, Start, pad);
    }
    if NoEqualNeighboursIn(t, ByRow) && NoEqualNeighboursIn(t, ByCol) {
      forall k | 0 <= k < |PossibleMoves|
        ensures CompareTables(t, Moved(t, PossibleMoves[k].0, PossibleMoves[k].1, pad))
      {
        FullMoveUnchangedIff(t, PossibleMoves[k].0, PossibleMoves[k].1, pad);
      }
    }
  }

  /** The whole loss rule on a table without negative values: it is lost exactly when it
      is empty, or full with no two equal neighbours in any row or column. */
  lemma LostIff(t: Table, pad: seq<seq<Id>>)
    requires IsSquare(t) && PadFits(pad, |t|) && NonNegative(t)
    ensures IsLost(t, pad) <==>
      !HasTile(t) ||
      (!HasEmptyCell(t) && NoEqualNeighboursIn(t, ByRow) && NoEqualNeighboursIn(t, ByCol))
  {
    if !HasTile(t) {
      EmptyTableIsLost(t, pad);
    } else if HasEmptyCell(t) {
      GapAndTileNotLost(t, pad);
    } else {
      FullTableLostIff(t, pad);
    }
  }
}

/** Properties of one line under `sum` and under the per-line work of `move`
    (src/actions.ts:26-58 and 67-76): conservation of the total, the merge count, the
    greedy pairing that lets every cell take part in at most one merge, the mirror image
    between 'end' and 'start', and when a line is left as it is. */
module MergeFacts {
  import opened GameTypes
  import opened Utils
  import opened Actions

  // ---------------------------------------------------------------- helpers

  /** 1 for a cell that holds a tile, 0 for an empty one. */
  function Occupied(c: Cell): int {
    if c.value > 0 then 1 else 0
  }

  /** `k` zeros. */
  function Zeros(k: nat): (z: seq<int>)
    ensures |z| == k
  {
    seq(k, _ => 0)
  }

  /** Every value of the line is non-negative. */
  predicate NonNegativeLine(line: Row) {
    forall k :: 0 <= k < |line| ==> line[k].value >= 0
  }

  /** Every value of the line is positive. */
  predicate PositiveLine(line: Row) {
    forall k :: 0 <= k < |line| ==> line[k].value > 0
  }

  /** No two neighbours of the line have equal values, so the merge pass merges nothing. */
  predicate NoEqualNeighbours(line: Row) {
    forall k :: 0 <= k < |line| - 1 ==> !CompareCells(line[k], line[k + 1])
  }

  lemma ReverseReverse<T>(s: seq<T>)
    ensures Reverse(Reverse(s)) == s
  {
  }

  lemma ReverseConcat<T>(a: seq<T>, b: seq<T>)
    ensures Reverse(a + b) == Reverse(b) + Reverse(a)
  {
  }

  lemma RowValuesConcat(a: Row, b: Row)
    ensures RowValues(a + b) == RowValues(a) + RowValues(b)
  {
  }

  lemma RowValuesReverse(a: Row)
    ensures RowValues(Reverse(a)) == Reverse(RowValues(a))
  {
  }

  /** A line's total splits over concatenation. */
  lemma {:induction false} LineTotalConcat(a: Row, b: Row, f: Cell -> int)
    ensures LineTotal(a + b, f) == LineTotal(a, f) + LineTotal(b, f)
  {
    if a == [] {
      assert a + b == b;
    } else {
      assert (a + b)[1..] == a[1..] + b;
      LineTotalConcat(a[1..], b, f);
    }
  }

  /** A line's total does not depend on the order of its cells. */
  lemma {:induction false} LineTotalReverse(a: Row, f: Cell -> int)
    ensures LineTotal(Reverse(a), f) == LineTotal(a, f)
  {
    if a != [] {
      assert Reverse(a) == Reverse(a[1..]) + [a[0]];
      LineTotalReverse(a[1..], f);
      LineTotalConcat(Reverse(a[1..]), [a[0]], f);
      assert [a[0]][1..] == [];
    }
  }

  /** A line of the cells `Kept` from `ws`. */
  function AllKept(ws: Row): (r: Row)
    ensures |r| == |ws|
  {
    seq(|ws|, k requires 0 <= k < |ws| => Kept(ws[k]))
  }

  // ---------------------------------------------------------------- filter

  lemma {:induction false} NonzeroConcat(a: Row, b: Row)
    ensures Nonzero(a + b) == Nonzero(a) + Nonzero(b)
  {
    if a == [] {
      assert a + b == b;
    } else {
      assert (a + b)[1..] == a[1..] + b;
      NonzeroConcat(a[1..], b);
    }
  }

  /** Dropping the empty cells commutes with reversing the line. */
  lemma {:induction false} NonzeroReverse(line: Row)
    ensures Nonzero(Reverse(line)) == Reverse(Nonzero(line))
  {
    if line != [] {
      assert Reverse(line) == Reverse(line[1..]) + [line[0]];
      NonzeroReverse(line[1..]);
      NonzeroConcat(Reverse(line[1..]), [line[0]]);
      assert [line[0]][1..] == [];
      if line[0].value > 0 {
        ReverseConcat([line[0]], Nonzero(line[1..]));
      }
    }
  }

  /** The filter keeps every positive cell and drops only cells of value 0 or less:
      on a non-negative line it keeps the total. */
  lemma {:induction false} NonzeroTotal(line: Row)
    requires NonNegativeLine(line)
    ensures LineTotal(Nonzero(line), CellValue) == LineTotal(line, CellValue)
  {
    if line != [] {
      NonzeroTotal(line[1..]);
    }
  }

  /** The filter keeps exactly the occupied cells. */
  lemma {:induction false} NonzeroOccupied(line: Row)
    ensures LineTotal(Nonzero(line), Occupied) == LineTotal(line, Occupied) == |Nonzero(line)|
  {
    if line != [] {
      NonzeroOccupied(line[1..]);
    }
  }

  /** A filter that keeps every cell leaves the line as it is: every cell was positive. */
  lemma {:induction false} NonzeroKeepsAll(line: Row)
    requires |Nonzero(line)| == |line|
    ensures Nonzero(line) == line
  {
    if line != [] {
      if line[0].value <= 0 {
        assert false;
      }
      NonzeroKeepsAll(line[1..]);
    }
  }

  // ---------------------------------------------------------------- the merge pass

  /** A merge replaces two cells of value v by one of value 2v: the total is kept. */
  lemma {:induction false} MergeTotal(ws: Row)
    ensures LineTotal(Merge(ws), CellValue) == LineTotal(ws, CellValue)
    decreases |ws|
  {
    if |ws| >= 2 {
      if CompareCells(ws[0], ws[1]) {
        MergeTotal(ws[2..]);
        assert ws[1..][1..] == ws[2..];
      } else {
        MergeTotal(ws[1..]);
      }
    }
  }

  /** The line gets shorter by exactly the number of cells flagged as merge products. */
  lemma {:induction false} MergeCount(ws: Row)
    ensures |ws| - |Merge(ws)| == LineTotal(Merge(ws), MergeFlag)
    decreases |ws|
  {
    if |ws| >= 2 {
      if CompareCells(ws[0], ws[1]) {
        MergeCount(ws[2..]);
      } else {
        MergeCount(ws[1..]);
      }
    }
  }

  /** Positive cells stay positive. */
  lemma {:induction false} MergePositive(ws: Row)
    requires PositiveLine(ws)
    ensures PositiveLine(Merge(ws))
    decreases |ws|
  {
    if |ws| >= 2 {
      if CompareCells(ws[0], ws[1]) {
        MergePositive(ws[2..]);
      } else {
        MergePositive(ws[1..]);
      }
    }
  }

  /** On a line with no equal neighbours the pass merges nothing: every cell is kept. */
  lemma {:induction false} MergeNothing(ws: Row)
    requires NoEqualNeighbours(ws)
    ensures Merge(ws) == AllKept(ws)
    decreases |ws|
  {
    if |ws| >= 2 {
      MergeNothing(ws[1..]);
    }
  }

  /** The pass keeps the length exactly when no two neighbours are equal. */
  lemma {:induction false} MergeKeepsLengthIff(ws: Row)
    ensures |Merge(ws)| == |ws| <==> NoEqualNeighbours(ws)
    decreases |ws|
  {
    if |ws| >= 2 {
      if CompareCells(ws[0], ws[1]) {
        assert !NoEqualNeighbours(ws);
      } else {
        MergeKeepsLengthIff(ws[1..]);
        if NoEqualNeighbours(ws[1..]) {
          assert NoEqualNeighbours(ws);
        } else {
          var k :| 0 <= k < |ws| - 2 && CompareCells(ws[1..][k], ws[1..][k + 1]);
          assert CompareCells(ws[k + 1], ws[k + 2]);
        }
      }
    }
  }

  /** Every cell of the line holds a tile value. */
  predicate TileLine(line: Row) {
    forall k :: 0 <= k < |line| ==> IsTileValue(line[k].value)
  }

  /** Doubling a tile value gives a tile value. */
  lemma DoubleTile(v: int)
    requires IsTileValue(v)
    ensures IsTileValue(v * 2)
  {
    if v != 0 {
      assert (v * 2) / 2 == v;
    }
  }

  /** Merging equal tiles gives tiles. */
  lemma {:induction false} MergeTiles(ws: Row)
    requires TileLine(ws)
    ensures TileLine(Merge(ws))
    decreases |ws|
  {
    if |ws| >= 2 {
      if CompareCells(ws[0], ws[1]) {
        DoubleTile(ws[0].value);
        MergeTiles(ws[2..]);
      } else {
        MergeTiles(ws[1..]);
      }
    }
  }

  /** The filter keeps cells of the line only. */
  lemma {:induction false} NonzeroSubset(line: Row)
    ensures forall c :: c in Nonzero(line) ==> c in line
  {
    if line != [] {
      NonzeroSubset(line[1..]);
    }
  }

  /** A slid tile line is a tile line. */
  lemma SlideLineTiles(line: Row, direction: Direction, ids: seq<Id>)
    requires |ids| >= |line| && TileLine(line)
    ensures TileLine(SlideLine(line, direction, ids))
  {
    var nz := Nonzero(line);
    NonzeroSubset(line);
    forall k | 0 <= k < |nz|
      ensures IsTileValue(nz[k].value)
    {
      assert nz[k] in nz;
      var j :| 0 <= j < |line| && line[j] == nz[k];
    }
    if direction == End {
      assert TileLine(Reverse(nz));
      MergeTiles(Reverse(nz));
    } else {
      MergeTiles(nz);
    }
    var summed := Summed(nz, direction);
    assert TileLine(summed);
    PaddedValues(summed, |line|, direction, ids);
    var out := SlideLine(line, direction, ids);
    forall k | 0 <= k < |line|
      ensures IsTileValue(out[k].value)
    {
      assert out[k].value == RowValues(out)[k];
    }
  }

  // ---------------------------------------------------------------- greedy pairing

  /** The sum of a sequence of span lengths. */
  function SpanTotal(spans: seq<nat>): nat {
    if spans == [] then 0 else spans[0] + SpanTotal(spans[1..])
  }

  /** Output `cell` is made from the input cells `ws[start .. start + span]`: either one
      cell kept (its right neighbour, if any, has a different value), or two equal
      neighbours merged into one. */
  predicate PairedAt(ws: Row, cell: Cell, start: nat, span: nat) {
    start + span <= |ws| &&
    ((span == 2 && CompareCells(ws[start], ws[start + 1]) && cell == Merged(ws[start], ws[start + 1])) ||
     (span == 1 && cell == Kept(ws[start]) && (start + 1 < |ws| ==> !CompareCells(ws[start], ws[start + 1]))))
  }

  /** `out` is a left-to-right greedy pairing of `ws`: the input is cut into consecutive
      pieces of one or two cells (lengths `spans`), output cell `k` is made from piece `k`,
      and a cell is left alone only when it cannot merge with its right neighbour. Every
      input cell belongs to exactly one piece, so it takes part in at most one merge. */
  predicate IsGreedyPairing(ws: Row, out: Row, spans: seq<nat>) {
    |spans| == |out| && SpanTotal(spans) == |ws| &&
    forall k :: 0 <= k < |out| ==> PairedAt(ws, out[k], SpanTotal(spans[..k]), spans[k])
  }

  /** The pieces the merge pass cuts the line into. */
  function Spans(ws: Row): seq<nat>
    decreases |ws|
  {
    if |ws| == 0 then []
    else if |ws| == 1 then [1]
    else if CompareCells(ws[0], ws[1]) then [2] + Spans(ws[2..])
    else [1] + Spans(ws[1..])
  }

  lemma PairedAtShift(ws: Row, cell: Cell, start: nat, span: nat, d: nat)
    requires d <= |ws|
    ensures PairedAt(ws, cell, d + start, span) <==> PairedAt(ws[d..], cell, start, span)
  {
  }

  lemma SpanTotalCons(s: nat, rest: seq<nat>, k: nat)
    requires 1 <= k <= |rest| + 1
    ensures SpanTotal(([s] + rest)[..k]) == s + SpanTotal(rest[..k - 1])
  {
    assert ([s] + rest)[..k] == [s] + rest[..k - 1];
  }

  /** The pieces after the first one form a greedy pairing of the rest of the line. */
  lemma {:induction false} GreedyPairingTail(ws: Row, out: Row, spans: seq<nat>)
    requires IsGreedyPairing(ws, out, spans) && |out| > 0
    ensures spans[0] <= |ws| && IsGreedyPairing(ws[spans[0]..], out[1..], spans[1..])
  {
    assert spans[..0] == [];
    assert PairedAt(ws, out[0], 0, spans[0]);
    assert spans == [spans[0]] + spans[1..];
    forall k | 0 <= k < |out| - 1
      ensures PairedAt(ws[spans[0]..], out[1..][k], SpanTotal(spans[1..][..k]), spans[1..][k])
    {
      SpanTotalCons(spans[0], spans[1..], k + 1);
      assert PairedAt(ws, out[k + 1], SpanTotal(spans[..k + 1]), spans[k + 1]);
      PairedAtShift(ws, out[k + 1], SpanTotal(spans[1..][..k]), spans[k + 1], spans[0]);
    }
  }

  /** Prefixing one piece to a greedy pairing of the rest gives a greedy pairing. */
  lemma {:induction false} GreedyPairingCons(ws: Row, cell: Cell, span: nat, out: Row, spans: seq<nat>)
    requires span <= |ws| && PairedAt(ws, cell, 0, span)
    requires IsGreedyPairing(ws[span..], out, spans)
    ensures IsGreedyPairing(ws, [cell] + out, [span] + spans)
  {
    var out', spans' := [cell] + out, [span] + spans;
    assert spans'[1..] == spans;
    forall k | 0 <= k < |out'|
      ensures PairedAt(ws, out'[k], SpanTotal(spans'[..k]), spans'[k])
    {
      if k == 0 {
        assert spans'[..0] == [];
      } else {
        SpanTotalCons(span, spans, k);
        PairedAtShift(ws, out[k - 1], SpanTotal(spans[..k - 1]), spans[k - 1], span);
      }
    }
  }

  /** The merge pass is a greedy pairing of its input. */
  lemma {:induction false} MergeIsGreedyPairing(ws: Row)
    ensures IsGreedyPairing(ws, Merge(ws), Spans(ws))
    decreases |ws|
  {
    if |ws| == 1 {
      assert Spans(ws)[..0] == [];
    } else if |ws| >= 2 {
      if CompareCells(ws[0], ws[1]) {
        MergeIsGreedyPairing(ws[2..]);
        GreedyPairingCons(ws, Merged(ws[0], ws[1]), 2, Merge(ws[2..]), Spans(ws[2..]));
      } else {
        MergeIsGreedyPairing(ws[1..]);
        GreedyPairingCons(ws, Kept(ws[0]), 1, Merge(ws[1..]), Spans(ws[1..]));
      }
    }
  }

  /** A greedy pairing is unique: whatever pieces and output satisfy it are those of the
      merge pass. So the pass leaves no mergeable pair behind and merges no cell twice. */
  lemma {:induction false} GreedyPairingIsMerge(ws: Row, out: Row, spans: seq<nat>)
    requires IsGreedyPairing(ws, out, spans)
    ensures out == Merge(ws) && spans == Spans(ws)
    decreases |ws|
  {
    if out == [] {
      assert spans == [];
    } else {
      GreedyPairingTail(ws, out, spans);
      assert spans[..0] == [];
      assert PairedAt(ws, out[0], 0, spans[0]);
      GreedyPairingIsMerge(ws[spans[0]..], out[1..], spans[1..]);
      assert out == [out[0]] + out[1..];
      assert spans == [spans[0]] + spans[1..];
      if |ws| >= 2 && spans[0] == 1 {
        assert ws[1..] == ws[spans[0]..];
      }
    }
  }

  // ---------------------------------------------------------------- one line of `move`

  /** The zero cells `move` adds have value 0 and no merge flag. */
  lemma PaddingValues(ids: seq<Id>, k: nat)
    requires k <= |ids|
    ensures RowValues(Padding(ids, k)) == Zeros(k)
    ensures RowValues(Reverse(Padding(ids, k))) == Zeros(k)
  {
  }

  /** The values of a padded line: the merged values followed ('start') or preceded
      ('end') by zeros. */
  lemma PaddedValues(merged: Row, n: nat, direction: Direction, ids: seq<Id>)
    requires |merged| <= n && n - |merged| <= |ids|
    ensures RowValues(Padded(merged, n, direction, ids)) ==
      if direction == Start then RowValues(merged) + Zeros(n - |merged|)
      else Zeros(n - |merged|) + RowValues(merged)
  {
    var missing := Padding(ids, n - |merged|);
    PaddingValues(ids, n - |merged|);
    if direction == Start {
      RowValuesConcat(merged, missing);
    } else {
      RowValuesConcat(Reverse(missing), merged);
    }
  }

  /** The values of a slid line: the summed non-empty cells, followed ('start') or
      preceded ('end') by as many zeros as the line lost. */
  lemma SlideLineValues(line: Row, direction: Direction, ids: seq<Id>)
    requires |ids| >= |line|
    ensures var summed := Summed(Nonzero(line), direction);
      RowValues(SlideLine(line, direction, ids)) ==
      if direction == Start then RowValues(summed) + Zeros(|line| - |summed|)
      else Zeros(|line| - |summed|) + RowValues(summed)
  {
    var summed := Summed(Nonzero(line), direction);
    assert SlideLine(line, direction, ids) == Padded(summed, |line|, direction, ids);
    PaddedValues(summed, |line|, direction, ids);
  }

  /** Padding at the front of a reversed line is padding at the back, reversed. */
  lemma PaddedMirror(merged: Row, n: nat, ids: seq<Id>)
    requires |merged| <= n && n - |merged| <= |ids|
    ensures Padded(Reverse(merged), n, End, ids) == Reverse(Padded(merged, n, Start, ids))
  {
    ReverseConcat(merged, Padding(ids, n - |merged|));
  }

  /** 'end' is the mirror image of 'start': sliding a line to its end is sliding the
      reversed line to its start and reversing the result, padding ids included. */
  lemma SlideLineEndMirrorsStart(line: Row, ids: seq<Id>)
    requires |ids| >= |line|
    ensures SlideLine(line, End, ids) == Reverse(SlideLine(Reverse(line), Start, ids))
  {
    NonzeroReverse(line);
    PaddedMirror(Merge(Reverse(Nonzero(line))), |line|, ids);
  }

  /** A line on which `f` is 0 everywhere totals 0. */
  lemma {:induction false} LineTotalZero(line: Row, f: Cell -> int)
    requires forall k :: 0 <= k < |line| ==> f(line[k]) == 0
    ensures LineTotal(line, f) == 0
  {
    if line != [] {
      assert forall k :: 0 <= k < |line| - 1 ==> line[1..][k] == line[k + 1];
      LineTotalZero(line[1..], f);
    }
  }

  /** `f` is 0 on every zero cell `generateCell(0)` makes from these ids. */
  predicate ZeroOnPadding(f: Cell -> int, ids: seq<Id>) {
    forall j :: 0 <= j < |ids| ==> f(GenerateCell(ids[j], 0, NoParams)) == 0
  }

  /** Padding a line adds nothing to its total, for any `f` that is 0 on the zero cells
      `move` adds. */
  lemma PaddedTotal(merged: Row, n: nat, direction: Direction, ids: seq<Id>, f: Cell -> int)
    requires |merged| <= n && n - |merged| <= |ids| && ZeroOnPadding(f, ids)
    ensures LineTotal(Padded(merged, n, direction, ids), f) == LineTotal(merged, f)
  {
    var missing := Padding(ids, n - |merged|);
    forall k | 0 <= k < |missing|
      ensures f(missing[k]) == 0
    {
      assert missing[k] == GenerateCell(ids[k], 0, NoParams);
    }
    LineTotalZero(missing, f);
    if direction == End {
      LineTotalReverse(missing, f);
      LineTotalConcat(Reverse(missing), merged, f);
    } else {
      LineTotalConcat(merged, missing, f);
    }
  }

  /** The total of a slid line is the total of its summed part. */
  lemma SlideTotalSplit(line: Row, direction: Direction, ids: seq<Id>, f: Cell -> int)
    requires |ids| >= |line| && ZeroOnPadding(f, ids)
    ensures LineTotal(SlideLine(line, direction, ids), f) == LineTotal(Summed(Nonzero(line), direction), f)
  {
    PaddedTotal(Summed(Nonzero(line), direction), |line|, direction, ids, f);
  }

  lemma PaddingCounts(ids: seq<Id>)
    ensures ZeroOnPadding(CellValue, ids)
    ensures ZeroOnPadding(Occupied, ids)
    ensures ZeroOnPadding(MergeFlag, ids)
  {
  }

  /** On a non-negative line the slide keeps the total. */
  lemma SlideLineTotal(line: Row, direction: Direction, ids: seq<Id>)
    requires |ids| >= |line| && NonNegativeLine(line)
    ensures LineTotal(SlideLine(line, direction, ids), CellValue) == LineTotal(line, CellValue)
  {
    var nz := Nonzero(line);
    NonzeroTotal(line);
    if direction == End {
      LineTotalReverse(nz, CellValue);
      MergeTotal(Reverse(nz));
      LineTotalReverse(Merge(Reverse(nz)), CellValue);
    } else {
      MergeTotal(nz);
    }
    PaddingCounts(ids);
    SlideTotalSplit(line, direction, ids, CellValue);
  }

  lemma {:induction false} PositiveOccupied(line: Row)
    requires PositiveLine(line)
    ensures LineTotal(line, Occupied) == |line|
  {
    if line != [] {
      PositiveOccupied(line[1..]);
    }
  }

  /** The merge pass over positive cells: the tiles it leaves are the tiles it was given,
      less the merges made. */
  lemma MergeOccupied(ws: Row)
    requires PositiveLine(ws)
    ensures LineTotal(Merge(ws), Occupied) == |ws| - LineTotal(Merge(ws), MergeFlag)
  {
    MergePositive(ws);
    MergeCount(ws);
    PositiveOccupied(Merge(ws));
  }

  lemma ReversePositive(ws: Row)
    requires PositiveLine(ws)
    ensures PositiveLine(Reverse(ws))
  {
  }

  /** The same for `sum` in either direction. */
  lemma SummedOccupied(ws: Row, direction: Direction)
    requires PositiveLine(ws)
    ensures LineTotal(Summed(ws, direction), Occupied) == |ws| - LineTotal(Summed(ws, direction), MergeFlag)
  {
    if direction == End {
      ReversePositive(ws);
      MergeOccupied(Reverse(ws));
      LineTotalReverse(Merge(Reverse(ws)), Occupied);
      LineTotalReverse(Merge(Reverse(ws)), MergeFlag);
    } else {
      MergeOccupied(ws);
    }
  }

  /** The number of tiles in a slid line is the number before, less the merges made. */
  lemma SlideLineOccupied(line: Row, direction: Direction, ids: seq<Id>)
    requires |ids| >= |line|
    ensures LineTotal(SlideLine(line, direction, ids), Occupied) ==
            LineTotal(line, Occupied) - LineTotal(SlideLine(line, direction, ids), MergeFlag)
  {
    NonzeroOccupied(line);
    SummedOccupied(Nonzero(line), direction);
    PaddingCounts(ids);
    SlideTotalSplit(line, direction, ids, Occupied);
    SlideTotalSplit(line, direction, ids, MergeFlag);
  }

  /** When the slide adds zero cells, the one at the far end of the line is one of them. */
  lemma SlidePadded(line: Row, direction: Direction, ids: seq<Id>)
    requires |ids| >= |line|
    ensures |Summed(Nonzero(line), direction)| < |line| ==>
      SlideLine(line, direction, ids)[if direction == End then 0 else |line| - 1].value == 0
  {
    SlideLineValues(line, direction, ids);
  }

  lemma AllKeptValues(ws: Row)
    ensures RowValues(AllKept(ws)) == RowValues(ws)
  {
  }

  /** A slide that adds no zero cell leaves the values as they were. */
  lemma SlideUnpadded(line: Row, direction: Direction, ids: seq<Id>)
    requires |ids| >= |line| && |Summed(Nonzero(line), direction)| == |line|
    ensures RowValues(SlideLine(line, direction, ids)) == RowValues(line)
  {
    var nz := Nonzero(line);
    NonzeroKeepsAll(line);
    assert SlideLine(line, direction, ids) == Summed(nz, direction);
    if direction == End {
      var ws := Reverse(line);
      MergeKeepsLengthIff(ws);
      MergeNothing(ws);
      AllKeptValues(ws);
      RowValuesReverse(AllKept(ws));
      RowValuesReverse(line);
      ReverseReverse(RowValues(line));
    } else {
      MergeKeepsLengthIff(line);
      MergeNothing(line);
      AllKeptValues(line);
    }
  }

  /** A slid line without an empty cell has the values of the line before: nothing slid
      and nothing merged. */
  lemma SlideLineFull(line: Row, direction: Direction, ids: seq<Id>)
    requires |ids| >= |line|
    requires forall k :: 0 <= k < |line| ==> SlideLine(line, direction, ids)[k].value != 0
    ensures RowValues(SlideLine(line, direction, ids)) == RowValues(line)
  {
    if line != [] {
      SlidePadded(line, direction, ids);
      assert SlideLine(line, direction, ids)[if direction == End then 0 else |line| - 1].value != 0;
      SlideUnpadded(line, direction, ids);
    }
  }
}

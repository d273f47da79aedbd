/** The values the 2048 engine works on: cells, rows and tables (src/@types/game.d.ts),
    the two move parameters, and the small wrappers used for optional fields and errors. */
module GameTypes {

  /** An optional value; `None` stands for JavaScript's `undefined`. */
  datatype Option<T> = None | Some(value: T) {
    /** The carried value, or `default` when there is none. */
    function GetOr(default: T): T {
      match this
      case Some(v) => v
      case None => default
    }
  }

  /** The two failures of the engine: asking for a tile on a full table,
      and asking for a table of size zero. */
  datatype Error = EmptyGridFull | InvalidDimension

  datatype Result<T> = Ok(value: T) | Err(error: Error)

  /** The identity nanoid gives a cell: an opaque token, only ever compared for equality. */
  type Id = nat

  /** One board position. `value` 0 means empty; `isMerge` is optional in the source
      and is only read by the presentation layer. */
  datatype Cell = Cell(id: Id, value: int, posX: int, posY: int, isMerge: Option<bool>)

  type Row = seq<Cell>

  type Table = seq<Row>

  /** Whether a move slides along rows ('row') or along columns ('col'). */
  datatype Mode = ByRow | ByCol

  /** Which end of each line the tiles are pressed against: index 0 ('start') or the last index ('end'). */
  datatype Direction = Start | End

  /** Every row has as many cells as the table has rows. */
  predicate IsSquare(t: Table) {
    forall r :: 0 <= r < |t| ==> |t[r]| == |t|
  }

  /** Every cell has a non-negative value (the game only ever stores 0 and powers of two). */
  predicate NonNegative(t: Table) {
    forall r, c :: 0 <= r < |t| && 0 <= c < |t[r]| ==> t[r][c].value >= 0
  }

  /** 1, 2, 4, 8, …: the values a tile can reach by doubling. */
  predicate IsPowerOfTwo(v: int)
    decreases v
  {
    v == 1 || (v >= 2 && v % 2 == 0 && IsPowerOfTwo(v / 2))
  }

  /** What a cell of the game holds: 0 for empty, or a power of two from 2 up. */
  predicate IsTileValue(v: int) {
    v == 0 || (v >= 2 && IsPowerOfTwo(v))
  }

  /** Every cell of the table holds a tile value. */
  predicate ValidTiles(t: Table) {
    forall r, c :: 0 <= r < |t| && 0 <= c < |t[r]| ==> IsTileValue(t[r][c].value)
  }

  /** No two distinct positions of the table carry the same id. */
  predicate UniqueIds(t: Table) {
    forall r1, c1, r2, c2 ::
      (0 <= r1 < |t| && 0 <= c1 < |t[r1]| && 0 <= r2 < |t| && 0 <= c2 < |t[r2]| &&
       t[r1][c1].id == t[r2][c2].id) ==> r1 == r2 && c1 == c2
  }
}

/** The geometry of a board: row-major coordinates, flat positions and the
    eight neighbour slots of every cell (index.js, class Board). */
module Grid {
  import opened Tokens

  /** The board's dimensions and the length of a winning line. */
  datatype Dims = Dims(rows: nat, columns: nat, line: nat)
  {
    /** Number of cells of the board, rows * columns. */
    function Size(): nat { Mul(rows, columns) }
  }

  /** The product a * b as the sum of a copies of b. The board's row-major
      arithmetic is written with Mul, RowOf and ColumnOf; MulIsProduct and
      RowColumnOfAreDivMod show that they are the source's *, floor-/ and %. */
  function Mul(a: nat, b: nat): nat
  {
    if a == 0 then 0 else Mul(a - 1, b) + b
  }

  /** Row of position pos on a board of `columns` columns: pos / columns. */
  function RowOf(pos: nat, columns: nat): nat
    requires columns > 0
    decreases pos
  {
    if pos < columns then 0 else RowOf(pos - columns, columns) + 1
  }

  /** Column of position pos on a board of `columns` columns: pos % columns. */
  function ColumnOf(pos: nat, columns: nat): (c: nat)
    requires columns > 0
    ensures c < columns
    decreases pos
  {
    if pos < columns then pos else ColumnOf(pos - columns, columns)
  }

  lemma {:induction false} MulIsProduct(a: nat, b: nat)
    ensures Mul(a, b) == a * b
  {
    if a > 0 {
      MulIsProduct(a - 1, b);
      assert a * b == (a - 1) * b + b;
    }
  }

  /** A board without columns has no cells. */
  lemma {:induction false} MulByZero(a: nat)
    ensures Mul(a, 0) == 0
  {
    if a > 0 {
      MulByZero(a - 1);
    }
  }

  /** Rows before row r+1 hold one row more than rows before row r. */
  lemma {:induction false} MulMonotone(a: nat, a': nat, b: nat)
    requires a <= a'
    ensures Mul(a, b) <= Mul(a', b)
    decreases a'
  {
    if a < a' {
      MulMonotone(a, a' - 1, b);
    }
  }

  /** Splitting a position into row and column and joining them again gives
      the position back. */
  lemma {:induction false} RowMajorJoin(pos: nat, columns: nat)
    requires columns > 0
    ensures Mul(RowOf(pos, columns), columns) + ColumnOf(pos, columns) == pos
    decreases pos
  {
    if pos >= columns {
      RowMajorJoin(pos - columns, columns);
    }
  }

  /** Joining a row and an in-range column and splitting the result gives
      them back. */
  lemma {:induction false} RowMajorSplit(row: nat, column: nat, columns: nat)
    requires column < columns
    ensures RowOf(Mul(row, columns) + column, columns) == row
    ensures ColumnOf(Mul(row, columns) + column, columns) == column
  {
    if row > 0 {
      RowMajorSplit(row - 1, column, columns);
    }
  }

  /** An in-range coordinate has a row-major index below rows * columns. */
  lemma RowMajorBound(rows: nat, columns: nat, r: nat, c: nat)
    requires r < rows && c < columns
    ensures Mul(r, columns) + c < Mul(rows, columns)
  {
    MulMonotone(r + 1, rows, columns);
  }

  /** A position below rows * columns lies in one of the rows. */
  lemma RowOfBound(pos: nat, rows: nat, columns: nat)
    requires columns > 0 && pos < Mul(rows, columns)
    ensures RowOf(pos, columns) < rows
  {
    RowMajorJoin(pos, columns);
    if RowOf(pos, columns) >= rows {
      MulMonotone(rows, RowOf(pos, columns), columns);
    }
  }

  /** RowOf and ColumnOf are the quotient and the remainder of the division
      by the number of columns (positions are never negative, so flooring and
      truncating division agree). */
  lemma RowColumnOfAreDivMod(pos: nat, columns: nat)
    requires columns > 0
    ensures RowOf(pos, columns) == pos / columns && ColumnOf(pos, columns) == pos % columns
  {
    RowMajorJoin(pos, columns);
    MulIsProduct(RowOf(pos, columns), columns);
    DivModUnique(pos, columns, RowOf(pos, columns), ColumnOf(pos, columns));
  }

  /** Absolute value. */
  function Abs(x: int): nat
  {
    if x < 0 then -x else x
  }

  /** Position of the cell at (row, column), or None off the board. */
  function Xy2pos(d: Dims, row: int, column: int): (p: Option<nat>)
    ensures p.Some? <==> 0 <= row < d.rows && 0 <= column < d.columns
    ensures p.Some? ==> p.value < d.Size()
  {
    if row < 0 || row > d.rows - 1 || column < 0 || column > d.columns - 1 then None
    else
      RowMajorBound(d.rows, d.columns, row, column);
      Some(Mul(row, d.columns) + column)
  }

  /** Position of an on-board coordinate. */
  function At(d: Dims, row: nat, column: nat): (p: nat)
    requires row < d.rows && column < d.columns
    ensures p < d.Size() && Xy2pos(d, row, column) == Some(p)
  {
    Xy2pos(d, row, column).value
  }

  /** Coordinates (row, column) of a position, or None outside 0..Size()-1. */
  function Pos2xy(d: Dims, pos: int): (rc: Option<(nat, nat)>)
    ensures rc.Some? <==> 0 <= pos < d.Size()
    ensures rc.Some? ==> rc.value.0 < d.rows && rc.value.1 < d.columns
  {
    if pos < 0 || pos > d.Size() - 1 then None
    else
      MulByZero(d.rows);
      RowOfBound(pos, d.rows, d.columns);
      Some((RowOf(pos, d.columns), ColumnOf(pos, d.columns)))
  }

  /** Coordinates to a position and back give the coordinates again. */
  lemma Xy2posRoundTrip(d: Dims, row: int, column: int)
    requires 0 <= row < d.rows && 0 <= column < d.columns
    ensures Pos2xy(d, Xy2pos(d, row, column).value) == Some((row, column))
  {
    RowMajorSplit(row, column, d.columns);
  }

  /** A position to coordinates and back gives the position again. */
  lemma Pos2xyRoundTrip(d: Dims, pos: int)
    requires 0 <= pos < d.Size()
    ensures Xy2pos(d, Pos2xy(d, pos).value.0, Pos2xy(d, pos).value.1) == Some(pos)
  {
    MulByZero(d.rows);
    RowMajorJoin(pos, d.columns);
  }

  /** xy2pos of an on-board coordinate is the row-major index
      row * columns + column. */
  lemma Xy2posValue(d: Dims, row: int, column: int)
    requires 0 <= row < d.rows && 0 <= column < d.columns
    ensures Xy2pos(d, row, column) == Some(row * d.columns + column)
  {
    MulIsProduct(row, d.columns);
  }

  /** pos2xy of an on-board position is (pos / columns, pos % columns). */
  lemma Pos2xyValue(d: Dims, pos: int)
    requires 0 <= pos < d.Size()
    ensures d.columns > 0 && Pos2xy(d, pos) == Some((pos / d.columns, pos % d.columns))
  {
    MulByZero(d.rows);
    RowColumnOfAreDivMod(pos, d.columns);
  }

  lemma DivModUnique(p: nat, columns: nat, row: nat, column: nat)
    requires column < columns && p == row * columns + column
    ensures p / columns == row && p % columns == column
  {
    var q, m := p / columns, p % columns;
    assert p == q * columns + m && 0 <= m < columns;
    var t := q - row;
    assert t * columns == q * columns - row * columns by {
      MulSub(q, row, columns);
    }
    assert t * columns == column - m;
    MulSign(t, columns);
  }

  lemma MulSub(a: int, b: int, c: int)
    ensures (a - b) * c == a * c - b * c
  {
  }

  lemma MulSign(t: int, c: int)
    requires c > 0
    ensures t >= 1 ==> t * c >= c
    ensures t <= -1 ==> t * c <= -c
  {
    if t >= 1 {
      assert t * c == (t - 1) * c + c;
      assert (t - 1) * c >= 0;
    } else if t <= -1 {
      assert t * c == (t + 1) * c - c;
      assert (t + 1) * c <= 0;
    }
  }

  /** Row offset of neighbour slot k. The slots follow the 3x3 window around
      the cell in scan order (row-1..row+1 outer, column-1..column+1 inner),
      the centre left out. */
  function DRow(k: nat): int
    requires k < 8
  {
    if k < 3 then -1 else if k < 5 then 0 else 1
  }

  /** Column offset of neighbour slot k (see DRow). */
  function DCol(k: nat): int
    requires k < 8
  {
    if k == 0 || k == 3 || k == 5 then -1 else if k == 1 || k == 6 then 0 else 1
  }

  /** The eight offsets are exactly the 3x3 window minus its centre, in scan
      order, and slot 7-k points the opposite way to slot k. */
  lemma SlotOffsets(k: nat, k': nat)
    requires k < 8 && k' < 8
    ensures -1 <= DRow(k) <= 1 && -1 <= DCol(k) <= 1
    ensures (DRow(k), DCol(k)) != (0, 0)
    ensures k < k' ==> DRow(k) < DRow(k') || (DRow(k) == DRow(k') && DCol(k) < DCol(k'))
    ensures DRow(7 - k) == -DRow(k) && DCol(7 - k) == -DCol(k)
  {
  }

  /** The cell at slot k of the cell at pos, or None where that slot falls
      off the board (or pos is not a cell). */
  function Neighbour(d: Dims, pos: int, k: nat): (q: Option<nat>)
    requires k < 8
    ensures q.Some? ==> q.value < d.Size()
  {
    match Pos2xy(d, pos)
    case None => None
    case Some(rc) => Xy2pos(d, rc.0 + DRow(k), rc.1 + DCol(k))
  }

  /** The full slot array of the cell at pos. */
  function Slots(d: Dims, pos: nat): (slots: seq<Option<nat>>)
    requires pos < d.Size()
    ensures |slots| == 8
  {
    seq(8, k requires 0 <= k < 8 => Neighbour(d, pos, k))
  }

  /** A slot is filled exactly when its offset lands on the board. */
  lemma SlotFilledIffOnBoard(d: Dims, pos: nat, k: nat)
    requires pos < d.Size() && k < 8
    ensures var rc := Pos2xy(d, pos).value;
      Neighbour(d, pos, k).Some? <==>
        0 <= rc.0 + DRow(k) < d.rows && 0 <= rc.1 + DCol(k) < d.columns
  {
  }

  /** Neighbour links are symmetric: if slot k of A is B, slot 7-k of B is A. */
  lemma NeighbourSymmetric(d: Dims, a: nat, k: nat)
    requires a < d.Size() && k < 8
    requires Neighbour(d, a, k).Some?
    ensures Neighbour(d, Neighbour(d, a, k).value, 7 - k) == Some(a)
  {
    var rc := Pos2xy(d, a).value;
    var b := Neighbour(d, a, k).value;
    SlotOffsets(k, k);
    Xy2posRoundTrip(d, rc.0 + DRow(k), rc.1 + DCol(k));
    Pos2xyRoundTrip(d, a);
  }

  /** The cell j steps away from pos along slot k, or None once off the
      board. */
  function Step(d: Dims, pos: nat, k: nat, j: nat): (q: Option<nat>)
    requires pos < d.Size() && k < 8
    ensures q.Some? ==> q.value < d.Size()
  {
    var rc := Pos2xy(d, pos).value;
    Xy2pos(d, rc.0 + j * DRow(k), rc.1 + j * DCol(k))
  }

  /** One step along slot k and then j more is j+1 steps from the start. */
  lemma StepShift(d: Dims, pos: nat, k: nat, j: nat)
    requires pos < d.Size() && k < 8
    requires Neighbour(d, pos, k).Some?
    ensures Step(d, Neighbour(d, pos, k).value, k, j) == Step(d, pos, k, j + 1)
  {
    var rc := Pos2xy(d, pos).value;
    Xy2posRoundTrip(d, rc.0 + DRow(k), rc.1 + DCol(k));
    assert (j + 1) * DRow(k) == j * DRow(k) + DRow(k);
    assert (j + 1) * DCol(k) == j * DCol(k) + DCol(k);
  }

  /** The first step along a slot is the slot's neighbour. */
  lemma StepOne(d: Dims, pos: nat, k: nat)
    requires pos < d.Size() && k < 8
    ensures Step(d, pos, k, 1) == Neighbour(d, pos, k)
  {
  }

  /** Number of steps along slot k that stay on the board: it bounds every
      walk in that direction. */
  function Reach(d: Dims, pos: nat, k: nat): nat
    requires pos < d.Size() && k < 8
  {
    var rc := Pos2xy(d, pos).value;
    (if DRow(k) < 0 then rc.0 else if DRow(k) > 0 then d.rows - 1 - rc.0 else 0)
    + (if DCol(k) < 0 then rc.1 else if DCol(k) > 0 then d.columns - 1 - rc.1 else 0)
  }

  /** Moving to a neighbour brings the edge strictly closer. */
  lemma ReachDecreases(d: Dims, pos: nat, k: nat)
    requires pos < d.Size() && k < 8
    requires Neighbour(d, pos, k).Some?
    ensures Reach(d, Neighbour(d, pos, k).value, k) < Reach(d, pos, k)
  {
    var rc := Pos2xy(d, pos).value;
    Xy2posRoundTrip(d, rc.0 + DRow(k), rc.1 + DCol(k));
    SlotOffsets(k, k);
  }
}

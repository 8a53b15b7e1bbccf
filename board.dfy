/** The board (index.js, class Board): rows x columns cells kept in
    row-major order, each with its token and its eight neighbour slots,
    gravity placement in a column, copies, and the per-cell line test and
    heuristic score of class Cell, run on the board's cells in place. */
module Boards {
  import opened Tokens
  import opened Grid
  import opened Cells

  /** Number of empty cells, as the source counts them with a filter. */
  function FreeCount(s: seq<Token>): (n: nat)
    ensures n > 0 <==> Empty in s
    ensures n <= |s|
  {
    if s == [] then 0
    else (if s[0] == Empty then 1 else 0) + FreeCount(s[1..])
  }

  /** FreeCount is the number of occurrences of Empty in the board. */
  lemma {:induction false} FreeCountIsMultiplicity(s: seq<Token>)
    ensures FreeCount(s) == multiset(s)[Empty]
  {
    if s != [] {
      FreeCountIsMultiplicity(s[1..]);
      assert s == [s[0]] + s[1..];
    }
  }

  /** Filling an empty cell with a token leaves one empty cell fewer. */
  lemma {:induction false} FreeCountFill(s: seq<Token>, p: nat, t: Token)
    requires p < |s| && s[p] == Empty && t != Empty
    ensures FreeCount(s[p := t]) == FreeCount(s) - 1
  {
    FreeCountIsMultiplicity(s);
    FreeCountIsMultiplicity(s[p := t]);
    assert multiset(s[p := t]) == multiset(s) - multiset{Empty} + multiset{t};
  }

  /** The lowest empty row of `column` among rows 0..i, scanning upward from
      row i as gravity placement does; None when rows 0..i are all taken. */
  function FreeRowFrom(d: Dims, s: seq<Token>, column: nat, i: int): (r: Option<nat>)
    requires |s| == d.Size() && column < d.columns && -1 <= i < d.rows
    ensures r.None? <==> forall row: nat :: row <= i ==> s[At(d, row, column)] != Empty
    ensures r.Some? ==> r.value <= i && s[At(d, r.value, column)] == Empty
    ensures r.Some? ==> forall row: nat :: r.value < row <= i ==> s[At(d, row, column)] != Empty
    decreases i + 1
  {
    if i < 0 then None
    else if s[At(d, i, column)] != Empty then FreeRowFrom(d, s, column, i - 1)
    else Some(i)
  }

  /** The cell a token dropped into `column` lands on, or None when the
      column is full. */
  function LowestFree(d: Dims, s: seq<Token>, column: nat): (p: Option<nat>)
    requires |s| == d.Size() && column < d.columns
    ensures p.Some? ==> p.value < |s| && s[p.value] == Empty
  {
    match FreeRowFrom(d, s, column, d.rows - 1)
    case None => None
    case Some(r) => Some(At(d, r, column))
  }

  /** Whether a token can still be dropped into `column`. */
  predicate Playable(d: Dims, s: seq<Token>, column: nat)
    requires |s| == d.Size()
  {
    column < d.columns && LowestFree(d, s, column).Some?
  }

  /** LowestFree gives the empty cell of the column with the largest row,
      and None exactly when every cell of the column is taken. */
  lemma LowestFreeIsLowestEmpty(d: Dims, s: seq<Token>, column: nat)
    requires |s| == d.Size() && column < d.columns
    ensures LowestFree(d, s, column).None? <==> forall row: nat :: row < d.rows ==> s[At(d, row, column)] != Empty
    ensures LowestFree(d, s, column).Some? ==>
      exists row: nat :: row < d.rows && LowestFree(d, s, column).value == At(d, row, column)
        && s[At(d, row, column)] == Empty
        && forall below: nat :: row < below < d.rows ==> s[At(d, below, column)] != Empty
  {
    var r := FreeRowFrom(d, s, column, d.rows - 1);
    if r.Some? {
      assert LowestFree(d, s, column).value == At(d, r.value, column);
    }
  }

  /** Some column can take a token exactly when some cell is empty. */
  lemma PlayableIffEmptyCell(d: Dims, s: seq<Token>)
    requires |s| == d.Size()
    ensures (exists column :: 0 <= column < d.columns && Playable(d, s, column)) <==> Empty in s
  {
    if Empty in s {
      var p :| 0 <= p < |s| && s[p] == Empty;
      var rc := Pos2xy(d, p).value;
      Pos2xyRoundTrip(d, p);
      assert At(d, rc.0, rc.1) == p;
      assert Playable(d, s, rc.1);
    }
    if exists column :: 0 <= column < d.columns && Playable(d, s, column) {
      var column :| 0 <= column < d.columns && Playable(d, s, column);
      var r := FreeRowFrom(d, s, column, d.rows - 1);
      assert s[At(d, r.value, column)] == Empty;
    }
  }

  /** Dropping tokens only depends on which cells are empty: two boards with
      the same empty cells scan every column alike. */
  lemma {:induction false} FreeRowFromSameEmptyCells(d: Dims, s: seq<Token>, t: seq<Token>, column: nat, i: int)
    requires |s| == d.Size() && |t| == d.Size() && column < d.columns && -1 <= i < d.rows
    requires forall p :: 0 <= p < |s| ==> (s[p] == Empty <==> t[p] == Empty)
    ensures FreeRowFrom(d, s, column, i) == FreeRowFrom(d, t, column, i)
    decreases i + 1
  {
    if i >= 0 {
      FreeRowFromSameEmptyCells(d, s, t, column, i - 1);
    }
  }

  /** Two boards with the same empty cells have the same free cell in every
      column. */
  lemma LowestFreeSameEmptyCells(d: Dims, s: seq<Token>, t: seq<Token>, column: nat)
    requires |s| == d.Size() && |t| == d.Size() && column < d.columns
    requires forall p :: 0 <= p < |s| ==> (s[p] == Empty <==> t[p] == Empty)
    ensures LowestFree(d, s, column) == LowestFree(d, t, column)
  {
    FreeRowFromSameEmptyCells(d, s, t, column, d.rows - 1);
  }

  class Board {
    const rows: nat
    const columns: nat
    /** Length of a winning line. */
    const line: nat
    /** Token of every cell, row-major. */
    const cells: array<Token>
    /** The eight neighbour slots of every cell, as positions. */
    const neighbours: array<seq<Option<nat>>>

    function Shape(): Dims
    {
      Dims(rows, columns, line)
    }

    /** The board's invariant: one token and one slot array per cell, and
        every slot array is the geometric 3x3 window of its cell. */
    ghost predicate Valid()
      reads this, neighbours
    {
      && line >= 2
      && cells.Length == Shape().Size()
      && neighbours.Length == Shape().Size()
      && forall p :: 0 <= p < neighbours.Length ==> neighbours[p] == Slots(Shape(), p)
    }

    /** A board of empty cells with its neighbour graph built. */
    constructor (rows: nat, columns: nat, line: nat)
      requires line >= 2
      ensures Valid() && fresh(cells) && fresh(neighbours)
      ensures this.rows == rows && this.columns == columns && this.line == line
      ensures forall p :: 0 <= p < cells.Length ==> cells[p] == Empty
    {
      this.rows := rows;
      this.columns := columns;
      this.line := line;
      cells := new Token[rows * columns];
      neighbours := new seq<Option<nat>>[rows * columns];
      new;
      MulIsProduct(rows, columns);
      GenerateBoardCells();
    }

    /** The cell (its position) at (row, column), or None off the board. */
    function GetCell(row: int, column: int): (cell: Option<nat>)
      ensures cell.Some? <==> 0 <= row < rows && 0 <= column < columns
      ensures cell.Some? ==> cell.value < Shape().Size() && Pos2xy(Shape(), cell.value) == Some((row, column))
    {
      var pos := Xy2pos(Shape(), row, column);
      if pos.Some? then
        Xy2posRoundTrip(Shape(), row, column);
        pos
      else None
    }

    /** Sets the token of the cell at (row, column) and returns that cell;
        off the board nothing changes and None is returned. */
    method SetCell(row: int, column: int, token: Token) returns (cell: Option<nat>)
      requires Valid()
      modifies cells
      ensures cell == GetCell(row, column)
      ensures cells[..] == if cell.Some? then old(cells[..])[cell.value := token] else old(cells[..])
    {
      cell := GetCell(row, column);
      if cell.Some? {
        cells[cell.value] := token;
      }
    }

    /** The slot array of the cell at pos, scanning the 3x3 window around it
        row by row and leaving out the centre; None when pos is not a cell. */
    method FindNeighbours(pos: int) returns (slots: Option<seq<Option<nat>>>)
      ensures slots.Some? <==> 0 <= pos < Shape().Size()
      ensures slots.Some? ==> slots.value == Slots(Shape(), pos)
    {
      var rc := Pos2xy(Shape(), pos);
      if rc.None? {
        return None;
      }
      var column := rc.value.1;
      var row := rc.value.0;
      var found: seq<Option<nat>> := [];
      var i := row - 1;
      while i < row + 2
        invariant row - 1 <= i <= row + 2
        invariant |found| == WindowBefore(i - row + 1, 0)
        invariant forall k :: 0 <= k < |found| ==> found[k] == Xy2pos(Shape(), row + DRow(k), column + DCol(k))
      {
        var j := column - 1;
        while j < column + 2
          invariant column - 1 <= j <= column + 2
          invariant |found| == WindowBefore(i - row + 1, j - column + 1)
          invariant forall k :: 0 <= k < |found| ==> found[k] == Xy2pos(Shape(), row + DRow(k), column + DCol(k))
        {
          if i != row || j != column {
            found := found + [GetCell(i, j)];
          }
          j := j + 1;
        }
        i := i + 1;
      }
      assert forall k :: 0 <= k < 8 ==> found[k] == Slots(Shape(), pos)[k];
      slots := Some(found);
    }

    /** Number of window places before place (a, b) of the 3x3 window in
        scan order, the centre (1, 1) not counted. */
    static function WindowBefore(a: int, b: int): int
    {
      3 * a + b - (if 3 * a + b > 4 then 1 else 0)
    }

    /** Empties every cell and gives each its slot array. */
    method GenerateBoardCells()
      requires cells.Length == Shape().Size() && neighbours.Length == Shape().Size()
      modifies cells, neighbours
      ensures forall p :: 0 <= p < cells.Length ==> cells[p] == Empty
      ensures forall p :: 0 <= p < neighbours.Length ==> neighbours[p] == Slots(Shape(), p)
    {
      var i := 0;
      while i < cells.Length
        invariant 0 <= i <= cells.Length
        invariant forall p :: 0 <= p < i ==> cells[p] == Empty
        invariant forall p :: 0 <= p < i ==> neighbours[p] == Slots(Shape(), p)
      {
        cells[i] := Empty;
        var slots := FindNeighbours(i);
        neighbours[i] := slots.value;
        i := i + 1;
      }
    }

    /** The cell a token dropped into `column` lands on: the empty cell of
        that column with the largest row, or None when the column is full. */
    method FreeCellInColumn(column: nat) returns (cell: Option<nat>)
      requires Valid() && column < columns
      ensures cell == LowestFree(Shape(), cells[..], column)
    {
      var i: int := rows - 1;
      while i > -1 && cells[GetCell(i, column).value] != Empty
        invariant -1 <= i < rows
        invariant FreeRowFrom(Shape(), cells[..], column, i) == FreeRowFrom(Shape(), cells[..], column, rows - 1)
      {
        i := i - 1;
      }
      cell := if i == -1 then None else GetCell(i, column);
    }

    /** Drops `token` into `column`: only the landing cell changes, and it is
        returned; a full column is left alone and None is returned. */
    method PushToken(column: nat, token: Token) returns (cell: Option<nat>)
      requires Valid() && column < columns
      modifies cells
      ensures cell == LowestFree(Shape(), old(cells[..]), column)
      ensures cells[..] == if cell.Some? then old(cells[..])[cell.value := token] else old(cells[..])
    {
      cell := FreeCellInColumn(column);
      if cell.Some? {
        cells[cell.value] := token;
      }
    }

    /** A new board of the same shape holding the same token in every cell. */
    method Copy() returns (board: Board)
      requires Valid()
      ensures fresh(board) && fresh(board.cells) && fresh(board.neighbours) && board.Valid()
      ensures board.Shape() == Shape()
      ensures board.cells[..] == cells[..]
    {
      board := new Board(rows, columns, line);
      var i := 0;
      while i < cells.Length
        invariant 0 <= i <= cells.Length
        invariant forall p :: 0 <= p < i ==> board.cells[p] == cells[p]
        modifies board.cells
      {
        board.cells[i] := cells[i];
        i := i + 1;
      }
    }

    /** A new board of the same shape seen from `own`'s side: its cells
        hold Red, every other token becomes Blue, empty cells stay empty. */
    method Copy4AI(own: Token) returns (board: Board)
      requires Valid()
      ensures fresh(board) && fresh(board.cells) && fresh(board.neighbours) && board.Valid()
      ensures board.Shape() == Shape()
      ensures board.cells[..] == Normalize(cells[..], own)
    {
      board := new Board(rows, columns, line);
      var i := 0;
      while i < cells.Length
        invariant 0 <= i <= cells.Length
        invariant forall p :: 0 <= p < i ==> board.cells[p] == NormalizeToken(cells[p], own)
        invariant forall p :: i <= p < cells.Length ==> board.cells[p] == Empty
        modifies board.cells
      {
        if cells[i] != Empty {
          board.cells[i] := if cells[i] == own then Mark(Red) else Mark(Blue);
        }
        i := i + 1;
      }
    }

    /** Number of empty cells; the source uses it as "is there an empty
        cell". */
    function HasFreeCells(): (n: nat)
      reads this, cells
      ensures n > 0 <==> exists p :: 0 <= p < cells.Length && cells[p] == Empty
      ensures n == FreeCount(cells[..])
    {
      FreeCount(cells[..])
    }

    /** Empties every cell; the neighbour graph stays as it is. */
    method Reset()
      requires Valid()
      modifies cells
      ensures forall p :: 0 <= p < cells.Length ==> cells[p] == Empty
    {
      var i := 0;
      while i < cells.Length
        invariant 0 <= i <= cells.Length
        invariant forall p :: 0 <= p < i ==> cells[p] == Empty
      {
        cells[i] := Empty;
        i := i + 1;
      }
    }

    /** Whether the cell at pos is part of n in a row along some axis. */
    method CheckLine(pos: nat, n: int) returns (found: bool)
      requires Valid() && pos < cells.Length
      ensures found == CompletesLine(Shape(), cells[..], pos, n)
    {
      var i := 0;
      while i < NeighbourCount / 2 && EqualsByDirection(Shape(), cells[..], pos, i) < n
        invariant 0 <= i <= NeighbourCount / 2
        invariant forall direction :: 0 <= direction < i ==> EqualsByDirection(Shape(), cells[..], pos, direction) < n
      {
        i := i + 1;
      }
      found := i < NeighbourCount / 2;
    }

    /** The heuristic score of the cell at pos: 8^(run-2) * 1000 for every
        axis whose run is longer than 1, capped at TopScore(line). */
    method Value(pos: nat, line: nat) returns (v: nat)
      requires Valid() && pos < cells.Length && line >= 2
      ensures v == CellValue(Shape(), cells[..], pos, line)
    {
      var i := 0;
      var score := 0;
      while i < NeighbourCount / 2
        invariant 0 <= i <= NeighbourCount / 2
        invariant score == ScoreUpTo(Shape(), cells[..], pos, i)
      {
        var equalsInLine := EqualsByDirection(Shape(), cells[..], pos, i);
        if equalsInLine > 1 {
          score := score + Pow8(equalsInLine - 2) * 1000;
        }
        i := i + 1;
      }
      v := if score > TopScore(line) then TopScore(line) else score;
    }
  }
}

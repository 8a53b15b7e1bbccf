/** The automated player's search (index.js, AIplayer.minimax and
    #isMoreCentered): depth-bounded minimax with alpha-beta pruning over the
    columns, run in place on a board prepared by Copy4AI. Search and
    SearchFrom state, as functions, what the method computes; Minimax is the
    loop that places, evaluates, recurses, undoes and prunes. */
module AlphaBeta {
  import opened Tokens
  import opened Grid
  import opened Cells
  import opened Boards

  /** Alpha and beta: an integer or one of the two infinities the search
      starts from. */
  datatype Bound = NegInf | Fin(n: int) | PosInf

  /** Strict order on bounds. */
  predicate Less(a: Bound, b: Bound)
  {
    || (a.NegInf? && !b.NegInf?)
    || (a.Fin? && b.PosInf?)
    || (a.Fin? && b.Fin? && a.n < b.n)
  }

  /** The best move found so far: nothing yet, or a value and its column
      (the source sets both fields together). */
  datatype Choice = NoMove | Move(value: int, column: nat)

  /** Whether column a is strictly nearer the board's centre (columns / 2)
      than column b; distances are compared doubled to stay in integers. */
  predicate IsMoreCentered(a: int, b: int, columns: nat)
  {
    Abs(2 * a - columns) < Abs(2 * b - columns)
  }

  /** IsMoreCentered is a strict order: never both ways, and never a column
      against itself. */
  lemma IsMoreCenteredStrict(a: int, b: int, columns: nat)
    ensures IsMoreCentered(a, b, columns) ==> !IsMoreCentered(b, a, columns)
    ensures !IsMoreCentered(a, a, columns)
  {
  }

  /** A value seen from the side to move: as is for the maximising side,
      negated for the minimising side (the source multiplies by 1 or -1). */
  function Signed(maximising: bool, x: int): int
  {
    if maximising then x else -x
  }

  /** How the search folds the value of column i into the best move so far:
      a strictly better value for the side to move wins, and an equal value
      moves the choice only to a strictly more central column. */
  function Select(best: Choice, value: int, i: nat, maximising: bool, columns: nat): (r: Choice)
    ensures r.Move? && (r == best || r == Move(value, i))
    ensures best.NoMove? ==> r == Move(value, i)
    ensures best.Move? && maximising ==> r.value == if value > best.value then value else best.value
    ensures best.Move? && !maximising ==> r.value == if value < best.value then value else best.value
    ensures best.Move? && value == best.value && i != best.column ==>
      (r.column == i <==> IsMoreCentered(i, best.column, columns))
  {
    if || best.NoMove?
       || (if maximising then value > best.value else value < best.value)
       || (value == best.value && IsMoreCentered(i, best.column, columns))
    then Move(value, i)
    else best
  }

  /** The depth left one level down the search. */
  function Shallower(depth: nat): (r: nat)
    requires depth > 0
    ensures r < depth
  {
    depth - 1
  }

  /** Value of placing the side's marker on cell p (the landing cell of
      some column): -+(heuristic + depth) when the search stops there (depth
      exhausted, a winning value, or a full board), otherwise the value of
      the search one level down with the other side to move. */
  function Evaluation(d: Dims, s: seq<Token>, depth: nat, alpha: Bound, beta: Bound, maximising: bool, p: nat): int
    requires |s| == d.Size() && d.line >= 2 && p < |s|
    decreases depth, 0, 0
  {
    var placed := s[p := MarkerFor(maximising)];
    var leaf := Signed(maximising, CellValue(d, placed, p, d.line) + depth);
    if depth > 0 && !IsWinnerMove(leaf, d.line) && FreeCount(placed) > 0 then
      match Search(d, placed, Shallower(depth), alpha, beta, !maximising)
      case Move(value, _) => value
      case NoMove => leaf
    else leaf
  }

  /** Evaluation when the game goes on after the placement: the value of the
      search one level down. */
  lemma EvaluationRecurses(d: Dims, s: seq<Token>, depth: nat, alpha: Bound, beta: Bound,
                           maximising: bool, p: nat, child: Choice)
    requires |s| == d.Size() && d.line >= 2 && p < |s| && depth > 0
    requires !IsWinnerMove(Signed(maximising, CellValue(d, s[p := MarkerFor(maximising)], p, d.line) + depth), d.line)
    requires FreeCount(s[p := MarkerFor(maximising)]) > 0
    requires child == Search(d, s[p := MarkerFor(maximising)], Shallower(depth), alpha, beta, !maximising)
    ensures child.Move? && Evaluation(d, s, depth, alpha, beta, maximising, p) == child.value
  {
    SearchMovesOnFreeBoard(d, s[p := MarkerFor(maximising)], Shallower(depth), alpha, beta, !maximising);
  }

  /** Evaluation where the search stops: the signed heuristic plus depth. */
  lemma EvaluationStops(d: Dims, s: seq<Token>, depth: nat, alpha: Bound, beta: Bound,
                        maximising: bool, p: nat, leaf: int)
    requires |s| == d.Size() && d.line >= 2 && p < |s|
    requires leaf == Signed(maximising, CellValue(d, s[p := MarkerFor(maximising)], p, d.line) + depth)
    requires depth == 0 || IsWinnerMove(leaf, d.line) || FreeCount(s[p := MarkerFor(maximising)]) == 0
    ensures Evaluation(d, s, depth, alpha, beta, maximising, p) == leaf
  {
  }

  /** Whether some column from i on can take a token. */
  predicate SomePlayableFrom(d: Dims, s: seq<Token>, i: nat)
    requires |s| == d.Size()
    decreases d.columns - i
  {
    i < d.columns && (Playable(d, s, i) || SomePlayableFrom(d, s, i + 1))
  }

  /** SomePlayableFrom is the existential it abbreviates. */
  lemma {:induction false} SomePlayableFromIff(d: Dims, s: seq<Token>, i: nat)
    requires |s| == d.Size()
    ensures SomePlayableFrom(d, s, i) <==> exists c :: i <= c < d.columns && Playable(d, s, c)
    decreases d.columns - i
  {
    if i < d.columns {
      SomePlayableFromIff(d, s, i + 1);
    }
  }

  /** The value of dropping the side's marker into column i: None when the
      column is full, otherwise the evaluation of the cell it lands on. */
  function ColumnValue(d: Dims, s: seq<Token>, depth: nat, alpha: Bound, beta: Bound, maximising: bool,
                       i: nat): (v: Option<int>)
    requires |s| == d.Size() && d.line >= 2 && i < d.columns
    decreases depth, 0, 1
  {
    match LowestFree(d, s, i)
    case None => None
    case Some(p) => Some(Evaluation(d, s, depth, alpha, beta, maximising, p))
  }

  /** ColumnValue of a column that takes the token is the evaluation of the
      cell it lands on. */
  lemma ColumnValueLands(d: Dims, s: seq<Token>, depth: nat, alpha: Bound, beta: Bound, maximising: bool,
                         i: nat, p: nat)
    requires |s| == d.Size() && d.line >= 2 && i < d.columns && LowestFree(d, s, i) == Some(p)
    ensures p < |s| && ColumnValue(d, s, depth, alpha, beta, maximising, i) == Some(Evaluation(d, s, depth, alpha, beta, maximising, p))
  {
  }

  /** The search over columns i.. with the best move `best` found so far and
      the current alpha and beta. */
  function SearchFrom(d: Dims, s: seq<Token>, depth: nat, alpha: Bound, beta: Bound, maximising: bool,
                      i: nat, best: Choice): Choice
    requires |s| == d.Size() && d.line >= 2
    decreases depth, 0, if i <= d.columns then d.columns - i + 2 else 0
  {
    if i >= d.columns then best
    else match ColumnValue(d, s, depth, alpha, beta, maximising, i)
      case None =>
        SearchFrom(d, s, depth, alpha, beta, maximising, i + 1, best)
      case Some(value) =>
        var best' := Select(best, value, i, maximising, d.columns);
        var alpha' := if maximising && Less(alpha, Fin(value)) then Fin(value) else alpha;
        var beta' := if !maximising && Less(Fin(value), beta) then Fin(value) else beta;
        if Less(beta', alpha') then best'
        else SearchFrom(d, s, depth, alpha', beta', maximising, i + 1, best')
  }

  /** A full column is skipped by the column loop. */
  lemma SearchFromSkip(d: Dims, s: seq<Token>, depth: nat, alpha: Bound, beta: Bound, maximising: bool,
                       i: nat, best: Choice)
    requires |s| == d.Size() && d.line >= 2 && i < d.columns
    requires ColumnValue(d, s, depth, alpha, beta, maximising, i).None?
    ensures SearchFrom(d, s, depth, alpha, beta, maximising, i, best)
            == SearchFrom(d, s, depth, alpha, beta, maximising, i + 1, best)
  {
  }

  /** One round of the column loop on a column that takes the token: its
      evaluation is folded into the best move and into alpha or beta, and
      the loop stops once beta < alpha. */
  lemma SearchFromStep(d: Dims, s: seq<Token>, depth: nat, alpha: Bound, beta: Bound, maximising: bool,
                       i: nat, best: Choice, value: int, alpha': Bound, beta': Bound, best': Choice)
    requires |s| == d.Size() && d.line >= 2 && i < d.columns
    requires ColumnValue(d, s, depth, alpha, beta, maximising, i) == Some(value)
    requires best' == Select(best, value, i, maximising, d.columns)
    requires alpha' == if maximising && Less(alpha, Fin(value)) then Fin(value) else alpha
    requires beta' == if !maximising && Less(Fin(value), beta) then Fin(value) else beta
    ensures SearchFrom(d, s, depth, alpha, beta, maximising, i, best)
            == if Less(beta', alpha') then best' else SearchFrom(d, s, depth, alpha', beta', maximising, i + 1, best')
  {
  }

  /** Past the last column the search returns the best move it holds. */
  lemma SearchFromPast(d: Dims, s: seq<Token>, depth: nat, alpha: Bound, beta: Bound, maximising: bool,
                       i: nat, best: Choice)
    requires |s| == d.Size() && d.line >= 2 && i >= d.columns
    ensures SearchFrom(d, s, depth, alpha, beta, maximising, i, best) == best
  {
  }

  /** The column loop ends with a move exactly when it started with one or
      some column from i on takes a token, and the move it ends with is the
      one it started with or a move into a column that takes a token. */
  lemma {:induction false} SearchFromMoves(d: Dims, s: seq<Token>, depth: nat, alpha: Bound, beta: Bound,
                                           maximising: bool, i: nat, best: Choice)
    requires |s| == d.Size() && d.line >= 2
    ensures var r := SearchFrom(d, s, depth, alpha, beta, maximising, i, best);
      && (r.Move? <==> best.Move? || SomePlayableFrom(d, s, i))
      && (r.Move? ==> r == best || Playable(d, s, r.column))
    decreases if i <= d.columns then d.columns - i + 1 else 0
  {
    if i < d.columns {
      match ColumnValue(d, s, depth, alpha, beta, maximising, i)
      case None =>
        assert !Playable(d, s, i);
        SearchFromSkip(d, s, depth, alpha, beta, maximising, i, best);
        SearchFromMoves(d, s, depth, alpha, beta, maximising, i + 1, best);
      case Some(value) =>
        assert Playable(d, s, i);
        var best' := Select(best, value, i, maximising, d.columns);
        var alpha' := if maximising && Less(alpha, Fin(value)) then Fin(value) else alpha;
        var beta' := if !maximising && Less(Fin(value), beta) then Fin(value) else beta;
        SearchFromStep(d, s, depth, alpha, beta, maximising, i, best, value, alpha', beta', best');
        SearchFromMoves(d, s, depth, alpha', beta', maximising, i + 1, best');
    }
  }

  /** The result of minimax on board s: NoMove exactly when no column can
      take a token, otherwise a move into a column that can. */
  function Search(d: Dims, s: seq<Token>, depth: nat, alpha: Bound, beta: Bound, maximising: bool): Choice
    requires |s| == d.Size() && d.line >= 2
    decreases depth, 1, 0
  {
    SearchFrom(d, s, depth, alpha, beta, maximising, 0, NoMove)
  }

  /** Minimax answers NoMove exactly when no column can take a token, and
      otherwise a move into a column that can. */
  lemma SearchMoveIffPlayable(d: Dims, s: seq<Token>, depth: nat, alpha: Bound, beta: Bound, maximising: bool)
    requires |s| == d.Size() && d.line >= 2
    ensures var r := Search(d, s, depth, alpha, beta, maximising);
      && (r.Move? <==> exists c :: 0 <= c < d.columns && Playable(d, s, c))
      && (r.Move? ==> Playable(d, s, r.column))
  {
    SearchFromMoves(d, s, depth, alpha, beta, maximising, 0, NoMove);
    SomePlayableFromIff(d, s, 0);
  }

  /** While some cell is empty, minimax finds a move. */
  lemma SearchMovesOnFreeBoard(d: Dims, s: seq<Token>, depth: nat, alpha: Bound, beta: Bound, maximising: bool)
    requires |s| == d.Size() && d.line >= 2 && FreeCount(s) > 0
    ensures Search(d, s, depth, alpha, beta, maximising).Move?
  {
    PlayableIffEmptyCell(d, s);
    SearchMoveIffPlayable(d, s, depth, alpha, beta, maximising);
  }

  /** Minimax with alpha-beta pruning, in place: every placement is undone,
      so the board comes back token for token, and the result is Search's. */
  method Minimax(board: Board, depth: nat, alpha: Bound, beta: Bound, maximising: bool) returns (result: Choice)
    requires board.Valid()
    modifies board.cells
    ensures board.cells[..] == old(board.cells[..])
    ensures result == Search(board.Shape(), old(board.cells[..]), depth, alpha, beta, maximising)
    decreases depth, 1
  {
    ghost var s := board.cells[..];
    ghost var d := board.Shape();
    result := NoMove;
    var a, b := alpha, beta;
    var i := 0;
    while i < board.columns
      invariant 0 <= i <= board.columns + 1
      invariant board.cells[..] == s
      invariant SearchFrom(d, s, depth, a, b, maximising, i, result) == Search(d, s, depth, alpha, beta, maximising)
      decreases board.columns + 1 - i
    {
      ghost var a0, b0, result0 := a, b, result;
      var evaluation := TryColumn(board, i, depth, a, b, maximising);
      if evaluation.Some? {
        var value := evaluation.value;
        result := Select(result, value, i, maximising, board.columns);
        a := if maximising && Less(a, Fin(value)) then Fin(value) else a;
        b := if !maximising && Less(Fin(value), b) then Fin(value) else b;
        SearchFromStep(d, s, depth, a0, b0, maximising, i, result0, value, a, b, result);
        if Less(b, a) {
          i := board.columns;
          SearchFromPast(d, s, depth, a, b, maximising, i + 1, result);
        }
      } else {
        SearchFromSkip(d, s, depth, a, b, maximising, i, result);
      }
      i := i + 1;
    }
  }

  /** One column of the search loop: drop the side's marker into column i,
      score the landing cell, search one level down when the game goes on
      there, and take the marker back. None when the column is full. */
  method TryColumn(board: Board, i: nat, depth: nat, alpha: Bound, beta: Bound, maximising: bool)
    returns (evaluation: Option<int>)
    requires board.Valid() && i < board.columns
    modifies board.cells
    ensures board.cells[..] == old(board.cells[..])
    ensures evaluation == ColumnValue(board.Shape(), old(board.cells[..]), depth, alpha, beta, maximising, i)
    decreases depth, 0
  {
    ghost var s := board.cells[..];
    ghost var d := board.Shape();
    var cell := board.PushToken(i, MarkerFor(maximising));
    if cell.None? {
      return None;
    }
    var p := cell.value;
    ghost var placed := board.cells[..];
    var score := board.Value(p, board.line);
    var value := Signed(maximising, score + depth);
    if depth > 0 && !IsWinnerMove(value, board.line) && board.HasFreeCells() > 0 {
      var child := Minimax(board, Shallower(depth), alpha, beta, !maximising);
      EvaluationRecurses(d, s, depth, alpha, beta, maximising, p, child);
      value := child.value;
    } else {
      EvaluationStops(d, s, depth, alpha, beta, maximising, p, value);
    }
    board.cells[p] := Empty;
    assert board.cells[..] == s;
    evaluation := Some(value);
    ColumnValueLands(d, s, depth, alpha, beta, maximising, i, p);
  }
}

/** The two kinds of player (index.js, classes Player and AIplayer): a human
    player drops its token into the column it is given; the automated player
    runs minimax on a copy of the board seen from its own side and drops its
    token into the column the search picks. */
module Players {
  import opened Tokens
  import opened Grid
  import opened Boards
  import opened AlphaBeta

  /** A player: its name and token, and for the automated player the depth
      of its search. */
  datatype Player =
    | Player(name: string, token: Token)
    | AIPlayer(name: string, token: Token, depth: nat)

  /** The column the automated player with `token` and `depth` picks on
      board s: the one minimax, started with infinite bounds for the
      maximising side, chooses on s normalised to `token`'s side. */
  function AIChoice(d: Dims, s: seq<Token>, token: Token, depth: nat): Choice
    requires |s| == d.Size() && d.line >= 2
  {
    Search(d, Normalize(s, token), depth, NegInf, PosInf, true)
  }

  /** The cell the automated player's turn fills on board s, or None when
      the search finds no column. */
  function AIMove(d: Dims, s: seq<Token>, token: Token, depth: nat): Option<nat>
    requires |s| == d.Size() && d.line >= 2
  {
    match AIChoice(d, s, token, depth)
    case NoMove => None
    case Move(_, column) =>
      SearchMoveIffPlayable(d, Normalize(s, token), depth, NegInf, PosInf, true);
      LowestFree(d, s, column)
  }

  /** Normalising a board keeps exactly its empty cells empty. */
  lemma NormalizeSameEmptyCells(s: seq<Token>, own: Token)
    ensures forall p :: 0 <= p < |s| ==> (Normalize(s, own)[p] == Empty <==> s[p] == Empty)
    ensures Empty in Normalize(s, own) <==> Empty in s
  {
    forall p | 0 <= p < |s|
      ensures Normalize(s, own)[p] == Empty <==> s[p] == Empty
    {
      NormalizeKeepsEmptyCells(s, own, p);
    }
  }

  /** The automated player always plays a legal move: it fills a cell
      exactly when the board has an empty cell, and the cell it fills is the
      landing cell of the column the search chose, which was empty. */
  lemma AIMoveIsLegal(d: Dims, s: seq<Token>, token: Token, depth: nat)
    requires |s| == d.Size() && d.line >= 2
    ensures AIMove(d, s, token, depth).None? <==> Empty !in s
    ensures AIMove(d, s, token, depth).Some? ==>
      var c := AIChoice(d, s, token, depth);
      && c.Move? && c.column < d.columns
      && AIMove(d, s, token, depth) == LowestFree(d, s, c.column)
      && s[AIMove(d, s, token, depth).value] == Empty
  {
    var n := Normalize(s, token);
    SearchMoveIffPlayable(d, n, depth, NegInf, PosInf, true);
    PlayableIffEmptyCell(d, n);
    NormalizeSameEmptyCells(s, token);
    var c := AIChoice(d, s, token, depth);
    if c.Move? {
      LowestFreeSameEmptyCells(d, n, s, c.column);
    }
  }

  /** Player.turn: drops the player's token into `column`; only the landing
      cell changes, and a full column is left alone. */
  method Turn(player: Player, board: Board, column: nat) returns (cell: Option<nat>)
    requires board.Valid() && column < board.columns
    modifies board.cells
    ensures cell == LowestFree(board.Shape(), old(board.cells[..]), column)
    ensures board.cells[..] == if cell.Some? then old(board.cells[..])[cell.value := player.token]
                               else old(board.cells[..])
  {
    cell := board.PushToken(column, player.token);
  }

  /** AIplayer.turn: searches a normalised copy of the board, which leaves
      the board itself alone, then drops the token into the chosen column.
      With no column to choose the board is full, and dropping into the
      missing column finds no free cell (None). */
  method AITurn(player: Player, board: Board) returns (cell: Option<nat>)
    requires player.AIPlayer? && board.Valid()
    modifies board.cells
    ensures cell == AIMove(board.Shape(), old(board.cells[..]), player.token, player.depth)
    ensures board.cells[..] == if cell.Some? then old(board.cells[..])[cell.value := player.token]
                               else old(board.cells[..])
  {
    var copy := board.Copy4AI(player.token);
    var choice := Minimax(copy, player.depth, NegInf, PosInf, true);
    if choice.NoMove? {
      return None;
    }
    SearchMoveIffPlayable(board.Shape(), Normalize(board.cells[..], player.token), player.depth, NegInf, PosInf, true);
    cell := Turn(player, board, choice.column);
  }
}

# Connect-N game core in Dafny

A model of the game logic of `index.js`, a Connect-4 style game: players drop
tokens into the columns of a rows × columns board, a token falls to the
lowest free cell of its column, and the first player whose token completes
`line` cells in a row (horizontally, vertically or diagonally) wins. One of
the players may be an automated player that picks its column by depth-bounded
minimax with alpha-beta pruning.

The project follows the structure of the source:

- `tokens.dfy` (module `Tokens`): what a cell holds. A cell is empty, holds
  one of the two markers the search uses (`Red` for the searching side,
  `Blue` for everyone else), or holds a player's token. The file also
  defines the change of perspective that `copy4AI` applies.
- `grid.dfy` (module `Grid`): the board's shape, and the row-major mapping
  between coordinates and cell indices (`xy2pos`, `pos2xy`). It also holds
  the eight neighbour slots of a cell, in 3 × 3 scan order with the centre
  left out, and the walk along one direction.
- `cell.dfy` (module `Cells`): what a cell computes about the lines through
  it (`isNeighbourEqual`, `equalsBySide`, `equalsByDirection`, `checkLine`,
  `value`, `topScore`, `isWinnerMove`). These are functions over the board's
  token sequence and a cell index.
- `board.dfy` (module `Boards`): the class `Board`, whose cells are an array
  of tokens updated in place. It covers `getCell`/`setCell`, gravity
  placement (`freeCellInColumn`, `pushToken`), the two copies, `hasFreeCells`
  and `reset`. The loops of `checkLine` and `value` are methods, proved
  against the `Cells` functions.
- `search.dfy` (module `AlphaBeta`): `minimax` as a method that places,
  evaluates, recurses, undoes and prunes on the board in place. It is proved
  equal to the function `Search`, which states the same search on values.
  The file also holds `#isMoreCentered`.
- `players.dfy` (module `Players`): the human player's turn
  (`Player.turn`) and the automated player's turn (`AIplayer.turn`).
- `game.dfy` (module `Games`): the class `Game`, with the current player
  index and the ended flag, and its methods `play`, `#nextPlayer` and
  `reset`. The function `Played` states on values what one call of `play`
  does, including the automated player's turns that follow on by themselves.

Cells are identified by index, and a cell's neighbours are computed from
coordinates instead of being stored as object references. The neighbour
slots that `generateBoardCells` stores are kept in a second array, so that
`findNeighbours`/`generateBoardCells` can be stated.

## Model

| member | source | states |
|---|---|---|
| Grid.Xy2pos | index.js:301-306 | Gives an index exactly when 0 ≤ row < rows and 0 ≤ column < columns, and that index is below rows·columns |
| Grid.Pos2xy | index.js:314-319 | Gives coordinates exactly when 0 ≤ pos < rows·columns, and both coordinates are in range |
| Grid.Xy2posValue | index.js:301-306 | For in-range coordinates, xy2pos gives the row-major index row·columns + column |
| Grid.Pos2xyValue | index.js:314-319 | For an on-board position, pos2xy gives (pos div columns, pos mod columns), and the board then has at least one column |
| Grid.Xy2posRoundTrip | index.js:301-319 | For in-range coordinates, pos2xy(xy2pos(row, column)) gives back (row, column) |
| Grid.Pos2xyRoundTrip | index.js:301-319 | For an index on the board, xy2pos(pos2xy(pos)) gives back pos |
| Grid.RowColumnOfAreDivMod | index.js:314-319 | The coordinates of a valid index are (pos div columns, pos mod columns) |
| Grid.MulIsProduct | index.js:301-319 | The product used for rows·columns and row·columns is ordinary multiplication |
| Grid.Abs | index.js:571-573 | Definition, no contract: the absolute value, used by isMoreCentered and isWinnerMove (index.js:161) |
| Grid.SlotOffsets | index.js:371-387 | A cell has eight slots, each a distinct offset of the 3 × 3 window other than the centre, in scan order; slot 7−i is the opposite offset of slot i |
| Grid.Slots | index.js:371-387 | Definition: the slot list of a cell, slot k being its neighbour at offset k (a helper; its length bound of eight is immediate, and what the slots are is stated by SlotOffsets, SlotFilledIffOnBoard and NeighbourSymmetric) |
| Grid.SlotFilledIffOnBoard | index.js:371-387 | Slot i of a cell is filled exactly when its offset coordinate is on the board |
| Grid.NeighbourSymmetric | index.js:371-387 | If slot i of cell A is cell B, then slot 7−i of B is A |
| Cells.IsNeighbourEqual | index.js:88-90 | Definition: None for an empty slot, otherwise whether the neighbour holds the cell's own token (its contract only restates this) |
| Cells.EqualsBySide | index.js:98-103 | Definition, no contract: one plus the neighbour's count while the neighbour along the side holds the same token, otherwise 0; its meaning is stated by EqualsBySideIsMaximalRun and EqualsBySideCoversRun |
| Cells.EqualsBySideIsMaximalRun | index.js:98-103 | equalsBySide counts a maximal run: the first n cells along the side hold the cell's token, and the next one is off the board or holds another token (so it is 0 when the neighbour is missing or different) |
| Cells.EqualsBySideCoversRun | index.js:98-103 | Any run of k equal cells along the side is counted: equalsBySide ≥ k |
| Cells.EqualsByDirection | index.js:111-113 | The run through the cell along an axis is at least 1 (the cell itself) |
| Cells.CompletesLine | index.js:121-125 | Definition, no contract: what checkLine reports, some axis 0..3 with a run of at least n; Board.CheckLine is proved equal to it |
| Boards.Board.CheckLine | index.js:121-125 | The loop finds a line exactly when some axis 0..3 has a run of at least n |
| Cells.CellValue | index.js:132-143 | The heuristic value of a cell never exceeds topScore(line) |
| Boards.Board.Value | index.js:132-143 | The scoring loop computes the capped sum of 8^(run−2)·1000 over the axes with run > 1 |
| Cells.Pow8 | index.js:132-143 | Definition of 8^e, the power in the heuristic (a helper; its bound r ≥ 1 is immediate) |
| Cells.Pow8Monotone | index.js:132-143 | A larger exponent never gives a smaller power of 8 |
| Cells.RunScoreMonotone | index.js:132-143 | A longer run never scores less |
| Cells.ScoreIncludesAxis | index.js:132-143 | The sum includes the score of every axis added so far |
| Cells.ScoreBoundedByRuns | index.js:132-143 | When every axis run is at most `run`, the sum over k axes is at most k times that run's score |
| Cells.ScoreIsThousands | index.js:132-143 | Every partial sum is a whole number of thousands |
| Cells.TopScore | index.js:150-152 | topScore(line) is the score of a run of `line` cells, 8^(line−2)·1000, and is at least 1000 |
| Cells.IsWinnerMove | index.js:160-162 | Definition, no contract: the absolute value reaches topScore(line); WinnerMoveIffCompletesLine states what it means |
| Cells.WinnerMoveIffCompletesLine | index.js:132-162 | isWinnerMove(value(line), line) holds exactly when checkLine(line) holds |
| Cells.WinnerMoveIffCompletesLineInSearch | index.js:595-597 | The same equivalence for the signed value ±(value + depth) that the search tests, for depth < 1000 |
| Tokens.MarkerFor | index.js:592 | The maximising side drops the red marker and the minimising side the blue one (each exactly when), so the minimiser's marker is the one every other player's token becomes on the normalised board |
| Tokens.NormalizeToken | index.js:440-442 | Definition, no contract: empty stays empty, the own token becomes red and any other token blue |
| Tokens.Normalize | index.js:437-445 | Definition: NormalizeToken applied to every cell (a helper; its length clause is immediate, and NormalizeKeepsEmptyCells states its properties) |
| Tokens.NormalizeKeepsEmptyCells | index.js:437-445 | Empty cells stay empty and no other cell becomes empty; the player's own token becomes red and every other token blue |
| Boards.FreeCount | index.js:477-479 | The number of empty cells is positive exactly when some cell is empty, and at most the number of cells |
| Boards.FreeCountIsMultiplicity | index.js:477-479 | The number of empty cells is the multiplicity of Empty in the board |
| Boards.FreeCountFill | index.js:477-479 | Filling an empty cell lowers the number of empty cells by one |
| Boards.FreeRowFrom | index.js:358-364 | Scanning up from row i finds nothing exactly when rows 0..i of the column are all taken, and otherwise finds the largest empty row ≤ i |
| Boards.LowestFree | index.js:358-364 | The cell found lies on the board and is empty |
| Boards.LowestFreeIsLowestEmpty | index.js:358-364 | The cell found is in the given column and is its empty cell with the largest row; None means the column is full |
| Boards.PlayableIffEmptyCell | index.js:358-364 | Some column can take a token exactly when some cell of the board is empty |
| Boards.FreeRowFromSameEmptyCells | index.js:358-364 | The free-row scan depends only on which cells are empty |
| Boards.LowestFreeSameEmptyCells | index.js:358-364 | Two boards with the same empty cells have the same landing cell in every column |
| Boards.Board.constructor | index.js:196-204 | A new board has the given shape, every cell empty, and the neighbour slots of every cell built |
| Boards.Board.GetCell | index.js:327-330 | A cell exactly for in-range coordinates, and it is the cell whose coordinates they are |
| Boards.Board.SetCell | index.js:340-350 | Writes the token into the cell at the coordinates and changes nothing else; out of range, nothing changes |
| Boards.Board.FindNeighbours | index.js:371-387 | Slots exactly for an index on the board, and they are the eight window slots of that cell |
| Boards.Board.GenerateBoardCells | index.js:393-399 | Every cell is empty, and every cell's slots are its eight window slots |
| Boards.Board.FreeCellInColumn | index.js:358-364 | The loop returns the lowest free cell of the column (its empty cell with the largest row), or None when the column is full |
| Boards.Board.PushToken | index.js:409-416 | Only the landing cell changes and it receives the token; a full column returns None and leaves the board untouched |
| Boards.Board.Copy | index.js:423-429 | A fresh board with the same rows, columns and line and the same token in every cell; the original is not modified |
| Boards.Board.Copy4AI | index.js:437-445 | A fresh board of the same shape whose cells are the normalised cells of the original; the original is not modified |
| Boards.Board.HasFreeCells | index.js:477-479 | Positive exactly when some cell is empty |
| Boards.Board.Reset | index.js:481-485 | Every cell is empty afterwards |
| AlphaBeta.IsMoreCenteredStrict | index.js:571-573 | Being more central is a strict order: never both ways, and never a column against itself |
| AlphaBeta.IsMoreCentered | index.js:571-573 | Definition, no contract: column a is strictly nearer columns / 2 than column b, compared doubled; IsMoreCenteredStrict states that it is a strict order |
| AlphaBeta.Select | index.js:601-604 | The first value is always taken; after that a strictly better value for the side to move is taken, and an equal value moves the choice only to a strictly more central column |
| AlphaBeta.Shallower | index.js:598 | Definition of depth − 1 (a helper for the recursion's measure; its bound is immediate) |
| AlphaBeta.Evaluation | index.js:595-599 | Definition, no contract: the value of the cell a column's token lands on, ±(value + depth) at a leaf, otherwise the search one level down; EvaluationRecurses and EvaluationStops state the two cases |
| AlphaBeta.EvaluationRecurses | index.js:595-599 | When the game goes on after the placement, the value is the one the search one level down returns, and that search finds a move |
| AlphaBeta.EvaluationStops | index.js:595-599 | When the depth is exhausted, the move wins or the board is full, the value is ±(value + depth) |
| AlphaBeta.SomePlayableFromIff | index.js:591-593 | The column scan finds a column that takes a token exactly when one exists from i on |
| AlphaBeta.ColumnValue | index.js:592-599 | Definition, no contract: None for a full column, otherwise the evaluation of the landing cell; TryColumn is proved equal to it |
| AlphaBeta.ColumnValueLands | index.js:591-599 | A column that takes a token is valued by the evaluation of the cell the token lands on |
| AlphaBeta.SearchFrom | index.js:591-619 | Definition, no contract: the column loop from column i with the best move, alpha and beta held so far; SearchFromSkip, SearchFromStep, SearchFromPast and SearchFromMoves state its behaviour |
| AlphaBeta.SearchFromSkip | index.js:591-593 | A full column is skipped |
| AlphaBeta.SearchFromStep | index.js:600-617 | One round of the column loop folds the column's value into the best move and into alpha or beta, and stops the loop once beta < alpha |
| AlphaBeta.SearchFromPast | index.js:591 | Past the last column, the loop returns the best move it holds |
| AlphaBeta.SearchFromMoves | index.js:591-621 | The loop ends with a move exactly when it started with one or some later column takes a token, and the move is then the one it started with or a move into a column that takes a token |
| AlphaBeta.Search | index.js:585-622 | Definition, no contract: the column loop from column 0 with no move yet; Minimax is proved equal to it and SearchMoveIffPlayable states its result |
| AlphaBeta.SearchMoveIffPlayable | index.js:585-622 | minimax returns a null column exactly when every column is full at entry, and otherwise returns a column that is not full |
| AlphaBeta.SearchMovesOnFreeBoard | index.js:597-598 | While some cell is empty, the recursive search finds a move, so its value is never null |
| AlphaBeta.Minimax | index.js:585-622 | The board comes back token for token as it was received, and the result is the alpha-beta search of that board |
| AlphaBeta.TryColumn | index.js:592-606 | Placing, evaluating and undoing one column leaves the board as it was, and yields the column's value, or None when the column is full |
| Players.AIChoice | index.js:631 | Definition, no contract: minimax on the board normalised to the player's token, with infinite bounds and the maximising side to move |
| Players.AIMove | index.js:631 | Definition, no contract: no cell when the search finds no column, otherwise the landing cell of the chosen column; AIMoveIsLegal states its properties |
| Players.NormalizeSameEmptyCells | index.js:437-445 | The board the automated player searches has exactly the same empty cells as the real board |
| Players.AIMoveIsLegal | index.js:630-632 | The automated player fills a cell exactly when the board has an empty cell; the cell is the landing cell of the column the search chose, and it was empty |
| Players.Turn | index.js:546-548 | Only the landing cell of the column changes and it receives the player's token; a full column leaves the board untouched |
| Players.AITurn | index.js:630-632 | The cell filled is the landing cell of the column minimax picks on the normalised copy; only that cell changes, and it receives the player's token |
| Games.TurnMove | index.js:753 | Definition, no contract: the landing cell of the given column for a human player, the automated player's move otherwise; TurnMoveLands states its properties |
| Games.TurnMoveLands | index.js:753 | A turn only ever fills an empty cell, and an automated player fills nothing exactly when the board is full |
| Games.NextIndex | index.js:743 | Definition, no contract: i + 1, wrapping to 0 at n; NextIndexIsMod proves it is (i + 1) mod n |
| Games.NextIndexIsMod | index.js:742-745 | The next index is (i + 1) mod the number of players, and it indexes a player |
| Games.Played | index.js:751-769 | After a call of play, the current index still names a player and the board keeps its size |
| Games.AfterTurn | index.js:754-766 | After the placement, the current index still names a player and the board keeps its size |
| Games.PlayedStops | index.js:751-753 | play is a no-op once the game has ended, and when the turn fills no cell |
| Games.PlayedTurn | index.js:751-754 | A turn that fills cell p fills an empty cell, and play goes on from that placement |
| Games.AfterTurnOutcome | index.js:754-766 | A line completed by the placement ends the game and keeps the current player. Otherwise the index becomes (i + 1) mod n, and play stops at a human player or plays the automated player's turn on a board with one empty cell fewer |
| Games.PlayedKeepsTokens | index.js:751-769 | A call of play never changes a cell that already holds a token |
| Games.PlayedStopsAtHumanOrFull | index.js:762-766 | Automated turns chain: when play returns with the game still going, a human player is to move or the board is full |
| Games.PlayedEndsOnWin | index.js:754-755 | A game ends only through a win: the player left current has its token on a cell that completes a line |
| Games.Game.constructor | index.js:661-681 | A new game has the given players (or a human player and an automated player of depth 6) and an empty board of the given shape (or 6 × 7 with 4 in a row); the first player is to move and the game has not ended |
| Games.Game.NextPlayer | index.js:742-745 | The index becomes (i + 1) mod the number of players, and the player returned is the new current player |
| Games.Game.Play | index.js:751-769 | The new board, current index and ended flag are exactly those `Played` gives for the old state |
| Games.Game.Reset | index.js:771-774 | Every cell is empty and the first player is to move; the ended flag is left as it was |

## Left out

- Everything that draws the game or reacts to the page is not modelled. This
  covers the `node` properties, `generateNode`/`removeNode`, the styling in
  the token setter, the click listener, the reset button, the win message,
  the console output and the start pop-up. The `html` parameters of the
  Board constructor and of `copy` go with it.
- Tokens are modelled as opaque identifiers (`Piece(id)`), not as the HTML
  strings the page uses. The search's `'red'` and `'blue'` markers are the
  two values of `Marker`.
- The `neighbours` argument of `setCell` is not modelled. The slots are
  derived from coordinates, and `generateBoardCells` stores them for every
  cell.
- The Board constructor's `cells` parameter is not modelled. No caller in the
  modelled code passes it, so the board always generates its own cells.
- The setters for `players` and `board` are not modelled: both are
  constants of `Game`, because the modelled code never reassigns them.
- Numbers are unbounded integers. JavaScript's floating-point numbers agree
  with them for every value a board of realistic size produces.
- The infinite initial alpha and beta are the `NegInf` and `PosInf` values
  of `Bound`.
- `#isMoreCentered` compares distances to `columns / 2` doubled, so that it
  stays in integers.
- Products, quotients and remainders of non-constant operands are written as
  recursive functions (`Mul`, `RowOf`, `ColumnOf`, `NextIndex`), and lemmas
  prove them equal to the arithmetic. `Pow8` defines the power 8^e that the
  source writes `8 ** e`. `NextIndex` is the source's
  `(i + 1) % n` on every player index (`Games.NextIndexIsMod`).
- Boards with `line < 2` are excluded by precondition. There `8 ** (line - 2)`
  is a fraction and the heuristic is no longer an integer.
- Players given to a new game must be a non-empty sequence, and their tokens
  must not be empty. With no players, `currentPlayer` would name nothing.
- A zero row count, column count or line length in the configuration is
  treated as missing, as the source's truthiness test does.
- A column outside `0..columns−1` is excluded by precondition on
  `freeCellInColumn`, `pushToken` and `Player.turn`. The source dereferences
  a missing cell there.
- A human player's turn without a column (`play()` with the default null
  while a human is to move) is excluded by precondition on `play`.
- The automated player's turn on a full board is modelled as filling
  nothing (None). There minimax returns a null column, and `pushToken(null)`
  treats null as column 0, which is full, so the source also returns null.
- Games.Game.Play: when the turn fills no cell, the call stops with nothing
  changed. This happens when a human picks a full column, or on a full board.
  In the source, `play` then calls `checkLine` on null and throws a
  TypeError.
- Where the source would carry a null value (the child search returning no
  column, so `evaluation.value` is null), `Evaluation` uses the leaf value
  instead. This case is unreachable, because the recursion only happens while
  a cell is empty (`AlphaBeta.EvaluationRecurses`).
- AlphaBeta.TryColumn and AlphaBeta.ColumnValue are the body of minimax's
  column loop, factored out. They introduce no behaviour of their own.
- Cells.WinnerMoveIffCompletesLineInSearch: holds only for depth < 1000.
  From a depth of 1000 on, the added depth alone can reach topScore, and the
  search then takes a move that completes no line for a winning one.
- AlphaBeta.Minimax: not proved to return the same value as plain minimax
  without pruning, nor to choose an optimal column. Its contract ties it to
  the alpha-beta search it performs, as written (`AlphaBeta.Search`).
- Draws are not detected, as in the source. When the board fills up without
  a line, the game stays unended and no cell can be filled.
- Games.Game.Reset leaves the ended flag as it was, as the source does, so a
  game that has ended stays ended after a reset.

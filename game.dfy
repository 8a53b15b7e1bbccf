/** The turn state machine (index.js, class Game, without its page): the
    players take turns in order, a turn that completes a line ends the game,
    and the automated player's turns follow on by themselves. Played states,
    on values, what one call of Play does to the board, the index of the
    current player and the ended flag. */
module Games {
  import opened Tokens
  import opened Grid
  import opened Cells
  import opened Boards
  import opened Players

  /** The optional settings of a new game. */
  datatype Config = Config(rows: Option<nat>, columns: Option<nat>, line: Option<nat>, players: Option<seq<Player>>)

  /** A setting or its default; zero counts as missing, as a falsy value
      does in the source. */
  function OrDefault(v: Option<nat>, default: nat): nat
  {
    if v.Some? && v.value != 0 then v.value else default
  }

  /** The players of a game started without any: a human player and an
      automated player searching six levels deep. */
  function DefaultPlayers(): seq<Player>
  {
    [Player("uno", Piece(0)), AIPlayer("dos", Piece(1), 6)]
  }

  /** At least one player, and every player has a real token. */
  predicate ValidPlayers(players: seq<Player>)
  {
    |players| > 0 && forall i :: 0 <= i < |players| ==> players[i].token != Empty
  }

  /** The state the turns act on: the tokens of the board, the index of the
      current player and whether the game has ended. */
  datatype State = State(cells: seq<Token>, current: nat, ended: bool)

  /** The cell the player's turn fills on board s: the landing cell of the
      given column for a human player, the automated player's move
      otherwise. */
  function TurnMove(d: Dims, s: seq<Token>, player: Player, column: Option<nat>): Option<nat>
    requires |s| == d.Size() && d.line >= 2
    requires player.Player? ==> column.Some? && column.value < d.columns
  {
    match player
    case Player(_, _) => LowestFree(d, s, column.value)
    case AIPlayer(_, token, depth) => AIMove(d, s, token, depth)
  }

  /** A turn only ever fills an empty cell, and an automated player's turn
      fills nothing exactly when the board is full. */
  lemma TurnMoveLands(d: Dims, s: seq<Token>, player: Player, column: Option<nat>)
    requires |s| == d.Size() && d.line >= 2
    requires player.Player? ==> column.Some? && column.value < d.columns
    ensures TurnMove(d, s, player, column).Some? ==>
      TurnMove(d, s, player, column).value < |s| && s[TurnMove(d, s, player, column).value] == Empty
    ensures player.AIPlayer? ==> (TurnMove(d, s, player, column).None? <==> Empty !in s)
  {
    if player.AIPlayer? {
      AIMoveIsLegal(d, s, player.token, player.depth);
    }
  }

  /** The index of the player after player i of n, wrapping round to 0. */
  function NextIndex(i: nat, n: nat): nat
  {
    if i + 1 < n then i + 1 else 0
  }

  /** NextIndex is the source's (i + 1) mod n on every index of a player. */
  lemma NextIndexIsMod(i: nat, n: nat)
    requires i < n
    ensures NextIndex(i, n) == (i + 1) % n
    ensures NextIndex(i, n) < n
  {
  }

  /** Whether a state fits the players and the board. */
  predicate Fits(d: Dims, players: seq<Player>, st: State)
  {
    |st.cells| == d.Size() && d.line >= 2 && ValidPlayers(players) && st.current < |players|
  }

  /** What one call of Play does: nothing once the game has ended or when
      the turn fills no cell, and otherwise what follows the turn. */
  function Played(d: Dims, players: seq<Player>, st: State, column: Option<nat>): (r: State)
    requires Fits(d, players, st)
    requires players[st.current].Player? ==> column.Some? && column.value < d.columns
    ensures Fits(d, players, r)
    decreases FreeCount(st.cells), 1
  {
    if st.ended then st
    else match TurnMove(d, st.cells, players[st.current], column)
      case None => st
      case Some(p) =>
        TurnMoveLands(d, st.cells, players[st.current], column);
        AfterTurn(d, players, st, p)
  }

  /** What follows the current player's turn into the empty cell p: its
      token goes there; a completed line ends the game with that player
      still current; otherwise the next player in order becomes current
      and, when it is automated, plays on at once. */
  function AfterTurn(d: Dims, players: seq<Player>, st: State, p: nat): (r: State)
    requires Fits(d, players, st) && p < |st.cells| && st.cells[p] == Empty
    ensures Fits(d, players, r)
    decreases FreeCount(st.cells), 0
  {
    var placed := st.cells[p := players[st.current].token];
    if CompletesLine(d, placed, p, d.line) then State(placed, st.current, true)
    else
      var next := NextIndex(st.current, |players|);
      if players[next].AIPlayer? then
        FreeCountFill(st.cells, p, players[st.current].token);
        Played(d, players, State(placed, next, false), None)
      else State(placed, next, false)
  }

  /** Once the game has ended, Play changes nothing; nor does a turn that
      fills no cell. */
  lemma PlayedStops(d: Dims, players: seq<Player>, st: State, column: Option<nat>)
    requires Fits(d, players, st)
    requires players[st.current].Player? ==> column.Some? && column.value < d.columns
    requires st.ended || TurnMove(d, st.cells, players[st.current], column).None?
    ensures Played(d, players, st, column) == st
  {
  }

  /** A call that fills cell p goes on as AfterTurn says. */
  lemma PlayedTurn(d: Dims, players: seq<Player>, st: State, column: Option<nat>, p: nat)
    requires Fits(d, players, st) && !st.ended
    requires players[st.current].Player? ==> column.Some? && column.value < d.columns
    requires TurnMove(d, st.cells, players[st.current], column) == Some(p)
    ensures p < |st.cells| && st.cells[p] == Empty
    ensures Played(d, players, st, column) == AfterTurn(d, players, st, p)
  {
    TurnMoveLands(d, st.cells, players[st.current], column);
  }

  /** After a turn that fills p with the current player's token (`placed`)
      and completes a line or not (`won`): a win ends the game and keeps the
      current player; otherwise the turn passes to the next player in
      order, (i + 1) mod the number of players, and the call stops there
      when that player is human and goes on with its turn when it is
      automated, on a board with one empty cell fewer. */
  lemma AfterTurnOutcome(d: Dims, players: seq<Player>, st: State, p: nat,
                         placed: seq<Token>, next: nat, won: bool)
    requires Fits(d, players, st) && p < |st.cells| && st.cells[p] == Empty
    requires placed == st.cells[p := players[st.current].token]
    requires next == NextIndex(st.current, |players|)
    requires won == CompletesLine(d, placed, p, d.line)
    ensures won ==> AfterTurn(d, players, st, p) == State(placed, st.current, true)
    ensures !won && players[next].Player? ==> AfterTurn(d, players, st, p) == State(placed, next, false)
    ensures !won && players[next].AIPlayer? ==>
      && FreeCount(placed) < FreeCount(st.cells)
      && AfterTurn(d, players, st, p) == Played(d, players, State(placed, next, false), None)
  {
    FreeCountFill(st.cells, p, players[st.current].token);
  }

  /** Turns only fill empty cells: a cell that held a token still holds it
      afterwards. */
  lemma {:induction false} PlayedKeepsTokens(d: Dims, players: seq<Player>, st: State, column: Option<nat>)
    requires Fits(d, players, st)
    requires players[st.current].Player? ==> column.Some? && column.value < d.columns
    ensures var r := Played(d, players, st, column);
      forall q :: 0 <= q < |st.cells| && st.cells[q] != Empty ==> r.cells[q] == st.cells[q]
    decreases FreeCount(st.cells)
  {
    var move := TurnMove(d, st.cells, players[st.current], column);
    if st.ended || move.None? {
      PlayedStops(d, players, st, column);
    } else {
      var p := move.value;
      PlayedTurn(d, players, st, column, p);
      var placed := st.cells[p := players[st.current].token];
      var next := NextIndex(st.current, |players|);
      AfterTurnOutcome(d, players, st, p, placed, next, CompletesLine(d, placed, p, d.line));
      if !CompletesLine(d, placed, p, d.line) && players[next].AIPlayer? {
        assert forall q :: 0 <= q < |st.cells| && st.cells[q] != Empty ==> placed[q] == st.cells[q];
        PlayedKeepsTokens(d, players, State(placed, next, false), None);
      }
    }
  }

  /** The automated player's turns chain: when Play returns with the game
      still going, either a human player is to move or the board is full. */
  lemma {:induction false} PlayedStopsAtHumanOrFull(d: Dims, players: seq<Player>, st: State, column: Option<nat>)
    requires Fits(d, players, st) && !st.ended
    requires players[st.current].Player? ==> column.Some? && column.value < d.columns
    ensures var r := Played(d, players, st, column);
      !r.ended ==> players[r.current].Player? || Empty !in r.cells
    decreases FreeCount(st.cells)
  {
    TurnMoveLands(d, st.cells, players[st.current], column);
    var move := TurnMove(d, st.cells, players[st.current], column);
    if move.None? {
      PlayedStops(d, players, st, column);
    } else {
      var p := move.value;
      PlayedTurn(d, players, st, column, p);
      var placed := st.cells[p := players[st.current].token];
      var next := NextIndex(st.current, |players|);
      AfterTurnOutcome(d, players, st, p, placed, next, CompletesLine(d, placed, p, d.line));
      if !CompletesLine(d, placed, p, d.line) && players[next].AIPlayer? {
        PlayedStopsAtHumanOrFull(d, players, State(placed, next, false), None);
      }
    }
  }

  /** A game ends only through a win: when Play ends the game, the player
      left current has its token on a cell that completes a line. */
  lemma {:induction false} PlayedEndsOnWin(d: Dims, players: seq<Player>, st: State, column: Option<nat>)
    requires Fits(d, players, st) && !st.ended
    requires players[st.current].Player? ==> column.Some? && column.value < d.columns
    ensures var r := Played(d, players, st, column);
      r.ended ==> exists p :: 0 <= p < |r.cells| && r.cells[p] == players[r.current].token
                             && CompletesLine(d, r.cells, p, d.line)
    decreases FreeCount(st.cells)
  {
    var move := TurnMove(d, st.cells, players[st.current], column);
    if move.None? {
      PlayedStops(d, players, st, column);
    } else {
      var p := move.value;
      PlayedTurn(d, players, st, column, p);
      var placed := st.cells[p := players[st.current].token];
      var next := NextIndex(st.current, |players|);
      AfterTurnOutcome(d, players, st, p, placed, next, CompletesLine(d, placed, p, d.line));
      if CompletesLine(d, placed, p, d.line) {
        assert placed[p] == players[st.current].token;
      } else if players[next].AIPlayer? {
        PlayedEndsOnWin(d, players, State(placed, next, false), None);
      }
    }
  }

  class Game {
    const players: seq<Player>
    const board: Board
    /** Index of the player to move. */
    var currentPlayer: nat
    var ended: bool

    ghost predicate Valid()
      reads this, board, board.neighbours
    {
      board.Valid() && ValidPlayers(players) && currentPlayer < |players|
    }

    /** The state Play and Played act on. */
    ghost function Now(): State
      reads this, board.cells
    {
      State(board.cells[..], currentPlayer, ended)
    }

    /** A new game: the given or default players, an empty board of the
        given or default shape (6 rows, 7 columns, 4 in a row), the first
        player to move. */
    constructor (config: Config)
      requires config.players.Some? ==> ValidPlayers(config.players.value)
      requires OrDefault(config.line, 4) >= 2
      ensures Valid() && fresh(board) && fresh(board.cells) && fresh(board.neighbours)
      ensures players == if config.players.Some? then config.players.value else DefaultPlayers()
      ensures board.Shape() == Dims(OrDefault(config.rows, 6), OrDefault(config.columns, 7), OrDefault(config.line, 4))
      ensures forall p :: 0 <= p < board.cells.Length ==> board.cells[p] == Empty
      ensures currentPlayer == 0 && !ended
    {
      players := if config.players.Some? then config.players.value else DefaultPlayers();
      board := new Board(OrDefault(config.rows, 6), OrDefault(config.columns, 7), OrDefault(config.line, 4));
      currentPlayer := 0;
      ended := false;
    }

    /** Hands the turn to the next player in order and returns it. */
    method NextPlayer() returns (player: Player)
      requires Valid()
      modifies this
      ensures Valid() && ended == old(ended)
      ensures currentPlayer == (old(currentPlayer) + 1) % |players| == NextIndex(old(currentPlayer), |players|)
      ensures player == players[currentPlayer]
    {
      NextIndexIsMod(currentPlayer, |players|);
      currentPlayer := (currentPlayer + 1) % |players|;
      player := players[currentPlayer];
    }

    /** One move of the game: the current player's turn (into `column` for
        a human player), then the end of the game on a completed line, or
        the next player's turn, played at once when it is automated. A turn
        that fills no cell stops the call. */
    method Play(column: Option<nat>)
      requires Valid()
      requires players[currentPlayer].Player? ==> column.Some? && column.value < board.columns
      modifies this, board.cells
      ensures Valid()
      ensures Now() == Played(board.Shape(), players, old(Now()), column)
      decreases FreeCount(board.cells[..])
    {
      ghost var st := Now();
      ghost var d := board.Shape();
      if ended {
        PlayedStops(d, players, st, column);
        return;
      }
      var player := players[currentPlayer];
      var cell;
      if player.AIPlayer? {
        cell := AITurn(player, board);
      } else {
        cell := Turn(player, board, column.value);
      }
      if cell.None? {
        PlayedStops(d, players, st, column);
        return;
      }
      var p := cell.value;
      PlayedTurn(d, players, st, column, p);
      ghost var placed := st.cells[p := player.token];
      assert board.cells[..] == placed;
      var won := board.CheckLine(p, board.line);
      AfterTurnOutcome(d, players, st, p, placed, NextIndex(st.current, |players|), won);
      if won {
        ended := true;
      } else {
        var next := NextPlayer();
        if next.AIPlayer? {
          ghost var st' := Now();
          Play(None);
          assert Now() == Played(d, players, st', None);
        }
      }
    }

    /** Empties the board and gives the first move to the first player; the
        ended flag is left as it is. */
    method Reset()
      requires Valid()
      modifies this, board.cells
      ensures Valid() && ended == old(ended)
      ensures forall p :: 0 <= p < board.cells.Length ==> board.cells[p] == Empty
      ensures currentPlayer == 0
    {
      board.Reset();
      currentPlayer := 0;
    }
  }
}

/** The game component stripped of rendering: its state fields and the
    handlers that reassign them. Each handler is one atomic update, proved to
    perform the matching transition of module GameRules and to keep the
    state machine's invariant. */
module ExpandConquer {
  import opened Types
  import opened Boards
  import opened Analysis
  import opened GameUtils
  import opened GameRules

  /** The loop that colours each cell of `cells` in a copy of the board. */
  method PaintCells(board: Board, rows: nat, cols: nat, cells: set<Coord>, p: Player)
    returns (newBoard: Board)
    requires IsBoard(board, rows, cols)
    requires forall x :: x in cells ==> InBounds(x, rows, cols)
    ensures newBoard == Paint(board, rows, cols, cells, p)
  {
    newBoard := board;
    var rest := cells;
    while rest != {}
      invariant rest <= cells
      invariant IsBoard(newBoard, rows, cols)
      invariant forall y :: InBounds(y, rows, cols) ==>
        At(newBoard, rows, cols, y) == if y in cells - rest then p else At(board, rows, cols, y)
      decreases |rest|
    {
      var x :| x in rest;
      newBoard := newBoard[x.r := newBoard[x.r][x.c := p]];
      rest := rest - {x};
    }
    BoardExtensionality(newBoard, Paint(board, rows, cols, cells, p), rows, cols);
  }

  class ExpandConquerGame {
    // configuration
    var rows: nat
    var cols: nat
    var variant: GameVariant
    var initialPlayer: Player
    // play state
    var gameState: GameState
    var board: Board
    var currentPlayer: Player
    var history: seq<MoveHistoryEntry>
    var winner: Option<Player>

    ghost function Snapshot(): Game
      reads this
    {
      Game(rows, cols, variant, initialPlayer, gameState, board, currentPlayer, history, winner)
    }

    ghost predicate Valid()
      reads this
    {
      Invariant(Snapshot())
    }

    constructor ()
      ensures Valid() && Snapshot() == Initial()
    {
      rows, cols := 6, 6;
      variant := Normal;
      initialPlayer := Blue;
      gameState := Setup;
      board := CreateBoard(6, 6);
      currentPlayer := Blue;
      history := [];
      winner := None;
      InitialInvariant();
    }

    // ---- setup form ----

    method SetVariant(v: GameVariant)
      requires Valid() && gameState == Setup
      modifies this
      ensures Valid() && Snapshot() == VariantChosen(old(Snapshot()), v)
    {
      variant := v;
      ConfigurationInvariant(old(Snapshot()), v, Blue, 1);
    }

    method SetInitialPlayer(p: Player)
      requires Valid() && gameState == Setup && p != Empty
      modifies this
      ensures Valid() && Snapshot() == InitialPlayerChosen(old(Snapshot()), p)
    {
      initialPlayer := p;
      ConfigurationInvariant(old(Snapshot()), variant, p, 1);
    }

    /** A new row count; the setup effect then installs an empty board of
        the new size if the count changed. */
    method SetRows(n: nat)
      requires Valid() && gameState == Setup && 1 <= n <= MaxSide
      modifies this
      ensures Valid() && Snapshot() == RowsChosen(old(Snapshot()), n)
    {
      var changed := n != rows;
      rows := n;
      if changed {
        board := CreateBoard(rows, cols);
      }
      ConfigurationInvariant(old(Snapshot()), variant, Blue, n);
    }

    method SetCols(n: nat)
      requires Valid() && gameState == Setup && 1 <= n <= MaxSide
      modifies this
      ensures Valid() && Snapshot() == ColsChosen(old(Snapshot()), n)
    {
      var changed := n != cols;
      cols := n;
      if changed {
        board := CreateBoard(rows, cols);
      }
      ConfigurationInvariant(old(Snapshot()), variant, Blue, n);
    }

    // ---- handlers ----

    method HandleSetupClick(r: int, c: int)
      requires Valid() && InBounds(Coord(r, c), rows, cols)
      modifies this
      ensures Valid() && Snapshot() == SetupClicked(old(Snapshot()), r, c)
    {
      if gameState != Setup {
        return;
      }
      var current := board[r][c];
      var next := Cycle(current);
      board := board[r := board[r][c := next]];
      SetupClickedInvariant(old(Snapshot()), r, c);
    }

    method StartGame()
      requires Valid()
      modifies this
      ensures Valid() && Snapshot() == Started(old(Snapshot()))
    {
      gameState := Playing;
      currentPlayer := initialPlayer;
      history := [];
      winner := None;
      var canMove := HasAnyMoves(board, initialPlayer, variant, rows, cols);
      if !canMove {
        gameState := GameOver;
        winner := Some(Opponent(initialPlayer));
      }
      StartedInvariant(old(Snapshot()));
    }

    /** Back to setup; the setup effect, which runs when the state becomes
        setup, replaces the board by an empty one. */
    method ResetGame()
      requires Valid()
      modifies this
      ensures Valid() && Snapshot() == Reset(old(Snapshot()))
    {
      var stateChanges := gameState != Setup;
      gameState := Setup;
      winner := None;
      if stateChanges {
        board := CreateBoard(rows, cols);
      }
      ResetInvariant(old(Snapshot()));
    }

    method UndoMove()
      requires Valid()
      modifies this
      ensures Valid() && Snapshot() == Undone(old(Snapshot()))
    {
      if |history| == 0 || gameState == Setup {
        return;
      }
      var lastState := history[|history| - 1];
      board := lastState.board;
      currentPlayer := lastState.player;
      history := history[..|history| - 1];
      gameState := Playing;
      winner := None;
      UndoneInvariant(old(Snapshot()));
    }

    /** The first half of a move: the copy of the board with the move's
        cells in the mover's colour, and the move's description. */
    method PrepareMove(move: Move) returns (newBoard: Board, moveDesc: string)
      requires IsBoard(board, rows, cols) && MoveInBounds(Snapshot(), move)
      ensures newBoard == Apply(Snapshot(), move) && moveDesc == Describe(Snapshot(), move)
    {
      match move {
        case Expand(expansion, origin) =>
          newBoard := PaintCells(board, rows, cols, expansion, currentPlayer);
          moveDesc := ExpandDescription(origin, |expansion|);
        case Place(cell) =>
          newBoard := board[cell.r := board[cell.r][cell.c := currentPlayer]];
          moveDesc := PlaceDescription(cell);
      }
    }

    /** Writes the move's cells into a copy of the board, records the old
        board in history, installs the copy and passes the turn, ending the
        game when the next player is stuck. */
    method ExecuteMove(move: Move)
      requires IsBoard(board, rows, cols) && MoveInBounds(Snapshot(), move)
      modifies this
      ensures Snapshot() == Moved(old(Snapshot()), move)
    {
      ghost var g := Snapshot();
      var newBoard, moveDesc := PrepareMove(move);

      history := history + [MoveHistoryEntry(board, currentPlayer, moveDesc, |history| + 1)];
      board := newBoard;

      var nextPlayer := Opponent(currentPlayer);
      var nextCanMove := HasAnyMoves(newBoard, nextPlayer, variant, rows, cols);
      if !nextCanMove {
        gameState := GameOver;
        winner := Some(currentPlayer);
        currentPlayer := nextPlayer;
      } else {
        currentPlayer := nextPlayer;
      }
      MovedAs(g, move, newBoard, moveDesc, nextCanMove);
    }

    /** A click on cell (r, c): setup editing in setup; during play, an
        expansion from the player's own cell or, in the void-expansion
        variant, a placement on an isolated empty cell; otherwise nothing. */
    method HandleCellClick(r: int, c: int)
      requires Valid() && InBounds(Coord(r, c), rows, cols)
      modifies this
      ensures Valid() && Snapshot() == Clicked(old(Snapshot()), r, c)
    {
      ClickedInvariant(Snapshot(), r, c);
      if gameState == Setup {
        HandleSetupClick(r, c);
        return;
      }
      if gameState != Playing {
        return;
      }
      var cellColor := board[r][c];
      if cellColor == currentPlayer {
        var group, _ := GetConnectedGroup(board, r, c, rows, cols);
        var expansion := GetExpansionCells(board, group, rows, cols);
        if |expansion| > 0 {
          ExecuteMove(Expand(expansion, Coord(r, c)));
        }
      } else if variant == VoidExpansion && cellColor == Empty {
        var isolated := GetIsolatedSquares(board, currentPlayer, rows, cols);
        if Coord(r, c) in isolated {
          ExecuteMove(Place(Coord(r, c)));
        }
      }
    }
  }
}

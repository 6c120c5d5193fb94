/** The game's state machine as pure transitions over a snapshot of the
    component's state; the component class in module ExpandConquer is proved
    to perform exactly these transitions. */
module GameRules {
  import opened Types
  import opened Boards
  import opened Analysis
  import opened CellKeys

  /** The payload of a move: an expansion of the group at `origin` into the
      cells `expansion`, or a placement on `cell`. */
  datatype Move = Expand(expansion: set<Coord>, origin: Coord) | Place(cell: Coord)

  /** The component's configuration and play state. */
  datatype Game = Game(
    rows: nat,
    cols: nat,
    variant: GameVariant,
    initialPlayer: Player,
    state: GameState,
    board: Board,
    current: Player,
    history: seq<MoveHistoryEntry>,
    winner: Option<Player>)

  /** The bound the setup form's number inputs enforce on each dimension. */
  const MaxSide: nat := 10

  /** The state on mount: a 6 x 6 empty board, normal variant, Blue to start. */
  function Initial(): (g: Game) {
    Game(6, 6, Normal, Blue, Setup, CreateBoard(6, 6), Blue, [], None)
  }

  /** The board can be indexed and the players are real colours. */
  ghost predicate Shaped(g: Game) {
    && 1 <= g.rows <= MaxSide && 1 <= g.cols <= MaxSide
    && IsBoard(g.board, g.rows, g.cols)
    && g.initialPlayer != Empty && g.current != Empty
  }

  /** History entries carry the turn indices 1, 2, 3, ... */
  ghost predicate TurnsNumbered(h: seq<MoveHistoryEntry>) {
    forall i :: 0 <= i < |h| ==> h[i].turnIndex == i + 1
  }

  /** Each history entry holds a board of the game's shape on which its
      player, a real colour, could move. */
  ghost predicate HistoryPlayable(h: seq<MoveHistoryEntry>, rows: nat, cols: nat, variant: GameVariant) {
    forall e :: e in h ==>
      IsBoard(e.board, rows, cols) && e.player != Empty &&
      HasMoves(e.board, rows, cols, e.player, variant)
  }

  /** What every reachable state satisfies: turn indices count from 1; there
      is a winner exactly when the game is over, and then it is the player
      not to move, who has no move; while playing, the player to move has a
      move; and each history entry recorded in this game holds a board on
      which its player could move. */
  ghost predicate Invariant(g: Game) {
    && Shaped(g)
    && TurnsNumbered(g.history)
    && (g.winner.Some? <==> g.state == GameOver)
    && (g.state == GameOver ==>
          g.winner == Some(Opponent(g.current)) &&
          !HasMoves(g.board, g.rows, g.cols, g.current, g.variant))
    && (g.state == Playing ==> HasMoves(g.board, g.rows, g.cols, g.current, g.variant))
    && (g.state != Setup ==> HistoryPlayable(g.history, g.rows, g.cols, g.variant))
  }

  // ---- setup editing ----

  /** The setup editor's colour cycle. */
  function Cycle(p: Player): Player {
    if p == Empty then Blue else if p == Blue then Red else Empty
  }

  /** A click on (r, c) during setup cycles that cell; otherwise nothing. */
  function SetupClicked(g: Game, r: int, c: int): Game
    requires IsBoard(g.board, g.rows, g.cols) && InBounds(Coord(r, c), g.rows, g.cols)
  {
    if g.state != Setup then g
    else g.(board := SetCell(g.board, g.rows, g.cols, Coord(r, c), Cycle(g.board[r][c])))
  }

  /** Setup clicks change only the clicked cell, cycling Empty, Blue, Red. */
  lemma SetupClickedEffect(g: Game, r: int, c: int)
    requires IsBoard(g.board, g.rows, g.cols) && InBounds(Coord(r, c), g.rows, g.cols)
    ensures g.state != Setup ==> SetupClicked(g, r, c) == g
    ensures g.state == Setup ==>
      var g' := SetupClicked(g, r, c);
      && g' == g.(board := g'.board)
      && IsBoard(g'.board, g.rows, g.cols)
      && (forall y :: InBounds(y, g.rows, g.cols) && y != Coord(r, c) ==>
            At(g'.board, g.rows, g.cols, y) == At(g.board, g.rows, g.cols, y))
      && (g.board[r][c] == Empty ==> g'.board[r][c] == Blue)
      && (g.board[r][c] == Blue ==> g'.board[r][c] == Red)
      && (g.board[r][c] == Red ==> g'.board[r][c] == Empty)
  {
  }

  /** Three setup clicks on the same cell restore the state. */
  lemma SetupClickedThrice(g: Game, r: int, c: int)
    requires IsBoard(g.board, g.rows, g.cols) && InBounds(Coord(r, c), g.rows, g.cols)
    ensures
      var g1 := SetupClicked(g, r, c);
      var g2 := SetupClicked(g1, r, c);
      SetupClicked(g2, r, c) == g
  {
    var g1 := SetupClicked(g, r, c);
    var g2 := SetupClicked(g1, r, c);
    var g3 := SetupClicked(g2, r, c);
    if g.state == Setup {
      BoardExtensionality(g3.board, g.board, g.rows, g.cols);
    }
  }

  // ---- configuration (setup form) ----

  function VariantChosen(g: Game, v: GameVariant): Game {
    g.(variant := v)
  }

  function InitialPlayerChosen(g: Game, p: Player): Game {
    g.(initialPlayer := p)
  }

  /** Changing a dimension in setup makes the setup effect install a fresh
      empty board of the new size; an unchanged value changes nothing. */
  function RowsChosen(g: Game, n: nat): Game {
    if n == g.rows then g else g.(rows := n, board := CreateBoard(n, g.cols))
  }

  function ColsChosen(g: Game, n: nat): Game {
    if n == g.cols then g else g.(cols := n, board := CreateBoard(g.rows, n))
  }

  // ---- start, reset ----

  /** Start playing with the configured first player; if that player cannot
      move on the edited board, the game is over at once and the other player
      wins. */
  ghost function Started(g: Game): Game
    requires IsBoard(g.board, g.rows, g.cols)
  {
    var s := g.(state := Playing, current := g.initialPlayer, history := [], winner := None);
    if HasMoves(g.board, g.rows, g.cols, g.initialPlayer, g.variant) then s
    else s.(state := GameOver, winner := Some(Opponent(g.initialPlayer)))
  }

  lemma StartedOutcome(g: Game)
    requires IsBoard(g.board, g.rows, g.cols)
    ensures var s := Started(g);
      && s.current == g.initialPlayer && s.history == [] && s.board == g.board
      && (s.state == Playing <==> HasMoves(g.board, g.rows, g.cols, g.initialPlayer, g.variant))
      && (s.state == Playing ==> s.winner == None)
      && (s.state != Playing ==> s.state == GameOver && s.winner == Some(Opponent(g.initialPlayer)))
  {
  }

  /** Back to setup with no winner. The setup effect re-creates an empty board
      of the configured size when the state actually changes to setup. */
  function Reset(g: Game): Game {
    g.(state := Setup, winner := None,
       board := if g.state != Setup then CreateBoard(g.rows, g.cols) else g.board)
  }

  // ---- moves ----

  function ExpandDescription(origin: Coord, n: nat): string
    requires origin.r >= 0 && origin.c >= 0
  {
    "Expanded at (" + NatToString(origin.r + 1) + ", " + NatToString(origin.c + 1) + ") (+" + NatToString(n) + ")"
  }

  function PlaceDescription(cell: Coord): string
    requires cell.r >= 0 && cell.c >= 0
  {
    "Placed at (" + NatToString(cell.r + 1) + ", " + NatToString(cell.c + 1) + ")"
  }

  /** The cells of a move lie on the board. */
  predicate MoveInBounds(g: Game, m: Move) {
    match m
    case Expand(expansion, origin) =>
      InBounds(origin, g.rows, g.cols) && forall x :: x in expansion ==> InBounds(x, g.rows, g.cols)
    case Place(cell) => InBounds(cell, g.rows, g.cols)
  }

  function Describe(g: Game, m: Move): string
    requires MoveInBounds(g, m)
  {
    match m
    case Expand(expansion, origin) => ExpandDescription(origin, |expansion|)
    case Place(cell) => PlaceDescription(cell)
  }

  /** The board after the move: its cells take the mover's colour. */
  function Apply(g: Game, m: Move): (b: Board)
    requires IsBoard(g.board, g.rows, g.cols) && MoveInBounds(g, m)
  {
    match m
    case Expand(expansion, _) => Paint(g.board, g.rows, g.cols, expansion, g.current)
    case Place(cell) => SetCell(g.board, g.rows, g.cols, cell, g.current)
  }

  /** Perform a move: record the pre-move board in history, install the new
      board and pass the turn; if the next player then has no move the game
      is over and the mover wins. */
  ghost function Moved(g: Game, m: Move): Game
    requires IsBoard(g.board, g.rows, g.cols) && MoveInBounds(g, m)
  {
    var entry := MoveHistoryEntry(g.board, g.current, Describe(g, m), |g.history| + 1);
    var next := Opponent(g.current);
    var b := Apply(g, m);
    var s := g.(board := b, history := g.history + [entry], current := next);
    if HasMoves(b, g.rows, g.cols, next, g.variant) then s
    else s.(state := GameOver, winner := Some(g.current))
  }

  /** The state after a move, written out from its new board, its
      description and whether the next player can move. */
  lemma MovedAs(g: Game, m: Move, board': Board, desc: string, canMove: bool)
    requires IsBoard(g.board, g.rows, g.cols) && MoveInBounds(g, m)
    requires board' == Apply(g, m) && desc == Describe(g, m)
    requires canMove == HasMoves(board', g.rows, g.cols, Opponent(g.current), g.variant)
    ensures Moved(g, m) ==
      Game(g.rows, g.cols, g.variant, g.initialPlayer,
           if canMove then g.state else GameOver,
           board', Opponent(g.current),
           g.history + [MoveHistoryEntry(g.board, g.current, desc, |g.history| + 1)],
           if canMove then g.winner else Some(g.current))
  {
  }

  /** An expansion colours exactly its cells, a placement exactly its cell;
      one history entry is appended holding the old board and the mover; the
      turn passes; the game ends, won by the mover, exactly when the next
      player cannot move. */
  lemma MovedEffect(g: Game, m: Move)
    requires IsBoard(g.board, g.rows, g.cols) && MoveInBounds(g, m)
    ensures var g' := Moved(g, m);
      var painted := if m.Expand? then m.expansion else {m.cell};
      && IsBoard(g'.board, g.rows, g.cols)
      && (forall y :: InBounds(y, g.rows, g.cols) ==>
            At(g'.board, g.rows, g.cols, y) == if y in painted then g.current else At(g.board, g.rows, g.cols, y))
      && g'.history == g.history + [MoveHistoryEntry(g.board, g.current, Describe(g, m), |g.history| + 1)]
      && g'.current == Opponent(g.current)
      && (if HasMoves(g'.board, g.rows, g.cols, g'.current, g.variant)
          then g'.state == g.state && g'.winner == g.winner
          else g'.state == GameOver && g'.winner == Some(g.current))
      && g'.rows == g.rows && g'.cols == g.cols && g'.variant == g.variant
      && g'.initialPlayer == g.initialPlayer
  {
  }

  // ---- undo ----

  /** Pop the last history entry and restore its board and player; the game
      is playing again and has no winner. Nothing happens with an empty
      history or during setup. */
  function Undone(g: Game): Game {
    if |g.history| == 0 || g.state == Setup then g
    else
      var last := g.history[|g.history| - 1];
      g.(board := last.board, current := last.player, history := g.history[..|g.history| - 1],
         state := Playing, winner := None)
  }

  /** Undo is the inverse of a move: it restores the board, the player to
      move and the history, and the game is playing again. */
  lemma UndoAfterMove(g: Game, m: Move)
    requires IsBoard(g.board, g.rows, g.cols) && MoveInBounds(g, m)
    requires g.state == Playing && g.winner == None
    ensures Undone(Moved(g, m)) == g
  {
    var g' := Moved(g, m);
    assert g'.history[..|g'.history| - 1] == g.history;
  }

  // ---- clicks during play ----

  /** A legal move for the player to move: an expansion of one of their own
      groups that has a non-empty frontier, exactly into that frontier; or, in
      the void-expansion variant, a placement on an isolated empty cell. */
  ghost predicate LegalMove(g: Game, m: Move)
    requires IsBoard(g.board, g.rows, g.cols)
  {
    match m
    case Expand(expansion, origin) =>
      && InBounds(origin, g.rows, g.cols)
      && At(g.board, g.rows, g.cols, origin) == g.current
      && expansion == Frontier(g.board, g.rows, g.cols, Group(g.board, g.rows, g.cols, origin))
      && expansion != {}
    case Place(cell) =>
      && g.variant == VoidExpansion
      && InBounds(cell, g.rows, g.cols)
      && At(g.board, g.rows, g.cols, cell) == Empty
      && cell in Isolated(g.board, g.rows, g.cols, g.current)
  }

  /** A click on (r, c): setup edits in setup; while playing, an expansion
      from the player's own cell when its group can grow, else a placement on
      an isolated empty cell in the void-expansion variant; nothing otherwise. */
  ghost function Clicked(g: Game, r: int, c: int): Game
    requires IsBoard(g.board, g.rows, g.cols) && InBounds(Coord(r, c), g.rows, g.cols)
  {
    var x := Coord(r, c);
    if g.state == Setup then SetupClicked(g, r, c)
    else if g.state != Playing then g
    else if g.board[r][c] == g.current then
      var expansion := Frontier(g.board, g.rows, g.cols, Group(g.board, g.rows, g.cols, x));
      if |expansion| > 0 then Moved(g, Expand(expansion, x)) else g
    else if g.variant == VoidExpansion && g.board[r][c] == Empty then
      if x in Isolated(g.board, g.rows, g.cols, g.current) then Moved(g, Place(x)) else g
    else g
  }

  /** Outside setup, a click changes the state only by performing a legal
      move of the player to move, and only while playing. */
  lemma ClickedIsLegal(g: Game, r: int, c: int)
    requires IsBoard(g.board, g.rows, g.cols) && InBounds(Coord(r, c), g.rows, g.cols)
    requires g.state != Setup
    ensures var expand := Expand(Frontier(g.board, g.rows, g.cols, Group(g.board, g.rows, g.cols, Coord(r, c))), Coord(r, c));
      Clicked(g, r, c) == g ||
      (g.state == Playing &&
       ((LegalMove(g, expand) && Clicked(g, r, c) == Moved(g, expand)) ||
        (LegalMove(g, Place(Coord(r, c))) && Clicked(g, r, c) == Moved(g, Place(Coord(r, c))))))
  {
  }

  /** Conversely, every legal move is available through a click. */
  lemma LegalMoveIsClickable(g: Game, m: Move)
    requires IsBoard(g.board, g.rows, g.cols) && g.state == Playing && g.current != Empty
    requires LegalMove(g, m)
    ensures MoveInBounds(g, m)
    ensures m.Expand? ==> Clicked(g, m.origin.r, m.origin.c) == Moved(g, m)
    ensures m.Place? ==> Clicked(g, m.cell.r, m.cell.c) == Moved(g, m)
  {
  }

  // ---- the invariant is kept by every transition ----

  lemma InitialInvariant()
    ensures Invariant(Initial())
  {
  }

  lemma SetupClickedInvariant(g: Game, r: int, c: int)
    requires Invariant(g) && InBounds(Coord(r, c), g.rows, g.cols)
    ensures Invariant(SetupClicked(g, r, c))
  {
  }

  lemma ConfigurationInvariant(g: Game, v: GameVariant, p: Player, n: nat)
    requires Invariant(g) && g.state == Setup
    requires p != Empty && 1 <= n <= MaxSide
    ensures Invariant(VariantChosen(g, v))
    ensures Invariant(InitialPlayerChosen(g, p))
    ensures Invariant(RowsChosen(g, n)) && Invariant(ColsChosen(g, n))
  {
  }

  lemma StartedInvariant(g: Game)
    requires Shaped(g)
    ensures Invariant(Started(g))
  {
  }

  lemma ResetInvariant(g: Game)
    requires Invariant(g)
    ensures Invariant(Reset(g))
  {
  }

  lemma TurnsNumberedAppend(h: seq<MoveHistoryEntry>, e: MoveHistoryEntry)
    requires TurnsNumbered(h) && e.turnIndex == |h| + 1
    ensures TurnsNumbered(h + [e])
  {
    forall i | 0 <= i < |h + [e]|
      ensures (h + [e])[i].turnIndex == i + 1
    {
      if i < |h| {
        assert (h + [e])[i] == h[i];
      }
    }
  }

  lemma HistoryPlayableAppend(h: seq<MoveHistoryEntry>, e: MoveHistoryEntry,
                              rows: nat, cols: nat, variant: GameVariant)
    requires HistoryPlayable(h, rows, cols, variant)
    requires IsBoard(e.board, rows, cols) && e.player != Empty
    requires HasMoves(e.board, rows, cols, e.player, variant)
    ensures HistoryPlayable(h + [e], rows, cols, variant)
  {
    forall x | x in h + [e]
      ensures IsBoard(x.board, rows, cols) && x.player != Empty &&
              HasMoves(x.board, rows, cols, x.player, variant)
    {
      if x != e {
        assert x in h;
      }
    }
  }

  lemma MovedInvariant(g: Game, m: Move)
    requires Invariant(g) && g.state == Playing && MoveInBounds(g, m)
    ensures Invariant(Moved(g, m))
  {
    var b := Apply(g, m);
    var next := Opponent(g.current);
    var canMove := HasMoves(b, g.rows, g.cols, next, g.variant);
    var entry := MoveHistoryEntry(g.board, g.current, Describe(g, m), |g.history| + 1);
    MovedAs(g, m, b, Describe(g, m), canMove);
    TurnsNumberedAppend(g.history, entry);
    HistoryPlayableAppend(g.history, entry, g.rows, g.cols, g.variant);
  }

  lemma UndoneInvariant(g: Game)
    requires Invariant(g)
    ensures Invariant(Undone(g))
  {
    if |g.history| > 0 && g.state != Setup {
      var h := g.history[..|g.history| - 1];
      assert g.history[|g.history| - 1] in g.history;
      assert forall e :: e in h ==> e in g.history;
      assert forall i :: 0 <= i < |h| ==> h[i] == g.history[i];
    }
  }

  lemma ClickedInvariant(g: Game, r: int, c: int)
    requires Invariant(g) && InBounds(Coord(r, c), g.rows, g.cols)
    ensures Invariant(Clicked(g, r, c))
  {
    var x := Coord(r, c);
    if g.state == Setup {
      SetupClickedInvariant(g, r, c);
    } else if g.state == Playing {
      if g.board[r][c] == g.current {
        var expansion := Frontier(g.board, g.rows, g.cols, Group(g.board, g.rows, g.cols, x));
        if |expansion| > 0 {
          MovedInvariant(g, Expand(expansion, x));
        }
      } else if g.variant == VoidExpansion && g.board[r][c] == Empty &&
                x in Isolated(g.board, g.rows, g.cols, g.current) {
        MovedInvariant(g, Place(x));
      }
    }
  }

  // ---- worked examples ----

  /** On an empty board the first player has no piece and so no expansion:
      in the normal variant the game is over at once and the other player wins. */
  lemma EmptyBoardStartEndsGame(rows: nat, cols: nat, first: Player)
    requires first != Empty
    ensures var g := Game(rows, cols, Normal, first, Setup, CreateBoard(rows, cols), first, [], None);
      Started(g).state == GameOver && Started(g).winner == Some(Opponent(first))
  {
  }

  /** The 2 x 2 board with a single Blue piece in the top-left corner. */
  function CornerBoard(): Board {
    [[Blue, Empty], [Empty, Empty]]
  }

  /** On that board, Blue's group is the single piece and its frontier is the
      two cells beside it. */
  lemma CornerGroup()
    ensures Group(CornerBoard(), 2, 2, Coord(0, 0)) == {Coord(0, 0)}
    ensures Frontier(CornerBoard(), 2, 2, {Coord(0, 0)}) == {Coord(0, 1), Coord(1, 0)}
  {
    var b := CornerBoard();
    var o := Coord(0, 0);
    forall z | InBounds(z, 2, 2) && Adjacent(o, z)
      ensures At(b, 2, 2, z) == Empty
    {
    }
    assert Closed(b, 2, 2, Blue, {o});
    forall y | y in Group(b, 2, 2, o)
      ensures y == o
    {
      ClosedContainsConnected(b, 2, 2, Blue, {o}, o, y);
    }
    GroupIsComponent(b, 2, 2, o);
    assert Coord(0, 1) in Frontier(b, 2, 2, {o});
    assert Coord(1, 0) in Frontier(b, 2, 2, {o});
  }

  lemma CornerPaint()
    ensures Paint(CornerBoard(), 2, 2, {Coord(0, 1), Coord(1, 0)}, Blue) == [[Blue, Blue], [Blue, Empty]]
  {
    var b' := Paint(CornerBoard(), 2, 2, {Coord(0, 1), Coord(1, 0)}, Blue);
    assert b'[0][0] == Blue && b'[0][1] == Blue && b'[1][0] == Blue && b'[1][1] == Empty;
    assert b'[0] == [Blue, Blue] && b'[1] == [Blue, Empty];
  }

  /** A colour with no piece on the board has no move in the normal variant. */
  lemma AbsentColourStuck(b: Board, rows: nat, cols: nat, color: Player)
    requires IsBoard(b, rows, cols)
    requires forall x :: InBounds(x, rows, cols) ==> At(b, rows, cols, x) != color
    ensures !HasMoves(b, rows, cols, color, Normal)
  {
  }

  lemma CornerDescription()
    ensures ExpandDescription(Coord(0, 0), 2) == "Expanded at (1, 1) (+2)"
  {
    assert NatToString(1) == "1" && NatToString(2) == "2";
  }

  lemma CornerRedStuck()
    ensures !HasMoves([[Blue, Blue], [Blue, Empty]], 2, 2, Red, Normal)
  {
    var filled := [[Blue, Blue], [Blue, Empty]];
    assert forall x :: InBounds(x, 2, 2) ==> At(filled, 2, 2, x) != Red;
    AbsentColourStuck(filled, 2, 2, Red);
  }

  /** Expanding Blue's corner piece fills both neighbours and records
      "Expanded at (1, 1) (+2)"; Red then has no piece, so Blue wins. */
  lemma CornerExpansion()
    ensures var g := Game(2, 2, Normal, Blue, Playing, CornerBoard(), Blue, [], None);
      var m := Expand({Coord(0, 1), Coord(1, 0)}, Coord(0, 0));
      Moved(g, m) == g.(board := [[Blue, Blue], [Blue, Empty]], current := Red,
        history := [MoveHistoryEntry(CornerBoard(), Blue, "Expanded at (1, 1) (+2)", 1)],
        state := GameOver, winner := Some(Blue))
  {
    CornerPaint();
    CornerDescription();
    CornerRedStuck();
    assert |{Coord(0, 1), Coord(1, 0)}| == 2;
  }

  /** Clicking the corner piece performs that expansion. */
  lemma CornerClick()
    ensures var g := Game(2, 2, Normal, Blue, Playing, CornerBoard(), Blue, [], None);
      Clicked(g, 0, 0) == Moved(g, Expand({Coord(0, 1), Coord(1, 0)}, Coord(0, 0)))
  {
    CornerGroup();
  }

  /** Blue at (0, 0) and Red at (2, 2) on a 3 x 3 board: the cells beside Blue
      are not isolated for Blue, the far corner (0, 2) is. */
  lemma IsolatedExample()
    ensures var b := [[Blue, Empty, Empty], [Empty, Empty, Empty], [Empty, Empty, Red]];
      && Coord(0, 1) !in Isolated(b, 3, 3, Blue)
      && Coord(1, 0) !in Isolated(b, 3, 3, Blue)
      && Coord(0, 2) in Isolated(b, 3, 3, Blue)
      && Coord(2, 2) !in Isolated(b, 3, 3, Blue)
  {
    var b := [[Blue, Empty, Empty], [Empty, Empty, Empty], [Empty, Empty, Red]];
    assert Adjacent(Coord(0, 1), Coord(0, 0)) && At(b, 3, 3, Coord(0, 0)) == Blue;
    assert Adjacent(Coord(1, 0), Coord(0, 0));
    forall y | InBounds(y, 3, 3) && Adjacent(Coord(0, 2), y)
      ensures At(b, 3, 3, y) != Blue
    {
      assert y == Coord(0, 1) || y == Coord(1, 2);
    }
    assert Coord(0, 2) in AllCells(3, 3) && At(b, 3, 3, Coord(0, 2)) == Empty;
  }
}

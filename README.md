# Expand & Conquer — a verified model of the rules engine

Expand & Conquer is a two-player territory game on a rectangular grid of at
most 10 × 10 cells. Each cell is empty, Blue or Red. A player moves in one of
two ways:

- expand: pick one of their own cells; its connected group (all same-coloured cells reachable by side-adjacent steps) takes every empty cell next to it;
- place (only in the void-expansion variant): put a new piece on an empty cell that no cell of their colour touches.

A player who cannot move on their turn loses. Before play, a setup editor
lets the user choose:

- the dimensions;
- the variant;
- the first player;
- the starting position, by cycling each clicked cell Empty → Blue → Red → Empty.

During play, each move can be undone.

The model has seven files, each a module:

- `types.dfy` (`Types`): the value types of the game, namely players, boards, variants, session states, history entries and coordinates.
- `cell_keys.dfy` (`CellKeys`): the decimal `"r,c"` string keys by which the component and its board routines name cells, with their parser. Their round trip and injectivity justify modelling key sets as sets of `Coord`.
- `board.dfy` (`Boards`): board shape, neighbours, board creation and cell updates.
- `analysis.dfy` (`Analysis`): declarative definitions of a group, its frontier, the isolated cells and "can move", with the facts relating them.
- `game_utils.dfy` (`GameUtils`): the imperative board routines:
  - the breadth-first flood fill;
  - the frontier scan;
  - the two-pass isolated-cell scan;
  - the move-existence search.

  Each is proved to compute the declarative definition.
- `game_rules.dfy` (`GameRules`): the component's state machine as pure transitions over a snapshot of its state. It includes the invariant that every transition keeps, and lemmas about moves, undo and clicks.
- `expand_conquer_game.dfy` (`ExpandConquer`): the component as a class whose fields are the component's state variables. Each handler is proved to perform exactly the matching transition and to keep the invariant.

The main results:

- Flood fill:
  - the group returned is exactly the connected component of the clicked cell;
  - the queue loop runs at most rows × cols times.
- The frontier is exactly the empty cells adjacent to the group.
- The isolated list:
  - holds exactly the empty cells with no friendly neighbour;
  - is in row-major order;
  - has no repeats.
- The search's answer is exactly "some group has a non-empty frontier, or (void variant) some cell is isolated".
- Undoing a move restores the state before it.
- A click during play changes the state only by a legal move. Conversely, every legal move is reachable by a click.
- Every reachable state satisfies the invariant:
  - a winner exists exactly when the game is over;
  - the winner is the player not to move, who has no move;
  - while playing, the player to move has a move;
  - history turn indices count from 1.

## Model

| member | source | states |
|---|---|---|
| Types.Opponent | components/ExpandConquerGame.tsx:110 | the next player is a real colour and differs from the mover |
| CellKeys.DigitsValueOfNatToString | utils/gameUtils.ts:6 | the decimal rendering of a coordinate reads back as the same number |
| CellKeys.CellKeyRoundTrip | utils/gameUtils.ts:6-9 | parsing the key of (r, c) gives back (r, c) |
| CellKeys.CellKeyInjective | utils/gameUtils.ts:6 | two cells have the same key exactly when they are the same cell |
| CellKeys.ParseCellKey | utils/gameUtils.ts:8-9 | a parsed key yields a cell with non-negative coordinates |
| CellKeys.ParseCellKeyDigits | utils/gameUtils.ts:8-9 | two digit runs joined by ',' parse as the cell whose row and column are their decimal values |
| CellKeys.ParseCellKeyForm | utils/gameUtils.ts:8-9 | a string parses exactly when it is a non-empty digit run, a ',' and a non-empty digit run; every other string is rejected |
| Boards.CreateBoard | utils/gameUtils.ts:3-4 | the board is rows × cols and every cell is empty |
| Boards.Neighbour | utils/gameUtils.ts:24-27 | each of the four direction offsets gives a side-adjacent cell |
| Boards.AdjacentIsNeighbour | utils/gameUtils.ts:24 | the four directions cover every side-adjacent cell |
| Boards.SetCell | components/ExpandConquerGame.tsx:43-46 | the copy differs from the board only at the written cell, which holds the new colour |
| Boards.Paint | components/ExpandConquerGame.tsx:80-88 | the copy holds the mover's colour on the move's cells and the old contents everywhere else |
| Analysis.GroupIsComponent | utils/gameUtils.ts:11-39 | a non-empty cell's group contains it, lies on the board in its colour and is closed under same-coloured neighbours |
| Analysis.GroupOfMember | utils/gameUtils.ts:99-102 | the group of any member is the same group, so cells already visited need no new search |
| Analysis.ClosedContainsConnected | utils/gameUtils.ts:20-37 | a neighbour-closed set holding the start holds every cell connected to it |
| Analysis.HasMovesLocal | utils/gameUtils.ts:94-117 | a player can move exactly when one of their cells touches an empty cell, or the variant is void-expansion and some empty cell is isolated |
| Analysis.IsolatedComplement | utils/gameUtils.ts:63-92 | the isolated cells are the empty cells minus the cells adjacent to friends; together with the empty friend-adjacent cells they are every empty cell |
| GameUtils.VisitNeighbours | utils/gameUtils.ts:24-36 | appends exactly the unvisited same-coloured neighbours, marks them visited, and leaves no such neighbour unmarked |
| GameUtils.GetConnectedGroup | utils/gameUtils.ts:11-39 | the result is exactly the connected group of (r, c), empty for an empty cell, and the loop dequeues at most rows × cols cells |
| GameUtils.AddEmptyNeighbours | utils/gameUtils.ts:45-57 | the direction loop around one group member adds exactly its in-bounds empty neighbours to the expansion |
| GameUtils.GetExpansionCells | utils/gameUtils.ts:41-61 | the result is exactly the empty in-bounds cells adjacent to some member of the set |
| GameUtils.AddInBoundsNeighbours | utils/gameUtils.ts:71-78 | the direction loop around one friendly piece adds exactly its in-bounds neighbours |
| GameUtils.AdjacentToFriends | utils/gameUtils.ts:65-81 | the first pass collects exactly the in-bounds cells next to a cell of the colour |
| GameUtils.GetIsolatedSquares | utils/gameUtils.ts:63-92 | the list holds exactly the isolated empty cells, in row-major order, without repeats |
| GameUtils.HasAnyMoves | utils/gameUtils.ts:94-117 | the answer is true exactly when some group of the colour can expand or, in void-expansion, some cell is isolated |
| GameRules.SetupClickedEffect | components/ExpandConquerGame.tsx:41-48 | outside setup nothing changes; in setup only the clicked cell changes, cycling Empty → Blue → Red → Empty |
| GameRules.SetupClickedThrice | components/ExpandConquerGame.tsx:44-46 | three setup clicks on one cell restore the state |
| GameRules.StartedOutcome | components/ExpandConquerGame.tsx:50-61 | starting keeps the board, empties history and puts the first player to move; play goes on exactly when that player can move, otherwise the game is over and the other player wins |
| GameRules.MovedEffect | components/ExpandConquerGame.tsx:79-120 | a move colours exactly its cells, appends one history entry holding the old board, the mover and the next turn index, passes the turn, and ends the game won by the mover exactly when the next player cannot move |
| GameRules.UndoAfterMove | components/ExpandConquerGame.tsx:68-77 | undo right after a move from a playing state gives back that state |
| GameRules.ClickedIsLegal | components/ExpandConquerGame.tsx:151-176 | outside setup a click either changes nothing or, while playing, performs a legal expansion of the clicked group or a legal placement on the clicked cell |
| GameRules.LegalMoveIsClickable | components/ExpandConquerGame.tsx:151-176 | every legal move is performed by a click on its origin or cell |
| GameRules.InitialInvariant | components/ExpandConquerGame.tsx:17-27 | the state on mount satisfies the invariant |
| GameRules.SetupClickedInvariant | components/ExpandConquerGame.tsx:41-48 | setup editing keeps the invariant |
| GameRules.ConfigurationInvariant | components/ExpandConquerGame.tsx:33-37 | choosing variant, first player or a dimension within 1..10 keeps the invariant |
| GameRules.StartedInvariant | components/ExpandConquerGame.tsx:50-61 | starting from any well-shaped state yields a state satisfying the invariant |
| GameRules.ResetInvariant | components/ExpandConquerGame.tsx:63-66 | reset keeps the invariant |
| GameRules.MovedInvariant | components/ExpandConquerGame.tsx:79-120 | a move from a playing state keeps the invariant, including that the winner is the stuck player's opponent |
| GameRules.UndoneInvariant | components/ExpandConquerGame.tsx:68-77 | undo keeps the invariant: the restored player can move on the restored board |
| GameRules.ClickedInvariant | components/ExpandConquerGame.tsx:151-176 | every click keeps the invariant |
| GameRules.EmptyBoardStartEndsGame | components/ExpandConquerGame.tsx:56-60 | starting the normal variant on an empty board ends the game at once with the other player as winner |
| GameRules.AbsentColourStuck | utils/gameUtils.ts:94-108 | in the normal variant a colour with no piece on the board cannot move |
| GameRules.CornerGroup | utils/gameUtils.ts:11-61 | on a 2 × 2 board with one Blue corner, the group is that corner and its frontier is the two side cells |
| GameRules.CornerPaint | components/ExpandConquerGame.tsx:85-88 | painting that frontier Blue leaves only the far corner empty |
| GameRules.CornerDescription | components/ExpandConquerGame.tsx:89-92 | the description of that expansion is "Expanded at (1, 1) (+2)" |
| GameRules.CornerRedStuck | utils/gameUtils.ts:94-117 | Red, with no piece, cannot move after it |
| GameRules.CornerExpansion | components/ExpandConquerGame.tsx:79-120 | that expansion produces the painted board, one history entry with turn 1, Red to move, game over and Blue the winner |
| GameRules.CornerClick | components/ExpandConquerGame.tsx:163-168 | a click on the Blue corner performs that expansion |
| GameRules.IsolatedExample | utils/gameUtils.ts:63-92 | on a 3 × 3 board with Blue and Red in opposite corners, the cells beside Blue and the occupied Red corner are not isolated for Blue, while an empty corner not touching Blue is |
| ExpandConquer.PaintCells | components/ExpandConquerGame.tsx:85-88 | the loop writes the mover's colour into a copy, producing exactly the painted board |
| ExpandConquer.ExpandConquerGame.constructor | components/ExpandConquerGame.tsx:17-27 | the component starts in the initial state: 6 × 6 empty board, normal variant, Blue first, setup |
| ExpandConquer.ExpandConquerGame.SetVariant | components/ExpandConquerGame.tsx:205-216 | only the variant changes |
| ExpandConquer.ExpandConquerGame.SetInitialPlayer | components/ExpandConquerGame.tsx:245-253 | only the first player changes |
| ExpandConquer.ExpandConquerGame.SetRows | components/ExpandConquerGame.tsx:229 | the row count changes and, if it differs, the setup effect installs a fresh empty board |
| ExpandConquer.ExpandConquerGame.SetCols | components/ExpandConquerGame.tsx:237 | the column count changes and, if it differs, the setup effect installs a fresh empty board |
| ExpandConquer.ExpandConquerGame.HandleSetupClick | components/ExpandConquerGame.tsx:41-48 | performs the setup-click transition and keeps the invariant |
| ExpandConquer.ExpandConquerGame.StartGame | components/ExpandConquerGame.tsx:50-61 | performs the start transition, ending the game at once when the first player cannot move |
| ExpandConquer.ExpandConquerGame.ResetGame | components/ExpandConquerGame.tsx:63-66 | returns to setup with no winner; the setup effect (lines 33-37) recreates the board when the state changes |
| ExpandConquer.ExpandConquerGame.UndoMove | components/ExpandConquerGame.tsx:68-77 | restores the last entry's board and player, drops the entry and resumes play; nothing happens in setup or with no history |
| ExpandConquer.ExpandConquerGame.PrepareMove | components/ExpandConquerGame.tsx:80-97 | the new board is the move applied to a copy of the current one, and the description is the move's 1-based text |
| ExpandConquer.ExpandConquerGame.ExecuteMove | components/ExpandConquerGame.tsx:79-120 | performs the move transition: painted board, history entry, turn passed, game over when the next player is stuck |
| ExpandConquer.ExpandConquerGame.HandleCellClick | components/ExpandConquerGame.tsx:151-176 | performs the click transition; the invariant is kept |

## Left out

- Rendering is not modelled, because it has no effect on the game state. This covers the JSX from line 178 on, icons, colours (constants.ts), App.tsx and vite.config.ts.
- The hover preview (`hoveredCell` and `previewData`, ExpandConquerGame.tsx:30 and 124-149) is not modelled. It only draws highlights. It runs the same group, frontier and isolation routines that `HandleCellClick` uses.
- React's asynchronous, batched state updates are not modelled.
  - Each handler is one atomic update of the class fields, with the final values React would commit.
  - The setup effect (lines 33-37) is folded into the handlers that change its dependencies: `SetRows`, `SetCols` and `ResetGame`.
- ExpandConquer.ExpandConquerGame.SetRows: the number input's `parseInt` and its clamp to 1..10 (lines 229 and 237) are not modelled. The setters instead require a value in 1..10, and they require the setup state, because the form is rendered only in setup (line 201). SetCols, SetVariant and SetInitialPlayer have the same setup requirement.
- CellKeys.ParseCellKey: JavaScript's `Number` conversion of arbitrary strings (signs, spaces, exponents, `NaN`) is not modelled. Only keys of the form digits,digits parse. These are the only keys the program builds.
- Key strings are not used inside the board routines. Sets and lists of keys are modelled as sets and sequences of `Coord`. This is sound because the key encoding is injective and round-trips.
- ExpandConquer.ExpandConquerGame.ExecuteMove requires a well-shaped board and a move whose cells lie on it. Its only caller, `handleCellClick`, guarantees both, and calls it only while playing. ExecuteMove promises the move transition; its caller re-establishes the invariant through GameRules.ClickedInvariant. The untyped move payload is the datatype `Move`, so a move of any third kind cannot arise.
- ExpandConquer.ExpandConquerGame.HandleCellClick and HandleSetupClick require an on-board cell, which holds because clicks come only from the rendered cells. For an off-board index the component behaves otherwise: a row outside the board throws (`board[r]` is undefined); a column outside the board is ignored during play (`board[r][c]` is undefined, so neither branch of lines 161-175 is taken) and, in setup, lengthens that row by writing `Player.EMPTY` at index `c` (lines 45-47).
- Board sharing between history entries and the current board is modelled by value. The component always copies before writing, so no aliasing is observable.
- Integer width is not modelled. Coordinates and counts are at most 100, far below any JavaScript number limit.

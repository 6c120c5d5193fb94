/** The value types of the game: players, boards, variants, session states
    and history entries. */
module Types {

  /** A cell's content, which is also the colour a player owns. */
  datatype Player = Empty | Blue | Red

  /** A board is a sequence of rows; a well-formed one is rectangular. */
  type Board = seq<seq<Player>>

  datatype GameVariant = Normal | VoidExpansion

  datatype GameState = Setup | Playing | GameOver

  /** One step of the undo history: the board before the move, the player
      who made the move, a readable description and a 1-based turn index. */
  datatype MoveHistoryEntry = MoveHistoryEntry(
    board: Board,
    player: Player,
    description: string,
    turnIndex: int)

  /** A grid coordinate. The game's TypeScript implementation identifies a cell by the string key
      "r,c"; since that encoding is injective (CellKeys.CellKeyInjective),
      cells are modelled by the pair itself. */
  datatype Coord = Coord(r: int, c: int)

  datatype Option<T> = None | Some(value: T)

  /** The player who moves after `p`: the other colour (Blue after anything
      that is not Blue). */
  function Opponent(p: Player): (q: Player)
    ensures q != Empty && q != p
  {
    if p == Blue then Red else Blue
  }
}

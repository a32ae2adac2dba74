/** One slot of the Connect Four board and the two players who can occupy it. */
module Positions {

  /** The two players. Their colours and symbols are display details only. */
  datatype Player = Red | Green

  /** What a slot holds: the unoccupied sentinel, or one player's mark. */
  datatype Occupier = Empty | Mark(player: Player)

  /** A slot of the board. Its coordinates are fixed; its occupier is written once. */
  class Position {
    const row: int
    const column: int
    var occupier: Occupier

    constructor (row: int, column: int)
      ensures this.row == row && this.column == column
      ensures occupier == Empty
    {
      this.row := row;
      this.column := column;
      occupier := Empty;
    }

    predicate Occupied()
      reads this
    {
      occupier != Empty
    }

    /** Writes the player's mark, but only into an unoccupied slot. */
    method Update(player: Player)
      modifies this
      ensures !old(Occupied()) ==> occupier == Mark(player)
      ensures old(Occupied()) ==> occupier == old(occupier)
      ensures Occupied()
    {
      if !Occupied() {
        occupier := Mark(player);
      }
    }
  }
}

/**
 * The piece model of the minimax chess engine: the six piece kinds, the two players and the
 * mutable piece object that the board's list holds by reference.
 */
module ChessPieces {

  /** The six kinds, in the source's declaration order. */
  datatype PieceType = Pawn | Knight | Bishop | Rook | Queen | King

  /** Max moves up the board (y grows), Min moves down. */
  datatype Player = Max | Min

  /**
   * A piece. Kind and owner are fixed once the piece is set up; a move overwrites x and y only.
   * Two pieces are the same piece only when they are the same object.
   */
  class Piece {
    const kind: PieceType
    const owner: Player
    var x: int
    var y: int

    constructor (kind: PieceType, owner: Player, x: int, y: int)
      ensures this.kind == kind && this.owner == owner
      ensures this.x == x && this.y == y
    {
      this.kind := kind;
      this.owner := owner;
      this.x := x;
      this.y := y;
    }
  }

  /** The name the source prints for a kind. */
  function TypeName(t: PieceType): (s: string)
    ensures |s| >= 4 && 'a' <= s[|s| - 1] <= 'z'
  {
    match t
    case Pawn => "Pawn"
    case Knight => "Knight"
    case Bishop => "Bishop"
    case Rook => "Rook"
    case Queen => "Queen"
    case King => "King"
  }
}

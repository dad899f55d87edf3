/**
 * The rules of the simplified chess board, on values: a layout is the board's piece list seen
 * as (piece, x, y) entries in list order, and each generator computes the list of moves the
 * board's generator appends, in the same order.
 */
module ChessRules {
  import opened ChessPieces
  import opened ChessMoves

  /** One entry of the board's list: a piece reference and the square it stands on. */
  datatype Placed = Placed(piece: Piece, x: int, y: int)

  type Layout = seq<Placed>

  function Opponent(p: Player): (r: Player)
    ensures r != p
  {
    if p == Max then Min else Max
  }

  lemma OpponentInvolution(p: Player)
    ensures Opponent(Opponent(p)) == p
  {
  }

  predicate IsInsideBoard(x: int, y: int) {
    0 <= x < 8 && 0 <= y < 8
  }

  /** The rank step of a pawn: up the board for Max, down for Min. */
  function Direction(owner: Player): (d: int)
    ensures d == 1 || d == -1
    ensures d == 1 <==> owner == Max
  {
    if owner == Max then 1 else -1
  }

  function PieceValue(t: PieceType): (v: int)
    ensures 1 <= v <= 100
  {
    match t
    case Pawn => 1
    case Knight => 3
    case Bishop => 3
    case Rook => 5
    case Queen => 9
    case King => 100
  }

  predicate At(e: Placed, x: int, y: int) {
    e.x == x && e.y == y
  }

  predicate Occupied(s: Layout, x: int, y: int) {
    exists e :: e in s && At(e, x, y)
  }

  /** Index of the first entry on square (x, y), or |s| when there is none. */
  function SquareIndex(s: Layout, x: int, y: int): (k: nat)
    ensures k <= |s|
    ensures forall j | 0 <= j < k :: !At(s[j], x, y)
    ensures k < |s| ==> At(s[k], x, y)
  {
    if |s| == 0 then 0
    else if At(s[0], x, y) then 0
    else 1 + SquareIndex(s[1..], x, y)
  }

  /** The first piece in list order standing on (x, y), or null. */
  function PieceAt(s: Layout, x: int, y: int): (r: Piece?)
    ensures r == null <==> !Occupied(s, x, y)
    ensures r != null ==> Placed(r, x, y) in s
  {
    var k := SquareIndex(s, x, y);
    if k < |s| then
      assert s[k] == Placed(s[k].piece, x, y);
      s[k].piece
    else
      null
  }

  predicate EnemyOn(e: Placed, x: int, y: int, owner: Player) {
    At(e, x, y) && e.piece.owner != owner
  }

  /** Index of the first entry on (x, y) not owned by owner, or |s|. */
  function EnemyIndex(s: Layout, x: int, y: int, owner: Player): (k: nat)
    ensures k <= |s|
    ensures forall j | 0 <= j < k :: !EnemyOn(s[j], x, y, owner)
    ensures k < |s| ==> EnemyOn(s[k], x, y, owner)
  {
    if |s| == 0 then 0
    else if EnemyOn(s[0], x, y, owner) then 0
    else 1 + EnemyIndex(s[1..], x, y, owner)
  }

  /** The first piece on (x, y) not owned by owner, or null. */
  function EnemyAt(s: Layout, x: int, y: int, owner: Player): (r: Piece?)
    ensures r == null <==> forall e | e in s :: !EnemyOn(e, x, y, owner)
    ensures r != null ==> Placed(r, x, y) in s && r.owner != owner
  {
    var k := EnemyIndex(s, x, y, owner);
    if k < |s| then
      assert s[k] == Placed(s[k].piece, x, y);
      s[k].piece
    else
      null
  }

  /** A move of the piece of entry e from its square to (x, y). */
  function MoveTo(e: Placed, x: int, y: int, captured: Piece?): Ply {
    Ply(e.piece, e.x, e.y, x, y, captured)
  }

  // ---- Pawn ----

  function PawnCapture(s: Layout, e: Placed, x: int, y: int): seq<Ply> {
    if !IsInsideBoard(x, y) then []
    else
      var c := EnemyAt(s, x, y, e.piece.owner);
      if c == null then [] else [MoveTo(e, x, y, c)]
  }

  function PawnMoves(s: Layout, e: Placed): seq<Ply> {
    var ty := e.y + Direction(e.piece.owner);
    if !IsInsideBoard(e.x, ty) then []
    else
      var forward := if PieceAt(s, e.x, ty) == null then [MoveTo(e, e.x, ty, null)] else [];
      forward + PawnCapture(s, e, e.x - 1, ty) + PawnCapture(s, e, e.x + 1, ty)
  }

  // ---- Knight and king steps ----

  const KnightDeltas: seq<(int, int)> :=
    [(1, 2), (2, 1), (-1, 2), (-2, 1), (-1, -2), (-2, -1), (1, -2), (2, -1)]

  const KingDeltas: seq<(int, int)> :=
    [(1, 0), (-1, 0), (0, 1), (0, -1), (1, 1), (1, -1), (-1, 1), (-1, -1)]

  /** A step onto (x, y) when it is on the board and not held by a piece of the mover's side. */
  function TryStep(s: Layout, e: Placed, x: int, y: int): seq<Ply> {
    if !IsInsideBoard(x, y) then []
    else
      var t := PieceAt(s, x, y);
      if t == null || t.owner != e.piece.owner then [MoveTo(e, x, y, t)] else []
  }

  /** The steps for a list of deltas, in list order. */
  function Steps(s: Layout, e: Placed, ds: seq<(int, int)>): seq<Ply>
    decreases |ds|
  {
    if |ds| == 0 then []
    else
      var d := ds[|ds| - 1];
      Steps(s, e, ds[..|ds| - 1]) + TryStep(s, e, e.x + d.0, e.y + d.1)
  }

  // ---- Sliding pieces ----

  const BishopDirs: seq<(int, int)> := [(1, 1), (1, -1), (-1, 1), (-1, -1)]
  const RookDirs: seq<(int, int)> := [(1, 0), (-1, 0), (0, 1), (0, -1)]
  const QueenDirs: seq<(int, int)> := [(1, 0), (-1, 0), (0, 1), (0, -1), (1, 1), (1, -1), (-1, 1), (-1, -1)]

  predicate UnitStep(d: (int, int)) {
    -1 <= d.0 <= 1 && -1 <= d.1 <= 1 && d != (0, 0)
  }

  /** How many squares remain along one coordinate before the walk leaves the board. */
  function Span(d: int, c: int): int {
    if d > 0 then 8 - c else if d < 0 then c + 1 else 0
  }

  /** The walk from (x, y) in direction d: empty squares, then possibly one capture. */
  function Ray(s: Layout, e: Placed, d: (int, int), x: int, y: int): seq<Ply>
    requires UnitStep(d)
    decreases Span(d.0, x) + Span(d.1, y)
  {
    if !IsInsideBoard(x, y) then []
    else
      var t := PieceAt(s, x, y);
      if t == null then [MoveTo(e, x, y, null)] + Ray(s, e, d, x + d.0, y + d.1)
      else if t.owner != e.piece.owner then [MoveTo(e, x, y, t)]
      else []
  }

  /** The walks for a list of directions, in list order. */
  function Slides(s: Layout, e: Placed, dirs: seq<(int, int)>): seq<Ply>
    requires forall i | 0 <= i < |dirs| :: UnitStep(dirs[i])
    decreases |dirs|
  {
    if |dirs| == 0 then []
    else
      var d := dirs[|dirs| - 1];
      Slides(s, e, dirs[..|dirs| - 1]) + Ray(s, e, d, e.x + d.0, e.y + d.1)
  }

  // ---- Castling (Max only, the rook stays where it is) ----

  function Castling(s: Layout, e: Placed): seq<Ply> {
    if e.piece.owner == Max && e.x == 4 && e.y == 0 then
      (if !Occupied(s, 5, 0) && !Occupied(s, 6, 0) then [MoveTo(e, 6, 0, null)] else [])
      + (if !Occupied(s, 3, 0) && !Occupied(s, 2, 0) && !Occupied(s, 1, 0) then [MoveTo(e, 2, 0, null)] else [])
    else []
  }

  /** The moves of the piece of entry e, by kind. */
  function PieceMoves(s: Layout, e: Placed): seq<Ply> {
    match e.piece.kind
    case Pawn => PawnMoves(s, e)
    case Knight => Steps(s, e, KnightDeltas)
    case Bishop => Slides(s, e, BishopDirs)
    case Rook => Slides(s, e, RookDirs)
    case Queen => Slides(s, e, QueenDirs)
    case King => Steps(s, e, KingDeltas) + Castling(s, e)
  }

  /** The moves of the pieces of list l owned by p, in list order, computed on layout s. */
  function MovesFrom(s: Layout, l: Layout, p: Player): seq<Ply>
    decreases |l|
  {
    if |l| == 0 then []
    else
      var e := l[|l| - 1];
      MovesFrom(s, l[..|l| - 1], p) + (if e.piece.owner == p then PieceMoves(s, e) else [])
  }

  function Moves(s: Layout, p: Player): seq<Ply> {
    MovesFrom(s, s, p)
  }
}

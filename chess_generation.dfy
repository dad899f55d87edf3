/**
 * What the generators of the chess rules promise: the shape of pawn, step, sliding and
 * castling moves, which pieces contribute to a side's list, and that every generated move
 * starts from the mover's square and ends on the board without landing on its own side.
 */
module ChessGeneration {
  import opened ChessPieces
  import opened ChessMoves
  import opened ChessRules

  // ---- Pawn ----

  /** A pawn goes one rank forward onto an empty square or diagonally forward onto an enemy. */
  lemma PawnShape(s: Layout, e: Placed, m: Ply)
    requires m in PawnMoves(s, e)
    ensures m.piece == e.piece && m.ox == e.x && m.oy == e.y
    ensures m.ty == e.y + Direction(e.piece.owner) && IsInsideBoard(m.tx, m.ty)
    ensures m.tx == e.x ==> m.captured == null && !Occupied(s, m.tx, m.ty)
    ensures m.tx != e.x ==>
      (m.tx == e.x - 1 || m.tx == e.x + 1) && m.captured != null && Placed(m.captured, m.tx, m.ty) in s && m.captured.owner != e.piece.owner
  {
    var ty := e.y + Direction(e.piece.owner);
    var forward := if PieceAt(s, e.x, ty) == null then [MoveTo(e, e.x, ty, null)] else [];
    var left := PawnCapture(s, e, e.x - 1, ty);
    var right := PawnCapture(s, e, e.x + 1, ty);
    assert PawnMoves(s, e) == forward + left + right;
    assert m in forward || m in left || m in right;
  }

  /** The forward step is offered exactly when the square ahead is on the board and empty. */
  lemma PawnForward(s: Layout, e: Placed)
    ensures var ty := e.y + Direction(e.piece.owner);
      MoveTo(e, e.x, ty, null) in PawnMoves(s, e) <==> IsInsideBoard(e.x, ty) && !Occupied(s, e.x, ty)
  {
    var ty := e.y + Direction(e.piece.owner);
    if IsInsideBoard(e.x, ty) && !Occupied(s, e.x, ty) {
      assert PawnMoves(s, e)[0] == MoveTo(e, e.x, ty, null);
    }
    if MoveTo(e, e.x, ty, null) in PawnMoves(s, e) {
      PawnShape(s, e, MoveTo(e, e.x, ty, null));
    }
  }

  /** A diagonal capture is offered exactly when the square is on the board and holds an enemy. */
  lemma PawnDiagonal(s: Layout, e: Placed, x: int)
    requires IsInsideBoard(e.x, e.y)
    requires x == e.x - 1 || x == e.x + 1
    ensures var ty := e.y + Direction(e.piece.owner);
      (exists c :: c != null && MoveTo(e, x, ty, c) in PawnMoves(s, e))
      <==> IsInsideBoard(x, ty) && EnemyAt(s, x, ty, e.piece.owner) != null
  {
    var ty := e.y + Direction(e.piece.owner);
    if IsInsideBoard(x, ty) && EnemyAt(s, x, ty, e.piece.owner) != null {
      PawnDiagonalOffered(s, e, x, ty);
    }
    if exists c :: c != null && MoveTo(e, x, ty, c) in PawnMoves(s, e) {
      var c :| c != null && MoveTo(e, x, ty, c) in PawnMoves(s, e);
      PawnDiagonalOnly(s, e, x, ty, c);
    }
  }

  lemma PawnDiagonalOffered(s: Layout, e: Placed, x: int, ty: int)
    requires IsInsideBoard(e.x, e.y) && ty == e.y + Direction(e.piece.owner)
    requires x == e.x - 1 || x == e.x + 1
    requires IsInsideBoard(x, ty) && EnemyAt(s, x, ty, e.piece.owner) != null
    ensures MoveTo(e, x, ty, EnemyAt(s, x, ty, e.piece.owner)) in PawnMoves(s, e)
  {
    var c := EnemyAt(s, x, ty, e.piece.owner);
    var forward := if PieceAt(s, e.x, ty) == null then [MoveTo(e, e.x, ty, null)] else [];
    var left := PawnCapture(s, e, e.x - 1, ty);
    var right := PawnCapture(s, e, e.x + 1, ty);
    assert IsInsideBoard(e.x, ty);
    assert PawnMoves(s, e) == forward + left + right;
    if x == e.x - 1 {
      assert left == [MoveTo(e, x, ty, c)];
    } else {
      assert right == [MoveTo(e, x, ty, c)];
    }
  }

  lemma PawnDiagonalOnly(s: Layout, e: Placed, x: int, ty: int, c: Piece?)
    requires IsInsideBoard(e.x, e.y) && ty == e.y + Direction(e.piece.owner)
    requires x == e.x - 1 || x == e.x + 1
    requires c != null && MoveTo(e, x, ty, c) in PawnMoves(s, e)
    ensures IsInsideBoard(x, ty) && EnemyAt(s, x, ty, e.piece.owner) != null
  {
    var m := MoveTo(e, x, ty, c);
    PawnShape(s, e, m);
    var forward := if PieceAt(s, e.x, ty) == null then [MoveTo(e, e.x, ty, null)] else [];
    var left := PawnCapture(s, e, e.x - 1, ty);
    var right := PawnCapture(s, e, e.x + 1, ty);
    assert IsInsideBoard(e.x, ty);
    assert PawnMoves(s, e) == forward + left + right;
    assert m !in forward;
    assert m in left || m in right;
  }

  /** A pawn on the last rank of its direction has no moves at all. */
  lemma PawnAtEdge(s: Layout, e: Placed)
    requires !IsInsideBoard(e.x, e.y + Direction(e.piece.owner))
    ensures PawnMoves(s, e) == []
  {
  }

  // ---- Steps ----

  /** The square a step reaches is on the board and not held by the mover's side. */
  predicate StepAllowed(s: Layout, e: Placed, d: (int, int)) {
    var t := PieceAt(s, e.x + d.0, e.y + d.1);
    IsInsideBoard(e.x + d.0, e.y + d.1) && (t == null || t.owner != e.piece.owner)
  }

  function StepMove(s: Layout, e: Placed, d: (int, int)): Ply {
    MoveTo(e, e.x + d.0, e.y + d.1, PieceAt(s, e.x + d.0, e.y + d.1))
  }

  /** Steps yield exactly the allowed deltas, each capturing whatever stands on its square. */
  lemma {:induction false} StepsMembers(s: Layout, e: Placed, ds: seq<(int, int)>, m: Ply)
    ensures m in Steps(s, e, ds) <==> exists d :: d in ds && StepAllowed(s, e, d) && m == StepMove(s, e, d)
    ensures |Steps(s, e, ds)| <= |ds|
    decreases |ds|
  {
    if |ds| > 0 {
      var init := ds[..|ds| - 1];
      var d := ds[|ds| - 1];
      StepsMembers(s, e, init, m);
      assert ds == init + [d];
      assert TryStep(s, e, e.x + d.0, e.y + d.1) == if StepAllowed(s, e, d) then [StepMove(s, e, d)] else [];
      if m in Steps(s, e, ds) && !(m in Steps(s, e, init)) {
        assert d in ds;
      }
      if exists d' :: d' in ds && StepAllowed(s, e, d') && m == StepMove(s, e, d') {
        var d' :| d' in ds && StepAllowed(s, e, d') && m == StepMove(s, e, d');
        if d' != d {
          assert d' in init;
        }
      }
    }
  }

  // ---- Rays ----

  function Along(c: int, i: int, d: int): int {
    c + i * d
  }

  /** The square i steps along direction d from (x, y). */
  function RaySquareMove(s: Layout, e: Placed, d: (int, int), x: int, y: int, i: int): Ply {
    var (px, py) := (Along(x, i, d.0), Along(y, i, d.1));
    MoveTo(e, px, py, PieceAt(s, px, py))
  }

  /**
   * A walk lists the squares x + i*d in order, all on the board, each capturing whatever stands
   * there; every square but the last is empty; and the walk ends because the last square held
   * an enemy, or the next square is off the board or held by the mover's side.
   */
  lemma {:induction false} RayShape(s: Layout, e: Placed, d: (int, int), x: int, y: int)
    requires UnitStep(d)
    ensures var r := Ray(s, e, d, x, y);
      (forall i | 0 <= i < |r| :: r[i] == RaySquareMove(s, e, d, x, y, i)
        && IsInsideBoard(r[i].tx, r[i].ty))
      && (forall i | 0 <= i < |r| - 1 :: r[i].captured == null)
      && (forall i | 0 <= i < |r| :: r[i].captured != null ==> r[i].captured.owner != e.piece.owner)
      && ((|r| > 0 && r[|r| - 1].captured != null)
        || !IsInsideBoard(Along(x, |r|, d.0), Along(y, |r|, d.1))
        || (var t := PieceAt(s, Along(x, |r|, d.0), Along(y, |r|, d.1)); t != null && t.owner == e.piece.owner))
  {
    var r := Ray(s, e, d, x, y);
    forall i | 0 <= i < |r|
      ensures r[i] == RaySquareMove(s, e, d, x, y, i) && IsInsideBoard(r[i].tx, r[i].ty)
      ensures (i < |r| - 1 ==> r[i].captured == null)
      ensures r[i].captured != null ==> r[i].captured.owner != e.piece.owner
    {
      RaySquareAt(s, e, d, x, y, i);
      RayCaptureAt(s, e, d, x, y, i);
    }
    RayStop(s, e, d, x, y);
  }

  /** Square i of a walk is i steps along d and lies on the board. */
  lemma {:induction false} RaySquareAt(s: Layout, e: Placed, d: (int, int), x: int, y: int, i: nat)
    requires UnitStep(d) && i < |Ray(s, e, d, x, y)|
    ensures var r := Ray(s, e, d, x, y);
      r[i] == RaySquareMove(s, e, d, x, y, i) && IsInsideBoard(r[i].tx, r[i].ty)
    decreases i
  {
    var r := Ray(s, e, d, x, y);
    if PieceAt(s, x, y) == null {
      var rest := Ray(s, e, d, x + d.0, y + d.1);
      assert r == [MoveTo(e, x, y, null)] + rest;
      if i > 0 {
        RaySquareAt(s, e, d, x + d.0, y + d.1, i - 1);
        AlongShift(x, i, d.0);
        AlongShift(y, i, d.1);
        assert r[i] == rest[i - 1];
      }
    }
  }

  lemma AlongShift(c: int, i: int, d: int)
    ensures Along(c + d, i - 1, d) == Along(c, i, d)
  {
  }

  /** Square i of a walk: only the last square may capture, and only an enemy. */
  lemma {:induction false} RayCaptureAt(s: Layout, e: Placed, d: (int, int), x: int, y: int, i: nat)
    requires UnitStep(d) && i < |Ray(s, e, d, x, y)|
    ensures var r := Ray(s, e, d, x, y);
      (i < |r| - 1 ==> r[i].captured == null)
      && (r[i].captured != null ==> r[i].captured.owner != e.piece.owner)
    decreases i
  {
    var r := Ray(s, e, d, x, y);
    if PieceAt(s, x, y) == null {
      var rest := Ray(s, e, d, x + d.0, y + d.1);
      assert r == [MoveTo(e, x, y, null)] + rest;
      if i > 0 {
        RayCaptureAt(s, e, d, x + d.0, y + d.1, i - 1);
        assert r[i] == rest[i - 1];
      }
    }
  }

  lemma {:induction false} RayStop(s: Layout, e: Placed, d: (int, int), x: int, y: int)
    requires UnitStep(d)
    ensures var r := Ray(s, e, d, x, y);
      (|r| > 0 && r[|r| - 1].captured != null)
      || !IsInsideBoard(Along(x, |r|, d.0), Along(y, |r|, d.1))
      || (var t := PieceAt(s, Along(x, |r|, d.0), Along(y, |r|, d.1)); t != null && t.owner == e.piece.owner)
    decreases Span(d.0, x) + Span(d.1, y)
  {
    var r := Ray(s, e, d, x, y);
    if IsInsideBoard(x, y) && PieceAt(s, x, y) == null {
      var rest := Ray(s, e, d, x + d.0, y + d.1);
      RayStop(s, e, d, x + d.0, y + d.1);
      assert r == [MoveTo(e, x, y, null)] + rest;
      AlongShift(x, |r|, d.0);
      AlongShift(y, |r|, d.1);
      if |rest| > 0 {
        assert r[|r| - 1] == rest[|rest| - 1];
      }
    }
  }

  /** How many squares lie ahead of (x, y) in direction d, counting (x, y) itself. */
  function Room(d: (int, int), x: int, y: int): int {
    if !IsInsideBoard(x, y) then 0
    else if d.0 != 0 then Span(d.0, x)
    else Span(d.1, y)
  }

  lemma {:induction false} RayLength(s: Layout, e: Placed, d: (int, int), x: int, y: int)
    requires UnitStep(d)
    ensures |Ray(s, e, d, x, y)| <= Room(d, x, y)
    decreases Span(d.0, x) + Span(d.1, y)
  {
    if IsInsideBoard(x, y) && PieceAt(s, x, y) == null {
      RayLength(s, e, d, x + d.0, y + d.1);
    }
  }

  /** A walk that starts next to a square on the board has at most seven moves. */
  lemma RayFromSquare(s: Layout, e: Placed, d: (int, int))
    requires UnitStep(d) && IsInsideBoard(e.x, e.y)
    ensures |Ray(s, e, d, e.x + d.0, e.y + d.1)| <= 7
  {
    RayLength(s, e, d, e.x + d.0, e.y + d.1);
  }

  /** The walk of direction d starting next to the piece of entry e. */
  function DirRay(s: Layout, e: Placed, d: (int, int)): seq<Ply> {
    if UnitStep(d) then Ray(s, e, d, e.x + d.0, e.y + d.1) else []
  }

  /** Slides are the union of the walks of their directions. */
  lemma {:induction false} SlidesMembers(s: Layout, e: Placed, dirs: seq<(int, int)>, m: Ply)
    requires forall i | 0 <= i < |dirs| :: UnitStep(dirs[i])
    ensures m in Slides(s, e, dirs) <==> exists d :: d in dirs && m in DirRay(s, e, d)
    decreases |dirs|
  {
    if |dirs| > 0 {
      var init := dirs[..|dirs| - 1];
      var last := dirs[|dirs| - 1];
      assert dirs == init + [last];
      SlidesMembers(s, e, init, m);
      assert Slides(s, e, dirs) == Slides(s, e, init) + DirRay(s, e, last);
      if exists d :: d in dirs && m in DirRay(s, e, d) {
        var d :| d in dirs && m in DirRay(s, e, d);
        if d != last {
          assert d in init;
        }
      }
    }
  }

  lemma {:induction false} SlidesLength(s: Layout, e: Placed, dirs: seq<(int, int)>)
    requires forall i | 0 <= i < |dirs| :: UnitStep(dirs[i])
    requires IsInsideBoard(e.x, e.y)
    ensures |Slides(s, e, dirs)| <= 7 * |dirs|
    decreases |dirs|
  {
    if |dirs| > 0 {
      var d := dirs[|dirs| - 1];
      SlidesLength(s, e, dirs[..|dirs| - 1]);
      RayFromSquare(s, e, d);
    }
  }

  // ---- Castling ----

  /**
   * Castling is offered only to Max's piece on (4, 0): to (6, 0) when (5, 0) and (6, 0) are
   * empty, to (2, 0) when (3, 0), (2, 0) and (1, 0) are empty, never capturing.
   */
  lemma CastlingMembers(s: Layout, e: Placed, m: Ply)
    ensures m in Castling(s, e) <==>
      e.piece.owner == Max && e.x == 4 && e.y == 0 &&
      ((m == MoveTo(e, 6, 0, null) && !Occupied(s, 5, 0) && !Occupied(s, 6, 0))
       || (m == MoveTo(e, 2, 0, null) && !Occupied(s, 3, 0) && !Occupied(s, 2, 0) && !Occupied(s, 1, 0)))
  {
  }

  // ---- Whole side ----

  /** A side's moves are the moves of the pieces it owns, and of no others. */
  lemma {:induction false} MovesFromMembers(s: Layout, l: Layout, p: Player, m: Ply)
    ensures m in MovesFrom(s, l, p) <==> exists e :: e in l && e.piece.owner == p && m in PieceMoves(s, e)
    decreases |l|
  {
    if |l| > 0 {
      var init := l[..|l| - 1];
      var last := l[|l| - 1];
      MovesFromMembers(s, init, p, m);
      assert l == init + [last];
      if exists e :: e in l && e.piece.owner == p && m in PieceMoves(s, e) {
        var e :| e in l && e.piece.owner == p && m in PieceMoves(s, e);
        if e != last {
          assert e in init;
        }
      }
    }
  }

  /** A side owning no piece has no moves. */
  lemma {:induction false} NoPiecesNoMoves(s: Layout, l: Layout, p: Player)
    requires forall e | e in l :: e.piece.owner != p
    ensures MovesFrom(s, l, p) == []
    decreases |l|
  {
    if |l| > 0 {
      NoPiecesNoMoves(s, l[..|l| - 1], p);
      assert l[|l| - 1] in l;
    }
  }

  /**
   * What holds for every generated move: it is the owner's piece, it starts from the square the
   * layout lists for it, it ends on the board, a plain move lands on an empty square and a
   * capture takes an enemy piece listed on the target square.
   */
  predicate Sound(s: Layout, p: Player, m: Ply) {
    m.piece.owner == p
    && Placed(m.piece, m.ox, m.oy) in s
    && IsInsideBoard(m.tx, m.ty)
    && (m.captured == null ==> !Occupied(s, m.tx, m.ty))
    && (m.captured != null ==> Placed(m.captured, m.tx, m.ty) in s && m.captured.owner != p)
  }

  lemma StepsSound(s: Layout, e: Placed, ds: seq<(int, int)>, m: Ply)
    requires e in s && m in Steps(s, e, ds)
    ensures Sound(s, e.piece.owner, m)
  {
    StepsMembers(s, e, ds, m);
  }

  lemma SlidesSound(s: Layout, e: Placed, dirs: seq<(int, int)>, m: Ply)
    requires forall i | 0 <= i < |dirs| :: UnitStep(dirs[i])
    requires e in s && m in Slides(s, e, dirs)
    ensures Sound(s, e.piece.owner, m)
  {
    SlidesMembers(s, e, dirs, m);
    var d :| d in dirs && m in DirRay(s, e, d);
    RaySound(s, e, d, m);
  }

  lemma RaySound(s: Layout, e: Placed, d: (int, int), m: Ply)
    requires UnitStep(d) && e in s && m in Ray(s, e, d, e.x + d.0, e.y + d.1)
    ensures Sound(s, e.piece.owner, m)
  {
    var r := Ray(s, e, d, e.x + d.0, e.y + d.1);
    var k :| 0 <= k < |r| && r[k] == m;
    RaySquareAt(s, e, d, e.x + d.0, e.y + d.1, k);
    RayCaptureAt(s, e, d, e.x + d.0, e.y + d.1, k);
    assert m.captured == null ==> !Occupied(s, m.tx, m.ty);
  }

  lemma PieceMovesSound(s: Layout, e: Placed, m: Ply)
    requires e in s && m in PieceMoves(s, e)
    ensures Sound(s, e.piece.owner, m)
  {
    match e.piece.kind
    case Pawn => PawnShape(s, e, m);
    case Knight => StepsSound(s, e, KnightDeltas, m);
    case Bishop => SlidesSound(s, e, BishopDirs, m);
    case Rook => SlidesSound(s, e, RookDirs, m);
    case Queen => SlidesSound(s, e, QueenDirs, m);
    case King =>
      if m in Steps(s, e, KingDeltas) {
        StepsSound(s, e, KingDeltas, m);
      } else {
        CastlingMembers(s, e, m);
      }
  }

  /** Every move of a side's list is sound for that side. */
  lemma MovesSound(s: Layout, p: Player, m: Ply)
    requires m in Moves(s, p)
    ensures Sound(s, p, m)
  {
    MovesFromMembers(s, s, p, m);
    var e :| e in s && e.piece.owner == p && m in PieceMoves(s, e);
    PieceMovesSound(s, e, m);
  }
}

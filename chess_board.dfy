/**
 * The board object: a list of piece references whose coordinates live in the pieces themselves.
 * Move generation reads the list, ApplyMove and UndoMove change it and the pieces in place, and
 * every method is tied to the value rules through View(), the list seen as entries.
 */
module ChessBoard {
  import opened ChessPieces
  import opened ChessMoves
  import opened ChessRules
  import opened ChessPosition

  /** The entries of a list of pieces: each piece with the square it stands on now. */
  function Snapshot(ps: seq<Piece>): (s: Layout)
    reads ps
    ensures |s| == |ps|
  {
    if |ps| == 0 then [] else Snapshot(ps[..|ps| - 1]) + [Placed(ps[|ps| - 1], ps[|ps| - 1].x, ps[|ps| - 1].y)]
  }

  /** Entry i of the snapshot is piece i on its current square. */
  lemma {:induction false} SnapshotEntries(ps: seq<Piece>)
    ensures forall i | 0 <= i < |ps| :: Snapshot(ps)[i] == Placed(ps[i], ps[i].x, ps[i].y)
    decreases |ps|
  {
    if |ps| > 0 {
      SnapshotEntries(ps[..|ps| - 1]);
    }
  }

  /** The pieces a layout refers to. */
  ghost function Refs(s: Layout): set<Piece> {
    set e | e in s :: e.piece
  }

  /** An entry of a snapshot names a listed piece and the square that piece stands on. */
  lemma InSnapshot(ps: seq<Piece>, e: Placed)
    requires e in Snapshot(ps)
    ensures e.piece in ps && e.x == e.piece.x && e.y == e.piece.y
  {
    SnapshotEntries(ps);
    var i :| 0 <= i < |ps| && Snapshot(ps)[i] == e;
  }

  /** The pieces of a snapshot are exactly the listed pieces. */
  lemma SnapshotRefs(ps: seq<Piece>)
    ensures Refs(Snapshot(ps)) == set p | p in ps
  {
    var s := Snapshot(ps);
    SnapshotEntries(ps);
    forall p | p in ps ensures p in Refs(s) {
      var i :| 0 <= i < |ps| && ps[i] == p;
      assert s[i] in s;
    }
    forall p | p in Refs(s) ensures p in ps {
      var e :| e in s && e.piece == p;
      InSnapshot(ps, e);
    }
  }

  /** Dropping entry k of the list drops entry k of its snapshot. */
  lemma SnapshotDrop(ps: seq<Piece>, k: nat)
    requires k < |ps|
    ensures Snapshot(ps[..k] + ps[k + 1..]) == Snapshot(ps)[..k] + Snapshot(ps)[k + 1..]
  {
    var qs := ps[..k] + ps[k + 1..];
    var a, b := Snapshot(qs), Snapshot(ps)[..k] + Snapshot(ps)[k + 1..];
    SnapshotEntries(qs);
    SnapshotEntries(ps);
    forall i | 0 <= i < |qs|
      ensures a[i] == b[i]
    {
      if i < k {
        assert qs[i] == ps[i];
      } else {
        assert qs[i] == ps[i + 1];
      }
    }
  }

  /** Appending one move appends its value. */
  lemma ValsSnoc(ms: seq<Move>, m: Move)
    ensures Vals(ms + [m]) == Vals(ms) + [m.AsPly()]
  {
  }

  lemma ValsConcat(a: seq<Move>, b: seq<Move>)
    ensures Vals(a + b) == Vals(a) + Vals(b)
  {
  }

  class Board {
    var pieces: seq<Piece>

    constructor ()
      ensures pieces == []
    {
      pieces := [];
    }

    function View(): Layout
      reads this, pieces
    {
      Snapshot(pieces)
    }

    function Entry(p: Piece): Placed
      reads p
    {
      Placed(p, p.x, p.y)
    }

    /** The first listed piece on (x, y), or null. */
    method FirstAt(x: int, y: int) returns (r: Piece?)
      ensures r == PieceAt(old(View()), x, y)
    {
      ghost var v := View();
      SnapshotEntries(pieces);
      var i := 0;
      while i < |pieces|
        invariant i <= |pieces|
        invariant forall j | 0 <= j < i :: !At(v[j], x, y)
      {
        if pieces[i].x == x && pieces[i].y == y {
          assert At(v[i], x, y);
          return pieces[i];
        }
        i := i + 1;
      }
      return null;
    }

    /** The first listed piece on (x, y) not owned by owner, or null. */
    method FirstEnemyAt(x: int, y: int, owner: Player) returns (r: Piece?)
      ensures r == EnemyAt(old(View()), x, y, owner)
    {
      ghost var v := View();
      SnapshotEntries(pieces);
      var i := 0;
      while i < |pieces|
        invariant i <= |pieces|
        invariant forall j | 0 <= j < i :: !EnemyOn(v[j], x, y, owner)
      {
        if pieces[i].x == x && pieces[i].y == y && pieces[i].owner != owner {
          assert EnemyOn(v[i], x, y, owner);
          return pieces[i];
        }
        i := i + 1;
      }
      return null;
    }

    /** Whether any listed piece stands on (x, y). */
    method AnyAt(x: int, y: int) returns (b: bool)
      ensures b == Occupied(old(View()), x, y)
    {
      ghost var v := View();
      SnapshotEntries(pieces);
      var i := 0;
      while i < |pieces|
        invariant i <= |pieces|
        invariant forall j | 0 <= j < i :: !At(v[j], x, y)
      {
        if pieces[i].x == x && pieces[i].y == y {
          assert v[i] in v && At(v[i], x, y);
          return true;
        }
        i := i + 1;
      }
      forall e | e in v ensures !At(e, x, y) {
        var j :| 0 <= j < |v| && v[j] == e;
      }
      return false;
    }

    /** Adds the diagonal capture onto (x, y) when that square holds an enemy piece. */
    method AddPawnCapture(piece: Piece, x: int, y: int, moves: seq<Move>) returns (res: seq<Move>)
      ensures Vals(res) == Vals(moves) + PawnCapture(old(View()), old(Entry(piece)), x, y)
    {
      res := moves;
      if !IsInsideBoard(x, y) {
        return;
      }
      var capture := FirstEnemyAt(x, y, piece.owner);
      if capture != null {
        var m := new Move(piece, piece.x, piece.y, x, y, capture);
        ValsSnoc(res, m);
        res := res + [m];
      }
    }

    /** Adds the step onto (x, y) unless it leaves the board or lands on a piece of the mover's side. */
    method TryAddMove(piece: Piece, x: int, y: int, moves: seq<Move>) returns (res: seq<Move>)
      ensures Vals(res) == Vals(moves) + TryStep(old(View()), old(Entry(piece)), x, y)
    {
      res := moves;
      if !IsInsideBoard(x, y) {
        return;
      }
      var target := FirstAt(x, y);
      if target == null || target.owner != piece.owner {
        var m := new Move(piece, piece.x, piece.y, x, y, target);
        ValsSnoc(res, m);
        res := res + [m];
      }
    }

    /** The step loop of the knight and the king: one TryAddMove per delta, in order. */
    method AddSteps(piece: Piece, deltas: seq<(int, int)>, moves: seq<Move>) returns (res: seq<Move>)
      ensures Vals(res) == Vals(moves) + Steps(old(View()), old(Entry(piece)), deltas)
    {
      ghost var v, e := View(), Entry(piece);
      res := moves;
      for k := 0 to |deltas|
        invariant View() == v && Entry(piece) == e
        invariant Vals(res) == Vals(moves) + Steps(v, e, deltas[..k])
      {
        assert deltas[..k + 1][..k] == deltas[..k];
        var x, y := piece.x + deltas[k].0, piece.y + deltas[k].1;
        assert x == e.x + deltas[k].0 && y == e.y + deltas[k].1;
        ghost var before := Vals(res);
        res := TryAddMove(piece, x, y, res);
        assert View() == v && Entry(piece) == e;
        assert Vals(res) == before + TryStep(v, e, x, y);
        assert Steps(v, e, deltas[..k + 1]) == Steps(v, e, deltas[..k]) + TryStep(v, e, x, y);
      }
      assert deltas[..|deltas|] == deltas;
    }

    /**
     * For each direction in turn, walks from the next square while it is on the board: an empty
     * square is added and the walk goes on; an occupied one is added as a capture when it holds
     * an enemy piece, and the walk stops there.
     */
    method AddSlidingMoves(piece: Piece, directions: seq<(int, int)>, moves: seq<Move>) returns (res: seq<Move>)
      requires forall i | 0 <= i < |directions| :: UnitStep(directions[i])
      ensures Vals(res) == Vals(moves) + Slides(old(View()), old(Entry(piece)), directions)
    {
      ghost var v, e := View(), Entry(piece);
      res := moves;
      for k := 0 to |directions|
        invariant View() == v && Entry(piece) == e
        invariant Vals(res) == Vals(moves) + Slides(v, e, directions[..k])
      {
        assert directions[..k + 1][..k] == directions[..k];
        var (dx, dy) := directions[k];
        ghost var before := Vals(res);
        res := AddRay(piece, dx, dy, res);
        assert View() == v && Entry(piece) == e;
        assert Vals(res) == before + Ray(v, e, (dx, dy), e.x + dx, e.y + dy);
        assert Slides(v, e, directions[..k + 1]) == Slides(v, e, directions[..k]) + Ray(v, e, (dx, dy), e.x + dx, e.y + dy);
      }
      assert directions[..|directions|] == directions;
    }

    /** The while loop of AddSlidingMoves for one direction. */
    method AddRay(piece: Piece, dx: int, dy: int, moves: seq<Move>) returns (res: seq<Move>)
      requires UnitStep((dx, dy))
      ensures Vals(res) == Vals(moves) + Ray(old(View()), old(Entry(piece)), (dx, dy), old(piece.x) + dx, old(piece.y) + dy)
    {
      ghost var v, e, d := View(), Entry(piece), (dx, dy);
      ghost var whole := Vals(moves) + Ray(v, e, d, piece.x + dx, piece.y + dy);
      res := moves;
      var x := piece.x + dx;
      var y := piece.y + dy;
      while IsInsideBoard(x, y)
        invariant View() == v && Entry(piece) == e
        invariant Vals(res) + Ray(v, e, d, x, y) == whole
        decreases Span(dx, x) + Span(dy, y)
      {
        var stop;
        res, stop := SlideStep(piece, dx, dy, x, y, res);
        if stop {
          assert Vals(res) == whole;
          break;
        }
        x := x + dx;
        y := y + dy;
      }
      assert Vals(res) == whole;
    }

    /**
     * One square of the walk: an empty square is added and the walk goes on; an occupied one is
     * added as a capture when it holds an enemy piece, and the walk stops.
     */
    method SlideStep(piece: Piece, dx: int, dy: int, x: int, y: int, moves: seq<Move>) returns (res: seq<Move>, stop: bool)
      requires UnitStep((dx, dy)) && IsInsideBoard(x, y)
      ensures stop == Occupied(old(View()), x, y)
      ensures Vals(res) + (if stop then [] else Ray(old(View()), old(Entry(piece)), (dx, dy), x + dx, y + dy))
              == Vals(moves) + Ray(old(View()), old(Entry(piece)), (dx, dy), x, y)
    {
      ghost var v, e := View(), Entry(piece);
      res := moves;
      var target := FirstAt(x, y);
      if target == null {
        var m := new Move(piece, piece.x, piece.y, x, y, null);
        ValsSnoc(res, m);
        res := res + [m];
        stop := false;
      } else {
        if target.owner != piece.owner {
          var m := new Move(piece, piece.x, piece.y, x, y, target);
          ValsSnoc(res, m);
          res := res + [m];
        }
        stop := true;
      }
    }

    /** Castling for Max's king on (4, 0): to (6, 0) and to (2, 0) when the squares between are empty. */
    method AddCastlingMoves(king: Piece, moves: seq<Move>) returns (res: seq<Move>)
      ensures Vals(res) == Vals(moves) + Castling(old(View()), old(Entry(king)))
    {
      ghost var v, e := View(), Entry(king);
      res := moves;
      if king.owner == Max && king.x == 4 && king.y == 0 {
        var a5 := AnyAt(5, 0);
        var a6 := AnyAt(6, 0);
        ghost var short: seq<Ply> := if !a5 && !a6 then [MoveTo(e, 6, 0, null)] else [];
        if !a5 && !a6 {
          var m := new Move(king, king.x, king.y, 6, 0, null);
          ValsSnoc(res, m);
          res := res + [m];
        }
        assert Vals(res) == Vals(moves) + short;
        var a3 := AnyAt(3, 0);
        var a2 := AnyAt(2, 0);
        var a1 := AnyAt(1, 0);
        ghost var long: seq<Ply> := if !a3 && !a2 && !a1 then [MoveTo(e, 2, 0, null)] else [];
        ghost var mid := res;
        if !a3 && !a2 && !a1 {
          var m := new Move(king, king.x, king.y, 2, 0, null);
          ValsSnoc(res, m);
          res := res + [m];
        }
        assert Vals(res) == Vals(mid) + long;
        assert Castling(v, e) == short + long;
      }
    }

    /** The moves of one piece, by its kind. */
    method GenerateMovesForPiece(piece: Piece) returns (moves: seq<Move>)
      ensures Vals(moves) == PieceMoves(old(View()), old(Entry(piece)))
    {
      ghost var v, e := View(), Entry(piece);
      moves := [];
      if piece.kind == Pawn {
        moves := AddPawnMoves(piece);
      } else if piece.kind == Knight {
        moves := AddSteps(piece, KnightDeltas, moves);
        assert Vals(moves) == Steps(v, e, KnightDeltas);
      } else if piece.kind == Bishop {
        moves := AddSlidingMoves(piece, BishopDirs, moves);
        assert Vals(moves) == Slides(v, e, BishopDirs);
      } else if piece.kind == Rook {
        moves := AddSlidingMoves(piece, RookDirs, moves);
        assert Vals(moves) == Slides(v, e, RookDirs);
      } else if piece.kind == Queen {
        moves := AddSlidingMoves(piece, QueenDirs, moves);
        assert Vals(moves) == Slides(v, e, QueenDirs);
      } else {
        moves := AddKingMoves(piece);
      }
    }

    /** The king branch: the eight steps, then castling. */
    method AddKingMoves(piece: Piece) returns (moves: seq<Move>)
      ensures Vals(moves) == Steps(old(View()), old(Entry(piece)), KingDeltas) + Castling(old(View()), old(Entry(piece)))
    {
      ghost var v, e := View(), Entry(piece);
      moves := AddSteps(piece, KingDeltas, []);
      assert View() == v && Entry(piece) == e;
      ghost var steps := Vals(moves);
      assert steps == Steps(v, e, KingDeltas);
      moves := AddCastlingMoves(piece, moves);
      assert Vals(moves) == steps + Castling(v, e);
    }

    /** The pawn branch: one square forward onto an empty square, then the two diagonal captures. */
    method AddPawnMoves(piece: Piece) returns (moves: seq<Move>)
      requires piece.kind == Pawn
      ensures Vals(moves) == PawnMoves(old(View()), old(Entry(piece)))
    {
      ghost var v, e := View(), Entry(piece);
      moves := [];
      var direction := if piece.owner == Max then 1 else -1;
      var targetY := piece.y + direction;
      assert targetY == e.y + Direction(e.piece.owner);
      if IsInsideBoard(piece.x, targetY) {
        moves := AddPawnForward(piece, targetY);
        assert View() == v && Entry(piece) == e;
        ghost var f := Vals(moves);
        assert f == if PieceAt(v, e.x, targetY) == null then [MoveTo(e, e.x, targetY, null)] else [];
        moves := AddPawnCaptures(piece, targetY, moves);
        assert Vals(moves) == f + (PawnCapture(v, e, e.x - 1, targetY) + PawnCapture(v, e, e.x + 1, targetY));
      }
    }

    /** The two diagonal captures of a pawn onto row targetY, left one first. */
    method AddPawnCaptures(piece: Piece, targetY: int, moves: seq<Move>) returns (res: seq<Move>)
      ensures Vals(res) == Vals(moves) + (PawnCapture(old(View()), old(Entry(piece)), old(piece.x) - 1, targetY)
                                          + PawnCapture(old(View()), old(Entry(piece)), old(piece.x) + 1, targetY))
    {
      ghost var v, e := View(), Entry(piece);
      res := AddPawnCapture(piece, piece.x - 1, targetY, moves);
      assert View() == v && Entry(piece) == e;
      ghost var l := Vals(res);
      res := AddPawnCapture(piece, piece.x + 1, targetY, res);
      assert Vals(res) == l + PawnCapture(v, e, e.x + 1, targetY);
    }

    /** The forward step of a pawn onto (piece.x, targetY), when that square is empty. */
    method AddPawnForward(piece: Piece, targetY: int) returns (moves: seq<Move>)
      ensures Vals(moves) == if PieceAt(old(View()), old(piece.x), targetY) == null
                             then [MoveTo(old(Entry(piece)), old(piece.x), targetY, null)] else []
    {
      ghost var v, e := View(), Entry(piece);
      moves := [];
      var forward := FirstAt(piece.x, targetY);
      if forward == null {
        var m := new Move(piece, piece.x, piece.y, piece.x, targetY, null);
        moves := [m];
      }
    }

    /** The moves of player's pieces, in list order. */
    method GenerateMoves(player: Player) returns (moves: seq<Move>)
      ensures Vals(moves) == Moves(old(View()), player)
    {
      ghost var v := View();
      SnapshotEntries(pieces);
      moves := [];
      for i := 0 to |pieces|
        invariant Vals(moves) == MovesFrom(v, v[..i], player)
      {
        assert v[..i + 1][..i] == v[..i];
        assert v[i] == Entry(pieces[i]);
        if pieces[i].owner == player {
          var more := GenerateMovesForPiece(pieces[i]);
          ValsConcat(moves, more);
          moves := moves + more;
        }
      }
      assert v[..|pieces|] == v;
    }

    /** Takes the captured piece off the list (its first occurrence) and moves the mover to the target. */
    method ApplyMove(move: Move)
      modifies this, move.piece
      ensures View() == ApplyPly(old(View()), move.AsPly())
    {
      ghost var v := View();
      ghost var mid := v;
      if move.captured != null {
        var k := RefIndex(View(), move.captured);
        mid := RemoveFirst(v, move.captured);
        if k < |pieces| {
          ghost var ps := pieces;
          pieces := pieces[..k] + pieces[k + 1..];
          SnapshotDrop(ps, k);
        }
        assert View() == mid;
      }
      Place(move.piece, move.targetX, move.targetY);
    }

    /** Sets p's coordinates; in the view, p's entries move and nothing else changes. */
    method Place(p: Piece, x: int, y: int)
      modifies p
      ensures View() == Relocate(old(View()), p, x, y)
    {
      ghost var v := View();
      SnapshotEntries(pieces);
      p.x, p.y := x, y;
      SnapshotEntries(pieces);
      forall i | 0 <= i < |pieces|
        ensures View()[i] == Moved(v[i], p, x, y)
      {
      }
    }

    /**
     * Puts the mover back on its origin and appends the captured piece at the end of the list,
     * wherever it stands; when the captured piece still stands on the target, this is UndoPly.
     */
    method UndoMove(move: Move)
      modifies this, move.piece
      ensures View() == Relocate(old(View()), move.piece, move.originalX, move.originalY)
                        + (if move.captured != null then [Entry(move.captured)] else [])
      ensures move.captured != null && move.captured != move.piece
              && old(move.captured.x) == move.targetX && old(move.captured.y) == move.targetY
              ==> View() == UndoPly(old(View()), move.AsPly())
    {
      Place(move.piece, move.originalX, move.originalY);
      ghost var mid := View();
      if move.captured != null {
        ghost var ps := pieces;
        pieces := pieces + [move.captured];
        assert pieces[..|ps|] == ps;
        assert View() == mid + [Entry(move.captured)];
      }
    }

    /** Signed material of the listed pieces plus the difference in move counts. */
    method Evaluate(player: Player) returns (score: int)
      ensures score == Eval(old(View()), player)
    {
      ghost var v := View();
      SnapshotEntries(pieces);
      score := 0;
      for i := 0 to |pieces|
        invariant score == Material(v[..i], player)
      {
        assert v[..i + 1][..i] == v[..i];
        assert v[i] == Entry(pieces[i]);
        var value := PieceValue(pieces[i].kind);
        score := score + (if pieces[i].owner == player then value else -value);
      }
      assert v[..|pieces|] == v;
      var mine := GenerateMoves(player);
      var theirs := GenerateMoves(Opponent(player));
      score := score + |mine| - |theirs|;
    }
  }
}

/**
 * Move generation and evaluation look at the board only through "what stands on this square",
 * so on a valid board they do not depend on the order of the piece list.
 */
module ChessInvariance {
  import opened ChessPieces
  import opened ChessMoves
  import opened ChessRules
  import opened ChessGeneration
  import opened ChessPosition

  /** The two layouts answer every square query alike. */
  ghost predicate SameSquares(s: Layout, t: Layout) {
    (forall x, y :: PieceAt(s, x, y) == PieceAt(t, x, y))
    && (forall x, y, o :: EnemyAt(s, x, y, o) == EnemyAt(t, x, y, o))
  }

  lemma OccupiedSame(s: Layout, t: Layout, x: int, y: int)
    requires SameSquares(s, t)
    ensures Occupied(s, x, y) == Occupied(t, x, y)
  {
    assert PieceAt(s, x, y) == PieceAt(t, x, y);
  }

  /** Two orderings of one valid board answer every square query alike. */
  lemma PermSameSquares(s: Layout, t: Layout)
    requires Valid(s) && multiset(s) == multiset(t)
    ensures SameSquares(s, t)
  {
    ValidPerm(s, t);
    forall e | e in s ensures e in t {
      assert e in multiset(s);
    }
    forall e | e in t ensures e in s {
      assert e in multiset(t);
    }
    forall x, y ensures PieceAt(s, x, y) == PieceAt(t, x, y) {
      var a := PieceAt(s, x, y);
      var b := PieceAt(t, x, y);
      if a != null {
        assert Placed(a, x, y) in t;
      }
      if b != null {
        assert Placed(b, x, y) in s;
      }
    }
    forall x, y, o ensures EnemyAt(s, x, y, o) == EnemyAt(t, x, y, o) {
      var a := EnemyAt(s, x, y, o);
      var b := EnemyAt(t, x, y, o);
      if a != null {
        assert Placed(a, x, y) in t;
      }
      if b != null {
        assert Placed(b, x, y) in s;
      }
    }
  }

  lemma {:induction false} StepsSame(s: Layout, t: Layout, e: Placed, ds: seq<(int, int)>)
    requires SameSquares(s, t)
    ensures Steps(s, e, ds) == Steps(t, e, ds)
    decreases |ds|
  {
    if |ds| > 0 {
      var d := ds[|ds| - 1];
      StepsSame(s, t, e, ds[..|ds| - 1]);
      assert PieceAt(s, e.x + d.0, e.y + d.1) == PieceAt(t, e.x + d.0, e.y + d.1);
    }
  }

  lemma {:induction false} RaySame(s: Layout, t: Layout, e: Placed, d: (int, int), x: int, y: int)
    requires SameSquares(s, t) && UnitStep(d)
    ensures Ray(s, e, d, x, y) == Ray(t, e, d, x, y)
    decreases Span(d.0, x) + Span(d.1, y)
  {
    assert PieceAt(s, x, y) == PieceAt(t, x, y);
    if IsInsideBoard(x, y) && PieceAt(s, x, y) == null {
      RaySame(s, t, e, d, x + d.0, y + d.1);
    }
  }

  lemma {:induction false} SlidesSame(s: Layout, t: Layout, e: Placed, dirs: seq<(int, int)>)
    requires SameSquares(s, t)
    requires forall i | 0 <= i < |dirs| :: UnitStep(dirs[i])
    ensures Slides(s, e, dirs) == Slides(t, e, dirs)
    decreases |dirs|
  {
    if |dirs| > 0 {
      var d := dirs[|dirs| - 1];
      SlidesSame(s, t, e, dirs[..|dirs| - 1]);
      RaySame(s, t, e, d, e.x + d.0, e.y + d.1);
    }
  }

  lemma PieceMovesSame(s: Layout, t: Layout, e: Placed)
    requires SameSquares(s, t)
    ensures PieceMoves(s, e) == PieceMoves(t, e)
  {
    match e.piece.kind
    case Pawn => PawnMovesSame(s, t, e);
    case Knight => StepsSame(s, t, e, KnightDeltas);
    case Bishop => SlidesSame(s, t, e, BishopDirs);
    case Rook => SlidesSame(s, t, e, RookDirs);
    case Queen => SlidesSame(s, t, e, QueenDirs);
    case King =>
      StepsSame(s, t, e, KingDeltas);
      CastlingSame(s, t, e);
  }

  lemma PawnMovesSame(s: Layout, t: Layout, e: Placed)
    requires SameSquares(s, t)
    ensures PawnMoves(s, e) == PawnMoves(t, e)
  {
    var ty := e.y + Direction(e.piece.owner);
    assert PieceAt(s, e.x, ty) == PieceAt(t, e.x, ty);
    assert EnemyAt(s, e.x - 1, ty, e.piece.owner) == EnemyAt(t, e.x - 1, ty, e.piece.owner);
    assert EnemyAt(s, e.x + 1, ty, e.piece.owner) == EnemyAt(t, e.x + 1, ty, e.piece.owner);
  }

  lemma CastlingSame(s: Layout, t: Layout, e: Placed)
    requires SameSquares(s, t)
    ensures Castling(s, e) == Castling(t, e)
  {
    OccupiedSame(s, t, 1, 0);
    OccupiedSame(s, t, 2, 0);
    OccupiedSame(s, t, 3, 0);
    OccupiedSame(s, t, 5, 0);
    OccupiedSame(s, t, 6, 0);
  }

  lemma {:induction false} MovesFromSame(s: Layout, t: Layout, l: Layout, p: Player)
    requires SameSquares(s, t)
    ensures MovesFrom(s, l, p) == MovesFrom(t, l, p)
    decreases |l|
  {
    if |l| > 0 {
      MovesFromSame(s, t, l[..|l| - 1], p);
      PieceMovesSame(s, t, l[|l| - 1]);
    }
  }

  // ---- Sums over reorderings ----

  lemma {:induction false} SumConcat(u: Layout, v: Layout, f: Placed -> int)
    ensures Sum(u + v, f) == Sum(u, f) + Sum(v, f)
    decreases |v|
  {
    if |v| == 0 {
      assert u + v == u;
    } else {
      assert (u + v)[..|u + v| - 1] == u + v[..|v| - 1];
      assert (u + v)[|u + v| - 1] == v[|v| - 1];
      SumConcat(u, v[..|v| - 1], f);
    }
  }

  /** A sum over the list does not depend on the order of the list. */
  lemma {:induction false} SumPerm(a: Layout, b: Layout, f: Placed -> int)
    requires multiset(a) == multiset(b)
    ensures Sum(a, f) == Sum(b, f)
    decreases |a|
  {
    if |a| == 0 {
      assert |multiset(b)| == 0;
    } else {
      var init := a[..|a| - 1];
      var last := a[|a| - 1];
      assert a == init + [last];
      assert last in multiset(b);
      var k :| 0 <= k < |b| && b[k] == last;
      DropOne(b, k);
      assert multiset(init) == multiset(a) - multiset{last};
      SumPerm(init, b[..k] + b[k + 1..], f);
      SumDrop(b, k, f);
    }
  }

  /** Taking entry k out of the list takes its term out of the sum. */
  lemma SumDrop(b: Layout, k: nat, f: Placed -> int)
    requires k < |b|
    ensures Sum(b, f) == Sum(b[..k] + b[k + 1..], f) + f(b[k])
  {
    var u, v := b[..k], b[k + 1..];
    assert b == (u + [b[k]]) + v;
    SumConcat(u + [b[k]], v, f);
    SumConcat(u, v, f);
    assert Sum(u + [b[k]], f) == Sum(u, f) + f(b[k]) by {
      assert (u + [b[k]])[..|u|] == u;
    }
  }

  /** How many moves the pieces of p in l have on layout s. */
  function MoveCount(s: Layout, p: Player): Placed -> int {
    (e: Placed) => if e.piece.owner == p then |PieceMoves(s, e)| else 0
  }

  lemma {:induction false} MovesFromLength(s: Layout, l: Layout, p: Player)
    ensures |MovesFrom(s, l, p)| == Sum(l, MoveCount(s, p))
    decreases |l|
  {
    if |l| > 0 {
      MovesFromLength(s, l[..|l| - 1], p);
    }
  }

  /**
   * Two orderings of one valid board give each side the same moves (as a set) and the same
   * number of moves.
   */
  lemma MovesPerm(s: Layout, t: Layout, p: Player)
    requires Valid(s) && multiset(s) == multiset(t)
    ensures forall m :: m in Moves(s, p) <==> m in Moves(t, p)
    ensures |Moves(s, p)| == |Moves(t, p)|
  {
    PermSameSquares(s, t);
    MovesFromSame(s, t, t, p);
    forall m ensures m in Moves(s, p) <==> m in MovesFrom(s, t, p) {
      MovesFromMembers(s, s, p, m);
      MovesFromMembers(s, t, p, m);
      forall e ensures e in s <==> e in t {
        assert e in s <==> e in multiset(s);
      }
    }
    MovesFromLength(s, s, p);
    MovesFromLength(s, t, p);
    SumPerm(s, t, MoveCount(s, p));
  }

  /** The evaluation of a valid board does not depend on the order of the piece list. */
  lemma EvalPerm(s: Layout, t: Layout, p: Player)
    requires Valid(s) && multiset(s) == multiset(t)
    ensures Eval(s, p) == Eval(t, p)
  {
    SumPerm(s, t, e => Signed(e, p));
    MovesPerm(s, t, p);
    MovesPerm(s, t, Opponent(p));
  }
}

/**
 * Size bounds: a valid board holds at most 64 pieces, a piece has at most 56 moves, and so the
 * evaluation of a valid board stays strictly between the search's sentinels -10000 and 10000.
 */
module ChessBounds {
  import opened ChessPieces
  import opened ChessMoves
  import opened ChessRules
  import opened ChessGeneration
  import opened ChessPosition

  function Code(e: Placed): int {
    8 * e.x + e.y
  }

  /** The square codes of the entries. */
  function Codes(s: Layout): set<int>
    decreases |s|
  {
    if |s| == 0 then {} else Codes(s[..|s| - 1]) + {Code(s[|s| - 1])}
  }

  lemma {:induction false} CodesMembers(s: Layout, c: int)
    ensures c in Codes(s) <==> exists i :: 0 <= i < |s| && Code(s[i]) == c
    decreases |s|
  {
    if |s| > 0 {
      var init := s[..|s| - 1];
      CodesMembers(init, c);
      if exists i :: 0 <= i < |s| && Code(s[i]) == c {
        var i :| 0 <= i < |s| && Code(s[i]) == c;
        if i < |s| - 1 {
          assert init[i] == s[i];
        }
      }
    }
  }

  /** A set of integers inside [0, n) has at most n elements. */
  lemma {:induction false} RangeSubsetSize(a: set<int>, n: nat)
    requires forall c | c in a :: 0 <= c < n
    ensures |a| <= n
    decreases n
  {
    if n > 0 {
      RangeSubsetSize(a - {n - 1}, n - 1);
    } else {
      assert forall c :: c !in a;
    }
  }

  lemma PrefixValid(s: Layout)
    requires Valid(s) && |s| > 0
    ensures Valid(s[..|s| - 1])
  {
    var init := s[..|s| - 1];
    UniqueIffDistinct(s);
    assert DistinctPieces(init);
    UniqueIffDistinct(init);
    assert forall e | e in init :: e in s;
  }

  lemma LastCodeFresh(s: Layout)
    requires Valid(s) && |s| > 0
    ensures Code(s[|s| - 1]) !in Codes(s[..|s| - 1])
  {
    var init := s[..|s| - 1];
    var last := s[|s| - 1];
    CodesMembers(init, Code(last));
    forall i | 0 <= i < |init| ensures Code(init[i]) != Code(last) {
      assert init[i] == s[i] && s[i] in s && last in s;
      UniqueDistinct(s, i, |s| - 1);
      assert !SameSquare(s[i], last);
    }
  }

  /** On a valid board distinct entries stand on distinct squares, so their codes differ. */
  lemma {:induction false} CodesSize(s: Layout)
    requires Valid(s)
    ensures |Codes(s)| == |s|
    decreases |s|
  {
    if |s| > 0 {
      PrefixValid(s);
      CodesSize(s[..|s| - 1]);
      LastCodeFresh(s);
    }
  }

  /** Pigeonhole: a valid board holds at most 64 pieces. */
  lemma ValidSize(s: Layout)
    requires Valid(s)
    ensures |s| <= 64
  {
    CodesSize(s);
    forall c | c in Codes(s) ensures 0 <= c < 64 {
      CodesMembers(s, c);
      var i :| 0 <= i < |s| && Code(s[i]) == c;
      assert s[i] in s;
    }
    RangeSubsetSize(Codes(s), 64);
  }

  /** A piece on the board has at most 56 moves (a queen in the open). */
  lemma PieceMovesBound(s: Layout, e: Placed)
    requires IsInsideBoard(e.x, e.y)
    ensures |PieceMoves(s, e)| <= 56
  {
    match e.piece.kind
    case Pawn =>
    case Knight => StepsMembers(s, e, KnightDeltas, MoveTo(e, 0, 0, null));
    case Bishop => SlidesLength(s, e, BishopDirs);
    case Rook => SlidesLength(s, e, RookDirs);
    case Queen => SlidesLength(s, e, QueenDirs);
    case King => StepsMembers(s, e, KingDeltas, MoveTo(e, 0, 0, null));
  }

  lemma {:induction false} MovesFromBound(s: Layout, l: Layout, p: Player)
    requires forall e | e in l :: IsInsideBoard(e.x, e.y)
    ensures |MovesFrom(s, l, p)| <= 56 * |l|
    decreases |l|
  {
    if |l| > 0 {
      MovesFromBound(s, l[..|l| - 1], p);
      PieceMovesBound(s, l[|l| - 1]);
    }
  }

  lemma {:induction false} MaterialBound(l: Layout, p: Player)
    ensures -100 * |l| <= Material(l, p) <= 100 * |l|
    decreases |l|
  {
    if |l| > 0 {
      MaterialBound(l[..|l| - 1], p);
    }
  }

  /** The evaluation of a valid board lies within [-9984, 9984]. */
  lemma EvalBound(s: Layout, p: Player)
    requires Valid(s)
    ensures -9984 <= Eval(s, p) <= 9984
  {
    ValidSize(s);
    MaterialBound(s, p);
    MovesFromBound(s, s, p);
    MovesFromBound(s, s, Opponent(p));
  }
}

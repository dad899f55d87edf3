/**
 * What the engine's search guarantees on a valid board: it leaves the same pieces on the same
 * squares, and its value relates to minimax the way fail-soft alpha-beta promises; with the
 * full window it is exactly the minimax value.
 */
module ChessSearchProofs {
  import opened ChessPieces
  import opened ChessMoves
  import opened ChessRules
  import opened ChessGeneration
  import opened ChessPosition
  import opened ChessInvariance
  import opened ChessBounds
  import opened ChessSearch

  lemma {:induction false} SoundPerm(s: Layout, t: Layout, p: Player, m: Ply)
    requires Sound(s, p, m) && multiset(s) == multiset(t)
    ensures Sound(t, p, m)
  {
    assert Placed(m.piece, m.ox, m.oy) in multiset(s);
    if m.captured != null {
      assert Placed(m.captured, m.tx, m.ty) in multiset(s);
    }
    forall e | e in t ensures e in s {
      assert e in multiset(t);
    }
  }

  /**
   * The facts one move of a side brings about, for a list cur holding the entries of a valid s0:
   * both boards after the move are valid and hold the same entries.
   */
  lemma {:induction false} ApplyFacts(s0: Layout, cur: Layout, m: Ply, p: Player)
    requires Valid(s0) && multiset(cur) == multiset(s0) && m in Moves(s0, p)
    ensures Valid(ApplyPly(s0, m)) && Valid(ApplyPly(cur, m))
    ensures multiset(ApplyPly(s0, m)) == multiset(ApplyPly(cur, m))
  {
    MovesSound(s0, p, m);
    ValidPerm(s0, cur);
    SoundPerm(s0, cur, p, m);
    ApplyValid(s0, p, m);
    ApplyValid(cur, p, m);
    ApplyPerm(s0, cur, m);
  }

  /** Minimax does not depend on the order of the piece list. */
  lemma {:induction false} MinimaxPerm(s: Layout, t: Layout, depth: nat, maximizing: bool)
    requires Valid(s) && multiset(s) == multiset(t)
    ensures Minimax(s, depth, maximizing) == Minimax(t, depth, maximizing)
    decreases depth, 1
  {
    EvalPerm(s, t, Max);
    if depth > 0 {
      var side := Side(maximizing);
      MovesPerm(s, t, side);
      if |Moves(s, side)| > 0 {
        BestPerm(s, t, depth, maximizing);
      }
    }
  }

  lemma {:induction false} BestPerm(s: Layout, t: Layout, depth: nat, maximizing: bool)
    requires depth >= 1 && Valid(s) && multiset(s) == multiset(t)
    requires forall m :: m in Moves(s, Side(maximizing)) <==> m in Moves(t, Side(maximizing))
    ensures Best(s, Moves(s, Side(maximizing)), depth, maximizing)
         == Best(t, Moves(t, Side(maximizing)), depth, maximizing)
    decreases depth, 0, 1
  {
    var ms, mt := Moves(s, Side(maximizing)), Moves(t, Side(maximizing));
    var d: nat := depth - 1;
    forall m | m in ms
      ensures Child(s, m, depth, maximizing) == Child(t, m, depth, maximizing)
    {
      ChildPermPair(s, t, m, depth, d, maximizing);
    }
    BestEqual(s, t, ms, mt, depth, maximizing);
  }

  /** The child depth is passed as d, one less than depth. */
  lemma {:induction false} ChildPermPair(s: Layout, t: Layout, m: Ply, depth: nat, d: nat, maximizing: bool)
    requires depth == d + 1 && Valid(s) && multiset(s) == multiset(t)
    requires m in Moves(s, Side(maximizing))
    ensures Child(s, m, depth, maximizing) == Child(t, m, depth, maximizing)
    decreases depth, 0, 0
  {
    ApplyFacts(s, t, m, Side(maximizing));
    assert d < depth;
    MinimaxPerm(ApplyPly(s, m), ApplyPly(t, m), d, !maximizing);
  }

  /** When the children agree, the extremum over ms is bounded by the extremum over mt. */
  lemma {:induction false} BestAgrees(s: Layout, t: Layout, ms: seq<Ply>, mt: seq<Ply>, depth: nat, maximizing: bool)
    requires depth >= 1
    requires forall m :: m in ms <==> m in mt
    requires forall m | m in ms :: Child(s, m, depth, maximizing) == Child(t, m, depth, maximizing)
    ensures maximizing ==> Best(s, ms, depth, maximizing) <= Best(t, mt, depth, maximizing)
    ensures !maximizing ==> Best(s, ms, depth, maximizing) >= Best(t, mt, depth, maximizing)
  {
    BestIsExtremum(s, ms, depth, maximizing);
    BestIsExtremum(t, mt, depth, maximizing);
    var b := Best(s, ms, depth, maximizing);
    if b != Sentinel(maximizing) {
      var m :| m in ms && !IsBad(m) && b == Child(s, m, depth, maximizing);
      assert m in mt;
    }
  }

  /** When the children agree and the move lists hold the same moves, the extrema agree. */
  lemma BestEqual(s: Layout, t: Layout, ms: seq<Ply>, mt: seq<Ply>, depth: nat, maximizing: bool)
    requires depth >= 1
    requires forall m :: m in ms <==> m in mt
    requires forall m | m in ms :: Child(s, m, depth, maximizing) == Child(t, m, depth, maximizing)
    ensures Best(s, ms, depth, maximizing) == Best(t, mt, depth, maximizing)
  {
    BestAgrees(s, t, ms, mt, depth, maximizing);
    BestAgrees(t, s, mt, ms, depth, maximizing);
  }

  /** On a valid board minimax stays within the sentinels. */
  lemma {:induction false} MinimaxRange(s: Layout, depth: nat, maximizing: bool)
    requires Valid(s)
    ensures NegInf <= Minimax(s, depth, maximizing) <= PosInf
    decreases depth, 1
  {
    EvalBound(s, Max);
    if depth > 0 {
      var side := Side(maximizing);
      var ms := Moves(s, side);
      if |ms| > 0 {
        BestIsExtremum(s, ms, depth, maximizing);
        var b := Best(s, ms, depth, maximizing);
        if b != Sentinel(maximizing) {
          var m :| m in ms && !IsBad(m) && b == Child(s, m, depth, maximizing);
          ChildRange(s, m, depth, depth - 1, maximizing);
        }
      }
    }
  }

  lemma {:induction false} ChildRange(s: Layout, m: Ply, depth: nat, d: nat, maximizing: bool)
    requires depth == d + 1 && Valid(s) && m in Moves(s, Side(maximizing))
    ensures NegInf <= Child(s, m, depth, maximizing) <= PosInf
    decreases depth, 0
  {
    ApplyFacts(s, s, m, Side(maximizing));
    assert d < depth;
    MinimaxRange(ApplyPly(s, m), d, !maximizing);
  }

  /**
   * The fail-soft contract: a value at or below alpha bounds the true value from above, a value
   * at or above beta bounds it from below, and a value strictly inside the window is exact.
   */
  predicate FailSoft(v: int, truth: int, alpha: int, beta: int) {
    (v <= alpha ==> truth <= v) && (alpha < v < beta ==> truth == v) && (beta <= v ==> v <= truth)
  }

  /** One child of a loop: searched on the current list, it is valued like minimax on s0. */
  lemma {:induction false} ChildPerm(s0: Layout, cur: Layout, m: Ply, p: Player, depth: nat, d: nat, maximizing: bool)
    requires Valid(s0) && multiset(cur) == multiset(s0) && m in Moves(s0, p) && depth == d + 1
    ensures Valid(ApplyPly(cur, m))
    ensures Child(s0, m, depth, maximizing) == Minimax(ApplyPly(cur, m), d, !maximizing)
  {
    ApplyFacts(s0, cur, m, p);
    MinimaxPerm(ApplyPly(s0, m), ApplyPly(cur, m), d, !maximizing);
  }

  /** Undoing a move after the child search puts back the entries of s0. */
  lemma {:induction false} ChildRestores(s0: Layout, cur: Layout, m: Ply, p: Player, x: Layout)
    requires Valid(s0) && multiset(cur) == multiset(s0) && m in Moves(s0, p)
    requires multiset(x) == multiset(ApplyPly(cur, m))
    ensures multiset(UndoPly(x, m)) == multiset(s0)
  {
    MovesSound(s0, p, m);
    ValidPerm(s0, cur);
    SoundPerm(s0, cur, p, m);
    UndoRestores(cur, x, m);
  }

  /** One child of a loop: searched on the current list, it is valued like minimax on s0. */
  lemma {:induction false} ChildStep(s0: Layout, cur: Layout, m: Ply, p: Player, depth: nat, d: nat, alpha: int, beta: int, maximizing: bool)
    requires Valid(s0) && multiset(cur) == multiset(s0) && m in Moves(s0, p)
    requires depth == d + 1 && NegInf <= alpha < beta <= PosInf
    ensures var r := Search(ApplyPly(cur, m), d, alpha, beta, !maximizing);
      NegInf <= r.0 <= PosInf
      && FailSoft(r.0, Child(s0, m, depth, maximizing), alpha, beta)
      && multiset(UndoPly(r.1, m)) == multiset(s0)
    decreases depth, 0, 0
  {
    ChildPerm(s0, cur, m, p, depth, d, maximizing);
    var child := ApplyPly(cur, m);
    assert d < depth;
    SearchCorrect(child, d, alpha, beta, !maximizing);
    var r := Search(child, d, alpha, beta, !maximizing);
    ChildRestores(s0, cur, m, p, r.1);
  }

  /** Extending the move prefix by one move adds that move's child value unless it is skipped. */
  lemma BestSnoc(s: Layout, ms: seq<Ply>, i: nat, depth: nat, maximizing: bool)
    requires depth >= 1 && i < |ms|
    ensures Best(s, ms[..i + 1], depth, maximizing)
         == if IsBad(ms[i]) then Best(s, ms[..i], depth, maximizing)
            else if maximizing then MaxOf(Best(s, ms[..i], depth, maximizing), Child(s, ms[i], depth, maximizing))
            else MinOf(Best(s, ms[..i], depth, maximizing), Child(s, ms[i], depth, maximizing))
  {
    assert ms[..i + 1][..i] == ms[..i];
  }

  /**
   * One sibling on the maximizing side, as numbers: prefix is the minimax value of the moves
   * before it and next that value including it, c the sibling's minimax value and v its search
   * value. Either the window closes and v is a lower bound for c, or the loop invariant holds
   * for the raised alpha and best.
   */
  lemma MaxWindow(prefix: int, next: int, c: int, v: int, alpha0: int, alpha: int, beta: int, best: int)
    requires NegInf <= alpha0 < beta <= PosInf
    requires alpha == MaxOf(alpha0, best) && alpha < beta && NegInf <= best <= PosInf
    requires prefix <= best && (best > alpha0 ==> prefix == best)
    requires next == MaxOf(prefix, c)
    requires NegInf <= v <= PosInf && FailSoft(v, c, alpha, beta)
    ensures beta <= MaxOf(alpha, v) ==> beta <= MaxOf(best, v) <= c
    ensures MaxOf(alpha, v) < beta ==>
      MaxOf(alpha, v) == MaxOf(alpha0, MaxOf(best, v)) && NegInf <= MaxOf(best, v) <= PosInf
      && next <= MaxOf(best, v) && (MaxOf(best, v) > alpha0 ==> next == MaxOf(best, v))
  {
  }

  /** The minimizing side of MaxWindow, with beta lowered instead of alpha raised. */
  lemma MinWindow(prefix: int, next: int, c: int, v: int, alpha: int, beta0: int, beta: int, best: int)
    requires NegInf <= alpha < beta0 <= PosInf
    requires beta == MinOf(beta0, best) && alpha < beta && NegInf <= best <= PosInf
    requires prefix >= best && (best < beta0 ==> prefix == best)
    requires next == MinOf(prefix, c)
    requires NegInf <= v <= PosInf && FailSoft(v, c, alpha, beta)
    ensures MinOf(beta, v) <= alpha ==> c <= MinOf(best, v) <= alpha
    ensures alpha < MinOf(beta, v) ==>
      MinOf(beta, v) == MinOf(beta0, MinOf(best, v)) && NegInf <= MinOf(best, v) <= PosInf
      && next >= MinOf(best, v) && (MinOf(best, v) < beta0 ==> next == MinOf(best, v))
  {
  }

  /** One step of the maximizing sibling loop on a move that is searched. */
  lemma MaxLoopUnfold(cur: Layout, ms: seq<Ply>, i: nat, depth: nat, d: nat, alpha: int, beta: int, best: int)
    requires depth == d + 1 && i < |ms| && !IsBad(ms[i])
    ensures var r := Search(ApplyPly(cur, ms[i]), d, alpha, beta, false);
      SearchLoop(cur, ms, i, depth, alpha, beta, true, best)
      == if beta <= MaxOf(alpha, r.0) then (MaxOf(best, r.0), UndoPly(r.1, ms[i]))
         else SearchLoop(UndoPly(r.1, ms[i]), ms, i + 1, depth, MaxOf(alpha, r.0), beta, true, MaxOf(best, r.0))
  {
  }

  /** One step of the minimizing sibling loop on a move that is searched. */
  lemma MinLoopUnfold(cur: Layout, ms: seq<Ply>, i: nat, depth: nat, d: nat, alpha: int, beta: int, best: int)
    requires depth == d + 1 && i < |ms| && !IsBad(ms[i])
    ensures var r := Search(ApplyPly(cur, ms[i]), d, alpha, beta, true);
      SearchLoop(cur, ms, i, depth, alpha, beta, false, best)
      == if MinOf(beta, r.0) <= alpha then (MinOf(best, r.0), UndoPly(r.1, ms[i]))
         else SearchLoop(UndoPly(r.1, ms[i]), ms, i + 1, depth, alpha, MinOf(beta, r.0), false, MinOf(best, r.0))
  {
  }

  lemma {:induction false} MaxLoopCorrect(s0: Layout, cur: Layout, ms: seq<Ply>, i: nat, depth: nat,
                                          alpha0: int, alpha: int, beta: int, best: int)
    requires Valid(s0) && multiset(cur) == multiset(s0) && ms == Moves(s0, Max)
    requires 1 <= depth && i <= |ms|
    requires NegInf <= alpha0 < beta <= PosInf
    requires alpha == MaxOf(alpha0, best) && alpha < beta && NegInf <= best <= PosInf
    requires Best(s0, ms[..i], depth, true) <= best
    requires best > alpha0 ==> Best(s0, ms[..i], depth, true) == best
    ensures var r := SearchLoop(cur, ms, i, depth, alpha, beta, true, best);
      multiset(r.1) == multiset(s0) && NegInf <= r.0 <= PosInf
      && FailSoft(r.0, Best(s0, ms, depth, true), alpha0, beta)
    decreases depth, 0, |ms| - i
  {
    if i == |ms| {
      assert ms[..i] == ms;
    } else {
      var m := ms[i];
      BestSnoc(s0, ms, i, depth, true);
      if IsBad(m) {
        MaxLoopCorrect(s0, cur, ms, i + 1, depth, alpha0, alpha, beta, best);
      } else {
        var d: nat := depth - 1;
        ChildStep(s0, cur, m, Max, depth, d, alpha, beta, true);
        MaxLoopUnfold(cur, ms, i, depth, d, alpha, beta, best);
        var r := Search(ApplyPly(cur, m), d, alpha, beta, false);
        var c := Child(s0, m, depth, true);
        MaxWindow(Best(s0, ms[..i], depth, true), Best(s0, ms[..i + 1], depth, true), c, r.0, alpha0, alpha, beta, best);
        if beta <= MaxOf(alpha, r.0) {
          BestIsExtremum(s0, ms, depth, true);
        } else {
          MaxLoopCorrect(s0, UndoPly(r.1, m), ms, i + 1, depth, alpha0, MaxOf(alpha, r.0), beta, MaxOf(best, r.0));
        }
      }
    }
  }

  lemma {:induction false} MinLoopCorrect(s0: Layout, cur: Layout, ms: seq<Ply>, i: nat, depth: nat,
                                          alpha: int, beta0: int, beta: int, best: int)
    requires Valid(s0) && multiset(cur) == multiset(s0) && ms == Moves(s0, Min)
    requires 1 <= depth && i <= |ms|
    requires NegInf <= alpha < beta0 <= PosInf
    requires beta == MinOf(beta0, best) && alpha < beta && NegInf <= best <= PosInf
    requires Best(s0, ms[..i], depth, false) >= best
    requires best < beta0 ==> Best(s0, ms[..i], depth, false) == best
    ensures var r := SearchLoop(cur, ms, i, depth, alpha, beta, false, best);
      multiset(r.1) == multiset(s0) && NegInf <= r.0 <= PosInf
      && FailSoft(r.0, Best(s0, ms, depth, false), alpha, beta0)
    decreases depth, 0, |ms| - i
  {
    if i == |ms| {
      assert ms[..i] == ms;
    } else {
      var m := ms[i];
      BestSnoc(s0, ms, i, depth, false);
      if IsBad(m) {
        MinLoopCorrect(s0, cur, ms, i + 1, depth, alpha, beta0, beta, best);
      } else {
        var d: nat := depth - 1;
        ChildStep(s0, cur, m, Min, depth, d, alpha, beta, false);
        MinLoopUnfold(cur, ms, i, depth, d, alpha, beta, best);
        var r := Search(ApplyPly(cur, m), d, alpha, beta, true);
        var c := Child(s0, m, depth, false);
        MinWindow(Best(s0, ms[..i], depth, false), Best(s0, ms[..i + 1], depth, false), c, r.0, alpha, beta0, beta, best);
        if MinOf(beta, r.0) <= alpha {
          BestIsExtremum(s0, ms, depth, false);
        } else {
          MinLoopCorrect(s0, UndoPly(r.1, m), ms, i + 1, depth, alpha, beta0, MinOf(beta, r.0), MinOf(best, r.0));
        }
      }
    }
  }

  /**
   * On a valid board, with a window inside the sentinels, the search leaves the same entries
   * behind (in some order), returns a value within the sentinels, and that value is a
   * fail-soft answer for the minimax value.
   */
  lemma {:induction false} SearchCorrect(s: Layout, depth: nat, alpha: int, beta: int, maximizing: bool)
    requires Valid(s) && NegInf <= alpha < beta <= PosInf
    ensures var r := Search(s, depth, alpha, beta, maximizing);
      multiset(r.1) == multiset(s) && NegInf <= r.0 <= PosInf
      && FailSoft(r.0, Minimax(s, depth, maximizing), alpha, beta)
    decreases depth, 1
  {
    EvalBound(s, Max);
    if depth > 0 {
      var ms := Moves(s, Side(maximizing));
      if |ms| > 0 {
        assert ms[..0] == [];
        if maximizing {
          MaxLoopCorrect(s, s, ms, 0, depth, alpha, alpha, beta, NegInf);
        } else {
          MinLoopCorrect(s, s, ms, 0, depth, alpha, beta, beta, PosInf);
        }
      }
    }
  }

  /** With the full window the search returns exactly the minimax value. */
  lemma {:induction false} FullWindowExact(s: Layout, depth: nat, maximizing: bool)
    requires Valid(s)
    ensures Search(s, depth, NegInf, PosInf, maximizing).0 == Minimax(s, depth, maximizing)
    ensures multiset(Search(s, depth, NegInf, PosInf, maximizing).1) == multiset(s)
  {
    SearchCorrect(s, depth, NegInf, PosInf, maximizing);
    MinimaxRange(s, depth, maximizing);
  }
}

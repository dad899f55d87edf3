/**
 * The engine on the board object. Run is the alpha-beta search: it applies each move to the
 * board, searches the child, undoes the move and prunes; GetBestMove tries every move of Max
 * with the full window. Both are tied to the value model: Run computes exactly Search on the
 * board's view and leaves the board as Search says, GetBestMove computes Root.
 */
module ChessEngine {
  import opened Options
  import opened ChessPieces
  import opened ChessMoves
  import opened ChessRules
  import opened ChessGeneration
  import opened ChessPosition
  import opened ChessSearch
  import opened ChessSearchProofs
  import opened ChessRoot
  import opened ChessBoard

  // ---- The list of entries comes back, whatever the window ----

  /** On a valid board the search leaves the entries it started with, for any window. */
  lemma {:induction false} SearchRestores(s: Layout, depth: nat, alpha: int, beta: int, maximizing: bool)
    requires Valid(s)
    ensures multiset(Search(s, depth, alpha, beta, maximizing).1) == multiset(s)
    decreases depth, 1
  {
    if depth > 0 {
      var ms := Moves(s, Side(maximizing));
      if |ms| > 0 {
        LoopRestores(s, s, ms, 0, depth, alpha, beta, maximizing, Sentinel(maximizing));
      }
    }
  }

  /** The sibling loop from move i on leaves the entries of s0, for any window and best value. */
  lemma {:induction false} LoopRestores(s0: Layout, cur: Layout, ms: seq<Ply>, i: nat, depth: nat,
                                        alpha: int, beta: int, maximizing: bool, best: int)
    requires Valid(s0) && multiset(cur) == multiset(s0) && ms == Moves(s0, Side(maximizing))
    requires 1 <= depth && i <= |ms|
    ensures multiset(SearchLoop(cur, ms, i, depth, alpha, beta, maximizing, best).1) == multiset(s0)
    decreases depth, 0, |ms| - i
  {
    if i < |ms| {
      var m := ms[i];
      if IsBad(m) {
        LoopRestores(s0, cur, ms, i + 1, depth, alpha, beta, maximizing, best);
      } else {
        var d: nat := depth - 1;
        var p := Side(maximizing);
        ApplyFacts(s0, cur, m, p);
        var child := ApplyPly(cur, m);
        var r := Search(child, d, alpha, beta, !maximizing);
        assert d < depth;
        SearchRestores(child, d, alpha, beta, !maximizing);
        ChildRestores(s0, cur, m, p, r.1);
        var after := UndoPly(r.1, m);
        if maximizing {
          MaxLoopUnfold(cur, ms, i, depth, d, alpha, beta, best);
          if MaxOf(alpha, r.0) < beta {
            LoopRestores(s0, after, ms, i + 1, depth, MaxOf(alpha, r.0), beta, true, MaxOf(best, r.0));
          }
        } else {
          MinLoopUnfold(cur, ms, i, depth, d, alpha, beta, best);
          if alpha < MinOf(beta, r.0) {
            LoopRestores(s0, after, ms, i + 1, depth, alpha, MinOf(beta, r.0), false, MinOf(best, r.0));
          }
        }
      }
    }
  }

  /** Entries with the same multiset name the same pieces. */
  lemma RefsPerm(s: Layout, t: Layout)
    requires multiset(s) == multiset(t)
    ensures Refs(s) == Refs(t)
  {
    forall e | e in s ensures e in t {
      assert e in multiset(s);
    }
    forall e | e in t ensures e in s {
      assert e in multiset(t);
    }
  }

  /**
   * A generated move on a list holding the entries of a valid s0: the mover stands listed on its
   * origin, a captured piece on the target and distinct from the mover; after the move the
   * captured piece is no longer listed, and no piece has joined the list.
   */
  lemma MoveFacts(s0: Layout, cur: Layout, m: Ply, p: Player)
    requires Valid(s0) && multiset(cur) == multiset(s0) && m in Moves(s0, p)
    ensures Placed(m.piece, m.ox, m.oy) in cur
    ensures m.captured != null ==> Placed(m.captured, m.tx, m.ty) in cur && m.captured != m.piece
    ensures m.captured != null ==> m.captured !in Refs(ApplyPly(cur, m))
    ensures Refs(ApplyPly(cur, m)) <= Refs(cur)
  {
    MovesSound(s0, p, m);
    ValidPerm(s0, cur);
    SoundPerm(s0, cur, p, m);
    SoundFits(cur, p, m);
    UniqueIffDistinct(cur);
    var base := if m.captured != null then RemoveFirst(cur, m.captured) else cur;
    if m.captured != null {
      RemoveFirstDistinct(cur, m.captured);
    }
    forall e | e in ApplyPly(cur, m)
      ensures e.piece in Refs(cur) && (m.captured != null ==> e.piece != m.captured)
    {
      RelocateMembers(base, m.piece, m.tx, m.ty, e);
      if e.piece == m.piece {
        assert Placed(m.piece, m.ox, m.oy) in cur;
      } else {
        assert e in base;
      }
    }
  }

  /** One searched move of the sibling loop, given the child's value and the list left after the undo. */
  lemma LoopStep(cur: Layout, ms: seq<Ply>, i: nat, depth: nat, d: nat, alpha: int, beta: int,
                 maximizing: bool, best: int, v: int, after: Layout)
    requires depth == d + 1 && i < |ms| && !IsBad(ms[i])
    requires var r := Search(ApplyPly(cur, ms[i]), d, alpha, beta, !maximizing);
      v == r.0 && after == UndoPly(r.1, ms[i])
    ensures var alpha' := if maximizing then MaxOf(alpha, v) else alpha;
      var beta' := if maximizing then beta else MinOf(beta, v);
      var best' := if maximizing then MaxOf(best, v) else MinOf(best, v);
      SearchLoop(cur, ms, i, depth, alpha, beta, maximizing, best)
        == if beta' <= alpha' then (best', after)
           else SearchLoop(after, ms, i + 1, depth, alpha', beta', maximizing, best')
  {
    SearchDepth(ApplyPly(cur, ms[i]), d, depth, alpha, beta, !maximizing);
  }

  /** The sibling loop past the last move returns the best value and the list as they are. */
  lemma SearchLoopDone(cur: Layout, ms: seq<Ply>, depth: nat, alpha: int, beta: int, maximizing: bool, best: int)
    requires 1 <= depth
    ensures SearchLoop(cur, ms, |ms|, depth, alpha, beta, maximizing, best) == (best, cur)
  {
  }

  // ---- The engine on the board ----

  /** The value of a chosen move, or None for no move. */
  function PlyOf(m: Move?): Option<Ply> {
    if m == null then None else Some(m.AsPly())
  }

  /**
   * The alpha-beta search of the board to the given depth: the value returned and the board left
   * behind are those of Search on the board's view. Moves that are skipped (a pawn taking a
   * queen) are passed over; a cutoff ends the loop over the siblings.
   */
  method Run(board: Board, depth: nat, alpha: int, beta: int, isMax: bool, ghost frame: set<Piece>)
    returns (r: int)
    requires Valid(board.View()) && forall q | q in board.pieces :: q in frame
    modifies board, frame
    ensures (r, board.View()) == Search(old(board.View()), depth, alpha, beta, isMax)
    decreases depth, 3
  {
    var current := Side(isMax);
    if depth == 0 {
      r := board.Evaluate(Max);
      return;
    }
    var moves := board.GenerateMoves(current);
    if |moves| == 0 {
      r := board.Evaluate(Max);
      return;
    }
    r := Siblings(board, moves, depth, alpha, beta, isMax, board.View(), frame);
  }

  /**
   * The loop of Run over the generated moves: the value and the board left behind are those of
   * the sibling loop SearchLoop from the first move with the side's sentinel as the best value.
   */
  method Siblings(board: Board, moves: seq<Move>, depth: nat, alpha: int, beta: int, isMax: bool,
                  ghost s0: Layout, ghost frame: set<Piece>) returns (r: int)
    requires 1 <= depth && Valid(s0) && board.View() == s0 && Vals(moves) == Moves(s0, Side(isMax))
    requires forall q | q in board.pieces :: q in frame
    modifies board, frame
    ensures (r, board.View()) == SearchLoop(s0, Vals(moves), 0, depth, alpha, beta, isMax, Sentinel(isMax))
    decreases depth, 2
  {
    ghost var ms := Vals(moves);
    ghost var target := SearchLoop(s0, ms, 0, depth, alpha, beta, isMax, Sentinel(isMax));
    var a, b := alpha, beta;
    r := if isMax then NegInf else PosInf;
    var i: nat := 0;
    while i < |moves|
      invariant i <= |moves| == |ms|
      invariant multiset(board.View()) == multiset(s0)
      invariant forall q | q in board.pieces :: q in frame
      invariant SearchLoop(board.View(), ms, i, depth, a, b, isMax, r) == target
      decreases |moves| - i
    {
      var move := moves[i];
      assert ms[i] == move.AsPly();
      if !IsBad(move.AsPly()) {
        ghost var cur := board.View();
        var d: nat := depth - 1;
        var eval := SearchChild(board, move, d, a, b, isMax, s0, cur, Side(isMax), frame);
        LoopStep(cur, ms, i, depth, d, a, b, isMax, r, eval, board.View());
        if isMax {
          r := MaxOf(r, eval);
          a := MaxOf(a, eval);
        } else {
          r := MinOf(r, eval);
          b := MinOf(b, eval);
        }
        if b <= a {
          break;
        }
      }
      i := i + 1;
    }
    if i == |moves| {
      SearchLoopDone(board.View(), ms, depth, a, b, isMax, r);
    }
  }

  /**
   * One child of the loop: applies the move, searches the child with the side to move switched
   * and undoes the move. The board comes back as UndoPly of what the child search left.
   */
  method SearchChild(board: Board, move: Move, d: nat, alpha: int, beta: int, isMax: bool,
                     ghost s0: Layout, ghost cur: Layout, ghost p: Player, ghost frame: set<Piece>)
    returns (eval: int)
    requires Valid(s0) && cur == board.View() && multiset(cur) == multiset(s0) && move.AsPly() in Moves(s0, p)
    requires forall q | q in board.pieces :: q in frame
    modifies board, frame
    ensures var r := Search(ApplyPly(cur, move.AsPly()), d, alpha, beta, !isMax);
      eval == r.0 && board.View() == UndoPly(r.1, move.AsPly())
    ensures multiset(board.View()) == multiset(s0)
    ensures forall q | q in board.pieces :: q in frame
    decreases d + 1, 1
  {
    ghost var m := move.AsPly();
    ghost var before := board.pieces;
    SnapshotRefs(before);
    MoveFacts(s0, cur, m, p);
    InSnapshot(before, Placed(m.piece, m.ox, m.oy));
    assert move.piece in frame;
    eval := Descend(board, move, d, alpha, beta, isMax, s0, cur, p, frame);
    ghost var x := board.View();
    ApplyFacts(s0, cur, m, p);
    SearchRestores(ApplyPly(cur, m), d, alpha, beta, !isMax);
    board.UndoMove(move);
    assert board.View() == UndoPly(x, m);
    ChildRestores(s0, cur, m, p, x);
    RefsPerm(board.View(), cur);
    SnapshotRefs(board.pieces);
    forall q | q in board.pieces
      ensures q in frame
    {
      assert q in Refs(board.View());
      assert q in before;
    }
  }

  /**
   * Applies the move and searches the child: the value and the board are Search's on the child,
   * and a captured piece, off the list, still stands on the target.
   */
  method Descend(board: Board, move: Move, d: nat, alpha: int, beta: int, isMax: bool,
                 ghost s0: Layout, ghost cur: Layout, ghost p: Player, ghost frame: set<Piece>)
    returns (eval: int)
    requires Valid(s0) && cur == board.View() && multiset(cur) == multiset(s0) && move.AsPly() in Moves(s0, p)
    requires forall q | q in board.pieces :: q in frame
    modifies board, frame
    ensures (eval, board.View()) == Search(ApplyPly(cur, move.AsPly()), d, alpha, beta, !isMax)
    ensures move.captured != null ==>
      move.captured != move.piece && move.captured.x == move.targetX && move.captured.y == move.targetY
    decreases d + 1, 0
  {
    ghost var m := move.AsPly();
    MoveFacts(s0, cur, m, p);
    ApplyFacts(s0, cur, m, p);
    RefsPerm(s0, cur);
    ghost var before := board.pieces;
    SnapshotRefs(before);
    InSnapshot(before, Placed(m.piece, m.ox, m.oy));
    if move.captured != null {
      InSnapshot(before, Placed(m.captured, m.tx, m.ty));
    }
    board.ApplyMove(move);
    ghost var child := board.View();
    assert child == ApplyPly(cur, m);
    SnapshotRefs(board.pieces);
    forall q | q in board.pieces
      ensures q in before && q != move.captured
    {
      assert q in Refs(child);
    }
    eval := Run(board, d, alpha, beta, !isMax, set q | q in board.pieces);
  }

  /**
   * The engine's move for Max: every move is searched with the full window, and a move is taken
   * only when its value is strictly greater than the best so far. The choice is the first move
   * with the greatest minimax value, none exactly when every value is NegInf, and the board ends
   * with the entries it began with.
   */
  method GetBestMove(board: Board, depth: nat) returns (best: Move?)
    requires 1 <= depth && Valid(board.View())
    modifies board, board.pieces
    ensures PlyOf(best) == FirstBest(old(board.View()), Moves(old(board.View()), Max), depth).0
    ensures best == null <==> forall m | m in Moves(old(board.View()), Max) ::
                                Child(old(board.View()), m, depth, true) <= NegInf
    ensures multiset(board.View()) == multiset(old(board.View()))
  {
    ghost var s0 := board.View();
    var moves := board.GenerateMoves(Max);
    best := RootMoves(board, moves, depth, s0, set q | q in board.pieces);
    FirstBestNone(s0, Moves(s0, Max), depth);
  }

  /**
   * The loop of GetBestMove over the generated moves of Max: the choice is the reference choice
   * over those moves, and the board ends with the entries it began with.
   */
  method RootMoves(board: Board, moves: seq<Move>, depth: nat, ghost s0: Layout, ghost frame: set<Piece>)
    returns (best: Move?)
    requires 1 <= depth && Valid(s0) && board.View() == s0 && Vals(moves) == Moves(s0, Max)
    requires forall q | q in board.pieces :: q in frame
    modifies board, frame
    ensures PlyOf(best) == FirstBest(s0, Vals(moves), depth).0
    ensures multiset(board.View()) == multiset(s0)
  {
    ghost var ms := Vals(moves);
    best := null;
    var bestEval := NegInf;
    assert ms[..0] == [];
    var i: nat := 0;
    while i < |moves|
      invariant i <= |moves| == |ms|
      invariant multiset(board.View()) == multiset(s0)
      invariant forall q | q in board.pieces :: q in frame
      invariant (PlyOf(best), bestEval) == FirstBest(s0, ms[..i], depth)
      decreases |moves| - i
    {
      var move := moves[i];
      assert ms[i] == move.AsPly();
      bestEval, best := Consider(board, move, depth, bestEval, best, s0, ms, i, frame);
      i := i + 1;
    }
    assert ms[..i] == ms;
  }

  /**
   * One move of the root loop: searches it with the full window and takes it when its value is
   * strictly greater than the best so far, so the choice stays the reference choice over the
   * moves seen.
   */
  method Consider(board: Board, move: Move, depth: nat, bestEval: int, best: Move?,
                  ghost s0: Layout, ghost ms: seq<Ply>, ghost i: nat, ghost frame: set<Piece>)
    returns (bestEval': int, best': Move?)
    requires 1 <= depth && Valid(s0) && multiset(board.View()) == multiset(s0) && ms == Moves(s0, Max)
    requires i < |ms| && ms[i] == move.AsPly()
    requires (PlyOf(best), bestEval) == FirstBest(s0, ms[..i], depth)
    requires forall q | q in board.pieces :: q in frame
    modifies board, frame
    ensures (PlyOf(best'), bestEval') == FirstBest(s0, ms[..i + 1], depth)
    ensures multiset(board.View()) == multiset(s0)
    ensures forall q | q in board.pieces :: q in frame
  {
    ghost var cur := board.View();
    ghost var m := move.AsPly();
    assert m in ms;
    var d: nat := depth - 1;
    var eval := SearchChild(board, move, d, NegInf, PosInf, true, s0, cur, Max, frame);
    ChildStep(s0, cur, m, Max, depth, d, NegInf, PosInf, true);
    ChildRange(s0, m, depth, d, true);
    assert eval == Child(s0, m, depth, true);
    FirstBestSnoc(s0, ms, i, depth);
    bestEval', best' := bestEval, best;
    if eval > bestEval {
      bestEval', best' := eval, move;
    }
  }
}

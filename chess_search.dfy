/**
 * The engine's search as values. Search follows the engine step by step: it applies a move,
 * searches the child, undoes the move and prunes, threading the list order the undo produces.
 * Minimax is the reference value without pruning, with the same skip rule and sentinels.
 */
module ChessSearch {
  import opened Options
  import opened ChessPieces
  import opened ChessMoves
  import opened ChessRules
  import opened ChessGeneration
  import opened ChessPosition
  import opened ChessInvariance
  import opened ChessBounds

  const NegInf: int := -10000
  const PosInf: int := 10000

  function Side(maximizing: bool): Player {
    if maximizing then Max else Min
  }

  /** A pawn taking a queen is skipped by the search below the root. */
  predicate IsBad(m: Ply) {
    m.piece.kind == Pawn && m.captured != null && m.captured.kind == Queen
  }

  /** The value a node reports when every one of its moves is skipped. */
  function Sentinel(maximizing: bool): int {
    if maximizing then NegInf else PosInf
  }

  function MaxOf(a: int, b: int): int {
    if a >= b then a else b
  }

  function MinOf(a: int, b: int): int {
    if a <= b then a else b
  }

  // ---- The engine's search ----

  /** The value the engine's search returns and the piece list it leaves behind. */
  function Search(s: Layout, depth: nat, alpha: int, beta: int, maximizing: bool): (int, Layout)
    decreases depth, 1
  {
    if depth == 0 then (Eval(s, Max), s)
    else
      var ms := Moves(s, Side(maximizing));
      if |ms| == 0 then (Eval(s, Max), s)
      else SearchLoop(s, ms, 0, depth, alpha, beta, maximizing, Sentinel(maximizing))
  }

  /** The sibling loop from move i on, with the current list, window and best value so far. */
  function SearchLoop(cur: Layout, ms: seq<Ply>, i: nat, depth: nat, alpha: int, beta: int,
                      maximizing: bool, best: int): (int, Layout)
    requires 1 <= depth && i <= |ms|
    decreases depth, 0, |ms| - i
  {
    if i == |ms| then (best, cur)
    else if IsBad(ms[i]) then SearchLoop(cur, ms, i + 1, depth, alpha, beta, maximizing, best)
    else
      var m := ms[i];
      var (v, x) := Search(ApplyPly(cur, m), depth - 1, alpha, beta, !maximizing);
      var after := UndoPly(x, m);
      if maximizing then
        var best', alpha' := MaxOf(best, v), MaxOf(alpha, v);
        if beta <= alpha' then (best', after)
        else SearchLoop(after, ms, i + 1, depth, alpha', beta, maximizing, best')
      else
        var best', beta' := MinOf(best, v), MinOf(beta, v);
        if beta' <= alpha then (best', after)
        else SearchLoop(after, ms, i + 1, depth, alpha, beta', maximizing, best')
  }

  /** A search at depth d is the search at depth - 1 when depth is d + 1. */
  lemma SearchDepth(s: Layout, d: nat, depth: nat, alpha: int, beta: int, maximizing: bool)
    requires depth == d + 1
    ensures Search(s, d, alpha, beta, maximizing) == Search(s, depth - 1, alpha, beta, maximizing)
  {
  }

  // ---- Reference minimax ----

  function Minimax(s: Layout, depth: nat, maximizing: bool): int
    decreases depth, 1
  {
    if depth == 0 then Eval(s, Max)
    else
      var ms := Moves(s, Side(maximizing));
      if |ms| == 0 then Eval(s, Max) else Best(s, ms, depth, maximizing)
  }

  /** The best child value over ms (skipped moves left out), starting from the sentinel. */
  function Best(s: Layout, ms: seq<Ply>, depth: nat, maximizing: bool): int
    requires depth >= 1
    decreases depth, 0, |ms|
  {
    if |ms| == 0 then Sentinel(maximizing)
    else
      var rest := Best(s, ms[..|ms| - 1], depth, maximizing);
      var m := ms[|ms| - 1];
      if IsBad(m) then rest
      else
        var v := Minimax(ApplyPly(s, m), depth - 1, !maximizing);
        if maximizing then MaxOf(rest, v) else MinOf(rest, v)
  }

  function Child(s: Layout, m: Ply, depth: nat, maximizing: bool): int
    requires depth >= 1
  {
    Minimax(ApplyPly(s, m), depth - 1, !maximizing)
  }

  /**
   * Best is the maximum (minimum) of the sentinel and the values of the moves that are not
   * skipped: it bounds each of them and is either the sentinel or one of them.
   */
  lemma {:induction false} BestIsExtremum(s: Layout, ms: seq<Ply>, depth: nat, maximizing: bool)
    requires depth >= 1
    ensures var b := Best(s, ms, depth, maximizing);
      (maximizing ==> b >= NegInf && forall m | m in ms && !IsBad(m) :: Child(s, m, depth, maximizing) <= b)
      && (!maximizing ==> b <= PosInf && forall m | m in ms && !IsBad(m) :: Child(s, m, depth, maximizing) >= b)
      && (b == Sentinel(maximizing) || exists m :: m in ms && !IsBad(m) && b == Child(s, m, depth, maximizing))
    decreases |ms|
  {
    if |ms| > 0 {
      var init := ms[..|ms| - 1];
      var last := ms[|ms| - 1];
      assert ms == init + [last];
      BestIsExtremum(s, init, depth, maximizing);
      var b := Best(s, ms, depth, maximizing);
      if b != Sentinel(maximizing) && b == Best(s, init, depth, maximizing) {
        var m :| m in init && !IsBad(m) && b == Child(s, m, depth, maximizing);
        assert m in ms;
      }
    }
  }
}

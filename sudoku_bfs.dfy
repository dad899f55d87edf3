/**
 * Sudoku by breadth-first search. The queue holds 9×9 boards; each round takes the front board,
 * finds its first empty cell in row-major order, and queues one copy of the board per digit 1..9
 * that is safe there. The first board taken with no empty cell is the answer. The start board is
 * copied before the search and never written.
 */
module SudokuBfs {

  /** A board as a value: 9 rows of 9 cells, 0 for an empty cell. */
  type Grid = seq<seq<int>>

  predicate Shaped(g: Grid) {
    |g| == 9 && forall r | 0 <= r < 9 :: |g[r]| == 9
  }

  /** The board arrays the solver allocates. */
  predicate Nine(a: array2<int>) {
    a.Length0 == 9 && a.Length1 == 9
  }

  /** The contents of a board array. */
  ghost function Cells(a: array2<int>): (g: Grid)
    requires Nine(a)
    reads a
    ensures Shaped(g)
    ensures forall r, c | 0 <= r < 9 && 0 <= c < 9 :: g[r][c] == a[r, c]
  {
    seq(9, r requires 0 <= r < 9 reads a => seq(9, c requires 0 <= c < 9 reads a => a[r, c]))
  }

  /** The board with cell (r, c) set to v. */
  function Put(g: Grid, r: int, c: int, v: int): (h: Grid)
    requires Shaped(g) && 0 <= r < 9 && 0 <= c < 9
    ensures Shaped(h) && h[r][c] == v
    ensures forall r', c' | 0 <= r' < 9 && 0 <= c' < 9 && (r', c') != (r, c) :: h[r'][c'] == g[r'][c']
  {
    g[r := g[r][c := v]]
  }

  // ---- Safety ----

  /** Two different cells constrain each other when they share a row, a column or a 3×3 box. */
  predicate Peers(r: int, c: int, r': int, c': int) {
    (r, c) != (r', c')
    && (r == r' || c == c' || (r / 3 == r' / 3 && c / 3 == c' / 3))
  }

  /**
   * The safety test as the solver writes it: num is absent from row row, from column col, and
   * from the 3×3 box whose corner is (row − row % 3, col − col % 3).
   */
  predicate Safe(g: Grid, row: int, col: int, num: int)
    requires Shaped(g) && 0 <= row < 9 && 0 <= col < 9
  {
    (forall x | 0 <= x < 9 :: g[row][x] != num && g[x][col] != num)
    && (forall r, c | row - row % 3 <= r < row - row % 3 + 3 && col - col % 3 <= c < col - col % 3 + 3 ::
          g[r][c] != num)
  }

  /** The box of a row or column index starts at the index less its remainder by 3. */
  lemma BoxRange(a: int, b: int)
    requires 0 <= a < 9 && 0 <= b < 9
    ensures a / 3 == b / 3 <==> a - a % 3 <= b < a - a % 3 + 3
  {
  }

  /**
   * Safe holds exactly when num is not in the cell itself and not in any peer of it: the row,
   * column and box scans together cover the cell and its peers and nothing else.
   */
  lemma SafeIffNoPeer(g: Grid, row: int, col: int, num: int)
    requires Shaped(g) && 0 <= row < 9 && 0 <= col < 9
    ensures Safe(g, row, col, num)
        <==> g[row][col] != num
             && forall r, c | 0 <= r < 9 && 0 <= c < 9 && Peers(row, col, r, c) :: g[r][c] != num
  {
    var r0, c0 := row - row % 3, col - col % 3;
    if Safe(g, row, col, num) {
      forall r, c | 0 <= r < 9 && 0 <= c < 9 && Peers(row, col, r, c)
        ensures g[r][c] != num
      {
        if r != row && c != col {
          BoxRange(row, r);
          BoxRange(col, c);
        }
      }
    } else if g[row][col] != num {
      if exists x | 0 <= x < 9 :: g[row][x] == num || g[x][col] == num {
        var x :| 0 <= x < 9 && (g[row][x] == num || g[x][col] == num);
        if g[row][x] == num {
          assert Peers(row, col, row, x);
        } else {
          assert Peers(row, col, x, col);
        }
      } else {
        var r, c :| r0 <= r < r0 + 3 && c0 <= c < c0 + 3 && g[r][c] == num;
        BoxRange(row, r);
        BoxRange(col, c);
        assert Peers(row, col, r, c);
      }
    }
  }

  /** No two peer cells hold the same digit. */
  predicate NoClash(g: Grid)
    requires Shaped(g)
  {
    forall r, c, r', c' {:trigger Peers(r, c, r', c')}
      | 0 <= r < 9 && 0 <= c < 9 && 0 <= r' < 9 && 0 <= c' < 9 && Peers(r, c, r', c') ::
      g[r][c] == 0 || g[r][c] != g[r'][c']
  }

  /** Every cell holds 0 or a digit 1..9. */
  predicate Digits(g: Grid)
    requires Shaped(g)
  {
    forall r, c | 0 <= r < 9 && 0 <= c < 9 :: 0 <= g[r][c] <= 9
  }

  /** g keeps every filled cell of the start board s. */
  predicate Extends(s: Grid, g: Grid)
    requires Shaped(s) && Shaped(g)
  {
    forall r, c | 0 <= r < 9 && 0 <= c < 9 :: s[r][c] != 0 ==> g[r][c] == s[r][c]
  }

  /** Every cell is filled. */
  predicate Complete(g: Grid)
    requires Shaped(g)
  {
    forall r, c | 0 <= r < 9 && 0 <= c < 9 :: g[r][c] != 0
  }

  /**
   * Writing a safe digit into an empty cell keeps the board clash-free, keeps the digits in
   * range and keeps every filled cell of the start board.
   */
  lemma PlaceSafe(s: Grid, g: Grid, r: int, c: int, v: int)
    requires Shaped(s) && Shaped(g) && 0 <= r < 9 && 0 <= c < 9 && 1 <= v <= 9
    requires g[r][c] == 0 && Safe(g, r, c, v) && Extends(s, g)
    ensures NoClash(g) ==> NoClash(Put(g, r, c, v))
    ensures Digits(g) ==> Digits(Put(g, r, c, v))
    ensures Extends(s, Put(g, r, c, v))
  {
    SafeIffNoPeer(g, r, c, v);
    var h := Put(g, r, c, v);
    if NoClash(g) {
      forall r1, c1, r2, c2 | 0 <= r1 < 9 && 0 <= c1 < 9 && 0 <= r2 < 9 && 0 <= c2 < 9 && Peers(r1, c1, r2, c2)
        ensures h[r1][c1] == 0 || h[r1][c1] != h[r2][c2]
      {
        if (r2, c2) == (r, c) {
          assert Peers(r, c, r1, c1);
        }
      }
    }
  }

  // ---- Termination measure ----

  /** The empty cells of a board. */
  ghost function ZeroCells(g: Grid): set<(int, int)>
    requires Shaped(g)
  {
    set r, c | 0 <= r < 9 && 0 <= c < 9 && g[r][c] == 0 :: (r, c)
  }

  ghost function Pow10(k: nat): (p: nat)
    ensures p >= 1
  {
    if k == 0 then 1 else 10 * Pow10(k - 1)
  }

  /** Ten to the number of empty cells, summed over the queue. */
  ghost function Weight(gs: seq<Grid>): nat
    requires forall i | 0 <= i < |gs| :: Shaped(gs[i])
  {
    if |gs| == 0 then 0 else Pow10(|ZeroCells(gs[0])|) + Weight(gs[1..])
  }

  lemma {:induction false} WeightConcat(gs: seq<Grid>, hs: seq<Grid>)
    requires forall i | 0 <= i < |gs| :: Shaped(gs[i])
    requires forall i | 0 <= i < |hs| :: Shaped(hs[i])
    ensures Weight(gs + hs) == Weight(gs) + Weight(hs)
    decreases |gs|
  {
    if |gs| > 0 {
      assert (gs + hs)[1..] == gs[1..] + hs;
      WeightConcat(gs[1..], hs);
    } else {
      assert gs + hs == hs;
    }
  }

  /** Boards with k empty cells each weigh ten to the k apiece. */
  lemma {:induction false} WeightEven(gs: seq<Grid>, k: nat)
    requires forall i | 0 <= i < |gs| :: Shaped(gs[i]) && |ZeroCells(gs[i])| == k
    ensures Weight(gs) == |gs| * Pow10(k)
  {
    if |gs| > 0 {
      WeightEven(gs[1..], k);
    }
  }

  /** At most nine boards with k empty cells weigh less than one board with k + 1. */
  lemma NineLess(n: nat, k: nat)
    requires n <= 9
    ensures n * Pow10(k) < Pow10(k + 1)
  {
    assert n * Pow10(k) <= 9 * Pow10(k);
  }

  /** Filling an empty cell removes exactly that cell from the empty ones. */
  lemma FillOne(g: Grid, r: int, c: int, v: int)
    requires Shaped(g) && 0 <= r < 9 && 0 <= c < 9 && g[r][c] == 0 && v != 0
    ensures |ZeroCells(Put(g, r, c, v))| + 1 == |ZeroCells(g)|
  {
    var h := Put(g, r, c, v);
    assert (r, c) in ZeroCells(g);
    assert ZeroCells(h) == ZeroCells(g) - {(r, c)};
  }

  // ---- The solver ----

  /** A fresh 9×9 board holding the same cells as the original. */
  method CopyBoard(original: array2<int>) returns (copy: array2<int>)
    requires Nine(original)
    ensures fresh(copy) && Nine(copy) && Cells(copy) == Cells(original)
  {
    copy := new int[9, 9];
    for r := 0 to 9
      invariant forall r', c | 0 <= r' < r && 0 <= c < 9 :: copy[r', c] == original[r', c]
    {
      for c := 0 to 9
        invariant forall r', c' | 0 <= r' < r && 0 <= c' < 9 :: copy[r', c'] == original[r', c']
        invariant forall c' | 0 <= c' < c :: copy[r, c'] == original[r, c']
      {
        copy[r, c] := original[r, c];
      }
    }
    assert forall r | 0 <= r < 9 :: Cells(copy)[r] == Cells(original)[r];
  }

  /** The scanning test of a digit against a row, a column and a box, as Safe states it. */
  method IsSafe(board: array2<int>, row: int, col: int, num: int) returns (ok: bool)
    requires Nine(board) && 0 <= row < 9 && 0 <= col < 9
    ensures ok == Safe(Cells(board), row, col, num)
  {
    for x := 0 to 9
      invariant forall x' | 0 <= x' < x :: board[row, x'] != num && board[x', col] != num
    {
      if board[row, x] == num || board[x, col] == num {
        return false;
      }
    }
    var startRow := row - row % 3;
    var startCol := col - col % 3;
    for i := 0 to 3
      invariant forall r, c | startRow <= r < startRow + i && startCol <= c < startCol + 3 :: board[r, c] != num
    {
      var r := startRow + i;
      for j := 0 to 3
        invariant forall r, c | startRow <= r < startRow + i && startCol <= c < startCol + 3 :: board[r, c] != num
        invariant forall c | startCol <= c < startCol + j :: board[r, c] != num
      {
        if board[r, startCol + j] == num {
          return false;
        }
      }
    }
    return true;
  }

  /**
   * The first empty cell in row-major order, or (−1, −1) when every cell is filled.
   */
  method FirstEmpty(board: array2<int>) returns (emptyRow: int, emptyCol: int)
    requires Nine(board)
    ensures emptyRow == -1 <==> Complete(Cells(board))
    ensures emptyRow != -1 ==> 0 <= emptyRow < 9 && 0 <= emptyCol < 9 && board[emptyRow, emptyCol] == 0
    ensures emptyRow != -1 ==> forall r, c | 0 <= r < 9 && 0 <= c < 9 && (r < emptyRow || (r == emptyRow && c < emptyCol)) ::
                                 board[r, c] != 0
  {
    emptyRow, emptyCol := -1, -1;
    var r := 0;
    while r < 9
      invariant 0 <= r <= 9
      invariant forall r', c | 0 <= r' < r && 0 <= c < 9 :: board[r', c] != 0
    {
      var c := 0;
      while c < 9
        invariant 0 <= c <= 9
        invariant forall c' | 0 <= c' < c :: board[r, c'] != 0
      {
        if board[r, c] == 0 {
          emptyRow, emptyCol := r, c;
          return;
        }
        c := c + 1;
      }
      r := r + 1;
    }
  }

  /**
   * What the search keeps about every queued board: it is a 9×9 board keeping the start board's
   * filled cells, with no clash and only digits whenever the start board has none.
   */
  predicate Good(s: Grid, g: Grid)
    requires Shaped(s)
  {
    Shaped(g) && Extends(s, g) && (NoClash(s) ==> NoClash(g)) && (Digits(s) ==> Digits(g))
  }

  /**
   * The children of a board at its empty cell: one fresh copy per digit 1..9 that is safe there,
   * in increasing order, each differing from the parent only at that cell.
   */
  method Expand(board: array2<int>, emptyRow: int, emptyCol: int, ghost s: Grid, ghost g: Grid)
      returns (children: seq<array2<int>>, ghost digits: seq<int>)
    requires Nine(board) && Cells(board) == g && Shaped(s) && Good(s, g)
    requires 0 <= emptyRow < 9 && 0 <= emptyCol < 9 && g[emptyRow][emptyCol] == 0
    ensures |digits| == |children| <= 9
    ensures forall v :: v in digits <==> 1 <= v <= 9 && Safe(g, emptyRow, emptyCol, v)
    ensures forall i, j | 0 <= i < j < |digits| :: digits[i] < digits[j]
    ensures forall i | 0 <= i < |children| ::
      fresh(children[i]) && Nine(children[i]) && Cells(children[i]) == Put(g, emptyRow, emptyCol, digits[i])
  {
    children, digits := [], [];
    var val := 1;
    while val <= 9
      invariant 1 <= val <= 10 && |digits| == |children| <= val - 1
      invariant Cells(board) == g
      invariant forall v :: v in digits <==> 1 <= v < val && Safe(g, emptyRow, emptyCol, v)
      invariant forall i | 0 <= i < |digits| :: digits[i] < val
      invariant forall i, j | 0 <= i < j < |digits| :: digits[i] < digits[j]
      invariant forall i | 0 <= i < |children| ::
        fresh(children[i]) && Nine(children[i]) && Cells(children[i]) == Put(g, emptyRow, emptyCol, digits[i])
    {
      var safe := IsSafe(board, emptyRow, emptyCol, val);
      if safe {
        var newBoard := Child(board, emptyRow, emptyCol, val);
        children, digits := children + [newBoard], digits + [val];
      }
      val := val + 1;
    }
  }

  /** A fresh copy of the board with digit val written into cell (r, c). */
  method Child(board: array2<int>, r: int, c: int, val: int) returns (newBoard: array2<int>)
    requires Nine(board) && 0 <= r < 9 && 0 <= c < 9
    ensures fresh(newBoard) && Nine(newBoard) && Cells(newBoard) == Put(Cells(board), r, c, val)
  {
    newBoard := CopyBoard(board);
    newBoard[r, c] := val;
    forall i | 0 <= i < 9
      ensures Cells(newBoard)[i] == Put(old(Cells(board)), r, c, val)[i]
    {
    }
  }

  /** The children of a good board are good and have one empty cell fewer. */
  lemma ChildrenGood(s: Grid, g: Grid, r: int, c: int, digits: seq<int>)
    requires Shaped(s) && Good(s, g) && 0 <= r < 9 && 0 <= c < 9 && g[r][c] == 0
    requires forall v :: v in digits ==> 1 <= v <= 9 && Safe(g, r, c, v)
    ensures forall i | 0 <= i < |digits| ::
      Good(s, Put(g, r, c, digits[i])) && |ZeroCells(Put(g, r, c, digits[i]))| + 1 == |ZeroCells(g)|
  {
    forall i | 0 <= i < |digits|
      ensures Good(s, Put(g, r, c, digits[i])) && |ZeroCells(Put(g, r, c, digits[i]))| + 1 == |ZeroCells(g)|
    {
      assert digits[i] in digits;
      PlaceSafe(s, g, r, c, digits[i]);
      FillOne(g, r, c, digits[i]);
    }
  }

  /**
   * Replacing the front board by at most nine good children with one empty cell fewer keeps
   * the queue good and makes it lighter.
   */
  lemma NextQueue(s: Grid, vals: seq<Grid>, kids: seq<Grid>, z: nat)
    requires Shaped(s) && |vals| >= 1 && |kids| <= 9
    requires forall i | 0 <= i < |vals| :: Shaped(vals[i]) && Good(s, vals[i])
    requires |ZeroCells(vals[0])| == z + 1
    requires forall i | 0 <= i < |kids| :: Good(s, kids[i]) && |ZeroCells(kids[i])| == z
    ensures forall i | 0 <= i < |vals| - 1 + |kids| ::
      Shaped((vals[1..] + kids)[i]) && Good(s, (vals[1..] + kids)[i])
    ensures Weight(vals[1..] + kids) < Weight(vals)
  {
    WeightEven(kids, z);
    WeightConcat(vals[1..], kids);
    NineLess(|kids|, z);
    assert Weight(vals) == Pow10(z + 1) + Weight(vals[1..]);
    forall i | 0 <= i < |vals| - 1 + |kids|
      ensures Good(s, (vals[1..] + kids)[i])
    {
      if i < |vals| - 1 {
        assert (vals[1..] + kids)[i] == vals[i + 1];
      } else {
        assert (vals[1..] + kids)[i] == kids[i - (|vals| - 1)];
      }
    }
  }

  /** The boards of the next queue hold the next queue's values. */
  lemma QueueCells(queue: seq<array2<int>>, children: seq<array2<int>>, vals: seq<Grid>, kids: seq<Grid>)
    requires |queue| == |vals| >= 1 && |children| == |kids|
    requires forall i | 0 <= i < |queue| :: Nine(queue[i]) && Cells(queue[i]) == vals[i]
    requires forall i | 0 <= i < |children| :: Nine(children[i]) && Cells(children[i]) == kids[i]
    ensures forall i | 0 <= i < |queue| - 1 + |children| ::
      Nine((queue[1..] + children)[i]) && Cells((queue[1..] + children)[i]) == (vals[1..] + kids)[i]
  {
    forall i | 0 <= i < |queue| - 1 + |children|
      ensures Nine((queue[1..] + children)[i]) && Cells((queue[1..] + children)[i]) == (vals[1..] + kids)[i]
    {
      if i < |queue| - 1 {
        assert (queue[1..] + children)[i] == queue[i + 1];
      } else {
        assert (queue[1..] + children)[i] == children[i - (|queue| - 1)];
      }
    }
  }

  /**
   * One round on the front board g: done when it has no empty cell; otherwise its children at
   * its first empty cell, good and with one empty cell fewer than g.
   */
  method Round(currentBoard: array2<int>, ghost s: Grid, ghost g: Grid)
      returns (done: bool, children: seq<array2<int>>, ghost kids: seq<Grid>)
    requires Nine(currentBoard) && Cells(currentBoard) == g && Shaped(s) && Good(s, g)
    ensures done ==> Complete(g)
    ensures !done ==> |ZeroCells(g)| >= 1
    ensures |kids| == |children| <= 9
    ensures forall b | b in children :: fresh(b)
    ensures forall i | 0 <= i < |children| :: Nine(children[i]) && Cells(children[i]) == kids[i]
    ensures forall i | 0 <= i < |kids| :: Good(s, kids[i]) && |ZeroCells(kids[i])| + 1 == |ZeroCells(g)|
  {
    var emptyRow, emptyCol := FirstEmpty(currentBoard);
    if emptyRow == -1 {
      return true, [], [];
    }
    assert (emptyRow, emptyCol) in ZeroCells(g);
    done := false;
    ghost var digits;
    children, digits := Expand(currentBoard, emptyRow, emptyCol, s, g);
    ChildrenGood(s, g, emptyRow, emptyCol, digits);
    kids := seq(|digits|, i requires 0 <= i < |digits| => Put(g, emptyRow, emptyCol, digits[i]));
  }

  /**
   * Breadth-first search from the start board. A board it returns is a fresh 9×9 board with
   * every cell filled that keeps the start board's filled cells; when the start board has no
   * clash and only digits, neither has the answer. The start board itself is not written.
   */
  method SolveSudokuBFS(startBoard: array2<int>) returns (result: array2?<int>)
    requires Nine(startBoard)
    ensures result != null ==> fresh(result) && Nine(result)
    ensures result != null ==> Complete(Cells(result)) && Extends(Cells(startBoard), Cells(result))
    ensures result != null && NoClash(Cells(startBoard)) ==> NoClash(Cells(result))
    ensures result != null && Digits(Cells(startBoard)) ==> Digits(Cells(result))
  {
    ghost var s := Cells(startBoard);
    var first := CopyBoard(startBoard);
    var queue := [first];
    ghost var vals := [s];
    while |queue| > 0
      invariant forall b | b in queue :: fresh(b)
      invariant |vals| == |queue|
      invariant forall i | 0 <= i < |queue| :: Nine(queue[i]) && Cells(queue[i]) == vals[i]
      invariant forall i | 0 <= i < |vals| :: Shaped(vals[i]) && Good(s, vals[i])
      decreases Weight(vals)
    {
      var currentBoard := queue[0];
      var done, children;
      ghost var kids;
      done, children, kids := Round(currentBoard, s, vals[0]);
      if done {
        assert currentBoard in queue && Good(s, vals[0]) && Cells(startBoard) == s;
        return currentBoard;
      }
      NextQueue(s, vals, kids, |ZeroCells(vals[0])| - 1);
      QueueCells(queue, children, vals, kids);
      assert forall b | b in queue[1..] + children :: b in queue || b in children;
      queue, vals := queue[1..] + children, vals[1..] + kids;
    }
    return null;
  }
}

/**
 * Latin square by iterative deepening. Cells are filled in row-major order; a value goes into a
 * cell only when neither its row nor its column holds it yet, which the solver tracks in two flag
 * tables kept in step with the grid. A failed attempt is undone before the next value is tried.
 */
module LatinSquare {

  /** Multiplying by a natural number keeps the order. */
  lemma {:induction false} MulLe(a: nat, b: nat, n: nat)
    requires a <= b
    ensures a * n <= b * n
  {
    if a < b {
      MulLe(a, b - 1, n);
      assert b * n == (b - 1) * n + n;
    }
  }

  /** Quotient and remainder are the only way to write a as q·n + m with m below n. */
  lemma DivUnique(a: nat, q: nat, m: nat, n: nat)
    requires 0 < n && m < n && a == q * n + m
    ensures a / n == q && a % n == m
  {
    var q', m' := a / n, a % n;
    assert a == q' * n + m';
    if q' < q {
      MulLe(q' + 1, q, n);
    } else if q < q' {
      MulLe(q + 1, q', n);
    }
  }

  /**
   * The row and column of a cell index below n·n are below n, and the next index moves one
   * column right, or to the start of the next row after the last column.
   */
  lemma NextCell(index: nat, n: nat)
    requires 0 < n && index < n * n
    ensures index / n < n && index % n < n
    ensures index % n + 1 < n ==> (index + 1) / n == index / n && (index + 1) % n == index % n + 1
    ensures index % n + 1 == n ==> (index + 1) / n == index / n + 1 && (index + 1) % n == 0
  {
    var r, c := index / n, index % n;
    assert index == r * n + c;
    if r >= n {
      MulLe(n, r, n);
    }
    if c + 1 < n {
      DivUnique(index + 1, r, c + 1, n);
    } else {
      assert (r + 1) * n == r * n + n;
      DivUnique(index + 1, r + 1, 0, n);
    }
  }

  /** Distinct values drawn from 1..n, n of them, cover all of 1..n. */
  lemma {:induction false} Pigeonhole(s: seq<int>, n: nat)
    requires |s| == n
    requires forall k | 0 <= k < |s| :: 1 <= s[k] <= n
    requires forall k1, k2 | 0 <= k1 < k2 < |s| :: s[k1] != s[k2]
    ensures forall v | 1 <= v <= n :: v in s
  {
    var vals := set k | 0 <= k < |s| :: s[k];
    DistinctCard(s);
    RangeCard(n);
    RangeHas(n);
    assert vals <= Range(n);
    SubsetCard(vals, Range(n));
    forall v | 1 <= v <= n ensures v in s {
      assert v in Range(n);
      var k :| 0 <= k < |s| && s[k] == v;
    }
  }

  /** The values 1..n. */
  function Range(n: nat): set<int> {
    if n == 0 then {} else Range(n - 1) + {n}
  }

  lemma {:induction false} RangeHas(n: nat)
    ensures forall v :: v in Range(n) <==> 1 <= v <= n
  {
    if n > 0 {
      RangeHas(n - 1);
    }
  }

  lemma {:induction false} RangeCard(n: nat)
    ensures |Range(n)| == n
  {
    if n > 0 {
      RangeCard(n - 1);
      RangeHas(n - 1);
      assert n !in Range(n - 1);
    }
  }

  lemma {:induction false} DistinctCard(s: seq<int>)
    requires forall k1, k2 | 0 <= k1 < k2 < |s| :: s[k1] != s[k2]
    ensures |set k | 0 <= k < |s| :: s[k]| == |s|
  {
    if |s| > 0 {
      var init := s[..|s| - 1];
      DistinctCard(init);
      var a := set k | 0 <= k < |init| :: init[k];
      var b := set k | 0 <= k < |s| :: s[k];
      assert b == a + {s[|s| - 1]};
      assert s[|s| - 1] !in a;
    }
  }

  lemma SubsetCard(a: set<int>, b: set<int>)
    requires a <= b && |a| == |b|
    ensures a == b
  {
    assert |b - a| == |b| - |a|;
  }

  // ---- The grid as a value ----

  /** Rows of cells; row-major cell (i, j) is g[i][j]. */
  type Grid = seq<seq<int>>

  predicate Square(g: Grid, n: nat) {
    |g| == n && forall i | 0 <= i < n :: |g[i]| == n
  }

  /** Cell (i, j) comes before cell (r, c) in row-major order. */
  predicate Before(i: int, j: int, r: int, c: int) {
    i < r || (i == r && j < c)
  }

  /** Cells before (r, c) hold 1..n and the others hold 0. */
  predicate FilledBefore(g: Grid, n: nat, r: int, c: int)
    requires Square(g, n)
  {
    forall i, j | 0 <= i < n && 0 <= j < n ::
      if Before(i, j, r, c) then 1 <= g[i][j] <= n else g[i][j] == 0
  }

  /** No filled value repeats in a row or in a column. */
  predicate NoRepeats(g: Grid, n: nat)
    requires Square(g, n)
  {
    (forall i, j1, j2 | 0 <= i < n && 0 <= j1 < n && 0 <= j2 < n && j1 != j2 ::
       g[i][j1] != 0 ==> g[i][j1] != g[i][j2])
    && (forall i1, i2, j | 0 <= i1 < n && 0 <= i2 < n && 0 <= j < n && i1 != i2 ::
       g[i1][j] != 0 ==> g[i1][j] != g[i2][j])
  }

  predicate RowHas(g: Grid, n: nat, i: int, v: int)
    requires Square(g, n) && 0 <= i < n
  {
    exists j | 0 <= j < n :: g[i][j] == v
  }

  predicate ColHas(g: Grid, n: nat, j: int, v: int)
    requires Square(g, n) && 0 <= j < n
  {
    exists i | 0 <= i < n :: g[i][j] == v
  }

  /** Every row and every column holds each of 1..n exactly once. */
  predicate IsLatin(g: Grid, n: nat)
    requires Square(g, n)
  {
    (forall i, j | 0 <= i < n && 0 <= j < n :: 1 <= g[i][j] <= n)
    && NoRepeats(g, n)
    && (forall i, v | 0 <= i < n && 1 <= v <= n :: RowHas(g, n, i, v))
    && (forall j, v | 0 <= j < n && 1 <= v <= n :: ColHas(g, n, j, v))
  }

  /** The grid with cell (r, c) set to v. */
  function Put(g: Grid, n: nat, r: int, c: int, v: int): (h: Grid)
    requires Square(g, n) && 0 <= r < n && 0 <= c < n
    ensures Square(h, n)
    ensures forall i, j | 0 <= i < n && 0 <= j < n :: h[i][j] == if i == r && j == c then v else g[i][j]
  {
    g[r := g[r][c := v]]
  }

  /**
   * Filling the first empty cell (r, c) keeps the filled cells a prefix: afterwards every cell
   * before (r', c') is filled, where (r', c') follows (r, c).
   */
  lemma PutFills(g: Grid, n: nat, r: int, c: int, v: int, r': int, c': int)
    requires Square(g, n) && 0 <= r < n && 0 <= c < n && 1 <= v <= n
    requires FilledBefore(g, n, r, c)
    requires if c + 1 < n then r' == r && c' == c + 1 else r' == r + 1 && c' == 0
    ensures FilledBefore(Put(g, n, r, c, v), n, r', c')
  {
  }

  /** A value absent from the row and column of an empty cell can go there without a repeat. */
  lemma PutNoRepeats(g: Grid, n: nat, r: int, c: int, v: int)
    requires Square(g, n) && 0 <= r < n && 0 <= c < n && 1 <= v <= n
    requires NoRepeats(g, n) && !RowHas(g, n, r, v) && !ColHas(g, n, c, v)
    ensures NoRepeats(Put(g, n, r, c, v), n)
  {
    var h := Put(g, n, r, c, v);
    forall i, j1, j2 | 0 <= i < n && 0 <= j1 < n && 0 <= j2 < n && j1 != j2 && h[i][j1] != 0
      ensures h[i][j1] != h[i][j2]
    {
      if i == r && (j1 == c || j2 == c) {
        var j := if j1 == c then j2 else j1;
        assert g[r][j] != v;
      }
    }
    forall i1, i2, j | 0 <= i1 < n && 0 <= i2 < n && 0 <= j < n && i1 != i2 && h[i1][j] != 0
      ensures h[i1][j] != h[i2][j]
    {
      if j == c && (i1 == r || i2 == r) {
        var i := if i1 == r then i2 else i1;
        assert g[i][c] != v;
      }
    }
  }

  /**
   * Putting v into the empty cell (r, c) adds v to row r and to column c, and changes no other
   * row's or column's values.
   */
  lemma PutHas(g: Grid, n: nat, r: int, c: int, v: int)
    requires Square(g, n) && 0 <= r < n && 0 <= c < n && 1 <= v <= n && g[r][c] == 0
    ensures RowHas(Put(g, n, r, c, v), n, r, v) && ColHas(Put(g, n, r, c, v), n, c, v)
    ensures forall i, w | 0 <= i < n && 1 <= w <= n && (i != r || w != v) ::
      RowHas(Put(g, n, r, c, v), n, i, w) == RowHas(g, n, i, w)
    ensures forall j, w | 0 <= j < n && 1 <= w <= n && (j != c || w != v) ::
      ColHas(Put(g, n, r, c, v), n, j, w) == ColHas(g, n, j, w)
  {
    var h := Put(g, n, r, c, v);
    assert h[r][c] == v;
    forall i, w | 0 <= i < n && 1 <= w <= n && (i != r || w != v)
      ensures RowHas(h, n, i, w) == RowHas(g, n, i, w)
    {
      if RowHas(h, n, i, w) {
        var j :| 0 <= j < n && h[i][j] == w;
        assert g[i][j] == w;
      }
      if RowHas(g, n, i, w) {
        var j :| 0 <= j < n && g[i][j] == w;
        assert h[i][j] == w;
      }
    }
    forall j, w | 0 <= j < n && 1 <= w <= n && (j != c || w != v)
      ensures ColHas(h, n, j, w) == ColHas(g, n, j, w)
    {
      if ColHas(h, n, j, w) {
        var i :| 0 <= i < n && h[i][j] == w;
        assert g[i][j] == w;
      }
      if ColHas(g, n, j, w) {
        var i :| 0 <= i < n && g[i][j] == w;
        assert h[i][j] == w;
      }
    }
  }

  /** Flag tables: one row per grid row (or column), one entry per value 0..n. */
  predicate FlagShape(f: seq<seq<bool>>, n: nat) {
    |f| == n && forall i | 0 <= i < n :: |f[i]| == n + 1
  }

  /** The flag table with entry (i, v) set to b. */
  function WithFlag(f: seq<seq<bool>>, n: nat, i: int, v: int, b: bool): (h: seq<seq<bool>>)
    requires FlagShape(f, n) && 0 <= i < n && 0 <= v <= n
    ensures FlagShape(h, n)
    ensures forall k, w | 0 <= k < n && 0 <= w <= n :: h[k][w] == if k == i && w == v then b else f[k][w]
  {
    f[i := f[i][v := b]]
  }

  /** The flag for value v is set exactly when its row (column) holds v. */
  predicate FlagsMatch(g: Grid, rf: seq<seq<bool>>, cf: seq<seq<bool>>, n: nat)
    requires Square(g, n) && FlagShape(rf, n) && FlagShape(cf, n)
  {
    (forall i, v | 0 <= i < n && 1 <= v <= n :: rf[i][v] <==> RowHas(g, n, i, v))
    && (forall j, v | 0 <= j < n && 1 <= v <= n :: cf[j][v] <==> ColHas(g, n, j, v))
  }

  /**
   * The solver's invariant with the cells before (r, c) filled: those cells hold 1..n, the rest
   * 0, nothing repeats in a row or column, and the flags record exactly the values present.
   */
  predicate Consistent(g: Grid, rf: seq<seq<bool>>, cf: seq<seq<bool>>, n: nat, r: int, c: int) {
    Square(g, n) && FlagShape(rf, n) && FlagShape(cf, n)
    && FilledBefore(g, n, r, c) && NoRepeats(g, n) && FlagsMatch(g, rf, cf, n)
  }

  /**
   * Placing a value whose two flags are clear into the first empty cell, and setting both
   * flags, keeps the invariant with the filled prefix grown by one cell.
   */
  lemma PlaceKeeps(g: Grid, rf: seq<seq<bool>>, cf: seq<seq<bool>>, n: nat, r: int, c: int, v: int,
                   r': int, c': int)
    requires Consistent(g, rf, cf, n, r, c) && 0 <= r < n && 0 <= c < n && 1 <= v <= n
    requires !rf[r][v] && !cf[c][v]
    requires if c + 1 < n then r' == r && c' == c + 1 else r' == r + 1 && c' == 0
    ensures g[r][c] == 0
    ensures Consistent(Put(g, n, r, c, v), WithFlag(rf, n, r, v, true), WithFlag(cf, n, c, v, true), n, r', c')
  {
    assert !Before(r, c, r, c);
    PutFills(g, n, r, c, v, r', c');
    PutNoRepeats(g, n, r, c, v);
    PutHas(g, n, r, c, v);
  }

  /** Clearing the cell and the two flags again gives back the state before the placement. */
  lemma UndoRestores(g: Grid, rf: seq<seq<bool>>, cf: seq<seq<bool>>, n: nat, r: int, c: int, v: int)
    requires Square(g, n) && FlagShape(rf, n) && FlagShape(cf, n) && 0 <= r < n && 0 <= c < n && 1 <= v <= n
    requires g[r][c] == 0 && !rf[r][v] && !cf[c][v]
    ensures Put(Put(g, n, r, c, v), n, r, c, 0) == g
    ensures WithFlag(WithFlag(rf, n, r, v, true), n, r, v, false) == rf
    ensures WithFlag(WithFlag(cf, n, c, v, true), n, c, v, false) == cf
  {
    var g2 := Put(Put(g, n, r, c, v), n, r, c, 0);
    forall i | 0 <= i < n ensures g2[i] == g[i] { }
    var rf2 := WithFlag(WithFlag(rf, n, r, v, true), n, r, v, false);
    forall i | 0 <= i < n ensures rf2[i] == rf[i] { }
    var cf2 := WithFlag(WithFlag(cf, n, c, v, true), n, c, v, false);
    forall i | 0 <= i < n ensures cf2[i] == cf[i] { }
  }

  /** A grid filled to the end without repeats is a Latin square. */
  lemma CompleteIsLatin(g: Grid, n: nat)
    requires Square(g, n) && FilledBefore(g, n, n, 0) && NoRepeats(g, n)
    ensures IsLatin(g, n)
  {
    forall i, v | 0 <= i < n && 1 <= v <= n
      ensures RowHas(g, n, i, v)
    {
      Pigeonhole(g[i], n);
      assert v in g[i];
      var j :| 0 <= j < n && g[i][j] == v;
    }
    forall j, v | 0 <= j < n && 1 <= v <= n
      ensures ColHas(g, n, j, v)
    {
      var col := seq(n, i requires 0 <= i < n => g[i][j]);
      Pigeonhole(col, n);
      assert v in col;
      var i :| 0 <= i < n && col[i] == v;
    }
  }

  // ---- The solver ----

  class LatinSquareSolver {
    const n: nat
    const grid: array2<int>
    const rowUsed: array2<bool>
    const colUsed: array2<bool>

    /** The tables have the sizes the solver allocates: n×n cells, n×(n+1) flags. */
    predicate Shaped()
      reads this
    {
      grid.Length0 == n && grid.Length1 == n
      && rowUsed.Length0 == n && rowUsed.Length1 == n + 1
      && colUsed.Length0 == n && colUsed.Length1 == n + 1
      && rowUsed != colUsed
    }

    /** The grid's cells as a value. */
    function Cells(): (g: Grid)
      requires Shaped()
      reads this, grid
      ensures Square(g, n)
      ensures forall i, j | 0 <= i < n && 0 <= j < n :: g[i][j] == grid[i, j]
    {
      seq(n, i requires 0 <= i < n reads grid => seq(n, j requires 0 <= j < n reads grid => grid[i, j]))
    }

    /** The two flag tables as values. */
    function RowFlags(): (f: seq<seq<bool>>)
      requires Shaped()
      reads this, rowUsed
      ensures FlagShape(f, n)
      ensures forall i, w | 0 <= i < n && 0 <= w <= n :: f[i][w] == rowUsed[i, w]
    {
      seq(n, i requires 0 <= i < n reads rowUsed => seq(n + 1, w requires 0 <= w <= n reads rowUsed => rowUsed[i, w]))
    }

    function ColFlags(): (f: seq<seq<bool>>)
      requires Shaped()
      reads this, colUsed
      ensures FlagShape(f, n)
      ensures forall j, w | 0 <= j < n && 0 <= w <= n :: f[j][w] == colUsed[j, w]
    {
      seq(n, j requires 0 <= j < n reads colUsed => seq(n + 1, w requires 0 <= w <= n reads colUsed => colUsed[j, w]))
    }

    /** Everything the search changes: the grid and both flag tables. */
    function State(): (Grid, seq<seq<bool>>, seq<seq<bool>>)
      requires Shaped()
      reads this, grid, rowUsed, colUsed
    {
      (Cells(), RowFlags(), ColFlags())
    }

    /** Row and column of the row-major cell index k. */
    function Row(k: nat): nat
      reads this
    {
      if n == 0 then 0 else k / n
    }

    function Col(k: nat): nat
      reads this
    {
      if n == 0 then 0 else k % n
    }

    /** The solver's state with the first k cells filled. */
    predicate Partial(k: nat)
      reads this, grid, rowUsed, colUsed
    {
      Shaped() && Consistent(Cells(), RowFlags(), ColFlags(), n, Row(k), Col(k))
    }

    constructor (n: nat)
      ensures this.n == n && Partial(0)
      ensures forall i, j | 0 <= i < n && 0 <= j < n :: grid[i, j] == 0
    {
      this.n := n;
      grid := new int[n, n]((i, j) => 0);
      rowUsed := new bool[n, n + 1]((i, v) => false);
      colUsed := new bool[n, n + 1]((j, v) => false);
    }

    /**
     * Fills cells from index on, within remainingDepth more placements. True only when every
     * cell got filled, which needs remainingDepth to reach the cells left; false leaves the grid
     * and both flag tables as they were.
     */
    method DepthLimitedDFS(index: nat, remainingDepth: nat) returns (ok: bool)
      requires Partial(index) && index <= n * n
      modifies grid, rowUsed, colUsed
      ensures Shaped()
      ensures index == n * n ==> ok
      ensures ok ==> Partial(n * n) && index + remainingDepth >= n * n
      ensures !ok ==> State() == old(State())
      decreases remainingDepth, 1
    {
      if index == n * n {
        return true;
      }
      if remainingDepth == 0 {
        return false;
      }
      NextCell(index, n);
      var r := index / n;
      var c := index % n;
      var v := 1;
      while v <= n
        invariant 1 <= v <= n + 1
        invariant State() == old(State())
      {
        ok := TryValue(index, r, c, v, remainingDepth, Row(index + 1), Col(index + 1));
        if ok {
          return;
        }
        v := v + 1;
      }
      ok := false;
    }

    /**
     * One turn of the value loop: when v is free in row r and column c, places it, searches on
     * and, on failure, takes the placement back.
     */
    method TryValue(index: nat, r: nat, c: nat, v: int, remainingDepth: nat, ghost r': nat, ghost c': nat)
        returns (ok: bool)
      requires Shaped() && Consistent(Cells(), RowFlags(), ColFlags(), n, r, c)
      requires r < n && c < n && 1 <= v <= n && 1 <= remainingDepth
      requires if c + 1 < n then r' == r && c' == c + 1 else r' == r + 1 && c' == 0
      requires index + 1 <= n * n && r' == Row(index + 1) && c' == Col(index + 1)
      modifies grid, rowUsed, colUsed
      ensures ok ==> Partial(n * n) && index + remainingDepth >= n * n
      ensures !ok ==> State() == old(State())
      decreases remainingDepth, 0
    {
      if !rowUsed[r, v] && !colUsed[c, v] {
        ghost var (g, rf, cf) := State();
        PlaceKeeps(g, rf, cf, n, r, c, v, r', c');
        UndoRestores(g, rf, cf, n, r, c, v);
        Set(r, c, v, true);
        ok := DepthLimitedDFS(index + 1, remainingDepth - 1);
        if ok {
          return;
        }
        Set(r, c, v, false);
      } else {
        ok := false;
      }
    }

    /**
     * Writes v into cell (r, c) and sets both its flags when placing, or writes 0 there and
     * clears them when taking back; nothing else changes.
     */
    method Set(r: nat, c: nat, v: int, placing: bool)
      requires Shaped() && r < n && c < n && 1 <= v <= n
      modifies grid, rowUsed, colUsed
      ensures Cells() == Put(old(Cells()), n, r, c, if placing then v else 0)
      ensures RowFlags() == WithFlag(old(RowFlags()), n, r, v, placing)
      ensures ColFlags() == WithFlag(old(ColFlags()), n, c, v, placing)
    {
      ghost var (g, rf, cf) := State();
      grid[r, c] := if placing then v else 0;
      rowUsed[r, v] := placing;
      colUsed[c, v] := placing;
      ghost var g' := Put(g, n, r, c, if placing then v else 0);
      forall i | 0 <= i < n ensures Cells()[i] == g'[i] { }
      ghost var rf' := WithFlag(rf, n, r, v, placing);
      forall i | 0 <= i < n ensures RowFlags()[i] == rf'[i] { }
      ghost var cf' := WithFlag(cf, n, c, v, placing);
      forall j | 0 <= j < n ensures ColFlags()[j] == cf'[j] { }
    }

    /**
     * Iterative deepening over depth limits 1..n·n. Only the last round can succeed; success
     * leaves a Latin square, failure leaves the tables untouched.
     */
    method SolveLatinSquare() returns (ok: bool)
      requires Partial(0)
      modifies grid, rowUsed, colUsed
      ensures ok ==> IsLatin(Cells(), n)
      ensures !ok ==> State() == old(State())
    {
      var depth := 1;
      while depth <= n * n
        invariant Shaped() && State() == old(State())
      {
        ok := DepthLimitedDFS(0, depth);
        if ok {
          assert depth == n * n;
          if 0 < n {
            DivUnique(n * n, n, 0, n);
          }
          CompleteIsLatin(Cells(), n);
          return;
        }
        depth := depth + 1;
      }
      ok := false;
    }
  }
}

/**
 * The Killer-Sudoku CSP solver: a 9×9 board, one candidate domain per cell, the cages and the cage
 * each cell answers to. Placing a digit narrows the cell's domain, strikes the digit from the
 * peers' domains and checks the cell's cage; the search fills the empty cell with the fewest
 * candidates first and backtracks by restoring copies of the board and the domains.
 */
module KillerSudoku {
  import opened Options
  import opened KillerRules
  import opened KillerBoard

  /** Every cell with the digits 1..9 as candidates, filled in row-major order. */
  method InitialDomains() returns (d: Domains)
    ensures d == FullDomains()
  {
    d := map[];
    for r := 0 to 9
      invariant forall p :: p in d <==> OnBoard(p) && p.0 < r
      invariant forall p | p in d :: d[p] == Digits()
    {
      for c := 0 to 9
        invariant forall p :: p in d <==> OnBoard(p) && (p.0 < r || (p.0 == r && p.1 < c))
        invariant forall p | p in d :: d[p] == Digits()
      {
        d := d[(r, c) := Digits()];
      }
    }
    AllCellsOnBoard();
  }

  /** Every listed cell mapped to its cage, cage by cage and cell by cell. */
  method MapCells(cages: seq<Cage>) returns (m: map<Cell, Cage>)
    ensures m == CageMap(cages)
  {
    m := map[];
    for i := 0 to |cages|
      invariant m == CageMap(cages[..i])
    {
      var cage := cages[i];
      assert cages[..i + 1][..i] == cages[..i];
      for j := 0 to |cage.cells|
        invariant m == PutAll(CageMap(cages[..i]), cage.cells[..j], cage)
      {
        assert cage.cells[..j + 1][..j] == cage.cells[..j];
        m := m[cage.cells[j] := cage];
      }
      assert cage.cells[..|cage.cells|] == cage.cells;
    }
    assert cages[..|cages|] == cages;
  }

  /** The sequence of the digits 1..9 missing from used, in increasing order. */
  method AvailableDigits(used: set<int>) returns (available: seq<int>)
    ensures available == Available(used)
  {
    available := [];
    for x := 1 to 10
      invariant available == AvailTo(used, x)
    {
      if x !in used {
        available := available + [x];
      }
    }
  }

  /**
   * The loop of the cage check: the filled sum plus the first emptyCount available digits, and
   * plus the last emptyCount of them.
   */
  method SumBounds(available: seq<int>, filledSum: int, emptyCount: int) returns (minPossible: int, maxPossible: int)
    requires 0 <= emptyCount <= |available|
    ensures minPossible == filledSum + SumFirst(available, emptyCount)
    ensures maxPossible == filledSum + SumLast(available, emptyCount)
  {
    minPossible := filledSum;
    maxPossible := filledSum;
    for i := 0 to emptyCount
      invariant minPossible == filledSum + SumFirst(available, i)
      invariant maxPossible == filledSum + SumLast(available, i)
    {
      minPossible := minPossible + available[i];
      maxPossible := maxPossible + available[|available| - 1 - i];
    }
  }

  class KillerSudokuCSP {
    var domains: Domains
    const cages: seq<Cage>
    const cellToCage: map<Cell, Cage>
    var grid: array2<int>

    /** The board as a value. */
    ghost function Board(): (g: Grid)
      requires grid.Length0 == 9 && grid.Length1 == 9
      reads this`grid, grid
      ensures Shaped(g)
      ensures forall r, c | 0 <= r < 9 && 0 <= c < 9 :: At(g, (r, c)) == grid[r, c]
    {
      var a := grid;
      seq(9, r requires 0 <= r < 9 reads a => seq(9, c requires 0 <= c < 9 reads a => a[r, c]))
    }

    /**
     * The solver's invariant: a 9×9 board, a domain of at most 9 candidates for each of the 81
     * cells, cages the check can run on, and each cell's cage as the cage list assigns it.
     */
    ghost predicate Valid()
      reads this
    {
      grid.Length0 == 9 && grid.Length1 == 9
      && domains.Keys == AllCells() && (forall p | p in domains :: |domains[p]| <= 9)
      && (forall i | 0 <= i < |cages| :: Fits(cages[i]))
      && cellToCage == CageMap(cages)
      && (forall p | p in cellToCage :: Fits(cellToCage[p]))
    }

    /** Every cell belongs to a cage. */
    ghost predicate Covered() {
      forall p | OnBoard(p) :: p in cellToCage
    }

    /**
     * Sets up an empty board with full domains, maps each cell to its cage, then places the sum of
     * every single-cell cage in its cell, ignoring what forward checking reports.
     */
    constructor (cages: seq<Cage>)
      requires forall i | 0 <= i < |cages| :: Fits(cages[i])
      ensures Valid() && this.cages == cages && cellToCage == CageMap(cages)
      ensures Board() == SetupGrid(cages) && domains == SetupDomains(cages)
      ensures fresh(grid)
    {
      this.cages := cages;
      grid := new int[9, 9]((r, c) => 0);
      var d := InitialDomains();
      var m := MapCells(cages);
      domains := d;
      cellToCage := m;
      new;
      CageMapFits(cages);
      FullDomainsSmall();
      SameBoard(Board(), EmptyGrid());
      for i := 0 to |cages|
        invariant Valid() && fresh(grid)
        invariant Board() == SetupGrid(cages[..i]) && domains == SetupDomains(cages[..i])
      {
        var cage := cages[i];
        SetupStep(cages, i);
        if |cage.cells| == 1 {
          var (r, c) := cage.cells[0];
          CageMapLast(cages, (r, c));
          assert (r, c) in cages[i].cells;
          var _ := Assign((r, c), cage.sum);
        }
      }
      assert cages[..|cages|] == cages;
    }

    /** Places value at cell, narrows the cell's domain to it, then forward checks. */
    method Assign(cell: Cell, value: int) returns (ok: bool)
      requires Valid() && OnBoard(cell) && cell in cellToCage
      modifies this, grid
      ensures Valid() && grid == old(grid)
      ensures Board() == Put(old(Board()), cell, value)
      ensures domains == AssignDomains(old(domains), cell, value).1
      ensures ok == (AssignDomains(old(domains), cell, value).0 && CageOk(Board(), cellToCage[cell]))
    {
      Place(cell, value);
      ghost var d0 := domains;
      ghost var g1 := Board();
      domains := domains[cell := {value}];
      label placed:
      ok := ForwardCheck(cell, value);
      assert forall r, c | 0 <= r < 9 && 0 <= c < 9 :: grid[r, c] == old@placed(grid[r, c]);
      SameBoard(Board(), g1);
      assert domains == AssignDomains(d0, cell, value).1;
      AssignSmall(d0, cell, value);
    }

    /** The array write of Assign. */
    method Place(cell: Cell, value: int)
      requires grid.Length0 == 9 && grid.Length1 == 9 && OnBoard(cell)
      modifies grid
      ensures Board() == Put(old(Board()), cell, value)
    {
      ghost var g0 := Board();
      grid[cell.0, cell.1] := value;
      SameBoard(Board(), Put(g0, cell, value));
    }

    /**
     * Strikes value from the domains of the cell's row, column and box peers, failing as soon as a
     * domain becomes empty, then checks the cell's cage.
     */
    method ForwardCheck(cell: Cell, value: int) returns (ok: bool)
      requires grid.Length0 == 9 && grid.Length1 == 9 && domains.Keys == AllCells()
      requires OnBoard(cell) && cell in cellToCage && Fits(cellToCage[cell])
      modifies this`domains
      ensures grid == old(grid)
      ensures domains == ForwardDomains(old(domains), cell, value).1
      ensures ok == (ForwardDomains(old(domains), cell, value).0 && CageOk(Board(), cellToCage[cell]))
    {
      ok := StripLines(cell, value);
      if !ok {
        return;
      }
      ok := StripBox(cell, value);
      if !ok {
        return;
      }
      ok := CheckCageConstraints(cellToCage[cell]);
    }

    /** HashSet removal followed by the emptiness test: whether removing value emptied p's domain. */
    method RemoveCandidate(p: Cell, value: int) returns (emptied: bool)
      requires p in domains
      modifies this`domains
      ensures grid == old(grid)
      ensures domains == Drop(old(domains), p, value) && emptied == Emptied(old(domains), p, value)
    {
      emptied := false;
      if value in domains[p] {
        domains := domains[p := domains[p] - {value}];
        emptied := |domains[p]| == 0;
      }
    }

    /** The first forward-checking loop: the row and column peers, a row peer before a column peer. */
    method StripLines(cell: Cell, value: int) returns (ok: bool)
      requires domains.Keys == AllCells() && OnBoard(cell)
      modifies this`domains
      ensures grid == old(grid) && domains.Keys == AllCells()
      ensures ok ==> ForwardDomains(old(domains), cell, value) == BoxStrip(domains, cell, 0, value)
      ensures !ok ==> ForwardDomains(old(domains), cell, value) == (false, domains)
    {
      var (r, c) := cell;
      AllCellsOnBoard();
      assert ForwardDomains(domains, cell, value) == LineStrip(domains, cell, 0, value);
      for i := 0 to 9
        invariant grid == old(grid) && domains.Keys == AllCells()
        invariant ForwardDomains(old(domains), cell, value) == LineStrip(domains, cell, i, value)
      {
        if i != c {
          LineRowStep(domains, cell, i, value);
          var emptied := RemoveCandidate((r, i), value);
          if emptied {
            return false;
          }
        } else {
          LineRowSkip(domains, cell, i, value);
        }
        if i != r {
          ColStep(domains, cell, i, value);
          var emptied := RemoveCandidate((i, c), value);
          if emptied {
            return false;
          }
        } else {
          ColSkip(domains, cell, i, value);
        }
      }
      LineDone(domains, cell, value);
      return true;
    }

    /** The second forward-checking loop: the other cells of the box, row by row. */
    method StripBox(cell: Cell, value: int) returns (ok: bool)
      requires domains.Keys == AllCells() && OnBoard(cell)
      modifies this`domains
      ensures grid == old(grid) && domains.Keys == AllCells()
      ensures BoxStrip(old(domains), cell, 0, value) == (ok, domains)
    {
      ghost var target := BoxStrip(domains, cell, 0, value);
      var boxR := (cell.0 / 3) * 3;
      var boxC := (cell.1 / 3) * 3;
      ghost var k := 0;
      for rr := boxR to boxR + 3
        invariant grid == old(grid) && domains.Keys == AllCells()
        invariant k == (rr - boxR) * 3 && target == BoxStrip(domains, cell, k, value)
      {
        for cc := boxC to boxC + 3
          invariant grid == old(grid) && domains.Keys == AllCells()
          invariant k == (rr - boxR) * 3 + (cc - boxC) && target == BoxStrip(domains, cell, k, value)
        {
          BoxIndex(cell, k, rr, cc);
          var emptied := StripBoxCell(cell, (rr, cc), k, value);
          if emptied {
            return false;
          }
          k := k + 1;
        }
      }
      BoxDone(domains, cell, value);
      return true;
    }

    /** One cell of the box loop: q, the k-th cell of the box, loses value unless q is the cell itself. */
    method StripBoxCell(cell: Cell, q: Cell, ghost k: int, value: int) returns (emptied: bool)
      requires domains.Keys == AllCells() && OnBoard(cell) && OnBoard(q)
      requires 0 <= k < 9 && BoxCell(cell.0, cell.1, k) == q
      modifies this`domains
      ensures grid == old(grid) && domains.Keys == AllCells()
      ensures emptied ==> BoxStrip(old(domains), cell, k, value) == (false, domains)
      ensures !emptied ==> BoxStrip(old(domains), cell, k, value) == BoxStrip(domains, cell, k + 1, value)
    {
      AllCellsOnBoard();
      if q != cell {
        BoxStep(domains, cell, k, value);
        emptied := RemoveCandidate(q, value);
      } else {
        BoxSkip(domains, cell, k, value);
        emptied := false;
      }
    }

    /**
     * The cage check on the board: the filled digits of the cage differ, their sum does not pass
     * the target, and the target lies between the filled sum plus the smallest and plus the
     * largest missing digits, one per empty cell.
     */
    method CheckCageConstraints(cage: Cage) returns (ok: bool)
      requires grid.Length0 == 9 && grid.Length1 == 9 && Fits(cage)
      ensures ok == CageOk(Board(), cage)
    {
      ghost var vs := Values(Board(), cage.cells);
      var distinct, used, filledSum, emptyCount := ScanCells(cage);
      if !distinct {
        return false;
      }
      if filledSum > cage.sum {
        return false;
      }
      var available := AvailableDigits(used);
      RoomForEmpty(vs);
      var minPossible, maxPossible := SumBounds(available, filledSum, emptyCount);
      if minPossible > cage.sum || maxPossible < cage.sum {
        return false;
      }
      return true;
    }

    /** The first loop of the cage check: the filled digits, their sum and the empty count. */
    method ScanCells(cage: Cage) returns (distinct: bool, used: set<int>, filledSum: int, emptyCount: int)
      requires grid.Length0 == 9 && grid.Length1 == 9 && Fits(cage)
      ensures distinct == Scan(Values(Board(), cage.cells)).Some?
      ensures distinct ==> Scan(Values(Board(), cage.cells)) == Some(Tally(used, filledSum, emptyCount))
    {
      ghost var vs := Values(Board(), cage.cells);
      filledSum, emptyCount, used := 0, 0, {};
      for i := 0 to |cage.cells|
        invariant Scan(vs[..i]) == Some(Tally(used, filledSum, emptyCount))
      {
        var (r, c) := cage.cells[i];
        var val := grid[r, c];
        assert val == vs[i];
        assert vs[..i + 1][..i] == vs[..i];
        if val > 0 {
          if val in used {
            ScanStaysNone(vs, i + 1);
            return false, used, filledSum, emptyCount;
          }
          used := used + {val};
          filledSum := filledSum + val;
        } else {
          emptyCount := emptyCount + 1;
        }
      }
      assert vs[..|cage.cells|] == vs;
      distinct := true;
    }

    /**
     * The empty cell with the fewest candidates, the first such cell in row-major order, or None
     * when the board is full.
     */
    method SelectUnassigned() returns (best: Option<Cell>)
      requires Valid()
      ensures best.None? <==> Complete(Board())
      ensures best.Some? ==> OnBoard(best.value) && At(Board(), best.value) == 0
      ensures best.Some? ==> forall p | OnBoard(p) && At(Board(), p) == 0 ::
        |domains[best.value]| <= |domains[p]|
      ensures best.Some? ==> forall p | OnBoard(p) && At(Board(), p) == 0 && Index(p) < Index(best.value) ::
        |domains[best.value]| < |domains[p]|
    {
      AllCellsOnBoard();
      best := None;
      var minSize := IntMax;
      for k := 0 to 81
        invariant best.None? <==> forall p | OnBoard(p) && Index(p) < k :: At(Board(), p) != 0
        invariant best.None? ==> minSize == IntMax
        invariant best.Some? ==> OnBoard(best.value) && Index(best.value) < k && At(Board(), best.value) == 0
        invariant best.Some? ==> minSize == |domains[best.value]|
        invariant forall p | OnBoard(p) && Index(p) < k && At(Board(), p) == 0 :: minSize <= |domains[p]|
        invariant best.Some? ==> forall p | OnBoard(p) && Index(p) < Index(best.value) && At(Board(), p) == 0 ::
          minSize < |domains[p]|
      {
        var cell := (k / 9, k % 9);
        assert OnBoard(cell) && Index(cell) == k;
        assert forall p | OnBoard(p) && Index(p) < k + 1 :: Index(p) < k || p == cell;
        if grid[cell.0, cell.1] == 0 {
          var size := |domains[cell]|;
          if size < minSize {
            minSize := size;
            best := Some(cell);
          }
        }
      }
      assert forall p | OnBoard(p) :: Index(p) < 81;
    }

    /**
     * Whether val may go at (r, c): it appears nowhere in the row, the column or the box, and the
     * cell's cage passes the cage check on the board as it stands.
     */
    method IsSafe(r: int, c: int, val: int) returns (safe: bool)
      requires Valid() && Covered() && OnBoard((r, c))
      ensures safe == (Unused(Board(), (r, c), val) && CageOk(Board(), cellToCage[(r, c)]))
    {
      UnusedByUnits(Board(), r, c, val);
      safe := LinesFree(r, c, val);
      if !safe {
        return;
      }
      safe := BoxFree(r, c, val);
      if !safe {
        return;
      }
      safe := CheckCageConstraints(cellToCage[(r, c)]);
    }

    /** The first loop of IsSafe: no val in row r or column c. */
    method LinesFree(r: int, c: int, val: int) returns (free: bool)
      requires grid.Length0 == 9 && grid.Length1 == 9 && OnBoard((r, c))
      ensures free == forall i | 0 <= i < 9 :: At(Board(), (r, i)) != val && At(Board(), (i, c)) != val
    {
      for i := 0 to 9
        invariant forall j | 0 <= j < i :: At(Board(), (r, j)) != val && At(Board(), (j, c)) != val
      {
        if grid[r, i] == val || grid[i, c] == val {
          return false;
        }
      }
      return true;
    }

    /** The second loop of IsSafe: no val in the box of (r, c). */
    method BoxFree(r: int, c: int, val: int) returns (free: bool)
      requires grid.Length0 == 9 && grid.Length1 == 9 && OnBoard((r, c))
      ensures free == forall a, b | (r / 3) * 3 <= a < (r / 3) * 3 + 3 && (c / 3) * 3 <= b < (c / 3) * 3 + 3 ::
        At(Board(), (a, b)) != val
    {
      var boxR := (r / 3) * 3;
      var boxC := (c / 3) * 3;
      for rr := boxR to boxR + 3
        invariant forall a, b | boxR <= a < rr && boxC <= b < boxC + 3 :: At(Board(), (a, b)) != val
      {
        for cc := boxC to boxC + 3
          invariant forall a, b | boxR <= a < rr && boxC <= b < boxC + 3 :: At(Board(), (a, b)) != val
          invariant forall b | boxC <= b < cc :: At(Board(), (rr, b)) != val
        {
          if grid[rr, cc] == val {
            return false;
          }
        }
      }
      return true;
    }

    /** A fresh copy of the board array. */
    method CloneGrid() returns (copy: array2<int>)
      requires grid.Length0 == 9 && grid.Length1 == 9
      ensures fresh(copy) && copy.Length0 == 9 && copy.Length1 == 9
      ensures forall r, c | 0 <= r < 9 && 0 <= c < 9 :: copy[r, c] == grid[r, c]
    {
      copy := new int[9, 9];
      for r := 0 to 9
        invariant forall r', c | 0 <= r' < r && 0 <= c < 9 :: copy[r', c] == grid[r', c]
      {
        for c := 0 to 9
          invariant forall r', c' | 0 <= r' < r && 0 <= c' < 9 :: copy[r', c'] == grid[r', c']
          invariant forall c' | 0 <= c' < c :: copy[r, c'] == grid[r, c']
        {
          copy[r, c] := grid[r, c];
        }
      }
    }

    /**
     * Backtracking search. On success the board is full, every cell filled before keeps its
     * value, every cell the search filled holds one of its candidates and clashes with no related
     * cell; on failure the board and the domains are as they were.
     */
    method Solve() returns (result: bool)
      requires Valid() && Covered()
      modifies this, grid
      ensures Valid() && (grid == old(grid) || fresh(grid))
      ensures !result ==> Board() == old(Board()) && domains == old(domains)
      ensures result ==> Complete(Board()) && Extends(old(Board()), Board())
      ensures result ==> FillsFrom(old(Board()), Board(), old(domains)) && NoNewClash(old(Board()), Board())
      decreases |EmptyCells(Board())|, 2
    {
      var cell := SelectUnassigned();
      if cell.None? {
        return true;
      }
      var (r, c) := cell.value;
      ghost var g0 := Board();
      ghost var d0 := domains;
      var domainValues := domains[(r, c)];
      while domainValues != {}
        invariant Valid() && (grid == old(grid) || fresh(grid))
        invariant Board() == g0 && domains == d0
        invariant domainValues <= d0[(r, c)]
        decreases |domainValues|
      {
        Inhabited(domainValues);
        var val :| val in domainValues;
        domainValues := domainValues - {val};
        var solved := TryValue(r, c, val);
        if solved {
          return true;
        }
      }
      return false;
    }

    /**
     * One turn of the search loop: back up the board and the domains, attempt val at the empty
     * cell (r, c), and restore the backups when the attempt fails.
     */
    method TryValue(r: int, c: int, val: int) returns (solved: bool)
      requires Valid() && Covered() && OnBoard((r, c)) && At(Board(), (r, c)) == 0 && val in domains[(r, c)]
      modifies this, grid
      ensures Valid() && (grid == old(grid) || fresh(grid))
      ensures !solved ==> Board() == old(Board()) && domains == old(domains)
      ensures solved ==> Complete(Board()) && Extends(old(Board()), Board())
      ensures solved ==> FillsFrom(old(Board()), Board(), old(domains)) && NoNewClash(old(Board()), Board())
      decreases |EmptyCells(Board())|, 1
    {
      ghost var g0 := Board();
      var backupGrid := CloneGrid();
      var backupDomains := domains;
      SameBoard(Board(), g0);
      solved := Attempt(r, c, val);
      if !solved {
        assert forall i, j | 0 <= i < 9 && 0 <= j < 9 :: backupGrid[i, j] == At(g0, (i, j));
        grid := backupGrid;
        domains := backupDomains;
        SameBoard(Board(), g0);
      }
    }

    /**
     * The inside of a turn: if val is safe at (r, c) and placing it passes forward checking,
     * search on from there.
     */
    method Attempt(r: int, c: int, val: int) returns (solved: bool)
      requires Valid() && Covered() && OnBoard((r, c)) && At(Board(), (r, c)) == 0 && val in domains[(r, c)]
      modifies this, grid
      ensures Valid() && (grid == old(grid) || fresh(grid))
      ensures solved ==> Complete(Board()) && Extends(old(Board()), Board())
      ensures solved ==> FillsFrom(old(Board()), Board(), old(domains)) && NoNewClash(old(Board()), Board())
      decreases |EmptyCells(Board())|, 0
    {
      ghost var g0 := Board();
      ghost var d0 := domains;
      solved := false;
      var safe := IsSafe(r, c, val);
      SameBoard(Board(), g0);
      if safe {
        assert At(g0, (r, c)) != val;
        var ok := Assign((r, c), val);
        if ok {
          ghost var d1 := domains;
          FillShrinks(g0, (r, c), val);
          assert |EmptyCells(Board())| < |EmptyCells(g0)|;
          solved := Solve();
          if solved {
            AssignShrinks(d0, (r, c), val);
            SearchStep(g0, d0, (r, c), val, d1, Board());
          }
        }
      }
    }
  }

  /** Sets are equal by their members: a set with no member is empty. */
  lemma EmptyWhenNoMember(s: set<int>)
    ensures (forall x :: x !in s) ==> s == {}
  {
    if forall x :: x !in s {
      assert forall x :: x in s <==> x in {};
    }
  }

  /** A set that is not empty has an element. */
  lemma Inhabited(s: set<int>)
    requires s != {}
    ensures exists x :: x in s
  {
    EmptyWhenNoMember(s);
  }
}

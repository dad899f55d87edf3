/**
 * The value-level rules of the Killer-Sudoku solver: boards, cages, the cage feasibility check
 * with its minimum and maximum sums, the peers a placed digit is struck from, and the effect of
 * striking it from their domains.
 */
module KillerRules {
  import opened Options

  /** A cell as (row, column). */
  type Cell = (int, int)

  /** A board as a value: 9 rows of 9 entries, 0 for an empty cell. */
  type Grid = seq<seq<int>>

  /** The candidate digits of every cell. */
  type Domains = map<Cell, set<int>>

  /** A cage: its target sum and its cells in list order. */
  datatype Cage = Cage(sum: int, cells: seq<Cell>)

  predicate Shaped(g: Grid) {
    |g| == 9 && forall r | 0 <= r < 9 :: |g[r]| == 9
  }

  predicate OnBoard(p: Cell) {
    0 <= p.0 < 9 && 0 <= p.1 < 9
  }

  /** The 81 cells. */
  function AllCells(): set<Cell> {
    set r, c | 0 <= r < 9 && 0 <= c < 9 :: (r, c)
  }

  lemma AllCellsOnBoard()
    ensures forall p :: p in AllCells() <==> OnBoard(p)
  {
    forall p | OnBoard(p)
      ensures p in AllCells()
    {
      var (r, c) := p;
      assert (r, c) in AllCells();
    }
  }

  /** The digits 1..9. */
  function Digits(): set<int> {
    {1, 2, 3, 4, 5, 6, 7, 8, 9}
  }

  /** A cage the check can run on: its cells are on the board and there are at most 9 of them. */
  predicate Fits(cage: Cage) {
    |cage.cells| <= 9 && forall i | 0 <= i < |cage.cells| :: OnBoard(cage.cells[i])
  }

  // ---- The cage check ----

  /** The entry of a board cell. */
  function At(g: Grid, p: Cell): int
    requires Shaped(g) && OnBoard(p)
  {
    g[p.0][p.1]
  }

  /** The cage's entries, in list order. */
  function Values(g: Grid, cells: seq<Cell>): (vs: seq<int>)
    requires Shaped(g) && forall i | 0 <= i < |cells| :: OnBoard(cells[i])
    ensures |vs| == |cells| && forall i | 0 <= i < |cells| :: vs[i] == At(g, cells[i])
  {
    seq(|cells|, i requires 0 <= i < |cells| => At(g, cells[i]))
  }

  /** What the scan of a cage collects: the filled digits, their sum and the number of empty entries. */
  datatype Tally = Tally(used: set<int>, sum: int, empty: int)

  /**
   * The scan of a cage's entries in order: a positive entry is a filled digit, and a repeated one
   * stops the scan; any other entry counts as empty.
   */
  function Scan(vs: seq<int>): Option<Tally> {
    if |vs| == 0 then Some(Tally({}, 0, 0))
    else match Scan(vs[..|vs| - 1])
      case None => None
      case Some(t) =>
        var v := vs[|vs| - 1];
        if v > 0 then (if v in t.used then None else Some(Tally(t.used + {v}, t.sum + v, t.empty)))
        else Some(Tally(t.used, t.sum, t.empty + 1))
  }

  /** Once the scan of a prefix has stopped, the scan of the whole stops too. */
  lemma {:induction false} ScanStaysNone(vs: seq<int>, k: int)
    requires 0 <= k <= |vs| && Scan(vs[..k]).None?
    ensures Scan(vs).None?
    decreases |vs| - k
  {
    if k == |vs| {
      assert vs[..k] == vs;
    } else {
      assert vs[..k + 1][..k] == vs[..k];
      ScanStaysNone(vs, k + 1);
    }
  }

  /** The entries of vs, added up. */
  function SumSeq(vs: seq<int>): int {
    if |vs| == 0 then 0 else SumSeq(vs[..|vs| - 1]) + vs[|vs| - 1]
  }

  /** The positive entries of vs, in order. */
  function Filled(vs: seq<int>): seq<int> {
    if |vs| == 0 then [] else Filled(vs[..|vs| - 1]) + (if vs[|vs| - 1] > 0 then [vs[|vs| - 1]] else [])
  }

  function Elems(s: seq<int>): set<int> {
    set x | x in s
  }

  /** No two entries of s are equal. */
  predicate Distinct(s: seq<int>) {
    forall i, j | 0 <= i < j < |s| :: s[i] != s[j]
  }

  /**
   * The scan succeeds exactly when the filled digits are all different; it then collects them,
   * their sum and the number of the other entries.
   */
  lemma {:induction false} ScanMeaning(vs: seq<int>)
    ensures Scan(vs).Some? <==> Distinct(Filled(vs))
    ensures Scan(vs).Some? ==>
      Scan(vs).value == Tally(Elems(Filled(vs)), SumSeq(Filled(vs)), |vs| - |Filled(vs)|)
  {
    if |vs| > 0 {
      var pre := vs[..|vs| - 1];
      var v := vs[|vs| - 1];
      ScanMeaning(pre);
      var f := Filled(pre);
      if v > 0 {
        assert Filled(vs) == f + [v];
        assert (f + [v])[..|f|] == f;
        assert Elems(f + [v]) == Elems(f) + {v};
        if Distinct(f + [v]) {
          forall i | 0 <= i < |f|
            ensures f[i] != v
          {
            assert (f + [v])[i] == f[i];
          }
        }
        if v in Elems(f) {
          var i :| 0 <= i < |f| && f[i] == v;
          assert (f + [v])[i] == (f + [v])[|f|];
        }
      } else {
        assert Filled(vs) == f;
      }
    }
  }

  /** The filled digits and the empty entries of a scan account for every entry. */
  lemma {:induction false} ScanCount(vs: seq<int>)
    requires Scan(vs).Some?
    ensures Scan(vs).value.empty + |Scan(vs).value.used| == |vs| && 0 <= Scan(vs).value.empty
    ensures forall x | x in Scan(vs).value.used :: x > 0
  {
    if |vs| > 0 {
      ScanCount(vs[..|vs| - 1]);
    }
  }

  /** The digits among 1..x-1 missing from used, in increasing order. */
  function AvailTo(used: set<int>, x: int): seq<int>
    decreases x
  {
    if x <= 1 then [] else AvailTo(used, x - 1) + (if x - 1 in used then [] else [x - 1])
  }

  /** The digits 1..9 missing from used, in increasing order. */
  function Available(used: set<int>): seq<int> {
    AvailTo(used, 10)
  }

  /** The members of used among 1..x-1. */
  function UsedBelow(used: set<int>, x: int): set<int> {
    set y | y in used && 1 <= y < x
  }

  lemma {:induction false} AvailCount(used: set<int>, x: int)
    requires 1 <= x
    ensures |AvailTo(used, x)| + |UsedBelow(used, x)| == x - 1
    decreases x
  {
    if x > 1 {
      AvailCount(used, x - 1);
      assert x - 1 !in UsedBelow(used, x - 1);
      if x - 1 in used {
        assert UsedBelow(used, x) == UsedBelow(used, x - 1) + {x - 1};
      } else {
        assert UsedBelow(used, x) == UsedBelow(used, x - 1);
      }
    }
  }

  /** Available lists the missing digits: strictly increasing, each a digit of 1..9 not used. */
  lemma {:induction false} AvailFacts(used: set<int>, x: int)
    ensures forall i, j | 0 <= i < j < |AvailTo(used, x)| :: AvailTo(used, x)[i] < AvailTo(used, x)[j]
    ensures forall y :: y in AvailTo(used, x) <==> 1 <= y < x && y !in used
    decreases x
  {
    if x > 1 {
      AvailFacts(used, x - 1);
      var pre := AvailTo(used, x - 1);
      if x - 1 !in used {
        assert AvailTo(used, x) == pre + [x - 1];
        forall i | 0 <= i < |pre|
          ensures pre[i] < x - 1
        {
          assert pre[i] in pre;
        }
      } else {
        assert AvailTo(used, x) == pre;
      }
    }
  }

  /** The sum of the first k entries of a. */
  function SumFirst(a: seq<int>, k: int): int
    requires 0 <= k <= |a|
  {
    if k == 0 then 0 else SumFirst(a, k - 1) + a[k - 1]
  }

  /** The sum of the last k entries of a. */
  function SumLast(a: seq<int>, k: int): int
    requires 0 <= k <= |a|
  {
    if k == 0 then 0 else SumLast(a, k - 1) + a[|a| - k]
  }

  /** A cage of at most 9 entries leaves at least as many missing digits as it has empty entries. */
  lemma RoomForEmpty(vs: seq<int>)
    requires |vs| <= 9 && Scan(vs).Some?
    ensures 0 <= Scan(vs).value.empty <= |Available(Scan(vs).value.used)|
  {
    var t := Scan(vs).value;
    ScanCount(vs);
    AvailCount(t.used, 10);
    assert UsedBelow(t.used, 10) <= t.used;
    SubsetCard(UsedBelow(t.used, 10), t.used);
  }

  lemma SubsetCard<T>(a: set<T>, b: set<T>)
    requires a <= b
    ensures |a| <= |b|
  {
    assert b == a + (b - a);
  }

  /**
   * The cage check: the filled digits differ, their sum does not pass the target, and the target
   * lies between the filled sum plus the smallest and plus the largest missing digits, one per
   * empty entry.
   */
  function CageOk(g: Grid, cage: Cage): bool
    requires Shaped(g) && Fits(cage)
  {
    var vs := Values(g, cage.cells);
    if Scan(vs).None? then false
    else
      var t := Scan(vs).value;
      RoomForEmpty(vs);
      var avail := Available(t.used);
      t.sum <= cage.sum
      && t.sum + SumFirst(avail, t.empty) <= cage.sum && cage.sum <= t.sum + SumLast(avail, t.empty)
  }

  // ---- The check never rejects a cage that can still be completed ----

  /**
   * fill is a completion of the entries vs: it keeps every positive entry and puts a digit 1..9 in
   * every other one.
   */
  predicate Keeps(vs: seq<int>, fill: seq<int>) {
    |fill| == |vs| && forall i | 0 <= i < |vs| :: if vs[i] > 0 then fill[i] == vs[i] else 1 <= fill[i] <= 9
  }

  /** fill completes the entries vs to the target sum without repeating a value. */
  predicate Completes(vs: seq<int>, fill: seq<int>, sum: int) {
    Keeps(vs, fill) && Distinct(fill) && SumSeq(fill) == sum
  }

  /** The values fill puts in the empty entries, in order. */
  function Added(vs: seq<int>, fill: seq<int>): seq<int>
    requires |fill| == |vs|
  {
    if |vs| == 0 then []
    else Added(vs[..|vs| - 1], fill[..|vs| - 1]) + (if vs[|vs| - 1] > 0 then [] else [fill[|vs| - 1]])
  }

  lemma {:induction false} SumAppend(a: seq<int>, b: seq<int>)
    ensures SumSeq(a + b) == SumSeq(a) + SumSeq(b)
    decreases |b|
  {
    if |b| > 0 {
      assert (a + b)[..|a + b| - 1] == a + b[..|b| - 1];
      assert (a + b)[|a + b| - 1] == b[|b| - 1];
      SumAppend(a, b[..|b| - 1]);
    } else {
      assert a + b == a;
    }
  }

  lemma KeepsPrefix(vs: seq<int>, fill: seq<int>)
    requires Keeps(vs, fill) && |vs| > 0
    ensures Keeps(vs[..|vs| - 1], fill[..|vs| - 1])
    ensures var n := |vs| - 1; if vs[n] > 0 then fill[n] == vs[n] else 1 <= fill[n] <= 9
  {
  }

  lemma DistinctPrefix(xs: seq<int>)
    requires Distinct(xs) && |xs| > 0
    ensures Distinct(xs[..|xs| - 1]) && xs[|xs| - 1] !in xs[..|xs| - 1]
  {
  }

  lemma DistinctAppend(xs: seq<int>, y: int)
    requires Distinct(xs) && y !in xs
    ensures Distinct(xs + [y])
  {
    forall i, j | 0 <= i < j < |xs| + 1
      ensures (xs + [y])[i] != (xs + [y])[j]
    {
      if j == |xs| {
        assert xs[i] in xs;
      }
    }
  }

  /** The filled digits and the added values add up to the whole completion, entry for entry. */
  lemma {:induction false} SplitSum(vs: seq<int>, fill: seq<int>)
    requires Keeps(vs, fill)
    ensures SumSeq(fill) == SumSeq(Filled(vs)) + SumSeq(Added(vs, fill))
    ensures |Added(vs, fill)| == |vs| - |Filled(vs)|
  {
    if |vs| > 0 {
      var n := |vs| - 1;
      KeepsPrefix(vs, fill);
      SplitSum(vs[..n], fill[..n]);
      var f, a := Filled(vs[..n]), Added(vs[..n], fill[..n]);
      assert SumSeq(fill) == SumSeq(fill[..n]) + fill[n];
      if vs[n] > 0 {
        assert Filled(vs) == f + [vs[n]] && Added(vs, fill) == a;
        assert SumSeq(f + [vs[n]]) == SumSeq(f) + vs[n] by {
          assert (f + [vs[n]])[..|f|] == f;
        }
      } else {
        assert Filled(vs) == f && Added(vs, fill) == a + [fill[n]];
        assert SumSeq(a + [fill[n]]) == SumSeq(a) + fill[n] by {
          assert (a + [fill[n]])[..|a|] == a;
        }
      }
    }
  }

  /** Every filled digit and every added value is a value of the completion; added ones are digits. */
  lemma {:induction false} SplitMembers(vs: seq<int>, fill: seq<int>)
    requires Keeps(vs, fill)
    ensures forall y | y in Filled(vs) :: y in fill
    ensures forall y | y in Added(vs, fill) :: y in fill && 1 <= y <= 9
  {
    if |vs| > 0 {
      var n := |vs| - 1;
      KeepsPrefix(vs, fill);
      SplitMembers(vs[..n], fill[..n]);
      assert fill == fill[..n] + [fill[n]];
    }
  }

  /** A completion that repeats no value has distinct filled digits and distinct, fresh added values. */
  lemma {:induction false} SplitDistinct(vs: seq<int>, fill: seq<int>)
    requires Keeps(vs, fill) && Distinct(fill)
    ensures Distinct(Filled(vs)) && Distinct(Added(vs, fill))
    ensures forall y | y in Added(vs, fill) :: y !in Filled(vs)
  {
    if |vs| > 0 {
      var n := |vs| - 1;
      var pre, fpre := vs[..n], fill[..n];
      KeepsPrefix(vs, fill);
      DistinctPrefix(fill);
      SplitDistinct(pre, fpre);
      SplitMembers(pre, fpre);
      var f, a := Filled(pre), Added(pre, fpre);
      assert fill[n] !in f && fill[n] !in a;
      if vs[n] > 0 {
        assert Filled(vs) == f + [vs[n]] && Added(vs, fill) == a;
        DistinctAppend(f, vs[n]);
      } else {
        assert Filled(vs) == f && Added(vs, fill) == a + [fill[n]];
        DistinctAppend(a, fill[n]);
      }
    }
  }

  /** Dropping the entry at j. */
  lemma DropSum(xs: seq<int>, j: int)
    requires 0 <= j < |xs|
    ensures SumSeq(xs) == SumSeq(xs[..j] + xs[j + 1..]) + xs[j]
  {
    assert xs == xs[..j] + xs[j..];
    SumAppend(xs[..j], xs[j..]);
    assert xs[j..] == [xs[j]] + xs[j + 1..];
    SumAppend([xs[j]], xs[j + 1..]);
    assert SumSeq([xs[j]]) == xs[j] by {
      assert [xs[j]][..0] == [];
    }
    SumAppend(xs[..j], xs[j + 1..]);
  }

  lemma DistinctCard(xs: seq<int>)
    requires Distinct(xs)
    ensures |Elems(xs)| == |xs|
  {
    if |xs| > 0 {
      var pre := xs[..|xs| - 1];
      DistinctCard(pre);
      assert Elems(xs) == Elems(pre) + {xs[|xs| - 1]};
      assert xs[|xs| - 1] !in Elems(pre);
    }
  }

  lemma ElemsCard(xs: seq<int>)
    ensures |Elems(xs)| <= |xs|
  {
    if |xs| > 0 {
      var pre := xs[..|xs| - 1];
      ElemsCard(pre);
      assert Elems(xs) == Elems(pre) + {xs[|xs| - 1]};
    }
  }

  /** Without the entry at j a distinct list stays distinct, and the others remain. */
  lemma DropFacts(xs: seq<int>, j: int)
    requires 0 <= j < |xs| && Distinct(xs)
    ensures Distinct(xs[..j] + xs[j + 1..])
    ensures forall y :: y in xs[..j] + xs[j + 1..] <==> y in xs && y != xs[j]
  {
    var ys := xs[..j] + xs[j + 1..];
    forall i | 0 <= i < |ys|
      ensures ys[i] == if i < j then xs[i] else xs[i + 1]
    {
    }
    forall y | y in xs && y != xs[j]
      ensures y in ys
    {
      var i :| 0 <= i < |xs| && xs[i] == y;
      if i < j {
        assert ys[i] == y;
      } else {
        assert ys[i - 1] == y;
      }
    }
  }

  /** Prefix sums of a list agree with those of the list less its last entry. */
  lemma {:induction false} SumFirstPrefix(a: seq<int>, k: int)
    requires 0 <= k < |a|
    ensures SumFirst(a, k) == SumFirst(a[..|a| - 1], k)
  {
    if k > 0 {
      SumFirstPrefix(a, k - 1);
    }
  }

  /**
   * k distinct members of a strictly increasing list add up to at least the sum of its first k
   * entries.
   */
  lemma {:induction false} LowerBound(a: seq<int>, xs: seq<int>)
    requires forall i, j | 0 <= i < j < |a| :: a[i] < a[j]
    requires Distinct(xs) && |xs| <= |a| && forall y | y in xs :: y in a
    ensures SumFirst(a, |xs|) <= SumSeq(xs)
    decreases |a|
  {
    var k := |xs|;
    if k > 0 {
      var m := a[|a| - 1];
      var a' := a[..|a| - 1];
      if m in xs {
        var j :| 0 <= j < k && xs[j] == m;
        var xs' := xs[..j] + xs[j + 1..];
        DropFacts(xs, j);
        DropSum(xs, j);
        forall y | y in xs'
          ensures y in a'
        {
          assert y in xs && y != m;
          assert y in a;
          var i :| 0 <= i < |a| && a[i] == y;
          assert i != |a| - 1;
          assert a'[i] == y;
        }
        LowerBound(a', xs');
        SumFirstPrefix(a, k - 1);
        assert SumFirst(a, k) == SumFirst(a, k - 1) + a[k - 1];
        assert a[k - 1] <= m;
      } else {
        forall y | y in xs
          ensures y in a'
        {
          var i :| 0 <= i < |a| && a[i] == y;
          assert a'[i] == y;
        }
        DistinctCard(xs);
        assert Elems(xs) <= Elems(a');
        SubsetCard(Elems(xs), Elems(a'));
        ElemsCard(a');
        LowerBound(a', xs);
        SumFirstPrefix(a, k);
      }
    }
  }

  /** Suffix sums of a list agree with those of the list less its first entry. */
  lemma {:induction false} SumLastTail(a: seq<int>, k: int)
    requires 0 <= k < |a|
    ensures SumLast(a, k) == SumLast(a[1..], k)
  {
    if k > 0 {
      SumLastTail(a, k - 1);
    }
  }

  /**
   * k distinct members of a strictly increasing list add up to at most the sum of its last k
   * entries.
   */
  lemma {:induction false} UpperBound(a: seq<int>, xs: seq<int>)
    requires forall i, j | 0 <= i < j < |a| :: a[i] < a[j]
    requires Distinct(xs) && |xs| <= |a| && forall y | y in xs :: y in a
    ensures SumSeq(xs) <= SumLast(a, |xs|)
    decreases |a|
  {
    var k := |xs|;
    if k > 0 {
      var m := a[0];
      var a' := a[1..];
      if m in xs {
        var j :| 0 <= j < k && xs[j] == m;
        var xs' := xs[..j] + xs[j + 1..];
        DropFacts(xs, j);
        DropSum(xs, j);
        forall y | y in xs'
          ensures y in a'
        {
          assert y in xs && y != m;
          assert y in a;
          var i :| 0 <= i < |a| && a[i] == y;
          assert i != 0;
          assert a'[i - 1] == y;
        }
        UpperBound(a', xs');
        SumLastTail(a, k - 1);
        assert SumLast(a, k) == SumLast(a, k - 1) + a[|a| - k];
        assert m <= a[|a| - k];
      } else {
        forall y | y in xs
          ensures y in a'
        {
          var i :| 0 <= i < |a| && a[i] == y;
          assert a'[i - 1] == y;
        }
        DistinctCard(xs);
        assert Elems(xs) <= Elems(a');
        SubsetCard(Elems(xs), Elems(a'));
        ElemsCard(a');
        UpperBound(a', xs);
        SumLastTail(a, k);
      }
    }
  }

  /**
   * The cage check is sound pruning: a cage whose entries can still be completed to its sum with
   * distinct values always passes.
   */
  lemma CompletableOk(g: Grid, cage: Cage, fill: seq<int>)
    requires Shaped(g) && Fits(cage)
    requires Completes(Values(g, cage.cells), fill, cage.sum)
    ensures CageOk(g, cage)
  {
    var vs := Values(g, cage.cells);
    SplitSum(vs, fill);
    SplitMembers(vs, fill);
    SplitDistinct(vs, fill);
    var f, xs := Filled(vs), Added(vs, fill);
    ScanMeaning(vs);
    var t := Scan(vs).value;
    RoomForEmpty(vs);
    var avail := Available(t.used);
    AvailFacts(t.used, 10);
    forall y | y in xs
      ensures y in avail
    {
      assert y !in Elems(f);
    }
    LowerBound(avail, xs);
    UpperBound(avail, xs);
    AddedPositive(xs);
  }

  lemma {:induction false} AddedPositive(xs: seq<int>)
    requires forall y | y in xs :: 1 <= y <= 9
    ensures SumSeq(xs) >= 0
  {
    if |xs| > 0 {
      var pre := xs[..|xs| - 1];
      forall y | y in pre
        ensures 1 <= y <= 9
      {
        assert y in xs;
      }
      AddedPositive(pre);
      assert xs[|xs| - 1] in xs;
    }
  }

  // ---- Peers and forward checking ----

  /** The row and column peers of (r, c) from index i on, interleaved as the solver visits them. */
  function RowColFrom(r: int, c: int, i: int): seq<Cell>
    decreases 9 - i
  {
    if i >= 9 then []
    else (if i != c then [(r, i)] else []) + (if i != r then [(i, c)] else []) + RowColFrom(r, c, i + 1)
  }

  /** The cell at position k of the 3×3 box of (r, c), in row-major order. */
  function BoxCell(r: int, c: int, k: int): Cell {
    ((r / 3) * 3 + k / 3, (c / 3) * 3 + k % 3)
  }

  /** The box peers of (r, c) from position k on. */
  function BoxFrom(r: int, c: int, k: int): seq<Cell>
    decreases 9 - k
  {
    if k >= 9 then []
    else (if BoxCell(r, c, k) != (r, c) then [BoxCell(r, c, k)] else []) + BoxFrom(r, c, k + 1)
  }

  /** Every cell the solver strikes a digit placed at (r, c) from, in visiting order. */
  function Peers(r: int, c: int): seq<Cell> {
    RowColFrom(r, c, 0) + BoxFrom(r, c, 0)
  }

  /** Two different cells that share a row, a column or a 3×3 box. */
  predicate Related(p: Cell, q: Cell) {
    p != q && (p.0 == q.0 || p.1 == q.1 || (p.0 / 3 == q.0 / 3 && p.1 / 3 == q.1 / 3))
  }

  lemma {:induction false} RowColMembers(r: int, c: int, i: int, p: Cell)
    requires 0 <= i
    ensures p in RowColFrom(r, c, i) <==>
      (p.0 == r && i <= p.1 < 9 && p.1 != c) || (p.1 == c && i <= p.0 < 9 && p.0 != r)
    decreases 9 - i
  {
    if i < 9 {
      RowColMembers(r, c, i + 1, p);
    }
  }

  lemma {:induction false} BoxMembers(r: int, c: int, k: int, p: Cell)
    requires 0 <= k
    ensures p in BoxFrom(r, c, k) <==> p != (r, c) && exists k' | k <= k' < 9 :: p == BoxCell(r, c, k')
    decreases 9 - k
  {
    if k < 9 {
      BoxMembers(r, c, k + 1, p);
    }
  }

  /** A board cell lies in the box of (r, c) exactly when it is one of the box's nine cells. */
  lemma InBox(r: int, c: int, p: Cell)
    requires OnBoard((r, c)) && OnBoard(p)
    ensures (p.0 / 3 == r / 3 && p.1 / 3 == c / 3) <==> exists k | 0 <= k < 9 :: p == BoxCell(r, c, k)
  {
    if p.0 / 3 == r / 3 && p.1 / 3 == c / 3 {
      var k := (p.0 - (r / 3) * 3) * 3 + (p.1 - (c / 3) * 3);
      assert p == BoxCell(r, c, k);
    }
  }

  /** The cells struck from are exactly the other cells of the row, the column and the box. */
  lemma PeersExact(r: int, c: int, p: Cell)
    requires OnBoard((r, c))
    ensures p in Peers(r, c) <==> OnBoard(p) && Related(p, (r, c))
  {
    RowColMembers(r, c, 0, p);
    BoxMembers(r, c, 0, p);
    if p in BoxFrom(r, c, 0) {
      var k :| 0 <= k < 9 && p == BoxCell(r, c, k);
      assert OnBoard(p);
      InBox(r, c, p);
    }
    if OnBoard(p) {
      InBox(r, c, p);
    }
  }

  /**
   * Forward checking over a list of peers: a peer holding v loses it, and the walk stops with false
   * as soon as a peer's domain becomes empty.
   */
  function Strip(d: Domains, ps: seq<Cell>, v: int): (res: (bool, Domains))
    requires forall q | q in ps :: q in d
    ensures res.1.Keys == d.Keys
  {
    if |ps| == 0 then (true, d)
    else if v in d[ps[0]] then
      var d1 := d[ps[0] := d[ps[0]] - {v}];
      if |d1[ps[0]]| == 0 then (false, d1) else Strip(d1, ps[1..], v)
    else Strip(d, ps[1..], v)
  }

  /** Every domain of the set S without v, the others as they are. */
  function Removed(d: Domains, S: set<Cell>, v: int): (e: Domains)
    ensures e.Keys == d.Keys
  {
    map p | p in d :: if p in S then d[p] - {v} else d[p]
  }

  function CellSet(ps: seq<Cell>): set<Cell> {
    set p | p in ps
  }

  /**
   * Forward checking fails exactly when some peer's domain is v alone; when it succeeds every peer
   * has lost v and nothing else changed.
   */
  lemma {:induction false} StripMeaning(d: Domains, ps: seq<Cell>, v: int)
    requires forall q | q in ps :: q in d
    ensures Strip(d, ps, v).0 <==> forall q | q in ps :: d[q] != {v}
    ensures Strip(d, ps, v).0 ==> Strip(d, ps, v).1 == Removed(d, CellSet(ps), v)
    decreases |ps|, 1
  {
    if |ps| > 0 {
      var p := ps[0];
      var rest := ps[1..];
      assert ps == [p] + rest;
      assert CellSet(ps) == {p} + CellSet(rest);
      if v in d[p] {
        var d1 := d[p := d[p] - {v}];
        if |d1[p]| == 0 {
          assert d[p] == {v};
        } else {
          StripAfterRemoval(d, p, rest, v);
        }
      } else {
        StripMeaning(d, rest, v);
        StripUntouched(d, p, rest, v);
      }
    }
  }

  /** The step of StripMeaning where the first peer held v and keeps other digits. */
  lemma {:induction false} StripAfterRemoval(d: Domains, p: Cell, rest: seq<Cell>, v: int)
    requires p in d && forall q | q in rest :: q in d
    requires v in d[p] && |d[p] - {v}| > 0
    ensures Strip(d, [p] + rest, v).0 <==> forall q | q in [p] + rest :: d[q] != {v}
    ensures Strip(d, [p] + rest, v).0 ==> Strip(d, [p] + rest, v).1 == Removed(d, CellSet([p] + rest), v)
    decreases |rest| + 1, 0
  {
    var d1 := d[p := d[p] - {v}];
    StripHead(d, p, rest, v);
    StripMeaning(d1, rest, v);
    assert d[p] != {v};
    assert v !in d1[p];
    forall q | q in rest
      ensures d1[q] == {v} <==> d[q] == {v}
    {
    }
    assert CellSet([p] + rest) == {p} + CellSet(rest);
    RemovedAfter(d, p, CellSet(rest), v);
  }

  /** Striking v from one domain first and then from S is striking it from both. */
  lemma RemovedAfter(d: Domains, p: Cell, S: set<Cell>, v: int)
    requires p in d
    ensures Removed(d[p := d[p] - {v}], S, v) == Removed(d, {p} + S, v)
  {
    var d1 := d[p := d[p] - {v}];
    assert d1.Keys == d.Keys;
    forall q | q in d
      ensures Removed(d1, S, v)[q] == Removed(d, {p} + S, v)[q]
    {
      if q == p {
        assert d[p] - {v} - {v} == d[p] - {v};
      }
    }
  }

  /** The step of StripMeaning where the first peer did not hold v. */
  lemma StripUntouched(d: Domains, p: Cell, rest: seq<Cell>, v: int)
    requires p in d && forall q | q in rest :: q in d
    requires v !in d[p]
    requires Strip(d, rest, v).0 <==> forall q | q in rest :: d[q] != {v}
    requires Strip(d, rest, v).0 ==> Strip(d, rest, v).1 == Removed(d, CellSet(rest), v)
    ensures Strip(d, [p] + rest, v).0 <==> forall q | q in [p] + rest :: d[q] != {v}
    ensures Strip(d, [p] + rest, v).0 ==> Strip(d, [p] + rest, v).1 == Removed(d, CellSet([p] + rest), v)
  {
    StripHead(d, p, rest, v);
    assert d[p] != {v} by {
      assert v in {v};
    }
    assert forall q :: q in [p] + rest <==> q == p || q in rest;
    assert CellSet([p] + rest) == {p} + CellSet(rest);
    RemovedUntouched(d, p, CellSet(rest), v);
  }

  /** Striking v from a domain that lacks it changes nothing. */
  lemma RemovedUntouched(d: Domains, p: Cell, S: set<Cell>, v: int)
    requires p in d && v !in d[p]
    ensures Removed(d, S, v) == Removed(d, {p} + S, v)
  {
    forall q | q in d
      ensures Removed(d, S, v)[q] == Removed(d, {p} + S, v)[q]
    {
      if q == p {
        assert d[p] - {v} == d[p];
      }
    }
  }

  /** One peer visited in front of the rest. */
  lemma StripHead(d: Domains, p: Cell, rest: seq<Cell>, v: int)
    requires p in d && forall q | q in rest :: q in d
    ensures Strip(d, [p] + rest, v) ==
      if v in d[p] then
        (if |d[p] - {v}| == 0 then (false, d[p := d[p] - {v}]) else Strip(d[p := d[p] - {v}], rest, v))
      else Strip(d, rest, v)
  {
    assert ([p] + rest)[1..] == rest;
  }
}

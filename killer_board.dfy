/**
 * The board-level view of the Killer-Sudoku solver: placing a digit, the cage each cell answers
 * to, the state the constructor sets up from the single-cell cages, and what a completed search
 * guarantees about the cells it filled.
 */
module KillerBoard {
  import opened KillerRules

  /** The board with v at p. */
  function Put(g: Grid, p: Cell, v: int): (h: Grid)
    requires Shaped(g) && OnBoard(p)
    ensures Shaped(h) && At(h, p) == v
    ensures forall q | OnBoard(q) && q != p :: At(h, q) == At(g, q)
  {
    g[p.0 := g[p.0][p.1 := v]]
  }

  /** Two boards that agree on every cell are the same board. */
  lemma SameBoard(g: Grid, h: Grid)
    requires Shaped(g) && Shaped(h) && forall p | OnBoard(p) :: At(g, p) == At(h, p)
    ensures g == h
  {
    forall r | 0 <= r < 9
      ensures g[r] == h[r]
    {
      forall c | 0 <= c < 9
        ensures g[r][c] == h[r][c]
      {
        assert At(g, (r, c)) == At(h, (r, c));
      }
    }
  }

  /** The board of a fresh solver: every cell empty. */
  function EmptyGrid(): (g: Grid)
    ensures Shaped(g) && forall p | OnBoard(p) :: At(g, p) == 0
  {
    seq(9, r => seq(9, c => 0))
  }

  /** The domains of a fresh solver: every cell may take any digit. */
  function FullDomains(): (d: Domains)
    ensures d.Keys == AllCells() && forall p | p in d :: d[p] == Digits()
  {
    map p | p in AllCells() :: Digits()
  }

  /** A fresh domain holds nine candidates. */
  lemma FullDomainsSmall()
    ensures forall p | p in FullDomains() :: |FullDomains()[p]| <= 9
  {
    assert |Digits()| == 9;
  }

  lemma PeersOnBoard(r: int, c: int)
    requires OnBoard((r, c))
    ensures forall q | q in Peers(r, c) :: q in AllCells()
  {
    AllCellsOnBoard();
    forall q | q in Peers(r, c)
      ensures OnBoard(q)
    {
      PeersExact(r, c, q);
    }
  }

  /** Forward checking after v is placed at p: v is struck from the domains of p's peers. */
  function ForwardDomains(d: Domains, p: Cell, v: int): (res: (bool, Domains))
    requires d.Keys == AllCells() && OnBoard(p)
    ensures res.1.Keys == AllCells()
  {
    PeersOnBoard(p.0, p.1);
    AllCellsOnBoard();
    Strip(d, Peers(p.0, p.1), v)
  }

  /** Forward checking from position i of the row-and-column list on, then the whole box list. */
  function LineStrip(d: Domains, p: Cell, i: int, v: int): (bool, Domains)
    requires d.Keys == AllCells() && OnBoard(p) && 0 <= i
  {
    ForwardLists(p.0, p.1);
    Strip(d, RowColFrom(p.0, p.1, i) + BoxFrom(p.0, p.1, 0), v)
  }

  /** Forward checking from position k of the box list on. */
  function BoxStrip(d: Domains, p: Cell, k: int, v: int): (bool, Domains)
    requires d.Keys == AllCells() && OnBoard(p) && 0 <= k
  {
    ForwardLists(p.0, p.1);
    Strip(d, BoxFrom(p.0, p.1, k), v)
  }

  /** The domains with v removed from q's domain. */
  function Drop(d: Domains, q: Cell, v: int): (e: Domains)
    requires q in d
    ensures e.Keys == d.Keys
  {
    if v in d[q] then d[q := d[q] - {v}] else d
  }

  /** Removing v from q's domain leaves it empty. */
  predicate Emptied(d: Domains, q: Cell, v: int)
    requires q in d
  {
    v in d[q] && |d[q] - {v}| == 0
  }

  /** Forward checking over one peer in front of the rest. */
  lemma StripCons(d: Domains, q: Cell, rest: seq<Cell>, v: int)
    requires q in d && forall x | x in rest :: x in d
    ensures Strip(d, [q] + rest, v) ==
      if Emptied(d, q, v) then (false, Drop(d, q, v)) else Strip(Drop(d, q, v), rest, v)
  {
    StripHead(d, q, rest, v);
  }

  /** Forward checking from the column peer at position i of the row-and-column list on. */
  function ColStrip(d: Domains, p: Cell, i: int, v: int): (bool, Domains)
    requires d.Keys == AllCells() && OnBoard(p) && 0 <= i
  {
    ForwardLists(p.0, p.1);
    AllCellsOnBoard();
    Strip(d, (if 0 <= i < 9 && i != p.0 then [(i, p.1)] else []) + (RowColFrom(p.0, p.1, i + 1) + BoxFrom(p.0, p.1, 0)), v)
  }

  lemma RowColSplit(r: int, c: int, i: int, box: seq<Cell>)
    requires 0 <= i < 9
    ensures RowColFrom(r, c, i) + box ==
      (if i != c then [(r, i)] else []) + ((if i != r then [(i, c)] else []) + (RowColFrom(r, c, i + 1) + box))
  {
    var A := if i != c then [(r, i)] else [];
    var C := if i != r then [(i, c)] else [];
    var R := RowColFrom(r, c, i + 1);
    assert RowColFrom(r, c, i) == A + C + R;
    assert A + C + R + box == A + (C + (R + box));
  }

  /** The row peer at position i, another cell than p: struck. */
  lemma LineRowStep(d: Domains, p: Cell, i: int, v: int)
    requires d.Keys == AllCells() && OnBoard(p) && 0 <= i < 9 && i != p.1
    ensures LineStrip(d, p, i, v) ==
      if Emptied(d, (p.0, i), v) then (false, Drop(d, (p.0, i), v)) else ColStrip(Drop(d, (p.0, i), v), p, i, v)
  {
    ForwardLists(p.0, p.1);
    AllCellsOnBoard();
    RowColSplit(p.0, p.1, i, BoxFrom(p.0, p.1, 0));
    var rest := (if i != p.0 then [(i, p.1)] else []) + (RowColFrom(p.0, p.1, i + 1) + BoxFrom(p.0, p.1, 0));
    StripCons(d, (p.0, i), rest, v);
  }

  /** The row position of p itself: skipped. */
  lemma LineRowSkip(d: Domains, p: Cell, i: int, v: int)
    requires d.Keys == AllCells() && OnBoard(p) && 0 <= i < 9 && i == p.1
    ensures LineStrip(d, p, i, v) == ColStrip(d, p, i, v)
  {
    RowColSplit(p.0, p.1, i, BoxFrom(p.0, p.1, 0));
    var rest := (if i != p.0 then [(i, p.1)] else []) + (RowColFrom(p.0, p.1, i + 1) + BoxFrom(p.0, p.1, 0));
    assert [] + rest == rest;
  }

  /** The column peer at position i, another cell than p: struck. */
  lemma ColStep(d: Domains, p: Cell, i: int, v: int)
    requires d.Keys == AllCells() && OnBoard(p) && 0 <= i < 9 && i != p.0
    ensures ColStrip(d, p, i, v) ==
      if Emptied(d, (i, p.1), v) then (false, Drop(d, (i, p.1), v)) else LineStrip(Drop(d, (i, p.1), v), p, i + 1, v)
  {
    ForwardLists(p.0, p.1);
    AllCellsOnBoard();
    var rest := RowColFrom(p.0, p.1, i + 1) + BoxFrom(p.0, p.1, 0);
    StripCons(d, (i, p.1), rest, v);
  }

  /** The column position of p itself: skipped. */
  lemma ColSkip(d: Domains, p: Cell, i: int, v: int)
    requires d.Keys == AllCells() && OnBoard(p) && 0 <= i < 9 && i == p.0
    ensures ColStrip(d, p, i, v) == LineStrip(d, p, i + 1, v)
  {
    var rest := RowColFrom(p.0, p.1, i + 1) + BoxFrom(p.0, p.1, 0);
    assert [] + rest == rest;
  }

  /** After the last row-and-column position only the box list is left. */
  lemma LineDone(d: Domains, p: Cell, v: int)
    requires d.Keys == AllCells() && OnBoard(p)
    ensures LineStrip(d, p, 9, v) == BoxStrip(d, p, 0, v)
  {
    assert RowColFrom(p.0, p.1, 9) + BoxFrom(p.0, p.1, 0) == BoxFrom(p.0, p.1, 0);
  }

  /** Past the last box position nothing is struck. */
  lemma BoxDone(d: Domains, p: Cell, v: int)
    requires d.Keys == AllCells() && OnBoard(p)
    ensures BoxStrip(d, p, 9, v) == (true, d)
  {
    assert BoxFrom(p.0, p.1, 9) == [];
  }

  /** The cell in row rr, column cc of p's box sits at position k of the box list. */
  lemma BoxIndex(p: Cell, k: int, rr: int, cc: int)
    requires OnBoard(p) && 0 <= rr - (p.0 / 3) * 3 < 3 && 0 <= cc - (p.1 / 3) * 3 < 3
    requires k == (rr - (p.0 / 3) * 3) * 3 + (cc - (p.1 / 3) * 3)
    ensures 0 <= k < 9 && BoxCell(p.0, p.1, k) == (rr, cc) && OnBoard((rr, cc))
  {
    assert k / 3 == rr - (p.0 / 3) * 3;
    assert k % 3 == cc - (p.1 / 3) * 3;
  }

  /** The box cell at position k when it is another cell: struck. */
  lemma BoxStep(d: Domains, p: Cell, k: int, v: int)
    requires d.Keys == AllCells() && OnBoard(p) && 0 <= k < 9 && BoxCell(p.0, p.1, k) != p
    ensures BoxStrip(d, p, k, v) ==
      if Emptied(d, BoxCell(p.0, p.1, k), v) then (false, Drop(d, BoxCell(p.0, p.1, k), v))
      else BoxStrip(Drop(d, BoxCell(p.0, p.1, k), v), p, k + 1, v)
  {
    ForwardLists(p.0, p.1);
    AllCellsOnBoard();
    var q := BoxCell(p.0, p.1, k);
    assert BoxFrom(p.0, p.1, k) == [q] + BoxFrom(p.0, p.1, k + 1);
    StripCons(d, q, BoxFrom(p.0, p.1, k + 1), v);
  }

  /** The box cell at position k when it is the cell itself: skipped. */
  lemma BoxSkip(d: Domains, p: Cell, k: int, v: int)
    requires d.Keys == AllCells() && OnBoard(p) && 0 <= k < 9 && BoxCell(p.0, p.1, k) == p
    ensures BoxStrip(d, p, k, v) == BoxStrip(d, p, k + 1, v)
  {
    assert BoxFrom(p.0, p.1, k) == BoxFrom(p.0, p.1, k + 1);
  }

  /** Placing v at p on the domains: p's domain becomes {v}, then forward checking. */
  function AssignDomains(d: Domains, p: Cell, v: int): (res: (bool, Domains))
    requires d.Keys == AllCells() && OnBoard(p)
    ensures res.1.Keys == AllCells()
  {
    ForwardDomains(d[p := {v}], p, v)
  }

  /** Every cell of a suffix of the peer lists is a board cell. */
  lemma ForwardLists(r: int, c: int)
    requires OnBoard((r, c))
    ensures forall i, q | 0 <= i && q in RowColFrom(r, c, i) :: q in AllCells()
    ensures forall k, q | 0 <= k && q in BoxFrom(r, c, k) :: q in AllCells()
  {
    AllCellsOnBoard();
    forall i, q | 0 <= i && q in RowColFrom(r, c, i)
      ensures OnBoard(q)
    {
      RowColMembers(r, c, i, q);
    }
    forall k, q | 0 <= k && q in BoxFrom(r, c, k)
      ensures OnBoard(q)
    {
      BoxMembers(r, c, k, q);
      var k' :| k <= k' < 9 && q == BoxCell(r, c, k');
      BoxCellOnBoard(r, c, k');
    }
  }

  /** The nine cells of a box are board cells. */
  lemma BoxCellOnBoard(r: int, c: int, k: int)
    requires OnBoard((r, c)) && 0 <= k < 9
    ensures OnBoard(BoxCell(r, c, k))
  {
    assert 0 <= k / 3 < 3 && 0 <= k % 3 < 3;
  }

  /** Placing v at p leaves no domain larger than it was, and p's domain within {v}. */
  lemma AssignShrinks(d: Domains, p: Cell, v: int)
    requires d.Keys == AllCells() && OnBoard(p)
    ensures AssignDomains(d, p, v).1[p] <= {v}
    ensures forall q | q in d && q != p :: AssignDomains(d, p, v).1[q] <= d[q]
  {
    PeersOnBoard(p.0, p.1);
    AllCellsOnBoard();
    StripShrinks(d[p := {v}], Peers(p.0, p.1), v);
  }

  /** Placing a digit keeps every domain within nine candidates. */
  lemma AssignSmall(d: Domains, p: Cell, v: int)
    requires d.Keys == AllCells() && OnBoard(p) && forall q | q in d :: |d[q]| <= 9
    ensures forall q | q in AssignDomains(d, p, v).1 :: |AssignDomains(d, p, v).1[q]| <= 9
  {
    var e := AssignDomains(d, p, v).1;
    AssignShrinks(d, p, v);
    forall q | q in e
      ensures |e[q]| <= 9
    {
      if q == p {
        SubsetCard(e[q], {v});
      } else {
        SubsetCard(e[q], d[q]);
      }
    }
  }

  /** Forward checking only ever removes candidates. */
  lemma {:induction false} StripShrinks(d: Domains, ps: seq<Cell>, v: int)
    requires forall q | q in ps :: q in d
    ensures forall q | q in d :: Strip(d, ps, v).1[q] <= d[q]
  {
    if |ps| > 0 {
      var p := ps[0];
      assert forall q | q in ps[1..] :: q in ps;
      if v in d[p] {
        var d1 := d[p := d[p] - {v}];
        if |d1[p]| > 0 {
          StripShrinks(d1, ps[1..], v);
        }
      } else {
        StripShrinks(d, ps[1..], v);
      }
    }
  }

  // ---- The cage of each cell ----

  /** m with every cell of cells mapped to cage, in list order. */
  function PutAll(m: map<Cell, Cage>, cells: seq<Cell>, cage: Cage): map<Cell, Cage> {
    if |cells| == 0 then m else PutAll(m, cells[..|cells| - 1], cage)[cells[|cells| - 1] := cage]
  }

  /** The cage each cell answers to, built cage by cage, a later cage overriding an earlier one. */
  function CageMap(cages: seq<Cage>): map<Cell, Cage> {
    if |cages| == 0 then map[]
    else PutAll(CageMap(cages[..|cages| - 1]), cages[|cages| - 1].cells, cages[|cages| - 1])
  }

  lemma {:induction false} PutAllFacts(m: map<Cell, Cage>, cells: seq<Cell>, cage: Cage, p: Cell)
    ensures p in PutAll(m, cells, cage) <==> p in m || p in cells
    ensures p in cells ==> PutAll(m, cells, cage)[p] == cage
    ensures p in m && p !in cells ==> PutAll(m, cells, cage)[p] == m[p]
  {
    if |cells| > 0 {
      var pre := cells[..|cells| - 1];
      PutAllFacts(m, pre, cage, p);
      assert cells == pre + [cells[|cells| - 1]];
    }
  }

  /**
   * A cell has a cage exactly when some cage lists it, and its cage is the last cage that lists it.
   */
  lemma {:induction false} CageMapLast(cages: seq<Cage>, p: Cell)
    ensures p in CageMap(cages) <==> exists i | 0 <= i < |cages| :: p in cages[i].cells
    ensures p in CageMap(cages) ==> exists i | 0 <= i < |cages| ::
      CageMap(cages)[p] == cages[i] && p in cages[i].cells && forall j | i < j < |cages| :: p !in cages[j].cells
  {
    if |cages| > 0 {
      var n := |cages| - 1;
      var pre := cages[..n];
      CageMapLast(pre, p);
      PutAllFacts(CageMap(pre), cages[n].cells, cages[n], p);
      if p in cages[n].cells {
        assert CageMap(cages)[p] == cages[n];
      } else if p in CageMap(pre) {
        var i :| 0 <= i < n && CageMap(pre)[p] == pre[i] && p in pre[i].cells
          && forall j | i < j < n :: p !in pre[j].cells;
        assert CageMap(cages)[p] == cages[i];
        assert forall j | i < j <= n :: p !in cages[j].cells by {
          assert forall j | i < j < n :: cages[j] == pre[j];
        }
      } else {
        forall i | 0 <= i < |cages|
          ensures p !in cages[i].cells
        {
          if i < n {
            assert pre[i] == cages[i];
          }
        }
      }
    }
  }

  /** The cage map only hands out cages of the list, so cages that fit. */
  lemma CageMapFits(cages: seq<Cage>)
    requires forall i | 0 <= i < |cages| :: Fits(cages[i])
    ensures forall p | p in CageMap(cages) :: Fits(CageMap(cages)[p])
  {
    forall p | p in CageMap(cages)
      ensures Fits(CageMap(cages)[p])
    {
      CageMapLast(cages, p);
    }
  }

  /** Every cell's cage is one of the cages and lists the cell. */
  lemma CageMapFrom(cages: seq<Cage>)
    ensures forall p | p in CageMap(cages) :: CageMap(cages)[p] in cages && p in CageMap(cages)[p].cells
  {
    forall p | p in CageMap(cages)
      ensures CageMap(cages)[p] in cages && p in CageMap(cages)[p].cells
    {
      CageMapLast(cages, p);
    }
  }

  // ---- The state the constructor sets up ----

  /** The board after the constructor: each single-cell cage, in list order, places its sum in its cell. */
  function SetupGrid(cages: seq<Cage>): (g: Grid)
    requires forall i | 0 <= i < |cages| :: Fits(cages[i])
    ensures Shaped(g)
  {
    if |cages| == 0 then EmptyGrid()
    else
      var pre := cages[..|cages| - 1];
      var cage := cages[|cages| - 1];
      assert forall i | 0 <= i < |pre| :: pre[i] == cages[i];
      assert Fits(cage);
      if |cage.cells| == 1 then Put(SetupGrid(pre), cage.cells[0], cage.sum) else SetupGrid(pre)
  }

  /**
   * The domains after the constructor: each single-cell cage, in list order, narrows its cell to
   * its sum and strikes the sum from the peers, whatever forward checking reports.
   */
  function SetupDomains(cages: seq<Cage>): (d: Domains)
    requires forall i | 0 <= i < |cages| :: Fits(cages[i])
    ensures d.Keys == AllCells()
  {
    if |cages| == 0 then FullDomains()
    else
      var pre := cages[..|cages| - 1];
      var cage := cages[|cages| - 1];
      assert forall i | 0 <= i < |pre| :: pre[i] == cages[i];
      assert Fits(cage);
      if |cage.cells| == 1 then AssignDomains(SetupDomains(pre), cage.cells[0], cage.sum).1 else SetupDomains(pre)
  }

  /** The constructor's loop, one cage further. */
  lemma SetupStep(cages: seq<Cage>, i: int)
    requires forall j | 0 <= j < |cages| :: Fits(cages[j])
    requires 0 <= i < |cages|
    ensures |cages[i].cells| == 1 ==>
      (SetupGrid(cages[..i + 1]) == Put(SetupGrid(cages[..i]), cages[i].cells[0], cages[i].sum)
      && SetupDomains(cages[..i + 1]) == AssignDomains(SetupDomains(cages[..i]), cages[i].cells[0], cages[i].sum).1)
    ensures |cages[i].cells| != 1 ==>
      (SetupGrid(cages[..i + 1]) == SetupGrid(cages[..i]) && SetupDomains(cages[..i + 1]) == SetupDomains(cages[..i]))
  {
    assert cages[..i + 1][..i] == cages[..i];
    assert cages[..i + 1][i] == cages[i];
  }

  /** After the constructor a cell that no single-cell cage names is empty. */
  lemma {:induction false} SetupUntouched(cages: seq<Cage>, p: Cell)
    requires forall i | 0 <= i < |cages| :: Fits(cages[i])
    requires OnBoard(p) && forall i | 0 <= i < |cages| :: cages[i].cells != [p]
    ensures At(SetupGrid(cages), p) == 0
  {
    if |cages| > 0 {
      var n := |cages| - 1;
      var pre := cages[..n];
      assert forall i | 0 <= i < n :: pre[i] == cages[i];
      SetupUntouched(pre, p);
      SetupLast(cages, p);
    }
  }

  /** After the constructor a cell holds the sum of the last single-cell cage on it. */
  lemma {:induction false} SetupGivens(cages: seq<Cage>, p: Cell, i: int)
    requires forall j | 0 <= j < |cages| :: Fits(cages[j])
    requires OnBoard(p) && 0 <= i < |cages| && cages[i].cells == [p]
    requires forall j | i < j < |cages| :: cages[j].cells != [p]
    ensures At(SetupGrid(cages), p) == cages[i].sum
  {
    var n := |cages| - 1;
    SetupLast(cages, p);
    if i < n {
      var pre := cages[..n];
      assert forall j | 0 <= j < n :: pre[j] == cages[j];
      SetupGivens(pre, p, i);
    }
  }

  /** The last cage of the list sets p when it is the single-cell cage on p, and leaves p otherwise. */
  lemma SetupLast(cages: seq<Cage>, p: Cell)
    requires forall i | 0 <= i < |cages| :: Fits(cages[i])
    requires OnBoard(p) && |cages| > 0
    ensures var n := |cages| - 1;
      At(SetupGrid(cages), p) == if cages[n].cells == [p] then cages[n].sum else At(SetupGrid(cages[..n]), p)
  {
    var n := |cages| - 1;
    var cage := cages[n];
    if |cage.cells| == 1 {
      assert cage.cells == [cage.cells[0]];
    }
  }

  // ---- What a search guarantees ----

  /** Every cell is filled. */
  ghost predicate Complete(g: Grid)
    requires Shaped(g)
  {
    forall p | OnBoard(p) :: At(g, p) != 0
  }

  /** The filled cells of g0 keep their values in g1. */
  ghost predicate Extends(g0: Grid, g1: Grid)
    requires Shaped(g0) && Shaped(g1)
  {
    forall p | OnBoard(p) && At(g0, p) != 0 :: At(g1, p) == At(g0, p)
  }

  /** Every cell empty in g0 holds in g1 one of its candidates in d. */
  ghost predicate FillsFrom(g0: Grid, g1: Grid, d: Domains)
    requires Shaped(g0) && Shaped(g1)
  {
    forall p | OnBoard(p) && At(g0, p) == 0 :: p in d && At(g1, p) in d[p]
  }

  /**
   * No two related cells hold the same value in g1 unless both were already filled in g0: a clash
   * can only come from the cells the search started with.
   */
  ghost predicate NoNewClash(g0: Grid, g1: Grid)
    requires Shaped(g0) && Shaped(g1)
  {
    forall p, q | OnBoard(p) && OnBoard(q) && Related(p, q) && At(g1, p) == At(g1, q) ::
      At(g0, p) != 0 && At(g0, q) != 0
  }

  /** v appears nowhere in the row, the column and the box of p, p itself included. */
  ghost predicate Unused(g: Grid, p: Cell, v: int)
    requires Shaped(g)
  {
    forall q | OnBoard(q) && (q == p || Related(q, p)) :: At(g, q) != v
  }

  /** The empty cells. */
  function EmptyCells(g: Grid): set<Cell>
    requires Shaped(g)
  {
    set p | p in AllCells() && OnBoard(p) && At(g, p) == 0
  }

  /** Filling an empty cell with a nonzero value leaves one empty cell fewer. */
  lemma FillShrinks(g: Grid, p: Cell, v: int)
    requires Shaped(g) && OnBoard(p) && At(g, p) == 0 && v != 0
    ensures |EmptyCells(Put(g, p, v))| < |EmptyCells(g)|
  {
    AllCellsOnBoard();
    assert EmptyCells(Put(g, p, v)) == EmptyCells(g) - {p};
    assert p in EmptyCells(g);
  }

  /**
   * One step of the search: placing a value that is unused around an empty cell and is one of its
   * candidates, then finishing from there, finishes from the state before the step.
   */
  lemma SearchStep(g0: Grid, d0: Domains, p: Cell, v: int, d1: Domains, g2: Grid)
    requires Shaped(g0) && Shaped(g2) && OnBoard(p) && At(g0, p) == 0
    requires Unused(g0, p, v) && p in d0 && v in d0[p]
    requires forall q | q in d1 && q != p :: q in d0 && d1[q] <= d0[q]
    requires var g1 := Put(g0, p, v);
      Complete(g2) && Extends(g1, g2) && FillsFrom(g1, g2, d1) && NoNewClash(g1, g2)
    ensures Complete(g2) && Extends(g0, g2) && FillsFrom(g0, g2, d0) && NoNewClash(g0, g2)
  {
    var g1 := Put(g0, p, v);
    assert At(g2, p) == v;
    forall q | OnBoard(q) && At(g0, q) == 0
      ensures q in d0 && At(g2, q) in d0[q]
    {
      if q != p {
        assert At(g1, q) == 0;
      }
    }
    forall a, b | OnBoard(a) && OnBoard(b) && Related(a, b) && At(g2, a) == At(g2, b)
      ensures At(g0, a) != 0 && At(g0, b) != 0
    {
      assert At(g1, a) != 0 && At(g1, b) != 0;
      assert At(g2, a) == At(g1, a) && At(g2, b) == At(g1, b);
      assert a != p && b != p by {
        assert Related(a, b) && Related(b, a);
        assert b != p ==> At(g1, b) == At(g0, b);
        assert a != p ==> At(g1, a) == At(g0, a);
      }
    }
  }

  /** A board cell shares the box of (r, c) exactly when it lies in the box's row and column ranges. */
  lemma SameBoxRange(r: int, c: int, q: Cell)
    requires OnBoard((r, c)) && OnBoard(q)
    ensures (q.0 / 3 == r / 3 && q.1 / 3 == c / 3) <==>
      ((r / 3) * 3 <= q.0 < (r / 3) * 3 + 3 && (c / 3) * 3 <= q.1 < (c / 3) * 3 + 3)
  {
  }

  /**
   * v is unused around (r, c) exactly when the row, the column and the box ranges the solver scans
   * hold no v.
   */
  lemma UnusedByUnits(g: Grid, r: int, c: int, v: int)
    requires Shaped(g) && OnBoard((r, c))
    ensures Unused(g, (r, c), v) <==>
      (forall i | 0 <= i < 9 :: At(g, (r, i)) != v && At(g, (i, c)) != v)
      && (forall a, b | (r / 3) * 3 <= a < (r / 3) * 3 + 3 && (c / 3) * 3 <= b < (c / 3) * 3 + 3 :: At(g, (a, b)) != v)
  {
    var lines := forall i | 0 <= i < 9 :: At(g, (r, i)) != v && At(g, (i, c)) != v;
    var box := forall a, b | (r / 3) * 3 <= a < (r / 3) * 3 + 3 && (c / 3) * 3 <= b < (c / 3) * 3 + 3 :: At(g, (a, b)) != v;
    if lines && box {
      forall q | OnBoard(q) && (q == (r, c) || Related(q, (r, c)))
        ensures At(g, q) != v
      {
        SameBoxRange(r, c, q);
        assert At(g, (r, q.1)) != v && At(g, (q.0, c)) != v;
      }
    }
    if Unused(g, (r, c), v) {
      forall i | 0 <= i < 9
        ensures At(g, (r, i)) != v && At(g, (i, c)) != v
      {
        assert (r, i) == (r, c) || Related((r, i), (r, c));
        assert (i, c) == (r, c) || Related((i, c), (r, c));
      }
      forall a, b | (r / 3) * 3 <= a < (r / 3) * 3 + 3 && (c / 3) * 3 <= b < (c / 3) * 3 + 3
        ensures At(g, (a, b)) != v
      {
        SameBoxRange(r, c, (a, b));
        assert (a, b) == (r, c) || Related((a, b), (r, c));
      }
    }
  }

  /** The position of a cell in row-major order, the order the solver meets the cells in. */
  function Index(p: Cell): int {
    p.0 * 9 + p.1
  }
}

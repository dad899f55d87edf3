/**
 * Week tables of the social golfer searches as values. A week row gives each player a group id,
 * or -1 while the player is not yet placed; two players share a group in a week when both are
 * placed there with the same id. The pair matrix records which pairs have already shared a
 * group in the weeks scheduled so far.
 */
module GolfSchedule {

  /** The players of a row holding value v. */
  function Members(row: seq<int>, v: int): set<int> {
    set i | 0 <= i < |row| && row[i] == v
  }

  /** The players of a row placed in a group with id below n. */
  function Grouped(row: seq<int>, n: int): set<int> {
    set i | 0 <= i < |row| && 0 <= row[i] < n
  }

  /** Every entry is -1 or a group id below g. */
  predicate IdsBelow(row: seq<int>, g: int) {
    forall i | 0 <= i < |row| :: row[i] == -1 || 0 <= row[i] < g
  }

  /** The players 0..n-1 as a set. */
  function Players(n: nat): (ps: set<int>)
    ensures forall i :: i in ps <==> 0 <= i < n
    ensures |ps| == n
  {
    if n == 0 then {} else Players(n - 1) + {n - 1}
  }

  /** The sizes of the groups with ids below n, added up. */
  function SumCounts(row: seq<int>, n: nat): nat {
    if n == 0 then 0 else SumCounts(row, n - 1) + |Members(row, n - 1)|
  }

  lemma {:induction false} SumIsGrouped(row: seq<int>, n: nat)
    ensures SumCounts(row, n) == |Grouped(row, n)|
  {
    if n == 0 {
      assert Grouped(row, n) == {};
    } else {
      SumIsGrouped(row, n - 1);
      assert Grouped(row, n) == Grouped(row, n - 1) + Members(row, n - 1);
      assert Grouped(row, n - 1) * Members(row, n - 1) == {};
    }
  }

  /** Unplaced players and the group sizes together account for every player. */
  lemma Total(row: seq<int>, g: nat)
    requires IdsBelow(row, g)
    ensures |Members(row, -1)| + SumCounts(row, g) == |row|
  {
    SumIsGrouped(row, g);
    assert Members(row, -1) + Grouped(row, g) == Players(|row|);
    assert Members(row, -1) * Grouped(row, g) == {};
  }

  /** The number of group ids below n that have at least one member. */
  function NumUsed(row: seq<int>, n: nat): nat {
    if n == 0 then 0 else NumUsed(row, n - 1) + (if |Members(row, n - 1)| > 0 then 1 else 0)
  }

  /** When every group has p members or none, the group sizes add up to p per used id. */
  lemma {:induction false} UsedSum(row: seq<int>, p: nat, n: nat)
    requires forall v | 0 <= v < n :: |Members(row, v)| == 0 || |Members(row, v)| == p
    ensures SumCounts(row, n) == p * NumUsed(row, n)
  {
    if n > 0 {
      UsedSum(row, p, n - 1);
      if |Members(row, n - 1)| > 0 {
        assert p * NumUsed(row, n) == p * NumUsed(row, n - 1) + p;
      }
    }
  }

  /** At most n ids below n are used, and all of them exactly when each has a member. */
  lemma {:induction false} AllUsed(row: seq<int>, n: nat)
    ensures NumUsed(row, n) <= n
    ensures NumUsed(row, n) == n <==> forall v | 0 <= v < n :: |Members(row, v)| > 0
  {
    if n > 0 {
      AllUsed(row, n - 1);
    }
  }

  // ---- Sharing a group ----

  /** Players a and b are placed in the same group of the row. */
  predicate Share(row: seq<int>, a: int, b: int) {
    0 <= a < |row| && 0 <= b < |row| && row[a] != -1 && row[a] == row[b]
  }

  /** a and b (different players) have shared a group in some week of hist. */
  predicate Met(hist: seq<seq<int>>, a: int, b: int) {
    a != b && exists v | 0 <= v < |hist| :: Share(hist[v], a, b)
  }

  /** No two different players share a group in two different weeks of hist. */
  ghost predicate NoRepeat(hist: seq<seq<int>>) {
    forall v1, v2, a, b | 0 <= v1 < v2 < |hist| && a != b && Share(hist[v1], a, b) :: !Share(hist[v2], a, b)
  }

  /** An n × n matrix of flags. */
  predicate Square(pairs: seq<seq<bool>>, n: nat) {
    |pairs| == n && forall a | 0 <= a < n :: |pairs[a]| == n
  }

  /** The pair matrix marks exactly the pairs that have met in hist. */
  predicate PairsMatch(pairs: seq<seq<bool>>, hist: seq<seq<int>>, n: nat)
    requires Square(pairs, n)
  {
    forall a, b | 0 <= a < n && 0 <= b < n :: pairs[a][b] <==> Met(hist, a, b)
  }

  /** A matrix that matches the meetings is symmetric with a clear diagonal. */
  lemma MatchSymmetric(pairs: seq<seq<bool>>, hist: seq<seq<int>>, n: nat)
    requires Square(pairs, n) && PairsMatch(pairs, hist, n)
    ensures forall a, b | 0 <= a < n && 0 <= b < n :: pairs[a][b] == pairs[b][a]
    ensures forall a | 0 <= a < n :: !pairs[a][a]
  {
    forall a, b | 0 <= a < n && 0 <= b < n
      ensures pairs[a][b] == pairs[b][a]
    {
      if Met(hist, a, b) {
        var v :| 0 <= v < |hist| && Share(hist[v], a, b);
        assert Share(hist[v], b, a);
      }
      if Met(hist, b, a) {
        var v :| 0 <= v < |hist| && Share(hist[v], b, a);
        assert Share(hist[v], a, b);
      }
    }
  }

  /** A row with every player unplaced. */
  function Unplaced(n: nat): (row: seq<int>)
    ensures |row| == n && forall i | 0 <= i < n :: row[i] == -1
  {
    seq(n, i => -1)
  }

  /** An empty week adds no meetings and no repeats. */
  lemma AddEmptyWeek(pairs: seq<seq<bool>>, hist: seq<seq<int>>, n: nat)
    requires Square(pairs, n) && PairsMatch(pairs, hist, n) && NoRepeat(hist)
    ensures PairsMatch(pairs, hist + [Unplaced(n)], n)
    ensures NoRepeat(hist + [Unplaced(n)])
  {
    var h := hist + [Unplaced(n)];
    forall a, b | 0 <= a < n && 0 <= b < n
      ensures Met(h, a, b) <==> Met(hist, a, b)
    {
      if Met(h, a, b) {
        var v :| 0 <= v < |h| && Share(h[v], a, b);
        assert h[v] == hist[v];
      }
      if Met(hist, a, b) {
        var v :| 0 <= v < |hist| && Share(hist[v], a, b);
        assert h[v] == hist[v];
      }
    }
  }

  /** Every player is in a group below g, and each of the g groups has p members. */
  predicate Partition(row: seq<int>, p: nat, g: nat) {
    (forall i | 0 <= i < |row| :: 0 <= row[i] < g)
    && forall v | 0 <= v < g :: |Members(row, v)| == p
  }

  /**
   * Finished weeks of g groups of p: each week a partition, no pair met twice, and the matrix
   * marks exactly the pairs that have met.
   */
  ghost predicate Finished(hist: seq<seq<int>>, pairs: seq<seq<bool>>, p: nat, g: nat) {
    Square(pairs, p * g)
    && (forall v | 0 <= v < |hist| :: Partition(hist[v], p, g))
    && NoRepeat(hist)
    && PairsMatch(pairs, hist, p * g)
  }

  /** The row with every player of S set to v. */
  function Place(row: seq<int>, S: set<int>, v: int): (r: seq<int>)
    ensures |r| == |row|
  {
    seq(|row|, i requires 0 <= i < |row| => if i in S then v else row[i])
  }

  /** The matrix with every pair of different players of S set to b. */
  function Mark(pairs: seq<seq<bool>>, n: nat, S: set<int>, b: bool): (r: seq<seq<bool>>)
    requires Square(pairs, n)
    ensures Square(r, n)
  {
    seq(n, x requires 0 <= x < n =>
      seq(n, y requires 0 <= y < n => if x != y && x in S && y in S then b else pairs[x][y]))
  }

  /** Players of S, all in range and unplaced. */
  predicate Free(row: seq<int>, S: set<int>) {
    forall x | x in S :: 0 <= x < |row| && row[x] == -1
  }

  /**
   * Placing unplaced players S under an id v no one holds: v's members become S, every other
   * id keeps its members, and two players share a group afterwards exactly when they did before
   * or both are in S.
   */
  lemma PlaceFacts(row: seq<int>, S: set<int>, v: int)
    requires v != -1 && Free(row, S) && Members(row, v) == {}
    ensures Members(Place(row, S, v), v) == S
    ensures forall u | u != v && u != -1 :: Members(Place(row, S, v), u) == Members(row, u)
    ensures forall x, y :: Share(Place(row, S, v), x, y) <==> Share(row, x, y) || (x in S && y in S)
  {
    forall x | 0 <= x < |row|
      ensures row[x] != v
    {
      assert x !in Members(row, v);
    }
  }

  /** After a new group S in the last week, the marked matrix matches the meetings. */
  lemma PlaceMatch(hist: seq<seq<int>>, pairs: seq<seq<bool>>, n: nat, S: set<int>, v: int)
    requires |hist| >= 1 && Square(pairs, n) && PairsMatch(pairs, hist, n)
    requires var row := hist[|hist| - 1];
      forall x, y :: Share(Place(row, S, v), x, y) <==> Share(row, x, y) || (x in S && y in S)
    requires forall x | x in S :: 0 <= x < n
    ensures PairsMatch(Mark(pairs, n, S, true), hist[|hist| - 1 := Place(hist[|hist| - 1], S, v)], n)
  {
    var w := |hist| - 1;
    var row := hist[w];
    var hist' := hist[w := Place(row, S, v)];
    var pairs' := Mark(pairs, n, S, true);
    forall x, y | 0 <= x < n && 0 <= y < n
      ensures pairs'[x][y] <==> Met(hist', x, y)
    {
      if Met(hist', x, y) {
        var u :| 0 <= u < |hist'| && Share(hist'[u], x, y);
        if u < w {
          assert Share(hist[u], x, y);
        } else if !(x in S && y in S) {
          assert Share(hist[w], x, y);
        }
      }
      if Met(hist, x, y) {
        var u :| 0 <= u < |hist| && Share(hist[u], x, y);
        if u == w {
          assert Share(hist'[w], x, y);
        } else {
          assert Share(hist'[u], x, y);
        }
      }
      if x != y && x in S && y in S {
        assert Share(hist'[w], x, y);
      }
    }
  }

  /** A new group S in the last week, none of whose pairs has met, adds no repeated meeting. */
  lemma PlaceNoRepeat(hist: seq<seq<int>>, S: set<int>, v: int)
    requires |hist| >= 1 && NoRepeat(hist)
    requires var row := hist[|hist| - 1];
      forall x, y :: Share(Place(row, S, v), x, y) <==> Share(row, x, y) || (x in S && y in S)
    requires forall x, y | x in S && y in S && x != y :: !Met(hist, x, y)
    ensures NoRepeat(hist[|hist| - 1 := Place(hist[|hist| - 1], S, v)])
  {
    var w := |hist| - 1;
    var hist' := hist[w := Place(hist[w], S, v)];
    forall v1, v2, x, y | 0 <= v1 < v2 < |hist'| && x != y && Share(hist'[v1], x, y)
      ensures !Share(hist'[v2], x, y)
    {
      assert hist'[v1] == hist[v1];
      if v2 < w {
        assert hist'[v2] == hist[v2];
      } else if x in S && y in S {
        assert Met(hist, x, y);
      }
    }
  }

  /** Marking S and then clearing it gives back a matrix whose pairs within S were clear. */
  lemma MarkClear(pairs: seq<seq<bool>>, n: nat, S: set<int>)
    requires Square(pairs, n)
    requires forall x, y | 0 <= x < n && 0 <= y < n && x != y && x in S && y in S :: !pairs[x][y]
    ensures Mark(Mark(pairs, n, S, true), n, S, false) == pairs
  {
    var back := Mark(Mark(pairs, n, S, true), n, S, false);
    forall x | 0 <= x < n
      ensures back[x] == pairs[x]
    {
      forall y | 0 <= y < n
        ensures back[x][y] == pairs[x][y]
      {
        if x != y && x in S && y in S {
          assert !pairs[x][y];
        }
      }
    }
  }

  /** Writing -1 back over S restores a row whose players in S were unplaced. */
  lemma PlaceClear(row: seq<int>, S: set<int>, v: int)
    requires Free(row, S)
    ensures Place(Place(row, S, v), S, -1) == row
  {
  }

  /** Clearing S again in the last of weeks w+1 restores the weeks as they were before S was placed. */
  lemma RestoreWeek(rows: seq<seq<int>>, hist: seq<seq<int>>, w: nat, S: set<int>, v: int)
    requires |hist| == w + 1 <= |rows| && Free(hist[w], S)
    requires rows[..w + 1] == hist[w := Place(hist[w], S, v)]
    ensures rows[w := Place(rows[w], S, -1)][..w + 1] == hist
  {
    var after := rows[w := Place(rows[w], S, -1)];
    assert rows[w] == Place(hist[w], S, v);
    PlaceClear(hist[w], S, v);
    forall u | 0 <= u <= w
      ensures after[u] == hist[u]
    {
      if u < w {
        assert rows[u] == rows[..w + 1][u];
      }
    }
  }
}

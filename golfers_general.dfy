/**
 * Social golfers for any group size P, number of groups G and number of weeks W, with
 * N = P * G players. A week is filled group by group: the groupsFormed-th group takes id
 * groupsFormed and is the first combination of P still unplaced players, in lexicographic order,
 * none of whose pairs has met before. A failed attempt is taken back before the next one.
 */
module GolfersGeneral {
  import opened GolfSchedule
  import opened KCombinations

  /** The players of a list. */
  function Elems(s: seq<int>): set<int> {
    set x | x in s
  }

  /** The entries of s strictly increase. */
  predicate Ascending(s: seq<int>) {
    forall i, j | 0 <= i < j < |s| :: s[i] < s[j]
  }

  /** A list whose entries strictly increase has as many players as entries. */
  lemma {:induction false} ElemsCount(s: seq<int>)
    requires Ascending(s)
    ensures |Elems(s)| == |s|
  {
    if |s| > 0 {
      var t := s[..|s| - 1];
      ElemsCount(t);
      assert Elems(s) == Elems(t) + {s[|s| - 1]};
      assert s[|s| - 1] !in Elems(t);
    }
  }

  /** Groups with ids below gf are formed with p members each; the other players are unplaced. */
  predicate Formed(row: seq<int>, p: nat, gf: nat) {
    IdsBelow(row, gf) && forall v | 0 <= v < gf :: |Members(row, v)| == p
  }

  /**
   * Finished weeks of g groups of p and a last week with gf groups formed; no pair has met
   * twice and the matrix marks exactly the pairs that have met.
   */
  ghost predicate Forming(hist: seq<seq<int>>, pairs: seq<seq<bool>>, p: nat, g: nat, gf: nat) {
    |hist| >= 1 && Square(pairs, p * g)
    && (forall v | 0 <= v < |hist| - 1 :: Partition(hist[v], p, g))
    && |hist[|hist| - 1]| == p * g && Formed(hist[|hist| - 1], p, gf)
    && NoRepeat(hist)
    && PairsMatch(pairs, hist, p * g)
  }

  /** With every id below n holding p members, the group sizes add up to p * n. */
  lemma {:induction false} SumFull(row: seq<int>, p: nat, n: nat)
    requires forall v | 0 <= v < n :: |Members(row, v)| == p
    ensures SumCounts(row, n) == p * n
  {
    if n > 0 {
      SumFull(row, p, n - 1);
    }
  }

  /** With gf groups of p formed, p * gf players are placed and the rest are unplaced. */
  lemma UnplacedCount(row: seq<int>, p: nat, gf: nat)
    requires Formed(row, p, gf)
    ensures |Members(row, -1)| == |row| - p * gf
  {
    Total(row, gf);
    SumFull(row, p, gf);
  }

  /** Opening an empty week after finished ones starts it with no group formed. */
  lemma StartForming(hist: seq<seq<int>>, pairs: seq<seq<bool>>, p: nat, g: nat)
    requires Finished(hist, pairs, p, g)
    ensures Forming(hist + [Unplaced(p * g)], pairs, p, g, 0)
  {
    AddEmptyWeek(pairs, hist, p * g);
    var h := hist + [Unplaced(p * g)];
    forall v | 0 <= v < |h| - 1
      ensures Partition(h[v], p, g)
    {
      assert h[v] == hist[v];
    }
  }

  /** A week with all g groups formed is a partition: the weeks are finished. */
  lemma FinishForming(hist: seq<seq<int>>, pairs: seq<seq<bool>>, p: nat, g: nat)
    requires Forming(hist, pairs, p, g, g)
    ensures Finished(hist, pairs, p, g)
  {
    var row := hist[|hist| - 1];
    UnplacedCount(row, p, g);
    assert Members(row, -1) == {};
    forall i | 0 <= i < |row|
      ensures 0 <= row[i] < g
    {
      assert i !in Members(row, -1);
    }
  }

  /**
   * Forming group gf from p unplaced players S none of whose pairs has met keeps the week
   * forming with one group more, once the pairs of S are marked.
   */
  lemma FormKeeps(hist: seq<seq<int>>, pairs: seq<seq<bool>>, p: nat, g: nat, gf: nat, S: set<int>)
    requires Forming(hist, pairs, p, g, gf) && gf < g
    requires Free(hist[|hist| - 1], S) && |S| == p
    requires forall x, y | x in S && y in S && x != y :: !pairs[x][y]
    ensures Forming(hist[|hist| - 1 := Place(hist[|hist| - 1], S, gf)], Mark(pairs, p * g, S, true), p, g, gf + 1)
  {
    var w := |hist| - 1;
    var row := hist[w];
    var hist' := hist[w := Place(row, S, gf)];
    assert Members(row, gf) == {};
    PlaceFacts(row, S, gf);
    forall x, y | x in S && y in S && x != y
      ensures !Met(hist, x, y)
    {
      assert !pairs[x][y];
    }
    PlaceMatch(hist, pairs, p * g, S, gf);
    PlaceNoRepeat(hist, S, gf);
    forall v | 0 <= v < w
      ensures Partition(hist'[v], p, g)
    {
      assert hist'[v] == hist[v];
    }
  }

  /** The pairs of a list marked after its first i players have been done. */
  predicate Prefixed(group: seq<int>, i: int, x: int, y: int)
    requires 0 <= i <= |group|
  {
    x != y && ((x in group[..i] && y in group) || (y in group[..i] && x in group))
  }

  /** The pairs marked partway through player i: the earlier players and i with the next ones up to j. */
  predicate Partway(group: seq<int>, i: int, j: int, x: int, y: int)
    requires 0 <= i < |group| && i < j <= |group|
  {
    Prefixed(group, i, x, y)
    || (x == group[i] && y in group[i + 1..j])
    || (y == group[i] && x in group[i + 1..j])
  }

  /** Adding position j to the inner loop's range adds the pair of positions i and j. */
  lemma PartwayStep(group: seq<int>, i: int, j: int, x: int, y: int)
    requires 0 <= i < |group| && i < j < |group|
    ensures Partway(group, i, j + 1, x, y) <==>
      Partway(group, i, j, x, y) || (x == group[i] && y == group[j]) || (x == group[j] && y == group[i])
  {
    assert group[i + 1..j + 1] == group[i + 1..j] + [group[j]];
  }

  /** Finishing the inner loop for player i is the same as having done the first i + 1 players. */
  lemma PartwayDone(group: seq<int>, i: int, x: int, y: int)
    requires 0 <= i < |group| && Ascending(group)
    ensures Partway(group, i, |group|, x, y) <==> Prefixed(group, i + 1, x, y)
  {
    assert group[..i + 1] == group[..i] + [group[i]];
    assert group == group[..i] + [group[i]] + group[i + 1..];
    AfterIsLarger(group, i, x);
    AfterIsLarger(group, i, y);
  }

  /** The players after position i of an ascending list exceed the one at i. */
  lemma AfterIsLarger(group: seq<int>, i: int, z: int)
    requires 0 <= i < |group| && Ascending(group)
    ensures z in group[i + 1..] ==> group[i] < z
  {
    if z in group[i + 1..] {
      var j :| 0 <= j < |group| - (i + 1) && group[i + 1..][j] == z;
      assert group[i + 1 + j] == z;
    }
  }

  /** The inner loop starts empty. */
  lemma PartwayStart(group: seq<int>, i: int, x: int, y: int)
    requires 0 <= i < |group|
    ensures Partway(group, i, i + 1, x, y) <==> Prefixed(group, i, x, y)
  {
    assert group[i + 1..i + 1] == [];
  }

  // ---- The solver ----

  class GeneralSolver {
    const P: nat
    const G: nat
    const W: nat
    const N: nat
    const pairUsed: array2<bool>
    const solution: array2<int>

    /** N = P * G players, an N × N pair matrix and W weeks of N players. */
    predicate Shaped()
      reads this
    {
      N == P * G
      && pairUsed.Length0 == N && pairUsed.Length1 == N && solution.Length0 == W && solution.Length1 == N
    }

    /** The schedule as a value, one row per week. */
    ghost function Rows(): (rows: seq<seq<int>>)
      requires Shaped()
      reads this, solution
      ensures |rows| == W && forall v | 0 <= v < W :: |rows[v]| == N
      ensures forall v, i | 0 <= v < W && 0 <= i < N :: rows[v][i] == solution[v, i]
    {
      seq(W, v requires 0 <= v < W reads solution => seq(N, i requires 0 <= i < N reads solution => solution[v, i]))
    }

    /** The pair matrix as a value. */
    ghost function Pairs(): (pairs: seq<seq<bool>>)
      requires Shaped()
      reads this, pairUsed
      ensures Square(pairs, N)
      ensures forall a, b | 0 <= a < N && 0 <= b < N :: pairs[a][b] == pairUsed[a, b]
    {
      seq(N, a requires 0 <= a < N reads pairUsed => seq(N, b requires 0 <= b < N reads pairUsed => pairUsed[a, b]))
    }

    /** Both tables for p players per group, g groups and w weeks: no pair marked, every entry 0. */
    constructor (p: nat, g: nat, w: nat)
      ensures P == p && G == g && W == w && Shaped()
      ensures forall a, b | 0 <= a < N && 0 <= b < N :: !Pairs()[a][b]
    {
      P, G, W, N := p, g, w, p * g;
      pairUsed := new bool[p * g, p * g]((a, b) => false);
      solution := new int[w, p * g]((v, i) => 0);
    }

    /**
     * Schedules weeks week..W-1 after the finished weeks before it. Success leaves W finished
     * weeks; a failure leaves the pair matrix and the earlier weeks as they were.
     */
    method ScheduleWeek(week: nat) returns (ok: bool)
      requires Shaped() && week <= W && Finished(Rows()[..week], Pairs(), P, G)
      modifies solution, pairUsed
      ensures week == W ==> ok
      ensures ok ==> Finished(Rows(), Pairs(), P, G)
      ensures !ok ==> Pairs() == old(Pairs()) && Rows()[..week] == old(Rows()[..week])
      decreases W - week, G + 1, 2
    {
      if week == W {
        assert Rows()[..week] == Rows();
        return true;
      }
      ghost var before := Rows();
      for i := 0 to N
        invariant Pairs() == old(Pairs())
        invariant forall v | 0 <= v < W && v != week :: Rows()[v] == before[v]
        invariant forall i' | 0 <= i' < i :: solution[week, i'] == -1
      {
        solution[week, i] := -1;
      }
      assert Rows()[week] == Unplaced(N);
      assert Rows()[..week] == before[..week];
      assert Rows()[..week + 1] == before[..week] + [Unplaced(N)];
      StartForming(before[..week], Pairs(), P, G);
      ok := AssignGroupsForWeek(week, 0, 0);
    }

    /**
     * Forms group groupsFormed of week `week`: with all G formed the next week starts; with
     * fewer than P players unplaced it fails; otherwise it tries every combination of P unplaced
     * players in lexicographic order whose pairs have not met. Success leaves W finished weeks;
     * a failure leaves the pair matrix and the weeks up to this one as they were.
     */
    method AssignGroupsForWeek(week: nat, startIndex: int, groupsFormed: nat) returns (ok: bool)
      requires Shaped() && week < W && groupsFormed <= G
      requires Forming(Rows()[..week + 1], Pairs(), P, G, groupsFormed)
      modifies solution, pairUsed
      ensures ok ==> Finished(Rows(), Pairs(), P, G)
      ensures !ok ==> Pairs() == old(Pairs()) && Rows()[..week + 1] == old(Rows()[..week + 1])
      ensures groupsFormed < G && |Members(old(Rows()[week]), -1)| < P ==> !ok
      decreases W - week, G - groupsFormed, 1
    {
      ghost var hist := Rows()[..week + 1];
      if groupsFormed == G {
        FinishForming(hist, Pairs(), P, G);
        ok := ScheduleWeek(week + 1);
        return;
      }
      var available := Available(week);
      ElemsCount(available);
      if |available| < P {
        return false;
      }
      var groups, idxs := Combinations(available, P);
      for t := 0 to |groups|
        invariant Pairs() == old(Pairs()) && Rows()[..week + 1] == hist
      {
        var group := groups[t];
        assert Rows()[week] == hist[week];
        Candidate(available, idxs[t], P, hist[week]);
        var valid := IsValidGroup(group);
        if valid {
          ok := TryGroup(week, group, groupsFormed);
          if ok {
            return;
          }
        }
      }
      ok := false;
    }

    /** The unplaced players of the week, in increasing order. */
    method Available(week: nat) returns (available: seq<int>)
      requires Shaped() && week < W
      ensures Ascending(available) && Elems(available) == Members(Rows()[week], -1)
      ensures forall t | 0 <= t < |available| :: 0 <= available[t] < N
    {
      ghost var row := Rows()[week];
      available := [];
      for i := 0 to N
        invariant Ascending(available)
        invariant forall t | 0 <= t < |available| :: 0 <= available[t] < i
        invariant forall x :: x in available <==> 0 <= x < i && row[x] == -1
      {
        if solution[week, i] == -1 {
          available := available + [i];
        }
      }
    }

    /** No pair within the group has been marked, checked for each pair of positions i < j. */
    method IsValidGroup(group: seq<int>) returns (valid: bool)
      requires Shaped() && forall t | 0 <= t < |group| :: 0 <= group[t] < N
      ensures valid <==> forall i, j | 0 <= i < j < |group| :: !pairUsed[group[i], group[j]]
    {
      for i := 0 to |group|
        invariant forall i', j | 0 <= i' < i && i' < j < |group| :: !pairUsed[group[i'], group[j]]
      {
        for j := i + 1 to |group|
          invariant forall j' | i < j' < j :: !pairUsed[group[i], group[j']]
        {
          if pairUsed[group[i], group[j]] {
            return false;
          }
        }
      }
      return true;
    }

    /**
     * One candidate group: its players take id groupsFormed, its pairs are marked, the week goes
     * on with one group more, and on failure the group is taken back.
     */
    method TryGroup(week: nat, group: seq<int>, groupsFormed: nat) returns (ok: bool)
      requires Shaped() && week < W && groupsFormed < G
      requires Forming(Rows()[..week + 1], Pairs(), P, G, groupsFormed)
      requires |group| == P && Ascending(group) && Free(Rows()[week], Elems(group))
      requires forall t | 0 <= t < |group| :: 0 <= group[t] < N
      requires forall i, j | 0 <= i < j < |group| :: !pairUsed[group[i], group[j]]
      modifies solution, pairUsed
      ensures ok ==> Finished(Rows(), Pairs(), P, G)
      ensures !ok ==> Pairs() == old(Pairs()) && Rows()[..week + 1] == old(Rows()[..week + 1])
      decreases W - week, G - groupsFormed, 0
    {
      ghost var hist := Rows()[..week + 1];
      ghost var pairs := Pairs();
      PlaceGroup(week, group, groupsFormed);
      ok := AssignGroupsForWeek(week, 0, groupsFormed + 1);
      if ok {
        return;
      }
      TakeBack(week, group, groupsFormed, hist, pairs);
    }

    /** Gives the group's players id groupsFormed and marks its pairs. */
    method PlaceGroup(week: nat, group: seq<int>, groupsFormed: nat)
      requires Shaped() && week < W && groupsFormed < G
      requires Forming(Rows()[..week + 1], Pairs(), P, G, groupsFormed)
      requires |group| == P && Ascending(group) && Free(Rows()[week], Elems(group))
      requires forall t | 0 <= t < |group| :: 0 <= group[t] < N
      requires forall i, j | 0 <= i < j < |group| :: !pairUsed[group[i], group[j]]
      modifies solution, pairUsed
      ensures Rows()[..week + 1] == old(Rows()[..week + 1])[week := Place(old(Rows()[week]), Elems(group), groupsFormed)]
      ensures Pairs() == Mark(old(Pairs()), N, Elems(group), true)
      ensures Forming(Rows()[..week + 1], Pairs(), P, G, groupsFormed + 1)
    {
      ghost var hist := Rows()[..week + 1];
      ghost var pairs := Pairs();
      ghost var S := Elems(group);
      ElemsCount(group);
      assert hist[week] == Rows()[week];
      ValidUnmet(group, pairs);
      FormKeeps(hist, pairs, P, G, groupsFormed, S);
      SetIds(week, group, groupsFormed);
      assert Rows()[..week + 1] == hist[week := Place(hist[week], S, groupsFormed)];
      MarkPairs(group, true);
    }

    /** Takes a placed group back: its players return to -1 and its pairs to unmarked. */
    method TakeBack(week: nat, group: seq<int>, ghost gid: int,
                    ghost hist: seq<seq<int>>, ghost pairs: seq<seq<bool>>)
      requires Shaped() && week < W && Ascending(group) && forall t | 0 <= t < |group| :: 0 <= group[t] < N
      requires |hist| == week + 1 && Free(hist[week], Elems(group)) && Square(pairs, N)
      requires forall x, y | x in Elems(group) && y in Elems(group) && x != y && 0 <= x < N && 0 <= y < N ::
        !pairs[x][y]
      requires Rows()[..week + 1] == hist[week := Place(hist[week], Elems(group), gid)]
      requires Pairs() == Mark(pairs, N, Elems(group), true)
      modifies solution, pairUsed
      ensures Rows()[..week + 1] == hist && Pairs() == pairs
    {
      MarkClear(pairs, N, Elems(group));
      RestoreWeek(Rows(), hist, week, Elems(group), gid);
      SetIds(week, group, -1);
      MarkPairs(group, false);
    }

    /** Writes id into the week's entry of every player of the group; nothing else changes. */
    method SetIds(week: nat, group: seq<int>, id: int)
      requires Shaped() && week < W && forall t | 0 <= t < |group| :: 0 <= group[t] < N
      modifies solution
      ensures Rows() == old(Rows())[week := Place(old(Rows()[week]), Elems(group), id)]
    {
      ghost var rows := Rows();
      for t := 0 to |group|
        invariant forall v, i | 0 <= v < W && 0 <= i < N ::
          solution[v, i] == if v == week && i in group[..t] then id else rows[v][i]
      {
        assert group[..t + 1] == group[..t] + [group[t]];
        solution[week, group[t]] := id;
      }
      assert group[..|group|] == group;
      ghost var rows' := rows[week := Place(rows[week], Elems(group), id)];
      forall v | 0 <= v < W
        ensures Rows()[v] == rows'[v]
      {
      }
    }

    /**
     * Sets both directions of every pair of positions i < j of the group to value; for a group
     * without repeats that is every pair of its different players.
     */
    method MarkPairs(group: seq<int>, value: bool)
      requires Shaped() && Ascending(group) && forall t | 0 <= t < |group| :: 0 <= group[t] < N
      modifies pairUsed
      ensures Pairs() == Mark(old(Pairs()), N, Elems(group), value)
    {
      ghost var pairs := Pairs();
      for i := 0 to |group|
        invariant forall x, y | 0 <= x < N && 0 <= y < N ::
          pairUsed[x, y] == if Prefixed(group, i, x, y) then value else pairs[x][y]
      {
        forall x, y | 0 <= x < N && 0 <= y < N {
          PartwayStart(group, i, x, y);
        }
        for j := i + 1 to |group|
          invariant forall x, y | 0 <= x < N && 0 <= y < N ::
            pairUsed[x, y] == if Partway(group, i, j, x, y) then value else pairs[x][y]
        {
          forall x, y | 0 <= x < N && 0 <= y < N {
            PartwayStep(group, i, j, x, y);
          }
          pairUsed[group[i], group[j]] := value;
          pairUsed[group[j], group[i]] := value;
        }
        forall x, y | 0 <= x < N && 0 <= y < N {
          PartwayDone(group, i, x, y);
        }
      }
      assert group[..|group|] == group;
      ghost var pairs' := Mark(pairs, N, Elems(group), value);
      forall x | 0 <= x < N
        ensures Pairs()[x] == pairs'[x]
      {
        forall y | 0 <= y < N
          ensures Pairs()[x][y] == pairs'[x][y]
        {
        }
      }
    }
  }

  /**
   * A combination of k positions of the ascending list of a row's unplaced players selects k
   * unplaced players in ascending order.
   */
  lemma Candidate(available: seq<int>, c: seq<int>, k: nat, row: seq<int>)
    requires Ascending(available) && Elems(available) == Members(row, -1)
    requires Increasing(c, k, |available|)
    ensures |Select(available, c)| == k && Ascending(Select(available, c))
    ensures Free(row, Elems(Select(available, c)))
    ensures forall t | 0 <= t < k :: 0 <= Select(available, c)[t] < |row|
  {
    SelectIncreasing(available, c, k);
    var group := Select(available, c);
    forall t | 0 <= t < k
      ensures group[t] in Members(row, -1)
    {
      assert group[t] == available[c[t]];
      assert available[c[t]] in Elems(available);
    }
  }

  /**
   * A group none of whose position pairs i < j is marked, in a symmetric matrix, has no marked
   * pair of different players at all.
   */
  lemma ValidUnmet(group: seq<int>, pairs: seq<seq<bool>>)
    requires Square(pairs, |pairs|) && forall t | 0 <= t < |group| :: 0 <= group[t] < |pairs|
    requires forall i, j | 0 <= i < j < |group| :: !pairs[group[i]][group[j]]
    requires forall a, b | 0 <= a < |pairs| && 0 <= b < |pairs| :: pairs[a][b] == pairs[b][a]
    ensures forall x, y | x in Elems(group) && y in Elems(group) && x != y :: !pairs[x][y]
  {
    forall x, y | x in Elems(group) && y in Elems(group) && x != y
      ensures !pairs[x][y]
    {
      var i :| 0 <= i < |group| && group[i] == x;
      var j :| 0 <= j < |group| && group[j] == y;
      if i > j {
        assert !pairs[group[j]][group[i]];
      }
    }
  }
}

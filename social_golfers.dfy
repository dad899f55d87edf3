/**
 * Social golfers, 32 players in 8 groups of 4, scheduled week by week. A week is filled by
 * taking the first unplaced player as anchor and trying every three later unplaced players with
 * it; a group is placed only when none of its six pairs has met before, under the smallest group
 * id not yet used that week. A failed attempt is taken back before the next one is tried.
 */
module SocialGolfers {
  import opened GolfSchedule

  /** The number of weeks to schedule. */
  const W := 5
  const N := 32
  const P := 4
  const G := N / P

  /**
   * A week being filled: ids below G, every group complete (P members) or empty, and every
   * player before start already placed.
   */
  predicate Partial(row: seq<int>, start: int) {
    |row| == N && IdsBelow(row, G)
    && (forall v | 0 <= v < G :: |Members(row, v)| == 0 || |Members(row, v)| == P)
    && forall i | 0 <= i < start && i < N :: row[i] != -1
  }

  /** Finished weeks and a last week being filled from player start. */
  ghost predicate WeekReady(hist: seq<seq<int>>, pairs: seq<seq<bool>>, start: int) {
    |hist| >= 1 && Square(pairs, N)
    && (forall v | 0 <= v < |hist| - 1 :: Partition(hist[v], P, G))
    && Partial(hist[|hist| - 1], start)
    && NoRepeat(hist)
    && PairsMatch(pairs, hist, N)
  }

  /** A week with an unplaced player still has a group id without members. */
  lemma FreeId(row: seq<int>, i: int)
    requires Partial(row, 0) && 0 <= i < N && row[i] == -1
    ensures exists v | 0 <= v < G :: |Members(row, v)| == 0
  {
    assert i in Members(row, -1);
    if forall v | 0 <= v < G :: |Members(row, v)| > 0 {
      AllUsed(row, G);
      UsedSum(row, P, G);
      Total(row, G);
      assert false;
    }
  }

  /** A week with every player placed is a partition into G groups of P. */
  lemma RowComplete(row: seq<int>)
    requires Partial(row, N)
    ensures Partition(row, P, G)
  {
    assert Members(row, -1) == {};
    Total(row, G);
    UsedSum(row, P, G);
    AllUsed(row, G);
  }

  /** Opening an empty week after finished ones gives a week ready to fill from player 0. */
  lemma StartWeek(hist: seq<seq<int>>, pairs: seq<seq<bool>>)
    requires Finished(hist, pairs, P, G)
    ensures WeekReady(hist + [Unplaced(N)], pairs, 0)
  {
    AddEmptyWeek(pairs, hist, N);
    var h := hist + [Unplaced(N)];
    forall v | 0 <= v < |h| - 1
      ensures Partition(h[v], P, G)
    {
      assert h[v] == hist[v];
    }
    forall v | 0 <= v < G
      ensures |Members(Unplaced(N), v)| == 0
    {
      assert Members(Unplaced(N), v) == {};
    }
  }

  /** A week filled to the last player closes: all the weeks are finished. */
  lemma FinishWeek(hist: seq<seq<int>>, pairs: seq<seq<bool>>)
    requires WeekReady(hist, pairs, N)
    ensures Finished(hist, pairs, P, G)
  {
    RowComplete(hist[|hist| - 1]);
  }

  /** The four players of a new group, all different and in range. */
  predicate Quad(a: int, j: int, k: int, m: int) {
    0 <= a < j < k < m < N
  }

  /** In a symmetric matrix, the six pairs of a group clear means every pair of the group clear. */
  lemma QuadClear(pairs: seq<seq<bool>>, a: int, j: int, k: int, m: int)
    requires Square(pairs, N) && Quad(a, j, k, m)
    requires !pairs[a][j] && !pairs[a][k] && !pairs[a][m] && !pairs[j][k] && !pairs[j][m] && !pairs[k][m]
    requires forall x, y | 0 <= x < N && 0 <= y < N :: pairs[x][y] == pairs[y][x]
    ensures forall x, y | x in {a, j, k, m} && y in {a, j, k, m} && x != y :: !pairs[x][y]
  {
  }

  /**
   * Placing a group whose six pairs have not met, under an unused id, keeps the week ready past
   * the anchor once the group's pairs are marked: the new id has exactly P members, the matrix
   * still marks exactly the pairs that have met and no pair has met twice.
   */
  lemma PlaceKeeps(hist: seq<seq<int>>, pairs: seq<seq<bool>>, a: int, j: int, k: int, m: int, gid: int)
    requires WeekReady(hist, pairs, a) && Quad(a, j, k, m) && 0 <= gid < G
    requires |Members(hist[|hist| - 1], gid)| == 0
    requires var row := hist[|hist| - 1]; row[a] == -1 && row[j] == -1 && row[k] == -1 && row[m] == -1
    requires !pairs[a][j] && !pairs[a][k] && !pairs[a][m] && !pairs[j][k] && !pairs[j][m] && !pairs[k][m]
    ensures WeekReady(hist[|hist| - 1 := Place(hist[|hist| - 1], {a, j, k, m}, gid)],
                      Mark(pairs, N, {a, j, k, m}, true), a + 1)
  {
    var w := |hist| - 1;
    var row := hist[w];
    var S := {a, j, k, m};
    var hist' := hist[w := Place(row, S, gid)];
    PlaceFacts(row, S, gid);
    assert |S| == P;
    MatchSymmetric(pairs, hist, N);
    forall x, y | x in S && y in S && x != y
      ensures !Met(hist, x, y)
    {
      assert !pairs[x][y];
    }
    PlaceMatch(hist, pairs, N, S, gid);
    PlaceNoRepeat(hist, S, gid);
    forall v | 0 <= v < w
      ensures Partition(hist'[v], P, G)
    {
      assert hist'[v] == hist[v];
    }
  }

  // ---- The solver ----

  class GolferSolver {
    const pairUsed: array2<bool>
    const solution: array2<int>

    /** The pair matrix is N × N and the schedule has W weeks of N players. */
    predicate Shaped()
      reads this
    {
      pairUsed.Length0 == N && pairUsed.Length1 == N && solution.Length0 == W && solution.Length1 == N
    }

    /** The schedule as a value, one row per week. */
    ghost function Rows(): (rows: seq<seq<int>>)
      requires Shaped()
      reads this, solution
      ensures |rows| == W && forall v | 0 <= v < W :: |rows[v]| == N
      ensures forall v, i | 0 <= v < W && 0 <= i < N :: rows[v][i] == solution[v, i]
    {
      seq(W, v requires 0 <= v < W reads solution => seq(N, i requires 0 <= i < N reads solution => solution[v, i]))
    }

    /** The pair matrix as a value. */
    ghost function Pairs(): (pairs: seq<seq<bool>>)
      requires Shaped()
      reads this, pairUsed
      ensures Square(pairs, N)
      ensures forall a, b | 0 <= a < N && 0 <= b < N :: pairs[a][b] == pairUsed[a, b]
    {
      seq(N, a requires 0 <= a < N reads pairUsed => seq(N, b requires 0 <= b < N reads pairUsed => pairUsed[a, b]))
    }

    /** Both tables as the program allocates them: no pair marked, every entry 0. */
    constructor ()
      ensures Shaped()
      ensures forall a, b | 0 <= a < N && 0 <= b < N :: !Pairs()[a][b]
    {
      pairUsed := new bool[N, N]((a, b) => false);
      solution := new int[W, N]((v, i) => 0);
    }

    /**
     * Schedules weeks week..W-1 after the finished weeks before it. Success leaves W finished
     * weeks; a failure leaves the pair matrix and the earlier weeks as they were.
     */
    method ScheduleWeek(week: nat) returns (ok: bool)
      requires Shaped() && week <= W && Finished(Rows()[..week], Pairs(), P, G)
      modifies solution, pairUsed
      ensures week == W ==> ok
      ensures ok ==> Finished(Rows(), Pairs(), P, G)
      ensures !ok ==> Pairs() == old(Pairs()) && Rows()[..week] == old(Rows()[..week])
      decreases W - week, N + 1, 0
    {
      if week == W {
        assert Rows()[..week] == Rows();
        return true;
      }
      ghost var before := Rows();
      for i := 0 to N
        invariant Pairs() == old(Pairs())
        invariant forall v | 0 <= v < W && v != week :: Rows()[v] == before[v]
        invariant forall i' | 0 <= i' < i :: solution[week, i'] == -1
      {
        solution[week, i] := -1;
      }
      assert Rows()[week] == Unplaced(N);
      assert Rows()[..week] == before[..week];
      assert Rows()[..week + 1] == before[..week] + [Unplaced(N)];
      StartWeek(before[..week], Pairs());
      ok := AssignGroupsForWeek(week, 0);
    }

    /**
     * Goes on with week `week` from player startIndex: the first unplaced player from there on
     * anchors a group with three later unplaced players; with none left, the next week starts.
     * Success leaves W finished weeks; a failure leaves the pair matrix and the weeks up to
     * this one as they were.
     */
    method AssignGroupsForWeek(week: nat, startIndex: int) returns (ok: bool)
      requires Shaped() && week < W && 0 <= startIndex <= N
      requires WeekReady(Rows()[..week + 1], Pairs(), startIndex)
      modifies solution, pairUsed
      ensures ok ==> Finished(Rows(), Pairs(), P, G)
      ensures !ok ==> Pairs() == old(Pairs()) && Rows()[..week + 1] == old(Rows()[..week + 1])
      decreases W - week, N - startIndex, 1
    {
      ghost var hist := Rows()[..week + 1];
      var anchor := FirstUnplaced(week, startIndex);
      if anchor == -1 {
        assert hist[week] == Rows()[week];
        assert Partial(hist[week], N);
        FinishWeek(hist, Pairs());
        ok := ScheduleWeek(week + 1);
        return;
      }
      assert WeekReady(hist, Pairs(), anchor);
      for j := anchor + 1 to N
        invariant Pairs() == old(Pairs()) && Rows()[..week + 1] == hist
      {
        if solution[week, j] != -1 {
          continue;
        }
        for k := j + 1 to N
          invariant Pairs() == old(Pairs()) && Rows()[..week + 1] == hist
          invariant solution[week, j] == -1
        {
          if solution[week, k] != -1 {
            continue;
          }
          for m := k + 1 to N
            invariant Pairs() == old(Pairs()) && Rows()[..week + 1] == hist
            invariant solution[week, j] == -1 && solution[week, k] == -1
          {
            if solution[week, m] != -1 {
              continue;
            }
            ok := TryGroup(week, anchor, j, k, m);
            if ok {
              return;
            }
          }
        }
      }
      ok := false;
    }

    /**
     * The first unplaced player of the week at or after startIndex, or -1 when there is none.
     */
    method FirstUnplaced(week: nat, startIndex: int) returns (anchor: int)
      requires Shaped() && week < W && 0 <= startIndex <= N
      ensures anchor == -1 ==> forall i | startIndex <= i < N :: Rows()[week][i] != -1
      ensures anchor != -1 ==> startIndex <= anchor < N && Rows()[week][anchor] == -1
                               && forall i | startIndex <= i < anchor :: Rows()[week][i] != -1
    {
      anchor := -1;
      for i := startIndex to N
        invariant forall i' | startIndex <= i' < i :: solution[week, i'] != -1
      {
        if solution[week, i] == -1 {
          anchor := i;
          return;
        }
      }
    }

    /**
     * One candidate group: when none of its pairs has met, it is placed under the smallest
     * unused id, the week goes on past the anchor, and on failure the group is taken back.
     */
    method TryGroup(week: nat, anchor: int, j: int, k: int, m: int) returns (ok: bool)
      requires Shaped() && week < W && Quad(anchor, j, k, m)
      requires WeekReady(Rows()[..week + 1], Pairs(), anchor)
      requires solution[week, anchor] == -1 && solution[week, j] == -1
      requires solution[week, k] == -1 && solution[week, m] == -1
      modifies solution, pairUsed
      ensures ok ==> Finished(Rows(), Pairs(), P, G)
      ensures !ok ==> Pairs() == old(Pairs()) && Rows()[..week + 1] == old(Rows()[..week + 1])
      decreases W - week, N - anchor, 0
    {
      if pairUsed[anchor, j] || pairUsed[anchor, k] || pairUsed[anchor, m] ||
         pairUsed[j, k] || pairUsed[j, m] || pairUsed[k, m] {
        return false;
      }
      ghost var hist := Rows()[..week + 1];
      ghost var pairs := Pairs();
      var groupId := PlaceGroup(week, anchor, j, k, m);
      ok := AssignGroupsForWeek(week, anchor + 1);
      if ok {
        return;
      }
      TakeBack(week, anchor, j, k, m, groupId, hist, pairs);
    }

    /**
     * Places a group whose six pairs have not met under the smallest unused id of the week and
     * marks its pairs; the week is then ready to go on past the anchor.
     */
    method PlaceGroup(week: nat, anchor: int, j: int, k: int, m: int) returns (groupId: int)
      requires Shaped() && week < W && Quad(anchor, j, k, m)
      requires WeekReady(Rows()[..week + 1], Pairs(), anchor)
      requires solution[week, anchor] == -1 && solution[week, j] == -1
      requires solution[week, k] == -1 && solution[week, m] == -1
      requires !pairUsed[anchor, j] && !pairUsed[anchor, k] && !pairUsed[anchor, m]
      requires !pairUsed[j, k] && !pairUsed[j, m] && !pairUsed[k, m]
      modifies solution, pairUsed
      ensures 0 <= groupId < G
      ensures Rows()[..week + 1] == old(Rows()[..week + 1])[week := Place(old(Rows()[week]), {anchor, j, k, m}, groupId)]
      ensures Pairs() == Mark(old(Pairs()), N, {anchor, j, k, m}, true)
      ensures WeekReady(Rows()[..week + 1], Pairs(), anchor + 1)
    {
      ghost var hist := Rows()[..week + 1];
      ghost var pairs := Pairs();
      ghost var row := hist[week];
      groupId := SmallestFreeId(week);
      assert row == Rows()[week];
      FreeId(row, anchor);
      assert groupId < G;
      assert row[anchor] == -1 && row[j] == -1 && row[k] == -1 && row[m] == -1;
      assert !pairs[anchor][j] && !pairs[anchor][k] && !pairs[anchor][m];
      assert !pairs[j][k] && !pairs[j][m] && !pairs[k][m];
      PlaceKeeps(hist, pairs, anchor, j, k, m, groupId);
      ghost var hist' := hist[week := Place(row, {anchor, j, k, m}, groupId)];
      SetGroup(week, anchor, j, k, m, groupId, true);
      assert Rows()[..week + 1] == hist';
    }

    /**
     * Takes a placed group back: its four entries return to -1 and its pairs to unmarked, which
     * restores the weeks up to this one and the pair matrix from before the group was placed.
     */
    method TakeBack(week: nat, a: int, j: int, k: int, m: int, ghost gid: int,
                    ghost hist: seq<seq<int>>, ghost pairs: seq<seq<bool>>)
      requires Shaped() && week < W && Quad(a, j, k, m)
      requires |hist| == week + 1 && |hist[week]| == N && Square(pairs, N)
      requires hist[week][a] == -1 && hist[week][j] == -1 && hist[week][k] == -1 && hist[week][m] == -1
      requires !pairs[a][j] && !pairs[a][k] && !pairs[a][m] && !pairs[j][k] && !pairs[j][m] && !pairs[k][m]
      requires forall a, b | 0 <= a < N && 0 <= b < N :: pairs[a][b] == pairs[b][a]
      requires Rows()[..week + 1] == hist[week := Place(hist[week], {a, j, k, m}, gid)]
      requires Pairs() == Mark(pairs, N, {a, j, k, m}, true)
      modifies solution, pairUsed
      ensures Rows()[..week + 1] == hist && Pairs() == pairs
    {
      QuadClear(pairs, a, j, k, m);
      MarkClear(pairs, N, {a, j, k, m});
      RestoreWeek(Rows(), hist, week, {a, j, k, m}, gid);
      SetGroup(week, a, j, k, m, -1, false);
    }

    /**
     * The smallest group id with no member in the week, or G when every id has one. Entries
     * of the week must be -1 or ids below G.
     */
    method SmallestFreeId(week: nat) returns (groupId: int)
      requires Shaped() && week < W && IdsBelow(Rows()[week], G)
      ensures 0 <= groupId <= G
      ensures forall v | 0 <= v < groupId :: |Members(Rows()[week], v)| > 0
      ensures groupId < G ==> |Members(Rows()[week], groupId)| == 0
    {
      ghost var row := Rows()[week];
      var usedGroupIds := new bool[G];
      forall v | 0 <= v < G {
        usedGroupIds[v] := false;
      }
      for i := 0 to N
        invariant forall v | 0 <= v < G :: usedGroupIds[v] <==> exists i' | 0 <= i' < i :: row[i'] == v
      {
        if solution[week, i] != -1 {
          usedGroupIds[solution[week, i]] := true;
        }
      }
      groupId := 0;
      while groupId < G && usedGroupIds[groupId]
        invariant 0 <= groupId <= G
        invariant forall v | 0 <= v < groupId :: usedGroupIds[v]
        invariant forall v | 0 <= v < G :: usedGroupIds[v] <==> exists i' | 0 <= i' < N :: row[i'] == v
      {
        groupId := groupId + 1;
      }
      forall v | 0 <= v < groupId
        ensures |Members(row, v)| > 0
      {
        assert usedGroupIds[v];
        var i' :| 0 <= i' < N && row[i'] == v;
        assert i' in Members(row, v);
      }
    }

    /**
     * Writes id into the four players' entries of the week and sets the group's six pairs, in
     * both directions, to mark; nothing else changes.
     */
    method SetGroup(week: nat, a: int, j: int, k: int, m: int, id: int, mark: bool)
      requires Shaped() && week < W && Quad(a, j, k, m)
      modifies solution, pairUsed
      ensures Rows() == old(Rows())[week := Place(old(Rows())[week], {a, j, k, m}, id)]
      ensures Pairs() == Mark(old(Pairs()), N, {a, j, k, m}, mark)
    {
      SetIds(week, a, j, k, m, id);
      MarkPairs(a, j, k, m, mark);
    }

    /** Writes id into the four players' entries of the week. */
    method SetIds(week: nat, a: int, j: int, k: int, m: int, id: int)
      requires Shaped() && week < W && Quad(a, j, k, m)
      modifies solution
      ensures Rows() == old(Rows())[week := Place(old(Rows())[week], {a, j, k, m}, id)]
    {
      ghost var rows := Rows();
      solution[week, a] := id;
      solution[week, j] := id;
      solution[week, k] := id;
      solution[week, m] := id;
      ghost var rows' := rows[week := Place(rows[week], {a, j, k, m}, id)];
      forall v | 0 <= v < W
        ensures Rows()[v] == rows'[v]
      {
      }
    }

    /** Sets the group's six pairs, in both directions, to mark. */
    method MarkPairs(a: int, j: int, k: int, m: int, mark: bool)
      requires Shaped() && Quad(a, j, k, m)
      modifies pairUsed
      ensures Pairs() == Mark(old(Pairs()), N, {a, j, k, m}, mark)
    {
      ghost var pairs := Pairs();
      MarkPair(a, j, mark);
      MarkPair(a, k, mark);
      MarkPair(a, m, mark);
      MarkPair(j, k, mark);
      MarkPair(j, m, mark);
      MarkPair(k, m, mark);
      ghost var pairs' := Mark(pairs, N, {a, j, k, m}, mark);
      forall x | 0 <= x < N
        ensures Pairs()[x] == pairs'[x]
      {
        forall y | 0 <= y < N
          ensures Pairs()[x][y] == pairs'[x][y]
        {
        }
      }
    }

    /** Sets the pair x, y in both directions to mark. */
    method MarkPair(x: int, y: int, mark: bool)
      requires Shaped() && 0 <= x < N && 0 <= y < N
      modifies pairUsed
      ensures forall a, b | 0 <= a < N && 0 <= b < N ::
        pairUsed[a, b] == if (a == x && b == y) || (a == y && b == x) then mark else old(pairUsed[a, b])
    {
      pairUsed[x, y] := mark;
      pairUsed[y, x] := mark;
    }
  }
}

/**
 * The k-combinations of a list in lexicographic order of their positions. An array of k
 * increasing positions starts at 0, 1, ..., k-1; after each combination the rightmost position
 * that can still move is advanced by one and every position to its right is reset to follow it
 * directly. The combination at the top, n-k, ..., n-1, is the last.
 */
module KCombinations {

  /** c is a strictly increasing sequence of k positions below n. */
  predicate Increasing(c: seq<int>, k: nat, n: nat) {
    |c| == k && (forall i | 0 <= i < k :: 0 <= c[i] < n) && forall i, j | 0 <= i < j < k :: c[i] < c[j]
  }

  /** a comes strictly before b in lexicographic order: they agree up to d and a[d] < b[d]. */
  ghost predicate LexLess(a: seq<int>, b: seq<int>) {
    |a| == |b| && exists d | 0 <= d < |a| :: a[..d] == b[..d] && a[d] < b[d]
  }

  /** The entries of list at positions c, in the order of c. */
  function Select(list: seq<int>, c: seq<int>): (r: seq<int>)
    requires forall i | 0 <= i < |c| :: 0 <= c[i] < |list|
    ensures |r| == |c|
  {
    seq(|c|, i requires 0 <= i < |c| => list[c[i]])
  }

  /** Selecting increasing positions of a strictly increasing list gives a strictly increasing list. */
  lemma SelectIncreasing(list: seq<int>, c: seq<int>, k: nat)
    requires Increasing(c, k, |list|)
    requires forall i, j | 0 <= i < j < |list| :: list[i] < list[j]
    ensures forall i, j | 0 <= i < j < k :: Select(list, c)[i] < Select(list, c)[j]
  {
  }

  /** The first combination, positions 0, ..., k-1. */
  function Least(k: nat): (c: seq<int>)
    ensures |c| == k
  {
    seq(k, t => t)
  }

  /**
   * The successor of cur when i is the rightmost position that can still move: cur up to i,
   * then cur[i] + 1, cur[i] + 2, ... .
   */
  function Next(cur: seq<int>, i: nat): (c: seq<int>)
    requires i < |cur|
    ensures |c| == |cur|
  {
    seq(|cur|, t requires 0 <= t < |cur| => if t < i then cur[t] else cur[i] + 1 + (t - i))
  }

  // ---- Lexicographic order ----

  lemma LexTrans(a: seq<int>, b: seq<int>, c: seq<int>)
    requires LexLess(a, b) && LexLess(b, c)
    ensures LexLess(a, c)
  {
    var d1 :| 0 <= d1 < |a| && a[..d1] == b[..d1] && a[d1] < b[d1];
    var d2 :| 0 <= d2 < |b| && b[..d2] == c[..d2] && b[d2] < c[d2];
    var d := if d1 < d2 then d1 else d2;
    assert a[..d] == a[..d1][..d] && b[..d] == b[..d2][..d];
    assert a[..d] == c[..d];
    if d1 < d2 {
      assert b[d1] == b[..d2][d1];
    } else if d2 < d1 {
      assert a[d2] == a[..d1][d2];
    }
  }

  lemma LexAsym(a: seq<int>, b: seq<int>)
    requires LexLess(a, b)
    ensures !LexLess(b, a) && a != b
  {
    var d1 :| 0 <= d1 < |a| && a[..d1] == b[..d1] && a[d1] < b[d1];
    forall d2 | 0 <= d2 < d1
      ensures a[d2] == b[d2]
    {
      assert a[d2] == a[..d1][d2] && b[d2] == b[..d1][d2];
    }
  }

  /** Two sequences of the same length are equal or ordered one way or the other. */
  lemma {:induction false} LexTotal(a: seq<int>, b: seq<int>)
    requires |a| == |b|
    ensures a == b || LexLess(a, b) || LexLess(b, a)
    decreases |a|
  {
    if |a| > 0 && a != b {
      if a[0] != b[0] {
        assert a[..0] == b[..0];
      } else {
        LexTotal(a[1..], b[1..]);
        if LexLess(a[1..], b[1..]) {
          var d :| 0 <= d < |a| - 1 && a[1..][..d] == b[1..][..d] && a[1..][d] < b[1..][d];
          assert a[..d + 1] == [a[0]] + a[1..][..d] && b[..d + 1] == [b[0]] + b[1..][..d];
        } else {
          var d :| 0 <= d < |a| - 1 && b[1..][..d] == a[1..][..d] && b[1..][d] < a[1..][d];
          assert a[..d + 1] == [a[0]] + a[1..][..d] && b[..d + 1] == [b[0]] + b[1..][..d];
        }
      }
    }
  }

  // ---- The first, the successor and the last ----

  /** Position t of an increasing combination is at least t and at most n - k + t. */
  lemma Bounds(c: seq<int>, k: nat, n: nat)
    requires Increasing(c, k, n)
    ensures forall t | 0 <= t < k :: t <= c[t] <= n - k + t
  {
    forall t | 0 <= t < k
      ensures t <= c[t] <= n - k + t
    {
      LowerBound(c, k, n, t);
      UpperBound(c, k, n, t);
    }
  }

  lemma {:induction false} LowerBound(c: seq<int>, k: nat, n: nat, t: nat)
    requires Increasing(c, k, n) && t < k
    ensures t <= c[t]
  {
    if t > 0 {
      LowerBound(c, k, n, t - 1);
    }
  }

  lemma {:induction false} UpperBound(c: seq<int>, k: nat, n: nat, t: nat)
    requires Increasing(c, k, n) && t < k
    ensures c[t] <= n - k + t
    decreases k - t
  {
    if t < k - 1 {
      UpperBound(c, k, n, t + 1);
    }
  }

  /** No increasing combination comes before the first one. */
  lemma LeastIsFirst(c: seq<int>, k: nat, n: nat)
    requires Increasing(c, k, n)
    ensures !LexLess(c, Least(k))
  {
    Bounds(c, k, n);
  }

  /** With every position at its top, no increasing combination comes after cur. */
  lemma TopIsLast(cur: seq<int>, c: seq<int>, k: nat, n: nat)
    requires |cur| == k && forall t | 0 <= t < k :: cur[t] == n - k + t
    requires Increasing(c, k, n)
    ensures !LexLess(cur, c)
  {
    Bounds(c, k, n);
  }

  /** The successor is an increasing combination that comes after cur. */
  lemma NextAfter(cur: seq<int>, i: nat, k: nat, n: nat)
    requires Increasing(cur, k, n) && i < k && cur[i] < n - k + i
    ensures Increasing(Next(cur, i), k, n) && LexLess(cur, Next(cur, i))
  {
    assert Next(cur, i)[..i] == cur[..i];
  }

  /**
   * Nothing lies strictly between cur and its successor: when i is the rightmost position below
   * its top, every increasing combination after cur is the successor or comes after it.
   */
  lemma NextIsSuccessor(cur: seq<int>, i: nat, c: seq<int>, k: nat, n: nat)
    requires Increasing(cur, k, n) && i < k && cur[i] < n - k + i
    requires forall t | i < t < k :: cur[t] == n - k + t
    requires Increasing(c, k, n) && LexLess(cur, c)
    ensures c == Next(cur, i) || LexLess(Next(cur, i), c)
  {
    var nx := Next(cur, i);
    var d :| 0 <= d < k && cur[..d] == c[..d] && cur[d] < c[d];
    Bounds(c, k, n);
    assert d <= i;
    assert nx[..d] == c[..d] by {
      forall t | 0 <= t < d
        ensures nx[t] == c[t]
      {
        assert cur[t] == cur[..d][t] && c[t] == c[..d][t];
      }
    }
    if d == i {
      forall t | i <= t < k
        ensures nx[t] <= c[t]
      {
        SpreadBelow(c, k, n, i, t);
      }
      if c != nx {
        LexTotal(c, nx);
        assert !LexLess(c, nx);
      }
    }
  }

  /** In an increasing combination, position t is at least c[i] + (t - i). */
  lemma {:induction false} SpreadBelow(c: seq<int>, k: nat, n: nat, i: nat, t: nat)
    requires Increasing(c, k, n) && i <= t < k
    ensures c[i] + (t - i) <= c[t]
  {
    if t > i {
      SpreadBelow(c, k, n, i, t - 1);
    }
  }

  // ---- A measure for termination ----

  /** x added p times. */
  function Scale(x: int, p: int): int
    decreases p
  {
    if p <= 0 then 0 else x + Scale(x, p - 1)
  }

  function Pow(b: nat, e: nat): int {
    if e == 0 then 1 else Scale(b, Pow(b, e - 1))
  }

  lemma {:induction false} ScaleFacts(x: int, y: int, p: nat)
    requires x <= y
    decreases p
    ensures Scale(x, p) <= Scale(y, p)
    ensures Scale(x + 1, p) == Scale(x, p) + p
    ensures 0 <= x ==> 0 <= Scale(x, p)
  {
    if p > 0 {
      ScaleFacts(x, y, p - 1);
    }
  }

  lemma {:induction false} PowPositive(b: nat, e: nat)
    requires b > 0
    ensures Pow(b, e) > 0
  {
    if e > 0 {
      PowPositive(b, e - 1);
      ScaleFacts(1, b, Pow(b, e - 1));
      ScaleFacts(0, 0, Pow(b, e - 1));
    }
  }

  /** The positions of c read as the digits of a number in base b, most significant first. */
  function Num(c: seq<int>, b: nat): int {
    if |c| == 0 then 0 else Scale(c[0], Pow(b, |c| - 1)) + Num(c[1..], b)
  }

  lemma {:induction false} NumBound(c: seq<int>, b: nat)
    requires forall t | 0 <= t < |c| :: 0 <= c[t] < b
    ensures 0 <= Num(c, b) < Pow(b, |c|)
  {
    if |c| > 0 {
      assert 0 <= c[0] < b;
      NumBound(c[1..], b);
      PowPositive(b, |c| - 1);
      ScaleFacts(c[0], b - 1, Pow(b, |c| - 1));
      ScaleFacts(b - 1, b - 1, Pow(b, |c| - 1));
    }
  }

  /** A lexicographically smaller combination reads as a smaller number. */
  lemma {:induction false} NumLess(a: seq<int>, c: seq<int>, b: nat)
    requires LexLess(a, c)
    requires forall t | 0 <= t < |a| :: 0 <= a[t] < b
    requires forall t | 0 <= t < |c| :: 0 <= c[t] < b
    ensures Num(a, b) < Num(c, b)
    decreases |a|
  {
    var d :| 0 <= d < |a| && a[..d] == c[..d] && a[d] < c[d];
    if d == 0 {
      var x := Pow(b, |a| - 1);
      PowPositive(b, |a| - 1);
      NumBound(a[1..], b);
      NumBound(c[1..], b);
      ScaleFacts(a[0], c[0] - 1, x);
      ScaleFacts(c[0] - 1, c[0] - 1, x);
    } else {
      assert a[0] == a[..d][0] && c[0] == c[..d][0];
      assert a[1..][..d - 1] == a[..d][1..] && c[1..][..d - 1] == c[..d][1..];
      NumLess(a[1..], c[1..], b);
    }
  }

  /** Moving to a later combination lowers the loop's measure, which stays non-negative. */
  lemma Progress(cur: seq<int>, nx: seq<int>, k: nat, n: nat)
    requires Increasing(cur, k, n) && Increasing(nx, k, n) && LexLess(cur, nx)
    ensures 0 <= Pow(n + 1, k) - Num(nx, n + 1) < Pow(n + 1, k) - Num(cur, n + 1)
  {
    NumBound(cur, n + 1);
    NumBound(nx, n + 1);
    NumLess(cur, nx, n + 1);
  }

  /**
   * The combinations listed so far: groups[t] selects positions idxs[t], each an increasing
   * combination, in strictly increasing order, all of them before cur, and every increasing
   * combination before cur among them.
   */
  ghost predicate Listed(list: seq<int>, k: nat, groups: seq<seq<int>>, idxs: seq<seq<int>>, cur: seq<int>) {
    |groups| == |idxs|
    && (forall t | 0 <= t < |idxs| :: Increasing(idxs[t], k, |list|) && groups[t] == Select(list, idxs[t]))
    && (forall t, u | 0 <= t < u < |idxs| :: LexLess(idxs[t], idxs[u]))
    && (forall t | 0 <= t < |idxs| :: LexLess(idxs[t], cur))
    && (forall c | Increasing(c, k, |list|) && LexLess(c, cur) :: c in idxs)
  }

  /** Nothing is listed before the first combination. */
  lemma ListedFirst(list: seq<int>, k: nat)
    requires k <= |list|
    ensures Listed(list, k, [], [], Least(k))
  {
    forall c | Increasing(c, k, |list|)
      ensures !LexLess(c, Least(k))
    {
      LeastIsFirst(c, k, |list|);
    }
  }

  /** Listing cur and moving on to its successor keeps the listing complete and ordered. */
  lemma ListedStep(list: seq<int>, k: nat, groups: seq<seq<int>>, idxs: seq<seq<int>>, cur: seq<int>, i: nat)
    requires Listed(list, k, groups, idxs, cur) && Increasing(cur, k, |list|)
    requires i < k && cur[i] < |list| - k + i
    requires forall t | i < t < k :: cur[t] == |list| - k + t
    ensures Listed(list, k, groups + [Select(list, cur)], idxs + [cur], Next(cur, i))
  {
    var idxs' := idxs + [cur];
    forall t, u | 0 <= t < u < |idxs'|
      ensures LexLess(idxs'[t], idxs'[u])
    {
      if u < |idxs| {
        assert idxs'[t] == idxs[t] && idxs'[u] == idxs[u];
      } else {
        assert idxs'[t] == idxs[t];
      }
    }
    forall c | Increasing(c, k, |list|) && LexLess(c, cur)
      ensures c in idxs'
    {
      assert c in idxs;
    }
    Advance(idxs', cur, i, k, |list|);
  }

  /** Listing the top combination completes the listing. */
  lemma ListedLast(list: seq<int>, k: nat, groups: seq<seq<int>>, idxs: seq<seq<int>>, cur: seq<int>)
    requires Listed(list, k, groups, idxs, cur) && Increasing(cur, k, |list|)
    requires forall t | 0 <= t < k :: cur[t] == |list| - k + t
    ensures var idxs' := idxs + [cur];
      |groups + [Select(list, cur)]| == |idxs'|
      && (forall t | 0 <= t < |idxs'| :: Increasing(idxs'[t], k, |list|)
                                         && (groups + [Select(list, cur)])[t] == Select(list, idxs'[t]))
      && (forall t, u | 0 <= t < u < |idxs'| :: LexLess(idxs'[t], idxs'[u]))
      && (forall c | Increasing(c, k, |list|) :: c in idxs')
  {
    var idxs' := idxs + [cur];
    forall t, u | 0 <= t < u < |idxs'|
      ensures LexLess(idxs'[t], idxs'[u])
    {
      assert idxs'[t] == idxs[t];
    }
    forall c | Increasing(c, k, |list|)
      ensures c in idxs'
    {
      TopIsLast(cur, c, k, |list|);
      LexTotal(c, cur);
    }
  }

  /** No choice of more positions than there are entries is increasing. */
  lemma TooMany(k: nat, n: nat)
    requires k > n
    ensures forall c | Increasing(c, k, n) :: false
  {
    forall c | Increasing(c, k, n)
      ensures false
    {
      UpperBound(c, k, n, 0);
    }
  }

  /**
   * Every k-combination of positions of list, in lexicographic order. Nothing when k exceeds
   * the list's length; otherwise each combination appears exactly once, listing the chosen
   * entries in list order, and every increasing choice of k positions appears.
   */
  method Combinations(list: seq<int>, k: nat) returns (groups: seq<seq<int>>, ghost idxs: seq<seq<int>>)
    ensures k > |list| ==> groups == []
    ensures |groups| == |idxs|
    ensures forall t | 0 <= t < |idxs| :: Increasing(idxs[t], k, |list|) && groups[t] == Select(list, idxs[t])
    ensures forall t, u | 0 <= t < u < |idxs| :: LexLess(idxs[t], idxs[u])
    ensures forall c | Increasing(c, k, |list|) :: c in idxs
  {
    var n := |list|;
    groups, idxs := [], [];
    if k > n {
      TooMany(k, n);
      return;
    }
    var indices := new int[k];
    for i := 0 to k
      invariant forall t | 0 <= t < i :: indices[t] == t
    {
      indices[i] := i;
    }
    assert indices[..] == Least(k);
    ListedFirst(list, k);
    while true
      invariant Increasing(indices[..], k, n)
      invariant Listed(list, k, groups, idxs, indices[..])
      decreases Pow(n + 1, k) - Num(indices[..], n + 1)
    {
      var cur := indices[..];
      var i := LastMovable(indices, n);
      if i < 0 {
        forall t | 0 <= t < k
          ensures cur[t] == n - k + t
        {
          assert cur[t] == indices[t];
        }
        ListedLast(list, k, groups, idxs, cur);
        groups := groups + [Select(list, cur)];
        idxs := idxs + [cur];
        return;
      }
      ListedStep(list, k, groups, idxs, cur, i);
      groups := groups + [Select(list, cur)];
      idxs := idxs + [cur];
      MoveOn(indices, i);
      NextAfter(cur, i, k, n);
      Progress(cur, indices[..], k, n);
    }
  }

  /** The rightmost position below its top n - k + i, or -1 when every position is at its top. */
  method LastMovable(indices: array<int>, n: nat) returns (i: int)
    requires Increasing(indices[..], indices.Length, n)
    ensures -1 <= i < indices.Length
    ensures forall t | i < t < indices.Length :: indices[t] == n - indices.Length + t
    ensures i >= 0 ==> indices[i] < n - indices.Length + i
  {
    var k := indices.Length;
    Bounds(indices[..], k, n);
    i := k - 1;
    while i >= 0 && indices[i] == n - k + i
      invariant -1 <= i < k
      invariant forall t | i < t < k :: indices[t] == n - k + t
    {
      i := i - 1;
    }
  }

  /** Advances position i by one and resets every later position to follow its left neighbour. */
  method MoveOn(indices: array<int>, i: nat)
    requires i < indices.Length
    modifies indices
    ensures indices[..] == Next(old(indices[..]), i)
  {
    ghost var cur := indices[..];
    indices[i] := indices[i] + 1;
    for j := i + 1 to indices.Length
      invariant forall t | 0 <= t < j :: indices[t] == Next(cur, i)[t]
      invariant forall t | j <= t < indices.Length :: indices[t] == cur[t]
    {
      indices[j] := indices[j - 1] + 1;
    }
  }

  /** The loop's ordering and coverage facts carry over from cur to its successor. */
  lemma Advance(idxs: seq<seq<int>>, cur: seq<int>, i: nat, k: nat, n: nat)
    requires Increasing(cur, k, n) && i < k && cur[i] < n - k + i
    requires forall t | i < t < k :: cur[t] == n - k + t
    requires |idxs| > 0 && idxs[|idxs| - 1] == cur
    requires forall t | 0 <= t < |idxs| - 1 :: LexLess(idxs[t], cur)
    requires forall c | Increasing(c, k, n) && LexLess(c, cur) :: c in idxs
    ensures forall t | 0 <= t < |idxs| :: LexLess(idxs[t], Next(cur, i))
    ensures forall c | Increasing(c, k, n) && LexLess(c, Next(cur, i)) :: c in idxs
  {
    var nx := Next(cur, i);
    NextAfter(cur, i, k, n);
    forall t | 0 <= t < |idxs|
      ensures LexLess(idxs[t], nx)
    {
      if t < |idxs| - 1 {
        LexTrans(idxs[t], cur, nx);
      }
    }
    forall c | Increasing(c, k, n) && LexLess(c, nx)
      ensures c in idxs
    {
      LexTotal(c, cur);
      if LexLess(cur, c) {
        NextIsSuccessor(cur, i, c, k, n);
        if c != nx {
          LexAsym(nx, c);
        }
        LexAsym(c, nx);
      }
    }
  }
}

/**
 * N queens on an n × n board with blocked squares, solved by A*: a state places queens in rows
 * 0..depth-1, a child adds one queen in the next row on a square that is neither blocked nor
 * attacked, nodes are expanded in order of F = G + H (then G, then insertion order), and a
 * closed set of state keys keeps a state from being expanded twice.
 */
module BlockedQueens {
  import opened Options
  import opened Decimal

  /** A square of the board. */
  datatype Pos = Pos(row: int, col: int)

  /** The three heuristics a solver can be built with. */
  datatype HeuristicType = H0Zero | H1Conflict | H2Remaining

  function Abs(x: int): int {
    if x < 0 then -x else x
  }

  /** Two queens at (r1, c1) and (r2, c2) share a column or a diagonal. */
  predicate Attack(r1: int, c1: int, r2: int, c2: int) {
    c1 == c2 || Abs(r1 - r2) == Abs(c1 - c2)
  }

  /** The queens of rows 0..d-1 stand on unblocked squares of the n × n board, no two attacking. */
  predicate Placed(cols: seq<int>, d: int, n: int, blocked: set<Pos>)
    requires 0 <= d <= |cols|
  {
    (forall r | 0 <= r < d :: 0 <= cols[r] < n && Pos(r, cols[r]) !in blocked)
    && forall r1, r2 | 0 <= r1 < r2 < d :: !Attack(r1, cols[r1], r2, cols[r2])
  }

  // ---- States and their keys ----

  /** Rows 0..depth-1 hold queens in columns queenCols[0..depth-1]; the rest of the array is unused. */
  datatype State = State(queenCols: seq<int>, depth: int)
  {
    /** A copy with a queen in row depth at column col; the receiver is not changed. */
    function AddQueen(col: int): (t: State)
      requires 0 <= depth < |queenCols|
      ensures |t.queenCols| == |queenCols| && t.depth == depth + 1
      ensures t.queenCols[..depth] == queenCols[..depth] && t.queenCols[depth] == col
      ensures t.queenCols[depth + 1..] == queenCols[depth + 1..]
    {
      State(queenCols[depth := col], depth + 1)
    }

    /** The placed columns joined with commas. */
    function Key(): string
      requires 0 <= depth <= |queenCols|
    {
      Join(queenCols[..depth])
    }
  }

  /** A state of the n × n board: an array of n columns and a depth in 0..n, the placed ones on the board. */
  predicate Shaped(s: State, n: int) {
    |s.queenCols| == n && 0 <= s.depth <= n && forall r | 0 <= r < s.depth :: 0 <= s.queenCols[r] < n
  }

  /** A shaped state whose queens avoid the blocked squares and each other. */
  predicate Valid(s: State, n: int, blocked: set<Pos>) {
    Shaped(s, n) && Placed(s.queenCols, s.depth, n, blocked)
  }

  /** The placed queen of some row r < depth attacks (row, col). */
  predicate Conflicts(row: int, col: int, s: State)
    requires 0 <= s.depth <= |s.queenCols|
  {
    exists r | 0 <= r < s.depth :: Attack(row, col, r, s.queenCols[r])
  }

  /**
   * Adding a queen in the next row keeps a state valid exactly when its square is on the board,
   * not blocked and not attacked by a placed queen.
   */
  lemma AddQueenValid(s: State, n: int, blocked: set<Pos>, col: int)
    requires Valid(s, n, blocked) && s.depth < n
    ensures Valid(s.AddQueen(col), n, blocked) <==>
      0 <= col < n && Pos(s.depth, col) !in blocked && !Conflicts(s.depth, col, s)
  {
    var t := s.AddQueen(col);
    if 0 <= col < n && Pos(s.depth, col) !in blocked && !Conflicts(s.depth, col, s) {
      forall r1, r2 | 0 <= r1 < r2 < t.depth
        ensures !Attack(r1, t.queenCols[r1], r2, t.queenCols[r2])
      {
        if r2 == s.depth {
          assert !Attack(s.depth, col, r1, s.queenCols[r1]);
        }
      }
    }
    if Valid(t, n, blocked) && 0 <= col < n && Pos(s.depth, col) !in blocked {
      forall r | 0 <= r < s.depth
        ensures !Attack(s.depth, col, r, s.queenCols[r])
      {
        assert !Attack(r, t.queenCols[r], s.depth, t.queenCols[s.depth]);
      }
    }
  }

  /** The comma-join of the decimal renderings, as string.Join(",", ...) writes it. */
  function Join(xs: seq<int>): (s: string)
    ensures s == "" <==> |xs| == 0
    decreases |xs|, 1
  {
    if |xs| == 0 then "" else IntToString(xs[0]) + Tail(xs)
  }

  /** What follows the first entry's rendering: nothing, or a comma and the rest joined. */
  function Tail(xs: seq<int>): (s: string)
    requires |xs| > 0
    ensures s == "" <==> |xs| == 1
    decreases |xs|, 0
  {
    if |xs| == 1 then "" else "," + Join(xs[1..])
  }

  /** No rendering of an int holds a comma. */
  lemma NoComma(i: int)
    ensures forall k | 0 <= k < |IntToString(i)| :: IntToString(i)[k] != ','
  {
    if i < 0 {
      var d := NatToString(-i);
      assert IntToString(i) == "-" + d;
      forall k | 0 <= k < |IntToString(i)|
        ensures IntToString(i)[k] != ','
      {
        if k > 0 {
          assert IntToString(i)[k] == d[k - 1];
        }
      }
    }
  }

  /** The position of the first comma of t, or |t| if it has none. */
  function FirstComma(t: string): (k: nat)
    ensures k <= |t|
  {
    if |t| == 0 || t[0] == ',' then 0 else 1 + FirstComma(t[1..])
  }

  /** A comma-free word followed by nothing or by a comma: the first comma comes right after the word. */
  lemma {:induction false} FirstCommaAfter(w: string, rest: string)
    requires forall k | 0 <= k < |w| :: w[k] != ','
    requires rest == "" || rest[0] == ','
    ensures FirstComma(w + rest) == |w|
    decreases |w|
  {
    if |w| > 0 {
      assert (w + rest)[1..] == w[1..] + rest;
      FirstCommaAfter(w[1..], rest);
    }
  }

  /** Keys can be read back: different column lists join to different keys. */
  lemma {:induction false} JoinInjective(a: seq<int>, b: seq<int>)
    requires Join(a) == Join(b)
    ensures a == b
    decreases |a|
  {
    if |a| > 0 {
      var x := Join(a);
      NoComma(a[0]);
      NoComma(b[0]);
      FirstCommaAfter(IntToString(a[0]), Tail(a));
      FirstCommaAfter(IntToString(b[0]), Tail(b));
      assert IntToString(a[0]) == x[..FirstComma(x)] == IntToString(b[0]);
      IntToStringInjective(a[0], b[0]);
      assert Tail(a) == x[FirstComma(x)..] == Tail(b);
      if |a| > 1 {
        assert Join(a[1..]) == Tail(a)[1..] == Join(b[1..]);
        JoinInjective(a[1..], b[1..]);
        assert a == [a[0]] + a[1..];
        assert b == [b[0]] + b[1..];
      }
    }
  }

  /** Two states have the same key exactly when they place the same queens. */
  lemma KeyMatches(s: State, t: State)
    requires 0 <= s.depth <= |s.queenCols| && 0 <= t.depth <= |t.queenCols|
    ensures s.Key() == t.Key() <==> s.queenCols[..s.depth] == t.queenCols[..t.depth]
  {
    if s.Key() == t.Key() {
      JoinInjective(s.queenCols[..s.depth], t.queenCols[..t.depth]);
    }
  }

  /** The column lists of length at most d with entries in 0..n-1. */
  ghost function Upto(n: int, d: nat): set<seq<int>> {
    if d == 0 then {[]} else {[]} + set p, c | p in Upto(n, d - 1) && 0 <= c < n :: [c] + p
  }

  lemma {:induction false} InUpto(p: seq<int>, n: int, d: nat)
    requires |p| <= d && forall i | 0 <= i < |p| :: 0 <= p[i] < n
    ensures p in Upto(n, d)
  {
    if |p| > 0 {
      InUpto(p[1..], n, d - 1);
      assert p == [p[0]] + p[1..];
    }
  }

  /** Every key a state of the n × n board can have: finitely many, which bounds the closed set. */
  ghost function Keys(n: int): set<string> {
    set p | p in Upto(n, if n < 0 then 0 else n) :: Join(p)
  }

  lemma KeyInKeys(s: State, n: int)
    requires Shaped(s, n)
    ensures s.Key() in Keys(n)
  {
    InUpto(s.queenCols[..s.depth], n, n);
  }

  // ---- Heuristics ----

  /** H0: no estimate. */
  function Zero(s: State): int {
    0
  }

  /** H2: the rows still to fill. */
  function Remaining(s: State, n: int): int {
    n - s.depth
  }

  /** The columns, up and down diagonals held by the queens of rows 0..k-1. */
  function ColsOf(cols: seq<int>, k: int): set<int>
    requires 0 <= k <= |cols|
  {
    set r | 0 <= r < k :: cols[r]
  }

  function UpOf(cols: seq<int>, k: int): set<int>
    requires 0 <= k <= |cols|
  {
    set r | 0 <= r < k :: r + cols[r]
  }

  function DownOf(cols: seq<int>, k: int): set<int>
    requires 0 <= k <= |cols|
  {
    set r | 0 <= r < k :: r - cols[r]
  }

  /** The first column from c on where row r may take a queen: free column, free diagonals, not blocked. */
  function FirstFit(n: int, blocked: set<Pos>, r: int, c: int, cols: set<int>, up: set<int>, down: set<int>): (f: Option<int>)
    ensures f.Some? ==>
      (c <= f.value < n && f.value !in cols && Pos(r, f.value) !in blocked
       && r + f.value !in up && r - f.value !in down)
    decreases n - c
  {
    if c >= n then None
    else if c !in cols && Pos(r, c) !in blocked && r + c !in up && r - c !in down then Some(c)
    else FirstFit(n, blocked, r, c + 1, cols, up, down)
  }

  /** Rows r..n-1 filled greedily, each with its first fitting column, or None when some row has none. */
  function Greedy(n: int, blocked: set<Pos>, r: int, cols: set<int>, up: set<int>, down: set<int>): Option<seq<Pos>>
    decreases n - r
  {
    if r >= n then Some([])
    else match FirstFit(n, blocked, r, 0, cols, up, down)
      case None => None
      case Some(c) =>
        match Greedy(n, blocked, r + 1, cols + {c}, up + {r + c}, down + {r - c})
        case None => None
        case Some(q) => Some([Pos(r, c)] + q)
  }

  /** Before a row is filled: the queens found so far put in front of what the rest of the fill gives. */
  function Prepend(q: seq<Pos>, rest: Option<seq<Pos>>): Option<seq<Pos>> {
    match rest
    case None => None
    case Some(t) => Some(q + t)
  }

  lemma PrependNil(x: Option<seq<Pos>>)
    ensures Prepend([], x) == x
  {
    if x.Some? {
      assert [] + x.value == x.value;
    }
  }

  lemma PrependAppend(q: seq<Pos>, p: Pos, x: Option<seq<Pos>>)
    ensures Prepend(q, Prepend([p], x)) == Prepend(q + [p], x)
  {
    if x.Some? {
      assert q + ([p] + x.value) == (q + [p]) + x.value;
    }
  }

  /** A row with a fitting column: the fill puts its queen there and goes on with the next row. */
  lemma GreedyStep(n: int, blocked: set<Pos>, r: int, cols: set<int>, up: set<int>, down: set<int>, c: int)
    requires r < n && FirstFit(n, blocked, r, 0, cols, up, down) == Some(c)
    ensures Greedy(n, blocked, r, cols, up, down)
      == Prepend([Pos(r, c)], Greedy(n, blocked, r + 1, cols + {c}, up + {r + c}, down + {r - c}))
  {
  }

  /** A row without a fitting column: the fill fails. */
  lemma GreedyStuck(n: int, blocked: set<Pos>, r: int, cols: set<int>, up: set<int>, down: set<int>)
    requires r < n && FirstFit(n, blocked, r, 0, cols, up, down) == None
    ensures Greedy(n, blocked, r, cols, up, down) == None
  {
  }

  /** Two squares on a common diagonal. */
  predicate Diagonal(a: Pos, b: Pos) {
    Abs(a.row - b.row) == Abs(a.col - b.col)
  }

  /** The squares of t on a diagonal with a. */
  function CountWith(a: Pos, t: seq<Pos>): (k: nat)
    ensures k <= |t|
  {
    if |t| == 0 then 0 else (if Diagonal(a, t[0]) then 1 else 0) + CountWith(a, t[1..])
  }

  /** The pairs of q on a common diagonal. */
  function PairCount(q: seq<Pos>): nat {
    if |q| == 0 then 0 else CountWith(q[0], q[1..]) + PairCount(q[1..])
  }

  /**
   * H1: 0 with no row left, int.MaxValue when the greedy fill of the remaining rows fails, else
   * the rows left plus the diagonal pairs among the greedy queens.
   */
  function ConflictValue(s: State, n: int, blocked: set<Pos>): int
    requires Shaped(s, n)
  {
    if n - s.depth <= 0 then 0
    else match Greedy(n, blocked, s.depth, ColsOf(s.queenCols, s.depth), UpOf(s.queenCols, s.depth), DownOf(s.queenCols, s.depth))
      case None => IntMax
      case Some(q) => n - s.depth + PairCount(q)
  }

  /** The heuristic a solver uses, by its type. */
  function HValue(ht: HeuristicType, s: State, n: int, blocked: set<Pos>): int
    requires Shaped(s, n)
  {
    match ht
    case H0Zero => Zero(s)
    case H1Conflict => ConflictValue(s, n, blocked)
    case H2Remaining => Remaining(s, n)
  }

  /** Square p is on the board, not blocked, and off the given columns and diagonals. */
  predicate Unattacked(p: Pos, n: int, blocked: set<Pos>, cols: set<int>, up: set<int>, down: set<int>) {
    0 <= p.col < n && p !in blocked && p.col !in cols && p.row + p.col !in up && p.row - p.col !in down
  }

  /** q[i] lies in row r + i on an unattacked square. */
  predicate Fits(q: seq<Pos>, r: int, n: int, blocked: set<Pos>, cols: set<int>, up: set<int>, down: set<int>) {
    forall i | 0 <= i < |q| :: q[i].row == r + i && Unattacked(q[i], n, blocked, cols, up, down)
  }

  /** Two squares on different columns, up diagonals and down diagonals. */
  predicate Apart(a: Pos, b: Pos) {
    a.col != b.col && a.row + a.col != b.row + b.col && a.row - a.col != b.row - b.col
  }

  /** No two squares of q share a column or a diagonal. */
  predicate Spread(q: seq<Pos>) {
    forall i, j | 0 <= i < j < |q| :: Apart(q[i], q[j])
  }

  /** A fitting square in front of a fill that avoids it keeps the fill fitting and spread. */
  lemma ConsFits(q: seq<Pos>, r: int, c: int, n: int, blocked: set<Pos>, cols: set<int>, up: set<int>, down: set<int>)
    requires Unattacked(Pos(r, c), n, blocked, cols, up, down)
    requires Fits(q, r + 1, n, blocked, cols + {c}, up + {r + c}, down + {r - c}) && Spread(q)
    ensures Fits([Pos(r, c)] + q, r, n, blocked, cols, up, down) && Spread([Pos(r, c)] + q)
  {
    var q' := [Pos(r, c)] + q;
    forall i | 0 < i < |q'|
      ensures q'[i] == q[i - 1]
    {
    }
    forall i, j | 0 <= i < j < |q'|
      ensures Apart(q'[i], q'[j])
    {
      assert Unattacked(q[j - 1], n, blocked, cols + {c}, up + {r + c}, down + {r - c});
      if i > 0 {
        assert Apart(q[i - 1], q[j - 1]);
      }
    }
  }

  /**
   * The greedy fill of rows r..n-1 puts row r + i's queen at q[i] on a square off the given
   * columns and diagonals, and no two of its queens share a column or a diagonal.
   */
  lemma {:induction false} GreedyFacts(n: int, blocked: set<Pos>, r: int, cols: set<int>, up: set<int>, down: set<int>, q: seq<Pos>)
    requires Greedy(n, blocked, r, cols, up, down) == Some(q)
    ensures r <= n ==> |q| == n - r
    ensures Fits(q, r, n, blocked, cols, up, down) && Spread(q)
    decreases n - r
  {
    if r < n {
      var c := FirstFit(n, blocked, r, 0, cols, up, down).value;
      var q' := Greedy(n, blocked, r + 1, cols + {c}, up + {r + c}, down + {r - c}).value;
      GreedyFacts(n, blocked, r + 1, cols + {c}, up + {r + c}, down + {r - c}, q');
      ConsFits(q', r, c, n, blocked, cols, up, down);
    }
  }

  /** Squares on different columns and diagonals do not attack each other. */
  lemma ApartSafe(a: Pos, b: Pos)
    requires Apart(a, b)
    ensures !Attack(a.row, a.col, b.row, b.col)
  {
  }

  /** A square off the columns and diagonals of rows 0..d-1 is apart from each of their queens. */
  lemma PlacedApart(cols: seq<int>, d: int, r: int, b: Pos, n: int, blocked: set<Pos>)
    requires 0 <= r < d <= |cols|
    requires Unattacked(b, n, blocked, ColsOf(cols, d), UpOf(cols, d), DownOf(cols, d))
    ensures Apart(Pos(r, cols[r]), b)
  {
    assert cols[r] in ColsOf(cols, d);
    assert r + cols[r] in UpOf(cols, d);
    assert r - cols[r] in DownOf(cols, d);
  }

  /**
   * A finite Conflict value certifies a solution: the placed queens followed by the greedy fill
   * are a full placement avoiding the blocked squares.
   */
  lemma GreedyCompletes(s: State, n: int, blocked: set<Pos>, q: seq<Pos>)
    requires Valid(s, n, blocked)
    requires Greedy(n, blocked, s.depth, ColsOf(s.queenCols, s.depth), UpOf(s.queenCols, s.depth), DownOf(s.queenCols, s.depth)) == Some(q)
    ensures |s.queenCols[..s.depth] + seq(|q|, i requires 0 <= i < |q| => q[i].col)| == n
    ensures Placed(s.queenCols[..s.depth] + seq(|q|, i requires 0 <= i < |q| => q[i].col), n, n, blocked)
  {
    var d := s.depth;
    GreedyFacts(n, blocked, d, ColsOf(s.queenCols, d), UpOf(s.queenCols, d), DownOf(s.queenCols, d), q);
    var full := s.queenCols[..d] + seq(|q|, i requires 0 <= i < |q| => q[i].col);
    forall r | d <= r < n
      ensures q[r - d] == Pos(r, full[r])
      ensures Unattacked(q[r - d], n, blocked, ColsOf(s.queenCols, d), UpOf(s.queenCols, d), DownOf(s.queenCols, d))
    {
    }
    forall r1, r2 | 0 <= r1 < r2 < n
      ensures !Attack(r1, full[r1], r2, full[r2])
    {
      if r1 < d && d <= r2 {
        PlacedApart(s.queenCols, d, r1, q[r2 - d], n, blocked);
        ApartSafe(Pos(r1, full[r1]), q[r2 - d]);
      } else if d <= r1 {
        assert Apart(q[r1 - d], q[r2 - d]);
        ApartSafe(q[r1 - d], q[r2 - d]);
      }
    }
  }

  /** A square apart from every square of t shares a diagonal with none of them. */
  lemma {:induction false} NoneWith(a: Pos, t: seq<Pos>)
    requires forall j | 0 <= j < |t| :: Apart(a, t[j])
    ensures CountWith(a, t) == 0
  {
    if |t| > 0 {
      assert Apart(a, t[0]);
      NoneWith(a, t[1..]);
    }
  }

  /** Squares pairwise apart have no diagonal pair. */
  lemma {:induction false} SpreadNoPairs(q: seq<Pos>)
    requires Spread(q)
    ensures PairCount(q) == 0
  {
    if |q| > 0 {
      forall j | 0 <= j < |q| - 1
        ensures Apart(q[0], q[1..][j])
      {
        assert Apart(q[0], q[j + 1]);
      }
      NoneWith(q[0], q[1..]);
      SpreadNoPairs(q[1..]);
    }
  }

  /**
   * The greedy queens never share a diagonal, so a finite Conflict value is exactly the number of
   * rows left.
   */
  lemma ConflictExact(s: State, n: int, blocked: set<Pos>)
    requires Shaped(s, n) && ConflictValue(s, n, blocked) != IntMax
    ensures ConflictValue(s, n, blocked) == n - s.depth
  {
    var d := s.depth;
    var fill := Greedy(n, blocked, d, ColsOf(s.queenCols, d), UpOf(s.queenCols, d), DownOf(s.queenCols, d));
    if n - d > 0 {
      GreedyFacts(n, blocked, d, ColsOf(s.queenCols, d), UpOf(s.queenCols, d), DownOf(s.queenCols, d), fill.value);
      SpreadNoPairs(fill.value);
    }
  }

  /**
   * Every heuristic is admissible here: a value other than int.MaxValue is at most the rows left,
   * and Remaining and Conflict are exactly the rows left.
   */
  lemma Admissible(ht: HeuristicType, s: State, n: int, blocked: set<Pos>)
    requires Shaped(s, n) && HValue(ht, s, n, blocked) != IntMax
    ensures 0 <= HValue(ht, s, n, blocked) <= n - s.depth
    ensures ht != H0Zero ==> HValue(ht, s, n, blocked) == n - s.depth
  {
    if ht == H1Conflict {
      ConflictExact(s, n, blocked);
    }
  }

  /**
   * H1: marks the placed queens' columns and diagonals, fills each later row with its first
   * free column, and counts the diagonal pairs among the new queens.
   */
  method Conflict(s: State, n: int, blocked: set<Pos>) returns (h: int)
    requires Shaped(s, n)
    ensures h == ConflictValue(s, n, blocked)
  {
    var placed := s.depth;
    var remaining := n - placed;
    if remaining <= 0 {
      return 0;
    }
    var usedCols, usedD1, usedD2 := MarkPlaced(s, n);
    ghost var fill := Greedy(n, blocked, placed, ColsOf(s.queenCols, placed), usedD1, usedD2);
    ghost var used := ColsOf(s.queenCols, placed);
    var newQueens: seq<Pos> := [];
    PrependNil(fill);
    for r := placed to n
      invariant forall c | 0 <= c < n :: usedCols[c] <==> c in used
      invariant fill == Prepend(newQueens, Greedy(n, blocked, r, used, usedD1, usedD2))
    {
      var found, c := FitRow(r, n, blocked, usedCols, usedD1, usedD2, used);
      if !found {
        GreedyStuck(n, blocked, r, used, usedD1, usedD2);
        return IntMax;
      }
      GreedyStep(n, blocked, r, used, usedD1, usedD2, c);
      PrependAppend(newQueens, Pos(r, c), Greedy(n, blocked, r + 1, used + {c}, usedD1 + {r + c}, usedD2 + {r - c}));
      usedCols[c] := true;
      used := used + {c};
      usedD1 := usedD1 + {r + c};
      usedD2 := usedD2 + {r - c};
      newQueens := newQueens + [Pos(r, c)];
    }
    assert newQueens + [] == newQueens;
    var conflicts := DiagonalPairs(newQueens);
    return remaining + conflicts;
  }

  /** The placed queens' columns as flags, and their up and down diagonals as sets. */
  method MarkPlaced(s: State, n: int) returns (usedCols: array<bool>, usedD1: set<int>, usedD2: set<int>)
    requires Shaped(s, n)
    ensures fresh(usedCols) && usedCols.Length == n
    ensures forall c | 0 <= c < n :: usedCols[c] <==> c in ColsOf(s.queenCols, s.depth)
    ensures usedD1 == UpOf(s.queenCols, s.depth) && usedD2 == DownOf(s.queenCols, s.depth)
  {
    usedCols := new bool[n](_ => false);
    usedD1, usedD2 := {}, {};
    for r := 0 to s.depth
      invariant forall c | 0 <= c < n :: usedCols[c] <==> c in ColsOf(s.queenCols, r)
      invariant usedD1 == UpOf(s.queenCols, r) && usedD2 == DownOf(s.queenCols, r)
    {
      var c := s.queenCols[r];
      usedCols[c] := true;
      usedD1 := usedD1 + {r + c};
      usedD2 := usedD2 + {r - c};
      assert ColsOf(s.queenCols, r + 1) == ColsOf(s.queenCols, r) + {c};
      assert UpOf(s.queenCols, r + 1) == UpOf(s.queenCols, r) + {r + c};
      assert DownOf(s.queenCols, r + 1) == DownOf(s.queenCols, r) + {r - c};
    }
  }

  /** The scan of row r for its first free, unblocked column off the used diagonals. */
  method FitRow(r: int, n: int, blocked: set<Pos>, usedCols: array<bool>, usedD1: set<int>, usedD2: set<int>,
                ghost used: set<int>) returns (found: bool, col: int)
    requires usedCols.Length == n && forall c | 0 <= c < n :: usedCols[c] <==> c in used
    ensures found <==> FirstFit(n, blocked, r, 0, used, usedD1, usedD2).Some?
    ensures found ==> FirstFit(n, blocked, r, 0, used, usedD1, usedD2) == Some(col)
  {
    for c := 0 to n
      invariant FirstFit(n, blocked, r, 0, used, usedD1, usedD2) == FirstFit(n, blocked, r, c, used, usedD1, usedD2)
    {
      if usedCols[c] {
        continue;
      }
      if Pos(r, c) in blocked {
        continue;
      }
      if r + c in usedD1 || r - c in usedD2 {
        continue;
      }
      return true, c;
    }
    return false, 0;
  }

  /** The number of pairs i < j of q on a common diagonal, counted pair by pair. */
  method DiagonalPairs(q: seq<Pos>) returns (conflicts: int)
    ensures conflicts == PairCount(q)
  {
    conflicts := 0;
    for i := 0 to |q|
      invariant conflicts + PairCount(q[i..]) == PairCount(q)
    {
      assert q[i..][1..] == q[i + 1..];
      for j := i + 1 to |q|
        invariant conflicts + CountWith(q[i], q[j..]) + PairCount(q[i + 1..]) == PairCount(q)
      {
        assert q[j..][1..] == q[j + 1..];
        var a := q[i];
        var b := q[j];
        if Abs(a.row - b.row) == Abs(a.col - b.col) {
          conflicts := conflicts + 1;
        }
      }
    }
  }

  // ---- Search nodes ----

  /** A search node: its state, the cost G so far, the estimate H and the node it was expanded from. */
  datatype Node = Node(state: State, g: int, h: int, parent: Option<Node>)
  {
    function F(): int {
      g + h
    }
  }

  /** An open-list entry: the node under its priority (F, G, insertion number). */
  datatype Entry = Entry(node: Node, f: int, g: int, tie: int)

  /** The open list's order: lower F first, then lower G, then the earlier insertion. */
  predicate Before(a: Entry, b: Entry) {
    a.f < b.f || (a.f == b.f && (a.g < b.g || (a.g == b.g && a.tie < b.tie)))
  }

  /** The parent chain goes back one row at a time, each parent a prefix of its child, to a root with no queen. */
  predicate Chain(node: Node)
    decreases node
  {
    0 <= node.state.depth <= |node.state.queenCols|
    && match node.parent
       case None => node.state.depth == 0
       case Some(p) =>
         Chain(p) && p.state.depth == node.state.depth - 1
         && p.state.queenCols[..p.state.depth] == node.state.queenCols[..p.state.depth]
  }

  /** A node of the search: valid state, G equal to the depth, and a parent chain. */
  predicate Good(node: Node, n: int, blocked: set<Pos>) {
    Valid(node.state, n, blocked) && node.g == node.state.depth && Chain(node)
  }

  /**
   * Walks from the goal to the root pushing each node's last queen; the stack read from the top
   * gives the columns of rows 0.. in order, which are exactly the goal's placed columns.
   */
  method Reconstruct(goal: Node) returns (cols: seq<int>)
    requires Chain(goal)
    ensures cols == goal.state.queenCols[..goal.state.depth]
  {
    var stack: seq<int> := [];
    var cur: Option<Node> := Some(goal);
    ghost var target := goal.state.queenCols[..goal.state.depth];
    while cur.Some?
      invariant cur.Some? ==>
        (Chain(cur.value) && cur.value.state.depth <= goal.state.depth
         && cur.value.state.queenCols[..cur.value.state.depth] == target[..cur.value.state.depth]
         && stack == target[cur.value.state.depth..])
      invariant cur.None? ==> stack == target
      decreases cur
    {
      var node := cur.value;
      if node.state.depth > 0 {
        var row := node.state.depth - 1;
        assert node.state.queenCols[row] == node.state.queenCols[..node.state.depth][row];
        stack := [node.state.queenCols[row]] + stack;
      }
      cur := node.parent;
    }
    return stack;
  }

  /** The entry with the least priority of a non-empty open list. */
  method PopMin(open: seq<Entry>) returns (i: int)
    requires |open| > 0
    ensures 0 <= i < |open| && forall j | 0 <= j < |open| :: !Before(open[j], open[i])
  {
    i := 0;
    for j := 1 to |open|
      invariant 0 <= i < j
      invariant forall k | 0 <= k < j :: !Before(open[k], open[i])
    {
      if Before(open[j], open[i]) {
        i := j;
      }
    }
  }

  /** Every entry of the open list holds a search node. */
  predicate AllGood(open: seq<Entry>, n: int, blocked: set<Pos>) {
    forall k | 0 <= k < |open| :: Good(open[k].node, n, blocked)
  }

  lemma RemoveGood(open: seq<Entry>, i: int, n: int, blocked: set<Pos>)
    requires AllGood(open, n, blocked) && 0 <= i < |open|
    ensures Good(open[i].node, n, blocked) && AllGood(open[..i] + open[i + 1..], n, blocked)
  {
    var rest := open[..i] + open[i + 1..];
    forall k | 0 <= k < |rest|
      ensures Good(rest[k].node, n, blocked)
    {
      if k >= i {
        assert rest[k] == open[k + 1];
      }
    }
  }

  lemma AppendGood(open: seq<Entry>, more: seq<Entry>, n: int, blocked: set<Pos>)
    requires AllGood(open, n, blocked) && forall e | e in more :: Good(e.node, n, blocked)
    ensures AllGood(open + more, n, blocked)
  {
    var all := open + more;
    forall k | 0 <= k < |all|
      ensures Good(all[k].node, n, blocked)
    {
      if k >= |open| {
        assert all[k] == more[k - |open|];
      }
    }
  }

  /** The set shrinks by a member when the closed set gains it. */
  lemma Shrinks<T>(all: set<T>, closed: set<T>, x: T)
    requires x in all && x !in closed
    ensures |all - (closed + {x})| < |all - closed|
  {
    assert all - closed == (all - (closed + {x})) + {x};
  }

  /** The solver for an n × n board, its blocked squares and its heuristic. */
  class BlockedNQueensSolver {
    const n: int
    const blocked: set<Pos>
    const heuristic: HeuristicType

    constructor (n: int, blocked: set<Pos>, hType: HeuristicType)
      requires n > 0
      ensures this.n == n && this.blocked == blocked && heuristic == hType
    {
      this.n := n;
      this.blocked := blocked;
      heuristic := hType;
    }

    /** The heuristic of the solver's type, evaluated on s. */
    method Heuristic(s: State) returns (h: int)
      requires Shaped(s, n)
      ensures h == HValue(heuristic, s, n, blocked)
    {
      match heuristic
      case H0Zero => h := Zero(s);
      case H1Conflict => h := Conflict(s, n, blocked);
      case H2Remaining => h := Remaining(s, n);
    }

    /**
     * The open-list entries expanding node adds for columns col..n-1, in column order: one per
     * unblocked, unattacked square whose child has a finite heuristic, numbered from tie on.
     */
    function Successors(node: Node, col: int, tie: int): seq<Entry>
      requires Shaped(node.state, n) && node.state.depth < n && 0 <= col
      decreases n - col
    {
      if col >= n then []
      else if Pos(node.state.depth, col) in blocked || Conflicts(node.state.depth, col, node.state) then
        Successors(node, col + 1, tie)
      else
        var child := node.state.AddQueen(col);
        var h := HValue(heuristic, child, n, blocked);
        if h == IntMax then Successors(node, col + 1, tie)
        else
          var cn := Node(child, node.g + 1, h, Some(node));
          [Entry(cn, cn.F(), cn.g, tie)] + Successors(node, col + 1, tie + 1)
    }

    /** Every entry expanding a search node adds is a search node one row deeper, under its own priority. */
    lemma {:induction false} SuccessorsGood(node: Node, col: int, tie: int)
      requires Good(node, n, blocked) && node.state.depth < n && 0 <= col
      ensures forall e | e in Successors(node, col, tie) ::
        Good(e.node, n, blocked) && e.f == e.node.F() && e.g == e.node.g
        && e.node.state.depth == node.state.depth + 1
      decreases n - col
    {
      if col < n {
        SuccessorsGood(node, col + 1, tie);
        SuccessorsGood(node, col + 1, tie + 1);
        if Pos(node.state.depth, col) !in blocked && !Conflicts(node.state.depth, col, node.state) {
          AddQueenValid(node.state, n, blocked, col);
        }
      }
    }

    /** Conflict test of placing a queen at (row, col) against the placed rows. */
    static method InConflict(row: int, col: int, s: State) returns (conflict: bool)
      requires 0 <= s.depth <= |s.queenCols|
      ensures conflict <==> Conflicts(row, col, s)
    {
      for r := 0 to s.depth
        invariant forall r' | 0 <= r' < r :: !Attack(row, col, r', s.queenCols[r'])
      {
        var c := s.queenCols[r];
        if c == col {
          return true;
        }
        if Abs(row - r) == Abs(col - c) {
          return true;
        }
      }
      return false;
    }

    /** Expands a node: appends its successors to the open list and advances the insertion counter. */
    method Expand(current: Node, open: seq<Entry>, tie: int) returns (open': seq<Entry>, tie': int)
      requires Shaped(current.state, n) && current.state.depth < n
      ensures open' == open + Successors(current, 0, tie)
      ensures tie' == tie + |Successors(current, 0, tie)|
    {
      var s := current.state;
      var row := s.depth;
      open', tie' := open, tie;
      for col := 0 to n
        invariant open' + Successors(current, col, tie') == open + Successors(current, 0, tie)
        invariant tie' + |Successors(current, col, tie')| == tie + |Successors(current, 0, tie)|
      {
        if Pos(row, col) in blocked {
          continue;
        }
        var conflict := InConflict(row, col, s);
        if conflict {
          continue;
        }
        var childState := s.AddQueen(col);
        var g := current.g + 1;
        var h := Heuristic(childState);
        if h == IntMax {
          continue;
        }
        var child := Node(childState, g, h, Some(current));
        open' := open' + [Entry(child, child.F(), child.g, tie')];
        tie' := tie' + 1;
      }
    }

    /**
     * A* from the empty board: the first dequeued state with all n rows placed is returned as its
     * columns, row by row; a state whose key is closed is skipped; None once the open list is empty.
     * A returned placement fills every row and avoids the blocked squares and attacks.
     */
    method Solve() returns (result: Option<seq<int>>)
      requires n > 0
      ensures result.Some? ==> |result.value| == n && Placed(result.value, n, n, blocked)
    {
      var startCols := seq(n, _ => 0);
      var start := State(startCols, 0);
      var h0 := Heuristic(start);
      var startNode := Node(start, 0, h0, None);
      var open := [Entry(startNode, startNode.F(), startNode.g, 0)];
      var tie := 1;
      var closed: set<string> := {};
      while |open| > 0
        invariant AllGood(open, n, blocked)
        invariant closed <= Keys(n)
        decreases |Keys(n) - closed|, |open|
      {
        var i := PopMin(open);
        var current := open[i].node;
        RemoveGood(open, i, n, blocked);
        open := open[..i] + open[i + 1..];
        var s := current.state;
        if s.depth == n {
          var cols := Reconstruct(current);
          assert s.queenCols[..n] == s.queenCols;
          return Some(cols);
        }
        var key := s.Key();
        if key in closed {
          continue;
        }
        KeyInKeys(s, n);
        Shrinks(Keys(n), closed, key);
        closed := closed + {key};
        SuccessorsGood(current, 0, tie);
        AppendGood(open, Successors(current, 0, tie), n, blocked);
        open, tie := Expand(current, open, tie);
      }
      return None;
    }
  }

  /** The constructor's argument check: no solver for n <= 0, as the source throws there. */
  method NewSolver(n: int, blocked: set<Pos>, hType: HeuristicType) returns (solver: BlockedNQueensSolver?)
    ensures solver == null <==> n <= 0
    ensures solver != null ==> solver.n == n && solver.blocked == blocked && solver.heuristic == hType
  {
    if n <= 0 {
      return null;
    }
    solver := new BlockedNQueensSolver(n, blocked, hType);
  }
}

/**
 * Positions as values: taking a piece off the list, moving a piece, applying and undoing a
 * move, the evaluation, and the well-formedness conditions those operations preserve.
 */
module ChessPosition {
  import opened ChessPieces
  import opened ChessMoves
  import opened ChessRules
  import opened ChessGeneration

  // ---- Removal and relocation ----

  /** Index of the first entry of piece c, or |s|. */
  function RefIndex(s: Layout, c: Piece): (k: nat)
    ensures k <= |s|
    ensures forall j | 0 <= j < k :: s[j].piece != c
    ensures k < |s| ==> s[k].piece == c
  {
    if |s| == 0 then 0
    else if s[0].piece == c then 0
    else 1 + RefIndex(s[1..], c)
  }

  /** The list with the first entry of c taken out; unchanged when c is not listed. */
  function RemoveFirst(s: Layout, c: Piece): (r: Layout)
    ensures var k := RefIndex(s, c);
      if k < |s| then multiset(r) == multiset(s) - multiset{s[k]} && multiset(s)[s[k]] >= 1
      else r == s
    ensures forall e | e in r :: e in s
  {
    var k := RefIndex(s, c);
    if k < |s| then
      DropOne(s, k);
      s[..k] + s[k + 1..]
    else s
  }

  lemma DropOne(s: Layout, k: nat)
    requires k < |s|
    ensures multiset(s[..k] + s[k + 1..]) == multiset(s) - multiset{s[k]}
    ensures forall e | e in s[..k] + s[k + 1..] :: e in s
  {
    assert s == s[..k] + [s[k]] + s[k + 1..];
  }

  /** Every entry of piece p now stands on (x, y); the others are untouched. */
  function Relocate(s: Layout, p: Piece, x: int, y: int): (r: Layout)
    ensures |r| == |s|
    ensures forall i | 0 <= i < |s| :: r[i] == Moved(s[i], p, x, y)
  {
    seq(|s|, i requires 0 <= i < |s| => Moved(s[i], p, x, y))
  }

  function Moved(e: Placed, p: Piece, x: int, y: int): Placed {
    if e.piece == p then Placed(p, x, y) else e
  }

  /** The board after the move: the captured piece is gone and the mover stands on the target. */
  function ApplyPly(s: Layout, m: Ply): Layout {
    Relocate(if m.captured != null then RemoveFirst(s, m.captured) else s, m.piece, m.tx, m.ty)
  }

  /** The board after undoing: the mover is back on its origin and the captured piece is appended. */
  function UndoPly(s: Layout, m: Ply): Layout {
    Relocate(s, m.piece, m.ox, m.oy) + (if m.captured != null then [Placed(m.captured, m.tx, m.ty)] else [])
  }

  // ---- Evaluation ----

  /** The sum of f over the list, accumulated in list order. */
  function Sum(l: Layout, f: Placed -> int): int
    decreases |l|
  {
    if |l| == 0 then 0 else Sum(l[..|l| - 1], f) + f(l[|l| - 1])
  }

  function Signed(e: Placed, p: Player): int {
    if e.piece.owner == p then PieceValue(e.piece.kind) else -PieceValue(e.piece.kind)
  }

  /** Material of p's pieces minus material of the opponent's. */
  function Material(s: Layout, p: Player): int {
    Sum(s, e => Signed(e, p))
  }

  /** Signed material plus the mobility difference. */
  function Eval(s: Layout, p: Player): int {
    Material(s, p) + |Moves(s, p)| - |Moves(s, Opponent(p))|
  }

  lemma {:induction false} SumNegated(l: Layout, f: Placed -> int, g: Placed -> int)
    requires forall e | e in l :: g(e) == -f(e)
    ensures Sum(l, g) == -Sum(l, f)
    decreases |l|
  {
    if |l| > 0 {
      SumNegated(l[..|l| - 1], f, g);
    }
  }

  /** The evaluation for one side is the negation of the evaluation for the other. */
  lemma EvalAntisymmetric(s: Layout, p: Player)
    ensures Eval(s, Opponent(p)) == -Eval(s, p)
  {
    OpponentInvolution(p);
    SumNegated(s, e => Signed(e, p), e => Signed(e, Opponent(p)));
  }

  // ---- Well-formedness ----

  /** Two entries for the same piece reference. */
  predicate SamePiece(e1: Placed, e2: Placed) {
    e1.piece == e2.piece
  }

  /** Each piece is listed once: no two entries share a piece reference, and no entry repeats. */
  predicate Unique(s: Layout) {
    (forall e1, e2 | e1 in s && e2 in s && SamePiece(e1, e2) :: e1 == e2)
    && (forall e | e in s :: multiset(s)[e] == 1)
  }

  /** Unique entries, all on the board, on pairwise distinct squares. */
  predicate Valid(s: Layout) {
    Unique(s)
    && (forall e | e in s :: OnBoard(e))
    && (forall e1, e2 | e1 in s && e2 in s && SameSquare(e1, e2) :: e1 == e2)
  }

  predicate OnBoard(e: Placed) {
    IsInsideBoard(e.x, e.y)
  }

  /** Two entries on the same square. */
  predicate SameSquare(e1: Placed, e2: Placed) {
    At(e1, e2.x, e2.y)
  }

  lemma UniquePerm(s: Layout, t: Layout)
    requires multiset(s) == multiset(t) && Unique(s)
    ensures Unique(t)
  {
    forall e | e in t ensures e in s {
      assert e in multiset(t);
    }
  }

  lemma ValidPerm(s: Layout, t: Layout)
    requires multiset(s) == multiset(t) && Valid(s)
    ensures Valid(t)
  {
    UniquePerm(s, t);
    forall e | e in t ensures e in s {
      assert e in multiset(t);
    }
  }

  /** Two entries at different positions of a list of unique entries differ in their piece. */
  lemma UniqueDistinct(s: Layout, i: nat, j: nat)
    requires Unique(s) && i < j < |s|
    ensures s[i].piece != s[j].piece
  {
    assert s == s[..j] + s[j..];
    assert s[i] in multiset(s[..j]);
    assert s[j..][0] == s[j];
    assert s[j] in multiset(s[j..]);
    assert multiset(s) == multiset(s[..j]) + multiset(s[j..]);
    assert s[j] in s;
    assert s[i] != s[j];
    assert s[i] in s;
    assert !SamePiece(s[i], s[j]);
  }

  /** A list whose entries have pairwise distinct pieces has unique entries. */
  lemma {:induction false} DistinctUnique(s: Layout)
    requires forall i, j | 0 <= i < j < |s| :: s[i].piece != s[j].piece
    ensures Unique(s)
    decreases |s|
  {
    if |s| > 0 {
      var init := s[..|s| - 1];
      var last := s[|s| - 1];
      DistinctUnique(init);
      assert s == init + [last];
      assert last !in init;
      forall e1, e2 | e1 in s && e2 in s && e1.piece == e2.piece
        ensures e1 == e2
      {
        var i :| 0 <= i < |s| && s[i] == e1;
        var j :| 0 <= j < |s| && s[j] == e2;
        assert i == j;
      }
    }
  }

  predicate DistinctPieces(s: Layout) {
    forall i, j | 0 <= i < j < |s| :: s[i].piece != s[j].piece
  }

  lemma UniqueIffDistinct(s: Layout)
    ensures Unique(s) <==> DistinctPieces(s)
  {
    if Unique(s) {
      forall i, j | 0 <= i < j < |s| ensures s[i].piece != s[j].piece {
        UniqueDistinct(s, i, j);
      }
    }
    if DistinctPieces(s) {
      DistinctUnique(s);
    }
  }

  // ---- Apply and undo ----

  /** The move fits the layout: the mover is listed on its origin, a captured piece on the target. */
  predicate Fits(s: Layout, m: Ply) {
    Placed(m.piece, m.ox, m.oy) in s
    && (m.captured != null ==> Placed(m.captured, m.tx, m.ty) in s && m.captured != m.piece)
  }

  lemma SoundFits(s: Layout, p: Player, m: Ply)
    requires Sound(s, p, m)
    ensures Fits(s, m)
  {
  }

  lemma RelocateConcat(a: Layout, b: Layout, p: Piece, x: int, y: int)
    ensures Relocate(a + b, p, x, y) == Relocate(a, p, x, y) + Relocate(b, p, x, y)
  {
  }

  /** Relocation acts entry by entry, so it maps permutations to permutations. */
  lemma {:induction false} RelocatePerm(a: Layout, b: Layout, p: Piece, x: int, y: int)
    requires multiset(a) == multiset(b)
    ensures multiset(Relocate(a, p, x, y)) == multiset(Relocate(b, p, x, y))
    decreases |a|
  {
    if |a| == 0 {
      assert |multiset(b)| == 0;
    } else {
      var init := a[..|a| - 1];
      var last := a[|a| - 1];
      assert a == init + [last];
      assert last in multiset(b);
      var k :| 0 <= k < |b| && b[k] == last;
      var rest := b[..k] + b[k + 1..];
      assert b == b[..k] + [b[k]] + b[k + 1..];
      assert multiset(a) == multiset(init) + multiset{last};
      assert multiset(b) == multiset(b[..k]) + multiset{b[k]} + multiset(b[k + 1..]);
      assert multiset(rest) == multiset(b[..k]) + multiset(b[k + 1..]);
      assert multiset(init) == multiset(a) - multiset{last};
      assert multiset(rest) == multiset(b) - multiset{last};
      RelocatePerm(init, rest, p, x, y);
      RelocateConcat(init, [last], p, x, y);
      RelocateConcat(b[..k], b[k + 1..], p, x, y);
      RelocateConcat(b[..k] + [b[k]], b[k + 1..], p, x, y);
      RelocateConcat(b[..k], [b[k]], p, x, y);
    }
  }

  lemma RemoveFirstDistinct(s: Layout, c: Piece)
    requires DistinctPieces(s)
    ensures DistinctPieces(RemoveFirst(s, c))
    ensures forall e | e in RemoveFirst(s, c) :: e.piece != c
  {
    var k := RefIndex(s, c);
    if k < |s| {
      var r := s[..k] + s[k + 1..];
      forall i, j | 0 <= i < j < |r| ensures r[i].piece != r[j].piece {
        var i' := if i < k then i else i + 1;
        var j' := if j < k then j else j + 1;
        assert r[i] == s[i'] && r[j] == s[j'];
      }
      forall e | e in r ensures e.piece != c {
        var i :| 0 <= i < |r| && r[i] == e;
        var i' := if i < k then i else i + 1;
        assert r[i] == s[i'];
      }
    }
  }

  lemma ApplyDistinct(s: Layout, m: Ply)
    requires DistinctPieces(s)
    ensures DistinctPieces(ApplyPly(s, m))
  {
    if m.captured != null {
      RemoveFirstDistinct(s, m.captured);
    }
  }

  lemma RelocateMembers(s: Layout, p: Piece, x: int, y: int, e: Placed)
    requires e in Relocate(s, p, x, y)
    ensures e.piece == p ==> e == Placed(p, x, y)
    ensures e.piece != p ==> e in s
  {
    var r := Relocate(s, p, x, y);
    var i :| 0 <= i < |r| && r[i] == e;
  }

  /** Applying a move to a well-formed board keeps each piece listed once. */
  lemma ApplyUnique(s: Layout, m: Ply)
    requires Unique(s)
    ensures Unique(ApplyPly(s, m))
  {
    UniqueIffDistinct(s);
    ApplyDistinct(s, m);
    UniqueIffDistinct(ApplyPly(s, m));
  }

  /** The mover's entry is the only entry of its piece in a board of unique entries. */
  lemma OnlyEntry(s: Layout, e: Placed, f: Placed)
    requires Unique(s) && e in s && f in s && e.piece == f.piece
    ensures e == f
  {
  }

  /**
   * Undoing a move right after applying it restores the board up to order: the mover is back
   * on its origin and the captured piece, removed from its place, is now the last entry.
   */
  lemma UndoAfterApply(s: Layout, m: Ply)
    requires Unique(s) && Fits(s, m)
    ensures m.captured == null ==> UndoPly(ApplyPly(s, m), m) == s
    ensures m.captured != null ==>
      UndoPly(ApplyPly(s, m), m) == RemoveFirst(s, m.captured) + [Placed(m.captured, m.tx, m.ty)]
    ensures multiset(UndoPly(ApplyPly(s, m), m)) == multiset(s)
  {
    var base := if m.captured != null then RemoveFirst(s, m.captured) else s;
    var there := Relocate(base, m.piece, m.tx, m.ty);
    var back := Relocate(there, m.piece, m.ox, m.oy);
    forall i | 0 <= i < |base| ensures back[i] == base[i] {
      if base[i].piece == m.piece {
        assert base[i] in s;
        OnlyEntry(s, base[i], Placed(m.piece, m.ox, m.oy));
      }
    }
    assert back == base;
    if m.captured != null {
      var k := RefIndex(s, m.captured);
      OnlyEntry(s, s[k], Placed(m.captured, m.tx, m.ty));
    }
  }

  /**
   * Undoing a move on any reordering of the board it produced gives back the board before the
   * move, up to order.
   */
  lemma UndoRestores(s: Layout, x: Layout, m: Ply)
    requires Unique(s) && Fits(s, m)
    requires multiset(x) == multiset(ApplyPly(s, m))
    ensures multiset(UndoPly(x, m)) == multiset(s)
  {
    UndoAfterApply(s, m);
    RelocatePerm(x, ApplyPly(s, m), m.piece, m.ox, m.oy);
  }

  /** Applying a move to two orderings of the same board gives two orderings of one result. */
  lemma ApplyPerm(s: Layout, t: Layout, m: Ply)
    requires Unique(s) && multiset(s) == multiset(t)
    ensures multiset(ApplyPly(s, m)) == multiset(ApplyPly(t, m))
  {
    if m.captured != null {
      var c := m.captured;
      var ks := RefIndex(s, c);
      var kt := RefIndex(t, c);
      if ks < |s| {
        assert s[ks] in multiset(t);
        assert exists j :: 0 <= j < |t| && t[j] == s[ks];
      }
      if kt < |t| {
        assert t[kt] in multiset(s);
        OnlyEntry(s, t[kt], s[RefIndex(s, c)]);
      }
      RelocatePerm(RemoveFirst(s, c), RemoveFirst(t, c), m.piece, m.tx, m.ty);
    } else {
      RelocatePerm(s, t, m.piece, m.tx, m.ty);
    }
  }

  /** After taking the captured piece off, nothing but the mover can stand on the target. */
  lemma TargetFree(s: Layout, p: Player, m: Ply, e: Placed)
    requires Valid(s) && Sound(s, p, m)
    requires e in (if m.captured != null then RemoveFirst(s, m.captured) else s)
    ensures !At(e, m.tx, m.ty)
  {
    assert e in s;
    if m.captured != null {
      UniqueIffDistinct(s);
      RemoveFirstDistinct(s, m.captured);
      var t := Placed(m.captured, m.tx, m.ty);
      assert SameSquare(e, t) ==> e == t;
    }
  }

  /** After a sound move no two entries share a square. */
  lemma ApplySquares(s: Layout, p: Player, m: Ply, e1: Placed, e2: Placed)
    requires Valid(s) && Sound(s, p, m)
    requires e1 in ApplyPly(s, m) && e2 in ApplyPly(s, m) && SameSquare(e1, e2)
    ensures e1 == e2
  {
    var base := if m.captured != null then RemoveFirst(s, m.captured) else s;
    forall e | e in base && e.piece != m.piece
      ensures !At(e, m.tx, m.ty)
    {
      TargetFree(s, p, m, e);
    }
    RelocateMembers(base, m.piece, m.tx, m.ty, e1);
    RelocateMembers(base, m.piece, m.tx, m.ty, e2);
  }

  /** A sound move keeps a valid board valid. */
  lemma ApplyValid(s: Layout, p: Player, m: Ply)
    requires Valid(s) && Sound(s, p, m)
    ensures Valid(ApplyPly(s, m))
  {
    var r := ApplyPly(s, m);
    ApplyUnique(s, m);
    var base := if m.captured != null then RemoveFirst(s, m.captured) else s;
    forall e | e in r ensures OnBoard(e) {
      RelocateMembers(base, m.piece, m.tx, m.ty, e);
    }
    forall e1, e2 | e1 in r && e2 in r && SameSquare(e1, e2) ensures e1 == e2 {
      ApplySquares(s, p, m, e1, e2);
    }
  }
}

/**
 * A proposed move: the moving piece, where it stood, where it goes and the piece it takes.
 * The coordinates are stored on the move itself, so undoing a move does not depend on where
 * the piece has been since.
 */
module ChessMoves {
  import opened Decimal
  import opened ChessPieces

  /** The value of a move: references to the mover and to the captured piece (or null). */
  datatype Ply = Ply(piece: Piece, ox: int, oy: int, tx: int, ty: int, captured: Piece?)

  class Move {
    const piece: Piece
    const targetX: int
    const targetY: int
    const originalX: int
    const originalY: int
    const captured: Piece?

    constructor (piece: Piece, originalX: int, originalY: int, targetX: int, targetY: int, captured: Piece?)
      ensures AsPly() == Ply(piece, originalX, originalY, targetX, targetY, captured)
    {
      this.piece := piece;
      this.originalX := originalX;
      this.originalY := originalY;
      this.targetX := targetX;
      this.targetY := targetY;
      this.captured := captured;
    }

    function AsPly(): Ply {
      Ply(piece, originalX, originalY, targetX, targetY, captured)
    }

    /**
     * "<Kind> from (ox,oy) to (tx,ty)", followed by " (captures <Kind>)" exactly when the move
     * takes a piece.
     */
    function ToString(): (s: string)
      ensures StartsWith(s, TypeName(piece.kind) + " from ")
      ensures captured != null <==> HasCaptureSuffix(s)
      ensures captured != null ==> EndsWith(s, CaptureNote(captured.kind))
      ensures s == Head(TypeName(piece.kind), originalX, originalY, targetX, targetY)
                   + (if captured == null then "" else CaptureNote(captured.kind))
    {
      var head := Head(TypeName(piece.kind), originalX, originalY, targetX, targetY);
      if captured == null then
        NoCaptureSuffix(head);
        assert head + "" == head;
        head
      else
        var note := CaptureNote(captured.kind);
        AppendKeeps(head, note, TypeName(piece.kind) + " from ");
        assert EndsWith(head + note, CaptureNote(captured.kind));
        head + note
    }
  }

  /** "<name> from (ox,oy) to (tx,ty)". */
  function Head(name: string, ox: int, oy: int, tx: int, ty: int): (h: string)
    requires |name| >= 1
    ensures StartsWith(h, name + " from ")
    ensures |h| >= 2 && h[|h| - 1] == ')' && IsDigit(h[|h| - 2])
    ensures h == name + " from " + Coords(ox, oy) + " to " + Coords(tx, ty)
  {
    var lead := name + " from ";
    var mid := Coords(ox, oy) + " to ";
    var c2 := Coords(tx, ty);
    var rest := mid + c2;
    SuffixTail(mid, c2);
    assert rest[|rest| - 1] == ')' && IsDigit(rest[|rest| - 2]);
    SuffixTail(lead, rest);
    PrefixOf(lead, rest);
    Regroup(name, " from ", Coords(ox, oy), " to ", c2);
    lead + rest
  }

  /** Concatenation regrouped the way Head builds its text. */
  lemma Regroup(a: string, b: string, c: string, d: string, e: string)
    ensures (a + b) + ((c + d) + e) == a + b + c + d + e
  {
  }

  lemma PrefixOf(a: string, b: string)
    ensures StartsWith(a + b, a)
  {
    assert (a + b)[..|a|] == a;
  }

  lemma SuffixTail(a: string, b: string)
    requires |b| >= 2
    ensures (a + b)[|a + b| - 1] == b[|b| - 1] && (a + b)[|a + b| - 2] == b[|b| - 2]
  {
  }

  /** "(x,y)": ends in a digit followed by ')'. */
  function Coords(x: int, y: int): (s: string)
    ensures |s| >= 5 && s[0] == '(' && s[|s| - 1] == ')' && IsDigit(s[|s| - 2])
  {
    var ys := IntToString(y);
    var s := "(" + IntToString(x) + "," + ys + ")";
    assert s[|s| - 2] == ys[|ys| - 1];
    s
  }

  function CaptureNote(t: PieceType): string {
    " (captures " + TypeName(t) + ")"
  }

  /** Appending keeps a prefix and yields the appended suffix. */
  lemma AppendKeeps(h: string, note: string, prefix: string)
    requires StartsWith(h, prefix)
    ensures StartsWith(h + note, prefix)
    ensures EndsWith(h + note, note)
  {
    assert (h + note)[..|prefix|] == h[..|prefix|];
    assert (h + note)[|h|..] == note;
  }

  predicate StartsWith(s: string, prefix: string) {
    |prefix| <= |s| && s[..|prefix|] == prefix
  }

  predicate EndsWith(s: string, suffix: string) {
    |suffix| <= |s| && s[|s| - |suffix|..] == suffix
  }

  /** The text ends in the capture note for some kind. */
  predicate HasCaptureSuffix(s: string) {
    exists t: PieceType :: EndsWith(s, CaptureNote(t))
  }

  /** A text whose last two characters are a digit and ')' carries no capture note. */
  lemma NoCaptureSuffix(s: string)
    requires |s| >= 2 && IsDigit(s[|s| - 2]) && s[|s| - 1] == ')'
    ensures !HasCaptureSuffix(s)
  {
    forall t: PieceType
      ensures !EndsWith(s, CaptureNote(t))
    {
      var note := CaptureNote(t);
      var k := |note| - 2;
      assert note[k] == TypeName(t)[|TypeName(t)| - 1];
      if |note| <= |s| {
        assert s[|s| - |note|..][k] == s[|s| - 2];
      }
    }
  }

  /** The values of a list of moves, in order. */
  function Vals(ms: seq<Move>): (r: seq<Ply>)
    ensures |r| == |ms|
    ensures forall i | 0 <= i < |ms| :: r[i] == ms[i].AsPly()
  {
    seq(|ms|, i requires 0 <= i < |ms| => ms[i].AsPly())
  }
}

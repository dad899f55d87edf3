/**
 * The engine's move choice at the root. Every move of Max is tried, skipped moves included,
 * each child is searched with the full window, and a move replaces the current choice only when
 * its value is strictly greater, so the first move reaching the best value wins. A value equal
 * to the starting bound NegInf never makes a choice.
 */
module ChessRoot {
  import opened Options
  import opened ChessPieces
  import opened ChessMoves
  import opened ChessRules
  import opened ChessGeneration
  import opened ChessPosition
  import opened ChessSearch
  import opened ChessSearchProofs

  /**
   * Over moves ms with values vs, the first move whose value is strictly greater than every
   * value before it and than NegInf, together with that value (NegInf and no move when none is).
   */
  function Pick(ms: seq<Ply>, vs: seq<int>): (Option<Ply>, int)
    requires |ms| == |vs|
    decreases |ms|
  {
    if |ms| == 0 then (None, NegInf)
    else
      var prev := Pick(ms[..|ms| - 1], vs[..|vs| - 1]);
      if vs[|vs| - 1] > prev.1 then (Some(ms[|ms| - 1]), vs[|vs| - 1]) else prev
  }

  /** The minimax values of the moves of ms on layout s, in order. */
  function ChildValues(s: Layout, ms: seq<Ply>, depth: nat): seq<int>
    requires 1 <= depth
  {
    seq(|ms|, j requires 0 <= j < |ms| => Child(s, ms[j], depth, true))
  }

  /**
   * Reference choice: over the moves of ms, the first one with the greatest minimax value
   * strictly above NegInf, together with that value (NegInf and no move when there is none).
   */
  function FirstBest(s: Layout, ms: seq<Ply>, depth: nat): (Option<Ply>, int)
    requires 1 <= depth
  {
    Pick(ms, ChildValues(s, ms, depth))
  }

  /** Extending the prefix by one move compares that move's value with the best so far. */
  lemma FirstBestSnoc(s: Layout, ms: seq<Ply>, i: nat, depth: nat)
    requires 1 <= depth && i < |ms|
    ensures var prev := FirstBest(s, ms[..i], depth);
      var c := Child(s, ms[i], depth, true);
      FirstBest(s, ms[..i + 1], depth) == if c > prev.1 then (Some(ms[i]), c) else prev
  {
    var vs := ChildValues(s, ms[..i + 1], depth);
    assert ms[..i + 1][..i] == ms[..i];
    assert vs[..i] == ChildValues(s, ms[..i], depth);
  }

  /**
   * Pick is the first strict maximum: its value bounds every value, no move is chosen exactly
   * when every value is at most NegInf, and a chosen move sits at an index where its value is
   * reached and every earlier value is strictly smaller.
   */
  lemma {:induction false} PickIsFirstArgmax(ms: seq<Ply>, vs: seq<int>)
    requires |ms| == |vs|
    ensures var (o, v) := Pick(ms, vs);
      v >= NegInf
      && (forall j | 0 <= j < |vs| :: vs[j] <= v)
      && (o == None <==> v == NegInf)
      && (o.Some? ==> exists k :: 0 <= k < |ms| && ms[k] == o.value && vs[k] == v
                        && forall j | 0 <= j < k :: vs[j] < v)
    decreases |ms|
  {
    if |ms| > 0 {
      var n := |ms| - 1;
      PickIsFirstArgmax(ms[..n], vs[..n]);
      var prev := Pick(ms[..n], vs[..n]);
      if vs[n] > prev.1 {
        forall j | 0 <= j < n
          ensures vs[j] < vs[n]
        {
          assert vs[j] == vs[..n][j];
        }
      } else {
        forall j | 0 <= j < |vs|
          ensures vs[j] <= prev.1
        {
          if j < n {
            assert vs[j] == vs[..n][j];
          }
        }
        if prev.0.Some? {
          var k :| 0 <= k < n && ms[..n][k] == prev.0.value && vs[..n][k] == prev.1
                   && forall j | 0 <= j < k :: vs[..n][j] < prev.1;
          forall j | 0 <= j < k
            ensures vs[j] < prev.1
          {
            assert vs[j] == vs[..n][j];
          }
          assert ms[k] == prev.0.value && vs[k] == prev.1;
        }
      }
    }
  }

  /**
   * FirstBest is the first strict maximum: its value bounds every move's value, no move is
   * chosen exactly when every value is at most NegInf, and a chosen move sits at an index where
   * its value is reached and every earlier move's value is strictly smaller.
   */
  lemma FirstBestIsFirstArgmax(s: Layout, ms: seq<Ply>, depth: nat)
    requires 1 <= depth
    ensures var (o, v) := FirstBest(s, ms, depth);
      v >= NegInf
      && (forall m | m in ms :: Child(s, m, depth, true) <= v)
      && (o == None <==> v == NegInf)
      && (o.Some? ==> exists k :: 0 <= k < |ms| && ms[k] == o.value && Child(s, ms[k], depth, true) == v
                        && forall j | 0 <= j < k :: Child(s, ms[j], depth, true) < v)
  {
    var vs := ChildValues(s, ms, depth);
    PickIsFirstArgmax(ms, vs);
    var (o, v) := Pick(ms, vs);
    forall m | m in ms
      ensures Child(s, m, depth, true) <= v
    {
      var j :| 0 <= j < |ms| && ms[j] == m;
      assert vs[j] <= v;
    }
    if o.Some? {
      var k :| 0 <= k < |ms| && ms[k] == o.value && vs[k] == v && forall j | 0 <= j < k :: vs[j] < v;
      assert Child(s, ms[k], depth, true) == v;
      forall j | 0 <= j < k
        ensures Child(s, ms[j], depth, true) < v
      {
        assert vs[j] < v;
      }
      assert 0 <= k < |ms| && ms[k] == o.value && Child(s, ms[k], depth, true) == v
        && forall j | 0 <= j < k :: Child(s, ms[j], depth, true) < v;
    }
  }

  /** No move is chosen exactly when no move of ms has a value above NegInf. */
  lemma FirstBestNone(s: Layout, ms: seq<Ply>, depth: nat)
    requires 1 <= depth
    ensures FirstBest(s, ms, depth).0 == None
        <==> forall m | m in ms :: Child(s, m, depth, true) <= NegInf
  {
    FirstBestIsFirstArgmax(s, ms, depth);
    var (o, v) := FirstBest(s, ms, depth);
    if o.Some? {
      var k :| 0 <= k < |ms| && ms[k] == o.value && Child(s, ms[k], depth, true) == v
               && forall j | 0 <= j < k :: Child(s, ms[j], depth, true) < v;
      assert ms[k] in ms;
    }
  }
}

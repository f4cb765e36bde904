/**
  The order in which the packer offers a group's pieces to the slabs
  (src/utils/multiProductOptimization.js:70-78): by priority rank, then by
  area, largest first, with pieces that compare equal keeping their input
  order (JavaScript's `Array.prototype.sort` is stable).

  The comparator looks a label up in `{ high: 0, normal: 1, low: 2 }` and
  falls back to 1 when the lookup is falsy, so `high` (0) ranks like
  `normal`, and so does every label the table does not know: only `low`
  sorts later.
 */
module PieceOrder {
  import opened Placement

  /** Priority rank the comparator uses: 2 for `low`, 1 for every other label. */
  function Rank(p: Piece): int {
    if p.priority == "low" then 2 else 1
  }

  /** Area the comparator uses, in the piece's entered orientation. */
  function Area(p: Piece): real {
    p.width * p.depth
  }

  /** The comparator's verdict that `a` must come strictly before `b`. */
  predicate Before(a: Piece, b: Piece) {
    Rank(a) < Rank(b) || (Rank(a) == Rank(b) && Area(a) > Area(b))
  }

  /** A `high` piece has no precedence over a `normal` one or one of an unknown label: the larger goes first. */
  lemma HighRanksAsNormal(a: Piece, b: Piece)
    requires a.priority == "high" && b.priority != "low"
    ensures Before(a, b) <==> Area(a) > Area(b)
    ensures Before(b, a) <==> Area(b) > Area(a)
  {
  }

  /** Ranks never decrease along `s`, and within a rank areas never increase. */
  predicate Ordered(s: seq<Piece>) {
    forall i, j :: 0 <= i < j < |s| ==>
      Rank(s[i]) <= Rank(s[j]) && (Rank(s[i]) == Rank(s[j]) ==> Area(s[i]) >= Area(s[j]))
  }

  /** The pair the comparator looks at: pieces with equal keys compare equal. */
  function Key(p: Piece): (int, real) {
    (Rank(p), Area(p))
  }

  /** The pieces of `s` whose key is `k`, in their order in `s`. */
  function WithKey(s: seq<Piece>, k: (int, real)): seq<Piece> {
    if |s| == 0 then []
    else (if Key(s[0]) == k then [s[0]] else []) + WithKey(s[1..], k)
  }

  /** Inserts `x` in front of the first element that does not sort strictly before it. */
  function Insert(x: Piece, s: seq<Piece>): (r: seq<Piece>)
    ensures |r| == |s| + 1
    ensures multiset(r) == multiset(s) + multiset{x}
  {
    if |s| == 0 || !Before(s[0], x) then [x] + s
    else
      assert s == [s[0]] + s[1..];
      [s[0]] + Insert(x, s[1..])
  }

  /** No piece of `s` sorts strictly before `a`. */
  predicate NoneBefore(s: seq<Piece>, a: Piece) {
    forall j :: 0 <= j < |s| ==> !Before(s[j], a)
  }

  lemma NotBeforeTransitive(a: Piece, b: Piece, c: Piece)
    requires !Before(b, a) && !Before(c, b)
    ensures !Before(c, a)
  {
  }

  /** A piece that nothing after it sorts before, in front of an ordered sequence, keeps it ordered. */
  lemma ConsOrdered(a: Piece, t: seq<Piece>)
    requires Ordered(t) && NoneBefore(t, a)
    ensures Ordered([a] + t)
  {
    var r := [a] + t;
    forall i, j | 0 <= i < j < |r|
      ensures Rank(r[i]) <= Rank(r[j]) && (Rank(r[i]) == Rank(r[j]) ==> Area(r[i]) >= Area(r[j]))
    {
      assert r[j] == t[j - 1];
      if i > 0 {
        assert r[i] == t[i - 1];
      }
    }
  }

  /** Inserting a piece that does not sort before `a` among pieces that do not keeps that so. */
  lemma {:induction false} InsertBound(x: Piece, s: seq<Piece>, a: Piece)
    requires NoneBefore(s, a) && !Before(x, a)
    ensures NoneBefore(Insert(x, s), a)
  {
    if |s| > 0 && Before(s[0], x) {
      InsertBound(x, s[1..], a);
      var r := Insert(x, s);
      forall j | 0 <= j < |r|
        ensures !Before(r[j], a)
      {
        if j > 0 {
          assert r[j] == Insert(x, s[1..])[j - 1];
        }
      }
    }
  }

  /** Inserting into an ordered sequence keeps it ordered. */
  lemma {:induction false} InsertOrdered(x: Piece, s: seq<Piece>)
    requires Ordered(s)
    ensures Ordered(Insert(x, s))
  {
    if |s| == 0 || !Before(s[0], x) {
      forall j | 0 <= j < |s|
        ensures !Before(s[j], x)
      {
        if j > 0 {
          NotBeforeTransitive(x, s[0], s[j]);
        }
      }
      ConsOrdered(x, s);
    } else {
      InsertOrdered(x, s[1..]);
      forall j | 0 <= j < |s[1..]|
        ensures !Before(s[1..][j], s[0])
      {
        assert s[1..][j] == s[j + 1];
      }
      InsertBound(x, s[1..], s[0]);
      ConsOrdered(s[0], Insert(x, s[1..]));
    }
  }

  /** Inserting `x` adds it in front of the pieces that share its key and leaves every other key's subsequence alone. */
  lemma {:induction false} InsertKeepsKeyOrder(x: Piece, s: seq<Piece>, k: (int, real))
    ensures WithKey(Insert(x, s), k) == if Key(x) == k then [x] + WithKey(s, k) else WithKey(s, k)
  {
    var r := Insert(x, s);
    if |s| == 0 || !Before(s[0], x) {
      assert r[1..] == s;
    } else {
      var rest := Insert(x, s[1..]);
      assert r[1..] == rest;
      InsertKeepsKeyOrder(x, s[1..], k);
    }
  }

  /**
    The group's pieces in packing order: a permutation of the input, ordered
    by rank and then by descending area.
   */
  function SortPieces(s: seq<Piece>): (r: seq<Piece>)
    ensures |r| == |s|
    ensures multiset(r) == multiset(s)
    ensures Ordered(r)
  {
    if |s| == 0 then []
    else
      var tail := SortPieces(s[1..]);
      InsertOrdered(s[0], tail);
      assert s == [s[0]] + s[1..];
      Insert(s[0], tail)
  }

  /** Stability: for every key, the pieces carrying it appear in the same order before and after sorting. */
  lemma {:induction false} SortIsStable(s: seq<Piece>, k: (int, real))
    ensures WithKey(SortPieces(s), k) == WithKey(s, k)
  {
    if |s| > 0 {
      SortIsStable(s[1..], k);
      InsertKeepsKeyOrder(s[0], SortPieces(s[1..]), k);
    }
  }
}

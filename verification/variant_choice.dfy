/**
  The default catalog variant for a stone type (`findBestCombination`): among
  the catalog rows of that type, the one whose thickness comes earliest in the
  thickness preference list, and among those the one whose finish comes
  earliest in the finish preference list; a thickness or finish missing from
  its list comes after every listed one.
 */
module VariantChoice {
  import opened Common
  import opened Domain

  /** Thicknesses, most preferred first. */
  const ThicknessOrder: seq<string> := ["3CM", "2CM", "4CM", "5CM", "6CM"]

  /** Finishes, most preferred first. */
  const FinishOrder: seq<string> := ["Polished", "Honed", "Leathered", "Brushed", "Flamed"]

  /** `Array.prototype.indexOf`: the first position of `x` in `xs`, or -1. */
  function IndexOf(xs: seq<string>, x: string): (r: int)
    ensures r == -1 <==> x !in xs
    ensures r != -1 ==> 0 <= r < |xs| && xs[r] == x && forall i :: 0 <= i < r ==> xs[i] != x
  {
    if |xs| == 0 then -1
    else if xs[0] == x then 0
    else
      var r := IndexOf(xs[1..], x);
      if r == -1 then -1 else r + 1
  }

  /** One replacement test of the loop: `stone` beats the current best. */
  predicate Beats(stone: StoneVariant, best: StoneVariant) {
    var currentThick := IndexOf(ThicknessOrder, best.thickness);
    var newThick := IndexOf(ThicknessOrder, stone.thickness);
    var currentFinish := IndexOf(FinishOrder, best.finish);
    var newFinish := IndexOf(FinishOrder, stone.finish);
    if newThick != -1 && (currentThick == -1 || newThick < currentThick) then true
    else newThick == currentThick && newFinish != -1 && (currentFinish == -1 || newFinish < currentFinish)
  }

  /** The catalog rows of the stone type, in catalog order (`stoneOptions.filter`). */
  function Variants(catalog: seq<StoneVariant>, stoneType: string): (r: seq<StoneVariant>)
    ensures |r| <= |catalog|
    decreases |catalog|
  {
    if |catalog| == 0 then []
    else
      var last := catalog[|catalog| - 1];
      Variants(catalog[..|catalog| - 1], stoneType) + (if last.stoneType == stoneType then [last] else [])
  }

  /** The `for … of` loop: the best so far, replaced by each row that beats it. */
  function Scan(best: StoneVariant, rows: seq<StoneVariant>): (r: StoneVariant)
    ensures r == best || r in rows
    decreases |rows|
  {
    if |rows| == 0 then best
    else
      var sofar := Scan(best, rows[..|rows| - 1]);
      if Beats(rows[|rows| - 1], sofar) then rows[|rows| - 1] else sofar
  }

  /** `findBestCombination`: no row when the catalog has none of the type, else the best of its rows. */
  function FindBestCombination(stoneType: string, catalog: seq<StoneVariant>): (r: Option<StoneVariant>)
    ensures r.None? <==> forall i :: 0 <= i < |catalog| ==> catalog[i].stoneType != stoneType
    ensures r.Some? ==> r.value in catalog && r.value.stoneType == stoneType
  {
    var variants := Variants(catalog, stoneType);
    VariantsAreRows(catalog, stoneType);
    if |variants| == 0 then None else Some(Scan(variants[0], variants))
  }

  // ---------------------------------------------------------------------
  // The rows of the type
  // ---------------------------------------------------------------------

  /** The variants are exactly the catalog rows of the type. */
  lemma {:induction false} VariantsAreRows(catalog: seq<StoneVariant>, stoneType: string)
    ensures forall v :: v in Variants(catalog, stoneType) <==> v in catalog && v.stoneType == stoneType
    ensures |Variants(catalog, stoneType)| == 0 <==> forall i :: 0 <= i < |catalog| ==> catalog[i].stoneType != stoneType
    decreases |catalog|
  {
    if |catalog| > 0 {
      var n := |catalog| - 1;
      VariantsAreRows(catalog[..n], stoneType);
      assert catalog == catalog[..n] + [catalog[n]];
      forall i | 0 <= i < n
        ensures catalog[..n][i] == catalog[i]
      {
      }
    }
  }

  // ---------------------------------------------------------------------
  // The replacement test is a lexicographic order
  // ---------------------------------------------------------------------

  /** A list position, with "not listed" (-1) after every listed position. */
  function Rank(index: int, listed: nat): int {
    if index == -1 then listed else index
  }

  /** Where a row stands in the preference: thickness first, then finish. */
  datatype Standing = Standing(thickness: int, finish: int)

  function StandingOf(row: StoneVariant): (s: Standing)
    ensures 0 <= s.thickness <= |ThicknessOrder| && 0 <= s.finish <= |FinishOrder|
  {
    Standing(Rank(IndexOf(ThicknessOrder, row.thickness), |ThicknessOrder|),
             Rank(IndexOf(FinishOrder, row.finish), |FinishOrder|))
  }

  /** `a` comes strictly before `b`: a better thickness, or the same thickness and a better finish. */
  predicate Precedes(a: Standing, b: Standing) {
    a.thickness < b.thickness || (a.thickness == b.thickness && a.finish < b.finish)
  }

  /** A row beats the best so far exactly when it stands strictly before it. */
  lemma BeatsIsPrecedes(stone: StoneVariant, best: StoneVariant)
    ensures Beats(stone, best) <==> Precedes(StandingOf(stone), StandingOf(best))
  {
    var ct := IndexOf(ThicknessOrder, best.thickness);
    var nt := IndexOf(ThicknessOrder, stone.thickness);
    var cf := IndexOf(FinishOrder, best.finish);
    var nf := IndexOf(FinishOrder, stone.finish);
    assert -1 <= ct < 5 && -1 <= nt < 5 && -1 <= cf < 5 && -1 <= nf < 5;
  }

  // ---------------------------------------------------------------------
  // The scan picks the first row of least standing
  // ---------------------------------------------------------------------

  /** `rows[k]` stands no later than any row, and strictly before every earlier one. */
  predicate FirstLeast(rows: seq<StoneVariant>, k: int) {
    && 0 <= k < |rows|
    && (forall i :: 0 <= i < |rows| ==> !Precedes(StandingOf(rows[i]), StandingOf(rows[k])))
    && (forall i :: 0 <= i < k ==> Precedes(StandingOf(rows[k]), StandingOf(rows[i])))
  }

  lemma PrecedesTransitive(a: Standing, b: Standing, c: Standing)
    requires Precedes(a, b) && Precedes(b, c)
    ensures Precedes(a, c)
  {
  }

  /** Of two standings, one precedes the other or they are equal. */
  lemma PrecedesTotal(a: Standing, b: Standing)
    ensures Precedes(a, b) || Precedes(b, a) || a == b
  {
  }

  lemma FirstLeastOfOne(rows: seq<StoneVariant>)
    requires |rows| == 1
    ensures FirstLeast(rows, 0)
  {
    forall i | 0 <= i < |rows|
      ensures !Precedes(StandingOf(rows[i]), StandingOf(rows[0]))
    {
      assert i == 0;
    }
  }

  /** A row that stands before the first least row of the earlier ones is the first least row of them all. */
  lemma ExtendBeaten(rows: seq<StoneVariant>, x: StoneVariant, k: int)
    requires FirstLeast(rows, k) && Precedes(StandingOf(x), StandingOf(rows[k]))
    ensures FirstLeast(rows + [x], |rows|)
  {
    var all := rows + [x];
    forall i | 0 <= i < |all|
      ensures !Precedes(StandingOf(all[i]), StandingOf(x))
    {
      if i < |rows| {
        assert all[i] == rows[i];
        if Precedes(StandingOf(rows[i]), StandingOf(x)) {
          PrecedesTransitive(StandingOf(rows[i]), StandingOf(x), StandingOf(rows[k]));
        }
      }
    }
    forall i | 0 <= i < |rows|
      ensures Precedes(StandingOf(x), StandingOf(all[i]))
    {
      assert all[i] == rows[i];
      PrecedesTotal(StandingOf(rows[k]), StandingOf(rows[i]));
      if Precedes(StandingOf(rows[k]), StandingOf(rows[i])) {
        PrecedesTransitive(StandingOf(x), StandingOf(rows[k]), StandingOf(rows[i]));
      }
    }
  }

  /** A row that does not stand before the first least row of the earlier ones leaves it first and least. */
  lemma ExtendKept(rows: seq<StoneVariant>, x: StoneVariant, k: int)
    requires FirstLeast(rows, k) && !Precedes(StandingOf(x), StandingOf(rows[k]))
    ensures FirstLeast(rows + [x], k)
  {
    var all := rows + [x];
    assert all[k] == rows[k];
    forall i | 0 <= i < |all|
      ensures !Precedes(StandingOf(all[i]), StandingOf(all[k]))
    {
      if i < |rows| {
        assert all[i] == rows[i];
      }
    }
    forall i | 0 <= i < k
      ensures Precedes(StandingOf(all[k]), StandingOf(all[i]))
    {
      assert all[i] == rows[i];
    }
  }

  /** Scanning a non-empty run of rows from its own first row ends on its first row of least standing. */
  lemma {:induction false} ScanFindsFirstLeast(rows: seq<StoneVariant>)
    requires |rows| > 0
    ensures exists k :: FirstLeast(rows, k) && Scan(rows[0], rows) == rows[k]
    decreases |rows|
  {
    var n := |rows| - 1;
    if n == 0 {
      assert Scan(rows[0], rows[..0]) == rows[0];
      BeatsIsPrecedes(rows[0], rows[0]);
      FirstLeastOfOne(rows);
    } else {
      var prefix := rows[..n];
      assert rows == prefix + [rows[n]];
      ScanFindsFirstLeast(prefix);
      var k :| FirstLeast(prefix, k) && Scan(prefix[0], prefix) == prefix[k];
      assert prefix[0] == rows[0];
      BeatsIsPrecedes(rows[n], prefix[k]);
      if Precedes(StandingOf(rows[n]), StandingOf(prefix[k])) {
        ExtendBeaten(prefix, rows[n], k);
        assert Scan(rows[0], rows) == rows[n];
      } else {
        ExtendKept(prefix, rows[n], k);
        assert Scan(rows[0], rows) == rows[k];
      }
    }
  }

  /**
    The default variant of a stone type is the first of its rows, in catalog
    order, whose thickness and then finish are most preferred.
   */
  lemma BestIsFirstLeast(stoneType: string, catalog: seq<StoneVariant>)
    requires FindBestCombination(stoneType, catalog).Some?
    ensures exists k :: FirstLeast(Variants(catalog, stoneType), k)
                        && FindBestCombination(stoneType, catalog).value == Variants(catalog, stoneType)[k]
  {
    ScanFindsFirstLeast(Variants(catalog, stoneType));
  }

  /** A listed thickness is preferred to an unlisted one, whatever the finishes. */
  lemma ListedThicknessWins(a: StoneVariant, b: StoneVariant)
    requires a.thickness in ThicknessOrder && b.thickness !in ThicknessOrder
    ensures Beats(a, b) && !Beats(b, a)
  {
  }

  /** At the same thickness, a listed finish is preferred to an unlisted one. */
  lemma ListedFinishWins(a: StoneVariant, b: StoneVariant)
    requires a.thickness == b.thickness && a.finish in FinishOrder && b.finish !in FinishOrder
    ensures Beats(a, b) && !Beats(b, a)
  {
  }
}

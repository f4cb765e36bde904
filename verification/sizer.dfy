/**
  Sizing and pricing of one product on its own: how many tops of the
  product's size fit on one slab, how many slabs the quantity needs, and
  what the product costs.

  A slab holds tops in at most two bands laid one above the other: a band
  of rows of tops standing upright (width across, depth up) and a band of
  rows of tops turned a quarter (depth across, width up). Every row of a
  band holds as many tops as the slab width allows. Neighbouring tops, rows
  and bands are separated by one kerf.
 */
module Sizer {
  import opened Common
  import opened Domain

  /** `Math.floor((len + k) / (side + k))`: how many sides of length `side`, `k` apart, fit into `len`. */
  function Fit(len: real, side: real, k: real): int
    requires side + k != 0.0
  {
    ((len + k) / (side + k)).Floor
  }

  function RealMax(a: real, b: real): real {
    if a >= b then a else b
  }

  /** The kerf the sizer counts: none unless kerf is included. */
  function Kerf(includeKerf: bool, kerfWidth: real): real {
    if includeKerf then kerfWidth else 0.0
  }

  /** Tops in `a` upright rows and `b` turned rows. */
  function Layout(pw: real, ph: real, sw: real, k: real, a: int, b: int): int
    requires pw + k != 0.0 && ph + k != 0.0
  {
    a * Fit(sw, pw, k) + b * Fit(sw, ph, k)
  }

  /** Height `a` upright rows and `b` turned rows take up, one kerf between neighbouring rows. */
  function BandsHeight(pw: real, ph: real, k: real, a: nat, b: nat): real {
    if a + b == 0 then 0.0 else (a as real) * (ph + k) + (b as real) * (pw + k) - k
  }

  /** `a` upright rows and `b` turned rows fit the slab height. */
  predicate BandsFit(pw: real, ph: real, sh: real, k: real, a: nat, b: nat) {
    BandsHeight(pw, ph, k, a, b) <= sh
  }

  /**
    The count the sweep records for `rows` upright rows: those rows, then as
    many turned rows as the height left over takes, when it takes at least
    one top's width. With `gap` the left-over height also gives up the kerf
    between the two bands; without it, as the source computes, it does not.
   */
  function Split(pw: real, ph: real, sw: real, sh: real, k: real, rows: int, gap: bool): int
    requires pw + k != 0.0 && ph + k != 0.0
  {
    Stacked(pw, ph, sw, k, rows, LeftOver(ph, sh, k, rows, gap))
  }

  /** The height the sweep leaves under `rows` upright rows, as `Split` computes it. */
  function LeftOver(ph: real, sh: real, k: real, rows: int, gap: bool): real {
    sh - RealMax(0.0, (rows as real) * (ph + k) - k) - (if gap && rows > 0 then k else 0.0)
  }

  /** `rows` upright rows, then as many turned rows as `left` takes when it takes at least one top's width. */
  function Stacked(pw: real, ph: real, sw: real, k: real, rows: int, left: real): int
    requires pw + k != 0.0 && ph + k != 0.0
  {
    var upright := rows * Fit(sw, pw, k);
    if left >= pw then upright + Fit(left, pw, k) * Fit(sw, ph, k) else upright
  }

  /** The turned rows a height `left` takes: none when it is shorter than one top's width. */
  function TurnedRows(pw: real, k: real, left: real): int
    requires pw + k != 0.0
  {
    if left >= pw then Fit(left, pw, k) else 0
  }

  /** Running maximum of `start` and the counts of the sweep for 0 .. n-1 upright rows. */
  function Sweep(pw: real, ph: real, sw: real, sh: real, k: real, gap: bool, start: int, n: nat): (r: int)
    requires pw + k != 0.0 && ph + k != 0.0
    ensures r >= start
    ensures forall rows :: 0 <= rows < n ==> r >= Split(pw, ph, sw, sh, k, rows, gap)
    ensures r == start || exists rows :: 0 <= rows < n && r == Split(pw, ph, sw, sh, k, rows, gap)
    decreases n
  {
    if n == 0 then start
    else Max(Sweep(pw, ph, sw, sh, k, gap, start, n - 1), Split(pw, ph, sw, sh, k, n - 1, gap))
  }

  /** How often a loop `for (r = 0; r <= bound; r++)` runs. */
  function Rounds(bound: int): nat {
    if bound < 0 then 0 else bound + 1
  }

  /**
    The better full grid of either orientation, then the sweep over upright
    rows, then the sweep over turned rows (the same sweep with the piece's
    sides swapped).
   */
  function Best(pw: real, ph: real, sw: real, sh: real, k: real, gap: bool): (r: int)
    requires pw + k != 0.0 && ph + k != 0.0
    ensures r >= Fit(sw, pw, k) * Fit(sh, ph, k) && r >= Fit(sw, ph, k) * Fit(sh, pw, k)
    ensures forall rows :: 0 <= rows <= Fit(sh, ph, k) ==> r >= Split(pw, ph, sw, sh, k, rows, gap)
    ensures forall rows :: 0 <= rows <= Fit(sh, pw, k) ==> r >= Split(ph, pw, sw, sh, k, rows, gap)
    ensures Compared(pw, ph, sw, sh, k, gap, r)
  {
    var grid := Max(Fit(sw, pw, k) * Fit(sh, ph, k), Fit(sw, ph, k) * Fit(sh, pw, k));
    var upright := Sweep(pw, ph, sw, sh, k, gap, grid, Rounds(Fit(sh, ph, k)));
    Sweep(ph, pw, sw, sh, k, gap, upright, Rounds(Fit(sh, pw, k)))
  }

  /** `c` is one of the counts compared: a full grid of either orientation, or a count of either sweep. */
  predicate Compared(pw: real, ph: real, sw: real, sh: real, k: real, gap: bool, c: int)
    requires pw + k != 0.0 && ph + k != 0.0
  {
    || c == Fit(sw, pw, k) * Fit(sh, ph, k)
    || c == Fit(sw, ph, k) * Fit(sh, pw, k)
    || (exists rows :: 0 <= rows <= Fit(sh, ph, k) && c == Split(pw, ph, sw, sh, k, rows, gap))
    || (exists rows :: 0 <= rows <= Fit(sh, pw, k) && c == Split(ph, pw, sw, sh, k, rows, gap))
  }

  /**
    `calculateMaxPiecesPerSlab` as the source computes it: the sweep does not
    leave a kerf between the two bands. A piece side plus kerf of 0 is
    excluded: there the sweep's loop bound is infinite for a slab of positive
    height, and the source never returns.
   */
  function MaxPiecesPerSlab(pw: real, ph: real, sw: real, sh: real, includeKerf: bool, kerfWidth: real): (r: int)
    requires pw + Kerf(includeKerf, kerfWidth) != 0.0 && ph + Kerf(includeKerf, kerfWidth) != 0.0
    ensures var k := Kerf(includeKerf, kerfWidth);
            r >= Fit(sw, pw, k) * Fit(sh, ph, k) && r >= Fit(sw, ph, k) * Fit(sh, pw, k)
  {
    Best(pw, ph, sw, sh, Kerf(includeKerf, kerfWidth), false)
  }

  /** The tops per slab with the kerf between the two bands left, as the layout needs. */
  function TopsPerSlab(pw: real, ph: real, sw: real, sh: real, includeKerf: bool, kerfWidth: real): (r: int)
    requires pw + Kerf(includeKerf, kerfWidth) != 0.0 && ph + Kerf(includeKerf, kerfWidth) != 0.0
    ensures var k := Kerf(includeKerf, kerfWidth);
            r >= Fit(sw, pw, k) * Fit(sh, ph, k) && r >= Fit(sw, ph, k) * Fit(sh, pw, k)
  {
    Best(pw, ph, sw, sh, Kerf(includeKerf, kerfWidth), true)
  }

  // ---------------------------------------------------------------------
  // Arithmetic of Fit
  // ---------------------------------------------------------------------

  lemma MulLess(u: real, v: real, d: real)
    requires u < v && d > 0.0
    ensures u * d < v * d
  {
  }

  lemma MulAtMost(u: real, v: real, d: real)
    requires u <= v && d > 0.0
    ensures u * d <= v * d
  {
  }

  lemma DivTimes(a: real, d: real)
    requires d > 0.0
    ensures (a / d) * d == a
  {
  }

  /** `Fit` sides take no more than `len + k`, and one side more would. */
  lemma FitBounds(len: real, side: real, k: real)
    requires side + k > 0.0
    ensures (Fit(len, side, k) as real) * (side + k) <= len + k
    ensures len + k < (Fit(len, side, k) as real + 1.0) * (side + k)
  {
    var d := side + k;
    var x := (len + k) / d;
    var f := x.Floor as real;
    DivTimes(len + k, d);
    MulAtMost(f, x, d);
    assert x < f + 1.0;
    MulLess(x, f + 1.0, d);
    assert len + k < (f + 1.0) * d;
    assert Fit(len, side, k) as real == f;
  }

  lemma FitNonNegative(len: real, side: real, k: real)
    requires side + k > 0.0 && len + k >= 0.0
    ensures Fit(len, side, k) >= 0
  {
    FitBounds(len, side, k);
  }

  /** Any `n` sides that fit into `len` are at most `Fit` of them. */
  lemma FitIsMost(len: real, side: real, k: real, n: int)
    requires side + k > 0.0 && (n as real) * (side + k) <= len + k
    ensures n <= Fit(len, side, k)
  {
    var f := Fit(len, side, k);
    FitBounds(len, side, k);
    if n > f {
      var d := side + k;
      assert (f as real + 1.0) * d == ((f + 1) as real) * d;
      MonotoneScale(f + 1, n, d);
      assert false;
    }
  }

  lemma MonotoneScale(n: int, m: int, d: real)
    requires n <= m && d > 0.0
    ensures (n as real) * d <= (m as real) * d
  {
  }

  lemma MonotoneCount(n: int, m: int, c: int)
    requires n <= m && c >= 0
    ensures n * c <= m * c
  {
  }

  /** The count does not depend on which side of the piece is called its width. */
  lemma BestSymmetric(pw: real, ph: real, sw: real, sh: real, k: real, gap: bool)
    requires pw + k != 0.0 && ph + k != 0.0
    ensures Best(pw, ph, sw, sh, k, gap) == Best(ph, pw, sw, sh, k, gap)
  {
    var r1 := Best(pw, ph, sw, sh, k, gap);
    var r2 := Best(ph, pw, sw, sh, k, gap);
    assert r1 >= r2 by {
      assert Compared(ph, pw, sw, sh, k, gap, r2);
    }
    assert r2 >= r1 by {
      assert Compared(pw, ph, sw, sh, k, gap, r1);
    }
  }

  /** Swapping the piece's width and depth gives the same count, as the source's two grids and two sweeps mirror each other. */
  lemma MaxPiecesSymmetric(pw: real, ph: real, sw: real, sh: real, includeKerf: bool, kerfWidth: real)
    requires pw + Kerf(includeKerf, kerfWidth) != 0.0 && ph + Kerf(includeKerf, kerfWidth) != 0.0
    ensures MaxPiecesPerSlab(pw, ph, sw, sh, includeKerf, kerfWidth) == MaxPiecesPerSlab(ph, pw, sw, sh, includeKerf, kerfWidth)
    ensures TopsPerSlab(pw, ph, sw, sh, includeKerf, kerfWidth) == TopsPerSlab(ph, pw, sw, sh, includeKerf, kerfWidth)
  {
    BestSymmetric(pw, ph, sw, sh, Kerf(includeKerf, kerfWidth), false);
    BestSymmetric(pw, ph, sw, sh, Kerf(includeKerf, kerfWidth), true);
  }

  // ---------------------------------------------------------------------
  // The corrected count is the best two-band layout
  // ---------------------------------------------------------------------

  /** The slab dimensions and kerf for which a layout is physical. */
  predicate Physical(pw: real, ph: real, sw: real, sh: real, k: real) {
    pw > 0.0 && ph > 0.0 && sw >= 0.0 && sh >= 0.0 && k >= 0.0
  }

  /** No side fits into a length shorter than itself. */
  lemma FitZero(len: real, side: real, k: real)
    requires side + k > 0.0 && 0.0 <= len + k < side + k
    ensures Fit(len, side, k) == 0
  {
    var d := side + k;
    var q := (len + k) / d;
    DivTimes(len + k, d);
    if q >= 1.0 {
      MulAtMost(1.0, q, d);
      assert false;
    }
    if q < 0.0 {
      MulLess(q, 0.0, d);
      assert false;
    }
  }

  /** The piece fits the slab in neither orientation. */
  predicate FitsNowhere(pw: real, ph: real, sw: real, sh: real) {
    (pw > sw || ph > sh) && (ph > sw || pw > sh)
  }

  /** Every count compared is 0 when the piece fits the slab in neither orientation. */
  lemma ComparedZero(pw: real, ph: real, sw: real, sh: real, k: real, gap: bool, c: int)
    requires Physical(pw, ph, sw, sh, k) && FitsNowhere(pw, ph, sw, sh)
    requires Compared(pw, ph, sw, sh, k, gap, c)
    ensures c == 0
  {
    var a, b, h1, h2 := Fit(sw, pw, k), Fit(sw, ph, k), Fit(sh, ph, k), Fit(sh, pw, k);
    FitNonNegative(sw, pw, k);
    FitNonNegative(sw, ph, k);
    FitNonNegative(sh, ph, k);
    FitNonNegative(sh, pw, k);
    if pw > sw { FitZero(sw, pw, k); }
    if ph > sw { FitZero(sw, ph, k); }
    if ph > sh { FitZero(sh, ph, k); }
    if pw > sh { FitZero(sh, pw, k); }
    if rows :| 0 <= rows <= h1 && c == Split(pw, ph, sw, sh, k, rows, gap) {
      var left := sh - RealMax(0.0, (rows as real) * (ph + k) - k) - (if gap && rows > 0 then k else 0.0);
      assert left <= sh;
      assert c == Stacked(pw, ph, sw, k, rows, left);
      if left >= pw {
        assert c == rows * a + Fit(left, pw, k) * b;
      }
    } else if rows :| 0 <= rows <= h2 && c == Split(ph, pw, sw, sh, k, rows, gap) {
      var left := sh - RealMax(0.0, (rows as real) * (pw + k) - k) - (if gap && rows > 0 then k else 0.0);
      assert left <= sh;
      assert c == Stacked(ph, pw, sw, k, rows, left);
      if left >= ph {
        assert c == rows * b + Fit(left, ph, k) * a;
      }
    }
  }

  /** A piece that fits the slab in neither orientation gives a count of 0, by either computation. */
  lemma MaxPiecesZeroWhenNoFit(pw: real, ph: real, sw: real, sh: real, includeKerf: bool, kerfWidth: real)
    requires Physical(pw, ph, sw, sh, Kerf(includeKerf, kerfWidth)) && FitsNowhere(pw, ph, sw, sh)
    ensures MaxPiecesPerSlab(pw, ph, sw, sh, includeKerf, kerfWidth) == 0
    ensures TopsPerSlab(pw, ph, sw, sh, includeKerf, kerfWidth) == 0
  {
    var k := Kerf(includeKerf, kerfWidth);
    ComparedZero(pw, ph, sw, sh, k, false, Best(pw, ph, sw, sh, k, false));
    ComparedZero(pw, ph, sw, sh, k, true, Best(pw, ph, sw, sh, k, true));
  }

  /** For a physical piece, slab and kerf the count is never negative. */
  lemma MaxPiecesNonNegative(pw: real, ph: real, sw: real, sh: real, includeKerf: bool, kerfWidth: real)
    requires Physical(pw, ph, sw, sh, Kerf(includeKerf, kerfWidth))
    ensures MaxPiecesPerSlab(pw, ph, sw, sh, includeKerf, kerfWidth) >= 0
    ensures TopsPerSlab(pw, ph, sw, sh, includeKerf, kerfWidth) >= 0
  {
    var k := Kerf(includeKerf, kerfWidth);
    FitNonNegative(sw, pw, k);
    FitNonNegative(sh, ph, k);
    MonotoneCount(0, Fit(sw, pw, k), Fit(sh, ph, k));
  }

  /** A count of tops some fitting two-band layout holds. */
  ghost predicate Realisable(pw: real, ph: real, sw: real, sh: real, k: real, n: int)
    requires Physical(pw, ph, sw, sh, k)
  {
    exists a: nat, b: nat :: BandsFit(pw, ph, sh, k, a, b) && n == Layout(pw, ph, sw, k, a, b)
  }

  lemma AtLeastOnce(n: int, d: real)
    requires n >= 1 && d > 0.0
    ensures (n as real) * d >= d
  {
  }

  /** With the band gap, the height left under `rows` upright rows is the slab height less those rows and their kerfs. */
  lemma SplitWithGap(pw: real, ph: real, sw: real, sh: real, k: real, rows: nat)
    requires Physical(pw, ph, sw, sh, k)
    ensures Split(pw, ph, sw, sh, k, rows, true) == Stacked(pw, ph, sw, k, rows, sh - (rows as real) * (ph + k))
  {
    SplitLeft(ph, sh, k, rows, true);
  }

  lemma UprightBandFits(pw: real, ph: real, sh: real, k: real, a: nat, height: real)
    requires pw > 0.0 && ph > 0.0 && k >= 0.0 && sh >= 0.0
    requires height == (a as real) * (ph + k) && height <= sh + k
    ensures BandsFit(pw, ph, sh, k, a, 0)
  {
    if a > 0 {
      assert BandsHeight(pw, ph, k, a, 0) == height - k;
    }
  }

  lemma TwoBandsFit(pw: real, ph: real, sh: real, k: real, a: nat, b: nat, upright: real, turned: real)
    requires pw > 0.0 && ph > 0.0 && k >= 0.0
    requires upright == (a as real) * (ph + k) && turned == (b as real) * (pw + k)
    requires turned <= sh - upright + k && upright >= 0.0 && sh >= 0.0
    ensures BandsFit(pw, ph, sh, k, a, b)
  {
    if a + b > 0 {
      assert BandsHeight(pw, ph, k, a, b) == upright + turned - k;
    }
  }

  /** The count of `rows` upright rows and `b` turned rows is held by a layout that fits. */
  lemma LayoutRealisable(pw: real, ph: real, sw: real, sh: real, k: real, rows: nat, b: nat, n: int)
    requires Physical(pw, ph, sw, sh, k) && BandsFit(pw, ph, sh, k, rows, b)
    requires n == Layout(pw, ph, sw, k, rows, b)
    ensures Realisable(pw, ph, sw, sh, k, n)
  {
  }

  lemma StackedRealisable(pw: real, ph: real, sw: real, sh: real, k: real, rows: nat, upright: real)
    requires Physical(pw, ph, sw, sh, k)
    requires upright == (rows as real) * (ph + k) && 0.0 <= upright <= sh + k
    ensures Realisable(pw, ph, sw, sh, k, Stacked(pw, ph, sw, k, rows, sh - upright))
  {
    var left := sh - upright;
    if left >= pw {
      var b := Fit(left, pw, k);
      FitBounds(left, pw, k);
      FitNonNegative(left, pw, k);
      TwoBandsFit(pw, ph, sh, k, rows, b, upright, (b as real) * (pw + k));
      LayoutRealisable(pw, ph, sw, sh, k, rows, b, Stacked(pw, ph, sw, k, rows, left));
    } else {
      UprightBandFits(pw, ph, sh, k, rows, upright);
      LayoutRealisable(pw, ph, sw, sh, k, rows, 0, Stacked(pw, ph, sw, k, rows, left));
    }
  }

  /** With the band gap, every count the sweep records is held by a layout that fits. */
  lemma SplitRealisable(pw: real, ph: real, sw: real, sh: real, k: real, rows: int)
    requires Physical(pw, ph, sw, sh, k) && 0 <= rows <= Fit(sh, ph, k)
    ensures Realisable(pw, ph, sw, sh, k, Split(pw, ph, sw, sh, k, rows, true))
  {
    var upright := (rows as real) * (ph + k);
    assert 0.0 <= upright by {
      MonotoneScale(0, rows, ph + k);
    }
    var most := (Fit(sh, ph, k) as real) * (ph + k);
    assert upright <= most by {
      MonotoneScale(rows, Fit(sh, ph, k), ph + k);
    }
    assert most <= sh + k by {
      FitBounds(sh, ph, k);
    }
    assert Split(pw, ph, sw, sh, k, rows, true) == Stacked(pw, ph, sw, k, rows, sh - upright) by {
      SplitWithGap(pw, ph, sw, sh, k, rows);
    }
    StackedRealisable(pw, ph, sw, sh, k, rows, upright);
  }

  /** A layout of `a` upright and `b` turned rows, seen with the piece's sides swapped. */
  lemma SwappedLayout(pw: real, ph: real, sw: real, sh: real, k: real, a: nat, b: nat)
    requires Physical(pw, ph, sw, sh, k)
    ensures BandsFit(ph, pw, sh, k, b, a) == BandsFit(pw, ph, sh, k, a, b)
    ensures Layout(ph, pw, sw, k, b, a) == Layout(pw, ph, sw, k, a, b)
  {
  }

  lemma RealisableSwapped(pw: real, ph: real, sw: real, sh: real, k: real, n: int)
    requires Physical(pw, ph, sw, sh, k) && Realisable(ph, pw, sw, sh, k, n)
    ensures Realisable(pw, ph, sw, sh, k, n)
  {
    var b: nat, a: nat :| BandsFit(ph, pw, sh, k, b, a) && n == Layout(ph, pw, sw, k, b, a);
    SwappedLayout(pw, ph, sw, sh, k, a, b);
  }

  lemma SweepRealisable(pw: real, ph: real, sw: real, sh: real, k: real, start: int, n: nat)
    requires Physical(pw, ph, sw, sh, k) && n <= Rounds(Fit(sh, ph, k))
    requires Realisable(pw, ph, sw, sh, k, start)
    ensures Realisable(pw, ph, sw, sh, k, Sweep(pw, ph, sw, sh, k, true, start, n))
  {
    var r := Sweep(pw, ph, sw, sh, k, true, start, n);
    if r != start {
      var rows :| 0 <= rows < n && r == Split(pw, ph, sw, sh, k, rows, true);
      SplitRealisable(pw, ph, sw, sh, k, rows);
    }
  }

  /** The full grid of upright tops is a layout that fits. */
  lemma GridRealisable(pw: real, ph: real, sw: real, sh: real, k: real)
    requires Physical(pw, ph, sw, sh, k)
    ensures Realisable(pw, ph, sw, sh, k, Fit(sw, pw, k) * Fit(sh, ph, k))
  {
    FitNonNegative(sh, ph, k);
    FitBounds(sh, ph, k);
    var a: nat := Fit(sh, ph, k);
    assert BandsFit(pw, ph, sh, k, a, 0);
    assert Layout(pw, ph, sw, k, a, 0) == Fit(sw, pw, k) * Fit(sh, ph, k);
  }

  /**
    Soundness of the corrected count: for a physical piece, slab and kerf,
    as many tops as `TopsPerSlab` counts fit on the slab in two bands.
   */
  lemma TopsPerSlabRealisable(pw: real, ph: real, sw: real, sh: real, includeKerf: bool, kerfWidth: real)
    requires Physical(pw, ph, sw, sh, Kerf(includeKerf, kerfWidth))
    ensures Realisable(pw, ph, sw, sh, Kerf(includeKerf, kerfWidth), TopsPerSlab(pw, ph, sw, sh, includeKerf, kerfWidth))
  {
    var k := Kerf(includeKerf, kerfWidth);
    var grid := Max(Fit(sw, pw, k) * Fit(sh, ph, k), Fit(sw, ph, k) * Fit(sh, pw, k));
    GridRealisable(pw, ph, sw, sh, k);
    GridRealisable(ph, pw, sw, sh, k);
    RealisableSwapped(pw, ph, sw, sh, k, Fit(sw, ph, k) * Fit(sh, pw, k));
    assert Realisable(pw, ph, sw, sh, k, grid);
    var upright := Sweep(pw, ph, sw, sh, k, true, grid, Rounds(Fit(sh, ph, k)));
    SweepRealisable(pw, ph, sw, sh, k, grid, Rounds(Fit(sh, ph, k)));
    RealisableSwapped(ph, pw, sw, sh, k, upright);
    SweepRealisable(ph, pw, sw, sh, k, upright, Rounds(Fit(sh, pw, k)));
    RealisableSwapped(pw, ph, sw, sh, k, Sweep(ph, pw, sw, sh, k, true, upright, Rounds(Fit(sh, pw, k))));
  }

  /** The rows of a fitting layout, each band on its own, and what their heights leave. */
  lemma BandsFitParts(pw: real, ph: real, sh: real, k: real, a: nat, b: nat, upright: real, turned: real)
    requires pw > 0.0 && ph > 0.0 && k >= 0.0 && sh >= 0.0 && BandsFit(pw, ph, sh, k, a, b)
    requires upright == (a as real) * (ph + k) && turned == (b as real) * (pw + k)
    requires upright >= 0.0 && turned >= 0.0
    ensures upright <= sh + k
    ensures turned <= (sh - upright) + k
  {
    if a + b == 0 {
      assert upright == 0.0;
    } else {
      assert BandsHeight(pw, ph, k, a, b) == upright + turned - k;
    }
  }

  lemma StackedCovers(pw: real, ph: real, sw: real, sh: real, k: real, a: nat, b: nat, upright: real, turned: real)
    requires Physical(pw, ph, sw, sh, k)
    requires upright == (a as real) * (ph + k) && turned == (b as real) * (pw + k)
    requires turned >= 0.0 && turned <= (sh - upright) + k
    ensures Layout(pw, ph, sw, k, a, b) <= Stacked(pw, ph, sw, k, a, sh - upright)
  {
    FitNonNegative(sw, ph, k);
    var left := sh - upright;
    if b > 0 {
      AtLeastOnce(b, pw + k);
      assert turned >= pw + k;
      assert left >= turned - k;
      assert left >= pw;
      FitIsMost(left, pw, k, b);
      MonotoneCount(b, Fit(left, pw, k), Fit(sw, ph, k));
    } else if left >= pw {
      FitNonNegative(left, pw, k);
      MonotoneCount(0, Fit(left, pw, k), Fit(sw, ph, k));
    }
  }

  /** A fitting layout is outdone by the sweep's count for its number of upright rows. */
  lemma SplitCovers(pw: real, ph: real, sw: real, sh: real, k: real, a: nat, b: nat)
    requires Physical(pw, ph, sw, sh, k) && BandsFit(pw, ph, sh, k, a, b)
    ensures 0 <= a <= Fit(sh, ph, k)
    ensures Layout(pw, ph, sw, k, a, b) <= Split(pw, ph, sw, sh, k, a, true)
  {
    var upright := (a as real) * (ph + k);
    var turned := (b as real) * (pw + k);
    NonNegProduct(a as real, ph + k);
    NonNegProduct(b as real, pw + k);
    BandsFitParts(pw, ph, sh, k, a, b, upright, turned);
    FitIsMost(sh, ph, k, a);
    SplitWithGap(pw, ph, sw, sh, k, a);
    StackedCovers(pw, ph, sw, sh, k, a, b, upright, turned);
  }

  /**
    Optimality of the corrected count: no two-band layout that fits the slab
    holds more tops than `TopsPerSlab`.
   */
  lemma TopsPerSlabOptimal(pw: real, ph: real, sw: real, sh: real, includeKerf: bool, kerfWidth: real, a: nat, b: nat)
    requires Physical(pw, ph, sw, sh, Kerf(includeKerf, kerfWidth))
    requires BandsFit(pw, ph, sh, Kerf(includeKerf, kerfWidth), a, b)
    ensures Layout(pw, ph, sw, Kerf(includeKerf, kerfWidth), a, b) <= TopsPerSlab(pw, ph, sw, sh, includeKerf, kerfWidth)
  {
    var k := Kerf(includeKerf, kerfWidth);
    SplitCovers(pw, ph, sw, sh, k, a, b);
  }

  /**
    The sweep as written counts two tops of 30 by 30 on a 30 by 60 slab with
    a kerf of 1, where the two rows and the kerf between them need 61.
   */
  lemma MaxPiecesOvercounts()
    ensures MaxPiecesPerSlab(30.0, 30.0, 30.0, 60.0, true, 1.0) == 2
    ensures TopsPerSlab(30.0, 30.0, 30.0, 60.0, true, 1.0) == 1
    ensures forall a: nat, b: nat :: BandsFit(30.0, 30.0, 60.0, 1.0, a, b) ==> Layout(30.0, 30.0, 30.0, 1.0, a, b) <= 1
  {
    assert Fit(30.0, 30.0, 1.0) == 1;
    assert Fit(60.0, 30.0, 1.0) == 1;
    assert Fit(30.0, 30.0, 1.0) == 1;
    forall a: nat, b: nat | BandsFit(30.0, 30.0, 60.0, 1.0, a, b)
      ensures Layout(30.0, 30.0, 30.0, 1.0, a, b) <= 1
    {
      TopsPerSlabOptimal(30.0, 30.0, 30.0, 60.0, true, 1.0, a, b);
    }
  }

  // ---------------------------------------------------------------------
  // Pricing one product
  // ---------------------------------------------------------------------

  lemma IntProduct(a: int, b: int)
    ensures (a as real) * (b as real) == (a * b) as real
  {
  }

  /** Below the quotient `a / d`, times `d`, stays below `a`; at or above it, at or above `a`. */
  lemma QuotientBounds(b: real, x: real, d: real, a: real)
    requires d > 0.0 && x == a / d
    ensures b < x ==> b * d < a
    ensures b >= x ==> b * d >= a
  {
    DivTimes(a, d);
    if b < x {
      MulLess(b, x, d);
    } else {
      MulAtMost(x, b, d);
    }
  }

  lemma CeilCovers(q: int, m: int)
    requires m > 0 && q >= 0
    ensures Ceil(q as real / m as real) * m >= q
  {
    var x := q as real / m as real;
    var c := Ceil(x);
    QuotientBounds(c as real, x, m as real, q as real);
    IntProduct(c, m);
  }

  lemma CeilFewest(q: int, m: int)
    requires m > 0 && q >= 0
    ensures (Ceil(q as real / m as real) - 1) * m < q
  {
    var x := q as real / m as real;
    var c := Ceil(x);
    QuotientBounds((c - 1) as real, x, m as real, q as real);
    IntProduct(c - 1, m);
  }

  lemma CeilQuotient(q: int, m: int)
    requires m > 0 && q >= 0
    ensures Ceil(q as real / m as real) >= 0
    ensures Ceil(q as real / m as real) * m >= q
    ensures (Ceil(q as real / m as real) - 1) * m < q
  {
    assert q as real / m as real >= 0.0;
    CeilCovers(q, m);
    CeilFewest(q, m);
  }

  /** `r` slabs of `m` tops hold `q` tops, and `r - 1` of them would not. */
  predicate Fewest(r: int, m: int, q: int) {
    r * m >= q && (r - 1) * m < q
  }

  /** The fewest slabs holding `q` tops at `m` tops per slab: a slab for every `m` tops, and one for the rest. */
  function SlabsNeeded(q: nat, m: int): (r: nat)
    requires m > 0
    ensures Fewest(r, m, q)
    decreases q
  {
    if q <= m then (if q == 0 then 0 else 1) else 1 + SlabsNeeded(q - m, m)
  }

  /** Any count of slabs that holds `q` tops but would not without its last is the fewest. */
  lemma FewestUnique(q: int, m: int, r: int, c: int)
    requires m > 0 && Fewest(r, m, q) && Fewest(c, m, q)
    ensures r == c
  {
    if r < c {
      MonotoneCount(r, c - 1, m);
    } else if c < r {
      MonotoneCount(c, r - 1, m);
    }
  }

  /** The count of slabs is `Math.ceil(q / m)`. */
  lemma SlabsNeededIsCeil(q: nat, m: int)
    requires m > 0
    ensures SlabsNeeded(q, m) == Ceil(q as real / m as real)
  {
    CeilQuotient(q, m);
    FewestUnique(q, m, SlabsNeeded(q, m), Ceil(q as real / m as real));
  }

  /** The product has dimensions and the catalog row has costs: the sizer prices it. */
  predicate Priceable(p: Product, row: StoneVariant) {
    && p.width.Some? && p.width.value != 0.0
    && p.depth.Some? && p.depth.value != 0.0
    && row.slabCost.Some? && row.fabCost.Some? && row.markup.Some?
  }

  /**
    The rules a quote for `q` tops of `w` by `d` at `quote.topsPerSlab` tops
    per slab follows: the fewest slabs that hold the tops, material bought by
    the slab with the breakage buffer on top, fabrication by the square foot
    of top when it is included, and the markup on the whole raw cost.
   */
  ghost predicate PricedFor(quote: Quote, w: real, d: real, q: nat, row: StoneVariant, settings: Settings)
    requires row.slabCost.Some? && row.fabCost.Some? && row.markup.Some?
  {
    && quote.Single?
    && quote.topsPerSlab > 0
    && Fewest(quote.totalSlabsNeeded, quote.topsPerSlab, q)
    && quote.usableAreaSqft == (w * d / 144.0) * (q as real)
    && quote.materialCost == row.slabCost.value * (quote.totalSlabsNeeded as real) * (1.0 + settings.breakageBuffer / 100.0)
    && quote.rawCost == quote.materialCost + quote.fabricationCost
    && quote.finalPrice == quote.rawCost * row.markup.value
    && (settings.includeFabrication ==> quote.fabricationCost == quote.usableAreaSqft * row.fabCost.value)
    && (!settings.includeFabrication ==> quote.fabricationCost == 0.0)
  }

  /** A share between none and all, in percent. */
  predicate Percentage(x: real) {
    0.0 <= x <= 100.0
  }

  /** Percentage of the bought slab area the tops use; 0 when no slab area is bought. */
  function EfficiencyOf(used: real, slabArea: real): real {
    if slabArea > 0.0 then (used / slabArea) * 100.0 else 0.0
  }

  /** The efficiency of `q` tops of `w` by `d` on the fewest slabs of `sw` by `sh` holding `tops` each. */
  function Efficiency(w: real, d: real, q: nat, sw: real, sh: real, tops: int): real
    requires tops > 0
  {
    EfficiencyOf((q as real) * (w * d), (SlabsNeeded(q, tops) as real) * (sw * sh))
  }

  /** The quote for `q` tops of `w` by `d` on slabs of `sw` by `sh` holding `tops` each. */
  function PriceTops(w: real, d: real, q: nat, sw: real, sh: real, tops: int, row: StoneVariant, settings: Settings)
    : (quote: Quote)
    requires tops > 0 && row.slabCost.Some? && row.fabCost.Some? && row.markup.Some?
    ensures PricedFor(quote, w, d, q, row, settings) && quote.topsPerSlab == tops
    ensures quote.efficiency == Efficiency(w, d, q, sw, sh, tops)
  {
    var slabs := SlabsNeeded(q, tops);
    var usable := (w * d / 144.0) * (q as real);
    var efficiency := Efficiency(w, d, q, sw, sh, tops);
    var material := row.slabCost.value * (slabs as real) * (1.0 + settings.breakageBuffer / 100.0);
    var fabrication := if settings.includeFabrication then usable * row.fabCost.value else 0.0;
    var raw := material + fabrication;
    Single(usable, slabs, efficiency, material, fabrication, raw, raw * row.markup.value, tops)
  }

  /**
    The figures for `q` tops of `w` by `d` from `row` at `tops` tops per slab.
    A slab that holds no top leaves the source dividing by zero.
   */
  function QuoteAt(w: real, d: real, q: nat, tops: int, row: StoneVariant, settings: Settings): (quote: Quote)
    requires row.slabCost.Some? && row.fabCost.Some? && row.markup.Some?
    requires row.slabWidth.Some? && row.slabHeight.Some?
    ensures quote.NonFinite? <==> tops <= 0
    ensures quote.Single? ==>
              && quote.topsPerSlab == tops
              && PricedFor(quote, w, d, q, row, settings)
              && quote.efficiency == Efficiency(w, d, q, row.slabWidth.value, row.slabHeight.value, tops)
  {
    if tops <= 0 then NonFinite
    else PriceTops(w, d, q, row.slabWidth.value, row.slabHeight.value, tops, row, settings)
  }

  /** The slab dimensions parse and neither side plus the kerf is 0: the count can be taken. */
  predicate Countable(w: real, d: real, row: StoneVariant, settings: Settings) {
    && row.slabWidth.Some? && row.slabHeight.Some?
    && w + Kerf(settings.includeKerf, settings.kerfWidth) != 0.0
    && d + Kerf(settings.includeKerf, settings.kerfWidth) != 0.0
  }

  /**
    The figures of `calculateProductResults` for `q` tops of `w` by `d` from
    `row`, priced at the count `calculateMaxPiecesPerSlab` returns. Slab
    dimensions that do not parse and a slab that holds no top leave the
    source dividing by NaN or by zero; with a side plus kerf of 0 its sweep
    never ends on a slab of positive height. All three give `NonFinite`.
   */
  function SizeQuote(w: real, d: real, q: nat, row: StoneVariant, settings: Settings): (quote: Quote)
    requires row.slabCost.Some? && row.fabCost.Some? && row.markup.Some?
    ensures !quote.Shared?
    ensures quote.Single? ==>
              && Countable(w, d, row, settings)
              && quote.topsPerSlab == MaxPiecesPerSlab(w, d, row.slabWidth.value, row.slabHeight.value,
                                                       settings.includeKerf, settings.kerfWidth)
              && PricedFor(quote, w, d, q, row, settings)
              && quote.efficiency == Efficiency(w, d, q, row.slabWidth.value, row.slabHeight.value, quote.topsPerSlab)
    ensures Countable(w, d, row, settings)
            && MaxPiecesPerSlab(w, d, row.slabWidth.value, row.slabHeight.value, settings.includeKerf, settings.kerfWidth) > 0
            ==> quote.Single?
  {
    if !Countable(w, d, row, settings) then NonFinite
    else
      var tops := MaxPiecesPerSlab(w, d, row.slabWidth.value, row.slabHeight.value, settings.includeKerf, settings.kerfWidth);
      QuoteAt(w, d, q, tops, row, settings)
  }

  /** The same figures priced at the corrected count, which leaves the kerf between the two bands. */
  function CorrectedSizeQuote(w: real, d: real, q: nat, row: StoneVariant, settings: Settings): (quote: Quote)
    requires row.slabCost.Some? && row.fabCost.Some? && row.markup.Some?
    ensures !quote.Shared?
    ensures quote.Single? ==>
              && Countable(w, d, row, settings)
              && quote.topsPerSlab == TopsPerSlab(w, d, row.slabWidth.value, row.slabHeight.value,
                                                  settings.includeKerf, settings.kerfWidth)
              && PricedFor(quote, w, d, q, row, settings)
              && quote.efficiency == Efficiency(w, d, q, row.slabWidth.value, row.slabHeight.value, quote.topsPerSlab)
    ensures Countable(w, d, row, settings)
            && TopsPerSlab(w, d, row.slabWidth.value, row.slabHeight.value, settings.includeKerf, settings.kerfWidth) > 0
            ==> quote.Single?
  {
    if !Countable(w, d, row, settings) then NonFinite
    else
      var tops := TopsPerSlab(w, d, row.slabWidth.value, row.slabHeight.value, settings.includeKerf, settings.kerfWidth);
      QuoteAt(w, d, q, tops, row, settings)
  }

  /**
    Two 30 by 30 tops on a 30 by 60 slab with a kerf of 1: the source buys
    one slab, because it counts two tops to a slab, where the two tops and the
    kerf between them need two slabs.
   */
  lemma SizeQuoteBuysTooFew()
    ensures var row := StoneVariant("Quartz", "3CM", "Polished", Some(30.0), Some(60.0), Some(1000.0), Some(10.0), Some(1.0));
            var settings := Settings(true, 1.0, 10.0, false);
            && SizeQuote(30.0, 30.0, 2, row, settings).Single?
            && SizeQuote(30.0, 30.0, 2, row, settings).totalSlabsNeeded == 1
            && CorrectedSizeQuote(30.0, 30.0, 2, row, settings).Single?
            && CorrectedSizeQuote(30.0, 30.0, 2, row, settings).totalSlabsNeeded == 2
  {
    var row := StoneVariant("Quartz", "3CM", "Polished", Some(30.0), Some(60.0), Some(1000.0), Some(10.0), Some(1.0));
    var settings := Settings(true, 1.0, 10.0, false);
    MaxPiecesOvercounts();
    var written := SizeQuote(30.0, 30.0, 2, row, settings);
    var corrected := CorrectedSizeQuote(30.0, 30.0, 2, row, settings);
    assert Fewest(written.totalSlabsNeeded, 2, 2);
    FewestUnique(2, 2, written.totalSlabsNeeded, 1);
    assert Fewest(corrected.totalSlabsNeeded, 1, 2);
    FewestUnique(2, 1, corrected.totalSlabsNeeded, 2);
  }

  /** One more than the largest array length JavaScript allows: `Array(n)` needs `n` to be a 32-bit unsigned integer. */
  const ArrayLengthBound: int := 0x1_0000_0000

  /**
    `calculateProductResults`: a product whose stone type is not in the
    catalog, or that lacks dimensions, or whose catalog row lacks costs, gets
    no result; a quantity that is not a valid array length (missing, negative,
    or 2^32 or more) throws the `RangeError` of `Array(quantity)`; otherwise
    the product gets its own quote. The product's other fields stay as they
    were.
   */
  function CalculateProductResults(p: Product, catalog: seq<StoneVariant>, settings: Settings): (r: Result<Product>)
    ensures r.Thrown? <==> FindByType(catalog, p.stone).Some? && Priceable(p, FindByType(catalog, p.stone).value)
                            && (p.quantity.None? || p.quantity.value < 0 || p.quantity.value >= ArrayLengthBound)
    ensures r.Ok? ==> r.value == p.(result := r.value.result)
    ensures r.Ok? ==> (r.value.result.None? <==> FindByType(catalog, p.stone).None?
                                                 || !Priceable(p, FindByType(catalog, p.stone).value))
    ensures r.Ok? && r.value.result.Some? ==>
              r.value.result.value == SizeQuote(p.width.value, p.depth.value, p.quantity.value,
                                                FindByType(catalog, p.stone).value, settings)
  {
    match FindByType(catalog, p.stone)
    case None => Ok(p.(result := None))
    case Some(row) =>
      if !Priceable(p, row) then Ok(p.(result := None))
      else if p.quantity.None? || p.quantity.value < 0 || p.quantity.value >= ArrayLengthBound then
        Thrown("Invalid array length")
      else Ok(p.(result := Some(SizeQuote(p.width.value, p.depth.value, p.quantity.value, row, settings))))
  }

  /** A priced quantity is below 2^32: the largest array length is quoted, the next one throws. */
  lemma QuantityBoundary(p: Product, catalog: seq<StoneVariant>, settings: Settings)
    requires FindByType(catalog, p.stone).Some? && Priceable(p, FindByType(catalog, p.stone).value)
    ensures CalculateProductResults(p.(quantity := Some(0xFFFF_FFFF)), catalog, settings).Ok?
    ensures CalculateProductResults(p.(quantity := Some(0x1_0000_0000)), catalog, settings).Thrown?
    ensures CalculateProductResults(p, catalog, settings).Ok? ==> 0 <= p.quantity.value < 0x1_0000_0000
  {
  }

  // ---------------------------------------------------------------------
  // The tops a slab is counted to hold cover at most its area
  // ---------------------------------------------------------------------

  /** `n` tops of `side` side by side, kerfs left out, take between nothing and the slab width `sw`. */
  predicate WithinWidth(n: int, side: real, sw: real) {
    0.0 <= (n as real) * side <= sw
  }

  /** `a` rows of `ph` and `b` rows of `pw`, kerfs left out, take between nothing and the slab height `sh`. */
  predicate WithinHeight(a: int, b: int, pw: real, ph: real, sh: real) {
    (a as real) * ph >= 0.0 && (b as real) * pw >= 0.0 && (a as real) * ph + (b as real) * pw <= sh
  }

  lemma RowWidth(sw: real, side: real, k: real)
    requires side > 0.0 && k >= 0.0 && sw >= 0.0
    ensures WithinWidth(Fit(sw, side, k), side, sw)
  {
    FitBounds(sw, side, k);
    FitNonNegative(sw, side, k);
    var n := Fit(sw, side, k) as real;
    assert n * (side + k) == n * side + n * k;
    if n >= 1.0 {
      MulAtMost(1.0, n, if k > 0.0 then k else 1.0);
    }
    MonotoneScale(0, Fit(sw, side, k), side);
  }

  /** Rows of either orientation fit the slab width. */
  lemma RowWidths(pw: real, ph: real, sw: real, sh: real, k: real)
    requires Physical(pw, ph, sw, sh, k)
    ensures WithinWidth(Fit(sw, pw, k), pw, sw) && WithinWidth(Fit(sw, ph, k), ph, sw)
  {
    RowWidth(sw, pw, k);
    RowWidth(sw, ph, k);
  }

  /** The rows of a fitting layout, without their kerfs, are no taller than the slab. */
  lemma RowsHeight(pw: real, ph: real, sw: real, sh: real, k: real, a: nat, b: nat)
    requires Physical(pw, ph, sw, sh, k) && BandsFit(pw, ph, sh, k, a, b)
    ensures WithinHeight(a, b, pw, ph, sh)
  {
    NonNegProduct(a as real, ph);
    NonNegProduct(b as real, pw);
    if a + b > 0 {
      BandsSum(a as real, b as real, pw, ph, k);
      NonNegProduct((a + b - 1) as real, k);
    }
  }

  /** The height of the bands is the tops' share plus one kerf between each two neighbouring rows. */
  lemma BandsSum(x: real, y: real, pw: real, ph: real, k: real)
    ensures x * (ph + k) + y * (pw + k) - k == x * ph + y * pw + (x + y - 1.0) * k
  {
  }

  lemma NonNegProduct(x: real, y: real)
    requires x >= 0.0 && y >= 0.0
    ensures x * y >= 0.0
  {
  }

  lemma AreaBound(up: real, turned: real, across: real, acrossTurned: real, sw: real, sh: real)
    requires up >= 0.0 && turned >= 0.0 && up + turned <= sh
    requires 0.0 <= across <= sw && 0.0 <= acrossTurned <= sw
    ensures up * across + turned * acrossTurned <= sw * sh
  {
    assert up * across <= up * sw by {
      NonNegProduct(up, sw - across);
    }
    assert turned * acrossTurned <= turned * sw by {
      NonNegProduct(turned, sw - acrossTurned);
    }
    assert (up + turned) * sw == up * sw + turned * sw;
    assert up * across + turned * acrossTurned <= (up + turned) * sw;
    assert (up + turned) * sw <= sh * sw by {
      NonNegProduct(sh - (up + turned), sw);
    }
    assert sh * sw == sw * sh;
  }

  lemma LayoutIdentity(a: int, across: int, b: int, acrossTurned: int, pw: real, ph: real)
    ensures ((a * across + b * acrossTurned) as real) * (pw * ph)
              == ((a as real) * ph) * ((across as real) * pw) + ((b as real) * pw) * ((acrossTurned as real) * ph)
  {
  }

  lemma TopsArea(n: int, a: int, across: int, b: int, acrossTurned: int, pw: real, ph: real, sw: real, sh: real)
    requires n == a * across + b * acrossTurned
    requires WithinWidth(across, pw, sw) && WithinWidth(acrossTurned, ph, sw) && WithinHeight(a, b, pw, ph, sh)
    ensures (n as real) * (pw * ph) <= sw * sh
  {
    var up := (a as real) * ph;
    var turned := (b as real) * pw;
    var x := (across as real) * pw;
    var y := (acrossTurned as real) * ph;
    assert up * x + turned * y <= sw * sh by {
      AreaBound(up, turned, x, y, sw, sh);
    }
    assert (n as real) * (pw * ph) == up * x + turned * y by {
      LayoutIdentity(a, across, b, acrossTurned, pw, ph);
    }
  }

  /** `n` tops of `pw` by `ph` cover no more than the area of a slab of `sw` by `sh`. */
  predicate AreaWithin(n: int, pw: real, ph: real, sw: real, sh: real) {
    (n as real) * (pw * ph) <= sw * sh
  }

  lemma EqualThenAtMost(x: real, y: real, z: real)
    requires x == y && y <= z
    ensures x <= z
  {
  }

  lemma UsedWithin(q: real, slabs: real, tops: real, area: real, slabArea: real)
    requires q >= 0.0 && area >= 0.0 && q <= slabs * tops && tops * area <= slabArea && slabs >= 0.0
    ensures q * area <= slabs * slabArea
  {
    assert q * area <= slabs * tops * area by {
      NonNegProduct(slabs * tops - q, area);
    }
    assert slabs * (tops * area) <= slabs * slabArea by {
      NonNegProduct(slabs, slabArea - tops * area);
    }
  }

  lemma PercentAtMost(used: real, whole: real)
    requires 0.0 <= used <= whole && whole > 0.0
    ensures 0.0 <= (used / whole) * 100.0 <= 100.0
  {
    DivTimes(used, whole);
    assert used / whole <= 1.0;
  }

  /** `q` tops on the fewest slabs, `tops` to a slab that covers at least their area, use at most all of it. */
  lemma EfficiencyBounded(q: nat, slabs: int, tops: int, area: real, slabArea: real)
    requires tops > 0 && slabs >= 0 && Fewest(slabs, tops, q) && area >= 0.0 && (tops as real) * area <= slabArea
    ensures Percentage(EfficiencyOf((q as real) * area, (slabs as real) * slabArea))
  {
    var used := (q as real) * area;
    var whole := (slabs as real) * slabArea;
    assert used >= 0.0 by {
      NonNegProduct(q as real, area);
    }
    assert used <= whole by {
      IntProduct(slabs, tops);
      UsedWithin(q as real, slabs as real, tops as real, area, slabArea);
    }
    if whole > 0.0 {
      PercentAtMost(used, whole);
    }
  }

  lemma EfficiencyAtMostAll(w: real, d: real, q: nat, sw: real, sh: real, tops: int)
    requires tops > 0 && w > 0.0 && d > 0.0 && AreaWithin(tops, w, d, sw, sh)
    ensures Percentage(Efficiency(w, d, q, sw, sh, tops))
  {
    assert w * d >= 0.0 by {
      NonNegProduct(w, d);
    }
    EfficiencyBounded(q, SlabsNeeded(q, tops), tops, w * d, sw * sh);
  }

  /** A run of up to `Fit(len, side, k)` sides, kerfs left out, is no longer than `len`. */
  lemma RunWithin(len: real, side: real, k: real, n: int)
    requires side > 0.0 && k >= 0.0 && len >= 0.0 && 0 <= n <= Fit(len, side, k)
    ensures 0.0 <= (n as real) * side <= len
  {
    RowWidth(len, side, k);
    MonotoneScale(0, n, side);
    MonotoneScale(n, Fit(len, side, k), side);
  }

  /**
    Two bands whose rows are one kerf apart and which overlap by at most one
    kerf: the tops themselves are no taller than the slab.
   */
  lemma OverlappingBands(pw: real, ph: real, sh: real, k: real, a: nat, b: nat, upright: real, turned: real)
    requires pw > 0.0 && ph > 0.0 && k >= 0.0 && a >= 1 && b >= 1
    requires upright == (a as real) * (ph + k) && turned == (b as real) * (pw + k)
    requires turned <= sh - (upright - k) + k
    ensures WithinHeight(a, b, pw, ph, sh)
  {
    NonNegProduct(a as real, ph);
    NonNegProduct(b as real, pw);
    NonNegProduct((a - 1) as real, k);
    NonNegProduct((b - 1) as real, k);
    assert upright == (a as real) * ph + ((a - 1) as real) * k + k;
    assert turned == (b as real) * pw + ((b - 1) as real) * k + k;
  }

  /**
    Turned rows in a height `left` that is the whole slab when there are no
    upright rows, and otherwise at most one kerf short of what the turned
    rows need, stacked on `rows` upright rows whose tops fit: all the tops
    fit the slab height.
   */
  lemma TurnedBandHeight(pw: real, ph: real, sh: real, k: real, rows: nat, left: real)
    requires pw > 0.0 && ph > 0.0 && k >= 0.0 && sh >= 0.0 && left >= pw
    requires WithinHeight(rows, 0, pw, ph, sh)
    requires rows == 0 ==> left == sh
    requires rows > 0 ==> left <= sh - ((rows as real) * (ph + k) - k)
    ensures WithinHeight(rows, Fit(left, pw, k), pw, ph, sh)
  {
    var b := Fit(left, pw, k);
    FitBounds(left, pw, k);
    FitIsMost(left, pw, k, 1);
    if rows == 0 {
      RunWithin(sh, pw, k, b);
    } else {
      OverlappingBands(pw, ph, sh, k, rows, b, (rows as real) * (ph + k), (b as real) * (pw + k));
    }
  }

  /** The tops `Stacked` counts, in a height `left` as the sweep leaves it, cover no more than the slab's area. */
  lemma StackedWithin(pw: real, ph: real, sw: real, sh: real, k: real, rows: nat, left: real)
    requires Physical(pw, ph, sw, sh, k) && WithinHeight(rows, 0, pw, ph, sh)
    requires rows == 0 ==> left == sh
    requires rows > 0 ==> left <= sh - ((rows as real) * (ph + k) - k)
    ensures AreaWithin(Stacked(pw, ph, sw, k, rows, left), pw, ph, sw, sh)
  {
    RowWidths(pw, ph, sw, sh, k);
    var turned := TurnedRows(pw, k, left);
    assert WithinHeight(rows, turned, pw, ph, sh) by {
      if left >= pw {
        TurnedBandHeight(pw, ph, sh, k, rows, left);
      }
    }
    StackedCount(pw, ph, sw, k, rows, left);
    TopsArea(Stacked(pw, ph, sw, k, rows, left), rows, Fit(sw, pw, k), turned, Fit(sw, ph, k), pw, ph, sw, sh);
  }

  /** `Stacked` as upright rows times their tops plus turned rows times theirs. */
  lemma StackedCount(pw: real, ph: real, sw: real, k: real, rows: int, left: real)
    requires pw + k != 0.0 && ph + k != 0.0
    ensures Stacked(pw, ph, sw, k, rows, left) == rows * Fit(sw, pw, k) + TurnedRows(pw, k, left) * Fit(sw, ph, k)
  {
  }

  /**
    Every count the sweep records, with or without the kerf between the
    bands, is of rows whose tops fit the slab: the left-over height is at
    most one kerf short of what the turned rows need.
   */
  lemma SplitWithin(pw: real, ph: real, sw: real, sh: real, k: real, rows: int, gap: bool)
    requires Physical(pw, ph, sw, sh, k) && 0 <= rows <= Fit(sh, ph, k)
    ensures AreaWithin(Split(pw, ph, sw, sh, k, rows, gap), pw, ph, sw, sh)
  {
    RunWithin(sh, ph, k, rows);
    SplitLeft(ph, sh, k, rows, gap);
    StackedWithin(pw, ph, sw, sh, k, rows, LeftOver(ph, sh, k, rows, gap));
  }

  /**
    That height is the whole slab under no rows, and under some rows at most
    what the rows and one kerf leave; with the band gap it is exactly what the
    rows and their kerfs leave.
   */
  lemma SplitLeft(ph: real, sh: real, k: real, rows: nat, gap: bool)
    requires ph > 0.0 && k >= 0.0
    ensures rows == 0 ==> LeftOver(ph, sh, k, rows, gap) == sh
    ensures rows > 0 ==> LeftOver(ph, sh, k, rows, gap) <= sh - ((rows as real) * (ph + k) - k)
    ensures gap ==> LeftOver(ph, sh, k, rows, gap) == sh - (rows as real) * (ph + k)
  {
    if rows > 0 {
      AtLeastOnce(rows, ph + k);
    } else {
      assert (rows as real) * (ph + k) == 0.0;
    }
  }

  /** The full grid of upright tops covers no more than the slab's area. */
  lemma GridWithin(pw: real, ph: real, sw: real, sh: real, k: real)
    requires Physical(pw, ph, sw, sh, k)
    ensures AreaWithin(Fit(sw, pw, k) * Fit(sh, ph, k), pw, ph, sw, sh)
  {
    var a := Fit(sh, ph, k);
    FitNonNegative(sh, ph, k);
    RowWidths(pw, ph, sw, sh, k);
    RunWithin(sh, ph, k, a);
    assert WithinHeight(a, 0, pw, ph, sh);
    TopsArea(Fit(sw, pw, k) * a, a, Fit(sw, pw, k), 0, Fit(sw, ph, k), pw, ph, sw, sh);
  }

  /** Every count compared covers no more than the slab's area, whichever way the piece is turned. */
  lemma ComparedWithin(pw: real, ph: real, sw: real, sh: real, k: real, gap: bool, c: int)
    requires Physical(pw, ph, sw, sh, k) && Compared(pw, ph, sw, sh, k, gap, c)
    ensures AreaWithin(c, pw, ph, sw, sh)
  {
    assert ph * pw == pw * ph;
    if c == Fit(sw, pw, k) * Fit(sh, ph, k) {
      GridWithin(pw, ph, sw, sh, k);
    } else if c == Fit(sw, ph, k) * Fit(sh, pw, k) {
      GridWithin(ph, pw, sw, sh, k);
    } else if rows :| 0 <= rows <= Fit(sh, ph, k) && c == Split(pw, ph, sw, sh, k, rows, gap) {
      SplitWithin(pw, ph, sw, sh, k, rows, gap);
    } else {
      var rows :| 0 <= rows <= Fit(sh, pw, k) && c == Split(ph, pw, sw, sh, k, rows, gap);
      SplitWithin(ph, pw, sw, sh, k, rows, gap);
    }
  }

  /**
    For a physical top, slab and kerf, the tops a slab is counted to hold
    cover no more than its area: as the source counts them, since its bands
    overlap by at most the kerf between them, and as the corrected count does.
   */
  lemma CountsWithinArea(pw: real, ph: real, sw: real, sh: real, includeKerf: bool, kerfWidth: real)
    requires Physical(pw, ph, sw, sh, Kerf(includeKerf, kerfWidth))
    ensures AreaWithin(MaxPiecesPerSlab(pw, ph, sw, sh, includeKerf, kerfWidth), pw, ph, sw, sh)
    ensures AreaWithin(TopsPerSlab(pw, ph, sw, sh, includeKerf, kerfWidth), pw, ph, sw, sh)
  {
    var k := Kerf(includeKerf, kerfWidth);
    ComparedWithin(pw, ph, sw, sh, k, false, Best(pw, ph, sw, sh, k, false));
    ComparedWithin(pw, ph, sw, sh, k, true, Best(pw, ph, sw, sh, k, true));
  }

  /**
    For a physical top, slab and kerf, the efficiency `calculateProductResults`
    reports lies between 0 and 100 percent, and so does that of the quote
    priced at the corrected count.
   */
  lemma SizeQuoteEfficiency(w: real, d: real, q: nat, row: StoneVariant, settings: Settings)
    requires row.slabCost.Some? && row.fabCost.Some? && row.markup.Some?
    requires row.slabWidth.Some? && row.slabHeight.Some?
    requires Physical(w, d, row.slabWidth.value, row.slabHeight.value, Kerf(settings.includeKerf, settings.kerfWidth))
    ensures SizeQuote(w, d, q, row, settings).Single? ==> Percentage(SizeQuote(w, d, q, row, settings).efficiency)
    ensures CorrectedSizeQuote(w, d, q, row, settings).Single?
            ==> Percentage(CorrectedSizeQuote(w, d, q, row, settings).efficiency)
  {
    var sw := row.slabWidth.value;
    var sh := row.slabHeight.value;
    var written := MaxPiecesPerSlab(w, d, sw, sh, settings.includeKerf, settings.kerfWidth);
    var corrected := TopsPerSlab(w, d, sw, sh, settings.includeKerf, settings.kerfWidth);
    CountsWithinArea(w, d, sw, sh, settings.includeKerf, settings.kerfWidth);
    if written > 0 {
      EfficiencyAtMostAll(w, d, q, sw, sh, written);
    }
    if corrected > 0 {
      EfficiencyAtMostAll(w, d, q, sw, sh, corrected);
    }
  }
}
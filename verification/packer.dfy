/**
  What `optimizeMultiProductLayout` does with each stone group and how it
  reports the outcome (src/utils/multiProductOptimization.js:39-166).

  A group is packed only if the catalog has a row matching its stone type,
  thickness and finish exactly; otherwise it is reported as unmatched. The
  slab size comes from that row, with 126 x 63 inches standing in for a size
  that is unset or zero, and the kerf is the configured kerf width, or 0.125
  inch when that is zero. The `includeKerf` switch is not consulted. The
  pieces are sorted into packing order and packed first-fit; each slab then
  carries its efficiency, the share of its area the pieces cover, in percent.

  Results are stored under the stone type alone, so when two groups share a
  stone type but differ in thickness or finish, the later group's result
  replaces the earlier one's.
 */
module Packer {
  import opened Common
  import opened Domain
  import opened Placement
  import opened PieceOrder
  import opened FirstFit
  import opened Grouping

  /** A slab of the layout: its pieces, its size, and the percentage of its area they cover. */
  datatype Slab = Slab(pieces: seq<Placed>, width: real, height: real, efficiency: real)

  /** The outcome for one stone group. */
  datatype GroupResult =
      /** No catalog row has the group's exact stone type, thickness and finish. */
    | Unmatched(stoneType: string, thickness: Option<string>, finish: Option<string>)
      /** The group's layout. */
    | Packed(slabs: seq<Slab>, placedPieces: seq<Placed>, totalSlabs: nat, averageEfficiency: real,
             thickness: Option<string>, finish: Option<string>, stoneKey: string)

  /** Slab width in inches: the catalog's, or 126 when unset or zero. */
  function SlabWidth(row: StoneVariant): (w: real)
    ensures w != 0.0
    ensures row.slabWidth.Some? && row.slabWidth.value != 0.0 ==> w == row.slabWidth.value
  {
    NumberOr(row.slabWidth, 126.0)
  }

  /** Slab height in inches: the catalog's, or 63 when unset or zero. */
  function SlabHeight(row: StoneVariant): (h: real)
    ensures h != 0.0
    ensures row.slabHeight.Some? && row.slabHeight.value != 0.0 ==> h == row.slabHeight.value
  {
    NumberOr(row.slabHeight, 63.0)
  }

  lemma NonZeroProduct(a: real, b: real)
    requires a != 0.0 && b != 0.0
    ensures a * b != 0.0
  {
  }

  /** A catalog row's slab, with the defaults applied, has a non-zero area. */
  lemma SlabAreaNonZero(row: StoneVariant)
    ensures SlabWidth(row) * SlabHeight(row) != 0.0
  {
    NonZeroProduct(SlabWidth(row), SlabHeight(row));
  }

  /** The kerf the packer uses: the configured width, or 0.125 inch when that is zero. */
  function PackingKerf(settings: Settings): (k: real)
    ensures k != 0.0
    ensures settings.kerfWidth != 0.0 ==> k == settings.kerfWidth
  {
    if settings.kerfWidth != 0.0 then settings.kerfWidth else 0.125
  }

  /** Total footprint area of the placements, each in its placed orientation. */
  function UsedArea(ps: seq<Placed>): real
    decreases |ps|
  {
    if |ps| == 0 then 0.0 else UsedArea(ps[..|ps| - 1]) + PlacedArea(ps[|ps| - 1])
  }

  /** The percentage of a `slabW` x `slabH` slab that the pieces cover. */
  function Efficiency(pieces: seq<Placed>, slabW: real, slabH: real): real
    requires slabW * slabH != 0.0
  {
    (UsedArea(pieces) / (slabW * slabH)) * 100.0
  }

  /** The slabs of a packing, each with its size and efficiency. */
  function Slabs(slabs: seq<seq<Placed>>, slabW: real, slabH: real): (r: seq<Slab>)
    requires slabW * slabH != 0.0
    ensures |r| == |slabs|
    decreases |slabs|
  {
    if |slabs| == 0 then []
    else
      var n := |slabs| - 1;
      Slabs(slabs[..n], slabW, slabH) + [Slab(slabs[n], slabW, slabH, Efficiency(slabs[n], slabW, slabH))]
  }

  /** Slab `s` of the result holds the pieces of slab `s` of the packing, with the slab's size and efficiency. */
  lemma {:induction false} SlabsAt(slabs: seq<seq<Placed>>, slabW: real, slabH: real)
    requires slabW * slabH != 0.0
    ensures forall s :: 0 <= s < |slabs| ==>
              Slabs(slabs, slabW, slabH)[s] == Slab(slabs[s], slabW, slabH, Efficiency(slabs[s], slabW, slabH))
    decreases |slabs|
  {
    if |slabs| > 0 {
      var n := |slabs| - 1;
      SlabsAt(slabs[..n], slabW, slabH);
    }
  }

  /** Sum of the slabs' efficiencies. */
  function SumEfficiency(slabs: seq<Slab>): real
    decreases |slabs|
  {
    if |slabs| == 0 then 0.0 else SumEfficiency(slabs[..|slabs| - 1]) + slabs[|slabs| - 1].efficiency
  }

  /** The mean slab efficiency, or 0 when there are no slabs. */
  function Average(slabs: seq<Slab>): real {
    if |slabs| > 0 then SumEfficiency(slabs) / (|slabs| as real) else 0.0
  }

  /** Packs one stone group onto slabs of the matching catalog row. */
  function PackGroup(g: Group, catalog: seq<StoneVariant>, settings: Settings): (r: GroupResult)
    ensures r.Unmatched? <==> FindExact(catalog, g.stoneType, g.thickness, g.finish).None?
    ensures r.Unmatched? ==> r == Unmatched(g.stoneType, g.thickness, g.finish)
    ensures r.Packed? ==>
              && |r.placedPieces| == |g.pieces|
              && r.totalSlabs == |r.slabs| <= |g.pieces|
              && r.thickness == g.thickness && r.finish == g.finish && r.stoneKey == g.key
  {
    match FindExact(catalog, g.stoneType, g.thickness, g.finish)
    case None => Unmatched(g.stoneType, g.thickness, g.finish)
    case Some(row) =>
      SlabAreaNonZero(row);
      Report(g, Pack(SortPieces(g.pieces), SlabWidth(row), SlabHeight(row), PackingKerf(settings)),
             SlabWidth(row), SlabHeight(row))
  }

  /** The stored record of a group's packing on `slabW` x `slabH` slabs. */
  function Report(g: Group, packing: Packing, slabW: real, slabH: real): GroupResult
    requires slabW * slabH != 0.0
  {
    var slabs := Slabs(packing.slabs, slabW, slabH);
    Packed(slabs, packing.placed, |slabs|, Average(slabs), g.thickness, g.finish, g.key)
  }

  /** The pieces of a sequence of placements, in order. */
  function PiecesOf(ps: seq<Placed>): (r: seq<Piece>)
    ensures |r| == |ps| && forall k :: 0 <= k < |ps| ==> r[k] == ps[k].piece
  {
    seq(|ps|, k requires 0 <= k < |ps| => ps[k].piece)
  }

  /**
    A packed group places every piece of the group exactly once, in packing
    order: the placed pieces are the group's pieces sorted by rank and then
    by descending area.
   */
  lemma PackGroupPlacesAll(g: Group, catalog: seq<StoneVariant>, settings: Settings)
    requires FindExact(catalog, g.stoneType, g.thickness, g.finish).Some?
    ensures var r := PackGroup(g, catalog, settings);
            && PiecesOf(r.placedPieces) == SortPieces(g.pieces)
            && multiset(PiecesOf(r.placedPieces)) == multiset(g.pieces)
  {
    var row := FindExact(catalog, g.stoneType, g.thickness, g.finish).value;
    PackPlacesEachPiece(SortPieces(g.pieces), SlabWidth(row), SlabHeight(row), PackingKerf(settings));
  }

  /**
    The slabs of a packed group: each holds exactly the placements that name
    it, none is empty, every placement names a slab of the result, and the
    pieces on a slab keep a kerf of clearance from each other.
   */
  lemma PackGroupConsistent(g: Group, catalog: seq<StoneVariant>, settings: Settings)
    requires FindExact(catalog, g.stoneType, g.thickness, g.finish).Some?
    ensures var r := PackGroup(g, catalog, settings);
            && (forall k :: 0 <= k < |r.placedPieces| ==> 0 <= r.placedPieces[k].slabIndex < r.totalSlabs)
            && (forall s :: 0 <= s < |r.slabs| ==>
                  && r.slabs[s].pieces == OnSlab(r.placedPieces, s)
                  && |r.slabs[s].pieces| > 0
                  && SlabApart(r.slabs[s].pieces, PackingKerf(settings)))
  {
    var row := FindExact(catalog, g.stoneType, g.thickness, g.finish).value;
    var packing := Pack(SortPieces(g.pieces), SlabWidth(row), SlabHeight(row), PackingKerf(settings));
    PackConsistent(SortPieces(g.pieces), SlabWidth(row), SlabHeight(row), PackingKerf(settings));
    SlabAreaNonZero(row);
    SlabsAt(packing.slabs, SlabWidth(row), SlabHeight(row));
  }

  /**
    When the kerf is non-negative and every piece fits an empty slab
    unrotated, every placement of a packed group lies inside its slab.
   */
  lemma PackGroupInBounds(g: Group, catalog: seq<StoneVariant>, settings: Settings)
    requires FindExact(catalog, g.stoneType, g.thickness, g.finish).Some?
    requires PackingKerf(settings) >= 0.0
    requires var row := FindExact(catalog, g.stoneType, g.thickness, g.finish).value;
             FitUnrotated(g.pieces, SlabWidth(row), SlabHeight(row))
    ensures var r := PackGroup(g, catalog, settings);
            var row := FindExact(catalog, g.stoneType, g.thickness, g.finish).value;
            forall k :: 0 <= k < |r.placedPieces| ==>
              InBounds(r.placedPieces[k], SlabWidth(row), SlabHeight(row))
  {
    var row := FindExact(catalog, g.stoneType, g.thickness, g.finish).value;
    var w, h := SlabWidth(row), SlabHeight(row);
    var sorted := SortPieces(g.pieces);
    forall k | 0 <= k < |sorted| ensures 0.0 <= sorted[k].width <= w && 0.0 <= sorted[k].depth <= h {
      assert sorted[k] in multiset(g.pieces);
    }
    PackInBounds(sorted, w, h, PackingKerf(settings));
  }

  lemma {:induction false} UsedAreaAppend(a: seq<Placed>, b: seq<Placed>)
    ensures UsedArea(a + b) == UsedArea(a) + UsedArea(b)
    decreases |b|
  {
    if |b| == 0 {
      assert a + b == a;
    } else {
      var n := |b| - 1;
      assert (a + b)[..|a| + n] == a + b[..n];
      UsedAreaAppend(a, b[..n]);
    }
  }

  /** Used area of slabs 0 .. m-1, each slab's pieces taken from the placement log. */
  function AreaOnSlabs(placed: seq<Placed>, m: nat): real
    decreases m
  {
    if m == 0 then 0.0 else AreaOnSlabs(placed, m - 1) + UsedArea(OnSlab(placed, m - 1))
  }

  lemma {:induction false} AreaOnSlabsSnoc(placed: seq<Placed>, e: Placed, m: nat)
    ensures AreaOnSlabs(placed + [e], m)
              == AreaOnSlabs(placed, m) + (if 0 <= e.slabIndex < m then PlacedArea(e) else 0.0)
    decreases m
  {
    if m > 0 {
      AreaOnSlabsSnoc(placed, e, m - 1);
      assert (placed + [e])[..|placed|] == placed;
      var s := m - 1;
      UsedAreaAppend(OnSlab(placed, s), if e.slabIndex == s then [e] else []);
      assert UsedArea([e]) == PlacedArea(e) by {
        assert [e][..0] == [];
      }
    }
  }

  /** The placements' area splits over the slabs they name. */
  lemma {:induction false} AreaPartition(placed: seq<Placed>, m: nat)
    requires forall k :: 0 <= k < |placed| ==> 0 <= placed[k].slabIndex < m
    ensures AreaOnSlabs(placed, m) == UsedArea(placed)
    decreases |placed|
  {
    if |placed| == 0 {
      AreaOnSlabsEmpty(m);
    } else {
      var n := |placed| - 1;
      var prev := placed[..n];
      AreaPartition(prev, m);
      assert placed == prev + [placed[n]];
      AreaOnSlabsSnoc(prev, placed[n], m);
    }
  }

  lemma {:induction false} AreaOnSlabsEmpty(m: nat)
    ensures AreaOnSlabs([], m) == 0.0
    decreases m
  {
    if m > 0 {
      AreaOnSlabsEmpty(m - 1);
    }
  }

  /** Used area of each slab of `slabs`, summed. */
  function AreaOfSlabs(slabs: seq<seq<Placed>>): real
    decreases |slabs|
  {
    if |slabs| == 0 then 0.0 else AreaOfSlabs(slabs[..|slabs| - 1]) + UsedArea(slabs[|slabs| - 1])
  }

  lemma {:induction false} SumEfficiencyOfSlabs(slabs: seq<seq<Placed>>, slabW: real, slabH: real)
    requires slabW * slabH != 0.0
    ensures SumEfficiency(Slabs(slabs, slabW, slabH)) == (AreaOfSlabs(slabs) / (slabW * slabH)) * 100.0
    decreases |slabs|
  {
    if |slabs| > 0 {
      var n := |slabs| - 1;
      var area := slabW * slabH;
      var r := Slabs(slabs, slabW, slabH);
      assert r == Slabs(slabs[..n], slabW, slabH) + [Slab(slabs[n], slabW, slabH, Efficiency(slabs[n], slabW, slabH))];
      assert r[..n] == Slabs(slabs[..n], slabW, slabH);
      assert SumEfficiency(r) == SumEfficiency(r[..n]) + (UsedArea(slabs[n]) / area) * 100.0;
      SumEfficiencyOfSlabs(slabs[..n], slabW, slabH);
      assert AreaOfSlabs(slabs) == AreaOfSlabs(slabs[..n]) + UsedArea(slabs[n]);
      PercentOfSum(AreaOfSlabs(slabs[..n]), UsedArea(slabs[n]), area);
    }
  }

  lemma {:induction false} AreaOfSlabsOnSlab(slabs: seq<seq<Placed>>, placed: seq<Placed>)
    requires forall s :: 0 <= s < |slabs| ==> slabs[s] == OnSlab(placed, s)
    ensures AreaOfSlabs(slabs) == AreaOnSlabs(placed, |slabs|)
    decreases |slabs|
  {
    if |slabs| > 0 {
      var n := |slabs| - 1;
      var prev := slabs[..n];
      forall s | 0 <= s < n ensures prev[s] == OnSlab(placed, s) {
        assert prev[s] == slabs[s];
      }
      AreaOfSlabsOnSlab(prev, placed);
      assert AreaOfSlabs(slabs) == AreaOfSlabs(prev) + UsedArea(slabs[n]);
      assert AreaOnSlabs(placed, |slabs|) == AreaOnSlabs(placed, n) + UsedArea(OnSlab(placed, n));
    }
  }

  lemma PercentOfSum(a: real, b: real, c: real)
    requires c != 0.0
    ensures (a / c) * 100.0 + (b / c) * 100.0 == ((a + b) / c) * 100.0
  {
  }

  /**
    The average efficiency of a group's record is the share of the area of
    all its slabs that its pieces cover, in percent (the pieces' total area
    over the slab area, times 100, over the slab count), whenever the slabs
    between them hold all the placed area (`PackingArea` shows the packer's
    slabs do); it is 0 only when there are no slabs.
   */
  lemma ReportAverage(g: Group, packing: Packing, slabW: real, slabH: real)
    requires slabW * slabH != 0.0
    requires AreaOfSlabs(packing.slabs) == UsedArea(packing.placed)
    ensures var r := Report(g, packing, slabW, slabH);
            && (r.totalSlabs == 0 ==> r.averageEfficiency == 0.0)
            && (r.totalSlabs > 0 ==>
                  r.averageEfficiency
                    == ((UsedArea(r.placedPieces) / (slabW * slabH)) * 100.0) / (r.totalSlabs as real))
  {
    var slabs := Slabs(packing.slabs, slabW, slabH);
    assert Report(g, packing, slabW, slabH)
             == Packed(slabs, packing.placed, |slabs|, Average(slabs), g.thickness, g.finish, g.key);
    if |packing.slabs| > 0 {
      PackingAverage(packing, slabW, slabH);
    }
  }

  lemma PackingAverage(packing: Packing, slabW: real, slabH: real)
    requires slabW * slabH != 0.0 && |packing.slabs| > 0
    requires AreaOfSlabs(packing.slabs) == UsedArea(packing.placed)
    ensures Average(Slabs(packing.slabs, slabW, slabH))
              == ((UsedArea(packing.placed) / (slabW * slabH)) * 100.0) / (|packing.slabs| as real)
  {
    AverageOfSlabs(packing.slabs, slabW, slabH);
    SameUtilisation(AreaOfSlabs(packing.slabs), UsedArea(packing.placed), slabW * slabH, |packing.slabs| as real);
  }

  lemma SameUtilisation(a: real, b: real, c: real, n: real)
    requires a == b && c != 0.0 && n != 0.0
    ensures ((a / c) * 100.0) / n == ((b / c) * 100.0) / n
  {
  }

  /** The slabs of a packing carry, between them, the whole placed area. */
  lemma PackingArea(pieces: seq<Piece>, slabW: real, slabH: real, kerf: real)
    ensures var packing := Pack(pieces, slabW, slabH, kerf);
            AreaOfSlabs(packing.slabs) == UsedArea(packing.placed)
  {
    var packing := Pack(pieces, slabW, slabH, kerf);
    PackConsistent(pieces, slabW, slabH, kerf);
    AreaPartition(packing.placed, |packing.slabs|);
    AreaOfSlabsOnSlab(packing.slabs, packing.placed);
  }

  lemma AverageOfSlabs(slabs: seq<seq<Placed>>, slabW: real, slabH: real)
    requires slabW * slabH != 0.0 && |slabs| > 0
    ensures Average(Slabs(slabs, slabW, slabH))
              == ((AreaOfSlabs(slabs) / (slabW * slabH)) * 100.0) / (|slabs| as real)
  {
    SumEfficiencyOfSlabs(slabs, slabW, slabH);
  }

  /** An empty group (which grouping never produces) packs onto no slabs. */
  lemma PackGroupSlabsNonEmpty(g: Group, catalog: seq<StoneVariant>, settings: Settings)
    requires FindExact(catalog, g.stoneType, g.thickness, g.finish).Some?
    ensures var r := PackGroup(g, catalog, settings);
            r.totalSlabs > 0 <==> |g.pieces| > 0
  {
    var row := FindExact(catalog, g.stoneType, g.thickness, g.finish).value;
    var sorted := SortPieces(g.pieces);
    var w, h, k := SlabWidth(row), SlabHeight(row), PackingKerf(settings);
    PackConsistent(sorted, w, h, k);
    if |g.pieces| > 0 {
      assert |sorted| > 0 by {
        assert g.pieces[0] in multiset(sorted);
      }
      assert 0 <= Pack(sorted, w, h, k).placed[0].slabIndex;
    }
  }

  /** Stores each group's outcome under its stone type, later groups replacing earlier ones. */
  function StoreResults(gs: seq<Group>, catalog: seq<StoneVariant>, settings: Settings): map<string, GroupResult>
    decreases |gs|
  {
    if |gs| == 0 then map[]
    else
      var g := gs[|gs| - 1];
      StoreResults(gs[..|gs| - 1], catalog, settings)[g.stoneType := PackGroup(g, catalog, settings)]
  }

  /** `optimizeMultiProductLayout`: group the products, then pack each group. */
  function Optimize(products: seq<Product>, catalog: seq<StoneVariant>, settings: Settings): map<string, GroupResult> {
    StoreResults(GroupProducts(products), catalog, settings)
  }

  /** Stone types with a result are exactly the groups' stone types. */
  lemma {:induction false} StoreDomain(gs: seq<Group>, catalog: seq<StoneVariant>, settings: Settings, t: string)
    ensures t in StoreResults(gs, catalog, settings) <==> exists i :: 0 <= i < |gs| && gs[i].stoneType == t
    decreases |gs|
  {
    if |gs| > 0 {
      var n := |gs| - 1;
      StoreDomain(gs[..n], catalog, settings, t);
      HasTypeSnoc(gs, gs[..n], t);
      assert t in StoreResults(gs, catalog, settings)
             <==> t in StoreResults(gs[..n], catalog, settings) || gs[n].stoneType == t;
    }
  }

  /** Some group has stone type `t` exactly when one before the last does or the last one does. */
  lemma HasTypeSnoc(gs: seq<Group>, prev: seq<Group>, t: string)
    requires |gs| > 0 && prev == gs[..|gs| - 1]
    ensures (exists i :: 0 <= i < |gs| && gs[i].stoneType == t)
            <==> (exists i :: 0 <= i < |prev| && prev[i].stoneType == t) || gs[|gs| - 1].stoneType == t
  {
    if exists i :: 0 <= i < |gs| && gs[i].stoneType == t {
      var i :| 0 <= i < |gs| && gs[i].stoneType == t;
      if i < |prev| {
        assert prev[i] == gs[i];
      }
    }
    if exists i :: 0 <= i < |prev| && prev[i].stoneType == t {
      var i :| 0 <= i < |prev| && prev[i].stoneType == t;
      assert gs[i] == prev[i];
    }
  }

  /** The last group of a stone type, when some group has it. */
  function LastOfType(gs: seq<Group>, t: string): (r: Option<nat>)
    ensures r.None? <==> forall i :: 0 <= i < |gs| ==> gs[i].stoneType != t
    ensures r.Some? ==> r.value < |gs| && gs[r.value].stoneType == t
                        && forall j :: r.value < j < |gs| ==> gs[j].stoneType != t
    decreases |gs|
  {
    if |gs| == 0 then None
    else if gs[|gs| - 1].stoneType == t then Some(|gs| - 1)
    else LastOfType(gs[..|gs| - 1], t)
  }

  /**
    The result stored under a stone type is the outcome of the LAST group of
    that type: earlier groups of the same type, with another thickness or
    finish, are overwritten.
   */
  lemma {:induction false} StoreKeepsLast(gs: seq<Group>, catalog: seq<StoneVariant>, settings: Settings, t: string)
    requires LastOfType(gs, t).Some?
    ensures t in StoreResults(gs, catalog, settings)
    ensures StoreResults(gs, catalog, settings)[t] == PackGroup(gs[LastOfType(gs, t).value], catalog, settings)
    decreases |gs|
  {
    var n := |gs| - 1;
    if gs[n].stoneType != t {
      var prev := gs[..n];
      StoreKeepsLast(prev, catalog, settings, t);
      assert gs[LastOfType(gs, t).value] == prev[LastOfType(prev, t).value];
    }
  }

  /**
    The optimizer reports a result under stone type `t` exactly when some
    stone group, that is some eligible product, names `t`, and that result is
    the outcome of the last such group.
   */
  lemma OptimizeResultsByStone(products: seq<Product>, catalog: seq<StoneVariant>, settings: Settings, t: string)
    ensures var gs := GroupProducts(products);
            && (t in Optimize(products, catalog, settings) <==> LastOfType(gs, t).Some?)
            && (t in Optimize(products, catalog, settings) ==>
                  Optimize(products, catalog, settings)[t] == PackGroup(gs[LastOfType(gs, t).value], catalog, settings))
  {
    var gs := GroupProducts(products);
    StoreDomain(gs, catalog, settings, t);
    if LastOfType(gs, t).Some? {
      StoreKeepsLast(gs, catalog, settings, t);
    }
  }
}

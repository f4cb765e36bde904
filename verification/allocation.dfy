/**
  How `applyMultiProductOptimization` turns the packed stone groups into
  per-product prices (src/utils/multiProductOptimization.js:265-357).

  Every product first loses its previous result. Then, for every stone type
  with a packed layout whose catalog row (type, thickness, finish) exists, the
  group's material cost, slab cost plus the breakage buffer times the number
  of slabs the packer used, is shared among the products that have pieces in
  the layout, in proportion to the area of their pieces. A product receives a
  share only if its own stone, thickness and finish equal the group's.
  Fabrication is charged on the product's usable area and the markup is
  applied to the sum.
 */
module Allocation {
  import opened Common
  import opened Domain
  import opened Placement
  import opened Packer

  /** The breakage buffer in percent: the configured one, or 10 when it is zero. */
  function BreakageBuffer(settings: Settings): (b: real)
    ensures b != 0.0
    ensures settings.breakageBuffer != 0.0 ==> b == settings.breakageBuffer
  {
    if settings.breakageBuffer != 0.0 then settings.breakageBuffer else 10.0
  }

  /** Cost of the slabs a group uses, with the breakage buffer added to each slab's price. */
  function GroupMaterialCost(row: StoneVariant, totalSlabs: nat, settings: Settings): real {
    (NumberOr(row.slabCost, 0.0) * (1.0 + BreakageBuffer(settings) / 100.0)) * (totalSlabs as real)
  }

  /** Total placed area of the pieces of product `i`. */
  function ProductArea(placed: seq<Placed>, i: int): real
    decreases |placed|
  {
    if |placed| == 0 then 0.0
    else
      var last := placed[|placed| - 1];
      ProductArea(placed[..|placed| - 1], i) + (if last.piece.productIndex == i then PlacedArea(last) else 0.0)
  }

  /** Product `i` has at least one piece in the layout. */
  function HasPieces(placed: seq<Placed>, i: int): (b: bool)
    ensures b <==> exists k :: 0 <= k < |placed| && placed[k].piece.productIndex == i
    decreases |placed|
  {
    if |placed| == 0 then false
    else
      var n := |placed| - 1;
      assert forall k :: 0 <= k < n ==> placed[..n][k] == placed[k];
      HasPieces(placed[..n], i) || placed[n].piece.productIndex == i
  }

  /** Usable area in square feet: width times depth in square inches over 144, times the quantity. */
  function UsableArea(p: Product): real {
    ((NumberOr(p.width, 0.0) * NumberOr(p.depth, 0.0)) / 144.0) * (IntOr(p.quantity, 1) as real)
  }

  /** The product carries the group's stone type, thickness and finish. */
  predicate Matches(p: Product, stoneType: string, r: GroupResult) {
    r.Packed? && p.stone == Some(stoneType) && p.thickness == r.thickness && p.finish == r.finish
  }

  /** The price record of product `i` as a share of packed group `r` cut from catalog row `row`. */
  function ShareQuote(p: Product, i: int, r: GroupResult, row: StoneVariant, settings: Settings): (q: Quote)
    requires r.Packed?
    ensures q.NonFinite? <==> UsedArea(r.placedPieces) == 0.0
    ensures q.Shared? ==>
              && q.areaRatio * UsedArea(r.placedPieces) == ProductArea(r.placedPieces, i)
              && q.materialCost == GroupMaterialCost(row, r.totalSlabs, settings) * q.areaRatio
              && q.effectiveSlabs == (r.totalSlabs as real) * q.areaRatio
              && q.rawCost == q.materialCost + q.fabricationCost
              && q.finalPrice == q.rawCost * NumberOr(row.markup, 1.0)
              && q.usableAreaSqft == UsableArea(p)
              && (settings.includeFabrication ==> q.fabricationCost == q.usableAreaSqft * NumberOr(row.fabCost, 0.0))
              && (!settings.includeFabrication ==> q.fabricationCost == 0.0)
  {
    var total := UsedArea(r.placedPieces);
    if total == 0.0 then NonFinite
    else
      var ratio := ProductArea(r.placedPieces, i) / total;
      var material := GroupMaterialCost(row, r.totalSlabs, settings) * ratio;
      var usable := UsableArea(p);
      var fabrication := if settings.includeFabrication then usable * NumberOr(row.fabCost, 0.0) else 0.0;
      var raw := material + fabrication;
      Shared(usable, ratio, material, fabrication, raw, raw * NumberOr(row.markup, 1.0), (r.totalSlabs as real) * ratio)
  }

  /**
    The allocation loop of one group over products 0 .. n-1, in ascending
    index order: a product with pieces in the layout and the group's exact
    stone gets its share; every other product is left as it was.
   */
  function ShareUpTo(products: seq<Product>, stoneType: string, r: GroupResult, row: StoneVariant,
                     settings: Settings, n: nat): (out: seq<Product>)
    requires r.Packed? && n <= |products|
    ensures |out| == |products|
    ensures forall i :: 0 <= i < |products| ==>
              out[i] == if i < n && HasPieces(r.placedPieces, i) && Matches(products[i], stoneType, r)
                        then products[i].(result := Some(ShareQuote(products[i], i, r, row, settings)))
                        else products[i]
    decreases n
  {
    if n == 0 then products
    else
      var prev := ShareUpTo(products, stoneType, r, row, settings, n - 1);
      var i := n - 1;
      if HasPieces(r.placedPieces, i) && Matches(products[i], stoneType, r)
      then prev[i := products[i].(result := Some(ShareQuote(products[i], i, r, row, settings)))]
      else prev
  }

  /**
    Applies the result stored under `stoneType`: skipped when it is not a
    packed layout or when its exact catalog row is missing.
   */
  function ApplyGroup(products: seq<Product>, stoneType: string, r: GroupResult,
                      catalog: seq<StoneVariant>, settings: Settings): (out: seq<Product>)
    ensures |out| == |products|
  {
    if r.Unmatched? then products
    else
      match FindExact(catalog, stoneType, r.thickness, r.finish)
      case None => products
      case Some(row) => ShareUpTo(products, stoneType, r, row, settings, |products|)
  }

  /** Every product with its result cleared. */
  function Reset(products: seq<Product>): (out: seq<Product>)
    ensures |out| == |products|
    ensures forall i :: 0 <= i < |products| ==> out[i] == products[i].(result := None)
  {
    seq(|products|, i requires 0 <= i < |products| => products[i].(result := None))
  }

  /** The groups in the order `keys` enumerates them, applied one after another. */
  function ApplyKeys(products: seq<Product>, results: map<string, GroupResult>, keys: seq<string>,
                     catalog: seq<StoneVariant>, settings: Settings): (out: seq<Product>)
    requires forall k :: 0 <= k < |keys| ==> keys[k] in results
    ensures |out| == |products|
    decreases |keys|
  {
    if |keys| == 0 then products
    else
      var n := |keys| - 1;
      ApplyGroup(ApplyKeys(products, results, keys[..n], catalog, settings), keys[n], results[keys[n]], catalog, settings)
  }

  /** `keys` lists every stone type of `results` exactly once, as `Object.keys` does. */
  predicate Enumerates(keys: seq<string>, results: map<string, GroupResult>) {
    && (forall k :: 0 <= k < |keys| ==> keys[k] in results)
    && (forall t :: t in results ==> t in keys)
    && (forall j, k :: 0 <= j < k < |keys| ==> keys[j] != keys[k])
  }

  /**
    `applyMultiProductOptimization`: clear every result, then apply each
    stored group, in the order `keys` enumerates the stone types.
   */
  function Apply(products: seq<Product>, results: map<string, GroupResult>, keys: seq<string>,
                 catalog: seq<StoneVariant>, settings: Settings): (out: seq<Product>)
    requires Enumerates(keys, results)
    ensures |out| == |products|
  {
    ApplyKeys(Reset(products), results, keys, catalog, settings)
  }

  /**
    Reference, product by product: the result product `i` ends up with. It
    has one only if the result stored under its own stone type is a packed
    layout holding some of its pieces, with its own thickness and finish, and
    the catalog has that exact row.
   */
  function Expected(p: Product, i: int, results: map<string, GroupResult>,
                    catalog: seq<StoneVariant>, settings: Settings): Option<Quote>
  {
    if p.stone.None? || p.stone.value !in results then None
    else
      var t := p.stone.value;
      var r := results[t];
      if !(Matches(p, t, r) && HasPieces(r.placedPieces, i)) then None
      else
        match FindExact(catalog, t, r.thickness, r.finish)
        case None => None
        case Some(row) => Some(ShareQuote(p, i, r, row, settings))
  }

  /**
    Applying the group stored under `t` changes only the products to which
    the reference assigns a share of it, and gives each that share.
   */
  lemma ApplyGroupAt(products: seq<Product>, t: string, r: GroupResult, catalog: seq<StoneVariant>,
                     settings: Settings, i: nat)
    requires i < |products|
    ensures var e := Expected(products[i], i, map[t := r], catalog, settings);
            ApplyGroup(products, t, r, catalog, settings)[i] == if e.Some? then products[i].(result := e) else products[i]
  {
    if !r.Unmatched? {
      match FindExact(catalog, t, r.thickness, r.finish)
      case None =>
      case Some(row) =>
        var out := ShareUpTo(products, t, r, row, settings, |products|);
        assert out[i] == if HasPieces(r.placedPieces, i) && Matches(products[i], t, r)
                         then products[i].(result := Some(ShareQuote(products[i], i, r, row, settings)))
                         else products[i];
    }
  }

  /** A product's expected result does not depend on the result it carried before. */
  lemma ExpectedIgnoresResult(p: Product, i: int, results: map<string, GroupResult>,
                              catalog: seq<StoneVariant>, settings: Settings, old_: Option<Quote>)
    ensures Expected(p.(result := old_), i, results, catalog, settings) == Expected(p, i, results, catalog, settings)
  {
    var q := p.(result := old_);
    assert UsableArea(q) == UsableArea(p);
    if p.stone.Some? && p.stone.value in results {
      var r := results[p.stone.value];
      if Matches(p, p.stone.value, r) && HasPieces(r.placedPieces, i) {
        match FindExact(catalog, p.stone.value, r.thickness, r.finish)
        case None =>
        case Some(row) =>
          assert ShareQuote(q, i, r, row, settings) == ShareQuote(p, i, r, row, settings);
      }
    }
  }

  /** A product's result after the groups `keys` were applied to the cleared list. */
  lemma {:induction false} ApplyKeysAt(products: seq<Product>, results: map<string, GroupResult>, keys: seq<string>,
                                       catalog: seq<StoneVariant>, settings: Settings, i: nat)
    requires forall k :: 0 <= k < |keys| ==> keys[k] in results
    requires forall j, k :: 0 <= j < k < |keys| ==> keys[j] != keys[k]
    requires i < |products| && products[i].result.None?
    ensures ApplyKeys(products, results, keys, catalog, settings)[i]
              == products[i].(result := if products[i].stone.Some? && products[i].stone.value in keys
                                        then Expected(products[i], i, results, catalog, settings)
                                        else None)
    decreases |keys|
  {
    if |keys| > 0 {
      var n := |keys| - 1;
      var t := keys[n];
      var prev := ApplyKeys(products, results, keys[..n], catalog, settings);
      ApplyKeysAt(products, results, keys[..n], catalog, settings, i);
      ApplyGroupAt(prev, t, results[t], catalog, settings, i);
      var p := products[i];
      if p.stone == Some(t) {
        assert t !in keys[..n];
        assert prev[i] == p;
        assert Expected(p, i, map[t := results[t]], catalog, settings) == Expected(p, i, results, catalog, settings);
      } else {
        assert Expected(prev[i], i, map[t := results[t]], catalog, settings).None?;
        assert p.stone.Some? && p.stone.value in keys ==> p.stone.value in keys[..n] by {
          if p.stone.Some? && p.stone.value in keys {
            var k :| 0 <= k < |keys| && keys[k] == p.stone.value;
            assert k < n && keys[..n][k] == keys[k];
          }
        }
      }
    }
  }

  /**
    Whatever the enumeration order, product `i` ends up with exactly the
    result the reference assigns it: no result, or its share of the group
    stored under its own stone type.
   */
  lemma ApplyIsPointwise(products: seq<Product>, results: map<string, GroupResult>, keys: seq<string>,
                         catalog: seq<StoneVariant>, settings: Settings, i: nat)
    requires Enumerates(keys, results) && i < |products|
    ensures Apply(products, results, keys, catalog, settings)[i]
              == products[i].(result := Expected(products[i], i, results, catalog, settings))
  {
    var base := Reset(products);
    ApplyKeysAt(base, results, keys, catalog, settings, i);
    ExpectedIgnoresResult(products[i], i, results, catalog, settings, None);
  }

  /** The order in which the stone types are visited does not matter. */
  lemma ApplyOrderIrrelevant(products: seq<Product>, results: map<string, GroupResult>, keys1: seq<string>,
                             keys2: seq<string>, catalog: seq<StoneVariant>, settings: Settings)
    requires Enumerates(keys1, results) && Enumerates(keys2, results)
    ensures Apply(products, results, keys1, catalog, settings) == Apply(products, results, keys2, catalog, settings)
  {
    forall i | 0 <= i < |products|
      ensures Apply(products, results, keys1, catalog, settings)[i] == Apply(products, results, keys2, catalog, settings)[i]
    {
      ApplyIsPointwise(products, results, keys1, catalog, settings, i);
      ApplyIsPointwise(products, results, keys2, catalog, settings, i);
    }
  }

  /** Area of the pieces of products 0 .. m-1. */
  function AreaByProduct(placed: seq<Placed>, m: nat): real
    decreases m
  {
    if m == 0 then 0.0 else AreaByProduct(placed, m - 1) + ProductArea(placed, m - 1)
  }

  lemma {:induction false} AreaByProductSnoc(placed: seq<Placed>, e: Placed, m: nat)
    ensures AreaByProduct(placed + [e], m)
              == AreaByProduct(placed, m) + (if 0 <= e.piece.productIndex < m then PlacedArea(e) else 0.0)
    decreases m
  {
    if m > 0 {
      AreaByProductSnoc(placed, e, m - 1);
      assert (placed + [e])[..|placed|] == placed;
    }
  }

  lemma {:induction false} AreaByProductEmpty(m: nat)
    ensures AreaByProduct([], m) == 0.0
    decreases m
  {
    if m > 0 {
      AreaByProductEmpty(m - 1);
    }
  }

  /** The layout's area splits over the products its pieces come from. */
  lemma {:induction false} ProductAreaPartition(placed: seq<Placed>, m: nat)
    requires forall k :: 0 <= k < |placed| ==> 0 <= placed[k].piece.productIndex < m
    ensures AreaByProduct(placed, m) == UsedArea(placed)
    decreases |placed|
  {
    if |placed| == 0 {
      AreaByProductEmpty(m);
    } else {
      var n := |placed| - 1;
      var prev := placed[..n];
      ProductAreaPartition(prev, m);
      assert placed == prev + [placed[n]];
      AreaByProductSnoc(prev, placed[n], m);
    }
  }

  /** A product without pieces in the layout covers no area of it. */
  lemma {:induction false} NoPiecesNoArea(placed: seq<Placed>, i: int)
    requires !HasPieces(placed, i)
    ensures ProductArea(placed, i) == 0.0
    decreases |placed|
  {
    if |placed| > 0 {
      NoPiecesNoArea(placed[..|placed| - 1], i);
    }
  }

  /** The area ratio the record of a contributing product carries, 0 for any other product. */
  function RatioOf(p: Product, placed: seq<Placed>, i: int): real {
    if HasPieces(placed, i) && p.result.Some? && p.result.value.Shared? then p.result.value.areaRatio else 0.0
  }

  /** The material cost the record of a contributing product carries, 0 for any other product. */
  function MaterialOf(p: Product, placed: seq<Placed>, i: int): real {
    if HasPieces(placed, i) && p.result.Some? && p.result.value.Shared? then p.result.value.materialCost else 0.0
  }

  /** Sum of the area ratios of the contributing products among 0 .. m-1. */
  function RatioTotal(out: seq<Product>, placed: seq<Placed>, m: nat): real
    requires m <= |out|
    decreases m
  {
    if m == 0 then 0.0 else RatioTotal(out, placed, m - 1) + RatioOf(out[m - 1], placed, m - 1)
  }

  /** Sum of the material costs of the contributing products among 0 .. m-1. */
  function MaterialTotal(out: seq<Product>, placed: seq<Placed>, m: nat): real
    requires m <= |out|
    decreases m
  {
    if m == 0 then 0.0 else MaterialTotal(out, placed, m - 1) + MaterialOf(out[m - 1], placed, m - 1)
  }

  lemma QuotientSum(a: real, b: real, c: real)
    requires c != 0.0
    ensures a / c + b / c == (a + b) / c
  {
  }

  /** `p` holds a shared record whose ratio is its part `area` of `total` and whose material cost is that part of `material`. */
  ghost predicate ShareOf(p: Product, area: real, total: real, material: real)
    requires total != 0.0
  {
    && p.result.Some? && p.result.value.Shared?
    && p.result.value.areaRatio == area / total
    && p.result.value.materialCost == material * p.result.value.areaRatio
  }

  /** Every product among 0 .. m-1 with pieces in the layout holds its share of `total` and `material`. */
  ghost predicate SharesHeld(out: seq<Product>, placed: seq<Placed>, total: real, material: real, m: nat)
    requires m <= |out| && total != 0.0
  {
    forall i :: 0 <= i < m && HasPieces(placed, i) ==> ShareOf(out[i], ProductArea(placed, i), total, material)
  }

  lemma {:induction false} RatioTotalIsShare(out: seq<Product>, placed: seq<Placed>, total: real, material: real, m: nat)
    requires m <= |out| && total != 0.0
    requires SharesHeld(out, placed, total, material, m)
    ensures RatioTotal(out, placed, m) == AreaByProduct(placed, m) / total
    decreases m
  {
    if m > 0 {
      var i := m - 1;
      RatioTotalIsShare(out, placed, total, material, m - 1);
      if !HasPieces(placed, i) {
        NoPiecesNoArea(placed, i);
      }
      QuotientSum(AreaByProduct(placed, i), ProductArea(placed, i), total);
    }
  }

  lemma Distribute(k: real, a: real, b: real)
    ensures k * a + k * b == k * (a + b)
  {
  }

  /** The material costs of the shares are the group's material cost scaled by the sum of their ratios. */
  lemma {:induction false} MaterialTotalScales(out: seq<Product>, placed: seq<Placed>, total: real, material: real, m: nat)
    requires m <= |out| && total != 0.0
    requires SharesHeld(out, placed, total, material, m)
    ensures MaterialTotal(out, placed, m) == material * RatioTotal(out, placed, m)
    decreases m
  {
    if m > 0 {
      var i := m - 1;
      SharesHeldPrefix(out, placed, total, material, m);
      MaterialTotalScales(out, placed, total, material, i);
      MaterialIsScaled(out[i], placed, i, total, material);
      assert MaterialTotal(out, placed, m) == MaterialTotal(out, placed, i) + MaterialOf(out[i], placed, i);
      assert RatioTotal(out, placed, m) == RatioTotal(out, placed, i) + RatioOf(out[i], placed, i);
      Distribute(material, RatioTotal(out, placed, i), RatioOf(out[i], placed, i));
    }
  }

  /** Shares held up to `m` are held up to `m - 1`, and by product `m - 1`. */
  lemma SharesHeldPrefix(out: seq<Product>, placed: seq<Placed>, total: real, material: real, m: nat)
    requires 0 < m <= |out| && total != 0.0
    requires SharesHeld(out, placed, total, material, m)
    ensures SharesHeld(out, placed, total, material, m - 1)
    ensures HasPieces(placed, m - 1) ==> ShareOf(out[m - 1], ProductArea(placed, m - 1), total, material)
  {
  }

  /** One product's material cost is the group's material cost times its ratio, 0 for both when it does not contribute. */
  lemma MaterialIsScaled(p: Product, placed: seq<Placed>, i: int, total: real, material: real)
    requires total != 0.0
    requires HasPieces(placed, i) ==> ShareOf(p, ProductArea(placed, i), total, material)
    ensures MaterialOf(p, placed, i) == material * RatioOf(p, placed, i)
  {
  }

  lemma RatioFromProduct(ratio: real, total: real, area: real)
    requires total != 0.0 && ratio * total == area
    ensures ratio == area / total
  {
  }

  lemma WholeQuotient(total: real)
    requires total != 0.0
    ensures total / total == 1.0
  {
  }

  /** On a layout with area, the share is a shared record whose ratio is the product's part of that area. */
  lemma ShareIsPart(p: Product, i: int, r: GroupResult, row: StoneVariant, settings: Settings)
    requires r.Packed? && UsedArea(r.placedPieces) != 0.0
    ensures var q := ShareQuote(p, i, r, row, settings);
            && q.Shared?
            && q.areaRatio == ProductArea(r.placedPieces, i) / UsedArea(r.placedPieces)
            && q.materialCost == GroupMaterialCost(row, r.totalSlabs, settings) * q.areaRatio
  {
    var q := ShareQuote(p, i, r, row, settings);
    RatioFromProduct(q.areaRatio, UsedArea(r.placedPieces), ProductArea(r.placedPieces, i));
  }

  /** A product given its share of a layout that covers some area holds that share. */
  lemma QuoteIsShare(p: Product, i: int, r: GroupResult, row: StoneVariant, settings: Settings)
    requires r.Packed? && UsedArea(r.placedPieces) != 0.0
    ensures ShareOf(p.(result := Some(ShareQuote(p, i, r, row, settings))), ProductArea(r.placedPieces, i),
                    UsedArea(r.placedPieces), GroupMaterialCost(row, r.totalSlabs, settings))
  {
    ShareIsPart(p, i, r, row, settings);
  }

  /** A product with pieces in the layout and the group's exact stone gets a shared record of its part. */
  lemma ShareHeldAt(products: seq<Product>, stoneType: string, r: GroupResult, row: StoneVariant,
                    settings: Settings, i: int)
    requires r.Packed? && UsedArea(r.placedPieces) != 0.0 && 0 <= i < |products|
    requires HasPieces(r.placedPieces, i) && Matches(products[i], stoneType, r)
    ensures ShareOf(ShareUpTo(products, stoneType, r, row, settings, |products|)[i], ProductArea(r.placedPieces, i),
                    UsedArea(r.placedPieces), GroupMaterialCost(row, r.totalSlabs, settings))
  {
    var out := ShareUpTo(products, stoneType, r, row, settings, |products|);
    QuoteIsShare(products[i], i, r, row, settings);
    assert out[i] == products[i].(result := Some(ShareQuote(products[i], i, r, row, settings)));
  }

  /**
    When every piece of a packed layout comes from a product with the
    group's exact stone, and the layout covers some area, the area ratios of
    the products that receive a share add up to 1 and their material costs
    add up to the group's material cost: the slabs are paid for exactly once.
   */
  lemma SharesAddUp(products: seq<Product>, stoneType: string, r: GroupResult, row: StoneVariant, settings: Settings)
    requires r.Packed? && UsedArea(r.placedPieces) != 0.0
    requires forall k :: 0 <= k < |r.placedPieces| ==>
               var i := r.placedPieces[k].piece.productIndex;
               0 <= i < |products| && Matches(products[i], stoneType, r)
    ensures var out := ShareUpTo(products, stoneType, r, row, settings, |products|);
            && RatioTotal(out, r.placedPieces, |products|) == 1.0
            && MaterialTotal(out, r.placedPieces, |products|) == GroupMaterialCost(row, r.totalSlabs, settings)
  {
    var out := ShareUpTo(products, stoneType, r, row, settings, |products|);
    var placed := r.placedPieces;
    var total := UsedArea(placed);
    var material := GroupMaterialCost(row, r.totalSlabs, settings);
    forall i | 0 <= i < |products| && HasPieces(placed, i)
      ensures ShareOf(out[i], ProductArea(placed, i), total, material)
    {
      var k :| 0 <= k < |placed| && placed[k].piece.productIndex == i;
      assert Matches(products[i], stoneType, r);
      ShareHeldAt(products, stoneType, r, row, settings, i);
    }
    RatioTotalIsShare(out, placed, total, material, |products|);
    MaterialTotalScales(out, placed, total, material, |products|);
    ProductAreaPartition(placed, |products|);
    WholeQuotient(total);
  }
}
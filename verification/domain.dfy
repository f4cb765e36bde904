/**
  The records the quoting engine reads and writes: a product line as the form
  holds it, a row of the stone catalog, the quoting settings, and the result a
  product carries once priced. Text the user may leave unset is an
  `Option<string>`; a number field is an `Option<real>` whose `None` stands
  for a value that does not parse (NaN) or is absent.
 */
module Domain {
  import opened Common

  /** The figures a product carries once priced. */
  datatype Quote =
      /** Independent sizing and pricing of one product. */
    | Single(usableAreaSqft: real, totalSlabsNeeded: int, efficiency: real,
             materialCost: real, fabricationCost: real, rawCost: real,
             finalPrice: real, topsPerSlab: int)
      /** A product's share of a slab group packed together with other products. */
    | Shared(usableAreaSqft: real, areaRatio: real, materialCost: real,
             fabricationCost: real, rawCost: real, finalPrice: real,
             effectiveSlabs: real)
      /** A record whose figures are NaN or Infinity because a division by zero was not guarded. */
    | NonFinite

  /** One product line of the quote. Dimensions are inches. */
  datatype Product = Product(
    stone: Option<string>,
    width: Option<real>,
    depth: Option<real>,
    quantity: Option<int>,
    thickness: Option<string>,
    finish: Option<string>,
    customName: Option<string>,
    edgeDetail: Option<string>,
    priority: Option<string>,
    note: Option<string>,
    pieceType: Option<string>,
    aiExtracted: bool,
    result: Option<Quote>)

  /** One row of the stone catalog: slab size in inches, slab cost, fabrication cost per square foot, markup factor. */
  datatype StoneVariant = StoneVariant(
    stoneType: string,
    thickness: string,
    finish: string,
    slabWidth: Option<real>,
    slabHeight: Option<real>,
    slabCost: Option<real>,
    fabCost: Option<real>,
    markup: Option<real>)

  /**
    Quoting settings, taken to be set. The optimizer's `|| 0.125` and `|| 10`
    fallbacks, which also replace a 0, are applied where the values are read.
   */
  datatype Settings = Settings(
    includeKerf: bool,
    kerfWidth: real,
    breakageBuffer: real,
    includeFabrication: bool)

  /** A catalog row that matches stone type, thickness and finish exactly. */
  predicate ExactMatch(row: StoneVariant, stoneType: string, thickness: Option<string>, finish: Option<string>) {
    row.stoneType == stoneType && thickness == Some(row.thickness) && finish == Some(row.finish)
  }

  /** The first catalog row matching type, thickness and finish exactly (`stoneOptions.find`). */
  function FindExact(catalog: seq<StoneVariant>, stoneType: string, thickness: Option<string>, finish: Option<string>)
    : (r: Option<StoneVariant>)
    ensures r.None? <==> forall i :: 0 <= i < |catalog| ==> !ExactMatch(catalog[i], stoneType, thickness, finish)
    ensures r.Some? ==> exists i :: 0 <= i < |catalog| && catalog[i] == r.value
                                 && ExactMatch(catalog[i], stoneType, thickness, finish)
                                 && forall j :: 0 <= j < i ==> !ExactMatch(catalog[j], stoneType, thickness, finish)
  {
    match First(catalog, (row: StoneVariant) => ExactMatch(row, stoneType, thickness, finish))
    case None => None
    case Some(i) => Some(catalog[i])
  }

  /** The first catalog row of the product's stone type, whatever its thickness and finish. */
  function FindByType(catalog: seq<StoneVariant>, stone: Option<string>): (r: Option<StoneVariant>)
    ensures r.None? <==> forall i :: 0 <= i < |catalog| ==> stone != Some(catalog[i].stoneType)
    ensures r.Some? ==> exists i :: 0 <= i < |catalog| && catalog[i] == r.value
                                 && stone == Some(catalog[i].stoneType)
                                 && forall j :: 0 <= j < i ==> stone != Some(catalog[j].stoneType)
  {
    match First(catalog, (row: StoneVariant) => stone == Some(row.stoneType))
    case None => None
    case Some(i) => Some(catalog[i])
  }
}

# Slab quoting engine, modelled in Dafny

This project models the pricing and layout core of a countertop quoting tool.
A quote starts from a list of products: tops of a given stone, thickness,
finish, width, depth and quantity. The engine has four parts.

- **Multi-product optimizer.** It groups the products by exact stone
  combination and expands each product into its pieces. It sorts the pieces
  by priority and area, then packs them first-fit onto slabs. For each
  candidate spot on a slab, a placement engine tries both orientations and
  picks the spot with the lowest waste score. The optimizer reports a
  per-slab efficiency and an average efficiency. It then shares each group's
  material cost among its products, in proportion to the area of their
  placed pieces.
- **Single-product sizer.** It counts how many tops fit on one slab: two
  full grids, plus layouts of an upright band above a turned band. From that
  count it prices the product: slabs needed, material with a breakage buffer,
  fabrication per square foot, and markup.
- **Drawing merge.** Pieces read off a drawing are gathered by width, depth
  and edge detail. Each group becomes one product line, and the new lines
  replace the product the drawing was attached to.
- **Default variant choice.** For a stone type, this picks the catalog row
  whose thickness, then finish, comes first in fixed preference lists.

All dimensions and money are exact `real`s and all counts are integers. Each
operation is a pure function over immutable datatypes. A value that is unset
or failed to parse is `None`. The `x || default` substitutions of the source
are written out:

| input | when it is 0 or unset it becomes |
|---|---|
| quantity | 1 |
| breakage buffer (cost allocation only) | 10 |
| packer kerf | 0.125 |
| slab size | 126 x 63 |

Modules, in dependency order:

| module | file | contents |
|---|---|---|
| `Common` | common.dfy | `Option`, `Result`, the JavaScript fallbacks, `NatToString`, `First` |
| `Domain` | domain.dfy | products, catalog rows, settings, quotes, the two catalog lookups |
| `Placement` | placement.dfy | `findBestPlacement`, `calculateWaste` |
| `PieceOrder` | piece_order.dfy | the stable priority and area sort |
| `FirstFit` | first_fit.dfy | the packing loop |
| `Grouping` | grouping.dfy | grouping products into stone groups and pieces |
| `Packer` | packer.dfy | per-group packing, efficiencies, the results map |
| `Allocation` | allocation.dfy | `applyMultiProductOptimization` |
| `Sizer` | sizer.dfy | `calculateMaxPiecesPerSlab`, `calculateProductResults` |
| `DrawingMerge` | drawing_merge.dfy | `handleClaudeMultiplePiecesExtraction` |
| `VariantChoice` | variant_choice.dfy | `findBestCombination` |

The model follows the code as written, including these behaviours:

- `high` priority ranks the same as `normal`, because `0 || 1` is 1.
- A quantity of 0 gives one piece.
- A breakage buffer of 0 counts as 10 when costs are allocated.
- The packer replaces a kerf of 0 with 0.125 and ignores `includeKerf`.
- The first piece on a new slab is put at the origin without a size check.
- The placement candidates have no diagonal and no de-duplication. Square
  pieces are tried in both orientations.
- Results are keyed by stone type alone, so a later group of the same type
  overwrites an earlier one.
- A drawing piece with no edge detail and one marked "Eased" fall in
  different groups.

The optimizer has no catalog fallback to a match on stone type alone, and
it raises no error for a piece that fits no slab.

## Model

| member | source | states |
|---|---|---|
| Domain.FindExact | src/utils/multiProductOptimization.js:47-51 | None exactly when no catalog row matches type, thickness and finish; otherwise the first row that matches all three |
| Domain.FindByType | src/utils/calculations.js:51 | None exactly when no row has the product's stone type; otherwise the first row of that type, whatever its thickness and finish |
| Grouping.PieceCount | src/utils/multiProductOptimization.js:24-25 | a missing quantity or 0 gives one piece, a negative one gives none, a positive one gives that many |
| Grouping.Expand | src/utils/multiProductOptimization.js:25-36 | a product yields PieceCount pieces numbered 0, 1, ..., each carrying the product's index, width, depth and priority (default "normal") |
| Grouping.GroupProductsCorrect | src/utils/multiProductOptimization.js:8-37 | groups have distinct stone/thickness/finish keys; each holds exactly the pieces of the eligible products with its key, in product order; each is labelled by the first such product; the group keys are exactly the keys eligible products carry |
| Grouping.GroupsCoverKeys | src/utils/multiProductOptimization.js:9-21 | a key has a group if and only if some product with a stone, a width and a depth carries it |
| Grouping.GroupingConservesPieces | src/utils/multiProductOptimization.js:9-36 | the groups hold as many pieces as the eligible products ask for; ineligible products contribute none |
| Placement.Anchors | src/utils/multiProductOptimization.js:179-192 | one candidate for the origin and two for each piece already on the slab: none is dropped as a duplicate and no diagonal is added |
| Placement.Orientations | src/utils/multiProductOptimization.js:195-199 | twice as many trials as points: every point is tried in both orientations, square pieces included |
| Placement.Waste | src/utils/multiProductOptimization.js:248-263 | the score lies between x+y and x+y+200; it is x+y exactly when neither leftover strip is a sliver between 0 and 12, x+y+100 exactly when one of the two is, and x+y+200 exactly when both are |
| Placement.Earliest | src/utils/multiProductOptimization.js:229-232 | the stable sort's first element: None exactly when no trial is valid, otherwise a valid trial |
| Placement.EarliestIsMinimal | src/utils/multiProductOptimization.js:229-232 | the chosen trial's waste is at most that of any valid trial, and strictly below that of every valid trial enumerated before it |
| Placement.TrialsGrounded | src/utils/multiProductOptimization.js:179-192 | on a slab whose pieces lie right of and below the origin, with a non-negative kerf, every candidate lies there too |
| Placement.FindBestPlacement | src/utils/multiProductOptimization.js:174-245 | returns None exactly when no candidate ends inside the slab with a kerf of clearance from every piece; otherwise a candidate that fits and keeps that clearance, right of and below the origin on a grounded slab |
| Placement.BestIsEarliestMinimal | src/utils/multiProductOptimization.js:179-237 | the result is one of the enumerated trials, of minimal waste among the valid ones, with ties going to the earliest |
| PieceOrder.HighRanksAsNormal | src/utils/multiProductOptimization.js:72-73 | a `high` piece has no precedence over a `normal` or unknown-label piece: the larger one goes first |
| PieceOrder.Insert | src/utils/multiProductOptimization.js:70-78 | one insertion step adds exactly the new piece to the multiset |
| PieceOrder.InsertOrdered | src/utils/multiProductOptimization.js:70-78 | inserting into a sorted sequence keeps it sorted |
| PieceOrder.SortPieces | src/utils/multiProductOptimization.js:70-78 | the result is a permutation of the pieces; low-priority pieces come last and, within a rank, areas never increase |
| PieceOrder.SortIsStable | src/utils/multiProductOptimization.js:70-78 | for every (rank, area) key, the pieces carrying it keep their input order |
| FirstFit.FirstAccepting | src/utils/multiProductOptimization.js:88-105 | returns the lowest-index slab on which the placement engine finds room, with the engine's spot; None when no slab has room |
| FirstFit.Place | src/utils/multiProductOptimization.js:84-134 | one loop iteration: the log grows by one placement of this piece and earlier entries stay; the piece goes to the first slab with room at the engine's spot, or else onto a new slab at the origin, unrotated |
| FirstFit.Pack | src/utils/multiProductOptimization.js:81-135 | one placement per piece, and never more slabs than pieces |
| FirstFit.PlaceKeepsConsistent | src/utils/multiProductOptimization.js:84-134 | one iteration preserves the invariant: every placement names an open slab, each slab holds exactly its placements, no slab is empty, pieces on a slab are kerf-separated |
| FirstFit.PackConsistent | src/utils/multiProductOptimization.js:81-135 | the whole loop ends with that invariant |
| FirstFit.PackPlacesEachPiece | src/utils/multiProductOptimization.js:84-134 | the k-th placement is of the k-th piece offered, so each piece is placed exactly once |
| FirstFit.FirstFitChoice | src/utils/multiProductOptimization.js:88-134 | piece k lands on the lowest-index slab open at its turn that had room; a slab is opened only when none had room, and the piece then sits at the origin unrotated |
| FirstFit.PackInBounds | src/utils/multiProductOptimization.js:116-123 | when every piece fits an empty slab unrotated and the kerf is non-negative, every placement lies inside the slab |
| Packer.SlabWidth | src/utils/multiProductOptimization.js:65 | never 0, and the catalog's slab width whenever that is set and not 0 |
| Packer.SlabHeight | src/utils/multiProductOptimization.js:66 | never 0, and the catalog's slab height whenever that is set and not 0 |
| Packer.PackingKerf | src/utils/multiProductOptimization.js:67 | never 0, and the configured kerf whenever it is not 0, whatever `includeKerf` says |
| Packer.SlabsAt | src/utils/multiProductOptimization.js:137-146 | each reported slab has its pieces, the slab size, and efficiency = used area / slab area x 100 |
| Packer.PackGroup | src/utils/multiProductOptimization.js:42-159 | an error record exactly when the exact catalog row is missing; otherwise one placement per piece, no more slabs than pieces, and the group's thickness, finish and key |
| Packer.PackGroupPlacesAll | src/utils/multiProductOptimization.js:69-135 | the placed pieces are the group's pieces in sorted order: each is placed exactly once |
| Packer.PackGroupConsistent | src/utils/multiProductOptimization.js:81-135 | every placement names a reported slab; each slab holds exactly the placements naming it, is non-empty, and its pieces are pairwise kerf-separated |
| Packer.PackGroupInBounds | src/utils/multiProductOptimization.js:116-123 | with a non-negative kerf and pieces that fit an empty slab unrotated, all placements are inside the slab |
| Packer.PackGroupSlabsNonEmpty | src/utils/multiProductOptimization.js:107-134 | a group has slabs exactly when it has pieces |
| Packer.PackingArea | src/utils/multiProductOptimization.js:137-146 | the slabs' used areas add up to the area of all placements |
| Packer.ReportAverage | src/utils/multiProductOptimization.js:149-154 | the average efficiency is 0 with no slabs; otherwise it is the placed area over the area of one slab, times 100, divided by the slab count |
| Packer.StoreDomain | src/utils/multiProductOptimization.js:56-149 | the results map has a key for exactly the groups' stone types |
| Packer.StoreKeepsLast | src/utils/multiProductOptimization.js:56-149 | the result under a stone type is the last group of that type: earlier groups of another thickness or finish are overwritten |
| Packer.OptimizeResultsByStone | src/utils/multiProductOptimization.js:3-171 | the optimizer has a result under t exactly when some group has stone type t, and it is the outcome of the last such group |
| Allocation.BreakageBuffer | src/utils/multiProductOptimization.js:294 | never 0, and the configured buffer whenever it is not 0 |
| Allocation.HasPieces | src/utils/multiProductOptimization.js:309-324 | true exactly when some placed piece comes from product i |
| Allocation.ShareQuote | src/utils/multiProductOptimization.js:289-357 | non-finite exactly when the layout has no area; otherwise area ratio x total area = the product's area; material = (slab cost x (1 + buffer/100) x slabs) x ratio; effective slabs = slabs x ratio; fabrication = usable square feet x fabrication cost when included, and none when excluded; raw = material + fabrication; final = raw x markup |
| Allocation.Reset | src/utils/multiProductOptimization.js:268-273 | every product keeps its fields, with its result cleared |
| Allocation.ShareUpTo | src/utils/multiProductOptimization.js:327-357 | only products with pieces in the layout and the group's exact stone, thickness and finish get a share; every other product is unchanged |
| Allocation.ApplyGroupAt | src/utils/multiProductOptimization.js:276-357 | applying one stored group changes only the products the per-product reference gives a share of it, and gives them that share |
| Allocation.ApplyIsPointwise | src/utils/multiProductOptimization.js:266-357 | after the whole function, product i holds exactly the reference result: none, or its share of the group stored under its own stone type |
| Allocation.ApplyOrderIrrelevant | src/utils/multiProductOptimization.js:276 | the order in which the stone types are enumerated does not change the outcome |
| Allocation.ProductAreaPartition | src/utils/multiProductOptimization.js:302-324 | the layout's area splits exactly over the products its pieces come from |
| Allocation.ShareIsPart | src/utils/multiProductOptimization.js:349-350 | on a layout with area, the ratio is the product's area over the total and the material cost is that part of the group's cost |
| Allocation.SharesAddUp | src/utils/multiProductOptimization.js:349-350 | when every placed piece comes from a product with the group's exact stone, the area ratios of the sharing products add up to 1 and their material costs to the group's material cost |
| Sizer.Best | src/utils/calculations.js:7-45 | the count is at least both full grids and every sweep count of both families, and equals one of them |
| Sizer.MaxPiecesPerSlab | src/utils/calculations.js:3-48 | the count as written, at least the upright and the turned full grids |
| Sizer.MaxPiecesSymmetric | src/utils/calculations.js:7-45 | swapping the piece's width and depth does not change the count |
| Sizer.MaxPiecesZeroWhenNoFit | src/utils/calculations.js:7-45 | a piece that fits the slab in neither orientation gives 0 |
| Sizer.MaxPiecesNonNegative | src/utils/calculations.js:4-15 | for positive sides and a non-negative slab and kerf, the count is never negative |
| Sizer.MaxPiecesOvercounts | src/utils/calculations.js:17-29 | as written, 2 tops of 30 x 30 on a 30 x 60 slab with kerf 1; no fitting layout holds more than 1 |
| Sizer.TopsPerSlab | src/utils/calculations.js:17-45 | the corrected count, also at least both grids |
| Sizer.TopsPerSlabRealisable | src/utils/calculations.js:17-45 | some two-band layout that fits the slab, kerfs included, holds as many tops as the corrected count |
| Sizer.TopsPerSlabOptimal | src/utils/calculations.js:17-45 | no two-band layout that fits the slab holds more tops than the corrected count |
| Sizer.FitIsMost | src/utils/calculations.js:7 | the floor division gives the largest number of sides, one kerf apart, that fit the length |
| Sizer.SlabsNeeded | src/utils/calculations.js:80 | the fewest slabs of m tops that hold q tops |
| Sizer.SlabsNeededIsCeil | src/utils/calculations.js:80 | that count equals `Math.ceil(q / m)` |
| Sizer.FewestUnique | src/utils/calculations.js:80 | there is only one fewest count |
| Sizer.PriceTops | src/utils/calculations.js:78-93 | the fewest slabs; material = slab cost x slabs x (1 + buffer/100); fabrication per square foot when included; raw = material + fabrication; final = raw x markup |
| Sizer.SizeQuote | src/utils/calculations.js:63-107 | a finite quote exactly when the slab dimensions parse, neither side plus the kerf is 0 and the as-written count is positive; it then holds `calculateMaxPiecesPerSlab`'s count as tops per slab, the fewest slabs that hold the quantity at that count, the material, fabrication, raw and final figures, and the used-over-bought efficiency |
| Sizer.CalculateProductResults | src/utils/calculations.js:50-107 | no result when the stone type is unknown, a dimension is 0 or missing, or a cost is missing; throws exactly when the product is priceable but its quantity is not a valid array length (missing, negative, or 2^32 or more); otherwise the result is the as-written `SizeQuote`; the other fields stay unchanged |
| Sizer.QuantityBoundary | src/utils/calculations.js:59-66 | for a priceable product, a quantity of 2^32 - 1 is quoted and 2^32 throws, as `Array(quantity)` accepts only 32-bit unsigned lengths; a quoted product's quantity lies in 0 .. 2^32 - 1 |
| Sizer.CountsWithinArea | src/utils/calculations.js:17-45 | for a physical top, slab and kerf, the tops the as-written count puts on a slab cover no more than its area (its two bands overlap by at most the kerf), and so do those of the corrected count |
| Sizer.SizeQuoteEfficiency | src/utils/calculations.js:80-83 | for a physical top, slab and kerf, the efficiency `calculateProductResults` reports lies between 0 and 100 percent, and so does that of the corrected quote |
| Sizer.CorrectedSizeQuote | src/utils/calculations.js:63-107 | the same pricing at the corrected count: finite exactly when the slab dimensions parse, neither side plus the kerf is 0 and the corrected count is positive |
| Sizer.SizeQuoteBuysTooFew | src/utils/calculations.js:73-80 | two 30 x 30 tops on a 30 x 60 slab with a kerf of 1: the source's quote buys 1 slab, the corrected quote 2 |
| DrawingMerge.IndexOfKey | src/utils/aiDrawingAnalysis.js:53 | None exactly when no group has the key; otherwise a group with it |
| DrawingMerge.Add | src/utils/aiDrawingAnalysis.js:51-67 | one step keeps every group's quantity equal to its number of names and the keys distinct, and adds at most one group |
| DrawingMerge.AddDescribes | src/utils/aiDrawingAnalysis.js:51-67 | one more piece keeps the groups matching the independent description |
| DrawingMerge.GatherDescribes | src/utils/aiDrawingAnalysis.js:49-67 | one group per key (width, depth, edge as written); each is seeded with the defaults of the first piece of its key, holds all names of its key in order and counts them; groups are in first-seen order |
| DrawingMerge.GatherTotal | src/utils/aiDrawingAnalysis.js:49-67 | the group quantities add up to the number of pieces |
| DrawingMerge.NewProducts | src/utils/aiDrawingAnalysis.js:76-102 | one product line per group, in group order, with counters from 1 |
| DrawingMerge.Extract | src/utils/aiDrawingAnalysis.js:44-106 | throws exactly when a piece lacks a width or depth; otherwise the length is the old length - 1 + the number of groups, and the products before and after the replaced one are unchanged |
| DrawingMerge.UnsizedPiece | src/utils/aiDrawingAnalysis.js:89-90 | some group lacks a dimension exactly when some piece does |
| DrawingMerge.ExtractAt | src/utils/aiDrawingAnalysis.js:76-102 | the i-th new product is the product line of the i-th group |
| DrawingMerge.ExtractedProduct | src/utils/aiDrawingAnalysis.js:87-100 | the i-th new product comes from the first piece of its key: the replaced product's stone, the piece's dimensions, the count of its key, edge "Eased" and type "countertop" by default, `high` priority exactly for an island, no result, marked as read off a drawing |
| DrawingMerge.ExtractedName | src/utils/aiDrawingAnalysis.js:79-97 | several pieces: the first name (or the type) with "(Nx)", and a note saying N were combined; one piece: its name, or the type and its counter, with the note unchanged |
| DrawingMerge.ExtractCovers | src/utils/aiDrawingAnalysis.js:49-102 | every piece is counted by a new product with its width and depth |
| DrawingMerge.ExtractKeepsCount | src/utils/aiDrawingAnalysis.js:49-102 | the new lines' quantities add up to the number of pieces |
| DrawingMerge.UnsetEdgeNotCombined | src/utils/aiDrawingAnalysis.js:52-62 | a piece with no edge detail and an otherwise identical "Eased" piece give two lines, both reading "Eased", each of quantity 1 |
| VariantChoice.IndexOf | src/components/ContactForm.jsx:72-75 | -1 exactly when the value is not listed; otherwise its first position |
| VariantChoice.FindBestCombination | src/components/ContactForm.jsx:60-86 | null exactly when no row has the stone type; otherwise one of that type's catalog rows |
| VariantChoice.VariantsAreRows | src/components/ContactForm.jsx:61 | the filtered variants are exactly the catalog rows of the type |
| VariantChoice.BeatsIsPrecedes | src/components/ContactForm.jsx:77-82 | a row replaces the best so far exactly when it is strictly better by thickness, then finish, with unlisted values after every listed one |
| VariantChoice.ScanFindsFirstLeast | src/components/ContactForm.jsx:69-83 | the loop ends on the first row of least standing |
| VariantChoice.BestIsFirstLeast | src/components/ContactForm.jsx:60-86 | the chosen row is the first, in catalog order, whose thickness and then finish are most preferred |
| VariantChoice.ListedThicknessWins | src/components/ContactForm.jsx:77-78 | a listed thickness beats an unlisted one, whatever the finishes |
| VariantChoice.ListedFinishWins | src/components/ContactForm.jsx:79-81 | at the same thickness, a listed finish beats an unlisted one |

## Findings

| source | as written | input that shows it | evidently intended | confidence | as-written member | corrected member |
|---|---|---|---|---|---|---|
| src/utils/calculations.js:17-45 | the height left under the first band keeps the kerf that must separate it from the second band, so the second band is counted one kerf too tall | a 30 x 30 top on a 30 x 60 slab with a kerf of 1: the code counts 2 tops, but two rows and the kerf between them need 61 | leave one kerf between the two bands, so that every count is a layout that fits | high, not executed | Sizer.MaxPiecesOvercounts | Sizer.TopsPerSlab |
| src/utils/calculations.js:73-80 | the slabs to buy are the quantity over the overcounted tops per slab | two 30 x 30 tops on a 30 x 60 slab with a kerf of 1: the quote buys 1 slab, where the two tops need 2 | divide by the count of a layout that fits | high, not executed | Sizer.SizeQuoteBuysTooFew | Sizer.CorrectedSizeQuote |

`Sizer.MaxPiecesPerSlab` is the count as written. `Sizer.TopsPerSlab` is the
corrected count. `Sizer.TopsPerSlabRealisable` and `Sizer.TopsPerSlabOptimal`
prove it is exactly the best two-band layout. `Sizer.SizeQuote` and
`Sizer.CalculateProductResults` price with the count as written, as the
source does. `Sizer.CorrectedSizeQuote` prices with the corrected count.

## Left out

- Text parsing is not modelled. `parseFloat`, `parseInt` and JavaScript truthiness arrive as already-parsed `Option` values; unparsable input is `None`.
- IEEE-754 rounding, NaN propagation and `toFixed` are not modelled. Numbers are exact reals. Where the source divides by zero or by NaN, the model gives `Quote.NonFinite`.
- Sizer.MaxPiecesPerSlab requires a piece side plus kerf other than 0. Such a side passes the `!w` test of `calculateProductResults` (a width of -0.125 with a kerf of 0.125). The bound of the sweep loop at src/utils/calculations.js:17 or :32 is then infinite for a slab whose height plus kerf is positive, so the loop never ends and the source never returns.
- Sizer.MaxPiecesNonNegative: holds only for non-negative slab sizes and kerf and positive piece sides. With negative sizes the source can return a negative count.
- Sizer.SizeQuote: the slabs needed are modelled only for at least one top per slab. A slab that holds no top is reported as `NonFinite`, because the source divides by zero there. A piece side plus kerf of 0 is also reported as `NonFinite`. On a slab of positive height the source's sweep loop never ends for that input, so `NonFinite` stands in for a call that never returns. The same holds for Sizer.CorrectedSizeQuote.
- `try`/`catch` and `console` output are left out. Two exceptions are modelled, as `Result.Thrown` with the message a V8 engine gives: the `RangeError` of `Array(quantity)` in `calculateProductResults` ("Invalid array length") and the `TypeError` of `toString` on a missing dimension in the drawing merge ("Cannot read properties of undefined (reading 'toString')"). A dimension that is JSON `null` throws in the source too, with "of null" in the message; the model does not tell `null` from a missing dimension and gives the "undefined" text. No other exception is modelled.
- Keys that collide with `Object.prototype` members are not modelled (`__proto__` as a grouping key, or a priority label such as `toString`). The optimizer's grouping key is the rendered `stone|thickness|finish` string, so the collisions the rendering makes (an unset field against the text "undefined", a '|' inside a stone name) are modelled as the source makes them. The drawing merge's key is a tuple of width, depth and the rendered edge detail.
- Drawing piece widths and depths are numbers, so equal keys mean equal dimensions. String dimensions that print alike are not modelled.
- A drawing piece's edge detail is either set or missing. A JSON `null` edge detail is not modelled apart from a missing one. The source renders the two as "null" and "undefined", which are different keys; the model renders both as "undefined".
- Catalog rows always carry a thickness and a finish. In the source, a product with no thickness (or finish) still matches a row that lacks that column, because `undefined === undefined`. In the model such a product matches no row.
- The `originalProduct` back-reference of a piece is left out. Nothing in the core reads it.
- The optimizer source is truncated at line 360, in the middle of the per-product efficiency computation. The model stops at line 357, and a share's record carries no per-product efficiency or installation cost.
- Allocation.SharesAddUp: needs every placed piece to come from a product with the group's exact stone. The source skips a mismatched product, and its share of the material cost is then paid by no one.
- Packer.ReportAverage: states the average as a formula of the layout's area given the slabs' areas. `Packer.PackingArea` supplies that fact for the packer's own slabs.
- DrawingMerge.Extract requires `currentIndex` to name an existing product. With another index the source reads an undefined product's stone and throws. A missing or non-array `pieces` list, or a piece that is not an object, is not modelled either. Its claim that the merge throws exactly when a piece lacks a width or depth holds only with the `summary` left out. The source builds its alert from `summary.confidence` and `summary.drawingType` with `charAt` (src/utils/aiDrawingAnalysis.js:110-116), so a truthy non-string there, such as a confidence of 0.9, makes the whole merge throw a `TypeError`.
- The `Date.now()` product ids, the `summary` fields and the alert message of the drawing merge are left out. They are a clock and display text, apart from the throw named on the DrawingMerge.Extract line.
- `analyzeDrawingWithAI`, the API handlers, the PDF generator and the React components are not part of this model. They do I/O or rendering.
- Negative piece dimensions are not excluded anywhere. The in-bounds and efficiency properties state the non-negativity they need as a precondition.

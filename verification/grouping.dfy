/**
  How `optimizeMultiProductLayout` turns the product list into stone groups
  (src/utils/multiProductOptimization.js:6-37). A product takes part only if
  it names a stone and has a width and a depth; it then contributes one piece
  per unit of quantity, where a quantity that is missing or 0 counts as 1 and
  a negative one yields no pieces. Products are grouped by the text
  `stone|thickness|finish`, groups in the order their first product appears,
  and a group is labelled with the stone, thickness and finish of that first
  product.
 */
module Grouping {
  import opened Common
  import opened Domain
  import opened Placement

  /** A product contributes pieces only when it names a stone and has a width and a depth. */
  predicate Eligible(p: Product) {
    Truthy(p.stone) && p.width.Some? && p.depth.Some?
  }

  /** Pieces a product expands into: `parseInt(quantity) || 1` rounds of the expansion loop. */
  function PieceCount(p: Product): (n: nat)
    ensures p.quantity.None? || p.quantity == Some(0) ==> n == 1
    ensures p.quantity.Some? && p.quantity.value < 0 ==> n == 0
    ensures p.quantity.Some? && p.quantity.value > 0 ==> n == p.quantity.value
  {
    var q := IntOr(p.quantity, 1);
    if q < 0 then 0 else q
  }

  /** The grouping key, rendered as the template literal renders it. */
  function StoneKey(p: Product): string {
    Join([Render(p.stone), Render(p.thickness), Render(p.finish)], "|")
  }

  /** The pieces of product `index`, numbered 0, 1, ... within the product. */
  function Expand(index: nat, p: Product): (ps: seq<Piece>)
    requires Eligible(p)
    ensures |ps| == PieceCount(p)
    ensures forall i :: 0 <= i < |ps| ==>
              && ps[i].productIndex == index && ps[i].pieceIndex == i
              && ps[i].width == p.width.value && ps[i].depth == p.depth.value
              && ps[i].priority == OrElse(p.priority, "normal")
  {
    seq(PieceCount(p), i requires 0 <= i < PieceCount(p) =>
      Piece(index, i, p.width.value, p.depth.value,
            OrElse(p.customName, "Type " + NatToString(index + 1)),
            OrElse(p.edgeDetail, "Eased"),
            OrElse(p.priority, "normal")))
  }

  /** A stone group: its key, the labels of its first product, and its pieces in product order. */
  datatype Group = Group(key: string, stoneType: string, thickness: Option<string>, finish: Option<string>, pieces: seq<Piece>)

  /** Adds product `index` to the groups: appended to the group with its key, or to a new group at the end. */
  function AddProduct(gs: seq<Group>, index: nat, p: Product): seq<Group> {
    if !Eligible(p) then gs
    else
      match First(gs, (g: Group) => g.key == StoneKey(p))
      case Some(i) => gs[i := gs[i].(pieces := gs[i].pieces + Expand(index, p))]
      case None => gs + [Group(StoneKey(p), p.stone.value, p.thickness, p.finish, Expand(index, p))]
  }

  /** The grouping loop over the whole product list. */
  function GroupProducts(products: seq<Product>): seq<Group>
    decreases |products|
  {
    if |products| == 0 then []
    else
      var n := |products| - 1;
      AddProduct(GroupProducts(products[..n]), n, products[n])
  }

  /** Reference: every piece expanded from the products carrying `key`, in product order. */
  function PiecesFor(products: seq<Product>, key: string): seq<Piece>
    decreases |products|
  {
    if |products| == 0 then []
    else
      var n := |products| - 1;
      PiecesFor(products[..n], key)
        + (if Eligible(products[n]) && StoneKey(products[n]) == key then Expand(n, products[n]) else [])
  }

  /** Some eligible product carries `key`. */
  ghost predicate KeyUsed(products: seq<Product>, key: string) {
    exists i :: 0 <= i < |products| && Eligible(products[i]) && StoneKey(products[i]) == key
  }

  /** The keys the eligible products carry. */
  function UsedKeys(products: seq<Product>): set<string>
    decreases |products|
  {
    if |products| == 0 then {}
    else
      var n := |products| - 1;
      UsedKeys(products[..n]) + (if Eligible(products[n]) then {StoneKey(products[n])} else {})
  }

  /** The keys of the groups. */
  function GroupKeys(gs: seq<Group>): set<string>
    decreases |gs|
  {
    if |gs| == 0 then {} else GroupKeys(gs[..|gs| - 1]) + {gs[|gs| - 1].key}
  }

  /** The group is labelled by the first eligible product with its key. */
  ghost predicate LabelledByFirst(products: seq<Product>, g: Group) {
    exists i :: && 0 <= i < |products| && Eligible(products[i]) && StoneKey(products[i]) == g.key
                && g.stoneType == products[i].stone.value
                && g.thickness == products[i].thickness && g.finish == products[i].finish
                && forall j :: 0 <= j < i ==> !(Eligible(products[j]) && StoneKey(products[j]) == g.key)
  }

  /** No two groups share a key. */
  predicate DistinctKeys(gs: seq<Group>) {
    forall i, j :: 0 <= i < j < |gs| ==> gs[i].key != gs[j].key
  }

  /** The group holds exactly the pieces of the products with its key and is labelled by the first of them. */
  ghost predicate Holds(products: seq<Product>, g: Group) {
    g.pieces == PiecesFor(products, g.key) && LabelledByFirst(products, g)
  }

  ghost predicate AllHold(products: seq<Product>, gs: seq<Group>) {
    forall i :: 0 <= i < |gs| ==> Holds(products, gs[i])
  }

  /** The grouping's contract, as one invariant of the loop. */
  ghost predicate GroupedCorrectly(products: seq<Product>, gs: seq<Group>) {
    DistinctKeys(gs) && AllHold(products, gs) && GroupKeys(gs) == UsedKeys(products)
  }

  lemma {:induction false} UsedKeysMeaning(products: seq<Product>, key: string)
    ensures key in UsedKeys(products) <==> KeyUsed(products, key)
    decreases |products|
  {
    if |products| > 0 {
      var n := |products| - 1;
      var prev := products[..n];
      UsedKeysMeaning(prev, key);
      if KeyUsed(products, key) && !(Eligible(products[n]) && StoneKey(products[n]) == key) {
        var i :| 0 <= i < |products| && Eligible(products[i]) && StoneKey(products[i]) == key;
        assert i < n && prev[i] == products[i];
      }
      if KeyUsed(prev, key) {
        var i :| 0 <= i < n && Eligible(prev[i]) && StoneKey(prev[i]) == key;
        assert products[i] == prev[i];
      }
    }
  }

  lemma {:induction false} GroupKeysMeaning(gs: seq<Group>, key: string)
    ensures key in GroupKeys(gs) <==> exists i :: 0 <= i < |gs| && gs[i].key == key
    decreases |gs|
  {
    if |gs| > 0 {
      var n := |gs| - 1;
      GroupKeysMeaning(gs[..n], key);
      if exists i :: 0 <= i < |gs| && gs[i].key == key {
        var i :| 0 <= i < |gs| && gs[i].key == key;
        if i < n {
          assert gs[..n][i] == gs[i];
        }
      }
      if exists i :: 0 <= i < n && gs[..n][i].key == key {
        var i :| 0 <= i < n && gs[..n][i].key == key;
        assert gs[i] == gs[..n][i];
      }
    }
  }

  lemma {:induction false} GroupKeysUpdate(gs: seq<Group>, m: nat, extra: seq<Piece>)
    requires m < |gs|
    ensures GroupKeys(gs[m := gs[m].(pieces := gs[m].pieces + extra)]) == GroupKeys(gs)
    decreases |gs|
  {
    var out := gs[m := gs[m].(pieces := gs[m].pieces + extra)];
    var n := |gs| - 1;
    if m < n {
      assert out[..n] == gs[..n][m := gs[m].(pieces := gs[m].pieces + extra)];
      GroupKeysUpdate(gs[..n], m, extra);
    } else {
      assert out[..n] == gs[..n];
    }
  }

  lemma {:induction false} PiecesForUnused(products: seq<Product>, key: string)
    requires key !in UsedKeys(products)
    ensures PiecesFor(products, key) == []
    decreases |products|
  {
    if |products| > 0 {
      PiecesForUnused(products[..|products| - 1], key);
    }
  }

  lemma LabelledStep(products: seq<Product>, g: Group)
    requires |products| > 0
    requires LabelledByFirst(products[..|products| - 1], g)
    ensures LabelledByFirst(products, g)
  {
    var prev := products[..|products| - 1];
    var i :| && 0 <= i < |prev| && Eligible(prev[i]) && StoneKey(prev[i]) == g.key
             && g.stoneType == prev[i].stone.value
             && g.thickness == prev[i].thickness && g.finish == prev[i].finish
             && forall j :: 0 <= j < i ==> !(Eligible(prev[j]) && StoneKey(prev[j]) == g.key);
    assert products[i] == prev[i];
    forall j | 0 <= j < i ensures !(Eligible(products[j]) && StoneKey(products[j]) == g.key) {
      assert products[j] == prev[j];
    }
  }

  /** A group the new product does not join keeps its pieces and its label. */
  lemma UntouchedGroupStep(products: seq<Product>, g: Group)
    requires |products| > 0
    requires Holds(products[..|products| - 1], g)
    requires !(Eligible(products[|products| - 1]) && StoneKey(products[|products| - 1]) == g.key)
    ensures Holds(products, g)
  {
    LabelledStep(products, g);
  }

  /** A product that joins no group leaves every group holding. */
  lemma UntouchedGroupsStep(products: seq<Product>, gs: seq<Group>)
    requires |products| > 0
    requires AllHold(products[..|products| - 1], gs)
    requires forall i :: 0 <= i < |gs| ==> !(Eligible(products[|products| - 1]) && StoneKey(products[|products| - 1]) == gs[i].key)
    ensures AllHold(products, gs)
  {
    forall i | 0 <= i < |gs| ensures Holds(products, gs[i]) {
      UntouchedGroupStep(products, gs[i]);
    }
  }

  /** The group a product opens holds its pieces and carries its labels. */
  lemma OpenedGroupCorrect(products: seq<Product>)
    requires |products| > 0
    requires Eligible(products[|products| - 1])
    requires StoneKey(products[|products| - 1]) !in UsedKeys(products[..|products| - 1])
    ensures var n := |products| - 1;
            var p := products[n];
            Holds(products, Group(StoneKey(p), p.stone.value, p.thickness, p.finish, Expand(n, p)))
  {
    var n := |products| - 1;
    var prev := products[..n];
    var p := products[n];
    var key := StoneKey(p);
    PiecesForUnused(prev, key);
    assert PiecesFor(products, key) == Expand(n, p);
    UsedKeysMeaning(prev, key);
    forall j | 0 <= j < n ensures !(Eligible(products[j]) && StoneKey(products[j]) == key) {
      assert products[j] == prev[j];
    }
  }

  /** The group a product joins gains its pieces at the end and keeps its label. */
  lemma JoinedGroupStep(products: seq<Product>, g: Group)
    requires |products| > 0
    requires Holds(products[..|products| - 1], g)
    requires Eligible(products[|products| - 1]) && StoneKey(products[|products| - 1]) == g.key
    ensures Holds(products, g.(pieces := g.pieces + Expand(|products| - 1, products[|products| - 1])))
  {
    LabelledStep(products, g);
  }

  /** Appending pieces to one group changes no key. */
  lemma JoinKeepsKeys(gs: seq<Group>, m: nat, extra: seq<Piece>)
    requires m < |gs| && DistinctKeys(gs)
    ensures var out := gs[m := gs[m].(pieces := gs[m].pieces + extra)];
            DistinctKeys(out) && GroupKeys(out) == GroupKeys(gs)
  {
    var out := gs[m := gs[m].(pieces := gs[m].pieces + extra)];
    assert forall i :: 0 <= i < |out| ==> out[i].key == gs[i].key;
    GroupKeysUpdate(gs, m, extra);
  }

  /** A product whose key is already used adds no key. */
  lemma UsedKeyAgain(products: seq<Product>)
    requires |products| > 0
    requires Eligible(products[|products| - 1])
    requires StoneKey(products[|products| - 1]) in UsedKeys(products[..|products| - 1])
    ensures UsedKeys(products) == UsedKeys(products[..|products| - 1])
  {
  }

  /** Joining the product to the group with its key keeps every group holding. */
  lemma JoinedGroupsStep(products: seq<Product>, gs: seq<Group>, m: nat)
    requires |products| > 0
    requires AllHold(products[..|products| - 1], gs) && DistinctKeys(gs)
    requires Eligible(products[|products| - 1]) && m < |gs| && gs[m].key == StoneKey(products[|products| - 1])
    ensures AllHold(products, gs[m := gs[m].(pieces := gs[m].pieces + Expand(|products| - 1, products[|products| - 1]))])
  {
    var n := |products| - 1;
    var extra := Expand(n, products[n]);
    var out := gs[m := gs[m].(pieces := gs[m].pieces + extra)];
    forall i | 0 <= i < |out| ensures Holds(products, out[i]) {
      if i == m {
        JoinedGroupStep(products, gs[m]);
      } else {
        UntouchedGroupStep(products, gs[i]);
      }
    }
  }

  /** Adding a product to a group that already has its key. */
  lemma AddToExisting(products: seq<Product>, gs: seq<Group>, m: nat)
    requires |products| > 0
    requires GroupedCorrectly(products[..|products| - 1], gs)
    requires Eligible(products[|products| - 1]) && m < |gs| && gs[m].key == StoneKey(products[|products| - 1])
    ensures GroupedCorrectly(products, gs[m := gs[m].(pieces := gs[m].pieces + Expand(|products| - 1, products[|products| - 1]))])
  {
    var n := |products| - 1;
    var p := products[n];
    JoinKeepsKeys(gs, m, Expand(n, p));
    GroupKeysMeaning(gs, StoneKey(p));
    UsedKeyAgain(products);
    JoinedGroupsStep(products, gs, m);
  }

  /** A new group with a fresh key keeps the keys distinct and adds its key. */
  lemma OpenKeepsKeys(gs: seq<Group>, g: Group)
    requires DistinctKeys(gs)
    requires forall i :: 0 <= i < |gs| ==> gs[i].key != g.key
    ensures DistinctKeys(gs + [g]) && GroupKeys(gs + [g]) == GroupKeys(gs) + {g.key}
  {
    var out := gs + [g];
    forall i, j | 0 <= i < j < |out|
      ensures out[i].key != out[j].key
    {
      assert out[i] == gs[i];
      if j < |gs| {
        assert out[j] == gs[j];
      }
    }
    assert out[..|gs|] == gs;
  }

  /** Adding a product whose key no group has yet. */
  lemma AddAsNew(products: seq<Product>, gs: seq<Group>)
    requires |products| > 0
    requires GroupedCorrectly(products[..|products| - 1], gs)
    requires Eligible(products[|products| - 1])
    requires forall i :: 0 <= i < |gs| ==> gs[i].key != StoneKey(products[|products| - 1])
    ensures var n := |products| - 1;
            var p := products[n];
            GroupedCorrectly(products, gs + [Group(StoneKey(p), p.stone.value, p.thickness, p.finish, Expand(n, p))])
  {
    var n := |products| - 1;
    var p := products[n];
    var g := Group(StoneKey(p), p.stone.value, p.thickness, p.finish, Expand(n, p));
    GroupKeysMeaning(gs, g.key);
    OpenKeepsKeys(gs, g);
    OpenedGroupCorrect(products);
    UntouchedGroupsStep(products, gs);
    var out := gs + [g];
    forall i | 0 <= i < |out| ensures Holds(products, out[i]) {
      if i < |gs| { assert out[i] == gs[i]; }
    }
  }

  /**
    Grouping is exact: keys are distinct, each group holds exactly the pieces
    of the products carrying its key, in product order, is labelled by the
    first of them, and the groups' keys are exactly the keys eligible products
    carry.
   */
  lemma {:induction false} GroupProductsCorrect(products: seq<Product>)
    ensures GroupedCorrectly(products, GroupProducts(products))
    decreases |products|
  {
    if |products| > 0 {
      var n := |products| - 1;
      var prev := products[..n];
      var p := products[n];
      GroupProductsCorrect(prev);
      var gs := GroupProducts(prev);
      if !Eligible(p) {
        UntouchedGroupsStep(products, gs);
      } else {
        match First(gs, (g: Group) => g.key == StoneKey(p))
        case Some(m) => AddToExisting(products, gs, m);
        case None => AddAsNew(products, gs);
      }
    }
  }

  /** Every key an eligible product carries has exactly one group, and every group's key is carried by some product. */
  lemma GroupsCoverKeys(products: seq<Product>, key: string)
    ensures KeyUsed(products, key) <==> exists i :: 0 <= i < |GroupProducts(products)| && GroupProducts(products)[i].key == key
  {
    var gs := GroupProducts(products);
    GroupProductsCorrect(products);
    assert GroupKeys(gs) == UsedKeys(products);
    UsedKeysMeaning(products, key);
    GroupKeysMeaning(gs, key);
  }

  /** Total number of pieces over all groups. */
  function TotalPieces(gs: seq<Group>): nat
    decreases |gs|
  {
    if |gs| == 0 then 0 else TotalPieces(gs[..|gs| - 1]) + |gs[|gs| - 1].pieces|
  }

  /** Total pieces the eligible products ask for. */
  function Demand(products: seq<Product>): nat
    decreases |products|
  {
    if |products| == 0 then 0
    else
      var n := |products| - 1;
      Demand(products[..n]) + (if Eligible(products[n]) then PieceCount(products[n]) else 0)
  }

  lemma {:induction false} TotalPiecesAppend(gs: seq<Group>, m: nat, extra: seq<Piece>)
    requires m < |gs|
    ensures TotalPieces(gs[m := gs[m].(pieces := gs[m].pieces + extra)]) == TotalPieces(gs) + |extra|
    decreases |gs|
  {
    var out := gs[m := gs[m].(pieces := gs[m].pieces + extra)];
    var n := |gs| - 1;
    if m < n {
      assert out[..n] == gs[..n][m := gs[m].(pieces := gs[m].pieces + extra)];
      TotalPiecesAppend(gs[..n], m, extra);
    } else {
      assert out[..n] == gs[..n];
    }
  }

  /** Conservation: the groups hold exactly as many pieces as the eligible products ask for. */
  lemma {:induction false} GroupingConservesPieces(products: seq<Product>)
    ensures TotalPieces(GroupProducts(products)) == Demand(products)
    decreases |products|
  {
    if |products| > 0 {
      var n := |products| - 1;
      var p := products[n];
      GroupingConservesPieces(products[..n]);
      var gs := GroupProducts(products[..n]);
      if Eligible(p) {
        match First(gs, (g: Group) => g.key == StoneKey(p))
        case Some(m) =>
          TotalPiecesAppend(gs, m, Expand(n, p));
        case None =>
          var out := gs + [Group(StoneKey(p), p.stone.value, p.thickness, p.finish, Expand(n, p))];
          assert out[..|gs|] == gs;
      }
    }
  }
}

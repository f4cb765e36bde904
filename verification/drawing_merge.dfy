/**
  Turning the pieces an AI reading of a drawing found into product lines
  (`handleClaudeMultiplePiecesExtraction`). Pieces with the same width, depth
  and edge detail are gathered into one group, in the order the groups were
  first seen; each group becomes one product, and the new products take the
  place of the product the drawing was attached to.
 */
module DrawingMerge {
  import opened Common
  import opened Domain

  /** One piece read off a drawing. A dimension or text the reading left out is `None`. */
  datatype Piece = Piece(
    width: Option<real>,
    depth: Option<real>,
    name: Option<string>,
    edgeDetail: Option<string>,
    pieceType: Option<string>,
    notes: Option<string>)

  /**
    What makes two pieces identical: width, depth, and the edge detail as the
    template literal writes it into the key, so that an unset edge detail
    reads "undefined" and is a different key from "Eased".
   */
  datatype Key = Key(width: Option<real>, depth: Option<real>, edge: string)

  function KeyOf(p: Piece): Key {
    Key(p.width, p.depth, Render(p.edgeDetail))
  }

  /**
    Identical pieces gathered: the defaults filled in from the first piece of
    the group, how many pieces there are, and every piece's name in order.
   */
  datatype Group = Group(
    key: Key,
    quantity: nat,
    names: seq<Option<string>>,
    edgeDetail: string,
    pieceType: string,
    notes: string)

  /** The group a piece opens when no earlier piece has its key. */
  function Start(p: Piece): Group {
    Group(KeyOf(p), 1, [p.name], OrElse(p.edgeDetail, "Eased"), OrElse(p.pieceType, "countertop"), OrElse(p.notes, ""))
  }

  /** A further piece of an existing group: one more, and its name after the others. */
  function Join(g: Group, p: Piece): Group {
    g.(quantity := g.quantity + 1, names := g.names + [p.name])
  }

  /** A group counts each of its names once, and holds at least one piece. */
  predicate Counted(g: Group) {
    g.quantity == |g.names| && g.quantity >= 1
  }

  /** Every group is counted and no two groups share a key. */
  predicate WellFormed(gs: seq<Group>) {
    && (forall i :: 0 <= i < |gs| ==> Counted(gs[i]))
    && (forall i, j :: 0 <= i < j < |gs| ==> gs[i].key != gs[j].key)
  }

  /** Where the group with key `k` is, if there is one (`groupedPieces[key]`). */
  function IndexOfKey(gs: seq<Group>, k: Key): (r: Option<nat>)
    ensures r.None? <==> forall i :: 0 <= i < |gs| ==> gs[i].key != k
    ensures r.Some? ==> r.value < |gs| && gs[r.value].key == k
  {
    First(gs, (g: Group) => g.key == k)
  }

  /** One step of the `forEach`: the piece joins the group of its key, or opens a new group at the end. */
  function Add(gs: seq<Group>, p: Piece): (r: seq<Group>)
    requires WellFormed(gs)
    ensures WellFormed(r)
    ensures |r| == |gs| || |r| == |gs| + 1
  {
    match IndexOfKey(gs, KeyOf(p))
    case None => gs + [Start(p)]
    case Some(i) => gs[i := Join(gs[i], p)]
  }

  /** The groups of all pieces, in the order their keys were first seen. */
  function Gather(pieces: seq<Piece>): (gs: seq<Group>)
    ensures WellFormed(gs)
    ensures |gs| <= |pieces|
    decreases |pieces|
  {
    if |pieces| == 0 then [] else Add(Gather(pieces[..|pieces| - 1]), pieces[|pieces| - 1])
  }

  // ---------------------------------------------------------------------
  // An independent description of the groups
  // ---------------------------------------------------------------------

  /** The pieces with key `k`, in order. */
  function Matching(pieces: seq<Piece>, k: Key): (r: seq<Piece>)
    ensures |r| <= |pieces|
    decreases |pieces|
  {
    if |pieces| == 0 then []
    else Matching(pieces[..|pieces| - 1], k) + (if KeyOf(pieces[|pieces| - 1]) == k then [pieces[|pieces| - 1]] else [])
  }

  /** The pieces' names, in order. */
  function NamesOf(pieces: seq<Piece>): (r: seq<Option<string>>)
    ensures |r| == |pieces|
    decreases |pieces|
  {
    if |pieces| == 0 then [] else NamesOf(pieces[..|pieces| - 1]) + [pieces[|pieces| - 1].name]
  }

  /** `pieces[j]` is the first piece with key `k`. */
  predicate FirstWith(pieces: seq<Piece>, k: Key, j: int) {
    0 <= j < |pieces| && KeyOf(pieces[j]) == k && forall i :: 0 <= i < j ==> KeyOf(pieces[i]) != k
  }

  /** Some group has key `k`. */
  predicate HasKey(gs: seq<Group>, k: Key) {
    exists i :: 0 <= i < |gs| && gs[i].key == k
  }

  /** `g`'s edge detail, type and notes are the defaults filled in from `p`. */
  predicate SeededBy(g: Group, p: Piece) {
    g.edgeDetail == OrElse(p.edgeDetail, "Eased") && g.pieceType == OrElse(p.pieceType, "countertop")
    && g.notes == OrElse(p.notes, "")
  }

  lemma MatchingSnoc(pieces: seq<Piece>, p: Piece, k: Key)
    ensures KeyOf(p) == k ==> Matching(pieces + [p], k) == Matching(pieces, k) + [p]
    ensures KeyOf(p) != k ==> Matching(pieces + [p], k) == Matching(pieces, k)
  {
    assert (pieces + [p])[..|pieces|] == pieces;
  }

  lemma NamesSnoc(pieces: seq<Piece>, p: Piece)
    ensures NamesOf(pieces + [p]) == NamesOf(pieces) + [p.name]
  {
    assert (pieces + [p])[..|pieces|] == pieces;
  }

  lemma {:induction false} NoneMatching(pieces: seq<Piece>, k: Key)
    requires forall j :: 0 <= j < |pieces| ==> KeyOf(pieces[j]) != k
    ensures Matching(pieces, k) == []
    decreases |pieces|
  {
    if |pieces| > 0 {
      NoneMatching(pieces[..|pieces| - 1], k);
    }
  }

  lemma GatherSnoc(pieces: seq<Piece>)
    requires |pieces| > 0
    ensures pieces == pieces[..|pieces| - 1] + [pieces[|pieces| - 1]]
    ensures Gather(pieces) == Add(Gather(pieces[..|pieces| - 1]), pieces[|pieces| - 1])
  {
    LastSplit(pieces);
  }

  /** A non-empty sequence is its front followed by its last element. */
  lemma LastSplit<T>(s: seq<T>)
    requires |s| > 0
    ensures s == s[..|s| - 1] + [s[|s| - 1]]
  {
    assert s[..|s| - 1] + [s[|s| - 1]] == s;
  }

  /** Every piece's key is the key of some group. */
  predicate Covers(gs: seq<Group>, pieces: seq<Piece>) {
    forall j :: 0 <= j < |pieces| ==> HasKey(gs, KeyOf(pieces[j]))
  }

  /** `g` opens at the first piece of its key and takes its defaults from that piece. */
  ghost predicate Opener(g: Group, pieces: seq<Piece>) {
    exists j :: FirstWith(pieces, g.key, j) && SeededBy(g, pieces[j])
  }

  /** Each group opens at the first piece of its key and takes its defaults from that piece. */
  ghost predicate Seeded(gs: seq<Group>, pieces: seq<Piece>) {
    forall i :: 0 <= i < |gs| ==> Opener(gs[i], pieces)
  }

  /** Each group holds the names of the pieces with its key, in order, and counts them. */
  predicate Named(gs: seq<Group>, pieces: seq<Piece>) {
    forall i :: 0 <= i < |gs| ==>
      gs[i].names == NamesOf(Matching(pieces, gs[i].key)) && gs[i].quantity == |Matching(pieces, gs[i].key)|
  }

  /** Groups are in the order of the first pieces of their keys. */
  ghost predicate Ordered(gs: seq<Group>, pieces: seq<Piece>) {
    forall i1, i2, j1, j2 ::
      (0 <= i1 < i2 < |gs| && FirstWith(pieces, gs[i1].key, j1) && FirstWith(pieces, gs[i2].key, j2)) ==> j1 < j2
  }

  /**
    `gs` are the groups of `pieces`: one per key that occurs, each seeded by
    the first piece of its key and holding all pieces of its key, in the
    order the keys first occur.
   */
  ghost predicate Describes(gs: seq<Group>, pieces: seq<Piece>) {
    WellFormed(gs) && Covers(gs, pieces) && Seeded(gs, pieces) && Named(gs, pieces) && Ordered(gs, pieces)
  }

  /** No piece has key `k`. */
  predicate Fresh(pieces: seq<Piece>, k: Key) {
    forall j :: 0 <= j < |pieces| ==> KeyOf(pieces[j]) != k
  }

  lemma FreshKey(gs: seq<Group>, pieces: seq<Piece>, k: Key)
    requires Covers(gs, pieces) && forall i :: 0 <= i < |gs| ==> gs[i].key != k
    ensures Fresh(pieces, k)
  {
    forall j | 0 <= j < |pieces|
      ensures KeyOf(pieces[j]) != k
    {
      assert HasKey(gs, KeyOf(pieces[j]));
    }
  }

  lemma FirstExtends(pieces: seq<Piece>, p: Piece, k: Key, j: int)
    requires FirstWith(pieces, k, j)
    ensures FirstWith(pieces + [p], k, j)
  {
    assert (pieces + [p])[j] == pieces[j];
    forall i | 0 <= i < j
      ensures KeyOf((pieces + [p])[i]) != k
    {
      assert (pieces + [p])[i] == pieces[i];
    }
  }

  /** A key that occurs among the earlier pieces first occurs at the same place after one more piece. */
  lemma FirstStays(pieces: seq<Piece>, p: Piece, k: Key, f: int, j: int)
    requires FirstWith(pieces, k, f) && FirstWith(pieces + [p], k, j)
    ensures j == f
  {
    FirstExtends(pieces, p, k, f);
  }

  lemma FirstFresh(pieces: seq<Piece>, p: Piece, j: int)
    requires Fresh(pieces, KeyOf(p)) && FirstWith(pieces + [p], KeyOf(p), j)
    ensures j == |pieces|
  {
  }

  lemma CoversNew(gs: seq<Group>, pieces: seq<Piece>, p: Piece)
    requires Covers(gs, pieces)
    ensures Covers(gs + [Start(p)], pieces + [p])
  {
    var r := gs + [Start(p)];
    forall j | 0 <= j < |pieces| + 1
      ensures HasKey(r, KeyOf((pieces + [p])[j]))
    {
      if j < |pieces| {
        assert (pieces + [p])[j] == pieces[j];
        var i :| 0 <= i < |gs| && gs[i].key == KeyOf(pieces[j]);
        assert r[i] == gs[i];
      } else {
        assert r[|gs|].key == KeyOf(p);
      }
    }
  }

  lemma CoversJoin(gs: seq<Group>, pieces: seq<Piece>, p: Piece, i0: nat)
    requires Covers(gs, pieces) && i0 < |gs| && gs[i0].key == KeyOf(p)
    ensures Covers(gs[i0 := Join(gs[i0], p)], pieces + [p])
  {
    var r := gs[i0 := Join(gs[i0], p)];
    forall j | 0 <= j < |pieces| + 1
      ensures HasKey(r, KeyOf((pieces + [p])[j]))
    {
      if j < |pieces| {
        assert (pieces + [p])[j] == pieces[j];
        var i :| 0 <= i < |gs| && gs[i].key == KeyOf(pieces[j]);
        assert r[i].key == gs[i].key;
      } else {
        assert r[i0].key == KeyOf(p);
      }
    }
  }

  lemma OpenerExtends(g: Group, pieces: seq<Piece>, p: Piece)
    requires Opener(g, pieces)
    ensures Opener(g, pieces + [p])
  {
    var j :| FirstWith(pieces, g.key, j) && SeededBy(g, pieces[j]);
    FirstExtends(pieces, p, g.key, j);
    assert (pieces + [p])[j] == pieces[j];
  }

  lemma SeededNew(gs: seq<Group>, pieces: seq<Piece>, p: Piece)
    requires Seeded(gs, pieces) && Fresh(pieces, KeyOf(p))
    ensures Seeded(gs + [Start(p)], pieces + [p])
  {
    var r := gs + [Start(p)];
    forall i | 0 <= i < |r|
      ensures Opener(r[i], pieces + [p])
    {
      if i < |gs| {
        assert r[i] == gs[i];
        OpenerExtends(gs[i], pieces, p);
      } else {
        assert (pieces + [p])[|pieces|] == p;
        assert FirstWith(pieces + [p], r[i].key, |pieces|);
      }
    }
  }

  lemma SeededJoin(gs: seq<Group>, pieces: seq<Piece>, p: Piece, i0: nat)
    requires Seeded(gs, pieces) && i0 < |gs|
    ensures Seeded(gs[i0 := Join(gs[i0], p)], pieces + [p])
  {
    var r := gs[i0 := Join(gs[i0], p)];
    forall i | 0 <= i < |r|
      ensures Opener(r[i], pieces + [p])
    {
      OpenerExtends(gs[i], pieces, p);
      var j :| FirstWith(pieces + [p], gs[i].key, j) && SeededBy(gs[i], (pieces + [p])[j]);
      assert r[i].key == gs[i].key && SeededBy(r[i], (pieces + [p])[j]);
    }
  }

  lemma NamedNew(gs: seq<Group>, pieces: seq<Piece>, p: Piece)
    requires Named(gs, pieces) && Fresh(pieces, KeyOf(p)) && forall i :: 0 <= i < |gs| ==> gs[i].key != KeyOf(p)
    ensures Named(gs + [Start(p)], pieces + [p])
  {
    var r := gs + [Start(p)];
    forall i | 0 <= i < |r|
      ensures r[i].names == NamesOf(Matching(pieces + [p], r[i].key))
              && r[i].quantity == |Matching(pieces + [p], r[i].key)|
    {
      MatchingSnoc(pieces, p, r[i].key);
      if i == |gs| {
        NoneMatching(pieces, KeyOf(p));
        assert Matching(pieces + [p], KeyOf(p)) == [p];
        assert NamesOf([p]) == [p.name] by {
          assert [p][..0] == [];
        }
      } else {
        assert r[i] == gs[i];
      }
    }
  }

  lemma NamedJoin(gs: seq<Group>, pieces: seq<Piece>, p: Piece, i0: nat)
    requires Named(gs, pieces) && WellFormed(gs) && i0 < |gs| && gs[i0].key == KeyOf(p)
    ensures Named(gs[i0 := Join(gs[i0], p)], pieces + [p])
  {
    var r := gs[i0 := Join(gs[i0], p)];
    forall i | 0 <= i < |r|
      ensures r[i].names == NamesOf(Matching(pieces + [p], r[i].key))
              && r[i].quantity == |Matching(pieces + [p], r[i].key)|
    {
      MatchingSnoc(pieces, p, r[i].key);
      if i == i0 {
        NamesSnoc(Matching(pieces, KeyOf(p)), p);
      } else {
        assert r[i] == gs[i] && gs[i].key != KeyOf(p);
      }
    }
  }

  lemma OrderedNew(gs: seq<Group>, pieces: seq<Piece>, p: Piece)
    requires Ordered(gs, pieces) && Seeded(gs, pieces) && Fresh(pieces, KeyOf(p))
    ensures Ordered(gs + [Start(p)], pieces + [p])
  {
    var r := gs + [Start(p)];
    forall i1, i2, j1, j2 |
      0 <= i1 < i2 < |r| && FirstWith(pieces + [p], r[i1].key, j1) && FirstWith(pieces + [p], r[i2].key, j2)
      ensures j1 < j2
    {
      assert r[i1] == gs[i1];
      var f1 :| FirstWith(pieces, gs[i1].key, f1) && SeededBy(gs[i1], pieces[f1]);
      FirstStays(pieces, p, gs[i1].key, f1, j1);
      if i2 < |gs| {
        assert r[i2] == gs[i2];
        var f2 :| FirstWith(pieces, gs[i2].key, f2) && SeededBy(gs[i2], pieces[f2]);
        FirstStays(pieces, p, gs[i2].key, f2, j2);
      } else {
        FirstFresh(pieces, p, j2);
      }
    }
  }

  lemma OrderedJoin(gs: seq<Group>, pieces: seq<Piece>, p: Piece, i0: nat)
    requires Ordered(gs, pieces) && Seeded(gs, pieces) && i0 < |gs|
    ensures Ordered(gs[i0 := Join(gs[i0], p)], pieces + [p])
  {
    var r := gs[i0 := Join(gs[i0], p)];
    forall i1, i2, j1, j2 |
      0 <= i1 < i2 < |r| && FirstWith(pieces + [p], r[i1].key, j1) && FirstWith(pieces + [p], r[i2].key, j2)
      ensures j1 < j2
    {
      assert r[i1].key == gs[i1].key && r[i2].key == gs[i2].key;
      var f1 :| FirstWith(pieces, gs[i1].key, f1) && SeededBy(gs[i1], pieces[f1]);
      FirstStays(pieces, p, gs[i1].key, f1, j1);
      var f2 :| FirstWith(pieces, gs[i2].key, f2) && SeededBy(gs[i2], pieces[f2]);
      FirstStays(pieces, p, gs[i2].key, f2, j2);
    }
  }

  /** One more piece keeps the description true. */
  lemma AddDescribes(gs: seq<Group>, pieces: seq<Piece>, p: Piece)
    requires Describes(gs, pieces)
    ensures Describes(Add(gs, p), pieces + [p])
  {
    match IndexOfKey(gs, KeyOf(p))
    case None =>
      FreshKey(gs, pieces, KeyOf(p));
      CoversNew(gs, pieces, p);
      SeededNew(gs, pieces, p);
      NamedNew(gs, pieces, p);
      OrderedNew(gs, pieces, p);
    case Some(i0) =>
      CoversJoin(gs, pieces, p, i0);
      SeededJoin(gs, pieces, p, i0);
      NamedJoin(gs, pieces, p, i0);
      OrderedJoin(gs, pieces, p, i0);
  }

  /** The groups are exactly those the independent description gives. */
  lemma {:induction false} GatherDescribes(pieces: seq<Piece>)
    ensures Describes(Gather(pieces), pieces)
    decreases |pieces|
  {
    if |pieces| > 0 {
      GatherSnoc(pieces);
      GatherDescribes(pieces[..|pieces| - 1]);
      AddDescribes(Gather(pieces[..|pieces| - 1]), pieces[..|pieces| - 1], pieces[|pieces| - 1]);
    }
  }

  // ---------------------------------------------------------------------
  // No piece is lost
  // ---------------------------------------------------------------------

  /** The pieces the groups hold together. */
  function Total(gs: seq<Group>): nat
    decreases |gs|
  {
    if |gs| == 0 then 0 else Total(gs[..|gs| - 1]) + gs[|gs| - 1].quantity
  }

  lemma TotalSnoc(gs: seq<Group>, g: Group)
    ensures Total(gs + [g]) == Total(gs) + g.quantity
  {
    assert (gs + [g])[..|gs|] == gs;
  }

  lemma {:induction false} TotalUpdate(gs: seq<Group>, i: nat, g: Group)
    requires i < |gs|
    ensures Total(gs[i := g]) == Total(gs) - gs[i].quantity + g.quantity
    decreases |gs|
  {
    var n := |gs| - 1;
    if i < n {
      assert gs[i := g][..n] == gs[..n][i := g];
      TotalUpdate(gs[..n], i, g);
    } else {
      assert gs[i := g][..n] == gs[..n];
    }
  }

  /** The quantities of the groups add up to the number of pieces. */
  lemma {:induction false} GatherTotal(pieces: seq<Piece>)
    ensures Total(Gather(pieces)) == |pieces|
    decreases |pieces|
  {
    if |pieces| > 0 {
      var ps := pieces[..|pieces| - 1];
      var p := pieces[|pieces| - 1];
      var gs := Gather(ps);
      GatherTotal(ps);
      GatherSnoc(pieces);
      AddTotal(gs, p);
    }
  }

  /** Adding a piece adds one to the total. */
  lemma AddTotal(gs: seq<Group>, p: Piece)
    requires WellFormed(gs)
    ensures Total(Add(gs, p)) == Total(gs) + 1
  {
    match IndexOfKey(gs, KeyOf(p))
    case None => TotalSnoc(gs, Start(p));
    case Some(i) => TotalUpdate(gs, i, Join(gs[i], p));
  }

  // ---------------------------------------------------------------------
  // The product lines
  // ---------------------------------------------------------------------

  /** Both dimensions were read, so `toString` on them does not throw. */
  predicate Sized(g: Group) {
    g.key.width.Some? && g.key.depth.Some?
  }

  /**
    The product name: several pieces are named after the first name (or the
    type) with their count; a single piece keeps its name, or is called after
    its type and the running product counter.
   */
  function ProductName(g: Group, counter: nat): string
    requires Counted(g)
  {
    if g.quantity > 1 then OrElse(g.names[0], g.pieceType) + " (" + NatToString(g.quantity) + "x)"
    else OrElse(g.names[0], g.pieceType + " " + NatToString(counter))
  }

  /** The note: the first piece's notes, and a remark on how many pieces were combined. */
  function ProductNote(g: Group): string {
    if g.quantity > 1 then g.notes + " | Combined " + NatToString(g.quantity) + " identical pieces" else g.notes
  }

  /** Islands are placed first; every other type is normal priority. */
  function PriorityOf(pieceType: string): string {
    if pieceType == "island" then "high" else "normal"
  }

  /** The product line for a group; `counter` is its place among the groups, counting from 1. */
  function ToProduct(g: Group, stone: Option<string>, counter: nat): (p: Product)
    requires Counted(g) && Sized(g)
  {
    Product(stone, g.key.width, g.key.depth, Some(g.quantity), None, None, Some(ProductName(g, counter)),
            Some(g.edgeDetail), Some(PriorityOf(g.pieceType)), Some(ProductNote(g)), Some(g.pieceType), true, None)
  }

  /** The product lines for all groups, counters running from 1. */
  function NewProducts(gs: seq<Group>, stone: Option<string>): (r: seq<Product>)
    requires forall i :: 0 <= i < |gs| ==> Counted(gs[i]) && Sized(gs[i])
    ensures |r| == |gs|
    ensures forall i :: 0 <= i < |gs| ==> r[i] == ToProduct(gs[i], stone, i + 1)
  {
    seq(|gs|, i requires 0 <= i < |gs| => ToProduct(gs[i], stone, i + 1))
  }

  /**
    `handleClaudeMultiplePiecesExtraction`: the products before
    `currentIndex`, then one product per group with the stone of the product
    at `currentIndex`, then the products after it. A group whose width or
    depth was not read makes `toString` throw.
   */
  function Extract(pieces: seq<Piece>, currentIndex: nat, products: seq<Product>): (r: Result<seq<Product>>)
    requires currentIndex < |products|
    ensures r.Thrown? <==> exists j :: 0 <= j < |pieces| && (pieces[j].width.None? || pieces[j].depth.None?)
    ensures r.Ok? ==> |r.value| == |products| - 1 + |Gather(pieces)|
    ensures r.Ok? ==> r.value[..currentIndex] == products[..currentIndex]
    ensures r.Ok? ==> r.value[currentIndex + |Gather(pieces)|..] == products[currentIndex + 1..]
  {
    var gs := Gather(pieces);
    UnsizedPiece(pieces);
    if exists i :: 0 <= i < |gs| && !Sized(gs[i]) then
      Thrown("Cannot read properties of undefined (reading 'toString')")
    else
      var made := NewProducts(gs, products[currentIndex].stone);
      Splice(products[..currentIndex], made, products[currentIndex + 1..]);
      Ok(products[..currentIndex] + made + products[currentIndex + 1..])
  }

  /** The parts of `front + middle + back` are where the concatenation put them. */
  lemma Splice<T>(front: seq<T>, middle: seq<T>, back: seq<T>)
    ensures |front + middle + back| == |front| + |middle| + |back|
    ensures (front + middle + back)[..|front|] == front
    ensures (front + middle + back)[|front| + |middle|..] == back
  {
    var all := front + middle + back;
    assert all[..|front|] == front;
    assert all[|front| + |middle|..] == back;
  }

  /** A piece without both dimensions is in a group without them. */
  lemma UnsizedGroup(pieces: seq<Piece>, j: int)
    requires 0 <= j < |pieces| && (pieces[j].width.None? || pieces[j].depth.None?)
    ensures exists i :: 0 <= i < |Gather(pieces)| && !Sized(Gather(pieces)[i])
  {
    var gs := Gather(pieces);
    GatherDescribes(pieces);
    assert HasKey(gs, KeyOf(pieces[j]));
    var i :| 0 <= i < |gs| && gs[i].key == KeyOf(pieces[j]);
    assert !Sized(gs[i]);
  }

  /** A group without both dimensions was opened by a piece without them. */
  lemma UnsizedSeed(pieces: seq<Piece>, i: int)
    requires 0 <= i < |Gather(pieces)| && !Sized(Gather(pieces)[i])
    ensures exists j :: 0 <= j < |pieces| && (pieces[j].width.None? || pieces[j].depth.None?)
  {
    var gs := Gather(pieces);
    GatherDescribes(pieces);
    var j :| FirstWith(pieces, gs[i].key, j) && SeededBy(gs[i], pieces[j]);
    assert KeyOf(pieces[j]) == gs[i].key;
  }

  /** A group is missing a dimension exactly when one of the pieces is. */
  lemma UnsizedPiece(pieces: seq<Piece>)
    ensures (exists i :: 0 <= i < |Gather(pieces)| && !Sized(Gather(pieces)[i]))
            <==> exists j :: 0 <= j < |pieces| && (pieces[j].width.None? || pieces[j].depth.None?)
  {
    if j :| 0 <= j < |pieces| && (pieces[j].width.None? || pieces[j].depth.None?) {
      UnsizedGroup(pieces, j);
    }
    if i :| 0 <= i < |Gather(pieces)| && !Sized(Gather(pieces)[i]) {
      UnsizedSeed(pieces, i);
    }
  }

  // ---------------------------------------------------------------------
  // The new product lines, in terms of the pieces
  // ---------------------------------------------------------------------

  /**
    `prod` is the product line made for the pieces whose first is `first` and
    that number `count`, on stone `stone`: the first piece's dimensions,
    edge detail (default "Eased") and type (default "countertop"), high
    priority exactly for an island, no result yet, marked as read off a
    drawing, no thickness or finish.
   */
  predicate Made(prod: Product, first: Piece, count: nat, stone: Option<string>) {
    && prod.stone == stone
    && prod.width == first.width && prod.depth == first.depth
    && prod.quantity == Some(count)
    && prod.edgeDetail == Some(OrElse(first.edgeDetail, "Eased"))
    && prod.pieceType == Some(OrElse(first.pieceType, "countertop"))
    && (prod.priority == Some("high") <==> first.pieceType == Some("island"))
    && prod.priority.Some? && (prod.priority.value == "high" || prod.priority.value == "normal")
    && prod.result.None? && prod.aiExtracted
    && prod.thickness.None? && prod.finish.None?
  }

  lemma GroupOpener(pieces: seq<Piece>, i: nat)
    requires i < |Gather(pieces)|
    ensures Opener(Gather(pieces)[i], pieces)
  {
    GatherDescribes(pieces);
  }

  lemma GroupNamed(pieces: seq<Piece>, i: nat)
    requires i < |Gather(pieces)|
    ensures Gather(pieces)[i].names == NamesOf(Matching(pieces, Gather(pieces)[i].key))
    ensures Gather(pieces)[i].quantity == |Matching(pieces, Gather(pieces)[i].key)|
  {
    GatherDescribes(pieces);
  }

  lemma PieceGroup(pieces: seq<Piece>, j: nat) returns (i: nat)
    requires j < |pieces|
    ensures i < |Gather(pieces)| && Gather(pieces)[i].key == KeyOf(pieces[j])
  {
    GatherDescribes(pieces);
    assert HasKey(Gather(pieces), KeyOf(pieces[j]));
    i :| 0 <= i < |Gather(pieces)| && Gather(pieces)[i].key == KeyOf(pieces[j]);
  }

  /** The `i`th new product is the product line of the `i`th group. */
  lemma ExtractAt(pieces: seq<Piece>, currentIndex: nat, products: seq<Product>, i: nat)
    requires currentIndex < |products| && Extract(pieces, currentIndex, products).Ok?
    requires i < |Gather(pieces)|
    ensures Counted(Gather(pieces)[i]) && Sized(Gather(pieces)[i])
    ensures Extract(pieces, currentIndex, products).value[currentIndex + i]
            == ToProduct(Gather(pieces)[i], products[currentIndex].stone, i + 1)
  {
    UnsizedPiece(pieces);
    var gs := Gather(pieces);
    var made := NewProducts(gs, products[currentIndex].stone);
    var front := products[..currentIndex];
    var all := front + made + products[currentIndex + 1..];
    assert Extract(pieces, currentIndex, products).value == all;
    assert all[currentIndex + i] == made[i];
  }

  /** The `i`th new product is made from the first piece of its key and counts every piece of that key. */
  lemma ExtractedProduct(pieces: seq<Piece>, currentIndex: nat, products: seq<Product>, i: nat)
    requires currentIndex < |products| && Extract(pieces, currentIndex, products).Ok?
    requires i < |Gather(pieces)|
    ensures |Matching(pieces, Gather(pieces)[i].key)| >= 1
    ensures exists j :: FirstWith(pieces, Gather(pieces)[i].key, j)
                        && Made(Extract(pieces, currentIndex, products).value[currentIndex + i], pieces[j],
                                |Matching(pieces, Gather(pieces)[i].key)|, products[currentIndex].stone)
  {
    var g := Gather(pieces)[i];
    ExtractAt(pieces, currentIndex, products, i);
    GroupNamed(pieces, i);
    GroupOpener(pieces, i);
    var j :| FirstWith(pieces, g.key, j) && SeededBy(g, pieces[j]);
    assert Made(ToProduct(g, products[currentIndex].stone, i + 1), pieces[j], g.quantity, products[currentIndex].stone);
  }

  /**
    The name and note of the `i`th new product: several pieces are named
    after the first piece's name (or the type) with their count, and the note
    says how many were combined; a single piece keeps its name, or is named
    after its type and its place among the new products.
   */
  lemma ExtractedName(pieces: seq<Piece>, currentIndex: nat, products: seq<Product>, i: nat)
    requires currentIndex < |products| && Extract(pieces, currentIndex, products).Ok?
    requires i < |Gather(pieces)|
    ensures var prod := Extract(pieces, currentIndex, products).value[currentIndex + i];
            var same := Matching(pieces, Gather(pieces)[i].key);
            var kind := Gather(pieces)[i].pieceType;
            && |same| >= 1
            && (|same| > 1 ==>
                  && prod.customName == Some(OrElse(same[0].name, kind) + " (" + NatToString(|same|) + "x)")
                  && prod.note == Some(Gather(pieces)[i].notes + " | Combined " + NatToString(|same|) + " identical pieces"))
            && (|same| == 1 ==>
                  && prod.customName == Some(OrElse(same[0].name, kind + " " + NatToString(i + 1)))
                  && prod.note == Some(Gather(pieces)[i].notes))
  {
    var g := Gather(pieces)[i];
    ExtractAt(pieces, currentIndex, products, i);
    GroupNamed(pieces, i);
    var same := Matching(pieces, g.key);
    NamesHead(same);
    if |same| > 1 {
      LineNamedMany(g, same[0], products[currentIndex].stone, i + 1);
    } else {
      LineNamedOne(g, same[0], products[currentIndex].stone, i + 1);
    }
  }

  lemma LineNamedMany(g: Group, first: Piece, stone: Option<string>, counter: nat)
    requires Counted(g) && Sized(g) && g.quantity > 1 && g.names[0] == first.name
    ensures ToProduct(g, stone, counter).customName == Some(OrElse(first.name, g.pieceType) + " (" + NatToString(g.quantity) + "x)")
    ensures ToProduct(g, stone, counter).note == Some(g.notes + " | Combined " + NatToString(g.quantity) + " identical pieces")
  {
  }

  lemma LineNamedOne(g: Group, first: Piece, stone: Option<string>, counter: nat)
    requires Counted(g) && Sized(g) && g.quantity == 1 && g.names[0] == first.name
    ensures ToProduct(g, stone, counter).customName == Some(OrElse(first.name, g.pieceType + " " + NatToString(counter)))
    ensures ToProduct(g, stone, counter).note == Some(g.notes)
  {
  }

  /** The first name of the pieces is the name of the first piece. */
  lemma {:induction false} NamesHead(pieces: seq<Piece>)
    requires |pieces| >= 1
    ensures NamesOf(pieces)[0] == pieces[0].name
    decreases |pieces|
  {
    if |pieces| > 1 {
      NamesHead(pieces[..|pieces| - 1]);
    }
  }

  /** Every piece is counted by a new product with its width and depth. */
  lemma ExtractCovers(pieces: seq<Piece>, currentIndex: nat, products: seq<Product>, j: nat)
    requires currentIndex < |products| && Extract(pieces, currentIndex, products).Ok?
    requires j < |pieces|
    ensures exists i :: 0 <= i < |Gather(pieces)| && Gather(pieces)[i].key == KeyOf(pieces[j])
                        && Extract(pieces, currentIndex, products).value[currentIndex + i].width == pieces[j].width
                        && Extract(pieces, currentIndex, products).value[currentIndex + i].depth == pieces[j].depth
                        && Extract(pieces, currentIndex, products).value[currentIndex + i].quantity
                             == Some(|Matching(pieces, KeyOf(pieces[j]))|)
  {
    var i := PieceGroup(pieces, j);
    ExtractAt(pieces, currentIndex, products, i);
    GroupNamed(pieces, i);
  }

  /** How many tops the product lines ask for together. */
  function Quantities(prods: seq<Product>): int
    decreases |prods|
  {
    if |prods| == 0 then 0
    else Quantities(prods[..|prods| - 1]) + (if prods[|prods| - 1].quantity.Some? then prods[|prods| - 1].quantity.value else 0)
  }

  lemma {:induction false} QuantitiesOfGroups(gs: seq<Group>, stone: Option<string>)
    requires forall i :: 0 <= i < |gs| ==> Counted(gs[i]) && Sized(gs[i])
    ensures Quantities(NewProducts(gs, stone)) == Total(gs)
    decreases |gs|
  {
    if |gs| > 0 {
      var n := |gs| - 1;
      var made := NewProducts(gs, stone);
      QuantitiesOfGroups(gs[..n], stone);
      assert made[..n] == NewProducts(gs[..n], stone);
      assert made[n].quantity == Some(gs[n].quantity);
      assert Quantities(made) == Quantities(made[..n]) + gs[n].quantity;
    }
  }

  /** The new product lines ask for exactly as many tops as there are pieces: none lost, none counted twice. */
  lemma ExtractKeepsCount(pieces: seq<Piece>, currentIndex: nat, products: seq<Product>)
    requires currentIndex < |products| && Extract(pieces, currentIndex, products).Ok?
    ensures Quantities(Extract(pieces, currentIndex, products).value[currentIndex..currentIndex + |Gather(pieces)|])
            == |pieces|
  {
    var gs := Gather(pieces);
    UnsizedPiece(pieces);
    var made := NewProducts(gs, products[currentIndex].stone);
    var out := Extract(pieces, currentIndex, products).value;
    assert out[currentIndex..currentIndex + |gs|] == made;
    QuantitiesOfGroups(gs, products[currentIndex].stone);
    GatherTotal(pieces);
  }

  /**
    A piece whose edge detail was left out and an otherwise identical piece
    marked "Eased" are not combined: they become two product lines that both
    read "Eased".
   */
  lemma UnsetEdgeNotCombined(products: seq<Product>)
    requires |products| == 1
    ensures var unset := Piece(Some(30.0), Some(20.0), None, None, None, None);
            var eased := unset.(edgeDetail := Some("Eased"));
            var r := Extract([unset, eased], 0, products);
            && r.Ok? && |r.value| == 2
            && r.value[0].edgeDetail == r.value[1].edgeDetail == Some("Eased")
            && r.value[0].quantity == r.value[1].quantity == Some(1)
  {
    var unset := Piece(Some(30.0), Some(20.0), None, None, None, None);
    var eased := unset.(edgeDetail := Some("Eased"));
    assert [unset, eased][..1] == [unset];
    assert [unset][..0] == [];
    assert KeyOf(unset) != KeyOf(eased) by {
      assert Render(None) == "undefined";
    }
    assert Gather([unset, eased]) == [Start(unset), Start(eased)];
  }
}

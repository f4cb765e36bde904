/**
  The packing loop of `optimizeMultiProductLayout`
  (src/utils/multiProductOptimization.js:81-135). Pieces are offered one at a
  time, in packing order. Each goes onto the lowest-index slab on which the
  placement engine finds room; when no slab has room a new slab is opened and
  the piece is put at its top-left corner, unrotated, without checking that
  it fits there. This is a greedy first-fit heuristic, not an optimal packer.

  The packing state is an immutable value: the pieces on each slab, in the
  order they were put there, and every placement in the order it was made.
 */
module FirstFit {
  import opened Common
  import opened Placement

  datatype Packing = Packing(slabs: seq<seq<Placed>>, placed: seq<Placed>)

  /** The placements in `placed` that went onto slab `s`, in the order they were made. */
  function OnSlab(placed: seq<Placed>, s: int): seq<Placed>
    decreases |placed|
  {
    if |placed| == 0 then []
    else
      var last := placed[|placed| - 1];
      OnSlab(placed[..|placed| - 1], s) + (if last.slabIndex == s then [last] else [])
  }

  /** Every piece on the slab keeps a kerf of clearance from every piece put there before it. */
  predicate SlabApart(slab: seq<Placed>, kerf: real) {
    forall i, j :: 0 <= i < j < |slab| ==> Apart(slab[j], slab[i], kerf)
  }

  /**
    The packing invariant: every placement names an open slab, each slab holds
    exactly the placements that name it, no slab is empty, and the pieces on
    each slab are pairwise kerf-separated.
   */
  predicate Consistent(st: Packing, kerf: real) {
    && (forall k :: 0 <= k < |st.placed| ==> 0 <= st.placed[k].slabIndex < |st.slabs|)
    && (forall s :: 0 <= s < |st.slabs| ==> st.slabs[s] == OnSlab(st.placed, s))
    && (forall s :: 0 <= s < |st.slabs| ==> |st.slabs[s]| > 0)
    && (forall s :: 0 <= s < |st.slabs| ==> SlabApart(st.slabs[s], kerf))
  }

  function SiteOn(piece: Piece, slab: seq<Placed>, slabW: real, slabH: real, kerf: real): Site {
    Site(piece, slab, slabW, slabH, kerf)
  }

  /**
    Scans the slabs from index `from` on and returns the first one on which the
    placement engine finds room, with the placement it found.
   */
  function FirstAccepting(slabs: seq<seq<Placed>>, piece: Piece, slabW: real, slabH: real, kerf: real, from: nat)
    : (r: Option<(nat, Trial)>)
    requires from <= |slabs|
    ensures r.None? ==> forall j :: from <= j < |slabs| ==>
              FindBestPlacement(SiteOn(piece, slabs[j], slabW, slabH, kerf)).None?
    ensures r.Some? ==>
              && from <= r.value.0 < |slabs|
              && FindBestPlacement(SiteOn(piece, slabs[r.value.0], slabW, slabH, kerf)) == Some(r.value.1)
              && forall j :: from <= j < r.value.0 ==>
                   FindBestPlacement(SiteOn(piece, slabs[j], slabW, slabH, kerf)).None?
    decreases |slabs| - from
  {
    if from == |slabs| then None
    else
      var here := FindBestPlacement(SiteOn(piece, slabs[from], slabW, slabH, kerf));
      if here.Some? then Some((from, here.value))
      else FirstAccepting(slabs, piece, slabW, slabH, kerf, from + 1)
  }

  /**
    One iteration of the packing loop: the new placement is appended to the
    log and to its slab. It goes onto the first slab that accepts it, at the
    spot the placement engine chose there; if no slab accepts it, onto a new
    slab at the origin, unrotated.
   */
  function Place(st: Packing, piece: Piece, slabW: real, slabH: real, kerf: real): (r: Packing)
    ensures |r.placed| == |st.placed| + 1 && r.placed[..|st.placed|] == st.placed
    ensures |st.slabs| <= |r.slabs| <= |st.slabs| + 1
    ensures var p := r.placed[|st.placed|];
            && p.piece == piece
            && 0 <= p.slabIndex <= |st.slabs|
            && (forall j :: 0 <= j < p.slabIndex ==>
                  FindBestPlacement(SiteOn(piece, st.slabs[j], slabW, slabH, kerf)).None?)
            && (p.slabIndex < |st.slabs| ==>
                  FindBestPlacement(SiteOn(piece, st.slabs[p.slabIndex], slabW, slabH, kerf))
                    == Some(Trial(p.x, p.y, p.rotated)))
            && (p.slabIndex == |st.slabs| ==> p.x == 0.0 && p.y == 0.0 && !p.rotated)
  {
    match FirstAccepting(st.slabs, piece, slabW, slabH, kerf, 0)
    case Some((i, t)) =>
      var p := Placed(piece, t.x, t.y, t.rotated, i);
      var r := Packing(st.slabs[i := st.slabs[i] + [p]], st.placed + [p]);
      assert r.placed[..|st.placed|] == st.placed;
      r
    case None =>
      var p := Placed(piece, 0.0, 0.0, false, |st.slabs|);
      var r := Packing(st.slabs + [[p]], st.placed + [p]);
      assert r.placed[..|st.placed|] == st.placed;
      r
  }

  /** The packing loop over `pieces`, in order, starting from no slabs. */
  function Pack(pieces: seq<Piece>, slabW: real, slabH: real, kerf: real): (r: Packing)
    ensures |r.placed| == |pieces|
    ensures |r.slabs| <= |pieces|
    decreases |pieces|
  {
    if |pieces| == 0 then Packing([], [])
    else Place(Pack(pieces[..|pieces| - 1], slabW, slabH, kerf), pieces[|pieces| - 1], slabW, slabH, kerf)
  }

  lemma {:induction false} OnSlabEmpty(placed: seq<Placed>, s: int)
    requires forall k :: 0 <= k < |placed| ==> placed[k].slabIndex != s
    ensures OnSlab(placed, s) == []
    decreases |placed|
  {
    if |placed| > 0 {
      OnSlabEmpty(placed[..|placed| - 1], s);
    }
  }

  lemma {:induction false} OnSlabMembers(placed: seq<Placed>, s: int)
    ensures forall e :: e in OnSlab(placed, s) ==> e in placed && e.slabIndex == s
    decreases |placed|
  {
    if |placed| > 0 {
      OnSlabMembers(placed[..|placed| - 1], s);
    }
  }

  lemma OnSlabSnoc(placed: seq<Placed>, p: Placed, s: int)
    ensures OnSlab(placed + [p], s) == OnSlab(placed, s) + (if p.slabIndex == s then [p] else [])
  {
    assert (placed + [p])[..|placed|] == placed;
  }

  /** A placement kerf-separated from every piece on an open slab, added to it, keeps the invariant. */
  lemma JoinConsistent(st: Packing, p: Placed, kerf: real)
    requires Consistent(st, kerf) && 0 <= p.slabIndex < |st.slabs|
    requires forall a :: 0 <= a < |st.slabs[p.slabIndex]| ==> Apart(p, st.slabs[p.slabIndex][a], kerf)
    ensures Consistent(Packing(st.slabs[p.slabIndex := st.slabs[p.slabIndex] + [p]], st.placed + [p]), kerf)
  {
    var i := p.slabIndex;
    var r := Packing(st.slabs[i := st.slabs[i] + [p]], st.placed + [p]);
    forall k | 0 <= k < |r.placed|
      ensures 0 <= r.placed[k].slabIndex < |r.slabs|
    {
      if k < |st.placed| {
        assert r.placed[k] == st.placed[k];
      }
    }
    forall s | 0 <= s < |r.slabs|
      ensures r.slabs[s] == OnSlab(r.placed, s)
    {
      OnSlabSnoc(st.placed, p, s);
    }
    forall s | 0 <= s < |r.slabs|
      ensures SlabApart(r.slabs[s], kerf)
    {
      if s == i {
        var slab := r.slabs[s];
        forall a, b | 0 <= a < b < |slab|
          ensures Apart(slab[b], slab[a], kerf)
        {
          assert slab[a] == st.slabs[i][a];
          if b < |slab| - 1 {
            assert slab[b] == st.slabs[i][b];
          }
        }
      }
    }
  }

  /** A placement on a slab of its own, opened after the others, keeps the invariant. */
  lemma OpenConsistent(st: Packing, p: Placed, kerf: real)
    requires Consistent(st, kerf) && p.slabIndex == |st.slabs|
    ensures Consistent(Packing(st.slabs + [[p]], st.placed + [p]), kerf)
  {
    OpenNamesOpen(st.slabs, st.placed, p);
    OpenMatches(st.slabs, st.placed, p);
    OpenApart(st.slabs, p, kerf);
  }

  lemma OpenNamesOpen(slabs: seq<seq<Placed>>, placed: seq<Placed>, p: Placed)
    requires forall k :: 0 <= k < |placed| ==> 0 <= placed[k].slabIndex < |slabs|
    requires p.slabIndex == |slabs|
    ensures forall k :: 0 <= k < |placed + [p]| ==> 0 <= (placed + [p])[k].slabIndex < |slabs + [[p]]|
  {
    forall k | 0 <= k < |placed + [p]|
      ensures 0 <= (placed + [p])[k].slabIndex < |slabs + [[p]]|
    {
      if k < |placed| {
        assert (placed + [p])[k] == placed[k];
      }
    }
  }

  lemma OpenMatches(slabs: seq<seq<Placed>>, placed: seq<Placed>, p: Placed)
    requires forall k :: 0 <= k < |placed| ==> 0 <= placed[k].slabIndex < |slabs|
    requires forall s :: 0 <= s < |slabs| ==> slabs[s] == OnSlab(placed, s)
    requires p.slabIndex == |slabs|
    ensures forall s :: 0 <= s < |slabs + [[p]]| ==> (slabs + [[p]])[s] == OnSlab(placed + [p], s)
  {
    OnSlabEmpty(placed, |slabs|);
    forall s | 0 <= s < |slabs + [[p]]|
      ensures (slabs + [[p]])[s] == OnSlab(placed + [p], s)
    {
      OnSlabSnoc(placed, p, s);
      if s < |slabs| {
        assert (slabs + [[p]])[s] == slabs[s];
      }
    }
  }

  lemma OpenApart(slabs: seq<seq<Placed>>, p: Placed, kerf: real)
    requires forall s :: 0 <= s < |slabs| ==> SlabApart(slabs[s], kerf)
    ensures forall s :: 0 <= s < |slabs + [[p]]| ==> SlabApart((slabs + [[p]])[s], kerf)
  {
    forall s | 0 <= s < |slabs + [[p]]|
      ensures SlabApart((slabs + [[p]])[s], kerf)
    {
      if s < |slabs| {
        assert (slabs + [[p]])[s] == slabs[s];
      }
    }
  }

  /** One loop iteration keeps the packing invariant. */
  lemma PlaceKeepsConsistent(st: Packing, piece: Piece, slabW: real, slabH: real, kerf: real)
    requires Consistent(st, kerf)
    ensures Consistent(Place(st, piece, slabW, slabH, kerf), kerf)
  {
    match FirstAccepting(st.slabs, piece, slabW, slabH, kerf, 0)
    case Some((i, t)) =>
      var p := Placed(piece, t.x, t.y, t.rotated, i);
      var site := SiteOn(piece, st.slabs[i], slabW, slabH, kerf);
      assert ClearOfAll(site, t);
      forall a | 0 <= a < |st.slabs[i]|
        ensures Apart(p, st.slabs[i][a], kerf)
      {
        assert Clear(t.x, t.y, FootW(piece, t.rotated), FootH(piece, t.rotated), site.slab[a], kerf);
      }
      JoinConsistent(st, p, kerf);
    case None =>
      OpenConsistent(st, Placed(piece, 0.0, 0.0, false, |st.slabs|), kerf);
  }

  /** The whole loop keeps the packing invariant. */
  lemma {:induction false} PackConsistent(pieces: seq<Piece>, slabW: real, slabH: real, kerf: real)
    ensures Consistent(Pack(pieces, slabW, slabH, kerf), kerf)
    decreases |pieces|
  {
    if |pieces| > 0 {
      var prev := pieces[..|pieces| - 1];
      PackConsistent(prev, slabW, slabH, kerf);
      PlaceKeepsConsistent(Pack(prev, slabW, slabH, kerf), pieces[|pieces| - 1], slabW, slabH, kerf);
    }
  }

  /** The last placement is of the last piece offered. */
  lemma PackLast(pieces: seq<Piece>, slabW: real, slabH: real, kerf: real)
    requires |pieces| > 0
    ensures Pack(pieces, slabW, slabH, kerf).placed[|pieces| - 1].piece == pieces[|pieces| - 1]
  {
  }

  /** Conservation: the `k`-th placement is of the `k`-th piece offered, so each piece is placed exactly once. */
  lemma PackPlacesEachPiece(pieces: seq<Piece>, slabW: real, slabH: real, kerf: real)
    ensures forall k :: 0 <= k < |pieces| ==> Pack(pieces, slabW, slabH, kerf).placed[k].piece == pieces[k]
  {
    forall k | 0 <= k < |pieces|
      ensures Pack(pieces, slabW, slabH, kerf).placed[k].piece == pieces[k]
    {
      PackPrefix(pieces, k + 1, slabW, slabH, kerf);
      PackLast(pieces[..k + 1], slabW, slabH, kerf);
      assert pieces[..k + 1][k] == pieces[k];
    }
  }

  /** Later iterations never rewrite earlier placements. */
  lemma {:induction false} PackPrefix(pieces: seq<Piece>, m: nat, slabW: real, slabH: real, kerf: real)
    requires m <= |pieces|
    ensures Pack(pieces[..m], slabW, slabH, kerf).placed == Pack(pieces, slabW, slabH, kerf).placed[..m]
    decreases |pieces|
  {
    if m < |pieces| {
      var prev := pieces[..|pieces| - 1];
      assert prev[..m] == pieces[..m];
      PackPrefix(prev, m, slabW, slabH, kerf);
    } else {
      assert pieces[..m] == pieces;
    }
  }

  /**
    First fit: piece `k` lands on the lowest-index slab, among those open when
    its turn came, on which the placement engine found room, at the spot the
    engine chose; a slab is opened only when none had room, and then the piece
    sits at its origin, unrotated.
   */
  lemma FirstFitChoice(pieces: seq<Piece>, k: nat, slabW: real, slabH: real, kerf: real)
    requires k < |pieces|
    ensures |Pack(pieces, slabW, slabH, kerf).placed| == |pieces|
    ensures var before := Pack(pieces[..k], slabW, slabH, kerf);
            var p := Pack(pieces, slabW, slabH, kerf).placed[k];
            && p.piece == pieces[k]
            && 0 <= p.slabIndex <= |before.slabs|
            && (forall j :: 0 <= j < p.slabIndex ==>
                  FindBestPlacement(SiteOn(pieces[k], before.slabs[j], slabW, slabH, kerf)).None?)
            && (p.slabIndex < |before.slabs| ==>
                  FindBestPlacement(SiteOn(pieces[k], before.slabs[p.slabIndex], slabW, slabH, kerf))
                    == Some(Trial(p.x, p.y, p.rotated)))
            && (p.slabIndex == |before.slabs| ==> p.x == 0.0 && p.y == 0.0 && !p.rotated)
  {
    PackPrefix(pieces, k + 1, slabW, slabH, kerf);
    var upto := pieces[..k + 1];
    assert upto[..k] == pieces[..k];
  }

  /** The placed footprint lies inside the slab, with non-negative extent. */
  predicate InBounds(e: Placed, slabW: real, slabH: real) {
    && 0.0 <= e.x && 0.0 <= PlacedW(e) && e.x + PlacedW(e) <= slabW
    && 0.0 <= e.y && 0.0 <= PlacedH(e) && e.y + PlacedH(e) <= slabH
  }

  /** Every piece has non-negative dimensions and fits an empty slab unrotated. */
  predicate FitUnrotated(pieces: seq<Piece>, slabW: real, slabH: real) {
    forall k :: 0 <= k < |pieces| ==>
      0.0 <= pieces[k].width <= slabW && 0.0 <= pieces[k].depth <= slabH
  }

  /** Every placement, in the log and on the slabs, lies inside the slab. */
  predicate AllInBounds(st: Packing, slabW: real, slabH: real) {
    && (forall k :: 0 <= k < |st.placed| ==> InBounds(st.placed[k], slabW, slabH))
    && (forall s :: 0 <= s < |st.slabs| ==>
          forall i :: 0 <= i < |st.slabs[s]| ==> InBounds(st.slabs[s][i], slabW, slabH))
  }

  lemma PlaceInBounds(st: Packing, piece: Piece, slabW: real, slabH: real, kerf: real)
    requires kerf >= 0.0
    requires 0.0 <= piece.width <= slabW && 0.0 <= piece.depth <= slabH
    requires AllInBounds(st, slabW, slabH)
    ensures AllInBounds(Place(st, piece, slabW, slabH, kerf), slabW, slabH)
  {
    match FirstAccepting(st.slabs, piece, slabW, slabH, kerf, 0)
    case Some((i, t)) =>
      var site := SiteOn(piece, st.slabs[i], slabW, slabH, kerf);
      assert Grounded(site);
      assert Fits(site, t);
    case None =>
  }

  /**
    Bounds: when every piece fits an empty slab unrotated and the kerf is
    non-negative, every placement lies inside its slab. (A piece that does
    not fit is still put at the origin of a new slab, out of bounds.)
   */
  lemma {:induction false} PackInBounds(pieces: seq<Piece>, slabW: real, slabH: real, kerf: real)
    requires kerf >= 0.0
    requires FitUnrotated(pieces, slabW, slabH)
    ensures AllInBounds(Pack(pieces, slabW, slabH, kerf), slabW, slabH)
    decreases |pieces|
  {
    if |pieces| > 0 {
      var prev := pieces[..|pieces| - 1];
      assert FitUnrotated(prev, slabW, slabH);
      PackInBounds(prev, slabW, slabH, kerf);
      PlaceInBounds(Pack(prev, slabW, slabH, kerf), pieces[|pieces| - 1], slabW, slabH, kerf);
    }
  }
}

/**
  The placement engine: where a new piece goes on a slab that already holds
  some pieces (`findBestPlacement` and `calculateWaste` in
  src/utils/multiProductOptimization.js).

  The engine tries the slab's top-left corner and, for every piece already on
  the slab, the point one kerf to its right and the point one kerf below it;
  at each point it tries the piece unrotated and then rotated, square pieces
  included, without removing duplicate points. A trial is valid when it ends
  inside the slab's right and bottom edges and keeps a kerf of clearance from
  every piece already there. The engine sorts the valid trials stably by waste
  score and takes the first, so the winner is the earliest valid trial of
  minimal waste.
 */
module Placement {
  import opened Common

  /** One physical unit to cut, expanded from a product's quantity. */
  datatype Piece = Piece(
    productIndex: int,
    pieceIndex: int,
    width: real,
    depth: real,
    customName: string,
    edgeDetail: string,
    priority: string)

  /** A piece sited on a slab: top-left corner, orientation (rotated swaps width and depth) and slab index. */
  datatype Placed = Placed(piece: Piece, x: real, y: real, rotated: bool, slabIndex: int)

  /** Horizontal extent of a piece in the given orientation. */
  function FootW(p: Piece, rotated: bool): real {
    if rotated then p.depth else p.width
  }

  /** Vertical extent of a piece in the given orientation. */
  function FootH(p: Piece, rotated: bool): real {
    if rotated then p.width else p.depth
  }

  function PlacedW(e: Placed): real {
    FootW(e.piece, e.rotated)
  }

  function PlacedH(e: Placed): real {
    FootH(e.piece, e.rotated)
  }

  /** Area a placed piece covers, in its placed orientation. */
  function PlacedArea(e: Placed): real {
    PlacedW(e) * PlacedH(e)
  }

  /**
    A `w` by `h` rectangle at (x, y) keeps a kerf of clearance from the placed
    piece `e`: it ends a kerf before `e` starts, or starts a kerf after `e`
    ends, along one of the two axes.
   */
  predicate Clear(x: real, y: real, w: real, h: real, e: Placed, kerf: real) {
    || x + w + kerf <= e.x
    || x >= e.x + PlacedW(e) + kerf
    || y + h + kerf <= e.y
    || y >= e.y + PlacedH(e) + kerf
  }

  /** Placed piece `a` keeps a kerf of clearance from placed piece `b`. */
  predicate Apart(a: Placed, b: Placed, kerf: real) {
    Clear(a.x, a.y, PlacedW(a), PlacedH(a), b, kerf)
  }

  /** A candidate position and orientation for the new piece. */
  datatype Trial = Trial(x: real, y: real, rotated: bool)

  /** What the engine works on: the new piece, the pieces already on the slab, the slab size and the kerf. */
  datatype Site = Site(piece: Piece, slab: seq<Placed>, slabW: real, slabH: real, kerf: real)

  /**
    The anchor points in the order they are generated: the origin, then for
    each existing piece in slab order the point a kerf to its right and the
    point a kerf below it. Coinciding points are kept.
   */
  function Anchors(slab: seq<Placed>, kerf: real): (ps: seq<(real, real)>)
    ensures |ps| == 1 + 2 * |slab|
    decreases |slab|
  {
    if |slab| == 0 then [(0.0, 0.0)]
    else
      var e := slab[|slab| - 1];
      Anchors(slab[..|slab| - 1], kerf) + [(e.x + PlacedW(e) + kerf, e.y), (e.x, e.y + PlacedH(e) + kerf)]
  }

  /** Each point tried unrotated, then rotated. */
  function Orientations(ps: seq<(real, real)>): (ts: seq<Trial>)
    ensures |ts| == 2 * |ps|
    decreases |ps|
  {
    if |ps| == 0 then []
    else
      var p := ps[|ps| - 1];
      Orientations(ps[..|ps| - 1]) + [Trial(p.0, p.1, false), Trial(p.0, p.1, true)]
  }

  /** Every trial, in the order the engine enumerates them. */
  function Trials(s: Site): seq<Trial> {
    Orientations(Anchors(s.slab, s.kerf))
  }

  /** The trial ends within the slab's right and bottom edges. */
  predicate Fits(s: Site, t: Trial) {
    t.x + FootW(s.piece, t.rotated) <= s.slabW && t.y + FootH(s.piece, t.rotated) <= s.slabH
  }

  /** The trial keeps a kerf of clearance from every piece already on the slab. */
  predicate ClearOfAll(s: Site, t: Trial) {
    forall i :: 0 <= i < |s.slab| ==>
      Clear(t.x, t.y, FootW(s.piece, t.rotated), FootH(s.piece, t.rotated), s.slab[i], s.kerf)
  }

  predicate Valid(s: Site, t: Trial) {
    Fits(s, t) && ClearOfAll(s, t)
  }

  /** A leftover strip strictly between 0 and 12 inches, too narrow to use. */
  predicate Sliver(space: real) {
    0.0 < space < 12.0
  }

  /**
    Waste score of a `w` by `h` rectangle at (x, y) on a slab: 100 for a
    sliver left at the right edge, 100 for a sliver left at the bottom edge,
    plus the distance x + y from the origin. Lower is better.
   */
  function Waste(x: real, y: real, w: real, h: real, slabW: real, slabH: real): (r: real)
    ensures x + y <= r <= x + y + 200.0
    ensures r == x + y <==> !Sliver(slabW - (x + w)) && !Sliver(slabH - (y + h))
    ensures r == x + y + 100.0 <==> Sliver(slabW - (x + w)) != Sliver(slabH - (y + h))
    ensures r == x + y + 200.0 <==> Sliver(slabW - (x + w)) && Sliver(slabH - (y + h))
  {
    var right := if Sliver(slabW - (x + w)) then 100.0 else 0.0;
    var bottom := if Sliver(slabH - (y + h)) then 100.0 else 0.0;
    right + bottom + (x + y)
  }

  function TrialWaste(s: Site, t: Trial): real {
    Waste(t.x, t.y, FootW(s.piece, t.rotated), FootH(s.piece, t.rotated), s.slabW, s.slabH)
  }

  /**
    Among the first `n` trials, the index of the earliest valid one whose
    waste no valid trial beats: what a stable sort on waste puts first.
    Scanning in order, a valid trial replaces the current choice only when its
    waste is strictly lower.
   */
  function Earliest(s: Site, n: nat): (r: Option<nat>)
    requires n <= |Trials(s)|
    ensures r.None? <==> forall j :: 0 <= j < n ==> !Valid(s, Trials(s)[j])
    ensures r.Some? ==> r.value < n && Valid(s, Trials(s)[r.value])
  {
    if n == 0 then None
    else
      var prev := Earliest(s, n - 1);
      var t := Trials(s)[n - 1];
      if !Valid(s, t) then prev
      else if prev.None? then Some(n - 1)
      else if TrialWaste(s, t) < TrialWaste(s, Trials(s)[prev.value]) then Some(n - 1)
      else prev
  }

  /** The scan's choice has waste no valid trial beats, and strictly beats every valid trial before it. */
  lemma {:induction false} EarliestIsMinimal(s: Site, n: nat)
    requires n <= |Trials(s)|
    requires Earliest(s, n).Some?
    ensures forall j :: 0 <= j < n && Valid(s, Trials(s)[j]) ==>
              TrialWaste(s, Trials(s)[Earliest(s, n).value]) <= TrialWaste(s, Trials(s)[j])
    ensures forall j :: 0 <= j < Earliest(s, n).value && Valid(s, Trials(s)[j]) ==>
              TrialWaste(s, Trials(s)[j]) > TrialWaste(s, Trials(s)[Earliest(s, n).value])
  {
    var ts := Trials(s);
    var prev := Earliest(s, n - 1);
    var k := Earliest(s, n).value;
    if prev.Some? {
      EarliestIsMinimal(s, n - 1);
    }
    if k == n - 1 {
      assert Valid(s, ts[n - 1]);
      assert prev.Some? ==> TrialWaste(s, ts[n - 1]) < TrialWaste(s, ts[prev.value]);
    } else {
      assert prev == Some(k);
      assert Valid(s, ts[n - 1]) ==> TrialWaste(s, ts[k]) <= TrialWaste(s, ts[n - 1]);
    }
  }

  /** No trial is valid: the piece has no room on this slab. */
  predicate NoRoom(s: Site) {
    forall j :: 0 <= j < |Trials(s)| ==> !Valid(s, Trials(s)[j])
  }

  /** Everything already on the slab lies right of and below the origin, with non-negative extent, and the kerf is non-negative. */
  predicate Grounded(s: Site) {
    s.kerf >= 0.0 && SlabGrounded(s.slab)
  }

  predicate SlabGrounded(slab: seq<Placed>) {
    forall i :: 0 <= i < |slab| ==>
      slab[i].x >= 0.0 && slab[i].y >= 0.0 && PlacedW(slab[i]) >= 0.0 && PlacedH(slab[i]) >= 0.0
  }

  lemma {:induction false} AnchorsGrounded(slab: seq<Placed>, kerf: real)
    requires kerf >= 0.0 && SlabGrounded(slab)
    ensures forall i :: 0 <= i < |Anchors(slab, kerf)| ==> Anchors(slab, kerf)[i].0 >= 0.0 && Anchors(slab, kerf)[i].1 >= 0.0
    decreases |slab|
  {
    if |slab| > 0 {
      var prev := slab[..|slab| - 1];
      assert SlabGrounded(prev) by {
        forall i | 0 <= i < |prev| ensures prev[i] == slab[i] { }
      }
      AnchorsGrounded(prev, kerf);
      assert slab[|slab| - 1].x >= 0.0;
    }
  }

  lemma {:induction false} OrientationsGrounded(ps: seq<(real, real)>)
    requires forall i :: 0 <= i < |ps| ==> ps[i].0 >= 0.0 && ps[i].1 >= 0.0
    ensures forall j :: 0 <= j < |Orientations(ps)| ==> Orientations(ps)[j].x >= 0.0 && Orientations(ps)[j].y >= 0.0
    decreases |ps|
  {
    if |ps| > 0 {
      var prev := ps[..|ps| - 1];
      OrientationsGrounded(prev);
      assert ps[|ps| - 1].0 >= 0.0 && ps[|ps| - 1].1 >= 0.0;
    }
  }

  /** On a grounded slab every trial lies right of and below the origin. */
  lemma TrialsGrounded(s: Site)
    requires Grounded(s)
    ensures forall j :: 0 <= j < |Trials(s)| ==> Trials(s)[j].x >= 0.0 && Trials(s)[j].y >= 0.0
  {
    AnchorsGrounded(s.slab, s.kerf);
    OrientationsGrounded(Anchors(s.slab, s.kerf));
  }

  /**
    `findBestPlacement`: `None` exactly when no trial is valid, otherwise a
    valid trial. On a grounded slab the chosen corner is right of and below
    the origin, so with the trial's fit the footprint lies inside the slab.
   */
  function FindBestPlacement(s: Site): (r: Option<Trial>)
    ensures r.None? <==> NoRoom(s)
    ensures r.Some? ==> Valid(s, r.value)
    ensures r.Some? && Grounded(s) ==> r.value.x >= 0.0 && r.value.y >= 0.0
  {
    match Earliest(s, |Trials(s)|)
    case None => None
    case Some(k) =>
      var t := Trials(s)[k];
      assert Grounded(s) ==> t.x >= 0.0 && t.y >= 0.0 by {
        if Grounded(s) {
          TrialsGrounded(s);
        }
      }
      Some(t)
  }

  /**
    The choice `findBestPlacement` makes: one of the trials, of waste no valid
    trial beats, and strictly better than every valid trial enumerated before
    it (ties go to the earliest trial, as the stable sort leaves them).
   */
  lemma BestIsEarliestMinimal(s: Site)
    requires FindBestPlacement(s).Some?
    ensures exists k :: && 0 <= k < |Trials(s)| && Trials(s)[k] == FindBestPlacement(s).value
                        && (forall j :: 0 <= j < |Trials(s)| && Valid(s, Trials(s)[j]) ==>
                              TrialWaste(s, FindBestPlacement(s).value) <= TrialWaste(s, Trials(s)[j]))
                        && (forall j :: 0 <= j < k && Valid(s, Trials(s)[j]) ==>
                              TrialWaste(s, Trials(s)[j]) > TrialWaste(s, FindBestPlacement(s).value))
  {
    var k := Earliest(s, |Trials(s)|).value;
    EarliestIsMinimal(s, |Trials(s)|);
    assert Trials(s)[k] == FindBestPlacement(s).value;
  }
}

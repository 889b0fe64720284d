/** Dragging points of a contour: `_getOffCurveSiblingPoints`, `moveUIPoint`
    and `moveUISelection`.

    Dragging an on-curve point carries its adjacent off-curve handles along;
    dragging an off-curve handle keeps it tangent at a smooth anchor and is
    suppressed when its anchor is selected (the anchor's own drag carries it). */
module PointMoves {
  import opened Points
  import opened Contours

  // ---------------------------------------------------------------------------
  // Siblings of an off-curve point

  /** An on-curve neighbour of a dragged off-curve point, and the point two
      steps away in the same direction (on the far side of that on-curve). */
  datatype Sibling = Sibling(onCurve: nat, other: nat)

  predicate InRange(pts: seq<Point>, sibs: seq<Sibling>)
  {
    forall k :: 0 <= k < |sibs| ==> sibs[k].onCurve < |pts| && sibs[k].other < |pts|
  }

  /** The pair found in direction `d`, if the neighbour there is on-curve. */
  function SiblingIn(pts: seq<Point>, index: nat, d: int): seq<Sibling>
    requires index < |pts|
  {
    var n := |pts|;
    if pts[Wrap(index + d, n)].IsOffCurve() then []
    else [Sibling(Wrap(index + d, n), Wrap(index + 2 * d, n))]
  }

  /** `_getOffCurveSiblingPoints`: one pair per on-curve neighbour, the
      backward one first (see SiblingPointsAreNeighbours). */
  function SiblingPoints(pts: seq<Point>, index: nat): (sibs: seq<Sibling>)
    requires index < |pts|
    ensures InRange(pts, sibs)
  {
    SiblingIn(pts, index, -1) + SiblingIn(pts, index, 1)
  }

  /** The pairs `_getOffCurveSiblingPoints` returns: a pair for a direction
      exactly when the neighbour there is on-curve, made of that neighbour and
      the point two steps away; the backward pair first. */
  lemma SiblingPointsAreNeighbours(pts: seq<Point>, index: nat)
    requires index < |pts|
    ensures var sibs := SiblingPoints(pts, index); var n := |pts|;
      && |sibs| == (if pts[Wrap(index - 1, n)].IsOffCurve() then 0 else 1)
                 + (if pts[Wrap(index + 1, n)].IsOffCurve() then 0 else 1)
      && (forall k :: 0 <= k < |sibs| ==>
            && !pts[sibs[k].onCurve].IsOffCurve()
            && ((sibs[k].onCurve == Wrap(index - 1, n) && sibs[k].other == Wrap(index - 2, n))
                || (sibs[k].onCurve == Wrap(index + 1, n) && sibs[k].other == Wrap(index + 2, n))))
      && (!pts[Wrap(index - 1, n)].IsOffCurve() ==> sibs[0] == Sibling(Wrap(index - 1, n), Wrap(index - 2, n)))
      && (!pts[Wrap(index + 1, n)].IsOffCurve() ==> sibs[|sibs| - 1] == Sibling(Wrap(index + 1, n), Wrap(index + 2, n)))
  {
  }

  // ---------------------------------------------------------------------------
  // Dragging an off-curve point

  /** The plane geometry of the smooth-anchor rule, left abstract.
      `extend(p, onCurve, other)`: the end of the segment from `p` through
      `onCurve`, lengthened by the distance from `onCurve` to `other`.
      `project(onCurve, other, p)`: the orthogonal projection of `p` on the
      line through `onCurve` and `other`. */
  datatype Geometry = Geometry(extend: (Vec, Vec, Vec) -> Vec, project: (Vec, Vec, Vec) -> Vec)

  /** At a smooth sibling, the far point is realigned (rather than the dragged
      point projected) when it is a free off-curve: off-curve and unselected. */
  predicate Realigns(pts: seq<Point>, s: Sibling)
    requires s.onCurve < |pts| && s.other < |pts|
  {
    pts[s.onCurve].smooth && pts[s.other].IsOffCurve() && !pts[s.other].selected
  }

  /** Point `j` is the far point that some smooth sibling realigns. */
  predicate RealignedBy(pts: seq<Point>, sibs: seq<Sibling>, j: int)
    requires InRange(pts, sibs)
  {
    exists k :: 0 <= k < |sibs| && sibs[k].other == j && Realigns(pts, sibs[k])
  }

  /** One pass of the sibling loop: nothing at a corner anchor; at a smooth
      anchor, realign the far off-curve, or project the dragged point onto the
      tangent through the anchor. */
  function TangencyStep(pts: seq<Point>, index: nat, s: Sibling, geo: Geometry): (r: seq<Point>)
    requires index < |pts| && s.onCurve < |pts| && s.other < |pts|
    ensures SameKinds(pts, r)
  {
    if !pts[s.onCurve].smooth then pts
    else if pts[s.other].IsOffCurve() && !pts[s.other].selected then
      pts[s.other := pts[s.other].Placed(geo.extend(pts[index].Pos(), pts[s.onCurve].Pos(), pts[s.other].Pos()))]
    else
      pts[index := pts[index].Placed(geo.project(pts[s.onCurve].Pos(), pts[s.other].Pos(), pts[index].Pos()))]
  }

  /** The sibling loop, pass after pass. */
  function TangencySteps(pts: seq<Point>, index: nat, sibs: seq<Sibling>, geo: Geometry): (r: seq<Point>)
    requires index < |pts| && InRange(pts, sibs)
    ensures SameKinds(pts, r)
    decreases |sibs|
  {
    if sibs == [] then pts
    else
      var mid := TangencySteps(pts, index, sibs[..|sibs| - 1], geo);
      TangencyStep(mid, index, sibs[|sibs| - 1], geo)
  }

  /** The sibling loop changes no point but the dragged one and the far
      points it realigns. */
  lemma {:induction false} TangencyFrame(pts: seq<Point>, index: nat, sibs: seq<Sibling>, geo: Geometry, j: nat)
    requires index < |pts| && InRange(pts, sibs)
    requires j < |pts| && j != index && !RealignedBy(pts, sibs, j)
    ensures TangencySteps(pts, index, sibs, geo)[j] == pts[j]
    decreases |sibs|
  {
    if sibs != [] {
      var init := sibs[..|sibs| - 1];
      var s := sibs[|sibs| - 1];
      assert !RealignedBy(pts, init, j) by {
        forall k | 0 <= k < |init| ensures !(init[k].other == j && Realigns(pts, init[k])) {
          assert init[k] == sibs[k];
        }
      }
      TangencyFrame(pts, index, init, geo, j);
      var mid := TangencySteps(pts, index, init, geo);
      assert SameKind(mid[s.onCurve], pts[s.onCurve]) && SameKind(mid[s.other], pts[s.other]);
    }
  }

  /** Corner (non-smooth) anchors leave the sibling loop without effect. */
  lemma {:induction false} TangencyAtCorners(pts: seq<Point>, index: nat, sibs: seq<Sibling>, geo: Geometry)
    requires index < |pts| && InRange(pts, sibs)
    requires forall k :: 0 <= k < |sibs| ==> !pts[sibs[k].onCurve].smooth
    ensures TangencySteps(pts, index, sibs, geo) == pts
    decreases |sibs|
  {
    if sibs != [] {
      var init := sibs[..|sibs| - 1];
      assert forall k :: 0 <= k < |init| ==> init[k] == sibs[k];
      TangencyAtCorners(pts, index, init, geo);
    }
  }

  /** Some sibling on-curve is selected: its own drag will carry the point. */
  predicate AnchorSelected(pts: seq<Point>, sibs: seq<Sibling>)
    requires InRange(pts, sibs)
  {
    exists k :: 0 <= k < |sibs| && pts[sibs[k].onCurve].selected
  }

  /** The off-curve branch of `moveUIPoint`. */
  function OffCurveMove(pts: seq<Point>, index: nat, delta: Vec, geo: Geometry): (r: seq<Point>)
    requires index < |pts|
    ensures SameKinds(pts, r)
  {
    var sibs := SiblingPoints(pts, index);
    var aligned := TangencySteps(pts, index, sibs, geo);
    if AnchorSelected(pts, sibs) then aligned else aligned[index := aligned[index].Moved(delta)]
  }

  // ---------------------------------------------------------------------------
  // Dragging an on-curve point

  /** The drag of on-curve `i` carries the point before it: it is off-curve,
      and `i` is not the first point of an open contour. */
  predicate CarriesBackward(pts: seq<Point>, open: bool, i: nat)
    requires i < |pts|
  {
    !(open && i == 0) && pts[Wrap(i - 1, |pts|)].IsOffCurve()
  }

  /** The drag of on-curve `i` carries the point after it: it is off-curve,
      and the point after that is not a selected on-curve (whose own drag
      carries a shared quadratic handle). */
  predicate CarriesForward(pts: seq<Point>, i: nat)
    requires i < |pts|
  {
    var far := pts[Wrap(i + 2, |pts|)];
    pts[Wrap(i + 1, |pts|)].IsOffCurve() && !(!far.IsOffCurve() && far.selected)
  }

  /** How many times dragging on-curve `i` moves point `j` by the delta, once
      the first `t` of the directions -1, +1 are done. */
  function CarriedSoFar(pts: seq<Point>, open: bool, i: nat, j: int, t: nat): nat
    requires i < |pts|
  {
    (if j == i then 1 else 0)
    + (if t >= 1 && CarriesBackward(pts, open, i) && j == Wrap(i - 1, |pts|) then 1 else 0)
    + (if t >= 2 && CarriesForward(pts, i) && j == Wrap(i + 1, |pts|) then 1 else 0)
  }

  /** How many times dragging on-curve `i` moves point `j` by the delta. */
  function Carries(pts: seq<Point>, open: bool, i: nat, j: int): nat
    requires i < |pts|
  {
    CarriedSoFar(pts, open, i, j, 2)
  }

  /** The on-curve branch of `moveUIPoint`: every point moves by the delta as
      many times as the drag carries it. */
  function OnCurveMove(pts: seq<Point>, open: bool, i: nat, delta: Vec): (r: seq<Point>)
    requires i < |pts|
    ensures SameKinds(pts, r)
  {
    seq(|pts|, j requires 0 <= j < |pts| => pts[j].MovedTimes(delta, Carries(pts, open, i, j)))
  }

  /** `moveUIPoint` on point `i`. */
  function MovePoint(pts: seq<Point>, open: bool, i: nat, delta: Vec, geo: Geometry): (r: seq<Point>)
    requires i < |pts|
    ensures SameKinds(pts, r)
  {
    if pts[i].IsOffCurve() then OffCurveMove(pts, i, delta, geo) else OnCurveMove(pts, open, i, delta)
  }

  /** Direction number `t` (0 for -1, 1 for +1) carries its neighbour. */
  predicate CarriesIn(pts: seq<Point>, open: bool, i: nat, t: nat)
    requires i < |pts|
  {
    if t == 0 then CarriesBackward(pts, open, i) else CarriesForward(pts, i)
  }

  lemma CarriedNext(pts: seq<Point>, open: bool, i: nat, t: nat)
    requires i < |pts| && t < 2
    ensures forall j ::
      CarriedSoFar(pts, open, i, j, t + 1) == CarriedSoFar(pts, open, i, j, t) + (if CarriesIn(pts, open, i, t) && j == Wrap(i + [-1, 1][t], |pts|) then 1 else 0)
  {
  }

  /** `moveUIPoint(contour, point, delta)` for the point at `index`. */
  method MoveUIPoint(c: Contour, index: nat, delta: Vec, geo: Geometry)
    requires index < |c.points|
    modifies c
    ensures c.points == MovePoint(old(c.points), c.open, index, delta, geo)
    ensures c.dirty
    ensures c.open == old(c.open) && c.inGlyph == old(c.inGlyph)
  {
    if c.points[index].IsOffCurve() {
      DragOffCurve(c, index, delta, geo);
    } else {
      DragOnCurve(c, index, delta);
    }
    c.dirty := true;
  }

  /** The sibling loop's state after pass `t`, from the state after pass `t - 1`. */
  lemma TangencyNext(pts: seq<Point>, index: nat, sibs: seq<Sibling>, t: nat, geo: Geometry)
    requires index < |pts| && InRange(pts, sibs) && t < |sibs|
    ensures InRange(pts, sibs[..t]) && InRange(pts, sibs[..t + 1])
    ensures TangencySteps(pts, index, sibs[..t + 1], geo)
      == TangencyStep(TangencySteps(pts, index, sibs[..t], geo), index, sibs[t], geo)
    ensures AnchorSelected(pts, sibs[..t + 1])
      == (AnchorSelected(pts, sibs[..t]) || pts[sibs[t].onCurve].selected)
  {
    assert sibs[..t + 1][..t] == sibs[..t];
    if pts[sibs[t].onCurve].selected {
      assert sibs[..t + 1][t] == sibs[t];
    }
  }

  /** One pass of the sibling loop: a selected anchor cancels the final
      move; a corner anchor only marks the contour dirty; a smooth one
      realigns the far off-curve, or else projects the dragged point. */
  method SiblingPass(c: Contour, ghost pts: seq<Point>, index: nat, siblings: seq<Sibling>, t: nat, geo: Geometry,
                     shouldMove: bool)
    returns (shouldMove': bool)
    requires index < |pts| && InRange(pts, siblings) && t < |siblings|
    requires c.points == TangencySteps(pts, index, siblings[..t], geo)
    requires shouldMove == !AnchorSelected(pts, siblings[..t])
    modifies c`points, c`dirty
    ensures c.points == TangencySteps(pts, index, siblings[..t + 1], geo)
    ensures shouldMove' == !AnchorSelected(pts, siblings[..t + 1])
  {
    TangencyNext(pts, index, siblings, t, geo);
    var cur := c.points;
    var onCurve, other := siblings[t].onCurve, siblings[t].other;
    assert SameKind(cur[onCurve], pts[onCurve]);
    shouldMove' := shouldMove;
    // a selected anchor carries this point along with it
    if cur[onCurve].selected {
      shouldMove' := false;
    }
    if !cur[onCurve].smooth {
      c.dirty := true;
      return;
    }
    if cur[other].IsOffCurve() && !cur[other].selected {
      // keep the other off-curve in line
      var p := geo.extend(cur[index].Pos(), cur[onCurve].Pos(), cur[other].Pos());
      c.points := cur[other := cur[other].Placed(p)];
    } else {
      // keep the dragged point tangent to the anchor
      var p := geo.project(cur[onCurve].Pos(), cur[other].Pos(), cur[index].Pos());
      c.points := cur[index := cur[index].Placed(p)];
    }
  }

  /** The off-curve branch of `moveUIPoint`. */
  method DragOffCurve(c: Contour, index: nat, delta: Vec, geo: Geometry)
    requires index < |c.points| && c.points[index].IsOffCurve()
    modifies c
    ensures c.points == OffCurveMove(old(c.points), index, delta, geo)
    ensures c.open == old(c.open) && c.inGlyph == old(c.inGlyph)
  {
    ghost var pts := c.points;
    var shouldMove := true;
    var siblings := SiblingPoints(c.points, index);
    for t := 0 to |siblings|
      invariant c.points == TangencySteps(pts, index, siblings[..t], geo)
      invariant shouldMove == !AnchorSelected(pts, siblings[..t])
      invariant c.open == old(c.open) && c.inGlyph == old(c.inGlyph)
    {
      shouldMove := SiblingPass(c, pts, index, siblings, t, geo, shouldMove);
    }
    assert siblings[..|siblings|] == siblings;
    if shouldMove {
      c.points := c.points[index := c.points[index].Moved(delta)];
    }
  }

  /** Every point `j` has moved as many times as the first `t` directions
      of the drag of on-curve `i` carry it. */
  predicate CarriedState(cur: seq<Point>, pts: seq<Point>, open: bool, i: nat, delta: Vec, t: nat)
    requires i < |pts|
  {
    |cur| == |pts| && forall j :: 0 <= j < |pts| ==> cur[j] == pts[j].MovedTimes(delta, CarriedSoFar(pts, open, i, j, t))
  }

  /** Part way through, every point still has its original kind. */
  lemma CarriedKind(cur: seq<Point>, pts: seq<Point>, open: bool, i: nat, delta: Vec, t: nat, j: nat)
    requires i < |pts| && j < |pts|
    requires CarriedState(cur, pts, open, i, delta, t)
    ensures SameKind(cur[j], pts[j])
  {
    assert cur[j] == pts[j].MovedTimes(delta, CarriedSoFar(pts, open, i, j, t));
  }

  /** A direction that carries nothing leaves the state as it is. */
  lemma SkipDirection(cur: seq<Point>, pts: seq<Point>, open: bool, i: nat, delta: Vec, t: nat)
    requires i < |pts| && t < 2
    requires !CarriesIn(pts, open, i, t)
    requires CarriedState(cur, pts, open, i, delta, t)
    ensures CarriedState(cur, pts, open, i, delta, t + 1)
  {
    CarriedNext(pts, open, i, t);
  }

  /** A direction that carries its neighbour moves that neighbour once more. */
  lemma CarryDirection(cur: seq<Point>, pts: seq<Point>, open: bool, i: nat, delta: Vec, t: nat, k: nat)
    requires i < |pts| && t < 2 && k == Wrap(i + [-1, 1][t], |pts|)
    requires CarriesIn(pts, open, i, t)
    requires CarriedState(cur, pts, open, i, delta, t)
    ensures CarriedState(cur[k := cur[k].Moved(delta)], pts, open, i, delta, t + 1)
  {
    CarriedNext(pts, open, i, t);
  }

  /** The on-curve branch of `moveUIPoint`. */
  method DragOnCurve(c: Contour, index: nat, delta: Vec)
    requires index < |c.points| && !c.points[index].IsOffCurve()
    modifies c
    ensures c.points == OnCurveMove(old(c.points), c.open, index, delta)
    ensures c.open == old(c.open) && c.inGlyph == old(c.inGlyph) && c.dirty == old(c.dirty)
  {
    ghost var pts := c.points;
    c.points := c.points[index := c.points[index].Moved(delta)];
    var ds := [-1, 1];
    for t := 0 to |ds|
      invariant CarriedState(c.points, pts, c.open, index, delta, t)
      invariant c.open == old(c.open) && c.inGlyph == old(c.inGlyph) && c.dirty == old(c.dirty)
    {
      DragNeighbour(c, pts, index, delta, t, ds[t]);
    }
  }

  /** One turn of the on-curve branch's loop: the neighbour on side `d`
      follows the anchor unless the rules exempt it. */
  method DragNeighbour(c: Contour, ghost pts: seq<Point>, index: nat, delta: Vec, t: nat, d: int)
    requires index < |pts| && t < 2 && d == [-1, 1][t]
    requires CarriedState(c.points, pts, c.open, index, delta, t)
    modifies c
    ensures CarriedState(c.points, pts, c.open, index, delta, t + 1)
    ensures c.open == old(c.open) && c.inGlyph == old(c.inGlyph) && c.dirty == old(c.dirty)
  {
    var n := |c.points|;
    // an open contour does not wrap around from its first point
    if c.open && index == 0 && d == -1 {
      SkipDirection(c.points, pts, c.open, index, delta, t);
      return;
    }
    var pt := c.GetPoint(index + d);
    CarriedKind(c.points, pts, c.open, index, delta, t, Wrap(index + d, n));
    if pt.IsOffCurve() {
      if d > 0 {
        // a shared quadratic handle is carried by the selected far anchor
        var otherPt := c.GetPoint(index + 2 * d);
        CarriedKind(c.points, pts, c.open, index, delta, t, Wrap(index + 2, n));
        if !otherPt.IsOffCurve() && otherPt.selected {
          SkipDirection(c.points, pts, c.open, index, delta, t);
          return;
        }
      }
      var k := Wrap(index + d, n);
      CarryDirection(c.points, pts, c.open, index, delta, t, k);
      c.points := c.points[k := c.points[k].Moved(delta)];
    } else {
      SkipDirection(c.points, pts, c.open, index, delta, t);
    }
  }

  // ---------------------------------------------------------------------------
  // Dragging the selection

  predicate AllIn(pts: seq<Point>, order: seq<nat>)
  {
    forall k :: 0 <= k < |order| ==> order[k] < |pts|
  }

  /** No position is listed twice. */
  predicate Distinct(order: seq<nat>)
  {
    forall a, b :: 0 <= a < b < |order| ==> order[a] != order[b]
  }

  /** `order` is an order in which `contour.selection` can yield the selected
      points: every selected position exactly once, and nothing else. */
  predicate IsSelectionOrder(pts: seq<Point>, order: seq<nat>)
  {
    && AllIn(pts, order)
    && Distinct(order)
    && (forall k :: 0 <= k < |order| ==> pts[order[k]].selected)
    && (forall j :: 0 <= j < |pts| && pts[j].selected ==> j in order)
  }

  /** `moveUISelection`: `moveUIPoint` on each position of `order` in turn,
      each seeing the contour as the drags before it left it. */
  function MoveAll(pts: seq<Point>, open: bool, order: seq<nat>, delta: Vec, geo: Geometry): (r: seq<Point>)
    requires AllIn(pts, order)
    ensures SameKinds(pts, r)
    decreases |order|
  {
    if order == [] then pts
    else
      var mid := MoveAll(pts, open, order[..|order| - 1], delta, geo);
      MovePoint(mid, open, order[|order| - 1], delta, geo)
  }

  /** `moveUISelection(contour, delta)`, the selection taken in `order`. */
  method MoveUISelection(c: Contour, order: seq<nat>, delta: Vec, geo: Geometry)
    requires IsSelectionOrder(c.points, order)
    modifies c
    ensures c.points == MoveAll(old(c.points), c.open, order, delta, geo)
    ensures c.dirty == (old(c.dirty) || |order| > 0)
    ensures c.open == old(c.open) && c.inGlyph == old(c.inGlyph)
  {
    ghost var pts := c.points;
    for t := 0 to |order|
      invariant c.points == MoveAll(pts, c.open, order[..t], delta, geo)
      invariant c.dirty == (old(c.dirty) || t > 0)
      invariant c.open == old(c.open) && c.inGlyph == old(c.inGlyph)
    {
      assert order[..t + 1][..t] == order[..t];
      MoveUIPoint(c, order[t], delta, geo);
    }
    assert order[..|order|] == order;
  }

  // ---------------------------------------------------------------------------
  // What a single drag does

  /** Dragging on-curve `i` of a contour of three or more points moves it by
      the delta; moves the point before it when that is off-curve, unless `i`
      is the first point of an open contour; moves the point after it when
      that is off-curve and the point after that is not a selected on-curve;
      and leaves every other point where it was. */
  lemma OnCurveDragCarriesHandles(pts: seq<Point>, open: bool, i: nat, delta: Vec, geo: Geometry)
    requires i < |pts| && |pts| >= 3 && !pts[i].IsOffCurve()
    ensures var r := MovePoint(pts, open, i, delta, geo); var n := |pts|;
      var prev := if i == 0 then n - 1 else i - 1;
      var next := if i == n - 1 then 0 else i + 1;
      var far := if i + 2 < n then i + 2 else i + 2 - n;
      && |r| == n
      && r[i] == pts[i].Moved(delta)
      && r[prev] == (if !(open && i == 0) && pts[prev].IsOffCurve() then pts[prev].Moved(delta) else pts[prev])
      && r[next] == (if pts[next].IsOffCurve() && !(!pts[far].IsOffCurve() && pts[far].selected)
                     then pts[next].Moved(delta) else pts[next])
      && forall j :: 0 <= j < n && j != i && j != prev && j != next ==> r[j] == pts[j]
  {
    var n := |pts|;
    var prev := if i == 0 then n - 1 else i - 1;
    var next := if i == n - 1 then 0 else i + 1;
    assert MovePoint(pts, open, i, delta, geo) == OnCurveMove(pts, open, i, delta);
    OnCurveCarries(pts, open, i);
    MovedOnce(pts[i], delta);
    MovedOnce(pts[prev], delta);
    MovedOnce(pts[next], delta);
  }

  /** The counts behind OnCurveDragCarriesHandles. */
  lemma OnCurveCarries(pts: seq<Point>, open: bool, i: nat)
    requires i < |pts| && |pts| >= 3 && !pts[i].IsOffCurve()
    ensures var n := |pts|;
      var prev := if i == 0 then n - 1 else i - 1;
      var next := if i == n - 1 then 0 else i + 1;
      var far := if i + 2 < n then i + 2 else i + 2 - n;
      && Carries(pts, open, i, i) == 1
      && Carries(pts, open, i, prev) == (if !(open && i == 0) && pts[prev].IsOffCurve() then 1 else 0)
      && Carries(pts, open, i, next)
         == (if pts[next].IsOffCurve() && !(!pts[far].IsOffCurve() && pts[far].selected) then 1 else 0)
      && forall j :: j != i && j != prev && j != next ==> Carries(pts, open, i, j) == 0
  {
    Neighbours(i, |pts|);
  }

  /** The neighbour of `i` in direction `d` is a smooth on-curve. */
  predicate SmoothTowards(pts: seq<Point>, i: nat, d: int)
    requires i < |pts|
  {
    var on := pts[Wrap(i + d, |pts|)];
    !on.IsOffCurve() && on.smooth
  }

  /** Dragging an off-curve point whose on-curve neighbours are corners: it
      moves by the delta unless one of those neighbours is selected, and no
      other point changes. */
  lemma OffCurveDragAtCorners(pts: seq<Point>, open: bool, i: nat, delta: Vec, geo: Geometry)
    requires i < |pts| && pts[i].IsOffCurve()
    requires !SmoothTowards(pts, i, -1) && !SmoothTowards(pts, i, 1)
    ensures var n := |pts|; var prev := pts[Wrap(i - 1, n)]; var next := pts[Wrap(i + 1, n)];
      MovePoint(pts, open, i, delta, geo)
      == if (!prev.IsOffCurve() && prev.selected) || (!next.IsOffCurve() && next.selected) then pts
         else pts[i := pts[i].Moved(delta)]
  {
    SiblingPointsAreNeighbours(pts, i);
    TangencyAtCorners(pts, i, SiblingPoints(pts, i), geo);
  }

  /** Dragging an off-curve point changes no point but itself and a free
      (unselected) off-curve lying two steps away beyond a smooth on-curve
      neighbour. */
  lemma OffCurveDragFrame(pts: seq<Point>, open: bool, i: nat, delta: Vec, geo: Geometry, j: nat)
    requires i < |pts| && pts[i].IsOffCurve() && j < |pts| && j != i
    requires pts[j].IsOffCurve() && !pts[j].selected ==>
      && !(SmoothTowards(pts, i, -1) && j == Wrap(i - 2, |pts|))
      && !(SmoothTowards(pts, i, 1) && j == Wrap(i + 2, |pts|))
    ensures MovePoint(pts, open, i, delta, geo)[j] == pts[j]
  {
    var sibs := SiblingPoints(pts, i);
    NotRealigned(pts, i, j);
    TangencyFrame(pts, i, sibs, geo, j);
    var aligned := TangencySteps(pts, i, sibs, geo);
    assert MovePoint(pts, open, i, delta, geo)
      == if AnchorSelected(pts, sibs) then aligned else aligned[i := aligned[i].Moved(delta)];
  }

  /** The sibling pairs realign only a free off-curve two steps away beyond a
      smooth on-curve neighbour. */
  lemma NotRealigned(pts: seq<Point>, i: nat, j: nat)
    requires i < |pts| && j < |pts|
    requires pts[j].IsOffCurve() && !pts[j].selected ==>
      && !(SmoothTowards(pts, i, -1) && j == Wrap(i - 2, |pts|))
      && !(SmoothTowards(pts, i, 1) && j == Wrap(i + 2, |pts|))
    ensures !RealignedBy(pts, SiblingPoints(pts, i), j)
  {
    var n := |pts|;
    var sibs := SiblingPoints(pts, i);
    SiblingPointsAreNeighbours(pts, i);
    forall k | 0 <= k < |sibs| && sibs[k].other == j
      ensures !Realigns(pts, sibs[k])
    {
      if sibs[k].onCurve == Wrap(i - 1, n) {
        assert j == Wrap(i - 2, n);
      } else {
        assert j == Wrap(i + 2, n);
      }
    }
  }

  /** With one on-curve neighbour there is one sibling pair, and its far
      point is not the dragged point. */
  lemma SingleSibling(pts: seq<Point>, i: nat, d: int)
    requires i < |pts| && |pts| >= 3 && (d == -1 || d == 1)
    requires !pts[Wrap(i + d, |pts|)].IsOffCurve() && pts[Wrap(i - d, |pts|)].IsOffCurve()
    ensures var n := |pts|;
      && SiblingPoints(pts, i) == [Sibling(Wrap(i + d, n), Wrap(i + 2 * d, n))]
      && Wrap(i + 2 * d, n) != i
  {
    Neighbours(i, |pts|);
    if d == -1 {
      assert SiblingIn(pts, i, 1) == [];
    } else {
      assert SiblingIn(pts, i, -1) == [];
    }
  }

  /** The sibling loop over a single pair is one pass. */
  lemma SinglePass(pts: seq<Point>, i: nat, s: Sibling, geo: Geometry)
    requires i < |pts| && s.onCurve < |pts| && s.other < |pts|
    ensures TangencySteps(pts, i, [s], geo) == TangencyStep(pts, i, s, geo)
    ensures AnchorSelected(pts, [s]) <==> pts[s.onCurve].selected
  {
    assert [s][..0] == [];
    assert [s][0] == s;
  }

  /** A handle beside a single smooth on-curve `on` (the other neighbour is
      off-curve), with a free off-curve handle `far` on the anchor's other
      side: the drag puts `far` on the line from the handle's old position
      through the anchor, and moves the handle by the delta unless the anchor
      is selected. */
  lemma SmoothHandleRealigned(pts: seq<Point>, open: bool, i: nat, d: int, delta: Vec, geo: Geometry)
    requires i < |pts| && |pts| >= 3 && (d == -1 || d == 1) && pts[i].IsOffCurve()
    requires SmoothTowards(pts, i, d) && pts[Wrap(i - d, |pts|)].IsOffCurve()
    requires var far := pts[Wrap(i + 2 * d, |pts|)]; far.IsOffCurve() && !far.selected
    ensures var n := |pts|; var r := MovePoint(pts, open, i, delta, geo);
      var on := Wrap(i + d, n); var far := Wrap(i + 2 * d, n);
      && r[far] == pts[far].Placed(geo.extend(pts[i].Pos(), pts[on].Pos(), pts[far].Pos()))
      && r[i] == (if pts[on].selected then pts[i] else pts[i].Moved(delta))
  {
    var n := |pts|;
    SingleSibling(pts, i, d);
    SinglePass(pts, i, Sibling(Wrap(i + d, n), Wrap(i + 2 * d, n)), geo);
  }

  /** The same handle when the point beyond the smooth anchor is not a free
      off-curve (an on-curve, or a selected handle): the dragged handle is
      projected onto the tangent through the anchor and that point, then moved
      by the delta unless the anchor is selected; the far point stays. */
  lemma SmoothHandleProjected(pts: seq<Point>, open: bool, i: nat, d: int, delta: Vec, geo: Geometry)
    requires i < |pts| && |pts| >= 3 && (d == -1 || d == 1) && pts[i].IsOffCurve()
    requires SmoothTowards(pts, i, d) && pts[Wrap(i - d, |pts|)].IsOffCurve()
    requires var far := pts[Wrap(i + 2 * d, |pts|)]; !far.IsOffCurve() || far.selected
    ensures var n := |pts|; var r := MovePoint(pts, open, i, delta, geo);
      var on := Wrap(i + d, n); var far := Wrap(i + 2 * d, n);
      var projected := pts[i].Placed(geo.project(pts[on].Pos(), pts[far].Pos(), pts[i].Pos()));
      && r[far] == pts[far]
      && r[i] == (if pts[on].selected then projected else projected.Moved(delta))
  {
    var n := |pts|;
    SingleSibling(pts, i, d);
    SinglePass(pts, i, Sibling(Wrap(i + d, n), Wrap(i + 2 * d, n)), geo);
  }

  // ---------------------------------------------------------------------------
  // What dragging a selection of on-curve points does

  /** Every position of `order` holds an on-curve point. */
  predicate AllOnCurve(pts: seq<Point>, order: seq<nat>)
    requires AllIn(pts, order)
  {
    forall k :: 0 <= k < |order| ==> !pts[order[k]].IsOffCurve()
  }

  /** The sum of `f` over the positions of `order`. */
  function SumOver(order: seq<nat>, f: nat -> nat): nat
    decreases |order|
  {
    if order == [] then 0 else SumOver(order[..|order| - 1], f) + f(order[|order| - 1])
  }

  /** How many times dragging on-curve `i` moves point `j`, as a function of `i`. */
  function CarriedBy(pts: seq<Point>, open: bool, j: int): nat -> nat
  {
    (i: nat) => if i < |pts| then Carries(pts, open, i, j) else 0 as nat
  }

  /** How many times dragging the on-curve points of `order`, one after the
      other, moves point `j`. */
  function TotalCarries(pts: seq<Point>, open: bool, order: seq<nat>, j: int): nat
  {
    SumOver(order, CarriedBy(pts, open, j))
  }

  /** What a drag carries depends only on the kinds of the points, not on
      where earlier drags left them. */
  lemma CarriesByKind(pts: seq<Point>, qs: seq<Point>, open: bool, i: nat, j: int)
    requires SameKinds(pts, qs) && i < |pts|
    ensures Carries(qs, open, i, j) == Carries(pts, open, i, j)
  {
    var n := |pts|;
    assert SameKind(pts[Wrap(i - 1, n)], qs[Wrap(i - 1, n)]);
    assert SameKind(pts[Wrap(i + 1, n)], qs[Wrap(i + 1, n)]);
    assert SameKind(pts[Wrap(i + 2, n)], qs[Wrap(i + 2, n)]);
  }

  /** Dragging on-curve points only: every point ends up moved by the delta
      as many times as the drags carry it, each drag judged on the original
      contour. */
  lemma {:induction false} AnchorDragShifts(pts: seq<Point>, open: bool, order: seq<nat>, delta: Vec, geo: Geometry)
    requires AllIn(pts, order) && AllOnCurve(pts, order)
    ensures var r := MoveAll(pts, open, order, delta, geo);
      |r| == |pts| && forall j :: 0 <= j < |pts| ==> r[j] == pts[j].MovedTimes(delta, TotalCarries(pts, open, order, j))
    decreases |order|
  {
    if order != [] {
      var init := order[..|order| - 1];
      var x := order[|order| - 1];
      assert forall k :: 0 <= k < |init| ==> init[k] == order[k];
      AnchorDragShifts(pts, open, init, delta, geo);
      var mid := MoveAll(pts, open, init, delta, geo);
      assert SameKind(mid[x], pts[x]);
      assert MoveAll(pts, open, order, delta, geo) == OnCurveMove(mid, open, x, delta);
      AnchorDragAppend(pts, mid, open, order, delta);
    }
  }

  /** One more on-curve drag at the end of the run keeps the shifts counted. */
  lemma AnchorDragAppend(pts: seq<Point>, mid: seq<Point>, open: bool, order: seq<nat>, delta: Vec)
    requires order != [] && AllIn(pts, order) && SameKinds(pts, mid)
    requires forall j :: 0 <= j < |pts| ==> mid[j] == pts[j].MovedTimes(delta, TotalCarries(pts, open, order[..|order| - 1], j))
    ensures var r := OnCurveMove(mid, open, order[|order| - 1], delta);
      forall j :: 0 <= j < |pts| ==> r[j] == pts[j].MovedTimes(delta, TotalCarries(pts, open, order, j))
  {
    var x := order[|order| - 1];
    forall j | 0 <= j < |pts|
      ensures OnCurveMove(mid, open, x, delta)[j] == pts[j].MovedTimes(delta, TotalCarries(pts, open, order, j))
    {
      TotalCarriesStep(pts, open, order, j);
      AnchorDragStep(pts, mid, open, x, delta, TotalCarries(pts, open, order[..|order| - 1], j), j);
    }
  }

  /** The count over a run is the count over all but its last drag plus what
      that drag carries. */
  lemma TotalCarriesStep(pts: seq<Point>, open: bool, order: seq<nat>, j: int)
    requires order != [] && order[|order| - 1] < |pts|
    ensures TotalCarries(pts, open, order, j)
      == TotalCarries(pts, open, order[..|order| - 1], j) + Carries(pts, open, order[|order| - 1], j)
  {
  }

  /** One more on-curve drag adds what it carries to the count. */
  lemma AnchorDragStep(pts: seq<Point>, mid: seq<Point>, open: bool, x: nat, delta: Vec, before: nat, j: nat)
    requires SameKinds(pts, mid) && x < |pts| && j < |pts|
    requires mid[j] == pts[j].MovedTimes(delta, before)
    ensures OnCurveMove(mid, open, x, delta)[j] == pts[j].MovedTimes(delta, before + Carries(pts, open, x, j))
  {
    CarriesByKind(pts, mid, open, x, j);
    MovedTimesAdds(pts[j], delta, before, Carries(pts, open, x, j));
  }

  /** A sum over two runs of positions is the sum of their sums. */
  lemma {:induction false} SumConcat(a: seq<nat>, b: seq<nat>, f: nat -> nat)
    ensures SumOver(a + b, f) == SumOver(a, f) + SumOver(b, f)
    decreases |b|
  {
    if b == [] {
      assert a + b == a;
    } else {
      SumConcat(a, b[..|b| - 1], f);
      assert (a + b)[..|a + b| - 1] == a + b[..|b| - 1];
    }
  }

  /** A run is its part before `k`, its element at `k` and its part after. */
  lemma SplitAt<T>(b: seq<T>, k: nat)
    requires k < |b|
    ensures b == b[..k] + [b[k]] + b[k + 1..]
  {
    assert b[k..] == [b[k]] + b[k + 1..];
    assert b == b[..k] + b[k..];
  }

  /** Taking position `k` out of a run takes `f` of it out of the sum. */
  lemma SumRemove(b: seq<nat>, k: nat, f: nat -> nat)
    requires k < |b|
    ensures SumOver(b, f) == SumOver(b[..k] + b[k + 1..], f) + f(b[k])
  {
    var pre, post := b[..k], b[k + 1..];
    SplitAt(b, k);
    SumConcat(pre, [b[k]], f);
    SumConcat(pre + [b[k]], post, f);
    SumConcat(pre, post, f);
    assert SumOver([b[k]], f) == f(b[k]) by {
      assert [b[k]][..0] == [];
    }
  }

  /** Taking the same value out of two runs with equal multisets leaves
      equal multisets. */
  lemma MultisetRemove(init: seq<nat>, x: nat, b: seq<nat>, k: nat)
    requires k < |b| && b[k] == x && multiset(init + [x]) == multiset(b)
    ensures multiset(init) == multiset(b[..k] + b[k + 1..])
  {
    var pre, post := b[..k], b[k + 1..];
    SplitAt(b, k);
    assert multiset(init) == multiset(init + [x]) - multiset{x};
    assert multiset(b) == multiset(pre) + multiset{x} + multiset(post);
    assert multiset(pre + post) == multiset(pre) + multiset(post);
  }

  /** A sum does not depend on the order of the positions. */
  lemma {:induction false} SumPermutation(a: seq<nat>, b: seq<nat>, f: nat -> nat)
    requires multiset(a) == multiset(b)
    ensures SumOver(a, f) == SumOver(b, f)
    decreases |a|
  {
    if a != [] {
      var init, x := a[..|a| - 1], a[|a| - 1];
      assert a == init + [x];
      assert x in multiset(b);
      var k :| 0 <= k < |b| && b[k] == x;
      MultisetRemove(init, x, b, k);
      SumPermutation(init, b[..k] + b[k + 1..], f);
      SumRemove(b, k, f);
    } else {
      assert |b| == |multiset(b)| == 0;
    }
  }

  /** Over a duplicate-free order where `f` vanishes everywhere but at `x`,
      the sum is `f(x)` if `x` is listed, else zero. */
  lemma {:induction false} SumSupport(order: seq<nat>, f: nat -> nat, x: nat)
    requires Distinct(order)
    requires forall k :: 0 <= k < |order| && order[k] != x ==> f(order[k]) == 0
    ensures SumOver(order, f) == if x in order then f(x) else 0
    decreases |order|
  {
    if order != [] {
      var init := order[..|order| - 1];
      assert order == init + [order[|order| - 1]];
      assert forall m :: 0 <= m < |init| ==> init[m] == order[m];
      SumSupport(init, f, x);
    }
  }

  /** Where `f` vanishes on every listed position the sum is zero. */
  lemma {:induction false} SumZero(order: seq<nat>, f: nat -> nat)
    requires forall k :: 0 <= k < |order| ==> f(order[k]) == 0
    ensures SumOver(order, f) == 0
    decreases |order|
  {
    if order != [] {
      var init := order[..|order| - 1];
      assert forall m :: 0 <= m < |init| ==> init[m] == order[m];
      SumZero(init, f);
    }
  }

  /** In a duplicate-free order every listed position counts once. */
  lemma {:induction false} DistinctMultiset(order: seq<nat>, x: nat)
    requires Distinct(order)
    ensures multiset(order)[x] == if x in order then 1 else 0
    decreases |order|
  {
    if order != [] {
      var init := order[..|order| - 1];
      assert order == init + [order[|order| - 1]];
      assert forall m :: 0 <= m < |init| ==> init[m] == order[m];
      DistinctMultiset(init, x);
    }
  }

  /** When only on-curve points are selected, the order in which the
      selection is visited does not change the result. */
  lemma AnchorDragOrderIrrelevant(pts: seq<Point>, open: bool, a: seq<nat>, b: seq<nat>, delta: Vec, geo: Geometry)
    requires IsSelectionOrder(pts, a) && IsSelectionOrder(pts, b)
    requires forall j :: 0 <= j < |pts| && pts[j].selected ==> !pts[j].IsOffCurve()
    ensures MoveAll(pts, open, a, delta, geo) == MoveAll(pts, open, b, delta, geo)
  {
    forall x: nat ensures multiset(a)[x] == multiset(b)[x] {
      DistinctMultiset(a, x);
      DistinctMultiset(b, x);
    }
    assert multiset(a) == multiset(b);
    AnchorDragShifts(pts, open, a, delta, geo);
    AnchorDragShifts(pts, open, b, delta, geo);
    forall j | 0 <= j < |pts| ensures TotalCarries(pts, open, a, j) == TotalCarries(pts, open, b, j) {
      SumPermutation(a, b, CarriedBy(pts, open, j));
    }
  }

  /** What dragging on-curve `i` carries, seen from point `j`: `j` itself;
      `j` when it is an off-curve just before `i` (unless `i` is the first
      point of an open contour); `j` when it is an off-curve just after `i`
      and the point after `j` is not a selected on-curve. */
  lemma CarriesSeenFrom(pts: seq<Point>, open: bool, i: nat, j: nat)
    requires i < |pts| && j < |pts|
    ensures var n := |pts|; var after := pts[Wrap(j + 1, n)];
      Carries(pts, open, i, j)
      == (if j == i then 1 else 0)
         + (if !(open && i == 0) && pts[j].IsOffCurve() && i == Wrap(j + 1, n) then 1 else 0)
         + (if pts[j].IsOffCurve() && i == Wrap(j - 1, n) && !(!after.IsOffCurve() && after.selected) then 1 else 0)
  {
    WrapStep(i, j, |pts|);
    WrapAdd(j - 1, 2, |pts|);
  }

  /** In a closed contour whose selection is exactly its on-curve points, and
      where every off-curve point touches an on-curve point, each point is
      carried exactly once. */
  lemma CarriedOnce(pts: seq<Point>, order: seq<nat>, j: nat)
    requires IsSelectionOrder(pts, order) && j < |pts|
    requires forall m :: 0 <= m < |pts| ==> (pts[m].selected <==> !pts[m].IsOffCurve())
    requires pts[j].IsOffCurve() ==> !pts[Wrap(j - 1, |pts|)].IsOffCurve() || !pts[Wrap(j + 1, |pts|)].IsOffCurve()
    ensures TotalCarries(pts, false, order, j) == 1
  {
    var n := |pts|;
    var a := Wrap(j + 1, n);
    var b := Wrap(j - 1, n);
    var x := if !pts[j].IsOffCurve() then j else if !pts[a].IsOffCurve() then a else b;
    forall k | 0 <= k < |order| && order[k] != x ensures Carries(pts, false, order[k], j) == 0 {
      CarriesSeenFrom(pts, false, order[k], j);
    }
    CarriesSeenFrom(pts, false, x, j);
    SumSupport(order, CarriedBy(pts, false, j), x);
  }

  /** Dragging a closed contour whose selection is exactly its on-curve
      points, where every off-curve point touches an on-curve point, moves
      every point by the delta: the whole contour is translated. */
  lemma DragAllAnchorsTranslates(pts: seq<Point>, order: seq<nat>, delta: Vec, geo: Geometry)
    requires IsSelectionOrder(pts, order)
    requires forall m :: 0 <= m < |pts| ==> (pts[m].selected <==> !pts[m].IsOffCurve())
    requires forall m :: 0 <= m < |pts| && pts[m].IsOffCurve() ==>
      !pts[Wrap(m - 1, |pts|)].IsOffCurve() || !pts[Wrap(m + 1, |pts|)].IsOffCurve()
    ensures var r := MoveAll(pts, false, order, delta, geo);
      |r| == |pts| && forall j :: 0 <= j < |pts| ==> r[j] == pts[j].Moved(delta)
  {
    AnchorDragShifts(pts, false, order, delta, geo);
    forall j | 0 <= j < |pts| ensures TotalCarries(pts, false, order, j) == 1 {
      CarriedOnce(pts, order, j);
    }
    forall p: Point ensures p.MovedTimes(delta, 1) == p.Moved(delta) {
      assert p.MovedTimes(delta, 0) == p;
    }
  }

  /** On an open contour ending in an off-curve handle whose first point is a
      selected on-curve, dragging on-curve points never moves that trailing
      handle: the first point skips it because the contour is open, and the
      point before the handle skips it because the selected first point is
      taken to carry it. */
  lemma OpenTrailingHandleLeftBehind(pts: seq<Point>, order: seq<nat>, delta: Vec, geo: Geometry)
    requires |pts| >= 2 && AllIn(pts, order) && AllOnCurve(pts, order)
    requires pts[|pts| - 1].IsOffCurve() && !pts[0].IsOffCurve() && pts[0].selected
    ensures MoveAll(pts, true, order, delta, geo)[|pts| - 1] == pts[|pts| - 1]
  {
    var n := |pts|;
    forall k | 0 <= k < |order| ensures Carries(pts, true, order[k], n - 1) == 0 {
      CarriesSeenFrom(pts, true, order[k], n - 1);
    }
    SumZero(order, CarriedBy(pts, true, n - 1));
    AnchorDragShifts(pts, true, order, delta, geo);
  }
}

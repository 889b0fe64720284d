/** Points of a vector contour, as the editing rules see them: a type (absent for
    an off-curve control point), the smooth and selected flags, and integer
    coordinates. */
module Points {

  datatype Option<+T> = None | Some(value: T)

  /** The segment types an on-curve point may carry. */
  datatype SegmentType = Move | Line | Curve | QCurve

  /** A displacement or a position in the plane. */
  datatype Vec = Vec(x: int, y: int)

  datatype Point = Point(segmentType: Option<SegmentType>, smooth: bool, selected: bool, x: int, y: int)
  {
    /** An off-curve (control) point has no segment type. */
    predicate IsOffCurve()
    {
      segmentType.None?
    }

    function Pos(): Vec
    {
      Vec(x, y)
    }

    /** `point.move(delta)`: translate, keep everything else. */
    function Moved(delta: Vec): Point
    {
      this.(x := x + delta.x, y := y + delta.y)
    }

    /** Moved by `delta`, `k` times over. */
    function MovedTimes(delta: Vec, k: nat): (p: Point)
      ensures SameKind(this, p)
    {
      if k == 0 then this else MovedTimes(delta, k - 1).Moved(delta)
    }

    /** Overwrite both coordinates. */
    function Placed(v: Vec): Point
    {
      this.(x := v.x, y := v.y)
    }
  }

  /** Two points agree on everything but their coordinates. */
  predicate SameKind(p: Point, q: Point)
  {
    p.segmentType == q.segmentType && p.smooth == q.smooth && p.selected == q.selected
  }

  /** Two point sequences of the same length that agree point by point on
      everything but coordinates. */
  predicate SameKinds(ps: seq<Point>, qs: seq<Point>)
  {
    |ps| == |qs| && forall j :: 0 <= j < |ps| ==> SameKind(ps[j], qs[j])
  }

  /** Moved once is moved. */
  lemma MovedOnce(p: Point, delta: Vec)
    ensures p.MovedTimes(delta, 1) == p.Moved(delta)
  {
    assert p.MovedTimes(delta, 0) == p;
  }

  /** Moving `a` times and then `b` times is moving `a + b` times. */
  lemma {:induction false} MovedTimesAdds(p: Point, delta: Vec, a: nat, b: nat)
    ensures p.MovedTimes(delta, a).MovedTimes(delta, b) == p.MovedTimes(delta, a + b)
  {
    if b > 0 {
      MovedTimesAdds(p, delta, a, b - 1);
    }
  }
}

/** Deleting the selected points of a contour: `removeUISelection`.

    The contour's segments are read once, as positions into the point
    sequence at that moment (the snapshot). A segment whose on-curve is
    selected is removed whole; otherwise selected handles are trimmed. The
    segments are visited from the second-to-last down to the first, and the
    last one (which holds the contour's first point) at the very end. */
module SelectionRemoval {
  import opened Points
  import opened Contours

  /** A segment as the snapshot positions of its points: its off-curves, then
      the point that ends it. */
  type Segment = seq<nat>

  /** The arguments of one `contour.removeSegment(index, preserveShape)` call. */
  datatype SegmentRemoval = SegmentRemoval(index: nat, preserveShape: bool)

  // ---------------------------------------------------------------------------
  // The segment list `contour.segments` returns

  /** `segs` is a segment list of `pts`: at least one segment, none empty,
      positions in range and never shared, and every point of a segment but
      the last an off-curve. */
  predicate IsSegmentation(pts: seq<Point>, segs: seq<Segment>)
  {
    && |segs| > 0
    && (forall k :: 0 <= k < |segs| ==> |segs[k]| > 0)
    && (forall k, a :: 0 <= k < |segs| && 0 <= a < |segs[k]| ==> segs[k][a] < |pts|)
    && (forall k, a :: 0 <= k < |segs| && 0 <= a < |segs[k]| - 1 ==> pts[segs[k][a]].IsOffCurve())
    && (forall k1, a1, k2, a2 ::
          (&& 0 <= k1 < |segs| && 0 <= a1 < |segs[k1]| && 0 <= k2 < |segs| && 0 <= a2 < |segs[k2]|
           && segs[k1][a1] == segs[k2][a2])
          ==> k1 == k2 && a1 == a2)
  }

  /** Every point of the contour lies in some segment. */
  predicate Covers(pts: seq<Point>, segs: seq<Segment>)
  {
    forall j :: 0 <= j < |pts| ==> j in Positions(segs)
  }

  /** The positions the segments hold. */
  function Positions(segs: seq<Segment>): set<nat>
  {
    set k, a | 0 <= k < |segs| && 0 <= a < |segs[k]| :: segs[k][a]
  }

  /** The position of the point that ends segment `k`. */
  function Anchor(segs: seq<Segment>, k: nat): nat
    requires k < |segs| && |segs[k]| > 0
  {
    segs[k][|segs[k]| - 1]
  }

  /** The point that ends segment `k` is selected. */
  predicate Sel(pts: seq<Point>, segs: seq<Segment>, k: nat)
    requires IsSegmentation(pts, segs) && k < |segs|
  {
    pts[Anchor(segs, k)].selected
  }

  function Elems(seg: Segment): set<nat>
  {
    set x | x in seg
  }

  // ---------------------------------------------------------------------------
  // What one visit does to one segment

  /** The points a visit of segment `k` removes, unless it empties the
      contour: the whole segment when its on-curve is selected; otherwise the
      handle of a 2-point segment when it is selected, and both handles of a
      3-point segment when either is selected. */
  function SegGone(pts: seq<Point>, segs: seq<Segment>, k: nat): set<nat>
    requires IsSegmentation(pts, segs) && k < |segs|
  {
    var seg := segs[k];
    if Sel(pts, segs, k) then Elems(seg)
    else if |seg| == 2 && pts[seg[0]].selected then {seg[0]}
    else if |seg| == 3 && (pts[seg[0]].selected || pts[seg[1]].selected) then {seg[0], seg[1]}
    else {}
  }

  /** The on-curve a visit of segment `k` turns into a line: that of a
      3-point segment that loses its handles. */
  function SegRelined(pts: seq<Point>, segs: seq<Segment>, k: nat): set<nat>
    requires IsSegmentation(pts, segs) && k < |segs|
  {
    var seg := segs[k];
    if !Sel(pts, segs, k) && |seg| == 3 && (pts[seg[0]].selected || pts[seg[1]].selected) then {seg[2]}
    else {}
  }

  // ---------------------------------------------------------------------------
  // The walk from the second-to-last segment down to segment `lo`

  /** Removed by the visits of segments `|segs| - 2` down to `lo`. */
  function GoneFrom(pts: seq<Point>, segs: seq<Segment>, lo: nat): set<nat>
    requires IsSegmentation(pts, segs)
    decreases |segs| - lo
  {
    if lo >= |segs| - 1 then {} else SegGone(pts, segs, lo) + GoneFrom(pts, segs, lo + 1)
  }

  /** Turned into lines by the visits of segments `|segs| - 2` down to `lo`. */
  function RelinedFrom(pts: seq<Point>, segs: seq<Segment>, lo: nat): set<nat>
    requires IsSegmentation(pts, segs)
    decreases |segs| - lo
  {
    if lo >= |segs| - 1 then {} else SegRelined(pts, segs, lo) + RelinedFrom(pts, segs, lo + 1)
  }

  /** The segments among `lo .. |segs| - 2` that those visits keep in the list. */
  function KeptFrom(pts: seq<Point>, segs: seq<Segment>, lo: nat): seq<Segment>
    requires IsSegmentation(pts, segs)
    decreases |segs| - lo
  {
    if lo >= |segs| - 1 then []
    else (if Sel(pts, segs, lo) then [] else [segs[lo]]) + KeptFrom(pts, segs, lo + 1)
  }

  /** The local segment list once those visits are done. */
  function LocalFrom(pts: seq<Point>, segs: seq<Segment>, lo: nat): seq<Segment>
    requires IsSegmentation(pts, segs) && lo < |segs|
  {
    segs[..lo] + KeptFrom(pts, segs, lo) + [segs[|segs| - 1]]
  }

  /** The `removeSegment` calls those visits make, in the order made: each at
      the segment's own index, shape-preserving as asked except at index 0 of
      an open contour. */
  function CallsFrom(pts: seq<Point>, segs: seq<Segment>, open: bool, preserveShape: bool, lo: nat): seq<SegmentRemoval>
    requires IsSegmentation(pts, segs)
    decreases |segs| - lo
  {
    if lo >= |segs| - 1 then []
    else
      CallsFrom(pts, segs, open, preserveShape, lo + 1)
      + (if Sel(pts, segs, lo) then [SegmentRemoval(lo, preserveShape && !(open && lo == 0))] else [])
  }

  // ---------------------------------------------------------------------------
  // The whole call

  /** The visit of the last segment finds its on-curve selected and the list
      down to that one segment: the contour is removed from its glyph. */
  predicate EmptiesContour(pts: seq<Point>, segs: seq<Segment>)
    requires IsSegmentation(pts, segs)
  {
    Sel(pts, segs, |segs| - 1) && |LocalFrom(pts, segs, 0)| < 2
  }

  /** All points removed, when the contour is not emptied. */
  function Gone(pts: seq<Point>, segs: seq<Segment>): set<nat>
    requires IsSegmentation(pts, segs)
  {
    GoneFrom(pts, segs, 0) + SegGone(pts, segs, |segs| - 1)
  }

  /** All on-curves turned into lines, when the contour is not emptied. */
  function Relined(pts: seq<Point>, segs: seq<Segment>): set<nat>
    requires IsSegmentation(pts, segs)
  {
    RelinedFrom(pts, segs, 0) + SegRelined(pts, segs, |segs| - 1)
  }

  /** All `removeSegment` calls, when the contour is not emptied: the last
      segment is removed at the current last index, never shape-preserving on
      an open contour. */
  function Calls(pts: seq<Point>, segs: seq<Segment>, open: bool, preserveShape: bool): seq<SegmentRemoval>
    requires IsSegmentation(pts, segs)
  {
    CallsFrom(pts, segs, open, preserveShape, 0)
    + (if Sel(pts, segs, |segs| - 1)
       then [SegmentRemoval(|LocalFrom(pts, segs, 0)| - 1, preserveShape && !open)]
       else [])
  }

  // ---------------------------------------------------------------------------
  // The contour's points after some snapshot points are removed

  /** Snapshot point `o`, turned into a line if it is in `relined`. */
  function Retyped(pts: seq<Point>, relined: set<nat>, o: nat): Point
    requires o < |pts|
  {
    if o in relined then pts[o].(segmentType := Some(Line)) else pts[o]
  }

  /** The snapshot without the points in `gone`, in their order, those in
      `relined` turned into lines. */
  function Keep(pts: seq<Point>, gone: set<nat>, relined: set<nat>): seq<Point>
    decreases |pts|
  {
    if pts == [] then []
    else
      var j := |pts| - 1;
      var rest := Keep(pts[..j], gone, relined);
      if j in gone then rest else rest + [Retyped(pts, relined, j)]
  }

  /** How many snapshot points before position `o` are still there: the
      current position of snapshot point `o`. */
  function CountKept(gone: set<nat>, o: nat): nat
  {
    if o == 0 then 0 else CountKept(gone, o - 1) + (if o - 1 in gone then 0 else 1)
  }

  lemma {:induction false} KeepLength(pts: seq<Point>, gone: set<nat>, relined: set<nat>)
    ensures |Keep(pts, gone, relined)| == CountKept(gone, |pts|)
    decreases |pts|
  {
    if pts != [] {
      KeepLength(pts[..|pts| - 1], gone, relined);
    }
  }

  /** A snapshot point that is not gone is found, unchanged but for a
      relining, at its current position. */
  lemma {:induction false} KeepAt(pts: seq<Point>, gone: set<nat>, relined: set<nat>, o: nat)
    requires o < |pts| && o !in gone
    ensures CountKept(gone, o) < |Keep(pts, gone, relined)|
    ensures Keep(pts, gone, relined)[CountKept(gone, o)] == Retyped(pts, relined, o)
    decreases |pts|
  {
    var j := |pts| - 1;
    KeepLength(pts[..j], gone, relined);
    if o < j {
      KeepAt(pts[..j], gone, relined, o);
    }
  }

  /** Every point left comes from a snapshot point that is not gone. */
  lemma {:induction false} KeepFrom(pts: seq<Point>, gone: set<nat>, relined: set<nat>, i: nat)
    requires i < |Keep(pts, gone, relined)|
    ensures exists o :: 0 <= o < |pts| && o !in gone && Keep(pts, gone, relined)[i] == Retyped(pts, relined, o)
    decreases |pts|
  {
    var j := |pts| - 1;
    var rest := Keep(pts[..j], gone, relined);
    if i < |rest| {
      KeepFrom(pts[..j], gone, relined, i);
      var o :| 0 <= o < j && o !in gone && rest[i] == Retyped(pts[..j], relined, o);
      assert Keep(pts, gone, relined)[i] == Retyped(pts, relined, o);
    } else {
      assert Keep(pts, gone, relined)[i] == Retyped(pts, relined, j);
    }
  }

  /** Positions past the end of the snapshot change nothing. */
  lemma {:induction false} KeepBeyond(pts: seq<Point>, gone: set<nat>, relined: set<nat>, o: nat)
    requires o >= |pts|
    ensures Keep(pts, gone + {o}, relined) == Keep(pts, gone, relined)
    ensures Keep(pts, gone, relined + {o}) == Keep(pts, gone, relined)
    decreases |pts|
  {
    if pts != [] {
      KeepBeyond(pts[..|pts| - 1], gone, relined, o);
    }
  }

  /** Removing one more snapshot point removes it at its current position. */
  lemma {:induction false} KeepRemove(pts: seq<Point>, gone: set<nat>, relined: set<nat>, o: nat)
    requires o < |pts| && o !in gone
    ensures var k := Keep(pts, gone, relined); var r := CountKept(gone, o);
      r < |k| && Keep(pts, gone + {o}, relined) == k[..r] + k[r + 1..]
    decreases |pts|
  {
    var j := |pts| - 1;
    var rest := Keep(pts[..j], gone, relined);
    KeepLength(pts[..j], gone, relined);
    KeepAt(pts, gone, relined, o);
    if o == j {
      KeepBeyond(pts[..j], gone, relined, o);
    } else {
      KeepRemove(pts[..j], gone, relined, o);
      var r := CountKept(gone, o);
      if j !in gone {
        var x := Retyped(pts, relined, j);
        assert Keep(pts, gone, relined) == rest + [x];
        assert Keep(pts, gone + {o}, relined) == Keep(pts[..j], gone + {o}, relined) + [x];
        DropBeforeLast(rest, x, r);
      }
    }
  }

  /** Dropping an element before the appended one. */
  lemma DropBeforeLast<T>(rest: seq<T>, x: T, r: nat)
    requires r < |rest|
    ensures (rest + [x])[..r] + (rest + [x])[r + 1..] == rest[..r] + rest[r + 1..] + [x]
  {
    assert (rest + [x])[..r] == rest[..r];
    assert (rest + [x])[r + 1..] == rest[r + 1..] + [x];
  }

  /** Turning one more snapshot point into a line retypes it at its current
      position. */
  lemma {:induction false} KeepReline(pts: seq<Point>, gone: set<nat>, relined: set<nat>, o: nat)
    requires o < |pts| && o !in gone
    ensures var k := Keep(pts, gone, relined); var r := CountKept(gone, o);
      r < |k| && Keep(pts, gone, relined + {o}) == k[r := k[r].(segmentType := Some(Line))]
    decreases |pts|
  {
    var j := |pts| - 1;
    KeepLength(pts[..j], gone, relined);
    KeepAt(pts, gone, relined, o);
    if o == j {
      KeepBeyond(pts[..j], gone, relined, o);
    } else {
      KeepReline(pts[..j], gone, relined, o);
    }
  }

  /** Nothing removed and nothing retyped is the snapshot itself. */
  lemma {:induction false} KeepAll(pts: seq<Point>)
    ensures Keep(pts, {}, {}) == pts
    decreases |pts|
  {
    if pts != [] {
      KeepAll(pts[..|pts| - 1]);
    }
  }

  // ---------------------------------------------------------------------------
  // Facts about the walk

  /** A position of segment `k2` that lies in segment `k1` belongs to no
      other segment: `k1 == k2`. */
  lemma Owner(pts: seq<Point>, segs: seq<Segment>, k1: nat, k2: nat, a2: nat)
    requires IsSegmentation(pts, segs) && k1 < |segs| && k2 < |segs| && a2 < |segs[k2]|
    requires segs[k2][a2] in Elems(segs[k1])
    ensures k1 == k2
  {
    var a1 :| 0 <= a1 < |segs[k1]| && segs[k1][a1] == segs[k2][a2];
  }

  /** What a visit removes or relines lies in the visited segment. */
  lemma SegChangesWithin(pts: seq<Point>, segs: seq<Segment>, k: nat)
    requires IsSegmentation(pts, segs) && k < |segs|
    ensures SegGone(pts, segs, k) <= Elems(segs[k])
    ensures SegRelined(pts, segs, k) <= Elems(segs[k])
  {
  }

  /** A point of segment `k` is removed by the visits down to `lo` exactly
      when segment `k` is among them and its own visit removes it. */
  lemma {:induction false} GoneFromOwner(pts: seq<Point>, segs: seq<Segment>, lo: nat, k: nat, a: nat)
    requires IsSegmentation(pts, segs) && k < |segs| && a < |segs[k]|
    ensures segs[k][a] in GoneFrom(pts, segs, lo) <==> lo <= k < |segs| - 1 && segs[k][a] in SegGone(pts, segs, k)
    decreases |segs| - lo
  {
    if lo < |segs| - 1 {
      GoneFromOwner(pts, segs, lo + 1, k, a);
      SegChangesWithin(pts, segs, lo);
      if segs[k][a] in SegGone(pts, segs, lo) {
        Owner(pts, segs, lo, k, a);
      }
    }
  }

  /** A point of segment `k` is made a line by the visits down to `lo`
      exactly when segment `k` is among them and its own visit does so. */
  lemma {:induction false} RelinedFromOwner(pts: seq<Point>, segs: seq<Segment>, lo: nat, k: nat, a: nat)
    requires IsSegmentation(pts, segs) && k < |segs| && a < |segs[k]|
    ensures segs[k][a] in RelinedFrom(pts, segs, lo) <==> lo <= k < |segs| - 1 && segs[k][a] in SegRelined(pts, segs, k)
    decreases |segs| - lo
  {
    if lo < |segs| - 1 {
      RelinedFromOwner(pts, segs, lo + 1, k, a);
      SegChangesWithin(pts, segs, lo);
      if segs[k][a] in SegRelined(pts, segs, lo) {
        Owner(pts, segs, lo, k, a);
      }
    }
  }

  /** The segment the walk visits after segment `lo` (segment `lo - 1`, or
      the last one) has none of its points removed yet. */
  lemma NotYetGone(pts: seq<Point>, segs: seq<Segment>, lo: nat, k: nat)
    requires IsSegmentation(pts, segs) && k < |segs| && (k < lo || k == |segs| - 1)
    ensures forall a :: 0 <= a < |segs[k]| ==> segs[k][a] !in GoneFrom(pts, segs, lo)
  {
    forall a | 0 <= a < |segs[k]| ensures segs[k][a] !in GoneFrom(pts, segs, lo) {
      GoneFromOwner(pts, segs, lo, k, a);
    }
  }

  /** Each removal drops exactly one segment from the list. */
  lemma {:induction false} ListShrinksPerRemoval(pts: seq<Point>, segs: seq<Segment>, open: bool, p: bool, lo: nat)
    requires IsSegmentation(pts, segs) && lo < |segs|
    ensures |LocalFrom(pts, segs, lo)| + |CallsFrom(pts, segs, open, p, lo)| == |segs|
    decreases |segs| - lo
  {
    if lo < |segs| - 1 {
      ListShrinksPerRemoval(pts, segs, open, p, lo + 1);
    }
  }

  /** Visiting segment `k` below the second-to-last: the list still holds it
      at index `k`, holds at least one more segment after it, and loses it
      exactly when its on-curve is selected. */
  lemma LocalStep(pts: seq<Point>, segs: seq<Segment>, k: nat)
    requires IsSegmentation(pts, segs) && k < |segs| - 1
    ensures var local := LocalFrom(pts, segs, k + 1);
      && |local| >= k + 2
      && local[k] == segs[k]
      && LocalFrom(pts, segs, k) == if Sel(pts, segs, k) then local[..k] + local[k + 1..] else local
  {
    DropAt(segs, k, KeptFrom(pts, segs, k + 1), [segs[|segs| - 1]]);
  }

  /** A prefix through index `k`, followed by more: element `k` sits at
      index `k`, and dropping it leaves the shorter prefix followed by the
      same. */
  lemma DropAt<T>(a: seq<T>, k: nat, rest: seq<T>, last: seq<T>)
    requires k < |a|
    ensures var local := a[..k + 1] + rest + last;
      && |local| == k + 1 + |rest| + |last|
      && local[k] == a[k]
      && local[..k] + local[k + 1..] == a[..k] + rest + last
      && local == a[..k] + ([a[k]] + rest) + last
  {
    var local := a[..k + 1] + rest + last;
    assert a[..k + 1] == a[..k] + [a[k]];
    assert local[..k] == a[..k];
    assert local[k + 1..] == rest + last;
  }

  /** Only the last segment equals the last segment. */
  lemma SegmentsDiffer(pts: seq<Point>, segs: seq<Segment>, k: nat)
    requires IsSegmentation(pts, segs) && k < |segs| - 1
    ensures segs[k] != segs[|segs| - 1]
  {
    assert segs[k][0] != segs[|segs| - 1][0];
  }

  /** The state `removeUISelection` has reached once it has visited segments
      `|segs| - 2` down to `lo`. */
  ghost predicate Visited(pts: seq<Point>, segs: seq<Segment>, open: bool, p: bool, lo: nat,
                          segments: seq<Segment>, gone: set<nat>, relined: set<nat>,
                          calls: seq<SegmentRemoval>, preserveShape: bool)
    requires IsSegmentation(pts, segs) && lo < |segs|
  {
    && segments == LocalFrom(pts, segs, lo)
    && gone == GoneFrom(pts, segs, lo)
    && relined == RelinedFrom(pts, segs, lo)
    && calls == CallsFrom(pts, segs, open, p, lo)
    && preserveShape == (p && !(open && lo == 0 && |segs| >= 2 && Sel(pts, segs, 0)))
  }

  // ---------------------------------------------------------------------------
  // The visit order

  /** `list(enumerate(segments))`. */
  function Enumerate(segs: seq<Segment>): seq<(nat, Segment)>
  {
    seq(|segs|, k requires 0 <= k < |segs| => (k, segs[k]))
  }

  /** `toIter.insert(0, toIter.pop())`. */
  function RotateLastToFront(xs: seq<(nat, Segment)>): seq<(nat, Segment)>
    requires |xs| > 0
  {
    [xs[|xs| - 1]] + xs[..|xs| - 1]
  }

  /** Walking the rotated enumeration backwards visits indices
      `|segs| - 2` down to 0, each with its segment, and then the last
      segment with its own index. */
  lemma VisitOrder(segs: seq<Segment>)
    requires |segs| > 0
    ensures var toIter := RotateLastToFront(Enumerate(segs)); var m := |segs|;
      && |toIter| == m
      && (forall v :: 1 <= v < m ==> toIter[v] == (v - 1, segs[v - 1]))
      && toIter[0] == (m - 1, segs[m - 1])
  {
  }

  /** Position `t` of the walk holds segment `t - 1` at its own index, or at
      `t == 0` the last segment, and only there the last segment. */
  lemma VisitTarget(pts: seq<Point>, segs: seq<Segment>, t: nat)
    requires IsSegmentation(pts, segs) && t < |segs|
    ensures var (index, segment) := RotateLastToFront(Enumerate(segs))[t];
      && segment == segs[if t > 0 then t - 1 else |segs| - 1]
      && (t > 0 ==> index == t - 1)
      && (segment == segs[|segs| - 1] <==> t == 0)
  {
    VisitOrder(segs);
    if t > 0 {
      SegmentsDiffer(pts, segs, t - 1);
    }
  }

  // ---------------------------------------------------------------------------
  // Point removal primitives, by snapshot position

  /** The effect of `contour.removeSegment` on the point sequence: the
      segment's points are removed. */
  method RemoveSegmentPoints(c: Contour, pts: seq<Point>, gone: set<nat>, ghost relined: set<nat>, seg: Segment)
    returns (gone': set<nat>)
    requires c.points == Keep(pts, gone, relined)
    requires forall a :: 0 <= a < |seg| ==> seg[a] < |pts| && seg[a] !in gone
    requires forall a, b :: 0 <= a < b < |seg| ==> seg[a] != seg[b]
    modifies c
    ensures gone' == gone + Elems(seg)
    ensures c.points == Keep(pts, gone', relined)
    ensures c.open == old(c.open) && c.dirty == old(c.dirty) && c.inGlyph == old(c.inGlyph)
  {
    gone' := gone;
    for a := 0 to |seg|
      invariant gone' == gone + Elems(seg[..a])
      invariant c.points == Keep(pts, gone', relined)
      invariant c.open == old(c.open) && c.dirty == old(c.dirty) && c.inGlyph == old(c.inGlyph)
    {
      assert seg[a] !in Elems(seg[..a]);
      KeepRemove(pts, gone', relined, seg[a]);
      c.RemovePointAt(CountKept(gone', seg[a]));
      gone' := gone' + {seg[a]};
      assert Elems(seg[..a + 1]) == Elems(seg[..a]) + {seg[a]} by {
        assert seg[..a + 1] == seg[..a] + [seg[a]];
      }
    }
    assert seg[..|seg|] == seg;
  }

  /** `contour.removePoint(point)` for snapshot point `o`. */
  method RemoveSnapshotPoint(c: Contour, pts: seq<Point>, gone: set<nat>, ghost relined: set<nat>, o: nat)
    returns (gone': set<nat>)
    requires c.points == Keep(pts, gone, relined) && o < |pts| && o !in gone
    modifies c
    ensures gone' == gone + {o}
    ensures c.points == Keep(pts, gone', relined)
    ensures c.open == old(c.open) && c.dirty == old(c.dirty) && c.inGlyph == old(c.inGlyph)
  {
    KeepRemove(pts, gone, relined, o);
    c.RemovePointAt(CountKept(gone, o));
    gone' := gone + {o};
  }

  /** The 3-point branch: if either handle is selected, remove both and make
      the on-curve a line. */
  method TrimHandles(c: Contour, pts: seq<Point>, gone: set<nat>, ghost relined: set<nat>, seg: Segment)
    returns (gone': set<nat>, ghost relined': set<nat>)
    requires c.points == Keep(pts, gone, relined)
    requires |seg| == 3 && forall a :: 0 <= a < 3 ==> seg[a] < |pts| && seg[a] !in gone
    requires seg[0] != seg[1] && seg[1] != seg[2] && seg[0] != seg[2]
    modifies c
    ensures if pts[seg[0]].selected || pts[seg[1]].selected
            then gone' == gone + {seg[0], seg[1]} && relined' == relined + {seg[2]}
            else gone' == gone && relined' == relined
    ensures c.points == Keep(pts, gone', relined')
    ensures c.open == old(c.open) && c.dirty == old(c.dirty) && c.inGlyph == old(c.inGlyph)
  {
    gone', relined' := gone, relined;
    var i := 0;
    while i < 2
      invariant 0 <= i <= 2
      invariant forall h :: 0 <= h < i ==> !pts[seg[h]].selected
      invariant gone' == gone && relined' == relined
      invariant c.points == Keep(pts, gone', relined')
      invariant c.open == old(c.open) && c.dirty == old(c.dirty) && c.inGlyph == old(c.inGlyph)
    {
      if pts[seg[i]].selected {
        gone' := RemoveSnapshotPoint(c, pts, gone', relined', seg[0]);
        gone' := RemoveSnapshotPoint(c, pts, gone', relined', seg[1]);
        KeepReline(pts, gone', relined', seg[2]);
        c.SetLineAt(CountKept(gone', seg[2]));
        relined' := relined' + {seg[2]};
        return;
      }
      i := i + 1;
    }
  }

  // ---------------------------------------------------------------------------
  // removeUISelection

  /** One pass of the loop body: the visit of segment `k` (held in the list
      at `index`). It either removes the contour from its glyph (`removed`),
      or removes and relines what `SegGone` and `SegRelined` say and, when the
      on-curve is selected, records the `removeSegment` call and drops the
      segment from the list. */
  method VisitSegment(c: Contour, snapshot: seq<Point>, ghost segs: seq<Segment>, ghost k: nat,
                      index: nat, segment: Segment, segments: seq<Segment>,
                      gone: set<nat>, ghost relined: set<nat>, calls: seq<SegmentRemoval>, preserveShape: bool)
    returns (removed: bool, segments': seq<Segment>, gone': set<nat>, ghost relined': set<nat>,
             calls': seq<SegmentRemoval>, preserveShape': bool)
    requires IsSegmentation(snapshot, segs) && k < |segs| && segment == segs[k]
    requires index < |segments|
    requires forall a :: 0 <= a < |segment| ==> segment[a] !in gone
    requires c.points == Keep(snapshot, gone, relined)
    modifies c
    ensures removed <==> Sel(snapshot, segs, k) && |segments| < 2
    ensures removed ==> !c.inGlyph && c.points == old(c.points) && calls' == calls
    ensures !removed ==>
      && c.inGlyph == old(c.inGlyph)
      && gone' == gone + SegGone(snapshot, segs, k)
      && relined' == relined + SegRelined(snapshot, segs, k)
      && c.points == Keep(snapshot, gone', relined')
      && if Sel(snapshot, segs, k) then
           && preserveShape' == (preserveShape && !(c.open && (index == 0 || index == |segments| - 1)))
           && calls' == calls + [SegmentRemoval(index, preserveShape')]
           && segments' == segments[..index] + segments[index + 1..]
         else
           preserveShape' == preserveShape && calls' == calls && segments' == segments
    ensures c.open == old(c.open) && c.dirty == old(c.dirty)
  {
    removed, segments', gone', relined', calls', preserveShape' := false, segments, gone, relined, calls, preserveShape;
    if snapshot[segment[|segment| - 1]].selected {
      // a selected on-curve takes its whole segment with it
      if |segments| < 2 {
        c.RemoveFromGlyph();
        removed := true;
        return;
      }
      // no shape-preserving removal at the ends of an open contour
      if preserveShape && c.open {
        if index == 0 || index == |segments| - 1 {
          preserveShape' := false;
        }
      }
      calls' := calls + [SegmentRemoval(index, preserveShape')];
      gone' := RemoveSegmentPoints(c, snapshot, gone, relined, segment);
      segments' := segments[..index] + segments[index + 1..];
    } else if |segment| == 2 {
      // a 2-point segment loses its selected handle
      var offCurve := segment[0];
      if snapshot[offCurve].selected {
        assert snapshot[offCurve].IsOffCurve();
        gone' := RemoveSnapshotPoint(c, snapshot, gone, relined, offCurve);
      }
    } else if |segment| == 3 {
      // a 3-point segment loses both handles and becomes a line
      gone', relined' := TrimHandles(c, snapshot, gone, relined, segment);
    }
  }

  /** The segment visited at position `t` of the walk. */
  function VisitedSegment(segs: seq<Segment>, t: nat): nat
    requires t < |segs|
  {
    if t > 0 then t - 1 else |segs| - 1
  }

  /** The visit of segment `k < |segs| - 1`, done as `VisitSegment` says,
      takes the walk's state from `k + 1` to `k`. */
  lemma MiddleVisit(pts: seq<Point>, segs: seq<Segment>, open: bool, p: bool, k: nat,
                    segments: seq<Segment>, gone: set<nat>, relined: set<nat>, calls: seq<SegmentRemoval>, ps: bool,
                    segments': seq<Segment>, gone': set<nat>, relined': set<nat>, calls': seq<SegmentRemoval>, ps': bool)
    requires IsSegmentation(pts, segs) && k < |segs| - 1
    requires Visited(pts, segs, open, p, k + 1, segments, gone, relined, calls, ps)
    requires gone' == gone + SegGone(pts, segs, k) && relined' == relined + SegRelined(pts, segs, k)
    requires if Sel(pts, segs, k) then
               && ps' == (ps && !(open && (k == 0 || k == |segments| - 1)))
               && calls' == calls + [SegmentRemoval(k, ps')]
               && segments' == segments[..k] + segments[k + 1..]
             else
               ps' == ps && calls' == calls && segments' == segments
    ensures Visited(pts, segs, open, p, k, segments', gone', relined', calls', ps')
  {
    LocalStep(pts, segs, k);
  }

  /** The visit of the last segment, done as `VisitSegment` says, completes
      the walk. */
  lemma LastVisit(pts: seq<Point>, segs: seq<Segment>, open: bool, p: bool,
                  segments: seq<Segment>, gone: set<nat>, relined: set<nat>, calls: seq<SegmentRemoval>, ps: bool,
                  gone': set<nat>, relined': set<nat>, calls': seq<SegmentRemoval>, ps': bool)
    requires IsSegmentation(pts, segs)
    requires Visited(pts, segs, open, p, 0, segments, gone, relined, calls, ps)
    requires !EmptiesContour(pts, segs)
    requires gone' == gone + SegGone(pts, segs, |segs| - 1) && relined' == relined + SegRelined(pts, segs, |segs| - 1)
    requires var index := |segments| - 1;
             if Sel(pts, segs, |segs| - 1) then
               && ps' == (ps && !(open && (index == 0 || index == |segments| - 1)))
               && calls' == calls + [SegmentRemoval(index, ps')]
             else
               calls' == calls
    ensures gone' == Gone(pts, segs) && relined' == Relined(pts, segs) && calls' == Calls(pts, segs, open, p)
  {
  }

  /** The state of the walk once positions `t` and beyond of the rotated
      enumeration are visited: segments `t - 1 .. |segs| - 2`, and at
      `t == 0` the last one too. */
  ghost predicate WalkState(pts: seq<Point>, segs: seq<Segment>, open: bool, p: bool, t: nat,
                            segments: seq<Segment>, gone: set<nat>, relined: set<nat>,
                            calls: seq<SegmentRemoval>, ps: bool)
    requires IsSegmentation(pts, segs) && t <= |segs|
  {
    if t >= 1 then
      Visited(pts, segs, open, p, t - 1, segments, gone, relined, calls, ps)
    else
      && !EmptiesContour(pts, segs)
      && gone == Gone(pts, segs) && relined == Relined(pts, segs)
      && calls == Calls(pts, segs, open, p)
  }

  /** Before the visit at position `t`: the segment's index is in the list
      and none of its points is removed yet. */
  lemma BeforeVisit(pts: seq<Point>, segs: seq<Segment>, open: bool, p: bool, t: nat,
                    segments: seq<Segment>, gone: set<nat>, relined: set<nat>, calls: seq<SegmentRemoval>, ps: bool)
    requires IsSegmentation(pts, segs) && t < |segs|
    requires WalkState(pts, segs, open, p, t + 1, segments, gone, relined, calls, ps)
    ensures 0 < |segments| && (t > 0 ==> t <= |segments|)
    ensures var k := VisitedSegment(segs, t); forall a :: 0 <= a < |segs[k]| ==> segs[k][a] !in gone
  {
    if t > 0 {
      LocalStep(pts, segs, t - 1);
    }
    NotYetGone(pts, segs, t, VisitedSegment(segs, t));
  }

  /** The visit at position `t`, done as `VisitAt` says, either empties the
      contour (only at the last segment) or takes the walk one position on. */
  lemma AfterVisit(pts: seq<Point>, segs: seq<Segment>, open: bool, p: bool, t: nat,
                   segments: seq<Segment>, gone: set<nat>, relined: set<nat>, calls: seq<SegmentRemoval>, ps: bool,
                   index: nat, removed: bool,
                   segments': seq<Segment>, gone': set<nat>, relined': set<nat>, calls': seq<SegmentRemoval>, ps': bool)
    requires IsSegmentation(pts, segs) && t < |segs|
    requires WalkState(pts, segs, open, p, t + 1, segments, gone, relined, calls, ps)
    requires index == if t > 0 then t - 1 else |segments| - 1
    requires var k := VisitedSegment(segs, t);
      && (removed <==> Sel(pts, segs, k) && |segments| < 2)
      && (removed ==> calls' == calls)
      && (!removed ==>
            && gone' == gone + SegGone(pts, segs, k)
            && relined' == relined + SegRelined(pts, segs, k)
            && if Sel(pts, segs, k) then
                 && ps' == (ps && !(open && (index == 0 || index == |segments| - 1)))
                 && calls' == calls + [SegmentRemoval(index, ps')]
                 && segments' == segments[..index] + segments[index + 1..]
               else
                 ps' == ps && calls' == calls && segments' == segments)
    ensures removed ==> t == 0 && EmptiesContour(pts, segs) && calls' == CallsFrom(pts, segs, open, p, 0)
    ensures !removed ==> WalkState(pts, segs, open, p, t, segments', gone', relined', calls', ps')
  {
    assert Visited(pts, segs, open, p, t, segments, gone, relined, calls, ps);
    if t > 0 {
      LocalStep(pts, segs, t - 1);
      if !removed {
        MiddleVisit(pts, segs, open, p, t - 1, segments, gone, relined, calls, ps, segments', gone', relined', calls', ps');
      }
    } else if !removed {
      LastVisit(pts, segs, open, p, segments, gone, relined, calls, ps, gone', relined', calls', ps');
    }
  }

  /** The loop body of `removeUISelection` at position `t` of the rotated
      enumeration: it finds the segment and its index in the list, visits it
      as `VisitSegment` says, and so either empties the contour (only at the
      last segment) or takes the walk one position on. */
  method VisitAt(c: Contour, snapshot: seq<Point>, ghost segs: seq<Segment>, ghost open: bool, ghost p: bool,
                 toIter: seq<(nat, Segment)>, toFirstPoint: Segment, t: nat,
                 segments: seq<Segment>, gone: set<nat>, ghost relined: set<nat>, calls: seq<SegmentRemoval>, preserveShape: bool)
    returns (removed: bool, segments': seq<Segment>, gone': set<nat>, ghost relined': set<nat>,
             calls': seq<SegmentRemoval>, preserveShape': bool)
    requires IsSegmentation(snapshot, segs) && t < |segs|
    requires toIter == RotateLastToFront(Enumerate(segs)) && toFirstPoint == segs[|segs| - 1]
    requires WalkState(snapshot, segs, open, p, t + 1, segments, gone, relined, calls, preserveShape)
    requires c.points == Keep(snapshot, gone, relined) && c.open == open
    modifies c
    ensures removed ==> t == 0 && EmptiesContour(snapshot, segs) && !c.inGlyph && c.points == old(c.points)
                        && calls' == CallsFrom(snapshot, segs, open, p, 0)
    ensures !removed ==>
      && c.inGlyph == old(c.inGlyph)
      && c.points == Keep(snapshot, gone', relined')
      && WalkState(snapshot, segs, open, p, t, segments', gone', relined', calls', preserveShape')
    ensures c.open == old(c.open) && c.dirty == old(c.dirty)
  {
    BeforeVisit(snapshot, segs, open, p, t, segments, gone, relined, calls, preserveShape);
    VisitTarget(snapshot, segs, t);
    var (index0, segment) := toIter[t];
    var index := index0;
    if segment == toFirstPoint {
      index := |segments| - 1;
    }
    removed, segments', gone', relined', calls', preserveShape' :=
      VisitSegment(c, snapshot, segs, VisitedSegment(segs, t), index, segment, segments, gone, relined, calls, preserveShape);
    AfterVisit(snapshot, segs, open, p, t, segments, gone, relined, calls, preserveShape,
               index, removed, segments', gone', relined', calls', preserveShape');
  }

  /** `removeUISelection(contour, preserveShape)`, given the segment list
      `contour.segments` returns; the result lists the `removeSegment` calls
      made. */
  method RemoveUISelection(c: Contour, segs: seq<Segment>, preserveShape0: bool) returns (calls: seq<SegmentRemoval>)
    requires IsSegmentation(c.points, segs)
    modifies c
    ensures var pts := old(c.points);
      if EmptiesContour(pts, segs) then
        && !c.inGlyph
        && c.points == Keep(pts, GoneFrom(pts, segs, 0), RelinedFrom(pts, segs, 0))
        && calls == CallsFrom(pts, segs, c.open, preserveShape0, 0)
      else
        && c.inGlyph == old(c.inGlyph)
        && c.points == Keep(pts, Gone(pts, segs), Relined(pts, segs))
        && calls == Calls(pts, segs, c.open, preserveShape0)
    ensures c.open == old(c.open) && c.dirty == old(c.dirty)
  {
    var snapshot := c.points;
    ghost var open := c.open;
    var segments := segs;
    // the last segment holds the first point: it is visited last, so that
    // removing the others does not shift its index
    var toFirstPoint := segments[|segments| - 1];
    var toIter := RotateLastToFront(Enumerate(segments));
    var preserveShape := preserveShape0;
    var gone: set<nat> := {};
    ghost var relined: set<nat> := {};
    KeepAll(snapshot);
    calls := [];
    var t := |toIter|;
    while t > 0
      invariant 0 <= t <= |segs|
      invariant c.points == Keep(snapshot, gone, relined)
      invariant c.open == open && c.dirty == old(c.dirty) && c.inGlyph == old(c.inGlyph)
      invariant WalkState(snapshot, segs, open, preserveShape0, t, segments, gone, relined, calls, preserveShape)
    {
      t := t - 1;
      var removed;
      removed, segments, gone, relined, calls, preserveShape :=
        VisitAt(c, snapshot, segs, open, preserveShape0, toIter, toFirstPoint, t,
                segments, gone, relined, calls, preserveShape);
      if removed {
        return;
      }
    }
  }

  // ---------------------------------------------------------------------------
  // Properties of removeUISelection

  lemma {:induction false} KeptNone(pts: seq<Point>, segs: seq<Segment>, lo: nat)
    requires IsSegmentation(pts, segs)
    ensures KeptFrom(pts, segs, lo) == [] <==> forall k :: lo <= k < |segs| - 1 ==> Sel(pts, segs, k)
    decreases |segs| - lo
  {
    if lo < |segs| - 1 {
      KeptNone(pts, segs, lo + 1);
      if !Sel(pts, segs, lo) {
        assert KeptFrom(pts, segs, lo)[0] == segs[lo];
      }
    }
  }

  /** The contour is removed from its glyph exactly when the on-curve of every
      segment is selected. */
  lemma EmptiedIffAllAnchorsSelected(pts: seq<Point>, segs: seq<Segment>)
    requires IsSegmentation(pts, segs)
    ensures EmptiesContour(pts, segs) <==> forall k :: 0 <= k < |segs| ==> Sel(pts, segs, k)
  {
    KeptNone(pts, segs, 0);
  }

  /** The calls the walk down to `lo` makes: fewer than the segments it
      visits, each at an index in `[lo, |segs| - 2 - j]` (`j` counting earlier
      calls), indices strictly decreasing, and shape-preserving as asked except
      at index 0 of an open contour. */
  lemma {:induction false} CallsFromShape(pts: seq<Point>, segs: seq<Segment>, open: bool, p: bool, lo: nat)
    requires IsSegmentation(pts, segs) && lo < |segs|
    ensures var calls := CallsFrom(pts, segs, open, p, lo);
      && |calls| <= |segs| - 1 - lo
      && (forall j :: 0 <= j < |calls| ==>
            && lo <= calls[j].index <= |segs| - 2 - j
            && calls[j].preserveShape == (p && !(open && calls[j].index == 0)))
      && (forall i, j :: 0 <= i < j < |calls| ==> calls[i].index > calls[j].index)
    decreases |segs| - lo
  {
    if lo < |segs| - 1 {
      CallsFromShape(pts, segs, open, p, lo + 1);
    }
  }

  /** Every `removeSegment` call is at an index that is in range for the list
      as it stands when the call is made (the list has lost one segment per
      earlier call), never shape-preserving at either end of an open contour
      and otherwise as asked; the calls before the last segment's go from
      the back of the list to the front, so none shifts a later one. */
  lemma RemovalCallsInRange(pts: seq<Point>, segs: seq<Segment>, open: bool, p: bool)
    requires IsSegmentation(pts, segs)
    ensures var calls := if EmptiesContour(pts, segs) then CallsFrom(pts, segs, open, p, 0) else Calls(pts, segs, open, p);
      && (forall j :: 0 <= j < |calls| ==>
            && calls[j].index < |segs| - j
            && calls[j].preserveShape == (p && !(open && (calls[j].index == 0 || calls[j].index == |segs| - j - 1))))
      && (forall i, j :: 0 <= i < j < |CallsFrom(pts, segs, open, p, 0)| ==>
            CallsFrom(pts, segs, open, p, 0)[i].index > CallsFrom(pts, segs, open, p, 0)[j].index)
  {
    CallsFromShape(pts, segs, open, p, 0);
    ListShrinksPerRemoval(pts, segs, open, p, 0);
  }

  /** Unless the contour is removed, what happens to a point is decided by its
      own segment alone: it is removed (made a line) exactly when the visit
      of its segment removes it (makes it a line). */
  lemma SegmentFate(pts: seq<Point>, segs: seq<Segment>, k: nat, a: nat)
    requires IsSegmentation(pts, segs) && k < |segs| && a < |segs[k]|
    ensures segs[k][a] in Gone(pts, segs) <==> segs[k][a] in SegGone(pts, segs, k)
    ensures segs[k][a] in Relined(pts, segs) <==> segs[k][a] in SegRelined(pts, segs, k)
  {
    GoneFromOwner(pts, segs, 0, k, a);
    RelinedFromOwner(pts, segs, 0, k, a);
    LastSegmentOwns(pts, segs, k, a);
  }

  /** The last segment's visit changes only its own points. */
  lemma LastSegmentOwns(pts: seq<Point>, segs: seq<Segment>, k: nat, a: nat)
    requires IsSegmentation(pts, segs) && k < |segs| && a < |segs[k]|
    ensures segs[k][a] in SegGone(pts, segs, |segs| - 1) ==> k == |segs| - 1
    ensures segs[k][a] in SegRelined(pts, segs, |segs| - 1) ==> k == |segs| - 1
  {
    SegChangesWithin(pts, segs, |segs| - 1);
    if segs[k][a] in Elems(segs[|segs| - 1]) {
      Owner(pts, segs, |segs| - 1, k, a);
    }
  }

  lemma {:induction false} NoneSelectedFrom(pts: seq<Point>, segs: seq<Segment>, open: bool, p: bool, lo: nat)
    requires IsSegmentation(pts, segs)
    requires forall k, a :: 0 <= k < |segs| && 0 <= a < |segs[k]| ==> !pts[segs[k][a]].selected
    ensures GoneFrom(pts, segs, lo) == {} && RelinedFrom(pts, segs, lo) == {} && CallsFrom(pts, segs, open, p, lo) == []
    decreases |segs| - lo
  {
    if lo < |segs| - 1 {
      NoneSelectedFrom(pts, segs, open, p, lo + 1);
      assert !pts[segs[lo][0]].selected;
    }
  }

  /** With nothing selected, nothing happens: no point is removed or
      retyped, no `removeSegment` call is made, the contour stays. */
  lemma NothingSelectedNoChange(pts: seq<Point>, segs: seq<Segment>, open: bool, p: bool)
    requires IsSegmentation(pts, segs)
    requires forall k, a :: 0 <= k < |segs| && 0 <= a < |segs[k]| ==> !pts[segs[k][a]].selected
    ensures !EmptiesContour(pts, segs)
    ensures Keep(pts, Gone(pts, segs), Relined(pts, segs)) == pts
    ensures Calls(pts, segs, open, p) == []
  {
    NoneSelectedFrom(pts, segs, open, p, 0);
    var last := |segs| - 1;
    assert !pts[segs[last][0]].selected;
    assert Gone(pts, segs) == {} && Relined(pts, segs) == {};
    KeepAll(pts);
  }

  /** A point left behind by the visit of its segment is not selected, when
      the segment has at most two handles. */
  lemma SurvivorUnselected(pts: seq<Point>, segs: seq<Segment>, k: nat, a: nat)
    requires IsSegmentation(pts, segs) && k < |segs| && a < |segs[k]| && |segs[k]| <= 3
    requires segs[k][a] !in SegGone(pts, segs, k)
    ensures !pts[segs[k][a]].selected
  {
    if a < |segs[k]| - 1 && !Sel(pts, segs, k) {
      assert a == 0 || a == 1;
    }
  }

  /** When every point lies in a segment of at most two handles and the
      contour is not removed, no point left is selected. */
  lemma SelectionCleared(pts: seq<Point>, segs: seq<Segment>)
    requires IsSegmentation(pts, segs) && Covers(pts, segs)
    requires forall k :: 0 <= k < |segs| ==> |segs[k]| <= 3
    requires !EmptiesContour(pts, segs)
    ensures var left := Keep(pts, Gone(pts, segs), Relined(pts, segs));
      forall i :: 0 <= i < |left| ==> !left[i].selected
  {
    var gone, relined := Gone(pts, segs), Relined(pts, segs);
    var left := Keep(pts, gone, relined);
    forall i | 0 <= i < |left| ensures !left[i].selected {
      KeepFrom(pts, gone, relined, i);
      var o :| 0 <= o < |pts| && o !in gone && left[i] == Retyped(pts, relined, o);
      assert o in Positions(segs);
      var k, a :| 0 <= k < |segs| && 0 <= a < |segs[k]| && segs[k][a] == o;
      SegmentFate(pts, segs, k, a);
      SurvivorUnselected(pts, segs, k, a);
    }
  }
}

/** A contour: a circular sequence of points with an open/closed flag, the
    dirty flag the editing rules raise, and whether it still belongs to its
    glyph. */
module Contours {
  import opened Points

  /** Circular index arithmetic, as `contour.getPoint` does it: the index
      brought into `[0, n)` by whole turns (Python's `i % n` for `n > 0`,
      see WrapIsMod). */
  function Wrap(i: int, n: nat): (r: nat)
    requires n > 0
    ensures r < n
    decreases if i < 0 then 1 else 0, if i < 0 then -i else i
  {
    if i < 0 then Wrap(i + n, n) else if i >= n then Wrap(i - n, n) else i
  }

  /** Wrap is the remainder that Python's `%` computes for `n > 0` (never
      negative, like Dafny's), for every index. */
  lemma {:induction false} WrapIsMod(i: int, n: nat)
    requires n > 0
    ensures Wrap(i, n) == i % n
    decreases if i < 0 then 1 else 0, if i < 0 then -i else i
  {
    if i < 0 {
      WrapIsMod(i + n, n);
      ModShift(i, n);
    } else if i >= n {
      WrapIsMod(i - n, n);
      ModShift(i - n, n);
    } else {
      ModUnique(i, 0, i, n);
    }
  }

  /** Indices a whole turn apart leave the same remainder. */
  lemma ModShift(x: int, n: int)
    requires n > 0
    ensures (x + n) % n == x % n
  {
    var q, r := x / n, x % n;
    assert x + n == (q + 1) * n + r;
    ModUnique(x + n, q + 1, r, n);
  }

  /** The remainder is the unique `r` in `[0, n)` with `a == q * n + r`. */
  lemma ModUnique(a: int, q: int, r: int, n: int)
    requires n > 0 && 0 <= r < n && a == q * n + r
    ensures a % n == r
  {
    var q', r' := a / n, a % n;
    assert q * n + r == q' * n + r';
    WholeTurns(q - q', n, r' - r);
  }

  /** A multiple of `n` strictly between `-n` and `n` is zero. */
  lemma WholeTurns(d: int, n: int, m: int)
    requires n > 0 && -n < m < n && m == d * n
    ensures d == 0
  {
    if d > 0 {
      AtLeastOneTurn(d, n);
    } else if d < 0 {
      AtLeastOneTurn(-d, n);
    }
  }

  /** One or more whole turns cover at least one turn. */
  lemma {:induction false} AtLeastOneTurn(d: int, n: int)
    requires d >= 1 && n > 0
    ensures d * n >= n
    decreases d
  {
    if d > 1 {
      AtLeastOneTurn(d - 1, n);
      assert d * n == (d - 1) * n + n;
    }
  }

  /** Circular neighbours of position `i` in a contour of `n >= 3` points. */
  lemma Neighbours(i: int, n: nat)
    requires 0 <= i < n && n >= 3
    ensures Wrap(i - 1, n) == (if i == 0 then n - 1 else i - 1)
    ensures Wrap(i + 1, n) == (if i == n - 1 then 0 else i + 1)
    ensures Wrap(i - 2, n) == (if i >= 2 then i - 2 else i - 2 + n)
    ensures Wrap(i + 2, n) == (if i + 2 < n then i + 2 else i + 2 - n)
  {
  }

  /** Wrap sees the index only up to whole turns. */
  lemma WrapPeriodic(x: int, n: nat)
    requires n > 0
    ensures Wrap(x + n, n) == Wrap(x, n)
  {
  }

  /** Stepping from a wrapped index is stepping from the index itself. */
  lemma {:induction false} WrapAdd(a: int, b: int, n: nat)
    requires n > 0
    ensures Wrap(Wrap(a, n) + b, n) == Wrap(a + b, n)
    decreases if a < 0 then 1 else 0, if a < 0 then -a else a
  {
    if a < 0 {
      WrapAdd(a + n, b, n);
      WrapPeriodic(a + b, n);
    } else if a >= n {
      WrapAdd(a - n, b, n);
      WrapPeriodic(a - n + b, n);
    }
  }

  /** `j` comes just before `i` exactly when `i` comes just after `j`. */
  lemma WrapStep(i: nat, j: nat, n: nat)
    requires i < n && j < n
    ensures Wrap(i - 1, n) == j <==> i == Wrap(j + 1, n)
    ensures Wrap(i + 1, n) == j <==> i == Wrap(j - 1, n)
  {
    WrapAdd(i - 1, 1, n);
    WrapAdd(j + 1, -1, n);
    WrapAdd(i + 1, -1, n);
    WrapAdd(j - 1, 1, n);
  }

  class Contour {
    var points: seq<Point>
    var open: bool
    var dirty: bool
    /** False once `glyph.removeContour(contour)` has run. */
    var inGlyph: bool

    constructor (points: seq<Point>, open: bool)
      ensures this.points == points && this.open == open
      ensures !dirty && inGlyph
    {
      this.points := points;
      this.open := open;
      dirty := false;
      inGlyph := true;
    }

    /** `contour.getPoint(index)`: the point at `index` taken circularly. */
    function GetPoint(index: int): Point
      reads this
      requires |points| > 0
    {
      points[Wrap(index, |points|)]
    }

    /** `contour.removePoint(point)` for the point now at position `at`. */
    method RemovePointAt(at: nat)
      requires at < |points|
      modifies this
      ensures points == old(points[..at] + points[at + 1..])
      ensures open == old(open) && dirty == old(dirty) && inGlyph == old(inGlyph)
    {
      points := points[..at] + points[at + 1..];
    }

    /** `point.segmentType = "line"` for the point now at position `at`. */
    method SetLineAt(at: nat)
      requires at < |points|
      modifies this
      ensures points == old(points[at := points[at].(segmentType := Some(Line))])
      ensures open == old(open) && dirty == old(dirty) && inGlyph == old(inGlyph)
    {
      points := points[at := points[at].(segmentType := Some(Line))];
    }

    /** `contour.glyph.removeContour(contour)`. */
    method RemoveFromGlyph()
      modifies this
      ensures !inGlyph
      ensures points == old(points) && open == old(open) && dirty == old(dirty)
    {
      inGlyph := false;
    }
  }
}

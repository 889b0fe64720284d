# trufont point-editing rules, modelled in Dafny

This project models the rules trufont's editing tools follow when the user
drags or deletes points on a glyph contour (`Lib/trufont/tools/uiMethods.py`):

- `_getOffCurveSiblingPoints` finds the on-curve neighbours of an off-curve
  handle, together with the point two steps further in the same direction.
- `moveUIPoint` drags one point:
  - an on-curve point carries its adjacent off-curve handles;
  - an off-curve handle keeps tangency at smooth anchors, and is not moved
    when an anchor next to it is selected.
- `moveUISelection` drags every selected point.
- `removeUISelection` deletes the selection segment by segment. A segment
  whose on-curve is selected is removed whole. Otherwise its selected handles
  are trimmed. The contour leaves its glyph when its last segment would go.

A contour is a `Contour` object (`contour.dfy`). It holds a sequence of point
records (type, smooth, selected, integer x/y), an open flag, a dirty flag and
whether it still belongs to its glyph. Points are addressed by their
position, and circularly, as `contour.getPoint` does.

- `points.dfy`: point records.
- `contour.dfy`: the contour and circular indexing.
- `moves.dfy`: `_getOffCurveSiblingPoints` as the function `SiblingPoints`;
  `moveUIPoint` and `moveUISelection` as methods proved against the functions
  `MovePoint` and `MoveAll`.
- `removal.dfy`: `removeUISelection`, as a method proved against a
  description of the walk. That description says which snapshot points each
  visit removes (`SegGone`) or turns into lines (`SegRelined`), which
  `removeSegment` calls it makes (`CallsFrom`, `Calls`) and when the contour
  is emptied (`EmptiesContour`). Point removal is specified by its effect on
  the point sequence (`Keep`).

Two details of the walk in `removeUISelection`:

- The segment that holds the first point is visited **last**: the walk goes
  from the second-to-last segment down to the first, then visits the last
  segment at the current last index.
- When `preserveShape` is forced off at an end of an open contour, the
  parameter itself is reassigned, so it stays off for the rest of the call.
  `VisitSegment` reassigns it the same way. It can be forced off at two visits
  only. One is the visit of index 0, the last before the final visit; that
  final visit is at the current last index of the open contour, so it is
  forced off anyway. The other is the final visit itself, after which no
  call follows. So every call is shape-preserving exactly when asked and not
  at either end of an open contour, as if each removal were judged on its
  own (`RemovalCallsInRange`).

On an open contour, the trailing handle stays behind when the first on-curve is
selected and anchors are dragged (`OpenTrailingHandleLeftBehind`). This follows
from the two exceptions in `moveUIPoint`, and the model keeps it as written.

## Model

| member | source | states |
|---|---|---|
| `PointMoves.SiblingPoints` | Lib/trufont/tools/uiMethods.py:8-16 | `_getOffCurveSiblingPoints`: every pair it returns names positions inside the contour (its content is stated by `SiblingPointsAreNeighbours`) |
| `PointMoves.SiblingPointsAreNeighbours` | Lib/trufont/tools/uiMethods.py:8-16 | one pair per on-curve neighbour (at -1 and +1, circular), none for an off-curve neighbour; each pair is the neighbour and the point two steps away in the same direction; the backward pair comes first |
| `PointMoves.MoveUIPoint` | Lib/trufont/tools/uiMethods.py:19-66 | the new points are `MovePoint` of the old (off-curve or on-curve rule by the dragged point's kind); the contour is always left dirty; open flag and glyph membership unchanged |
| `PointMoves.DragOffCurve` | Lib/trufont/tools/uiMethods.py:20-48 | the off-curve branch leaves the points equal to `OffCurveMove`: every sibling pass applied in order, then the plain move unless some sibling anchor is selected |
| `PointMoves.SiblingPass` | Lib/trufont/tools/uiMethods.py:25-46 | one loop pass adds one tangency step to the state, and `shouldMove` stays true exactly while no sibling anchor seen so far is selected |
| `PointMoves.TangencyFrame` | Lib/trufont/tools/uiMethods.py:25-46 | the sibling loop changes no point except the dragged one and the far off-curves it realigns |
| `PointMoves.TangencyAtCorners` | Lib/trufont/tools/uiMethods.py:29-31 | when every sibling anchor is a corner, the sibling loop changes no point |
| `PointMoves.OffCurveDragAtCorners` | Lib/trufont/tools/uiMethods.py:24-48 | a handle whose on-curve neighbours are not smooth moves by exactly the delta unless one of them is selected, in which case nothing moves; no other point changes |
| `PointMoves.OffCurveDragFrame` | Lib/trufont/tools/uiMethods.py:25-48 | an off-curve drag changes no point other than the dragged one and a free off-curve two steps away beyond a smooth on-curve neighbour |
| `PointMoves.NotRealigned` | Lib/trufont/tools/uiMethods.py:25-40 | the sibling loop realigns no point other than a free off-curve two steps away beyond a smooth on-curve neighbour |
| `PointMoves.SmoothHandleRealigned` | Lib/trufont/tools/uiMethods.py:33-48 | at a single smooth anchor with a free handle beyond it, that handle is placed by the extension geometry, and the dragged handle moves by the delta unless the anchor is selected |
| `PointMoves.SmoothHandleProjected` | Lib/trufont/tools/uiMethods.py:41-48 | at a single smooth anchor with an on-curve or selected point beyond it, the dragged handle is projected and then moved unless the anchor is selected; the far point stays |
| `PointMoves.DragOnCurve` | Lib/trufont/tools/uiMethods.py:49-65 | the on-curve branch leaves the points equal to `OnCurveMove`: each point moved by the delta as many times as the drag carries it |
| `PointMoves.DragNeighbour` | Lib/trufont/tools/uiMethods.py:53-65 | one pass of the direction loop moves the neighbour on that side exactly when the rules carry it (open-start exception, shared quadratic handle exception) |
| `PointMoves.OnCurveDragCarriesHandles` | Lib/trufont/tools/uiMethods.py:51-65 | with three or more points: the anchor moves by the delta; the previous point moves iff it is off-curve and the anchor is not the first point of an open contour; the next point moves iff it is off-curve and the point after it is not a selected on-curve; nothing else changes |
| `PointMoves.CarriesSeenFrom` | Lib/trufont/tools/uiMethods.py:53-65 | the same rule seen from the carried point: which anchors' drags move a given point, and how often |
| `PointMoves.MoveUISelection` | Lib/trufont/tools/uiMethods.py:69-71 | the new points are `MoveAll`: `moveUIPoint` applied to the selected positions in the given order; dirty iff it was, or something is selected |
| `PointMoves.AnchorDragShifts` | Lib/trufont/tools/uiMethods.py:69-71 | when only on-curve points are dragged, each point ends up moved by the delta as many times as the drags carry it, each drag judged on the original contour |
| `PointMoves.AnchorDragOrderIrrelevant` | Lib/trufont/tools/uiMethods.py:69-71 | with only on-curve points selected, the order in which the selection set is visited does not change the result |
| `PointMoves.DragAllAnchorsTranslates` | Lib/trufont/tools/uiMethods.py:69-71 | on a closed contour whose selection is exactly its on-curve points, with every handle touching an anchor, every point moves by the delta exactly once |
| `PointMoves.OpenTrailingHandleLeftBehind` | Lib/trufont/tools/uiMethods.py:54-64 | on an open contour ending in a handle whose first point is a selected on-curve, dragging on-curve points never moves that trailing handle |
| `Contours.WrapIsMod` | Lib/trufont/tools/uiMethods.py:12-14 | the circular index used for `getPoint(index ± d)` is Python's `index % n`, for every index |
| `Contours.Contour.RemovePointAt` | Lib/trufont/tools/uiMethods.py:105 | `removePoint` removes exactly one point and keeps the order of the rest |
| `Contours.Contour.SetLineAt` | Lib/trufont/tools/uiMethods.py:112 | only that point's type becomes a line |
| `Contours.Contour.RemoveFromGlyph` | Lib/trufont/tools/uiMethods.py:90-91 | the contour leaves its glyph; its points are untouched |
| `SelectionRemoval.VisitOrder` | Lib/trufont/tools/uiMethods.py:78-82 | the rotated enumeration, read backwards, visits indices len-2 down to 0 with their own segments, then the last segment |
| `SelectionRemoval.VisitTarget` | Lib/trufont/tools/uiMethods.py:82-84 | the visited segment equals the first-point segment only at the final visit, so only that visit has its index recomputed |
| `SelectionRemoval.VisitAt` | Lib/trufont/tools/uiMethods.py:82-113 | one turn of the loop: it looks up position `t` of the rotated enumeration and recomputes the index of the first-point segment as the current last index. It then either removes the contour (only at the final visit, when `EmptiesContour` holds, with the calls made so far) or leaves the points as `Keep` says and the walk one visit further |
| `SelectionRemoval.RemoveSegmentPoints` | Lib/trufont/tools/uiMethods.py:97 | `removeSegment` removes exactly the segment's points from the current sequence |
| `SelectionRemoval.RemoveSnapshotPoint` | Lib/trufont/tools/uiMethods.py:100-105 | removing one snapshot point, wherever earlier removals have shifted it |
| `SelectionRemoval.TrimHandles` | Lib/trufont/tools/uiMethods.py:106-113 | in a 3-point segment, if either handle is selected both handles are removed and the on-curve becomes a line; otherwise nothing changes |
| `SelectionRemoval.VisitSegment` | Lib/trufont/tools/uiMethods.py:85-113 | one visit removes the contour iff its on-curve is selected and fewer than 2 segments remain; otherwise it removes and relines exactly `SegGone` and `SegRelined`, and for a selected on-curve forces `preserveShape` off at either end of an open contour, records the call and drops the segment from the list |
| `SelectionRemoval.RemoveUISelection` | Lib/trufont/tools/uiMethods.py:74-113 | the final points are the snapshot minus the removed points, with relined on-curves; the recorded calls are `Calls`; if the contour is emptied it leaves its glyph before the last segment is touched; open and dirty unchanged |
| `SelectionRemoval.EmptiedIffAllAnchorsSelected` | Lib/trufont/tools/uiMethods.py:87-92 | the contour is removed from its glyph iff the on-curve of every segment is selected |
| `SelectionRemoval.LocalStep` | Lib/trufont/tools/uiMethods.py:97-99 | when segment k is visited, the local list still holds it at index k with at least one segment after it, and loses exactly it iff its on-curve is selected |
| `SelectionRemoval.ListShrinksPerRemoval` | Lib/trufont/tools/uiMethods.py:97-99 | the local list plus the calls made always number the original segments: each removal drops exactly one segment |
| `SelectionRemoval.CallsFromShape` | Lib/trufont/tools/uiMethods.py:93-99 | the calls before the last segment's have strictly decreasing indices within bounds, and are shape-preserving as asked except at index 0 of an open contour |
| `SelectionRemoval.RemovalCallsInRange` | Lib/trufont/tools/uiMethods.py:93-99 | every call's index is in range for the list at that moment (the original length less the earlier calls); shape preservation is off at either end of an open contour and as asked elsewhere |
| `SelectionRemoval.SegmentFate` | Lib/trufont/tools/uiMethods.py:85-113 | unless the contour is removed, a point is deleted (relined) exactly when its own segment's visit deletes (relines) it |
| `SelectionRemoval.NothingSelectedNoChange` | Lib/trufont/tools/uiMethods.py:74-113 | with nothing selected, the contour stays, no point is removed or retyped and no `removeSegment` call is made |
| `SelectionRemoval.SurvivorUnselected` | Lib/trufont/tools/uiMethods.py:100-113 | in a segment of at most three points, a point its visit keeps is not selected |
| `SelectionRemoval.SelectionCleared` | Lib/trufont/tools/uiMethods.py:74-113 | if every point lies in a segment of at most three points and the contour is not removed, no selected point is left |

## Left out

- The smooth-anchor geometry is left abstract. `QLineF` length extension and `bezierMath.lineProjection` are the two functions of a `Geometry` parameter. The model specifies only which point each one overwrites.
- Coordinates are integers. The floating-point results of the geometry are whatever the `Geometry` functions return.
- `contour.removeSegment` is not modelled in detail. The shape-preserving refit of the neighbouring curve is not part of this model. Its effect on the point sequence is taken to be the removal of the segment's points. Its `(index, preserveShape)` arguments are returned as the list of calls.
- `contour.segments` is a parameter, required to be a segment list of the points: no point shared, and only off-curves before a segment's last point. How the editor computes it is not part of this model.
- `contour.selection` is a set. The order it yields is a parameter `order`, and any duplicate-free listing of the selected positions is allowed.
- `removeUISelection` on a contour with no points: `segments[-1]` raises an IndexError, which the model does not capture. `RemoveUISelection` requires a non-empty segment list instead.
- `removeUISelection` emptying a contour that has no glyph: `glyph.removeContour` raises an AttributeError, which the model does not capture. `RemoveFromGlyph` clears `inGlyph` whether or not it was set.
- Point identity (`contour.index(point)`, `segment == toFirstPoint`) is the point's position.
- Notifications, undo and the GUI side are not modelled, nor is any effect of `removePoint` or `removeSegment` on the dirty flag. The glyph is reduced to the contour's `inGlyph` flag.
- PointMoves.OnCurveDragCarriesHandles: stated for contours of three or more points. For one or two points the neighbours coincide, and only the general `OnCurveMove` description covers them.
- SelectionRemoval.SelectionCleared: assumes segments of at most three points. A longer segment whose on-curve is unselected keeps its selected handles, as the code does.

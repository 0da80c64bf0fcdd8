# Layout-jank tracker

A Dafny model of Blink's `JankTracker`, declared in
`third_party/blink/renderer/core/layout/jank_tracker.h`.

Layout and paint tell the tracker whenever a layout object's visual
rectangle, or a whole composited layer, moves between animation frames. The
tracker unites the visible parts of the old and new rectangles into a
per-frame jank region. It keeps two copies of that region: a baseline
`Region` of disjoint pieces, and an experimental sweep-line `JankRegion`.
When pre-paint finishes, the frame's jank becomes a contribution to two
cumulative scores:

- the jank fraction is the region's area over the viewport's area;
- it is multiplied by the frame's largest move over a normalisation distance,
  capped at 1 (this factor is the tracker's design; the header does not show it);
- the result is added to the unweighted score;
- it is also added to a score weighted by how much of the main frame the
  frame visibly occupies.

Then the region is emptied. For a short window after input that may cause
layout changes, frames are not scored. `MaxDistance()` reports the largest
distance of any move the tracker accepted.

Modules:

- `Geometry` (`geometry.dfy`) defines integer rectangles. The area of a
  union of rectangles is the number of unit cells the union covers, so
  overlaps are never counted twice.
- `Region` (`region.dfy`) is the baseline region. Uniting a rectangle adds
  the parts of it not yet covered, as new disjoint pieces. The region's
  area is the sum of the pieces' areas, and it is proved equal to the area
  of the union.
- `JankRegion` (`jank_region.dfy`) is the sweep-line region. It sorts the
  distinct x edges, sweeps the vertical strips between them, and in each
  strip merges the y spans of the rectangles that cross it.
  `SweepArea` is a method with loops, proved to return the area of the union.
- `JankModel` (`jank_model.dfy`) describes the tracker as a state machine
  over values. It has:
  - one function per notification;
  - an invariant `Valid` that every step keeps;
  - `Run` over any sequence of notifications;
  - the properties the tracker promises, proved for every state and every
    sequence of notifications.
- `Tracker` (`jank_tracker.dfy`) holds `class JankTracker`, whose methods
  update its fields in place. Each method is proved to leave the object in
  exactly the state the matching `JankModel` step describes, and to keep
  `Valid()`.

The thresholds of the tracker are the fields of a `Config` value given to
the constructor:

- the movement threshold below which a move is jitter;
- the distance normalisation;
- the length of the input-suppression window.

The clock, the viewport and the frame's place in the main frame are
parameters of the notifications.

## Model

| member | source | states |
|---|---|---|
| Geometry.Area | third_party/blink/renderer/core/layout/jank_tracker.h:68-69 | a rectangle's area is zero exactly when the rectangle is empty |
| Geometry.UnionAreaWithin | third_party/blink/renderer/core/layout/jank_tracker.h:68-69 | a union of rectangles inside a viewport is no larger than the viewport |
| Region.Subtract | third_party/blink/renderer/core/layout/jank_tracker.h:68-69 | the pieces returned are non-empty, pairwise disjoint, and cover exactly the cells of `r` not in `s` |
| Region.SubtractAll | third_party/blink/renderer/core/layout/jank_tracker.h:68-69 | removing `s` from disjoint pieces leaves disjoint non-empty pieces covering exactly their cells minus those of `s` |
| Region.Remainder | third_party/blink/renderer/core/layout/jank_tracker.h:68-69 | the parts of `r` the region does not cover, as disjoint non-empty pieces |
| Region.Unite | third_party/blink/renderer/core/layout/jank_tracker.h:68-69 | uniting keeps the pieces pairwise disjoint |
| Region.UniteCells | third_party/blink/renderer/core/layout/jank_tracker.h:68-69 | after uniting, the region covers exactly the old cells plus those of `r` |
| Region.UniteKeepsPieces | third_party/blink/renderer/core/layout/jank_tracker.h:68-69 | uniting keeps every existing piece in place and only appends new ones |
| Region.UniteIntoEmpty | third_party/blink/renderer/core/layout/jank_tracker.h:68-69 | uniting a non-empty rectangle into the empty region gives that rectangle alone |
| Region.RegionOf | third_party/blink/renderer/core/layout/jank_tracker.h:68-69 | uniting rectangles one by one gives disjoint pieces covering exactly their union |
| Region.RegionAreaIsUnionArea | third_party/blink/renderer/core/layout/jank_tracker.h:68-69 | `RegionArea`, the model of `Region::Area` that scores each frame, is for disjoint pieces exactly the area of the union: nothing is counted twice |
| Region.RegionOfArea | third_party/blink/renderer/core/layout/jank_tracker.h:68-69 | the area of the region built from some rectangles is the area of their union |
| Region.RegionAreaOrderIndependent | third_party/blink/renderer/core/layout/jank_tracker.h:68-69 | uniting the same rectangles in any order, or with repeats, gives the same area |
| Region.UniteCoveredIsNoOp | third_party/blink/renderer/core/layout/jank_tracker.h:68-69 | uniting a rectangle already covered leaves the region unchanged |
| Region.UniteEmptyIsNoOp | third_party/blink/renderer/core/layout/jank_tracker.h:68-69 | uniting an empty rectangle leaves the region unchanged |
| Region.UniteIdempotent | third_party/blink/renderer/core/layout/jank_tracker.h:68-69 | uniting the same rectangle twice equals uniting it once |
| JankRegion.Edges | third_party/blink/renderer/core/layout/jank_tracker.h:71-72 | the sweep's x coordinates are strictly increasing and include both vertical edges of every non-empty rectangle |
| JankRegion.SortSpans | third_party/blink/renderer/core/layout/jank_tracker.h:71-72 | the y spans of a strip sorted by start, keeping exactly the non-empty ones |
| JankRegion.CoveredLength | third_party/blink/renderer/core/layout/jank_tracker.h:71-72 | merging the sorted spans into runs counts exactly the rows their union covers |
| JankRegion.SweepArea | third_party/blink/renderer/core/layout/jank_tracker.h:71-72 | the sweep-line area equals the number of cells covered by the union of the rectangles |
| JankModel.Initial | third_party/blink/renderer/core/layout/jank_tracker.h:29 | a new tracker has zero scores, an empty region, a stopped timer and zero distance, and satisfies the invariant |
| JankModel.MoveDistance | third_party/blink/renderer/core/layout/jank_tracker.h:46-49 | a move's distance is the larger of its horizontal and vertical displacements |
| JankModel.SubframeWeightingFactor | third_party/blink/renderer/core/layout/jank_tracker.h:54 | the weight lies in [0,1]; it is 1 for the main frame; for a subframe, it times the main frame's area is the area of the subframe visible in the main frame |
| JankModel.JankFraction | third_party/blink/renderer/core/layout/jank_tracker.h:51-53 | the jank fraction times the viewport's area is the region's area; it is 0 for an empty viewport or an empty region |
| JankModel.DistanceFraction | third_party/blink/renderer/core/layout/jank_tracker.h:77-78 | the distance fraction lies in [0,1]; it is 1 exactly at or beyond the normalisation distance, and otherwise proportional to the distance |
| JankModel.FrameRecordOf | third_party/blink/renderer/core/layout/jank_tracker.h:37 | the record holds the baseline region's area, the jank fraction of that area, the distance fraction of the frame's largest move and the subframe weight; the frame is suppressed exactly when the timer is running; an unsuppressed frame's increment is the jank fraction times the distance fraction; a suppressed or empty frame adds nothing; the weighted increment is the increment times the weight, between 0 and the increment, and equal to it for the main frame |
| JankModel.Run | third_party/blink/renderer/core/layout/jank_tracker.h:31-43 | every sequence of notifications keeps the invariant |
| JankModel.AccumulateJankValid | third_party/blink/renderer/core/layout/jank_tracker.h:46-49 | accumulating a move keeps the invariant |
| JankModel.FinishValid | third_party/blink/renderer/core/layout/jank_tracker.h:37 | finishing a frame keeps the invariant |
| JankModel.StepValid | third_party/blink/renderer/core/layout/jank_tracker.h:31-43 | every notification keeps the invariant |
| JankModel.AccumulateJankEffect | third_party/blink/renderer/core/layout/jank_tracker.h:46-49 | an accepted move unites exactly the visible parts of its old and new rectangles and raises both maxima to its distance; a rejected move changes nothing; scores and timer are untouched |
| JankModel.StepNeverDecreases | third_party/blink/renderer/core/layout/jank_tracker.h:59-66 | no single notification lowers either score or the maximum distance |
| JankModel.RunNeverDecreases | third_party/blink/renderer/core/layout/jank_tracker.h:59-66 | no sequence of notifications lowers either score or the maximum distance |
| JankModel.MaxDistanceCoversAcceptedMoves | third_party/blink/renderer/core/layout/jank_tracker.h:77-78 | after any sequence of notifications, the maximum distance is at least the distance of every move that was accumulated |
| JankModel.WeightedIncrementBounded | third_party/blink/renderer/core/layout/jank_tracker.h:62-66 | each weighted increment is the unweighted increment times the weighting factor, between 0 and the unweighted increment, and equal to it for the main frame |
| JankModel.FinishResetsFrame | third_party/blink/renderer/core/layout/jank_tracker.h:68-69 | finishing a frame leaves both regions empty and resets the frame's largest move, keeping the maximum distance and the timer |
| JankModel.EmptyFrameContributesNothing | third_party/blink/renderer/core/layout/jank_tracker.h:37 | a frame with no accumulated move adds nothing to either score |
| JankModel.SecondFinishAddsNothing | third_party/blink/renderer/core/layout/jank_tracker.h:37 | finishing a frame twice in a row adds nothing the second time |
| JankModel.SuppressedFrameKeepsScores | third_party/blink/renderer/core/layout/jank_tracker.h:74-75 | a frame finished while the timer is running leaves both scores and the maximum distance unchanged |
| JankModel.MovesKeepScores | third_party/blink/renderer/core/layout/jank_tracker.h:31-36 | a sequence of moves changes neither score nor the timer |
| JankModel.InputSuppressesFollowingFrame | third_party/blink/renderer/core/layout/jank_tracker.h:38-39 | after qualifying input, moves and then a frame finished within the window leave both scores as they were before the input, while the maximum distance still covers every accepted move |
| JankModel.InputRestartsWindow | third_party/blink/renderer/core/layout/jank_tracker.h:38-39 | qualifying input sets the deadline to now plus the window whatever the timer was doing, so scoring resumes exactly at that deadline; other input changes nothing |
| JankModel.DisposeKeepsScores | third_party/blink/renderer/core/layout/jank_tracker.h:43 | disposing keeps every score, distance and region, and afterwards the tracker is active |
| JankModel.FinishScoresUnion | third_party/blink/renderer/core/layout/jank_tracker.h:59-66 | an unsuppressed frame adds to the unweighted score the viewport share of the union of the moved rectangles times the distance fraction, and that amount times the weighting factor to the weighted score |
| JankModel.RegionsAgree | third_party/blink/renderer/core/layout/jank_tracker.h:68-72 | in every valid state the baseline region's area equals the area of the union held by the sweep-line region |
| JankModel.AccumulateStaysInside | third_party/blink/renderer/core/layout/jank_tracker.h:46-49 | moves reported against one viewport keep the frame's region inside that viewport |
| JankModel.JankFractionAtMostOne | third_party/blink/renderer/core/layout/jank_tracker.h:51-53 | when the region lies inside the viewport, the jank fraction is at most 1 |
| JankModel.SingleMoveScenario | third_party/blink/renderer/core/layout/jank_tracker.h:31-37 | a 100x100 object moving 50 down in a 1000x1000 viewport gives region area 15000, jank fraction 0.015, the same increment on both scores, and a maximum distance of 50 |
| JankModel.SuppressedMoveScenario | third_party/blink/renderer/core/layout/jank_tracker.h:38-39 | the same move right after a tap leaves both scores 0 but still sets the maximum distance to 50 |
| Tracker.JankTracker.constructor | third_party/blink/renderer/core/layout/jank_tracker.h:29 | a new tracker is in the initial state and satisfies the invariant |
| Tracker.JankTracker.Score | third_party/blink/renderer/core/layout/jank_tracker.h:40 | returns exactly the unweighted score and reads nothing else |
| Tracker.JankTracker.WeightedScore | third_party/blink/renderer/core/layout/jank_tracker.h:41 | returns exactly the weighted score, which lies between 0 and the unweighted score |
| Tracker.JankTracker.MaxDistance | third_party/blink/renderer/core/layout/jank_tracker.h:42 | returns exactly the maximum distance, which is at least the current frame's largest move |
| Tracker.JankTracker.IsActive | third_party/blink/renderer/core/layout/jank_tracker.h:39 | active exactly when the post-input timer is not running at the given time |
| Tracker.JankTracker.AccumulateJank | third_party/blink/renderer/core/layout/jank_tracker.h:46-49 | the fields afterwards are exactly those of the model's accumulate step, and the invariant holds |
| Tracker.JankTracker.NotifyObjectPrePaint | third_party/blink/renderer/core/layout/jank_tracker.h:31-33 | invisible objects change nothing; visible ones are accumulated as in the model |
| Tracker.JankTracker.NotifyCompositedLayerMoved | third_party/blink/renderer/core/layout/jank_tracker.h:34-36 | a layer's move is accumulated as in the model |
| Tracker.JankTracker.NotifyPrePaintFinished | third_party/blink/renderer/core/layout/jank_tracker.h:37 | the fields afterwards are those of the model's finish step; the record returned is the frame's record, and the sweep-line area in it equals the baseline area |
| Tracker.JankTracker.NotifyInput | third_party/blink/renderer/core/layout/jank_tracker.h:38 | qualifying input restarts the timer as in the model; other input changes nothing |
| Tracker.JankTracker.Dispose | third_party/blink/renderer/core/layout/jank_tracker.h:43 | only the timer changes: it is stopped |
| Tracker.JankTracker.TimerFired | third_party/blink/renderer/core/layout/jank_tracker.h:50 | the timer's callback changes nothing |

## Left out

- Only the header `jank_tracker.h` is modelled. The method bodies in `jank_tracker.cc` are not part of this model, and neither are `jank_region.h` and `platform/geometry/region.h`. The behaviour of the bodies follows the header's field comments and the tracker's documented design.
- The layout tree is not modelled: `LayoutObject`, `PaintLayer`, `LocalFrameView` and the `frame_view_` back-pointer are left out. Rectangles, the object's visibility, the viewport and the frame's visible and main-frame rectangles are passed as parameters instead.
- `PerFrameTraceData` and `TracedValue` are modelled only as the `FrameRecord` value returned by `NotifyPrePaintFinished`. The record has no effect on the scores.
- The `TaskRunnerTimer` is modelled as a `Timer` value holding its deadline, compared against a `now` parameter. Task scheduling and the clock are left out.
- `WebInputEvent` is reduced to an `InputKind` enum. A tap, pointer down, pointer up and key down may cause layout changes; pointer moves and wheel events never do.
- Floating-point rounding of `double` and `float` is not modelled: scores and fractions are exact reals.
- `FloatRect` layer rectangles use integer coordinates, like `IntRect`.
- JankModel.DistanceFraction: the distance factor in each frame's increment, the frame's largest move over a normalisation distance capped at 1, is the tracker's documented design. The header shows only the jank fraction and the granularity scale of the trace data.
- JankModel.AccumulateJank: only accepted moves raise `maxDistance`. Jitter below the movement threshold, moves of invisible objects and moves wholly outside the viewport leave it unchanged, although the header's comment speaks of any layout object.
- The model adds a field, `frameMaxDistance`, for the current frame's largest move, which the distance fraction uses. The header declares no such field.
- A move's distance is taken as the larger of the horizontal and vertical displacements of the rectangle's top-left corner. The header does not say how distance is measured.
- Tracker.JankTracker.NotifyPrePaintFinished: the area of both regions is measured in unit cells of integer coordinates, not in device pixels scaled by a granularity factor.
- Tracker.JankTracker.AccumulateJank: the region is stored as a sequence of rectangles, not as Blink's banded `Region` representation; only its covered cells and area are modelled.

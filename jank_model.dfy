/** The jank tracker as a state machine over values.

    Each notification of JankTracker is a function from the tracker's state
    to its next state; the class in module Tracker runs the same steps in
    place and is proved to agree with these functions. The properties the
    tracker promises (cumulative scores, a weighted increment bounded by the
    unweighted one, a running maximum distance, a region reset every frame,
    suppression after input) are proved here once, for every sequence of
    notifications. */
module JankModel {
  import opened Geometry
  import opened Region

  type Positive = n: int | n > 0 witness 1

  /** The tracker's tuning constants: moves shorter than `movementThreshold`
      are jitter and ignored; a frame's largest move is measured against
      `distanceNormalization`; input suppresses scoring for
      `inputSuppressionWindow` time units. */
  datatype Config = Config(movementThreshold: nat, distanceNormalization: Positive, inputSuppressionWindow: nat)

  /** The post-input timer: stopped, or started with the time it fires. */
  datatype Timer = Stopped | Running(deadline: int) {
    /** The timer has been started and has not fired yet at time `now`. */
    predicate IsActive(now: int) {
      Running? && now < deadline
    }
  }

  /** Input events, classified by whether they may cause an expected layout
      change. */
  datatype InputKind = Tap | PointerDown | PointerUp | KeyDown | PointerMove | Wheel

  predicate MayCauseLayoutChange(kind: InputKind) {
    kind.Tap? || kind.PointerDown? || kind.PointerUp? || kind.KeyDown?
  }

  /** The frame being tracked: the main frame, or a subframe with its visible
      rectangle and the main frame's rectangle, both in the main frame's
      coordinates. */
  datatype FrameKind = MainFrame | Subframe(visibleRect: Rect, mainFrameRect: Rect)

  /** The tracker's fields. `region` is the baseline Region (disjoint
      pieces), `regionExperimental` the rectangles given to the sweep-line
      JankRegion, `frameMaxDistance` the largest move of the current frame. */
  datatype TrackerState = TrackerState(
    score: real,
    weightedScore: real,
    region: seq<Rect>,
    regionExperimental: seq<Rect>,
    timer: Timer,
    maxDistance: nat,
    frameMaxDistance: nat)

  /** The per-frame diagnostic record (the trace payload). */
  datatype FrameRecord = FrameRecord(
    regionArea: nat,
    experimentalArea: nat,
    jankFraction: real,
    distanceFraction: real,
    weight: real,
    suppressed: bool,
    scoreDelta: real,
    weightedScoreDelta: real)

  /** What every state reachable from the initial one satisfies: the region
      pieces are disjoint and cover exactly what the experimental region
      holds, the weighted score never overtakes the unweighted one, and the
      frame's largest move is at most the largest move ever. */
  ghost predicate Valid(s: TrackerState) {
    && PairwiseDisjoint(s.region)
    && UnionCells(s.region) == UnionCells(s.regionExperimental)
    && 0.0 <= s.weightedScore <= s.score
    && s.frameMaxDistance <= s.maxDistance
  }

  function Initial(): (s: TrackerState)
    ensures Valid(s)
  {
    TrackerState(0.0, 0.0, [], [], Stopped, 0, 0)
  }

  // ---------------------------------------------------------------------
  // Readers

  /** JankTracker::IsActive: jank is scored unless the post-input timer is
      still running. */
  predicate IsActive(s: TrackerState, now: int) {
    !s.timer.IsActive(now)
  }

  /** The distance a rectangle moved: the larger of the horizontal and the
      vertical displacement of its top-left corner. */
  function MoveDistance(oldRect: Rect, newRect: Rect): (d: nat)
    ensures d >= newRect.left - oldRect.left && d >= oldRect.left - newRect.left
    ensures d >= newRect.top - oldRect.top && d >= oldRect.top - newRect.top
    ensures d == newRect.left - oldRect.left || d == oldRect.left - newRect.left
         || d == newRect.top - oldRect.top || d == oldRect.top - newRect.top
  {
    var dx := newRect.left - oldRect.left;
    var dy := newRect.top - oldRect.top;
    Max(if dx < 0 then -dx else dx, if dy < 0 then -dy else dy)
  }

  /** JankTracker::SubframeWeightingFactor: 1 for the main frame; for a
      subframe, the share of the main frame's area that the subframe
      visibly occupies. */
  function SubframeWeightingFactor(frame: FrameKind): (w: real)
    ensures 0.0 <= w <= 1.0
    ensures frame.MainFrame? ==> w == 1.0
    ensures frame.Subframe? && Area(frame.mainFrameRect) > 0 ==>
              w * (Area(frame.mainFrameRect) as real) == Area(Intersect(frame.visibleRect, frame.mainFrameRect)) as real
    ensures frame.Subframe? && Area(frame.mainFrameRect) == 0 ==> w == 0.0
  {
    match frame
    case MainFrame => 1.0
    case Subframe(visible, main) =>
      var mainArea := Area(main);
      if mainArea == 0 then 0.0
      else
        var shown := Intersect(visible, main);
        AreaWithin(shown, main);
        (Area(shown) as real) / (mainArea as real)
  }

  /** The share of the viewport covered by the frame's jank region. */
  function JankFraction(area: nat, viewport: Rect): (f: real)
    ensures 0.0 <= f
    ensures Area(viewport) > 0 ==> f * (Area(viewport) as real) == area as real
    ensures Area(viewport) == 0 || area == 0 ==> f == 0.0
  {
    if Area(viewport) == 0 then 0.0 else (area as real) / (Area(viewport) as real)
  }

  /** The frame's largest move against the normalisation distance, capped
      at 1. */
  function DistanceFraction(config: Config, distance: nat): (f: real)
    ensures 0.0 <= f <= 1.0
    ensures f == 1.0 <==> distance >= config.distanceNormalization
    ensures distance < config.distanceNormalization ==>
              f * (config.distanceNormalization as real) == distance as real
  {
    if distance >= config.distanceNormalization then 1.0
    else (distance as real) / (config.distanceNormalization as real)
  }

  // ---------------------------------------------------------------------
  // Steps

  /** JankTracker::AccumulateJank: a move shorter than the threshold, or one
      whose old and new rectangles are both outside the viewport, is
      ignored; otherwise the visible parts of both rectangles are united
      into the frame's regions and the move's distance into the maxima. */
  function AccumulateJank(config: Config, s: TrackerState, oldRect: Rect, newRect: Rect, viewport: Rect): TrackerState
    requires Valid(s)
  {
    var distance := MoveDistance(oldRect, newRect);
    var visibleOld := Intersect(oldRect, viewport);
    var visibleNew := Intersect(newRect, viewport);
    if distance < config.movementThreshold || (IsEmpty(visibleOld) && IsEmpty(visibleNew)) then s
    else
      s.(region := Unite(Unite(s.region, visibleOld), visibleNew),
         regionExperimental := s.regionExperimental + [visibleOld, visibleNew],
         maxDistance := Max(s.maxDistance, distance),
         frameMaxDistance := Max(s.frameMaxDistance, distance))
  }

  /** JankTracker::NotifyObjectPrePaint: a layout object's visual rectangle
      changed from `oldRect` to `newRect`; invisible objects are ignored. */
  function NotifyObjectPrePaint(config: Config, s: TrackerState, oldRect: Rect, newRect: Rect,
                                visible: bool, viewport: Rect): TrackerState
    requires Valid(s)
  {
    if visible then AccumulateJank(config, s, oldRect, newRect, viewport) else s
  }

  /** JankTracker::NotifyCompositedLayerMoved: a composited layer moved as a
      whole from `oldLayerRect` to `newLayerRect`. */
  function NotifyCompositedLayerMoved(config: Config, s: TrackerState, oldLayerRect: Rect, newLayerRect: Rect,
                                      viewport: Rect): TrackerState
    requires Valid(s)
  {
    AccumulateJank(config, s, oldLayerRect, newLayerRect, viewport)
  }

  /** What finishing the current frame contributes, as recorded for
      diagnostics. */
  function FrameRecordOf(config: Config, s: TrackerState, now: int, viewport: Rect, frame: FrameKind): (r: FrameRecord)
    ensures r.suppressed <==> s.timer.IsActive(now)
    ensures r.suppressed ==> r.scoreDelta == 0.0 && r.weightedScoreDelta == 0.0
    ensures 0.0 <= r.weightedScoreDelta <= r.scoreDelta
    ensures r.weightedScoreDelta == r.scoreDelta * r.weight
    ensures frame.MainFrame? ==> r.weightedScoreDelta == r.scoreDelta
    ensures RegionArea(s.region) == 0 ==> r.scoreDelta == 0.0 && r.weightedScoreDelta == 0.0
    ensures r.regionArea == RegionArea(s.region)
    ensures r.jankFraction == JankFraction(r.regionArea, viewport)
    ensures r.distanceFraction == DistanceFraction(config, s.frameMaxDistance)
    ensures r.weight == SubframeWeightingFactor(frame)
    ensures !r.suppressed ==> r.scoreDelta == r.jankFraction * r.distanceFraction
  {
    var area := RegionArea(s.region);
    var jankFraction := JankFraction(area, viewport);
    var distanceFraction := DistanceFraction(config, s.frameMaxDistance);
    var weight := SubframeWeightingFactor(frame);
    var suppressed := !IsActive(s, now);
    var scoreDelta := if suppressed then 0.0 else jankFraction * distanceFraction;
    ProductNonNegative(jankFraction, distanceFraction);
    WeightedDeltaBounded(scoreDelta, weight);
    FrameRecord(area, area, jankFraction, distanceFraction, weight, suppressed,
                scoreDelta, scoreDelta * weight)
  }

  lemma ProductNonNegative(a: real, b: real)
    requires 0.0 <= a && 0.0 <= b
    ensures 0.0 <= a * b
  {
  }

  /** JankTracker::NotifyPrePaintFinished: the frame's contribution is
      added to both scores unless input suppresses it, and the frame's
      region and largest move are reset. */
  function NotifyPrePaintFinished(config: Config, s: TrackerState, now: int, viewport: Rect,
                                  frame: FrameKind): TrackerState
  {
    var record := FrameRecordOf(config, s, now, viewport, frame);
    s.(score := s.score + record.scoreDelta,
       weightedScore := s.weightedScore + record.weightedScoreDelta,
       region := [],
       regionExperimental := [],
       frameMaxDistance := 0)
  }

  /** JankTracker::NotifyInput: input that may change the layout (re)starts
      the suppression window at `now`. */
  function NotifyInput(config: Config, s: TrackerState, kind: InputKind, now: int): TrackerState {
    if MayCauseLayoutChange(kind) then s.(timer := Running(now + config.inputSuppressionWindow)) else s
  }

  /** JankTracker::Dispose: stops the timer. */
  function Dispose(s: TrackerState): TrackerState {
    s.(timer := Stopped)
  }

  /** The calls a tracker receives. */
  datatype Event =
    | ObjectPrePaint(oldRect: Rect, newRect: Rect, visible: bool, viewport: Rect)
    | CompositedLayerMoved(oldLayerRect: Rect, newLayerRect: Rect, viewport: Rect)
    | PrePaintFinished(now: int, viewport: Rect, frame: FrameKind)
    | Input(kind: InputKind, now: int)
    | Disposed

  function Step(config: Config, s: TrackerState, e: Event): TrackerState
    requires Valid(s)
  {
    match e
    case ObjectPrePaint(o, n, visible, v) => NotifyObjectPrePaint(config, s, o, n, visible, v)
    case CompositedLayerMoved(o, n, v) => NotifyCompositedLayerMoved(config, s, o, n, v)
    case PrePaintFinished(now, v, frame) => NotifyPrePaintFinished(config, s, now, v, frame)
    case Input(kind, now) => NotifyInput(config, s, kind, now)
    case Disposed => Dispose(s)
  }

  // ---------------------------------------------------------------------
  // Invariant

  /** Accumulating a move keeps the invariant, and unites exactly the
      visible parts of the move into the region. */
  lemma AccumulateJankValid(config: Config, s: TrackerState, oldRect: Rect, newRect: Rect, viewport: Rect)
    requires Valid(s)
    ensures Valid(AccumulateJank(config, s, oldRect, newRect, viewport))
  {
    var visibleOld := Intersect(oldRect, viewport);
    var visibleNew := Intersect(newRect, viewport);
    var t := AccumulateJank(config, s, oldRect, newRect, viewport);
    if t != s {
      var halfway := Unite(s.region, visibleOld);
      assert t.region == Unite(halfway, visibleNew);
      UniteCells(s.region, visibleOld);
      UniteCells(halfway, visibleNew);
      assert UnionCells(t.region) == UnionCells(s.region) + Cells(visibleOld) + Cells(visibleNew);
      UnionCellsAppend(s.regionExperimental, [visibleOld, visibleNew]);
      UnionCellsPair(visibleOld, visibleNew);
      assert t.regionExperimental == s.regionExperimental + [visibleOld, visibleNew];
    }
  }

  lemma FinishValid(config: Config, s: TrackerState, now: int, viewport: Rect, frame: FrameKind)
    requires Valid(s)
    ensures Valid(NotifyPrePaintFinished(config, s, now, viewport, frame))
  {
  }

  lemma WeightedDeltaBounded(delta: real, weight: real)
    requires 0.0 <= delta && 0.0 <= weight <= 1.0
    ensures 0.0 <= delta * weight <= delta
  {
    assert delta * weight <= delta * 1.0;
  }

  /** Every notification keeps the invariant. */
  lemma StepValid(config: Config, s: TrackerState, e: Event)
    requires Valid(s)
    ensures Valid(Step(config, s, e))
  {
    match e
    case ObjectPrePaint(o, n, visible, v) =>
      AccumulateJankValid(config, s, o, n, v);
    case CompositedLayerMoved(o, n, v) =>
      AccumulateJankValid(config, s, o, n, v);
    case PrePaintFinished(now, v, frame) =>
      FinishValid(config, s, now, v, frame);
    case Input(_, _) =>
    case Disposed =>
  }

  /** The state after a sequence of notifications. */
  function Run(config: Config, s: TrackerState, events: seq<Event>): (t: TrackerState)
    requires Valid(s)
    ensures Valid(t)
    decreases |events|
  {
    if |events| == 0 then s
    else
      var next := Step(config, s, events[0]);
      StepValid(config, s, events[0]);
      Run(config, next, events[1..])
  }

  // ---------------------------------------------------------------------
  // Properties

  /** A move passes the filters: it is visible, not jitter, and part of it
      lies in the viewport. Whether a move is accumulated does not depend on
      the tracker's state. */
  predicate Accepted(config: Config, e: Event) {
    match e
    case ObjectPrePaint(o, n, visible, v) =>
      visible && MoveAccepted(config, o, n, v)
    case CompositedLayerMoved(o, n, v) =>
      MoveAccepted(config, o, n, v)
    case _ => false
  }

  predicate MoveAccepted(config: Config, oldRect: Rect, newRect: Rect, viewport: Rect) {
    MoveDistance(oldRect, newRect) >= config.movementThreshold
    && !(IsEmpty(Intersect(oldRect, viewport)) && IsEmpty(Intersect(newRect, viewport)))
  }

  predicate IsMove(e: Event) {
    e.ObjectPrePaint? || e.CompositedLayerMoved?
  }

  function EventDistance(e: Event): nat
    requires IsMove(e)
  {
    if e.ObjectPrePaint? then MoveDistance(e.oldRect, e.newRect)
    else MoveDistance(e.oldLayerRect, e.newLayerRect)
  }

  /** What accumulating a move does: an accepted move unites the visible
      parts of its old and new rectangles into the region and raises both
      maxima to its distance; any other move changes nothing. Scores and the
      timer are never touched. */
  lemma AccumulateJankEffect(config: Config, s: TrackerState, oldRect: Rect, newRect: Rect, viewport: Rect)
    requires Valid(s)
    ensures var t := AccumulateJank(config, s, oldRect, newRect, viewport);
            var d := MoveDistance(oldRect, newRect);
            && t.score == s.score && t.weightedScore == s.weightedScore && t.timer == s.timer
            && (MoveAccepted(config, oldRect, newRect, viewport) ==>
                  && UnionCells(t.region) == UnionCells(s.region) + Cells(Intersect(oldRect, viewport))
                                                                  + Cells(Intersect(newRect, viewport))
                  && t.maxDistance == Max(s.maxDistance, d)
                  && t.frameMaxDistance == Max(s.frameMaxDistance, d))
            && (!MoveAccepted(config, oldRect, newRect, viewport) ==> t == s)
  {
    var visibleOld := Intersect(oldRect, viewport);
    var visibleNew := Intersect(newRect, viewport);
    if MoveAccepted(config, oldRect, newRect, viewport) {
      UniteCells(s.region, visibleOld);
      UniteCells(Unite(s.region, visibleOld), visibleNew);
    }
  }

  /** Each notification leaves the scores and the maximum distance at least
      where they were. */
  lemma StepNeverDecreases(config: Config, s: TrackerState, e: Event)
    requires Valid(s)
    ensures var t := Step(config, s, e);
            t.score >= s.score && t.weightedScore >= s.weightedScore && t.maxDistance >= s.maxDistance
  {
    match e
    case ObjectPrePaint(o, n, visible, v) =>
      AccumulateJankEffect(config, s, o, n, v);
    case CompositedLayerMoved(o, n, v) =>
      AccumulateJankEffect(config, s, o, n, v);
    case PrePaintFinished(now, v, frame) =>
    case Input(_, _) =>
    case Disposed =>
  }

  /** Score(), WeightedScore() and MaxDistance() are cumulative: no sequence
      of notifications ever lowers them. */
  lemma {:induction false} RunNeverDecreases(config: Config, s: TrackerState, events: seq<Event>)
    requires Valid(s)
    ensures var t := Run(config, s, events);
            t.score >= s.score && t.weightedScore >= s.weightedScore && t.maxDistance >= s.maxDistance
    decreases |events|
  {
    if |events| > 0 {
      StepValid(config, s, events[0]);
      StepNeverDecreases(config, s, events[0]);
      RunNeverDecreases(config, Step(config, s, events[0]), events[1..]);
    }
  }

  /** MaxDistance() is at least the distance of every move that was
      accumulated, whenever it happened. */
  lemma {:induction false} MaxDistanceCoversAcceptedMoves(config: Config, s: TrackerState, events: seq<Event>, i: int)
    requires Valid(s)
    requires 0 <= i < |events| && Accepted(config, events[i])
    ensures Run(config, s, events).maxDistance >= EventDistance(events[i])
    decreases |events|
  {
    var e := events[0];
    StepValid(config, s, e);
    var next := Step(config, s, e);
    if i == 0 {
      match e {
        case ObjectPrePaint(o, n, visible, v) => AccumulateJankEffect(config, s, o, n, v);
        case CompositedLayerMoved(o, n, v) => AccumulateJankEffect(config, s, o, n, v);
      }
      RunNeverDecreases(config, next, events[1..]);
    } else {
      MaxDistanceCoversAcceptedMoves(config, next, events[1..], i - 1);
    }
  }

  /** Each increase of the weighted score is the matching increase of the
      score times the frame's weighting factor, so it lies between zero and
      the unweighted increase, and equals it for the main frame. */
  lemma WeightedIncrementBounded(config: Config, s: TrackerState, now: int, viewport: Rect, frame: FrameKind)
    ensures var t := NotifyPrePaintFinished(config, s, now, viewport, frame);
            var delta := t.score - s.score;
            var weightedDelta := t.weightedScore - s.weightedScore;
            && weightedDelta == delta * SubframeWeightingFactor(frame)
            && 0.0 <= weightedDelta <= delta
            && (frame.MainFrame? ==> weightedDelta == delta)
  {
  }

  /** Finishing a frame consumes its region: both regions are left empty
      and the frame's largest move is reset, while the running maximum and
      the timer are kept. */
  lemma FinishResetsFrame(config: Config, s: TrackerState, now: int, viewport: Rect, frame: FrameKind)
    ensures var t := NotifyPrePaintFinished(config, s, now, viewport, frame);
            && t.region == [] && t.regionExperimental == [] && t.frameMaxDistance == 0
            && t.maxDistance == s.maxDistance && t.timer == s.timer
            && UnionArea(t.regionExperimental) == 0
  {
  }

  /** A frame in which no move was accumulated contributes zero to both
      scores. */
  lemma EmptyFrameContributesNothing(config: Config, s: TrackerState, now: int, viewport: Rect, frame: FrameKind)
    requires s.region == []
    ensures var t := NotifyPrePaintFinished(config, s, now, viewport, frame);
            t.score == s.score && t.weightedScore == s.weightedScore
  {
  }

  /** So finishing a frame twice in a row adds nothing the second time. */
  lemma SecondFinishAddsNothing(config: Config, s: TrackerState, now: int, now': int, viewport: Rect, frame: FrameKind)
    ensures var t := NotifyPrePaintFinished(config, s, now, viewport, frame);
            var u := NotifyPrePaintFinished(config, t, now', viewport, frame);
            u.score == t.score && u.weightedScore == t.weightedScore
  {
    EmptyFrameContributesNothing(config, NotifyPrePaintFinished(config, s, now, viewport, frame), now', viewport, frame);
  }

  /** A frame finished while the post-input timer runs leaves both scores
      unchanged. */
  lemma SuppressedFrameKeepsScores(config: Config, s: TrackerState, now: int, viewport: Rect, frame: FrameKind)
    requires s.timer.IsActive(now)
    ensures var t := NotifyPrePaintFinished(config, s, now, viewport, frame);
            t.score == s.score && t.weightedScore == s.weightedScore && t.maxDistance == s.maxDistance
  {
  }

  /** Moves alone never change the scores or the timer. */
  lemma {:induction false} MovesKeepScores(config: Config, s: TrackerState, moves: seq<Event>)
    requires Valid(s)
    requires forall i :: 0 <= i < |moves| ==> IsMove(moves[i])
    ensures var t := Run(config, s, moves);
            t.score == s.score && t.weightedScore == s.weightedScore && t.timer == s.timer
    decreases |moves|
  {
    if |moves| > 0 {
      StepValid(config, s, moves[0]);
      match moves[0] {
        case ObjectPrePaint(o, n, visible, v) => AccumulateJankEffect(config, s, o, n, v);
        case CompositedLayerMoved(o, n, v) => AccumulateJankEffect(config, s, o, n, v);
      }
      MovesKeepScores(config, Step(config, s, moves[0]), moves[1..]);
    }
  }

  /** Input, then any moves, then the end of the frame before the window
      closes: the scores are exactly what they were before the input, while
      MaxDistance() still takes every accepted move into account. */
  lemma InputSuppressesFollowingFrame(config: Config, s: TrackerState, kind: InputKind, inputTime: int,
                                      moves: seq<Event>, now: int, viewport: Rect, frame: FrameKind)
    requires Valid(s) && MayCauseLayoutChange(kind)
    requires forall i :: 0 <= i < |moves| ==> IsMove(moves[i])
    requires inputTime <= now < inputTime + config.inputSuppressionWindow
    ensures var u := Run(config, NotifyInput(config, s, kind, inputTime), moves);
            var t := NotifyPrePaintFinished(config, u, now, viewport, frame);
            && t.score == s.score && t.weightedScore == s.weightedScore
            && (forall i :: 0 <= i < |moves| && Accepted(config, moves[i]) ==> t.maxDistance >= EventDistance(moves[i]))
  {
    var afterInput := NotifyInput(config, s, kind, inputTime);
    MovesKeepScores(config, afterInput, moves);
    var u := Run(config, afterInput, moves);
    forall i | 0 <= i < |moves| && Accepted(config, moves[i])
      ensures NotifyPrePaintFinished(config, u, now, viewport, frame).maxDistance >= EventDistance(moves[i])
    {
      MaxDistanceCoversAcceptedMoves(config, afterInput, moves, i);
    }
  }

  /** Qualifying input restarts the window at `now` whatever the timer was
      doing: scoring resumes exactly `inputSuppressionWindow` after the
      latest such input, even if an earlier window would have run longer.
      Other input changes nothing. */
  lemma InputRestartsWindow(config: Config, s: TrackerState, kind: InputKind, now: int, later: int)
    ensures MayCauseLayoutChange(kind) ==>
              (IsActive(NotifyInput(config, s, kind, now), later) <==> later >= now + config.inputSuppressionWindow)
    ensures MayCauseLayoutChange(kind) ==>
              NotifyInput(config, s, kind, now) == s.(timer := Running(now + config.inputSuppressionWindow))
    ensures !MayCauseLayoutChange(kind) ==> NotifyInput(config, s, kind, now) == s
  {
  }

  /** Dispose only stops the timer: every score and distance stays as it
      was, and jank is no longer suppressed. */
  lemma DisposeKeepsScores(s: TrackerState, now: int)
    ensures var t := Dispose(s);
            && t.score == s.score && t.weightedScore == s.weightedScore
            && t.maxDistance == s.maxDistance && t.region == s.region
            && t.regionExperimental == s.regionExperimental && t.frameMaxDistance == s.frameMaxDistance
            && IsActive(t, now)
  {
  }

  /** The baseline region and the sweep-line region report the same area:
      both are the area of the union of the same rectangles. */
  lemma RegionsAgree(s: TrackerState)
    requires Valid(s)
    ensures RegionArea(s.region) == UnionArea(s.regionExperimental)
  {
    RegionAreaIsUnionArea(s.region);
  }

  /** An unsuppressed frame adds to the unweighted score the share of the
      viewport covered by the union of the frame's moved rectangles, times
      the distance fraction of its largest move; the weighted score gets the
      same amount times the subframe weighting factor. */
  lemma FinishScoresUnion(config: Config, s: TrackerState, now: int, viewport: Rect, frame: FrameKind)
    requires Valid(s) && !s.timer.IsActive(now)
    ensures var t := NotifyPrePaintFinished(config, s, now, viewport, frame);
            var delta := JankFraction(UnionArea(s.regionExperimental), viewport) * DistanceFraction(config, s.frameMaxDistance);
            && t.score - s.score == delta
            && t.weightedScore - s.weightedScore == delta * SubframeWeightingFactor(frame)
  {
    RegionsAgree(s);
  }

  /** All of the frame's jank lies in `viewport`. */
  ghost predicate RegionInside(s: TrackerState, viewport: Rect) {
    UnionCells(s.region) <= Cells(viewport)
  }

  /** Moves reported against one viewport keep the frame's region inside
      it. */
  lemma AccumulateStaysInside(config: Config, s: TrackerState, oldRect: Rect, newRect: Rect, viewport: Rect)
    requires Valid(s) && RegionInside(s, viewport)
    ensures RegionInside(AccumulateJank(config, s, oldRect, newRect, viewport), viewport)
  {
    AccumulateJankEffect(config, s, oldRect, newRect, viewport);
    WithinCells(Intersect(oldRect, viewport), viewport);
    WithinCells(Intersect(newRect, viewport), viewport);
  }

  /** Then the jank fraction of the frame is at most 1. */
  lemma JankFractionAtMostOne(config: Config, s: TrackerState, now: int, viewport: Rect, frame: FrameKind)
    requires Valid(s) && RegionInside(s, viewport)
    ensures FrameRecordOf(config, s, now, viewport, frame).jankFraction <= 1.0
  {
    RegionAreaInside(s, viewport);
    var area := RegionArea(s.region);
    if Area(viewport) > 0 {
      FractionAtMostOne(JankFraction(area, viewport), area as real, Area(viewport) as real);
    }
  }

  lemma RegionAreaInside(s: TrackerState, viewport: Rect)
    requires Valid(s) && RegionInside(s, viewport)
    ensures RegionArea(s.region) <= Area(viewport)
  {
    RegionAreaIsUnionArea(s.region);
    CellsSize(viewport);
    var inside := UnionCells(s.region);
    assert Cells(viewport) == inside + (Cells(viewport) - inside);
  }

  lemma FractionAtMostOne(f: real, part: real, whole: real)
    requires 0.0 < whole && part <= whole && f * whole == part
    ensures f <= 1.0
  {
    assert (f - 1.0) * whole == part - whole;
  }

  // ---------------------------------------------------------------------
  // A worked frame: a 100x100 object in a 1000x1000 main-frame viewport
  // moves 50 units down.

  function ExampleMoved(): TrackerState {
    TrackerState(0.0, 0.0, [Rect(0, 0, 100, 100), Rect(0, 100, 100, 150)],
                 [Rect(0, 0, 100, 100), Rect(0, 50, 100, 150)], Stopped, 50, 50)
  }

  /** The baseline region keeps the old rectangle and adds only the band of
      the new one below it. */
  lemma ExampleSubtract()
    ensures SubtractAll([Rect(0, 50, 100, 150)], Rect(0, 0, 100, 100)) == [Rect(0, 100, 100, 150)]
  {
    assert [Rect(0, 50, 100, 150)][..0] == [];
    assert Subtract(Rect(0, 50, 100, 150), Rect(0, 0, 100, 100)) == [Rect(0, 100, 100, 150)];
  }

  lemma ExampleUnite()
    ensures Unite([Rect(0, 0, 100, 100)], Rect(0, 50, 100, 150)) == [Rect(0, 0, 100, 100), Rect(0, 100, 100, 150)]
  {
    assert [Rect(0, 0, 100, 100)][..0] == [];
    ExampleSubtract();
  }

  lemma ExampleArea()
    ensures RegionArea([Rect(0, 0, 100, 100), Rect(0, 100, 100, 150)]) == 15000
  {
    assert [Rect(0, 0, 100, 100), Rect(0, 100, 100, 150)][..1] == [Rect(0, 0, 100, 100)];
  }

  lemma ExampleMove(config: Config)
    requires config.movementThreshold <= 50
    ensures NotifyObjectPrePaint(config, Initial(), Rect(0, 0, 100, 100), Rect(0, 50, 100, 150), true,
                                 Rect(0, 0, 1000, 1000)) == ExampleMoved()
  {
    UniteIntoEmpty(Rect(0, 0, 100, 100));
    ExampleUnite();
  }

  lemma ExampleRecord(config: Config)
    ensures var record := FrameRecordOf(config, ExampleMoved(), 0, Rect(0, 0, 1000, 1000), MainFrame);
            && record.regionArea == 15000 && record.jankFraction == 0.015
            && record.scoreDelta == 0.015 * DistanceFraction(config, 50)
  {
    ExampleArea();
  }

  /** The two rectangles cover 100x150 = 15000 cells of the 1000000 in the
      viewport, so the frame scores 0.015 times the distance fraction of a
      50-unit move, on both scores alike. */
  lemma SingleMoveScenario(config: Config)
    requires config.movementThreshold <= 50
    ensures var viewport := Rect(0, 0, 1000, 1000);
            var moved := NotifyObjectPrePaint(config, Initial(), Rect(0, 0, 100, 100), Rect(0, 50, 100, 150), true, viewport);
            var record := FrameRecordOf(config, moved, 0, viewport, MainFrame);
            var finished := NotifyPrePaintFinished(config, moved, 0, viewport, MainFrame);
            && record.regionArea == 15000
            && record.jankFraction == 0.015
            && finished.score == 0.015 * DistanceFraction(config, 50)
            && finished.weightedScore == finished.score
            && finished.maxDistance == 50
  {
    ExampleMove(config);
    ExampleRecord(config);
  }

  /** The same move right after a tap: the frame is suppressed,
      the score stays 0, yet MaxDistance() still records the move. */
  lemma SuppressedMoveScenario(config: Config)
    requires config.movementThreshold <= 50 && config.inputSuppressionWindow > 0
    ensures var viewport := Rect(0, 0, 1000, 1000);
            var pressed := NotifyInput(config, Initial(), Tap, 0);
            var moved := NotifyObjectPrePaint(config, pressed, Rect(0, 0, 100, 100), Rect(0, 50, 100, 150), true, viewport);
            var finished := NotifyPrePaintFinished(config, moved, 0, viewport, MainFrame);
            && finished.score == 0.0 && finished.weightedScore == 0.0
            && finished.maxDistance == 50
  {
    var viewport := Rect(0, 0, 1000, 1000);
    var pressed := NotifyInput(config, Initial(), Tap, 0);
    assert pressed == Initial().(timer := Running(config.inputSuppressionWindow));
    AccumulateJankEffect(config, pressed, Rect(0, 0, 100, 100), Rect(0, 50, 100, 150), viewport);
    var moved := NotifyObjectPrePaint(config, pressed, Rect(0, 0, 100, 100), Rect(0, 50, 100, 150), true, viewport);
    assert moved.score == 0.0 && moved.weightedScore == 0.0 && moved.maxDistance == 50;
    SuppressedFrameKeepsScores(config, moved, 0, viewport, MainFrame);
  }
}

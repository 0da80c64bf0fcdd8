/** JankTracker: the per-frame tracker that layout and paint notify of
    moved rectangles, and that turns each animation frame's moves into a
    contribution to two cumulative scores.

    Each method updates the fields in place and is proved to leave the
    tracker in exactly the state the matching step of JankModel describes,
    so every property proved there (cumulative scores, the bounded weighted
    increment, the running maximum distance, the per-frame region reset,
    suppression after input) holds of the object. */
module Tracker {
  import opened Geometry
  import opened Region
  import JankRegion
  import opened JankModel

  class JankTracker {
    const config: Config

    /** The cumulative score, unweighted. */
    var score: real
    /** The cumulative score, each increase weighted by how much of the
        main frame the frame visibly occupied. */
    var weightedScore: real
    /** The current animation frame's jank, as disjoint pieces. */
    var region: seq<Rect>
    /** The same jank as the rectangles given to the sweep-line region. */
    var regionExperimental: seq<Rect>
    /** The post-input suppression timer. */
    var timer: Timer
    /** The largest distance anything has moved in any frame. */
    var maxDistance: nat
    /** The largest distance anything has moved in the current frame. */
    var frameMaxDistance: nat

    function State(): TrackerState
      reads this
    {
      TrackerState(score, weightedScore, region, regionExperimental, timer, maxDistance, frameMaxDistance)
    }

    ghost predicate Valid()
      reads this
    {
      JankModel.Valid(State())
    }

    constructor(config: Config)
      ensures this.config == config
      ensures State() == Initial() && Valid()
    {
      this.config := config;
      score := 0.0;
      weightedScore := 0.0;
      region := [];
      regionExperimental := [];
      timer := Stopped;
      maxDistance := 0;
      frameMaxDistance := 0;
    }

    /** Score() returns the unweighted score and changes nothing. */
    function Score(): (r: real)
      reads this
      ensures r == State().score
    {
      score
    }

    /** WeightedScore() returns the weighted score and changes nothing. */
    function WeightedScore(): (r: real)
      reads this
      ensures r == State().weightedScore
      ensures Valid() ==> 0.0 <= r <= Score()
    {
      weightedScore
    }

    /** MaxDistance() returns the largest distance recorded and changes
        nothing. */
    function MaxDistance(): (r: nat)
      reads this
      ensures r == State().maxDistance
      ensures Valid() ==> r >= frameMaxDistance
    {
      maxDistance
    }

    /** Jank is scored at `now` unless the timer started by input is still
        running. */
    function IsActive(now: int): (active: bool)
      reads this
      ensures active <==> !(timer.Running? && now < timer.deadline)
      ensures active == JankModel.IsActive(State(), now)
    {
      !timer.IsActive(now)
    }

    /** Accumulates a move unless it is jitter or lies wholly outside the
        viewport. */
    method AccumulateJank(oldRect: Rect, newRect: Rect, viewport: Rect)
      requires Valid()
      modifies this
      ensures Valid()
      ensures State() == JankModel.AccumulateJank(config, old(State()), oldRect, newRect, viewport)
    {
      ghost var before := State();
      var distance := MoveDistance(oldRect, newRect);
      var visibleOld := Intersect(oldRect, viewport);
      var visibleNew := Intersect(newRect, viewport);
      if distance >= config.movementThreshold && !(IsEmpty(visibleOld) && IsEmpty(visibleNew)) {
        region := Unite(Unite(region, visibleOld), visibleNew);
        regionExperimental := regionExperimental + [visibleOld, visibleNew];
        if distance > maxDistance {
          maxDistance := distance;
        }
        if distance > frameMaxDistance {
          frameMaxDistance := distance;
        }
      }
      assert State() == JankModel.AccumulateJank(config, before, oldRect, newRect, viewport);
      AccumulateJankValid(config, before, oldRect, newRect, viewport);
    }

    /** A layout object's visual rectangle moved from `oldRect` to
        `newRect`; objects that are not visible are ignored. */
    method NotifyObjectPrePaint(oldRect: Rect, newRect: Rect, visible: bool, viewport: Rect)
      requires Valid()
      modifies this
      ensures Valid()
      ensures State() == JankModel.NotifyObjectPrePaint(config, old(State()), oldRect, newRect, visible, viewport)
    {
      if visible {
        AccumulateJank(oldRect, newRect, viewport);
      }
    }

    /** A composited layer moved as a whole. */
    method NotifyCompositedLayerMoved(oldLayerRect: Rect, newLayerRect: Rect, viewport: Rect)
      requires Valid()
      modifies this
      ensures Valid()
      ensures State() == JankModel.NotifyCompositedLayerMoved(config, old(State()), oldLayerRect, newLayerRect, viewport)
    {
      AccumulateJank(oldLayerRect, newLayerRect, viewport);
    }

    /** Ends the frame: measures the region both ways, adds the frame's
        contribution to the scores unless input suppresses it, and empties
        the region. Returns the frame's record. */
    method NotifyPrePaintFinished(now: int, viewport: Rect, frame: FrameKind) returns (record: FrameRecord)
      requires Valid()
      modifies this
      ensures Valid()
      ensures record == FrameRecordOf(config, old(State()), now, viewport, frame)
      ensures record.experimentalArea == record.regionArea
      ensures State() == JankModel.NotifyPrePaintFinished(config, old(State()), now, viewport, frame)
    {
      var before := State();
      FinishValid(config, before, now, viewport, frame);
      var frameRecord := FrameRecordOf(config, before, now, viewport, frame);
      var experimentalArea := JankRegion.SweepArea(regionExperimental);
      RegionsAgree(before);
      record := frameRecord.(experimentalArea := experimentalArea);
      score := score + record.scoreDelta;
      weightedScore := weightedScore + record.weightedScoreDelta;
      region := [];
      regionExperimental := [];
      frameMaxDistance := 0;
    }

    /** Input that may change the layout restarts the suppression window. */
    method NotifyInput(kind: InputKind, now: int)
      requires Valid()
      modifies this
      ensures Valid()
      ensures State() == JankModel.NotifyInput(config, old(State()), kind, now)
    {
      if MayCauseLayoutChange(kind) {
        timer := Running(now + config.inputSuppressionWindow);
      }
    }

    /** Stops the timer. */
    method Dispose()
      requires Valid()
      modifies this
      ensures Valid()
      ensures State() == JankModel.Dispose(old(State()))
    {
      timer := Stopped;
    }

    /** The timer's callback does nothing: suppression ends only because
        time passes the deadline. */
    method TimerFired()
      ensures State() == old(State())
    {
    }
  }
}

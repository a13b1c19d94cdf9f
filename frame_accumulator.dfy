/** The delta-time frame clock of `TravelingArrowsManager.animate`
    (static/js/main.js): every animation-frame callback adds the time since
    the previous callback to `accumulatedTime` and moves to the next frame
    once a whole `interval` has built up. */
module FrameAccumulator {

  import opened FrameCursor

  /** What one callback decides: whether the frame advances, and the new
      value of `accumulatedTime`. */
  datatype AccumulatorStep = AccumulatorStep(advance: bool, accumulated: int)

  /** `accumulatedTime += deltaTime; if (accumulatedTime >= interval) { ...;
      accumulatedTime = accumulatedTime % interval; }`. The total is positive
      whenever the remainder is taken, so JavaScript's `%` and Dafny's agree. */
  function Accumulate(accumulated: int, delta: int, interval: int): (s: AccumulatorStep)
    requires interval > 0
    ensures s.advance <==> accumulated + delta >= interval
    ensures s.accumulated < interval
    ensures accumulated + delta >= 0 ==> s.accumulated >= 0
    ensures !s.advance ==> s.accumulated == accumulated + delta
    ensures s.advance ==> s.accumulated + interval <= accumulated + delta
    ensures (accumulated + delta - s.accumulated) % interval == 0
  {
    var total := accumulated + delta;
    if total >= interval then
      var q := total / interval;
      assert total == q * interval + total % interval && q >= 1 by {
        Arith.DivMod(total, interval);
      }
      assert (total - total % interval) % interval == 0 by {
        Arith.DivModUnique(total - total % interval, interval, q, 0);
      }
      assert total % interval + interval <= total by {
        Arith.MulAtLeast(q, interval);
      }
      AccumulatorStep(true, total % interval)
    else
      AccumulatorStep(false, total)
  }

  /** `const deltaTime = timestamp - this.lastFrameTime`, after a falsy
      `lastFrameTime` has been set to `timestamp`. */
  function DeltaTime(lastFrameTime: int, timestamp: int): (delta: int)
    ensures lastFrameTime == 0 ==> delta == 0
    ensures lastFrameTime != 0 ==> lastFrameTime + delta == timestamp
    ensures lastFrameTime == 0 || lastFrameTime <= timestamp ==> delta >= 0
  {
    if lastFrameTime == 0 then 0 else timestamp - lastFrameTime
  }

  /** However long the gap between two callbacks, at most one frame is
      advanced: whole intervals beyond the first are dropped, not caught up. */
  lemma LongGapAdvancesOnce(interval: int, gaps: nat)
    requires interval > 0 && gaps >= 1
    ensures Accumulate(0, gaps * interval, interval) == AccumulatorStep(true, 0)
  {
    assert gaps * interval >= interval by {
      if gaps > 1 { assert gaps * interval == interval + (gaps - 1) * interval; }
    }
    assert (gaps * interval) % interval == 0 by {
      Arith.DivModUnique(gaps * interval, interval, gaps, 0);
    }
  }

  /** The closure state of one `animate` call together with the manager's
      `lastFrameTime` field, which the callback reads and writes. */
  class FrameClock {
    const frames: seq<int>
    const interval: int
    var currentFrameIndex: nat
    var accumulatedTime: int
    /** `this.lastFrameTime`; 0 is JavaScript-falsy and means "no frame yet". */
    var lastFrameTime: int
    /** The tile index last drawn. */
    var displayed: int
    /** Frames advanced so far. */
    ghost var advances: nat
    /** Sum of every `deltaTime` added so far. */
    ghost var elapsed: int

    ghost predicate Valid()
      reads this
    {
      && |frames| > 0 && interval > 0
      && lastFrameTime >= 0
      && 0 <= accumulatedTime < interval
      && currentFrameIndex == AdvanceBy(0, advances, |frames|)
      && advances * interval + accumulatedTime <= elapsed
    }

    /** The accumulator step taken by a callback at `timestamp`. */
    function Step(accumulated: int, last: int, timestamp: int): AccumulatorStep
      reads this
      requires interval > 0
    {
      Accumulate(accumulated, DeltaTime(last, timestamp), interval)
    }

    /** `animate(elements, frameSequence, interval)` before its first callback. */
    constructor Start(frameSequence: seq<int>, frameInterval: int, lastFrame: int)
      requires |frameSequence| > 0 && frameInterval > 0 && lastFrame >= 0
      ensures Valid()
      ensures frames == frameSequence && interval == frameInterval
      ensures currentFrameIndex == 0 && accumulatedTime == 0 && lastFrameTime == lastFrame
      ensures advances == 0 && elapsed == 0
    {
      frames, interval := frameSequence, frameInterval;
      currentFrameIndex, accumulatedTime, lastFrameTime := 0, 0, lastFrame;
      displayed := 0;
      advances, elapsed := 0, 0;
    }

    /** One `requestAnimationFrame` callback at `timestamp`. Animation-frame
        timestamps never go backwards. */
    method OnAnimationFrame(timestamp: int)
      requires Valid() && timestamp >= lastFrameTime
      modifies this
      ensures Valid()
      ensures Step(old(accumulatedTime), old(lastFrameTime), timestamp).accumulated == accumulatedTime
      ensures Step(old(accumulatedTime), old(lastFrameTime), timestamp).advance ==>
                && displayed == frames[old(currentFrameIndex)]
                && currentFrameIndex == NextFrameIndex(old(currentFrameIndex), |frames|)
                && advances == old(advances) + 1
      ensures !Step(old(accumulatedTime), old(lastFrameTime), timestamp).advance ==>
                && displayed == old(displayed)
                && currentFrameIndex == old(currentFrameIndex)
                && advances == old(advances)
      ensures elapsed == old(elapsed) + DeltaTime(old(lastFrameTime), timestamp)
      ensures lastFrameTime == timestamp
    {
      if lastFrameTime == 0 {
        lastFrameTime := timestamp;
      }
      var deltaTime := timestamp - lastFrameTime;
      var step := Accumulate(accumulatedTime, deltaTime, interval);
      if step.advance {
        displayed := frames[currentFrameIndex];
        currentFrameIndex := NextFrameIndex(currentFrameIndex, |frames|);
        advances := advances + 1;
      }
      accumulatedTime := step.accumulated;
      elapsed := elapsed + deltaTime;
      lastFrameTime := timestamp;
    }
  }
}

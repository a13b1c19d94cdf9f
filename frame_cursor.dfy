/** The interval-driven frame cursor of `TilesetSprite.animate`
    (static/js/main.js): a closure variable `currentFrameIndex` that every
    timer tick uses to pick the tile to draw and then moves one step around
    the frame sequence. */
module FrameCursor {

  import opened Arith

  /** One tick: `(currentFrameIndex + 1) % frameSequence.length`. */
  function NextFrameIndex(i: nat, length: nat): (j: nat)
    requires length > 0
    ensures j < length
    ensures i < length - 1 ==> j == i + 1
    ensures i == length - 1 ==> j == 0
  {
    (i + 1) % length
  }

  /** The cursor after `n` ticks from `i`. */
  function AdvanceBy(i: nat, n: nat, length: nat): (j: nat)
    requires i < length
    ensures j < length
  {
    if n == 0 then i else NextFrameIndex(AdvanceBy(i, n - 1, length), length)
  }

  /** Ticking `n` times moves the cursor `n` places around the circle. */
  lemma {:induction false} AdvanceByIsModular(i: nat, n: nat, length: nat)
    requires i < length
    ensures AdvanceBy(i, n, length) == (i + n) % length
  {
    if n > 0 {
      AdvanceByIsModular(i, n - 1, length);
      ModSucc(i + n - 1, length);
    }
  }

  /** Starting from frame 0, the cursor is back at frame 0 after `n` ticks
      exactly when `n` is a multiple of the sequence length: it returns after
      `length` ticks and not before. */
  lemma CursorReturnsAfterLength(n: nat, length: nat)
    requires length > 0
    ensures AdvanceBy(0, n, length) == 0 <==> n % length == 0
    ensures AdvanceBy(0, length, length) == 0
    ensures 0 < n < length ==> AdvanceBy(0, n, length) != 0
  {
    AdvanceByIsModular(0, n, length);
    AdvanceByIsModular(0, length, length);
  }

  /** The tiles drawn by the first `n` calls of `updateFrame`, in order. */
  function Rendered(frames: seq<int>, n: nat): seq<int>
    requires |frames| > 0
  {
    if n == 0 then [] else Rendered(frames, n - 1) + [frames[AdvanceBy(0, n - 1, |frames|)]]
  }

  /** Render number `k` draws `frames[k mod length]`: the sequence is visited
      in circular order. */
  lemma {:induction false} RenderedAt(frames: seq<int>, n: nat, k: nat)
    requires |frames| > 0 && k < n
    ensures |Rendered(frames, n)| == n
    ensures Rendered(frames, n)[k] == frames[k % |frames|]
  {
    if k == n - 1 {
      RenderedLength(frames, n);
      AdvanceByIsModular(0, n - 1, |frames|);
    } else {
      RenderedAt(frames, n - 1, k);
    }
  }

  lemma {:induction false} RenderedLength(frames: seq<int>, n: nat)
    requires |frames| > 0
    ensures |Rendered(frames, n)| == n
  {
    if n > 0 {
      RenderedLength(frames, n - 1);
    }
  }

  /** The state one call of `animate` keeps alive: the frame sequence, the
      closure's `currentFrameIndex` and the tile its elements show. */
  class FrameAnimation {
    const frames: seq<int>
    var currentFrameIndex: nat
    /** The tile index last drawn on every element passed to `animate`. */
    var displayed: int
    /** Every tile drawn so far, in drawing order. */
    ghost var rendered: seq<int>

    ghost predicate Valid()
      reads this
    {
      && |frames| > 0
      && currentFrameIndex == AdvanceBy(0, |rendered|, |frames|)
      && rendered == Rendered(frames, |rendered|)
      && |rendered| > 0
      && displayed == rendered[|rendered| - 1]
    }

    /** `animate(elements, frameSequence, interval)`: draws
        `frameSequence[0]` at once, then leaves the cursor on the next frame. */
    constructor Start(frameSequence: seq<int>)
      requires |frameSequence| > 0
      ensures Valid()
      ensures frames == frameSequence
      ensures displayed == frameSequence[0] && rendered == [frameSequence[0]]
      ensures currentFrameIndex == NextFrameIndex(0, |frameSequence|)
    {
      frames := frameSequence;
      displayed := frameSequence[0];
      currentFrameIndex := NextFrameIndex(0, |frameSequence|);
      rendered := [frameSequence[0]];
    }

    /** One call of `updateFrame` from the interval timer. */
    method Tick()
      requires Valid()
      modifies this
      ensures Valid()
      ensures displayed == frames[old(currentFrameIndex)]
      ensures currentFrameIndex == NextFrameIndex(old(currentFrameIndex), |frames|)
      ensures rendered == old(rendered) + [displayed]
    {
      displayed := frames[currentFrameIndex];
      currentFrameIndex := NextFrameIndex(currentFrameIndex, |frames|);
      rendered := rendered + [displayed];
    }

    /** Whatever the number of ticks so far, the `k`-th tile drawn was
        `frames[k mod |frames|]` and the cursor stays inside the sequence. */
    lemma DrawnInCircularOrder(k: nat)
      requires Valid() && k < |rendered|
      ensures currentFrameIndex < |frames|
      ensures rendered[k] == frames[k % |frames|]
    {
      RenderedAt(frames, |rendered|, k);
    }
  }
}

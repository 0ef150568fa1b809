/** The double-buffered capturer and its frame diff (rfb/pipelined_capturer.go). */
module Capturing {
  import opened Bytes
  import opened Streams
  import opened Grid
  import opened FrameDiffs

  /** `copy` into a buffer grown only when it is too short: a longer old buffer keeps its tail. */
  function Refill(buffer: seq<Byte>, pixels: seq<Byte>): (r: seq<Byte>)
    ensures pixels <= r && |r| == if |buffer| < |pixels| then |pixels| else |buffer|
    ensures r[|pixels|..] == if |buffer| < |pixels| then [] else buffer[|pixels|..]
  {
    if |buffer| < |pixels| then pixels else Overwrite(buffer, pixels)
  }

  class PipelinedCapturer {
    var bufs: seq<seq<Byte>>
    var strides: seq<nat>
    var cur: nat
    /** The buffer the capture loop fills next. */
    var next: nat
    var diffPrev: Option<seq<Byte>>
    var diffPrevW: nat
    var diffPrevH: nat
    var dirtyRects: Option<seq<Rect>>
    var dirtyComputed: bool

    /** The loop never fills the buffer that is on show. */
    predicate Valid()
      reads this
    {
      |bufs| == |strides| == 2 && cur < 2 && next == 1 - cur
    }

    /** The frame `Capture` would return now. */
    function Current(): seq<Byte>
      requires Valid()
      reads this
    {
      bufs[cur]
    }

    constructor ()
      ensures Valid() && Current() == [] && diffPrev.None? && !dirtyComputed
    {
      bufs, strides, cur, next := [[], []], [0, 0], 0, 1;
      diffPrev, diffPrevW, diffPrevH := None, 0, 0;
      dirtyRects, dirtyComputed := None, false;
    }

    /** One turn of the capture loop with the frame the screen gave; an empty one is dropped. */
    method Publish(pixels: seq<Byte>, stride: nat)
      requires Valid()
      modifies this`bufs, this`strides, this`cur, this`next
      ensures Valid()
      ensures pixels == [] ==> Current() == old(Current()) && strides[cur] == old(strides[cur])
      ensures pixels != [] ==> Current() == Refill(old(bufs[next]), pixels) && strides[cur] == stride
      ensures pixels != [] ==> bufs[next] == old(Current())
    {
      if |pixels| > 0 {
        bufs := bufs[next := Refill(bufs[next], pixels)];
        strides := strides[next := stride];
        cur := next;
        next := 1 - next;
      }
    }

    /** A copy of the current frame, compared with the one before it; no result while there is none yet. */
    method Capture(w: nat, h: nat) returns (r: Option<(seq<Byte>, nat)>)
      requires Valid()
      requires Current() != [] && diffPrev.Some? && diffPrevW == w && diffPrevH == h ==>
                 Comparable(Current(), diffPrev.value, strides[cur], w, h)
      modifies this`diffPrev, this`diffPrevW, this`diffPrevH, this`dirtyRects, this`dirtyComputed
      ensures Valid()
      ensures Current() == [] ==> r.None? && diffPrev == old(diffPrev)
      ensures Current() != [] ==>
                && r == Some((Current(), strides[cur])) && dirtyComputed && diffPrevW == w && diffPrevH == h
                && if old(diffPrev).None? || old(diffPrevW) != w || old(diffPrevH) != h
                   then dirtyRects == None && diffPrev == Some(Current())
                   else dirtyRects == Some(DirtyTiles(Current(), old(diffPrev).value, strides[cur], w, h))
                        && diffPrev == Some(Overwrite(old(diffPrev).value, Current()))
    {
      if |bufs[cur]| == 0 { return None; }
      var out, stride := bufs[cur], strides[cur];
      dirtyRects := FrameDiff(out, w, h, stride);
      dirtyComputed := true;
      return Some((out, stride));
    }

    method FrameDiff(pixels: seq<Byte>, width: nat, height: nat, stride: nat) returns (r: Option<seq<Rect>>)
      requires diffPrev.Some? && diffPrevW == width && diffPrevH == height ==>
                 Comparable(pixels, diffPrev.value, stride, width, height)
      modifies this`diffPrev, this`diffPrevW, this`diffPrevH
      ensures diffPrevW == width && diffPrevH == height
      ensures if old(diffPrev).None? || old(diffPrevW) != width || old(diffPrevH) != height
              then r == None && diffPrev == Stored(old(diffPrev), pixels)
              else r == Some(DirtyTiles(pixels, old(diffPrev).value, stride, width, height))
                   && diffPrev == Some(Overwrite(old(diffPrev).value, pixels))
    {
      if diffPrev.None? || diffPrevW != width || diffPrevH != height {
        diffPrev := Stored(diffPrev, pixels);
        diffPrevW := width;
        diffPrevH := height;
        return None;
      }
      var dirty := FindDirtyTiles(pixels, diffPrev.value, stride, width, height);
      diffPrev := Some(Overwrite(diffPrev.value, pixels));
      return Some(dirty);
    }

    /** The dirty rectangles of the last capture, once. */
    method LastDirtyRects() returns (r: Option<seq<Rect>>)
      requires Valid()
      modifies this`dirtyComputed
      ensures Valid() && !dirtyComputed
      ensures r == if old(dirtyComputed) then dirtyRects else None
    {
      if !dirtyComputed { return None; }
      dirtyComputed := false;
      return dirtyRects;
    }
  }
}

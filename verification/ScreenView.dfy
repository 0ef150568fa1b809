/**
  Whole runs of capture and update: what the client shows after every answered request is the last
  captured frame, although all but the first answer only carry the tiles that changed.
 */
module ScreenView {
  import opened Bytes
  import opened Streams
  import opened Grid
  import opened FrameDiffs
  import opened Capturing
  import opened PixelFormats
  import opened Protocol
  import opened Framebuffers
  import opened Updates

  /** Where a rectangle is drawn. */
  function Target(h: RectHeader): Rect {
    Rect(h.x, h.y, h.x + h.width, h.y + h.height)
  }

  ghost function Draw(v: View, r: Rectangle): View {
    Overlay(v, Target(r.header), PackedView(r.data, r.header.width, r.header.x, r.header.y))
  }

  ghost function DrawAll(v: View, rects: seq<Rectangle>): View {
    if rects == [] then v else Draw(DrawAll(v, rects[..|rects| - 1]), rects[|rects| - 1])
  }

  /** A complete raw rectangle inside the framebuffer. */
  predicate Drawable(r: Rectangle, width: nat, height: nat) {
    && r.header.x + r.header.width <= width && r.header.y + r.header.height <= height
    && |r.data| >= 4 * At(r.header.height, r.header.width)
  }

  method DecodeRaw(fb: Framebuffer, r: Rectangle)
    requires fb.Valid() && Drawable(r, fb.width, fb.height)
    modifies fb`pic, fb`dirty, fb.data
    ensures fb.Valid() && fb.dirty == old(fb.dirty) + [Target(r.header)]
    ensures forall x: int, y: int :: fb.pic(x, y) == Draw(old(fb.pic), r)(x, y)
  {
    var h := r.header;
    var numPixels := h.width * h.height;
    AtIsProduct(h.height, h.width);
    RowsOnly(r.data, h.width, h.height, h.x, h.y);
    fb.WriteRect(h.x, h.y, h.width, h.height, r.data[..numPixels * 4]);
  }

  lemma {:induction false} RowsOnly(data: seq<Byte>, w: nat, h: nat, x: int, y: int)
    requires |data| >= 4 * At(h, w)
    ensures forall px: int, py: int :: Rect(x, y, x + w, y + h).Contains(px, py) ==>
              PackedView(data[..4 * At(h, w)], w, x, y)(px, py) == PackedView(data, w, x, y)(px, py)
  {
    forall px: int, py: int | Rect(x, y, x + w, y + h).Contains(px, py)
      ensures PackedView(data[..4 * At(h, w)], w, x, y)(px, py) == PackedView(data, w, x, y)(px, py)
    {
      OffsetInside(px - x, py - y, w, h);
    }
  }

  /** The browser draws the rectangles of an update in order. */
  method DrawUpdate(fb: Framebuffer, rects: seq<Rectangle>)
    requires fb.Valid() && forall i :: 0 <= i < |rects| ==> Drawable(rects[i], fb.width, fb.height)
    modifies fb`pic, fb`dirty, fb.data
    ensures fb.Valid()
    ensures forall x: int, y: int :: fb.pic(x, y) == DrawAll(old(fb.pic), rects)(x, y)
  {
    for i := 0 to |rects|
      invariant fb.Valid()
      invariant forall x: int, y: int :: fb.pic(x, y) == DrawAll(old(fb.pic), rects[..i])(x, y)
    {
      assert rects[..i + 1][..i] == rects[..i];
      DecodeRaw(fb, rects[i]);
    }
    assert rects[..|rects|] == rects;
  }

  /** Size, stride and formats, fixed for a whole run. */
  datatype Setup = Setup(w: nat, h: nat, stride: nat, pf: PixelFormat, serverPf: PixelFormat) {
    function Screen(): Rect { Rect(0, 0, w, h) }

    /** The frame has every visible pixel. */
    predicate Covers(frame: seq<Byte>) { Extent(stride, w, h) <= |frame| }
  }

  /** A region as the server computes them: within the screen, and no side negative. */
  predicate Proper(k: Setup, region: Rect) {
    region.Within(k.Screen()) && region.x0 <= region.x1 && region.y0 <= region.y1
  }

  lemma {:induction false} CoversRegion(k: Setup, frame: seq<Byte>, region: Rect)
    requires k.Covers(frame) && Proper(k, region)
    ensures InFrame(region, frame, k.stride)
  {
    if region.Height() > 0 { RowInExtent(k.stride, k.w, k.h, region.y0 + region.Height() - 1); }
  }

  lemma {:induction false} CoversPixel(k: Setup, frame: seq<Byte>, x: nat, y: nat)
    requires k.Covers(frame) && x < k.w && y < k.h
    ensures Has(frame, k.stride, x, y)
  {
    RowInExtent(k.stride, k.w, k.h, y);
  }

  /** What the client is to show at a visible pixel. */
  ghost function Wanted(k: Setup, frame: seq<Byte>, x: int, y: int): Rgba
    requires Paired(k.pf, k.serverPf) && k.Covers(frame) && k.Screen().Contains(x, y)
  {
    CoversPixel(k, frame, x, y);
    PixelAt(Sent(k.pf, k.serverPf, PixelBytes(frame, k.stride, x, y)), 0)
  }

  lemma {:induction false} PackedSits(data: seq<Byte>, w: nat, c: nat, r: nat, pixel: seq<Byte>)
    requires |pixel| == 4 && Sits(data, Offset(c, r, w), pixel)
    ensures Packed(data, w, c, r) == PixelAt(pixel, 0)
  {
    var o := Offset(c, r, w);
    assert pixel[0] == data[o] && pixel[1] == data[o + 1] && pixel[2] == data[o + 2] && pixel[3] == data[o + 3];
  }

  function RectOf(k: Setup, frame: seq<Byte>, region: Rect): Rectangle
    requires Paired(k.pf, k.serverPf) && Proper(k, region)
  {
    RawRect(region, frame, k.stride, k.pf, k.serverPf)
  }

  lemma {:induction false} RegionSits(k: Setup, frame: seq<Byte>, region: Rect, x: int, y: int)
    requires Paired(k.pf, k.serverPf) && k.Covers(frame) && Proper(k, region) && region.Contains(x, y)
    ensures Has(frame, k.stride, x, y)
    ensures Sits(RectOf(k, frame, region).data, Offset(x - region.x0, y - region.y0, region.Width()),
                 Sent(k.pf, k.serverPf, PixelBytes(frame, k.stride, x, y)))
  {
    hide RowsFrom, Sent, RawData, PixelBytes;
    var w, h, c, r := region.Width(), region.Height(), x - region.x0, y - region.y0;
    var extracted := RowsFrom(frame, k.stride, region.x0, region.y0, w, h, 0, []);
    CoversRegion(k, frame, region);
    AllRowsExtracted(frame, k.stride, region.x0, region.y0, w, h, 0, []);
    RawPixel(k.pf, k.serverPf, extracted, frame, k.stride, region.x0, region.y0, w, h, c, r);
  }

  /** A raw rectangle shows the frame at every pixel it covers. */
  lemma {:induction false} RegionPixel(k: Setup, frame: seq<Byte>, region: Rect, x: int, y: int)
    requires Paired(k.pf, k.serverPf) && k.Covers(frame) && Proper(k, region) && region.Contains(x, y)
    ensures Packed(RectOf(k, frame, region).data, region.Width(), x - region.x0, y - region.y0) == Wanted(k, frame, x, y)
  {
    RegionSits(k, frame, region, x, y);
    PackedSits(RectOf(k, frame, region).data, region.Width(), x - region.x0, y - region.y0,
               Sent(k.pf, k.serverPf, PixelBytes(frame, k.stride, x, y)));
  }

  /** A raw rectangle shows the frame at every pixel it covers, and leaves the others. */
  lemma {:induction false} DrawnPixel(k: Setup, frame: seq<Byte>, region: Rect, v: View, x: int, y: int)
    requires Paired(k.pf, k.serverPf) && k.Covers(frame) && Proper(k, region) && k.Screen().Contains(x, y)
    ensures Draw(v, RectOf(k, frame, region))(x, y)
            == if region.Contains(x, y) then Wanted(k, frame, x, y) else v(x, y)
  {
    hide Wanted, Packed, Updates.RowsFrom, Updates.RawData;
    if region.Contains(x, y) {
      RegionPixel(k, frame, region, x, y);
    }
  }

  predicate AllProper(k: Setup, regions: seq<Rect>) {
    forall i :: 0 <= i < |regions| ==> Proper(k, regions[i])
  }

  function RawRects(k: Setup, frame: seq<Byte>, regions: seq<Rect>): seq<Rectangle>
    requires Paired(k.pf, k.serverPf) && AllProper(k, regions)
  {
    seq(|regions|, i requires 0 <= i < |regions| => RectOf(k, frame, regions[i]))
  }

  /** The whole update shows the frame on its regions. */
  lemma {:induction false} DrawnUpdate(k: Setup, frame: seq<Byte>, regions: seq<Rect>, v: View, x: int, y: int)
    requires Paired(k.pf, k.serverPf) && k.Covers(frame) && AllProper(k, regions) && k.Screen().Contains(x, y)
    ensures DrawAll(v, RawRects(k, frame, regions))(x, y)
            == if InSome(regions, x, y) then Wanted(k, frame, x, y) else v(x, y)
    decreases |regions|
  {
    hide RectOf, Draw, Wanted;
    if regions != [] {
      var n := |regions| - 1;
      var before, rects := regions[..n], RawRects(k, frame, regions);
      assert rects[..n] == RawRects(k, frame, before);
      DrawnUpdate(k, frame, before, v, x, y);
      DrawnPixel(k, frame, regions[n], DrawAll(v, rects[..n]), x, y);
      assert before + [regions[n]] == regions;
      InSomeLast(before, regions[n], x, y);
    }
  }

  /** The capturer's two buffers and last compared frame, and what the client shows. */
  datatype State = State(cur: seq<Byte>, spare: seq<Byte>, prev: Option<seq<Byte>>, client: View)

  /** A turn of the capture loop, or a request of the whole screen. */
  datatype Event = Publish(pixels: seq<Byte>) | Request(incremental: bool)

  /** What the capturer reports: nothing for the first frame, else the tiles that changed. */
  ghost function Reported(k: Setup, s: State): Option<seq<Rect>> {
    if s.prev.None? then None else Some(DirtyTiles(s.cur, s.prev.value, k.stride, k.w, k.h))
  }

  /** The regions an answer carries; a full request ignores the report. */
  ghost function Answered(k: Setup, s: State, incremental: bool): seq<Rect> {
    Regions(k.Screen(), if incremental then Reported(k, s) else None)
  }

  lemma {:induction false} AnsweredProper(k: Setup, s: State, incremental: bool)
    ensures AllProper(k, Answered(k, s, incremental))
  {
    var dirty := if incremental then Reported(k, s) else None;
    if dirty.Some? { PartsWithin(dirty.value, k.Screen()); }
  }

  /** A request waits while no frame has been captured. */
  ghost function Step(k: Setup, s: State, e: Event): State
    requires Paired(k.pf, k.serverPf)
  {
    match e
    case Publish(pixels) => if pixels == [] then s else s.(cur := Refill(s.spare, pixels), spare := s.cur)
    case Request(incremental) =>
      if s.cur == [] then s
      else
        AnsweredProper(k, s, incremental);
        State(s.cur, s.spare, Some(if s.prev.None? then s.cur else Overwrite(s.prev.value, s.cur)),
              DrawAll(s.client, RawRects(k, s.cur, Answered(k, s, incremental))))
  }

  ghost function Run(k: Setup, s: State, events: seq<Event>): State
    requires Paired(k.pf, k.serverPf)
    decreases |events|
  {
    if events == [] then s else Run(k, Step(k, s, events[0]), events[1..])
  }

  /** Every frame the screen gives has all visible pixels. */
  ghost predicate AllCover(k: Setup, events: seq<Event>) {
    forall i :: 0 <= i < |events| ==> EventCovers(k, events[i])
  }

  predicate EventCovers(k: Setup, e: Event) {
    e.Publish? && e.pixels != [] ==> k.Covers(e.pixels)
  }

  lemma {:induction false} CoverLater(k: Setup, events: seq<Event>)
    requires AllCover(k, events) && events != []
    ensures EventCovers(k, events[0]) && AllCover(k, events[1..])
  {
    forall i | 0 <= i < |events[1..]| ensures EventCovers(k, events[1..][i]) { assert EventCovers(k, events[i + 1]); }
  }

  ghost predicate Valid(k: Setup, s: State) {
    && Paired(k.pf, k.serverPf)
    && (s.cur != [] ==> k.Covers(s.cur))
    && (s.spare != [] ==> k.Covers(s.spare))
    && (s.prev.Some? ==> k.Covers(s.prev.value))
  }

  ghost predicate Shows(k: Setup, client: View, frame: seq<Byte>)
    requires Paired(k.pf, k.serverPf) && k.Covers(frame)
  {
    forall x: int, y: int :: k.Screen().Contains(x, y) ==> client(x, y) == Wanted(k, frame, x, y)
  }

  /** The client shows the frame the next one will be compared with. */
  ghost predicate InSync(k: Setup, s: State)
    requires Valid(k, s)
  {
    s.prev.Some? ==> Shows(k, s.client, s.prev.value)
  }

  lemma {:induction false} StepValid(k: Setup, s: State, e: Event)
    requires Valid(k, s) && EventCovers(k, e)
    ensures Valid(k, Step(k, s, e))
  {
  }

  /** The remembered frame has the pixels of the frame just compared. */
  lemma {:induction false} Remembered(k: Setup, prev: seq<Byte>, cur: seq<Byte>, x: int, y: int)
    requires Paired(k.pf, k.serverPf) && k.Covers(prev) && k.Covers(cur) && k.Screen().Contains(x, y)
    ensures k.Covers(Overwrite(prev, cur)) && Wanted(k, Overwrite(prev, cur), x, y) == Wanted(k, cur, x, y)
  {
    CoversPixel(k, prev, x, y);
    CoversPixel(k, cur, x, y);
    assert PixelBytes(Overwrite(prev, cur), k.stride, x, y) == PixelBytes(cur, k.stride, x, y);
  }

  /** After one answer, a pixel is right exactly when it was right before or the answer carried it. */
  lemma {:induction false} AnswerRepairs(k: Setup, s: State, incremental: bool, x: int, y: int)
    requires Valid(k, s) && s.cur != [] && k.Screen().Contains(x, y)
    ensures Step(k, s, Request(incremental)).client(x, y) == Wanted(k, s.cur, x, y) <==>
              || s.client(x, y) == Wanted(k, s.cur, x, y)
              || !incremental || s.prev.None?
              || InSome(DirtyTiles(s.cur, s.prev.value, k.stride, k.w, k.h), x, y)
  {
    AnsweredProper(k, s, incremental);
    DrawnUpdate(k, s.cur, Answered(k, s, incremental), s.client, x, y);
    RegionsCover(k.Screen(), if incremental then Reported(k, s) else None, x, y);
  }

  /** A full answer, an answer on a first frame and an answer to a client in sync all show the current frame. */
  lemma {:induction false} AnswerShows(k: Setup, s: State, incremental: bool)
    requires Valid(k, s) && s.cur != [] && (!incremental || InSync(k, s))
    ensures Valid(k, Step(k, s, Request(incremental)))
    ensures Shows(k, Step(k, s, Request(incremental)).client, s.cur)
    ensures InSync(k, Step(k, s, Request(incremental)))
  {
    var after := Step(k, s, Request(incremental));
    forall x: int, y: int | k.Screen().Contains(x, y)
      ensures after.client(x, y) == Wanted(k, s.cur, x, y)
      ensures after.client(x, y) == Wanted(k, after.prev.value, x, y)
    {
      AnswerRepairs(k, s, incremental, x, y);
      if s.prev.Some? {
        CoversPixel(k, s.cur, x, y);
        CoversPixel(k, s.prev.value, x, y);
        if PixelChanged(s.cur, s.prev.value, k.stride, x, y) {
          ChangedPixelIsDirty(s.cur, s.prev.value, k.stride, k.w, k.h, x, y);
        }
        Remembered(k, s.prev.value, s.cur, x, y);
      }
    }
  }

  /** The first request, if there is one, is not incremental. */
  predicate FullFirst(events: seq<Event>) {
    events == [] || (if events[0].Request? then !events[0].incremental else FullFirst(events[1..]))
  }

  lemma {:induction false} StepKeepsStart(k: Setup, s: State, e: Event, later: seq<Event>)
    requires Valid(k, s) && EventCovers(k, e)
    requires InSync(k, s) || (s.cur != [] && FullFirst([e] + later))
    ensures Valid(k, Step(k, s, e))
    ensures InSync(k, Step(k, s, e)) || (Step(k, s, e).cur != [] && FullFirst(later))
  {
    StepValid(k, s, e);
    assert ([e] + later)[1..] == later;
    if e.Request? && s.cur != [] {
      AnswerShows(k, s, e.incremental);
    }
  }

  /**
    After any run of captures and requests, the next answered request leaves the client showing
    exactly the last captured frame. The capturer is fresh or the client in sync with it, or else the
    first request of the run is a full one.
   */
  lemma {:induction false} ViewAgrees(k: Setup, s: State, events: seq<Event>, incremental: bool)
    requires Valid(k, s) && AllCover(k, events)
    requires InSync(k, s) || (s.cur != [] && FullFirst(events + [Request(incremental)]))
    ensures var t := Run(k, s, events);
            Valid(k, t) && (t.cur != [] ==> Shows(k, Step(k, t, Request(incremental)).client, t.cur))
    decreases |events|
  {
    if events == [] {
      assert events + [Request(incremental)] == [Request(incremental)];
      if s.cur != [] { AnswerShows(k, s, incremental); }
    } else {
      var e, later := events[0], events[1..];
      CoverLater(k, events);
      assert events + [Request(incremental)] == [e] + (later + [Request(incremental)]);
      StepKeepsStart(k, s, e, later + [Request(incremental)]);
      ViewAgrees(k, Step(k, s, e), later, incremental);
    }
  }

  /** The frame to answer with, and the dirty rectangles to answer about. */
  method CaptureDirty(k: Setup, capturer: PipelinedCapturer, incremental: bool, ghost s: State)
    returns (pixels: seq<Byte>, stride: nat, dirtyRects: Option<seq<Rect>>)
    requires capturer.Valid() && capturer.Current() != [] && capturer.strides[capturer.cur] == k.stride
    requires capturer.diffPrev.Some? ==> capturer.diffPrevW == k.w && capturer.diffPrevH == k.h
    requires Valid(k, s) && s.cur == capturer.Current() && s.prev == capturer.diffPrev
    modifies capturer`diffPrev, capturer`diffPrevW, capturer`diffPrevH, capturer`dirtyRects, capturer`dirtyComputed
    ensures capturer.Valid() && capturer.diffPrev == Step(k, s, Request(incremental)).prev
    ensures pixels == s.cur && stride == k.stride && dirtyRects == if incremental then Reported(k, s) else None
  {
    var captured := capturer.Capture(k.w, k.h);
    pixels, stride := captured.value.0, captured.value.1;
    dirtyRects := None;
    if incremental { dirtyRects := capturer.LastDirtyRects(); }
  }

  /** One raw rectangle for each region of the answer. */
  method EncodeAnswer(k: Setup, pixels: seq<Byte>, stride: nat, dirtyRects: Option<seq<Rect>>)
    returns (rects: seq<Rectangle>)
    requires Paired(k.pf, k.serverPf) && k.Covers(pixels) && stride == k.stride
    requires AllProper(k, Regions(k.Screen(), dirtyRects))
    ensures rects == RawRects(k, pixels, Regions(k.Screen(), dirtyRects))
  {
    var regions := EncodeRegions(Rect(0, 0, k.w, k.h), dirtyRects);
    forall i | 0 <= i < |regions| ensures InFrame(regions[i], pixels, stride) {
      CoversRegion(k, pixels, regions[i]);
    }
    rects := EncodeRegionsRaw(regions, pixels, stride, k.pf, k.serverPf);
  }

  /** The server's half of an answer: capture, dirty rectangles, regions, raw rectangles. */
  method HandleRequest(k: Setup, capturer: PipelinedCapturer, incremental: bool, ghost s: State)
    returns (r: Option<seq<Rectangle>>)
    requires capturer.Valid() && capturer.strides[capturer.cur] == k.stride
    requires capturer.diffPrev.Some? ==> capturer.diffPrevW == k.w && capturer.diffPrevH == k.h
    requires Valid(k, s) && s.cur == capturer.Current() && s.prev == capturer.diffPrev
    modifies capturer`diffPrev, capturer`diffPrevW, capturer`diffPrevH, capturer`dirtyRects, capturer`dirtyComputed
    ensures capturer.Valid() && capturer.diffPrev == Step(k, s, Request(incremental)).prev
    ensures if s.cur == [] then r.None?
            else AllProper(k, Answered(k, s, incremental)) && r == Some(RawRects(k, s.cur, Answered(k, s, incremental)))
  {
    if capturer.Current() == [] { return None; }
    var pixels, stride, dirtyRects := CaptureDirty(k, capturer, incremental, s);
    AnsweredProper(k, s, incremental);
    var rects := EncodeAnswer(k, pixels, stride, dirtyRects);
    r := Some(rects);
  }

  /** The browser's half: the new picture is the next state's. */
  method DrawAnswer(k: Setup, fb: Framebuffer, rects: seq<Rectangle>, incremental: bool, ghost s: State)
    requires Valid(k, s) && s.cur != [] && fb.Valid() && fb.width == k.w && fb.height == k.h && fb.pic == s.client
    requires AllProper(k, Answered(k, s, incremental)) && rects == RawRects(k, s.cur, Answered(k, s, incremental))
    modifies fb`pic, fb`dirty, fb.data
    ensures fb.Valid()
    ensures forall x: int, y: int :: fb.pic(x, y) == Step(k, s, Request(incremental)).client(x, y)
  {
    forall i | 0 <= i < |rects| ensures Drawable(rects[i], fb.width, fb.height) {
      AnswerDrawable(k, s.cur, Answered(k, s, incremental)[i]);
    }
    DrawUpdate(fb, rects);
  }

  lemma {:induction false} AnswerDrawable(k: Setup, frame: seq<Byte>, region: Rect)
    requires Paired(k.pf, k.serverPf) && k.Covers(frame) && Proper(k, region)
    ensures Drawable(RectOf(k, frame, region), k.w, k.h)
  {
    var w, h := region.Width(), region.Height();
    CoversRegion(k, frame, region);
    AllRowsExtracted(frame, k.stride, region.x0, region.y0, w, h, 0, []);
    RawSize(k.pf, k.serverPf, RowsFrom(frame, k.stride, region.x0, region.y0, w, h, 0, []), w, h);
  }
}

/**
  Whole runs of capture and update over Tight, the encoding the browser prefers after H.264: every
  answer carries its regions through the parallel encoder and the four streams, and afterwards every
  visible pixel whose last tile was not a JPEG shows the last captured frame.
 */
module TightView {
  import opened Bytes
  import opened Streams
  import opened Grid
  import opened FrameDiffs
  import opened Framebuffers
  import opened Colours
  import CompactLength
  import TightDecoders
  import TightEncoders
  import TightRoundTrip
  import TightTiles
  import Updates
  import V = ScreenView
  import Zlib
  import ZrleEncoders
  import ZrleRoundTrip

  /** The codecs, the test that picks tiles for JPEG, and what the encoder's first phase makes of a region. */
  datatype Setting = Setting(
    codec: Zlib.Codec, jpeg: seq<Bgr> -> seq<Byte>, bitmap: TightDecoders.Bitmap, varied: seq<Bgr> -> bool,
    classify: (seq<Byte>, Rect) -> seq<TightTiles.TileInfo>)

  /** The first phase does what `TightEncoders.Classify` promises. */
  ghost predicate Classifies(g: Setting, stride: nat, frame: seq<Byte>, region: Rect) {
    var tiles := g.classify(frame, region);
    |tiles| == |Tiles(region)| && TightEncoders.Classified(tiles, Tiles(region), frame, stride, g.varied)
  }

  /** No tile is compressed to 2^22 bytes or more. */
  ghost predicate Bounded(g: Setting) {
    && (forall history: seq<seq<Byte>>, px: seq<Bgr> ::
          |px| <= 4096 ==> |g.codec.Emitted(history, TightTiles.RgbWire(px))| < CompactLength.LIMIT)
    && forall px: seq<Bgr> :: |px| <= 4096 ==> |g.jpeg(px)| < CompactLength.LIMIT
  }

  ghost predicate Works(g: Setting, stride: nat) {
    && g.codec.Inverts() && Bounded(g)
    && forall frame: seq<Byte>, region: Rect ::
         region.x0 >= 0 && region.y0 >= 0 && ZrleEncoders.HasAll(frame, stride, region) ==> Classifies(g, stride, frame, region)
  }

  lemma {:induction false} TileSize(w: nat, h: nat)
    requires w <= TILE && h <= TILE
    ensures At(h, w) <= 4096
  {
    if h < TILE { AtGrows(h, TILE, w); }
    AtIsProduct(TILE, w);
  }

  lemma {:induction false} RegionEncoded(g: Setting, stride: nat, frame: seq<Byte>, region: Rect, start: seq<seq<seq<Byte>>>)
    requires Works(g, stride) && region.x0 >= 0 && region.y0 >= 0 && ZrleEncoders.HasAll(frame, stride, region) && |start| == 4
    ensures TightRoundTrip.FrameEncoded(g.codec, g.jpeg, start, g.classify(frame, region), region, frame, stride, g.varied)
  {
    var tiles := g.classify(frame, region);
    assert Classifies(g, stride, frame, region);
    TightEncoders.ClassifiedNumbered(tiles, Tiles(region), frame, stride, g.varied);
    TilesWithin(region.x0, region.y0, region);
    forall i: nat | i < |tiles| ensures TightRoundTrip.Short(g.codec, g.jpeg, start, tiles, i) {
      assert TightEncoders.IsClassified(tiles, i, Tiles(region)[i], frame, stride, g.varied);
      TileSize(tiles[i].area.Width(), tiles[i].area.Height());
    }
  }

  /** The encoder's streams, the browser's streams and picture, and the pixels last delivered by a JPEG. */
  datatype Session = Session(
    histories: seq<seq<seq<Byte>>>, streams: TightDecoders.Inflaters, view: View, lossy: TightDecoders.Mask)
  {
    ghost predicate InStep(codec: Zlib.Codec) {
      |histories| == 4 && TightRoundTrip.Matches(codec, histories, streams)
    }
  }

  ghost function LossyAfter(lossy: TightDecoders.Mask, tiles: seq<TightTiles.TileInfo>): TightDecoders.Mask {
    (x, y) => TightRoundTrip.LiesIn(tiles, 0, true, x, y) || (lossy(x, y) && !TightRoundTrip.LiesIn(tiles, 0, false, x, y))
  }

  /** One region: encoded as one rectangle a tile, decoded, and its JPEGs drawn. */
  ghost function DrawRegion(g: Setting, frame: seq<Byte>, region: Rect, c: Session): Option<Session>
    requires |c.histories| == 4
  {
    var tiles := g.classify(frame, region);
    if TightTiles.Numbered(tiles) then
      var browser :- TightRoundTrip.DrawRects(
        TightDecoders.ReaderFor(g.codec), g.bitmap, TightEncoders.SequentialWires(g.codec, g.jpeg, c.histories, tiles),
        TightRoundTrip.Areas(tiles), 0, TightRoundTrip.Browser(c.streams, c.view));
      Some(Session(TightRoundTrip.HistoriesAfter(c.histories, tiles), browser.streams, browser.view, LossyAfter(c.lossy, tiles)))
    else None
  }

  ghost predicate NeverVaried(g: Setting) {
    forall px: seq<Bgr> :: !g.varied(px)
  }

  /** A pixel of the region shows the frame unless it came by JPEG; any other is as it was. */
  ghost predicate PixelDrawn(g: Setting, drawn: bool, picture: View, before: Session, after: Session, x: int, y: int) {
    && (if drawn then !after.lossy(x, y) ==> after.view(x, y) == picture(x, y)
        else after.view(x, y) == before.view(x, y) && after.lossy(x, y) == before.lossy(x, y))
    && (NeverVaried(g) && !before.lossy(x, y) ==> !after.lossy(x, y))
  }

  lemma {:induction false} NoJpegs(
    g: Setting, tiles: seq<TightTiles.TileInfo>, areas: seq<Rect>, frame: seq<Byte>, stride: nat, x: int, y: int)
    requires NeverVaried(g) && |tiles| == |areas| && TightEncoders.Classified(tiles, areas, frame, stride, g.varied)
    ensures !TightRoundTrip.LiesIn(tiles, 0, true, x, y)
  {
    forall i: nat | i < |tiles| ensures !tiles[i].kind.JpegKind? {
      assert TightEncoders.IsClassified(tiles, i, areas[i], frame, stride, g.varied);
    }
  }

  /** A pixel of a drawn frame. */
  lemma {:induction false} FramePixel(
    g: Setting, tiles: seq<TightTiles.TileInfo>, region: Rect, after: View, before: View, picture: View, x: int, y: int)
    requires TightRoundTrip.Areas(tiles) == Tiles(region)
    requires TightRoundTrip.Delivered(after, before, tiles, region, g.jpeg, g.bitmap, picture)
    ensures if region.Contains(x, y) then
              || TightRoundTrip.LiesIn(tiles, 0, true, x, y)
              || (TightRoundTrip.LiesIn(tiles, 0, false, x, y) && after(x, y) == picture(x, y))
            else
              && !TightRoundTrip.LiesIn(tiles, 0, true, x, y) && !TightRoundTrip.LiesIn(tiles, 0, false, x, y)
              && after(x, y) == before(x, y)
  {
    if region.Contains(x, y) {
      TilesCover(region.x0, region.y0, region, x, y);
      var i :| 0 <= i < |Tiles(region)| && Tiles(region)[i].Contains(x, y);
      assert tiles[i].area == TightRoundTrip.Areas(tiles)[i];
      TightRoundTrip.PixelTile(tiles, region, i, x, y);
    } else {
      TightRoundTrip.PixelOutside(tiles, region, true, x, y);
      TightRoundTrip.PixelOutside(tiles, region, false, x, y);
    }
  }

  /** After drawing, the streams are in step, and every pixel is as `PixelDrawn` says for the pixels in `drawn`. */
  ghost predicate Drawn(g: Setting, drawn: TightDecoders.Mask, picture: View, before: Session, after: Option<Session>) {
    && after.Some? && after.value.InStep(g.codec)
    && forall x: int, y: int :: PixelDrawn(g, drawn(x, y), picture, before, after.value, x, y)
  }

  ghost function InRegion(region: Rect): TightDecoders.Mask {
    (x, y) => region.Contains(x, y)
  }

  lemma {:induction false} RegionDrawn(g: Setting, stride: nat, frame: seq<Byte>, region: Rect, c: Session)
    requires Works(g, stride) && c.InStep(g.codec)
    requires region.x0 >= 0 && region.y0 >= 0 && ZrleEncoders.HasAll(frame, stride, region)
    ensures Drawn(g, InRegion(region), ZrleRoundTrip.FramePicture(frame, stride), c, DrawRegion(g, frame, region, c))
  {
    hide TightRoundTrip.Matches, TightRoundTrip.LiesIn, TightRoundTrip.Delivered, TightRoundTrip.DrawRects, NeverVaried;
    var tiles, picture := g.classify(frame, region), ZrleRoundTrip.FramePicture(frame, stride);
    RegionEncoded(g, stride, frame, region, c.histories);
    TightRoundTrip.MultiRoundTrip(g.codec, g.jpeg, c.histories, tiles, region, frame, stride, g.varied, g.bitmap,
                                  TightRoundTrip.Browser(c.streams, c.view));
    TightRoundTrip.FrameArrives(g.codec, g.jpeg, c.histories, tiles, region, frame, stride, g.varied);
    var after := DrawRegion(g, frame, region, c).value;
    forall x: int, y: int ensures PixelDrawn(g, region.Contains(x, y), picture, c, after, x, y) {
      FramePixel(g, tiles, region, after.view, c.view, picture, x, y);
      if NeverVaried(g) { NoJpegs(g, tiles, Tiles(region), frame, stride, x, y); }
    }
  }

  ghost function DrawRegions(g: Setting, frame: seq<Byte>, regions: seq<Rect>, c: Session): Option<Session>
    decreases |regions|
  {
    if regions == [] then Some(c)
    else if |c.histories| != 4 then None
    else
      var next :- DrawRegion(g, frame, regions[0], c);
      DrawRegions(g, frame, regions[1..], next)
  }

  ghost function InRegions(regions: seq<Rect>): TightDecoders.Mask {
    (x, y) => InSome(regions, x, y)
  }

  ghost predicate AllIn(frame: seq<Byte>, stride: nat, regions: seq<Rect>) {
    forall i :: 0 <= i < |regions| ==> regions[i].x0 >= 0 && regions[i].y0 >= 0 && ZrleEncoders.HasAll(frame, stride, regions[i])
  }

  lemma {:induction false} DrawnThen(
    g: Setting, first: Rect, rest: seq<Rect>, regions: seq<Rect>, picture: View, c: Session, next: Session,
    after: Option<Session>)
    requires regions != [] && first == regions[0] && rest == regions[1..]
    requires Drawn(g, InRegion(first), picture, c, Some(next)) && Drawn(g, InRegions(rest), picture, next, after)
    ensures Drawn(g, InRegions(regions), picture, c, after)
  {
    hide TightRoundTrip.Matches, NeverVaried, InSome;
    forall x: int, y: int ensures PixelDrawn(g, InSome(regions, x, y), picture, c, after.value, x, y) {
      ZrleRoundTrip.InSomeFirst(regions, x, y);
      assert PixelDrawn(g, InRegion(first)(x, y), picture, c, next, x, y);
      assert PixelDrawn(g, InRegions(rest)(x, y), picture, next, after.value, x, y);
    }
  }

  lemma {:induction false} RegionsDrawn(g: Setting, stride: nat, frame: seq<Byte>, regions: seq<Rect>, c: Session)
    requires Works(g, stride) && c.InStep(g.codec) && AllIn(frame, stride, regions)
    ensures Drawn(g, InRegions(regions), ZrleRoundTrip.FramePicture(frame, stride), c, DrawRegions(g, frame, regions, c))
    decreases |regions|
  {
    hide DrawRegion, TightRoundTrip.Matches, Works;
    var picture := ZrleRoundTrip.FramePicture(frame, stride);
    if regions != [] {
      RegionDrawn(g, stride, frame, regions[0], c);
      var next := DrawRegion(g, frame, regions[0], c).value;
      RegionsDrawn(g, stride, frame, regions[1..], next);
      DrawnThen(g, regions[0], regions[1..], regions, picture, c, next, DrawRegions(g, frame, regions[1..], next));
    }
  }

  /** The server with its capturer, as for raw updates, and the Tight session. */
  datatype State = State(server: V.State, session: Session)

  ghost function Step(k: V.Setup, g: Setting, s: State, e: V.Event): Option<State>
    requires Updates.Paired(k.pf, k.serverPf)
  {
    var server := V.Step(k, s.server, e);
    if e.Publish? || s.server.cur == [] then Some(State(server, s.session))
    else
      var session :- DrawRegions(g, s.server.cur, V.Answered(k, s.server, e.incremental), s.session);
      Some(State(server, session))
  }

  ghost function Run(k: V.Setup, g: Setting, s: State, events: seq<V.Event>): Option<State>
    requires Updates.Paired(k.pf, k.serverPf)
    decreases |events|
  {
    if events == [] then Some(s)
    else
      var next :- Step(k, g, s, events[0]);
      Run(k, g, next, events[1..])
  }

  /** Each visible pixel that did not come by JPEG shows the frame. */
  ghost predicate Shows(k: V.Setup, session: Session, frame: seq<Byte>) {
    forall x: int, y: int :: k.Screen().Contains(x, y) ==> PixelRight(k, session, frame, x, y)
  }

  ghost predicate PixelRight(k: V.Setup, session: Session, frame: seq<Byte>, x: int, y: int) {
    !session.lossy(x, y) ==> session.view(x, y) == ZrleRoundTrip.FramePicture(frame, k.stride)(x, y)
  }

  ghost predicate Valid(k: V.Setup, g: Setting, s: State) {
    V.Valid(k, s.server) && Works(g, k.stride) && s.session.InStep(g.codec)
  }

  ghost predicate InSync(k: V.Setup, s: State) {
    s.server.prev.Some? ==> Shows(k, s.session, s.server.prev.value)
  }

  lemma {:induction false} RegionsIn(k: V.Setup, frame: seq<Byte>, regions: seq<Rect>)
    requires k.Covers(frame) && V.AllProper(k, regions)
    ensures AllIn(frame, k.stride, regions)
  {
    forall i | 0 <= i < |regions|
      ensures regions[i].x0 >= 0 && regions[i].y0 >= 0 && ZrleEncoders.HasAll(frame, k.stride, regions[i])
    {
      assert V.Proper(k, regions[i]);
      forall x: nat, y: nat | regions[i].Contains(x, y) ensures Has(frame, k.stride, x, y) {
        V.CoversPixel(k, frame, x, y);
      }
    }
  }

  lemma {:induction false} SameColour(k: V.Setup, a: seq<Byte>, b: seq<Byte>, x: nat, y: nat)
    requires Has(a, k.stride, x, y) && Has(b, k.stride, x, y)
    requires PixelBytes(a, k.stride, x, y) == PixelBytes(b, k.stride, x, y)
    ensures ZrleRoundTrip.FramePicture(a, k.stride)(x, y) == ZrleRoundTrip.FramePicture(b, k.stride)(x, y)
  {
    var o, p, q := FrameOffset(k.stride, x, y), PixelBytes(a, k.stride, x, y), PixelBytes(b, k.stride, x, y);
    assert p[0] == a[o] && p[1] == a[o + 1] && p[2] == a[o + 2];
    assert q[0] == b[o] && q[1] == b[o + 1] && q[2] == b[o + 2];
  }

  /** A pixel the answer does not carry is the same in the frame before. */
  lemma {:induction false} NotCarried(k: V.Setup, s: V.State, incremental: bool, x: int, y: int)
    requires V.Valid(k, s) && s.cur != [] && k.Screen().Contains(x, y)
    requires !InSome(V.Answered(k, s, incremental), x, y)
    ensures incremental && s.prev.Some?
    ensures ZrleRoundTrip.FramePicture(s.cur, k.stride)(x, y) == ZrleRoundTrip.FramePicture(s.prev.value, k.stride)(x, y)
  {
    Updates.RegionsCover(k.Screen(), if incremental then V.Reported(k, s) else None, x, y);
    V.CoversPixel(k, s.cur, x, y);
    V.CoversPixel(k, s.prev.value, x, y);
    if PixelChanged(s.cur, s.prev.value, k.stride, x, y) {
      ChangedPixelIsDirty(s.cur, s.prev.value, k.stride, k.w, k.h, x, y);
      assert false;
    }
    SameColour(k, s.cur, s.prev.value, x, y);
  }

  /** The remembered frame has the colours of the frame just compared. */
  lemma {:induction false} Remembered(k: V.Setup, prev: seq<Byte>, cur: seq<Byte>, x: int, y: int)
    requires k.Covers(prev) && k.Covers(cur) && k.Screen().Contains(x, y)
    ensures ZrleRoundTrip.FramePicture(Overwrite(prev, cur), k.stride)(x, y) == ZrleRoundTrip.FramePicture(cur, k.stride)(x, y)
  {
    V.CoversPixel(k, prev, x, y);
    V.CoversPixel(k, cur, x, y);
    assert PixelBytes(Overwrite(prev, cur), k.stride, x, y) == PixelBytes(cur, k.stride, x, y);
    SameColour(k, Overwrite(prev, cur), cur, x, y);
  }

  /** After an answer to a full request, or to a client in sync, every visible pixel is right. */
  lemma {:induction false} AnswerShows(k: V.Setup, g: Setting, s: State, incremental: bool)
    requires Valid(k, g, s) && s.server.cur != [] && (!incremental || InSync(k, s))
    ensures var after := Step(k, g, s, V.Request(incremental));
            && after.Some? && Valid(k, g, after.value) && InSync(k, after.value)
            && Shows(k, after.value.session, s.server.cur)
            && (NeverVaried(g) ==> forall x: int, y: int :: !s.session.lossy(x, y) ==> !after.value.session.lossy(x, y))
  {
    hide Works, DrawRegions, NeverVaried, InSome, TightRoundTrip.Matches;
    var regions, cur := V.Answered(k, s.server, incremental), s.server.cur;
    var picture := ZrleRoundTrip.FramePicture(cur, k.stride);
    V.AnsweredProper(k, s.server, incremental);
    RegionsIn(k, cur, regions);
    RegionsDrawn(g, k.stride, cur, regions, s.session);
    var session := DrawRegions(g, cur, regions, s.session).value;
    V.StepValid(k, s.server, V.Request(incremental));
    forall x: int, y: int | k.Screen().Contains(x, y) ensures PixelRight(k, session, cur, x, y) {
      assert PixelDrawn(g, InRegions(regions)(x, y), picture, s.session, session, x, y);
      if !InSome(regions, x, y) {
        NotCarried(k, s.server, incremental, x, y);
        assert PixelRight(k, s.session, s.server.prev.value, x, y);
      }
    }
    var prev := V.Step(k, s.server, V.Request(incremental)).prev.value;
    forall x: int, y: int | k.Screen().Contains(x, y) ensures PixelRight(k, session, prev, x, y) {
      assert PixelRight(k, session, cur, x, y);
      if s.server.prev.Some? { Remembered(k, s.server.prev.value, cur, x, y); }
    }
    forall x: int, y: int | NeverVaried(g) && !s.session.lossy(x, y) ensures !session.lossy(x, y) {
      assert PixelDrawn(g, InRegions(regions)(x, y), picture, s.session, session, x, y);
    }
  }

  /** A step leaves the session in sync, or the run still before its first, full request. */
  ghost predicate Ready(k: V.Setup, s: State, later: seq<V.Event>) {
    InSync(k, s) || (s.server.cur != [] && V.FullFirst(later))
  }

  lemma {:induction false} StepReady(k: V.Setup, g: Setting, s: State, e: V.Event, later: seq<V.Event>)
    requires Valid(k, g, s) && V.EventCovers(k, e) && Ready(k, s, [e] + later)
    ensures var after := Step(k, g, s, e);
            && after.Some? && Valid(k, g, after.value) && Ready(k, after.value, later)
            && (NeverVaried(g) ==> forall x: int, y: int :: !s.session.lossy(x, y) ==> !after.value.session.lossy(x, y))
  {
    hide Works, NeverVaried, Shows;
    assert ([e] + later)[0] == e && ([e] + later)[1..] == later;
    V.StepValid(k, s.server, e);
    if e.Request? && s.server.cur != [] {
      assert e == V.Request(e.incremental);
      AnswerShows(k, g, s, e.incremental);
    }
  }

  /**
    After any run of captures and requests, every tile of which may have gone through the encoder's
    goroutines in any order, the next answered request leaves each visible pixel showing the last
    captured frame, unless its last tile was a JPEG; and without JPEG tiles, without exception.
   */
  lemma {:induction false} TightViewAgrees(
    k: V.Setup, g: Setting, s: State, events: seq<V.Event>, incremental: bool)
    requires Valid(k, g, s) && V.AllCover(k, events) && Ready(k, s, events + [V.Request(incremental)])
    ensures var t := Run(k, g, s, events);
            && t.Some? && Valid(k, g, t.value)
            && var after := Step(k, g, t.value, V.Request(incremental));
            && after.Some?
            && (t.value.server.cur != [] ==> Shows(k, after.value.session, t.value.server.cur))
            && (NeverVaried(g) ==> forall x: int, y: int :: !s.session.lossy(x, y) ==> !after.value.session.lossy(x, y))
    decreases |events|
  {
    hide Works, NeverVaried, Shows, V.Step;
    if events == [] {
      assert events + [V.Request(incremental)] == [V.Request(incremental)];
      LastAnswer(k, g, s, incremental);
    } else {
      var e, later := events[0], events[1..];
      assert events + [V.Request(incremental)] == [e] + (later + [V.Request(incremental)]);
      V.CoverLater(k, events);
      StepReady(k, g, s, e, later + [V.Request(incremental)]);
      TightViewAgrees(k, g, Step(k, g, s, e).value, later, incremental);
    }
  }

  lemma {:induction false} LastAnswer(k: V.Setup, g: Setting, s: State, incremental: bool)
    requires Valid(k, g, s) && Ready(k, s, [V.Request(incremental)])
    ensures var after := Step(k, g, s, V.Request(incremental));
            && after.Some?
            && (s.server.cur != [] ==> Shows(k, after.value.session, s.server.cur))
            && (NeverVaried(g) ==> forall x: int, y: int :: !s.session.lossy(x, y) ==> !after.value.session.lossy(x, y))
  {
    if s.server.cur != [] { AnswerShows(k, g, s, incremental); }
  }
}

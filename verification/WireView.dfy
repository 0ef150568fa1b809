/**
  Whole runs of capture and update over the wire: the updates the server writes, cut into any chunks,
  reassembled, parsed and drawn by the browser, leave it showing the last captured frame.
 */
module WireView {
  import opened Bytes
  import opened Streams
  import opened Grid
  import opened FrameDiffs
  import opened Framebuffers
  import opened Protocol
  import opened ScreenView
  import opened RfbPlacement
  import Updates
  import Reframing
  import RfbAgreement
  import RfbParser
  import Reassembly
  import EndToEnd

  /** The screen fits the protocol's 16-bit fields, and so does the number of its tiles. */
  predicate Fits(k: Setup) {
    k.w < 0x1_0000 && k.h < 0x1_0000 && |Tiles(k.Screen())| < 0x1_0000
  }

  /** A raw rectangle carries its pixels, and every reader of the stream finds its end. */
  lemma {:induction false} RawCarried(k: Setup, frame: seq<Byte>, region: Rect)
    requires Updates.Paired(k.pf, k.serverPf) && k.Covers(frame) && Proper(k, region) && k.w < 0x1_0000 && k.h < 0x1_0000
    ensures Carries(RectOf(k, frame, region), RawPixels(RectOf(k, frame, region).data), 4)
    ensures Reframing.Sendable(RectOf(k, frame, region), 4, 3)
  {
    var w, h, r := region.Width(), region.Height(), RectOf(k, frame, region);
    CoversRegion(k, frame, region);
    Updates.AllRowsExtracted(frame, k.stride, region.x0, region.y0, w, h, 0, []);
    Updates.RawSize(k.pf, k.serverPf, Updates.RowsFrom(frame, k.stride, region.x0, region.y0, w, h, 0, []), w, h);
    AtIsProduct(h, w);
    assert w * h == h * w;
    assert Reframing.Framed(r, RawPixels(r.data), 4, 3);
  }

  lemma {:induction false} PartsCount(dirty: seq<Rect>, area: Rect)
    ensures |Updates.Parts(dirty, area)| <= |dirty|
  {
    if dirty != [] { PartsCount(dirty[..|dirty| - 1], area); }
  }

  lemma {:induction false} ChangedCount(pixels: seq<Byte>, prev: seq<Byte>, stride: nat, tiles: seq<Rect>)
    ensures |Changed(pixels, prev, stride, tiles)| <= |tiles|
  {
    if tiles != [] { ChangedCount(pixels, prev, stride, tiles[1..]); }
  }

  /** An answer never has more rectangles than the screen has tiles, or one. */
  lemma {:induction false} AnswerCount(k: Setup, s: State, incremental: bool)
    ensures |Answered(k, s, incremental)| <= 1 || |Answered(k, s, incremental)| <= |Tiles(k.Screen())|
  {
    if incremental && s.prev.Some? {
      var dirty := DirtyTiles(s.cur, s.prev.value, k.stride, k.w, k.h);
      PartsCount(dirty, k.Screen());
      ChangedCount(s.cur, s.prev.value, k.stride, Tiles(k.Screen()));
    }
  }

  /** The update that answers a request, and what the client's picture becomes. */
  ghost function Answer(k: Setup, s: State, incremental: bool): ServerMessage
    requires Updates.Paired(k.pf, k.serverPf)
  {
    AnsweredProper(k, s, incremental);
    Update(RawRects(k, s.cur, Answered(k, s, incremental)))
  }

  lemma {:induction false} AnswerFramed(k: Setup, s: State, incremental: bool)
    requires Valid(k, s) && s.cur != [] && Fits(k)
    ensures Reframing.MessageFramed(Answer(k, s, incremental), 4, 3)
  {
    AnsweredProper(k, s, incremental);
    AnswerCount(k, s, incremental);
    var regions := Answered(k, s, incremental);
    forall i | 0 <= i < |regions| ensures Reframing.Sendable(RectOf(k, s.cur, regions[i]), 4, 3) {
      RawCarried(k, s.cur, regions[i]);
    }
  }

  /** The updates the server writes over a run. */
  ghost function Sent(k: Setup, s: State, events: seq<Event>): seq<ServerMessage>
    requires Updates.Paired(k.pf, k.serverPf)
    decreases |events|
  {
    if events == [] then []
    else
      (if events[0].Request? && s.cur != [] then [Answer(k, s, events[0].incremental)] else [])
      + Sent(k, Step(k, s, events[0]), events[1..])
  }

  /** The rectangle a decoder is handed: its header, and the bytes from its data on. */
  function RectAt(message: seq<Byte>, p: Place): Rectangle {
    Rectangle(p.header, if 0 <= p.offset <= |message| then message[p.offset..] else [])
  }

  ghost function DrawPlaces(v: View, message: seq<Byte>, places: seq<Place>): View {
    if places == [] then v
    else
      var n := |places| - 1;
      Draw(DrawPlaces(v, message, places[..n]), RectAt(message, places[n]))
  }

  /** The browser parses an update and draws its raw rectangles where the parser says they are. */
  ghost function DrawMessage(v: View, message: seq<Byte>): Option<View> {
    if |message| < 4 then None
    else
      var places :- Places(FastMeasure(), message, 4, Be16At(message, 2), []);
      Some(DrawPlaces(v, message, places))
  }

  ghost function DrawMessages(v: View, messages: seq<seq<Byte>>): Option<View>
    decreases |messages|
  {
    if messages == [] then Some(v)
    else
      var next :- DrawMessage(v, messages[0]);
      DrawMessages(next, messages[1..])
  }

  /** Trailing bytes do not change what a complete raw rectangle shows. */
  lemma {:induction false} TrailingBytes(message: seq<Byte>, o: nat, data: seq<Byte>, w: nat, h: nat, c: nat, r: nat)
    requires Sits(message, o, data) && |data| == 4 * At(h, w) && c < w && r < h
    ensures Packed(message[o..], w, c, r) == Packed(data, w, c, r)
  {
    OffsetInside(c, r, w, h);
    var i, view := Offset(c, r, w), message[o..];
    assert view[i] == data[i] && view[i + 1] == data[i + 1] && view[i + 2] == data[i + 2] && view[i + 3] == data[i + 3];
  }

  /** The two pictures agree at a pixel before, so they do after the same rectangle. */
  lemma {:induction false} DrawnAlike(
    k: Setup, frame: seq<Byte>, region: Rect, message: seq<Byte>, p: Place, v: View, u: View, x: int, y: int)
    requires Updates.Paired(k.pf, k.serverPf) && k.Covers(frame) && Proper(k, region) && v(x, y) == u(x, y)
    requires p.header == RectOf(k, frame, region).header && p.offset >= 0
    requires Sits(message, p.offset, RectOf(k, frame, region).data)
    ensures Draw(v, RectAt(message, p))(x, y) == Draw(u, RectOf(k, frame, region))(x, y)
  {
    var w, h, r := region.Width(), region.Height(), RectOf(k, frame, region);
    if region.Contains(x, y) {
      CoversRegion(k, frame, region);
      Updates.AllRowsExtracted(frame, k.stride, region.x0, region.y0, w, h, 0, []);
      Updates.RawSize(k.pf, k.serverPf, Updates.RowsFrom(frame, k.stride, region.x0, region.y0, w, h, 0, []), w, h);
      TrailingBytes(message, p.offset, r.data, w, h, x - region.x0, y - region.y0);
    }
  }

  /** Rectangle `m` of an update and the place at which it is found. */
  ghost predicate IsAt(k: Setup, frame: seq<Byte>, region: Rect, message: seq<Byte>, r: Rectangle, p: Place)
    requires Updates.Paired(k.pf, k.serverPf) && Proper(k, region)
  {
    && r == RectOf(k, frame, region) && p.header == r.header && p.offset >= 0 && Sits(message, p.offset, r.data)
  }

  lemma {:induction false} FoundAt(k: Setup, frame: seq<Byte>, regions: seq<Rect>, message: seq<Byte>, m: nat)
    requires Updates.Paired(k.pf, k.serverPf) && AllProper(k, regions) && m < |regions|
    requires Sits(message, 4, RectsWire(RawRects(k, frame, regions)))
    requires RfbAgreement.AllWritten(RawRects(k, frame, regions))
    ensures var rects := RawRects(k, frame, regions);
            IsAt(k, frame, regions[m], message, rects[m], RfbAgreement.WrittenPlaces(rects)[m])
  {
    var rects := RawRects(k, frame, regions);
    assert RfbAgreement.Written(rects[m]);
    RfbAgreement.RectReadAt(message, rects, m);
  }

  /** The first `n` rectangles of an update, drawn from its bytes. */
  lemma {:induction false} PlacesDrawn(
    k: Setup, frame: seq<Byte>, regions: seq<Rect>, message: seq<Byte>, rects: seq<Rectangle>, places: seq<Place>, v: View,
    u: View, n: nat, x: int, y: int)
    requires Updates.Paired(k.pf, k.serverPf) && k.Covers(frame) && AllProper(k, regions) && v(x, y) == u(x, y)
    requires n <= |regions| == |rects| == |places|
    requires forall m: nat :: m < n ==> IsAt(k, frame, regions[m], message, rects[m], places[m])
    ensures DrawPlaces(v, message, places[..n])(x, y) == DrawAll(u, rects[..n])(x, y)
  {
    hide Draw, RectOf;
    if n > 0 {
      var m: nat := n - 1;
      PlacesDrawn(k, frame, regions, message, rects, places, v, u, m, x, y);
      assert places[..n][..m] == places[..m] && rects[..n][..m] == rects[..m];
      assert IsAt(k, frame, regions[m], message, rects[m], places[m]);
      DrawnAlike(k, frame, regions[m], message, places[m], DrawPlaces(v, message, places[..m]), DrawAll(u, rects[..m]), x, y);
    }
  }

  ghost predicate Alike(k: Setup, v: View, u: View) {
    forall x: int, y: int :: k.Screen().Contains(x, y) ==> v(x, y) == u(x, y)
  }

  /** One update over the wire does to the picture what the rectangles do. */
  lemma {:induction false} AnswerDrawn(k: Setup, s: State, incremental: bool, v: View)
    requires Valid(k, s) && s.cur != [] && Fits(k) && Alike(k, v, s.client)
    ensures var shown := DrawMessage(v, Answer(k, s, incremental).Wire());
            shown.Some? && Alike(k, shown.value, Step(k, s, Request(incremental)).client)
  {
    AnsweredProper(k, s, incremental);
    AnswerFramed(k, s, incremental);
    EndToEnd.FramedIsWritten(Answer(k, s, incremental));
    var regions := Answered(k, s, incremental);
    var rects := RawRects(k, s.cur, regions);
    var message := UpdateWire(rects);
    assert message + [] == message;
    RfbAgreement.UpdateLayout(rects, []);
    RfbAgreement.ParsedAsWritten(message, rects);
    var places := RfbAgreement.WrittenPlaces(rects);
    assert places[..|rects|] == places && rects[..|rects|] == rects;
    forall m: nat | m < |regions| ensures IsAt(k, s.cur, regions[m], message, rects[m], places[m]) {
      FoundAt(k, s.cur, regions, message, m);
    }
    forall x: int, y: int | k.Screen().Contains(x, y)
      ensures DrawPlaces(v, message, places)(x, y) == DrawAll(s.client, rects)(x, y)
    {
      PlacesDrawn(k, s.cur, regions, message, rects, places, v, s.client, |rects|, x, y);
    }
  }

  /** Every update of a run is one all readers of the stream agree about. */
  lemma {:induction false} SentFramed(k: Setup, s: State, events: seq<Event>)
    requires Valid(k, s) && AllCover(k, events) && Fits(k)
    ensures EndToEnd.AllFramed(Sent(k, s, events))
    decreases |events|
  {
    if events != [] {
      CoverLater(k, events);
      StepValid(k, s, events[0]);
      SentFramed(k, Step(k, s, events[0]), events[1..]);
      if events[0].Request? && s.cur != [] { AnswerFramed(k, s, events[0].incremental); }
    }
  }

  lemma {:induction false} Unanswered(k: Setup, s: State, e: Event)
    requires Updates.Paired(k.pf, k.serverPf) && (e.Request? ==> s.cur == [])
    ensures Step(k, s, e).client == s.client
  {
  }

  lemma {:induction false} FirstDrawn(v: View, m: ServerMessage, rest: seq<ServerMessage>, next: View)
    requires DrawMessage(v, m.Wire()) == Some(next)
    ensures DrawMessages(v, Reframing.Wires([m] + rest)) == DrawMessages(next, Reframing.Wires(rest))
  {
    hide DrawMessage;
    assert Reframing.Wires([m] + rest) == [m.Wire()] + Reframing.Wires(rest);
    assert ([m.Wire()] + Reframing.Wires(rest))[1..] == Reframing.Wires(rest);
  }

  lemma {:induction false} RunFirst(k: Setup, s: State, events: seq<Event>)
    requires Updates.Paired(k.pf, k.serverPf) && events != []
    ensures var after := Step(k, s, events[0]);
            && Run(k, s, events) == Run(k, after, events[1..])
            && Sent(k, s, events) ==
               if events[0].Request? && s.cur != [] then [Answer(k, s, events[0].incremental)] + Sent(k, after, events[1..])
               else Sent(k, after, events[1..])
  {
    hide Step, Answer;
    var rest := Sent(k, Step(k, s, events[0]), events[1..]);
    assert [] + rest == rest;
  }

  /** All of them, drawn from their bytes. */
  lemma {:induction false} RunDrawn(k: Setup, s: State, events: seq<Event>, v: View)
    requires Valid(k, s) && AllCover(k, events) && Fits(k) && Alike(k, v, s.client)
    ensures var shown := DrawMessages(v, Reframing.Wires(Sent(k, s, events)));
            shown.Some? && Alike(k, shown.value, Run(k, s, events).client)
    decreases |events|
  {
    hide Step, Answer, DrawMessage, Fits;
    if events == [] {
      NoneDrawn(v);
    } else {
      hide Run, Sent, DrawMessages, Alike, AllCover;
      var e, after, later := events[0], Step(k, s, events[0]), events[1..];
      CoverLater(k, events);
      StepValid(k, s, e);
      RunFirst(k, s, events);
      if e.Request? && s.cur != [] {
        AnswerDrawn(k, s, e.incremental, v);
        assert e == Request(e.incremental);
        var answer := Answer(k, s, e.incremental);
        var next := DrawMessage(v, answer.Wire()).value;
        FirstDrawn(v, answer, Sent(k, after, later), next);
        RunDrawn(k, after, later, next);
      } else {
        Unanswered(k, s, e);
        RunDrawn(k, after, later, v);
      }
    }
  }

  lemma {:induction false} NoneDrawn(v: View)
    ensures DrawMessages(v, []) == Some(v)
  {
  }

  lemma {:induction false} RunLast(k: Setup, s: State, events: seq<Event>, last: Event)
    requires Updates.Paired(k.pf, k.serverPf)
    ensures Run(k, s, events + [last]) == Step(k, Run(k, s, events), last)
    decreases |events|
  {
    if events == [] {
      assert events + [last] == [last];
    } else {
      assert (events + [last])[1..] == events[1..] + [last];
      RunLast(k, Step(k, s, events[0]), events[1..], last);
    }
  }

  /**
    The whole way, for any run and any cutting of the server's bytes: the browser finds every update,
    has nothing left over, and after the last answer shows the last captured frame.
   */
  lemma {:induction false} ViewOverWire(
    k: Setup, s: State, events: seq<Event>, incremental: bool, chunks: seq<seq<Byte>>)
    requires Valid(k, s) && AllCover(k, events) && Fits(k)
    requires InSync(k, s) || (s.cur != [] && FullFirst(events + [Request(incremental)]))
    requires Concat(chunks) == Concat(Reframing.Wires(Sent(k, s, events + [Request(incremental)])))
    ensures var t := Run(k, s, events);
            var fed := Reassembly.Feed(RfbParser.MessageLength, Reassembly.State([], []), chunks);
            var shown := DrawMessages(s.client, fed.found);
            && fed.pending == [] && shown.Some? && Valid(k, t)
            && (t.cur != [] ==> Shows(k, shown.value, t.cur))
  {
    var all := events + [Request(incremental)];
    var t := Run(k, s, events);
    assert AllCover(k, all) by {
      forall i | 0 <= i < |all| ensures EventCovers(k, all[i]) {
        if i < |events| { assert EventCovers(k, events[i]); }
      }
    }
    SentFramed(k, s, all);
    EndToEnd.ReassembledFromAnyChunks(Sent(k, s, all), chunks);
    RunDrawn(k, s, all, s.client);
    RunLast(k, s, events, Request(incremental));
    ViewAgrees(k, s, events, incremental);
  }
}

/**
  Reading back what the server wrote: on any run of server messages the proxy finds exactly the
  messages, one at a time. Two conditions are exact: a Tight tile is read back as written if and
  only if `TileFramed` holds, and an update if and only if its rectangle count fits 16 bits.
 */
module Reframing {
  import opened Bytes
  import opened Streams
  import opened Scans
  import opened Grid
  import opened Protocol
  import opened Framing
  import CompactLength

  lemma {:induction false} PrefixedReframed(s: seq<Byte>, i: nat, payload: seq<Byte>)
    requires |payload| < 0x1_0000_0000 && Sits(s, i, Be32(|payload|) + payload)
    ensures PrefixedEnd(s, i) == Some(i + 4 + |payload|)
  {
    SitsSplit(s, i, Be32(|payload|), payload);
    ReadWriteBe32(|payload|, s, i);
  }

  lemma {:induction false} H264Reframed(s: seq<Byte>, i: nat, flags: nat, nal: seq<Byte>)
    requires |nal| < 0x1_0000_0000 && Sits(s, i, Be32(flags) + Be32(|nal|) + nal)
    ensures H264End(s, i) == Some(i + 8 + |nal|)
  {
    SitsSplit(s, i, Be32(flags) + Be32(|nal|), nal);
    SitsSplit(s, i, Be32(flags), Be32(|nal|));
    ReadWriteBe32(|nal|, s, i + 4);
  }

  lemma {:induction false} CompactReframed(s: seq<Byte>, i: nat, payload: seq<Byte>)
    requires |payload| < CompactLength.LIMIT && Sits(s, i, CompactLength.Encode(|payload|) + payload)
    ensures CompactEnd(s, i) == Some(i + |CompactLength.Encode(|payload|)| + |payload|)
  {
    SitsSplit(s, i, CompactLength.Encode(|payload|), payload);
    CompactLength.RoundTrip(|payload|, s, i);
  }

  /**
    The proxy agrees with the encoder about a tile: a fill is three bytes only when CPIXEL is, and
    below 12 raw bytes the proxy expects no length, which the encoder always writes.
   */
  predicate TileFramed(t: TightTile, w: nat, h: nat, cpixel: nat) {
    match t
    case Solid(_, _, _) => cpixel == 3
    case Jpeg(_) => true
    case Basic(_, payload) =>
      w * h * cpixel >= 12 || w * h * cpixel == |CompactLength.Encode(|payload|)| + |payload|
  }

  /** A control byte below 4 means Basic compression with no filter byte. */
  lemma {:induction false} PlainBasic(s: seq<Byte>, i: nat, w: nat, h: nat, cpixel: nat)
    requires i < |s| && s[i] < 4
    ensures TileEnd(s, i, w, h, cpixel) == BasicDataEnd(s, i + 1, w * h * cpixel)
  {
    assert BasicEnd(s, i + 1, w, h, cpixel, s[i]) == FilteredEnd(s, i + 1, w, h, cpixel, 0);
  }

  lemma {:induction false} BasicReframed(s: seq<Byte>, i: nat, stream: Byte, payload: seq<Byte>, w: nat, h: nat, cpixel: nat)
    requires stream < 4 && |payload| < CompactLength.LIMIT
    requires Sits(s, i, [stream] + CompactLength.Encode(|payload|) + payload)
    ensures TileEnd(s, i, w, h, cpixel) == Some(i + 1 + |CompactLength.Encode(|payload|)| + |payload|) <==>
              TileFramed(Basic(stream, payload), w, h, cpixel)
  {
    var body := CompactLength.Encode(|payload|) + payload;
    assert [stream] + CompactLength.Encode(|payload|) + payload == [stream] + body;
    SitsSplit(s, i, [stream], body);
    assert s[i] == [stream][0];
    CompactReframed(s, i + 1, payload);
    PlainBasic(s, i, w, h, cpixel);
  }

  lemma {:induction false} JpegReframed(s: seq<Byte>, i: nat, payload: seq<Byte>, w: nat, h: nat, cpixel: nat)
    requires |payload| < CompactLength.LIMIT
    requires Sits(s, i, [0x09] + CompactLength.Encode(|payload|) + payload)
    ensures TileEnd(s, i, w, h, cpixel) == Some(i + 1 + |CompactLength.Encode(|payload|)| + |payload|)
  {
    var body := CompactLength.Encode(|payload|) + payload;
    assert [0x09] + CompactLength.Encode(|payload|) + payload == [0x09] + body;
    SitsSplit(s, i, [0x09], body);
    assert s[i] == [0x09][0];
    CompactReframed(s, i + 1, payload);
  }

  /** A tile the encoder wrote is read back as written exactly when the two sides agree about it. */
  lemma {:induction false} TileReframed(s: seq<Byte>, i: nat, t: TightTile, w: nat, h: nat, cpixel: nat)
    requires t.Fits() && Sits(s, i, t.Wire())
    ensures TileEnd(s, i, w, h, cpixel) == Some(i + |t.Wire()|) <==> TileFramed(t, w, h, cpixel)
  {
    match t {
      case Solid(r, g, b) => assert s[i] == t.Wire()[0];
      case Jpeg(payload) => JpegReframed(s, i, payload, w, h, cpixel);
      case Basic(stream, payload) => BasicReframed(s, i, stream, payload, w, h, cpixel);
    }
  }

  /** Every tile of the list agrees with its place in the grid. */
  predicate TilesFramed(ts: seq<TightTile>, tiles: seq<Rect>, cpixel: nat) {
    && |ts| == |tiles|
    && forall i :: 0 <= i < |ts| ==> ts[i].Fits() && TileFramed(ts[i], tiles[i].Width(), tiles[i].Height(), cpixel)
  }

  lemma {:induction false} TileFound(t: TightTile, w: nat, h: nat, cpixel: nat)
    requires t.Fits() && TileFramed(t, w, h, cpixel)
    ensures FindsTile(TightScan(cpixel), t.Wire(), w, h)
  {
    forall s: seq<Byte>, i: nat | Sits(s, i, t.Wire())
      ensures TileEnd(s, i, w, h, cpixel) == Some(i + |t.Wire()|)
    {
      TileReframed(s, i, t, w, h, cpixel);
    }
  }

  lemma {:induction false} TilesReframed(s: seq<Byte>, i: nat, ts: seq<TightTile>, tiles: seq<Rect>, cpixel: nat)
    requires TilesFramed(ts, tiles, cpixel) && Sits(s, i, TightWire(ts))
    ensures TilesEnd(TightScan(cpixel), s, i, tiles) == Some(i + |TightWire(ts)|)
  {
    TightWireIsConcat(ts);
    var scan, wires := TightScan(cpixel), TileWires(ts);
    assert TilesEnd(scan, s, i, tiles) == Some(i + |Concat(wires)|) by {
      forall k | 0 <= k < |wires|
        ensures FindsTile(scan, wires[k], tiles[k].Width(), tiles[k].Height())
      {
        TileFound(ts[k], tiles[k].Width(), tiles[k].Height(), cpixel);
      }
      TilesFound(scan, s, i, wires, tiles);
    }
  }

  /** `r` carries the payload `p`, and its Tight tiles, if any, are ones the proxy agrees about. */
  ghost predicate Framed(r: Rectangle, p: Payload, bpp: nat, cpixel: nat) {
    && Carries(r, p, bpp)
    && (p.TightTiles? ==> TilesFramed(p.tiles, Tiles(Rect(0, 0, r.header.width, r.header.height)), cpixel))
  }

  ghost predicate Sendable(r: Rectangle, bpp: nat, cpixel: nat) {
    exists p :: Framed(r, p, bpp, cpixel)
  }

  lemma {:induction false} PayloadReframed(s: seq<Byte>, i: nat, r: Rectangle, p: Payload, bpp: nat, cpixel: nat)
    requires Framed(r, p, bpp, cpixel) && Sits(s, i, r.data)
    ensures DataEnd(s, i, r.header.width, r.header.height, r.header.encoding, bpp, cpixel) == Some(i + |r.data|)
  {
    match p {
      case RawPixels(_) =>
      case CopyFrom(_, _) =>
      case ZlibData(compressed) => PrefixedReframed(s, i, compressed);
      case TightTiles(tiles) => TilesReframed(s, i, tiles, Tiles(Rect(0, 0, r.header.width, r.header.height)), cpixel);
      case ZrleData(compressed) => PrefixedReframed(s, i, compressed);
      case H264Frame(flags, nal) => H264Reframed(s, i, flags, nal);
      case CursorShape(_, _) =>
      case DesktopResize =>
    }
  }

  lemma {:induction false} RectReframed(s: seq<Byte>, i: nat, r: Rectangle, bpp: nat, cpixel: nat)
    requires Sendable(r, bpp, cpixel) && Sits(s, i, r.Wire())
    ensures RectEnd(s, i, bpp, cpixel) == Some(i + |r.Wire()|)
  {
    var p :| Framed(r, p, bpp, cpixel);
    SitsSplit(s, i, r.header.Wire(), r.data);
    HeaderRoundTrip(r.header, s, i);
    PayloadReframed(s, i + 12, r, p, bpp, cpixel);
  }

  lemma {:induction false} RectFound(r: Rectangle, bpp: nat, cpixel: nat)
    requires Sendable(r, bpp, cpixel)
    ensures Finds(RectScan(bpp, cpixel), r.Wire())
  {
    forall s: seq<Byte>, i: nat | Sits(s, i, r.Wire())
      ensures RectEnd(s, i, bpp, cpixel) == Some(i + |r.Wire()|)
    {
      RectReframed(s, i, r, bpp, cpixel);
    }
  }

  ghost predicate AllSendable(rects: seq<Rectangle>, bpp: nat, cpixel: nat) {
    forall i :: 0 <= i < |rects| ==> Sendable(rects[i], bpp, cpixel)
  }

  lemma {:induction false} RectsReframed(s: seq<Byte>, i: nat, rects: seq<Rectangle>, bpp: nat, cpixel: nat)
    requires AllSendable(rects, bpp, cpixel) && Sits(s, i, RectsWire(rects))
    ensures Repeat(RectScan(bpp, cpixel), s, i, |rects|) == Some(i + |RectsWire(rects)|)
  {
    RectsWireIsConcat(rects);
    var wires, scan := RectWires(rects), RectScan(bpp, cpixel);
    assert Repeat(scan, s, i, |wires|) == Some(i + |Concat(wires)|) by {
      forall k | 0 <= k < |wires|
        ensures Finds(scan, wires[k])
      {
        RectFound(rects[k], bpp, cpixel);
      }
      RepeatFinds(scan, s, i, wires);
    }
  }

  /** The count on the wire is the number of rectangles modulo 2^16. */
  lemma {:induction false} UpdateHead(s: seq<Byte>, i: nat, rects: seq<Rectangle>)
    requires Sits(s, i, UpdateWire(rects))
    ensures i + 4 <= |s| && s[i] == 0 && Be16At(s, i + 2) == |rects| % 0x1_0000 && Sits(s, i + 4, RectsWire(rects))
  {
    var head, count := [0, 0], Be16(|rects|);
    SitsSplit(s, i, head + count, RectsWire(rects));
    SitsSplit(s, i, head, count);
    assert s[i] == head[0];
    ReadWriteBe16(|rects|, s, i + 2);
  }

  lemma {:induction false} UpdateEnds(s: seq<Byte>, i: nat, count: nat, end: nat, bpp: nat, cpixel: nat)
    requires i + 4 <= |s| && s[i] == 0 && Be16At(s, i + 2) == count
    requires Repeat(RectScan(bpp, cpixel), s, i + 4, count) == Some(end)
    ensures MessageEnd(s, i, bpp, cpixel) == Some(end)
  {
  }

  lemma {:induction false} PrefixSits(s: seq<Byte>, i: nat, rects: seq<Rectangle>, n: nat)
    requires n <= |rects| && Sits(s, i, RectsWire(rects))
    ensures Sits(s, i, RectsWire(rects[..n]))
  {
    assert rects == rects[..n] + rects[n..];
    RectsWireAppend(rects[..n], rects[n..]);
    SitsSplit(s, i, RectsWire(rects[..n]), RectsWire(rects[n..]));
  }

  lemma {:induction false} FirstRectsReframed(s: seq<Byte>, i: nat, rects: seq<Rectangle>, n: nat, bpp: nat, cpixel: nat)
    requires AllSendable(rects, bpp, cpixel) && n <= |rects| && Sits(s, i, RectsWire(rects))
    ensures Repeat(RectScan(bpp, cpixel), s, i, n) == Some(i + |RectsWire(rects[..n])|)
  {
    PrefixSits(s, i, rects, n);
    var first := rects[..n];
    assert AllSendable(first, bpp, cpixel);
    RectsReframed(s, i, first, bpp, cpixel);
  }

  /** The proxy reads as many rectangles as the count says, which may be fewer than were written. */
  lemma {:induction false} UpdateStops(s: seq<Byte>, i: nat, rects: seq<Rectangle>, n: nat, bpp: nat, cpixel: nat)
    requires AllSendable(rects, bpp, cpixel) && Sits(s, i + 4, RectsWire(rects)) && n <= |rects|
    requires i + 4 <= |s| && s[i] == 0 && Be16At(s, i + 2) == n
    ensures MessageEnd(s, i, bpp, cpixel) == Some(i + 4 + |RectsWire(rects[..n])|)
  {
    var end := i + 4 + |RectsWire(rects[..n])|;
    FirstRectsReframed(s, i + 4, rects, n, bpp, cpixel);
    UpdateEnds(s, i, n, end, bpp, cpixel);
  }

  lemma RectsWireSize(rects: seq<Rectangle>)
    ensures |RectsWire(rects)| >= 12 * |rects|
  {
  }

  lemma {:induction false} LeftUnread(rects: seq<Rectangle>, n: nat)
    requires n == |rects| % 0x1_0000 && n <= |rects|
    ensures |RectsWire(rects[..n])| == |RectsWire(rects)| <==> |rects| < 0x1_0000
  {
    assert rects == rects[..n] + rects[n..];
    RectsWireAppend(rects[..n], rects[n..]);
    RectsWireSize(rects[n..]);
  }

  /** An update is read back whole exactly when its rectangle count fits 16 bits. */
  lemma {:induction false} UpdateReframed(s: seq<Byte>, i: nat, rects: seq<Rectangle>, bpp: nat, cpixel: nat)
    requires AllSendable(rects, bpp, cpixel) && Sits(s, i, UpdateWire(rects))
    ensures MessageEnd(s, i, bpp, cpixel) == Some(i + |UpdateWire(rects)|) <==> |rects| < 0x1_0000
  {
    var n := |rects| % 0x1_0000;
    UpdateHead(s, i, rects);
    UpdateStops(s, i, rects, n, bpp, cpixel);
    LeftUnread(rects, n);
  }

  lemma {:induction false} CutTextReframed(s: seq<Byte>, i: nat, text: seq<Byte>, bpp: nat, cpixel: nat)
    requires |text| < 0x1_0000_0000 && Sits(s, i, CutTextWire(text))
    ensures MessageEnd(s, i, bpp, cpixel) == Some(i + |CutTextWire(text)|)
  {
    var head, size := [3, 0, 0, 0], Be32(|text|);
    SitsSplit(s, i, head + size, text);
    SitsSplit(s, i, head, size);
    assert s[i] == head[0];
    ReadWriteBe32(|text|, s, i + 4);
  }

  ghost predicate MessageFramed(m: ServerMessage, bpp: nat, cpixel: nat) {
    match m
    case Update(rects) => |rects| < 0x1_0000 && AllSendable(rects, bpp, cpixel)
    case CutText(text) => |text| < 0x1_0000_0000
    case Bell => true
  }

  lemma {:induction false} MessageReframed(s: seq<Byte>, i: nat, m: ServerMessage, bpp: nat, cpixel: nat)
    requires MessageFramed(m, bpp, cpixel) && Sits(s, i, m.Wire())
    ensures MessageEnd(s, i, bpp, cpixel) == Some(i + |m.Wire()|)
  {
    match m
    case Update(rects) => UpdateReframed(s, i, rects, bpp, cpixel);
    case CutText(text) => CutTextReframed(s, i, text, bpp, cpixel);
    case Bell => assert s[i] == m.Wire()[0];
  }

  lemma {:induction false} MessageFound(m: ServerMessage, bpp: nat, cpixel: nat)
    requires MessageFramed(m, bpp, cpixel)
    ensures m.Wire() != [] && Finds(MessageScan(bpp, cpixel), m.Wire())
  {
    forall s: seq<Byte>, i: nat | Sits(s, i, m.Wire())
      ensures MessageEnd(s, i, bpp, cpixel) == Some(i + |m.Wire()|)
    {
      MessageReframed(s, i, m, bpp, cpixel);
    }
  }

  function Wires(ms: seq<ServerMessage>): seq<seq<Byte>> {
    seq(|ms|, i requires 0 <= i < |ms| => ms[i].Wire())
  }

  /** Re-framing returns exactly the server's messages, one at a time, and then what follows. */
  lemma {:induction false} StreamReframed(ms: seq<ServerMessage>, bpp: nat, cpixel: nat, s: seq<Byte>, i: nat)
    requires forall k :: 0 <= k < |ms| ==> MessageFramed(ms[k], bpp, cpixel)
    requires Sits(s, i, Concat(Wires(ms)))
    ensures var scan := MessageScan(bpp, cpixel);
            Frames(scan, s, i, []) == Frames(scan, s, i + |Concat(Wires(ms))|, Wires(ms))
  {
    hide Frames;
    var scan, wires := MessageScan(bpp, cpixel), Wires(ms);
    assert Frames(scan, s, i, []) == Frames(scan, s, i + |Concat(wires)|, [] + wires) by {
      assert AllFound(scan, wires) by {
        forall k | 0 <= k < |wires|
          ensures wires[k] != [] && Finds(scan, wires[k])
        {
          MessageFound(ms[k], bpp, cpixel);
        }
      }
      FramesAreMessages(scan, s, i, wires, []);
    }
    assert [] + wires == wires;
  }
}

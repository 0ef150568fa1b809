/**
  What servers other than redvnc may send through the proxy: Tight tiles with filters, RRE rectangles and
  colour maps, written here as RFC 6143 and the Tight format lay them out. The proxy finds the end of
  each of them; the browser agrees with it about colour maps, but not about filtered tiles and RRE.
 */
module ForeignServers {
  import opened Bytes
  import opened Streams
  import opened Scans
  import opened Grid
  import opened Protocol
  import opened Framing
  import CompactLength
  import Reframing
  import RfbParser

  /** How a Basic tile's pixels were prepared; a palette lists its colours. */
  datatype Filter = NoFilter | CopyFilter | PaletteFilter(entries: seq<seq<Byte>>) | GradientFilter

  datatype ForeignTile =
    | FillTile(colour: seq<Byte>)
    | JpegTile(payload: seq<Byte>)
    | BasicTile(stream: nat, filter: Filter, data: seq<Byte>)

  ghost predicate AllSized(items: seq<seq<Byte>>, size: nat) {
    forall i :: 0 <= i < |items| ==> |items[i]| == size
  }

  lemma {:induction false} ConcatSize(items: seq<seq<Byte>>, size: nat)
    requires AllSized(items, size)
    ensures |Concat(items)| == |items| * size
  {
    if items != [] {
      ConcatSize(items[1..], size);
      assert |items| * size == (|items| - 1) * size + size;
    }
  }

  /** `n` is the least number of bytes that hold `w` bits. */
  predicate HoldsBits(n: nat, w: nat) {
    8 * n >= w && (n > 0 ==> 8 * (n - 1) < w)
  }

  /**
    `size` bytes come out of the filter: whole pixels; or one index a pixel, a bit each in rows of whole bytes
    for two colours, and a byte each for more.
   */
  ghost predicate Prepared(filter: Filter, w: nat, h: nat, cpixel: nat, size: nat) {
    match filter
    case PaletteFilter(entries) =>
      && 2 <= |entries| <= 256 && AllSized(entries, cpixel)
      && if |entries| == 2 then exists n: nat :: HoldsBits(n, w) && size == n * h else size == w * h
    case _ => size == w * h * cpixel
  }

  /** The tile can be written: below 12 bytes the data stand as they are, and a compressed tile needs a length. */
  ghost predicate Writable(t: ForeignTile, w: nat, h: nat, cpixel: nat, size: nat) {
    match t
    case FillTile(colour) => |colour| == cpixel
    case JpegTile(payload) => |payload| < CompactLength.LIMIT
    case BasicTile(stream, filter, data) =>
      stream < 4 && Prepared(filter, w, h, cpixel, size) && if size < 12 then |data| == size else |data| < CompactLength.LIMIT
  }

  function FilterWire(filter: Filter): seq<Byte> {
    match filter
    case NoFilter => []
    case CopyFilter => [0]
    case PaletteFilter(entries) => [1, (|entries| + 255) % 256] + Concat(entries)
    case GradientFilter => [2]
  }

  /** Data of `size` bytes before compression. */
  function DataWire(data: seq<Byte>, size: nat): seq<Byte> {
    if size < 12 then data else CompactLength.Encode(|data|) + data
  }

  /** Streams to restart in the upper four bits, then the kind: 8 fill, 9 JPEG, else the stream and 4 for a filter. */
  function TileControl(t: ForeignTile, restarts: nat): Byte
    requires restarts < 16 && (t.BasicTile? ==> t.stream < 4)
  {
    match t
    case FillTile(_) => restarts * 16 + 8
    case JpegTile(_) => restarts * 16 + 9
    case BasicTile(stream, filter, _) => restarts * 16 + (if filter.NoFilter? then 0 else 4) + stream
  }

  function TileBody(t: ForeignTile, size: nat): seq<Byte> {
    match t
    case FillTile(colour) => colour
    case JpegTile(payload) => CompactLength.Encode(|payload|) + payload
    case BasicTile(_, filter, data) => FilterWire(filter) + DataWire(data, size)
  }

  function TileWire(t: ForeignTile, restarts: nat, size: nat): seq<Byte>
    requires restarts < 16 && (t.BasicTile? ==> t.stream < 4)
  {
    [TileControl(t, restarts)] + TileBody(t, size)
  }

  lemma {:induction false} LeastBytes(n: nat, w: nat)
    requires HoldsBits(n, w)
    ensures n == (w + 7) / 8
  {
  }

  lemma {:induction false} DataFound(s: seq<Byte>, i: nat, data: seq<Byte>, size: nat)
    requires if size < 12 then |data| == size else |data| < CompactLength.LIMIT
    requires Sits(s, i, DataWire(data, size))
    ensures BasicDataEnd(s, i, size) == Some(i + |DataWire(data, size)|)
  {
    if size >= 12 { Reframing.CompactReframed(s, i, data); }
  }

  lemma {:induction false} IndexSize(entries: seq<seq<Byte>>, w: nat, h: nat, cpixel: nat, size: nat)
    requires Prepared(PaletteFilter(entries), w, h, cpixel, size)
    ensures 2 <= |entries| <= 256 && size == IndexBytes(w, h, |entries|)
  {
    if |entries| == 2 {
      var n: nat :| HoldsBits(n, w) && size == n * h;
      LeastBytes(n, w);
    }
  }

  lemma {:induction false} PaletteFound(
    s: seq<Byte>, i: nat, entries: seq<seq<Byte>>, data: seq<Byte>, w: nat, h: nat, cpixel: nat, size: nat)
    requires Prepared(PaletteFilter(entries), w, h, cpixel, size)
    requires if size < 12 then |data| == size else |data| < CompactLength.LIMIT
    requires Sits(s, i, [(|entries| + 255) % 256] + Concat(entries) + DataWire(data, size))
    ensures FilteredEnd(s, i, w, h, cpixel, 1) == Some(i + 1 + |Concat(entries)| + |DataWire(data, size)|)
  {
    hide Concat, DataWire, BasicDataEnd;
    var count: seq<Byte> := [(|entries| + 255) % 256];
    SitsSplit(s, i, count + Concat(entries), DataWire(data, size));
    SitsSplit(s, i, count, Concat(entries));
    assert s[i] == count[0] == |entries| - 1;
    ConcatSize(entries, cpixel);
    IndexSize(entries, w, h, cpixel, size);
    DataFound(s, i + 1 + |Concat(entries)|, data, size);
  }

  /** Behind the filter byte. */
  lemma {:induction false} FilterFound(
    s: seq<Byte>, i: nat, filter: Filter, data: seq<Byte>, w: nat, h: nat, cpixel: nat, size: nat, sub: Byte)
    requires Prepared(filter, w, h, cpixel, size) && (sub / 4 % 2 == 0 <==> filter.NoFilter?)
    requires if size < 12 then |data| == size else |data| < CompactLength.LIMIT
    requires Sits(s, i, FilterWire(filter) + DataWire(data, size))
    ensures BasicEnd(s, i, w, h, cpixel, sub) == Some(i + |FilterWire(filter) + DataWire(data, size)|)
  {
    hide Prepared, BasicDataEnd, DataWire;
    SitsSplit(s, i, FilterWire(filter), DataWire(data, size));
    match filter
    case PaletteFilter(entries) =>
      var count: seq<Byte> := [(|entries| + 255) % 256];
      var rest := count + Concat(entries) + DataWire(data, size);
      assert FilterWire(filter) + DataWire(data, size) == [1] + rest;
      SitsSplit(s, i, [1], rest);
      assert s[i] == [1][0];
      PaletteFound(s, i + 1, entries, data, w, h, cpixel, size);
    case NoFilter =>
      WholePixels(filter, w, h, cpixel, size);
      DataFound(s, i, data, size);
    case CopyFilter =>
      WholePixels(filter, w, h, cpixel, size);
      assert s[i] == FilterWire(filter)[0];
      DataFound(s, i + 1, data, size);
    case GradientFilter =>
      WholePixels(filter, w, h, cpixel, size);
      assert s[i] == FilterWire(filter)[0];
      DataFound(s, i + 1, data, size);
  }

  lemma {:induction false} WholePixels(filter: Filter, w: nat, h: nat, cpixel: nat, size: nat)
    requires Prepared(filter, w, h, cpixel, size) && !filter.PaletteFilter?
    ensures size == w * h * cpixel
  {
  }

  /** The lower half of the control byte. */
  lemma {:induction false} ControlKind(t: ForeignTile, restarts: nat)
    requires restarts < 16 && (t.BasicTile? ==> t.stream < 4)
    ensures var sub := TileControl(t, restarts) % 16;
            match t
            case FillTile(_) => sub == 8
            case JpegTile(_) => sub == 9
            case BasicTile(_, filter, _) => sub <= 7 && (sub / 4 % 2 == 0 <==> filter.NoFilter?)
  {
  }

  lemma {:induction false} TileFoundAt(
    s: seq<Byte>, i: nat, t: ForeignTile, control: Byte, w: nat, h: nat, cpixel: nat, size: nat)
    requires Writable(t, w, h, cpixel, size) && Sits(s, i, [control] + TileBody(t, size))
    requires var sub := control % 16;
             match t
             case FillTile(_) => sub == 8
             case JpegTile(_) => sub == 9
             case BasicTile(_, filter, _) => sub <= 7 && (sub / 4 % 2 == 0 <==> filter.NoFilter?)
    ensures TileEnd(s, i, w, h, cpixel) == Some(i + 1 + |TileBody(t, size)|)
  {
    hide BasicEnd, CompactEnd, Prepared, FilterWire, DataWire;
    SitsSplit(s, i, [control], TileBody(t, size));
    assert s[i] == [control][0];
    match t
    case FillTile(_) =>
    case JpegTile(payload) => Reframing.CompactReframed(s, i + 1, payload);
    case BasicTile(_, filter, data) => FilterFound(s, i + 1, filter, data, w, h, cpixel, size, control % 16);
  }

  /** The proxy finds the end of every tile the Tight format allows, whatever streams it restarts. */
  lemma {:induction false} ForeignTileFound(t: ForeignTile, restarts: nat, w: nat, h: nat, cpixel: nat, size: nat)
    requires restarts < 16 && Writable(t, w, h, cpixel, size)
    ensures FindsTile(TightScan(cpixel), TileWire(t, restarts, size), w, h)
  {
    hide TileEnd, TileBody, Prepared;
    var wire := TileWire(t, restarts, size);
    ControlKind(t, restarts);
    hide TileControl;
    forall s: seq<Byte>, i: nat | Sits(s, i, wire) ensures TileEnd(s, i, w, h, cpixel) == Some(i + |wire|) {
      TileFoundAt(s, i, t, TileControl(t, restarts), w, h, cpixel, size);
    }
  }

  // ----- rectangles

  /** One subrectangle: its colour, and 16-bit position and size. */
  datatype Subrect = Subrect(pixel: seq<Byte>, x: nat, y: nat, w: nat, h: nat) {
    function Wire(): seq<Byte> {
      pixel + Be16(x) + Be16(y) + Be16(w) + Be16(h)
    }
  }

  function SubrectWires(subrects: seq<Subrect>): seq<seq<Byte>> {
    seq(|subrects|, i requires 0 <= i < |subrects| => subrects[i].Wire())
  }

  /** The number of subrectangles, the background colour, and the subrectangles. */
  function RreWire(background: seq<Byte>, subrects: seq<Subrect>): seq<Byte> {
    Be32(|subrects|) + background + Concat(SubrectWires(subrects))
  }

  ghost predicate RreFits(background: seq<Byte>, subrects: seq<Subrect>, bpp: nat) {
    && |background| == bpp && |subrects| < 0x1_0000_0000
    && forall i :: 0 <= i < |subrects| ==> |subrects[i].pixel| == bpp
  }

  lemma {:induction false} RreSize(background: seq<Byte>, subrects: seq<Subrect>, bpp: nat)
    requires RreFits(background, subrects, bpp)
    ensures |RreWire(background, subrects)| == 4 + (bpp + |subrects| * (bpp + 8))
  {
    assert AllSized(SubrectWires(subrects), bpp + 8);
    ConcatSize(SubrectWires(subrects), bpp + 8);
  }

  lemma {:induction false} RreFound(s: seq<Byte>, i: nat, background: seq<Byte>, subrects: seq<Subrect>, bpp: nat)
    requires RreFits(background, subrects, bpp) && Sits(s, i, RreWire(background, subrects))
    ensures RreEnd(s, i, bpp) == Some(i + |RreWire(background, subrects)|)
  {
    var count, wires := Be32(|subrects|), Concat(SubrectWires(subrects));
    SitsSplit(s, i, count + background, wires);
    SitsSplit(s, i, count, background);
    ReadWriteBe32(|subrects|, s, i);
    RreSize(background, subrects, bpp);
  }

  /** The proxy finds the end of an RRE rectangle; encoding number 2. */
  lemma {:induction false} RreRectFound(
    r: Rectangle, background: seq<Byte>, subrects: seq<Subrect>, bpp: nat, cpixel: nat)
    requires r.header.Fits() && r.header.encoding == 2
    requires RreFits(background, subrects, bpp) && r.data == RreWire(background, subrects)
    ensures Finds(RectScan(bpp, cpixel), r.Wire())
  {
    hide RreWire, RreEnd;
    forall s: seq<Byte>, i: nat | Sits(s, i, r.Wire()) ensures RectEnd(s, i, bpp, cpixel) == Some(i + |r.Wire()|) {
      SitsSplit(s, i, r.header.Wire(), r.data);
      HeaderRoundTrip(r.header, s, i);
      RreFound(s, i + 12, background, subrects, bpp);
    }
  }

  /** A tile as written: what it is, the streams it restarts, and the size of its data before compression. */
  datatype Sent = Sent(tile: ForeignTile, restarts: nat, size: nat)

  ghost predicate SentFits(sent: Sent, area: Rect, cpixel: nat) {
    sent.restarts < 16 && Writable(sent.tile, area.Width(), area.Height(), cpixel, sent.size)
  }

  ghost predicate AllFit(sent: seq<Sent>, tiles: seq<Rect>, cpixel: nat) {
    |sent| == |tiles| && forall i :: 0 <= i < |sent| ==> SentFits(sent[i], tiles[i], cpixel)
  }

  ghost function SentWires(sent: seq<Sent>, tiles: seq<Rect>, cpixel: nat): seq<seq<Byte>>
    requires AllFit(sent, tiles, cpixel)
  {
    seq(|sent|, i requires 0 <= i < |sent| =>
      assert SentFits(sent[i], tiles[i], cpixel);
      TileWire(sent[i].tile, sent[i].restarts, sent[i].size))
  }

  /** The proxy finds the end of a Tight rectangle of such tiles; encoding number 7. */
  lemma {:induction false} TightRectFound(r: Rectangle, sent: seq<Sent>, bpp: nat, cpixel: nat)
    requires r.header.Fits() && r.header.encoding == 7
    requires AllFit(sent, Tiles(Rect(0, 0, r.header.width, r.header.height)), cpixel)
    requires r.data == Concat(SentWires(sent, Tiles(Rect(0, 0, r.header.width, r.header.height)), cpixel))
    ensures Finds(RectScan(bpp, cpixel), r.Wire())
  {
    hide Concat, TileWire, Writable, TilesEnd, Tiles;
    var scan, tiles := TightScan(cpixel), Tiles(Rect(0, 0, r.header.width, r.header.height));
    var wires := SentWires(sent, tiles, cpixel);
    forall k | 0 <= k < |wires| ensures FindsTile(scan, wires[k], tiles[k].Width(), tiles[k].Height()) {
      assert SentFits(sent[k], tiles[k], cpixel);
      ForeignTileFound(sent[k].tile, sent[k].restarts, tiles[k].Width(), tiles[k].Height(), cpixel, sent[k].size);
    }
    forall s: seq<Byte>, i: nat | Sits(s, i, r.Wire()) ensures RectEnd(s, i, bpp, cpixel) == Some(i + |r.Wire()|) {
      SitsSplit(s, i, r.header.Wire(), r.data);
      HeaderRoundTrip(r.header, s, i);
      TilesFound(scan, s, i + 12, wires, tiles);
    }
  }

  /** An update of rectangles the proxy finds the ends of, its own server's or foreign ones, is found as a whole. */
  lemma {:induction false} ForeignUpdateFound(rects: seq<Rectangle>, bpp: nat, cpixel: nat)
    requires |rects| < 0x1_0000 && forall k :: 0 <= k < |rects| ==> Finds(RectScan(bpp, cpixel), rects[k].Wire())
    ensures Finds(MessageScan(bpp, cpixel), UpdateWire(rects))
  {
    hide Repeat, Concat, RectEnd;
    var wires := RectWires(rects);
    RectsWireIsConcat(rects);
    forall s: seq<Byte>, i: nat | Sits(s, i, UpdateWire(rects))
      ensures MessageEnd(s, i, bpp, cpixel) == Some(i + |UpdateWire(rects)|)
    {
      Reframing.UpdateHead(s, i, rects);
      RepeatFinds(RectScan(bpp, cpixel), s, i + 4, wires);
      Reframing.UpdateEnds(s, i, |rects|, i + |UpdateWire(rects)|, bpp, cpixel);
    }
  }

  // ----- colour maps

  datatype MapEntry = MapEntry(red: nat, green: nat, blue: nat) {
    function Wire(): (r: seq<Byte>)
      ensures |r| == 6
    {
      Be16(red) + Be16(green) + Be16(blue)
    }
  }

  function EntryWires(entries: seq<MapEntry>): seq<seq<Byte>> {
    seq(|entries|, i requires 0 <= i < |entries| => entries[i].Wire())
  }

  /** Type 1, a byte of padding, the first index, the number of entries, and the entries. */
  function ColourMapWire(pad: Byte, first: nat, entries: seq<MapEntry>): seq<Byte> {
    [1, pad] + Be16(first) + Be16(|entries|) + Concat(EntryWires(entries))
  }

  lemma {:induction false} ColourMapSize(pad: Byte, first: nat, entries: seq<MapEntry>)
    ensures |ColourMapWire(pad, first, entries)| == 6 + |entries| * 6
  {
    assert AllSized(EntryWires(entries), 6);
    ConcatSize(EntryWires(entries), 6);
  }

  lemma {:induction false} ColourMapHead(s: seq<Byte>, i: nat, pad: Byte, first: nat, entries: seq<MapEntry>)
    requires |entries| < 0x1_0000 && Sits(s, i, ColourMapWire(pad, first, entries))
    ensures i + 6 <= |s| && s[i] == 1 && Be16At(s, i + 4) == |entries|
  {
    var head, start, count, body := [1, pad], Be16(first), Be16(|entries|), Concat(EntryWires(entries));
    SitsSplit(s, i, head + start + count, body);
    SitsSplit(s, i, head + start, count);
    SitsSplit(s, i, head, start);
    assert s[i] == head[0];
    ReadWriteBe16(|entries|, s, i + 4);
  }

  /** The proxy finds the end of a colour map, and the browser measures it to be as long. */
  lemma {:induction false} ColourMapAgreed(pad: Byte, first: nat, entries: seq<MapEntry>, bpp: nat, cpixel: nat, rest: seq<Byte>)
    requires |entries| < 0x1_0000
    ensures Finds(MessageScan(bpp, cpixel), ColourMapWire(pad, first, entries))
    ensures RfbParser.MessageLength(ColourMapWire(pad, first, entries) + rest) == Some(|ColourMapWire(pad, first, entries)|)
  {
    hide ColourMapWire;
    var wire := ColourMapWire(pad, first, entries);
    ColourMapSize(pad, first, entries);
    forall s: seq<Byte>, i: nat | Sits(s, i, wire) ensures MessageEnd(s, i, bpp, cpixel) == Some(i + |wire|) {
      ColourMapHead(s, i, pad, first, entries);
    }
    SitsAtHead(wire, rest);
    ColourMapHead(wire + rest, 0, pad, first, entries);
  }

  // ----- where the browser disagrees

  /** The browser does not know RRE and takes what follows the header of such a rectangle for the next one. */
  lemma {:induction false} RreCutShort(r: Rectangle, background: seq<Byte>, subrects: seq<Subrect>, s: seq<Byte>, i: nat)
    requires r.header.Fits() && r.header.encoding == 2 && r.data == RreWire(background, subrects) && Sits(s, i, r.Wire())
    ensures RfbParser.RectEnd(s, i) == Some(i + 12) && 12 < |r.Wire()|
  {
    SitsSplit(s, i, r.header.Wire(), r.data);
    HeaderRoundTrip(r.header, s, i);
  }

  /**
    Nor does it know filters: it takes the filter byte for the length. In an 8x8 tile of two colours, a
    bit a pixel and below 12 bytes, the proxy reads 17 bytes and the browser three.
   */
  lemma {:induction false} FilterCutShort()
    ensures var white, black := [255, 255, 255], [0, 0, 0];
            var wire := TileWire(BasicTile(0, PaletteFilter([white, black]), [0xAA, 0, 0xAA, 0, 0xAA, 0, 0xAA, 0]), 0, 8);
            TightScan(3)(wire, 0, 8, 8) == Some(17) && |wire| == 17 && RfbParser.TileEnd(wire, 0) == Some(3)
  {
    var white, black: seq<Byte> := [255, 255, 255], [0, 0, 0];
    var data: seq<Byte> := [0xAA, 0, 0xAA, 0, 0xAA, 0, 0xAA, 0];
    var t := BasicTile(0, PaletteFilter([white, black]), data);
    assert HoldsBits(1, 8) && 8 == 1 * 8;
    assert Concat([white, black]) == white + black by {
      assert [white, black][1..] == [black];
      ConcatOne(black);
    }
    var wire := TileWire(t, 0, 8);
    ForeignTileFound(t, 0, 8, 8, 3, 8);
    assert Sits(wire, 0, wire);
    assert wire[0] == 4 && wire[1] == 1;
  }
}

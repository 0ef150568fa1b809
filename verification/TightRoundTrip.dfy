/**
  Tight from the parallel Go encoder to the browser: whatever the schedule was, the browser's four
  inflaters stay in step with the four compressors, and every tile that is not a JPEG arrives.
 */
module TightRoundTrip {
  import opened Bytes
  import opened Streams
  import opened Grid
  import opened Framebuffers
  import opened Colours
  import opened TightTiles
  import opened TightDecoders
  import opened TightEncoders
  import opened Protocol
  import ZrleEncoders
  import ZrleRoundTrip
  import CompactLength
  import Reframing
  import Zlib

  /** What the four compressors have compressed. */
  type Histories = (nat) -> seq<seq<Byte>>

  /** Each of the browser's streams has been given exactly what the encoder's stream has flushed. */
  ghost predicate InStep(codec: Zlib.Codec, flushed: Histories, streams: Inflaters) {
    forall s: nat :: s < 4 ==> Zlib.InStep(codec, flushed(s), streams.Get(s).history, streams.Get(s).firstPush)
  }

  /** The histories when the encoder comes to tile `i`. */
  ghost function Flushed(start: seq<seq<seq<Byte>>>, tiles: seq<TileInfo>): Histories
    requires |start| == 4
  {
    (s: nat) => FlushedBy(start, tiles, s)
  }

  function FlushedBy(start: seq<seq<seq<Byte>>>, tiles: seq<TileInfo>, s: nat): seq<seq<Byte>>
    requires |start| == 4
  {
    if s < 4 then start[s] + Plains(tiles, s) else []
  }

  /** The colour an effect gives pixel (x, y) of its tile. */
  ghost function EffectColour(effect: Effect, tile: Rect, x: int, y: int): Rgba {
    match effect
    case FillWith(r, g, b) => Rgba(r, g, b, 255)
    case WriteRgb(rgb) => PackedRgb(rgb, tile.Width(), x - tile.x0, y - tile.y0)
    case Defer(_) => Rgba(0, 0, 0, 0)
  }

  /** A JPEG tile waits with its own bytes; any other shows the picture on all its pixels. */
  ghost predicate Arrived(effect: Effect, tile: TileInfo, jpeg: seq<Bgr> -> seq<Byte>, picture: View) {
    if tile.kind.JpegKind? then effect == Defer(jpeg(tile.px))
    else
      && !effect.Defer?
      && forall x: int, y: int :: tile.area.Contains(x, y) ==> EffectColour(effect, tile.area, x, y) == picture(x, y)
  }

  /** The payloads are short enough for the compact length. */
  ghost predicate Short(codec: Zlib.Codec, jpeg: seq<Bgr> -> seq<Byte>, start: seq<seq<seq<Byte>>>, tiles: seq<TileInfo>, i: nat)
    requires |start| == 4 && Numbered(tiles) && i < |tiles|
  {
    match tiles[i].kind
    case SolidKind(_) => true
    case JpegKind => |jpeg(tiles[i].px)| < CompactLength.LIMIT
    case BasicKind(s) => |codec.Emitted(HistoryAt(start, tiles, i), RgbWire(tiles[i].px))| < CompactLength.LIMIT
  }

  lemma {:induction false} CountedSits(data: seq<Byte>, o: nat, payload: seq<Byte>)
    requires |payload| < CompactLength.LIMIT && Sits(data, o, CompactLength.Encode(|payload|) + payload)
    ensures Counted(data, o) == Some((payload, o + |CompactLength.Encode(|payload|)| + |payload|))
  {
    var head := CompactLength.Encode(|payload|);
    SitsSplit(data, o, head, payload);
    CompactLength.RoundTrip(|payload|, data, o);
    assert data[o + |head|..o + |head| + |payload|] == payload;
  }

  /** Control bytes below 16 restart nothing. */
  lemma {:induction false} NoReset(streams: Inflaters, control: Byte)
    requires control < 16
    ensures Reset(streams, control) == streams
  {
  }

  /** A fill, whatever streams its control byte restarts. */
  lemma {:induction false} SolidDecodes(codec: Zlib.Codec, control: Byte, c: Bgr, data: seq<Byte>, o: nat, streams: Inflaters)
    requires control % 16 == 8 && Sits(data, o, [control, c.r, c.g, c.b])
    ensures DecodeOne(codec, data, o, streams) == Some(Decoded(o + 4, Reset(streams, control), FillWith(c.r, c.g, c.b)))
  {
    var wire := [control, c.r, c.g, c.b];
    assert data[o] == wire[0] && data[o + 1] == wire[1] && data[o + 2] == wire[2] && data[o + 3] == wire[3];
  }

  /** A JPEG. */
  lemma {:induction false} JpegDecodes(
    codec: Zlib.Codec, control: Byte, payload: seq<Byte>, data: seq<Byte>, o: nat, streams: Inflaters)
    requires control % 16 == 9 && |payload| < CompactLength.LIMIT
    requires Sits(data, o, [control] + CompactLength.Encode(|payload|) + payload)
    ensures DecodeOne(codec, data, o, streams)
            == Some(Decoded(o + 1 + |CompactLength.Encode(|payload|)| + |payload|, Reset(streams, control), Defer(payload)))
  {
    hide Reset;
    ControlAndCount(data, o, control, payload);
  }

  /** Under any other control byte, RGB data of the stream its two lowest bits name. */
  lemma {:induction false} BasicDecodes(
    codec: Zlib.Codec, control: Byte, payload: seq<Byte>, data: seq<Byte>, o: nat, streams: Inflaters)
    requires control % 16 != 8 && control % 16 != 9 && |payload| < CompactLength.LIMIT
    requires Sits(data, o, [control] + CompactLength.Encode(|payload|) + payload)
    ensures var before, s := Reset(streams, control), control % 4;
            DecodeOne(codec, data, o, streams)
            == Some(Decoded(o + 1 + |CompactLength.Encode(|payload|)| + |payload|,
                            before.Set(s, before.Get(s).Pushed(payload)), WriteRgb(before.Get(s).Output(codec, payload))))
  {
    hide Reset, Inflaters.Set, Inflaters.Get, Inflater.Pushed, Inflater.Output;
    ControlAndCount(data, o, control, payload);
    assert control % 16 % 4 == control % 4;
  }

  /** As the encoder writes it, without restarts. */
  lemma {:induction false} PlainBasicDecodes(
    codec: Zlib.Codec, s: Byte, payload: seq<Byte>, data: seq<Byte>, o: nat, streams: Inflaters)
    requires s < 4 && |payload| < CompactLength.LIMIT
    requires Sits(data, o, [s] + CompactLength.Encode(|payload|) + payload)
    ensures DecodeOne(codec, data, o, streams)
            == Some(Decoded(o + 1 + |CompactLength.Encode(|payload|)| + |payload|,
                            streams.Set(s, streams.Get(s).Pushed(payload)), WriteRgb(streams.Get(s).Output(codec, payload))))
  {
    hide DecodeOne, Reset, Inflaters.Set, Inflaters.Get, Inflater.Pushed, Inflater.Output;
    BasicDecodes(codec, s, payload, data, o, streams);
    NoReset(streams, s);
    assert s % 4 == s;
  }

  lemma {:induction false} ControlAndCount(data: seq<Byte>, o: nat, control: Byte, payload: seq<Byte>)
    requires |payload| < CompactLength.LIMIT
    requires Sits(data, o, [control] + CompactLength.Encode(|payload|) + payload)
    ensures o < |data| && data[o] == control
    ensures Counted(data, o + 1) == Some((payload, o + 1 + |CompactLength.Encode(|payload|)| + |payload|))
  {
    var body := CompactLength.Encode(|payload|) + payload;
    assert [control] + CompactLength.Encode(|payload|) + payload == [control] + body;
    SitsSplit(data, o, [control], body);
    assert data[o] == [control][0];
    CountedSits(data, o + 1, payload);
  }

  /** The stream a Basic tile went through stays in step, and gives back the tile's RGB data. */
  lemma {:induction false} StreamDecodes(
    codec: Zlib.Codec, flushed: Histories, streams: Inflaters, s: nat, plain: seq<Byte>, later: Histories)
    requires codec.Inverts() && InStep(codec, flushed, streams) && s < 4
    requires forall t: nat :: t < 4 ==> later(t) == if t == s then flushed(s) + [plain] else flushed(t)
    ensures var payload := codec.Emitted(flushed(s), plain);
            && streams.Get(s).Output(codec, payload) == plain
            && InStep(codec, later, streams.Set(s, streams.Get(s).Pushed(payload)))
  {
    var payload := codec.Emitted(flushed(s), plain);
    assert Zlib.InStep(codec, flushed(s), streams.Get(s).history, streams.Get(s).firstPush);
    Zlib.StaysInStep(codec, flushed(s), plain);
    var pushed := streams.Get(s).Pushed(payload);
    var after := streams.Set(s, pushed);
    assert Zlib.InStep(codec, flushed(s) + [plain], pushed.history, pushed.firstPush);
    forall t: nat | t < 4 ensures Zlib.InStep(codec, later(t), after.Get(t).history, after.Get(t).firstPush) {
      GetAfterSet(streams, s, pushed, t);
      assert Zlib.InStep(codec, flushed(t), streams.Get(t).history, streams.Get(t).firstPush);
    }
  }

  lemma {:induction false} GetAfterSet(streams: Inflaters, s: nat, inflater: Inflater, t: nat)
    requires s < 4 && t < 4
    ensures streams.Set(s, inflater).Get(t) == if t == s then inflater else streams.Get(t)
  {
  }

  /** Pixel (x, y) of a packed RGB buffer made from a list of colours. */
  lemma {:induction false} RgbShows(px: seq<Bgr>, w: nat, x: nat, y: nat)
    requires At(y, w) + x < |px|
    ensures PackedRgb(RgbWire(px), w, x, y) == px[At(y, w) + x].Opaque()
  {
    var k, wire := At(y, w) + x, RgbWire(px);
    RgbWireAt(px, k);
    assert wire[3 * k..3 * k + 3][0] == wire[3 * k] && wire[3 * k..3 * k + 3][1] == wire[3 * k + 1]
           && wire[3 * k..3 * k + 3][2] == wire[3 * k + 2];
  }

  /** A tile of the frame, classified. */
  ghost predicate FromFrame(tile: TileInfo, pixels: seq<Byte>, stride: nat, varied: seq<Bgr> -> bool, basics: nat) {
    && RowMajor(tile.px, tile.area.Width(), tile.area.Height(),
                ZrleEncoders.SourceView(pixels, stride, tile.area.x0, tile.area.y0))
    && tile.kind == KindOf(tile.px, tile.area, varied, basics)
  }

  lemma {:induction false} TilePixel(
    tile: TileInfo, pixels: seq<Byte>, stride: nat, varied: seq<Bgr> -> bool, basics: nat, x: int, y: int)
    requires FromFrame(tile, pixels, stride, varied, basics) && tile.area.Contains(x, y)
    ensures var k := At(y - tile.area.y0, tile.area.Width()) + (x - tile.area.x0);
            k < |tile.px| && tile.px[k].Opaque() == ZrleRoundTrip.FramePicture(pixels, stride)(x, y)
  {
    var w, h, c, r := tile.area.Width(), tile.area.Height(), x - tile.area.x0, y - tile.area.y0;
    var view := ZrleEncoders.SourceView(pixels, stride, tile.area.x0, tile.area.y0);
    AtGrows(r, h, w);
    assert InOrder(tile.px, w, h, view, c, r);
    assert view(c, r) == ZrleEncoders.ColourOf(pixels, stride, x, y);
  }

  /** A Basic tile's RGB data show the frame. */
  lemma {:induction false} BasicShows(
    tile: TileInfo, jpeg: seq<Bgr> -> seq<Byte>, pixels: seq<Byte>, stride: nat, varied: seq<Bgr> -> bool, basics: nat)
    requires FromFrame(tile, pixels, stride, varied, basics) && tile.kind.BasicKind?
    ensures Arrived(WriteRgb(RgbWire(tile.px)), tile, jpeg, ZrleRoundTrip.FramePicture(pixels, stride))
  {
    forall x: int, y: int | tile.area.Contains(x, y)
      ensures EffectColour(WriteRgb(RgbWire(tile.px)), tile.area, x, y) == ZrleRoundTrip.FramePicture(pixels, stride)(x, y)
    {
      TilePixel(tile, pixels, stride, varied, basics, x, y);
      RgbShows(tile.px, tile.area.Width(), x - tile.area.x0, y - tile.area.y0);
    }
  }

  /** So does a Solid tile's colour. */
  lemma {:induction false} SolidShows(
    tile: TileInfo, jpeg: seq<Bgr> -> seq<Byte>, pixels: seq<Byte>, stride: nat, varied: seq<Bgr> -> bool, basics: nat)
    requires FromFrame(tile, pixels, stride, varied, basics) && tile.kind.SolidKind?
    ensures var c := tile.kind.colour;
            Arrived(FillWith(c.r, c.g, c.b), tile, jpeg, ZrleRoundTrip.FramePicture(pixels, stride))
  {
    var c := tile.kind.colour;
    forall x: int, y: int | tile.area.Contains(x, y)
      ensures EffectColour(FillWith(c.r, c.g, c.b), tile.area, x, y) == ZrleRoundTrip.FramePicture(pixels, stride)(x, y)
    {
      TilePixel(tile, pixels, stride, varied, basics, x, y);
    }
  }

  /** Whether the streams are as they should be when the decoder comes to a tile. */
  type Sync = (nat, Inflaters) -> bool

  /** The outcome of reading tile `i`: its end, its pixels, and streams ready for the next tile. */
  ghost predicate Lands(
    d: Option<Decoded>, end: nat, tile: TileInfo, jpeg: seq<Bgr> -> seq<Byte>, picture: View, sync: Sync, next: nat)
  {
    && d.Some? && d.value.end == end
    && Arrived(d.value.effect, tile, jpeg, picture) && sync(next, d.value.streams)
  }

  /** Wherever the tile's bytes stand, streams that are ready for them make the tile land. */
  ghost predicate Arrives(
    read: TightReader, wire: seq<Byte>, tile: TileInfo, jpeg: seq<Bgr> -> seq<Byte>, picture: View, sync: Sync, i: nat)
  {
    forall data: seq<Byte>, o: nat, streams: Inflaters ::
      Sits(data, o, wire) && sync(i, streams) ==> Lands(read(data, o, streams), o + |wire|, tile, jpeg, picture, sync, i + 1)
  }

  ghost function SyncFor(codec: Zlib.Codec, start: seq<seq<seq<Byte>>>, tiles: seq<TileInfo>): Sync
    requires |start| == 4
  {
    (i: nat, streams: Inflaters) => InStepAt(codec, start, tiles, i, streams)
  }

  ghost predicate InStepAt(codec: Zlib.Codec, start: seq<seq<seq<Byte>>>, tiles: seq<TileInfo>, i: nat, streams: Inflaters)
    requires |start| == 4
  {
    i <= |tiles| && InStep(codec, Flushed(start, tiles[..i]), streams)
  }

  /** One more tile adds to the history of its stream, if it has one, and to no other. */
  lemma {:induction false} FlushedMore(start: seq<seq<seq<Byte>>>, tiles: seq<TileInfo>, i: nat, s: nat)
    requires |start| == 4 && i < |tiles| && s < 4
    ensures FlushedBy(start, tiles[..i + 1], s) ==
            if tiles[i].IsBasic(s) then FlushedBy(start, tiles[..i], s) + [RgbWire(tiles[i].px)]
            else FlushedBy(start, tiles[..i], s)
  {
    var more := tiles[..i + 1];
    assert more[..|more| - 1] == tiles[..i] && more[i] == tiles[i];
    if tiles[i].IsBasic(s) {
      assert start[s] + (Plains(tiles[..i], s) + [RgbWire(tiles[i].px)])
          == start[s] + Plains(tiles[..i], s) + [RgbWire(tiles[i].px)];
    } else {
      assert Plains(tiles[..i], s) + [] == Plains(tiles[..i], s);
    }
  }

  /** A tile without zlib data leaves the streams ready for the next one. */
  lemma {:induction false} StillInStep(
    codec: Zlib.Codec, start: seq<seq<seq<Byte>>>, tiles: seq<TileInfo>, i: nat, streams: Inflaters)
    requires |start| == 4 && i < |tiles| && !tiles[i].kind.BasicKind?
    requires InStepAt(codec, start, tiles, i, streams)
    ensures InStepAt(codec, start, tiles, i + 1, streams)
  {
    forall s: nat | s < 4
      ensures Zlib.InStep(codec, Flushed(start, tiles[..i + 1])(s), streams.Get(s).history, streams.Get(s).firstPush)
    {
      FlushedMore(start, tiles, i, s);
      assert Zlib.InStep(codec, Flushed(start, tiles[..i])(s), streams.Get(s).history, streams.Get(s).firstPush);
    }
  }

  lemma {:induction false} BasicLands(
    codec: Zlib.Codec, jpeg: seq<Bgr> -> seq<Byte>, start: seq<seq<seq<Byte>>>, tiles: seq<TileInfo>, i: nat,
    data: seq<Byte>, o: nat, streams: Inflaters)
    requires codec.Inverts() && |start| == 4 && Numbered(tiles) && i < |tiles| && tiles[i].kind.BasicKind?
    requires Short(codec, jpeg, start, tiles, i) && InStepAt(codec, start, tiles, i, streams)
    requires Sits(data, o, Sequential(codec, jpeg, start, tiles, i))
    ensures var d := DecodeOne(codec, data, o, streams);
            && d.Some? && d.value.end == o + |Sequential(codec, jpeg, start, tiles, i)|
            && d.value.effect == WriteRgb(RgbWire(tiles[i].px)) && InStepAt(codec, start, tiles, i + 1, d.value.streams)
  {
    var s, plain := tiles[i].kind.stream, RgbWire(tiles[i].px);
    var before, later := Flushed(start, tiles[..i]), Flushed(start, tiles[..i + 1]);
    assert before(s) == HistoryAt(start, tiles, i);
    PlainBasicDecodes(codec, s, codec.Emitted(before(s), plain), data, o, streams);
    forall t: nat | t < 4 ensures later(t) == if t == s then before(s) + [plain] else before(t) {
      FlushedMore(start, tiles, i, t);
    }
    StreamDecodes(codec, before, streams, s, plain, later);
  }

  /** Every tile the encoder produced, whatever its schedule was, arrives in the browser. */
  lemma {:induction false} EncodedArrives(
    codec: Zlib.Codec, jpeg: seq<Bgr> -> seq<Byte>, start: seq<seq<seq<Byte>>>, tiles: seq<TileInfo>, i: nat,
    pixels: seq<Byte>, stride: nat, varied: seq<Bgr> -> bool, basics: nat)
    requires codec.Inverts() && |start| == 4 && Numbered(tiles) && i < |tiles|
    requires Short(codec, jpeg, start, tiles, i) && FromFrame(tiles[i], pixels, stride, varied, basics)
    ensures Arrives(ReaderFor(codec), Sequential(codec, jpeg, start, tiles, i), tiles[i], jpeg,
                    ZrleRoundTrip.FramePicture(pixels, stride), SyncFor(codec, start, tiles), i)
  {
    var wire, picture := Sequential(codec, jpeg, start, tiles, i), ZrleRoundTrip.FramePicture(pixels, stride);
    forall data: seq<Byte>, o: nat, streams: Inflaters | Sits(data, o, wire) && InStepAt(codec, start, tiles, i, streams)
      ensures Lands(DecodeOne(codec, data, o, streams), o + |wire|, tiles[i], jpeg, picture, SyncFor(codec, start, tiles), i + 1)
    {
      match tiles[i].kind
      case SolidKind(c) =>
        SolidDecodes(codec, 8, c, data, o, streams);
        NoReset(streams, 8);
        SolidShows(tiles[i], jpeg, pixels, stride, varied, basics);
        StillInStep(codec, start, tiles, i, streams);
      case JpegKind =>
        JpegDecodes(codec, 9, jpeg(tiles[i].px), data, o, streams);
        NoReset(streams, 9);
        StillInStep(codec, start, tiles, i, streams);
      case BasicKind(s) =>
        BasicLands(codec, jpeg, start, tiles, i, data, o, streams);
        BasicShows(tiles[i], jpeg, pixels, stride, varied, basics);
    }
  }

  /** Pixel (x, y) lies in one of the tiles from `i` on that are, or are not, JPEGs. */
  ghost predicate LiesIn(tiles: seq<TileInfo>, i: nat, jpeg: bool, x: int, y: int) {
    exists j :: i <= j < |tiles| && tiles[j].kind.JpegKind? == jpeg && tiles[j].area.Contains(x, y)
  }

  lemma {:induction false} LiesInFirst(tiles: seq<TileInfo>, i: nat, jpeg: bool, x: int, y: int)
    requires i < |tiles|
    ensures LiesIn(tiles, i, jpeg, x, y) <==>
              (tiles[i].kind.JpegKind? == jpeg && tiles[i].area.Contains(x, y)) || LiesIn(tiles, i + 1, jpeg, x, y)
  {
  }

  /** The pixels of the tiles from `i` on show the picture, or hide behind a JPEG; the others are as they were. */
  ghost predicate Shown(after: Progress, before: Progress, tiles: seq<TileInfo>, i: nat, picture: View) {
    forall x: int, y: int :: PixelShown(after, before, tiles, i, picture, x, y)
  }

  ghost predicate PixelShown(after: Progress, before: Progress, tiles: seq<TileInfo>, i: nat, picture: View, x: int, y: int) {
    && after.view(x, y) == (if LiesIn(tiles, i, false, x, y) then picture(x, y) else before.view(x, y))
    && (after.hidden(x, y) <==> LiesIn(tiles, i, true, x, y) || before.hidden(x, y))
  }

  lemma {:induction false} ShownFirst(
    after: Progress, before: Progress, tiles: seq<TileInfo>, i: nat, jpeg: seq<Bgr> -> seq<Byte>, picture: View, d: Decoded)
    requires i < |tiles| && Arrived(d.effect, tiles[i], jpeg, picture)
    requires Shown(after, After(before, tiles[i].area, d), tiles, i + 1, picture)
    ensures Shown(after, before, tiles, i, picture)
  {
    var p := After(before, tiles[i].area, d);
    forall x: int, y: int ensures PixelShown(after, before, tiles, i, picture, x, y) {
      assert PixelShown(after, p, tiles, i + 1, picture, x, y);
      LiesInFirst(tiles, i, false, x, y);
      LiesInFirst(tiles, i, true, x, y);
    }
  }

  ghost predicate AllArrive(
    read: TightReader, wires: seq<seq<Byte>>, tiles: seq<TileInfo>, jpeg: seq<Bgr> -> seq<Byte>, picture: View, sync: Sync)
  {
    |wires| == |tiles| && forall i :: 0 <= i < |tiles| ==> Arrives(read, wires[i], tiles[i], jpeg, picture, sync, i)
  }

  function Areas(tiles: seq<TileInfo>): (r: seq<Rect>)
    ensures |r| == |tiles|
  {
    seq(|tiles|, i requires 0 <= i < |tiles| => tiles[i].area)
  }

  /** The JPEG tiles from `i` on, each waiting with its own place and bytes. */
  function JpegsOf(jpeg: seq<Bgr> -> seq<Byte>, tiles: seq<TileInfo>, i: nat): Waiting
    requires i <= |tiles|
    decreases |tiles| - i
  {
    if i == |tiles| then []
    else (if tiles[i].kind.JpegKind? then [Deferred(tiles[i].area, jpeg(tiles[i].px))] else []) + JpegsOf(jpeg, tiles, i + 1)
  }

  /** The areas of the other tiles from `i` on. */
  function OthersOf(tiles: seq<TileInfo>, i: nat): seq<Rect>
    requires i <= |tiles|
    decreases |tiles| - i
  {
    if i == |tiles| then []
    else (if tiles[i].kind.JpegKind? then [] else [tiles[i].area]) + OthersOf(tiles, i + 1)
  }

  /** The tiles from `i` on, decoded one after the other. */
  lemma {:induction false} TilesArrive(
    read: TightReader, data: seq<Byte>, wires: seq<seq<Byte>>, tiles: seq<TileInfo>, jpeg: seq<Bgr> -> seq<Byte>, i: nat,
    p: Progress, picture: View, sync: Sync)
    requires AllArrive(read, wires, tiles, jpeg, picture, sync) && i <= |tiles|
    requires Sits(data, p.offset, Concat(wires[i..])) && sync(i, p.streams)
    ensures var drawn := DrawTiles(read, data, Areas(tiles)[i..], p);
            && drawn.Some? && drawn.value.offset == p.offset + |Concat(wires[i..])|
            && sync(|tiles|, drawn.value.streams) && Shown(drawn.value, p, tiles, i, picture)
    ensures Late(read, data, Areas(tiles)[i..], p.offset, p.streams) == JpegsOf(jpeg, tiles, i)
    ensures Marked(read, data, Areas(tiles)[i..], p.offset, p.streams) == OthersOf(tiles, i)
    decreases |tiles| - i
  {
    hide Arrives, Arrived, Shown, DrawTiles, Late, Marked, Areas, Sits, Concat, LateOf, MarkedBy, Effected;
    var rest := Areas(tiles)[i..];
    if i < |tiles| {
      NextWire(data, p.offset, wires, i);
      NextArea(tiles, i);
      TileLands(read, data, wires[i], tiles, jpeg, i, p.offset, p.streams, picture, sync);
      var d := read(data, p.offset, p.streams);
      DrawFirst(read, data, rest, p);
      ListFirst(read, data, rest, p.offset, p.streams);
      var next := After(p, tiles[i].area, d.value);
      TilesArrive(read, data, wires, tiles, jpeg, i + 1, next, picture, sync);
      ShownFirst(DrawTiles(read, data, Areas(tiles)[i + 1..], next).value, p, tiles, i, jpeg, picture, d.value);
    } else {
      NothingLeft(read, data, wires, tiles, p, picture);
    }
  }

  lemma {:induction false} NothingLeft(
    read: TightReader, data: seq<Byte>, wires: seq<seq<Byte>>, tiles: seq<TileInfo>, p: Progress, picture: View)
    requires |wires| == |tiles|
    ensures Concat(wires[|tiles|..]) == [] && DrawTiles(read, data, Areas(tiles)[|tiles|..], p) == Some(p)
    ensures Late(read, data, Areas(tiles)[|tiles|..], p.offset, p.streams) == []
    ensures Marked(read, data, Areas(tiles)[|tiles|..], p.offset, p.streams) == []
    ensures Shown(p, p, tiles, |tiles|, picture)
  {
  }

  lemma {:induction false} NextWire(data: seq<Byte>, o: nat, wires: seq<seq<Byte>>, i: nat)
    requires i < |wires| && Sits(data, o, Concat(wires[i..]))
    ensures Sits(data, o, wires[i]) && Sits(data, o + |wires[i]|, Concat(wires[i + 1..]))
    ensures |Concat(wires[i..])| == |wires[i]| + |Concat(wires[i + 1..])|
  {
    assert wires[i..][0] == wires[i] && wires[i..][1..] == wires[i + 1..];
    ConcatSits(data, o, wires[i..]);
  }

  lemma {:induction false} NextArea(tiles: seq<TileInfo>, i: nat)
    requires i < |tiles|
    ensures |Areas(tiles)| == |tiles| && Areas(tiles)[i..] != []
    ensures Areas(tiles)[i..][0] == tiles[i].area && Areas(tiles)[i..][1..] == Areas(tiles)[i + 1..]
  {
  }

  lemma {:induction false} TileLands(
    read: TightReader, data: seq<Byte>, wire: seq<Byte>, tiles: seq<TileInfo>, jpeg: seq<Bgr> -> seq<Byte>, i: nat, o: nat,
    streams: Inflaters, picture: View, sync: Sync)
    requires i < |tiles| && Arrives(read, wire, tiles[i], jpeg, picture, sync, i) && Sits(data, o, wire) && sync(i, streams)
    ensures var d := read(data, o, streams);
            && Lands(d, o + |wire|, tiles[i], jpeg, picture, sync, i + 1)
            && LateOf(tiles[i].area, d.value.effect)
               == (if tiles[i].kind.JpegKind? then [Deferred(tiles[i].area, jpeg(tiles[i].px))] else [])
            && MarkedBy(tiles[i].area, d.value.effect) == if tiles[i].kind.JpegKind? then [] else [tiles[i].area]
  {
    assert Lands(read(data, o, streams), o + |wire|, tiles[i], jpeg, picture, sync, i + 1);
  }

  /** A browser: its streams and its picture. */
  datatype Browser = Browser(streams: Inflaters, view: View)

  /** One rectangle a tile: every rectangle is decoded from its own start, and its JPEGs are drawn before the next. */
  ghost function DrawRects(
    read: TightReader, bitmap: Bitmap, wires: seq<seq<Byte>>, areas: seq<Rect>, i: nat, b: Browser): Option<Browser>
    requires |wires| == |areas| && i <= |areas|
    decreases |areas| - i
  {
    if i == |areas| then Some(b)
    else
      var drawn :- DrawTiles(read, wires[i], Tiles(areas[i]), Progress(0, b.streams, b.view, Nowhere()));
      var late := Late(read, wires[i], Tiles(areas[i]), 0, b.streams);
      DrawRects(read, bitmap, wires, areas, i + 1, Browser(drawn.streams, WithBitmaps(drawn.view, late, bitmap)))
  }

  ghost predicate TileSized(tiles: seq<TileInfo>) {
    forall i :: 0 <= i < |tiles| ==> 0 < tiles[i].area.Width() <= TILE && 0 < tiles[i].area.Height() <= TILE
  }

  /** No two tiles share a pixel. */
  ghost predicate Separate(tiles: seq<TileInfo>) {
    forall i, j, x: int, y: int :: 0 <= i < j < |tiles| ==> !(tiles[i].area.Contains(x, y) && tiles[j].area.Contains(x, y))
  }

  /**
    What a pixel of a tile shows in the end: the frame, or for a JPEG tile the pixel of its own image,
    and what was there before when that does not decode.
   */
  ghost function TileColour(
    tile: TileInfo, jpeg: seq<Bgr> -> seq<Byte>, bitmap: Bitmap, picture: View, under: View, x: int, y: int): Rgba
  {
    if tile.kind.JpegKind? then JpegPixel(Deferred(tile.area, jpeg(tile.px)), bitmap, under(x, y), x, y) else picture(x, y)
  }

  /** Each tile from `i` on shows what it should, and nothing else has changed. */
  ghost predicate Landed(
    after: View, under: View, tiles: seq<TileInfo>, i: nat, jpeg: seq<Bgr> -> seq<Byte>, bitmap: Bitmap, picture: View)
  {
    forall x: int, y: int :: PixelLanded(after, under, tiles, i, jpeg, bitmap, picture, x, y)
  }

  ghost predicate PixelLanded(
    after: View, under: View, tiles: seq<TileInfo>, i: nat, jpeg: seq<Bgr> -> seq<Byte>, bitmap: Bitmap, picture: View, x: int,
    y: int)
  {
    && (forall j :: i <= j < |tiles| && tiles[j].area.Contains(x, y) ==>
          after(x, y) == TileColour(tiles[j], jpeg, bitmap, picture, under, x, y))
    && ((forall j :: i <= j < |tiles| ==> !tiles[j].area.Contains(x, y)) ==> after(x, y) == under(x, y))
  }

  /** The picture after a tile and, if it is one, its JPEG. */
  ghost function Rendered(v: View, tile: Rect, effect: Effect, bitmap: Bitmap): View {
    WithBitmaps(Effected(v, tile, effect), LateOf(tile, effect), bitmap)
  }

  lemma {:induction false} RenderedPixel(
    v: View, tile: TileInfo, effect: Effect, jpeg: seq<Bgr> -> seq<Byte>, bitmap: Bitmap, picture: View, x: int, y: int)
    requires Arrived(effect, tile, jpeg, picture)
    ensures Rendered(v, tile.area, effect, bitmap)(x, y)
         == if tile.area.Contains(x, y) then TileColour(tile, jpeg, bitmap, picture, v, x, y) else v(x, y)
  {
    var late := LateOf(tile.area, effect);
    if tile.kind.JpegKind? && tile.area.Contains(x, y) {
      OwnBitmap(v, late, bitmap, 0, x, y);
    } else {
      NoBitmap(Effected(v, tile.area, effect), late, bitmap, x, y);
    }
  }

  lemma {:induction false} LandedFirst(
    after: View, v: View, tiles: seq<TileInfo>, i: nat, effect: Effect, jpeg: seq<Bgr> -> seq<Byte>, bitmap: Bitmap,
    picture: View)
    requires i < |tiles| && Separate(tiles) && Arrived(effect, tiles[i], jpeg, picture)
    requires Landed(after, Rendered(v, tiles[i].area, effect, bitmap), tiles, i + 1, jpeg, bitmap, picture)
    ensures Landed(after, v, tiles, i, jpeg, bitmap, picture)
  {
    hide Arrived, Rendered;
    var next := Rendered(v, tiles[i].area, effect, bitmap);
    forall x: int, y: int ensures PixelLanded(after, v, tiles, i, jpeg, bitmap, picture, x, y) {
      assert PixelLanded(after, next, tiles, i + 1, jpeg, bitmap, picture, x, y);
      RenderedPixel(v, tiles[i], effect, jpeg, bitmap, picture, x, y);
    }
  }

  /** A rectangle with one tile. */
  lemma {:induction false} RectArrives(
    read: TightReader, bitmap: Bitmap, wire: seq<Byte>, tiles: seq<TileInfo>, jpeg: seq<Bgr> -> seq<Byte>, i: nat, b: Browser,
    picture: View, sync: Sync)
    requires i < |tiles| && TileSized(tiles) && Arrives(read, wire, tiles[i], jpeg, picture, sync, i) && sync(i, b.streams)
    ensures var d, area := read(wire, 0, b.streams), tiles[i].area;
            var drawn := DrawTiles(read, wire, Tiles(area), Progress(0, b.streams, b.view, Nowhere()));
            && Lands(d, |wire|, tiles[i], jpeg, picture, sync, i + 1)
            && drawn.Some? && drawn.value.streams == d.value.streams
            && WithBitmaps(drawn.value.view, Late(read, wire, Tiles(area), 0, b.streams), bitmap)
               == Rendered(b.view, area, d.value.effect, bitmap)
  {
    hide Arrives, Arrived, WithBitmaps;
    var area, p := tiles[i].area, Progress(0, b.streams, b.view, Nowhere());
    OneTile(area);
    assert Sits(wire, 0, wire);
    TileLands(read, wire, wire, tiles, jpeg, i, 0, b.streams, picture, sync);
    DrawFirst(read, wire, [area], p);
    ListFirst(read, wire, [area], 0, b.streams);
    var effect := read(wire, 0, b.streams).value.effect;
    assert [area][1..] == [] && LateOf(area, effect) + [] == LateOf(area, effect);
  }

  lemma {:induction false} RectsArrive(
    read: TightReader, bitmap: Bitmap, wires: seq<seq<Byte>>, tiles: seq<TileInfo>, jpeg: seq<Bgr> -> seq<Byte>, i: nat,
    b: Browser, picture: View, sync: Sync)
    requires AllArrive(read, wires, tiles, jpeg, picture, sync) && TileSized(tiles) && Separate(tiles)
    requires i <= |tiles| && sync(i, b.streams)
    ensures var after := DrawRects(read, bitmap, wires, Areas(tiles), i, b);
            && after.Some? && sync(|tiles|, after.value.streams)
            && Landed(after.value.view, b.view, tiles, i, jpeg, bitmap, picture)
    decreases |tiles| - i
  {
    hide Arrives, Arrived, Separate, Landed, TileSized, WithBitmaps, Rendered;
    if i < |tiles| {
      assert Arrives(read, wires[i], tiles[i], jpeg, picture, sync, i);
      RectArrives(read, bitmap, wires[i], tiles, jpeg, i, b, picture, sync);
      var d := read(wires[i], 0, b.streams).value;
      var next := Browser(d.streams, Rendered(b.view, tiles[i].area, d.effect, bitmap));
      assert Areas(tiles)[i] == tiles[i].area;
      RectsArrive(read, bitmap, wires, tiles, jpeg, i + 1, next, picture, sync);
      LandedFirst(DrawRects(read, bitmap, wires, Areas(tiles), i + 1, next).value.view, b.view, tiles, i, d.effect, jpeg, bitmap,
                  picture);
    } else {
      NothingLanded(b.view, tiles, jpeg, bitmap, picture);
    }
  }

  lemma {:induction false} NothingLanded(
    v: View, tiles: seq<TileInfo>, jpeg: seq<Bgr> -> seq<Byte>, bitmap: Bitmap, picture: View)
    ensures Landed(v, v, tiles, |tiles|, jpeg, bitmap, picture)
  {
  }

  /** What the encoder is given, and what it made of it, as `Tight.EncodeMulti` promises. */
  ghost predicate FrameEncoded(
    codec: Zlib.Codec, jpeg: seq<Bgr> -> seq<Byte>, start: seq<seq<seq<Byte>>>, tiles: seq<TileInfo>, area: Rect,
    pixels: seq<Byte>, stride: nat, varied: seq<Bgr> -> bool)
  {
    && codec.Inverts() && |start| == 4 && Numbered(tiles)
    && |tiles| == |Tiles(area)| && Classified(tiles, Tiles(area), pixels, stride, varied)
    && forall i: nat :: i < |tiles| ==> Short(codec, jpeg, start, tiles, i)
  }

  lemma {:induction false} FrameArrives(
    codec: Zlib.Codec, jpeg: seq<Bgr> -> seq<Byte>, start: seq<seq<seq<Byte>>>, tiles: seq<TileInfo>, area: Rect,
    pixels: seq<Byte>, stride: nat, varied: seq<Bgr> -> bool)
    requires FrameEncoded(codec, jpeg, start, tiles, area, pixels, stride, varied)
    ensures AllArrive(ReaderFor(codec), SequentialWires(codec, jpeg, start, tiles), tiles, jpeg,
                      ZrleRoundTrip.FramePicture(pixels, stride), SyncFor(codec, start, tiles))
    ensures TileSized(tiles) && Separate(tiles) && Areas(tiles) == Tiles(area)
  {
    TilesWithin(area.x0, area.y0, area);
    forall i: nat | i < |tiles|
      ensures Arrives(ReaderFor(codec), SequentialWires(codec, jpeg, start, tiles)[i], tiles[i], jpeg,
                      ZrleRoundTrip.FramePicture(pixels, stride), SyncFor(codec, start, tiles), i)
      ensures tiles[i].area == Tiles(area)[i]
    {
      assert IsClassified(tiles, i, Tiles(area)[i], pixels, stride, varied);
      EncodedArrives(codec, jpeg, start, tiles, i, pixels, stride, varied, Basics(tiles[..i]));
    }
    GridSeparate(tiles, area);
  }

  lemma {:induction false} GridSeparate(tiles: seq<TileInfo>, area: Rect)
    requires Areas(tiles) == Tiles(area)
    ensures Separate(tiles)
  {
    forall i, j, x: int, y: int | 0 <= i < j < |tiles|
      ensures !(tiles[i].area.Contains(x, y) && tiles[j].area.Contains(x, y))
    {
      assert Tiles(area)[i] == tiles[i].area && Tiles(area)[j] == tiles[j].area;
      if tiles[i].area.Contains(x, y) && tiles[j].area.Contains(x, y) { TilesDisjoint(area.x0, area.y0, area, x, y, i, j); }
    }
  }

  /** A pixel of the area lies in one tile, and hides exactly when that one is a JPEG. */
  lemma {:induction false} PixelTile(tiles: seq<TileInfo>, area: Rect, i: nat, x: int, y: int)
    requires Areas(tiles) == Tiles(area) && i < |tiles| && tiles[i].area.Contains(x, y)
    ensures area.Contains(x, y) && forall jpeg: bool :: LiesIn(tiles, 0, jpeg, x, y) <==> jpeg == tiles[i].kind.JpegKind?
  {
    assert Tiles(area)[i] == tiles[i].area;
    TilesWithin(area.x0, area.y0, area);
    forall j: nat | j < |tiles| && tiles[j].area.Contains(x, y) ensures i == j {
      assert Tiles(area)[j] == tiles[j].area;
      TilesDisjoint(area.x0, area.y0, area, x, y, i, j);
    }
  }

  lemma {:induction false} PixelOutside(tiles: seq<TileInfo>, area: Rect, jpeg: bool, x: int, y: int)
    requires Areas(tiles) == Tiles(area) && !area.Contains(x, y)
    ensures !LiesIn(tiles, 0, jpeg, x, y)
  {
    TilesWithin(area.x0, area.y0, area);
    forall j: nat | j < |tiles| ensures !tiles[j].area.Contains(x, y) {
      assert Tiles(area)[j] == tiles[j].area;
    }
  }

  lemma {:induction false} OnlyTile(tiles: seq<TileInfo>, i: nat, x: int, y: int)
    requires Separate(tiles) && i < |tiles| && tiles[i].area.Contains(x, y)
    ensures !LiesIn(tiles, i + 1, true, x, y)
  {
  }

  lemma {:induction false} OneBitmap(v: View, late: Deferred, rest: Waiting, bitmap: Bitmap, x: int, y: int)
    ensures WithBitmaps(v, [late] + rest, bitmap) == WithBitmaps(WithBitmap(v, late, bitmap), rest, bitmap)
    ensures WithBitmap(v, late, bitmap)(x, y) == if late.place.Contains(x, y) then JpegPixel(late, bitmap, v(x, y), x, y) else v(x, y)
  {
    assert ([late] + rest)[0] == late && ([late] + rest)[1..] == rest;
  }

  /** Drawing the JPEGs of the tiles from `i` on changes the pixels of those tiles only. */
  lemma {:induction false} JpegsOver(
    v: View, tiles: seq<TileInfo>, i: nat, jpeg: seq<Bgr> -> seq<Byte>, bitmap: Bitmap, x: int, y: int)
    requires Separate(tiles) && i <= |tiles|
    ensures var after := WithBitmaps(v, JpegsOf(jpeg, tiles, i), bitmap)(x, y);
            && (forall j :: i <= j < |tiles| && tiles[j].kind.JpegKind? && tiles[j].area.Contains(x, y) ==>
                  after == JpegPixel(Deferred(tiles[j].area, jpeg(tiles[j].px)), bitmap, v(x, y), x, y))
            && (!LiesIn(tiles, i, true, x, y) ==> after == v(x, y))
    decreases |tiles| - i
  {
    hide WithBitmap, JpegPixel, LiesIn;
    if i < |tiles| {
      var rest := JpegsOf(jpeg, tiles, i + 1);
      LiesInFirst(tiles, i, true, x, y);
      if tiles[i].kind.JpegKind? {
        var late := Deferred(tiles[i].area, jpeg(tiles[i].px));
        OneBitmap(v, late, rest, bitmap, x, y);
        if tiles[i].area.Contains(x, y) { OnlyTile(tiles, i, x, y); }
        JpegsOver(WithBitmap(v, late, bitmap), tiles, i + 1, jpeg, bitmap, x, y);
      } else {
        assert [] + rest == rest;
        JpegsOver(v, tiles, i + 1, jpeg, bitmap, x, y);
      }
    }
  }

  /** Each tile shows the frame or its own JPEG's image; outside the area nothing has changed. */
  ghost predicate Delivered(
    after: View, before: View, tiles: seq<TileInfo>, area: Rect, jpeg: seq<Bgr> -> seq<Byte>, bitmap: Bitmap, picture: View)
  {
    && (forall i: nat, x: int, y: int :: i < |tiles| && tiles[i].area.Contains(x, y) ==>
          after(x, y) == TileColour(tiles[i], jpeg, bitmap, picture, before, x, y))
    && (forall x: int, y: int :: !area.Contains(x, y) ==> after(x, y) == before(x, y))
  }

  lemma {:induction false} LandedIsDelivered(
    after: View, before: View, tiles: seq<TileInfo>, area: Rect, jpeg: seq<Bgr> -> seq<Byte>, bitmap: Bitmap, picture: View)
    requires Landed(after, before, tiles, 0, jpeg, bitmap, picture) && Areas(tiles) == Tiles(area)
    ensures Delivered(after, before, tiles, area, jpeg, bitmap, picture)
  {
    hide TileColour;
    forall i: nat, x: int, y: int | i < |tiles| && tiles[i].area.Contains(x, y)
      ensures after(x, y) == TileColour(tiles[i], jpeg, bitmap, picture, before, x, y)
    {
      assert PixelLanded(after, before, tiles, 0, jpeg, bitmap, picture, x, y);
    }
    forall x: int, y: int | !area.Contains(x, y) ensures after(x, y) == before(x, y) {
      assert PixelLanded(after, before, tiles, 0, jpeg, bitmap, picture, x, y);
      TilesWithin(area.x0, area.y0, area);
      forall j: nat | j < |tiles| ensures !tiles[j].area.Contains(x, y) {
        assert Tiles(area)[j] == tiles[j].area;
      }
    }
  }

  /** All tiles of a frame drawn, and then all its JPEGs. */
  lemma {:induction false} ShownIsLanded(
    drawn: Progress, p: Progress, tiles: seq<TileInfo>, jpeg: seq<Bgr> -> seq<Byte>, bitmap: Bitmap, picture: View)
    requires Shown(drawn, p, tiles, 0, picture) && Separate(tiles)
    ensures Landed(WithBitmaps(drawn.view, JpegsOf(jpeg, tiles, 0), bitmap), p.view, tiles, 0, jpeg, bitmap, picture)
  {
    hide JpegsOf, WithBitmaps;
    var after := WithBitmaps(drawn.view, JpegsOf(jpeg, tiles, 0), bitmap);
    forall x: int, y: int ensures PixelLanded(after, p.view, tiles, 0, jpeg, bitmap, picture, x, y) {
      assert PixelShown(drawn, p, tiles, 0, picture, x, y);
      JpegsOver(drawn.view, tiles, 0, jpeg, bitmap, x, y);
    }
  }

  /** The histories after a frame. */
  function HistoriesAfter(start: seq<seq<seq<Byte>>>, tiles: seq<TileInfo>): seq<seq<seq<Byte>>>
    requires |start| == 4
  {
    [start[0] + Plains(tiles, 0), start[1] + Plains(tiles, 1), start[2] + Plains(tiles, 2), start[3] + Plains(tiles, 3)]
  }

  /** The streams match the encoder's histories. */
  ghost predicate Matches(codec: Zlib.Codec, histories: seq<seq<seq<Byte>>>, streams: Inflaters)
    requires |histories| == 4
  {
    forall s: nat :: s < 4 ==> Zlib.InStep(codec, histories[s], streams.Get(s).history, streams.Get(s).firstPush)
  }

  lemma {:induction false} MatchesIsInStep(codec: Zlib.Codec, start: seq<seq<seq<Byte>>>, tiles: seq<TileInfo>, streams: Inflaters)
    requires |start| == 4
    ensures Matches(codec, start, streams) <==> InStepAt(codec, start, tiles, 0, streams)
    ensures Matches(codec, HistoriesAfter(start, tiles), streams) <==> InStepAt(codec, start, tiles, |tiles|, streams)
  {
    assert tiles[..|tiles|] == tiles;
    forall s: nat | s < 4
      ensures Flushed(start, tiles[..0])(s) == start[s] && Flushed(start, tiles)(s) == HistoriesAfter(start, tiles)[s]
    {
      assert start[s] + [] == start[s];
    }
  }

  /**
    A frame in a single rectangle, as `Tight.Encode` makes it: it is read to its last byte, its JPEG tiles
    wait in order while the others are marked, and in the end every tile shows what it should.
   */
  lemma {:induction false} RoundTrip(
    codec: Zlib.Codec, jpeg: seq<Bgr> -> seq<Byte>, start: seq<seq<seq<Byte>>>, tiles: seq<TileInfo>, area: Rect,
    pixels: seq<Byte>, stride: nat, varied: seq<Bgr> -> bool, bitmap: Bitmap, streams: Inflaters, v: View)
    requires FrameEncoded(codec, jpeg, start, tiles, area, pixels, stride, varied) && Matches(codec, start, streams)
    ensures var data, read := Concat(SequentialWires(codec, jpeg, start, tiles)), ReaderFor(codec);
            var drawn, late := DrawTiles(read, data, Tiles(area), Progress(0, streams, v, Nowhere())),
                               Late(read, data, Tiles(area), 0, streams);
            && drawn.Some? && drawn.value.offset == |data|
            && late == JpegsOf(jpeg, tiles, 0) && Marked(read, data, Tiles(area), 0, streams) == OthersOf(tiles, 0)
            && Matches(codec, HistoriesAfter(start, tiles), drawn.value.streams)
            && Delivered(WithBitmaps(drawn.value.view, late, bitmap), v, tiles, area, jpeg, bitmap,
                         ZrleRoundTrip.FramePicture(pixels, stride))
  {
    hide AllArrive, Shown, Landed, Delivered, DrawTiles, Late, Marked, Matches;
    FrameArrives(codec, jpeg, start, tiles, area, pixels, stride, varied);
    var wires, p := SequentialWires(codec, jpeg, start, tiles), Progress(0, streams, v, Nowhere());
    var read, picture, sync := ReaderFor(codec), ZrleRoundTrip.FramePicture(pixels, stride), SyncFor(codec, start, tiles);
    MatchesIsInStep(codec, start, tiles, streams);
    assert wires[0..] == wires && Areas(tiles)[0..] == Tiles(area);
    TilesArrive(read, Concat(wires), wires, tiles, jpeg, 0, p, picture, sync);
    var drawn := DrawTiles(read, Concat(wires), Tiles(area), p).value;
    ShownIsLanded(drawn, p, tiles, jpeg, bitmap, picture);
    LandedIsDelivered(WithBitmaps(drawn.view, JpegsOf(jpeg, tiles, 0), bitmap), v, tiles, area, jpeg, bitmap, picture);
    MatchesIsInStep(codec, start, tiles, drawn.streams);
  }

  /** The same frame as one rectangle a tile, as `Tight.EncodeMulti` makes it. */
  lemma {:induction false} MultiRoundTrip(
    codec: Zlib.Codec, jpeg: seq<Bgr> -> seq<Byte>, start: seq<seq<seq<Byte>>>, tiles: seq<TileInfo>, area: Rect,
    pixels: seq<Byte>, stride: nat, varied: seq<Bgr> -> bool, bitmap: Bitmap, b: Browser)
    requires FrameEncoded(codec, jpeg, start, tiles, area, pixels, stride, varied) && Matches(codec, start, b.streams)
    ensures var after := DrawRects(ReaderFor(codec), bitmap, SequentialWires(codec, jpeg, start, tiles), Areas(tiles), 0, b);
            && after.Some? && Matches(codec, HistoriesAfter(start, tiles), after.value.streams)
            && Delivered(after.value.view, b.view, tiles, area, jpeg, bitmap, ZrleRoundTrip.FramePicture(pixels, stride))
  {
    hide AllArrive, Landed, Delivered, DrawRects, Matches;
    FrameArrives(codec, jpeg, start, tiles, area, pixels, stride, varied);
    var wires := SequentialWires(codec, jpeg, start, tiles);
    var read, picture, sync := ReaderFor(codec), ZrleRoundTrip.FramePicture(pixels, stride), SyncFor(codec, start, tiles);
    MatchesIsInStep(codec, start, tiles, b.streams);
    RectsArrive(read, bitmap, wires, tiles, jpeg, 0, b, picture, sync);
    var after := DrawRects(read, bitmap, wires, Areas(tiles), 0, b).value;
    LandedIsDelivered(after.view, b.view, tiles, area, jpeg, bitmap, picture);
    MatchesIsInStep(codec, start, tiles, after.streams);
  }

  /** The frames the encoder is given, one after the other. */
  datatype Source = Source(area: nat -> Rect, pixels: nat -> seq<Byte>, stride: nat -> nat, tiles: nat -> seq<TileInfo>)

  /** The encoder's histories before frame `k`. */
  ghost function StartOf(source: Source, k: nat): (r: seq<seq<seq<Byte>>>)
    ensures |r| == 4
  {
    if k == 0 then [[], [], [], []] else HistoriesAfter(StartOf(source, k - 1), source.tiles(k - 1))
  }

  ghost predicate AllEncoded(
    codec: Zlib.Codec, jpeg: seq<Bgr> -> seq<Byte>, varied: seq<Bgr> -> bool, source: Source, n: nat)
  {
    forall k: nat :: k < n ==> SourceEncoded(codec, jpeg, varied, source, k)
  }

  ghost predicate SourceEncoded(
    codec: Zlib.Codec, jpeg: seq<Bgr> -> seq<Byte>, varied: seq<Bgr> -> bool, source: Source, k: nat)
  {
    FrameEncoded(codec, jpeg, StartOf(source, k), source.tiles(k), source.area(k), source.pixels(k), source.stride(k), varied)
  }

  /** Frame `k` in a browser. */
  ghost function Draw(
    codec: Zlib.Codec, jpeg: seq<Bgr> -> seq<Byte>, bitmap: Bitmap, source: Source, k: nat, b: Browser): Option<Browser>
    requires Numbered(source.tiles(k))
  {
    DrawRects(ReaderFor(codec), bitmap, SequentialWires(codec, jpeg, StartOf(source, k), source.tiles(k)),
              Areas(source.tiles(k)), 0, b)
  }

  /** A browser after `k` frames. */
  ghost function Watch(
    codec: Zlib.Codec, jpeg: seq<Bgr> -> seq<Byte>, bitmap: Bitmap, source: Source, v: View, k: nat): Option<Browser>
  {
    if k == 0 then Some(Browser(ALL_FRESH, v))
    else
      var before :- Watch(codec, jpeg, bitmap, source, v, k - 1);
      if Numbered(source.tiles(k - 1)) then Draw(codec, jpeg, bitmap, source, k - 1, before) else None
  }

  lemma {:induction false} NextFrame(
    codec: Zlib.Codec, jpeg: seq<Bgr> -> seq<Byte>, varied: seq<Bgr> -> bool, bitmap: Bitmap, source: Source, k: nat, b: Browser)
    requires SourceEncoded(codec, jpeg, varied, source, k) && Matches(codec, StartOf(source, k), b.streams)
    ensures var after := Draw(codec, jpeg, bitmap, source, k, b);
            && after.Some? && Matches(codec, StartOf(source, k + 1), after.value.streams)
            && Delivered(after.value.view, b.view, source.tiles(k), source.area(k), jpeg, bitmap,
                         ZrleRoundTrip.FramePicture(source.pixels(k), source.stride(k)))
  {
    hide Delivered, DrawRects, Matches;
    MultiRoundTrip(codec, jpeg, StartOf(source, k), source.tiles(k), source.area(k), source.pixels(k), source.stride(k), varied,
                   bitmap, b);
  }

  /** After `k` frames: every one of them was decoded, and the streams are in step. */
  ghost predicate Serves(codec: Zlib.Codec, jpeg: seq<Bgr> -> seq<Byte>, bitmap: Bitmap, source: Source, v: View, k: nat) {
    var browser := Watch(codec, jpeg, bitmap, source, v, k);
    browser.Some? && Matches(codec, StartOf(source, k), browser.value.streams)
  }

  /** Frame `k` brought its pixels. */
  ghost predicate Brings(codec: Zlib.Codec, jpeg: seq<Bgr> -> seq<Byte>, bitmap: Bitmap, source: Source, v: View, k: nat) {
    var before, after := Watch(codec, jpeg, bitmap, source, v, k), Watch(codec, jpeg, bitmap, source, v, k + 1);
    && before.Some? && after.Some?
    && Delivered(after.value.view, before.value.view, source.tiles(k), source.area(k), jpeg, bitmap,
                 ZrleRoundTrip.FramePicture(source.pixels(k), source.stride(k)))
  }

  lemma {:induction false} ServesNext(
    codec: Zlib.Codec, jpeg: seq<Bgr> -> seq<Byte>, varied: seq<Bgr> -> bool, bitmap: Bitmap, source: Source, v: View, k: nat)
    requires SourceEncoded(codec, jpeg, varied, source, k) && Serves(codec, jpeg, bitmap, source, v, k)
    ensures Serves(codec, jpeg, bitmap, source, v, k + 1) && Brings(codec, jpeg, bitmap, source, v, k)
  {
    hide Delivered, Draw, Matches;
    NextFrame(codec, jpeg, varied, bitmap, source, k, Watch(codec, jpeg, bitmap, source, v, k).value);
  }

  lemma {:induction false} AlwaysServes(
    codec: Zlib.Codec, jpeg: seq<Bgr> -> seq<Byte>, varied: seq<Bgr> -> bool, bitmap: Bitmap, source: Source, v: View, n: nat)
    requires AllEncoded(codec, jpeg, varied, source, n)
    ensures Serves(codec, jpeg, bitmap, source, v, n)
  {
    hide SourceEncoded, Brings, Draw;
    if n > 0 {
      var k: nat := n - 1;
      assert SourceEncoded(codec, jpeg, varied, source, k);
      AlwaysServes(codec, jpeg, varied, bitmap, source, v, k);
      ServesNext(codec, jpeg, varied, bitmap, source, v, k);
    }
  }

  /**
    Over any sequence of frames the four streams of the browser stay in step with those of the encoder,
    every frame is decoded, and every one delivers its pixels, the JPEG tiles those of their images.
   */
  lemma {:induction false} FramesArrive(
    codec: Zlib.Codec, jpeg: seq<Bgr> -> seq<Byte>, varied: seq<Bgr> -> bool, bitmap: Bitmap, source: Source, v: View, n: nat)
    requires AllEncoded(codec, jpeg, varied, source, n)
    ensures Serves(codec, jpeg, bitmap, source, v, n)
    ensures forall k: nat :: k < n ==> Brings(codec, jpeg, bitmap, source, v, k)
  {
    hide SourceEncoded, Brings, Serves;
    AlwaysServes(codec, jpeg, varied, bitmap, source, v, n);
    forall k: nat | k < n ensures Brings(codec, jpeg, bitmap, source, v, k) {
      assert SourceEncoded(codec, jpeg, varied, source, k);
      AlwaysServes(codec, jpeg, varied, bitmap, source, v, k);
      ServesNext(codec, jpeg, varied, bitmap, source, v, k);
    }
  }

  /** The tile in the form the proxy and the browser's length scanners know. */
  function WireTile(
    codec: Zlib.Codec, jpeg: seq<Bgr> -> seq<Byte>, start: seq<seq<seq<Byte>>>, tiles: seq<TileInfo>, i: nat): TightTile
    requires |start| == 4 && Numbered(tiles) && i < |tiles|
  {
    match tiles[i].kind
    case SolidKind(c) => Solid(c.r, c.g, c.b)
    case JpegKind => Jpeg(jpeg(tiles[i].px))
    case BasicKind(s) => Basic(s, codec.Emitted(HistoryAt(start, tiles, i), RgbWire(tiles[i].px)))
  }

  /**
    A rectangle of `EncodeMulti` stands at the place of its tile and carries it; with three-byte CPIXELs the
    proxy agrees about it when the tile has four pixels or more.
   */
  lemma {:induction false} RectCarried(
    r: Rectangle, codec: Zlib.Codec, jpeg: seq<Bgr> -> seq<Byte>, start: seq<seq<seq<Byte>>>, tiles: seq<TileInfo>, i: nat,
    bpp: nat)
    requires |start| == 4 && Numbered(tiles) && i < |tiles| && IsRect(r, tiles, i, codec, jpeg, start)
    requires Short(codec, jpeg, start, tiles, i) && r.header.Fits()
    requires 0 < tiles[i].area.Width() <= TILE && 0 < tiles[i].area.Height() <= TILE
    ensures var h := r.header; Rect(h.x, h.y, h.x + h.width, h.y + h.height) == tiles[i].area
    ensures Carries(r, Payload.TightTiles([WireTile(codec, jpeg, start, tiles, i)]), bpp)
    ensures tiles[i].area.Width() * tiles[i].area.Height() >= 4 ==> Reframing.Sendable(r, bpp, 3)
  {
    var t := WireTile(codec, jpeg, start, tiles, i);
    var w, h := tiles[i].area.Width(), tiles[i].area.Height();
    OneTile(Rect(0, 0, w, h));
    assert TightWire([t]) == t.Wire() + TightWire([]);
    if w * h >= 4 {
      assert Reframing.TileFramed(t, w, h, 3);
      assert Reframing.Framed(r, Payload.TightTiles([t]), bpp, 3);
    }
  }
}

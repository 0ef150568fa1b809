/** ZRLE from the Go encoder to the browser's framebuffer: every pixel of the rectangle arrives with its colour. */
module ZrleRoundTrip {
  import opened Bytes
  import opened Streams
  import opened Grid
  import opened Framebuffers
  import opened Colours
  import opened Runs
  import opened ZrleTiles
  import opened ZrleEncoders
  import opened Protocol
  import FrameDiffs
  import Rendering
  import Zlib

  /** The frame's colours, without transparency. */
  ghost function FramePicture(pixels: seq<Byte>, stride: nat): View {
    (x, y) => ColourOf(pixels, stride, x, y).Opaque()
  }

  /** Blue, green and red are the first three bytes of a pixel of the frame. */
  lemma {:induction false} PictureBytes(pixels: seq<Byte>, stride: nat, x: nat, y: nat)
    requires FrameDiffs.Has(pixels, stride, x, y)
    ensures var o := y * stride + 4 * x;
            && o + 4 <= |pixels|
            && FramePicture(pixels, stride)(x, y) == Rgba(pixels[o + 2], pixels[o + 1], pixels[o], 255)
  {
    AtIsProduct(y, stride);
  }

  /** The bytes of a tile, wherever they stand, are read to their end as what the frame shows there. */
  ghost predicate Arrives(read: TileReader, part: seq<Byte>, tile: Rect, picture: View) {
    forall data: seq<Byte>, o: nat :: Sits(data, o, part) ==> Shows(read(data, o, tile.Width(), tile.Height()), o + |part|, tile, picture)
  }

  ghost predicate Shows(decoded: Option<Decoded>, end: nat, tile: Rect, picture: View) {
    && decoded.Some? && decoded.value.end == end
    && forall x: int, y: int :: tile.Contains(x, y) ==> Placed(decoded.value.view, tile.x0, tile.y0)(x, y) == picture(x, y)
  }

  ghost predicate AllArrive(read: TileReader, parts: seq<seq<Byte>>, tiles: seq<Rect>, picture: View) {
    |parts| == |tiles| && forall i :: 0 <= i < |parts| ==> Arrives(read, parts[i], tiles[i], picture)
  }

  /** The tiles of a stream that starts at `o`, drawn over `v`. */
  lemma {:induction false} TilesArrive(
    read: TileReader, data: seq<Byte>, o: nat, parts: seq<seq<Byte>>, tiles: seq<Rect>, v: View, picture: View)
    requires AllArrive(read, parts, tiles, picture) && Sits(data, o, Concat(parts))
    ensures var drawn := DrawTiles(read, data, o, tiles, v);
            && drawn.Some? && drawn.value.0 == o + |Concat(parts)|
            && forall x: int, y: int :: drawn.value.1(x, y) == if InSome(tiles, x, y) then picture(x, y) else v(x, y)
    decreases |tiles|
  {
    if tiles == [] {
    } else {
      ConcatSits(data, o, parts);
      assert Arrives(read, parts[0], tiles[0], picture);
      var decoded := read(data, o, tiles[0].Width(), tiles[0].Height());
      assert Shows(decoded, o + |parts[0]|, tiles[0], picture);
      var next := Overlay(v, tiles[0], Placed(decoded.value.view, tiles[0].x0, tiles[0].y0));
      assert AllArrive(read, parts[1..], tiles[1..], picture) by {
        forall i | 0 <= i < |parts[1..]| ensures Arrives(read, parts[1..][i], tiles[1..][i], picture) {
          assert Arrives(read, parts[i + 1], tiles[i + 1], picture);
        }
      }
      TilesArrive(read, data, o + |parts[0]|, parts[1..], tiles[1..], next, picture);
      DrawFirst(read, data, o, tiles, v);
      forall x: int, y: int
        ensures InSome(tiles, x, y) <==> tiles[0].Contains(x, y) || InSome(tiles[1..], x, y)
      {
        InSomeFirst(tiles, x, y);
      }
    }
  }

  lemma {:induction false} InSomeFirst(tiles: seq<Rect>, x: int, y: int)
    requires tiles != []
    ensures InSome(tiles, x, y) <==> tiles[0].Contains(x, y) || InSome(tiles[1..], x, y)
  {
    if InSome(tiles[1..], x, y) {
      var i :| 0 <= i < |tiles[1..]| && tiles[1..][i].Contains(x, y);
      assert tiles[i + 1].Contains(x, y);
    }
    if InSome(tiles, x, y) && !tiles[0].Contains(x, y) {
      var i :| 0 <= i < |tiles| && tiles[i].Contains(x, y);
      assert tiles[1..][i - 1].Contains(x, y);
    }
  }

  /** What the encoder promises of a tile's bytes is what the decoder needs of them. */
  lemma {:induction false} EncodedArrives(part: seq<Byte>, tile: Rect, pixels: seq<Byte>, stride: nat)
    requires TileEncoded(part, tile, pixels, stride)
    ensures Arrives(ZrleReader(), part, tile, FramePicture(pixels, stride))
  {
    var w, h, view := tile.Width(), tile.Height(), SourceView(pixels, stride, tile.x0, tile.y0);
    forall data: seq<Byte>, o: nat | Sits(data, o, part)
      ensures Shows(Tile(data, o, w, h), o + |part|, tile, FramePicture(pixels, stride))
    {
      assert ReadsAs(data, o, w, h, o + |part|, view);
      var decoded := Tile(data, o, w, h).value;
      forall x: int, y: int | tile.Contains(x, y)
        ensures Placed(decoded.view, tile.x0, tile.y0)(x, y) == FramePicture(pixels, stride)(x, y)
      {
        assert decoded.view(x - tile.x0, y - tile.y0) == view(x - tile.x0, y - tile.y0);
      }
    }
  }

  /** The whole rectangle: its tiles cover exactly it. */
  lemma {:induction false} RectangleArrives(parts: seq<seq<Byte>>, area: Rect, pixels: seq<Byte>, stride: nat, v: View)
    requires |parts| == |Tiles(area)| && TilesEncoded(parts, Tiles(area), pixels, stride)
    ensures var drawn := DrawTiles(ZrleReader(), Concat(parts), 0, Tiles(area), v);
            && drawn.Some? && drawn.value.0 == |Concat(parts)|
            && Painted(drawn.value.1, v, area, FramePicture(pixels, stride))
  {
    var read, tiles, picture := ZrleReader(), Tiles(area), FramePicture(pixels, stride);
    assert AllArrive(read, parts, tiles, picture) by {
      forall i | 0 <= i < |parts| ensures Arrives(read, parts[i], tiles[i], picture) {
        EncodedArrives(parts[i], tiles[i], pixels, stride);
      }
    }
    TilesArrive(read, Concat(parts), 0, parts, tiles, v, picture);
    forall x: int, y: int ensures InSome(tiles, x, y) <==> area.Contains(x, y) {
      TilesAre(area, x, y);
    }
  }

  lemma {:induction false} TilesAre(area: Rect, x: int, y: int)
    ensures InSome(Tiles(area), x, y) <==> area.Contains(x, y)
  {
    TilesWithin(area.x0, area.y0, area);
    if area.Contains(x, y) { TilesCover(area.x0, area.y0, area, x, y); }
    if InSome(Tiles(area), x, y) {
      var i :| 0 <= i < |Tiles(area)| && Tiles(area)[i].Contains(x, y);
      assert Tiles(area)[i].Within(area);
    }
  }

  lemma {:induction false} LengthPrefixed(out: seq<Byte>, data: seq<Byte>)
    requires |out| < 0x1_0000_0000 && data == Be32(|out|) + out
    ensures |data| >= 4 && 4 + Be32At(data, 0) == |data| && data[4..4 + Be32At(data, 0)] == out
  {
    SitsAtHead(Be32(|out|), out);
    ReadWriteBe32(|out|, data, 0);
  }

  lemma {:induction false} NothingLeft(codec: Zlib.Codec, flushed: seq<seq<Byte>>, chunk: seq<Byte>)
    requires codec.Inverts()
    ensures codec.Sent(flushed, [], chunk) == codec.Emitted(flushed, chunk)
  {
    assert [] + chunk == chunk;
    assert codec.early(flushed, []) == 0;
  }

  /**
    A rectangle the encoder produced, decoded by a browser whose inflater has been given all earlier
    rectangles: the inflated bytes are those that were compressed, all of them are used, each pixel of
    the rectangle gets its blue, green and red with full alpha, no other pixel changes, and the two
    streams stay in step for the next rectangle.
   */
  lemma {:induction false} RoundTrip(
    codec: Zlib.Codec, flushed: seq<seq<Byte>>, pushed: seq<seq<Byte>>, firstPush: bool, parts: seq<seq<Byte>>, area: Rect,
    pixels: seq<Byte>, stride: nat, data: seq<Byte>, v: View)
    requires codec.Inverts() && Zlib.InStep(codec, flushed, pushed, firstPush)
    requires |parts| == |Tiles(area)| && TilesEncoded(parts, Tiles(area), pixels, stride)
    requires var out := codec.Sent(flushed, [], Concat(parts)); |out| < 0x1_0000_0000 && data == Be32(|out|) + out
    ensures |data| >= 4 && 4 + Be32At(data, 0) == |data|
    ensures var input := Zlib.Stripped(firstPush, data[4..4 + Be32At(data, 0)]);
            var plain := Concat(codec.inflate(pushed, input));
            var drawn := DrawTiles(ZrleReader(), plain, 0, Tiles(area), v);
            && Zlib.InStep(codec, flushed + [Concat(parts)], pushed + [input], false)
            && drawn.Some? && drawn.value.0 == |plain|
            && Painted(drawn.value.1, v, area, FramePicture(pixels, stride))
  {
    NothingLeft(codec, flushed, Concat(parts));
    LengthPrefixed(codec.Emitted(flushed, Concat(parts)), data);
    Zlib.StaysInStep(codec, flushed, Concat(parts));
    RectangleArrives(parts, area, pixels, stride, v);
  }

  /**
    After a call that failed: the browser inflates exactly the next rectangle's tiles and stays in step
    exactly when the failed call had left nothing in the compressor, which `Encode` says is when the
    first of its tiles was out of bounds already.
   */
  lemma {:induction false} AfterFailure(
    codec: Zlib.Codec, flushed: seq<seq<Byte>>, pushed: seq<seq<Byte>>, firstPush: bool, left: seq<Byte>, chunk: seq<Byte>)
    requires codec.Inverts() && Zlib.InStep(codec, flushed, pushed, firstPush)
    ensures var input := Zlib.Stripped(firstPush, codec.Sent(flushed, left, chunk));
            (Concat(codec.inflate(pushed, input)) == chunk
             && Zlib.InStep(codec, flushed + [left + chunk], pushed + [input], false)) <==> left == []
  {
    var input := Zlib.Stripped(firstPush, codec.Sent(flushed, left, chunk));
    Zlib.StaysInStep(codec, flushed, left + chunk);
    if left == [] {
      NothingLeft(codec, flushed, chunk);
      assert left + chunk == chunk;
    }
    if pushed + [input] == codec.Deflated(flushed + [left + chunk]) {
      var all := pushed + [input];
      assert all[|pushed|] == input == codec.deflate(flushed, left + chunk);
      assert |left + chunk| == |left| + |chunk|;
    }
  }

  /** The rectangles the encoder is given, one after the other, and the tiles it has made of them. */
  datatype Source = Source(area: nat -> Rect, pixels: nat -> seq<Byte>, stride: nat -> nat, parts: nat -> seq<seq<Byte>>)

  /** What the compressor has flushed before rectangle `k`. */
  function FlushedOf(source: Source, k: nat): seq<seq<Byte>> {
    if k == 0 then [] else FlushedOf(source, k - 1) + [Concat(source.parts(k - 1))]
  }

  /** The data of rectangle `k`. */
  function DataOf(codec: Zlib.Codec, source: Source, k: nat): seq<Byte> {
    var out := codec.Sent(FlushedOf(source, k), [], Concat(source.parts(k)));
    Be32(|out|) + out
  }

  ghost predicate SourceEncoded(codec: Zlib.Codec, source: Source, k: nat) {
    && |source.parts(k)| == |Tiles(source.area(k))|
    && TilesEncoded(source.parts(k), Tiles(source.area(k)), source.pixels(k), source.stride(k))
    && |codec.Sent(FlushedOf(source, k), [], Concat(source.parts(k)))| < 0x1_0000_0000
  }

  ghost predicate AllEncodedUpTo(codec: Zlib.Codec, source: Source, n: nat) {
    codec.Inverts() && forall k: nat :: k < n ==> SourceEncoded(codec, source, k)
  }

  /** A browser between two rectangles. */
  datatype Browser = Browser(pushed: seq<seq<Byte>>, firstPush: bool, view: View)

  /** It inflates a rectangle's data and draws the tiles; none when a tile never ends. */
  ghost function Draw(codec: Zlib.Codec, data: seq<Byte>, area: Rect, before: Browser): Option<Browser>
    requires |data| >= 4 && 4 + Be32At(data, 0) <= |data|
  {
    var input := Zlib.Stripped(before.firstPush, data[4..4 + Be32At(data, 0)]);
    var drawn :- DrawTiles(ZrleReader(), Concat(codec.inflate(before.pushed, input)), 0, Tiles(area), before.view);
    Some(Browser(before.pushed + [input], false, drawn.1))
  }

  ghost function Watch(codec: Zlib.Codec, source: Source, v: View, k: nat): Option<Browser> {
    if k == 0 then Some(Browser([], true, v))
    else
      var before :- Watch(codec, source, v, k - 1);
      var data := DataOf(codec, source, k - 1);
      if |data| >= 4 && 4 + Be32At(data, 0) <= |data| then Draw(codec, data, source.area(k - 1), before) else None
  }

  /** After `k` rectangles: all were decoded, and the streams are in step. */
  ghost predicate Serves(codec: Zlib.Codec, source: Source, v: View, k: nat) {
    var browser := Watch(codec, source, v, k);
    browser.Some? && Zlib.InStep(codec, FlushedOf(source, k), browser.value.pushed, browser.value.firstPush)
  }

  /** Rectangle `k` brought its pixels and touched no other. */
  ghost predicate Brings(codec: Zlib.Codec, source: Source, v: View, k: nat) {
    var before, after := Watch(codec, source, v, k), Watch(codec, source, v, k + 1);
    && before.Some? && after.Some?
    && Painted(after.value.view, before.value.view, source.area(k), FramePicture(source.pixels(k), source.stride(k)))
  }

  lemma {:induction false} ServesNext(codec: Zlib.Codec, source: Source, v: View, k: nat)
    requires codec.Inverts() && SourceEncoded(codec, source, k) && Serves(codec, source, v, k)
    ensures Serves(codec, source, v, k + 1) && Brings(codec, source, v, k)
  {
    var before := Watch(codec, source, v, k).value;
    RoundTrip(codec, FlushedOf(source, k), before.pushed, before.firstPush, source.parts(k), source.area(k), source.pixels(k),
              source.stride(k), DataOf(codec, source, k), before.view);
  }

  lemma {:induction false} AlwaysServes(codec: Zlib.Codec, source: Source, v: View, n: nat)
    requires AllEncodedUpTo(codec, source, n)
    ensures Serves(codec, source, v, n)
  {
    hide Serves, SourceEncoded;
    if n == 0 {
      NoneServed(codec, source, v);
    } else {
      AlwaysServes(codec, source, v, n - 1);
      assert SourceEncoded(codec, source, n - 1);
      ServesNext(codec, source, v, n - 1);
    }
  }

  lemma {:induction false} NoneServed(codec: Zlib.Codec, source: Source, v: View)
    ensures Serves(codec, source, v, 0)
  {
  }

  /**
    Over any sequence of rectangles through the one persistent stream, every rectangle is decoded and
    brings exactly its own pixels.
   */
  lemma {:induction false} RectanglesArrive(codec: Zlib.Codec, source: Source, v: View, n: nat)
    requires AllEncodedUpTo(codec, source, n)
    ensures Serves(codec, source, v, n)
    ensures forall k: nat :: k < n ==> Brings(codec, source, v, k)
  {
    hide Serves, Brings, SourceEncoded;
    AlwaysServes(codec, source, v, n);
    forall k: nat | k < n ensures Brings(codec, source, v, k) {
      assert SourceEncoded(codec, source, k);
      AlwaysServes(codec, source, v, k);
      ServesNext(codec, source, v, k);
    }
  }

  /**
    Drawing a ZRLE rectangle marks nothing dirty, so on a canvas that agreed the next render shows the
    rectangle exactly when each of its visible pixels had the frame's colour already or lies in the
    bounding box of what other calls have marked; on a clean screen, when nothing visible has changed.
   */
  lemma {:induction false} RectangleRendered(
    parts: seq<seq<Byte>>, area: Rect, pixels: seq<Byte>, stride: nat, v: View, canvas: View, screen: Rect, dirty: seq<Rect>)
    requires |parts| == |Tiles(area)| && TilesEncoded(parts, Tiles(area), pixels, stride)
    requires Rendering.Agrees(canvas, v, screen, [])
    ensures var drawn := DrawTiles(ZrleReader(), Concat(parts), 0, Tiles(area), v);
            && drawn.Some?
            && (Rendering.Agrees(Rendering.Step(Rendering.Display(drawn.value.1, canvas, dirty), Rendering.Show, screen).canvas,
                                 drawn.value.1, screen, []) <==>
                forall x: int, y: int :: screen.Contains(x, y) && area.Contains(x, y) ==>
                  Rendering.Repaired(v, FramePicture(pixels, stride), dirty, x, y))
  {
    RectangleArrives(parts, area, pixels, stride, v);
    var after := DrawTiles(ZrleReader(), Concat(parts), 0, Tiles(area), v).value.1;
    Rendering.UnmarkedRectangle(canvas, v, after, screen, dirty, area, FramePicture(pixels, stride));
  }

  /** A tile of runs is a tile of the pixels they stand for: plain runs... */
  lemma {:induction false} PlainTileReads(runs: seq<Run>, w: nat, h: nat, data: seq<Byte>, o: nat)
    requires AllPositive(runs) && |Expand(runs)| == At(h, w) && Sits(data, o, [128] + PlainWire(runs))
    ensures ReadsAs(data, o, w, h, o + 1 + |PlainWire(runs)|, ListView(Expand(runs), w))
  {
    SitsSplit(data, o, [128], PlainWire(runs));
    assert data[o] == [128][0];
    PlainRoundTrip(runs, data, o + 1);
  }

  /** ... and runs over a palette of 2 to 127 colours. */
  lemma {:induction false} PaletteTileReads(
    runs: seq<IndexRun>, palette: seq<Bgr>, w: nat, h: nat, data: seq<Byte>, o: nat)
    requires 2 <= |palette| <= 127 && AllFit(runs, |palette|) && |ExpandIndices(runs, palette)| == At(h, w)
    requires Sits(data, o, [|palette| + 128] + Wires(palette) + PaletteWire(runs, |palette|))
    ensures ReadsAs(data, o, w, h, o + 1 + 3 * |palette| + |PaletteWire(runs, |palette|)|,
                    ListView(ExpandIndices(runs, palette), w))
  {
    hide PaletteRuns, PlainRuns, RawTile, PackedTile, SolidTile, PaletteWire, Wires, ExpandIndices, AllFit;
    var n := |palette|;
    SitsSplit(data, o, [n + 128] + Wires(palette), PaletteWire(runs, n));
    SitsSplit(data, o, [n + 128], Wires(palette));
    assert data[o] == [n + 128][0];
    PaletteRoundTrip(runs, palette, data, o + 1, o + 1 + 3 * n);
  }
}

/** The browser's Tight decoder (web/src/encodings/tight.ts). */
module TightDecoders {
  import opened Bits
  import opened Bytes
  import opened Streams
  import opened Grid
  import opened Framebuffers
  import opened Colours
  import CompactLength
  import Zlib

  /** One of the four inflaters: the inputs pushed so far, and whether the zlib header is still to come. */
  datatype Inflater = Inflater(history: seq<seq<Byte>>, firstPush: bool) {
    function Output(codec: Zlib.Codec, compressed: seq<Byte>): seq<Byte> {
      Concat(codec.inflate(history, Zlib.Stripped(firstPush, compressed)))
    }

    function Pushed(compressed: seq<Byte>): Inflater {
      Inflater(history + [Zlib.Stripped(firstPush, compressed)], false)
    }
  }

  const FRESH := Inflater([], true)

  /** The four streams. */
  datatype Inflaters = Inflaters(s0: Inflater, s1: Inflater, s2: Inflater, s3: Inflater) {
    function Get(i: nat): Inflater {
      if i == 0 then s0 else if i == 1 then s1 else if i == 2 then s2 else s3
    }

    function Set(i: nat, s: Inflater): Inflaters {
      if i == 0 then this.(s0 := s) else if i == 1 then this.(s1 := s) else if i == 2 then this.(s2 := s) else this.(s3 := s)
    }
  }

  const ALL_FRESH := Inflaters(FRESH, FRESH, FRESH, FRESH)

  /** Bits 4 to 7 of the control byte each restart one stream. */
  function Reset(streams: Inflaters, control: Byte): Inflaters {
    Inflaters(if control / 16 % 2 == 1 then FRESH else streams.s0, if control / 32 % 2 == 1 then FRESH else streams.s1,
              if control / 64 % 2 == 1 then FRESH else streams.s2, if control / 128 % 2 == 1 then FRESH else streams.s3)
  }

  /** The upper half of a byte. */
  lemma {:induction false} UpperBits(n: nat)
    ensures Bit(n, 4) == (n / 16 % 2 == 1) && Bit(n, 5) == (n / 32 % 2 == 1)
    ensures Bit(n, 6) == (n / 64 % 2 == 1) && Bit(n, 7) == (n / 128 % 2 == 1)
  {
    var m: nat := n / 16;
    ShrBit(n, 4, 0);
    ShrBit(n, 4, 1);
    ShrBit(n, 4, 2);
    ShrBit(n, 4, 3);
    assert Shr(n, 4) == m by { assert n / 2 / 2 / 2 / 2 == n / 16; }
    assert Bit(m, 1) == Bit(m / 2, 0) && Bit(m, 2) == Bit(m / 2 / 2, 0) && Bit(m, 3) == Bit(m / 2 / 2 / 2, 0);
  }

  /** Bit 4 + s restarts stream `s` and no other. */
  lemma {:induction false} ResetExactly(streams: Inflaters, control: Byte, s: nat)
    requires s < 4
    ensures Reset(streams, control).Get(s) == if Bit(control, 4 + s) then Inflater([], true) else streams.Get(s)
  {
    hide Bit;
    UpperBits(control);
  }

  /** What a tile puts on the screen: one colour, RGB data, or a JPEG that is drawn later. */
  datatype Effect = FillWith(r: Byte, g: Byte, b: Byte) | WriteRgb(rgb: seq<Byte>) | Defer(jpeg: seq<Byte>)

  datatype Decoded = Decoded(end: nat, streams: Inflaters, effect: Effect)

  /** A compact length and the bytes it counts; none when they end behind the data. */
  function Counted(data: seq<Byte>, o: nat): Option<(seq<Byte>, nat)> {
    var (length, size) :- CompactLength.LengthAt(data, o);
    var end := o + size + length;
    if end <= |data| then Some((data[o + size..end], end)) else None
  }

  /** The tile at offset `o`; none when a read falls behind the data, which throws. */
  function DecodeOne(codec: Zlib.Codec, data: seq<Byte>, o: nat, streams: Inflaters): Option<Decoded> {
    if o >= |data| then None
    else
      var control := data[o];
      var reset := Reset(streams, control);
      var sub := control % 16;
      if sub == 8 then
        if o + 4 <= |data| then Some(Decoded(o + 4, reset, FillWith(data[o + 1], data[o + 2], data[o + 3]))) else None
      else
        var (payload, end) :- Counted(data, o + 1);
        if sub == 9 then Some(Decoded(end, reset, Defer(payload)))
        else
          var s := sub % 4;
          Some(Decoded(end, reset.Set(s, reset.Get(s).Pushed(payload)), WriteRgb(reset.Get(s).Output(codec, payload))))
  }

  /** What the effect shows in the tile; a deferred JPEG shows nothing yet. */
  ghost function Effected(v: View, tile: Rect, effect: Effect): View {
    match effect
    case FillWith(r, g, b) => Overlay(v, tile, Plain(Rgba(r, g, b, 255)))
    case WriteRgb(rgb) => Overlay(v, tile, PackedRgbView(rgb, tile.Width(), tile.x0, tile.y0))
    case Defer(_) => v
  }

  /** JPEGs waiting to be drawn, with their places. */
  datatype Deferred = Deferred(place: Rect, bytes: seq<Byte>)

  type Waiting = seq<Deferred>

  /** A set of pixels. */
  type Mask = (int, int) -> bool

  ghost function WithArea(mask: Mask, area: Rect): Mask {
    (x, y) => area.Contains(x, y) || mask(x, y)
  }

  /** Every waiting JPEG lies in the mask. */
  ghost predicate Masked(waiting: Waiting, mask: Mask, screen: Rect) {
    forall i :: 0 <= i < |waiting| ==> Hides(mask, waiting[i].place, screen)
  }

  ghost predicate Hides(mask: Mask, area: Rect, screen: Rect) {
    area.Within(screen) && !area.Empty() && forall x: int, y: int :: area.Contains(x, y) ==> mask(x, y)
  }

  lemma {:induction false} MaskedMore(waiting: Waiting, mask: Mask, screen: Rect, tile: Rect, jpeg: seq<Byte>)
    requires Masked(waiting, mask, screen) && tile.Within(screen) && !tile.Empty()
    ensures Masked(waiting + [Deferred(tile, jpeg)], WithArea(mask, tile), screen)
  {
    var all := waiting + [Deferred(tile, jpeg)];
    forall i | 0 <= i < |all| ensures Hides(WithArea(mask, tile), all[i].place, screen) {
      if i < |waiting| { assert Hides(mask, waiting[i].place, screen); }
    }
  }

  /** Offset, streams, picture, and the pixels of the tiles whose JPEGs wait. */
  datatype Progress = Progress(offset: nat, streams: Inflaters, view: View, hidden: Mask)

  type TightReader = (seq<Byte>, nat, Inflaters) -> Option<Decoded>

  function ReaderFor(codec: Zlib.Codec): TightReader {
    (data: seq<Byte>, o: nat, streams: Inflaters) => DecodeOne(codec, data, o, streams)
  }

  ghost function After(p: Progress, tile: Rect, d: Decoded): Progress {
    Progress(d.end, d.streams, Effected(p.view, tile, d.effect),
             if d.effect.Defer? then WithArea(p.hidden, tile) else p.hidden)
  }

  /** The state after a list of tiles. */
  ghost function DrawTiles(read: TightReader, data: seq<Byte>, tiles: seq<Rect>, p: Progress): Option<Progress>
    decreases |tiles|
  {
    if tiles == [] then Some(p)
    else
      var d :- read(data, p.offset, p.streams);
      DrawTiles(read, data, tiles[1..], After(p, tiles[0], d))
  }

  lemma {:induction false} DrawFirst(read: TightReader, data: seq<Byte>, tiles: seq<Rect>, p: Progress)
    requires tiles != []
    ensures var d := read(data, p.offset, p.streams);
            DrawTiles(read, data, tiles, p) == if d.None? then None else DrawTiles(read, data, tiles[1..], After(p, tiles[0], d.value))
  {
  }

  /** The JPEGs among the tiles, in order, each with its own place. */
  ghost function Late(read: TightReader, data: seq<Byte>, tiles: seq<Rect>, offset: nat, streams: Inflaters): Waiting
    decreases |tiles|
  {
    if tiles == [] then []
    else
      var d := read(data, offset, streams);
      if d.None? then []
      else LateOf(tiles[0], d.value.effect) + Late(read, data, tiles[1..], d.value.end, d.value.streams)
  }

  function LateOf(tile: Rect, effect: Effect): Waiting {
    if effect.Defer? then [Deferred(tile, effect.jpeg)] else []
  }

  /** The tiles drawn at once, in order. */
  ghost function Marked(read: TightReader, data: seq<Byte>, tiles: seq<Rect>, offset: nat, streams: Inflaters): seq<Rect>
    decreases |tiles|
  {
    if tiles == [] then []
    else
      var d := read(data, offset, streams);
      if d.None? then []
      else MarkedBy(tiles[0], d.value.effect) + Marked(read, data, tiles[1..], d.value.end, d.value.streams)
  }

  function MarkedBy(tile: Rect, effect: Effect): seq<Rect> {
    if effect.Defer? then [] else [tile]
  }

  lemma {:induction false} ListFirst(read: TightReader, data: seq<Byte>, tiles: seq<Rect>, offset: nat, streams: Inflaters)
    requires tiles != [] && read(data, offset, streams).Some?
    ensures var d := read(data, offset, streams).value;
            && Late(read, data, tiles, offset, streams) == LateOf(tiles[0], d.effect) + Late(read, data, tiles[1..], d.end, d.streams)
            && Marked(read, data, tiles, offset, streams)
               == MarkedBy(tiles[0], d.effect) + Marked(read, data, tiles[1..], d.end, d.streams)
  {
  }

  /** The image data of a decoded JPEG at the size of its tile; none when it cannot be decoded. */
  type Bitmap = (seq<Byte>, nat, nat) -> Option<seq<Byte>>

  ghost predicate DrawsWhole(bitmap: Bitmap) {
    forall jpeg: seq<Byte>, w: nat, h: nat :: bitmap(jpeg, w, h).Some? ==> |bitmap(jpeg, w, h).value| == 4 * At(h, w)
  }

  /** The image of a waiting JPEG. */
  function ImageOf(late: Deferred, bitmap: Bitmap): Option<seq<Byte>> {
    bitmap(late.bytes, late.place.Width(), late.place.Height())
  }

  ghost function WithBitmap(v: View, late: Deferred, bitmap: Bitmap): View {
    match ImageOf(late, bitmap)
    case Some(image) => Overlay(v, late.place, PackedView(image, late.place.Width(), late.place.x0, late.place.y0))
    case None => v
  }

  /** The picture once the waiting JPEGs that decode are drawn, one after the other. */
  ghost function WithBitmaps(v: View, waiting: Waiting, bitmap: Bitmap): View
    decreases |waiting|
  {
    if waiting == [] then v else WithBitmaps(WithBitmap(v, waiting[0], bitmap), waiting[1..], bitmap)
  }

  /** The places drawn, in order. */
  function BitmapPlaces(waiting: Waiting, bitmap: Bitmap): seq<Rect> {
    if waiting == [] then []
    else (if ImageOf(waiting[0], bitmap).Some? then [waiting[0].place] else []) + BitmapPlaces(waiting[1..], bitmap)
  }

  /** No two JPEGs share a pixel. */
  ghost predicate Apart(waiting: Waiting) {
    forall i, j, x: int, y: int :: 0 <= i < j < |waiting| ==> !(waiting[i].place.Contains(x, y) && waiting[j].place.Contains(x, y))
  }

  /** The pixel of the JPEG's own image, the upper left corner of the image in that of its place; without an image, what was there. */
  function JpegPixel(late: Deferred, bitmap: Bitmap, under: Rgba, x: int, y: int): Rgba {
    match bitmap(late.bytes, late.place.Width(), late.place.Height())
    case Some(image) => Packed(image, late.place.Width(), x - late.place.x0, y - late.place.y0)
    case None => under
  }

  lemma {:induction false} NoBitmap(v: View, waiting: Waiting, bitmap: Bitmap, x: int, y: int)
    requires forall k :: 0 <= k < |waiting| ==> !waiting[k].place.Contains(x, y)
    ensures WithBitmaps(v, waiting, bitmap)(x, y) == v(x, y)
    decreases |waiting|
  {
    if waiting != [] { NoBitmap(WithBitmap(v, waiting[0], bitmap), waiting[1..], bitmap, x, y); }
  }

  /** Each JPEG shows in its own place. */
  lemma {:induction false} OwnBitmap(v: View, waiting: Waiting, bitmap: Bitmap, k: nat, x: int, y: int)
    requires Apart(waiting) && k < |waiting| && waiting[k].place.Contains(x, y)
    ensures WithBitmaps(v, waiting, bitmap)(x, y) == JpegPixel(waiting[k], bitmap, v(x, y), x, y)
    decreases |waiting|
  {
    var first, rest := WithBitmap(v, waiting[0], bitmap), waiting[1..];
    assert forall i :: 0 <= i < |rest| ==> rest[i] == waiting[i + 1];
    if k == 0 {
      NoBitmap(first, rest, bitmap, x, y);
    } else {
      assert rest[k - 1] == waiting[k];
      OwnBitmap(first, rest, bitmap, k - 1, x, y);
    }
  }

  /** Some waiting JPEG at `area` decodes. */
  ghost predicate Decodes(waiting: Waiting, bitmap: Bitmap, area: Rect) {
    exists k :: 0 <= k < |waiting| && waiting[k].place == area && bitmap(waiting[k].bytes, area.Width(), area.Height()).Some?
  }

  /** Exactly the places whose JPEG decodes are marked. */
  lemma {:induction false} PlacesExactly(waiting: Waiting, bitmap: Bitmap, area: Rect)
    ensures area in BitmapPlaces(waiting, bitmap) <==> Decodes(waiting, bitmap, area)
  {
    if waiting != [] {
      var rest := waiting[1..];
      PlacesExactly(rest, bitmap, area);
      if Decodes(rest, bitmap, area) {
        var k :| 0 <= k < |rest| && rest[k].place == area && bitmap(rest[k].bytes, area.Width(), area.Height()).Some?;
        assert waiting[k + 1] == rest[k];
      }
      if Decodes(waiting, bitmap, area) && area !in BitmapPlaces(waiting[..1], bitmap) {
        var k :| 0 <= k < |waiting| && waiting[k].place == area && bitmap(waiting[k].bytes, area.Width(), area.Height()).Some?;
        assert waiting[..1][0] == waiting[0];
        assert rest[k - 1] == waiting[k];
      }
    }
  }

  /** Places in row-major order are marked in that order, each once. */
  lemma {:induction false} PlacesInOrder(waiting: Waiting, bitmap: Bitmap)
    requires Laid(Places(waiting))
    ensures Laid(BitmapPlaces(waiting, bitmap))
  {
    if waiting != [] {
      var rest, all := waiting[1..], BitmapPlaces(waiting, bitmap);
      assert Places(rest) == Places(waiting)[1..];
      PlacesInOrder(rest, bitmap);
      var later := BitmapPlaces(rest, bitmap);
      forall j | 0 <= j < |later| ensures Follows(waiting[0].place, later[j]) {
        PlacesExactly(rest, bitmap, later[j]);
        var k :| 0 <= k < |rest| && rest[k].place == later[j];
        assert Places(waiting)[k + 1] == later[j] && Places(waiting)[0] == waiting[0].place;
      }
    }
  }

  function Places(waiting: Waiting): seq<Rect> {
    seq(|waiting|, k requires 0 <= k < |waiting| => waiting[k].place)
  }

  lemma {:induction false} PlacesOf(tile: Rect, effect: Effect, rest: Waiting)
    ensures Places(LateOf(tile, effect) + rest) == (if effect.Defer? then [tile] else []) + Places(rest)
  {
    if effect.Defer? {
      assert LateOf(tile, effect)[0].place == tile;
    } else {
      assert [] + rest == rest && [] + Places(rest) == Places(rest);
    }
  }

  /** A pixel hides exactly when it lies in the place of a waiting JPEG. */
  lemma {:induction false} HiddenExactly(read: TightReader, data: seq<Byte>, tiles: seq<Rect>, p: Progress, x: int, y: int)
    requires DrawTiles(read, data, tiles, p).Some?
    ensures DrawTiles(read, data, tiles, p).value.hidden(x, y) <==>
              p.hidden(x, y) || InSome(Places(Late(read, data, tiles, p.offset, p.streams)), x, y)
    decreases |tiles|
  {
    hide InSome, Places, LateOf;
    if tiles == [] {
      NoPlaces(x, y);
    } else {
      var d := read(data, p.offset, p.streams).value;
      DrawFirst(read, data, tiles, p);
      ListFirst(read, data, tiles, p.offset, p.streams);
      HiddenExactly(read, data, tiles[1..], After(p, tiles[0], d), x, y);
      var late := Late(read, data, tiles[1..], d.end, d.streams);
      PlacesOf(tiles[0], d.effect, late);
      InSomeOf(if d.effect.Defer? then [tiles[0]] else [], Places(late), x, y);
      InOne(tiles[0], x, y);
    }
  }

  lemma {:induction false} NoPlaces(x: int, y: int)
    ensures Places([]) == [] && !InSome([], x, y)
  {
  }

  lemma {:induction false} InOne(area: Rect, x: int, y: int)
    ensures InSome([area], x, y) <==> area.Contains(x, y)
    ensures !InSome([], x, y)
  {
    assert [area][0] == area;
  }

  lemma {:induction false} InSomeOf(first: seq<Rect>, rest: seq<Rect>, x: int, y: int)
    ensures InSome(first + rest, x, y) <==> InSome(first, x, y) || InSome(rest, x, y)
  {
    if InSome(rest, x, y) {
      var k :| 0 <= k < |rest| && rest[k].Contains(x, y);
      assert (first + rest)[|first| + k] == rest[k];
    }
    if InSome(first, x, y) {
      var k :| 0 <= k < |first| && first[k].Contains(x, y);
      assert (first + rest)[k] == first[k];
    }
  }

  lemma {:induction false} TilesKeep(read: TightReader, data: seq<Byte>, tiles: seq<Rect>, p: Progress, x: int, y: int)
    requires DrawTiles(read, data, tiles, p).Some? && !InSome(Marked(read, data, tiles, p.offset, p.streams), x, y)
    ensures DrawTiles(read, data, tiles, p).value.view(x, y) == p.view(x, y)
    decreases |tiles|
  {
    if tiles != [] {
      var d := read(data, p.offset, p.streams).value;
      InSomeOf(MarkedBy(tiles[0], d.effect), Marked(read, data, tiles[1..], d.end, d.streams), x, y);
      TilesKeep(read, data, tiles[1..], After(p, tiles[0], d), x, y);
      if !d.effect.Defer? { assert MarkedBy(tiles[0], d.effect)[0] == tiles[0]; }
    }
  }

  lemma {:induction false} BitmapsKeep(v: View, waiting: Waiting, bitmap: Bitmap, x: int, y: int)
    requires !InSome(BitmapPlaces(waiting, bitmap), x, y)
    ensures WithBitmaps(v, waiting, bitmap)(x, y) == v(x, y)
    decreases |waiting|
  {
    if waiting != [] {
      var first := if ImageOf(waiting[0], bitmap).Some? then [waiting[0].place] else [];
      InSomeOf(first, BitmapPlaces(waiting[1..], bitmap), x, y);
      BitmapsKeep(WithBitmap(v, waiting[0], bitmap), waiting[1..], bitmap, x, y);
      if first != [] { assert first[0] == waiting[0].place; }
    }
  }

  /** Every pixel a rectangle changes, at once or by a JPEG, lies in a rectangle marked dirty. */
  lemma {:induction false} ChangedIsMarked(
    read: TightReader, data: seq<Byte>, tiles: seq<Rect>, p: Progress, bitmap: Bitmap, x: int, y: int)
    requires DrawTiles(read, data, tiles, p).Some?
    ensures var drawn, late := DrawTiles(read, data, tiles, p).value, Late(read, data, tiles, p.offset, p.streams);
            WithBitmaps(drawn.view, late, bitmap)(x, y) != p.view(x, y) ==>
              InSome(Marked(read, data, tiles, p.offset, p.streams) + BitmapPlaces(late, bitmap), x, y)
  {
    var drawn, late := DrawTiles(read, data, tiles, p).value, Late(read, data, tiles, p.offset, p.streams);
    var marked, places := Marked(read, data, tiles, p.offset, p.streams), BitmapPlaces(late, bitmap);
    InSomeOf(marked, places, x, y);
    if !InSome(marked + places, x, y) {
      TilesKeep(read, data, tiles, p, x, y);
      BitmapsKeep(drawn.view, late, bitmap, x, y);
    }
  }

  /** Every tile is either drawn at once or the place of a waiting JPEG. */
  lemma {:induction false} EachTileOnce(read: TightReader, data: seq<Byte>, tiles: seq<Rect>, p: Progress)
    requires DrawTiles(read, data, tiles, p).Some?
    ensures var marked, late := Marked(read, data, tiles, p.offset, p.streams), Late(read, data, tiles, p.offset, p.streams);
            multiset(tiles) == multiset(marked) + multiset(Places(late))
    decreases |tiles|
  {
    hide Places, LateOf, MarkedBy;
    if tiles == [] {
      NoPlaces(0, 0);
    } else {
      var d := read(data, p.offset, p.streams).value;
      DrawFirst(read, data, tiles, p);
      ListFirst(read, data, tiles, p.offset, p.streams);
      EachTileOnce(read, data, tiles[1..], After(p, tiles[0], d));
      OneMoreTile(tiles[0], tiles[1..], d.effect, Marked(read, data, tiles[1..], d.end, d.streams),
                  Late(read, data, tiles[1..], d.end, d.streams));
      assert tiles == [tiles[0]] + tiles[1..];
    }
  }

  lemma {:induction false} OneMoreTile(tile: Rect, tiles: seq<Rect>, effect: Effect, marked: seq<Rect>, late: Waiting)
    requires multiset(tiles) == multiset(marked) + multiset(Places(late))
    ensures multiset([tile] + tiles) == multiset(MarkedBy(tile, effect) + marked) + multiset(Places(LateOf(tile, effect) + late))
  {
    hide Places, LateOf;
    PlacesOf(tile, effect, late);
    if effect.Defer? {
      assert [] + marked == marked;
    } else {
      assert [] + Places(late) == Places(late);
    }
  }

  class TightDecoder {
    const codec: Zlib.Codec
    var streams: Inflaters

    constructor (codec: Zlib.Codec)
      ensures this.codec == codec && streams == ALL_FRESH
    {
      this.codec := codec;
      streams := ALL_FRESH;
    }

    /** Draws a tile of one colour. */
    method Fill(fb: Framebuffer, x: nat, y: nat, tileW: nat, tileH: nat, r: Byte, g: Byte, b: Byte)
      requires fb.Valid() && fb.Inside(x, y, tileW, tileH)
      modifies fb`pic, fb`dirty, fb.data
      ensures fb.Valid() && fb.pic == Effected(old(fb.pic), Rect(x, y, x + tileW, y + tileH), FillWith(r, g, b))
      ensures fb.dirty == old(fb.dirty) + [Rect(x, y, x + tileW, y + tileH)]
    {
      ghost var before := fb.pic;
      fb.FillRect(x, y, tileW, tileH, r, g, b);
      fb.pic := Effected(before, Rect(x, y, x + tileW, y + tileH), FillWith(r, g, b));
    }

    /** Draws a tile of RGB data. */
    method Write(fb: Framebuffer, x: nat, y: nat, tileW: nat, tileH: nat, rgb: seq<Byte>)
      requires fb.Valid() && fb.Inside(x, y, tileW, tileH)
      modifies fb`pic, fb`dirty, fb.data
      ensures fb.Valid() && fb.pic == Effected(old(fb.pic), Rect(x, y, x + tileW, y + tileH), WriteRgb(rgb))
      ensures fb.dirty == old(fb.dirty) + [Rect(x, y, x + tileW, y + tileH)]
    {
      ghost var before := fb.pic;
      fb.WriteRectRGB(x, y, tileW, tileH, rgb);
      fb.pic := Effected(before, Rect(x, y, x + tileW, y + tileH), WriteRgb(rgb));
    }

    /** Control byte, resets, and the tile's data; `None` when a read throws. */
    method DecodeTile(fb: Framebuffer, data: seq<Byte>, offset: nat, x: nat, y: nat, tileW: nat, tileH: nat)
      returns (end: Option<nat>, deferred: Option<seq<Byte>>)
      requires fb.Valid() && fb.Inside(x, y, tileW, tileH)
      modifies this, fb`pic, fb`dirty, fb.data
      ensures fb.Valid()
      ensures var d := DecodeOne(codec, data, offset, old(streams)); var tile := Rect(x, y, x + tileW, y + tileH);
              if d.None? then end.None?
              else && end == Some(d.value.end) && streams == d.value.streams
                   && fb.pic == Effected(old(fb.pic), tile, d.value.effect)
                   && fb.dirty == old(fb.dirty) + (if d.value.effect.Defer? then [] else [tile])
                   && deferred == if d.value.effect.Defer? then Some(d.value.effect.jpeg) else None
    {
      deferred := None;
      if offset >= |data| { return None, None; }
      var control := data[offset];
      var reset := Reset(streams, control);
      var subType := control % 16;
      if subType == 8 {
        if offset + 4 > |data| { return None, None; }
        streams := reset;
        Fill(fb, x, y, tileW, tileH, data[offset + 1], data[offset + 2], data[offset + 3]);
        return Some(offset + 4), None;
      }
      var counted := Counted(data, offset + 1);
      if counted.None? { return None, None; }
      var (payload, next) := counted.value;
      if subType == 9 {
        streams := reset;
        return Some(next), Some(payload);
      }
      var streamIdx := subType % 4;
      var decompressed := reset.Get(streamIdx).Output(codec, payload);
      streams := reset.Set(streamIdx, reset.Get(streamIdx).Pushed(payload));
      Write(fb, x, y, tileW, tileH, decompressed);
      end := Some(next);
    }

    /** A tile in its place, and its JPEG, if it has one, with the others that wait. */
    method DecodePlaced(fb: Framebuffer, data: seq<Byte>, offset: nat, tile: Rect, jpegs: Waiting,
                        ghost read: TightReader, ghost hidden: Mask)
      returns (end: Option<nat>, waiting: Waiting, ghost mask: Mask)
      requires fb.Valid() && tile.Within(fb.Screen()) && !tile.Empty() && read == ReaderFor(codec)
      requires Masked(jpegs, hidden, fb.Screen())
      modifies this, fb`pic, fb`dirty, fb.data
      ensures fb.Valid() && (end.Some? ==> Masked(waiting, mask, fb.Screen()))
      ensures Taken(read(data, offset, old(streams)), Progress(offset, old(streams), old(fb.pic), hidden), tile,
                    end, streams, fb.pic, mask)
      ensures end.Some? ==> var effect := read(data, offset, old(streams)).value.effect;
                            waiting == jpegs + LateOf(tile, effect) && fb.dirty == old(fb.dirty) + MarkedBy(tile, effect)
    {
      var deferred;
      end, deferred := DecodeTile(fb, data, offset, tile.x0, tile.y0, tile.Width(), tile.Height());
      waiting, mask := jpegs, hidden;
      if deferred.Some? && end.Some? {
        MaskedMore(jpegs, hidden, fb.Screen(), tile, deferred.value);
        waiting, mask := jpegs + [Deferred(tile, deferred.value)], WithArea(hidden, tile);
      }
    }

    /** One turn of the inner tile loop. */
    method DecodeNext(fb: Framebuffer, data: seq<Byte>, offset: nat, area: Rect, tx: nat, ty: nat, tileH: nat, jpegs: Waiting,
                      ghost hidden: Mask, ghost read: TightReader, ghost drawn: Option<Progress>, ghost late: Waiting,
                      ghost marked: seq<Rect>)
      returns (end: Option<nat>, waiting: Waiting, ghost mask: Mask)
      requires fb.Valid() && read == ReaderFor(codec)
      requires Running(read, data, fb.Screen(), area, Some(offset), tx, ty, streams, fb.pic, jpegs, hidden, drawn)
      requires Listing(read, data, Some(offset), TilesFrom(tx, ty, area), streams, jpegs, fb.dirty, late, marked)
      requires tx < area.x1 && ty < area.y1 && tileH == Min(TILE, area.y1 - ty)
      modifies this, fb`pic, fb`dirty, fb.data
      ensures fb.Valid()
      ensures Running(read, data, fb.Screen(), area, end, tx + TILE, ty, streams, fb.pic, waiting, mask, drawn)
      ensures Listing(read, data, end, TilesFrom(tx + TILE, ty, area), streams, waiting, fb.dirty, late, marked)
    {
      hide DecodeOne, DrawTiles, Late, Marked, Masked, TilesFrom, Going, LateOf, MarkedBy, Effected;
      ghost var dirty := fb.dirty;
      var tileW := Min(TILE, area.x1 - tx);
      var tile := Rect(tx, ty, tx + tileW, ty + tileH);
      ghost var p := Progress(offset, streams, fb.pic, hidden);
      end, waiting, mask := DecodePlaced(fb, data, offset, tile, jpegs, read, hidden);
      GoingOn(read, data, tx, ty, area, p, drawn, end, streams, fb.pic, mask);
      if end.Some? { ListingOn(read, data, tx, ty, area, offset, p.streams, jpegs, dirty, late, marked); }
    }

    /** The inner tile loop. */
    method DecodeRow(fb: Framebuffer, data: seq<Byte>, offset: nat, area: Rect, ty: nat, tileH: nat, jpegs: Waiting,
                     ghost hidden: Mask, ghost read: TightReader, ghost drawn: Option<Progress>, ghost late: Waiting,
                     ghost marked: seq<Rect>)
      returns (end: Option<nat>, waiting: Waiting, ghost mask: Mask)
      requires fb.Valid() && read == ReaderFor(codec)
      requires Running(read, data, fb.Screen(), area, Some(offset), area.x0, ty, streams, fb.pic, jpegs, hidden, drawn)
      requires Listing(read, data, Some(offset), TilesFrom(area.x0, ty, area), streams, jpegs, fb.dirty, late, marked)
      requires ty < area.y1 && tileH == Min(TILE, area.y1 - ty)
      modifies this, fb`pic, fb`dirty, fb.data
      ensures fb.Valid()
      ensures Running(read, data, fb.Screen(), area, end, area.x0, ty + TILE, streams, fb.pic, waiting, mask, drawn)
      ensures Listing(read, data, end, TilesFrom(area.x0, ty + TILE, area), streams, waiting, fb.dirty, late, marked)
    {
      hide DecodeOne, DrawTiles, Late, Marked;
      end, waiting, mask := Some(offset), jpegs, hidden;
      var tileX := area.x0;
      while tileX < area.x1 && end.Some?
        invariant fb.Valid()
        invariant Running(read, data, fb.Screen(), area, end, tileX, ty, streams, fb.pic, waiting, mask, drawn)
        invariant Listing(read, data, end, TilesFrom(tileX, ty, area), streams, waiting, fb.dirty, late, marked)
        decreases area.x1 - tileX
      {
        end, waiting, mask := DecodeNext(fb, data, end.value, area, tileX, ty, tileH, waiting, mask, read, drawn, late, marked);
        tileX := tileX + TILE;
      }
      RowEnds(read, data, fb.Screen(), tileX, ty, area, end, streams, fb.pic, waiting, mask, drawn);
    }

    /** The nested tile loops; JPEGs are collected, not drawn. */
    method DecodeTiles(fb: Framebuffer, data: seq<Byte>, area: Rect) returns (end: Option<nat>, waiting: Waiting, ghost mask: Mask)
      requires fb.Valid() && area.Within(fb.Screen())
      modifies this, fb`pic, fb`dirty, fb.data
      ensures fb.Valid() && (end.Some? ==> Masked(waiting, mask, fb.Screen()))
      ensures var drawn := DrawTiles(ReaderFor(codec), data, Tiles(area), Progress(0, old(streams), old(fb.pic), Nowhere()));
              Completes(drawn, end, streams, fb.pic, mask)
      ensures end.Some? ==> waiting == Late(ReaderFor(codec), data, Tiles(area), 0, old(streams))
                            && fb.dirty == old(fb.dirty) + Marked(ReaderFor(codec), data, Tiles(area), 0, old(streams))
    {
      hide DecodeOne, DrawTiles, Late, Marked;
      ghost var read := ReaderFor(codec);
      ghost var drawn := DrawTiles(read, data, Tiles(area), Progress(0, streams, fb.pic, Nowhere()));
      ghost var late := Late(read, data, Tiles(area), 0, streams);
      ghost var marked := fb.dirty + Marked(read, data, Tiles(area), 0, streams);
      assert [] + late == late;
      end, waiting, mask := DecodeRows(fb, data, area, read, drawn, late, marked);
    }

    /** The outer tile loop. */
    method DecodeRows(fb: Framebuffer, data: seq<Byte>, area: Rect, ghost read: TightReader, ghost drawn: Option<Progress>,
                      ghost late: Waiting, ghost marked: seq<Rect>)
      returns (end: Option<nat>, waiting: Waiting, ghost mask: Mask)
      requires fb.Valid() && area.Within(fb.Screen()) && read == ReaderFor(codec)
      requires Going(read, data, Some(0), Tiles(area), streams, fb.pic, Nowhere(), drawn)
      requires Listing(read, data, Some(0), Tiles(area), streams, [], fb.dirty, late, marked)
      modifies this, fb`pic, fb`dirty, fb.data
      ensures fb.Valid() && (end.Some? ==> Masked(waiting, mask, fb.Screen()))
      ensures Completes(drawn, end, streams, fb.pic, mask)
      ensures end.Some? ==> waiting == late && fb.dirty == marked
    {
      hide DecodeOne, DrawTiles, Late, Marked;
      end, waiting, mask := Some(0), [], Nowhere();
      var ty := area.y0;
      while ty < area.y1 && end.Some?
        invariant fb.Valid()
        invariant Running(read, data, fb.Screen(), area, end, area.x0, ty, streams, fb.pic, waiting, mask, drawn)
        invariant Listing(read, data, end, TilesFrom(area.x0, ty, area), streams, waiting, fb.dirty, late, marked)
        decreases area.y1 - ty
      {
        var tileH := Min(TILE, area.y1 - ty);
        end, waiting, mask := DecodeRow(fb, data, end.value, area, ty, tileH, waiting, mask, read, drawn, late, marked);
        ty := ty + TILE;
      }
      NothingAhead(read, data, ty, area, end, streams, fb.pic, mask, drawn);
      if end.Some? { AllListed(read, data, ty, area, end.value, streams, waiting, fb.dirty, late, marked); }
    }

    /** A rectangle: its tiles, and behind the last of them the JPEGs; a read that throws draws none of these. */
    method Decode(fb: Framebuffer, x: nat, y: nat, width: nat, height: nat, data: seq<Byte>, bitmap: Bitmap)
      returns (end: Option<nat>)
      requires fb.Valid() && fb.Inside(x, y, width, height) && DrawsWhole(bitmap)
      modifies this, fb`pic, fb`dirty, fb.data
      ensures fb.Valid()
      ensures var read, tiles := ReaderFor(codec), Tiles(Rect(x, y, x + width, y + height));
              var drawn, late := DrawTiles(read, data, tiles, Progress(0, old(streams), old(fb.pic), Nowhere())),
                                 Late(read, data, tiles, 0, old(streams));
              if drawn.None? then end.None?
              else && end == Some(drawn.value.offset) && streams == drawn.value.streams
                   && fb.pic == WithBitmaps(drawn.value.view, late, bitmap)
                   && fb.dirty == old(fb.dirty) + Marked(read, data, tiles, 0, old(streams)) + BitmapPlaces(late, bitmap)
    {
      hide DrawTiles, DecodeOne, Late, Marked, WithBitmaps, BitmapPlaces;
      var waiting;
      ghost var mask;
      end, waiting, mask := DecodeTiles(fb, data, Rect(x, y, x + width, y + height));
      if end.Some? { DrawJpegs(fb, waiting, bitmap, mask); }
    }

    /** The JPEGs that decode are drawn once all tiles are read; one that fails leaves its tile as it is. */
    method DrawJpegs(fb: Framebuffer, waiting: Waiting, bitmap: Bitmap, ghost mask: Mask)
      requires fb.Valid() && DrawsWhole(bitmap) && Masked(waiting, mask, fb.Screen())
      modifies fb`pic, fb`dirty, fb.data
      ensures fb.Valid()
      ensures fb.pic == WithBitmaps(old(fb.pic), waiting, bitmap)
      ensures fb.dirty == old(fb.dirty) + BitmapPlaces(waiting, bitmap)
      ensures Apart(waiting) ==>
                forall k, x: int, y: int :: 0 <= k < |waiting| && waiting[k].place.Contains(x, y) ==>
                  fb.pic(x, y) == JpegPixel(waiting[k], bitmap, old(fb.pic)(x, y), x, y)
    {
      hide WithBitmaps, BitmapPlaces, Hides;
      ghost var before, marked := fb.pic, fb.dirty + BitmapPlaces(waiting, bitmap);
      assert waiting[0..] == waiting;
      for k := 0 to |waiting|
        invariant fb.Valid()
        invariant WithBitmaps(fb.pic, waiting[k..], bitmap) == WithBitmaps(before, waiting, bitmap)
        invariant fb.dirty + BitmapPlaces(waiting[k..], bitmap) == marked
      {
        assert Hides(mask, waiting[k].place, fb.Screen());
        NextBitmap(fb.pic, waiting, k, bitmap, fb.dirty);
        DrawJpeg(fb, waiting[k], bitmap, mask);
      }
      assert waiting[|waiting|..] == [] && fb.dirty + [] == fb.dirty;
      NoneWaits(fb.pic, bitmap);
      forall k, x: int, y: int | Apart(waiting) && 0 <= k < |waiting| && waiting[k].place.Contains(x, y)
        ensures WithBitmaps(before, waiting, bitmap)(x, y) == JpegPixel(waiting[k], bitmap, before(x, y), x, y)
      {
        OwnBitmap(before, waiting, bitmap, k, x, y);
      }
    }

    /** One JPEG, if it decodes. */
    method DrawJpeg(fb: Framebuffer, late: Deferred, bitmap: Bitmap, ghost mask: Mask)
      requires fb.Valid() && DrawsWhole(bitmap) && Hides(mask, late.place, fb.Screen())
      modifies fb`pic, fb`dirty, fb.data
      ensures fb.Valid() && fb.pic == WithBitmap(old(fb.pic), late, bitmap)
      ensures fb.dirty == old(fb.dirty) + if ImageOf(late, bitmap).Some? then [late.place] else []
    {
      ghost var before := fb.pic;
      var tile := late.place;
      var image := bitmap(late.bytes, tile.Width(), tile.Height());
      if image.Some? {
        fb.WriteRect(tile.x0, tile.y0, tile.Width(), tile.Height(), image.value);
        fb.pic := WithBitmap(before, late, bitmap);
      }
    }
  }

  lemma {:induction false} NoneWaits(v: View, bitmap: Bitmap)
    ensures WithBitmaps(v, [], bitmap) == v && BitmapPlaces([], bitmap) == []
  {
  }

  lemma {:induction false} NextBitmap(v: View, waiting: Waiting, k: nat, bitmap: Bitmap, dirty: seq<Rect>)
    requires k < |waiting|
    ensures WithBitmaps(v, waiting[k..], bitmap) == WithBitmaps(WithBitmap(v, waiting[k], bitmap), waiting[k + 1..], bitmap)
    ensures dirty + BitmapPlaces(waiting[k..], bitmap)
         == dirty + (if ImageOf(waiting[k], bitmap).Some? then [waiting[k].place] else []) + BitmapPlaces(waiting[k + 1..], bitmap)
  {
    assert waiting[k..][0] == waiting[k] && waiting[k..][1..] == waiting[k + 1..];
  }

  ghost function Nowhere(): Mask {
    (x, y) => false
  }

  /** Reading the tiles still to come completes the rectangle. */
  ghost predicate Going(
    read: TightReader, data: seq<Byte>, end: Option<nat>, tiles: seq<Rect>, streams: Inflaters, pic: View, mask: Mask,
    drawn: Option<Progress>)
  {
    if end.None? then drawn.None? else DrawTiles(read, data, tiles, Progress(end.value, streams, pic, mask)) == drawn
  }

  /** Between two tiles: reading the tiles from (tx, ty) on completes the rectangle. */
  ghost predicate Running(
    read: TightReader, data: seq<Byte>, screen: Rect, area: Rect, end: Option<nat>, tx: int, ty: int, streams: Inflaters,
    pic: View, waiting: Waiting, mask: Mask, drawn: Option<Progress>)
  {
    && area.Within(screen) && area.x0 <= tx && area.y0 <= ty
    && (end.Some? ==> Masked(waiting, mask, screen))
    && Going(read, data, end, TilesFrom(tx, ty, area), streams, pic, mask, drawn)
  }

  /** Every tile was read, and this is the state behind the last. */
  ghost predicate Completes(drawn: Option<Progress>, end: Option<nat>, streams: Inflaters, pic: View, mask: Mask) {
    if drawn.None? then end.None? else end.Some? && drawn.value == Progress(end.value, streams, pic, mask)
  }

  lemma {:induction false} RowEnds(
    read: TightReader, data: seq<Byte>, screen: Rect, tx: int, ty: int, area: Rect, end: Option<nat>, streams: Inflaters,
    pic: View, waiting: Waiting, mask: Mask, drawn: Option<Progress>)
    requires Running(read, data, screen, area, end, tx, ty, streams, pic, waiting, mask, drawn)
    requires ty < area.y1 && (end.Some? ==> tx >= area.x1)
    ensures Running(read, data, screen, area, end, area.x0, ty + TILE, streams, pic, waiting, mask, drawn)
  {
  }

  /** The outcome of reading one tile. */
  ghost predicate Taken(
    d: Option<Decoded>, p: Progress, tile: Rect, end: Option<nat>, streams: Inflaters, pic: View, mask: Mask)
  {
    if d.None? then end.None? else end.Some? && Progress(end.value, streams, pic, mask) == After(p, tile, d.value)
  }

  lemma {:induction false} GoingOn(
    read: TightReader, data: seq<Byte>, tx: nat, ty: nat, area: Rect, p: Progress, drawn: Option<Progress>,
    end: Option<nat>, streams: Inflaters, pic: View, mask: Mask)
    requires tx < area.x1 && ty < area.y1
    requires Going(read, data, Some(p.offset), TilesFrom(tx, ty, area), p.streams, p.view, p.hidden, drawn)
    requires Taken(read(data, p.offset, p.streams), p, TileAt(tx, ty, area), end, streams, pic, mask)
    ensures Going(read, data, end, TilesFrom(tx + TILE, ty, area), streams, pic, mask, drawn)
  {
    TilesHead(tx, ty, area);
    DrawFirst(read, data, TilesFrom(tx, ty, area), p);
  }

  lemma {:induction false} NothingAhead(
    read: TightReader, data: seq<Byte>, ty: int, area: Rect, end: Option<nat>, streams: Inflaters, pic: View, mask: Mask,
    drawn: Option<Progress>)
    requires Going(read, data, end, TilesFrom(area.x0, ty, area), streams, pic, mask, drawn)
    requires end.Some? ==> ty >= area.y1
    ensures Completes(drawn, end, streams, pic, mask)
  {
  }

  /** With the tiles still to come the lists are complete. */
  ghost predicate Listing(
    read: TightReader, data: seq<Byte>, end: Option<nat>, tiles: seq<Rect>, streams: Inflaters, waiting: Waiting,
    dirty: seq<Rect>, late: Waiting, marked: seq<Rect>)
  {
    end.Some? ==>
      && waiting + Late(read, data, tiles, end.value, streams) == late
      && dirty + Marked(read, data, tiles, end.value, streams) == marked
  }

  lemma {:induction false} ListingOn(
    read: TightReader, data: seq<Byte>, tx: nat, ty: nat, area: Rect, offset: nat, streams: Inflaters, jpegs: Waiting,
    dirty: seq<Rect>, late: Waiting, marked: seq<Rect>)
    requires tx < area.x1 && ty < area.y1 && read(data, offset, streams).Some?
    requires Listing(read, data, Some(offset), TilesFrom(tx, ty, area), streams, jpegs, dirty, late, marked)
    ensures var d, tile := read(data, offset, streams).value, TileAt(tx, ty, area);
            Listing(read, data, Some(d.end), TilesFrom(tx + TILE, ty, area), d.streams, jpegs + LateOf(tile, d.effect),
                    dirty + MarkedBy(tile, d.effect), late, marked)
  {
    hide Late, Marked, TilesFrom;
    TilesHead(tx, ty, area);
    ListFirst(read, data, TilesFrom(tx, ty, area), offset, streams);
    var d, tile, rest := read(data, offset, streams).value, TileAt(tx, ty, area), TilesFrom(tx + TILE, ty, area);
    Regroup(jpegs, LateOf(tile, d.effect), Late(read, data, rest, d.end, d.streams));
    Regroup(dirty, MarkedBy(tile, d.effect), Marked(read, data, rest, d.end, d.streams));
  }

  lemma {:induction false} Regroup<T>(a: seq<T>, b: seq<T>, c: seq<T>)
    ensures (a + b) + c == a + (b + c)
  {
  }

  lemma {:induction false} AllListed(
    read: TightReader, data: seq<Byte>, ty: int, area: Rect, end: nat, streams: Inflaters, waiting: Waiting, dirty: seq<Rect>,
    late: Waiting, marked: seq<Rect>)
    requires Listing(read, data, Some(end), TilesFrom(area.x0, ty, area), streams, waiting, dirty, late, marked)
    requires ty >= area.y1
    ensures waiting == late && dirty == marked
  {
    assert waiting + [] == waiting && dirty + [] == dirty;
  }
}

/** The browser's ZRLE decoder (web/src/encodings/zrle.ts). */
module ZrleDecoders {
  import opened Bytes
  import opened Streams
  import opened Grid
  import opened Framebuffers
  import opened Colours
  import opened PackedIndices
  import opened Runs
  import opened ZrleTiles
  import Zlib

  method DecodeRawRow(fb: Framebuffer, data: seq<Byte>, offset: nat, tileX: nat, tileY: nat, tileW: nat, row: nat,
                      ghost o: nat)
    returns (end: nat)
    requires fb.Valid() && tileX + tileW <= fb.width && tileY + row < fb.height && offset == o + 3 * At(row, tileW)
    modifies fb`pic, fb.data
    ensures fb.Valid() && end == o + 3 * At(row + 1, tileW)
    ensures Painted(fb.pic, old(fb.pic), Rect(tileX, tileY + row, tileX + tileW, tileY + row + 1),
                    Placed(RawView(data, o, tileW), tileX, tileY))
  {
    end := offset;
    for col := 0 to tileW
      invariant fb.Valid() && end == offset + 3 * col
      invariant Painted(fb.pic, old(fb.pic), Rect(tileX, tileY + row, tileX + col, tileY + row + 1),
                        Placed(RawView(data, o, tileW), tileX, tileY))
    {
      var b := Get(data, end);
      var g := Get(data, end + 1);
      var r := Get(data, end + 2);
      end := end + 3;
      assert RawView(data, o, tileW)(col, row) == Bgr(b, g, r);
      PlacedAt(RawView(data, o, tileW), tileX, tileY, col, row);
      fb.AddPixel(tileX + col, tileY + row, r, g, b, tileX, Placed(RawView(data, o, tileW), tileX, tileY), old(fb.pic));
    }
  }

  method DecodeRawTile(fb: Framebuffer, data: seq<Byte>, offset: nat, tileX: nat, tileY: nat, tileW: nat, tileH: nat)
    returns (end: nat)
    requires fb.Valid() && fb.Inside(tileX, tileY, tileW, tileH)
    modifies fb`pic, fb.data
    ensures fb.Valid() && end == RawTile(data, offset, tileW, tileH).end
    ensures Painted(fb.pic, old(fb.pic), Rect(tileX, tileY, tileX + tileW, tileY + tileH),
                    Placed(RawTile(data, offset, tileW, tileH).view, tileX, tileY))
  {
    end := offset;
    ghost var content := Placed(RawView(data, offset, tileW), tileX, tileY);
    for row := 0 to tileH
      invariant fb.Valid() && end == offset + 3 * At(row, tileW)
      invariant Painted(fb.pic, old(fb.pic), Rect(tileX, tileY, tileX + tileW, tileY + row), content)
    {
      ghost var painted := fb.pic;
      end := DecodeRawRow(fb, data, end, tileX, tileY, tileW, row, offset);
      NextRow(fb.pic, painted, old(fb.pic), Rect(tileX, tileY, tileX + tileW, tileY + tileH), tileY + row, content);
    }
  }

  method FillSolidRow(fb: Framebuffer, colour: Bgr, tileX: nat, tileY: nat, tileW: nat, row: nat)
    requires fb.Valid() && tileX + tileW <= fb.width && tileY + row < fb.height
    modifies fb`pic, fb.data
    ensures fb.Valid()
    ensures Painted(fb.pic, old(fb.pic), Rect(tileX, tileY + row, tileX + tileW, tileY + row + 1),
                    Placed(SolidView(colour), tileX, tileY))
  {
    for col := 0 to tileW
      invariant fb.Valid()
      invariant Painted(fb.pic, old(fb.pic), Rect(tileX, tileY + row, tileX + col, tileY + row + 1),
                        Placed(SolidView(colour), tileX, tileY))
    {
      PlacedAt(SolidView(colour), tileX, tileY, col, row);
      fb.AddPixel(tileX + col, tileY + row, colour.r, colour.g, colour.b, tileX,
                  Placed(SolidView(colour), tileX, tileY), old(fb.pic));
    }
  }

  method DecodeSolidTile(fb: Framebuffer, data: seq<Byte>, offset: nat, tileX: nat, tileY: nat, tileW: nat, tileH: nat)
    returns (end: nat)
    requires fb.Valid() && fb.Inside(tileX, tileY, tileW, tileH)
    modifies fb`pic, fb.data
    ensures fb.Valid() && end == SolidTile(data, offset).end
    ensures Painted(fb.pic, old(fb.pic), Rect(tileX, tileY, tileX + tileW, tileY + tileH),
                    Placed(SolidTile(data, offset).view, tileX, tileY))
  {
    var b := Get(data, offset);
    var g := Get(data, offset + 1);
    var r := Get(data, offset + 2);
    end := offset + 3;
    ghost var content := Placed(SolidView(Bgr(b, g, r)), tileX, tileY);
    for row := 0 to tileH
      invariant fb.Valid()
      invariant Painted(fb.pic, old(fb.pic), Rect(tileX, tileY, tileX + tileW, tileY + row), content)
    {
      ghost var painted := fb.pic;
      FillSolidRow(fb, Bgr(b, g, r), tileX, tileY, tileW, row);
      NextRow(fb.pic, painted, old(fb.pic), Rect(tileX, tileY, tileX + tileW, tileY + tileH), tileY + row, content);
    }
  }

  method ReadPalette(data: seq<Byte>, offset: nat, size: nat) returns (palette: seq<Bgr>, end: nat)
    ensures end == offset + 3 * size && |palette| == size
    ensures forall i: nat :: i < size ==> palette[i] == ColourAt(data, offset + 3 * i)
  {
    palette, end := [], offset;
    for i := 0 to size
      invariant end == offset + 3 * i && |palette| == i
      invariant forall k: nat :: k < i ==> palette[k] == ColourAt(data, offset + 3 * k)
    {
      var b := Get(data, end);
      var g := Get(data, end + 1);
      var r := Get(data, end + 2);
      end := end + 3;
      palette := palette + [Bgr(b, g, r)];
    }
  }

  /** `palette[index] || [0, 0, 0]`. */
  function Lookup(palette: seq<Bgr>, index: nat): Bgr {
    if index < |palette| then palette[index] else BLACK
  }

  /** The bits not yet used of the current byte, when the next index is that of column `col`. */
  ghost predicate Reading(
    data: seq<Byte>, row: nat, end: nat, currentByte: nat, bitsRemaining: nat, bits: nat, col: nat)
    requires IsWidth(bits)
  {
    && bitsRemaining < 8 && 8 * end == 8 * row + BitPos(col, bits) + bitsRemaining
    && (bitsRemaining > 0 ==> end > row && currentByte == Get(data, end - 1))
  }

  lemma {:induction false} BitsLeft(row: nat, end: nat, remaining: nat, bits: nat, col: nat)
    requires IsWidth(bits) && 8 * end == 8 * row + BitPos(col, bits) + remaining && remaining <= 8
    ensures remaining == 0 ==> BitPos(col, bits) % 8 == 0
    ensures remaining > 0 ==> end == row + BitPos(col, bits) / 8 + 1 && remaining == ShiftOf(col, bits) + bits
    ensures BitPos(col + 1, bits) == BitPos(col, bits) + bits
  {
  }

  /** One turn of the column loop: a new byte when the last one is used up, then the next bits from the top. */
  method TakeIndex(data: seq<Byte>, offset: nat, currentByte: nat, bitsRemaining: nat, bits: nat, ghost row: nat,
                   ghost col: nat)
    returns (idx: nat, end: nat, byte: nat, remaining: nat)
    requires IsWidth(bits) && Reading(data, row, offset, currentByte, bitsRemaining, bits, col)
    ensures idx == IndexAt(data, row, bits, col) && Reading(data, row, end, byte, remaining, bits, col + 1)
  {
    hide Field;
    end, byte, remaining := offset, currentByte, bitsRemaining;
    if remaining == 0 {
      byte := Get(data, end);
      end := end + 1;
      remaining := 8;
    }
    BitsLeft(row, end, remaining, bits, col);
    assert byte == Get(data, row + BitPos(col, bits) / 8);
    remaining := remaining - bits;
    idx := Field(byte, remaining, bits);
  }

  /** A colour of the row goes to the next pixel. */
  method PaintIndex(fb: Framebuffer, palette: seq<Bgr>, idx: nat, tileX: nat, tileY: nat, col: nat, row: nat,
                    ghost view: TileView, ghost before: View)
    requires fb.Valid() && tileX + col < fb.width && tileY + row < fb.height && view(col, row) == Lookup(palette, idx)
    requires Painted(fb.pic, before, Rect(tileX, tileY + row, tileX + col, tileY + row + 1), Placed(view, tileX, tileY))
    modifies fb`pic, fb.data
    ensures fb.Valid()
    ensures Painted(fb.pic, before, Rect(tileX, tileY + row, tileX + col + 1, tileY + row + 1), Placed(view, tileX, tileY))
  {
    var colour := Lookup(palette, idx);
    PlacedAt(view, tileX, tileY, col, row);
    fb.AddPixel(tileX + col, tileY + row, colour.r, colour.g, colour.b, tileX, Placed(view, tileX, tileY), before);
  }

  /** One row of indices, starting with a new byte. */
  method DecodePackedRow(fb: Framebuffer, data: seq<Byte>, offset: nat, tileX: nat, tileY: nat, tileW: nat, row: nat,
                         palette: seq<Bgr>, bits: nat, ghost at: nat)
    returns (end: nat)
    requires fb.Valid() && tileX + tileW <= fb.width && tileY + row < fb.height && bits == WidthFor(|palette|)
    requires offset == at + 3 * |palette| + At(row, RowBytes(tileW, bits))
    requires forall i: nat :: i < |palette| ==> palette[i] == ColourAt(data, at + 3 * i)
    modifies fb`pic, fb.data
    ensures fb.Valid() && end == offset + RowBytes(tileW, bits)
    ensures Painted(fb.pic, old(fb.pic), Rect(tileX, tileY + row, tileX + tileW, tileY + row + 1),
                    Placed(IndexView(IndexReader(bits), data, at, RowBytes(tileW, bits), |palette|), tileX, tileY))
  {
    end := offset;
    var currentByte, bitsRemaining := 0, 0;
    ghost var view := IndexView(IndexReader(bits), data, at, RowBytes(tileW, bits), |palette|);
    for col := 0 to tileW
      invariant fb.Valid()
      invariant Reading(data, offset, end, currentByte, bitsRemaining, bits, col)
      invariant Painted(fb.pic, old(fb.pic), Rect(tileX, tileY + row, tileX + col, tileY + row + 1), Placed(view, tileX, tileY))
    {
      var idx;
      idx, end, currentByte, bitsRemaining := TakeIndex(data, end, currentByte, bitsRemaining, bits, offset, col);
      assert view(col, row) == Lookup(palette, idx) by {
        PaletteIndex(IndexReader(bits), data, at, RowBytes(tileW, bits), palette, col, row);
      }
      PaintIndex(fb, palette, idx, tileX, tileY, col, row, view, old(fb.pic));
    }
  }

  lemma {:induction false} PaletteIndex(read: IndexRead, data: seq<Byte>, at: nat, size: nat, palette: seq<Bgr>, c: nat, r: nat)
    requires forall i: nat :: i < |palette| ==> palette[i] == ColourAt(data, at + 3 * i)
    ensures IndexView(read, data, at, size, |palette|)(c, r)
            == Lookup(palette, read(data, at + 3 * |palette| + At(r, size), c))
  {
  }

  method DecodePackedPalette(fb: Framebuffer, data: seq<Byte>, offset: nat, tileX: nat, tileY: nat, tileW: nat, tileH: nat,
                             paletteSize: nat)
    returns (end: nat)
    requires fb.Valid() && fb.Inside(tileX, tileY, tileW, tileH)
    modifies fb`pic, fb.data
    ensures fb.Valid() && end == PackedTile(data, offset, tileW, tileH, paletteSize).end
    ensures Painted(fb.pic, old(fb.pic), Rect(tileX, tileY, tileX + tileW, tileY + tileH),
                    Placed(PackedTile(data, offset, tileW, tileH, paletteSize).view, tileX, tileY))
  {
    var palette;
    palette, end := ReadPalette(data, offset, paletteSize);
    var bitsPerIndex := if paletteSize == 2 then 1 else if paletteSize <= 4 then 2 else 4;
    ghost var rows, content := end, Placed(PackedTile(data, offset, tileW, tileH, paletteSize).view, tileX, tileY);
    for row := 0 to tileH
      invariant fb.Valid() && end == rows + At(row, RowBytes(tileW, bitsPerIndex))
      invariant Painted(fb.pic, old(fb.pic), Rect(tileX, tileY, tileX + tileW, tileY + row), content)
    {
      ghost var painted := fb.pic;
      end := DecodePackedRow(fb, data, end, tileX, tileY, tileW, row, palette, bitsPerIndex, offset);
      NextRow(fb.pic, painted, old(fb.pic), Rect(tileX, tileY, tileX + tileW, tileY + tileH), tileY + row, content);
    }
  }

  /** The pixels `lo` to `hi` of the tile, counted row by row, show the view; the others are unchanged. */
  ghost predicate Filled(after: View, before: View, tile: Rect, lo: nat, hi: nat, view: TileView) {
    forall x: int, y: int :: after(x, y) ==
      if tile.Contains(x, y) && lo <= At(y - tile.y0, tile.Width()) + x - tile.x0 < hi
      then Placed(view, tile.x0, tile.y0)(x, y)
      else before(x, y)
  }

  /** No two pixels of a row-major order share an index. */
  lemma {:induction false} OnePlace(c: nat, r: nat, d: nat, s: nat, w: nat)
    requires c < w && d < w && At(r, w) + c == At(s, w) + d
    ensures c == d && r == s
  {
    if r < s { AtGrows(r, s, w); }
    if s < r { AtGrows(s, r, w); }
  }

  /** The pixel with index `n` is in column n mod w of row n div w. */
  lemma {:induction false} PlaceOf(n: nat, w: nat, h: nat)
    requires n < At(h, w)
    ensures w > 0 && n % w < w && n / w < h && At(n / w, w) + n % w == n
  {
    AtIsProduct(h, w);
    if w > 0 {
      AtIsProduct(n / w, w);
      assert n == n / w * w + n % w;
      if n / w > h { AtGrows(h, n / w, w); }
    }
  }

  lemma {:induction false} FillOne(
    later: View, after: View, before: View, tile: Rect, lo: nat, n: nat, view: TileView, c: nat, r: nat)
    requires Filled(after, before, tile, lo, n, view) && lo <= n
    requires c < tile.Width() && r < tile.Height() && n == At(r, tile.Width()) + c
    requires Painted(later, after, Rect(tile.x0 + c, tile.y0 + r, tile.x0 + c + 1, tile.y0 + r + 1), Plain(view(c, r).Opaque()))
    ensures Filled(later, before, tile, lo, n + 1, view)
  {
    var w := tile.Width();
    forall x: int, y: int
      ensures later(x, y) ==
        if tile.Contains(x, y) && lo <= At(y - tile.y0, w) + x - tile.x0 < n + 1
        then Placed(view, tile.x0, tile.y0)(x, y)
        else before(x, y)
    {
      if tile.Contains(x, y) && At(y - tile.y0, w) + x - tile.x0 == n { OnePlace(c, r, x - tile.x0, y - tile.y0, w); }
      PlacedAt(view, tile.x0, tile.y0, c, r);
    }
  }

  /** Sets the pixel with index `n`. */
  method FillPixel(fb: Framebuffer, colour: Bgr, n: nat, tileX: nat, tileY: nat, tileW: nat, tileH: nat,
                   ghost lo: nat, ghost before: View)
    requires fb.Valid() && fb.Inside(tileX, tileY, tileW, tileH) && lo <= n < At(tileH, tileW)
    requires Filled(fb.pic, before, Rect(tileX, tileY, tileX + tileW, tileY + tileH), lo, n, SolidView(colour))
    modifies fb`pic, fb.data
    ensures fb.Valid()
    ensures Filled(fb.pic, before, Rect(tileX, tileY, tileX + tileW, tileY + tileH), lo, n + 1, SolidView(colour))
  {
    PlaceOf(n, tileW, tileH);
    var px, py := n % tileW, n / tileW;
    ghost var painted := fb.pic;
    fb.SetPixel(tileX + px, tileY + py, colour.r, colour.g, colour.b, 255);
    FillOne(fb.pic, painted, before, Rect(tileX, tileY, tileX + tileW, tileY + tileH), lo, n, SolidView(colour), px, py);
  }

  /** Draws a run pixel by pixel; it ends early when the tile is full. */
  method FillRun(fb: Framebuffer, colour: Bgr, runLength: nat, pixelsDone: nat, numPixels: nat,
                 tileX: nat, tileY: nat, tileW: nat, tileH: nat)
    returns (done: nat)
    requires fb.Valid() && fb.Inside(tileX, tileY, tileW, tileH) && pixelsDone <= numPixels == At(tileH, tileW)
    modifies fb`pic, fb.data
    ensures fb.Valid() && done == pixelsDone + Least(runLength, numPixels - pixelsDone)
    ensures Filled(fb.pic, old(fb.pic), Rect(tileX, tileY, tileX + tileW, tileY + tileH), pixelsDone, done, SolidView(colour))
  {
    done := pixelsDone;
    var i := 0;
    while i < runLength && done < numPixels
      invariant fb.Valid() && i <= runLength && done == pixelsDone + i <= numPixels
      invariant Filled(fb.pic, old(fb.pic), Rect(tileX, tileY, tileX + tileW, tileY + tileH), pixelsDone, done,
                       SolidView(colour))
      decreases runLength - i
    {
      FillPixel(fb, colour, done, tileX, tileY, tileW, tileH, pixelsDone, old(fb.pic));
      i := i + 1;
      done := done + 1;
    }
  }

  /** A run of one colour continues a list of pixels. */
  lemma {:induction false} FillMore(
    later: View, after: View, before: View, tile: Rect, done: nat, next: nat, colour: Bgr, px: seq<Bgr>)
    requires Filled(after, before, tile, 0, done, ListView(px, tile.Width()))
    requires Filled(later, after, tile, done, next, SolidView(colour)) && done <= next <= |px|
    requires forall k :: done <= k < next ==> px[k] == colour
    ensures Filled(later, before, tile, 0, next, ListView(px, tile.Width()))
  {
  }

  /** All pixels of the tile are done. */
  lemma {:induction false} FilledIsPainted(after: View, before: View, tile: Rect, view: TileView)
    requires Filled(after, before, tile, 0, At(tile.Height(), tile.Width()), view)
    ensures Painted(after, before, tile, Placed(view, tile.x0, tile.y0))
  {
    forall x: int, y: int | tile.Contains(x, y)
      ensures At(y - tile.y0, tile.Width()) + x - tile.x0 < At(tile.Height(), tile.Width())
    {
      AtGrows(y - tile.y0, tile.Height(), tile.Width());
    }
  }

  /** Adds up length bytes until one is not 255; a run is one longer than their sum. */
  method ReadRunLength(data: seq<Byte>, offset: nat) returns (r: Option<(nat, nat)>)
    ensures r == RunLength(data, offset)
  {
    var runLength, end := 1, offset;
    while end < |data|
      invariant RunLength(data, offset) ==
        if RunLength(data, end).None? then None
        else Some((runLength - 1 + RunLength(data, end).value.0, RunLength(data, end).value.1))
      decreases |data| - end
    {
      var runByte := data[end];
      end := end + 1;
      runLength := runLength + runByte;
      if runByte != 255 { return Some((runLength, end)); }
    }
    return None;
  }

  /** What is still to be read is the rest of the whole, and what was read is on the screen. */
  ghost predicate Reached(
    all: Option<(nat, seq<Bgr>)>, rest: Option<(nat, seq<Bgr>)>, done: nat, after: View, before: View, tile: Rect)
  {
    && (all.Some? <==> rest.Some?)
    && (all.Some? ==>
          && done <= |all.value.1|
          && rest.value == (all.value.0, all.value.1[done..])
          && Filled(after, before, tile, 0, done, ListView(all.value.1, tile.Width())))
  }

  lemma {:induction false} ReachMore(
    all: Option<(nat, seq<Bgr>)>, rest: Option<(nat, seq<Bgr>)>, rest': Option<(nat, seq<Bgr>)>, done: nat, next: nat,
    later: View, after: View, before: View, tile: Rect, colour: Bgr)
    requires Reached(all, rest, done, after, before, tile) && done <= next
    requires Filled(later, after, tile, done, next, SolidView(colour))
    requires rest == if rest'.None? then None else Some((rest'.value.0, Times(colour, next - done) + rest'.value.1))
    ensures Reached(all, rest', next, later, before, tile)
  {
    if all.Some? {
      var px := all.value.1;
      assert px[done..] == Times(colour, next - done) + rest'.value.1;
      assert px[next..] == px[done..][next - done..];
      forall k | done <= k < next ensures px[k] == colour {
        assert px[k] == px[done..][k - done];
      }
      FillMore(later, after, before, tile, done, next, colour, px);
    }
  }

  /** Between two runs: behind a run without end nothing more is drawn. */
  ghost predicate Running(
    all: Option<(nat, seq<Bgr>)>, r: Option<nat>, rest: Option<(nat, seq<Bgr>)>, done: nat, after: View, before: View, tile: Rect)
  {
    if r.None? then all.None? else Reached(all, rest, done, after, before, tile)
  }

  /** All pixels are done, or the runs never end. */
  lemma {:induction false} RunsDrawn(
    all: Option<(nat, seq<Bgr>)>, r: Option<nat>, rest: Option<(nat, seq<Bgr>)>, done: nat, after: View, before: View, tile: Rect)
    requires Running(all, r, rest, done, after, before, tile)
    requires r.Some? ==> rest == Some((r.value, [])) && done == At(tile.Height(), tile.Width())
    ensures var decoded := RunTile(all, tile.Width());
            if decoded.None? then r.None?
            else r == Some(decoded.value.end)
                 && Painted(after, before, tile, Placed(decoded.value.view, tile.x0, tile.y0))
  {
    if r.Some? { FilledIsPainted(after, before, tile, ListView(all.value.1, tile.Width())); }
  }

  /** One turn of the plain loop: a colour and its run. */
  method DrawPlainRun(fb: Framebuffer, data: seq<Byte>, end: nat, pixelsDone: nat, numPixels: nat,
                      tileX: nat, tileY: nat, tileW: nat, tileH: nat)
    returns (next: Option<nat>, done: nat)
    requires fb.Valid() && fb.Inside(tileX, tileY, tileW, tileH) && pixelsDone < numPixels == At(tileH, tileW)
    modifies fb`pic, fb.data
    ensures fb.Valid()
    ensures next.None? ==> PlainRuns(data, end, numPixels - pixelsDone).None?
    ensures next.Some? ==>
              && pixelsDone < done <= numPixels
              && Filled(fb.pic, old(fb.pic), Rect(tileX, tileY, tileX + tileW, tileY + tileH), pixelsDone, done,
                        SolidView(ColourAt(data, end)))
              && var rest := PlainRuns(data, next.value, numPixels - done);
                 PlainRuns(data, end, numPixels - pixelsDone) ==
                 if rest.None? then None
                 else Some((rest.value.0, Times(ColourAt(data, end), done - pixelsDone) + rest.value.1))
  {
    done := pixelsDone;
    var colour := ColourAt(data, end);
    var run := ReadRunLength(data, end + 3);
    if run.None? { return None, done; }
    RunLengthPositive(data, end + 3);
    done := FillRun(fb, colour, run.value.0, pixelsDone, numPixels, tileX, tileY, tileW, tileH);
    next := Some(run.value.1);
  }

  method DecodePlainRLE(fb: Framebuffer, data: seq<Byte>, offset: nat, tileX: nat, tileY: nat, tileW: nat, tileH: nat)
    returns (r: Option<nat>)
    requires fb.Valid() && fb.Inside(tileX, tileY, tileW, tileH)
    modifies fb`pic, fb.data
    ensures fb.Valid()
    ensures var tile := RunTile(PlainRuns(data, offset, At(tileH, tileW)), tileW);
            if tile.None? then r.None?
            else r == Some(tile.value.end)
                 && Painted(fb.pic, old(fb.pic), Rect(tileX, tileY, tileX + tileW, tileY + tileH),
                            Placed(tile.value.view, tileX, tileY))
  {
    AtIsProduct(tileH, tileW);
    var numPixels := tileW * tileH;
    var pixelsDone: nat := 0;
    ghost var tile, before := Rect(tileX, tileY, tileX + tileW, tileY + tileH), fb.pic;
    ghost var all := PlainRuns(data, offset, numPixels);
    hide PlainRuns;
    ghost var rest := all;
    PlainRunsSize(data, offset, numPixels);
    r := Some(offset);
    while pixelsDone < numPixels && r.Some?
      invariant fb.Valid() && pixelsDone <= numPixels == At(tileH, tileW)
      invariant r.Some? ==> rest == PlainRuns(data, r.value, numPixels - pixelsDone)
      invariant Running(all, r, rest, pixelsDone, fb.pic, before, tile)
      decreases numPixels - pixelsDone, r.Some?
    {
      ghost var colour, painted := ColourAt(data, r.value), fb.pic;
      var done;
      r, done := DrawPlainRun(fb, data, r.value, pixelsDone, numPixels, tileX, tileY, tileW, tileH);
      if r.Some? {
        ghost var later := PlainRuns(data, r.value, numPixels - done);
        ReachMore(all, rest, later, pixelsDone, done, fb.pic, painted, before, tile, colour);
        rest, pixelsDone := later, done;
      }
    }
    RunsDrawn(all, r, rest, pixelsDone, fb.pic, before, tile);
  }

  /** One turn of the palette loop: a single pixel, or a run. */
  method DrawIndexRun(fb: Framebuffer, data: seq<Byte>, end: nat, palette: seq<Bgr>, pixelsDone: nat, numPixels: nat,
                      tileX: nat, tileY: nat, tileW: nat, tileH: nat, ghost at: nat)
    returns (next: Option<nat>, done: nat, ghost colour: Bgr)
    requires fb.Valid() && fb.Inside(tileX, tileY, tileW, tileH) && pixelsDone < numPixels == At(tileH, tileW)
    requires forall i: nat :: i < |palette| ==> palette[i] == ColourAt(data, at + 3 * i)
    modifies fb`pic, fb.data
    ensures fb.Valid()
    ensures next.None? ==> PaletteRuns(data, at, |palette|, end, numPixels - pixelsDone).None?
    ensures next.Some? ==>
              && pixelsDone < done <= numPixels
              && Filled(fb.pic, old(fb.pic), Rect(tileX, tileY, tileX + tileW, tileY + tileH), pixelsDone, done, SolidView(colour))
              && var rest := PaletteRuns(data, at, |palette|, next.value, numPixels - done);
                 PaletteRuns(data, at, |palette|, end, numPixels - pixelsDone) ==
                 if rest.None? then None else Some((rest.value.0, Times(colour, done - pixelsDone) + rest.value.1))
  {
    done, colour := pixelsDone, BLACK;
    if end >= |data| { return None, done, colour; }
    var idx := data[end];
    var c := Lookup(palette, idx % 128);
    colour := c;
    assert c == PaletteEntry(data, at, |palette|, idx % 128);
    if idx < 128 {
      FillPixel(fb, c, pixelsDone, tileX, tileY, tileW, tileH, pixelsDone, fb.pic);
      assert Times(c, 1) == [c];
      return Some(end + 1), pixelsDone + 1, c;
    }
    var run := ReadRunLength(data, end + 1);
    if run.None? { return None, done, colour; }
    RunLengthPositive(data, end + 1);
    done := FillRun(fb, c, run.value.0, pixelsDone, numPixels, tileX, tileY, tileW, tileH);
    next := Some(run.value.1);
  }

  method DecodePaletteRLE(fb: Framebuffer, data: seq<Byte>, offset: nat, tileX: nat, tileY: nat, tileW: nat, tileH: nat,
                          paletteSize: nat)
    returns (r: Option<nat>)
    requires fb.Valid() && fb.Inside(tileX, tileY, tileW, tileH)
    modifies fb`pic, fb.data
    ensures fb.Valid()
    ensures var tile := RunTile(PaletteRuns(data, offset, paletteSize, offset + 3 * paletteSize, At(tileH, tileW)), tileW);
            if tile.None? then r.None?
            else r == Some(tile.value.end)
                 && Painted(fb.pic, old(fb.pic), Rect(tileX, tileY, tileX + tileW, tileY + tileH),
                            Placed(tile.value.view, tileX, tileY))
  {
    var palette, end := ReadPalette(data, offset, paletteSize);
    AtIsProduct(tileH, tileW);
    var numPixels := tileW * tileH;
    var pixelsDone: nat := 0;
    ghost var tile, before := Rect(tileX, tileY, tileX + tileW, tileY + tileH), fb.pic;
    ghost var all := PaletteRuns(data, offset, paletteSize, end, numPixels);
    hide PaletteRuns;
    ghost var rest := all;
    PaletteRunsSize(data, offset, paletteSize, end, numPixels);
    r := Some(end);
    while pixelsDone < numPixels && r.Some?
      invariant fb.Valid() && pixelsDone <= numPixels == At(tileH, tileW)
      invariant r.Some? ==> rest == PaletteRuns(data, offset, paletteSize, r.value, numPixels - pixelsDone)
      invariant Running(all, r, rest, pixelsDone, fb.pic, before, tile)
      decreases numPixels - pixelsDone, r.Some?
    {
      ghost var painted := fb.pic;
      var done;
      ghost var colour;
      r, done, colour := DrawIndexRun(fb, data, r.value, palette, pixelsDone, numPixels, tileX, tileY, tileW, tileH, offset);
      if r.Some? {
        ghost var later := PaletteRuns(data, offset, paletteSize, r.value, numPixels - done);
        ReachMore(all, rest, later, pixelsDone, done, fb.pic, painted, before, tile, colour);
        rest, pixelsDone := later, done;
      }
    }
    RunsDrawn(all, r, rest, pixelsDone, fb.pic, before, tile);
  }

  /** Any subtype that stands for nothing else is read as raw pixels. */
  method DecodeTile(fb: Framebuffer, data: seq<Byte>, offset: nat, tileX: nat, tileY: nat, tileW: nat, tileH: nat)
    returns (r: Option<nat>)
    requires fb.Valid() && fb.Inside(tileX, tileY, tileW, tileH)
    modifies fb`pic, fb.data
    ensures fb.Valid()
    ensures var tile := Tile(data, offset, tileW, tileH);
            if tile.None? then r.None?
            else r == Some(tile.value.end)
                 && Painted(fb.pic, old(fb.pic), Rect(tileX, tileY, tileX + tileW, tileY + tileH),
                            Placed(tile.value.view, tileX, tileY))
  {
    var subtype := Get(data, offset) as int;
    var end := offset + 1;
    if subtype == 1 {
      end := DecodeSolidTile(fb, data, end, tileX, tileY, tileW, tileH);
    } else if 2 <= subtype <= 16 {
      end := DecodePackedPalette(fb, data, end, tileX, tileY, tileW, tileH, subtype);
    } else if subtype == 128 {
      r := DecodePlainRLE(fb, data, end, tileX, tileY, tileW, tileH);
      return;
    } else if subtype >= 130 {
      r := DecodePaletteRLE(fb, data, end, tileX, tileY, tileW, tileH, subtype - 128);
      return;
    } else {
      end := DecodeRawTile(fb, data, end, tileX, tileY, tileW, tileH);
    }
    r := Some(end);
  }

  /** The picture in exactly the form the specification of a list of tiles has it. */
  method ReadTile(fb: Framebuffer, data: seq<Byte>, offset: nat, tileX: nat, tileY: nat, tileW: nat, tileH: nat,
                  ghost read: TileReader)
    returns (r: Option<nat>)
    requires fb.Valid() && fb.Inside(tileX, tileY, tileW, tileH) && read == ZrleReader()
    modifies fb`pic, fb.data
    ensures fb.Valid()
    ensures var tile := read(data, offset, tileW, tileH);
            if tile.None? then r.None?
            else r == Some(tile.value.end)
                 && fb.pic == Overlay(old(fb.pic), Rect(tileX, tileY, tileX + tileW, tileY + tileH),
                                      Placed(tile.value.view, tileX, tileY))
  {
    ghost var before := fb.pic;
    r := DecodeTile(fb, data, offset, tileX, tileY, tileW, tileH);
    if r.Some? {
      ghost var view := read(data, offset, tileW, tileH).value.view;
      fb.pic := Overlay(before, Rect(tileX, tileY, tileX + tileW, tileY + tileH), Placed(view, tileX, tileY));
    }
  }

  /** Drawing the tiles still to come completes the picture. */
  ghost predicate Going(plain: seq<Byte>, r: Option<nat>, tiles: seq<Rect>, pic: View, drawn: Option<(nat, View)>) {
    if r.None? then drawn.None? else DrawTiles(ZrleReader(), plain, r.value, tiles, pic) == drawn
  }

  lemma {:induction false} GoingOn(
    read: TileReader, plain: seq<Byte>, offset: nat, tx: nat, ty: nat, area: Rect, pic: View, drawn: Option<(nat, View)>,
    r: Option<nat>, after: View)
    requires tx < area.x1 && ty < area.y1 && read == ZrleReader()
    requires Going(plain, Some(offset), TilesFrom(tx, ty, area), pic, drawn)
    requires var tile := TileAt(tx, ty, area);
             var decoded := read(plain, offset, tile.Width(), tile.Height());
             if decoded.None? then r.None?
             else r == Some(decoded.value.end) && after == Overlay(pic, tile, Placed(decoded.value.view, tx, ty))
    ensures Going(plain, r, TilesFrom(tx + TILE, ty, area), after, drawn)
  {
    TilesHead(tx, ty, area);
    DrawFirst(read, plain, offset, TilesFrom(tx, ty, area), pic);
  }

  lemma {:induction false} NothingAhead(
    plain: seq<Byte>, r: Option<nat>, ty: int, area: Rect, pic: View, drawn: Option<(nat, View)>)
    requires Going(plain, r, TilesFrom(area.x0, ty, area), pic, drawn) && (r.Some? ==> ty >= area.y1)
    ensures if drawn.None? then r.None? else r == Some(drawn.value.0) && pic == drawn.value.1
  {
  }

  class ZrleDecoder {
    const reader: Zlib.Reader

    constructor (reader: Zlib.Reader)
      ensures this.reader == reader
    {
      this.reader := reader;
    }

    /** Inflates the rectangle's data and draws its tiles from the top left on; nothing is marked dirty. */
    method Decode(fb: Framebuffer, x: nat, y: nat, width: nat, height: nat, data: seq<Byte>) returns (r: Option<nat>)
      requires fb.Valid() && fb.Inside(x, y, width, height)
      requires |data| >= 4 && 4 + Be32At(data, 0) <= |data|
      modifies fb`pic, fb.data, reader
      ensures fb.Valid() && fb.dirty == old(fb.dirty)
      ensures var input := Zlib.Stripped(old(reader.firstPush), data[4..4 + Be32At(data, 0)]);
              var plain := Concat(reader.codec.inflate(old(reader.history), input));
              var drawn := DrawTiles(ZrleReader(), plain, 0, Tiles(Rect(x, y, x + width, y + height)), old(fb.pic));
              && reader.history == old(reader.history) + [input] && !reader.firstPush
              && if drawn.None? then r.None? else r == Some(drawn.value.0) && fb.pic == drawn.value.1
    {
      var compressedLen := Be32At(data, 0);
      var decompressed := reader.Decompress(data[4..4 + compressedLen]);
      r := DrawAll(fb, Rect(x, y, x + width, y + height), decompressed);
    }

    /** One turn of the inner tile loop. */
    method DrawNext(fb: Framebuffer, plain: seq<Byte>, offset: nat, tileX: nat, tileY: nat, tileH: nat, area: Rect,
                    ghost drawn: Option<(nat, View)>)
      returns (r: Option<nat>)
      requires fb.Valid() && area.x1 <= fb.width && area.y1 <= fb.height
      requires tileX < area.x1 && tileY < area.y1 && tileH == Min(TILE, area.y1 - tileY)
      requires Going(plain, Some(offset), TilesFrom(tileX, tileY, area), fb.pic, drawn)
      modifies fb`pic, fb.data
      ensures fb.Valid() && Going(plain, r, TilesFrom(tileX + TILE, tileY, area), fb.pic, drawn)
    {
      var tileW := Min(TILE, area.x1 - tileX);
      ghost var read, before := ZrleReader(), fb.pic;
      r := ReadTile(fb, plain, offset, tileX, tileY, tileW, tileH, read);
      GoingOn(read, plain, offset, tileX, tileY, area, before, drawn, r, fb.pic);
    }

    /** The inner tile loop: the tiles of one row of the grid, until one of them never ends. */
    method DrawRow(fb: Framebuffer, plain: seq<Byte>, start: nat, tileY: nat, tileH: nat, area: Rect,
                   ghost drawn: Option<(nat, View)>)
      returns (r: Option<nat>)
      requires fb.Valid() && 0 <= area.x0 && area.x1 <= fb.width && area.y1 <= fb.height
      requires tileY < area.y1 && tileH == Min(TILE, area.y1 - tileY)
      requires Going(plain, Some(start), TilesFrom(area.x0, tileY, area), fb.pic, drawn)
      modifies fb`pic, fb.data
      ensures fb.Valid() && Going(plain, r, TilesFrom(area.x0, tileY + TILE, area), fb.pic, drawn)
    {
      r := Some(start);
      var tileX := area.x0;
      while tileX < area.x1 && r.Some?
        invariant fb.Valid() && 0 <= tileX
        invariant Going(plain, r, TilesFrom(tileX, tileY, area), fb.pic, drawn)
        decreases area.x1 - tileX
      {
        r := DrawNext(fb, plain, r.value, tileX, tileY, tileH, area, drawn);
        tileX := tileX + TILE;
      }
    }

    /** The outer tile loop. */
    method DrawAll(fb: Framebuffer, area: Rect, plain: seq<Byte>) returns (r: Option<nat>)
      requires fb.Valid() && area.Within(Rect(0, 0, fb.width, fb.height))
      modifies fb`pic, fb.data
      ensures fb.Valid()
      ensures var drawn := DrawTiles(ZrleReader(), plain, 0, Tiles(area), old(fb.pic));
              if drawn.None? then r.None? else r == Some(drawn.value.0) && fb.pic == drawn.value.1
    {
      ghost var drawn := DrawTiles(ZrleReader(), plain, 0, Tiles(area), fb.pic);
      r := Some(0);
      var tileY := area.y0;
      while tileY < area.y1 && r.Some?
        invariant fb.Valid() && 0 <= tileY
        invariant Going(plain, r, TilesFrom(area.x0, tileY, area), fb.pic, drawn)
        decreases area.y1 - tileY
      {
        var tileH := Min(TILE, area.y1 - tileY);
        r := DrawRow(fb, plain, r.value, tileY, tileH, area, drawn);
        tileY := tileY + TILE;
      }
      NothingAhead(plain, r, tileY, area, fb.pic, drawn);
    }
  }
}

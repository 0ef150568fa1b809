/** Answering an update request with raw rectangles (rfb/server.go), and the browser drawing them. */
module Updates {
  import opened Bytes
  import opened Streams
  import opened Grid
  import opened FrameDiffs
  import opened PixelFormats
  import opened PixelConversion
  import opened Protocol
  import opened Framebuffers

  /** The dirty rectangles cut to the area, without those that miss it. */
  function Parts(dirty: seq<Rect>, area: Rect): seq<Rect> {
    if dirty == [] then []
    else
      var last := dirty[|dirty| - 1].Intersect(area);
      Parts(dirty[..|dirty| - 1], area) + (if last.Empty() then [] else [last])
  }

  function Regions(area: Rect, dirty: Option<seq<Rect>>): seq<Rect> {
    match dirty
    case None => [area]
    case Some(rects) => Parts(rects, area)
  }

  method EncodeRegions(area: Rect, dirtyRects: Option<seq<Rect>>) returns (regions: seq<Rect>)
    ensures regions == Regions(area, dirtyRects)
  {
    if dirtyRects.None? { return [area]; }
    var dirty := dirtyRects.value;
    regions := [];
    for i := 0 to |dirty|
      invariant regions == Parts(dirty[..i], area)
    {
      assert dirty[..i + 1][..i] == dirty[..i];
      var ix := dirty[i].Intersect(area);
      if !ix.Empty() { regions := regions + [ix]; }
    }
    assert dirty[..|dirty|] == dirty;
  }

  lemma {:induction false} PartsCover(dirty: seq<Rect>, area: Rect, x: int, y: int)
    ensures InSome(Parts(dirty, area), x, y) <==> area.Contains(x, y) && InSome(dirty, x, y)
    decreases |dirty|
  {
    if dirty != [] {
      var before, last := dirty[..|dirty| - 1], dirty[|dirty| - 1];
      var ix := last.Intersect(area);
      PartsCover(before, area, x, y);
      InSomeLast(Parts(before, area), ix, x, y);
      assert Parts(dirty, area) == if ix.Empty() then Parts(before, area) else Parts(before, area) + [ix];
      InSomeLast(before, last, x, y);
      assert before + [last] == dirty;
    }
  }

  /** Every region is cut from a dirty rectangle; tiles in row-major order without overlap give such regions. */
  lemma {:induction false} RegionsInOrder(area: Rect, dirty: seq<Rect>)
    requires Laid(dirty)
    ensures Laid(Regions(area, Some(dirty)))
    ensures forall k :: 0 <= k < |Regions(area, Some(dirty))| ==>
              exists i :: 0 <= i < |dirty| && CutFrom(dirty[i], area, Regions(area, Some(dirty))[k])
    decreases |dirty|
  {
    if dirty != [] {
      var n, parts := |dirty| - 1, Parts(dirty[..|dirty| - 1], area);
      var before, last := dirty[..n], dirty[n].Intersect(area);
      RegionsInOrder(area, before);
      if !last.Empty() { assert CutFrom(dirty[n], area, last); }
      forall k | 0 <= k < |parts|
        ensures exists i :: 0 <= i < |dirty| && CutFrom(dirty[i], area, parts[k])
        ensures !last.Empty() ==> Follows(parts[k], last)
      {
        var i :| 0 <= i < |before| && CutFrom(before[i], area, parts[k]);
        assert dirty[i] == before[i] && Follows(dirty[i], dirty[n]);
      }
    }
  }

  predicate CutFrom(tile: Rect, area: Rect, part: Rect) {
    !part.Empty() && part == tile.Intersect(area)
  }

  lemma {:induction false} InSomeLast(rects: seq<Rect>, last: Rect, x: int, y: int)
    ensures InSome(rects + [last], x, y) <==> InSome(rects, x, y) || last.Contains(x, y)
  {
    var all := rects + [last];
    assert all[|rects|] == last;
    if InSome(rects, x, y) {
      var i :| 0 <= i < |rects| && rects[i].Contains(x, y);
      assert all[i].Contains(x, y);
    }
  }

  /** The regions cover exactly the requested pixels that are dirty; with no dirty information, all of them. */
  lemma {:induction false} RegionsCover(area: Rect, dirty: Option<seq<Rect>>, x: int, y: int)
    ensures InSome(Regions(area, dirty), x, y) <==> area.Contains(x, y) && (dirty.None? || InSome(dirty.value, x, y))
  {
    match dirty
    case None => InSomeLast([], area, x, y);
      assert [] + [area] == [area];
    case Some(rects) => PartsCover(rects, area, x, y);
  }

  lemma {:induction false} PartsWithin(dirty: seq<Rect>, area: Rect)
    ensures forall i :: 0 <= i < |Parts(dirty, area)| ==>
              Parts(dirty, area)[i].Within(area) && !Parts(dirty, area)[i].Empty()
  {
    if dirty != [] { PartsWithin(dirty[..|dirty| - 1], area); }
  }

  /** What the extraction loop appends from `row` on; it gives up at the first row the frame does not have. */
  function RowsFrom(pixels: seq<Byte>, stride: nat, x0: nat, y0: nat, w: nat, h: nat, row: nat, taken: seq<Byte>): seq<Byte>
    decreases h - row
  {
    var start := FrameOffset(stride, x0, y0 + row);
    if row >= h || start + 4 * w > |pixels| then taken
    else RowsFrom(pixels, stride, x0, y0, w, h, row + 1, taken + pixels[start..start + 4 * w])
  }

  method ExtractRegion(pixels: seq<Byte>, stride: nat, x0: nat, y0: nat, w: nat, h: nat) returns (data: seq<Byte>)
    ensures data == RowsFrom(pixels, stride, x0, y0, w, h, 0, [])
  {
    data := [];
    ghost var all := RowsFrom(pixels, stride, x0, y0, w, h, 0, []);
    for row := 0 to h
      invariant RowsFrom(pixels, stride, x0, y0, w, h, row, data) == all
    {
      var srcY := y0 + row;
      var srcOffset := srcY * stride + x0 * 4;
      AtIsProduct(srcY, stride);
      var srcEnd := srcOffset + w * 4;
      if srcEnd > |pixels| { return; }
      data := data + pixels[srcOffset..srcEnd];
    }
  }

  /** The frame has every pixel of the region. */
  predicate HasRegion(pixels: seq<Byte>, stride: nat, x0: nat, y0: nat, w: nat, h: nat) {
    h == 0 || FrameOffset(stride, x0, y0 + h - 1) + 4 * w <= |pixels|
  }

  /** A packed buffer with the first `h` rows of the region. */
  ghost predicate Extracted(data: seq<Byte>, pixels: seq<Byte>, stride: nat, x0: nat, y0: nat, w: nat, h: nat) {
    && |data| == 4 * At(h, w)
    && forall c: nat, r: nat :: c < w && r < h ==> Taken(data, pixels, stride, x0, y0, w, c, r)
  }

  ghost predicate Taken(data: seq<Byte>, pixels: seq<Byte>, stride: nat, x0: nat, y0: nat, w: nat, c: nat, r: nat) {
    && Has(pixels, stride, x0 + c, y0 + r)
    && Sits(data, Offset(c, r, w), PixelBytes(pixels, stride, x0 + c, y0 + r))
  }

  lemma {:induction false} NextRowExtracted(
    data: seq<Byte>, pixels: seq<Byte>, stride: nat, x0: nat, y0: nat, w: nat, row: nat)
    requires Extracted(data, pixels, stride, x0, y0, w, row)
    requires FrameOffset(stride, x0, y0 + row) + 4 * w <= |pixels|
    ensures var start := FrameOffset(stride, x0, y0 + row);
            Extracted(data + pixels[start..start + 4 * w], pixels, stride, x0, y0, w, row + 1)
  {
    var start := FrameOffset(stride, x0, y0 + row);
    var line := pixels[start..start + 4 * w];
    forall c: nat, r: nat | c < w && r < row + 1
      ensures Taken(data + line, pixels, stride, x0, y0, w, c, r)
    {
      if r < row {
        assert Taken(data, pixels, stride, x0, y0, w, c, r);
        SitsInFirst(data, line, Offset(c, r, w), PixelBytes(pixels, stride, x0 + c, y0 + r));
      } else {
        LastRowSits(data, pixels, start, w, c);
        assert FrameOffset(stride, x0 + c, y0 + row) == start + 4 * c;
      }
    }
  }

  lemma {:induction false} LastRowSits(data: seq<Byte>, pixels: seq<Byte>, start: nat, w: nat, c: nat)
    requires start + 4 * w <= |pixels| && c < w
    ensures var o := start + 4 * c;
            Sits(data + pixels[start..start + 4 * w], |data| + 4 * c, [pixels[o], pixels[o + 1], pixels[o + 2], pixels[o + 3]])
  {
  }

  lemma {:induction false} AllRowsExtracted(
    pixels: seq<Byte>, stride: nat, x0: nat, y0: nat, w: nat, h: nat, row: nat, taken: seq<Byte>)
    requires HasRegion(pixels, stride, x0, y0, w, h) && row <= h
    requires Extracted(taken, pixels, stride, x0, y0, w, row)
    ensures Extracted(RowsFrom(pixels, stride, x0, y0, w, h, row, taken), pixels, stride, x0, y0, w, h)
    decreases h - row
  {
    if row < h {
      var start := FrameOffset(stride, x0, y0 + row);
      if row < h - 1 { AtGrows(y0 + row, y0 + h - 1, stride); }
      NextRowExtracted(taken, pixels, stride, x0, y0, w, row);
      AllRowsExtracted(pixels, stride, x0, y0, w, h, row + 1, taken + pixels[start..start + 4 * w]);
    }
  }

  /** Both sides use 4-byte pixels. */
  predicate Paired(pf: PixelFormat, serverPf: PixelFormat) {
    pf.Size() == 4 && serverPf.Size() == 4 && Scalable(pf, serverPf)
  }

  /** The 4 bytes the client gets for a pixel of the server's frame. */
  function Sent(pf: PixelFormat, serverPf: PixelFormat, pixel: seq<Byte>): seq<Byte>
    requires Paired(pf, serverPf) && |pixel| == 4
  {
    if pf == serverPf then pixel else pf.Write(ConvertPixel(pf, serverPf, serverPf.Read(pixel, 0)))
  }

  /** The payload of a raw rectangle. */
  function RawData(pf: PixelFormat, serverPf: PixelFormat, extracted: seq<Byte>, n: nat): seq<Byte>
    requires Paired(pf, serverPf)
  {
    if pf == serverPf then extracted else Converted(pf, serverPf, extracted, n)
  }

  lemma {:induction false} ReadSits(f: PixelFormat, s: seq<Byte>, i: nat, pixel: seq<Byte>)
    requires f.Size() == 4 && |pixel| == 4 && Sits(s, i, pixel)
    ensures f.Read(s, i) == f.Read(pixel, 0)
  {
    assert pixel[0] == s[i] && pixel[1] == s[i + 1] && pixel[2] == s[i + 2] && pixel[3] == s[i + 3];
  }

  lemma {:induction false} ItemOffset(c: nat, r: nat, w: nat, h: nat)
    requires c < w && r < h
    ensures At(At(r, w) + c, 4) == Offset(c, r, w) && At(r, w) + c < At(h, w) && At(At(h, w), 4) == 4 * At(h, w)
  {
    AtIsProduct(At(r, w) + c, 4);
    AtIsProduct(At(h, w), 4);
    AtGrows(r, h, w);
  }

  lemma {:induction false} ConvertedItem(pf: PixelFormat, serverPf: PixelFormat, extracted: seq<Byte>, n: nat, k: nat)
    requires Paired(pf, serverPf) && k < n
    ensures Sits(Converted(pf, serverPf, extracted, n), At(k, 4), PixelItem(pf, serverPf, extracted)(k))
  {
    JoinedSits(PixelItem(pf, serverPf, extracted), 4, n, k);
  }

  lemma {:induction false} ItemSent(pf: PixelFormat, serverPf: PixelFormat, extracted: seq<Byte>, k: nat, pixel: seq<Byte>)
    requires Paired(pf, serverPf) && pf != serverPf && |pixel| == 4 && Sits(extracted, At(k, 4), pixel)
    ensures PixelItem(pf, serverPf, extracted)(k) == Sent(pf, serverPf, pixel)
  {
    ReadSits(serverPf, extracted, At(k, 4), pixel);
  }

  /** Each pixel of the payload is the converted pixel of the frame. */
  lemma {:induction false} RawPixel(
    pf: PixelFormat, serverPf: PixelFormat, extracted: seq<Byte>, pixels: seq<Byte>, stride: nat,
    x0: nat, y0: nat, w: nat, h: nat, c: nat, r: nat)
    requires Paired(pf, serverPf) && Extracted(extracted, pixels, stride, x0, y0, w, h) && c < w && r < h
    ensures Has(pixels, stride, x0 + c, y0 + r)
    ensures Sits(RawData(pf, serverPf, extracted, At(h, w)), Offset(c, r, w),
                 Sent(pf, serverPf, PixelBytes(pixels, stride, x0 + c, y0 + r)))
  {
    assert Taken(extracted, pixels, stride, x0, y0, w, c, r);
    if pf != serverPf {
      var k, pixel := At(r, w) + c, PixelBytes(pixels, stride, x0 + c, y0 + r);
      ItemOffset(c, r, w, h);
      ItemSent(pf, serverPf, extracted, k, pixel);
      ConvertedItem(pf, serverPf, extracted, At(h, w), k);
    }
  }

  lemma {:induction false} RawSize(pf: PixelFormat, serverPf: PixelFormat, extracted: seq<Byte>, w: nat, h: nat)
    requires Paired(pf, serverPf) && |extracted| == 4 * At(h, w)
    ensures |RawData(pf, serverPf, extracted, At(h, w))| == 4 * At(h, w)
  {
    if pf != serverPf {
      JoinedSize(PixelItem(pf, serverPf, extracted), 4, At(h, w));
      AtIsProduct(At(h, w), 4);
    }
  }

  /** The rectangle for one region. */
  function RawRect(region: Rect, pixels: seq<Byte>, stride: nat, pf: PixelFormat, serverPf: PixelFormat): Rectangle
    requires Paired(pf, serverPf) && 0 <= region.x0 && 0 <= region.y0
  {
    var w, h := region.Width(), region.Height();
    var extracted := RowsFrom(pixels, stride, region.x0, region.y0, w, h, 0, []);
    Rectangle(RectHeader(region.x0, region.y0, w, h, RAW), RawData(pf, serverPf, extracted, At(h, w)))
  }

  predicate InFrame(region: Rect, pixels: seq<Byte>, stride: nat) {
    && 0 <= region.x0 && 0 <= region.y0
    && HasRegion(pixels, stride, region.x0, region.y0, region.Width(), region.Height())
  }

  method EncodeRaw(region: Rect, pixels: seq<Byte>, stride: nat, pf: PixelFormat, serverPf: PixelFormat) returns (r: Rectangle)
    requires Paired(pf, serverPf) && InFrame(region, pixels, stride)
    ensures r == RawRect(region, pixels, stride, pf, serverPf)
    ensures |r.data| == 4 * At(region.Height(), region.Width())
  {
    var rw, rh := region.Width(), region.Height();
    var regionData := ExtractRegion(pixels, stride, region.x0, region.y0, rw, rh);
    ghost var extracted := regionData;
    AllRowsExtracted(pixels, stride, region.x0, region.y0, rw, rh, 0, []);
    AtIsProduct(rh, rw);
    AtIsProduct(At(rh, rw), 4);
    RawSize(pf, serverPf, extracted, rw, rh);
    regionData := ConvertPixels(pf, serverPf, regionData, rw, rh);
    r := Rectangle(RectHeader(region.x0, region.y0, rw, rh, RAW), regionData);
  }

  /** The raw branch: one rectangle a region. */
  method EncodeRegionsRaw(regions: seq<Rect>, pixels: seq<Byte>, stride: nat, pf: PixelFormat, serverPf: PixelFormat)
    returns (rects: seq<Rectangle>)
    requires Paired(pf, serverPf) && forall i :: 0 <= i < |regions| ==> InFrame(regions[i], pixels, stride)
    ensures |rects| == |regions|
    ensures forall i :: 0 <= i < |rects| ==>
              InFrame(regions[i], pixels, stride) && rects[i] == RawRect(regions[i], pixels, stride, pf, serverPf)
  {
    rects := [];
    for i := 0 to |regions|
      invariant |rects| == i
      invariant forall j :: 0 <= j < i ==> rects[j] == RawRect(regions[j], pixels, stride, pf, serverPf)
    {
      var r := EncodeRaw(regions[i], pixels, stride, pf, serverPf);
      rects := rects + [r];
    }
  }
}

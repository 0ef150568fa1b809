/** `ConvertPixels` (rfb/pixconv.go) and the cursor rectangle built on it (rfb/protocol.go). */
module PixelConversion {
  import opened Bytes
  import opened PixelFormats
  import opened Protocol

  /** The source range of every channel that must be rescaled is not zero, or the division panics. */
  predicate Scalable(dst: PixelFormat, src: PixelFormat) {
    && (src.red.max == dst.red.max || src.red.max > 0)
    && (src.green.max == dst.green.max || src.green.max > 0)
    && (src.blue.max == dst.blue.max || src.blue.max > 0)
  }

  function Rescaled(dst: PixelFormat, src: PixelFormat, c: Rgb): Rgb
    requires Scalable(dst, src)
  {
    Rgb(Scale(c.r, src.red.max, dst.red.max), Scale(c.g, src.green.max, dst.green.max), Scale(c.b, src.blue.max, dst.blue.max))
  }

  function ConvertPixel(dst: PixelFormat, src: PixelFormat, pixel: nat): nat
    requires Scalable(dst, src)
  {
    dst.Pack(Rescaled(dst, src, src.Channels(pixel)))
  }

  /** The bytes pixel `i` is converted to. */
  function PixelItem(dst: PixelFormat, src: PixelFormat, pixels: seq<Byte>): (item: nat -> seq<Byte>)
    requires Scalable(dst, src)
    ensures Sized(item, dst.Size())
  {
    (i: nat) =>
      if At(i, src.Size()) + src.Size() <= |pixels|
      then dst.Write(ConvertPixel(dst, src, src.Read(pixels, At(i, src.Size()))))
      else dst.Write(0)
  }

  /** The first `n` pixels, each converted on its own. */
  function Converted(dst: PixelFormat, src: PixelFormat, pixels: seq<Byte>, n: nat): seq<Byte>
    requires Scalable(dst, src)
  {
    Joined(PixelItem(dst, src, pixels), n)
  }

  /** `y` out of `to` is what `x` out of `from` comes to, rounded down. */
  predicate Rescales(x: nat, from: nat, y: nat, to: nat) {
    if from == to then y == x else y * from <= x * to < y * from + from
  }

  /** The pixel `b` has the colour of the pixel `a`: red from red, green from green, blue from blue. */
  predicate SameColour(src: PixelFormat, a: nat, dst: PixelFormat, b: nat) {
    && Rescales(src.red.Extract(a), src.red.max, dst.red.Extract(b), dst.red.max)
    && Rescales(src.green.Extract(a), src.green.max, dst.green.Extract(b), dst.green.max)
    && Rescales(src.blue.Extract(a), src.blue.max, dst.blue.Extract(b), dst.blue.max)
  }

  /** The formats conversion is for: a valid destination, 16-bit maxima, no division by zero. */
  predicate Convertible(dst: PixelFormat, src: PixelFormat) {
    dst.Valid() && Scalable(dst, src) && InRange(dst) && InRange(src)
  }

  lemma {:induction false} ChannelRescaled(c: Channel, pixel: nat, to: nat)
    requires c.max < 0x1_0000 && to < 0x1_0000 && (c.max == to || c.max > 0)
    ensures Rescales(c.Extract(pixel), c.max, Scale(c.Extract(pixel), c.max, to), to)
  {
    MaskBounds(Bits.Shr(pixel, c.shift), c.max);
    if c.max > 0 { ScaleExact(c.Extract(pixel), c.max, to); }
  }

  /** Converting one pixel keeps its colour. */
  lemma {:induction false} ColourSurvives(dst: PixelFormat, src: PixelFormat, pixel: nat)
    requires Convertible(dst, src)
    ensures SameColour(src, pixel, dst, Bits.Low(ConvertPixel(dst, src, pixel), 8 * dst.Size()))
  {
    hide Channel.Extract, Scale, Rescales, PixelFormat.Pack;
    var c := Rescaled(dst, src, src.Channels(pixel));
    RescaledInRange(dst, src, pixel);
    PackExtract(dst, c);
    ChannelRescaled(src.red, pixel, dst.red.max);
    ChannelRescaled(src.green, pixel, dst.green.max);
    ChannelRescaled(src.blue, pixel, dst.blue.max);
  }

  /** Pixel `i` of the result has the colour of pixel `i` of the input. */
  ghost predicate PixelArrives(dst: PixelFormat, src: PixelFormat, pixels: seq<Byte>, i: nat, result: seq<Byte>) {
    && At(i, src.Size()) + src.Size() <= |pixels| && At(i, dst.Size()) + dst.Size() <= |result|
    && SameColour(src, src.Read(pixels, At(i, src.Size())), dst, dst.Read(result, At(i, dst.Size())))
  }

  /** Every channel of every pixel arrives as its own channel, rescaled and rounded down. */
  lemma {:induction false} ChannelsSurvive(dst: PixelFormat, src: PixelFormat, pixels: seq<Byte>, n: nat, i: nat)
    requires Convertible(dst, src) && At(n, src.Size()) <= |pixels| && i < n
    ensures PixelArrives(dst, src, pixels, i, Converted(dst, src, pixels, n))
  {
    hide PixelFormat.Read, PixelFormat.Write, ConvertPixel, SameColour;
    AtGrows(i, n, src.Size());
    AtGrows(i, n, dst.Size());
    var pixel := src.Read(pixels, At(i, src.Size()));
    JoinedSize(PixelItem(dst, src, pixels), dst.Size(), n);
    assert Sits(Converted(dst, src, pixels, n), At(i, dst.Size()), dst.Write(ConvertPixel(dst, src, pixel))) by {
      JoinedSits(PixelItem(dst, src, pixels), dst.Size(), n, i);
    }
    ReadWrite(dst, ConvertPixel(dst, src, pixel), Converted(dst, src, pixels, n), At(i, dst.Size()));
    ColourSurvives(dst, src, pixel);
  }

  /** Channel maxima are 16-bit fields of the wire format. */
  predicate InRange(f: PixelFormat) {
    f.red.max < 0x1_0000 && f.green.max < 0x1_0000 && f.blue.max < 0x1_0000
  }

  lemma {:induction false} RescaledInRange(dst: PixelFormat, src: PixelFormat, pixel: nat)
    requires Scalable(dst, src) && InRange(dst) && InRange(src)
    ensures var c := Rescaled(dst, src, src.Channels(pixel));
            c.r <= dst.red.max && c.g <= dst.green.max && c.b <= dst.blue.max
  {
    var c := src.Channels(pixel);
    ScaledInRange(src.red, pixel, dst.red.max);
    ScaledInRange(src.green, pixel, dst.green.max);
    ScaledInRange(src.blue, pixel, dst.blue.max);
  }

  lemma {:induction false} ScaledInRange(c: Channel, pixel: nat, to: nat)
    requires c.max < 0x1_0000 && to < 0x1_0000 && (c.max == to || c.max > 0)
    ensures Scale(c.Extract(pixel), c.max, to) <= to
  {
    MaskBounds(Bits.Shr(pixel, c.shift), c.max);
    if c.max > 0 { ScaleExact(c.Extract(pixel), c.max, to); }
  }

  /** Stores `bytes` in `out` from `offset` on. */
  method Put(out: array<Byte>, offset: nat, bytes: seq<Byte>)
    requires offset + |bytes| <= out.Length
    modifies out
    ensures out[..offset + |bytes|] == old(out[..offset]) + bytes
  {
    forall k | 0 <= k < |bytes| {
      out[offset + k] := bytes[k];
    }
  }

  method ConvertPixels(dst: PixelFormat, src: PixelFormat, pixels: seq<Byte>, width: nat, height: nat) returns (r: seq<Byte>)
    requires dst != src && width * height > 0 ==> Scalable(dst, src) && At(width * height, src.Size()) <= |pixels|
    ensures dst == src ==> r == pixels
    ensures dst != src && width * height == 0 ==> r == []
    ensures dst != src && width * height > 0 ==> r == Converted(dst, src, pixels, width * height)
    ensures dst != src && width * height > 0 && Convertible(dst, src) ==>
              forall i: nat :: i < width * height ==> PixelArrives(dst, src, pixels, i, r)
  {
    hide PixelArrives, Convertible;
    if dst == src {
      return pixels;
    }
    var n := width * height;
    AtIsProduct(n, dst.Size());
    var out := new Byte[n * dst.Size()];
    ghost var item: nat -> seq<Byte> := if n > 0 then PixelItem(dst, src, pixels) else _ => [];
    for i := 0 to n
      invariant out.Length == At(n, dst.Size()) && At(i, dst.Size()) <= out.Length
      invariant out[..At(i, dst.Size())] == Joined(item, i)
    {
      AtGrows(i, n, dst.Size());
      ConvertAt(out, i, n, dst, src, pixels);
    }
    r := out[..];
    assert out[..At(n, dst.Size())] == out[..];
    forall i: nat | n > 0 && i < n && Convertible(dst, src) ensures PixelArrives(dst, src, pixels, i, r) {
      ChannelsSurvive(dst, src, pixels, n, i);
    }
  }

  /** One turn of the loop: pixel `i` goes behind the pixels before it. */
  method ConvertAt(out: array<Byte>, i: nat, n: nat, dst: PixelFormat, src: PixelFormat, pixels: seq<Byte>)
    requires Scalable(dst, src) && i < n && At(n, src.Size()) <= |pixels| && At(n, dst.Size()) <= out.Length
    modifies out
    ensures At(i, dst.Size()) <= At(i + 1, dst.Size()) <= out.Length
    ensures out[..At(i + 1, dst.Size())] == old(out[..At(i, dst.Size())]) + PixelItem(dst, src, pixels)(i)
  {
    hide PixelFormat.Write, PixelFormat.Read, ConvertPixel;
    var srcOff, dstOff := i * src.Size(), i * dst.Size();
    AtIsProduct(i, src.Size());
    AtIsProduct(i, dst.Size());
    AtGrows(i, n, src.Size());
    AtGrows(i, n, dst.Size());
    var pixel := ConvertOne(dst, src, src.Read(pixels, srcOff));
    Put(out, dstOff, dst.Write(pixel));
  }

  /** The loop's body between reading and writing: extract, rescale, pack. */
  method ConvertOne(dst: PixelFormat, src: PixelFormat, srcPixel: nat) returns (dstPixel: nat)
    requires Scalable(dst, src)
    ensures dstPixel == ConvertPixel(dst, src, srcPixel)
    ensures Convertible(dst, src) ==> SameColour(src, srcPixel, dst, Bits.Low(dstPixel, 8 * dst.Size()))
  {
    hide Convertible, SameColour, PixelFormat.Pack;
    var r := src.red.Extract(srcPixel);
    var g := src.green.Extract(srcPixel);
    var b := src.blue.Extract(srcPixel);
    if src.red.max != dst.red.max { r := Scale(r, src.red.max, dst.red.max); }
    if src.green.max != dst.green.max { g := Scale(g, src.green.max, dst.green.max); }
    if src.blue.max != dst.blue.max { b := Scale(b, src.blue.max, dst.blue.max); }
    dstPixel := dst.Pack(Rgb(r, g, b));
    if Convertible(dst, src) { ColourSurvives(dst, src, srcPixel); }
  }

  datatype CursorImage = CursorImage(
    width: nat, height: nat, hotspotX: nat, hotspotY: nat, pixels: seq<Byte>, mask: seq<Byte>)
  {
    /** 16-bit fields, one mask bit a pixel with padded rows. */
    predicate Valid() {
      width < 0x1_0000 && height < 0x1_0000 && hotspotX < 0x1_0000 && hotspotY < 0x1_0000
      && |mask| == (width + 7) / 8 * height
    }
  }

  /** The shape as the client gets it. */
  function CursorPixels(cursor: CursorImage, pf: PixelFormat, serverPf: PixelFormat): seq<Byte>
    requires Scalable(pf, serverPf)
  {
    if pf == serverPf then cursor.pixels else Converted(pf, serverPf, cursor.pixels, cursor.width * cursor.height)
  }

  /** Each pixel of the shape has the colour of the cursor's. */
  lemma {:induction false} CursorColours(cursor: CursorImage, pf: PixelFormat, serverPf: PixelFormat, i: nat)
    requires Convertible(pf, serverPf) && i < cursor.width * cursor.height
    requires |cursor.pixels| == At(cursor.width * cursor.height, serverPf.Size())
    ensures PixelArrives(pf, serverPf, cursor.pixels, i, CursorPixels(cursor, pf, serverPf))
  {
    var n := cursor.width * cursor.height;
    if pf == serverPf {
      AtGrows(i, n, pf.Size());
    } else {
      ChannelsSurvive(pf, serverPf, cursor.pixels, n, i);
    }
  }

  lemma {:induction false} CursorPixelsSize(cursor: CursorImage, pf: PixelFormat, serverPf: PixelFormat)
    requires Scalable(pf, serverPf) && |cursor.pixels| == At(cursor.width * cursor.height, serverPf.Size())
    ensures |CursorPixels(cursor, pf, serverPf)| == cursor.width * cursor.height * pf.Size()
  {
    AtIsProduct(cursor.width * cursor.height, pf.Size());
    JoinedSize(PixelItem(pf, serverPf, cursor.pixels), pf.Size(), cursor.width * cursor.height);
  }

  /** The rectangle carries the converted shape and its mask, in the size every reader computes. */
  method EncodeCursorRect(cursor: CursorImage, pf: PixelFormat, serverPf: PixelFormat) returns (r: Rectangle)
    requires cursor.Valid() && Scalable(pf, serverPf)
    requires |cursor.pixels| == At(cursor.width * cursor.height, serverPf.Size())
    ensures Carries(r, CursorShape(CursorPixels(cursor, pf, serverPf), cursor.mask), pf.Size())
    ensures r.header == RectHeader(cursor.hotspotX, cursor.hotspotY, cursor.width, cursor.height, CURSOR)
  {
    hide PixelFormat.Write, Converted;
    var pixels := ConvertPixels(pf, serverPf, cursor.pixels, cursor.width, cursor.height);
    CursorPixelsSize(cursor, pf, serverPf);
    r := Rectangle(RectHeader(cursor.hotspotX, cursor.hotspotY, cursor.width, cursor.height, CURSOR), pixels + cursor.mask);
  }
}

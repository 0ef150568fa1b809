/** The browser's framebuffer (web/src/framebuffer.ts): RGBA bytes, row by row, and the dirty rectangles. */
module Framebuffers {
  import opened Bytes
  import opened Grid

  datatype Rgba = Rgba(r: Byte, g: Byte, b: Byte, a: Byte)

  /** A picture: the pixel at every position. */
  type View = (int, int) -> Rgba

  /** Inside `area` the picture shows `content`, everywhere else it is as it was. */
  ghost predicate Painted(after: View, before: View, area: Rect, content: View) {
    forall x: int, y: int :: after(x, y) == if area.Contains(x, y) then content(x, y) else before(x, y)
  }

  /** The picture with `content` inside `area`. */
  ghost function Overlay(v: View, area: Rect, content: View): View {
    (x, y) => if area.Contains(x, y) then content(x, y) else v(x, y)
  }

  /** One more row: the rows painted so far and the next one make one rectangle. */
  lemma {:induction false} NextRow(later: View, after: View, before: View, area: Rect, y: int, content: View)
    requires Painted(after, before, Rect(area.x0, area.y0, area.x1, y), content) && area.y0 <= y
    requires Painted(later, after, Rect(area.x0, y, area.x1, y + 1), content)
    ensures Painted(later, before, Rect(area.x0, area.y0, area.x1, y + 1), content)
  {
  }

  /** One more pixel of a row. */
  lemma {:induction false} NextPixel(later: View, after: View, before: View, x0: int, x: int, y: int, content: View, pixel: Rgba)
    requires Painted(after, before, Rect(x0, y, x, y + 1), content) && x0 <= x
    requires Painted(later, after, Rect(x, y, x + 1, y + 1), Plain(pixel)) && content(x, y) == pixel
    ensures Painted(later, before, Rect(x0, y, x + 1, y + 1), content)
  {
  }

  /** The first byte of pixel (x, y). */
  function Offset(x: nat, y: nat, width: nat): nat {
    4 * (At(y, width) + x)
  }

  function PixelAt(bytes: seq<Byte>, offset: nat): Rgba
    requires offset + 4 <= |bytes|
  {
    Rgba(bytes[offset], bytes[offset + 1], bytes[offset + 2], bytes[offset + 3])
  }

  lemma {:induction false} OffsetInside(x: nat, y: nat, width: nat, height: nat)
    requires x < width && y < height
    ensures Offset(x, y, width) + 4 <= 4 * At(height, width)
  {
    AtGrows(y, height, width);
  }

  /** The bytes of `n` pixels of a row are those of the pixels in it and no others. */
  lemma {:induction false} RowSpan(x: nat, y: nat, n: nat, u: nat, v: nat, width: nat)
    requires x + n <= width && u < width
    ensures var first, at := Offset(x, y, width), Offset(u, v, width);
            if Rect(x, y, x + n, y + 1).Contains(u, v) then at == first + 4 * (u - x)
            else n > 0 ==> at + 4 <= first || first + 4 * n <= at
  {
    if y < v { AtGrows(y, v, width); }
    if y > v { AtGrows(v, y, width); }
  }

  /** Pixel (x, y) of a tightly packed RGBA buffer of the given width. */
  function Packed(bytes: seq<Byte>, width: nat, x: int, y: int): Rgba {
    if 0 <= x && 0 <= y && Offset(x, y, width) + 4 <= |bytes| then PixelAt(bytes, Offset(x, y, width))
    else Rgba(0, 0, 0, 0)
  }

  /** `bytes` hold `n` pixels of `content`, from (x, y) to the right. */
  ghost predicate IsRow(bytes: seq<Byte>, n: nat, content: View, x: int, y: int) {
    |bytes| == 4 * n && forall i: nat :: i < n ==> PixelAt(bytes, 4 * i) == content(x + i, y)
  }

  /** The packed buffer holds the rows of `v` from (x, y) on. */
  ghost predicate Holds(bytes: seq<Byte>, w: nat, h: nat, v: View, x: int, y: int) {
    && |bytes| == 4 * At(h, w)
    && forall col: nat, row: nat :: col < w && row < h ==> Packed(bytes, w, col, row) == v(x + col, y + row)
  }

  lemma {:induction false} OneMoreRow(bytes: seq<Byte>, line: seq<Byte>, w: nat, h: nat, v: View, x: int, y: int)
    requires Holds(bytes, w, h, v, x, y) && IsRow(line, w, v, x, y + h)
    ensures Holds(bytes + line, w, h + 1, v, x, y)
  {
    forall col: nat, row: nat | col < w && row < h + 1
      ensures Packed(bytes + line, w, col, row) == v(x + col, y + row)
    {
      if row < h {
        AtGrows(row, h, w);
        assert Packed(bytes, w, col, row) == v(x + col, y + row);
      } else {
        assert PixelAt(line, 4 * col) == v(x + col, y + h);
      }
    }
  }

  lemma {:induction false} CopyPainted(
    after: View, before: View, temp: seq<Byte>, srcX: int, srcY: int, dstX: int, dstY: int, w: nat, h: nat)
    requires Holds(temp, w, h, before, srcX, srcY)
    requires Painted(after, before, Rect(dstX, dstY, dstX + w, dstY + h), PackedView(temp, w, dstX, dstY))
    ensures Painted(after, before, Rect(dstX, dstY, dstX + w, dstY + h), Moved(before, dstX - srcX, dstY - srcY))
    ensures forall x: int, y: int :: Rect(dstX, dstY, dstX + w, dstY + h).Contains(x, y) ==>
              after(x, y) == before(srcX + (x - dstX), srcY + (y - dstY))
  {
    forall px: int, py: int | Rect(dstX, dstY, dstX + w, dstY + h).Contains(px, py)
      ensures after(px, py) == Moved(before, dstX - srcX, dstY - srcY)(px, py)
    {
      var col: nat, row: nat := px - dstX, py - dstY;
      assert Packed(temp, w, col, row) == before(srcX + col, srcY + row);
    }
  }

  /** Row `row` of a packed buffer. */
  lemma {:induction false} PackedRow(bytes: seq<Byte>, w: nat, h: nat, row: nat, x: int, y: int)
    requires row < h && 4 * At(h, w) <= |bytes|
    ensures 4 * At(row, w) + 4 * w <= |bytes|
    ensures IsRow(bytes[4 * At(row, w)..4 * At(row, w) + 4 * w], w, PackedView(bytes, w, x, y), x, y + row)
  {
    AtGrows(row, h, w);
    var content: View := PackedView(bytes, w, x, y);
    var line := bytes[4 * At(row, w)..4 * At(row, w) + 4 * w];
    forall i: nat | i < w ensures PixelAt(line, 4 * i) == content(x + i, y + row) {
      assert content(x + i, y + row) == Packed(bytes, w, i, row);
      assert Offset(i, row, w) == 4 * At(row, w) + 4 * i;
    }
  }

  /** One colour everywhere. */
  ghost function Plain(p: Rgba): View {
    (px, py) => p
  }

  /** The picture moved by (dx, dy). */
  ghost function Moved(v: View, dx: int, dy: int): View {
    (px, py) => v(px - dx, py - dy)
  }

  /** A packed buffer laid out from (x, y) on. */
  ghost function PackedView(bytes: seq<Byte>, width: nat, x: int, y: int): View {
    (px, py) => Packed(bytes, width, px - x, py - y)
  }

  ghost function PackedRgbView(bytes: seq<Byte>, width: nat, x: int, y: int): View {
    (px, py) => PackedRgb(bytes, width, px - x, py - y)
  }

  /** Pixel (x, y) of a tightly packed RGB buffer; reading past the end stores 0. */
  function PackedRgb(bytes: seq<Byte>, width: nat, x: int, y: int): Rgba {
    if 0 <= x && 0 <= y then
      var i := 3 * (At(y, width) + x);
      Rgba(Get(bytes, i), Get(bytes, i + 1), Get(bytes, i + 2), 255)
    else Rgba(0, 0, 0, 255)
  }

  lemma {:induction false} RgbSource(bytes: seq<Byte>, w: nat, row: nat, col: nat)
    ensures var s := row * w * 3 + col * 3;
            PackedRgb(bytes, w, col, row) == Rgba(Get(bytes, s), Get(bytes, s + 1), Get(bytes, s + 2), 255)
  {
    AtIsProduct(row, w);
  }

  /** The 32-bit word the fill uses is R, G, B, A in memory. */
  lemma {:induction false} PackedWord(r: Byte, g: Byte, b: Byte, a: Byte)
    ensures Le32((a as int) * 0x100_0000 + (b as int) * 0x1_0000 + (g as int) * 256 + r) == [r, g, b, a]
  {
    var w3: nat := (a as int) * 0x1_0000 + (b as int) * 256 + g;
    var w2: nat := (a as int) * 256 + b;
    var w: nat := w3 * 256 + r;
    assert w % 256 == r && w / 256 == w3;
    assert w3 % 256 == g && w3 / 256 == w2;
    assert w2 % 256 == b && w2 / 256 == a;
    DigitStep(w, 0);
    DigitStep(w, 1);
    DigitStep(w3, 0);
    DigitStep(w, 2);
    DigitStep(w3, 1);
    DigitStep(w2, 0);
  }

  /** Zeros, with every fourth byte, the alpha, set to 255. */
  method NewImageData(width: nat, height: nat) returns (d: array<Byte>)
    ensures fresh(d) && d.Length == 4 * At(height, width)
    ensures forall k: nat :: k < d.Length ==> d[k] == if k % 4 == 3 then 255 else 0
  {
    AtIsProduct(height, width);
    d := new Byte[width * height * 4](_ => 0);
    var i := 3;
    while i < d.Length
      invariant i % 4 == 3
      invariant forall k: nat :: k < d.Length ==> d[k] == if k % 4 == 3 && k < i then 255 else 0
    {
      d[i] := 255;
      i := i + 4;
    }
  }

  class Framebuffer {
    var width: nat
    var height: nat
    var data: array<Byte>
    var dirty: seq<Rect>
    /** What the bytes show; only positions inside the picture matter. */
    ghost var pic: View

    ghost predicate Valid()
      reads this, data
    {
      && data.Length == 4 * At(height, width)
      && Shows()
    }

    ghost predicate Shows()
      requires data.Length == 4 * At(height, width)
      reads this, data
    {
      forall x: nat, y: nat | x < width && y < height :: pic(x, y) == Stored(x, y)
    }

    ghost function Stored(x: nat, y: nat): Rgba
      requires data.Length == 4 * At(height, width) && x < width && y < height
      reads this, data
    {
      OffsetInside(x, y, width, height);
      var i := Offset(x, y, width);
      Rgba(data[i], data[i + 1], data[i + 2], data[i + 3])
    }

    /** Opaque black, all of it dirty. */
    constructor (width: nat, height: nat)
      ensures Valid() && fresh(data) && this.width == width && this.height == height
      ensures forall x: nat, y: nat :: x < width && y < height ==> pic(x, y) == Rgba(0, 0, 0, 255)
      ensures dirty == [Rect(0, 0, width, height)]
    {
      this.width, this.height := width, height;
      var d := NewImageData(width, height);
      data := d;
      pic := Plain(Rgba(0, 0, 0, 255));
      dirty := [Rect(0, 0, width, height)];
      new;
      forall x: nat, y: nat | x < width && y < height ensures pic(x, y) == Stored(x, y) {
        OffsetInside(x, y, width, height);
        assert data[Offset(x, y, width) + 3] == 255;
      }
    }

    predicate Inside(x: nat, y: nat, w: nat, h: nat)
      reads this
    {
      x + w <= width && y + h <= height
    }

    function Screen(): Rect
      reads this
    {
      Rect(0, 0, width, height)
    }

    method MarkDirty(x: nat, y: nat, w: nat, h: nat)
      requires Valid()
      modifies this`dirty
      ensures Valid() && dirty == old(dirty) + [Rect(x, y, x + w, y + h)]
    {
      dirty := dirty + [Rect(x, y, x + w, y + h)];
    }

    method ClearDirty()
      requires Valid()
      modifies this`dirty
      ensures Valid() && dirty == []
    {
      dirty := [];
    }

    /** Sets one pixel and marks nothing. */
    method SetPixel(x: nat, y: nat, r: Byte, g: Byte, b: Byte, a: Byte)
      requires Valid() && x < width && y < height
      modifies this`pic, data
      ensures Valid()
      ensures Painted(pic, old(pic), Rect(x, y, x + 1, y + 1), Plain(Rgba(r, g, b, a)))
    {
      hide At;
      OffsetInside(x, y, width, height);
      var offset := (y * width + x) * 4;
      AtIsProduct(y, width);
      data[offset] := r;
      data[offset + 1] := g;
      data[offset + 2] := b;
      data[offset + 3] := a;
      ghost var before := pic;
      pic := (px, py) => if px == x && py == y then Rgba(r, g, b, a) else before(px, py);
      forall u: nat, v: nat | u < width && v < height ensures pic(u, v) == Stored(u, v) {
        OffsetInside(u, v, width, height);
        RowSpan(x, y, 1, u, v, width);
      }
    }

    /** SetPixel for the next pixel of a row that is painted from column `x0` to `x`. */
    method AddPixel(x: nat, y: nat, r: Byte, g: Byte, b: Byte, ghost x0: nat, ghost content: View, ghost before: View)
      requires Valid() && x0 <= x < width && y < height && content(x, y) == Rgba(r, g, b, 255)
      requires Painted(pic, before, Rect(x0, y, x, y + 1), content)
      modifies this`pic, data
      ensures Valid() && Painted(pic, before, Rect(x0, y, x + 1, y + 1), content)
    {
      ghost var painted := pic;
      SetPixel(x, y, r, g, b, 255);
      NextPixel(pic, painted, before, x0, x, y, content, Rgba(r, g, b, 255));
    }

    /** Stores `n` pixels in row `y` from column `x` on. */
    method SetRow(x: nat, y: nat, n: nat, bytes: seq<Byte>, ghost content: View)
      requires Valid() && x + n <= width && y < height && IsRow(bytes, n, content, x, y)
      modifies this`pic, data
      ensures Valid()
      ensures Painted(pic, old(pic), Rect(x, y, x + n, y + 1), content)
    {
      AtGrows(y, height, width);
      var offset := (y * width + x) * 4;
      AtIsProduct(y, width);
      forall k | 0 <= k < |bytes| {
        data[offset + k] := bytes[k];
      }
      ghost var before := pic;
      pic := (px, py) => if Rect(x, y, x + n, y + 1).Contains(px, py) then content(px, py) else before(px, py);
      forall u: nat, v: nat | u < width && v < height ensures pic(u, v) == Stored(u, v) {
        OffsetInside(u, v, width, height);
        RowSpan(x, y, n, u, v, width);
        if Rect(x, y, x + n, y + 1).Contains(u, v) { assert PixelAt(bytes, 4 * (u - x)) == content(x + (u - x), y); }
      }
    }

    /** Row `y` of a painted area that already reaches from `top` to `y`. */
    method AddRow(x: nat, y: nat, n: nat, bytes: seq<Byte>, ghost content: View, ghost top: nat, ghost before: View)
      requires Valid() && x + n <= width && top <= y < height && IsRow(bytes, n, content, x, y)
      requires Painted(pic, before, Rect(x, top, x + n, y), content)
      modifies this`pic, data
      ensures Valid() && Painted(pic, before, Rect(x, top, x + n, y + 1), content)
    {
      ghost var painted := pic;
      SetRow(x, y, n, bytes, content);
      NextRow(pic, painted, before, Rect(x, top, x + n, y), y, content);
    }

    /** The rectangle shows the buffer, and becomes dirty. */
    method WriteRect(x: nat, y: nat, w: nat, h: nat, rgba: seq<Byte>)
      requires Valid() && Inside(x, y, w, h) && |rgba| >= 4 * At(h, w)
      modifies this`pic, this`dirty, data
      ensures Valid() && dirty == old(dirty) + [Rect(x, y, x + w, y + h)]
      ensures Painted(pic, old(pic), Rect(x, y, x + w, y + h), PackedView(rgba, w, x, y))
    {
      ghost var content: View := PackedView(rgba, w, x, y);
      hide PackedView, Packed, Shows;
      for row := 0 to h
        invariant Valid() && dirty == old(dirty)
        invariant Painted(pic, old(pic), Rect(x, y, x + w, y + row), content)
      {
        var srcOffset := row * w * 4;
        AtIsProduct(row, w);
        PackedRow(rgba, w, h, row, x, y);
        AddRow(x, y + row, w, rgba[srcOffset..srcOffset + w * 4], content, y, old(pic));
      }
      MarkDirty(x, y, w, h);
    }

    /** Row `row` of the RGB buffer goes to row y + row, each pixel with full alpha. */
    method SetRowRGB(x: nat, y: nat, w: nat, row: nat, rgb: seq<Byte>)
      requires Valid() && x + w <= width && y + row < height
      modifies this`pic, data
      ensures Valid()
      ensures Painted(pic, old(pic), Rect(x, y + row, x + w, y + row + 1), PackedRgbView(rgb, w, x, y))
    {
      var srcBase := row * w * 3;
      for col := 0 to w
        invariant Valid()
        invariant Painted(pic, old(pic), Rect(x, y + row, x + col, y + row + 1),
                          PackedRgbView(rgb, w, x, y))
      {
        var s := srcBase + col * 3;
        RgbSource(rgb, w, row, col);
        SetPixel(x + col, y + row, Get(rgb, s), Get(rgb, s + 1), Get(rgb, s + 2), 255);
      }
    }

    method WriteRectRGB(x: nat, y: nat, w: nat, h: nat, rgb: seq<Byte>)
      requires Valid() && Inside(x, y, w, h)
      modifies this`pic, this`dirty, data
      ensures Valid() && dirty == old(dirty) + [Rect(x, y, x + w, y + h)]
      ensures Painted(pic, old(pic), Rect(x, y, x + w, y + h), PackedRgbView(rgb, w, x, y))
    {
      ghost var content: View := PackedRgbView(rgb, w, x, y);
      for row := 0 to h
        invariant Valid() && dirty == old(dirty)
        invariant Painted(pic, old(pic), Rect(x, y, x + w, y + row), content)
      {
        ghost var painted := pic;
        SetRowRGB(x, y, w, row, rgb);
        NextRow(pic, painted, old(pic), Rect(x, y, x + w, y + h), y + row, content);
      }
      MarkDirty(x, y, w, h);
    }

    /** Fills `n` pixels with a 32-bit word: its little-endian bytes, `n` times. */
    method FillRow(x: nat, y: nat, n: nat, word: nat)
      requires Valid() && x + n <= width && y < height
      modifies this`pic, data
      ensures Valid()
      ensures Painted(pic, old(pic), Rect(x, y, x + n, y + 1), Plain(PixelAt(Le32(word), 0)))
    {
      for i := 0 to n
        invariant Valid()
        invariant Painted(pic, old(pic), Rect(x, y, x + i, y + 1), Plain(PixelAt(Le32(word), 0)))
      {
        var bytes := Le32(word);
        SetPixel(x + i, y, bytes[0], bytes[1], bytes[2], bytes[3]);
      }
    }

    method FillRect(x: nat, y: nat, w: nat, h: nat, r: Byte, g: Byte, b: Byte)
      requires Valid() && Inside(x, y, w, h)
      modifies this`pic, this`dirty, data
      ensures Valid() && dirty == old(dirty) + [Rect(x, y, x + w, y + h)]
      ensures Painted(pic, old(pic), Rect(x, y, x + w, y + h), Plain(Rgba(r, g, b, 255)))
    {
      var word := 255 * 0x100_0000 + (b as int) * 0x1_0000 + (g as int) * 256 + r;
      PackedWord(r, g, b, 255);
      ghost var content: View := Plain(Rgba(r, g, b, 255));
      for row := 0 to h
        invariant Valid() && dirty == old(dirty)
        invariant Painted(pic, old(pic), Rect(x, y, x + w, y + row), content)
      {
        ghost var painted := pic;
        FillRow(x, y + row, w, word);
        NextRow(pic, painted, old(pic), Rect(x, y, x + w, y + h), y + row, content);
      }
      MarkDirty(x, y, w, h);
    }

    /** The bytes of `n` pixels of row `y` from column `x` on. */
    method GetRow(x: nat, y: nat, n: nat) returns (bytes: seq<Byte>)
      requires Valid() && x + n <= width && y < height
      ensures IsRow(bytes, n, pic, x, y)
    {
      AtGrows(y, height, width);
      var offset := (y * width + x) * 4;
      AtIsProduct(y, width);
      bytes := data[offset..offset + n * 4];
      forall i: nat | i < n ensures PixelAt(bytes, 4 * i) == pic(x + i, y) {
        assert pic(x + i, y) == Stored(x + i, y);
      }
    }

    /** Copies the rows of an area into a packed buffer. */
    method TakeRect(x: nat, y: nat, w: nat, h: nat) returns (temp: seq<Byte>)
      requires Valid() && Inside(x, y, w, h)
      ensures Holds(temp, w, h, pic, x, y)
    {
      temp := [];
      for row := 0 to h
        invariant Holds(temp, w, row, pic, x, y)
      {
        var line := GetRow(x, y + row, w);
        OneMoreRow(temp, line, w, row, pic, x, y);
        temp := temp + line;
      }
    }

    /** Overlap or not, the copy shows what the source area showed before the call. */
    method CopyRect(srcX: nat, srcY: nat, dstX: nat, dstY: nat, w: nat, h: nat)
      requires Valid() && Inside(srcX, srcY, w, h) && Inside(dstX, dstY, w, h)
      modifies this`pic, this`dirty, data
      ensures Valid() && dirty == old(dirty) + [Rect(dstX, dstY, dstX + w, dstY + h)]
      ensures Painted(pic, old(pic), Rect(dstX, dstY, dstX + w, dstY + h),
                      Moved(old(pic), dstX - srcX, dstY - srcY))
      ensures forall x: int, y: int :: Rect(dstX, dstY, dstX + w, dstY + h).Contains(x, y) ==>
                pic(x, y) == old(pic)(srcX + (x - dstX), srcY + (y - dstY))
    {
      hide Painted, Moved, Holds, Packed, Valid, Stored;
      var temp := TakeRect(srcX, srcY, w, h);
      ghost var before := pic;
      WriteRect(dstX, dstY, w, h, temp);
      CopyPainted(pic, before, temp, srcX, srcY, dstX, dstY, w, h);
    }
  }
}

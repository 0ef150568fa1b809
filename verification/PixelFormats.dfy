/** Pixel formats and the conversion between them (rfb/pixconv.go). */
module PixelFormats {
  import opened Bytes
  import opened Bits

  /** One colour channel of a format: its largest value and its lowest bit. */
  datatype Channel = Channel(max: nat, shift: nat) {
    /** The bits the channel occupies in a pixel. */
    function Mask(): nat { Shl(max, shift) }

    /** The channel's field of a pixel, moved down and masked. */
    function Extract(pixel: nat): nat { And(Shr(pixel, shift), max) }
  }

  /** Channel values of one pixel. */
  datatype Rgb = Rgb(r: nat, g: nat, b: nat)

  datatype PixelFormat = PixelFormat(
    bitsPerPixel: Byte, depth: Byte, bigEndian: Byte, trueColour: Byte, red: Channel, green: Channel, blue: Channel)
  {
    /** Bytes per pixel. */
    function Size(): nat { bitsPerPixel as int / 8 }

    /** 8, 16 or 32 bits, maxima 2^k - 1, no bit shared by two channels, every channel inside the pixel. */
    predicate Valid() {
      && (Size() == 1 || Size() == 2 || Size() == 4)
      && AllOnes(red.max) && AllOnes(green.max) && AllOnes(blue.max)
      && Inside(red) && Inside(green) && Inside(blue)
      && And(red.Mask(), green.Mask()) == 0
      && And(red.Mask(), blue.Mask()) == 0
      && And(green.Mask(), blue.Mask()) == 0
    }

    predicate Inside(c: Channel) { Low(c.Mask(), 8 * Size()) == c.Mask() }

    function Channels(pixel: nat): Rgb {
      Rgb(red.Extract(pixel), green.Extract(pixel), blue.Extract(pixel))
    }

    /** The three channels, each moved to its place within 32 bits, put together in one word. */
    function Pack(c: Rgb): nat {
      Or(Or(Low(Shl(c.r, red.shift), 32), Low(Shl(c.g, green.shift), 32)), Low(Shl(c.b, blue.shift), 32))
    }

    /** The pixel at offset `i`; a size the switch does not list reads as 0. */
    function Read(s: seq<Byte>, i: nat): nat
      requires i + Size() <= |s|
    {
      if Size() == 1 then s[i]
      else if Size() == 2 then if bigEndian != 0 then Be16At(s, i) else Le16At(s, i)
      else if Size() == 4 then if bigEndian != 0 then Be32At(s, i) else Le32At(s, i)
      else 0
    }

    /** The bytes stored for a pixel; a size the switch does not list leaves zeros. */
    function Write(pixel: nat): (r: seq<Byte>)
      ensures |r| == Size()
    {
      if Size() == 1 then BigEndian(pixel, 1)
      else if Size() == 2 then if bigEndian != 0 then Be16(pixel) else Le16(pixel)
      else if Size() == 4 then if bigEndian != 0 then Be32(pixel) else Le32(pixel)
      else seq(Size(), i => 0)
    }
  }

  /** The server's own format: B, G, R and an unused byte, in this order. */
  const BGRA_FORMAT := PixelFormat(32, 24, 0, 1, Channel(255, 16), Channel(255, 8), Channel(255, 0))

  /** The format the browser asks for: R, G, B and an unused byte. */
  const RGBA_FORMAT := PixelFormat(32, 24, 0, 1, Channel(255, 0), Channel(255, 8), Channel(255, 16))

  /** Writing a pixel keeps its low bits, in either byte order, and reading brings them back. */
  lemma {:induction false} ReadWrite(f: PixelFormat, pixel: nat, s: seq<Byte>, i: nat)
    requires f.Size() == 1 || f.Size() == 2 || f.Size() == 4
    requires Sits(s, i, f.Write(pixel))
    ensures f.Read(s, i) == Low(pixel, 8 * f.Size())
  {
    var w := f.Write(pixel);
    LowIsMod(pixel, 8 * f.Size());
    Powers();
    if f.Size() == 1 {
      assert s[i] == w[0] == Digit(pixel, 0);
    } else if f.Size() == 2 {
      if f.bigEndian != 0 {
        ReadWriteBe16(pixel, s, i);
      } else {
        assert s[i] == w[0] && s[i + 1] == w[1];
        Digits16(pixel);
      }
    } else if f.bigEndian != 0 {
      ReadWriteBe32(pixel, s, i);
    } else {
      assert s[i] == w[0] && s[i + 1] == w[1] && s[i + 2] == w[2] && s[i + 3] == w[3];
      Digits32(pixel);
    }
  }

  /** Big-endian pixels have their most significant byte first, little-endian ones last. */
  lemma {:induction false} ByteOrder(f: PixelFormat, s: seq<Byte>)
    requires |s| == f.Size()
    ensures f.Size() == 2 ==> f.Read(s, 0) == if f.bigEndian != 0 then 256 * (s[0] as int) + s[1] else 256 * (s[1] as int) + s[0]
    ensures f.Size() == 4 && f.bigEndian != 0 ==>
              f.Read(s, 0) == 256 * (256 * (256 * (s[0] as int) + s[1]) + s[2]) + s[3]
    ensures f.Size() == 4 && f.bigEndian == 0 ==>
              f.Read(s, 0) == 256 * (256 * (256 * (s[3] as int) + s[2]) + s[1]) + s[0]
  {
  }

  lemma {:induction false} Powers()
    ensures Shl(1, 8) == 0x100 && Shl(1, 16) == 0x1_0000 && Shl(1, 32) == 0x1_0000_0000
  {
    ShlTwice(1, 4, 4);
    ShlTwice(1, 8, 8);
    ShlTwice(1, 16, 16);
    assert Shl(1, 4) == 16;
    ShlScales(Shl(1, 4), 4);
    ShlScales(Shl(1, 8), 8);
    ShlScales(Shl(1, 16), 16);
  }

  lemma {:induction false} ShlScales(n: nat, k: nat)
    ensures Shl(n, k) == n * Shl(1, k)
    decreases k
  {
    if k > 0 {
      ShlScales(n, k - 1);
      Doubles(n, Shl(1, k - 1));
    }
  }

  lemma {:induction false} Doubles(a: nat, b: nat)
    ensures 2 * (a * b) == a * (2 * b)
  {
  }

  /** 2^k - 1 for some k. */
  predicate AllOnes(n: nat) {
    n == 0 || (n % 2 == 1 && AllOnes(n / 2))
  }

  lemma {:induction false} MaskKeeps(v: nat, max: nat)
    requires AllOnes(max) && v <= max
    ensures And(v, max) == v
  {
    if v > 0 { MaskKeeps(v / 2, max / 2); }
  }

  lemma {:induction false} MaskBounds(v: nat, max: nat)
    ensures And(v, max) <= max
  {
    if v > 0 && max > 0 { MaskBounds(v / 2, max / 2); }
  }

  /** A channel comes back from any pixel that has its bits where the format puts them. */
  lemma {:induction false} ExtractPacked(v: nat, c: Channel, packed: nat, width: nat)
    requires And(v, c.max) == v && Low(c.Mask(), width) == c.Mask()
    requires forall j: nat :: Bit(c.Mask(), j) ==> Bit(packed, j) == Bit(Shl(v, c.shift), j)
    ensures c.Extract(Low(packed, width)) == v
  {
    forall i: nat ensures Bit(c.Extract(Low(packed, width)), i) == Bit(v, i) {
      var j := i + c.shift;
      AndBit(Shr(Low(packed, width), c.shift), c.max, i);
      ShrBit(Low(packed, width), c.shift, i);
      LowBit(packed, width, j);
      LowBit(c.Mask(), width, j);
      ShlBit(v, c.shift, j);
      ShlBit(c.max, c.shift, j);
      AndBit(v, c.max, i);
    }
    SameBits(c.Extract(Low(packed, width)), v);
  }

  /** Shifted into place, a channel value keeps to its own field. */
  lemma {:induction false} InField(v: nat, c: Channel, width: nat, j: nat)
    requires And(v, c.max) == v && Low(c.Mask(), width) == c.Mask() && width <= 32
    ensures Bit(Low(Shl(v, c.shift), 32), j) == Bit(Shl(v, c.shift), j)
    ensures Bit(Shl(v, c.shift), j) ==> Bit(c.Mask(), j)
  {
    LowBit(Shl(v, c.shift), 32, j);
    LowBit(c.Mask(), width, j);
    ShlBit(v, c.shift, j);
    ShlBit(c.max, c.shift, j);
    if j >= c.shift { AndBit(v, c.max, j - c.shift); }
  }

  lemma {:induction false} NoSharedBit(a: nat, b: nat, j: nat)
    requires And(a, b) == 0
    ensures !(Bit(a, j) && Bit(b, j))
  {
    AndBit(a, b, j);
    ZeroBit(j);
  }

  /** The bits of a packed pixel are those of its three fields. */
  lemma {:induction false} PackedBit(f: PixelFormat, c: Rgb, j: nat)
    requires f.Valid() && c.r <= f.red.max && c.g <= f.green.max && c.b <= f.blue.max
    ensures Bit(f.red.Mask(), j) ==> Bit(f.Pack(c), j) == Bit(Shl(c.r, f.red.shift), j)
    ensures Bit(f.green.Mask(), j) ==> Bit(f.Pack(c), j) == Bit(Shl(c.g, f.green.shift), j)
    ensures Bit(f.blue.Mask(), j) ==> Bit(f.Pack(c), j) == Bit(Shl(c.b, f.blue.shift), j)
  {
    var r, g, b := Low(Shl(c.r, f.red.shift), 32), Low(Shl(c.g, f.green.shift), 32), Low(Shl(c.b, f.blue.shift), 32);
    OrBit(r, g, j);
    OrBit(Or(r, g), b, j);
    MaskKeeps(c.r, f.red.max);
    MaskKeeps(c.g, f.green.max);
    MaskKeeps(c.b, f.blue.max);
    InField(c.r, f.red, 8 * f.Size(), j);
    InField(c.g, f.green, 8 * f.Size(), j);
    InField(c.b, f.blue, 8 * f.Size(), j);
    NoSharedBit(f.red.Mask(), f.green.Mask(), j);
    NoSharedBit(f.red.Mask(), f.blue.Mask(), j);
    NoSharedBit(f.green.Mask(), f.blue.Mask(), j);
  }

  /** Packing in 32 bits and cutting to the pixel width loses no channel. */
  lemma {:induction false} PackExtract(f: PixelFormat, c: Rgb)
    requires f.Valid() && c.r <= f.red.max && c.g <= f.green.max && c.b <= f.blue.max
    ensures f.Channels(Low(f.Pack(c), 8 * f.Size())) == c
  {
    forall j: nat
      ensures Bit(f.red.Mask(), j) ==> Bit(f.Pack(c), j) == Bit(Shl(c.r, f.red.shift), j)
      ensures Bit(f.green.Mask(), j) ==> Bit(f.Pack(c), j) == Bit(Shl(c.g, f.green.shift), j)
      ensures Bit(f.blue.Mask(), j) ==> Bit(f.Pack(c), j) == Bit(Shl(c.b, f.blue.shift), j)
    {
      PackedBit(f, c, j);
    }
    MaskKeeps(c.r, f.red.max);
    MaskKeeps(c.g, f.green.max);
    MaskKeeps(c.b, f.blue.max);
    ExtractPacked(c.r, f.red, f.Pack(c), 8 * f.Size());
    ExtractPacked(c.g, f.green, f.Pack(c), 8 * f.Size());
    ExtractPacked(c.b, f.blue, f.Pack(c), 8 * f.Size());
  }

  /** `v * to / from` in 32-bit arithmetic, skipped when the ranges are the same. */
  function Scale(v: nat, from: nat, to: nat): nat
    requires from == to || from > 0
  {
    if from == to then v else v * to % 0x1_0000_0000 / from
  }

  /** With 16-bit maxima the product never wraps: the result is the exact quotient, in the new range. */
  lemma {:induction false} ScaleExact(v: nat, from: nat, to: nat)
    requires 0 < from < 0x1_0000 && v <= from && to < 0x1_0000
    ensures var y := Scale(v, from, to); y * from <= v * to < y * from + from && y <= to
  {
    var y := Scale(v, from, to);
    if from != to {
      Product(v, 0xFFFF, to, 0xFFFF);
      Product(v, from, to, to);
      Quotient(v * to, from);
      Cancel(y, to + 1, from);
    }
  }

  lemma {:induction false} Product(a: nat, b: nat, c: nat, d: nat)
    requires a <= b && c <= d
    ensures a * c <= b * d
  {
    assert a * c <= a * d;
  }

  lemma {:induction false} Quotient(n: nat, d: nat)
    requires d > 0
    ensures n / d * d <= n < n / d * d + d
  {
    assert n == n / d * d + n % d;
  }

  lemma {:induction false} Cancel(a: nat, b: nat, m: nat)
    ensures a * m < b * m ==> a < b
    ensures (b + 1) * m == b * m + m
  {
    if a >= b { Product(b, a, m, m); }
  }

  lemma {:induction false} Same(a: nat, b: nat, m: nat)
    requires a * m <= b * m < a * m + m
    ensures a == b
  {
    Cancel(a, b + 1, m);
    Cancel(b, a + 1, m);
    Cancel(0, a, m);
    Cancel(0, b, m);
  }

  lemma {:induction false} Associates(a: nat, b: nat, c: nat)
    ensures a * (b * c) == a * b * c
  {
  }

  lemma {:induction false} ScaleMonotone(u: nat, v: nat, from: nat, to: nat)
    requires u <= v <= from < 0x1_0000 && to < 0x1_0000 && from > 0
    ensures Scale(u, from, to) <= Scale(v, from, to)
    ensures Scale(from, from, to) == to
  {
    ScaleExact(u, from, to);
    ScaleExact(v, from, to);
    ScaleExact(from, from, to);
    Product(u, v, to, to);
    Cancel(Scale(u, from, to), Scale(v, from, to) + 1, from);
    Cancel(0, Scale(v, from, to), from);
    Cancel(to, Scale(from, from, to) + 1, from);
    Cancel(0, Scale(from, from, to), from);
  }

  lemma {:induction false} AtMostOne(v: nat, y: nat, z: nat, narrow: nat, wide: nat)
    requires y * narrow <= v * wide < y * narrow + narrow && z * wide <= y * narrow < z * wide + wide
    requires narrow <= wide
    ensures v as int - 1 <= z <= v
  {
    Cancel(z, v + 1, wide);
    Cancel(0, v, wide);
    Cancel(v, z + 2, wide);
    Cancel(0, z + 1, wide);
    Cancel(0, z, wide);
  }

  /** From a narrow range to a wide one and back, a channel loses at most 1 and never gains. */
  lemma {:induction false} NarrowWideNarrow(v: nat, narrow: nat, wide: nat)
    requires v <= narrow && 0 < narrow <= wide < 0x1_0000
    ensures v as int - 1 <= Scale(Scale(v, narrow, wide), wide, narrow) <= v
  {
    var y := Scale(v, narrow, wide);
    ScaleExact(v, narrow, wide);
    ScaleExact(y, wide, narrow);
    AtMostOne(v, y, Scale(y, wide, narrow), narrow, wide);
  }

  /** It loses nothing on any channel exactly when the wide maximum is a multiple of the narrow one. */
  lemma {:induction false} NarrowWideNarrowExact(narrow: nat, wide: nat)
    requires 0 < narrow <= wide < 0x1_0000
    ensures (forall v: nat :: v <= narrow ==> Scale(Scale(v, narrow, wide), wide, narrow) == v) <==> wide % narrow == 0
  {
    if wide % narrow == 0 {
      forall v: nat | v <= narrow ensures Scale(Scale(v, narrow, wide), wide, narrow) == v {
        LosslessWhenMultiple(v, narrow, wide);
      }
    } else {
      LossyOtherwise(narrow, wide);
    }
  }

  lemma {:induction false} LosslessWhenMultiple(v: nat, narrow: nat, wide: nat)
    requires v <= narrow && 0 < narrow <= wide < 0x1_0000 && wide % narrow == 0
    ensures Scale(Scale(v, narrow, wide), wide, narrow) == v
  {
    var y := Scale(v, narrow, wide);
    ScaleExact(v, narrow, wide);
    MultipleOf(v, narrow, wide);
    Same(y, v * (wide / narrow), narrow);
    ScaleExact(y, wide, narrow);
    Same(Scale(y, wide, narrow), v, wide);
  }

  lemma {:induction false} MultipleOf(v: nat, d: nat, n: nat)
    requires d > 0 && n % d == 0
    ensures v * (n / d) * d == v * n
  {
    var k := n / d;
    assert n == k * d;
    Associates(v, k, d);
  }

  lemma {:induction false} LossyOtherwise(narrow: nat, wide: nat)
    requires 0 < narrow <= wide < 0x1_0000 && wide % narrow != 0
    ensures Scale(Scale(1, narrow, wide), wide, narrow) == 0
  {
    var q, r := wide / narrow, wide % narrow;
    assert wide == q * narrow + r;
    var y := Scale(1, narrow, wide);
    ScaleExact(1, narrow, wide);
    SameQuotient(q, r, y, wide - y * narrow, narrow);
    ScaleExact(y, wide, narrow);
    var z := Scale(y, wide, narrow);
    if z > 0 { Product(1, z, wide, wide); }
  }

  /** The other way round, the loss times the narrow maximum stays below the sum of the maxima. */
  lemma {:induction false} WideNarrowWide(v: nat, narrow: nat, wide: nat)
    requires v <= wide && 0 < narrow <= wide < 0x1_0000
    ensures var z := Scale(Scale(v, wide, narrow), narrow, wide);
            z <= v && v * narrow < z * narrow + (wide + narrow)
  {
    var y := Scale(v, wide, narrow);
    ScaleExact(v, wide, narrow);
    ScaleExact(y, narrow, wide);
    var z := Scale(y, narrow, wide);
    Cancel(z, v + 1, narrow);
    Cancel(0, v, narrow);
  }
}

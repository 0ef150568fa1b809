/**
  The server's own ZRLE (rfb/server.go): pixels in the client's format, cut to the three bytes that
  hold the colour. RFC 6143 describes the cut in section 7.7.5; a decoder that follows it, for any
  format, gets every channel back.
 */
module CPixels {
  import opened Bytes
  import opened Streams
  import opened Bits
  import opened PixelFormats
  import opened Framebuffers
  import opened Colours
  import opened Grid
  import Zlib

  /** The number of bits needed for `n`. */
  function BitLen(n: nat): nat {
    if n == 0 then 0 else 1 + BitLen(n / 2)
  }

  method CountBits(v: nat) returns (n: nat)
    ensures n == BitLen(v)
  {
    n := 0;
    var x := v;
    while x > 0
      invariant n + BitLen(x) == BitLen(v)
    {
      n := n + 1;
      x := x / 2;
    }
  }

  /** No bit lies at or above the bit length. */
  lemma {:induction false} BitLenBounds(n: nat, i: nat)
    ensures Bit(n, i) ==> i < BitLen(n)
    decreases i
  {
    if n == 0 {
      ZeroBit(i);
    } else if i > 0 {
      BitLenBounds(n / 2, i - 1);
    }
  }

  function End(c: Channel): nat {
    c.shift + BitLen(c.max)
  }

  /** Size of a CPIXEL, and where it starts in the full pixel. */
  method ZrleCPixel(pf: PixelFormat) returns (size: nat, offset: nat)
    ensures (size, offset) == CPixel(pf)
    ensures OddMaxima(pf) ==> size == RfcSize(pf)
    ensures OddMaxima(pf) && Spares(pf) ==> offset == if LowOnly(pf) <==> pf.bigEndian != 0 then 1 else 0
  {
    if OddMaxima(pf) { CPixelFollowsRfc(pf); }
    hide OddMaxima, Spares, LowOnly, RfcSize;
    if pf.bitsPerPixel == 32 && pf.depth <= 24 {
      var r := CountBits(pf.red.max);
      var g := CountBits(pf.green.max);
      var b := CountBits(pf.blue.max);
      var rEnd, gEnd, bEnd := pf.red.shift + r, pf.green.shift + g, pf.blue.shift + b;
      var maxEnd := if rEnd >= gEnd && rEnd >= bEnd then rEnd else if gEnd >= bEnd then gEnd else bEnd;
      var minShift := if pf.red.shift <= pf.green.shift && pf.red.shift <= pf.blue.shift then pf.red.shift
                      else if pf.green.shift <= pf.blue.shift then pf.green.shift else pf.blue.shift;
      if maxEnd <= 24 {
        if pf.bigEndian != 0 { return 3, 1; }
        return 3, 0;
      }
      if minShift >= 8 {
        if pf.bigEndian != 0 { return 3, 0; }
        return 3, 1;
      }
    }
    return pf.bitsPerPixel / 8, 0;
  }

  /** All channels lie in the low 24 bits. */
  predicate LowThree(pf: PixelFormat) {
    End(pf.red) <= 24 && End(pf.green) <= 24 && End(pf.blue) <= 24
  }

  /** All channels lie above the low 8 bits. */
  predicate HighThree(pf: PixelFormat) {
    pf.red.shift >= 8 && pf.green.shift >= 8 && pf.blue.shift >= 8
  }

  /** No channel has a bit in the high byte of a word, or none has one in the low byte. */
  ghost predicate LowOnly(pf: PixelFormat) {
    NoBitFrom(pf.red.Mask(), 24) && NoBitFrom(pf.green.Mask(), 24) && NoBitFrom(pf.blue.Mask(), 24)
  }

  ghost predicate HighOnly(pf: PixelFormat) {
    NoBitBelow(pf.red.Mask(), 8) && NoBitBelow(pf.green.Mask(), 8) && NoBitBelow(pf.blue.Mask(), 8)
  }

  ghost predicate NoBitFrom(n: nat, k: nat) { forall i: nat :: i >= k ==> !Bit(n, i) }

  ghost predicate NoBitBelow(n: nat, k: nat) { forall i: nat :: i < k ==> !Bit(n, i) }

  /** RFC 6143, section 7.7.5: three bytes for 32 bits of depth 24 or less with a byte to spare. */
  ghost predicate Spares(pf: PixelFormat) {
    pf.bitsPerPixel == 32 && pf.depth <= 24 && (LowOnly(pf) || HighOnly(pf))
  }

  ghost function RfcSize(pf: PixelFormat): nat {
    if Spares(pf) then 3 else pf.bitsPerPixel as int / 8
  }

  /** The full pixel: the byte left out is the one with no channel bit, first or last by the byte order. */
  ghost function RfcWhole(pf: PixelFormat, cpixel: seq<Byte>): seq<Byte> {
    if !Spares(pf) then cpixel else if LowOnly(pf) <==> pf.bigEndian != 0 then [0] + cpixel else cpixel + [0]
  }

  /** Every channel has a lowest bit of its own, as the 2^k - 1 of true-colour formats do. */
  predicate OddMaxima(pf: PixelFormat) {
    pf.red.max % 2 == 1 && pf.green.max % 2 == 1 && pf.blue.max % 2 == 1
  }

  lemma {:induction false} TopBit(n: nat)
    requires n > 0
    ensures BitLen(n) > 0 && Bit(n, BitLen(n) - 1)
  {
    if n > 1 {
      TopBit(n / 2);
      assert BitLen(n) == 1 + BitLen(n / 2);
    }
  }

  /** A channel ends where its mask does. */
  lemma {:induction false} EndExactly(c: Channel, k: nat)
    requires c.max > 0
    ensures End(c) <= k <==> NoBitFrom(c.Mask(), k)
  {
    TopBit(c.max);
    ShlBit(c.max, c.shift, End(c) - 1);
    if End(c) <= k {
      forall i: nat | i >= k ensures !Bit(c.Mask(), i) {
        ShlBit(c.max, c.shift, i);
        BitLenBounds(c.max, i - c.shift);
      }
    }
  }

  /** And starts where its mask does. */
  lemma {:induction false} StartExactly(c: Channel, k: nat)
    requires c.max % 2 == 1
    ensures c.shift >= k <==> NoBitBelow(c.Mask(), k)
  {
    ShlBit(c.max, c.shift, c.shift);
    forall i: nat | i < c.shift ensures !Bit(c.Mask(), i) {
      ShlBit(c.max, c.shift, i);
    }
  }

  /** The code's size and offset are those of the RFC, stated by the bits of the channel masks alone. */
  lemma {:induction false} CPixelFollowsRfc(pf: PixelFormat)
    requires OddMaxima(pf)
    ensures CPixel(pf).0 == RfcSize(pf)
    ensures Spares(pf) ==> CPixel(pf).1 == if LowOnly(pf) <==> pf.bigEndian != 0 then 1 else 0
    ensures !Spares(pf) ==> CPixel(pf).1 == 0
  {
    hide NoBitFrom, NoBitBelow, BitLen;
    EndExactly(pf.red, 24);
    EndExactly(pf.green, 24);
    EndExactly(pf.blue, 24);
    StartExactly(pf.red, 8);
    StartExactly(pf.green, 8);
    StartExactly(pf.blue, 8);
  }

  /** What lies inside the fields of the channels has no bit outside them. */
  lemma {:induction false} FieldsHoldBits(c: Channel)
    ensures End(c) <= 24 ==> NoBitFrom(c.Mask(), 24)
    ensures c.shift >= 8 ==> NoBitBelow(c.Mask(), 8)
  {
    forall i: nat ensures (End(c) <= 24 && i >= 24) || (c.shift >= 8 && i < 8) ==> !Bit(c.Mask(), i) {
      ShlBit(c.max, c.shift, i);
      if i >= c.shift { BitLenBounds(c.max, i - c.shift); }
    }
  }

  /**
    For any maxima: a byte is left out only where one is spare, and the size is the RFC's exactly unless a
    byte is spare although one field ends above bit 24 and one starts below bit 8.
   */
  lemma {:induction false} SizeFollowsRfcExactly(pf: PixelFormat)
    ensures CPixel(pf).0 == RfcSize(pf) <==>
              || !Spares(pf)
              || (End(pf.red) <= 24 && End(pf.green) <= 24 && End(pf.blue) <= 24)
              || (pf.red.shift >= 8 && pf.green.shift >= 8 && pf.blue.shift >= 8)
    ensures CPixel(pf).0 >= RfcSize(pf)
  {
    hide NoBitFrom, NoBitBelow, BitLen;
    FieldsHoldBits(pf.red);
    FieldsHoldBits(pf.green);
    FieldsHoldBits(pf.blue);
  }

  /**
    With an even maximum the code can miss a spare byte: a red channel without any bits, placed high,
    keeps it from cutting a format whose other channels lie in the low 16 bits.
   */
  lemma {:induction false} EmptyChannelNotCut()
    ensures var pf := PixelFormat(32, 24, 0, 1, Channel(0, 30), Channel(255, 8), Channel(255, 0));
            Spares(pf) && CPixel(pf) == (4, 0)
  {
    var pf := PixelFormat(32, 24, 0, 1, Channel(0, 30), Channel(255, 8), Channel(255, 0));
    forall i: nat | i >= 24
      ensures !Bit(pf.red.Mask(), i) && !Bit(pf.green.Mask(), i) && !Bit(pf.blue.Mask(), i)
    {
      ShlBit(0, 30, i);
      ShlBit(255, 8, i);
      ShlBit(255, 0, i);
      if i >= 30 { ZeroBit(i - 30); }
      Powers();
      NoHighBit(255, 8, i - 8);
      NoHighBit(255, 8, i);
    }
  }

  function CPixel(pf: PixelFormat): (nat, nat) {
    if pf.bitsPerPixel == 32 && pf.depth <= 24 && LowThree(pf) then (3, if pf.bigEndian != 0 then 1 else 0)
    else if pf.bitsPerPixel == 32 && pf.depth <= 24 && HighThree(pf) then (3, if pf.bigEndian != 0 then 0 else 1)
    else (pf.Size(), 0)
  }

  /** What the decoder makes of a CPIXEL: the byte that was left out is zero. */
  function Expanded(pf: PixelFormat, cpixel: seq<Byte>): seq<Byte> {
    if |cpixel| == 3 && pf.Size() == 4 then if CPixel(pf).1 == 1 then [0] + cpixel else cpixel + [0]
    else cpixel
  }

  function Cut(pf: PixelFormat, pixel: seq<Byte>): seq<Byte>
    requires |pixel| == pf.Size() == 4
  {
    pixel[CPixel(pf).1..CPixel(pf).1 + CPixel(pf).0]
  }

  /** A channel below bit `k` depends on the low `k` bits only. */
  lemma {:induction false} LowBitsSuffice(c: Channel, v: nat, u: nat, k: nat)
    requires End(c) <= k && Low(v, k) == Low(u, k)
    ensures c.Extract(v) == c.Extract(u)
  {
    forall i: nat ensures Bit(c.Extract(v), i) == Bit(c.Extract(u), i) {
      LowBitDecides(c, v, u, k, i);
    }
    SameBits(c.Extract(v), c.Extract(u));
  }

  lemma {:induction false} LowBitDecides(c: Channel, v: nat, u: nat, k: nat, i: nat)
    requires End(c) <= k && Low(v, k) == Low(u, k)
    ensures Bit(c.Extract(v), i) == Bit(c.Extract(u), i)
  {
    ExtractBits(c, v, i);
    ExtractBits(c, u, i);
    BitLenBounds(c.max, i);
    LowBit(v, k, i + c.shift);
    LowBit(u, k, i + c.shift);
  }

  /** A channel above bit 8 does not depend on the low 8 bits. */
  lemma {:induction false} HighBitsSuffice(c: Channel, v: nat, u: nat)
    requires c.shift >= 8 && Shr(v, 8) == Shr(u, 8)
    ensures c.Extract(v) == c.Extract(u)
  {
    forall i: nat ensures Bit(c.Extract(v), i) == Bit(c.Extract(u), i) {
      ExtractBits(c, v, i);
      ExtractBits(c, u, i);
      ShrBit(v, 8, i + c.shift - 8);
      ShrBit(u, 8, i + c.shift - 8);
    }
    SameBits(c.Extract(v), c.Extract(u));
  }

  lemma {:induction false} ExtractBits(c: Channel, v: nat, i: nat)
    ensures Bit(c.Extract(v), i) == (Bit(v, i + c.shift) && Bit(c.max, i))
  {
    AndBit(Shr(v, c.shift), c.max, i);
    ShrBit(v, c.shift, i);
  }

  lemma {:induction false} LowIsMod24(n: nat)
    ensures Low(n, 24) == n % 0x100_0000
  {
    LowIsMod(n, 24);
    Power24();
  }

  lemma {:induction false} Power24()
    ensures Shl(1, 24) == 0x100_0000
  {
    ShlTwice(1, 16, 8);
    Powers();
    ShlScales(0x1_0000, 8);
  }

  /** Four bytes as one number, the first the most significant. */
  function Number(a: Byte, b: Byte, c: Byte, d: Byte): nat {
    (a as int) * 0x100_0000 + (b as int) * 0x1_0000 + (c as int) * 256 + d
  }

  lemma {:induction false} NumberParts(a: Byte, b: Byte, c: Byte, d: Byte)
    ensures Number(a, b, c, d) % 0x100_0000 == (b as int) * 0x1_0000 + (c as int) * 256 + d
    ensures Number(a, b, c, d) / 256 == (a as int) * 0x1_0000 + (b as int) * 256 + c
  {
  }

  /** The value of a 4-byte pixel. */
  lemma {:induction false} ReadNumber(pf: PixelFormat, s: seq<Byte>)
    requires |s| == pf.Size() == 4
    ensures pf.Read(s, 0) == if pf.bigEndian != 0 then Number(s[0], s[1], s[2], s[3]) else Number(s[3], s[2], s[1], s[0])
  {
  }

  /** The pixel with its unused byte zeroed has the same channels. */
  lemma {:induction false} CutKeepsColour(pf: PixelFormat, pixel: seq<Byte>)
    requires |pixel| == pf.Size() == 4
    ensures |Expanded(pf, Cut(pf, pixel))| == 4
    ensures pf.Channels(pf.Read(Expanded(pf, Cut(pf, pixel)), 0)) == pf.Channels(pf.Read(pixel, 0))
  {
    var whole := Expanded(pf, Cut(pf, pixel));
    if pf.bitsPerPixel == 32 && pf.depth <= 24 && (LowThree(pf) || HighThree(pf)) {
      var v, u := pf.Read(pixel, 0), pf.Read(whole, 0);
      if LowThree(pf) {
        SameLowBytes(pf, pixel, whole);
        LowBitsSuffice(pf.red, v, u, 24);
        LowBitsSuffice(pf.green, v, u, 24);
        LowBitsSuffice(pf.blue, v, u, 24);
      } else {
        SameHighBytes(pf, pixel, whole);
        HighBitsSuffice(pf.red, v, u);
        HighBitsSuffice(pf.green, v, u);
        HighBitsSuffice(pf.blue, v, u);
      }
    } else {
      assert whole == pixel;
    }
  }

  lemma {:induction false} SameLowBytes(pf: PixelFormat, pixel: seq<Byte>, whole: seq<Byte>)
    requires |pixel| == |whole| == pf.Size() == 4
    requires pf.bigEndian != 0 ==> pixel[1..] == whole[1..]
    requires pf.bigEndian == 0 ==> pixel[..3] == whole[..3]
    ensures Low(pf.Read(pixel, 0), 24) == Low(pf.Read(whole, 0), 24)
  {
    LowIsMod24(pf.Read(pixel, 0));
    LowIsMod24(pf.Read(whole, 0));
    ReadNumber(pf, pixel);
    ReadNumber(pf, whole);
    if pf.bigEndian != 0 {
      var a, b := pixel[1..], whole[1..];
      assert a[0] == b[0] && a[1] == b[1] && a[2] == b[2];
      NumberParts(pixel[0], pixel[1], pixel[2], pixel[3]);
      NumberParts(whole[0], pixel[1], pixel[2], pixel[3]);
    } else {
      var a, b := pixel[..3], whole[..3];
      assert a[0] == b[0] && a[1] == b[1] && a[2] == b[2];
      NumberParts(pixel[3], pixel[2], pixel[1], pixel[0]);
      NumberParts(whole[3], pixel[2], pixel[1], pixel[0]);
    }
  }

  lemma {:induction false} SameHighBytes(pf: PixelFormat, pixel: seq<Byte>, whole: seq<Byte>)
    requires |pixel| == |whole| == pf.Size() == 4
    requires pf.bigEndian != 0 ==> pixel[..3] == whole[..3]
    requires pf.bigEndian == 0 ==> pixel[1..] == whole[1..]
    ensures Shr(pf.Read(pixel, 0), 8) == Shr(pf.Read(whole, 0), 8)
  {
    ShrByte(pf.Read(pixel, 0));
    ShrByte(pf.Read(whole, 0));
    ReadNumber(pf, pixel);
    ReadNumber(pf, whole);
    if pf.bigEndian != 0 {
      var a, b := pixel[..3], whole[..3];
      assert a[0] == b[0] && a[1] == b[1] && a[2] == b[2];
      NumberParts(pixel[0], pixel[1], pixel[2], pixel[3]);
      NumberParts(pixel[0], pixel[1], pixel[2], whole[3]);
    } else {
      var a, b := pixel[1..], whole[1..];
      assert a[0] == b[0] && a[1] == b[1] && a[2] == b[2];
      NumberParts(pixel[3], pixel[2], pixel[1], pixel[0]);
      NumberParts(pixel[3], pixel[2], pixel[1], whole[0]);
    }
  }

  /** Reads the channels of the pixel whose bytes start at an offset. */
  type PixelRead = (seq<Byte>, nat) -> Rgb

  /** The channels of the cut pixel at offset `o`, as a specification decoder finds them. */
  function DecodedAt(pf: PixelFormat, data: seq<Byte>, o: nat): Rgb {
    var size := CPixel(pf).0;
    if pf.Size() == 4 && o + size <= |data| then pf.Channels(pf.Read(Expanded(pf, data[o..o + size]), 0)) else Rgb(0, 0, 0)
  }

  function CutReader(pf: PixelFormat): PixelRead {
    (data: seq<Byte>, o: nat) => DecodedAt(pf, data, o)
  }

  /** The same for a decoder that knows the RFC and not the server's code. */
  ghost function RfcColour(pf: PixelFormat, data: seq<Byte>, o: nat): Rgb {
    var size := RfcSize(pf);
    if pf.Size() == 4 && o + size <= |data| then pf.Channels(pf.Read(RfcWhole(pf, data[o..o + size]), 0)) else Rgb(0, 0, 0)
  }

  ghost function RfcReader(pf: PixelFormat): PixelRead {
    (data: seq<Byte>, o: nat) => RfcColour(pf, data, o)
  }

  lemma {:induction false} RfcReadsCut(pf: PixelFormat, data: seq<Byte>, o: nat)
    requires OddMaxima(pf)
    ensures RfcColour(pf, data, o) == DecodedAt(pf, data, o)
  {
    hide LowThree, HighThree, LowOnly, HighOnly, PixelFormat.Read, PixelFormat.Channels;
    CPixelFollowsRfc(pf);
  }

  /** Wherever the bytes stand, they are read as this colour. */
  ghost predicate Means(read: PixelRead, bytes: seq<Byte>, colour: Rgb) {
    forall data: seq<Byte>, o: nat :: Sits(data, o, bytes) ==> read(data, o) == colour
  }

  lemma {:induction false} CutMeans(pf: PixelFormat, pixel: seq<Byte>)
    requires |pixel| == pf.Size() == 4
    ensures Means(CutReader(pf), Cut(pf, pixel), pf.Channels(pf.Read(pixel, 0)))
  {
    hide PixelFormat.Channels, PixelFormat.Read, Expanded;
    forall data: seq<Byte>, o: nat | Sits(data, o, Cut(pf, pixel))
      ensures DecodedAt(pf, data, o) == pf.Channels(pf.Read(pixel, 0))
    {
      assert data[o..o + CPixel(pf).0] == Cut(pf, pixel);
      CutKeepsColour(pf, pixel);
    }
  }

  /** The colour at every position. */
  type ColourMap = (int, int) -> Rgb

  /** The channels of the converted pixel (x, y) of a region. */
  function ChannelsOf(pf: PixelFormat, clientPixels: seq<Byte>, rw: nat, x: int, y: int): Rgb {
    if 0 <= x && 0 <= y && pf.Size() == 4 && Offset(x, y, rw) + 4 <= |clientPixels|
    then pf.Channels(pf.Read(clientPixels, Offset(x, y, rw)))
    else Rgb(0, 0, 0)
  }

  ghost function RegionColours(pf: PixelFormat, clientPixels: seq<Byte>, rw: nat): ColourMap {
    (x, y) => ChannelsOf(pf, clientPixels, rw, x, y)
  }

  predicate Uniform(px: seq<seq<Byte>>, size: nat) {
    forall i :: 0 <= i < |px| ==> |px[i]| == size
  }

  /** The cut pixels of a w x h tile at (x0, y0), row by row. */
  ghost predicate CutTile(read: PixelRead, size: nat, px: seq<seq<Byte>>, colours: ColourMap, x0: int, y0: int, w: nat, h: nat) {
    && |px| == At(h, w) && Uniform(px, size)
    && forall c: nat, r: nat :: c < w && r < h ==> IsCut(read, px, colours, x0, y0, w, c, r)
  }

  ghost predicate IsCut(read: PixelRead, px: seq<seq<Byte>>, colours: ColourMap, x0: int, y0: int, w: nat, c: nat, r: nat) {
    At(r, w) + c < |px| && Means(read, px[At(r, w) + c], colours(x0 + c, y0 + r))
  }

  /** The bytes written for a list of cut pixels. */
  ghost function TileBytes(px: seq<seq<Byte>>): seq<Byte>
    requires px != []
  {
    if forall k :: 0 <= k < |px| ==> px[k] == px[0] then [1] + px[0] else [0] + Concat(px)
  }

  /** The inner loop's writes for one tile: one colour, or all of them. */
  method EncodeTile(writer: Zlib.Writer, px: seq<seq<Byte>>) returns (ghost bytes: seq<Byte>)
    requires px != []
    modifies writer`pending
    ensures writer.pending == old(writer.pending) + bytes
    ensures bytes == TileBytes(px)
  {
    var solid := true;
    var i := 1;
    while i < |px| && solid
      invariant 1 <= i <= |px| && (solid <==> forall k :: 0 <= k < i ==> px[k] == px[0])
      decreases |px| - i, solid
    {
      if px[i] != px[0] { solid := false; }
      i := i + 1;
    }
    var first, all := px[0], Concat(px);
    if solid {
      writer.Write([1]);
      writer.Write(first);
      bytes := [1] + first;
      assert old(writer.pending) + [1] + first == old(writer.pending) + bytes;
    } else {
      writer.Write([0]);
      writer.Write(all);
      bytes := [0] + all;
      assert old(writer.pending) + [0] + all == old(writer.pending) + bytes;
    }
  }

  /** Pixel (c, r) of a raw or solid tile at `o`; no other subencoding is written. */
  function TilePixel(read: PixelRead, size: nat, data: seq<Byte>, o: nat, w: nat, c: nat, r: nat): Option<Rgb> {
    if o >= |data| || data[o] > 1 then None
    else Some(read(data, PixelPlace(data[o], o, At(r, w) + c, size)))
  }

  /** Where pixel `k` of a tile at `o` stands: all pixels of a solid tile share one place. */
  function PixelPlace(subtype: Byte, o: nat, k: nat, size: nat): nat {
    if subtype == 1 then o + 1 else o + 1 + At(k, size)
  }

  /** Where a decoder expects the next tile. */
  function TileEnd(size: nat, data: seq<Byte>, o: nat, w: nat, h: nat): nat
    requires o < |data|
  {
    if data[o] == 1 then o + 1 + size else o + 1 + At(At(h, w), size)
  }

  lemma {:induction false} ConcatAt(px: seq<seq<Byte>>, size: nat, data: seq<Byte>, o: nat, k: nat)
    requires k < |px| && Sits(data, o, Concat(px)) && Uniform(px, size)
    ensures Sits(data, o + At(k, size), px[k])
    decreases k
  {
    ConcatSits(data, o, px);
    if k > 0 {
      ConcatAt(px[1..], size, data, o + size, k - 1);
      assert px[1..][k - 1] == px[k];
    }
  }

  lemma {:induction false} ConcatSize(px: seq<seq<Byte>>, size: nat)
    requires Uniform(px, size)
    ensures |Concat(px)| == At(|px|, size)
  {
    if px != [] { ConcatSize(px[1..], size); }
  }

  lemma {:induction false} RawSits(px: seq<seq<Byte>>, data: seq<Byte>, o: nat, size: nat, k: nat)
    requires k < |px| && Uniform(px, size) && Sits(data, o, [0] + Concat(px))
    ensures Sits(data, o + 1 + At(k, size), px[k])
  {
    SitsSplit(data, o, [0], Concat(px));
    ConcatAt(px, size, data, o + 1, k);
  }

  lemma {:induction false} TileSits(px: seq<seq<Byte>>, data: seq<Byte>, o: nat, size: nat, k: nat)
    requires k < |px| && Uniform(px, size) && Sits(data, o, TileBytes(px))
    ensures o < |data| && data[o] <= 1 && Sits(data, PixelPlace(data[o], o, k, size), px[k])
  {
    assert data[o] == TileBytes(px)[0];
    if forall i :: 0 <= i < |px| ==> px[i] == px[0] {
      assert px[k] == px[0];
      SitsSplit(data, o, [1], px[0]);
    } else {
      RawSits(px, data, o, size, k);
    }
  }

  lemma {:induction false} TileEnds(px: seq<seq<Byte>>, size: nat, w: nat, h: nat, data: seq<Byte>, o: nat)
    requires px != [] && |px| == At(h, w) && Uniform(px, size) && Sits(data, o, TileBytes(px))
    ensures o < |data| && TileEnd(size, data, o, w, h) == o + |TileBytes(px)|
  {
    assert data[o] == TileBytes(px)[0];
    ConcatSize(px, size);
  }

  /** Part i holds tile i of the region. */
  ghost predicate PartCut(read: PixelRead, size: nat, part: seq<Byte>, tile: Rect, colours: ColourMap) {
    exists px :: px != [] && CutTile(read, size, px, colours, tile.x0, tile.y0, tile.Width(), tile.Height())
              && part == TileBytes(px)
  }

  /** Every pixel of a tile is read with its colour, and the next tile is expected right behind it. */
  lemma {:induction false} PartRecovers(
    read: PixelRead, size: nat, part: seq<Byte>, tile: Rect, colours: ColourMap, data: seq<Byte>, o: nat, c: nat, r: nat)
    requires PartCut(read, size, part, tile, colours) && c < tile.Width() && r < tile.Height() && Sits(data, o, part)
    ensures o < |data| && TileEnd(size, data, o, tile.Width(), tile.Height()) == o + |part|
    ensures TilePixel(read, size, data, o, tile.Width(), c, r) == Some(colours(tile.x0 + c, tile.y0 + r))
  {
    hide TileBytes, TileEnd, Sits, Rect.Width, Rect.Height, At;
    var w, h := tile.Width(), tile.Height();
    var px :| px != [] && CutTile(read, size, px, colours, tile.x0, tile.y0, w, h) && part == TileBytes(px);
    TileEnds(px, size, w, h, data, o);
    assert IsCut(read, px, colours, tile.x0, tile.y0, w, c, r);
    TileSits(px, data, o, size, At(r, w) + c);
  }

  lemma {:induction false} PartCutAlike(
    read: PixelRead, other: PixelRead, size: nat, part: seq<Byte>, tile: Rect, colours: ColourMap)
    requires PartCut(read, size, part, tile, colours)
    requires forall data: seq<Byte>, o: nat :: other(data, o) == read(data, o)
    ensures PartCut(other, size, part, tile, colours)
  {
    var x0, y0, w, h := tile.x0, tile.y0, tile.Width(), tile.Height();
    var px :| px != [] && CutTile(read, size, px, colours, x0, y0, w, h) && part == TileBytes(px);
    forall c: nat, r: nat | c < w && r < h ensures IsCut(other, px, colours, x0, y0, w, c, r) {
      assert IsCut(read, px, colours, x0, y0, w, c, r);
    }
    assert CutTile(other, size, px, colours, x0, y0, w, h);
  }

  ghost predicate AllCut(read: PixelRead, size: nat, parts: seq<seq<Byte>>, tiles: seq<Rect>, colours: ColourMap) {
    |parts| <= |tiles| && forall k :: 0 <= k < |parts| ==> PartCut(read, size, parts[k], tiles[k], colours)
  }

  lemma {:induction false} PartSits(parts: seq<seq<Byte>>, i: nat)
    requires i < |parts|
    ensures Sits(Concat(parts), |Concat(parts[..i])|, parts[i])
    ensures |Concat(parts[..i + 1])| == |Concat(parts[..i])| + |parts[i]|
  {
    assert parts == parts[..i] + ([parts[i]] + parts[i + 1..]);
    ConcatAppend(parts[..i], [parts[i]] + parts[i + 1..]);
    ConcatAppend([parts[i]], parts[i + 1..]);
    ConcatOne(parts[i]);
    assert parts[..i + 1] == parts[..i] + [parts[i]];
    ConcatAppend(parts[..i], [parts[i]]);
    var before, part, after := Concat(parts[..i]), parts[i], Concat(parts[i + 1..]);
    assert Concat(parts) == before + (part + after);
  }

  /** Where tile `i` of the region starts. */
  function StartOf(parts: seq<seq<Byte>>, i: nat): nat
    requires i <= |parts|
  {
    |Concat(parts[..i])|
  }

  /**
    Decoding a region: each tile starts where the decoder expects it after the one before, and each of
    its pixels is read with the channels of the converted pixel at its place, for every format.
   */
  lemma {:induction false} RegionRecovers(
    parts: seq<seq<Byte>>, tiles: seq<Rect>, i: nat, pf: PixelFormat, clientPixels: seq<Byte>, rw: nat, c: nat, r: nat)
    requires |parts| == |tiles| && i < |tiles|
    requires AllCut(CutReader(pf), CPixel(pf).0, parts, tiles, RegionColours(pf, clientPixels, rw))
    requires c < tiles[i].Width() && r < tiles[i].Height()
    ensures var tile, data, o, size := tiles[i], Concat(parts), StartOf(parts, i), CPixel(pf).0;
            && o < |data| && TileEnd(size, data, o, tile.Width(), tile.Height()) == StartOf(parts, i + 1)
            && TilePixel(CutReader(pf), size, data, o, tile.Width(), c, r)
               == Some(RegionColours(pf, clientPixels, rw)(tile.x0 + c, tile.y0 + r))
  {
    PartRead(parts, tiles, i, CutReader(pf), CPixel(pf).0, RegionColours(pf, clientPixels, rw), c, r);
  }

  /** The same for a decoder that has its size and its spare byte from the RFC. */
  lemma {:induction false} RfcRecovers(
    parts: seq<seq<Byte>>, tiles: seq<Rect>, i: nat, pf: PixelFormat, clientPixels: seq<Byte>, rw: nat, c: nat, r: nat)
    requires |parts| == |tiles| && i < |tiles|
    requires AllCut(RfcReader(pf), RfcSize(pf), parts, tiles, RegionColours(pf, clientPixels, rw))
    requires c < tiles[i].Width() && r < tiles[i].Height()
    ensures var tile, data, o, size := tiles[i], Concat(parts), StartOf(parts, i), RfcSize(pf);
            && o < |data| && TileEnd(size, data, o, tile.Width(), tile.Height()) == StartOf(parts, i + 1)
            && TilePixel(RfcReader(pf), size, data, o, tile.Width(), c, r)
               == Some(RegionColours(pf, clientPixels, rw)(tile.x0 + c, tile.y0 + r))
  {
    PartRead(parts, tiles, i, RfcReader(pf), RfcSize(pf), RegionColours(pf, clientPixels, rw), c, r);
  }

  lemma {:induction false} PartRead(
    parts: seq<seq<Byte>>, tiles: seq<Rect>, i: nat, read: PixelRead, size: nat, colours: ColourMap, c: nat, r: nat)
    requires |parts| == |tiles| && i < |tiles| && AllCut(read, size, parts, tiles, colours)
    requires c < tiles[i].Width() && r < tiles[i].Height()
    ensures var tile, data, o := tiles[i], Concat(parts), StartOf(parts, i);
            && o < |data| && TileEnd(size, data, o, tile.Width(), tile.Height()) == StartOf(parts, i + 1)
            && TilePixel(read, size, data, o, tile.Width(), c, r) == Some(colours(tile.x0 + c, tile.y0 + r))
  {
    var part, data, o := parts[i], Concat(parts), StartOf(parts, i);
    assert Sits(data, o, part) && StartOf(parts, i + 1) == o + |part| by {
      PartSits(parts, i);
    }
    assert PartCut(read, size, part, tiles[i], colours);
    PartRecovers(read, size, part, tiles[i], colours, data, o, c, r);
  }

  lemma {:induction false} SliceOfSlice(s: seq<Byte>, o: nat, n: nat, i: nat, j: nat)
    requires i <= j <= n && o + n <= |s|
    ensures s[o..o + n][i..j] == s[o + i..o + j]
  {
    var a, b := s[o..o + n][i..j], s[o + i..o + j];
    forall k | 0 <= k < j - i ensures a[k] == b[k] {
      assert a[k] == s[o..o + n][i + k] == s[o + i + k];
    }
  }

  lemma {:induction false} SamePixel(pf: PixelFormat, s: seq<Byte>, i: nat)
    requires pf.Size() == 4 && i + 4 <= |s|
    ensures pf.Read(s, i) == pf.Read(s[i..i + 4], 0)
  {
    var pixel := s[i..i + 4];
    assert pixel[0] == s[i] && pixel[1] == s[i + 1] && pixel[2] == s[i + 2] && pixel[3] == s[i + 3];
  }

  /** The slice the loop copies for pixel (x, y) stands for its colour. */
  ghost predicate CutHere(
    read: PixelRead, colours: ColourMap, clientPixels: seq<Byte>, rw: nat, size: nat, offset: nat, x: nat, y: nat)
  {
    var o := Offset(x, y, rw) + offset;
    o + size <= |clientPixels| && Means(read, clientPixels[o..o + size], colours(x, y))
  }

  /** So it is for every pixel of the region. */
  ghost predicate Cuttable(
    read: PixelRead, colours: ColourMap, clientPixels: seq<Byte>, rw: nat, rh: nat, size: nat, offset: nat)
  {
    forall x: nat, y: nat :: x < rw && y < rh ==> CutHere(read, colours, clientPixels, rw, size, offset, x, y)
  }

  lemma {:induction false} CutSlice(pf: PixelFormat, s: seq<Byte>, o: nat, size: nat, offset: nat)
    requires pf.Size() == 4 && (size, offset) == CPixel(pf) && o + 4 <= |s|
    ensures offset + size <= 4 && s[o + offset..o + offset + size] == Cut(pf, s[o..o + 4])
  {
    SliceOfSlice(s, o, 4, offset, offset + size);
  }

  lemma {:induction false} RegionColour(pf: PixelFormat, s: seq<Byte>, rw: nat, x: nat, y: nat)
    requires pf.Size() == 4 && Offset(x, y, rw) + 4 <= |s|
    ensures RegionColours(pf, s, rw)(x, y) == pf.Channels(pf.Read(s[Offset(x, y, rw)..Offset(x, y, rw) + 4], 0))
  {
    SamePixel(pf, s, Offset(x, y, rw));
  }

  lemma {:induction false} SliceCut(
    read: PixelRead, colours: ColourMap, s: seq<Byte>, rw: nat, size: nat, offset: nat, x: nat, y: nat, cut: seq<Byte>,
    colour: Rgb)
    requires Offset(x, y, rw) + offset + size <= |s|
    requires s[Offset(x, y, rw) + offset..Offset(x, y, rw) + offset + size] == cut
    requires Means(read, cut, colour) && colours(x, y) == colour
    ensures CutHere(read, colours, s, rw, size, offset, x, y)
  {
  }

  lemma {:induction false} SliceMeans(pf: PixelFormat, s: seq<Byte>, rw: nat, x: nat, y: nat, size: nat, offset: nat)
    requires pf.Size() == 4 && (size, offset) == CPixel(pf) && Offset(x, y, rw) + 4 <= |s|
    ensures CutHere(CutReader(pf), RegionColours(pf, s, rw), s, rw, size, offset, x, y)
  {
    hide CPixel, Cut, CutReader, RegionColours, Offset, Means, CutHere, PixelFormat.Channels, PixelFormat.Read;
    var o := Offset(x, y, rw);
    var pixel := s[o..o + 4];
    CutSlice(pf, s, o, size, offset);
    RegionColour(pf, s, rw, x, y);
    CutMeans(pf, pixel);
    SliceCut(CutReader(pf), RegionColours(pf, s, rw), s, rw, size, offset, x, y, Cut(pf, pixel), pf.Channels(pf.Read(pixel, 0)));
  }

  lemma {:induction false} AllCuttable(pf: PixelFormat, s: seq<Byte>, rw: nat, rh: nat, size: nat, offset: nat)
    requires pf.Size() == 4 && (size, offset) == CPixel(pf) && |s| == 4 * At(rh, rw)
    ensures Cuttable(CutReader(pf), RegionColours(pf, s, rw), s, rw, rh, size, offset)
  {
    forall x: nat, y: nat | x < rw && y < rh
      ensures CutHere(CutReader(pf), RegionColours(pf, s, rw), s, rw, size, offset, x, y)
    {
      OffsetInside(x, y, rw, rh);
      SliceMeans(pf, s, rw, x, y, size, offset);
    }
  }

  lemma {:induction false} OneMoreCut(
    read: PixelRead, size: nat, line: seq<seq<Byte>>, item: seq<Byte>, colours: ColourMap, x0: int, y: int, w: nat,
    col: nat)
    requires Uniform(line, size) && |item| == size && |line| == col && Means(read, item, colours(x0 + col, y))
    requires forall c: nat :: c < col ==> IsCut(read, line, colours, x0, y, w, c, 0)
    ensures Uniform(line + [item], size)
    ensures forall c: nat :: c < col + 1 ==> IsCut(read, line + [item], colours, x0, y, w, c, 0)
  {
    forall c: nat | c < col + 1 ensures IsCut(read, line + [item], colours, x0, y, w, c, 0) {
      if c < col { assert IsCut(read, line, colours, x0, y, w, c, 0); }
    }
  }

  method CutRow(clientPixels: seq<Byte>, rw: nat, rh: nat, x0: nat, y: nat, w: nat, size: nat, offset: nat,
                ghost read: PixelRead, ghost colours: ColourMap)
    returns (line: seq<seq<Byte>>)
    requires Cuttable(read, colours, clientPixels, rw, rh, size, offset) && x0 + w <= rw && y < rh
    ensures CutTile(read, size, line, colours, x0, y, w, 1)
  {
    line := [];
    for col := 0 to w
      invariant |line| == col && Uniform(line, size)
      invariant forall c: nat :: c < col ==> IsCut(read, line, colours, x0, y, w, c, 0)
    {
      var srcOff := (y * rw + (x0 + col)) * 4;
      AtIsProduct(y, rw);
      assert CutHere(read, colours, clientPixels, rw, size, offset, x0 + col, y);
      var item := clientPixels[srcOff + offset..srcOff + offset + size];
      OneMoreCut(read, size, line, item, colours, x0, y, w, col);
      line := line + [item];
    }
  }

  /** The loop that fills `tilePixels`. */
  method CutPixels(clientPixels: seq<Byte>, rw: nat, rh: nat, x0: nat, y0: nat, w: nat, h: nat, size: nat, offset: nat,
                   ghost read: PixelRead, ghost colours: ColourMap)
    returns (px: seq<seq<Byte>>)
    requires Cuttable(read, colours, clientPixels, rw, rh, size, offset) && x0 + w <= rw && y0 + h <= rh
    ensures CutTile(read, size, px, colours, x0, y0, w, h)
  {
    px := [];
    for row := 0 to h
      invariant CutTile(read, size, px, colours, x0, y0, w, row)
    {
      var line := CutRow(clientPixels, rw, rh, x0, y0 + row, w, size, offset, read, colours);
      NextCutRow(read, size, px, line, colours, x0, y0, w, row);
      px := px + line;
    }
  }

  lemma {:induction false} NextCutRow(
    read: PixelRead, size: nat, px: seq<seq<Byte>>, line: seq<seq<Byte>>, colours: ColourMap, x0: int, y0: int, w: nat, row: nat)
    requires CutTile(read, size, px, colours, x0, y0, w, row) && CutTile(read, size, line, colours, x0, y0 + row, w, 1)
    ensures CutTile(read, size, px + line, colours, x0, y0, w, row + 1)
  {
    var all, n := px + line, row + 1;
    assert At(1, w) == At(0, w) + w;
    forall c: nat, r: nat | c < w && r < n ensures IsCut(read, all, colours, x0, y0, w, c, r) {
      if r < row {
        AtGrows(r, row, w);
        assert IsCut(read, px, colours, x0, y0, w, c, r);
      } else {
        assert IsCut(read, line, colours, x0, y0 + row, w, c, 0);
      }
    }
  }

  /** The server's tile loops over a region in the client's format. */
  method EncodeRegion(writer: Zlib.Writer, pf: PixelFormat, clientPixels: seq<Byte>, rw: nat, rh: nat)
    returns (ghost parts: seq<seq<Byte>>)
    requires pf.Size() == 4 && |clientPixels| == 4 * At(rh, rw)
    modifies writer`pending
    ensures writer.pending == old(writer.pending) + Concat(parts) && |parts| == |Tiles(Rect(0, 0, rw, rh))|
    ensures AllCut(CutReader(pf), CPixel(pf).0, parts, Tiles(Rect(0, 0, rw, rh)), RegionColours(pf, clientPixels, rw))
    ensures OddMaxima(pf) ==>
              AllCut(RfcReader(pf), RfcSize(pf), parts, Tiles(Rect(0, 0, rw, rh)), RegionColours(pf, clientPixels, rw))
  {
    var size, offset := ZrleCPixel(pf);
    AllCuttable(pf, clientPixels, rw, rh, size, offset);
    parts := EncodeTiles(writer, clientPixels, rw, rh, size, offset, CutReader(pf), RegionColours(pf, clientPixels, rw));
    if OddMaxima(pf) { AllCutForRfc(pf, parts, Tiles(Rect(0, 0, rw, rh)), RegionColours(pf, clientPixels, rw)); }
  }

  lemma {:induction false} AllCutForRfc(pf: PixelFormat, parts: seq<seq<Byte>>, tiles: seq<Rect>, colours: ColourMap)
    requires OddMaxima(pf) && AllCut(CutReader(pf), CPixel(pf).0, parts, tiles, colours)
    ensures AllCut(RfcReader(pf), RfcSize(pf), parts, tiles, colours)
  {
    hide PartCut, CPixel, DecodedAt, RfcColour, OddMaxima;
    CPixelFollowsRfc(pf);
    var read, other := CutReader(pf), RfcReader(pf);
    forall data: seq<Byte>, o: nat ensures other(data, o) == read(data, o) {
      RfcReadsCut(pf, data, o);
    }
    forall k | 0 <= k < |parts| ensures PartCut(other, RfcSize(pf), parts[k], tiles[k], colours) {
      assert PartCut(read, RfcSize(pf), parts[k], tiles[k], colours);
      PartCutAlike(read, other, RfcSize(pf), parts[k], tiles[k], colours);
    }
  }

  method EncodeTiles(writer: Zlib.Writer, clientPixels: seq<Byte>, rw: nat, rh: nat, size: nat, offset: nat,
                     ghost read: PixelRead, ghost colours: ColourMap)
    returns (ghost parts: seq<seq<Byte>>)
    requires Cuttable(read, colours, clientPixels, rw, rh, size, offset)
    modifies writer`pending
    ensures writer.pending == old(writer.pending) + Concat(parts) && |parts| == |Tiles(Rect(0, 0, rw, rh))|
    ensures AllCut(read, size, parts, Tiles(Rect(0, 0, rw, rh)), colours)
  {
    ghost var area, sent := Rect(0, 0, rw, rh), writer.pending;
    ghost var all := Tiles(area);
    parts := [];
    var tileY := 0;
    while tileY < rh
      invariant Encoding(read, size, parts, all, TilesFrom(0, tileY, area), colours, sent, writer.pending)
    {
      parts := EncodeRow(writer, clientPixels, rw, rh, tileY, size, offset, read, colours, parts, all, area, sent);
      tileY := tileY + TILE;
    }
  }

  /** The inner tile loop. */
  method EncodeRow(writer: Zlib.Writer, clientPixels: seq<Byte>, rw: nat, rh: nat, tileY: nat, size: nat, offset: nat,
                   ghost read: PixelRead, ghost colours: ColourMap, ghost before: seq<seq<Byte>>, ghost all: seq<Rect>,
                   ghost area: Rect, ghost sent: seq<Byte>)
    returns (ghost parts: seq<seq<Byte>>)
    requires Cuttable(read, colours, clientPixels, rw, rh, size, offset) && tileY < rh && area == Rect(0, 0, rw, rh)
    requires Encoding(read, size, before, all, TilesFrom(0, tileY, area), colours, sent, writer.pending)
    modifies writer`pending
    ensures Encoding(read, size, parts, all, TilesFrom(0, tileY + TILE, area), colours, sent, writer.pending)
  {
    parts := before;
    var tileH := Min(TILE, rh - tileY);
    var tileX := 0;
    while tileX < rw
      invariant Encoding(read, size, parts, all, TilesFrom(tileX, tileY, area), colours, sent, writer.pending)
    {
      var tileW := Min(TILE, rw - tileX);
      ghost var pending := writer.pending;
      ghost var bytes := EncodeOne(writer, clientPixels, rw, rh, tileX, tileY, tileW, tileH, size, offset, read, colours);
      NextPart(read, size, parts, all, tileX, tileY, area, colours, sent, pending, bytes);
      parts := parts + [bytes];
      tileX := tileX + TILE;
    }
  }

  /** One tile: cut, compared, written. */
  method EncodeOne(writer: Zlib.Writer, clientPixels: seq<Byte>, rw: nat, rh: nat, tileX: nat, tileY: nat, tileW: nat,
                   tileH: nat, size: nat, offset: nat, ghost read: PixelRead, ghost colours: ColourMap)
    returns (ghost bytes: seq<Byte>)
    requires Cuttable(read, colours, clientPixels, rw, rh, size, offset)
    requires tileX + tileW <= rw && tileY + tileH <= rh && tileW > 0 && tileH > 0
    modifies writer`pending
    ensures writer.pending == old(writer.pending) + bytes
    ensures PartCut(read, size, bytes, Rect(tileX, tileY, tileX + tileW, tileY + tileH), colours)
  {
    var px := CutPixels(clientPixels, rw, rh, tileX, tileY, tileW, tileH, size, offset, read, colours);
    AtGrows(0, tileH, tileW);
    bytes := EncodeTile(writer, px);
  }

  /** The parts so far are the first tiles, `rest` are the tiles still to come, and all parts are written. */
  ghost predicate Encoding(
    read: PixelRead, size: nat, parts: seq<seq<Byte>>, all: seq<Rect>, rest: seq<Rect>, colours: ColourMap,
    sent: seq<Byte>, pending: seq<Byte>)
  {
    AllCut(read, size, parts, all, colours) && all[|parts|..] == rest && pending == sent + Concat(parts)
  }

  lemma {:induction false} TakeHead(all: seq<Rect>, n: nat, rest: seq<Rect>)
    requires n <= |all| && all[n..] == rest && rest != []
    ensures n < |all| && all[n] == rest[0] && all[n + 1..] == rest[1..]
  {
    assert all[n..][0] == all[n] && all[n..][1..] == all[n + 1..];
  }

  lemma {:induction false} MoreCut(
    read: PixelRead, size: nat, parts: seq<seq<Byte>>, tiles: seq<Rect>, bytes: seq<Byte>, colours: ColourMap)
    requires AllCut(read, size, parts, tiles, colours) && |parts| < |tiles|
    requires PartCut(read, size, bytes, tiles[|parts|], colours)
    ensures AllCut(read, size, parts + [bytes], tiles, colours)
  {
    var more := parts + [bytes];
    forall k | 0 <= k < |more| ensures PartCut(read, size, more[k], tiles[k], colours) {
      if k < |parts| { assert more[k] == parts[k]; }
    }
  }

  lemma {:induction false} Assoc(a: seq<Byte>, b: seq<Byte>, c: seq<Byte>)
    ensures a + (b + c) == a + b + c
  {
  }

  lemma {:induction false} NextPart(
    read: PixelRead, size: nat, parts: seq<seq<Byte>>, all: seq<Rect>, tx: nat, ty: nat, area: Rect, colours: ColourMap,
    sent: seq<Byte>, pending: seq<Byte>, bytes: seq<Byte>)
    requires Encoding(read, size, parts, all, TilesFrom(tx, ty, area), colours, sent, pending)
    requires tx < area.x1 && ty < area.y1 && PartCut(read, size, bytes, TileAt(tx, ty, area), colours)
    ensures Encoding(read, size, parts + [bytes], all, TilesFrom(tx + TILE, ty, area), colours, sent, pending + bytes)
  {
    TilesHead(tx, ty, area);
    TakeHead(all, |parts|, TilesFrom(tx, ty, area));
    MoreCut(read, size, parts, all, bytes, colours);
    ConcatAppend(parts, [bytes]);
    ConcatOne(bytes);
    Assoc(sent, Concat(parts), bytes);
  }

  /**
    In the browser's format the cut pixel is R, G, B; the browser's decoder takes the three bytes for B, G, R. It
    shows the right colour exactly when red and blue are equal.
   */
  lemma {:induction false} BrowserReadsCut(pixel: seq<Byte>, data: seq<Byte>, o: nat)
    requires |pixel| == 4 && Sits(data, o, Cut(RGBA_FORMAT, pixel))
    ensures ColourAt(data, o).Opaque() == Rgba(pixel[2], pixel[1], pixel[0], 255)
    ensures ColourAt(data, o).Opaque() == Rgba(pixel[0], pixel[1], pixel[2], 255) <==> pixel[0] == pixel[2]
  {
    BitLen255();
    var cut := Cut(RGBA_FORMAT, pixel);
    assert cut == pixel[0..3];
    assert cut[0] == data[o] && cut[1] == data[o + 1] && cut[2] == data[o + 2];
  }

  lemma {:induction false} BitLen255()
    ensures BitLen(255) == 8
  {
    assert BitLen(15) == 4;
    assert BitLen(255) == 4 + BitLen(15);
  }
}

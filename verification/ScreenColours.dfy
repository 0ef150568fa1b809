/** The colours of the client's picture, in terms of the bytes of the captured frame. */
module ScreenColours {
  import opened Bytes
  import opened Bits
  import opened Grid
  import opened FrameDiffs
  import opened PixelFormats
  import opened PixelConversion
  import opened Framebuffers
  import opened ScreenView
  import Updates

  function RgbaBytes(p: Rgba): seq<Byte> { [p.r, p.g, p.b, p.a] }

  /** In the client's format the shown bytes have the colour of the frame's pixel in the server's. */
  ghost predicate ShowsColour(k: Setup, frame: seq<Byte>, x: nat, y: nat, shown: Rgba)
    requires Updates.Paired(k.pf, k.serverPf) && Has(frame, k.stride, x, y)
  {
    SameColour(k.serverPf, k.serverPf.Read(PixelBytes(frame, k.stride, x, y), 0), k.pf, k.pf.Read(RgbaBytes(shown), 0))
  }

  lemma {:induction false} SentColour(pf: PixelFormat, serverPf: PixelFormat, pixel: seq<Byte>)
    requires Updates.Paired(pf, serverPf) && Convertible(pf, serverPf) && |pixel| == 4
    ensures SameColour(serverPf, serverPf.Read(pixel, 0), pf, pf.Read(Updates.Sent(pf, serverPf, pixel), 0))
  {
    hide PixelFormat.Read, PixelFormat.Write, ConvertPixel, Channel.Extract, Convertible;
    if pf != serverPf {
      var v := ConvertPixel(pf, serverPf, serverPf.Read(pixel, 0));
      assert Sits(pf.Write(v), 0, pf.Write(v));
      ReadWrite(pf, v, pf.Write(v), 0);
      ColourSurvives(pf, serverPf, serverPf.Read(pixel, 0));
    }
  }

  lemma {:induction false} WantedColour(k: Setup, frame: seq<Byte>, x: nat, y: nat)
    requires Updates.Paired(k.pf, k.serverPf) && Convertible(k.pf, k.serverPf)
    requires k.Covers(frame) && k.Screen().Contains(x, y)
    ensures Has(frame, k.stride, x, y) && ShowsColour(k, frame, x, y, Wanted(k, frame, x, y))
  {
    hide SameColour, Convertible;
    CoversPixel(k, frame, x, y);
    var pixel := PixelBytes(frame, k.stride, x, y);
    var sent := Updates.Sent(k.pf, k.serverPf, pixel);
    SentColour(k.pf, k.serverPf, pixel);
    assert RgbaBytes(PixelAt(sent, 0)) == sent;
  }

  /**
    The whole-run result in colours: after any run and the next answered request each visible pixel has,
    channel by channel, the colour of the last captured frame.
   */
  lemma {:induction false} ColoursAgree(k: Setup, s: State, events: seq<Event>, incremental: bool, x: nat, y: nat)
    requires Valid(k, s) && AllCover(k, events) && Convertible(k.pf, k.serverPf) && k.Screen().Contains(x, y)
    requires InSync(k, s) || (s.cur != [] && FullFirst(events + [Request(incremental)]))
    ensures var t := Run(k, s, events);
            Valid(k, t) && (t.cur != [] ==>
              && Has(t.cur, k.stride, x, y)
              && ShowsColour(k, t.cur, x, y, Step(k, t, Request(incremental)).client(x, y)))
  {
    hide Step, Run, Wanted, ShowsColour, Convertible;
    ViewAgrees(k, s, events, incremental);
    var t := Run(k, s, events);
    if t.cur != [] { WantedColour(k, t.cur, x, y); }
  }

  lemma {:induction false} ByteOf(n: nat)
    ensures And(n, 255) == n % 256
  {
    AndLow(n, 8);
    LowIsMod(n, 8);
    Powers();
  }

  /** A byte of a little-endian word, as a channel. */
  lemma {:induction false} ByteChannels(s: seq<Byte>)
    requires |s| == 4
    ensures var v := Le32At(s, 0);
            && Channel(255, 0).Extract(v) == s[0] && Channel(255, 8).Extract(v) == s[1] && Channel(255, 16).Extract(v) == s[2]
  {
    hide And, Shr;
    var v := Le32At(s, 0);
    WordBytes(s);
    ByteOf(v);
    ByteOf(v / 256);
    ByteOf(v / 256 / 256);
    ShrNone(v);
    ShrByte(v);
    ShrTwice(v, 8, 8);
    ShrByte(v / 256);
  }

  lemma {:induction false} ShrNone(n: nat)
    ensures Shr(n, 0) == n
  {
  }

  lemma {:induction false} WordBytes(s: seq<Byte>)
    requires |s| == 4
    ensures var v := Le32At(s, 0); v % 256 == s[0] && v / 256 % 256 == s[1] && v / 256 / 256 % 256 == s[2]
  {
  }

  lemma {:induction false} DefaultFormatsValid()
    ensures Convertible(RGBA_FORMAT, BGRA_FORMAT) && Updates.Paired(RGBA_FORMAT, BGRA_FORMAT)
  {
    hide And, Shl, Low, AllOnes;
    ByteMask(0);
    ByteMask(8);
    ByteMask(16);
    ByteIsOnes();
    ByteMasksApart(0, 8);
    ByteMasksApart(0, 16);
    ByteMasksApart(8, 16);
  }

  lemma {:induction false} ByteIsOnes()
    ensures AllOnes(255)
  {
    assert AllOnes(15);
  }

  /** A byte moved up by at most 24 bits stays within 32. */
  lemma {:induction false} ByteMask(shift: nat)
    requires shift <= 24
    ensures Low(Shl(255, shift), 32) == Shl(255, shift)
  {
    forall i: nat ensures Bit(Low(Shl(255, shift), 32), i) == Bit(Shl(255, shift), i) {
      LowBit(Shl(255, shift), 32, i);
      ShlBit(255, shift, i);
      Powers();
      if i >= 32 { NoHighBit(255, 8, i - shift); }
    }
    SameBits(Low(Shl(255, shift), 32), Shl(255, shift));
  }

  lemma {:induction false} ByteMasksApart(low: nat, high: nat)
    requires low + 8 <= high
    ensures And(Shl(255, low), Shl(255, high)) == 0 == And(Shl(255, high), Shl(255, low))
  {
    forall i: nat
      ensures !Bit(And(Shl(255, low), Shl(255, high)), i) && !Bit(And(Shl(255, high), Shl(255, low)), i) && !Bit(0, i)
    {
      AndBit(Shl(255, low), Shl(255, high), i);
      AndBit(Shl(255, high), Shl(255, low), i);
      ShlBit(255, low, i);
      ShlBit(255, high, i);
      ZeroBit(i);
      Powers();
      if i >= high { NoHighBit(255, 8, i - low); }
    }
    SameBits(And(Shl(255, low), Shl(255, high)), 0);
    SameBits(And(Shl(255, high), Shl(255, low)), 0);
  }

  /** The byte of the word no channel is in is zero. */
  lemma {:induction false} UnusedByte(c: Rgb)
    requires c.r < 256 && c.g < 256 && c.b < 256
    ensures Digit(RGBA_FORMAT.Pack(c), 3) == 0
  {
    var n := RGBA_FORMAT.Pack(c);
    forall i: nat ensures !Bit(Shr(n, 24), i) && !Bit(0, i) {
      var j := i + 24;
      var r, g, b := Low(Shl(c.r, 0), 32), Low(Shl(c.g, 8), 32), Low(Shl(c.b, 16), 32);
      ShrBit(n, 24, i);
      OrBit(Or(r, g), b, j);
      OrBit(r, g, j);
      LowBit(Shl(c.r, 0), 32, j);
      LowBit(Shl(c.g, 8), 32, j);
      LowBit(Shl(c.b, 16), 32, j);
      ShlBit(c.r, 0, j);
      ShlBit(c.g, 8, j);
      ShlBit(c.b, 16, j);
      Powers();
      NoHighBit(c.r, 8, j);
      NoHighBit(c.g, 8, j - 8);
      NoHighBit(c.b, 8, j - 16);
      ZeroBit(i);
    }
    SameBits(Shr(n, 24), 0);
    ShrTwice(n, 8, 16);
    ShrTwice(Shr(n, 8), 8, 8);
    ShrByte(n);
    ShrByte(n / 256);
    ShrByte(n / 256 / 256);
    DigitStep(n, 2);
    DigitStep(n / 256, 1);
    DigitStep(n / 256 / 256, 0);
  }

  /** From the server's format to the browser's: red, green and blue change places, and alpha comes out zero. */
  lemma {:induction false} DefaultColours(pixel: seq<Byte>)
    requires |pixel| == 4
    ensures Updates.Paired(RGBA_FORMAT, BGRA_FORMAT)
    ensures Updates.Sent(RGBA_FORMAT, BGRA_FORMAT, pixel) == [pixel[2], pixel[1], pixel[0], 0]
  {
    DefaultFormatsValid();
    var v := Le32At(pixel, 0);
    var sent := Updates.Sent(RGBA_FORMAT, BGRA_FORMAT, pixel);
    SentColour(RGBA_FORMAT, BGRA_FORMAT, pixel);
    ByteChannels(pixel);
    ByteChannels(sent);
    UnusedByte(Rescaled(RGBA_FORMAT, BGRA_FORMAT, BGRA_FORMAT.Channels(v)));
  }

  /** The picture of raw updates in the browser: the frame's red, green and blue, all transparent. */
  lemma {:induction false} RawIsTransparent(k: Setup, s: State, events: seq<Event>, incremental: bool, x: nat, y: nat)
    requires Valid(k, s) && AllCover(k, events) && k.Screen().Contains(x, y)
    requires k.pf == RGBA_FORMAT && k.serverPf == BGRA_FORMAT
    requires InSync(k, s) || (s.cur != [] && FullFirst(events + [Request(incremental)]))
    ensures var t := Run(k, s, events);
            var o := FrameOffset(k.stride, x, y);
            Valid(k, t) && (t.cur != [] ==>
              && Has(t.cur, k.stride, x, y)
              && Step(k, t, Request(incremental)).client(x, y) == Rgba(t.cur[o + 2], t.cur[o + 1], t.cur[o], 0))
  {
    hide Step, Run, Updates.Sent;
    ViewAgrees(k, s, events, incremental);
    var t := Run(k, s, events);
    if t.cur != [] {
      CoversPixel(k, t.cur, x, y);
      DefaultColours(PixelBytes(t.cur, k.stride, x, y));
    }
  }
}

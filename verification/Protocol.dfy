/**
  The server's writers (rfb/protocol.go): framebuffer updates, cut text, bell, and the
  payload layouts of the rectangles the encoders hand them.
 */
module Protocol {
  import opened Bytes
  import opened Grid
  import CompactLength

  const RAW := 0
  const COPY_RECT := 1
  const RRE := 2
  const ZLIB := 6
  const TIGHT := 7
  const ZRLE := 16
  const H264 := 50
  const CURSOR := -239
  const DESKTOP_SIZE := -223

  /** 16-bit position and size, 32-bit signed encoding number. */
  datatype RectHeader = RectHeader(x: nat, y: nat, width: nat, height: nat, encoding: int) {
    predicate Fits() {
      x < 0x1_0000 && y < 0x1_0000 && width < 0x1_0000 && height < 0x1_0000
      && -0x8000_0000 <= encoding < 0x8000_0000
    }

    function Wire(): (r: seq<Byte>)
      ensures |r| == 12
    {
      Be16(x) + Be16(y) + Be16(width) + Be16(height) + Be32(encoding % 0x1_0000_0000)
    }
  }

  /** A 32-bit word as a signed number. */
  function Signed32(n: nat): int
    requires n < 0x1_0000_0000
  {
    if n < 0x8000_0000 then n else n - 0x1_0000_0000
  }

  /** The header fields at offset `i`, as every parser reads them. */
  function HeaderAt(s: seq<Byte>, i: nat): RectHeader
    requires i + 12 <= |s|
  {
    RectHeader(Be16At(s, i), Be16At(s, i + 2), Be16At(s, i + 4), Be16At(s, i + 6), Signed32(Be32At(s, i + 8)))
  }

  /** Where the five fields of a header sit. */
  lemma {:induction false} FieldsSit(x: seq<Byte>, y: seq<Byte>, w: seq<Byte>, h: seq<Byte>, e: seq<Byte>, s: seq<Byte>, i: nat)
    requires |x| == |y| == |w| == |h| == 2 && Sits(s, i, x + y + w + h + e)
    ensures Sits(s, i, x) && Sits(s, i + 2, y) && Sits(s, i + 4, w) && Sits(s, i + 6, h) && Sits(s, i + 8, e)
  {
    SitsSplit(s, i, x + y + w + h, e);
    SitsSplit(s, i, x + y + w, h);
    SitsSplit(s, i, x + y, w);
    SitsSplit(s, i, x, y);
  }

  lemma {:induction false} HeaderRoundTrip(h: RectHeader, s: seq<Byte>, i: nat)
    requires h.Fits() && Sits(s, i, h.Wire())
    ensures HeaderAt(s, i) == h
  {
    var code := h.encoding % 0x1_0000_0000;
    FieldsSit(Be16(h.x), Be16(h.y), Be16(h.width), Be16(h.height), Be32(code), s, i);
    ReadWriteBe16(h.x, s, i);
    ReadWriteBe16(h.y, s, i + 2);
    ReadWriteBe16(h.width, s, i + 4);
    ReadWriteBe16(h.height, s, i + 6);
    ReadWriteBe32(code, s, i + 8);
    assert Signed32(code) == h.encoding;
  }

  datatype Rectangle = Rectangle(header: RectHeader, data: seq<Byte>) {
    function Wire(): seq<Byte> {
      header.Wire() + data
    }
  }

  function RectsWire(rects: seq<Rectangle>): seq<Byte> {
    if rects == [] then [] else rects[0].Wire() + RectsWire(rects[1..])
  }

  function RectWires(rects: seq<Rectangle>): seq<seq<Byte>> {
    seq(|rects|, i requires 0 <= i < |rects| => rects[i].Wire())
  }

  lemma {:induction false} RectsWireIsConcat(rects: seq<Rectangle>)
    ensures RectsWire(rects) == Concat(RectWires(rects))
  {
    if rects != [] {
      assert RectWires(rects)[1..] == RectWires(rects[1..]);
      RectsWireIsConcat(rects[1..]);
    }
  }

  lemma {:induction false} RectsWireAppend(a: seq<Rectangle>, b: seq<Rectangle>)
    ensures RectsWire(a + b) == RectsWire(a) + RectsWire(b)
  {
    if a == [] {
      assert a + b == b;
    } else {
      assert (a + b)[1..] == a[1..] + b;
      RectsWireAppend(a[1..], b);
    }
  }

  lemma {:induction false} RectsWireSnoc(rects: seq<Rectangle>, i: nat)
    requires i < |rects|
    ensures RectsWire(rects[..i + 1]) == RectsWire(rects[..i]) + rects[i].header.Wire() + rects[i].data
  {
    assert rects[..i + 1] == rects[..i] + [rects[i]];
    RectsWireAppend(rects[..i], [rects[i]]);
    assert RectsWire([rects[i]]) == rects[i].Wire() + RectsWire([]);
  }

  /** The rectangle count is cut to 16 bits. */
  function UpdateWire(rects: seq<Rectangle>): seq<Byte> {
    [0, 0] + Be16(|rects|) + RectsWire(rects)
  }

  function CutTextWire(text: seq<Byte>): seq<Byte> {
    [3, 0, 0, 0] + Be32(|text|) + text
  }

  const BELL_WIRE: seq<Byte> := [2]

  /** What the server sends outside the handshake. */
  datatype ServerMessage =
    | Update(rects: seq<Rectangle>)
    | CutText(text: seq<Byte>)
    | Bell
  {
    function Wire(): seq<Byte> {
      match this
      case Update(rects) => UpdateWire(rects)
      case CutText(text) => CutTextWire(text)
      case Bell => BELL_WIRE
    }
  }

  /** One tile of a Tight rectangle, in the three forms the Go encoder produces. */
  datatype TightTile =
    | Solid(r: Byte, g: Byte, b: Byte)
    | Jpeg(payload: seq<Byte>)
    | Basic(stream: nat, payload: seq<Byte>)
  {
    predicate Fits() {
      match this
      case Solid(_, _, _) => true
      case Jpeg(payload) => |payload| < CompactLength.LIMIT
      case Basic(stream, payload) => stream < 4 && |payload| < CompactLength.LIMIT
    }

    function Wire(): seq<Byte>
      requires Fits()
    {
      match this
      case Solid(r, g, b) => [0x08, r, g, b]
      case Jpeg(payload) => [0x09] + CompactLength.Encode(|payload|) + payload
      case Basic(stream, payload) => [stream] + CompactLength.Encode(|payload|) + payload
    }
  }

  function TightWire(tiles: seq<TightTile>): seq<Byte>
    requires forall i :: 0 <= i < |tiles| ==> tiles[i].Fits()
  {
    if tiles == [] then [] else tiles[0].Wire() + TightWire(tiles[1..])
  }

  function TileWires(tiles: seq<TightTile>): seq<seq<Byte>>
    requires forall i :: 0 <= i < |tiles| ==> tiles[i].Fits()
  {
    seq(|tiles|, i requires 0 <= i < |tiles| => tiles[i].Wire())
  }

  lemma {:induction false} TightWireIsConcat(tiles: seq<TightTile>)
    requires forall i :: 0 <= i < |tiles| ==> tiles[i].Fits()
    ensures TightWire(tiles) == Concat(TileWires(tiles))
  {
    if tiles != [] {
      assert TileWires(tiles)[1..] == TileWires(tiles[1..]);
      TightWireIsConcat(tiles[1..]);
    }
  }

  /** The payloads the server's encoders put behind a rectangle header. */
  datatype Payload =
    | RawPixels(pixels: seq<Byte>)
    | CopyFrom(srcX: nat, srcY: nat)
    | ZlibData(compressed: seq<Byte>)
    | TightTiles(tiles: seq<TightTile>)
    | ZrleData(compressed: seq<Byte>)
    | H264Frame(flags: nat, nal: seq<Byte>)
    | CursorShape(pixels: seq<Byte>, mask: seq<Byte>)
    | DesktopResize
  {
    function Encoding(): int {
      match this
      case RawPixels(_) => RAW
      case CopyFrom(_, _) => COPY_RECT
      case ZlibData(_) => ZLIB
      case TightTiles(_) => TIGHT
      case ZrleData(_) => ZRLE
      case H264Frame(_, _) => H264
      case CursorShape(_, _) => CURSOR
      case DesktopResize => DESKTOP_SIZE
    }

    /** The payload belongs to a width x height rectangle under `bpp` bytes per pixel. */
    predicate Fits(width: nat, height: nat, bpp: nat) {
      match this
      case RawPixels(pixels) => |pixels| == width * height * bpp
      case CopyFrom(_, _) => true
      case ZlibData(compressed) => |compressed| < 0x1_0000_0000
      case TightTiles(tiles) =>
        |tiles| == |Tiles(Rect(0, 0, width, height))| && forall i :: 0 <= i < |tiles| ==> tiles[i].Fits()
      case ZrleData(compressed) => |compressed| < 0x1_0000_0000
      case H264Frame(_, nal) => |nal| < 0x1_0000_0000
      case CursorShape(pixels, mask) => |pixels| == width * height * bpp && |mask| == (width + 7) / 8 * height
      case DesktopResize => true
    }

    function Wire(): seq<Byte>
      requires TightTiles? ==> forall i :: 0 <= i < |tiles| ==> tiles[i].Fits()
    {
      match this
      case RawPixels(pixels) => pixels
      case CopyFrom(srcX, srcY) => Be16(srcX) + Be16(srcY)
      case ZlibData(compressed) => Be32(|compressed|) + compressed
      case TightTiles(tiles) => TightWire(tiles)
      case ZrleData(compressed) => Be32(|compressed|) + compressed
      case H264Frame(flags, nal) => Be32(flags) + Be32(|nal|) + nal
      case CursorShape(pixels, mask) => pixels + mask
      case DesktopResize => []
    }
  }

  /** `r` is a header followed by the payload `p` for it. */
  ghost predicate Carries(r: Rectangle, p: Payload, bpp: nat) {
    && r.header.Fits()
    && p.Fits(r.header.width, r.header.height, bpp)
    && r.header.encoding == p.Encoding()
    && r.data == p.Wire()
  }

  /** What the writers append to; `written` is everything sent so far. */
  class BufWriter {
    var written: seq<Byte>

    constructor ()
      ensures written == []
    {
      written := [];
    }

    method Write(bytes: seq<Byte>)
      modifies this
      ensures written == old(written) + bytes
    {
      written := written + bytes;
    }
  }

  method WriteFramebufferUpdate(w: BufWriter, rects: seq<Rectangle>)
    modifies w
    ensures w.written == old(w.written) + Update(rects).Wire()
  {
    w.Write([0]);
    w.Write([0]);
    w.Write(Be16(|rects|));
    ghost var sent, head := old(w.written), [0, 0] + Be16(|rects|);
    assert w.written == sent + head;
    for i := 0 to |rects|
      invariant w.written == sent + (head + RectsWire(rects[..i]))
    {
      w.Write(rects[i].header.Wire());
      w.Write(rects[i].data);
      RectsWireSnoc(rects, i);
      ghost var done, header, data := RectsWire(rects[..i]), rects[i].header.Wire(), rects[i].data;
      assert sent + (head + done) + header + data == sent + (head + (done + header + data));
    }
    assert rects[..|rects|] == rects;
  }

  method WriteServerCutText(w: BufWriter, text: seq<Byte>)
    modifies w
    ensures w.written == old(w.written) + CutText(text).Wire()
  {
    w.Write([3]);
    w.Write([0, 0, 0]);
    var length := Be32(|text|);
    w.Write(length);
    w.Write(text);
    ghost var sent := old(w.written);
    assert sent + [3] + [0, 0, 0] + length + text == sent + ([3, 0, 0, 0] + length + text);
  }

  method WriteBell(w: BufWriter)
    modifies w
    ensures w.written == old(w.written) + Bell.Wire()
  {
    w.Write([2]);
  }

  function EncodeDesktopSizeRect(width: nat, height: nat): (r: Rectangle)
    ensures r.header == RectHeader(0, 0, width, height, -223)
    ensures width < 0x1_0000 && height < 0x1_0000 ==> forall bpp: nat :: Carries(r, DesktopResize, bpp)
  {
    Rectangle(RectHeader(0, 0, width, height, DESKTOP_SIZE), [])
  }
}

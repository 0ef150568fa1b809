/** What the bytes of a ZRLE tile mean: the subencodings of web/src/encodings/zrle.ts without runs. */
module ZrleTiles {
  import opened Bytes
  import opened Streams
  import opened Grid
  import opened Framebuffers
  import opened Colours
  import opened PackedIndices
  import opened Runs

  /** Where a tile ends and what it shows. */
  datatype Decoded = Decoded(end: nat, view: TileView)

  function RawTile(data: seq<Byte>, o: nat, w: nat, h: nat): Decoded {
    Decoded(o + 3 * At(h, w), RawView(data, o, w))
  }

  function RawColour(data: seq<Byte>, o: nat, w: nat, c: int, r: int): Bgr {
    if c >= 0 && r >= 0 then ColourAt(data, o + 3 * (At(r, w) + c)) else BLACK
  }

  function RawView(data: seq<Byte>, o: nat, w: nat): TileView {
    (c, r) => RawColour(data, o, w, c, r)
  }

  function SolidTile(data: seq<Byte>, o: nat): Decoded {
    Decoded(o + 3, SolidView(ColourAt(data, o)))
  }

  function SolidView(colour: Bgr): TileView {
    (c, r) => colour
  }

  /** A palette entry; an index behind the palette gives black. */
  function PaletteColour(data: seq<Byte>, o: nat, n: nat, index: nat): Bgr {
    if index < n then ColourAt(data, o + 3 * index) else BLACK
  }

  function PackedTile(data: seq<Byte>, o: nat, w: nat, h: nat, n: nat): Decoded {
    var size := RowBytes(w, WidthFor(n));
    Decoded(o + 3 * n + At(h, size), IndexView(IndexReader(WidthFor(n)), data, o, size, n))
  }

  /** A palette of `n` colours at offset `o`, and behind it rows of indices, `size` bytes each. */
  function IndexColour(read: IndexRead, data: seq<Byte>, o: nat, size: nat, n: nat, c: int, r: int): Bgr {
    if c >= 0 && r >= 0 then PaletteColour(data, o, n, read(data, o + 3 * n + At(r, size), c)) else BLACK
  }

  function IndexView(read: IndexRead, data: seq<Byte>, o: nat, size: nat, n: nat): TileView {
    (c, r) => IndexColour(read, data, o, size, n, c, r)
  }

  /** The pixels of a list in row-major order. */
  function ListColour(px: seq<Bgr>, w: nat, c: int, r: int): Bgr {
    if c >= 0 && r >= 0 && At(r, w) + c < |px| then px[At(r, w) + c] else BLACK
  }

  function ListView(px: seq<Bgr>, w: nat): TileView {
    (c, r) => ListColour(px, w, c, r)
  }

  function RunTile(run: Option<(nat, seq<Bgr>)>, w: nat): Option<Decoded> {
    var (end, px) :- run;
    Some(Decoded(end, ListView(px, w)))
  }

  /** The tile at offset `o`; none when the decoder would never come to its end. */
  function Tile(data: seq<Byte>, o: nat, w: nat, h: nat): Option<Decoded> {
    var subtype := Get(data, o) as int;
    if subtype == 0 then Some(RawTile(data, o + 1, w, h))
    else if subtype == 1 then Some(SolidTile(data, o + 1))
    else if 2 <= subtype <= 16 then Some(PackedTile(data, o + 1, w, h, subtype))
    else if subtype == 128 then RunTile(PlainRuns(data, o + 1, At(h, w)), w)
    else if subtype >= 130 then
      RunTile(PaletteRuns(data, o + 1, subtype - 128, o + 1 + 3 * (subtype - 128), At(h, w)), w)
    else Some(RawTile(data, o + 1, w, h))
  }

  /** A tile view put on the screen. */
  ghost function Placed(view: TileView, x0: int, y0: int): View {
    (x, y) => view(x - x0, y - y0).Opaque()
  }

  lemma {:induction false} PlacedAt(view: TileView, x0: int, y0: int, c: int, r: int)
    ensures Placed(view, x0, y0)(x0 + c, y0 + r) == view(c, r).Opaque()
  {
  }

  /** The two tile views agree on a w x h tile. */
  ghost predicate SameTile(a: TileView, b: TileView, w: nat, h: nat) {
    forall c: nat, r: nat :: c < w && r < h ==> a(c, r) == b(c, r)
  }

  /** Reads a tile of the given width and height at an offset. */
  type TileReader = (seq<Byte>, nat, nat, nat) -> Option<Decoded>

  function ZrleReader(): TileReader {
    (data: seq<Byte>, o: nat, w: nat, h: nat) => Tile(data, o, w, h)
  }

  /** The offset and the picture after a list of tiles; none when one of them never ends. */
  ghost function DrawTiles(read: TileReader, data: seq<Byte>, o: nat, tiles: seq<Rect>, v: View): Option<(nat, View)>
    decreases |tiles|
  {
    if tiles == [] then Some((o, v))
    else
      var decoded :- read(data, o, tiles[0].Width(), tiles[0].Height());
      DrawTiles(read, data, decoded.end, tiles[1..], Overlay(v, tiles[0], Placed(decoded.view, tiles[0].x0, tiles[0].y0)))
  }

  lemma {:induction false} DrawFirst(read: TileReader, data: seq<Byte>, o: nat, tiles: seq<Rect>, v: View)
    requires tiles != []
    ensures var tile := tiles[0];
            var decoded := read(data, o, tile.Width(), tile.Height());
            DrawTiles(read, data, o, tiles, v) ==
            if decoded.None? then None
            else DrawTiles(read, data, decoded.value.end, tiles[1..], Overlay(v, tile, Placed(decoded.value.view, tile.x0, tile.y0)))
  {
  }
}

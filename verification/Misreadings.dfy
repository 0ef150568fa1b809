/** Inputs the server can produce on which the proxy loses its place, for the conditions of Reframing. */
module Misreadings {
  import opened Bytes
  import opened Streams
  import opened Grid
  import opened Colours
  import opened Protocol
  import opened Framing
  import opened TightTiles
  import opened TightEncoders
  import Reframing
  import Zlib

  /**
    Tiles of fewer than four pixels: the proxy reads as many bytes as the tile has raw, the encoder
    writes a length and the compressed data. They meet only when compression gains one byte exactly.
   */
  lemma {:induction false} SmallTileReframed(s: seq<Byte>, i: nat, stream: nat, payload: seq<Byte>, w: nat, h: nat)
    requires w * h < 4 && Basic(stream, payload).Fits() && Sits(s, i, Basic(stream, payload).Wire())
    ensures TileEnd(s, i, w, h, 3) == Some(i + |Basic(stream, payload).Wire()|) <==> |payload| == 3 * (w * h) - 1
  {
    Reframing.TileReframed(s, i, Basic(stream, payload), w, h, 3);
  }

  const TWO_COLOURS: seq<Bgr> := [Bgr(0, 0, 0), Bgr(1, 1, 1)]
  const SMALL := Rect(0, 0, 2, 1)
  const SMALL_TILE := TileInfo(SMALL, TWO_COLOURS, BasicKind(0))
  const SMALL_WIRE: seq<Byte> := [0, 8, 0x78, 0x9c, 0, 0, 0, 1, 1, 1]

  /** Two pixels of two colours are one: ten bytes on the wire, of which the proxy reads seven. */
  lemma {:induction false} SmallTileMisread(varied: seq<Bgr> -> bool, jpeg: seq<Bgr> -> seq<Byte>)
    ensures KindOf(TWO_COLOURS, SMALL, varied, 0) == SMALL_TILE.kind && Zlib.STORING.Inverts()
    ensures Sequential(Zlib.STORING, jpeg, [[], [], [], []], [SMALL_TILE], 0) == SMALL_WIRE
    ensures TileEnd(SMALL_WIRE, 0, 2, 1, 3) == Some(7)
  {
    Zlib.StoringInverts();
    var tiles := [SMALL_TILE];
    assert tiles[..0] == [];
    var px := TWO_COLOURS;
    assert px[..1] == [px[0]] && px[..1][..0] == [];
    assert RgbWire(px[..1]) == [] + [0, 0, 0];
    assert RgbWire(px) == [0, 0, 0, 1, 1, 1];
    assert HistoryAt([[], [], [], []], tiles, 0) == [];
    Reframing.PlainBasic(SMALL_WIRE, 0, 2, 1, 3);
  }

  /** An update of 65536 rectangles is written with the count 0, and the proxy stops behind the count. */
  lemma {:induction false} FullUpdateMisread(s: seq<Byte>, i: nat, rects: seq<Rectangle>, bpp: nat, cpixel: nat)
    requires Reframing.AllSendable(rects, bpp, cpixel) && Sits(s, i, UpdateWire(rects)) && |rects| == 0x1_0000
    ensures MessageEnd(s, i, bpp, cpixel) == Some(i + 4)
  {
    Reframing.UpdateHead(s, i, rects);
    Reframing.UpdateStops(s, i, rects, 0, bpp, cpixel);
    assert rects[..0] == [];
  }

  /** The tiles of the rows from `ty` on, when sides are multiples of 64. */
  lemma {:induction false} TilesCount(tx: int, ty: int, area: Rect, cols: nat, rows: nat, left: nat)
    requires area.x0 + 64 * cols == area.x1 && cols > 0
    requires ty + 64 * rows == area.y1 && tx + 64 * left == area.x1 && left <= cols && (rows == 0 ==> left == cols)
    ensures |TilesFrom(tx, ty, area)| == if rows == 0 then 0 else At(rows - 1, cols) + left
    decreases rows, left
  {
    if rows > 0 {
      if left == 0 {
        TilesCount(area.x0, ty + TILE, area, cols, rows - 1, cols);
      } else {
        TilesCount(tx + TILE, ty, area, cols, rows, left - 1);
      }
    }
  }

  /** A Tight screen of 16384 by 16384 pixels has that many tiles, and each is a rectangle of its own. */
  lemma {:induction false} FullScreenTiles()
    ensures |Tiles(Rect(0, 0, 16384, 16384))| == 0x1_0000
  {
    TilesCount(0, 0, Rect(0, 0, 16384, 16384), 256, 256, 256);
    AtIsProduct(255, 256);
  }
}

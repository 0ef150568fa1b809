/** Three-byte colours, the CPIXELs of ZRLE, and the tile pixels both sides of it walk. */
module Colours {
  import opened Bytes
  import opened FrameDiffs
  import opened Framebuffers

  datatype Bgr = Bgr(b: Byte, g: Byte, r: Byte) {
    function Wire(): (w: seq<Byte>)
      ensures |w| == 3
    {
      [b, g, r]
    }

    function Opaque(): Rgba { Rgba(r, g, b, 255) }
  }

  const BLACK := Bgr(0, 0, 0)

  /** Three reads at offset `i`. */
  function ColourAt(data: seq<Byte>, i: nat): Bgr {
    Bgr(Get(data, i), Get(data, i + 1), Get(data, i + 2))
  }

  lemma {:induction false} ColourSits(c: Bgr, data: seq<Byte>, i: nat)
    requires Sits(data, i, c.Wire())
    ensures ColourAt(data, i) == c
  {
    var w := c.Wire();
    assert w[0] == data[i] && w[1] == data[i + 1] && w[2] == data[i + 2];
  }

  /** The colours written one after the other. */
  function Wires(colours: seq<Bgr>): (w: seq<Byte>)
    ensures |w| == 3 * |colours|
  {
    if colours == [] then [] else Wires(colours[..|colours| - 1]) + colours[|colours| - 1].Wire()
  }

  lemma {:induction false} WiresSit(colours: seq<Bgr>, data: seq<Byte>, i: nat, k: nat)
    requires Sits(data, i, Wires(colours)) && k < |colours|
    ensures ColourAt(data, i + 3 * k) == colours[k]
    decreases |colours|
  {
    var n := |colours| - 1;
    SitsSplit(data, i, Wires(colours[..n]), colours[n].Wire());
    if k < n {
      WiresSit(colours[..n], data, i, k);
      assert colours[..n][k] == colours[k];
    } else {
      ColourSits(colours[n], data, i + 3 * n);
    }
  }

  /** What a tile shows at column `c` of row `r`. */
  type TileView = (int, int) -> Bgr

  /** Row after row: pixel (c, r) of a tile stands at index At(r, w) + c. */
  ghost predicate RowMajor(px: seq<Bgr>, w: nat, h: nat, view: TileView) {
    |px| == At(h, w) && forall c: nat, r: nat :: c < w && r < h ==> InOrder(px, w, h, view, c, r)
  }

  ghost predicate InOrder(px: seq<Bgr>, w: nat, h: nat, view: TileView, c: nat, r: nat)
    requires |px| == At(h, w) && c < w && r < h
  {
    AtGrows(r, h, w);
    px[At(r, w) + c] == view(c, r)
  }

  /** The colour of pixel (x, y) of a frame. */
  function FrameColour(frame: seq<Byte>, stride: nat, x: nat, y: nat): Bgr
    requires Has(frame, stride, x, y)
  {
    ColourAt(frame, FrameOffset(stride, x, y))
  }
}

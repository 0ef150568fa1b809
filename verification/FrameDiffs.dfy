/** Tile-wise comparison of consecutive frames (capture/diff.go, and the same loop in rfb/pipelined_capturer.go). */
module FrameDiffs {
  import opened Bytes
  import opened Streams
  import opened Grid

  /** The first byte of pixel (x, y) of a frame: 4 bytes a pixel, `stride` bytes a row. */
  function FrameOffset(stride: nat, x: nat, y: nat): nat {
    At(y, stride) + 4 * x
  }

  /** The 4 bytes of pixel (x, y) are in the frame. */
  predicate Has(frame: seq<Byte>, stride: nat, x: nat, y: nat) {
    FrameOffset(stride, x, y) + 4 <= |frame|
  }

  function PixelBytes(frame: seq<Byte>, stride: nat, x: nat, y: nat): seq<Byte>
    requires Has(frame, stride, x, y)
  {
    var o := FrameOffset(stride, x, y);
    [frame[o], frame[o + 1], frame[o + 2], frame[o + 3]]
  }

  /** Pixel (x, y) is missing or has other bytes than before. */
  predicate PixelChanged(pixels: seq<Byte>, prev: seq<Byte>, stride: nat, x: nat, y: nat) {
    !Has(pixels, stride, x, y) || !Has(prev, stride, x, y)
    || PixelBytes(pixels, stride, x, y) != PixelBytes(prev, stride, x, y)
  }

  /** The last byte of the visible part of a frame. */
  function Extent(stride: nat, w: nat, h: nat): nat {
    if h == 0 then 0 else At(h - 1, stride) + 4 * w
  }

  /** Every slice of `prev` the comparison takes exists. */
  predicate Comparable(pixels: seq<Byte>, prev: seq<Byte>, stride: nat, w: nat, h: nat) {
    |pixels| <= |prev| || Extent(stride, w, h) <= |prev|
  }

  lemma {:induction false} RowInExtent(stride: nat, w: nat, h: nat, y: nat)
    requires y < h
    ensures At(y, stride) + 4 * w <= Extent(stride, w, h)
  {
    if y < h - 1 { AtGrows(y, h - 1, stride); }
  }

  /** The tile, a part of the w x h frame, contains a changed pixel. */
  ghost predicate TileChanged(pixels: seq<Byte>, prev: seq<Byte>, stride: nat, tile: Rect) {
    exists x: nat, y: nat :: tile.Contains(x, y) && PixelChanged(pixels, prev, stride, x, y)
  }

  /** Comparing a row segment as a slice finds exactly the changed pixels in it. */
  lemma {:induction false} SegmentDiffers(pixels: seq<Byte>, prev: seq<Byte>, stride: nat, x0: nat, n: nat, y: nat)
    requires var off := FrameOffset(stride, x0, y); off + 4 * n <= |pixels| ==> off + 4 * n <= |prev|
    requires n > 0
    ensures var off := FrameOffset(stride, x0, y);
            (off + 4 * n > |pixels| || pixels[off..off + 4 * n] != prev[off..off + 4 * n])
            <==> exists x: nat :: x0 <= x < x0 + n && PixelChanged(pixels, prev, stride, x, y)
  {
    var off := FrameOffset(stride, x0, y);
    if off + 4 * n > |pixels| {
      assert PixelChanged(pixels, prev, stride, x0 + n - 1, y);
    } else {
      var a, b := pixels[off..off + 4 * n], prev[off..off + 4 * n];
      if a != b {
        var k :| 0 <= k < 4 * n && a[k] != b[k];
        assert PixelChanged(pixels, prev, stride, x0 + k / 4, y);
      } else {
        forall x: nat | x0 <= x < x0 + n ensures !PixelChanged(pixels, prev, stride, x, y) {
          SameInSlice(pixels, prev, off, 4 * n, 4 * (x - x0));
        }
      }
    }
  }

  lemma {:induction false} SameInSlice(a: seq<Byte>, b: seq<Byte>, off: nat, n: nat, k: nat)
    requires off + n <= |a| && off + n <= |b| && a[off..off + n] == b[off..off + n] && k + 4 <= n
    ensures a[off + k] == b[off + k] && a[off + k + 1] == b[off + k + 1]
    ensures a[off + k + 2] == b[off + k + 2] && a[off + k + 3] == b[off + k + 3]
  {
    var s, t := a[off..off + n], b[off..off + n];
    assert s[k] == t[k] && s[k + 1] == t[k + 1] && s[k + 2] == t[k + 2] && s[k + 3] == t[k + 3];
  }

  /** The row loop stops at the first row that is cut off or differs. */
  method TileDiffers(pixels: seq<Byte>, prev: seq<Byte>, stride: nat, w: nat, h: nat, tile: Rect) returns (changed: bool)
    requires Comparable(pixels, prev, stride, w, h)
    requires tile.Within(Rect(0, 0, w, h)) && !tile.Empty()
    ensures changed <==> TileChanged(pixels, prev, stride, tile)
  {
    var tileX, tileY, tileW, tileH := tile.x0, tile.y0, tile.Width(), tile.Height();
    for row := 0 to tileH
      invariant !TileChanged(pixels, prev, stride, Rect(tile.x0, tile.y0, tile.x1, tileY + row))
    {
      var y := tileY + row;
      var off := y * stride + tileX * 4;
      var end := off + tileW * 4;
      AtIsProduct(y, stride);
      RowInExtent(stride, w, h, y);
      SegmentDiffers(pixels, prev, stride, tileX, tileW, y);
      if end > |pixels| || pixels[off..end] != prev[off..end] {
        ghost var x: nat :| tileX <= x < tileX + tileW && PixelChanged(pixels, prev, stride, x, y);
        assert tile.Contains(x, y);
        return true;
      }
    }
    return false;
  }

  /** The changed tiles of a list, in order. */
  ghost function Changed(pixels: seq<Byte>, prev: seq<Byte>, stride: nat, tiles: seq<Rect>): seq<Rect> {
    if tiles == [] then []
    else
      var later := Changed(pixels, prev, stride, tiles[1..]);
      if TileChanged(pixels, prev, stride, tiles[0]) then [tiles[0]] + later else later
  }

  ghost function DirtyTiles(pixels: seq<Byte>, prev: seq<Byte>, stride: nat, w: nat, h: nat): seq<Rect> {
    Changed(pixels, prev, stride, Tiles(Rect(0, 0, w, h)))
  }

  /** The tiles found so far, and the changed tiles of those still to come. */
  ghost function Collect(
    pixels: seq<Byte>, prev: seq<Byte>, stride: nat, tiles: seq<Rect>, found: seq<Rect>): seq<Rect>
    decreases |tiles|
  {
    if tiles == [] then found
    else Collect(pixels, prev, stride, tiles[1..], Add(pixels, prev, stride, tiles[0], found))
  }

  ghost function Add(pixels: seq<Byte>, prev: seq<Byte>, stride: nat, tile: Rect, found: seq<Rect>): seq<Rect> {
    if TileChanged(pixels, prev, stride, tile) then found + [tile] else found
  }

  lemma {:induction false} CollectIsChanged(
    pixels: seq<Byte>, prev: seq<Byte>, stride: nat, tiles: seq<Rect>, found: seq<Rect>)
    ensures Collect(pixels, prev, stride, tiles, found) == found + Changed(pixels, prev, stride, tiles)
    decreases |tiles|
  {
    if tiles != [] {
      CollectIsChanged(pixels, prev, stride, tiles[1..], Add(pixels, prev, stride, tiles[0], found));
    }
  }

  lemma {:induction false} CollectStep(
    pixels: seq<Byte>, prev: seq<Byte>, stride: nat, tx: nat, ty: nat, area: Rect, found: seq<Rect>)
    requires tx < area.x1 && ty < area.y1
    ensures Collect(pixels, prev, stride, TilesFrom(tx, ty, area), found)
            == Collect(pixels, prev, stride, TilesFrom(tx + TILE, ty, area),
                       Add(pixels, prev, stride, TileAt(tx, ty, area), found))
  {
    TilesHead(tx, ty, area);
  }

  /** The nested tile loops both differs run. */
  method FindDirtyTiles(pixels: seq<Byte>, prev: seq<Byte>, stride: nat, w: nat, h: nat) returns (dirty: seq<Rect>)
    requires Comparable(pixels, prev, stride, w, h)
    ensures dirty == DirtyTiles(pixels, prev, stride, w, h)
  {
    ghost var area := Rect(0, 0, w, h);
    ghost var all := Collect(pixels, prev, stride, Tiles(area), []);
    dirty := [];
    var tileY := 0;
    while tileY < h
      invariant Collect(pixels, prev, stride, TilesFrom(0, tileY, area), dirty) == all
    {
      var tileH := Min(TILE, h - tileY);
      var tileX := 0;
      while tileX < w
        invariant Collect(pixels, prev, stride, TilesFrom(tileX, tileY, area), dirty) == all
      {
        var tileW := Min(TILE, w - tileX);
        CollectStep(pixels, prev, stride, tileX, tileY, area, dirty);
        var tile := Rect(tileX, tileY, tileX + tileW, tileY + tileH);
        var changed := TileDiffers(pixels, prev, stride, w, h, tile);
        dirty := if changed then dirty + [tile] else dirty;
        tileX := tileX + TILE;
      }
      tileY := tileY + TILE;
    }
    CollectIsChanged(pixels, prev, stride, Tiles(area), []);
  }

  /** Every tile of the result is a changed tile of the list, and every changed tile is in the result. */
  lemma {:induction false} ChangedExactly(pixels: seq<Byte>, prev: seq<Byte>, stride: nat, tiles: seq<Rect>, tile: Rect)
    ensures tile in Changed(pixels, prev, stride, tiles) <==> tile in tiles && TileChanged(pixels, prev, stride, tile)
  {
    if tiles != [] {
      ChangedExactly(pixels, prev, stride, tiles[1..], tile);
    }
  }

  lemma {:induction false} ChangedLaid(pixels: seq<Byte>, prev: seq<Byte>, stride: nat, tiles: seq<Rect>)
    requires Laid(tiles)
    ensures Laid(Changed(pixels, prev, stride, tiles))
  {
    if tiles != [] {
      var head, rest := tiles[0], tiles[1..];
      var later := Changed(pixels, prev, stride, rest);
      assert Laid(rest);
      ChangedLaid(pixels, prev, stride, rest);
      forall i | 0 <= i < |later| ensures Follows(head, later[i]) {
        ChangedExactly(pixels, prev, stride, rest, later[i]);
        var j :| 0 <= j < |rest| && rest[j] == later[i];
        assert tiles[j + 1] == later[i];
      }
    }
  }

  /**
    The result is exactly the changed tiles of the grid, from the top left on: each lies in the
    frame and follows the ones before it, so that none overlap.
   */
  lemma {:induction false} DirtyExactly(pixels: seq<Byte>, prev: seq<Byte>, stride: nat, w: nat, h: nat)
    ensures var dirty, grid := DirtyTiles(pixels, prev, stride, w, h), Tiles(Rect(0, 0, w, h));
            && (forall tile :: tile in dirty <==> tile in grid && TileChanged(pixels, prev, stride, tile))
            && Laid(dirty)
            && forall i :: 0 <= i < |dirty| ==> dirty[i].Within(Rect(0, 0, w, h)) && !dirty[i].Empty()
  {
    var dirty, grid := DirtyTiles(pixels, prev, stride, w, h), Tiles(Rect(0, 0, w, h));
    forall tile ensures tile in dirty <==> tile in grid && TileChanged(pixels, prev, stride, tile) {
      ChangedExactly(pixels, prev, stride, grid, tile);
    }
    TilesLaid(0, 0, Rect(0, 0, w, h));
    ChangedLaid(pixels, prev, stride, grid);
    TilesWithin(0, 0, Rect(0, 0, w, h));
    forall i | 0 <= i < |dirty| ensures dirty[i].Within(Rect(0, 0, w, h)) && !dirty[i].Empty() {
      assert dirty[i] in grid;
      var j :| 0 <= j < |grid| && grid[j] == dirty[i];
    }
  }

  lemma {:induction false} ChangedPixelIsDirty(
    pixels: seq<Byte>, prev: seq<Byte>, stride: nat, w: nat, h: nat, x: nat, y: nat)
    requires x < w && y < h && PixelChanged(pixels, prev, stride, x, y)
    ensures InSome(DirtyTiles(pixels, prev, stride, w, h), x, y)
  {
    var dirty, grid := DirtyTiles(pixels, prev, stride, w, h), Tiles(Rect(0, 0, w, h));
    TilesCover(0, 0, Rect(0, 0, w, h), x, y);
    var i :| 0 <= i < |grid| && grid[i].Contains(x, y);
    ChangedExactly(pixels, prev, stride, grid, grid[i]);
    var j :| 0 <= j < |dirty| && dirty[j] == grid[i];
    assert dirty[j].Contains(x, y);
  }

  /** The old frame, overwritten with the new one on the dirty tiles only. */
  ghost function Patched(pixels: seq<Byte>, prev: seq<Byte>, stride: nat, dirty: seq<Rect>, x: nat, y: nat): seq<Byte>
    requires Has(pixels, stride, x, y) && Has(prev, stride, x, y)
  {
    if InSome(dirty, x, y) then PixelBytes(pixels, stride, x, y) else PixelBytes(prev, stride, x, y)
  }

  /** Patching the old frame on the dirty tiles gives the new frame. */
  lemma {:induction false} PatchGivesNewFrame(
    pixels: seq<Byte>, prev: seq<Byte>, stride: nat, w: nat, h: nat, x: nat, y: nat)
    requires x < w && y < h && Has(pixels, stride, x, y) && Has(prev, stride, x, y)
    ensures Patched(pixels, prev, stride, DirtyTiles(pixels, prev, stride, w, h), x, y) == PixelBytes(pixels, stride, x, y)
  {
    if PixelChanged(pixels, prev, stride, x, y) {
      ChangedPixelIsDirty(pixels, prev, stride, w, h, x, y);
    }
  }

  /** Nothing is dirty exactly when the visible frames are equal. */
  lemma {:induction false} NothingDirty(pixels: seq<Byte>, prev: seq<Byte>, stride: nat, w: nat, h: nat)
    ensures DirtyTiles(pixels, prev, stride, w, h) == [] <==>
              forall x: nat, y: nat :: x < w && y < h ==> !PixelChanged(pixels, prev, stride, x, y)
  {
    var dirty := DirtyTiles(pixels, prev, stride, w, h);
    if dirty == [] {
      forall x: nat, y: nat | x < w && y < h ensures !PixelChanged(pixels, prev, stride, x, y) {
        if PixelChanged(pixels, prev, stride, x, y) {
          ChangedPixelIsDirty(pixels, prev, stride, w, h, x, y);
        }
      }
    } else {
      DirtyExactly(pixels, prev, stride, w, h);
      assert dirty[0] in dirty && dirty[0].Within(Rect(0, 0, w, h));
      var x: nat, y: nat :| dirty[0].Contains(x, y) && PixelChanged(pixels, prev, stride, x, y);
    }
  }

  /** The stored frame overwritten with the new one, as far as both go. */
  function Overwrite(prev: seq<Byte>, pixels: seq<Byte>): (r: seq<Byte>)
    ensures |r| == |prev| && forall k :: 0 <= k < |r| ==> r[k] == if k < |pixels| then pixels[k] else prev[k]
  {
    if |pixels| <= |prev| then pixels + prev[|pixels|..] else pixels[..|prev|]
  }

  /** The stored frame after a first or resized one: its bytes, except that an empty slice stays nil. */
  function Stored(prev: Option<seq<Byte>>, pixels: seq<Byte>): (r: Option<seq<Byte>>)
    ensures r == Some(pixels) || (r.None? && prev.None? && pixels == [])
  {
    if prev.None? && pixels == [] then None else Some(pixels)
  }

  class FrameDiffer {
    var prev: Option<seq<Byte>>
    var prevW: nat
    var prevH: nat

    constructor ()
      ensures prev.None?
    {
      prev, prevW, prevH := None, 0, 0;
    }

    /** No result for a first frame or a new resolution, else the dirty tiles; the frame is remembered. */
    method Diff(pixels: seq<Byte>, width: nat, height: nat, stride: nat) returns (r: Option<seq<Rect>>)
      requires prev.Some? && prevW == width && prevH == height ==> Comparable(pixels, prev.value, stride, width, height)
      modifies this
      ensures prevW == width && prevH == height
      ensures if old(prev).None? || old(prevW) != width || old(prevH) != height
              then r == None && prev == Stored(old(prev), pixels)
              else r == Some(DirtyTiles(pixels, old(prev).value, stride, width, height))
                   && prev == Some(Overwrite(old(prev).value, pixels))
    {
      if prev.None? || prevW != width || prevH != height {
        prev := Stored(prev, pixels);
        prevW := width;
        prevH := height;
        return None;
      }
      var dirty := FindDirtyTiles(pixels, prev.value, stride, width, height);
      prev := Some(Overwrite(prev.value, pixels));
      return Some(dirty);
    }
  }
}

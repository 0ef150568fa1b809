/**
  Rectangles and the row-major grid of 64x64 tiles that the differ, the encoders, the decoders
  and the length scanners all walk with the same pair of nested loops.
 */
module Grid {

  const TILE: nat := 64

  function Min(a: int, b: int): int {
    if a <= b then a else b
  }

  /** The pixels (px, py) with x0 <= px < x1 and y0 <= py < y1. */
  datatype Rect = Rect(x0: int, y0: int, x1: int, y1: int) {
    function Width(): nat { if x0 <= x1 then x1 - x0 else 0 }

    function Height(): nat { if y0 <= y1 then y1 - y0 else 0 }

    predicate Empty() {
      x0 >= x1 || y0 >= y1
    }

    predicate Contains(px: int, py: int) {
      x0 <= px < x1 && y0 <= py < y1
    }

    /** `image.Rectangle.Intersect`: the zero rectangle when nothing is shared. */
    function Intersect(other: Rect): (r: Rect)
      ensures forall px, py :: r.Contains(px, py) <==> Contains(px, py) && other.Contains(px, py)
    {
      var r := Rect(if x0 < other.x0 then other.x0 else x0,
                    if y0 < other.y0 then other.y0 else y0,
                    if x1 > other.x1 then other.x1 else x1,
                    if y1 > other.y1 then other.y1 else y1);
      if r.Empty() then Rect(0, 0, 0, 0) else r
    }

    predicate Within(outer: Rect) {
      outer.x0 <= x0 && outer.y0 <= y0 && x1 <= outer.x1 && y1 <= outer.y1
    }
  }

  /** The tile whose upper left corner is (tx, ty), cut off at the edges of `area`. */
  function TileAt(tx: int, ty: int, area: Rect): Rect {
    Rect(tx, ty, tx + Min(TILE, area.x1 - tx), ty + Min(TILE, area.y1 - ty))
  }

  /** The tiles the nested loops still visit when they stand at (tx, ty). */
  function TilesFrom(tx: int, ty: int, area: Rect): seq<Rect>
    decreases area.y1 - ty, area.x1 - tx
  {
    if ty >= area.y1 then []
    else if tx >= area.x1 then TilesFrom(area.x0, ty + TILE, area)
    else [TileAt(tx, ty, area)] + TilesFrom(tx + TILE, ty, area)
  }

  /** One turn of the inner loop. */
  lemma {:induction false} TilesHead(tx: int, ty: int, area: Rect)
    requires tx < area.x1 && ty < area.y1
    ensures TilesFrom(tx, ty, area) != []
    ensures TilesFrom(tx, ty, area)[0] == TileAt(tx, ty, area)
    ensures TilesFrom(tx, ty, area)[1..] == TilesFrom(tx + TILE, ty, area)
  {
  }

  function Tiles(area: Rect): seq<Rect> {
    TilesFrom(area.x0, area.y0, area)
  }

  /** Whether the loops, standing at (tx, ty), have yet to come to pixel (px, py). */
  predicate Ahead(tx: int, ty: int, px: int, py: int) {
    py >= ty + TILE || (py >= ty && px >= tx)
  }

  ghost predicate InSome(tiles: seq<Rect>, px: int, py: int) {
    exists i :: 0 <= i < |tiles| && tiles[i].Contains(px, py)
  }

  /** Every tile is a non-empty part of the area, no larger than 64x64. */
  lemma {:induction false} TilesWithin(tx: int, ty: int, area: Rect)
    requires area.x0 <= tx && area.y0 <= ty
    ensures forall i :: 0 <= i < |TilesFrom(tx, ty, area)| ==>
              var t := TilesFrom(tx, ty, area)[i];
              t.Within(area) && 0 < t.Width() <= TILE && 0 < t.Height() <= TILE
    decreases area.y1 - ty, area.x1 - tx
  {
    if ty >= area.y1 {
    } else if tx >= area.x1 {
      TilesWithin(area.x0, ty + TILE, area);
    } else {
      TilesWithin(tx + TILE, ty, area);
    }
  }

  /** The tiles still ahead cover exactly the pixels still ahead. */
  lemma {:induction false} TilesCover(tx: int, ty: int, area: Rect, px: int, py: int)
    requires area.x0 <= tx && area.y0 <= ty && area.Contains(px, py)
    ensures InSome(TilesFrom(tx, ty, area), px, py) <==> Ahead(tx, ty, px, py)
    decreases area.y1 - ty, area.x1 - tx
  {
    if ty >= area.y1 {
    } else if tx >= area.x1 {
      TilesCover(area.x0, ty + TILE, area, px, py);
    } else {
      TilesCover(tx + TILE, ty, area, px, py);
      var rest := TilesFrom(tx + TILE, ty, area);
      var all := TilesFrom(tx, ty, area);
      assert all[0] == TileAt(tx, ty, area);
      if InSome(rest, px, py) {
        var i :| 0 <= i < |rest| && rest[i].Contains(px, py);
        assert all[i + 1] == rest[i];
      }
      if InSome(all, px, py) && !all[0].Contains(px, py) {
        var i :| 0 <= i < |all| && all[i].Contains(px, py);
        assert rest[i - 1] == all[i];
      }
    }
  }

  /** No pixel lies in two tiles. */
  lemma {:induction false} TilesDisjoint(tx: int, ty: int, area: Rect, px: int, py: int, i: nat, j: nat)
    requires area.x0 <= tx && area.y0 <= ty
    requires i < |TilesFrom(tx, ty, area)| && j < |TilesFrom(tx, ty, area)|
    requires TilesFrom(tx, ty, area)[i].Contains(px, py) && TilesFrom(tx, ty, area)[j].Contains(px, py)
    ensures i == j
    decreases area.y1 - ty, area.x1 - tx
  {
    if ty >= area.y1 {
    } else if tx >= area.x1 {
      TilesDisjoint(area.x0, ty + TILE, area, px, py, i, j);
    } else if i > 0 && j > 0 {
      TilesDisjoint(tx + TILE, ty, area, px, py, i - 1, j - 1);
    } else if i > 0 || j > 0 {
      var k := if i > 0 then i else j;
      var rest := TilesFrom(tx + TILE, ty, area);
      TilesWithin(tx, ty, area);
      assert rest[k - 1].Contains(px, py);
      TilesCover(tx + TILE, ty, area, px, py);
    }
  }

  /** `b` lies below `a`, or in the same row to its right. */
  predicate Follows(a: Rect, b: Rect) {
    a.y1 <= b.y0 || (a.y0 == b.y0 && a.x1 <= b.x0)
  }

  /** Row-major order, without overlap. */
  ghost predicate Laid(tiles: seq<Rect>) {
    forall i, j :: 0 <= i < j < |tiles| ==> Follows(tiles[i], tiles[j])
  }

  lemma {:induction false} TilesLaid(tx: int, ty: int, area: Rect)
    requires area.x0 <= tx && area.y0 <= ty
    ensures Laid(TilesFrom(tx, ty, area))
    ensures forall i :: 0 <= i < |TilesFrom(tx, ty, area)| ==>
              var t := TilesFrom(tx, ty, area)[i]; t.y0 >= ty + TILE || (t.y0 == ty && t.x0 >= tx)
    decreases area.y1 - ty, area.x1 - tx
  {
    if ty >= area.y1 {
    } else if tx >= area.x1 {
      TilesLaid(area.x0, ty + TILE, area);
    } else {
      TilesLaid(tx + TILE, ty, area);
    }
  }

  /** A rectangle no larger than a tile is its own only tile. */
  lemma {:induction false} OneTile(area: Rect)
    requires 0 < area.Width() <= TILE && 0 < area.Height() <= TILE
    ensures Tiles(area) == [area]
  {
    assert TilesFrom(area.x0 + TILE, area.y0, area) == [];
  }
}

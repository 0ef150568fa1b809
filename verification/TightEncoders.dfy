/** The Go Tight encoder (rfb/encodings/tight.go). */
module TightEncoders {
  import opened Bytes
  import opened Streams
  import opened Grid
  import opened FrameDiffs
  import opened Colours
  import opened Protocol
  import opened TightTiles
  import ZrleEncoders
  import Zlib

  /** All pixels have one colour; an empty tile has none. */
  method IsSolidColour(px: seq<Bgr>) returns (r: Option<Bgr>)
    ensures r == SolidColour(px)
  {
    if |px| == 0 { return None; }
    var first := px[0];
    for i := 1 to |px|
      invariant forall k :: 0 <= k < i ==> px[k] == first
    {
      if px[i] != first { return None; }
    }
    r := Some(first);
  }

  function SolidColour(px: seq<Bgr>): Option<Bgr> {
    if px != [] && forall k :: 0 <= k < |px| ==> px[k] == px[0] then Some(px[0]) else None
  }

  /** The pixels of a row, without their fourth byte. */
  function RowOf(pixels: seq<Byte>, start: nat, w: nat): seq<Bgr> {
    seq(w, c requires c >= 0 => ColourAt(pixels, start + 4 * c))
  }

  /** The tile's rows, or the out-of-bounds error at the first row the frame does not have. */
  method ExtractTile(pixels: seq<Byte>, stride: nat, tileX: nat, tileY: nat, tileW: nat, tileH: nat)
    returns (r: Option<seq<Bgr>>)
    requires tileW > 0
    ensures r.Some? <==> ZrleEncoders.HasAll(pixels, stride, Rect(tileX, tileY, tileX + tileW, tileY + tileH))
    ensures r.Some? ==> RowMajor(r.value, tileW, tileH, ZrleEncoders.SourceView(pixels, stride, tileX, tileY))
  {
    var px: seq<Bgr> := [];
    ghost var view := ZrleEncoders.SourceView(pixels, stride, tileX, tileY);
    for row := 0 to tileH
      invariant RowMajor(px, tileW, row, view)
      invariant ZrleEncoders.HasAll(pixels, stride, Rect(tileX, tileY, tileX + tileW, tileY + row))
    {
      var srcY := tileY + row;
      var srcOffset := srcY * stride + tileX * 4;
      AtIsProduct(srcY, stride);
      var srcEnd := srcOffset + tileW * 4;
      if srcEnd > |pixels| {
        assert !Has(pixels, stride, tileX + tileW - 1, srcY);
        assert Rect(tileX, tileY, tileX + tileW, tileY + tileH).Contains(tileX + tileW - 1, srcY);
        return None;
      }
      RowRead(pixels, stride, tileX, tileY, tileW, row);
      ZrleEncoders.NextRowMajor(px, RowOf(pixels, srcOffset, tileW), tileW, row, view);
      px := px + RowOf(pixels, srcOffset, tileW);
    }
    r := Some(px);
  }

  lemma {:induction false} RowRead(pixels: seq<Byte>, stride: nat, x0: nat, y0: nat, w: nat, row: nat)
    requires FrameOffset(stride, x0, y0 + row) + 4 * w <= |pixels|
    ensures forall c: nat :: c < w ==>
              RowOf(pixels, FrameOffset(stride, x0, y0 + row), w)[c] == ZrleEncoders.SourceView(pixels, stride, x0, y0)(c, row)
    ensures ZrleEncoders.HasAll(pixels, stride, Rect(x0, y0 + row, x0 + w, y0 + row + 1))
  {
    forall c: nat | c < w
      ensures RowOf(pixels, FrameOffset(stride, x0, y0 + row), w)[c] == ZrleEncoders.SourceView(pixels, stride, x0, y0)(c, row)
    {
      var start := FrameOffset(stride, x0, y0 + row);
      assert FrameOffset(stride, x0 + c, y0 + row) == start + 4 * c;
      assert Has(pixels, stride, x0 + c, y0 + row);
      assert RowOf(pixels, start, w)[c] == ColourAt(pixels, start + 4 * c);
      assert ZrleEncoders.ColourOf(pixels, stride, x0 + c, y0 + row) == ColourAt(pixels, start + 4 * c);
    }
    forall x: nat, y: nat | Rect(x0, y0 + row, x0 + w, y0 + row + 1).Contains(x, y) ensures Has(pixels, stride, x, y) {
    }
  }

  /** The tiles compressed with zlib among the first ones. */
  function Basics(tiles: seq<TileInfo>): nat {
    if tiles == [] then 0
    else Basics(tiles[..|tiles| - 1]) + (if tiles[|tiles| - 1].kind.BasicKind? then 1 else 0)
  }

  /** Solid, else JPEG for a full tile that varies enough, else Basic on the next stream in turn. */
  function KindOf(px: seq<Bgr>, area: Rect, varied: seq<Bgr> -> bool, basics: nat): Kind {
    var solid := SolidColour(px);
    if solid.Some? then SolidKind(solid.value)
    else if area.Width() * area.Height() >= 4096 && varied(px) then JpegKind
    else BasicKind(basics % 4)
  }

  /**
    A tile is solid exactly when its pixels all have one colour, a JPEG exactly when it is a whole
    64 by 64 tile of at least two colours that varies enough, and Basic otherwise.
   */
  lemma {:induction false} KindExactly(px: seq<Bgr>, area: Rect, varied: seq<Bgr> -> bool, basics: nat)
    requires px != [] && area.Width() <= 64 && area.Height() <= 64
    ensures var kind := KindOf(px, area, varied, basics);
            && (kind.SolidKind? <==> forall k :: 0 <= k < |px| ==> px[k] == px[0])
            && (kind.SolidKind? ==> kind.colour == px[0])
            && (kind.JpegKind? <==>
                  && area.Width() == 64 && area.Height() == 64 && varied(px)
                  && exists k :: 0 <= k < |px| && px[k] != px[0])
  {
    FullTile(area.Width(), area.Height());
  }

  lemma {:induction false} FullTile(w: nat, h: nat)
    requires w <= 64 && h <= 64
    ensures w * h >= 4096 <==> w == 64 && h == 64
  {
    if w < 64 { Below(w, 63, h, 64); }
    if h < 64 { Below(w, 64, h, 63); }
  }

  lemma {:induction false} Below(a: nat, b: nat, c: nat, d: nat)
    requires a <= b && c <= d
    ensures a * c <= b * d
  {
    assert a * c <= b * c && b * c <= b * d;
  }

  /** The first Basic tile goes to stream 0, every later one to the stream after that of the one before. */
  lemma {:induction false} StreamsInTurn(
    tiles: seq<TileInfo>, areas: seq<Rect>, pixels: seq<Byte>, stride: nat, varied: seq<Bgr> -> bool, i: nat, j: nat)
    requires Classified(tiles, areas, pixels, stride, varied) && i <= j < |tiles| && tiles[j].kind.BasicKind?
    requires forall k :: i <= k < j ==> !tiles[k].kind.BasicKind?
    ensures i == 0 ==> tiles[j].kind.stream == 0
    ensures i > 0 && tiles[i - 1].kind.BasicKind? ==> tiles[j].kind.stream == (tiles[i - 1].kind.stream + 1) % 4
  {
    assert IsClassified(tiles, j, areas[j], pixels, stride, varied);
    BasicsBetween(tiles, i, j);
    if i > 0 {
      assert IsClassified(tiles, i - 1, areas[i - 1], pixels, stride, varied);
      assert tiles[..i][..i - 1] == tiles[..i - 1];
    }
  }

  lemma {:induction false} BasicsBetween(tiles: seq<TileInfo>, i: nat, j: nat)
    requires i <= j <= |tiles| && forall k :: i <= k < j ==> !tiles[k].kind.BasicKind?
    ensures Basics(tiles[..j]) == Basics(tiles[..i])
    decreases j
  {
    if i < j {
      BasicsBetween(tiles, i, j - 1);
      assert tiles[..j][..j - 1] == tiles[..j - 1];
    }
  }

  /** The tiles of a frame, classified in order. */
  ghost predicate Classified(tiles: seq<TileInfo>, areas: seq<Rect>, pixels: seq<Byte>, stride: nat, varied: seq<Bgr> -> bool) {
    && |tiles| <= |areas|
    && forall i :: 0 <= i < |tiles| ==> IsClassified(tiles, i, areas[i], pixels, stride, varied)
  }

  ghost predicate IsClassified(
    tiles: seq<TileInfo>, i: nat, area: Rect, pixels: seq<Byte>, stride: nat, varied: seq<Bgr> -> bool)
  {
    && i < |tiles| && tiles[i].area == area
    && ZrleEncoders.HasAll(pixels, stride, area)
    && RowMajor(tiles[i].px, area.Width(), area.Height(), ZrleEncoders.SourceView(pixels, stride, area.x0, area.y0))
    && tiles[i].kind == KindOf(tiles[i].px, area, varied, Basics(tiles[..i]))
  }

  lemma {:induction false} ClassifiedMore(
    tiles: seq<TileInfo>, tile: TileInfo, areas: seq<Rect>, pixels: seq<Byte>, stride: nat, varied: seq<Bgr> -> bool)
    requires Classified(tiles, areas, pixels, stride, varied) && |tiles| < |areas|
    requires tile.area == areas[|tiles|] && ZrleEncoders.HasAll(pixels, stride, tile.area)
    requires RowMajor(tile.px, tile.area.Width(), tile.area.Height(),
                      ZrleEncoders.SourceView(pixels, stride, tile.area.x0, tile.area.y0))
    requires tile.kind == KindOf(tile.px, tile.area, varied, Basics(tiles))
    ensures Classified(tiles + [tile], areas, pixels, stride, varied)
  {
    var all := tiles + [tile];
    forall i | 0 <= i < |all| ensures IsClassified(all, i, areas[i], pixels, stride, varied) {
      if i < |tiles| {
        assert IsClassified(tiles, i, areas[i], pixels, stride, varied);
        assert all[..i] == tiles[..i];
      } else {
        assert all[..i] == tiles;
      }
    }
  }

  /** Between two tiles of the classifying loops; once a pixel is missing they stop. */
  ghost predicate Classifying(
    ok: bool, tiles: seq<TileInfo>, all: seq<Rect>, rest: seq<Rect>, pixels: seq<Byte>, stride: nat, varied: seq<Bgr> -> bool,
    basicCount: nat, area: Rect)
  {
    if !ok then !ZrleEncoders.HasAll(pixels, stride, area)
    else Classified(tiles, all, pixels, stride, varied) && all[|tiles|..] == rest && basicCount == Basics(tiles)
  }

  lemma {:induction false} ClassifyNext(
    tiles: seq<TileInfo>, all: seq<Rect>, tx: nat, ty: nat, pixels: seq<Byte>, stride: nat, varied: seq<Bgr> -> bool,
    basicCount: nat, area: Rect, tile: TileInfo)
    requires Classifying(true, tiles, all, TilesFrom(tx, ty, area), pixels, stride, varied, basicCount, area)
    requires tx < area.x1 && ty < area.y1 && tile.area == TileAt(tx, ty, area)
    requires ZrleEncoders.HasAll(pixels, stride, tile.area)
    requires RowMajor(tile.px, tile.area.Width(), tile.area.Height(), ZrleEncoders.SourceView(pixels, stride, tx, ty))
    requires tile.kind == KindOf(tile.px, tile.area, varied, basicCount)
    ensures Classifying(true, tiles + [tile], all, TilesFrom(tx + TILE, ty, area), pixels, stride, varied,
                        if tile.kind.BasicKind? then basicCount + 1 else basicCount, area)
  {
    TilesHead(tx, ty, area);
    var rest := all[|tiles|..];
    assert rest[0] == all[|tiles|] && rest[1..] == all[|tiles| + 1..];
    ClassifiedMore(tiles, tile, all, pixels, stride, varied);
    assert (tiles + [tile])[..|tiles|] == tiles;
  }

  /** Takes one tile out of the frame and decides how it is encoded. */
  method ClassifyTile(area: Rect, tileX: nat, tileY: nat, tileW: nat, tileH: nat, pixels: seq<Byte>, stride: nat,
                      varied: seq<Bgr> -> bool, basicCount: nat)
    returns (r: Option<TileInfo>)
    requires tileX < area.x1 && tileY < area.y1 && 0 <= area.x0 <= tileX && 0 <= area.y0 <= tileY
    requires TileAt(tileX, tileY, area) == Rect(tileX, tileY, tileX + tileW, tileY + tileH)
    ensures r.None? ==> !ZrleEncoders.HasAll(pixels, stride, area)
    ensures r.Some? ==>
              var tile := r.value;
              && tile.area == TileAt(tileX, tileY, area) && ZrleEncoders.HasAll(pixels, stride, tile.area)
              && RowMajor(tile.px, tileW, tileH, ZrleEncoders.SourceView(pixels, stride, tileX, tileY))
              && tile.kind == KindOf(tile.px, tile.area, varied, basicCount)
  {
    var tilePixels := ExtractTile(pixels, stride, tileX, tileY, tileW, tileH);
    var place := Rect(tileX, tileY, tileX + tileW, tileY + tileH);
    if tilePixels.None? {
      ZrleEncoders.MissingIn(pixels, stride, place, area);
      return None;
    }
    var px := tilePixels.value;
    var solid := IsSolidColour(px);
    var kind;
    if solid.Some? {
      kind := SolidKind(solid.value);
    } else if tileW * tileH >= 4096 && varied(px) {
      kind := JpegKind;
    } else {
      kind := BasicKind(basicCount % 4);
    }
    r := Some(TileInfo(place, px, kind));
  }

  /** One turn of the inner classifying loop. */
  method AddTile(area: Rect, tileX: nat, tileY: nat, tileH: nat, pixels: seq<Byte>, stride: nat, varied: seq<Bgr> -> bool,
                 before: seq<TileInfo>, basics: nat, ghost all: seq<Rect>)
    returns (ok: bool, tiles: seq<TileInfo>, basicCount: nat)
    requires tileX < area.x1 && tileY < area.y1 && 0 <= area.x0 <= tileX && 0 <= area.y0 <= tileY
    requires tileH == Min(TILE, area.y1 - tileY)
    requires Classifying(true, before, all, TilesFrom(tileX, tileY, area), pixels, stride, varied, basics, area)
    ensures Classifying(ok, tiles, all, TilesFrom(tileX + TILE, tileY, area), pixels, stride, varied, basicCount, area)
  {
    var tileW := Min(TILE, area.x1 - tileX);
    ok, tiles, basicCount := true, before, basics;
    var tile := ClassifyTile(area, tileX, tileY, tileW, tileH, pixels, stride, varied, basics);
    if tile.None? { return false, before, basics; }
    ClassifyNext(before, all, tileX, tileY, pixels, stride, varied, basics, area, tile.value);
    tiles := before + [tile.value];
    if tile.value.kind.BasicKind? { basicCount := basics + 1; }
  }

  /** The classifying loops. */
  method Classify(area: Rect, pixels: seq<Byte>, stride: nat, varied: seq<Bgr> -> bool) returns (r: Option<seq<TileInfo>>)
    requires 0 <= area.x0 && 0 <= area.y0
    ensures r.Some? <==> ZrleEncoders.HasAll(pixels, stride, area)
    ensures r.Some? ==> |r.value| == |Tiles(area)| && Classified(r.value, Tiles(area), pixels, stride, varied)
  {
    ghost var all := Tiles(area);
    var tiles: seq<TileInfo>, basicCount: nat, ok := [], 0, true;
    var tileY := area.y0;
    while tileY < area.y1 && ok
      invariant tileY >= area.y0
      invariant Classifying(ok, tiles, all, TilesFrom(area.x0, tileY, area), pixels, stride, varied, basicCount, area)
      decreases area.y1 - tileY
    {
      var tileH := Min(TILE, area.y1 - tileY);
      var tileX := area.x0;
      while tileX < area.x1 && ok
        invariant tileX >= area.x0
        invariant Classifying(ok, tiles, all, TilesFrom(tileX, tileY, area), pixels, stride, varied, basicCount, area)
        decreases area.x1 - tileX
      {
        ok, tiles, basicCount := AddTile(area, tileX, tileY, tileH, pixels, stride, varied, tiles, basicCount, all);
        tileX := tileX + TILE;
      }
      tileY := tileY + TILE;
    }
    AllClassified(ok, tiles, all, tileY, pixels, stride, varied, basicCount, area);
    r := if ok then Some(tiles) else None;
  }

  lemma {:induction false} AllClassified(
    ok: bool, tiles: seq<TileInfo>, all: seq<Rect>, ty: nat, pixels: seq<Byte>, stride: nat, varied: seq<Bgr> -> bool,
    basicCount: nat, area: Rect)
    requires Classifying(ok, tiles, all, TilesFrom(area.x0, ty, area), pixels, stride, varied, basicCount, area)
    requires all == Tiles(area) && (ok ==> ty >= area.y1)
    ensures ok <==> ZrleEncoders.HasAll(pixels, stride, area)
    ensures ok ==> |tiles| == |all|
  {
    if ok {
      assert all[|tiles|..] == [];
      forall i | 0 <= i < |all| ensures ZrleEncoders.HasAll(pixels, stride, all[i]) {
        assert IsClassified(tiles, i, all[i], pixels, stride, varied);
      }
      ZrleEncoders.HasAllOf(pixels, stride, area, all);
    }
  }

  lemma {:induction false} ClassifiedNumbered(
    tiles: seq<TileInfo>, areas: seq<Rect>, pixels: seq<Byte>, stride: nat, varied: seq<Bgr> -> bool)
    requires Classified(tiles, areas, pixels, stride, varied)
    ensures Numbered(tiles)
  {
    forall i | 0 <= i < |tiles| ensures tiles[i].kind.BasicKind? ==> tiles[i].kind.stream < 4 {
      assert IsClassified(tiles, i, areas[i], pixels, stride, varied);
    }
  }

  class Tight {
    const codec: Zlib.Codec
    /** The JPEG encoder, and the test that picks tiles for it. */
    const jpeg: seq<Bgr> -> seq<Byte>
    const varied: seq<Bgr> -> bool
    /** What each of the four zlib streams has compressed. */
    var histories: seq<seq<seq<Byte>>>

    constructor (codec: Zlib.Codec, jpeg: seq<Bgr> -> seq<Byte>, varied: seq<Bgr> -> bool)
      ensures this.codec == codec && this.jpeg == jpeg && this.varied == varied && histories == [[], [], [], []]
    {
      this.codec, this.jpeg, this.varied := codec, jpeg, varied;
      histories := [[], [], [], []];
    }

    /**
      The goroutines, in any order the scheduler likes: each turn is one tile of some goroutine that
      has work left.
     */
    method EncodeTiles(tiles: seq<TileInfo>) returns (results: seq<seq<Byte>>)
      requires |histories| == 4 && Numbered(tiles)
      modifies this
      ensures |results| == |tiles|
      ensures forall i: nat :: i < |tiles| ==> results[i] == Sequential(codec, jpeg, old(histories), tiles, i)
      ensures |histories| == 4 && forall s: nat :: s < 4 ==> histories[s] == old(histories)[s] + Plains(tiles, s)
    {
      var st := Start(tiles, histories);
      StartGood(codec, jpeg, histories, tiles);
      while !Finished(tiles, st)
        invariant Good(codec, jpeg, old(histories), tiles, st)
        decreases Left(tiles, st)
      {
        UnfinishedCanGoOn(tiles, st);
        var a :| Enabled(tiles, st, a);
        StepKeeps(codec, jpeg, old(histories), tiles, st, a);
        StepShortens(codec, jpeg, tiles, st, a);
        st := Step(codec, jpeg, tiles, st, a);
      }
      FinishedIsSequential(codec, jpeg, old(histories), tiles, st);
      histories := st.histories;
      results := seq(|tiles|, i requires 0 <= i < |tiles| => if st.results[i].Some? then st.results[i].value else []);
    }

    /** One rectangle a tile, in row-major order, or the out-of-bounds error before anything is encoded. */
    method EncodeMulti(x: nat, y: nat, width: nat, height: nat, pixels: seq<Byte>, stride: nat)
      returns (r: Option<seq<Rectangle>>, ghost tiles: seq<TileInfo>)
      requires |histories| == 4
      modifies this
      ensures |histories| == 4
      ensures r.Some? <==> ZrleEncoders.HasAll(pixels, stride, Rect(x, y, x + width, y + height))
      ensures r.None? ==> histories == old(histories)
      ensures r.Some? ==>
                && Classified(tiles, Tiles(Rect(x, y, x + width, y + height)), pixels, stride, varied)
                && |r.value| == |tiles| == |Tiles(Rect(x, y, x + width, y + height))|
                && Numbered(tiles) && (forall s: nat :: s < 4 ==> histories[s] == old(histories)[s] + Plains(tiles, s))
                && forall i: nat :: i < |tiles| ==> IsRect(r.value[i], tiles, i, codec, jpeg, old(histories))
    {
      var area := Rect(x, y, x + width, y + height);
      var classified := Classify(area, pixels, stride, varied);
      if classified.None? { return None, []; }
      tiles := classified.value;
      ClassifiedNumbered(tiles, Tiles(area), pixels, stride, varied);
      TilesWithin(area.x0, area.y0, area);
      var infos := classified.value;
      forall i | 0 <= i < |infos| ensures 0 <= infos[i].area.x0 && 0 <= infos[i].area.y0 {
        assert IsClassified(infos, i, Tiles(area)[i], pixels, stride, varied);
      }
      var results := EncodeTiles(infos);
      var rects := seq(|infos|, i requires 0 <= i < |infos| && 0 <= infos[i].area.x0 && 0 <= infos[i].area.y0 =>
        TileRect(infos[i].area, results[i]));
      r := Some(rects);
    }

    /** The same tiles in one rectangle: a single one as it is, several with their data in a row. */
    method Encode(x: nat, y: nat, width: nat, height: nat, pixels: seq<Byte>, stride: nat)
      returns (r: Option<Rectangle>, ghost tiles: seq<TileInfo>)
      requires |histories| == 4
      modifies this
      ensures |histories| == 4
      ensures r.Some? <==> ZrleEncoders.HasAll(pixels, stride, Rect(x, y, x + width, y + height))
      ensures r.Some? ==>
                && Classified(tiles, Tiles(Rect(x, y, x + width, y + height)), pixels, stride, varied)
                && |tiles| == |Tiles(Rect(x, y, x + width, y + height))|
                && Numbered(tiles) && (forall s: nat :: s < 4 ==> histories[s] == old(histories)[s] + Plains(tiles, s))
                && r.value.data == Concat(SequentialWires(codec, jpeg, old(histories), tiles))
                && r.value.header == RectHeader(x, y, width, height, TIGHT)
    {
      var rects;
      rects, tiles := EncodeMulti(x, y, width, height, pixels, stride);
      if rects.None? { return None, tiles; }
      ghost var wires := SequentialWires(codec, jpeg, old(histories), tiles);
      forall i: nat | i < |tiles| ensures rects.value[i].data == wires[i] {
        assert IsRect(rects.value[i], tiles, i, codec, jpeg, old(histories));
      }
      if |rects.value| == 1 {
        OnlyTile(Rect(x, y, x + width, y + height));
        assert IsClassified(tiles, 0, Tiles(Rect(x, y, x + width, y + height))[0], pixels, stride, varied);
        assert IsRect(rects.value[0], tiles, 0, codec, jpeg, old(histories));
        assert wires == [wires[0]];
        ConcatOne(wires[0]);
        return Some(rects.value[0]), tiles;
      }
      var data := [];
      for i := 0 to |rects.value|
        modifies {}
        invariant data == Concat(wires[..i])
      {
        assert wires[..i + 1] == wires[..i] + [wires[i]];
        ConcatAppend(wires[..i], [wires[i]]);
        ConcatOne(wires[i]);
        data := data + rects.value[i].data;
      }
      assert wires[..|wires|] == wires;
      r := Some(Rectangle(RectHeader(x, y, width, height, TIGHT), data));
    }
  }

  /** An area with a single tile is that tile. */
  lemma {:induction false} OnlyTile(area: Rect)
    requires |Tiles(area)| == 1
    ensures Tiles(area)[0] == area
  {
    if area.y0 < area.y1 {
      if area.x0 < area.x1 {
        TilesHead(area.x0, area.y0, area);
        NoneAhead(area.x0 + TILE, area.y0, area);
      } else {
        NoTiles(area.y0 + TILE, area);
      }
    }
  }

  lemma {:induction false} NoTiles(ty: int, area: Rect)
    requires area.x0 >= area.x1
    ensures TilesFrom(area.x0, ty, area) == []
    decreases area.y1 - ty
  {
    if ty < area.y1 { NoTiles(ty + TILE, area); }
  }

  lemma {:induction false} NoneAhead(tx: int, ty: int, area: Rect)
    requires TilesFrom(tx, ty, area) == [] && area.x0 < area.x1 && ty < area.y1
    ensures tx >= area.x1 && ty + TILE >= area.y1
  {
  }

  function SequentialWires(
    codec: Zlib.Codec, jpeg: seq<Bgr> -> seq<Byte>, start: seq<seq<seq<Byte>>>, tiles: seq<TileInfo>): seq<seq<Byte>>
    requires |start| == 4 && Numbered(tiles)
  {
    seq(|tiles|, i requires 0 <= i < |tiles| => Sequential(codec, jpeg, start, tiles, i))
  }

  function TileRect(area: Rect, data: seq<Byte>): Rectangle
    requires 0 <= area.x0 && 0 <= area.y0
  {
    Rectangle(RectHeader(area.x0, area.y0, area.Width(), area.Height(), TIGHT), data)
  }

  /** The rectangle has the tile's place and size and its sequential encoding. */
  ghost predicate IsRect(
    r: Rectangle, tiles: seq<TileInfo>, i: nat, codec: Zlib.Codec, jpeg: seq<Bgr> -> seq<Byte>, start: seq<seq<seq<Byte>>>)
    requires |start| == 4 && Numbered(tiles) && i < |tiles|
  {
    && 0 <= tiles[i].area.x0 && 0 <= tiles[i].area.y0
    && r == TileRect(tiles[i].area, Sequential(codec, jpeg, start, tiles, i))
  }
}

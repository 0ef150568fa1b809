/** The Go ZRLE encoder (rfb/encodings/zrle.go): solid, packed-palette and raw tiles. */
module ZrleEncoders {
  import opened Bytes
  import opened Streams
  import opened Grid
  import opened FrameDiffs
  import opened Colours
  import opened PackedIndices
  import opened ZrleTiles
  import opened Protocol
  import Bits
  import Zlib

  /** The bytes, wherever they stand, are read as a w x h tile with the given view, to the last of them. */
  ghost predicate Encodes(bytes: seq<Byte>, w: nat, h: nat, view: TileView) {
    forall data: seq<Byte>, o: nat :: Sits(data, o, bytes) ==> ReadsAs(data, o, w, h, o + |bytes|, view)
  }

  ghost predicate ReadsAs(data: seq<Byte>, o: nat, w: nat, h: nat, end: nat, view: TileView) {
    var tile := Tile(data, o, w, h);
    tile.Some? && tile.value.end == end && SameTile(tile.value.view, view, w, h)
  }

  /** Raw tiles, also under the subencodings RFC 6143 leaves unused. */
  lemma {:induction false} RawReads(data: seq<Byte>, o: nat, subtype: Byte, px: seq<Bgr>, w: nat, h: nat, view: TileView)
    requires RowMajor(px, w, h, view) && Sits(data, o, [subtype] + Wires(px))
    requires subtype == 0 || 17 <= subtype <= 127 || subtype == 129
    ensures ReadsAs(data, o, w, h, o + 1 + 3 * |px|, view)
  {
    SitsSplit(data, o, [subtype], Wires(px));
    assert data[o] == [subtype][0];
    forall c: nat, r: nat | c < w && r < h ensures RawView(data, o + 1, w)(c, r) == view(c, r) {
      AtGrows(r, h, w);
      assert InOrder(px, w, h, view, c, r);
      WiresSit(px, data, o + 1, At(r, w) + c);
    }
  }

  lemma {:induction false} SolidReads(data: seq<Byte>, o: nat, colour: Bgr, w: nat, h: nat, view: TileView)
    requires Sits(data, o, [1] + colour.Wire())
    requires forall c: nat, r: nat :: c < w && r < h ==> view(c, r) == colour
    ensures ReadsAs(data, o, w, h, o + 4, view)
  {
    SitsSplit(data, o, [1], colour.Wire());
    assert data[o] == [1][0];
    ColourSits(colour, data, o + 1);
  }

  /** Rows of indices, one after the other: column c of row r has index(c, r). */
  ghost predicate RowsPacked(read: IndexRead, rows: seq<Byte>, size: nat, w: nat, h: nat, index: (nat, nat) -> nat) {
    && |rows| == At(h, size)
    && forall c: nat, r: nat :: c < w && r < h ==> read(rows, At(r, size), c) == index(c, r)
  }

  /** A row reads the same wherever it stands. */
  ghost predicate Movable(read: IndexRead, size: nat, w: nat) {
    forall data: seq<Byte>, o: nat, part: seq<Byte>, row: nat, c: nat ::
      Sits(data, o, part) && c < w && row + size <= |part| ==> read(data, o + row, c) == read(part, row, c)
  }

  lemma {:induction false} IndexSits(data: seq<Byte>, o: nat, part: seq<Byte>, row: nat, bits: nat, w: nat, c: nat)
    requires IsWidth(bits) && Sits(data, o, part) && c < w && row + RowBytes(w, bits) <= |part|
    ensures IndexAt(data, o + row, bits, c) == IndexAt(part, row, bits, c)
  {
    var i := row + BitPos(c, bits) / 8;
    assert i < |part|;
    assert part[i] == data[o + i];
  }

  lemma {:induction false} ReaderMovable(bits: nat, w: nat)
    requires IsWidth(bits)
    ensures Movable(IndexReader(bits), RowBytes(w, bits), w)
  {
    forall data: seq<Byte>, o: nat, part: seq<Byte>, row: nat, c: nat
      | Sits(data, o, part) && c < w && row + RowBytes(w, bits) <= |part|
      ensures IndexReader(bits)(data, o + row, c) == IndexReader(bits)(part, row, c)
    {
      IndexSits(data, o, part, row, bits, w, c);
    }
  }

  lemma {:induction false} OneMorePackedRow(
    read: IndexRead, rows: seq<Byte>, line: seq<Byte>, size: nat, w: nat, h: nat, index: (nat, nat) -> nat)
    requires Movable(read, size, w) && RowsPacked(read, rows, size, w, h, index) && |line| == size
    requires forall c: nat :: c < w ==> read(line, 0, c) == index(c, h)
    ensures RowsPacked(read, rows + line, size, w, h + 1, index)
  {
    SitsAtHead(rows, line);
    SitsLast(rows, line);
    forall c: nat, r: nat | c < w && r < h + 1
      ensures read(rows + line, At(r, size), c) == index(c, r)
    {
      if r < h {
        AtGrows(r, h, size);
        assert read(rows + line, 0 + At(r, size), c) == read(rows, At(r, size), c);
      } else {
        assert read(rows + line, |rows| + 0, c) == read(line, 0, c);
      }
    }
  }

  lemma {:induction false} IndicesRead(
    read: IndexRead, data: seq<Byte>, o: nat, palette: seq<Bgr>, rows: seq<Byte>, size: nat, w: nat, h: nat,
    index: (nat, nat) -> nat, view: TileView)
    requires Movable(read, size, w) && RowsPacked(read, rows, size, w, h, index)
    requires forall c: nat, r: nat :: c < w && r < h ==> index(c, r) < |palette| && palette[index(c, r)] == view(c, r)
    requires Sits(data, o, Wires(palette)) && Sits(data, o + 3 * |palette|, rows)
    ensures SameTile(IndexView(read, data, o, size, |palette|), view, w, h)
  {
    forall c: nat, r: nat | c < w && r < h ensures IndexView(read, data, o, size, |palette|)(c, r) == view(c, r) {
      AtGrows(r, h, size);
      assert read(data, o + 3 * |palette| + At(r, size), c) == read(rows, At(r, size), c) == index(c, r);
      WiresSit(palette, data, o, index(c, r));
    }
  }

  lemma {:induction false} PackedReads(
    data: seq<Byte>, o: nat, palette: seq<Bgr>, rows: seq<Byte>, w: nat, h: nat, index: (nat, nat) -> nat, view: TileView)
    requires 2 <= |palette| <= 16
    requires var bits := WidthFor(|palette|); RowsPacked(IndexReader(bits), rows, RowBytes(w, bits), w, h, index)
    requires forall c: nat, r: nat :: c < w && r < h ==> index(c, r) < |palette| && palette[index(c, r)] == view(c, r)
    requires Sits(data, o, [|palette|] + Wires(palette) + rows)
    ensures ReadsAs(data, o, w, h, o + 1 + 3 * |palette| + |rows|, view)
  {
    var n, bits := |palette|, WidthFor(|palette|);
    SitsSplit(data, o, [n] + Wires(palette), rows);
    SitsSplit(data, o, [n], Wires(palette));
    assert data[o] == [n][0];
    assert Tile(data, o, w, h) == Some(PackedTile(data, o + 1, w, h, n));
    ReaderMovable(bits, w);
    IndicesRead(IndexReader(bits), data, o + 1, palette, rows, RowBytes(w, bits), w, h, index, view);
  }

  /** The colours of the map, by index. */
  ghost predicate Indexed(colourSet: map<Bgr, nat>, order: seq<Bgr>) {
    && |colourSet| == |order|
    && (forall c :: c in colourSet ==> colourSet[c] < |order| && order[colourSet[c]] == c)
    && (forall i: nat :: i < |order| ==> order[i] in colourSet && colourSet[order[i]] == i)
  }

  /** The distinct colours of the tile by first appearance, given up once there are 128. */
  method CountColours(px: seq<Bgr>) returns (colourSet: map<Bgr, nat>, ghost order: seq<Bgr>)
    ensures Indexed(colourSet, order)
    ensures forall c :: c in colourSet ==> c in px
    ensures |colourSet| < 128 ==> forall i :: 0 <= i < |px| ==> px[i] in colourSet
  {
    colourSet, order := map[], [];
    var i := 0;
    while i < |px|
      invariant i <= |px| && Indexed(colourSet, order)
      invariant forall c :: c in colourSet ==> c in px
      invariant forall j :: 0 <= j < i ==> px[j] in colourSet
    {
      var c := px[i];
      if c !in colourSet {
        if |colourSet| >= 128 { return; }
        colourSet := colourSet[c := |colourSet|];
        order := order + [c];
      }
      i := i + 1;
    }
  }

  /** The colours of the frame; black where it has no pixel. */
  function ColourOf(pixels: seq<Byte>, stride: nat, x: int, y: int): Bgr {
    if x >= 0 && y >= 0 && Has(pixels, stride, x, y) then FrameColour(pixels, stride, x, y) else BLACK
  }

  /** A tile of it. */
  ghost function SourceView(pixels: seq<Byte>, stride: nat, x0: int, y0: int): TileView {
    (c, r) => ColourOf(pixels, stride, x0 + c, y0 + r)
  }

  ghost predicate HasAll(pixels: seq<Byte>, stride: nat, area: Rect) {
    forall x: nat, y: nat :: area.Contains(x, y) ==> Has(pixels, stride, x, y)
  }

  /** One row of the tile, or the out-of-bounds error. */
  method ExtractRow(pixels: seq<Byte>, stride: nat, tileX: nat, srcY: nat, tileW: nat) returns (r: Option<seq<Bgr>>)
    ensures r.Some? <==> HasAll(pixels, stride, Rect(tileX, srcY, tileX + tileW, srcY + 1))
    ensures r.Some? ==> |r.value| == tileW
                        && forall c: nat :: c < tileW ==> r.value[c] == ColourOf(pixels, stride, tileX + c, srcY)
  {
    var line: seq<Bgr> := [];
    for col := 0 to tileW
      invariant |line| == col && HasAll(pixels, stride, Rect(tileX, srcY, tileX + col, srcY + 1))
      invariant forall c: nat :: c < col ==> line[c] == ColourOf(pixels, stride, tileX + c, srcY)
    {
      var srcX := tileX + col;
      var srcOff := srcY * stride + srcX * 4;
      AtIsProduct(srcY, stride);
      if srcOff + 3 >= |pixels| {
        assert Rect(tileX, srcY, tileX + tileW, srcY + 1).Contains(srcX, srcY) && !Has(pixels, stride, srcX, srcY);
        return None;
      }
      assert Has(pixels, stride, srcX, srcY);
      line := line + [Bgr(pixels[srcOff], pixels[srcOff + 1], pixels[srcOff + 2])];
    }
    r := Some(line);
  }

  /** The tile's pixels without their fourth byte, or the out-of-bounds error. */
  method ExtractTile(pixels: seq<Byte>, stride: nat, tileX: nat, tileY: nat, tileW: nat, tileH: nat)
    returns (r: Option<seq<Bgr>>)
    ensures r.Some? <==> HasAll(pixels, stride, Rect(tileX, tileY, tileX + tileW, tileY + tileH))
    ensures r.Some? ==> RowMajor(r.value, tileW, tileH, SourceView(pixels, stride, tileX, tileY))
  {
    var px: seq<Bgr> := [];
    ghost var view := SourceView(pixels, stride, tileX, tileY);
    for row := 0 to tileH
      invariant RowMajor(px, tileW, row, view)
      invariant HasAll(pixels, stride, Rect(tileX, tileY, tileX + tileW, tileY + row))
    {
      var line := ExtractRow(pixels, stride, tileX, tileY + row, tileW);
      if line.None? {
        RowMissing(pixels, stride, Rect(tileX, tileY, tileX + tileW, tileY + tileH), tileY + row);
        return None;
      }
      forall c: nat | c < tileW ensures line.value[c] == view(c, row) {
        assert view(c, row) == ColourOf(pixels, stride, tileX + c, tileY + row);
      }
      NextRowMajor(px, line.value, tileW, row, view);
      px := px + line.value;
    }
    r := Some(px);
  }

  lemma {:induction false} RowMissing(pixels: seq<Byte>, stride: nat, area: Rect, y: int)
    requires area.y0 <= y < area.y1 && !HasAll(pixels, stride, Rect(area.x0, y, area.x1, y + 1))
    ensures !HasAll(pixels, stride, area)
  {
    var u: nat, v: nat :| Rect(area.x0, y, area.x1, y + 1).Contains(u, v) && !Has(pixels, stride, u, v);
    assert area.Contains(u, v);
  }

  lemma {:induction false} NextRowMajor(px: seq<Bgr>, line: seq<Bgr>, w: nat, h: nat, view: TileView)
    requires RowMajor(px, w, h, view) && |line| == w && forall c: nat :: c < w ==> line[c] == view(c, h)
    ensures RowMajor(px + line, w, h + 1, view)
  {
    var all, n := px + line, h + 1;
    forall c: nat, r: nat | c < w && r < n ensures InOrder(all, w, n, view, c, r) {
      AtGrows(r, n, w);
      if r < h {
        AtGrows(r, h, w);
        assert InOrder(px, w, h, view, c, r);
      }
    }
  }

  method EncodeSolid(writer: Zlib.Writer, px: seq<Bgr>) returns (ghost bytes: seq<Byte>)
    requires px != []
    modifies writer`pending
    ensures writer.pending == old(writer.pending) + bytes && bytes == [1] + px[0].Wire()
  {
    writer.Write([1]);
    writer.Write(px[0].Wire());
    bytes := [1] + px[0].Wire();
    assert old(writer.pending) + [1] + px[0].Wire() == old(writer.pending) + bytes;
  }

  method EncodeRaw(writer: Zlib.Writer, px: seq<Bgr>) returns (ghost bytes: seq<Byte>)
    modifies writer`pending
    ensures writer.pending == old(writer.pending) + bytes && bytes == [0] + Wires(px)
  {
    writer.Write([0]);
    writer.Write(Wires(px));
    bytes := [0] + Wires(px);
    assert old(writer.pending) + [0] + Wires(px) == old(writer.pending) + bytes;
  }

  /** `palette[idx] = c` for every entry of the map, in whatever order they come. */
  method BuildPalette(colourSet: map<Bgr, nat>, ghost order: seq<Bgr>) returns (palette: seq<Bgr>)
    requires Indexed(colourSet, order)
    ensures palette == order
  {
    var slots := new Bgr[|colourSet|](_ => BLACK);
    var todo := colourSet.Keys;
    while todo != {}
      invariant slots.Length == |order| && todo <= colourSet.Keys
      invariant forall c :: c in colourSet && c !in todo ==> slots[colourSet[c]] == c
      decreases |todo|
    {
      var c :| c in todo;
      slots[colourSet[c]] := c;
      todo := todo - {c};
    }
    palette := slots[..];
    forall i: nat | i < |order| ensures palette[i] == order[i] {
      assert slots[colourSet[order[i]]] == order[i];
    }
  }

  /** Column `c` of a row that starts at index `at` has the palette index `want`. */
  ghost predicate HasIndex(px: seq<Bgr>, at: nat, c: nat, colourSet: map<Bgr, nat>, bits: nat, want: nat)
    requires IsWidth(bits)
  {
    at + c < |px| && px[at + c] in colourSet && want == colourSet[px[at + c]] < Bits.Shl(1, bits)
  }

  /** One turn of the column loop: the index goes into the low bits, and eight bits are written. */
  method PackIndex(writer: Zlib.Writer, idx: nat, currentByte: nat, bitsUsed: nat, bits: nat,
                   ghost bytes: seq<Byte>, ghost col: nat, ghost want: nat -> nat)
    returns (byte: nat, used: nat, ghost all: seq<Byte>)
    requires IsWidth(bits) && Packing(bytes, currentByte, bitsUsed, bits, col, want)
    requires idx == want(col) < Bits.Shl(1, bits)
    modifies writer`pending
    ensures bytes <= all && writer.pending == old(writer.pending) + all[|bytes|..]
    ensures Packing(all, byte, used, bits, col + 1, want)
  {
    PackStep(bytes, currentByte, bitsUsed, bits, col, want);
    MaskedIndex(idx, bits);
    byte := Bits.Or(Bits.Shl(currentByte, bits), Bits.And(idx, Bits.Shl(1, bits) - 1));
    used := bitsUsed + bits;
    all := bytes;
    if used == 8 {
      writer.Write([byte]);
      all := bytes + [byte];
      byte, used := 0, 0;
    }
  }

  /** Packs the indices of one row, the high bits of each byte first, and pads the last byte. */
  method PackRow(writer: Zlib.Writer, px: seq<Bgr>, row: nat, tileW: nat, colourSet: map<Bgr, nat>, bits: nat,
                 ghost want: nat -> nat)
    returns (ghost bytes: seq<Byte>)
    requires IsWidth(bits)
    requires forall c: nat :: c < tileW ==> HasIndex(px, At(row, tileW), c, colourSet, bits, want(c))
    modifies writer`pending
    ensures writer.pending == old(writer.pending) + bytes && RowPacked(bytes, bits, tileW, want)
  {
    var currentByte: nat, bitsUsed: nat := 0, 0;
    bytes := [];
    AtIsProduct(row, tileW);
    for col := 0 to tileW
      invariant Packing(bytes, currentByte, bitsUsed, bits, col, want)
      invariant writer.pending == old(writer.pending) + bytes
    {
      var pixIdx := row * tileW + col;
      assert HasIndex(px, At(row, tileW), col, colourSet, bits, want(col));
      var idx := colourSet[px[pixIdx]];
      ghost var before := bytes;
      currentByte, bitsUsed, bytes := PackIndex(writer, idx, currentByte, bitsUsed, bits, bytes, col, want);
      assert bytes == before + bytes[|before|..];
    }
    PackEnd(bytes, currentByte, bitsUsed, bits, tileW, want);
    if bitsUsed > 0 {
      currentByte := Bits.Shl(currentByte, 8 - bitsUsed);
      writer.Write([currentByte]);
      bytes := bytes + [currentByte];
    }
  }

  lemma {:induction false} MaskedIndex(idx: nat, bits: nat)
    requires IsWidth(bits) && idx < Bits.Shl(1, bits)
    ensures Bits.And(idx, Bits.Shl(1, bits) - 1) == idx
  {
    Bits.AndLow(idx, bits);
    Bits.LowBelow(0, bits, idx);
    ShlZero(bits);
  }

  lemma {:induction false} ShlZero(k: nat)
    ensures Bits.Shl(0, k) == 0
    decreases k
  {
    if k > 0 { ShlZero(k - 1); }
  }

  function IndexOf(colourSet: map<Bgr, nat>, colour: Bgr): nat {
    if colour in colourSet then colourSet[colour] else 0
  }

  ghost function TileIndex(colourSet: map<Bgr, nat>, view: TileView): (nat, nat) -> nat {
    (c, r) => IndexOf(colourSet, view(c, r))
  }

  ghost function RowIndex(colourSet: map<Bgr, nat>, view: TileView, r: nat): nat -> nat {
    (c: nat) => IndexOf(colourSet, view(c, r))
  }

  /** Every pixel of the tile has an index that fits the width chosen for the palette. */
  lemma {:induction false} RowHasIndices(
    px: seq<Bgr>, w: nat, h: nat, view: TileView, colourSet: map<Bgr, nat>, order: seq<Bgr>, r: nat, c: nat)
    requires RowMajor(px, w, h, view) && Indexed(colourSet, order) && |order| <= 16 && r < h && c < w
    requires forall i :: 0 <= i < |px| ==> px[i] in colourSet
    ensures HasIndex(px, At(r, w), c, colourSet, WidthFor(|order|), RowIndex(colourSet, view, r)(c))
    ensures TileIndex(colourSet, view)(c, r) < |order| && order[TileIndex(colourSet, view)(c, r)] == view(c, r)
  {
    AtGrows(r, h, w);
    assert InOrder(px, w, h, view, c, r);
    assert px[At(r, w) + c] in colourSet;
  }

  /** The rows of packed indices. */
  method PackRows(writer: Zlib.Writer, px: seq<Bgr>, tileW: nat, tileH: nat, colourSet: map<Bgr, nat>, bits: nat,
                  ghost order: seq<Bgr>, ghost view: TileView)
    returns (ghost rows: seq<Byte>)
    requires Indexed(colourSet, order) && |order| <= 16 && bits == WidthFor(|order|)
    requires RowMajor(px, tileW, tileH, view) && forall i :: 0 <= i < |px| ==> px[i] in colourSet
    modifies writer`pending
    ensures writer.pending == old(writer.pending) + rows
    ensures RowsPacked(IndexReader(bits), rows, RowBytes(tileW, bits), tileW, tileH, TileIndex(colourSet, view))
  {
    rows := [];
    ghost var read, size, index := IndexReader(bits), RowBytes(tileW, bits), TileIndex(colourSet, view);
    ReaderMovable(bits, tileW);
    for row := 0 to tileH
      invariant writer.pending == old(writer.pending) + rows
      invariant RowsPacked(read, rows, size, tileW, row, index)
    {
      ghost var want := RowIndex(colourSet, view, row);
      forall c: nat | c < tileW ensures HasIndex(px, At(row, tileW), c, colourSet, bits, want(c)) {
        RowHasIndices(px, tileW, tileH, view, colourSet, order, row, c);
      }
      ghost var line := PackRow(writer, px, row, tileW, colourSet, bits, want);
      forall c: nat | c < tileW ensures read(line, 0, c) == index(c, row) {
        assert IndexAt(line, 0, bits, c) == want(c);
      }
      OneMorePackedRow(read, rows, line, size, tileW, row, index);
      rows := rows + line;
    }
  }

  method EncodePackedPalette(writer: Zlib.Writer, px: seq<Bgr>, tileW: nat, tileH: nat, colourSet: map<Bgr, nat>,
                             ghost order: seq<Bgr>, ghost view: TileView)
    returns (ghost bytes: seq<Byte>)
    requires Indexed(colourSet, order) && 2 <= |colourSet| <= 16
    requires RowMajor(px, tileW, tileH, view) && forall i :: 0 <= i < |px| ==> px[i] in colourSet
    modifies writer`pending
    ensures writer.pending == old(writer.pending) + bytes
    ensures bytes != [] && bytes[0] == |colourSet| && Encodes(bytes, tileW, tileH, view)
  {
    var paletteSize := |colourSet|;
    writer.Write([paletteSize]);
    var palette := BuildPalette(colourSet, order);
    writer.Write(Wires(palette));
    var bitsPerIndex := if paletteSize == 2 then 1 else if paletteSize <= 4 then 2 else 4;
    ghost var rows := PackRows(writer, px, tileW, tileH, colourSet, bitsPerIndex, order, view);
    bytes := [paletteSize] + Wires(palette) + rows;
    assert old(writer.pending) + [paletteSize] + Wires(palette) + rows == old(writer.pending) + bytes;
    PackedEncodes(palette, rows, tileW, tileH, TileIndex(colourSet, view), view, px, colourSet);
  }

  lemma {:induction false} PackedEncodes(
    palette: seq<Bgr>, rows: seq<Byte>, w: nat, h: nat, index: (nat, nat) -> nat, view: TileView, px: seq<Bgr>,
    colourSet: map<Bgr, nat>)
    requires Indexed(colourSet, palette) && 2 <= |palette| <= 16 && index == TileIndex(colourSet, view)
    requires RowMajor(px, w, h, view) && forall i :: 0 <= i < |px| ==> px[i] in colourSet
    requires var bits := WidthFor(|palette|); RowsPacked(IndexReader(bits), rows, RowBytes(w, bits), w, h, index)
    ensures Encodes([|palette|] + Wires(palette) + rows, w, h, view)
  {
    forall c: nat, r: nat | c < w && r < h ensures index(c, r) < |palette| && palette[index(c, r)] == view(c, r) {
      RowHasIndices(px, w, h, view, colourSet, palette, r, c);
    }
    forall data: seq<Byte>, o: nat | Sits(data, o, [|palette|] + Wires(palette) + rows)
      ensures ReadsAs(data, o, w, h, o + |[|palette|] + Wires(palette) + rows|, view)
    {
      PackedReads(data, o, palette, rows, w, h, index, view);
    }
  }

  lemma {:induction false} RawEncodes(px: seq<Bgr>, w: nat, h: nat, view: TileView)
    requires RowMajor(px, w, h, view)
    ensures Encodes([0] + Wires(px), w, h, view)
  {
    forall data: seq<Byte>, o: nat | Sits(data, o, [0] + Wires(px))
      ensures ReadsAs(data, o, w, h, o + |[0] + Wires(px)|, view)
    {
      RawReads(data, o, 0, px, w, h, view);
    }
  }

  lemma {:induction false} SolidEncodes(px: seq<Bgr>, w: nat, h: nat, view: TileView, colourSet: map<Bgr, nat>, order: seq<Bgr>)
    requires RowMajor(px, w, h, view) && px != [] && Indexed(colourSet, order) && |order| == 1
    requires forall i :: 0 <= i < |px| ==> px[i] in colourSet
    ensures Encodes([1] + px[0].Wire(), w, h, view)
  {
    forall c: nat, r: nat | c < w && r < h ensures view(c, r) == px[0] {
      AtGrows(r, h, w);
      assert InOrder(px, w, h, view, c, r);
      var a, b := px[At(r, w) + c], px[0];
      assert a in colourSet && b in colourSet;
      assert order[colourSet[a]] == order[colourSet[b]];
    }
    forall data: seq<Byte>, o: nat | Sits(data, o, [1] + px[0].Wire())
      ensures ReadsAs(data, o, w, h, o + |[1] + px[0].Wire()|, view)
    {
      SolidReads(data, o, px[0], w, h, view);
    }
  }

  function Distinct(px: seq<Bgr>): set<Bgr> {
    set c | c in px
  }

  /** The subencoding: solid for one colour, a palette for up to 16, raw for more. */
  function Subtype(px: seq<Bgr>): Byte {
    var n := |Distinct(px)|;
    if 1 <= n <= 16 then n else 0
  }

  lemma {:induction false} SubsetSize(a: set<Bgr>, b: set<Bgr>)
    requires a <= b
    ensures |a| <= |b|
  {
    if a != {} {
      var x :| x in a;
      SubsetSize(a - {x}, b - {x});
    }
  }

  /** The map's size tells the number of colours as far as the choice needs it. */
  lemma {:induction false} CountedColours(px: seq<Bgr>, colourSet: map<Bgr, nat>)
    requires forall c :: c in colourSet ==> c in px
    requires |colourSet| < 128 ==> forall i :: 0 <= i < |px| ==> px[i] in colourSet
    ensures Subtype(px) == if 1 <= |colourSet| <= 16 then |colourSet| else 0
  {
    SubsetSize(colourSet.Keys, Distinct(px));
    assert |colourSet.Keys| == |colourSet|;
    if |colourSet| < 128 { assert colourSet.Keys == Distinct(px); }
  }

  /** A tile goes to the compressor in bytes that read back as its colours; out of bounds, nothing does. */
  method EncodeTile(writer: Zlib.Writer, tileX: nat, tileY: nat, tileW: nat, tileH: nat, pixels: seq<Byte>, stride: nat)
    returns (ok: bool, ghost bytes: seq<Byte>)
    requires tileW > 0 && tileH > 0
    modifies writer`pending
    ensures ok <==> HasAll(pixels, stride, Rect(tileX, tileY, tileX + tileW, tileY + tileH))
    ensures writer.pending == old(writer.pending) + bytes && (!ok ==> bytes == [])
    ensures ok ==> Encodes(bytes, tileW, tileH, SourceView(pixels, stride, tileX, tileY))
    ensures ok ==> exists px :: RowMajor(px, tileW, tileH, SourceView(pixels, stride, tileX, tileY))
                             && bytes != []
                             && bytes[0] == if 1 <= |Distinct(px)| <= 16 then |Distinct(px)| else 0
  {
    bytes := [];
    var tile := ExtractTile(pixels, stride, tileX, tileY, tileW, tileH);
    if tile.None? { return false, []; }
    var px := tile.value;
    ghost var view := SourceView(pixels, stride, tileX, tileY);
    AtGrows(0, tileH, tileW);
    var colourSet;
    ghost var order;
    colourSet, order := CountColours(px);
    CountedColours(px, colourSet);
    var uniqueColours := |colourSet|;
    if uniqueColours == 1 {
      bytes := EncodeSolid(writer, px);
      SolidEncodes(px, tileW, tileH, view, colourSet, order);
    } else if 2 <= uniqueColours <= 16 {
      bytes := EncodePackedPalette(writer, px, tileW, tileH, colourSet, order, view);
    } else {
      bytes := EncodeRaw(writer, px);
      RawEncodes(px, tileW, tileH, view);
    }
    ok := true;
  }

  /** Part i is tile i of the frame. */
  ghost predicate TilesEncoded(parts: seq<seq<Byte>>, tiles: seq<Rect>, pixels: seq<Byte>, stride: nat) {
    && |parts| <= |tiles|
    && forall i :: 0 <= i < |parts| ==> TileEncoded(parts[i], tiles[i], pixels, stride)
  }

  ghost predicate TileEncoded(part: seq<Byte>, tile: Rect, pixels: seq<Byte>, stride: nat) {
    Encodes(part, tile.Width(), tile.Height(), SourceView(pixels, stride, tile.x0, tile.y0))
  }

  class Zrle {
    const writer: Zlib.Writer

    constructor (writer: Zlib.Writer)
      ensures this.writer == writer
    {
      this.writer := writer;
    }

    /**
      A rectangle whose data, inflated, are the encoded tiles from the top left on, behind what an earlier
      call that failed has left in the compressor; or the out-of-bounds error, which leaves nothing there
      exactly when the first tile is out of bounds already.
     */
    method Encode(x: nat, y: nat, width: nat, height: nat, pixels: seq<Byte>, stride: nat)
      returns (r: Option<Rectangle>, ghost parts: seq<seq<Byte>>)
      modifies writer
      ensures r.Some? <==> HasAll(pixels, stride, Rect(x, y, x + width, y + height))
      ensures r.Some? ==>
                var tiles := Tiles(Rect(x, y, x + width, y + height));
                var out := writer.codec.Sent(old(writer.history), old(writer.pending), Concat(parts));
                && |parts| == |tiles| && TilesEncoded(parts, tiles, pixels, stride)
                && writer.history == old(writer.history) + [old(writer.pending) + Concat(parts)] && writer.pending == []
                && r.value == Rectangle(RectHeader(x, y, width, height, ZRLE), Be32(|out|) + out)
      ensures r.None? ==>
                var tiles := Tiles(Rect(x, y, x + width, y + height));
                && writer.history == old(writer.history) && writer.pending == old(writer.pending) + Concat(parts)
                && tiles != [] && (Concat(parts) == [] <==> !HasAll(pixels, stride, tiles[0]))
    {
      var area := Rect(x, y, x + width, y + height);
      var ok;
      writer.ResetBuffer();
      ok, parts := EncodeTiles(area, pixels, stride);
      if !ok { return None, parts; }
      var compressed := writer.Flush();
      var data := Be32(|compressed|) + compressed;
      r := Some(Rectangle(RectHeader(x, y, width, height, ZRLE), data));
    }

    /** The nested tile loops. */
    method EncodeTiles(area: Rect, pixels: seq<Byte>, stride: nat) returns (ok: bool, ghost parts: seq<seq<Byte>>)
      requires 0 <= area.x0 && 0 <= area.y0
      modifies writer`pending
      ensures ok <==> HasAll(pixels, stride, area)
      ensures ok ==> |parts| == |Tiles(area)| && TilesEncoded(parts, Tiles(area), pixels, stride)
      ensures writer.pending == old(writer.pending) + Concat(parts)
      ensures !ok ==> Tiles(area) != [] && (Concat(parts) == [] <==> !HasAll(pixels, stride, Tiles(area)[0]))
    {
      ghost var all, left := Tiles(area), writer.pending;
      parts := [];
      ok := true;
      var tileY := area.y0;
      while tileY < area.y1 && ok
        invariant tileY >= area.y0
        invariant Encoding(parts, all, TilesFrom(area.x0, tileY, area), pixels, stride, left, writer.pending, ok, area)
        decreases area.y1 - tileY
      {
        var tileH := Min(TILE, area.y1 - tileY);
        ok, parts := EncodeRow(area, tileY, tileH, pixels, stride, parts, all, left);
        tileY := tileY + TILE;
      }
      AllEncoded(parts, all, tileY, pixels, stride, left, writer.pending, ok, area);
    }

    /** The inner tile loop. */
    method EncodeRow(area: Rect, tileY: nat, tileH: nat, pixels: seq<Byte>, stride: nat, ghost before: seq<seq<Byte>>,
                     ghost all: seq<Rect>, ghost left: seq<Byte>)
      returns (ok: bool, ghost parts: seq<seq<Byte>>)
      requires 0 <= area.x0 && area.y0 <= tileY < area.y1 && tileH == Min(TILE, area.y1 - tileY)
      requires Encoding(before, all, TilesFrom(area.x0, tileY, area), pixels, stride, left, writer.pending, true, area)
      modifies writer`pending
      ensures Encoding(parts, all, TilesFrom(area.x0, tileY + TILE, area), pixels, stride, left, writer.pending, ok, area)
    {
      hide TilesEncoded, HasAll;
      parts := before;
      ok := true;
      var tileX := area.x0;
      while tileX < area.x1 && ok
        invariant tileX >= area.x0
        invariant Encoding(parts, all, TilesFrom(tileX, tileY, area), pixels, stride, left, writer.pending, ok, area)
        decreases area.x1 - tileX
      {
        var tileW := Min(TILE, area.x1 - tileX);
        ghost var bytes, pending := [], writer.pending;
        ok, bytes := EncodeTile(writer, tileX, tileY, tileW, tileH, pixels, stride);
        NextEncoded(parts, all, tileX, tileY, pixels, stride, left, pending, ok, bytes, area);
        parts := parts + [bytes];
        tileX := tileX + TILE;
      }
    }
  }

  /** `rest` are the tiles still to come; once a pixel is missing, nothing more is written. */
  ghost predicate Encoding(
    parts: seq<seq<Byte>>, all: seq<Rect>, rest: seq<Rect>, pixels: seq<Byte>, stride: nat, left: seq<Byte>,
    pending: seq<Byte>, ok: bool, area: Rect)
  {
    && pending == left + Concat(parts)
    && if !ok then !HasAll(pixels, stride, area) && Stopped(parts, all, pixels, stride)
       else
         && TilesEncoded(parts, all, pixels, stride) && all[|parts|..] == rest
         && forall i :: 0 <= i < |parts| ==> HasAll(pixels, stride, all[i]) && parts[i] != []
  }

  /** The last tile came to a missing pixel; those before it have left their bytes. */
  ghost predicate Stopped(parts: seq<seq<Byte>>, all: seq<Rect>, pixels: seq<Byte>, stride: nat) {
    && 0 < |parts| <= |all| && parts[|parts| - 1] == [] && !HasAll(pixels, stride, all[|parts| - 1])
    && forall i :: 0 <= i < |parts| - 1 ==> HasAll(pixels, stride, all[i]) && parts[i] != []
  }

  /** Nothing has been written exactly when the first tile was the one. */
  lemma {:induction false} StoppedFirst(parts: seq<seq<Byte>>, all: seq<Rect>, pixels: seq<Byte>, stride: nat)
    requires Stopped(parts, all, pixels, stride)
    ensures all != [] && (Concat(parts) == [] <==> !HasAll(pixels, stride, all[0]))
  {
    hide HasAll;
    if |parts| == 1 {
      ConcatOne(parts[0]);
      assert parts == [parts[0]];
    } else {
      assert parts[0] != [] && HasAll(pixels, stride, all[0]);
    }
  }

  lemma {:induction false} NextEncoded(
    parts: seq<seq<Byte>>, all: seq<Rect>, tx: nat, ty: nat, pixels: seq<Byte>, stride: nat, left: seq<Byte>,
    before: seq<Byte>, ok: bool, bytes: seq<Byte>, area: Rect)
    requires Encoding(parts, all, TilesFrom(tx, ty, area), pixels, stride, left, before, true, area)
    requires area.x0 <= tx < area.x1 && area.y0 <= ty < area.y1
    requires ok <==> HasAll(pixels, stride, TileAt(tx, ty, area))
    requires if ok then TileEncoded(bytes, TileAt(tx, ty, area), pixels, stride) && bytes != [] else bytes == []
    ensures Encoding(parts + [bytes], all, TilesFrom(tx + TILE, ty, area), pixels, stride, left, before + bytes, ok, area)
  {
    hide TileEncoded, HasAll;
    TilesHead(tx, ty, area);
    assert all[|parts|..][0] == all[|parts|] && all[|parts|..][1..] == all[|parts| + 1..];
    ConcatMore(left, parts, bytes);
    if !ok { MissingIn(pixels, stride, TileAt(tx, ty, area), area); }
  }

  lemma {:induction false} ConcatMore(left: seq<Byte>, parts: seq<seq<Byte>>, bytes: seq<Byte>)
    ensures left + Concat(parts) + bytes == left + Concat(parts + [bytes])
  {
    ConcatAppend(parts, [bytes]);
    ConcatOne(bytes);
  }

  lemma {:induction false} MissingIn(pixels: seq<Byte>, stride: nat, tile: Rect, area: Rect)
    requires !HasAll(pixels, stride, tile) && tile.Within(area)
    ensures !HasAll(pixels, stride, area)
  {
    var u: nat, v: nat :| tile.Contains(u, v) && !Has(pixels, stride, u, v);
    assert area.Contains(u, v);
  }

  lemma {:induction false} HasAllOf(pixels: seq<Byte>, stride: nat, area: Rect, tiles: seq<Rect>)
    requires tiles == Tiles(area) && forall i :: 0 <= i < |tiles| ==> HasAll(pixels, stride, tiles[i])
    ensures HasAll(pixels, stride, area)
  {
    hide Has;
    forall x: nat, y: nat | area.Contains(x, y) ensures Has(pixels, stride, x, y) {
      TilesCover(area.x0, area.y0, area, x, y);
      var i :| 0 <= i < |tiles| && tiles[i].Contains(x, y);
      assert HasAll(pixels, stride, tiles[i]);
    }
  }

  lemma {:induction false} AllEncoded(
    parts: seq<seq<Byte>>, all: seq<Rect>, ty: nat, pixels: seq<Byte>, stride: nat, left: seq<Byte>, pending: seq<Byte>,
    ok: bool, area: Rect)
    requires Encoding(parts, all, TilesFrom(area.x0, ty, area), pixels, stride, left, pending, ok, area)
    requires all == Tiles(area) && (ok ==> ty >= area.y1)
    ensures ok <==> HasAll(pixels, stride, area)
    ensures ok ==> |parts| == |all|
    ensures !ok ==> all != [] && (Concat(parts) == [] <==> !HasAll(pixels, stride, all[0]))
  {
    hide HasAll;
    if ok {
      assert all[|parts|..] == [];
      HasAllOf(pixels, stride, area, all);
    } else {
      StoppedFirst(parts, all, pixels, stride);
    }
  }
}

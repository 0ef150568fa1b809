/**
  Splitting a complete update (web/src/rfb-parser.ts): the unchecked length functions and
  `parseFramebufferUpdate`. A data view is a buffer and the offset at which it starts; `None`
  stands for the exception thrown by a read behind the end.
 */
module RfbPlacement {
  import opened Bytes
  import opened Streams
  import opened Grid
  import opened Protocol
  import opened Scans
  import opened RfbParser
  import CompactLength

  function FastTileEnd(view: seq<Byte>, offset: nat): Option<nat> {
    if offset >= |view| then None
    else if view[offset] % 16 == 8 then Some(offset + 4)
    else
      var (n, size) :- CompactLength.LengthAt(view, offset + 1);
      Some(offset + 1 + size + n)
  }

  function FastTilesEnd(view: seq<Byte>, offset: nat, count: nat): Option<nat> {
    Repeat(FastTileEnd, view, offset, count)
  }

  function FastDataLength(view: seq<Byte>, offset: nat, w: nat, h: nat, encoding: int): Option<int> {
    if encoding == RAW then Some(w * h * 4)
    else if encoding == COPY_RECT then Some(4)
    else if encoding == ZLIB || encoding == ZRLE then
      if |view| < offset + 4 then None else Some(4 + Be32At(view, offset))
    else if encoding == TIGHT then
      var end :- FastTilesEnd(view, offset, |Tiles(Rect(0, 0, w, h))|);
      Some(end - offset)
    else if encoding == H264 then
      if |view| < offset + 8 then None else Some(8 + Be32At(view, offset + 4))
    else if encoding == CURSOR then Some(w * h * 4 + (w + 7) / 8 * h)
    else Some(0)
  }

  /** Whenever the safe scan finds a length, the unchecked scan finds the same one. */
  lemma {:induction false} FastIsSafe(view: seq<Byte>, offset: nat, w: nat, h: nat, encoding: int)
    requires DataLength(view, offset, w, h, encoding).Some?
    ensures FastDataLength(view, offset, w, h, encoding) == DataLength(view, offset, w, h, encoding)
  {
    if encoding == TIGHT {
      RepeatExtends(FastTileEnd, TileEnd, view, offset, |Tiles(Rect(0, 0, w, h))|);
    }
  }

  method GetTightDataLength(width: nat, height: nat, view: seq<Byte>, base: nat) returns (length: Option<int>)
    ensures length == FastDataLength(view, base, width, height, TIGHT)
  {
    ghost var area := Rect(0, 0, width, height);
    ghost var end := FastTilesEnd(view, base, |Tiles(area)|);
    var offset: nat := 0;
    var ty := 0;
    while ty < height
      invariant end == FastTilesEnd(view, base + offset, |TilesFrom(0, ty, area)|)
    {
      var tx := 0;
      while tx < width
        invariant end == FastTilesEnd(view, base + offset, |TilesFrom(tx, ty, area)|)
      {
        TilesHead(tx, ty, area);
        if base + offset >= |view| { return None; }
        var control := view[base + offset];
        offset := offset + 1;
        if control % 16 == 8 {
          offset := offset + 3;
        } else {
          if CompactLength.LengthAt(view, base + offset).None? { return None; }
          var payload, bytesRead := CompactLength.Read(view, base + offset);
          offset := offset + (bytesRead + payload);
        }
        tx := tx + 64;
      }
      ty := ty + 64;
    }
    return Some(offset);
  }

  method GetEncodingDataLength(header: RectHeader, view: seq<Byte>, base: nat) returns (length: Option<int>)
    ensures length == FastDataLength(view, base, header.width, header.height, header.encoding)
  {
    var width, height := header.width, header.height;
    match header.encoding
    case 0 => length := Some(width * height * 4);
    case 1 => length := Some(4);
    case 6 =>
      if |view| < base + 4 { return None; }
      length := Some(4 + Be32At(view, base));
    case 7 => length := GetTightDataLength(width, height, view, base);
    case 16 =>
      if |view| < base + 4 { return None; }
      length := Some(4 + Be32At(view, base));
    case 50 =>
      if |view| < base + 8 { return None; }
      length := Some(8 + Be32At(view, base + 4));
    case -239 => length := Some(width * height * 4 + (width + 7) / 8 * height);
    case -223 => length := Some(0);
    case _ => length := Some(0);
  }

  /** A parsed rectangle: its header and the offset of its data in the message. */
  datatype Place = Place(header: RectHeader, offset: int)

  /** How far a rectangle's data reaches. */
  type Measure = (seq<Byte>, nat) -> Option<int>

  function FastMeasure(): Measure {
    (view: seq<Byte>, offset: nat) =>
      if |view| < offset + 12 then None
      else
        var h := HeaderAt(view, offset);
        FastDataLength(view, offset + 12, h.width, h.height, h.encoding)
  }

  /** `found`, and the `count` rectangles from `offset` on; the last one is not measured. */
  function Places(measure: Measure, view: seq<Byte>, offset: int, count: nat, found: seq<Place>): Option<seq<Place>>
    decreases count
  {
    if count == 0 then Some(found)
    else if offset < 0 || |view| < offset + 12 then None
    else
      var more := found + [Place(HeaderAt(view, offset), offset + 12)];
      if count == 1 then Some(more)
      else
        var n :- measure(view, offset);
        Places(measure, view, offset + 12 + n, count - 1, more)
  }

  method ParseFramebufferUpdate(view: seq<Byte>) returns (r: Option<seq<Place>>)
    ensures r == if |view| < 4 then None else Places(FastMeasure(), view, 4, Be16At(view, 2), [])
  {
    if |view| < 4 { return None; }
    var numRects := Be16At(view, 2);
    var rectangles: seq<Place> := [];
    var offset := 4;
    ghost var all := Places(FastMeasure(), view, 4, numRects, []);
    for i := 0 to numRects
      invariant i < numRects ==> all == Places(FastMeasure(), view, offset, numRects - i, rectangles)
      invariant i == numRects ==> all == Some(rectangles)
    {
      if offset < 0 || |view| < offset + 12 { return None; }
      var header := HeaderAt(view, offset);
      offset := offset + 12;
      rectangles := rectangles + [Place(header, offset)];
      if i < numRects - 1 {
        var n := GetEncodingDataLength(header, view, offset);
        if n.None? { return None; }
        offset := offset + n.value;
      }
    }
    return Some(rectangles);
  }
}

/**
  The scanning loops of web/src/rfb-parser.ts that look for the end of a message; -1 means that
  more bytes are needed.
 */
module RfbScanner {
  import opened Bytes
  import opened Streams
  import opened Grid
  import opened Protocol
  import opened RfbParser
  import CompactLength

  /** The browser's convention for a missing length. */
  function OrMinusOne(r: Option<int>): int {
    if r.Some? then r.value else -1
  }

  method TryGetTightDataLength(width: nat, height: nat, view: seq<Byte>, baseOffset: nat) returns (length: int)
    ensures length == OrMinusOne(DataLength(view, baseOffset, width, height, TIGHT))
  {
    ghost var area := Rect(0, 0, width, height);
    ghost var end := TilesEnd(view, baseOffset, |Tiles(area)|);
    var bufLen := |view|;
    var offset: nat := baseOffset;
    var ty := 0;
    while ty < height
      invariant end == TilesEnd(view, offset, |TilesFrom(0, ty, area)|)
    {
      var tx := 0;
      while tx < width
        invariant end == TilesEnd(view, offset, |TilesFrom(tx, ty, area)|)
      {
        TilesHead(tx, ty, area);
        if offset >= bufLen { return -1; }
        var control := view[offset];
        offset := offset + 1;
        if control % 16 == 8 {
          offset := offset + 3;
          if offset > bufLen { return -1; }
        } else if control % 16 == 9 {
          var result := CompactLength.TryRead(view, offset);
          if result.None? { return -1; }
          offset := offset + (result.value.1 + result.value.0);
          if offset > bufLen { return -1; }
        } else {
          var result := CompactLength.TryRead(view, offset);
          if result.None? { return -1; }
          offset := offset + (result.value.1 + result.value.0);
          if offset > bufLen { return -1; }
        }
        tx := tx + 64;
      }
      ty := ty + 64;
    }
    return offset - baseOffset;
  }

  method TryGetEncodingDataLength(width: nat, height: nat, encoding: int, view: seq<Byte>, offset: nat)
    returns (length: int)
    ensures length == OrMinusOne(DataLength(view, offset, width, height, encoding))
  {
    var remaining := |view| - offset;
    match encoding
    case 0 => length := width * height * 4;
    case 1 => length := 4;
    case 6 =>
      if remaining < 4 { return -1; }
      length := 4 + Be32At(view, offset);
    case 7 => length := TryGetTightDataLength(width, height, view, offset);
    case 16 =>
      if remaining < 4 { return -1; }
      length := 4 + Be32At(view, offset);
    case 50 =>
      if remaining < 8 { return -1; }
      length := 8 + Be32At(view, offset + 4);
    case -239 => length := width * height * 4 + (width + 7) / 8 * height;
    case -223 => length := 0;
    case _ => length := 0;
  }

  method TryGetFBUpdateLength(buf: seq<Byte>) returns (length: int)
    requires |buf| >= 1 && buf[0] == 0
    ensures length == OrMinusOne(MessageLength(buf))
  {
    if |buf| < 4 { return -1; }
    var numRects := Be16At(buf, 2);
    var offset: nat := 4;
    ghost var end := RectsEnd(buf, 4, numRects);
    for i := 0 to numRects
      invariant end == RectsEnd(buf, offset, numRects - i)
    {
      if |buf| < offset + 12 { return -1; }
      var width := Be16At(buf, offset + 4);
      var height := Be16At(buf, offset + 6);
      var encoding := Signed32(Be32At(buf, offset + 8));
      offset := offset + 12;
      DataLengthNonNegative(buf, offset, width, height, encoding);
      var dataLen := TryGetEncodingDataLength(width, height, encoding, buf, offset);
      if dataLen == -1 { return -1; }
      if |buf| < offset + dataLen { return -1; }
      offset := offset + dataLen;
    }
    return offset;
  }

  method TryGetMessageLength(buf: seq<Byte>) returns (length: int)
    ensures length == OrMinusOne(MessageLength(buf))
  {
    if |buf| < 1 { return -1; }
    var msgType := buf[0];
    if msgType >= 128 {
      if |buf| < 5 { return -1; }
      return 5 + Be32At(buf, 1);
    }
    match msgType
    case 0 => length := TryGetFBUpdateLength(buf);
    case 1 =>
      if |buf| < 6 { return -1; }
      length := 6 + Be16At(buf, 4) * 6;
    case 2 => length := 1;
    case 3 =>
      if |buf| < 8 { return -1; }
      length := 8 + Be32At(buf, 4);
    case _ => length := -1;
  }
}

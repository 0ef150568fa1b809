/**
  Where a message ends, as the browser finds it (web/src/rfb-parser.ts): the bounds-checked
  scanners that drive reassembly. `None` is the scanners' -1: more bytes are needed.
 */
module RfbParser {
  import opened Bytes
  import opened Streams
  import opened Grid
  import opened Protocol
  import opened Scans
  import CompactLength

  /** A tile: three bytes behind a fill, a compact length and that many bytes behind anything else. */
  function TileEnd(view: seq<Byte>, offset: nat): Option<nat> {
    if offset >= |view| then None
    else if view[offset] % 16 == 8 then Within(view, offset + 4)
    else
      var (n, size) :- CompactLength.LengthAt(view, offset + 1);
      Within(view, offset + 1 + size + n)
  }

  function TilesEnd(view: seq<Byte>, offset: nat, count: nat): Option<nat> {
    Repeat(TileEnd, view, offset, count)
  }

  /** The length of the data behind a rectangle header; unknown encodings count as empty. */
  function DataLength(view: seq<Byte>, offset: nat, w: nat, h: nat, encoding: int): Option<int> {
    if encoding == RAW then Some(w * h * 4)
    else if encoding == COPY_RECT then Some(4)
    else if encoding == ZLIB || encoding == ZRLE then
      if |view| < offset + 4 then None else Some(4 + Be32At(view, offset))
    else if encoding == TIGHT then
      var end :- TilesEnd(view, offset, |Tiles(Rect(0, 0, w, h))|);
      Some(end - offset)
    else if encoding == H264 then
      if |view| < offset + 8 then None else Some(8 + Be32At(view, offset + 4))
    else if encoding == CURSOR then Some(w * h * 4 + (w + 7) / 8 * h)
    else Some(0)
  }

  function RectEnd(view: seq<Byte>, offset: nat): Option<nat> {
    if |view| < offset + 12 then None
    else
      var h := HeaderAt(view, offset);
      var n :- DataLength(view, offset + 12, h.width, h.height, h.encoding);
      if n < 0 then None else Within(view, offset + 12 + n)
  }

  function RectsEnd(view: seq<Byte>, offset: nat, count: nat): Option<nat> {
    Repeat(RectEnd, view, offset, count)
  }

  /** The length of the message at the head of `buf`, which may exceed what has arrived. */
  function MessageLength(buf: seq<Byte>): Option<nat> {
    if buf == [] then None
    else if buf[0] >= 128 then
      if |buf| < 5 then None else Some(5 + Be32At(buf, 1))
    else if buf[0] == 0 then
      if |buf| < 4 then None else RectsEnd(buf, 4, Be16At(buf, 2))
    else if buf[0] == 1 then
      if |buf| < 6 then None else Some(6 + Be16At(buf, 4) * 6)
    else if buf[0] == 2 then Some(1)
    else if buf[0] == 3 then
      if |buf| < 8 then None else Some(8 + Be32At(buf, 4))
    else None
  }

  // ----- progress

  /** A tile scan never goes back, so the length of Tight data is never negative. */
  lemma {:induction false} DataLengthNonNegative(view: seq<Byte>, offset: nat, w: nat, h: nat, encoding: int)
    ensures var n := DataLength(view, offset, w, h, encoding); n.Some? ==> n.value >= 0
  {
    RepeatAdvances(TileEnd, view, offset, |Tiles(Rect(0, 0, w, h))|);
  }

  /** A message is at least one byte long, so every turn of the dispatch loop makes progress. */
  lemma {:induction false} MessageLengthPositive(buf: seq<Byte>)
    ensures MessageLength(buf).Some? ==> MessageLength(buf).value >= 1
  {
    if |buf| >= 4 {
      RepeatAdvances(RectEnd, buf, 4, Be16At(buf, 2));
    }
  }

  // ----- prefix stability: bytes that arrive later never change an end already found

  lemma {:induction false} TileEndStable(view: seq<Byte>, offset: nat, more: seq<Byte>)
    requires TileEnd(view, offset).Some?
    ensures TileEnd(view + more, offset) == TileEnd(view, offset)
  {
  }

  lemma {:induction false} TilesEndStable(view: seq<Byte>, offset: nat, count: nat, more: seq<Byte>)
    requires TilesEnd(view, offset, count).Some?
    ensures TilesEnd(view + more, offset, count) == TilesEnd(view, offset, count)
  {
    forall v, o, m | TileEnd(v, o).Some? {
      TileEndStable(v, o, m);
    }
    RepeatStable(TileEnd, view, offset, count, more);
  }

  lemma {:induction false} RectEndStable(view: seq<Byte>, offset: nat, more: seq<Byte>)
    requires RectEnd(view, offset).Some?
    ensures RectEnd(view + more, offset) == RectEnd(view, offset)
  {
    var h := HeaderAt(view, offset);
    if h.encoding == TIGHT {
      TilesEndStable(view, offset + 12, |Tiles(Rect(0, 0, h.width, h.height))|, more);
    }
  }

  lemma {:induction false} RectsEndStable(view: seq<Byte>, offset: nat, count: nat, more: seq<Byte>)
    requires RectsEnd(view, offset, count).Some?
    ensures RectsEnd(view + more, offset, count) == RectsEnd(view, offset, count)
  {
    forall v, o, m | RectEnd(v, o).Some? {
      RectEndStable(v, o, m);
    }
    RepeatStable(RectEnd, view, offset, count, more);
  }

  /** A length found on a prefix of the stream is the length found on any longer prefix. */
  lemma {:induction false} MessageLengthStable(buf: seq<Byte>, more: seq<Byte>)
    requires MessageLength(buf).Some?
    ensures MessageLength(buf + more) == MessageLength(buf)
  {
    if buf[0] == 0 {
      RectsEndStable(buf, 4, Be16At(buf, 2), more);
    }
  }
}

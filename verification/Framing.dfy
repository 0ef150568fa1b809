/**
  Where a server-to-client message ends, as the proxy reads it (wsproxy/rfbreader.go). Each
  function gives the offset behind an item of the stream, `None` when the stream ends inside it or
  the item is unsupported.
 */
module Framing {
  import opened Bytes
  import opened Streams
  import opened Scans
  import opened Grid
  import opened Protocol
  import CompactLength

  function PrefixedEnd(s: seq<Byte>, i: nat): Option<nat> {
    if |s| < i + 4 then None else Within(s, i + 4 + Be32At(s, i))
  }

  function CompactEnd(s: seq<Byte>, i: nat): Option<nat> {
    var (n, size) :- CompactLength.LengthAt(s, i);
    Within(s, i + size + n)
  }

  function RreEnd(s: seq<Byte>, i: nat, bpp: nat): Option<nat> {
    if |s| < i + 4 then None else Within(s, i + 4 + (bpp + Be32At(s, i) * (bpp + 8)))
  }

  function H264End(s: seq<Byte>, i: nat): Option<nat> {
    if |s| < i + 8 then None else Within(s, i + 8 + Be32At(s, i + 4))
  }

  /** Uncompressed size of a palette-filtered tile: one bit a pixel for two colours, else a byte. */
  function IndexBytes(w: nat, h: nat, colours: nat): nat {
    if colours == 2 then (w + 7) / 8 * h else w * h
  }

  /** Data shorter than 12 bytes travels uncompressed and without a length. */
  function BasicDataEnd(s: seq<Byte>, i: nat, size: nat): Option<nat> {
    if size < 12 then Within(s, i + size) else CompactEnd(s, i)
  }

  function FilteredEnd(s: seq<Byte>, i: nat, w: nat, h: nat, cpixel: nat, filter: Byte): Option<nat> {
    if filter == 0 || filter == 2 then BasicDataEnd(s, i, w * h * cpixel)
    else if filter == 1 then
      if i >= |s| then None
      else
        var colours := s[i] as int + 1;
        var data :- Within(s, i + 1 + colours * cpixel);
        BasicDataEnd(s, data, IndexBytes(w, h, colours))
    else None
  }

  function BasicEnd(s: seq<Byte>, i: nat, w: nat, h: nat, cpixel: nat, sub: Byte): Option<nat> {
    if sub / 4 % 2 == 0 then FilteredEnd(s, i, w, h, cpixel, 0)
    else if i >= |s| then None
    else FilteredEnd(s, i + 1, w, h, cpixel, s[i])
  }

  function TileEnd(s: seq<Byte>, i: nat, w: nat, h: nat, cpixel: nat): Option<nat> {
    if i >= |s| then None
    else
      var sub := s[i] % 16;
      if sub == 8 then Within(s, i + 1 + cpixel)
      else if sub == 9 then CompactEnd(s, i + 1)
      else if sub <= 7 then BasicEnd(s, i + 1, w, h, cpixel, sub)
      else None
  }

  /** The end of a tile of the given width and height. */
  type TileScan = (seq<Byte>, nat, nat, nat) -> Option<nat>

  function TightScan(cpixel: nat): TileScan {
    (s: seq<Byte>, i: nat, w: nat, h: nat) => TileEnd(s, i, w, h, cpixel)
  }

  function TilesEnd(scan: TileScan, s: seq<Byte>, i: nat, tiles: seq<Rect>): Option<nat>
    decreases |tiles|
  {
    if tiles == [] then Some(i)
    else
      var next :- scan(s, i, tiles[0].Width(), tiles[0].Height());
      TilesEnd(scan, s, next, tiles[1..])
  }

  ghost predicate FindsTile(scan: TileScan, item: seq<Byte>, w: nat, h: nat) {
    forall s: seq<Byte>, i: nat :: Sits(s, i, item) ==> scan(s, i, w, h) == Some(i + |item|)
  }

  lemma {:induction false} TilesFound(scan: TileScan, s: seq<Byte>, i: nat, items: seq<seq<Byte>>, tiles: seq<Rect>)
    requires |items| == |tiles| && Sits(s, i, Concat(items))
    requires forall k :: 0 <= k < |items| ==> FindsTile(scan, items[k], tiles[k].Width(), tiles[k].Height())
    ensures TilesEnd(scan, s, i, tiles) == Some(i + |Concat(items)|)
    decreases |items|
  {
    if items != [] {
      SitsSplit(s, i, items[0], Concat(items[1..]));
      assert FindsTile(scan, items[0], tiles[0].Width(), tiles[0].Height());
      TilesFound(scan, s, i + |items[0]|, items[1..], tiles[1..]);
    }
  }

  function DataEnd(s: seq<Byte>, i: nat, w: nat, h: nat, encoding: int, bpp: nat, cpixel: nat): Option<nat> {
    if encoding == RAW then Within(s, i + w * h * bpp)
    else if encoding == COPY_RECT then Within(s, i + 4)
    else if encoding == RRE then RreEnd(s, i, bpp)
    else if encoding == ZLIB || encoding == ZRLE then PrefixedEnd(s, i)
    else if encoding == TIGHT then TilesEnd(TightScan(cpixel), s, i, Tiles(Rect(0, 0, w, h)))
    else if encoding == H264 then H264End(s, i)
    else if encoding == CURSOR then Within(s, i + (w * h * bpp + (w + 7) / 8 * h))
    else if encoding == DESKTOP_SIZE then Some(i)
    else None
  }

  function RectEnd(s: seq<Byte>, i: nat, bpp: nat, cpixel: nat): Option<nat> {
    if |s| < i + 12 then None
    else
      var h := HeaderAt(s, i);
      DataEnd(s, i + 12, h.width, h.height, h.encoding, bpp, cpixel)
  }

  function RectScan(bpp: nat, cpixel: nat): Scan {
    (s: seq<Byte>, i: nat) => RectEnd(s, i, bpp, cpixel)
  }

  /** The end of an update whose type byte is at `i`. */
  function UpdateEnd(s: seq<Byte>, i: nat, bpp: nat, cpixel: nat): Option<nat> {
    if |s| < i + 4 then None else Repeat(RectScan(bpp, cpixel), s, i + 4, Be16At(s, i + 2))
  }

  function ColourMapEnd(s: seq<Byte>, i: nat): Option<nat> {
    if |s| < i + 6 then None else Within(s, i + 6 + Be16At(s, i + 4) * 6)
  }

  function CutTextEnd(s: seq<Byte>, i: nat): Option<nat> {
    if |s| < i + 8 then None else Within(s, i + 8 + Be32At(s, i + 4))
  }

  function MessageEnd(s: seq<Byte>, i: nat, bpp: nat, cpixel: nat): Option<nat> {
    if i >= |s| then None
    else if s[i] == 0 then UpdateEnd(s, i, bpp, cpixel)
    else if s[i] == 1 then ColourMapEnd(s, i)
    else if s[i] == 2 then Some(i + 1)
    else if s[i] == 3 then CutTextEnd(s, i)
    else None
  }

  /** The proxy's reader under a fixed pixel format. */
  function MessageScan(bpp: nat, cpixel: nat): Scan {
    (s: seq<Byte>, i: nat) => MessageEnd(s, i, bpp, cpixel)
  }

  /** `found`, and the frames a reader takes off a stream from offset `i` until it can read no more. */
  function Frames(scan: Scan, s: seq<Byte>, i: nat, found: seq<seq<Byte>>): seq<seq<Byte>>
    requires i <= |s|
    decreases |s| - i
  {
    match scan(s, i)
    case None => found
    case Some(end) => if i < end <= |s| then Frames(scan, s, end, found + [s[i..end]]) else found
  }

  /** One turn of the reader's loop. */
  lemma {:induction false} NextFrame(scan: Scan, s: seq<Byte>, i: nat, m: seq<Byte>, found: seq<seq<Byte>>)
    requires m != [] && Finds(scan, m) && Sits(s, i, m)
    ensures Frames(scan, s, i, found) == Frames(scan, s, i + |m|, found + [m])
  {
    assert scan(s, i) == Some(i + |m|);
    assert s[i..i + |m|] == m;
  }

  /** Every message is found wherever it sits. */
  ghost predicate AllFound(scan: Scan, messages: seq<seq<Byte>>) {
    forall k :: 0 <= k < |messages| ==> messages[k] != [] && Finds(scan, messages[k])
  }

  lemma {:induction false} FirstThenLater(scan: Scan, s: seq<Byte>, i: nat, messages: seq<seq<Byte>>)
    requires messages != [] && Sits(s, i, Concat(messages)) && AllFound(scan, messages)
    ensures var m, later := messages[0], messages[1..];
            && Sits(s, i, m) && m != [] && Finds(scan, m)
            && Sits(s, i + |m|, Concat(later)) && AllFound(scan, later)
            && |Concat(messages)| == |m| + |Concat(later)|
  {
    ConcatSits(s, i, messages);
  }

  /** Messages that are each found wherever they sit are read one after the other. */
  lemma {:induction false} FramesAreMessages(
    scan: Scan, s: seq<Byte>, i: nat, messages: seq<seq<Byte>>, found: seq<seq<Byte>>)
    requires Sits(s, i, Concat(messages)) && AllFound(scan, messages)
    ensures Frames(scan, s, i, found) == Frames(scan, s, i + |Concat(messages)|, found + messages)
    decreases |messages|
  {
    if messages == [] {
      assert found + messages == found;
    } else {
      hide Frames, Concat;
      var m, later := messages[0], messages[1..];
      assert found + [m] + later == found + messages;
      FirstThenLater(scan, s, i, messages);
      NextFrame(scan, s, i, m, found);
      FramesAreMessages(scan, s, i + |m|, later, found + [m]);
    }
  }
}

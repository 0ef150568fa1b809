/** The proxy's stream re-framer (wsproxy/rfbreader.go): one complete message per call. */
module RfbReader {
  import opened Bytes
  import opened Streams
  import opened Scans
  import opened Grid
  import opened Protocol
  import opened Framing
  import CompactLength

  /** The tile at (tx, ty) has been read, up to `next`, or is incomplete. */
  ghost predicate TileRead(scan: TileScan, s: seq<Byte>, i: nat, ok: bool, next: nat, tx: int, ty: int, area: Rect) {
    TilesEnd(scan, s, i, TilesFrom(tx, ty, area)) ==
    if ok then TilesEnd(scan, s, next, TilesFrom(tx + TILE, ty, area)) else None
  }

  /** Reading the tiles from (tx, ty) on comes to `end`; once one is incomplete there is none. */
  ghost predicate Reaches(scan: TileScan, s: seq<Byte>, ok: bool, i: nat, tx: int, ty: int, area: Rect, end: Option<nat>) {
    end == if ok then TilesEnd(scan, s, i, TilesFrom(tx, ty, area)) else None
  }

  lemma {:induction false} NextTileEnd(
    scan: TileScan, s: seq<Byte>, i: nat, tx: int, ty: int, area: Rect, tileW: nat, tileH: nat)
    requires tx < area.x1 && ty < area.y1 && tileW == Min(TILE, area.x1 - tx) && tileH == Min(TILE, area.y1 - ty)
    ensures var next := scan(s, i, tileW, tileH);
            TilesEnd(scan, s, i, TilesFrom(tx, ty, area)) ==
            if next.None? then None else TilesEnd(scan, s, next.value, TilesFrom(tx + TILE, ty, area))
  {
    TilesHead(tx, ty, area);
    assert TileAt(tx, ty, area).Width() == tileW && TileAt(tx, ty, area).Height() == tileH;
  }

  class RfbReader {
    const br: BufReader
    var bpp: nat
    var tightCPixel: nat

    constructor (br: BufReader, bitsPerPixel: Byte, depth: Byte, trueColour: Byte)
      ensures this.br == br
      ensures bpp == if bitsPerPixel < 8 then 4 else bitsPerPixel / 8
      ensures tightCPixel == if bitsPerPixel == 32 && depth == 24 && trueColour != 0 then 3 else bpp
    {
      this.br := br;
      var bytesPerPixel := if bitsPerPixel < 8 then 4 else bitsPerPixel / 8;
      this.bpp := bytesPerPixel;
      this.tightCPixel := if bitsPerPixel == 32 && depth == 24 && trueColour != 0 then 3 else bytesPerPixel;
    }

    method UpdatePixelFormat(bitsPerPixel: Byte, depth: Byte, trueColour: Byte)
      modifies this`bpp, this`tightCPixel
      ensures bpp == if bitsPerPixel < 8 then 4 else bitsPerPixel / 8
      ensures tightCPixel == if bitsPerPixel == 32 && depth == 24 && trueColour != 0 then 3 else bpp
    {
      bpp := bitsPerPixel / 8;
      if bpp < 1 { bpp := 4; }
      tightCPixel := bpp;
      if bitsPerPixel == 32 && depth == 24 && trueColour != 0 { tightCPixel := 3; }
    }

    /** The buffer holds what has been read since `start`, byte for byte. */
    ghost predicate Relayed(buf: BufWriter, start: nat)
      reads br, buf
    {
      start < br.pos <= |br.data| && buf.written == br.data[start..br.pos]
    }

    /** Read `n` bytes and append them to the message being built. */
    method Forward(buf: BufWriter, n: nat, ghost start: nat) returns (r: Option<seq<Byte>>)
      requires Relayed(buf, start)
      modifies br, buf
      ensures br.Valid()
      ensures r.Some? <==> old(br.pos) + n <= |br.data|
      ensures r.Some? ==> br.pos == old(br.pos) + n && r.value == br.data[old(br.pos)..br.pos] && Relayed(buf, start)
    {
      r := br.ReadFull(n);
      if r.Some? {
        buf.Write(r.value);
      }
    }

    method ReadExact(buf: BufWriter, n: nat, ghost start: nat) returns (ok: bool)
      requires Relayed(buf, start)
      modifies br, buf
      ensures br.Valid()
      ensures ok <==> Within(br.data, old(br.pos) + n).Some?
      ensures ok ==> br.pos == old(br.pos) + n && Relayed(buf, start)
    {
      if n <= 0 { return true; }
      var data := Forward(buf, n, start);
      return data.Some?;
    }

    method ReadCompactLength(buf: BufWriter, ghost start: nat) returns (r: Option<nat>)
      requires Relayed(buf, start)
      modifies br, buf
      ensures br.Valid()
      ensures var length := CompactLength.LengthAt(br.data, old(br.pos));
              if length.None? then r.None?
              else r == Some(length.value.0) && br.pos == old(br.pos) + length.value.1 && Relayed(buf, start)
    {
      var b1 := Forward(buf, 1, start);
      if b1.None? { return None; }
      var length: nat := b1.value[0] % 128;
      if b1.value[0] >= 128 {
        var b2 := Forward(buf, 1, start);
        if b2.None? { return None; }
        length := length + (b2.value[0] as int) % 128 * 128;
        if b2.value[0] >= 128 {
          var b3 := Forward(buf, 1, start);
          if b3.None? { return None; }
          length := length + (b3.value[0] as int) * 16384;
        }
      }
      return Some(length);
    }

    method ReadCompactPrefixed(buf: BufWriter, ghost start: nat) returns (ok: bool)
      requires Relayed(buf, start)
      modifies br, buf
      ensures br.Valid()
      ensures var end := CompactEnd(br.data, old(br.pos));
              if ok then end == Some(br.pos) && Relayed(buf, start) else end.None?
    {
      var length := ReadCompactLength(buf, start);
      if length.None? { return false; }
      ok := ReadExact(buf, length.value, start);
    }

    method ReadLengthPrefixed32(buf: BufWriter, ghost start: nat) returns (ok: bool)
      requires Relayed(buf, start)
      modifies br, buf
      ensures br.Valid()
      ensures var end := PrefixedEnd(br.data, old(br.pos));
              if ok then end == Some(br.pos) && Relayed(buf, start) else end.None?
    {
      var lenBuf := Forward(buf, 4, start);
      if lenBuf.None? { return false; }
      var dataLen := Be32At(lenBuf.value, 0);
      ok := ReadExact(buf, dataLen, start);
    }

    method ReadH264(buf: BufWriter, ghost start: nat) returns (ok: bool)
      requires Relayed(buf, start)
      modifies br, buf
      ensures br.Valid()
      ensures var end := H264End(br.data, old(br.pos));
              if ok then end == Some(br.pos) && Relayed(buf, start) else end.None?
    {
      var hdr := Forward(buf, 8, start);
      if hdr.None? { return false; }
      var nalLen := Be32At(hdr.value, 4);
      ok := ReadExact(buf, nalLen, start);
    }

    method ReadRre(buf: BufWriter, bpp: nat, ghost start: nat) returns (ok: bool)
      requires Relayed(buf, start)
      modifies br, buf
      ensures br.Valid()
      ensures var end := RreEnd(br.data, old(br.pos), bpp);
              if ok then end == Some(br.pos) && Relayed(buf, start) else end.None?
    {
      var hdr := Forward(buf, 4, start);
      if hdr.None? { return false; }
      var numSubRects := Be32At(hdr.value, 0);
      ok := ReadExact(buf, bpp + numSubRects * (bpp + 8), start);
    }

    method ReadTightBasic(buf: BufWriter, tileW: nat, tileH: nat, cpixel: nat, subType: Byte, ghost start: nat)
      returns (ok: bool)
      requires Relayed(buf, start)
      modifies br, buf
      ensures br.Valid()
      ensures var end := BasicEnd(br.data, old(br.pos), tileW, tileH, cpixel, subType);
              if ok then end == Some(br.pos) && Relayed(buf, start) else end.None?
    {
      var filterID: Byte := 0;
      if subType / 4 % 2 != 0 {
        var f := Forward(buf, 1, start);
        if f.None? { return false; }
        filterID := f.value[0];
      }
      ok := ReadFiltered(buf, tileW, tileH, cpixel, filterID, start);
    }

    /** The rest of a Basic tile, whose filter is known. */
    method ReadFiltered(buf: BufWriter, tileW: nat, tileH: nat, cpixel: nat, filterID: Byte, ghost start: nat)
      returns (ok: bool)
      requires Relayed(buf, start)
      modifies br, buf
      ensures br.Valid()
      ensures var end := FilteredEnd(br.data, old(br.pos), tileW, tileH, cpixel, filterID);
              if ok then end == Some(br.pos) && Relayed(buf, start) else end.None?
    {
      var rawDataSize: nat;
      if filterID == 0 {
        rawDataSize := tileW * tileH * cpixel;
      } else if filterID == 1 {
        var ps := Forward(buf, 1, start);
        if ps.None? { return false; }
        var paletteSize := ps.value[0] as int + 1;
        var ready := ReadExact(buf, paletteSize * cpixel, start);
        if !ready { return false; }
        if paletteSize == 2 {
          rawDataSize := (tileW + 7) / 8 * tileH;
        } else {
          rawDataSize := tileW * tileH;
        }
      } else if filterID == 2 {
        rawDataSize := tileW * tileH * cpixel;
      } else {
        return false;
      }
      ok := ReadBasicData(buf, rawDataSize, start);
    }

    /** Fewer than 12 bytes come without a length, more come compressed behind one. */
    method ReadBasicData(buf: BufWriter, rawDataSize: nat, ghost start: nat) returns (ok: bool)
      requires Relayed(buf, start)
      modifies br, buf
      ensures br.Valid()
      ensures var end := BasicDataEnd(br.data, old(br.pos), rawDataSize);
              if ok then end == Some(br.pos) && Relayed(buf, start) else end.None?
    {
      if rawDataSize < 12 {
        ok := ReadExact(buf, rawDataSize, start);
      } else {
        ok := ReadCompactPrefixed(buf, start);
      }
    }

    method ReadTightTile(buf: BufWriter, tileW: nat, tileH: nat, cpixel: nat, ghost start: nat) returns (ok: bool)
      requires Relayed(buf, start)
      modifies br, buf
      ensures br.Valid()
      ensures var end := TightScan(cpixel)(br.data, old(br.pos), tileW, tileH);
              if ok then end == Some(br.pos) && Relayed(buf, start) else end.None?
    {
      var control := Forward(buf, 1, start);
      if control.None? { return false; }
      var subType := control.value[0] % 16;
      if subType == 8 {
        ok := ReadExact(buf, cpixel, start);
      } else if subType == 9 {
        ok := ReadCompactPrefixed(buf, start);
      } else if subType <= 7 {
        ok := ReadTightBasic(buf, tileW, tileH, cpixel, subType, start);
      } else {
        ok := false;
      }
    }

    /** One turn of the inner tile loop. */
    method ReadTightNext(buf: BufWriter, tx: nat, ty: nat, tileH: nat, area: Rect, cpixel: nat, ghost start: nat,
                         ghost scan: TileScan)
      returns (ok: bool)
      requires Relayed(buf, start) && scan == TightScan(cpixel)
      requires tx < area.x1 && ty < area.y1 && tileH == Min(TILE, area.y1 - ty)
      modifies br, buf
      ensures br.Valid() && (ok ==> Relayed(buf, start))
      ensures TileRead(scan, br.data, old(br.pos), ok, br.pos, tx, ty, area)
    {
      var tileW := 64;
      if tx + tileW > area.x1 { tileW := area.x1 - tx; }
      ghost var at := br.pos;
      ok := ReadTightTile(buf, tileW, tileH, cpixel, start);
      NextTileEnd(scan, br.data, at, tx, ty, area, tileW, tileH);
    }

    /** The inner tile loop. */
    method ReadTightRow(buf: BufWriter, ty: nat, tileH: nat, area: Rect, cpixel: nat, ghost start: nat, ghost scan: TileScan,
                        ghost end: Option<nat>)
      returns (ok: bool)
      requires Relayed(buf, start) && scan == TightScan(cpixel)
      requires ty < area.y1 && tileH == Min(TILE, area.y1 - ty) && area.x0 == 0
      requires Reaches(scan, br.data, true, br.pos, 0, ty, area, end)
      modifies br, buf
      ensures br.Valid() && (ok ==> Relayed(buf, start))
      ensures Reaches(scan, br.data, ok, br.pos, 0, ty + TILE, area, end)
    {
      ok := true;
      var tx: nat := 0;
      while tx < area.x1 && ok
        invariant br.Valid() && (ok ==> Relayed(buf, start))
        invariant Reaches(scan, br.data, ok, br.pos, tx, ty, area, end)
        decreases area.x1 - tx
      {
        ok := ReadTightNext(buf, tx, ty, tileH, area, cpixel, start, scan);
        tx := tx + 64;
      }
    }

    method ReadTightData(buf: BufWriter, w: nat, h: nat, cpixel: nat, ghost start: nat) returns (ok: bool)
      requires Relayed(buf, start)
      modifies br, buf
      ensures br.Valid()
      ensures var end := TilesEnd(TightScan(cpixel), br.data, old(br.pos), Tiles(Rect(0, 0, w, h)));
              if ok then end == Some(br.pos) && Relayed(buf, start) else end.None?
    {
      ghost var scan := TightScan(cpixel);
      var area := Rect(0, 0, w, h);
      ghost var end := TilesEnd(scan, br.data, br.pos, Tiles(area));
      ok := true;
      var ty := 0;
      while ty < h && ok
        invariant br.Valid() && (ok ==> Relayed(buf, start))
        invariant Reaches(scan, br.data, ok, br.pos, 0, ty, area, end)
        decreases h - ty
      {
        var tileH := 64;
        if ty + tileH > h { tileH := h - ty; }
        ok := ReadTightRow(buf, ty, tileH, area, cpixel, start, scan, end);
        ty := ty + 64;
      }
    }

    method ReadEncodingData(buf: BufWriter, w: nat, h: nat, enc: int, bpp: nat, cpixel: nat, ghost start: nat)
      returns (ok: bool)
      requires Relayed(buf, start)
      modifies br, buf
      ensures br.Valid()
      ensures var end := DataEnd(br.data, old(br.pos), w, h, enc, bpp, cpixel);
              if ok then end == Some(br.pos) && Relayed(buf, start) else end.None?
    {
      if enc == 0 {
        ok := ReadExact(buf, w * h * bpp, start);
      } else if enc == 1 {
        ok := ReadExact(buf, 4, start);
      } else if enc == 2 {
        ok := ReadRre(buf, bpp, start);
      } else if enc == 6 || enc == 16 {
        ok := ReadLengthPrefixed32(buf, start);
      } else if enc == 7 {
        ok := ReadTightData(buf, w, h, cpixel, start);
      } else if enc == 50 {
        ok := ReadH264(buf, start);
      } else if enc == -239 {
        var pixelLen := w * h * bpp;
        var maskLen := (w + 7) / 8 * h;
        ok := ReadExact(buf, pixelLen + maskLen, start);
      } else if enc == -223 {
        ok := true;
      } else {
        ok := false;
      }
    }

    /** The rest of an update, whose type byte has just been read. */
    method ReadFramebufferUpdate(bpp: nat, cpixel: nat) returns (msg: Option<seq<Byte>>)
      requires 1 <= br.pos <= |br.data| && br.data[br.pos - 1] == 0
      modifies br
      ensures br.Valid()
      ensures var start := old(br.pos) - 1;
              var end := UpdateEnd(br.data, start, bpp, cpixel);
              if msg.Some? then end == Some(br.pos) && start < br.pos && msg.value == br.data[start..br.pos] else end.None?
    {
      ghost var start := br.pos - 1;
      var buf := new BufWriter();
      var hdr := br.ReadFull(3);
      if hdr.None? { return None; }
      var numRects := Be16At(hdr.value, 1);
      buf.Write([0]);
      buf.Write(hdr.value);
      var ok := ReadRects(buf, numRects, bpp, cpixel, start);
      if !ok { return None; }
      return Some(buf.written);
    }

    method ReadRects(buf: BufWriter, numRects: nat, bpp: nat, cpixel: nat, ghost start: nat) returns (ok: bool)
      requires Relayed(buf, start)
      modifies br, buf
      ensures br.Valid()
      ensures var end := Repeat(RectScan(bpp, cpixel), br.data, old(br.pos), numRects);
              if ok then end == Some(br.pos) && Relayed(buf, start) else end.None?
    {
      ghost var end := Repeat(RectScan(bpp, cpixel), br.data, br.pos, numRects);
      for i := 0 to numRects
        invariant br.Valid() && Relayed(buf, start)
        invariant end == Repeat(RectScan(bpp, cpixel), br.data, br.pos, numRects - i)
      {
        RepeatStep(RectScan(bpp, cpixel), br.data, br.pos, numRects - i);
        ok := ReadRect(buf, bpp, cpixel, start);
        if !ok { return; }
      }
      return true;
    }

    /** One turn of the rectangle loop: a header and the data it announces. */
    method ReadRect(buf: BufWriter, bpp: nat, cpixel: nat, ghost start: nat) returns (ok: bool)
      requires Relayed(buf, start)
      modifies br, buf
      ensures br.Valid()
      ensures var end := RectScan(bpp, cpixel)(br.data, old(br.pos));
              if ok then end == Some(br.pos) && Relayed(buf, start) else end.None?
    {
      var rectHdr := Forward(buf, 12, start);
      if rectHdr.None? { return false; }
      var w := Be16At(rectHdr.value, 4);
      var h := Be16At(rectHdr.value, 6);
      var enc := Signed32(Be32At(rectHdr.value, 8));
      ok := ReadEncodingData(buf, w, h, enc, bpp, cpixel, start);
    }

    method ReadServerCutText() returns (msg: Option<seq<Byte>>)
      requires 1 <= br.pos <= |br.data| && br.data[br.pos - 1] == 3
      modifies br
      ensures br.Valid()
      ensures var start := old(br.pos) - 1;
              var end := CutTextEnd(br.data, start);
              if msg.Some? then end == Some(br.pos) && start < br.pos && msg.value == br.data[start..br.pos] else end.None?
    {
      var hdr := br.ReadFull(7);
      if hdr.None? { return None; }
      var textLen := Be32At(hdr.value, 3);
      var text := br.ReadFull(textLen);
      if text.None? { return None; }
      return Some([3] + hdr.value + text.value);
    }

    method ReadSetColourMapEntries() returns (msg: Option<seq<Byte>>)
      requires 1 <= br.pos <= |br.data| && br.data[br.pos - 1] == 1
      modifies br
      ensures br.Valid()
      ensures var start := old(br.pos) - 1;
              var end := ColourMapEnd(br.data, start);
              if msg.Some? then end == Some(br.pos) && start < br.pos && msg.value == br.data[start..br.pos] else end.None?
    {
      var hdr := br.ReadFull(5);
      if hdr.None? { return None; }
      var numColours := Be16At(hdr.value, 3);
      var data := br.ReadFull(numColours * 6);
      if data.None? { return None; }
      return Some([1] + hdr.value + data.value);
    }

    /** One message off the stream: exactly the bytes it takes, and nothing is lost or added. */
    method ReadMessage() returns (msg: Option<seq<Byte>>)
      requires br.Valid()
      modifies br
      ensures br.Valid()
      ensures var end := MessageEnd(br.data, old(br.pos), bpp, tightCPixel);
              if msg.Some? then end == Some(br.pos) && old(br.pos) < br.pos && msg.value == br.data[old(br.pos)..br.pos]
              else end.None?
    {
      var msgType := br.ReadByte();
      if msgType.None? { return None; }
      match msgType.value
      case 0 => msg := ReadFramebufferUpdate(bpp, tightCPixel);
      case 1 => msg := ReadSetColourMapEntries();
      case 2 => msg := Some([2]);
      case 3 => msg := ReadServerCutText();
      case _ => msg := None;
    }

    /**
      The relay loop (wsproxy/proxy.go): every message becomes one frame until a read fails. Put
      together, the frames are the next bytes of the server's stream.
     */
    method Relay() returns (frames: seq<seq<Byte>>)
      requires br.Valid()
      modifies br
      ensures frames == Frames(MessageScan(bpp, tightCPixel), br.data, old(br.pos), [])
      ensures Concat(frames) <= br.data[old(br.pos)..]
    {
      ghost var scan, start := MessageScan(bpp, tightCPixel), br.pos;
      frames := [];
      while true
        invariant br.Valid() && start <= br.pos && Concat(frames) == br.data[start..br.pos]
        invariant Frames(scan, br.data, br.pos, frames) == Frames(scan, br.data, start, [])
        decreases |br.data| - br.pos
      {
        var msg := ReadMessage();
        if msg.None? { return; }
        ConcatAppend(frames, [msg.value]);
        ConcatOne(msg.value);
        frames := frames + [msg.value];
      }
    }
  }
}

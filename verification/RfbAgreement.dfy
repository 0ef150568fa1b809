/**
  The server's messages as the browser measures and splits them: every message, every rectangle
  and every piece of rectangle data ends where the writer ended it.
 */
module RfbAgreement {
  import opened Bytes
  import opened Streams
  import opened Protocol
  import opened Scans
  import opened RfbParser
  import opened RfbPlacement
  import CompactLength

  lemma {:induction false} CompactEnds(view: seq<Byte>, offset: nat, control: Byte, payload: seq<Byte>)
    requires control % 16 != 8 && |payload| < CompactLength.LIMIT
    requires Sits(view, offset, [control] + CompactLength.Encode(|payload|) + payload)
    ensures TileEnd(view, offset) == Some(offset + 1 + |CompactLength.Encode(|payload|)| + |payload|)
  {
    var size := CompactLength.Encode(|payload|);
    SitsSplit(view, offset, [control] + size, payload);
    SitsSplit(view, offset, [control], size);
    assert view[offset] == [control][0];
    CompactLength.RoundTrip(|payload|, view, offset + 1);
  }

  lemma {:induction false} TileEnds(view: seq<Byte>, offset: nat, t: TightTile)
    requires t.Fits() && Sits(view, offset, t.Wire())
    ensures TileEnd(view, offset) == Some(offset + |t.Wire()|)
  {
    match t {
      case Solid(r, g, b) => assert view[offset] == t.Wire()[0];
      case Jpeg(payload) => CompactEnds(view, offset, 0x09, payload);
      case Basic(stream, payload) => CompactEnds(view, offset, stream, payload);
    }
  }

  lemma {:induction false} TileFound(t: TightTile)
    requires t.Fits()
    ensures Finds(TileEnd, t.Wire())
  {
    forall view: seq<Byte>, offset: nat | Sits(view, offset, t.Wire()) {
      TileEnds(view, offset, t);
    }
  }

  lemma {:induction false} TilesEnds(view: seq<Byte>, offset: nat, ts: seq<TightTile>)
    requires forall i :: 0 <= i < |ts| ==> ts[i].Fits()
    requires Sits(view, offset, TightWire(ts))
    ensures TilesEnd(view, offset, |ts|) == Some(offset + |TightWire(ts)|)
  {
    TightWireIsConcat(ts);
    var wires := TileWires(ts);
    assert Repeat(TileEnd, view, offset, |wires|) == Some(offset + |Concat(wires)|) by {
      forall i | 0 <= i < |wires|
        ensures Finds(TileEnd, wires[i])
      {
        TileFound(ts[i]);
      }
      RepeatFinds(TileEnd, view, offset, wires);
    }
  }

  lemma {:induction false} PrefixMeasured(view: seq<Byte>, offset: nat, payload: seq<Byte>)
    requires |payload| < 0x1_0000_0000 && Sits(view, offset, Be32(|payload|) + payload)
    ensures Be32At(view, offset) == |payload|
  {
    SitsSplit(view, offset, Be32(|payload|), payload);
    ReadWriteBe32(|payload|, view, offset);
  }

  lemma {:induction false} H264Measured(view: seq<Byte>, offset: nat, flags: nat, nal: seq<Byte>)
    requires |nal| < 0x1_0000_0000 && Sits(view, offset, Be32(flags) + Be32(|nal|) + nal)
    ensures Be32At(view, offset + 4) == |nal|
  {
    SitsSplit(view, offset, Be32(flags) + Be32(|nal|), nal);
    SitsSplit(view, offset, Be32(flags), Be32(|nal|));
    ReadWriteBe32(|nal|, view, offset + 4);
  }

  /** A payload of any kind is measured by the browser to be as long as it is. */
  lemma {:induction false} PayloadMeasured(view: seq<Byte>, offset: nat, r: Rectangle, p: Payload)
    requires Carries(r, p, 4) && Sits(view, offset, r.data)
    ensures DataLength(view, offset, r.header.width, r.header.height, r.header.encoding) == Some(|r.data|)
  {
    match p {
      case RawPixels(_) =>
      case CopyFrom(_, _) =>
      case ZlibData(compressed) => PrefixMeasured(view, offset, compressed);
      case TightTiles(tiles) => TilesEnds(view, offset, tiles);
      case ZrleData(compressed) => PrefixMeasured(view, offset, compressed);
      case H264Frame(flags, nal) => H264Measured(view, offset, flags, nal);
      case CursorShape(_, _) =>
      case DesktopResize =>
    }
  }

  /** The rectangle is one the server's encoders build for a 32-bit client. */
  ghost predicate Written(r: Rectangle) {
    exists p :: Carries(r, p, 4)
  }

  ghost predicate AllWritten(rects: seq<Rectangle>) {
    forall i :: 0 <= i < |rects| ==> Written(rects[i])
  }

  /** What every parser needs of a rectangle: its header read back, its data measured right. */
  lemma {:induction false} RectMeasured(view: seq<Byte>, offset: nat, r: Rectangle)
    requires Written(r) && Sits(view, offset, r.Wire())
    ensures offset + 12 <= |view| && HeaderAt(view, offset) == r.header
    ensures DataLength(view, offset + 12, r.header.width, r.header.height, r.header.encoding) == Some(|r.data|)
  {
    var p :| Carries(r, p, 4);
    SitsSplit(view, offset, r.header.Wire(), r.data);
    HeaderRoundTrip(r.header, view, offset);
    PayloadMeasured(view, offset + 12, r, p);
  }

  lemma {:induction false} RectFound(r: Rectangle)
    requires Written(r)
    ensures Finds(RectEnd, r.Wire())
  {
    forall view: seq<Byte>, offset: nat | Sits(view, offset, r.Wire())
      ensures RectEnd(view, offset) == Some(offset + |r.Wire()|)
    {
      RectMeasured(view, offset, r);
    }
  }

  lemma {:induction false} RectsEnds(view: seq<Byte>, offset: nat, rects: seq<Rectangle>)
    requires AllWritten(rects) && Sits(view, offset, RectsWire(rects))
    ensures RectsEnd(view, offset, |rects|) == Some(offset + |RectsWire(rects)|)
  {
    RectsWireIsConcat(rects);
    var wires := RectWires(rects);
    assert Repeat(RectEnd, view, offset, |wires|) == Some(offset + |Concat(wires)|) by {
      forall i | 0 <= i < |wires|
        ensures Finds(RectEnd, wires[i])
      {
        RectFound(rects[i]);
      }
      RepeatFinds(RectEnd, view, offset, wires);
    }
  }

  /** How an update is laid out. */
  lemma {:induction false} UpdateLayout(rects: seq<Rectangle>, rest: seq<Byte>)
    requires |rects| < 0x1_0000
    ensures var s := UpdateWire(rects) + rest;
            |s| >= 4 && s[0] == 0 && Be16At(s, 2) == |rects| && Sits(s, 4, RectsWire(rects))
  {
    var count, body := Be16(|rects|), RectsWire(rects);
    var s := UpdateWire(rects) + rest;
    assert s == [0, 0] + count + body + rest;
    ReadWriteBe16(|rects|, s, 2);
  }

  lemma {:induction false} UpdateMeasuredAt(s: seq<Byte>, rects: seq<Rectangle>)
    requires |s| >= 4 && s[0] == 0 && Be16At(s, 2) == |rects| && Sits(s, 4, RectsWire(rects)) && AllWritten(rects)
    ensures MessageLength(s) == Some(4 + |RectsWire(rects)|)
  {
    RectsEnds(s, 4, rects);
  }

  lemma {:induction false} UpdateMeasured(rects: seq<Rectangle>, rest: seq<Byte>)
    requires |rects| < 0x1_0000 && AllWritten(rects)
    ensures MessageLength(UpdateWire(rects) + rest) == Some(|UpdateWire(rects)|)
  {
    UpdateLayout(rects, rest);
    UpdateMeasuredAt(UpdateWire(rects) + rest, rects);
  }

  lemma {:induction false} CutTextMeasured(text: seq<Byte>, rest: seq<Byte>)
    requires |text| < 0x1_0000_0000
    ensures MessageLength(CutTextWire(text) + rest) == Some(|CutTextWire(text)|)
  {
    ReadWriteBe32(|text|, CutTextWire(text) + rest, 4);
  }

  ghost predicate MessageWritten(m: ServerMessage) {
    match m
    case Update(rects) => |rects| < 0x1_0000 && AllWritten(rects)
    case CutText(text) => |text| < 0x1_0000_0000
    case Bell => true
  }

  /** The browser finds a server message to be exactly as long as the writer made it. */
  lemma {:induction false} MessageMeasured(m: ServerMessage, rest: seq<Byte>)
    requires MessageWritten(m)
    ensures MessageLength(m.Wire() + rest) == Some(|m.Wire()|)
  {
    match m
    case Update(rects) => UpdateMeasured(rects, rest);
    case CutText(text) => CutTextMeasured(text, rest);
    case Bell =>
  }

  /** A message of the proxy's own: its type from 128 on, the length of the payload, and the payload. */
  function ExtensionWire(kind: Byte, payload: seq<Byte>): seq<Byte> {
    [kind] + Be32(|payload|) + payload
  }

  /** The browser measures it right exactly when the length fits its 32 bits. */
  lemma {:induction false} ExtensionMeasured(kind: Byte, payload: seq<Byte>, rest: seq<Byte>)
    requires kind >= 128
    ensures MessageLength(ExtensionWire(kind, payload) + rest) == Some(|ExtensionWire(kind, payload)|) <==>
              |payload| < 0x1_0000_0000
  {
    var s, head, size := ExtensionWire(kind, payload) + rest, [kind], Be32(|payload|);
    SitsAtHead(ExtensionWire(kind, payload), rest);
    SitsSplit(s, 0, head + size, payload);
    SitsSplit(s, 0, head, size);
    assert s[0] == head[0];
    ReadWriteBe32(|payload|, s, 1);
  }

  /** Where the writer put rectangle `i`, counted from the start of the message. */
  function RectOffset(rects: seq<Rectangle>, i: nat): nat
    requires i <= |rects|
  {
    if i == 0 then 4 else RectOffset(rects, i - 1) + 12 + |rects[i - 1].data|
  }

  lemma {:induction false} RectsSit(view: seq<Byte>, rects: seq<Rectangle>, i: nat)
    requires i <= |rects| && Sits(view, 4, RectsWire(rects))
    ensures Sits(view, RectOffset(rects, i), RectsWire(rects[i..]))
  {
    if i == 0 {
      assert rects[0..] == rects;
    } else {
      RectsSit(view, rects, i - 1);
      assert rects[i - 1..][1..] == rects[i..];
      SitsSplit(view, RectOffset(rects, i - 1), rects[i - 1].Wire(), RectsWire(rects[i..]));
    }
  }

  /** At its offset, the header of rectangle `i` is read and its data measured as written. */
  ghost predicate ReadAt(measure: Measure, view: seq<Byte>, rects: seq<Rectangle>, i: nat)
    requires i < |rects|
  {
    var offset := RectOffset(rects, i);
    offset + 12 <= |view| && HeaderAt(view, offset) == rects[i].header && measure(view, offset) == Some(|rects[i].data|)
  }

  /** Rectangle `i` is read where it was written, and the view holds exactly its data there. */
  lemma {:induction false} RectReadAt(view: seq<Byte>, rects: seq<Rectangle>, i: nat)
    requires i < |rects| && Written(rects[i]) && Sits(view, 4, RectsWire(rects))
    ensures ReadAt(FastMeasure(), view, rects, i)
    ensures Sits(view, RectOffset(rects, i) + 12, rects[i].data)
  {
    var offset, r := RectOffset(rects, i), rects[i];
    RectsSit(view, rects, i);
    assert RectsWire(rects[i..]) == r.Wire() + RectsWire(rects[i..][1..]);
    SitsSplit(view, offset, r.Wire(), RectsWire(rects[i..][1..]));
    SitsSplit(view, offset, r.header.Wire(), r.data);
    RectMeasured(view, offset, r);
    FastIsSafe(view, offset + 12, r.header.width, r.header.height, r.header.encoding);
  }

  /** The headers as written, with the offsets at which the writer put their data. */
  function WrittenPlaces(rects: seq<Rectangle>): seq<Place> {
    seq(|rects|, i requires 0 <= i < |rects| => Place(rects[i].header, RectOffset(rects, i) + 12))
  }

  /** One turn of the splitting loop; the last turn needs no measure. */
  lemma {:induction false} PlacesStep(
    measure: Measure, view: seq<Byte>, offset: nat, count: nat, found: seq<Place>, h: RectHeader, n: int)
    requires count > 0 && offset + 12 <= |view| && HeaderAt(view, offset) == h && measure(view, offset) == Some(n)
    ensures Places(measure, view, offset, count, found) ==
            Places(measure, view, offset + 12 + n, count - 1, found + [Place(h, offset + 12)])
  {
  }

  lemma {:induction false} PlacedFrom(measure: Measure, view: seq<Byte>, rects: seq<Rectangle>, i: nat)
    requires i <= |rects| && forall j :: i <= j < |rects| ==> ReadAt(measure, view, rects, j)
    ensures Places(measure, view, RectOffset(rects, i), |rects| - i, WrittenPlaces(rects)[..i]) == Some(WrittenPlaces(rects))
    decreases |rects| - i
  {
    var all, here := WrittenPlaces(rects), RectOffset(rects, i);
    if i == |rects| {
      assert all[..i] == all;
    } else {
      assert all[..i + 1] == all[..i] + [Place(rects[i].header, here + 12)];
      assert Places(measure, view, here, |rects| - i, all[..i])
          == Places(measure, view, RectOffset(rects, i + 1), |rects| - (i + 1), all[..i + 1]) by {
        assert ReadAt(measure, view, rects, i);
        PlacesStep(measure, view, here, |rects| - i, all[..i], rects[i].header, |rects[i].data|);
      }
      PlacedFrom(measure, view, rects, i + 1);
    }
  }

  /** The browser hands every decoder the header the server wrote and the offset of its data. */
  lemma {:induction false} ParsedAsWritten(view: seq<Byte>, rects: seq<Rectangle>)
    requires |view| >= 4 && Be16At(view, 2) == |rects| && Sits(view, 4, RectsWire(rects)) && AllWritten(rects)
    ensures Places(FastMeasure(), view, 4, Be16At(view, 2), []) == Some(WrittenPlaces(rects))
  {
    var measure := FastMeasure();
    assert Places(measure, view, 4, |rects|, WrittenPlaces(rects)[..0]) == Some(WrittenPlaces(rects)) by {
      forall i | 0 <= i < |rects|
        ensures ReadAt(measure, view, rects, i)
      {
        RectReadAt(view, rects, i);
      }
      PlacedFrom(measure, view, rects, 0);
    }
    assert WrittenPlaces(rects)[..0] == [];
  }
}

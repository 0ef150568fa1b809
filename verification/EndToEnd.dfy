/** From the server's writers through the proxy to the browser's message handler. */
module EndToEnd {
  import opened Bytes
  import opened Protocol
  import opened Reassembly
  import Framing
  import Reframing
  import RfbParser
  import RfbAgreement
  import Connection

  /** The messages a 32-bit, depth-24 client is sent, within the proxy's Tight domain. */
  ghost predicate AllFramed(ms: seq<ServerMessage>) {
    forall i :: 0 <= i < |ms| ==> Reframing.MessageFramed(ms[i], 4, 3)
  }

  /** What the proxy agrees about, the browser agrees about. */
  lemma {:induction false} FramedIsWritten(m: ServerMessage)
    requires Reframing.MessageFramed(m, 4, 3)
    ensures RfbAgreement.MessageWritten(m)
  {
    if m.Update? {
      forall i | 0 <= i < |m.rects|
        ensures RfbAgreement.Written(m.rects[i])
      {
        assert Reframing.Sendable(m.rects[i], 4, 3);
        var p :| Reframing.Framed(m.rects[i], p, 4, 3);
      }
    }
  }

  lemma {:induction false} WiresAreComplete(ms: seq<ServerMessage>)
    requires AllFramed(ms)
    ensures AllComplete(RfbParser.MessageLength, Reframing.Wires(ms))
  {
    forall i | 0 <= i < |ms|
      ensures Complete(RfbParser.MessageLength, Reframing.Wires(ms)[i])
    {
      FramedIsWritten(ms[i]);
      RfbAgreement.MessageMeasured(ms[i], []);
      assert ms[i].Wire() + [] == ms[i].Wire();
      assert ms[i].Wire() != [];
    }
  }

  lemma {:induction false} NothingFollows(stream: seq<Byte>, found: seq<seq<Byte>>)
    ensures Framing.Frames(Framing.MessageScan(4, 3), stream, |stream|, found) == found
  {
    assert Framing.MessageScan(4, 3)(stream, |stream|).None?;
  }

  /** The proxy cuts the server's stream into the server's messages, one WebSocket frame each. */
  lemma {:induction false} RelayedAsWritten(ms: seq<ServerMessage>)
    requires AllFramed(ms)
    ensures Framing.Frames(Framing.MessageScan(4, 3), Concat(Reframing.Wires(ms)), 0, []) == Reframing.Wires(ms)
  {
    var scan, wires := Framing.MessageScan(4, 3), Reframing.Wires(ms);
    var stream := Concat(wires);
    assert Framing.Frames(scan, stream, 0, []) == Framing.Frames(scan, stream, |stream|, wires) by {
      Reframing.StreamReframed(ms, 4, 3, stream, 0);
    }
    NothingFollows(stream, wires);
  }

  /** The browser, getting those frames, dispatches exactly the server's messages and buffers nothing. */
  lemma {:induction false} DispatchedAsWritten(ms: seq<ServerMessage>)
    requires AllFramed(ms)
    ensures Connection.OnFrames(State([], []), Reframing.Wires(ms)) == State(Reframing.Wires(ms), [])
  {
    WiresAreComplete(ms);
    Connection.CompleteFramesPassThrough([], Reframing.Wires(ms));
    assert [] + Reframing.Wires(ms) == Reframing.Wires(ms);
  }

  /** However the server's stream is cut, the browser's reassembly finds the server's messages. */
  lemma {:induction false} ReassembledFromAnyChunks(ms: seq<ServerMessage>, chunks: seq<seq<Byte>>)
    requires AllFramed(ms) && Concat(chunks) == Concat(Reframing.Wires(ms))
    ensures Feed(RfbParser.MessageLength, State([], []), chunks) == State(Reframing.Wires(ms), [])
  {
    WiresAreComplete(ms);
    Connection.ScanIsPrefixStable();
    assert Concat(Reframing.Wires(ms)) + [] == Concat(Reframing.Wires(ms));
    MessagesSurviveChunking(RfbParser.MessageLength, Reframing.Wires(ms), [], chunks);
  }
}

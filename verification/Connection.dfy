/**
  The browser's connection object (web/src/connection.ts): the reassembly buffer, worked in place
  over a growing array, and the fast path around it.
 */
module Connection {
  import opened Bytes
  import opened Streams
  import opened RfbParser
  import opened RfbScanner
  import opened Reassembly

  const EXT_SESSION_INIT: Byte := 128

  /** The browser's scan is one that chunking cannot disturb. */
  lemma {:induction false} ScanIsPrefixStable()
    ensures PrefixStable(MessageLength)
  {
    forall a, b | MessageLength(a).Some?
      ensures MessageLength(a + b) == MessageLength(a)
    {
      MessageLengthStable(a, b);
    }
  }

  // ----- the fast path

  /** The frame is one the fast path hands over whole when nothing is buffered. */
  predicate FastFrame(frame: seq<Byte>)
    requires frame != []
  {
    if frame[0] >= 128 then |frame| >= 5 && |frame| == 5 + Be32At(frame, 1)
    else frame[0] <= 3
  }

  /** One WebSocket frame arriving. */
  function OnFrame(length: Measure, s: State, frame: seq<Byte>): State {
    if frame == [] then s
    else if s.pending == [] && FastFrame(frame) then State(s.found + [frame], [])
    else Drain(length, s.found, s.pending + frame)
  }

  /**
    The fast path agrees with reassembly on exactly the frames that are no standard message, or are
    one complete standard message: a standard message cut in two is dispatched in pieces.
   */
  lemma {:induction false} FastPathAgrees(found: seq<seq<Byte>>, frame: seq<Byte>)
    ensures OnFrame(MessageLength, State(found, []), frame) == Drain(MessageLength, found, frame) <==>
              (frame != [] && frame[0] <= 3 ==> MessageLength(frame) == Some(|frame|))
  {
    assert [] + frame == frame;
    if frame != [] && FastFrame(frame) {
      FastFrameDrained(found, frame);
    }
  }

  lemma {:induction false} FastFrameDrained(found: seq<seq<Byte>>, frame: seq<Byte>)
    requires frame != []
    ensures Drain(MessageLength, found, frame) == State(found + [frame], []) <==> MessageLength(frame) == Some(|frame|)
  {
    if Ready(MessageLength, frame) {
      var n := MessageLength(frame).value;
      var s := Drain(MessageLength, found + [frame[..n]], frame[n..]);
      DrainExtends(MessageLength, found + [frame[..n]], frame[n..]);
      if n == |frame| {
        assert frame[..n] == frame && frame[n..] == [];
      } else {
        assert s.found[|found|] == (found + [frame[..n]])[|found|];
      }
    }
  }

  lemma {:induction false} DrainExtends(length: Measure, found: seq<seq<Byte>>, buf: seq<Byte>)
    ensures found <= Drain(length, found, buf).found
    decreases |buf|
  {
    if Ready(length, buf) {
      DrainExtends(length, found + [buf[..length(buf).value]], buf[length(buf).value..]);
    }
  }

  /** A cut text cut after three bytes: reassembly waits for more, the fast path dispatches the piece. */
  lemma {:induction false} FastPathDispatchesPieces()
    ensures OnFrame(MessageLength, State([], []), [3, 0, 0]) == State([[3, 0, 0]], [])
    ensures Drain(MessageLength, [], [3, 0, 0]) == State([], [3, 0, 0])
  {
  }

  /** Frame after frame. */
  function OnFrames(s: State, frames: seq<seq<Byte>>): State
    decreases |frames|
  {
    if frames == [] then s else OnFrames(OnFrame(MessageLength, s, frames[0]), frames[1..])
  }

  /** One complete message per frame keeps the buffer empty and dispatches exactly the frames. */
  lemma {:induction false} CompleteFramesPassThrough(found: seq<seq<Byte>>, frames: seq<seq<Byte>>)
    requires AllComplete(MessageLength, frames)
    ensures OnFrames(State(found, []), frames) == State(found + frames, [])
    decreases |frames|
  {
    if frames == [] {
      assert found + frames == found;
    } else {
      var f := frames[0];
      assert OnFrame(MessageLength, State(found, []), f) == State(found + [f], []) by {
        assert Complete(MessageLength, f);
        FastPathAgrees(found, f);
        FastFrameDrained(found, f);
      }
      CompleteFramesPassThrough(found + [f], frames[1..]);
      assert found + [f] + frames[1..] == found + frames;
    }
  }

  // ----- the connection object

  /** What the connection relies on: messages are not empty, extension messages carry their length. */
  ghost predicate IsScanner(length: Measure) {
    && (forall b :: length(b).Some? ==> length(b).value >= 1)
    && (forall b :: |b| >= 5 && b[0] >= 128 ==> length(b) == Some(5 + Be32At(b, 1)))
  }

  /** `tryGetMessageLength` is such a scanner. */
  lemma {:induction false} BrowserScanner()
    ensures IsScanner(MessageLength) && PrefixStable(MessageLength)
  {
    forall b
      ensures MessageLength(b).Some? ==> MessageLength(b).value >= 1
    {
      MessageLengthPositive(b);
    }
    ScanIsPrefixStable();
  }

  /** What the page is told: the session parameters once, then messages. */
  datatype Delivery = SessionInit(msg: seq<Byte>) | Message(msg: seq<Byte>)

  predicate IsInit(msg: seq<Byte>) {
    msg != [] && msg[0] == EXT_SESSION_INIT
  }

  /** The first session-init message resolves the connection; every other one goes to the handler. */
  function Deliver(resolved: bool, msgs: seq<seq<Byte>>): (bool, seq<Delivery>)
    decreases |msgs|
  {
    if msgs == [] then (resolved, [])
    else
      var k := |msgs| - 1;
      var (before, delivered) := Deliver(resolved, msgs[..k]);
      if !before && IsInit(msgs[k]) then (true, delivered + [SessionInit(msgs[k])])
      else (before, delivered + [Message(msgs[k])])
  }

  /** Exactly one delivery a message, in order; at most the first init message is set apart. */
  lemma {:induction false} DeliverInOrder(resolved: bool, msgs: seq<seq<Byte>>, i: nat)
    requires i < |msgs|
    ensures var (_, delivered) := Deliver(resolved, msgs);
            && |delivered| == |msgs| && delivered[i].msg == msgs[i]
            && (delivered[i].SessionInit? <==>
                  !resolved && IsInit(msgs[i]) && forall j :: 0 <= j < i ==> !IsInit(msgs[j]))
    ensures Deliver(resolved, msgs).0 <==> resolved || exists j :: 0 <= j < |msgs| && IsInit(msgs[j])
    decreases |msgs|
  {
    var k := |msgs| - 1;
    var earlier := msgs[..k];
    assert forall j :: 0 <= j < k ==> earlier[j] == msgs[j];
    if k > 0 {
      DeliverInOrder(resolved, earlier, if i < k then i else 0);
    }
    if exists j :: 0 <= j < k && IsInit(msgs[j]) {
      var j :| 0 <= j < k && IsInit(msgs[j]);
      assert IsInit(earlier[j]);
    }
  }

  class VncConnection {
    const length: Measure          // `tryGetMessageLength`
    var buffer: array<Byte>
    var bufferUsed: nat
    var initResolved: bool
    var delivered: seq<Delivery>   // what `resolve` and the message handler have been given
    ghost var found: seq<seq<Byte>>

    ghost predicate Valid()
      reads this
    {
      IsScanner(length) && bufferUsed <= buffer.Length && (initResolved, delivered) == Deliver(false, found)
    }

    /** The reassembly state this object stands for. */
    ghost function Abstract(): State
      reads this, buffer
      requires Valid()
    {
      State(found, buffer[..bufferUsed])
    }

    constructor (length: Measure)
      requires IsScanner(length)
      ensures this.length == length
      ensures Valid() && fresh(buffer) && Abstract() == State([], []) && delivered == [] && !initResolved
    {
      this.length := length;
      buffer := new Byte[0];
      bufferUsed := 0;
      initResolved := false;
      delivered := [];
      found := [];
    }

    method Dispatch(msg: seq<Byte>)
      requires Valid() && msg != []
      modifies this`initResolved, this`delivered, this`found
      ensures Valid() && found == old(found) + [msg]
    {
      assert (found + [msg])[..|found|] == found;
      if !initResolved && msg[0] == EXT_SESSION_INIT {
        initResolved := true;
        delivered := delivered + [SessionInit(msg)];
      } else {
        delivered := delivered + [Message(msg)];
      }
      found := found + [msg];
    }

    method OnMessage(chunk: seq<Byte>)
      requires Valid()
      modifies this, buffer
      ensures Valid() && (buffer == old(buffer) || fresh(buffer))
      ensures Abstract() == OnFrame(length, old(Abstract()), chunk)
    {
      if |chunk| < 1 { return; }
      if bufferUsed == 0 {
        assert buffer[..bufferUsed] == [];
        var msgType := chunk[0];
        if msgType >= 128 && |chunk| >= 5 {
          var payloadLen := Be32At(chunk, 1);
          if |chunk| == 5 + payloadLen {
            Dispatch(chunk);
            return;
          }
        } else if msgType <= 3 {
          Dispatch(chunk);
          return;
        }
      }
      Append(chunk);
      Extract();
    }

    /** Make room for `needed` bytes; the buffer never shrinks and keeps what it holds. */
    method Grow(needed: nat)
      requires Valid()
      modifies this`buffer
      ensures Valid() && buffer.Length >= needed && (buffer == old(buffer) || fresh(buffer))
      ensures buffer[..bufferUsed] == old(buffer[..bufferUsed])
    {
      if needed > buffer.Length {
        var newSize := if buffer.Length * 2 > needed then buffer.Length * 2 else needed;
        var newBuf := new Byte[newSize](_ => 0);
        forall i | 0 <= i < bufferUsed {
          newBuf[i] := buffer[i];
        }
        assert newBuf[..bufferUsed] == buffer[..bufferUsed];
        buffer := newBuf;
      }
    }

    /** Buffer the chunk behind what is already there. */
    method Append(chunk: seq<Byte>)
      requires Valid()
      modifies this`buffer, this`bufferUsed, buffer
      ensures Valid() && (buffer == old(buffer) || fresh(buffer))
      ensures buffer[..bufferUsed] == old(buffer[..bufferUsed]) + chunk
    {
      Grow(bufferUsed + |chunk|);
      ghost var held := buffer[..bufferUsed];
      forall i | 0 <= i < |chunk| {
        buffer[bufferUsed + i] := chunk[i];
      }
      assert buffer[..bufferUsed + |chunk|] == held + chunk;
      bufferUsed := bufferUsed + |chunk|;
    }

    /** Dispatch every complete message and move what is left to the front of the buffer. */
    method Extract()
      requires Valid()
      modifies this`bufferUsed, this`initResolved, this`delivered, this`found, buffer
      ensures Valid() && Abstract() == Drain(length, old(found), old(buffer[..bufferUsed]))
    {
      var consumed := DispatchComplete(buffer[..bufferUsed]);
      if consumed > 0 {
        ghost var kept := buffer[..bufferUsed][consumed..];
        if consumed < bufferUsed {
          forall i | 0 <= i < bufferUsed - consumed {
            buffer[i] := buffer[consumed + i];
          }
        }
        bufferUsed := bufferUsed - consumed;
        assert buffer[..bufferUsed] == kept;
      }
    }

    /** The dispatch loop over the used part of the buffer: how many bytes it took. */
    method DispatchComplete(used: seq<Byte>) returns (consumed: nat)
      requires Valid()
      modifies this`initResolved, this`delivered, this`found
      ensures Valid() && consumed <= |used|
      ensures Drain(length, old(found), used) == State(found, used[consumed..])
    {
      consumed := 0;
      while consumed < |used|
        invariant Valid() && consumed <= |used|
        invariant Drain(length, old(found), used) == Drain(length, found, used[consumed..])
        decreases |used| - consumed
      {
        var remaining := |used| - consumed;
        var bufView := used[consumed..];
        var msgLen := NextLength(bufView);
        if msgLen == -1 || msgLen > remaining { return; }
        DrainTakesAt(length, found, used, consumed, msgLen);
        var msgBytes := used[consumed..consumed + msgLen];
        consumed := consumed + msgLen;
        Dispatch(msgBytes);
      }
    }

    /** The loop's own rule for extension messages, and the scanner for the others. */
    method NextLength(bufView: seq<Byte>) returns (msgLen: int)
      requires Valid() && bufView != []
      ensures msgLen == OrMinusOne(length(bufView)) && (msgLen == -1 || msgLen >= 1)
    {
      if bufView[0] >= 128 && |bufView| >= 5 {
        var payloadLen := Be32At(bufView, 1);
        return 5 + payloadLen;
      }
      msgLen := OrMinusOne(length(bufView));
    }
  }
}

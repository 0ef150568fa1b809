/**
  Reassembling messages from chunks, for any way of measuring the message at the head of a buffer
  that later bytes do not change.
 */
module Reassembly {
  import opened Bytes
  import opened Streams

  type Measure = seq<Byte> -> Option<nat>

  /** The messages dispatched so far, and the bytes no message could be made of yet. */
  datatype State = State(found: seq<seq<Byte>>, pending: seq<Byte>)

  /** A length found on a prefix of the stream is the length found on any longer prefix. */
  ghost predicate PrefixStable(length: Measure) {
    forall a, b {:trigger length(a + b)} :: length(a).Some? ==> length(a + b) == length(a)
  }

  /** A whole message is at the head of `buf`. */
  predicate Ready(length: Measure, buf: seq<Byte>) {
    length(buf).Some? && 0 < length(buf).value <= |buf|
  }

  /** Take whole messages off the head of `buf` while there are any. */
  function Drain(length: Measure, found: seq<seq<Byte>>, buf: seq<Byte>): State
    decreases |buf|
  {
    if !Ready(length, buf) then State(found, buf)
    else
      var n := length(buf).value;
      Drain(length, found + [buf[..n]], buf[n..])
  }

  /** What is left over cannot be drained further. */
  lemma {:induction false} LeftOverIsStuck(length: Measure, found: seq<seq<Byte>>, buf: seq<Byte>)
    ensures !Ready(length, Drain(length, found, buf).pending)
    decreases |buf|
  {
    if Ready(length, buf) {
      var n := length(buf).value;
      LeftOverIsStuck(length, found + [buf[..n]], buf[n..]);
    }
  }

  /** One turn of the dispatch loop. */
  lemma {:induction false} DrainTakes(length: Measure, found: seq<seq<Byte>>, buf: seq<Byte>, n: nat)
    requires length(buf) == Some(n) && 0 < n <= |buf|
    ensures Drain(length, found, buf) == Drain(length, found + [buf[..n]], buf[n..])
  {
  }

  lemma {:induction false} DrainTakesAt(length: Measure, found: seq<seq<Byte>>, used: seq<Byte>, consumed: nat, n: nat)
    requires consumed + n <= |used| && n > 0 && length(used[consumed..]) == Some(n)
    ensures Drain(length, found, used[consumed..]) ==
            Drain(length, found + [used[consumed..consumed + n]], used[consumed + n..])
  {
    var view := used[consumed..];
    assert view[..n] == used[consumed..consumed + n] && view[n..] == used[consumed + n..];
    DrainTakes(length, found, view, n);
  }

  lemma {:induction false} DrainStep(length: Measure, found: seq<seq<Byte>>, message: seq<Byte>, rest: seq<Byte>)
    requires message != [] && length(message + rest) == Some(|message|)
    ensures Drain(length, found, message + rest) == Drain(length, found + [message], rest)
  {
    assert (message + rest)[..|message|] == message && (message + rest)[|message|..] == rest;
  }

  /** Draining what is there first, and the rest with what arrives later, comes to the same. */
  lemma {:induction false} DrainInTwo(length: Measure, found: seq<seq<Byte>>, a: seq<Byte>, b: seq<Byte>)
    requires PrefixStable(length)
    ensures var s := Drain(length, found, a);
            Drain(length, found, a + b) == Drain(length, s.found, s.pending + b)
    decreases |a|
  {
    if Ready(length, a) {
      var n := length(a).value;
      var message, others := a[..n], a[n..];
      assert Drain(length, found, a + b) == Drain(length, found + [message], others + b) by {
        assert length(a + b) == length(a);
        assert a + b == message + (others + b);
        DrainStep(length, found, message, others + b);
      }
      DrainInTwo(length, found + [message], others, b);
    }
  }

  /** Feeding chunk after chunk. */
  function Feed(length: Measure, s: State, chunks: seq<seq<Byte>>): State
    decreases |chunks|
  {
    if chunks == [] then s
    else Feed(length, Drain(length, s.found, s.pending + chunks[0]), chunks[1..])
  }

  /**
    Reassembly does not depend on how the stream was cut into chunks, whatever bytes it holds:
    feeding the chunks one by one finds the messages of the whole, and buffers what is left of it.
   */
  lemma {:induction false} ChunkingIsIrrelevant(length: Measure, s: State, chunks: seq<seq<Byte>>)
    requires PrefixStable(length) && !Ready(length, s.pending)
    ensures Feed(length, s, chunks) == Drain(length, s.found, s.pending + Concat(chunks))
    decreases |chunks|
  {
    if chunks == [] {
      assert s.pending + Concat(chunks) == s.pending;
    } else {
      var a, b := s.pending + chunks[0], Concat(chunks[1..]);
      assert s.pending + Concat(chunks) == a + b;
      LeftOverIsStuck(length, s.found, a);
      DrainInTwo(length, s.found, a, b);
      ChunkingIsIrrelevant(length, Drain(length, s.found, a), chunks[1..]);
    }
  }

  /** A message measured to be exactly as long as it is. */
  ghost predicate Complete(length: Measure, m: seq<Byte>) {
    m != [] && length(m) == Some(|m|)
  }

  ghost predicate AllComplete(length: Measure, ms: seq<seq<Byte>>) {
    forall i :: 0 <= i < |ms| ==> Complete(length, ms[i])
  }

  /** Complete messages are found one by one, and then whatever follows them is drained. */
  lemma {:induction false} DrainMessages(length: Measure, found: seq<seq<Byte>>, ms: seq<seq<Byte>>, tail: seq<Byte>)
    requires PrefixStable(length) && AllComplete(length, ms)
    ensures Drain(length, found, Concat(ms) + tail) == Drain(length, found + ms, tail)
    decreases |ms|
  {
    if ms == [] {
      assert Concat(ms) + tail == tail && found + ms == found;
    } else {
      var m, later := ms[0], Concat(ms[1..]) + tail;
      assert Drain(length, found, Concat(ms) + tail) == Drain(length, found + [m], later) by {
        assert Complete(length, m) && length(m + later) == length(m);
        assert Concat(ms) + tail == m + later;
        DrainStep(length, found, m, later);
      }
      DrainMessages(length, found + [m], ms[1..], tail);
      assert found + [m] + ms[1..] == found + ms;
    }
  }

  /**
    However a stream of complete messages and a piece of the next one is cut into chunks, exactly
    those messages are dispatched, and the buffer ends up holding exactly the unparsed piece.
   */
  lemma {:induction false} MessagesSurviveChunking(
    length: Measure, ms: seq<seq<Byte>>, piece: seq<Byte>, chunks: seq<seq<Byte>>)
    requires PrefixStable(length) && AllComplete(length, ms) && !Ready(length, piece)
    requires Concat(chunks) == Concat(ms) + piece
    ensures Feed(length, State([], []), chunks) == State(ms, piece)
  {
    ChunkingIsIrrelevant(length, State([], []), chunks);
    assert [] + Concat(chunks) == Concat(ms) + piece;
    DrainMessages(length, [], ms, piece);
    assert [] + ms == ms;
  }
}

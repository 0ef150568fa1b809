/**
  Persistent zlib streams. The compressor and the decompressor are abstract functions of everything
  they were given before; all that is known of them is that one undoes the other.
 */
module Zlib {
  import opened Bytes

  datatype Codec = Codec(
    /** The two bytes in front of the first chunk. */
    header: seq<Byte>,
    /** What `Write` and `Flush` emit for a chunk, after the chunks flushed before it. */
    deflate: (seq<seq<Byte>>, seq<Byte>) -> seq<Byte>,
    /** The pieces the inflater hands out for an input, after the inputs pushed before it. */
    inflate: (seq<seq<Byte>>, seq<Byte>) -> seq<seq<Byte>>,
    /** How many of those bytes are out before the flush, when only so much of the chunk has been written. */
    early: (seq<seq<Byte>>, seq<Byte>) -> nat)
  {
    /** The compressed form of a whole history of chunks. */
    function Deflated(history: seq<seq<Byte>>): (r: seq<seq<Byte>>)
      ensures |r| == |history|
    {
      if history == [] then []
      else
        var before := history[..|history| - 1];
        Deflated(before) + [deflate(before, history[|history| - 1])]
    }

    /** With the same history on both sides, inflating gives back what was deflated. Nothing comes of nothing. */
    ghost predicate Inverts() {
      && |header| == 2
      && (forall history: seq<seq<Byte>> :: early(history, []) == 0)
      && forall history: seq<seq<Byte>>, chunk: seq<Byte> ::
           Concat(inflate(Deflated(history), deflate(history, chunk))) == chunk
    }

    /** The bytes a flush puts on the wire. */
    function Emitted(history: seq<seq<Byte>>, chunk: seq<Byte>): seq<Byte> {
      (if history == [] then header else []) + deflate(history, chunk)
    }

    /** What is left of them when the buffer was emptied after `left` had been written, and then `chunk` was. */
    function Sent(history: seq<seq<Byte>>, left: seq<Byte>, chunk: seq<Byte>): seq<Byte> {
      Skip(Emitted(history, left + chunk), early(history, left))
    }
  }

  /** `subarray(2)` on the first push. */
  function Stripped(first: bool, compressed: seq<Byte>): seq<Byte> {
    if first then Skip(compressed, 2) else compressed
  }

  /** A decompressor that is in step stays in step, and returns the chunk that was compressed. */
  lemma {:induction false} StaysInStep(codec: Codec, history: seq<seq<Byte>>, chunk: seq<Byte>)
    requires codec.Inverts()
    ensures var input := Stripped(history == [], codec.Emitted(history, chunk));
            && Concat(codec.inflate(codec.Deflated(history), input)) == chunk
            && codec.Deflated(history + [chunk]) == codec.Deflated(history) + [input]
  {
    var input := Stripped(history == [], codec.Emitted(history, chunk));
    assert input == codec.deflate(history, chunk);
    assert (history + [chunk])[..|history|] == history;
  }

  /** A codec that stores its chunks. */
  const STORING := Codec([0x78, 0x9c], (history, chunk) => chunk, (history, input) => [input], (history, chunk) => 0)

  /** It satisfies the assumption. */
  lemma {:induction false} StoringInverts()
    ensures STORING.Inverts()
  {
    forall history: seq<seq<Byte>>, chunk: seq<Byte>
      ensures Concat(STORING.inflate(STORING.Deflated(history), STORING.deflate(history, chunk))) == chunk
    {
      ConcatOne(chunk);
    }
  }

  /** `zlib.Writer` with its buffer. */
  class Writer {
    const codec: Codec
    /** The chunks flushed so far, and what was written since. */
    var history: seq<seq<Byte>>
    var pending: seq<Byte>
    /** What had been written when the buffer was last emptied. */
    var left: seq<Byte>

    constructor (codec: Codec)
      ensures this.codec == codec && history == [] && pending == [] && left == []
    {
      this.codec := codec;
      history, pending, left := [], [], [];
    }

    /** Empties the buffer; what the compressor has put there before its flush is lost. */
    method ResetBuffer()
      modifies this`left
      ensures left == pending
    {
      left := pending;
    }

    method Write(bytes: seq<Byte>)
      modifies this`pending
      ensures pending == old(pending) + bytes
    {
      pending := pending + bytes;
    }

    /** The buffer after the flush. */
    method Flush() returns (compressed: seq<Byte>)
      modifies this
      ensures compressed == Skip(codec.Emitted(old(history), old(pending)), codec.early(old(history), old(left)))
      ensures history == old(history) + [old(pending)] && pending == [] && left == []
    {
      compressed := Skip(codec.Emitted(history, pending), codec.early(history, left));
      history := history + [pending];
      pending, left := [], [];
    }
  }

  /** The browser's wrapper around its streaming inflater. */
  class Reader {
    const codec: Codec
    /** The inputs pushed so far. */
    var history: seq<seq<Byte>>
    var firstPush: bool

    constructor (codec: Codec)
      ensures this.codec == codec && history == [] && firstPush
    {
      this.codec := codec;
      history, firstPush := [], true;
    }

    /** All pieces of the output, joined. */
    method Decompress(compressed: seq<Byte>) returns (plain: seq<Byte>)
      modifies this
      ensures var input := Stripped(old(firstPush), compressed);
              && plain == Concat(codec.inflate(old(history), input))
              && history == old(history) + [input] && !firstPush
    {
      var input := compressed;
      if firstPush {
        input := Skip(compressed, 2);
        firstPush := false;
      }
      var chunks := codec.inflate(history, input);
      history := history + [input];
      if |chunks| == 1 {
        ConcatOne(chunks[0]);
        assert chunks == [chunks[0]];
        return chunks[0];
      }
      plain := [];
      for i := 0 to |chunks|
        modifies {}
        invariant plain == Concat(chunks[..i])
      {
        assert chunks[..i + 1] == chunks[..i] + [chunks[i]];
        ConcatAppend(chunks[..i], [chunks[i]]);
        ConcatOne(chunks[i]);
        plain := plain + chunks[i];
      }
      assert chunks[..|chunks|] == chunks;
    }
  }

  /** The reader has been given exactly what the writer has flushed. */
  ghost predicate InStep(codec: Codec, flushed: seq<seq<Byte>>, pushed: seq<seq<Byte>>, firstPush: bool) {
    pushed == codec.Deflated(flushed) && (firstPush <==> flushed == [])
  }
}

/**
  The Tight compact length: 7 bits, 7 bits, then a whole byte. One encoder and four decoders
  (the Go client, the proxy's re-framer, and the browser's bounds-checked and unchecked readers)
  meet in `LengthAt`. Masks and shifts are written as remainders, quotients and products; the operands
  of every `|` have no bit in common, so it is a sum.
 */
module CompactLength {
  import opened Bytes
  import opened Streams

  const LIMIT: nat := 0x40_0000

  function Encode(n: nat): (r: seq<Byte>)
    ensures 1 <= |r| <= 3
  {
    if n < 128 then [n % 256]
    else if n < 16384 then [n % 128 + 128, n / 128 % 256]
    else [n % 128 + 128, n / 128 % 128 + 128, n / 16384 % 256]
  }

  /** The length at offset `i` and the number of bytes it takes; `None` when `s` ends inside it. */
  function LengthAt(s: seq<Byte>, i: nat): (r: Option<(nat, nat)>)
    ensures r.Some? ==> 1 <= r.value.1 <= 3 && i + r.value.1 <= |s|
  {
    if i >= |s| then None
    else if s[i] < 128 then Some((s[i], 1))
    else if i + 1 >= |s| then None
    else if s[i + 1] < 128 then Some((s[i] % 128 + (s[i + 1] as int) * 128, 2))
    else if i + 2 >= |s| then None
    else Some((s[i] % 128 + (s[i + 1] as int) % 128 * 128 + (s[i + 2] as int) * 16384, 3))
  }

  /** The round trip holds for exactly the lengths below 2^22, whatever stands around them. */
  lemma {:induction false} RoundTrip(n: nat, s: seq<Byte>, i: nat)
    requires Sits(s, i, Encode(n))
    ensures LengthAt(s, i) == Some((n, |Encode(n)|)) <==> n < LIMIT
  {
    var e := Encode(n);
    assert s[i] == e[0] && (|e| > 1 ==> s[i + 1] == e[1]) && (|e| > 2 ==> s[i + 2] == e[2]);
    Digits(n);
  }

  /** Seven bits first, then seven, then the rest; the high bit of a byte announces another. */
  lemma {:induction false} KnownLengths()
    ensures Encode(127) == [127] && Encode(128) == [0x80, 0x01] && Encode(10000) == [0x90, 0x4E]
    ensures Encode(16383) == [0xFF, 0x7F] && Encode(16384) == [0x80, 0x80, 0x01] && Encode(0x3F_FFFF) == [0xFF, 0xFF, 0xFF]
  {
  }

  lemma {:induction false} Digits(n: nat)
    ensures n == n % 128 + n / 128 % 128 * 128 + n / 16384 * 16384
    ensures n / 16384 % 256 == n / 16384 <==> n < LIMIT
    ensures n < 16384 ==> n / 128 < 128
  {
    assert n / 128 / 128 == n / 16384;
  }

  /** The Go client's reader. */
  method ReadClient(br: BufReader) returns (r: Option<nat>)
    requires br.Valid()
    modifies br
    ensures br.Valid()
    ensures var length := LengthAt(br.data, old(br.pos));
            if length.Some? then r == Some(length.value.0) && br.pos == old(br.pos) + length.value.1
            else r.None? && br.pos == |br.data|
  {
    var b := br.ReadFull(1);
    if b.None? { return None; }
    var n: nat := b.value[0] % 128;
    if b.value[0] < 128 { return Some(n); }
    b := br.ReadFull(1);
    if b.None? { return None; }
    n := n + (b.value[0] as int) % 128 * 128;
    if b.value[0] < 128 { return Some(n); }
    b := br.ReadFull(1);
    if b.None? { return None; }
    n := n + (b.value[0] as int) * 16384;
    return Some(n);
  }

  /** The browser's bounds-checked reader: a length and the number of bytes it took, or null. */
  method TryRead(view: seq<Byte>, offset: nat) returns (r: Option<(nat, nat)>)
    ensures r == LengthAt(view, offset)
  {
    if offset >= |view| { return None; }
    var length: nat, bytesRead := view[offset] % 128, 1;
    if view[offset] >= 128 {
      if offset + 1 >= |view| { return None; }
      length := length + (view[offset + 1] as int) % 128 * 128;
      bytesRead := 2;
      if view[offset + 1] >= 128 {
        if offset + 2 >= |view| { return None; }
        length := length + (view[offset + 2] as int) * 16384;
        bytesRead := 3;
      }
    }
    return Some((length, bytesRead));
  }

  /** The browser's unchecked reader, on data that holds a whole length. */
  method Read(data: seq<Byte>, offset: nat) returns (length: nat, bytesRead: nat)
    requires LengthAt(data, offset).Some?
    ensures LengthAt(data, offset) == Some((length, bytesRead))
  {
    length := data[offset] % 128;
    bytesRead := 1;
    if data[offset] >= 128 {
      length := length + (data[offset + 1] as int) % 128 * 128;
      bytesRead := 2;
      if data[offset + 1] >= 128 {
        length := length + (data[offset + 2] as int) * 16384;
        bytesRead := 3;
      }
    }
  }
}

/** Palette indices of 1, 2 or 4 bits, packed from the high bits down, each row padded to whole bytes. */
module PackedIndices {
  import opened Bytes
  import opened Bits

  predicate IsWidth(bits: nat) {
    bits == 1 || bits == 2 || bits == 4
  }

  /** The widths both sides choose for a palette of `n` colours. */
  function WidthFor(n: nat): (bits: nat)
    ensures IsWidth(bits) && (n <= 16 ==> n <= Shl(1, bits))
  {
    if n == 2 then 1 else if n <= 4 then 2 else 4
  }

  /** The bit where the index of column `c` starts. */
  function BitPos(c: nat, bits: nat): nat
    requires IsWidth(bits)
  {
    if bits == 1 then c else if bits == 2 then 2 * c else 4 * c
  }

  function RowBytes(w: nat, bits: nat): nat
    requires IsWidth(bits)
  {
    (BitPos(w, bits) + 7) / 8
  }

  /** The width is the least of the three that gives every colour an index, and a row has no byte too many. */
  lemma {:induction false} LeastWidth(n: nat, w: nat)
    requires 2 <= n <= 16
    ensures WidthFor(n) == if n <= 2 then 1 else if n <= 4 then 2 else 4
    ensures w * WidthFor(n) <= 8 * RowBytes(w, WidthFor(n)) < w * WidthFor(n) + 8
  {
  }

  /** How far the byte of column `c` is shifted down to bring its index to the bottom. */
  function ShiftOf(c: nat, bits: nat): nat
    requires IsWidth(bits)
  {
    8 - bits - BitPos(c, bits) % 8
  }

  /** The bits of a byte from `shift` on, under a mask. */
  function Field(byte: nat, shift: nat, bits: nat): nat
    requires IsWidth(bits)
  {
    And(Shr(byte, shift), Shl(1, bits) - 1)
  }

  /** The index of column `c` in a row that starts at offset `row`. */
  function IndexAt(data: seq<Byte>, row: nat, bits: nat, c: nat): nat
    requires IsWidth(bits)
  {
    Field(Get(data, row + BitPos(c, bits) / 8), ShiftOf(c, bits), bits)
  }

  /** Reads the index of a column from the row at an offset. */
  type IndexRead = (seq<Byte>, nat, nat) -> nat

  function IndexReader(bits: nat): IndexRead
    requires IsWidth(bits)
  {
    (data: seq<Byte>, row: nat, c: nat) => IndexAt(data, row, bits, c)
  }

  /** A row of packed bytes from which every index can be read back. */
  ghost predicate RowPacked(bytes: seq<Byte>, bits: nat, w: nat, want: nat -> nat)
    requires IsWidth(bits)
  {
    |bytes| == RowBytes(w, bits) && forall c: nat :: c < w ==> IndexAt(bytes, 0, bits, c) == want(c)
  }

  /**
    Between two columns: the whole bytes are done, and the byte being filled holds the indices since,
    the last one at the bottom.
   */
  ghost predicate Packing(bytes: seq<Byte>, current: nat, used: nat, bits: nat, col: nat, want: nat -> nat)
    requires IsWidth(bits)
  {
    && used < 8 && BitPos(col, bits) == 8 * |bytes| + used && current < Shl(1, used)
    && forall c: nat :: c < col ==> Kept(bytes, current, used, bits, c, want(c))
  }

  ghost predicate Kept(bytes: seq<Byte>, current: nat, used: nat, bits: nat, c: nat, index: nat)
    requires IsWidth(bits)
  {
    if BitPos(c, bits) / 8 < |bytes| then IndexAt(bytes, 0, bits, c) == index
    else
      var under := 8 * |bytes| + used - BitPos(c, bits) - bits;
      under >= 0 && Field(current, under, bits) == index
  }

  /** Pushing `k` bits in below moves every field up by `k`. */
  lemma {:induction false} FieldMovesUp(n: nat, k: nat, d: nat, shift: nat, bits: nat)
    requires IsWidth(bits) && d < Shl(1, k)
    ensures Field(Or(Shl(n, k), d), shift + k, bits) == Field(n, shift, bits)
  {
    OrAdds(n, k, d);
    ShrTwice(Or(Shl(n, k), d), k, shift);
  }

  lemma {:induction false} FieldAtBottom(n: nat, d: nat, bits: nat)
    requires IsWidth(bits) && d < Shl(1, bits)
    ensures Field(Or(Shl(n, bits), d), 0, bits) == d
  {
    OrAdds(n, bits, d);
    AndLow(Shl(n, bits) + d, bits);
    LowBelow(n, bits, d);
  }

  lemma {:induction false} ShlGrows(n: nat, m: nat, k: nat, d: nat)
    requires n < m && d < Shl(1, k)
    ensures Shl(n, k) + d < Shl(m, k)
    decreases k
  {
    if k > 0 { ShlGrows(n, m, k - 1, d / 2); }
  }

  lemma {:induction false} ByteRange(current: nat, used: nat)
    requires used <= 8 && current < Shl(1, used)
    ensures current < 256
  {
    assert Shl(1, 8) == 2 * Shl(1, 7) && Shl(1, 7) == 2 * Shl(1, 6) && Shl(1, 6) == 2 * Shl(1, 5);
    assert Shl(1, 5) == 2 * Shl(1, 4) && Shl(1, 4) == 16;
    ShlTwice(1, used, 8 - used);
    ShlAtLeast(Shl(1, used), 8 - used);
  }

  lemma {:induction false} ShlAtLeast(n: nat, k: nat)
    ensures Shl(n, k) >= n
    decreases k
  {
    if k > 0 { ShlAtLeast(n, k - 1); }
  }

  /** The byte after one more index has been moved in from the right. */
  function Push(current: nat, bits: nat, index: nat): nat {
    Or(Shl(current, bits), index)
  }

  /** Pushing one index keeps the earlier ones and adds the new one; eight bits make a whole byte. */
  lemma {:induction false} PushKept(
    bytes: seq<Byte>, current: nat, used: nat, bits: nat, col: nat, want: nat -> nat, c: nat)
    requires IsWidth(bits) && Packing(bytes, current, used, bits, col, want) && c <= col
    requires want(col) < Shl(1, bits)
    ensures Kept(bytes, Push(current, bits, want(col)), used + bits, bits, c, want(c))
  {
    if c < col {
      assert Kept(bytes, current, used, bits, c, want(c));
      if BitPos(c, bits) / 8 >= |bytes| {
        FieldMovesUp(current, bits, want(col), 8 * |bytes| + used - BitPos(c, bits) - bits, bits);
      }
    } else {
      FieldAtBottom(current, want(col), bits);
    }
  }

  lemma {:induction false} PushRange(current: nat, used: nat, bits: nat, index: nat)
    requires current < Shl(1, used) && index < Shl(1, bits) && used + bits <= 8
    ensures Push(current, bits, index) < Shl(1, used + bits) && Push(current, bits, index) < 256
  {
    OrAdds(current, bits, index);
    ShlGrows(current, Shl(1, used), bits, index);
    ShlTwice(1, used, bits);
    ByteRange(Push(current, bits, index), used + bits);
  }

  /** A byte that is full goes behind the whole ones. */
  lemma {:induction false} WholeByte(bytes: seq<Byte>, current: Byte, bits: nat, c: nat, index: nat)
    requires IsWidth(bits) && BitPos(c, bits) / 8 <= |bytes| && Kept(bytes, current, 8, bits, c, index)
    ensures Kept(bytes + [current], 0, 0, bits, c, index)
  {
    var all := bytes + [current];
    var j := BitPos(c, bits) / 8;
    assert Get(all, j) == if j < |bytes| then Get(bytes, j) else current;
  }

  /** At the end of the row the byte being filled is moved up to the high bits. */
  lemma {:induction false} PaddedByte(bytes: seq<Byte>, current: nat, used: nat, bits: nat, c: nat, index: nat)
    requires IsWidth(bits) && used <= 8 && Kept(bytes, current, used, bits, c, index)
    ensures Kept(bytes, Shl(current, 8 - used), 8, bits, c, index)
  {
    if BitPos(c, bits) / 8 >= |bytes| {
      ShlAtLeast(1, 8 - used);
      OrAdds(current, 8 - used, 0);
      FieldMovesUp(current, 8 - used, 0, 8 * |bytes| + used - BitPos(c, bits) - bits, bits);
      assert Or(Shl(current, 8 - used), 0) == Shl(current, 8 - used);
    }
  }

  /** One turn of the column loop. */
  lemma {:induction false} PackStep(bytes: seq<Byte>, current: nat, used: nat, bits: nat, col: nat, want: nat -> nat)
    requires IsWidth(bits) && Packing(bytes, current, used, bits, col, want) && want(col) < Shl(1, bits)
    ensures used + bits <= 8 && Push(current, bits, want(col)) < 256
    ensures var next := Push(current, bits, want(col));
            if used + bits == 8 then Packing(bytes + [next], 0, 0, bits, col + 1, want)
            else Packing(bytes, next, used + bits, bits, col + 1, want)
  {
    var next := Push(current, bits, want(col));
    PushRange(current, used, bits, want(col));
    forall c: nat | c < col + 1
      ensures Kept(bytes, next, used + bits, bits, c, want(c))
      ensures used + bits == 8 ==> Kept(bytes + [next], 0, 0, bits, c, want(c))
    {
      PushKept(bytes, current, used, bits, col, want, c);
      if used + bits == 8 { WholeByte(bytes, next, bits, c, want(c)); }
    }
  }

  /** The end of the row: a byte that holds anything is padded and written. */
  lemma {:induction false} PackEnd(bytes: seq<Byte>, current: nat, used: nat, bits: nat, w: nat, want: nat -> nat)
    requires IsWidth(bits) && Packing(bytes, current, used, bits, w, want)
    ensures Shl(current, 8 - used) < 256
    ensures RowPacked(if used > 0 then bytes + [Shl(current, 8 - used)] else bytes, bits, w, want)
  {
    var last := Shl(current, 8 - used);
    ShlAtLeast(1, 8 - used);
    ShlGrows(current, Shl(1, used), 8 - used, 0);
    ShlTwice(1, used, 8 - used);
    ByteRange(last, 8);
    forall c: nat | c < w
      ensures IndexAt(if used > 0 then bytes + [last] else bytes, 0, bits, c) == want(c)
    {
      assert Kept(bytes, current, used, bits, c, want(c));
      if used > 0 {
        PaddedByte(bytes, current, used, bits, c, want(c));
        WholeByte(bytes, last, bits, c, want(c));
      }
    }
  }
}

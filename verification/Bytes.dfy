/** Bytes, big-endian integers and the few sequence facts the codecs share. */
module Bytes {

  type Byte = x: int | 0 <= x < 256

  /** The first `n` bytes, or all of them when fewer are left. */
  function Take(s: seq<Byte>, n: nat): seq<Byte> {
    if n <= |s| then s[..n] else s
  }

  /** What is left after `n` bytes; nothing when fewer are left. */
  function Skip(s: seq<Byte>, n: nat): seq<Byte> {
    if n <= |s| then s[n..] else []
  }

  /** A typed-array read: reading past the end gives `undefined`, which every use here turns into 0. */
  function Get(s: seq<Byte>, i: nat): Byte {
    if i < |s| then s[i] else 0
  }

  /** `part` stands in `s` at offset `i`. */
  ghost predicate Sits(s: seq<Byte>, i: nat, part: seq<Byte>) {
    i + |part| <= |s| && forall k :: 0 <= k < |part| ==> part[k] == s[i + k]
  }

  /** The parts of something that sits at `i` sit one after the other. */
  lemma {:induction false} SitsSplit(s: seq<Byte>, i: nat, a: seq<Byte>, b: seq<Byte>)
    ensures Sits(s, i, a + b) <==> Sits(s, i, a) && Sits(s, i + |a|, b)
  {
    var ab := a + b;
    if Sits(s, i, ab) {
      forall k | 0 <= k < |a| ensures a[k] == s[i + k] { assert ab[k] == a[k]; }
      forall k | 0 <= k < |b| ensures b[k] == s[i + |a| + k] { assert ab[|a| + k] == b[k]; }
    }
    if Sits(s, i, a) && Sits(s, i + |a|, b) {
      forall k | 0 <= k < |ab| ensures ab[k] == s[i + k] {
        assert ab[k] == if k < |a| then a[k] else b[k - |a|];
      }
    }
  }

  lemma {:induction false} SitsAtHead(part: seq<Byte>, rest: seq<Byte>)
    ensures Sits(part + rest, 0, part)
  {
  }

  /** The byte of `n` with weight 256^k. */
  function Digit(n: nat, k: nat): Byte
    decreases n, k
  {
    if k == 0 then n % 256 else Digit(n / 256, k - 1)
  }

  function BigEndian(n: nat, size: nat): (r: seq<Byte>)
    ensures |r| == size
  {
    seq(size, i requires 0 <= i < size => Digit(n, size - 1 - i))
  }

  function Be16(n: nat): (r: seq<Byte>)
    ensures |r| == 2
  {
    BigEndian(n, 2)
  }

  function Be32(n: nat): (r: seq<Byte>)
    ensures |r| == 4
  {
    BigEndian(n, 4)
  }

  /** The 16-bit integer at offset `i`. */
  function Be16At(s: seq<Byte>, i: nat): (n: nat)
    requires i + 2 <= |s|
    ensures n < 0x1_0000
  {
    (s[i] as int) * 256 + s[i + 1]
  }

  function Be32At(s: seq<Byte>, i: nat): (n: nat)
    requires i + 4 <= |s|
    ensures n < 0x1_0000_0000
  {
    (s[i] as int) * 0x100_0000 + (s[i + 1] as int) * 0x1_0000 + (s[i + 2] as int) * 256 + s[i + 3]
  }

  /** The most significant byte comes first. */
  lemma {:induction false} MostSignificantFirst(n: nat)
    ensures Be16(n)[0] == n / 256 % 256 && Be16(n)[1] == n % 256
    ensures Be32(n)[3] == n % 256 && Be32(n)[2] == n / 256 % 256 && Be32(n)[1] == n / 256 / 256 % 256
    ensures Be32(n)[0] == n / 256 / 256 / 256 % 256
  {
    DigitStep(n, 0);
    DigitStep(n, 1);
    DigitStep(n, 2);
    DigitStep(n / 256, 0);
    DigitStep(n / 256, 1);
    DigitStep(n / 256 / 256, 0);
  }

  /** Writing a 16-bit integer keeps its low 16 bits, and reading brings them back. */
  lemma {:induction false} ReadWriteBe16(n: nat, s: seq<Byte>, i: nat)
    requires Sits(s, i, Be16(n))
    ensures Be16At(s, i) == n % 0x1_0000
  {
    var w := Be16(n);
    assert s[i] == w[0] == Digit(n, 1) && s[i + 1] == w[1] == Digit(n, 0);
    Digits16(n);
  }

  lemma {:induction false} ReadWriteBe32(n: nat, s: seq<Byte>, i: nat)
    requires Sits(s, i, Be32(n))
    ensures Be32At(s, i) == n % 0x1_0000_0000
  {
    var w := Be32(n);
    assert s[i] == w[0] == Digit(n, 3) && s[i + 1] == w[1] == Digit(n, 2);
    assert s[i + 2] == w[2] == Digit(n, 1) && s[i + 3] == w[3] == Digit(n, 0);
    Digits32(n);
  }

  function Le16At(s: seq<Byte>, i: nat): nat
    requires i + 2 <= |s|
  {
    (s[i + 1] as int) * 256 + s[i]
  }

  function Le32At(s: seq<Byte>, i: nat): nat
    requires i + 4 <= |s|
  {
    (s[i + 3] as int) * 0x100_0000 + (s[i + 2] as int) * 0x1_0000 + (s[i + 1] as int) * 256 + s[i]
  }

  function Le16(n: nat): (r: seq<Byte>)
    ensures |r| == 2
  {
    [Digit(n, 0), Digit(n, 1)]
  }

  function Le32(n: nat): (r: seq<Byte>)
    ensures |r| == 4
  {
    [Digit(n, 0), Digit(n, 1), Digit(n, 2), Digit(n, 3)]
  }

  lemma {:induction false} DigitStep(n: nat, k: nat)
    ensures Digit(n, k + 1) == Digit(n / 256, k)
  {
  }

  lemma {:induction false} Split16(n: nat)
    ensures n % 0x1_0000 == n / 256 % 256 * 256 + n % 256
  {
  }

  lemma {:induction false} Split32(n: nat)
    ensures n % 0x1_0000_0000 == n / 256 / 256 % 0x1_0000 * 0x1_0000 + n % 0x1_0000
  {
    HalfWord(n);
    var q := n / 0x1_0000;
    LowWord(n, q / 0x1_0000, q % 0x1_0000 * 0x1_0000 + n % 0x1_0000);
  }

  lemma {:induction false} HalfWord(n: nat)
    ensures n / 256 / 256 == n / 0x1_0000
  {
  }

  lemma {:induction false} LowWord(n: nat, high: nat, low: nat)
    requires n == high * 0x1_0000_0000 + low && low < 0x1_0000_0000
    ensures n % 0x1_0000_0000 == low
  {
  }

  lemma {:induction false} Digits16(n: nat)
    ensures n % 0x1_0000 == (Digit(n, 1) as int) * 256 + Digit(n, 0)
  {
    DigitStep(n, 0);
    Split16(n);
  }

  lemma {:induction false} Digits32(n: nat)
    ensures n % 0x1_0000_0000 ==
            (Digit(n, 3) as int) * 0x100_0000 + (Digit(n, 2) as int) * 0x1_0000 + (Digit(n, 1) as int) * 256 + Digit(n, 0)
  {
    DigitStep(n, 2);
    DigitStep(n, 1);
    DigitStep(n / 256, 1);
    DigitStep(n / 256, 0);
    Digits16(n);
    Digits16(n / 256 / 256);
    Split32(n);
  }

  /** The concatenation of a list of byte strings. */
  function Concat(parts: seq<seq<Byte>>): seq<Byte> {
    if parts == [] then [] else parts[0] + Concat(parts[1..])
  }

  lemma {:induction false} ConcatAppend(a: seq<seq<Byte>>, b: seq<seq<Byte>>)
    ensures Concat(a + b) == Concat(a) + Concat(b)
  {
    if a == [] {
      assert a + b == b;
    } else {
      assert (a + b)[1..] == a[1..] + b;
      ConcatAppend(a[1..], b);
    }
  }

  /** The first part sits at the front, the others behind it. */
  lemma {:induction false} ConcatSits(s: seq<Byte>, i: nat, parts: seq<seq<Byte>>)
    requires parts != [] && Sits(s, i, Concat(parts))
    ensures Sits(s, i, parts[0]) && Sits(s, i + |parts[0]|, Concat(parts[1..]))
    ensures |Concat(parts)| == |parts[0]| + |Concat(parts[1..])|
  {
    SitsSplit(s, i, parts[0], Concat(parts[1..]));
  }

  lemma {:induction false} ConcatOne(a: seq<Byte>)
    ensures Concat([a]) == a
  {
    assert [a][1..] == [];
  }

  /** i * size, the offset of item `i` among items of one size. */
  function At(i: nat, size: nat): nat {
    if i == 0 then 0 else At(i - 1, size) + size
  }

  lemma {:induction false} AtIsProduct(i: nat, size: nat)
    ensures At(i, size) == i * size
  {
    if i > 0 {
      AtIsProduct(i - 1, size);
      assert i * size == (i - 1) * size + size;
    }
  }

  lemma {:induction false} AtGrows(i: nat, n: nat, size: nat)
    requires i < n
    ensures At(i + 1, size) == At(i, size) + size <= At(n, size)
    decreases n
  {
    if i < n - 1 { AtGrows(i, n - 1, size); }
  }

  /** Items 0 to n - 1 in a row. */
  function Joined(item: nat -> seq<Byte>, n: nat): seq<Byte> {
    if n == 0 then [] else Joined(item, n - 1) + item(n - 1)
  }

  ghost predicate Sized(item: nat -> seq<Byte>, size: nat) {
    forall i: nat :: |item(i)| == size
  }

  lemma {:induction false} JoinedSize(item: nat -> seq<Byte>, size: nat, n: nat)
    requires Sized(item, size)
    ensures |Joined(item, n)| == At(n, size)
  {
    if n > 0 { JoinedSize(item, size, n - 1); }
  }

  /** Item `i` sits at offset i * size. */
  lemma {:induction false} JoinedSits(item: nat -> seq<Byte>, size: nat, n: nat, i: nat)
    requires Sized(item, size) && i < n
    ensures Sits(Joined(item, n), At(i, size), item(i))
    decreases n
  {
    JoinedSize(item, size, n - 1);
    var before, last := Joined(item, n - 1), item(n - 1);
    if i < n - 1 {
      JoinedSits(item, size, n - 1, i);
      SitsInFirst(before, last, At(i, size), item(i));
    } else {
      SitsLast(before, last);
    }
  }

  lemma {:induction false} SitsInFirst(a: seq<Byte>, b: seq<Byte>, i: nat, part: seq<Byte>)
    requires Sits(a, i, part)
    ensures Sits(a + b, i, part)
  {
  }

  lemma {:induction false} SitsLast(a: seq<Byte>, b: seq<Byte>)
    ensures Sits(a + b, |a|, b)
  {
  }
}

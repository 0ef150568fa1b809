/** The unsigned bit operations of the pixel arithmetic, on natural numbers of any width. */
module Bits {

  function Bit(n: nat, i: nat): bool
    decreases i
  {
    if i == 0 then n % 2 == 1 else Bit(n / 2, i - 1)
  }

  function And(a: nat, b: nat): nat {
    if a == 0 || b == 0 then 0 else 2 * And(a / 2, b / 2) + (if a % 2 == 1 && b % 2 == 1 then 1 else 0)
  }

  function Or(a: nat, b: nat): nat {
    if a == 0 then b else if b == 0 then a
    else 2 * Or(a / 2, b / 2) + (if a % 2 == 1 || b % 2 == 1 then 1 else 0)
  }

  function Shl(n: nat, k: nat): nat
    decreases k
  {
    if k == 0 then n else 2 * Shl(n, k - 1)
  }

  function Shr(n: nat, k: nat): nat
    decreases k
  {
    if k == 0 then n else Shr(n / 2, k - 1)
  }

  /** The low `k` bits: conversion to a `k`-bit unsigned integer. */
  function Low(n: nat, k: nat): nat
    decreases k
  {
    if k == 0 then 0 else 2 * Low(n / 2, k - 1) + n % 2
  }

  lemma {:induction false} ZeroBit(i: nat)
    ensures !Bit(0, i)
    decreases i
  {
    if i > 0 { ZeroBit(i - 1); }
  }

  lemma {:induction false} ConsBit(x: nat, c: nat, i: nat)
    requires c < 2
    ensures Bit(2 * x + c, i) == if i == 0 then c == 1 else Bit(x, i - 1)
  {
  }

  lemma {:induction false} AndBit(a: nat, b: nat, i: nat)
    ensures Bit(And(a, b), i) == (Bit(a, i) && Bit(b, i))
    decreases i
  {
    if a == 0 || b == 0 {
      ZeroBit(i);
    } else if i > 0 {
      ConsBit(And(a / 2, b / 2), if a % 2 == 1 && b % 2 == 1 then 1 else 0, i);
      AndBit(a / 2, b / 2, i - 1);
    }
  }

  lemma {:induction false} OrBit(a: nat, b: nat, i: nat)
    ensures Bit(Or(a, b), i) == (Bit(a, i) || Bit(b, i))
    decreases i
  {
    if a == 0 || b == 0 {
      ZeroBit(i);
    } else if i > 0 {
      ConsBit(Or(a / 2, b / 2), if a % 2 == 1 || b % 2 == 1 then 1 else 0, i);
      OrBit(a / 2, b / 2, i - 1);
    }
  }

  lemma {:induction false} ShlBit(n: nat, k: nat, i: nat)
    ensures Bit(Shl(n, k), i) == (i >= k && Bit(n, i - k))
    decreases k
  {
    if k > 0 {
      assert Shl(n, k) / 2 == Shl(n, k - 1);
      if i > 0 { ShlBit(n, k - 1, i - 1); }
    }
  }

  lemma {:induction false} ShrBit(n: nat, k: nat, i: nat)
    ensures Bit(Shr(n, k), i) == Bit(n, i + k)
    decreases k
  {
    if k > 0 { ShrBit(n / 2, k - 1, i); }
  }

  lemma {:induction false} LowBit(n: nat, k: nat, i: nat)
    ensures Bit(Low(n, k), i) == (i < k && Bit(n, i))
    decreases k
  {
    if k == 0 {
      ZeroBit(i);
    } else if i > 0 {
      assert Low(n, k) / 2 == Low(n / 2, k - 1);
      LowBit(n / 2, k - 1, i - 1);
    }
  }

  lemma {:induction false} ShlTwice(n: nat, j: nat, k: nat)
    ensures Shl(n, j + k) == Shl(Shl(n, j), k)
    decreases k
  {
    if k > 0 { ShlTwice(n, j, k - 1); }
  }

  lemma {:induction false} ShrTwice(n: nat, j: nat, k: nat)
    ensures Shr(n, j + k) == Shr(Shr(n, j), k)
    decreases j
  {
    if j > 0 { ShrTwice(n / 2, j - 1, k); }
  }

  /** The low bits below a shifted number are kept apart from it. */
  lemma {:induction false} OrAdds(n: nat, k: nat, d: nat)
    requires d < Shl(1, k)
    ensures Or(Shl(n, k), d) == Shl(n, k) + d && Shr(Shl(n, k) + d, k) == n
    decreases k
  {
    if k > 0 {
      OrAdds(n, k - 1, d / 2);
      assert Shl(n, k) / 2 == Shl(n, k - 1);
      assert (Shl(n, k) + d) / 2 == Shl(n, k - 1) + d / 2;
    }
  }

  lemma {:induction false} AndLow(n: nat, k: nat)
    ensures Shl(1, k) > 0 && And(n, Shl(1, k) - 1) == Low(n, k)
    decreases k
  {
    if k > 0 {
      AndLow(n / 2, k - 1);
      assert (Shl(1, k) - 1) / 2 == Shl(1, k - 1) - 1;
      if n == 0 { LowZero(k); }
      if k == 1 { assert Low(n / 2, 0) == 0; }
    }
  }

  lemma {:induction false} LowZero(k: nat)
    ensures Low(0, k) == 0
    decreases k
  {
    if k > 0 { LowZero(k - 1); }
  }

  lemma {:induction false} LowBelow(n: nat, k: nat, d: nat)
    requires d < Shl(1, k)
    ensures Low(Shl(n, k) + d, k) == d
    decreases k
  {
    if k > 0 {
      LowBelow(n, k - 1, d / 2);
      assert (Shl(n, k) + d) / 2 == Shl(n, k - 1) + d / 2;
      assert (Shl(n, k) + d) % 2 == d % 2;
    }
  }

  lemma {:induction false} ShrByte(n: nat)
    ensures Shr(n, 8) == n / 256
  {
    assert Shr(n, 8) == Shr(n / 2, 7) == Shr(n / 2 / 2, 6) == Shr(n / 2 / 2 / 2, 5);
    var m := n / 2 / 2 / 2 / 2;
    assert Shr(n, 8) == Shr(m, 4) == Shr(m / 2, 3) == Shr(m / 2 / 2, 2) == Shr(m / 2 / 2 / 2, 1);
    assert m == n / 16 && m / 2 / 2 / 2 / 2 == m / 16;
  }

  /** A number below 2^k has no bit from `k` on. */
  lemma {:induction false} NoHighBit(n: nat, k: nat, i: nat)
    requires n < Shl(1, k) && i >= k
    ensures !Bit(n, i)
    decreases k
  {
    if k == 0 { ZeroBit(i); } else { NoHighBit(n / 2, k - 1, i - 1); }
  }

  /** A number is determined by its bits. */
  lemma {:induction false} SameBits(a: nat, b: nat)
    requires forall i: nat :: Bit(a, i) == Bit(b, i)
    ensures a == b
    decreases a + b
  {
    assert Bit(a, 0) == Bit(b, 0);
    if a + b > 0 {
      forall i: nat ensures Bit(a / 2, i) == Bit(b / 2, i) {
        assert Bit(a, i + 1) == Bit(b, i + 1);
      }
      SameBits(a / 2, b / 2);
    }
  }

  lemma {:induction false} LowIsMod(n: nat, k: nat)
    ensures Shl(1, k) > 0 && Low(n, k) == n % Shl(1, k)
    decreases k
  {
    if k > 0 {
      LowIsMod(n / 2, k - 1);
      HalfMod(n, Shl(1, k - 1));
    }
  }

  lemma {:induction false} HalfMod(n: nat, m: nat)
    requires m > 0
    ensures n % (2 * m) == 2 * (n / 2 % m) + n % 2
  {
    var q, r := n / 2 / m, n / 2 % m;
    assert n == 2 * (q * m + r) + n % 2;
    assert n == q * (2 * m) + (2 * r + n % 2);
    ModOf(n, 2 * m, q, 2 * r + n % 2);
  }

  lemma {:induction false} ModOf(n: nat, m: nat, q: nat, r: nat)
    requires r < m && n == q * m + r
    ensures n % m == r && n / m == q
  {
    assert n == n / m * m + n % m;
    SameQuotient(n / m, n % m, q, r, m);
  }

  lemma {:induction false} SameQuotient(q: nat, r: nat, p: nat, s: nat, m: nat)
    requires r < m && s < m && q * m + r == p * m + s
    ensures q == p && r == s
  {
    var d := q - p;
    assert d * m == s - r;
    if d >= 1 { MulMono(d, m); }
  }

  lemma {:induction false} MulMono(d: nat, m: nat)
    requires d >= 1
    ensures d * m >= m
  {
  }
}

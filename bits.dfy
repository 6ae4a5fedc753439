/**
 * Bitwise operations on the low n bits of natural numbers, defined one bit
 * at a time from the least significant end, with each bit's value stated
 * through `Bit`.
 */
module Bitwise {

  function Pow2(n: nat): (p: nat)
    ensures p > 0
  {
    if n == 0 then 1 else 2 * Pow2(n - 1)
  }

  /** Bit i of x, counting from the least significant bit 0. */
  predicate Bit(x: nat, i: nat)
  {
    if i == 0 then x % 2 == 1 else Bit(x / 2, i - 1)
  }

  /** `^` on the low n bits. */
  function Xor(x: nat, y: nat, n: nat): nat
  {
    if n == 0 then 0 else 2 * Xor(x / 2, y / 2, n - 1) + (if x % 2 != y % 2 then 1 else 0)
  }

  /** `&` on the low n bits. */
  function And(x: nat, y: nat, n: nat): nat
  {
    if n == 0 then 0 else 2 * And(x / 2, y / 2, n - 1) + (if x % 2 == 1 && y % 2 == 1 then 1 else 0)
  }

  /** `!` on the low n bits. */
  function Not(x: nat, n: nat): nat
  {
    if n == 0 then 0 else 2 * Not(x / 2, n - 1) + (if x % 2 == 1 then 0 else 1)
  }

  lemma {:induction false} XorBound(x: nat, y: nat, n: nat)
    ensures Xor(x, y, n) < Pow2(n)
  {
    if n > 0 {
      XorBound(x / 2, y / 2, n - 1);
    }
  }

  lemma {:induction false} AndBound(x: nat, y: nat, n: nat)
    ensures And(x, y, n) < Pow2(n)
  {
    if n > 0 {
      AndBound(x / 2, y / 2, n - 1);
    }
  }

  lemma {:induction false} NotBound(x: nat, n: nat)
    ensures Not(x, n) < Pow2(n)
  {
    if n > 0 {
      NotBound(x / 2, n - 1);
    }
  }

  lemma {:induction false} LowBound(x: nat, k: nat)
    ensures Low(x, k) < Pow2(k)
  {
    if k > 0 {
      LowBound(x / 2, k - 1);
    }
  }

  /** Bit 0 of 2q + b is b, and the bits above it are those of q. */
  lemma DoubleBit(q: nat, b: nat, i: nat)
    requires b < 2
    ensures Bit(2 * q + b, 0) <==> b == 1
    ensures Bit(2 * q + b, i + 1) <==> Bit(q, i)
  {
    assert (2 * q + b) / 2 == q && (2 * q + b) % 2 == b;
  }

  lemma {:induction false} XorBit(x: nat, y: nat, n: nat, i: nat)
    requires i < n
    ensures Bit(Xor(x, y, n), i) <==> (Bit(x, i) != Bit(y, i))
  {
    var q, b := Xor(x / 2, y / 2, n - 1), if x % 2 != y % 2 then 1 else 0;
    if i == 0 {
      DoubleBit(q, b, 0);
    } else {
      XorBit(x / 2, y / 2, n - 1, i - 1);
      DoubleBit(q, b, i - 1);
    }
  }

  lemma {:induction false} AndBit(x: nat, y: nat, n: nat, i: nat)
    requires i < n
    ensures Bit(And(x, y, n), i) <==> Bit(x, i) && Bit(y, i)
  {
    var q, b := And(x / 2, y / 2, n - 1), if x % 2 == 1 && y % 2 == 1 then 1 else 0;
    if i == 0 {
      DoubleBit(q, b, 0);
    } else {
      AndBit(x / 2, y / 2, n - 1, i - 1);
      DoubleBit(q, b, i - 1);
    }
  }

  lemma {:induction false} NotBit(x: nat, n: nat, i: nat)
    requires i < n
    ensures Bit(Not(x, n), i) <==> !Bit(x, i)
  {
    var q, b := Not(x / 2, n - 1), if x % 2 == 1 then 0 else 1;
    if i == 0 {
      DoubleBit(q, b, 0);
    } else {
      NotBit(x / 2, n - 1, i - 1);
      DoubleBit(q, b, i - 1);
    }
  }

  /** `>>`: the bits above the lowest k, moved down k places. */
  function Shr(x: nat, k: nat): nat
  {
    if k == 0 then x else Shr(x / 2, k - 1)
  }

  /** The lowest k bits of x. */
  function Low(x: nat, k: nat): nat
  {
    if k == 0 then 0 else 2 * Low(x / 2, k - 1) + x % 2
  }

  /** `<<` without truncation: x moved up k places. */
  function Shl(x: nat, k: nat): nat
  {
    if k == 0 then x else 2 * Shl(x, k - 1)
  }

  lemma {:induction false} ShrBit(x: nat, k: nat, i: nat)
    ensures Bit(Shr(x, k), i) <==> Bit(x, i + k)
  {
    if k > 0 {
      ShrBit(x / 2, k - 1, i);
      ShiftedBit(x, i + k - 1);
    }
  }

  /** Bit i + 1 of x is bit i of x / 2. */
  lemma ShiftedBit(x: nat, i: nat)
    ensures Bit(x, i + 1) <==> Bit(x / 2, i)
  {
  }

  lemma {:induction false} LowBit(x: nat, k: nat, i: nat)
    ensures Bit(Low(x, k), i) <==> i < k && Bit(x, i)
  {
    if k == 0 {
      ZeroBit(i);
    } else if i == 0 {
      DoubleBit(Low(x / 2, k - 1), x % 2, 0);
    } else {
      LowBit(x / 2, k - 1, i - 1);
      DoubleBit(Low(x / 2, k - 1), x % 2, i - 1);
    }
  }

  /** A number below 2^k has no bits set at position k or above. */
  lemma {:induction false} BitBeyond(x: nat, k: nat, i: nat)
    requires x < Pow2(k) && k <= i
    ensures !Bit(x, i)
  {
    if k == 0 {
      ZeroBit(i);
    } else {
      BitBeyond(x / 2, k - 1, i - 1);
    }
  }

  lemma {:induction false} ZeroBit(i: nat)
    ensures !Bit(0, i)
  {
    if i > 0 {
      ZeroBit(i - 1);
    }
  }

  /**
   * Adding x moved up k places to a number below 2^k fills bits k and up
   * with the bits of x and leaves the lower ones alone.
   */
  lemma {:induction false} ShlAddBit(a: nat, x: nat, k: nat, i: nat)
    requires a < Pow2(k)
    ensures Bit(a + Shl(x, k), i) <==> if i < k then Bit(a, i) else Bit(x, i - k)
  {
    if k > 0 {
      var s := Shl(x, k - 1);
      assert a + Shl(x, k) == 2 * (a / 2 + s) + a % 2;
      if i > 0 {
        ShlAddBit(a / 2, x, k - 1, i - 1);
      }
    }
  }

  lemma {:induction false} Pow2Add(m: nat, k: nat)
    ensures Pow2(m + k) == Pow2(m) * Pow2(k)
  {
    if k > 0 {
      Pow2Add(m, k - 1);
    }
  }

  lemma {:induction false} ShlMul(x: nat, k: nat)
    ensures Shl(x, k) == x * Pow2(k)
  {
    if k > 0 {
      ShlMul(x, k - 1);
    }
  }

  lemma {:induction false} ShrBound(x: nat, k: nat, m: nat)
    requires x < Pow2(k + m)
    ensures Shr(x, k) < Pow2(m)
  {
    if k > 0 {
      ShrBound(x / 2, k - 1, m);
    }
  }

  lemma {:induction false} ShrAtMost(x: nat, k: nat)
    ensures Shr(x, k) <= x
  {
    if k > 0 {
      ShrAtMost(x / 2, k - 1);
    }
  }
}

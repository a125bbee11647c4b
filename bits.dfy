/** Bit operations on non-negative integers, as Python performs them on its
    unbounded `int`: shifting a bit left and or-ing it into an accumulator. */
module Bits {

  /** 2 to the power k. */
  function Pow2(k: nat): (r: nat)
    ensures r >= 1
  {
    if k == 0 then 1 else 2 * Pow2(k - 1)
  }

  /** Bit `pos` of n (position 0 is the least significant bit). */
  predicate IsSet(n: nat, pos: nat)
  {
    if pos == 0 then n % 2 == 1 else IsSet(n / 2, pos - 1)
  }

  /** `bit << s` for a bit value 0 or 1. */
  function Shl(bit: nat, s: nat): (r: nat)
    ensures r == 0 <==> bit == 0
  {
    bit * Pow2(s)
  }

  /** Python's `a | b` on non-negative integers, one binary digit at a time. */
  function Or(a: nat, b: nat): (r: nat)
    ensures a <= r && b <= r && r <= a + b
    decreases a + b
  {
    if a == 0 && b == 0 then 0
    else 2 * Or(a / 2, b / 2) + (if a % 2 == 1 || b % 2 == 1 then 1 else 0)
  }

  /** A bit of `a | b` is set exactly when it is set in `a` or in `b`. */
  lemma {:induction false} OrIsSet(a: nat, b: nat, pos: nat)
    ensures IsSet(Or(a, b), pos) <==> IsSet(a, pos) || IsSet(b, pos)
    decreases pos
  {
    if a == 0 && b == 0 {
      ZeroHasNoBits(pos);
    } else if pos > 0 {
      assert Or(a, b) / 2 == Or(a / 2, b / 2);
      OrIsSet(a / 2, b / 2, pos - 1);
    }
  }

  /** Or-ing two values below 2^k stays below 2^k: an accumulator of 8-bit
      values never grows past a byte. */
  lemma {:induction false} OrBound(a: nat, b: nat, k: nat)
    requires a < Pow2(k) && b < Pow2(k)
    ensures Or(a, b) < Pow2(k)
    decreases k
  {
    if a == 0 && b == 0 {
    } else if k == 0 {
    } else {
      OrBound(a / 2, b / 2, k - 1);
    }
  }

  /** No bit of zero is set. */
  lemma {:induction false} ZeroHasNoBits(pos: nat)
    ensures !IsSet(0, pos)
  {
    if pos > 0 {
      ZeroHasNoBits(pos - 1);
    }
  }

  /** `bit << s` sets exactly bit s when bit is 1, and nothing when bit is 0. */
  lemma {:induction false} ShlIsSet(bit: nat, s: nat, pos: nat)
    requires bit <= 1
    ensures IsSet(Shl(bit, s), pos) <==> bit == 1 && pos == s
    decreases pos
  {
    if bit == 0 {
      ZeroHasNoBits(pos);
    } else if pos == 0 {
      if s > 0 {
        assert Pow2(s) == 2 * Pow2(s - 1);
      }
    } else if s == 0 {
      ZeroHasNoBits(pos - 1);
    } else {
      assert Shl(bit, s) / 2 == Shl(bit, s - 1);
      ShlIsSet(bit, s - 1, pos - 1);
    }
  }

  /** A number below 2^k has no bit set at position k or above. */
  lemma {:induction false} HighBitsClear(n: nat, k: nat, pos: nat)
    requires n < Pow2(k) && pos >= k
    ensures !IsSet(n, pos)
    decreases pos
  {
    if pos == 0 {
    } else if k == 0 {
      ZeroHasNoBits(pos);
    } else {
      HighBitsClear(n / 2, k - 1, pos - 1);
    }
  }

  /** Two numbers below 2^k with the same low k bits are equal. */
  lemma {:induction false} BitsDetermine(a: nat, b: nat, k: nat)
    requires a < Pow2(k) && b < Pow2(k)
    requires forall pos :: 0 <= pos < k ==> (IsSet(a, pos) <==> IsSet(b, pos))
    ensures a == b
    decreases k
  {
    if k > 0 {
      assert IsSet(a, 0) <==> IsSet(b, 0);
      forall pos | 0 <= pos < k - 1
        ensures IsSet(a / 2, pos) <==> IsSet(b / 2, pos)
      {
        assert IsSet(a, pos + 1) <==> IsSet(b, pos + 1);
      }
      BitsDetermine(a / 2, b / 2, k - 1);
    }
  }
}

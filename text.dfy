/** The text formatting the emitter relies on: Python's `str` of an integer,
    the `08b` binary format of a byte, and `sep.join(parts)`. */
module Text {
  import opened Bits

  // ---------------------------------------------------------------------
  // Binary literals: f"0b{byte:08b}"
  // ---------------------------------------------------------------------

  /** The last k binary digits of n, most significant first (Python's
      `format(n, '0kb')` when n < 2^k). */
  function FixedBinary(n: nat, k: nat): (s: string)
    ensures |s| == k
    ensures forall j :: 0 <= j < k ==> s[j] == '0' || s[j] == '1'
  {
    if k == 0 then "" else FixedBinary(n / 2, k - 1) + [if n % 2 == 1 then '1' else '0']
  }

  /** The C binary literal of a byte: `0b` and eight binary digits. */
  function Binary8(n: nat): (lit: string)
    ensures |lit| == 10 && lit[..2] == "0b"
  {
    "0b" + FixedBinary(n, 8)
  }

  /** The number a string of binary digits denotes (most significant first). */
  function BinaryValue(s: string): nat
  {
    if |s| == 0 then 0 else 2 * BinaryValue(s[..|s| - 1]) + (if s[|s| - 1] == '1' then 1 else 0)
  }

  /** The k digits denote n whenever n fits in k bits. */
  lemma {:induction false} FixedBinaryValue(n: nat, k: nat)
    requires n < Pow2(k)
    ensures BinaryValue(FixedBinary(n, k)) == n
    decreases k
  {
    if k > 0 {
      var s := FixedBinary(n, k);
      assert s[..k - 1] == FixedBinary(n / 2, k - 1);
      assert n / 2 < Pow2(k - 1);
      FixedBinaryValue(n / 2, k - 1);
      assert BinaryValue(s) == 2 * BinaryValue(s[..k - 1]) + n % 2;
    }
  }

  /** Digit j of the k-digit form of n is '1' exactly when bit k - 1 - j of n is set. */
  lemma {:induction false} FixedBinaryDigit(n: nat, k: nat, j: nat)
    requires j < k
    ensures FixedBinary(n, k)[j] == '1' <==> IsSet(n, k - 1 - j)
    decreases k
  {
    if j < k - 1 {
      FixedBinaryDigit(n / 2, k - 1, j);
    }
  }

  /** A byte's literal is `0b` followed by exactly eight binary digits; the
      digits denote the byte, and the digit at index j of the literal is bit
      9 - j of it (the first digit, at index 2, is the most significant). */
  lemma Binary8Literal(n: nat)
    requires n < 256
    ensures |Binary8(n)| == 10 && Binary8(n)[..2] == "0b"
    ensures forall j :: 2 <= j < 10 ==> Binary8(n)[j] == '0' || Binary8(n)[j] == '1'
    ensures BinaryValue(Binary8(n)[2..]) == n
    ensures forall j :: 2 <= j < 10 ==> (Binary8(n)[j] == '1' <==> IsSet(n, 9 - j))
  {
    var lit := Binary8(n);
    assert lit[2..] == FixedBinary(n, 8);
    assert Pow2(8) == 256;
    FixedBinaryValue(n, 8);
    forall j | 2 <= j < 10
      ensures lit[j] == '1' <==> IsSet(n, 9 - j)
    {
      FixedBinaryDigit(n, 8, j - 2);
    }
  }

  // ---------------------------------------------------------------------
  // Decimal numbers: str(n)
  // ---------------------------------------------------------------------

  function DecimalDigit(d: nat): (c: char)
    requires d < 10
  {
    "0123456789"[d]
  }

  predicate IsDecimalDigit(c: char)
  {
    '0' <= c <= '9'
  }

  /** Python's `str(n)` for a non-negative integer: decimal, no leading zeros. */
  function NatToString(n: nat): (s: string)
    ensures 0 < |s|
    ensures forall j :: 0 <= j < |s| ==> IsDecimalDigit(s[j])
    ensures s[0] == '0' ==> n == 0
    ensures |s| > 1 ==> s[0] != '0'
  {
    if n < 10 then [DecimalDigit(n)] else NatToString(n / 10) + [DecimalDigit(n % 10)]
  }

  /** Python's `str(i)` for any integer: a minus sign before negative values. */
  function IntToString(i: int): (s: string)
    ensures 0 < |s|
    ensures i < 0 <==> s[0] == '-'
  {
    if i < 0 then "-" + NatToString(-i) else NatToString(i)
  }

  /** Decimal digits, optionally after a minus sign. */
  predicate IsIntText(s: string)
  {
    && 0 < |s|
    && (s[0] == '-' ==> 1 < |s|)
    && (s[0] != '-' ==> IsDecimalDigit(s[0]))
    && forall j :: 1 <= j < |s| ==> IsDecimalDigit(s[j])
  }

  /** The integer a decimal text with an optional minus sign denotes. */
  function IntValue(s: string): int
    requires IsIntText(s)
  {
    if s[0] == '-' then -(DecimalValue(s[1..]) as int) else DecimalValue(s)
  }

  /** The text of i is digits after an optional minus sign, and reading it
      back gives i, for negative i as well. */
  lemma IntToStringValue(i: int)
    ensures IsIntText(IntToString(i))
    ensures IntValue(IntToString(i)) == i
  {
    if i < 0 {
      NegativeText(-i);
    } else {
      NonNegativeText(i);
    }
  }

  /** The text of n reads back as n. */
  lemma NonNegativeText(n: nat)
    ensures IsIntText(NatToString(n))
    ensures IntValue(NatToString(n)) == n
  {
    NatToStringValue(n);
  }

  /** A minus sign before the text of n reads back as -n. */
  lemma NegativeText(n: nat)
    ensures IsIntText("-" + NatToString(n))
    ensures IntValue("-" + NatToString(n)) == -(n as int)
  {
    var digits := NatToString(n);
    var s := "-" + digits;
    assert s[1..] == digits;
    assert IsIntText(s) by {
      forall j | 1 <= j < |s|
        ensures IsDecimalDigit(s[j])
      {
        assert s[j] == digits[j - 1];
      }
    }
    NatToStringValue(n);
  }

  /** The number a string of decimal digits denotes. */
  function DecimalValue(s: string): nat
    requires forall j :: 0 <= j < |s| ==> IsDecimalDigit(s[j])
  {
    if |s| == 0 then 0
    else
      var last := s[|s| - 1];
      assert IsDecimalDigit(last);
      10 * DecimalValue(s[..|s| - 1]) + (last as int - '0' as int)
  }

  /** Reading back the decimal text of n gives n. */
  lemma {:induction false} NatToStringValue(n: nat)
    ensures DecimalValue(NatToString(n)) == n
    decreases n
  {
    if n >= 10 {
      var s := NatToString(n);
      assert s[..|s| - 1] == NatToString(n / 10);
      NatToStringValue(n / 10);
    }
  }

  /** Distinct numbers have distinct decimal text. */
  lemma NatToStringInjective(m: nat, n: nat)
    requires NatToString(m) == NatToString(n)
    ensures m == n
  {
    NatToStringValue(m);
    NatToStringValue(n);
  }

  // ---------------------------------------------------------------------
  // sep.join(parts)
  // ---------------------------------------------------------------------

  /** Python's `sep.join(parts)`: the parts in order, with `sep` between
      each neighbouring pair and nowhere else. */
  function Join(parts: seq<string>, sep: string): string
  {
    if |parts| == 0 then ""
    else if |parts| == 1 then parts[0]
    else Join(parts[..|parts| - 1], sep) + sep + parts[|parts| - 1]
  }

  /** The lengths of the parts, added up. */
  function TotalLength(parts: seq<string>): nat
  {
    if |parts| == 0 then 0 else TotalLength(parts[..|parts| - 1]) + |parts[|parts| - 1]|
  }

  /** A non-empty join is its parts plus one separator between each
      neighbouring pair. */
  lemma {:induction false} JoinLength(parts: seq<string>, sep: string)
    requires |parts| > 0
    ensures |Join(parts, sep)| == TotalLength(parts) + (|parts| - 1) * |sep|
  {
    if |parts| > 1 {
      var front, last := parts[..|parts| - 1], parts[|parts| - 1];
      JoinLength(front, sep);
      assert |Join(parts, sep)| == |Join(front, sep)| + |sep| + |last|;
      assert TotalLength(parts) == TotalLength(front) + |last|;
      assert (|parts| - 1) * |sep| == (|front| - 1) * |sep| + |sep|;
    }
  }

  /** A non-empty join starts with the first part and ends with the last. */
  lemma {:induction false} JoinEnds(parts: seq<string>, sep: string)
    requires |parts| > 0
    ensures var s, first, last := Join(parts, sep), parts[0], parts[|parts| - 1];
      && |first| <= |s| && s[..|first|] == first
      && |last| <= |s| && s[|s| - |last|..] == last
  {
    if |parts| > 1 {
      var front := parts[..|parts| - 1];
      JoinEnds(front, sep);
      var first, last := parts[0], parts[|parts| - 1];
      var j := Join(front, sep);
      assert front[0] == first;
      assert Join(parts, sep) == j + (sep + last);
      SplitPrefix(j, sep + last, |first|);
      SplitAppend(j + sep, last);
      assert j + (sep + last) == (j + sep) + last;
    }
  }

  /** A prefix of the left operand is a prefix of the concatenation. */
  lemma SplitPrefix<T>(a: seq<T>, b: seq<T>, n: nat)
    requires n <= |a|
    ensures (a + b)[..n] == a[..n]
  {
  }

  /** The two halves of a concatenation. */
  lemma SplitAppend<T>(a: seq<T>, b: seq<T>)
    ensures (a + b)[..|a|] == a
    ensures (a + b)[|a|..] == b
  {
  }
}

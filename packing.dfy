/** Row packing: one row of monochrome pixels becomes a sequence of bytes,
    eight pixels per byte, the leftmost pixel of each group in the most
    significant bit, and the unused low bits of a final partial byte zero. */
module Packing {
  import opened Bits

  /** The bit a pixel contributes: 1 when it is on, 0 when it is off. */
  function Bit(pixel: bool): (b: nat)
    ensures b <= 1 && (b == 1 <==> pixel)
  {
    if pixel then 1 else 0
  }

  /** Or-ing `bit << s` into a byte sets bit s when bit is 1 and leaves every
      other bit as it was. */
  lemma OrShl(acc: nat, bit: nat, s: nat)
    requires acc < 256 && bit <= 1 && s < 8
    ensures Or(acc, Shl(bit, s)) < 256
    ensures forall pos :: IsSet(Or(acc, Shl(bit, s)), pos) <==> IsSet(acc, pos) || (bit == 1 && pos == s)
  {
    assert Pow2(8) == 256;
    assert Pow2(s) <= 128 by {
      if s < 7 { PowMonotone(s, 7); }
    }
    assert Shl(bit, s) < 256;
    OrBound(acc, Shl(bit, s), 8);
    forall pos
      ensures IsSet(Or(acc, Shl(bit, s)), pos) <==> IsSet(acc, pos) || (bit == 1 && pos == s)
    {
      OrIsSet(acc, Shl(bit, s), pos);
      ShlIsSet(bit, s, pos);
    }
  }

  lemma {:induction false} PowMonotone(j: nat, k: nat)
    requires j <= k
    ensures Pow2(j) <= Pow2(k)
    decreases k
  {
    if j < k {
      PowMonotone(j, k - 1);
    }
  }

  /** The byte that holds a group of at most eight pixels: pixel k of the
      group sits at bit position 7 - k, and the positions no pixel reaches
      stay zero. Built the way the accumulator is, one pixel at a time. */
  function PackGroup(g: seq<bool>): (r: nat)
    requires |g| <= 8
    ensures r < 256
    ensures forall pos :: 0 <= pos < 8 ==> (IsSet(r, pos) <==> 7 - pos < |g| && g[7 - pos])
  {
    if |g| == 0 then
      assert forall pos :: !IsSet(0, pos) by {
        forall pos { ZeroHasNoBits(pos); }
      }
      0
    else
      var k := |g| - 1;
      var acc := PackGroup(g[..k]);
      OrShl(acc, Bit(g[k]), 7 - k);
      Or(acc, Shl(Bit(g[k]), 7 - k))
  }

  /** A row of pixels packed into bytes, eight pixels per byte from the left. */
  function PackRow(p: seq<bool>): (r: seq<nat>)
    ensures |r| == (|p| + 7) / 8
    ensures forall i :: 0 <= i < |r| ==> r[i] < 256
    decreases |p|
  {
    if |p| == 0 then []
    else if |p| <= 8 then [PackGroup(p)]
    else [PackGroup(p[..8])] + PackRow(p[8..])
  }

  /** Every bit of every packed byte: bit `pos` of byte i is pixel
      8 * i + 7 - pos when that pixel exists, and zero otherwise. */
  lemma {:induction false} PackRowBits(p: seq<bool>, i: nat, pos: nat)
    requires i < |PackRow(p)| && pos < 8
    ensures IsSet(PackRow(p)[i], pos) <==> 8 * i + 7 - pos < |p| && p[8 * i + 7 - pos]
    decreases |p|
  {
    if |p| <= 8 {
    } else if i == 0 {
    } else {
      PackRowBits(p[8..], i - 1, pos);
    }
  }

  /** Pixel x of a row is stored in byte x / 8 at bit position 7 - x % 8. */
  lemma PackRowPixel(p: seq<bool>, x: nat)
    requires x < |p|
    ensures x / 8 < |PackRow(p)|
    ensures IsSet(PackRow(p)[x / 8], 7 - x % 8) <==> p[x]
    ensures UnpackRow(PackRow(p), |p|)[x] == p[x]
  {
    var i, pos := x / 8, 7 - x % 8;
    assert x == 8 * i + 7 - pos;
    PackRowBits(p, i, pos);
  }

  /** No packed byte has a bit set at position 8 or above. */
  lemma PackRowHighBits(p: seq<bool>, i: nat, pos: nat)
    requires i < |PackRow(p)| && pos >= 8
    ensures !IsSet(PackRow(p)[i], pos)
  {
    assert Pow2(8) == 256;
    HighBitsClear(PackRow(p)[i], 8, pos);
  }

  /** In the last byte of a row whose width is not a multiple of 8, the
      8 - width % 8 low-order bits are zero. */
  lemma PackRowPadding(p: seq<bool>)
    requires |p| % 8 != 0
    ensures LowBitsClear(PackRow(p)[|PackRow(p)| - 1], 8 - |p| % 8)
  {
    var last := |PackRow(p)| - 1;
    assert 8 * last == |p| - |p| % 8;
    forall pos | 0 <= pos < 8 - |p| % 8
      ensures !IsSet(PackRow(p)[last], pos)
    {
      PackRowBits(p, last, pos);
    }
  }

  /** The k low-order bits of b are all zero. */
  predicate LowBitsClear(b: nat, k: nat)
  {
    forall pos :: 0 <= pos < k ==> !IsSet(b, pos)
  }

  /** Bytes of the shape a packed row of `width` pixels has: ceil(width / 8)
      of them, each below 256, the padding bits of the last one zero. */
  predicate WellPadded(bs: seq<nat>, width: nat)
  {
    && |bs| == (width + 7) / 8
    && (forall i :: 0 <= i < |bs| ==> bs[i] < 256)
    && (width % 8 != 0 ==> LowBitsClear(bs[|bs| - 1], 8 - width % 8))
  }

  /** Reads the pixels of a row back out of its packed bytes. */
  function UnpackRow(bs: seq<nat>, width: nat): (p: seq<bool>)
    requires |bs| == (width + 7) / 8
    ensures |p| == width
  {
    seq(width, x requires 0 <= x < width => IsSet(bs[x / 8], 7 - x % 8))
  }

  /** Every packed row has the well-padded shape. */
  lemma PackRowWellPadded(p: seq<bool>)
    ensures WellPadded(PackRow(p), |p|)
  {
    if |p| % 8 != 0 {
      PackRowPadding(p);
    }
  }

  /** Unpacking a packed row recovers every pixel exactly. */
  lemma UnpackPackRow(p: seq<bool>)
    ensures UnpackRow(PackRow(p), |p|) == p
  {
    var bs := PackRow(p);
    var q := UnpackRow(bs, |p|);
    forall x | 0 <= x < |p|
      ensures q[x] == p[x]
    {
      PackRowPixel(p, x);
    }
  }

  /** Each bit of the repacked pixels of well-padded bytes is the bit it was. */
  lemma PackUnpackBit(bs: seq<nat>, width: nat, i: nat, pos: nat)
    requires WellPadded(bs, width) && i < |bs| && pos < 8
    ensures IsSet(PackRow(UnpackRow(bs, width))[i], pos) <==> IsSet(bs[i], pos)
  {
    var p := UnpackRow(bs, width);
    PackRowBits(p, i, pos);
    var x := 8 * i + 7 - pos;
    if x < width {
      BitIndex(i, pos);
      assert p[x] == IsSet(bs[i], pos);
    } else {
      var q, r := width / 8, width % 8;
      assert width == 8 * q + r;
      assert |bs| == q + (r + 7) / 8;
      assert i >= q;
      assert i == |bs| - 1 && r != 0 && pos < 8 - r;
      assert LowBitsClear(bs[i], 8 - width % 8);
    }
  }

  /** Pixel 8 * i + 7 - pos belongs to byte i, at bit pos. */
  lemma BitIndex(i: nat, pos: nat)
    requires pos < 8
    ensures (8 * i + 7 - pos) / 8 == i && (8 * i + 7 - pos) % 8 == 7 - pos
  {
  }

  /** Byte i of the repacked pixels of well-padded bytes is byte i itself. */
  lemma PackUnpackByte(bs: seq<nat>, width: nat, i: nat)
    requires WellPadded(bs, width) && i < |bs|
    ensures PackRow(UnpackRow(bs, width))[i] == bs[i]
  {
    var r := PackRow(UnpackRow(bs, width));
    forall pos | 0 <= pos < 8
      ensures IsSet(r[i], pos) <==> IsSet(bs[i], pos)
    {
      PackUnpackBit(bs, width, i, pos);
    }
    assert Pow2(8) == 256;
    BitsDetermine(r[i], bs[i], 8);
  }

  /** Packing the pixels read out of well-padded bytes gives those bytes back:
      packing is a bijection between rows of `width` pixels and well-padded
      byte sequences. */
  lemma PackUnpackRow(bs: seq<nat>, width: nat)
    requires WellPadded(bs, width)
    ensures PackRow(UnpackRow(bs, width)) == bs
  {
    forall i | 0 <= i < |bs|
      ensures PackRow(UnpackRow(bs, width))[i] == bs[i]
    {
      PackUnpackByte(bs, width, i);
    }
  }
}

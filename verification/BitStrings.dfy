/** Numbers as strings of bits, the highest first. */
module BitStrings {
  import opened Bytes

  function Pow2(n: nat): (p: nat)
    ensures p > 0
  {
    if n == 0 then 1 else 2 * Pow2(n - 1)
  }

  /** The lowest `width` bits of a number. */
  function Bits(n: nat, width: nat): (bits: seq<bool>)
    ensures |bits| == width
  {
    if width == 0 then [] else Bits(n / 2, width - 1) + [n % 2 == 1]
  }

  /** The number that bits write. */
  function Number(bits: seq<bool>): nat {
    if bits == [] then 0 else 2 * Number(bits[..|bits| - 1]) + (if bits[|bits| - 1] then 1 else 0)
  }

  lemma {:induction false} NumberOfBits(n: nat, width: nat)
    requires n < Pow2(width)
    ensures Number(Bits(n, width)) == n
  {
    if width > 0 {
      NumberOfBits(n / 2, width - 1);
      assert Bits(n, width)[..width - 1] == Bits(n / 2, width - 1);
    }
  }

  lemma {:induction false} BitsOfNumber(bits: seq<bool>)
    ensures Number(bits) < Pow2(|bits|) && Bits(Number(bits), |bits|) == bits
  {
    if bits != [] {
      BitsOfNumber(bits[..|bits| - 1]);
      assert bits == bits[..|bits| - 1] + [bits[|bits| - 1]];
    }
  }

  /** High and low bits of a number, one after the other. */
  lemma {:induction false} BitsJoin(high: nat, low: nat, width: nat, lowWidth: nat)
    requires low < Pow2(lowWidth)
    ensures Bits(high * Pow2(lowWidth) + low, width + lowWidth) == Bits(high, width) + Bits(low, lowWidth)
    decreases lowWidth
  {
    var n := high * Pow2(lowWidth) + low;
    if lowWidth == 0 {
      assert Bits(high, width) + [] == Bits(high, width);
    } else {
      var p := Pow2(lowWidth - 1);
      assert n == 2 * (high * p) + low;
      assert n / 2 == high * p + low / 2 && n % 2 == low % 2;
      BitsJoin(high, low / 2, width, lowWidth - 1);
      assert Bits(high, width) + (Bits(low / 2, lowWidth - 1) + [low % 2 == 1])
          == (Bits(high, width) + Bits(low / 2, lowWidth - 1)) + [low % 2 == 1];
    }
  }

  /** The bits of bytes, one byte after the other. */
  function AllBits(bytes: Bytes): (bits: seq<bool>)
    ensures |bits| == 8 * |bytes|
  {
    if bytes == [] then [] else AllBits(bytes[..|bytes| - 1]) + Bits(bytes[|bytes| - 1] as int, 8)
  }

  lemma {:induction false} AllBitsDecide(a: Bytes, b: Bytes)
    requires AllBits(a) == AllBits(b)
    ensures a == b
  {
    assert |a| == |b|;
    if a != [] {
      var i, j := a[..|a| - 1], b[..|b| - 1];
      assert AllBits(a)[..8 * |i|] == AllBits(i) && AllBits(b)[..8 * |j|] == AllBits(j);
      assert AllBits(a)[8 * |i|..] == Bits(a[|i|] as int, 8) && AllBits(b)[8 * |j|..] == Bits(b[|j|] as int, 8);
      AllBitsDecide(i, j);
      assert Pow2(8) == 256;
      NumberOfBits(a[|i|] as int, 8);
      NumberOfBits(b[|j|] as int, 8);
      assert a == i + [a[|i|]] && b == j + [b[|j|]];
    }
  }
}

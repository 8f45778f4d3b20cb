/** UTF-8 as both JSON readers write it, against the table of section 3 of RFC 3629. */
module Utf8 {
  import opened Bytes
  import opened BitStrings

  function ByteOf(n: nat): Byte
    requires n < 256
  {
    n as char
  }

  /** The bytes written for a code. */
  function Encoded(u: nat): (r: Bytes)
    requires u < 0x11_0000
    ensures 1 <= |r| <= 4 && (u < 0x1_0000 ==> |r| <= 3)
  {
    if u < 0x80 then [ByteOf(u)]
    else if u < 0x800 then [ByteOf(0xC0 + u / 64), ByteOf(0x80 + u % 64)]
    else if u < 0x1_0000 then [ByteOf(0xE0 + u / 4096), ByteOf(0x80 + u / 64 % 64), ByteOf(0x80 + u % 64)]
    else [ByteOf(0xF0 + u / 262144), ByteOf(0x80 + u / 4096 % 64), ByteOf(0x80 + u / 64 % 64), ByteOf(0x80 + u % 64)]
  }

  const O := [false]
  const IO := [true, false]
  const IIO := [true, true, false]
  const IIIO := [true, true, true, false]
  const IIIIO := [true, true, true, true, false]

  /** The four rows of the table: which bits of the bytes mark their place and which are those of the code. */
  predicate Encodes(bytes: Bytes, u: nat) {
    if u < 0x80 then AllBits(bytes) == O + Bits(u, 7)
    else if u < 0x800 then var x := Bits(u, 11); AllBits(bytes) == IIO + x[..5] + IO + x[5..]
    else if u < 0x1_0000 then var x := Bits(u, 16); AllBits(bytes) == IIIO + x[..4] + IO + x[4..10] + IO + x[10..]
    else var x := Bits(u, 21); AllBits(bytes) == IIIIO + x[..3] + IO + x[3..9] + IO + x[9..15] + IO + x[15..]
  }

  /** For every code the bytes written are the one row of the table that fits. */
  lemma EncodedIff(u: nat, bytes: Bytes)
    requires u < 0x11_0000
    ensures Encodes(bytes, u) <==> bytes == Encoded(u)
  {
    EncodedIsRow(u);
    hide Encoded, Bits;
    if Encodes(bytes, u) { AllBitsDecide(bytes, Encoded(u)); }
  }

  lemma EncodedIsRow(u: nat)
    requires u < 0x11_0000
    ensures Encodes(Encoded(u), u)
  {
    Sixes(u);
    hide Bits, AllBits;
    if u < 0x80 {
      OneByte(u);
    } else if u < 0x800 {
      TwoBytes(u / 64, u % 64);
    } else if u < 0x1_0000 {
      ThreeBytes(u / 4096, u / 64 % 64, u % 64);
    } else {
      FourBytes(u / 262144, u / 4096 % 64, u / 64 % 64, u % 64);
    }
  }

  lemma Sixes(u: nat)
    ensures u == u / 64 * 64 + u % 64 && u / 64 == u / 4096 * 64 + u / 64 % 64 && u / 4096 == u / 262144 * 64 + u / 4096 % 64
  {}

  lemma Snoc(bytes: Bytes, b: Byte)
    ensures AllBits(bytes + [b]) == AllBits(bytes) + Bits(b as int, 8)
  {
    assert (bytes + [b])[..|bytes|] == bytes;
  }

  /** A marker and the bits behind it fill a byte. */
  lemma Marked(mark: nat, n: nat, width: nat, rest: nat)
    requires width + rest == 8 && n < Pow2(rest) && mark * Pow2(rest) + n < 256
    ensures Bits(mark * Pow2(rest) + n, 8) == Bits(mark, width) + Bits(n, rest)
  {
    BitsJoin(mark, n, width, rest);
  }

  lemma Marks()
    ensures Bits(0, 1) == O && Bits(2, 2) == IO && Bits(6, 3) == IIO && Bits(14, 4) == IIIO && Bits(30, 5) == IIIIO
    ensures Pow2(3) == 8 && Pow2(4) == 16 && Pow2(5) == 32 && Pow2(6) == 64 && Pow2(7) == 128
  {
    Mark(0, []);
    Mark(1, []);
    Mark(2, [true]);
    Mark(3, [true]);
    Mark(6, [true, true]);
    Mark(7, [true, true]);
    Mark(14, [true, true, true]);
    Mark(15, [true, true, true]);
    Mark(30, [true, true, true, true]);
    assert Pow2(2) == 4 && Pow2(4) == 16 && Pow2(6) == 64;
    hide Bits;
  }

  lemma Mark(n: nat, before: seq<bool>)
    requires Bits(n / 2, |before|) == before
    ensures Bits(n, |before| + 1) == before + [n % 2 == 1]
  {}

  lemma OneByte(u: nat)
    requires u < 0x80
    ensures AllBits([ByteOf(u)]) == O + Bits(u, 7)
  {
    Marks();
    hide Bits, AllBits, Pow2;
    Marked(0, u, 1, 7);
    Single(ByteOf(u));
  }

  lemma Single(b: Byte)
    ensures AllBits([b]) == Bits(b as int, 8)
  {
    assert [b][..0] == [];
    assert AllBits([]) + Bits(b as int, 8) == Bits(b as int, 8);
  }

  lemma Tail(bytes: Bytes, n: nat)
    requires n < 64
    ensures AllBits(bytes + [ByteOf(0x80 + n)]) == AllBits(bytes) + (IO + Bits(n, 6))
  {
    Marks();
    hide Bits, AllBits, Pow2;
    Marked(2, n, 2, 6);
    Snoc(bytes, ByteOf(0x80 + n));
  }

  lemma TwoBytes(a: nat, b: nat)
    requires a < 32 && b < 64
    ensures var x := Bits(a * 64 + b, 11); AllBits([ByteOf(0xC0 + a), ByteOf(0x80 + b)]) == IIO + x[..5] + IO + x[5..]
  {
    Marks();
    hide Bits, AllBits, Pow2;
    Marked(6, a, 3, 5);
    Single(ByteOf(0xC0 + a));
    Tail([ByteOf(0xC0 + a)], b);
    BitsJoin(a, b, 5, 6);
    assert [ByteOf(0xC0 + a)] + [ByteOf(0x80 + b)] == [ByteOf(0xC0 + a), ByteOf(0x80 + b)];
  }

  lemma ThreeBytes(a: nat, b: nat, c: nat)
    requires a < 16 && b < 64 && c < 64
    ensures var x := Bits((a * 64 + b) * 64 + c, 16);
            AllBits([ByteOf(0xE0 + a), ByteOf(0x80 + b), ByteOf(0x80 + c)]) == IIIO + x[..4] + IO + x[4..10] + IO + x[10..]
  {
    Marks();
    hide Bits, AllBits, Pow2;
    Marked(14, a, 4, 4);
    Single(ByteOf(0xE0 + a));
    Tail([ByteOf(0xE0 + a)], b);
    Tail([ByteOf(0xE0 + a), ByteOf(0x80 + b)], c);
    BitsJoin(a, b, 4, 6);
    var one, two := [ByteOf(0xE0 + a)], [ByteOf(0xE0 + a), ByteOf(0x80 + b)];
    assert one + [ByteOf(0x80 + b)] == two && two + [ByteOf(0x80 + c)] == [ByteOf(0xE0 + a), ByteOf(0x80 + b), ByteOf(0x80 + c)];
    BitsJoin(a * 64 + b, c, 10, 6);
  }

  lemma FourBytes(a: nat, b: nat, c: nat, d: nat)
    requires a < 8 && b < 64 && c < 64 && d < 64
    ensures var x := Bits(((a * 64 + b) * 64 + c) * 64 + d, 21);
            AllBits([ByteOf(0xF0 + a), ByteOf(0x80 + b), ByteOf(0x80 + c), ByteOf(0x80 + d)])
            == IIIIO + x[..3] + IO + x[3..9] + IO + x[9..15] + IO + x[15..]
  {
    Marks();
    hide Bits, AllBits, Pow2;
    Marked(30, a, 5, 3);
    Single(ByteOf(0xF0 + a));
    Tail([ByteOf(0xF0 + a)], b);
    Tail([ByteOf(0xF0 + a), ByteOf(0x80 + b)], c);
    Tail([ByteOf(0xF0 + a), ByteOf(0x80 + b), ByteOf(0x80 + c)], d);
    BitsJoin(a, b, 3, 6);
    var one, two := [ByteOf(0xF0 + a)], [ByteOf(0xF0 + a), ByteOf(0x80 + b)];
    var three := [ByteOf(0xF0 + a), ByteOf(0x80 + b), ByteOf(0x80 + c)];
    assert one + [ByteOf(0x80 + b)] == two && two + [ByteOf(0x80 + c)] == three;
    assert three + [ByteOf(0x80 + d)] == [ByteOf(0xF0 + a), ByteOf(0x80 + b), ByteOf(0x80 + c), ByteOf(0x80 + d)];
    BitsJoin(a * 64 + b, c, 9, 6);
    BitsJoin((a * 64 + b) * 64 + c, d, 15, 6);
  }
}

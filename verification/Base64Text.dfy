/** The encoding of sections 4 and 5 of RFC 4648: bits in groups of six, each written as a letter of a table. */
module Base64Text {
  import opened Bytes
  import opened BitStrings
  import opened Base64

  const UPPER := "ABCDEFGHIJKLMNOPQRSTUVWXYZ"
  const LOWER := "abcdefghijklmnopqrstuvwxyz"
  const DIGITS := "0123456789"

  /** Table 1 of the RFC. */
  const STANDARD := UPPER + LOWER + DIGITS + "+/"

  /** Table 2 of the RFC, with the safe alphabet for URLs. */
  const URL_SAFE := UPPER + LOWER + DIGITS + "-_"

  function Zeros(n: nat): seq<bool> { seq(n, _ => false) }

  /** Six bits a letter; zeros fill up the last group. */
  function Spelled(bits: seq<bool>, table: string): string
    requires |table| == 64
  {
    if bits == [] then ""
    else if |bits| < 6 then [LetterOf(bits + Zeros(6 - |bits|), table)]
    else [LetterOf(bits[..6], table)] + Spelled(bits[6..], table)
  }

  function LetterOf(six: seq<bool>, table: string): char
    requires |six| == 6 && |table| == 64
  {
    BitsOfNumber(six);
    assert Pow2(6) == 64 by { SixtyFour(); }
    table[Number(six)]
  }

  lemma SixtyFour()
    ensures Pow2(6) == 64 && Pow2(8) == 256 && Pow2(16) == 65536
  {
    assert Pow2(3) == 8 && Pow2(11) == 2048;
  }

  /** The text of bytes: their bits in letters, and fills up to a multiple of four. */
  predicate IsText(text: string, bin: Bytes, table: string, fill: string)
    requires |table| == 64
  {
    var letters := Spelled(AllBits(bin), table);
    exists n :: 0 <= n < 3 && (|letters| + n) % 4 == 0 && text == letters + Fills(fill, n)
  }

  predicate IsTable(al: Alphabet, table: string) { |table| == 64 && forall v :: 0 <= v < 64 ==> al.Letter(v) == table[v] }

  lemma Tables()
    ensures IsTable(BASE64, STANDARD) && IsTable(BASE64URL, URL_SAFE)
  {
    UpperCase();
    LowerCase();
    Digits();
    hide UPPER, LOWER, DIGITS;
    assert STANDARD[62] == '+' && STANDARD[63] == '/' && URL_SAFE[62] == '-' && URL_SAFE[63] == '_';
    forall v | 0 <= v < 62 ensures STANDARD[v] == URL_SAFE[v] == BASE64.Letter(v) {
      assert v < 26 ==> STANDARD[v] == UPPER[v] == URL_SAFE[v];
      assert 26 <= v < 52 ==> STANDARD[v] == LOWER[v - 26] == URL_SAFE[v];
      assert 52 <= v ==> STANDARD[v] == DIGITS[v - 52] == URL_SAFE[v];
    }
  }

  lemma UpperCase()
    ensures |UPPER| == 26 && forall v :: 0 <= v < 26 ==> UPPER[v] == 'A' + v as char
  {}

  lemma LowerCase()
    ensures |LOWER| == 26 && forall v :: 0 <= v < 26 ==> LOWER[v] == 'a' + v as char
  {}

  lemma Digits()
    ensures |DIGITS| == 10 && forall v :: 0 <= v < 10 ==> DIGITS[v] == '0' + v as char
  {}

  // ---- Letters and bits ---------------------------------------------------------------------------------------------------

  lemma OneLetter(v: nat, rest: seq<bool>, al: Alphabet, table: string)
    requires v < 64 && IsTable(al, table)
    ensures Spelled(Bits(v, 6) + rest, table) == [al.Letter(v)] + Spelled(rest, table)
  {
    SixtyFour();
    NumberOfBits(v, 6);
    hide Bits;
    assert (Bits(v, 6) + rest)[..6] == Bits(v, 6) && (Bits(v, 6) + rest)[6..] == rest;
  }

  function Octets(a: Byte, b: Byte, c: Byte): seq<bool> { Bits(a as int, 8) + Bits(b as int, 8) + Bits(c as int, 8) }

  function Sixes(t: nat): seq<bool> { Bits(SextetOf(t, 3), 6) + Bits(SextetOf(t, 2), 6) + Bits(SextetOf(t, 1), 6) + Bits(SextetOf(t, 0), 6) }

  lemma OctetBits(a: Byte, b: Byte, c: Byte)
    ensures Octets(a, b, c) == Bits(Triple(a, b, c), 24)
  {
    SixtyFour();
    hide Bits;
    BitsJoin(a as int, b as int, 8, 8);
    BitsJoin(a as int * 256 + b as int, c as int, 16, 8);
  }

  lemma JoinSix(high: nat, low: nat, width: nat)
    requires low < 64
    ensures Bits(high * 64 + low, width + 6) == Bits(high, width) + Bits(low, 6)
  {
    SixtyFour();
    hide Bits, Pow2;
    BitsJoin(high, low, width, 6);
  }

  lemma ThreeSixes(w: nat, x: nat, y: nat)
    requires w < 64 && x < 64 && y < 64
    ensures Bits(w, 6) + Bits(x, 6) + Bits(y, 6) == Bits((w * 64 + x) * 64 + y, 18)
  {
    hide *;
    JoinSix(w, x, 6);
    JoinSix(w * 64 + x, y, 12);
  }

  lemma FourSixes(w: nat, x: nat, y: nat, z: nat, v: nat)
    requires w < 64 && x < 64 && y < 64 && z < 64 && v == (w * 64 + x) * 64 + y
    ensures Bits(w, 6) + Bits(x, 6) + Bits(y, 6) + Bits(z, 6) == Bits(v * 64 + z, 24)
  {
    hide *;
    ThreeSixes(w, x, y);
    JoinSix(v, z, 18);
  }

  lemma SixesAre(t: nat)
    ensures Sixes(t) == Bits(SextetOf(t, 3), 6) + Bits(SextetOf(t, 2), 6) + Bits(SextetOf(t, 1), 6) + Bits(SextetOf(t, 0), 6)
  {}

  lemma SextetBits(t: nat)
    requires t < 0x1000000
    ensures Sixes(t) == Bits(t, 24)
  {
    hide *;
    FourIs(t);
    SixesAre(t);
    FourSixes(SextetOf(t, 3), SextetOf(t, 2), SextetOf(t, 1), SextetOf(t, 0),
              (SextetOf(t, 3) * 64 + SextetOf(t, 2)) * 64 + SextetOf(t, 1));
  }

  lemma FourIs(t: nat)
    requires t < 0x1000000
    ensures t == ((SextetOf(t, 3) * 64 + SextetOf(t, 2)) * 64 + SextetOf(t, 1)) * 64 + SextetOf(t, 0)
  {
    SextetsMakeTriple(t);
    hide SextetOf;
  }

  /** The bits of three bytes are those of four sextets. */
  lemma TripleBits(a: Byte, b: Byte, c: Byte)
    ensures Octets(a, b, c) == Sixes(Triple(a, b, c))
  {
    OctetsOfTriple(a, b, c);
    hide *;
    OctetBits(a, b, c);
    SextetBits(Triple(a, b, c));
  }

  lemma FourLetters(t: nat, rest: seq<bool>, al: Alphabet, table: string)
    requires IsTable(al, table)
    ensures Spelled(Sixes(t) + rest, table) == Quad(al, t) + Spelled(rest, table)
  {
    hide Bits, SextetOf, Spelled, IsTable;
    var w, x, y, z := SextetOf(t, 3), SextetOf(t, 2), SextetOf(t, 1), SextetOf(t, 0);
    OneLetter(z, rest, al, table);
    OneLetter(y, Bits(z, 6) + rest, al, table);
    OneLetter(x, Bits(y, 6) + (Bits(z, 6) + rest), al, table);
    OneLetter(w, Bits(x, 6) + (Bits(y, 6) + (Bits(z, 6) + rest)), al, table);
    assert Bits(w, 6) + Bits(x, 6) + Bits(y, 6) + Bits(z, 6) + rest == Bits(w, 6) + (Bits(x, 6) + (Bits(y, 6) + (Bits(z, 6) + rest)));
  }

  lemma {:induction false} BitsAppend(a: Bytes, b: Bytes)
    ensures AllBits(a + b) == AllBits(a) + AllBits(b)
  {
    if b == [] {
      assert a + b == a && AllBits(a) + [] == AllBits(a);
    } else {
      BitsAppend(a, b[..|b| - 1]);
      assert (a + b)[..|a + b| - 1] == a + b[..|b| - 1];
    }
  }

  lemma BitsOfOne(a: Byte)
    ensures AllBits([a]) == Bits(a as int, 8)
  {
    assert [a][..0] == [] && AllBits([]) == [];
    assert [] + Bits(a as int, 8) == Bits(a as int, 8);
  }

  lemma BitsOfThree(a: Byte, b: Byte, c: Byte, rest: Bytes)
    ensures AllBits([a, b, c] + rest) == Octets(a, b, c) + AllBits(rest)
  {
    BitsOfOne(a);
    BitsOfOne(b);
    BitsOfOne(c);
    hide AllBits;
    BitsAppend([a], [b]);
    BitsAppend([a] + [b], [c]);
    assert [a] + [b] + [c] == [a, b, c];
    BitsAppend([a, b, c], rest);
  }

  // ---- The last group -----------------------------------------------------------------------------------------------------

  lemma {:induction false} Filled(bits: seq<bool>, n: nat, table: string)
    requires |table| == 64 && n < 6 && (|bits| + n) % 6 == 0
    ensures Spelled(bits, table) == Spelled(bits + Zeros(n), table)
    decreases |bits|
  {
    if bits == [] {
      assert bits + Zeros(n) == bits;
    } else if |bits| < 6 {
      assert (bits + Zeros(n))[..6] == bits + Zeros(n) && (bits + Zeros(n))[6..] == [];
    } else {
      Filled(bits[6..], n, table);
      assert (bits + Zeros(n))[..6] == bits[..6] && (bits + Zeros(n))[6..] == bits[6..] + Zeros(n);
    }
  }

  lemma NoBits()
    ensures Bits(0, 8) == Zeros(8)
  {
    assert Bits(0, 4) == Zeros(4);
  }

  lemma {:induction false} Prefix(bits: seq<bool>, k: nat, table: string)
    requires |table| == 64 && 6 * k <= |bits|
    ensures |Spelled(bits, table)| >= k && Spelled(bits[..6 * k], table) == Spelled(bits, table)[..k]
    decreases k
  {
    hide LetterOf;
    if k > 0 {
      Prefix(bits[6..], k - 1, table);
      assert bits[..6 * k][..6] == bits[..6] && bits[..6 * k][6..] == bits[6..][..6 * (k - 1)];
      assert ([LetterOf(bits[..6], table)] + Spelled(bits[6..], table))[..k]
          == [LetterOf(bits[..6], table)] + Spelled(bits[6..], table)[..k - 1];
    }
  }

  lemma TableSize(al: Alphabet, table: string)
    requires IsTable(al, table)
    ensures |table| == 64
  {}

  /** One or two bytes: the first letters of the triple that zeros make of them. */
  lemma TailLetters(bits: seq<bool>, t: nat, k: nat, al: Alphabet, table: string)
    requires IsTable(al, table) && (k == 1 || k == 2) && |bits| == 8 * k && Sixes(t) == bits + Zeros(24 - 8 * k)
    ensures Spelled(bits, table) == Quad(al, t)[..k + 1]
  {
    TableSize(al, table);
    hide Bits, SextetOf, Spelled, IsTable, Quad, Sixes;
    var n := 6 - 2 * k;
    FourLetters(t, [], al, table);
    assert Sixes(t) + [] == Sixes(t);
    assert Sixes(t)[..6 * (k + 1)] == bits + Zeros(n);
    Prefix(Sixes(t), k + 1, table);
    Filled(bits, n, table);
    assert Quad(al, t) + Spelled([], table) == Quad(al, t) by { NothingSpelled(table); }
  }

  lemma NothingSpelled(table: string)
    requires |table| == 64
    ensures Spelled([], table) == ""
  {}

  lemma OneByte(a: Byte, al: Alphabet, table: string)
    requires IsTable(al, table)
    ensures |table| == 64 && Spelled(AllBits([a]), table) == Quad(al, Triple(a, '\0', '\0'))[..2]
  {
    hide IsTable, Spelled, Quad, Triple, Sixes, Bits, AllBits;
    TableSize(al, table);
    BitsOfOne(a);
    TripleBits(a, '\0', '\0');
    NoBits();
    assert Bits(a as int, 8) + Zeros(8) + Zeros(8) == Bits(a as int, 8) + Zeros(16);
    TailLetters(Bits(a as int, 8), Triple(a, '\0', '\0'), 1, al, table);
  }

  lemma TwoBytes(a: Byte, b: Byte, al: Alphabet, table: string)
    requires IsTable(al, table)
    ensures |table| == 64 && Spelled(AllBits([a, b]), table) == Quad(al, Triple(a, b, '\0'))[..3]
  {
    hide IsTable, Spelled, Quad, Triple, Sixes, Bits, AllBits;
    TableSize(al, table);
    BitsOfOne(a);
    BitsOfOne(b);
    BitsAppend([a], [b]);
    assert [a] + [b] == [a, b];
    TripleBits(a, b, '\0');
    NoBits();
    TailLetters(Bits(a as int, 8) + Bits(b as int, 8), Triple(a, b, '\0'), 2, al, table);
  }

  // ---- The whole text -----------------------------------------------------------------------------------------------------

  /** The letters that are written are the bits of the bytes, six by six. */
  lemma {:induction false} LettersAreBits(bin: Bytes, al: Alphabet, table: string)
    requires IsTable(al, table)
    ensures |table| == 64 && Letters(bin, al) == Spelled(AllBits(bin), table)
  {
    hide IsTable, Spelled, Quad, Triple, Sixes, AllBits;
    TableSize(al, table);
    if bin == [] {
      BitsOfNone();
      NothingSpelled(table);
    } else if |bin| == 1 {
      OneByte(bin[0], al, table);
      assert bin == [bin[0]];
    } else if |bin| == 2 {
      TwoBytes(bin[0], bin[1], al, table);
      assert bin == [bin[0], bin[1]];
    } else {
      LettersAreBits(bin[3..], al, table);
      BitsOfThree(bin[0], bin[1], bin[2], bin[3..]);
      assert bin == [bin[0], bin[1], bin[2]] + bin[3..];
      TripleBits(bin[0], bin[1], bin[2]);
      FourLetters(Triple(bin[0], bin[1], bin[2]), AllBits(bin[3..]), al, table);
    }
  }

  lemma BitsOfNone()
    ensures AllBits([]) == []
  {}

  lemma {:induction false} LetterCount(bits: seq<bool>, table: string)
    requires |table| == 64
    ensures |Spelled(bits, table)| == (|bits| + 5) / 6
  {
    hide LetterOf;
    if |bits| >= 6 { LetterCount(bits[6..], table); }
  }

  lemma FillCount(n: nat)
    ensures 0 <= Missing(n) < 3 && ((8 * n + 5) / 6 + Missing(n)) % 4 == 0
  {
    var k := n / 3;
    if n % 3 == 0 { assert n == 3 * k && (24 * k + 5) / 6 == 4 * k; }
    if n % 3 == 1 { assert n == 3 * k + 1 && (24 * k + 13) / 6 == 4 * k + 2; }
    if n % 3 == 2 { assert n == 3 * k + 2 && (24 * k + 21) / 6 == 4 * k + 3; }
  }

  lemma IsTextWith(bin: Bytes, al: Alphabet, fill: string, table: string, n: nat)
    requires |table| == 64 && n == Missing(|bin|) < 3 && Letters(bin, al) == Spelled(AllBits(bin), table)
    requires (|Letters(bin, al)| + n) % 4 == 0
    ensures IsText(Encoded(bin, al, fill), bin, table, fill)
  {
    hide Letters, Spelled, AllBits, Missing;
  }

  /** What is encoded is the text that the RFC gives. */
  lemma EncodedIsText(bin: Bytes, al: Alphabet, fill: string, table: string)
    requires IsTable(al, table)
    ensures |table| == 64 && IsText(Encoded(bin, al, fill), bin, table, fill)
  {
    LettersAreBits(bin, al, table);
    hide Letters, Spelled, AllBits, IsTable;
    LetterCount(AllBits(bin), table);
    hide IsText;
    FillCount(|bin|);
    hide Missing;
    IsTextWith(bin, al, fill, table, Missing(|bin|));
  }

  /** The two alphabets in use: the standard one with "=", and the one for URLs with "%3d". */
  lemma EncodedIsRfc(bin: Bytes)
    ensures |STANDARD| == 64 && IsText(Encoded(bin, BASE64, FILL), bin, STANDARD, "=")
    ensures |URL_SAFE| == 64 && IsText(Encoded(bin, BASE64URL, URL_FILL), bin, URL_SAFE, "%3d")
  {
    hide Encoded, IsText, IsTable, STANDARD, URL_SAFE;
    Tables();
    EncodedIsText(bin, BASE64, FILL, STANDARD);
    EncodedIsText(bin, BASE64URL, URL_FILL, URL_SAFE);
  }
}

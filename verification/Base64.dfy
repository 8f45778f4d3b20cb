/** jwt-cpp base64: an alphabet, a fill text, and the four functions that encode, pad, trim and decode. */
module Base64 {
  import opened Bytes

  datatype Error = TooMuchFill | WrongSize | NotInAlphabet

  datatype Result<T> = Ok(value: T) | Err(error: Error)

  /** The two tables of an alphabet: `Letter` writes a sextet, `Sextet` reads one back or is -1. */
  datatype Alphabet = Alphabet(plus: char, slash: char) {
    predicate Valid() { plus in "+-" && slash in "/_" }

    function Letter(v: nat): char
      requires v < 64
    {
      if v < 26 then 'A' + v as char
      else if v < 52 then 'a' + (v - 26) as char
      else if v < 62 then '0' + (v - 52) as char
      else if v == 62 then plus
      else slash
    }

    function Sextet(c: char): (v: int)
      ensures -1 <= v < 64
    {
      if 'A' <= c <= 'Z' then c as int - 'A' as int
      else if 'a' <= c <= 'z' then c as int - 'a' as int + 26
      else if '0' <= c <= '9' then c as int - '0' as int + 52
      else if c == plus then 62
      else if c == slash then 63
      else -1
    }

    lemma SextetOfLetter(v: nat)
      requires Valid() && v < 64
      ensures Sextet(Letter(v)) == v
    {}

    lemma LetterOfSextet(c: char)
      requires Sextet(c) != -1
      ensures Letter(Sextet(c)) == c
    {}

    predicate Spells(s: string) { forall i :: 0 <= i < |s| ==> Sextet(s[i]) != -1 }
  }

  const BASE64 := Alphabet('+', '/')
  const BASE64URL := Alphabet('-', '_')
  const FILL := "="
  const URL_FILL := "%3d"
  const PERCENT_FILLS := ["%3D", "%3d"]

  /** A fill text that no text over an alphabet can run into. */
  predicate FillFits(al: Alphabet, fill: string) { fill != "" && al.Sextet(fill[0]) == -1 }

  /** Fills that fit, none of them the end of another. */
  predicate AllFillsFit(al: Alphabet, fills: seq<string>) {
    && (forall f :: f in fills ==> FillFits(al, f))
    && (forall f, g :: f in fills && g in fills && f != g ==> !EndsWith(f, g))
  }

  lemma FillsFit()
    ensures BASE64.Valid() && BASE64URL.Valid() && FillFits(BASE64, FILL) && FillFits(BASE64URL, URL_FILL)
    ensures AllFillsFit(BASE64, [FILL]) && AllFillsFit(BASE64URL, [URL_FILL]) && AllFillsFit(BASE64URL, PERCENT_FILLS)
  {}

  // ---- Three bytes are four sextets -----------------------------------------------------------------------------

  function Triple(a: Byte, b: Byte, c: Byte): nat { a as int * 0x10000 + b as int * 0x100 + c as int }

  /** (triple >> 6 * k) & 0x3F */
  function SextetOf(triple: nat, k: nat): (v: nat)
    requires k < 4
    ensures v < 64
  {
    (if k == 0 then triple else if k == 1 then triple / 64 else if k == 2 then triple / 64 / 64 else triple / 64 / 64 / 64) % 64
  }

  /** (triple >> 8 * k) & 0xFF */
  function OctetOf(triple: nat, k: nat): (c: Byte)
    requires k < 3
  {
    ((if k == 0 then triple else if k == 1 then triple / 256 else triple / 256 / 256) % 256) as char
  }

  function Quadruple(a: nat, b: nat, c: nat, d: nat): nat { a * 262144 + b * 4096 + c * 64 + d }

  lemma SextetsMakeTriple(t: nat)
    requires t < 0x1000000
    ensures Quadruple(SextetOf(t, 3), SextetOf(t, 2), SextetOf(t, 1), SextetOf(t, 0)) == t
  {
    var q := t / 64;
    var r := q / 64;
    var s := r / 64;
    assert t == q * 64 + t % 64 && q == r * 64 + q % 64 && r == s * 64 + r % 64 && s < 64;
  }

  lemma DivMod(t: nat, q: nat, m: nat, r: nat)
    requires t == q * m + r && r < m
    ensures t / m == q && t % m == r
  {
    var d := t / m - q;
    assert t == (t / m) * m + t % m;
    assert (t / m) * m == q * m + d * m;
    NoMultipleBetween(m, d);
  }

  lemma NoMultipleBetween(m: int, d: int)
    requires m > 0 && -m < d * m < m
    ensures d == 0
  {
    AtLeast(m, d);
    AtLeast(m, -d);
    assert (-d) * m == -(d * m);
  }

  lemma AtLeast(m: int, d: int)
    requires m > 0
    ensures d >= 1 ==> d * m >= m
  {
    if d >= 1 { assert (d - 1) * m >= 0; }
  }

  lemma OctetsOfTriple(a: Byte, b: Byte, c: Byte)
    ensures Triple(a, b, c) < 0x1000000
    ensures OctetOf(Triple(a, b, c), 2) == a && OctetOf(Triple(a, b, c), 1) == b && OctetOf(Triple(a, b, c), 0) == c
  {
    var x, y, z := a as int, b as int, c as int;
    DivMod(Triple(a, b, c), x * 256 + y, 256, z);
    DivMod(x * 256 + y, x, 256, y);
  }

  lemma SextetsOfQuadruple(a: nat, b: nat, c: nat, d: nat)
    requires a < 64 && b < 64 && c < 64 && d < 64
    ensures SextetOf(Quadruple(a, b, c, d), 3) == a && SextetOf(Quadruple(a, b, c, d), 2) == b
    ensures SextetOf(Quadruple(a, b, c, d), 1) == c && SextetOf(Quadruple(a, b, c, d), 0) == d
  {
    var t := Quadruple(a, b, c, d);
    DivMod(a * 64 + b, a, 64, b);
    DivMod(t, a * 4096 + b * 64 + c, 64, d);
    DivMod(a * 4096 + b * 64 + c, a * 64 + b, 64, c);
  }

  lemma OctetsMakeQuadruple(t: nat)
    requires t < 0x1000000
    ensures Triple(OctetOf(t, 2), OctetOf(t, 1), OctetOf(t, 0)) == t
  {
    var q := t / 256;
    var r := q / 256;
    assert t == q * 256 + t % 256 && q == r * 256 + q % 256 && r < 256;
  }

  // ---- Encoding ---------------------------------------------------------------------------------------------------

  function Quad(al: Alphabet, t: nat): (r: string)
    ensures |r| == 4
  {
    [al.Letter(SextetOf(t, 3)), al.Letter(SextetOf(t, 2)), al.Letter(SextetOf(t, 1)), al.Letter(SextetOf(t, 0))]
  }

  /** The letters of the encoding, without fill. */
  function Letters(bin: Bytes, al: Alphabet): string {
    if bin == [] then []
    else if |bin| == 1 then Quad(al, Triple(bin[0], '\0', '\0'))[..2]
    else if |bin| == 2 then Quad(al, Triple(bin[0], bin[1], '\0'))[..3]
    else Quad(al, Triple(bin[0], bin[1], bin[2])) + Letters(bin[3..], al)
  }

  function Missing(n: nat): nat { (3 - n % 3) % 3 }

  function Fills(fill: string, n: nat): string { if n == 0 then [] else Fills(fill, n - 1) + fill }

  function Encoded(bin: Bytes, al: Alphabet, fill: string): string { Letters(bin, al) + Fills(fill, Missing(|bin|)) }

  lemma LettersUnfold(bin: Bytes, al: Alphabet, i: nat, res: string)
    requires i + 3 <= |bin|
    ensures (res + Quad(al, Triple(bin[i], bin[i + 1], bin[i + 2]))) + Letters(bin[i + 3..], al) == res + Letters(bin[i..], al)
  {
    assert bin[i..][3..] == bin[i + 3..];
  }

  method Encode(bin: Bytes, al: Alphabet, fill: string) returns (res: string)
    ensures res == Encoded(bin, al, fill)
  {
    hide Quad, Triple, Letters, Fills;
    var size := |bin|;
    res := [];
    var fastSize := size - size % 3;
    var i := 0;
    assert bin[0..] == bin;
    while i < fastSize
      invariant 0 <= i <= fastSize && i % 3 == 0
      invariant res + Letters(bin[i..], al) == Letters(bin, al)
    {
      LettersUnfold(bin, al, i, res);
      res := res + Quad(al, Triple(bin[i], bin[i + 1], bin[i + 2]));
      i := i + 3;
    }
    var tail := EncodeTail(bin[i..], al, fill);
    assert Letters(bin, al) + Fills(fill, Missing(size)) == res + (Letters(bin[i..], al) + Fills(fill, Missing(size)));
    res := res + tail;
  }

  /** The incomplete bytes at the end. */
  method EncodeTail(bin: Bytes, al: Alphabet, fill: string) returns (res: string)
    requires |bin| < 3
    ensures res == Encoded(bin, al, fill)
  {
    hide Quad, Triple;
    FillsTwice(fill);
    if |bin| == 0 { return []; }
    var b := if |bin| > 1 then bin[1] else '\0';
    var quad := Quad(al, Triple(bin[0], b, '\0'));
    if |bin| == 1 {
      res := quad[..2] + (fill + fill);
    } else {
      res := quad[..3] + fill;
    }
  }

  lemma FillsTwice(fill: string)
    ensures Fills(fill, 1) == fill && Fills(fill, 2) == fill + fill
  {
    assert Fills(fill, 0) + fill == fill;
  }

  // ---- Fill ---------------------------------------------------------------------------------------------------------

  datatype Padding = Padding(count: nat, length: nat)

  predicate EndsWith(s: string, part: string) { |part| <= |s| && s[|s| - |part|..] == part }

  /** The first of the fills with which the text ends. */
  function EndFill(s: string, fills: seq<string>): (r: string)
    ensures r != "" ==> r in fills && EndsWith(s, r)
    ensures r == "" <==> forall f :: f in fills && f != "" ==> !EndsWith(s, f)
  {
    if fills == [] then ""
    else if fills[0] != "" && EndsWith(s, fills[0]) then fills[0]
    else EndFill(s, fills[1..])
  }

  /** How many fills the text ends with and how long they are together; no fill may be empty. */
  function CountPadding(s: string, fills: seq<string>): (p: Padding)
    ensures p.length <= |s|
  {
    var fill := EndFill(s, fills);
    if fill == "" then Padding(0, 0)
    else
      var rest := CountPadding(s[..|s| - |fill|], fills);
      Padding(1 + rest.count, |fill| + rest.length)
  }

  /** How many fills pad a length up to the next multiple of four. */
  function PadCount(n: nat): (r: nat)
    ensures r <= 3 && (n + r) % 4 == 0 && (r > 2 <==> n % 4 == 1)
  {
    (4 - n % 4) % 4
  }

  method Pad(base: string, fill: string) returns (r: string)
    ensures r == base + Fills(fill, PadCount(|base|))
  {
    var padding := "";
    var n := |base| % 4;
    FillsTwice(fill);
    if n == 1 { padding := padding + fill; }
    if n == 1 || n == 2 { padding := padding + fill; }
    if n == 1 || n == 2 || n == 3 { padding := padding + fill; }
    assert Fills(fill, 3) == Fills(fill, 2) + fill;
    r := base + padding;
  }

  function Trim(base: string, fill: string): string {
    var pos := Find(base, fill, 0);
    if pos == -1 then base else assert OccursAt(base, pos, fill); base[..pos]
  }

  // ---- Decoding -------------------------------------------------------------------------------------------------------

  function QuadValue(s: string, al: Alphabet): nat
    requires |s| == 4 && al.Spells(s)
  {
    assert al.Sextet(s[0]) >= 0 && al.Sextet(s[1]) >= 0 && al.Sextet(s[2]) >= 0 && al.Sextet(s[3]) >= 0;
    Quadruple(al.Sextet(s[0]), al.Sextet(s[1]), al.Sextet(s[2]), al.Sextet(s[3]))
  }

  /** The bytes of letters; a last group has two or three of them. */
  function Unletters(s: string, al: Alphabet): Bytes
    requires al.Valid() && al.Spells(s) && |s| % 4 != 1
  {
    var zero := al.Letter(0);
    if s == [] then []
    else if |s| == 2 then
      var t := QuadValue(s + [zero, zero], al);
      [OctetOf(t, 2)]
    else if |s| == 3 then
      var t := QuadValue(s + [zero], al);
      [OctetOf(t, 2), OctetOf(t, 1)]
    else
      assert forall i :: 0 <= i < |s[4..]| ==> s[4..][i] == s[i + 4];
      var t := QuadValue(s[..4], al);
      [OctetOf(t, 2), OctetOf(t, 1), OctetOf(t, 0)] + Unletters(s[4..], al)
  }

  /** Which texts decode, and to what. */
  function Decoded(base: string, al: Alphabet, fills: seq<string>): Result<Bytes>
    requires al.Valid()
  {
    var pad := CountPadding(base, fills);
    var s := base[..|base| - pad.length];
    DecodedLetters(s, pad.count, al)
  }

  method GetSextet(base: string, al: Alphabet, offset: nat) returns (ok: bool, v: nat)
    requires offset < |base|
    ensures ok == (al.Sextet(base[offset]) != -1) && (ok ==> v == al.Sextet(base[offset]))
  {
    var index := al.Sextet(base[offset]);
    if index <= -1 { return false, 0; }
    return true, index;
  }

  /** One full group; None where a letter is not in the alphabet. */
  method DecodeQuad(base: string, al: Alphabet, i: nat) returns (ok: bool, bytes: Bytes)
    requires al.Valid() && i + 4 <= |base|
    ensures ok == al.Spells(base[i..i + 4])
    ensures ok ==> bytes == Unletters(base[i..i + 4], al)
  {
    hide Quadruple, OctetOf;
    bytes := [];
    var s := base[i..i + 4];
    var a, b, c, d;
    ok, a := GetSextet(base, al, i);
    if !ok { assert s[0] == base[i]; return; }
    ok, b := GetSextet(base, al, i + 1);
    if !ok { assert s[1] == base[i + 1]; return; }
    ok, c := GetSextet(base, al, i + 2);
    if !ok { assert s[2] == base[i + 2]; return; }
    ok, d := GetSextet(base, al, i + 3);
    if !ok { assert s[3] == base[i + 3]; return; }
    var triple := Quadruple(a, b, c, d);
    assert s[..4] == s && s[4..] == [] && Unletters([], al) == [];
    bytes := [OctetOf(triple, 2), OctetOf(triple, 1), OctetOf(triple, 0)];
  }

  /** The last group, of two or three letters. */
  method DecodeTail(base: string, al: Alphabet, i: nat, count: nat) returns (ok: bool, bytes: Bytes)
    requires al.Valid() && 1 <= count <= 2 && i + 4 - count <= |base|
    ensures ok == al.Spells(base[i..i + 4 - count])
    ensures ok ==> bytes == Unletters(base[i..i + 4 - count], al)
  {
    hide OctetOf;
    bytes := [];
    var s := base[i..i + 4 - count];
    al.SextetOfLetter(0);
    var a, b;
    ok, a := GetSextet(base, al, i);
    if !ok { assert s[0] == base[i]; return; }
    ok, b := GetSextet(base, al, i + 1);
    if !ok { assert s[1] == base[i + 1]; return; }
    var triple := a * 262144 + b * 4096;
    if count == 1 {
      var c;
      ok, c := GetSextet(base, al, i + 2);
      if !ok { assert s[2] == base[i + 2]; return; }
      triple := triple + c * 64;
      bytes := [OctetOf(triple, 2), OctetOf(triple, 1)];
    } else {
      bytes := [OctetOf(triple, 2)];
    }
  }

  lemma SpellsParts(s: string, i: nat, al: Alphabet)
    requires i <= |s|
    ensures al.Spells(s) <==> al.Spells(s[..i]) && al.Spells(s[i..])
  {
    forall k | 0 <= k < |s| ensures s[k] == if k < i then s[..i][k] else s[i..][k - i] {}
    if al.Spells(s[..i]) && al.Spells(s[i..]) {
      forall k | 0 <= k < |s| ensures al.Sextet(s[k]) != -1 {
        if k < i { assert s[..i][k] == s[k]; } else { assert s[i..][k - i] == s[k]; }
      }
    }
  }

  lemma UnlettersStep(t: string, al: Alphabet)
    requires al.Valid() && al.Spells(t) && |t| >= 4 && |t| % 4 != 1
    ensures al.Spells(t[..4]) && al.Spells(t[4..]) && Unletters(t, al) == Unletters(t[..4], al) + Unletters(t[4..], al)
  {
    hide *;
    SpellsParts(t, 4, al);
    NoLetters(al);
    UnlettersOfFour(t[..4], t[4..], al);
    UnlettersOfFour(t[..4], [], al);
    assert t[..4] + t[4..] == t && t[..4] + [] == t[..4];
  }

  lemma UnlettersOfFour(quad: string, rest: string, al: Alphabet)
    requires al.Valid() && |quad| == 4 && al.Spells(quad) && al.Spells(rest) && |rest| % 4 != 1
    ensures al.Spells(quad + rest) && |quad + rest| % 4 == |rest| % 4
    ensures var v := QuadValue(quad, al);
            Unletters(quad + rest, al) == [OctetOf(v, 2), OctetOf(v, 1), OctetOf(v, 0)] + Unletters(rest, al)
  {
    hide QuadValue, OctetOf, Alphabet.Sextet, Alphabet.Valid;
    assert (quad + rest)[..4] == quad && (quad + rest)[4..] == rest;
    SpellsParts(quad + rest, 4, al);
  }

  lemma UnlettersUnfold(s: string, i: nat, al: Alphabet)
    requires i + 4 <= |s| && al.Valid() && al.Spells(s[i..]) && |s[i..]| % 4 != 1
    ensures al.Spells(s[i..i + 4]) && al.Spells(s[i + 4..])
    ensures Unletters(s[i..], al) == Unletters(s[i..i + 4], al) + Unletters(s[i + 4..], al)
  {
    hide Unletters, Alphabet.Spells;
    var t := s[i..];
    UnlettersStep(t, al);
    assert t[..4] == s[i..i + 4] && t[4..] == s[i + 4..];
  }

  method Decode(base: string, al: Alphabet, fills: seq<string>) returns (r: Result<Bytes>)
    requires al.Valid()
    ensures r == Decoded(base, al, fills)
  {
    hide Unletters, Alphabet.Spells, CountPadding, Alphabet.Valid, Alphabet.Sextet;
    var pad := CountPadding(base, fills);
    if pad.count > 2 { return Err(TooMuchFill); }
    var size := |base| - pad.length;
    if (size + pad.count) % 4 != 0 { return Err(WrongSize); }
    ghost var s := base[..size];
    var res: Bytes := [];
    var fastSize := size - size % 4;
    var i := 0;
    SpellsNothing(s, al);
    while i < fastSize
      invariant 0 <= i <= fastSize && i % 4 == 0 && al.Spells(s[..i])
      invariant al.Spells(s) ==> al.Spells(s[i..]) && res + Unletters(s[i..], al) == Unletters(s, al)
    {
      var ok, bytes := DecodeQuad(base, al, i);
      assert base[i..i + 4] == s[i..i + 4];
      OneMoreQuad(s, i, res, al);
      if !ok { return Err(NotInAlphabet); }
      res := res + bytes;
      i := i + 4;
    }
    SpellsParts(s, i, al);
    if pad.count == 0 {
      assert s[..i] == s && s[i..] == [];
      NoLetters(al);
      assert res + [] == res;
      return Ok(res);
    }
    var ok, bytes := DecodeTail(base, al, i, pad.count);
    assert base[i..i + 4 - pad.count] == s[i..];
    if !ok { return Err(NotInAlphabet); }
    r := Ok(res + bytes);
  }

  /** The letters up to i + 4, when those up to i are read. */
  lemma OneMoreQuad(s: string, i: nat, res: Bytes, al: Alphabet)
    requires al.Valid() && i + 4 <= |s| && i % 4 == 0 && |s| % 4 != 1 && al.Spells(s[..i])
    requires al.Spells(s) ==> al.Spells(s[i..]) && |s[i..]| % 4 != 1 && res + Unletters(s[i..], al) == Unletters(s, al)
    ensures al.Spells(s[i..i + 4]) ==> al.Spells(s[..i + 4])
    ensures al.Spells(s)
            ==> && al.Spells(s[i..i + 4]) && al.Spells(s[i + 4..]) && |s[i + 4..]| % 4 != 1
                && (res + Unletters(s[i..i + 4], al)) + Unletters(s[i + 4..], al) == Unletters(s, al)
  {
    hide *;
    assert |s[i + 4..]| % 4 == |s| % 4;
    assert s[..i + 4][i..] == s[i..i + 4] && s[..i + 4][..i] == s[..i];
    SpellsParts(s[..i + 4], i, al);
    SpellsParts(s, i + 4, al);
    if al.Spells(s) {
      UnlettersUnfold(s, i, al);
      var quad, rest := Unletters(s[i..i + 4], al), Unletters(s[i + 4..], al);
      assert res + (quad + rest) == (res + quad) + rest;
    }
  }

  lemma SpellsNothing(s: string, al: Alphabet)
    requires al.Valid()
    ensures al.Spells(s[..0]) && s[0..] == s
    ensures al.Spells(s) && |s| % 4 != 1 ==> al.Spells(s[0..]) && [] + Unletters(s[0..], al) == Unletters(s, al)
  {}

  lemma NoLetters(al: Alphabet)
    requires al.Valid()
    ensures al.Spells([]) && Unletters([], al) == []
  {}

  // ---- What is written is read back -------------------------------------------------------------------------------------

  lemma QuadIsRead(al: Alphabet, t: nat)
    requires al.Valid() && t < 0x1000000
    ensures al.Spells(Quad(al, t)) && QuadValue(Quad(al, t), al) == t
  {
    SextetsMakeTriple(t);
    hide SextetOf, Quadruple;
    al.SextetOfLetter(SextetOf(t, 3));
    al.SextetOfLetter(SextetOf(t, 2));
    al.SextetOfLetter(SextetOf(t, 1));
    al.SextetOfLetter(SextetOf(t, 0));
  }

  /** A triple whose last byte, or last two, are zero has zero sextets there. */
  lemma ShortTriples(a: Byte, b: Byte)
    ensures SextetOf(Triple(a, b, '\0'), 0) == 0
    ensures SextetOf(Triple(a, '\0', '\0'), 1) == 0 && SextetOf(Triple(a, '\0', '\0'), 0) == 0
  {
    var x, y := a as int, b as int;
    assert Triple(a, b, '\0') == (x * 1024 + y * 4) * 64;
    DivMod(Triple(a, b, '\0'), x * 1024 + y * 4, 64, 0);
    DivMod(Triple(a, '\0', '\0'), x * 1024, 64, 0);
    DivMod(x * 1024, x * 16, 64, 0);
  }

  lemma {:induction false} LettersAreRead(bin: Bytes, al: Alphabet)
    requires al.Valid()
    ensures al.Spells(Letters(bin, al)) && |Letters(bin, al)| % 4 == (4 - Missing(|bin|)) % 4
    ensures Unletters(Letters(bin, al), al) == bin
  {
    if bin == [] {
      NoLetters(al);
    } else if |bin| <= 2 {
      ShortIsRead(bin, al);
    } else {
      LettersAreRead(bin[3..], al);
      hide *;
      TripleIsRead(bin, al);
    }
  }

  lemma ShortIsRead(bin: Bytes, al: Alphabet)
    requires al.Valid() && 1 <= |bin| <= 2
    ensures al.Spells(Letters(bin, al)) && |Letters(bin, al)| % 4 == (4 - Missing(|bin|)) % 4
    ensures Unletters(Letters(bin, al), al) == bin
  {
    hide SextetOf, OctetOf, QuadValue, Alphabet.Sextet, Alphabet.Letter, Triple;
    var a := bin[0];
    var b := if |bin| > 1 then bin[1] else '\0';
    var t := Triple(a, b, '\0');
    OctetsOfTriple(a, b, '\0');
    QuadIsRead(al, t);
    var quad, zero := Quad(al, t), al.Letter(0);
    ShortTriples(a, b);
    if |bin| == 1 {
      assert quad[..2] + [zero, zero] == quad;
      assert bin == [a];
    } else {
      assert quad[..3] + [zero] == quad;
      assert bin == [a, b];
    }
  }

  lemma TripleIsRead(bin: Bytes, al: Alphabet)
    requires al.Valid() && |bin| >= 3
    requires var rest := Letters(bin[3..], al);
             al.Spells(rest) && |rest| % 4 == (4 - Missing(|bin| - 3)) % 4 && Unletters(rest, al) == bin[3..]
    ensures al.Spells(Letters(bin, al)) && |Letters(bin, al)| % 4 == (4 - Missing(|bin|)) % 4
    ensures Unletters(Letters(bin, al), al) == bin
  {
    hide *;
    var t := Triple(bin[0], bin[1], bin[2]);
    LettersOfThree(bin, al);
    OctetsOfTriple(bin[0], bin[1], bin[2]);
    QuadIsRead(al, t);
    FourMore(|Letters(bin[3..], al)|, |bin|);
    UnlettersOfFour(Quad(al, t), Letters(bin[3..], al), al);
    assert bin == [bin[0], bin[1], bin[2]] + bin[3..];
  }

  lemma LettersOfThree(bin: Bytes, al: Alphabet)
    requires |bin| >= 3
    ensures Letters(bin, al) == Quad(al, Triple(bin[0], bin[1], bin[2])) + Letters(bin[3..], al)
  {}

  lemma FourMore(n: nat, size: nat)
    requires size >= 3 && n % 4 == (4 - Missing(size - 3)) % 4
    ensures (4 + n) % 4 == n % 4 != 1 && Missing(size) == Missing(size - 3)
  {}

  lemma SpelledHasNoFill(s: string, al: Alphabet, fill: string)
    requires al.Spells(s) && FillFits(al, fill)
    ensures !EndsWith(s, fill)
  {
  }

  lemma NoFillToCount(s: string, al: Alphabet, fills: seq<string>)
    requires al.Spells(s) && AllFillsFit(al, fills)
    ensures CountPadding(s, fills) == Padding(0, 0)
  {
    forall f | f in fills ensures !EndsWith(s, f) { SpelledHasNoFill(s, al, f); }
  }

  /** Fills one after the other. */
  function Cat(parts: seq<string>): string {
    if parts == [] then [] else Cat(parts[..|parts| - 1]) + parts[|parts| - 1]
  }

  /** A text that ends with a fill ends with no other fill of the list. */
  lemma OneEndFill(text: string, al: Alphabet, fills: seq<string>, fill: string)
    requires AllFillsFit(al, fills) && fill in fills
    ensures EndFill(text + fill, fills) == fill
  {
    var whole := text + fill;
    assert EndsWith(whole, fill) && fill != "";
    var found := EndFill(whole, fills);
    EndOfEnd(whole, found, fill);
  }

  /** Of two ends of a text one is the end of the other. */
  lemma EndOfEnd(text: string, f: string, g: string)
    requires EndsWith(text, f) && EndsWith(text, g)
    ensures EndsWith(f, g) || EndsWith(g, f)
  {
    if |f| >= |g| {
      assert f[|f| - |g|..] == text[|text| - |f|..][|f| - |g|..] == g;
    } else {
      assert g[|g| - |f|..] == text[|text| - |g|..][|g| - |f|..] == f;
    }
  }

  lemma OneMoreFill(text: string, al: Alphabet, fills: seq<string>, fill: string)
    requires AllFillsFit(al, fills) && fill in fills
    ensures var p := CountPadding(text, fills);
            CountPadding(text + fill, fills) == Padding(1 + p.count, |fill| + p.length)
  {
    hide EndFill, AllFillsFit;
    OneEndFill(text, al, fills, fill);
    assert fill != "" by { assert FillFits(al, fill) by { AllFit(al, fills, fill); } }
    assert (text + fill)[..|text|] == text;
  }

  lemma AllFit(al: Alphabet, fills: seq<string>, fill: string)
    requires AllFillsFit(al, fills) && fill in fills
    ensures FillFits(al, fill)
  {}

  /** Any mixture of fills after letters is counted, and nothing else is. */
  lemma {:induction false} PaddingIsCounted(s: string, al: Alphabet, fills: seq<string>, parts: seq<string>)
    requires al.Spells(s) && AllFillsFit(al, fills) && forall part :: part in parts ==> part in fills
    ensures CountPadding(s + Cat(parts), fills) == Padding(|parts|, |Cat(parts)|)
  {
    hide CountPadding, AllFillsFit;
    if parts == [] {
      assert s + Cat(parts) == s;
      NoFillToCount(s, al, fills);
    } else {
      var init, last := parts[..|parts| - 1], parts[|parts| - 1];
      assert last in parts;
      PaddingIsCounted(s, al, fills, init);
      OneMoreFill(s + Cat(init), al, fills, last);
      assert s + Cat(parts) == (s + Cat(init)) + last;
    }
  }

  function Copies(fill: string, n: nat): (parts: seq<string>)
    ensures |parts| == n && forall part :: part in parts ==> part == fill
  {
    seq(n, _ => fill)
  }

  lemma {:induction false} FillsAreCopies(fill: string, n: nat)
    ensures Fills(fill, n) == Cat(Copies(fill, n))
  {
    if n > 0 {
      FillsAreCopies(fill, n - 1);
      assert Copies(fill, n)[..n - 1] == Copies(fill, n - 1);
    }
  }

  /** Trimming a written text leaves its letters. */
  lemma TrimmedIsLetters(s: string, al: Alphabet, fill: string, n: nat)
    requires al.Spells(s) && FillFits(al, fill)
    ensures Trim(s + Fills(fill, n), fill) == s
  {
    var text := s + Fills(fill, n);
    forall i | 0 <= i < |s| ensures !OccursAt(text, i, fill) {
      assert text[i] == s[i];
    }
    if n == 0 {
      assert text == s;
      assert forall i :: |s| <= i ==> !OccursAt(text, i, fill);
    } else {
      FirstFill(fill, n);
      assert text[|s|..|s| + |fill|] == fill;
      assert OccursAt(text, |s|, fill);
    }
  }

  lemma {:induction false} FirstFill(fill: string, n: nat)
    requires n > 0
    ensures |Fills(fill, n)| >= |fill| && Fills(fill, n)[..|fill|] == fill
  {
    if n == 1 {
      FillsTwice(fill);
    } else {
      FirstFill(fill, n - 1);
    }
  }

  /** What decoding does with a text of which the fill is known. */
  function DecodedLetters(s: string, count: nat, al: Alphabet): Result<Bytes>
    requires al.Valid()
  {
    if count > 2 then Err(TooMuchFill)
    else if (|s| + count) % 4 != 0 then Err(WrongSize)
    else if !al.Spells(s) then Err(NotInAlphabet)
    else Ok(Unletters(s, al))
  }

  /** Letters followed by fills decode when there are not too many of them and the sizes fit. */
  lemma FilledDecodes(s: string, al: Alphabet, fills: seq<string>, parts: seq<string>)
    requires al.Valid() && AllFillsFit(al, fills) && al.Spells(s) && forall part :: part in parts ==> part in fills
    ensures Decoded(s + Cat(parts), al, fills) == DecodedLetters(s, |parts|, al)
  {
    PaddingIsCounted(s, al, fills, parts);
    hide CountPadding, Unletters, Alphabet.Spells, Alphabet.Valid, Cat, DecodedLetters;
    var text := s + Cat(parts);
    assert text[..|text| - |Cat(parts)|] == s;
  }

  /** Padded with one of the fills. */
  lemma PaddedDecodes(s: string, al: Alphabet, fills: seq<string>, fill: string, n: nat)
    requires al.Valid() && AllFillsFit(al, fills) && al.Spells(s) && fill in fills
    ensures Decoded(s + Fills(fill, n), al, fills) == DecodedLetters(s, n, al)
  {
    hide *;
    FillsAreCopies(fill, n);
    FilledDecodes(s, al, fills, Copies(fill, n));
  }

  lemma LettersDecode(s: string, n: nat, al: Alphabet)
    requires al.Valid() && al.Spells(s) && n <= 3 && (|s| + n) % 4 == 0 && (n > 2 <==> |s| % 4 == 1)
    ensures DecodedLetters(s, n, al).Ok? <==> |s| % 4 != 1
    ensures |s| % 4 != 1 ==> DecodedLetters(s, n, al) == Ok(Unletters(s, al))
  {
    hide Unletters, Alphabet.Spells;
  }

  /** For text over the alphabet, decode(pad(s)) succeeds exactly when |s| mod 4 is not 1. */
  lemma PaddedDecodesIff(s: string, al: Alphabet, fills: seq<string>, fill: string)
    requires al.Valid() && AllFillsFit(al, fills) && al.Spells(s) && fill in fills
    ensures Decoded(s + Fills(fill, PadCount(|s|)), al, fills).Ok? <==> |s| % 4 != 1
    ensures |s| % 4 != 1 ==> Decoded(s + Fills(fill, PadCount(|s|)), al, fills) == Ok(Unletters(s, al))
  {
    hide *;
    PaddedDecodes(s, al, fills, fill, PadCount(|s|));
    LettersDecode(s, PadCount(|s|), al);
  }

  /** decode(encode(b)) and decode(pad(trim(encode(b)))) are b, for every byte string, whichever of the fills is written. */
  lemma RoundTrip(bin: Bytes, al: Alphabet, fills: seq<string>, fill: string)
    requires al.Valid() && AllFillsFit(al, fills) && fill in fills
    ensures Decoded(Encoded(bin, al, fill), al, fills) == Ok(bin)
    ensures var trimmed := Trim(Encoded(bin, al, fill), fill);
            Decoded(trimmed + Fills(fill, PadCount(|trimmed|)), al, fills) == Ok(bin)
  {
    hide *;
    var s, n := Letters(bin, al), Missing(|bin|);
    LettersAreRead(bin, al);
    LetterCount(|s|, |bin|);
    AllFit(al, fills, fill);
    TrimmedIsLetters(s, al, fill, n);
    PaddedDecodesIff(s, al, fills, fill);
    PaddedDecodes(s, al, fills, fill, n);
    LettersDecode(s, n, al);
    EncodedIs(bin, al, fill);
  }

  /** Two different fills may follow the letters, as with the two spellings of the percent-encoded one. */
  lemma MixedFills(bin: Bytes, al: Alphabet, fills: seq<string>, f: string, g: string)
    requires al.Valid() && AllFillsFit(al, fills) && f in fills && g in fills && |bin| % 3 == 1
    ensures Decoded(Letters(bin, al) + f + g, al, fills) == Ok(bin)
  {
    hide *;
    var s := Letters(bin, al);
    TwoFills(s, f, g);
    LettersAreRead(bin, al);
    PairCounts(|s|, |bin|);
    FilledDecodes(s, al, fills, [f, g]);
    LettersDecode(s, 2, al);
  }

  lemma PairCounts(n: nat, size: nat)
    requires n % 4 == (4 - Missing(size)) % 4 && size % 3 == 1
    ensures (n + 2) % 4 == 0 && n % 4 != 1
  {}

  lemma TwoFills(s: string, f: string, g: string)
    ensures s + Cat([f, g]) == s + f + g
  {
    assert [f, g][..1] == [f] && [f][..0] == [];
    assert Cat([f]) == Cat([]) + f == f;
  }

  lemma EncodedIs(bin: Bytes, al: Alphabet, fill: string)
    ensures Encoded(bin, al, fill) == Letters(bin, al) + Fills(fill, Missing(|bin|))
  {}

  lemma LetterCount(n: nat, size: nat)
    requires n % 4 == (4 - Missing(size)) % 4
    ensures Missing(size) <= 2 && (n + Missing(size)) % 4 == 0 && n % 4 != 1
  {}

  lemma HighOctet(t: nat, o: nat)
    requires o < 256 && o * 65536 <= t < (o + 1) * 65536
    ensures OctetOf(t, 2) as int == o
  {
    var rest := t - o * 65536;
    var high, low := rest / 256, rest % 256;
    assert rest == high * 256 + low && high < 256;
    DivMod(t, o * 256 + high, 256, low);
    DivMod(o * 256 + high, o, 256, high);
  }

  lemma TwoLetters(a: nat, b: nat)
    requires a < 64 && b < 64
    ensures Triple(OctetOf(Quadruple(a, b, 0, 0), 2), '\0', '\0') == Quadruple(a, (b / 16) * 16, 0, 0)
  {
    var high, low := b / 16, b % 16;
    assert b == high * 16 + low && high < 4;
    HighOctet(Quadruple(a, b, 0, 0), a * 4 + high);
  }

  lemma ThreeLetters(a: nat, b: nat, c: nat)
    requires a < 64 && b < 64 && c < 64
    ensures var t := Quadruple(a, b, c, 0); Triple(OctetOf(t, 2), OctetOf(t, 1), '\0') == Quadruple(a, b, (c / 4) * 4, 0)
  {
    var t := Quadruple(a, b, c, 0);
    var b1, b0, c1, c0 := b / 16, b % 16, c / 4, c % 4;
    assert b == b1 * 16 + b0 && c == c1 * 4 + c0 && b1 < 4 && c1 < 16;
    var o := a * 4 + b1;
    var m := b0 * 16 + c1;
    DivMod(t, o * 256 + m, 256, c0 * 64);
    DivMod(o * 256 + m, o, 256, m);
    assert OctetOf(t, 2) as int == o && OctetOf(t, 1) as int == m;
  }

  lemma SameLetter(al: Alphabet, v: nat, c: char)
    requires al.Valid() && v < 64 && al.Sextet(c) != -1
    ensures al.Letter(v) == c <==> v == al.Sextet(c)
  {
    al.SextetOfLetter(v);
    al.LetterOfSextet(c);
  }

  /** A text of letters is the encoding of what it decodes to exactly when the bits it does not use are zero. */
  lemma {:induction false} CanonicalIff(s: string, al: Alphabet)
    requires al.Valid() && al.Spells(s) && |s| % 4 != 1
    ensures Letters(Unletters(s, al), al) == s <==> UnusedBitsAreZero(s, al)
  {
    hide *;
    if |s| >= 4 {
      SpellsParts(s, 4, al);
      CanonicalIff(s[4..], al);
      CanonicalStep(s, al);
    } else if |s| == 2 {
      CanonicalTwo(s, al);
    } else if |s| == 3 {
      CanonicalThree(s, al);
    } else {
      CanonicalNone(s, al);
    }
  }

  lemma CanonicalNone(s: string, al: Alphabet)
    requires al.Valid() && al.Spells(s) && s == []
    ensures Letters(Unletters(s, al), al) == s && UnusedBitsAreZero(s, al)
  {}

  predicate UnusedBitsAreZero(s: string, al: Alphabet)
    requires |s| % 4 != 1
  {
    && (|s| % 4 == 2 ==> al.Sextet(s[|s| - 1]) % 16 == 0)
    && (|s| % 4 == 3 ==> al.Sextet(s[|s| - 1]) % 4 == 0)
  }

  lemma QuadOf(al: Alphabet, a: nat, b: nat, c: nat, d: nat)
    requires a < 64 && b < 64 && c < 64 && d < 64
    ensures Quad(al, Quadruple(a, b, c, d)) == [al.Letter(a), al.Letter(b), al.Letter(c), al.Letter(d)]
  {
    SextetsOfQuadruple(a, b, c, d);
    hide SextetOf, Quadruple, Alphabet.Letter;
  }

  lemma ShortValue(s: string, al: Alphabet)
    requires al.Valid() && al.Spells(s) && (|s| == 2 || |s| == 3)
    ensures al.Sextet(s[0]) >= 0 && al.Sextet(s[1]) >= 0 && (|s| == 3 ==> al.Sextet(s[2]) >= 0)
    ensures |s| == 2 ==> Unletters(s, al) == [OctetOf(Quadruple(al.Sextet(s[0]), al.Sextet(s[1]), 0, 0), 2)]
    ensures |s| == 3 ==> var t := Quadruple(al.Sextet(s[0]), al.Sextet(s[1]), al.Sextet(s[2]), 0);
                         Unletters(s, al) == [OctetOf(t, 2), OctetOf(t, 1)]
  {
    al.SextetOfLetter(0);
    hide OctetOf, Quadruple, Alphabet.Sextet, Alphabet.Letter;
  }

  lemma ShortLetters(bin: Bytes, al: Alphabet)
    requires |bin| == 1 || |bin| == 2
    ensures |bin| == 1 ==> Letters(bin, al) == Quad(al, Triple(bin[0], '\0', '\0'))[..2]
    ensures |bin| == 2 ==> Letters(bin, al) == Quad(al, Triple(bin[0], bin[1], '\0'))[..3]
  {
    hide Quad, Triple;
  }

  lemma RoundedDown(n: nat, m: nat)
    requires m > 0
    ensures 0 <= (n / m) * m <= n && ((n / m) * m == n <==> n % m == 0)
  {
    assert n == (n / m) * m + n % m;
  }

  lemma CanonicalTwo(s: string, al: Alphabet)
    requires al.Valid() && al.Spells(s) && |s| == 2
    ensures Letters(Unletters(s, al), al) == s <==> UnusedBitsAreZero(s, al)
  {
    ShortValue(s, al);
    var a, b := al.Sextet(s[0]), al.Sextet(s[1]);
    hide *;
    RoundedDown(b, 16);
    var d := (b / 16) * 16;
    TwoLetters(a, b);
    ShortLetters(Unletters(s, al), al);
    SameLetter(al, a, s[0]);
    SameLetter(al, d, s[1]);
    QuadOf(al, a, d, 0, 0);
    assert Letters(Unletters(s, al), al) == [al.Letter(a), al.Letter(d)];
    SameTwo(al.Letter(a), al.Letter(d), s);
    UnusedOfTwo(s, al);
  }

  lemma UnusedOfTwo(s: string, al: Alphabet)
    requires |s| == 2
    ensures UnusedBitsAreZero(s, al) <==> al.Sextet(s[1]) % 16 == 0
  {}

  lemma SameTwo(x: char, y: char, s: string)
    requires |s| == 2
    ensures [x, y] == s <==> x == s[0] && y == s[1]
  {
    assert s == [s[0], s[1]];
  }

  lemma CanonicalThree(s: string, al: Alphabet)
    requires al.Valid() && al.Spells(s) && |s| == 3
    ensures Letters(Unletters(s, al), al) == s <==> UnusedBitsAreZero(s, al)
  {
    ShortValue(s, al);
    var a, b, c := al.Sextet(s[0]), al.Sextet(s[1]), al.Sextet(s[2]);
    hide SextetOf, OctetOf, Triple, Quadruple, Quad, Letters, Unletters, Alphabet.Sextet, Alphabet.Letter, Alphabet.Valid;
    RoundedDown(c, 4);
    var d := (c / 4) * 4;
    ThreeLetters(a, b, c);
    ShortLetters(Unletters(s, al), al);
    SameLetter(al, a, s[0]);
    SameLetter(al, b, s[1]);
    SameLetter(al, d, s[2]);
    QuadOf(al, a, b, d, 0);
    assert Letters(Unletters(s, al), al) == [al.Letter(a), al.Letter(b), al.Letter(d)];
    SameThree(al.Letter(a), al.Letter(b), al.Letter(d), s);
  }

  lemma SameThree(x: char, y: char, z: char, s: string)
    requires |s| == 3
    ensures [x, y, z] == s <==> x == s[0] && y == s[1] && z == s[2]
  {
    assert s == [s[0], s[1], s[2]];
  }

  lemma QuadAgain(s: string, al: Alphabet)
    requires al.Valid() && al.Spells(s) && |s| == 4
    ensures QuadValue(s, al) < 0x1000000 && Quad(al, QuadValue(s, al)) == s
  {
    var a, b, c, d := al.Sextet(s[0]), al.Sextet(s[1]), al.Sextet(s[2]), al.Sextet(s[3]);
    assert a >= 0 && b >= 0 && c >= 0 && d >= 0;
    SextetsOfQuadruple(a, b, c, d);
    SameLetter(al, a, s[0]);
    SameLetter(al, b, s[1]);
    SameLetter(al, c, s[2]);
    SameLetter(al, d, s[3]);
    hide SextetOf, Alphabet.Sextet, Alphabet.Letter;
  }

  lemma UnusedBitsStep(s: string, al: Alphabet)
    requires |s| % 4 != 1 && |s| >= 4
    ensures |s[4..]| % 4 == |s| % 4 && (UnusedBitsAreZero(s, al) <==> UnusedBitsAreZero(s[4..], al))
  {
    hide Alphabet.Sextet;
  }

  lemma UnlettersGroup(s: string, al: Alphabet)
    requires al.Valid() && al.Spells(s) && |s| % 4 != 1 && |s| >= 4
    ensures al.Spells(s[..4]) && al.Spells(s[4..])
    ensures var t := QuadValue(s[..4], al);
            Unletters(s, al) == [OctetOf(t, 2), OctetOf(t, 1), OctetOf(t, 0)] + Unletters(s[4..], al)
  {
    SpellsParts(s, 4, al);
    hide QuadValue, OctetOf, Alphabet.Sextet;
  }

  lemma CanonicalStep(s: string, al: Alphabet)
    requires al.Valid() && al.Spells(s) && |s| % 4 != 1 && |s| >= 4
    ensures al.Spells(s[4..]) && (UnusedBitsAreZero(s, al) <==> UnusedBitsAreZero(s[4..], al))
    ensures Letters(Unletters(s, al), al) == s <==> Letters(Unletters(s[4..], al), al) == s[4..]
  {
    hide *;
    UnusedBitsStep(s, al);
    UnlettersGroup(s, al);
    GroupKept(s[..4], al);
    var t, rest := QuadValue(s[..4], al), Unletters(s[4..], al);
    LettersCons(OctetOf(t, 2), OctetOf(t, 1), OctetOf(t, 0), rest, al);
    SamePrefix(s[..4], Letters(rest, al), s[4..]);
    assert s == s[..4] + s[4..];
  }

  lemma GroupKept(s: string, al: Alphabet)
    requires al.Valid() && al.Spells(s) && |s| == 4
    ensures var t := QuadValue(s, al); Quad(al, Triple(OctetOf(t, 2), OctetOf(t, 1), OctetOf(t, 0))) == s
  {
    QuadAgain(s, al);
    OctetsMakeQuadruple(QuadValue(s, al));
    hide *;
  }

  lemma LettersCons(a: Byte, b: Byte, c: Byte, rest: Bytes, al: Alphabet)
    ensures Letters([a, b, c] + rest, al) == Quad(al, Triple(a, b, c)) + Letters(rest, al)
  {
    hide Quad, Triple;
    assert ([a, b, c] + rest)[3..] == rest;
  }

  lemma SamePrefix(p: string, x: string, y: string)
    ensures p + x == p + y <==> x == y
  {
    assert (p + x)[|p|..] == x && (p + y)[|p|..] == y;
  }

  /** The three calls of a JWT part: encode and trim, then pad and decode. */
  method EncodeAndDecode(bin: Bytes) returns (text: string, r: Result<Bytes>)
    ensures BASE64URL.Spells(text) && r == Ok(bin)
  {
    FillsFit();
    hide *;
    RoundTrip(bin, BASE64URL, [URL_FILL], URL_FILL);
    EncodedIsFilled(bin);
    var encoded := Encode(bin, BASE64URL, URL_FILL);
    text := Trim(encoded, URL_FILL);
    var padded := Pad(text, URL_FILL);
    r := Decode(padded, BASE64URL, [URL_FILL]);
  }

  lemma EncodedIsFilled(bin: Bytes)
    ensures BASE64URL.Spells(Trim(Encoded(bin, BASE64URL, URL_FILL), URL_FILL))
  {
    LettersAreRead(bin, BASE64URL);
    TrimmedIsLetters(Letters(bin, BASE64URL), BASE64URL, URL_FILL, Missing(|bin|));
  }
}

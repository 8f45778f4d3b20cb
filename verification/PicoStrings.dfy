/** What picojson's reading of strings means: exactly the strings of JSON without control bytes and lone surrogates. */
module PicoStrings {
  import opened Bytes
  import opened Utf8
  import opened JsonStrings
  import opened PicoParse
  import PicoText
  import R = PicoRoundTrip

  /** One unit of JSON, or the two halves of a surrogate pair. */
  datatype Char = One(x: Unit) | Pair(high: Unit, low: Unit)

  predicate IsHigh(u: nat) { 0xD800 <= u < 0xDC00 }

  predicate IsLow(u: nat) { 0xDC00 <= u < 0xE000 }

  predicate IsChar(c: Char) {
    match c
    case One(Plain(b)) => b != '"' && b != '\\' && b >= ' '
    case One(Hex(u, digits)) => Spells(digits, u) && !IsHigh(u) && !IsLow(u)
    case One(x) => IsUnit(x)
    case Pair(Hex(h, digits), Hex(l, digits')) => Spells(digits, h) && IsHigh(h) && Spells(digits', l) && IsLow(l)
    case _ => false
  }

  function WrittenChar(c: Char): Bytes {
    match c
    case One(x) => Written(x)
    case Pair(high, low) => Written(high) + Written(low)
  }

  /** A pair stands for one code above 0xFFFF. */
  function CharMeaning(c: Char): Bytes
    requires IsChar(c)
  {
    match c
    case One(Plain(b)) => [b]
    case One(Short(_, b)) => [b]
    case One(Hex(u, _)) => Encoded(u)
    case Pair(high, low) => Encoded(0x1_0000 + (high.u - 0xD800) * 0x400 + (low.u - 0xDC00))
  }

  predicate AllChars(chars: seq<Char>) { forall i :: 0 <= i < |chars| ==> IsChar(chars[i]) }

  function Chars(chars: seq<Char>): Bytes {
    if chars == [] then [] else WrittenChar(chars[0]) + Chars(chars[1..])
  }

  function CharsSay(chars: seq<Char>): Bytes
    requires AllChars(chars)
  {
    if chars == [] then [] else CharMeaning(chars[0]) + CharsSay(chars[1..])
  }

  // ---- One character ------------------------------------------------------------------------------------------------------

  lemma DigitIsRead(c: Byte, v: nat)
    requires v < 16
    ensures IsDigitOf(c, v) <==> HexValue(c) == v
  {
    if IsDigitOf(c, v) { DigitNumber(c, v); }
    if HexValue(c) == v { NumberDigit(c, v); }
  }

  lemma CodeIsRead(s: Bytes, pos: nat, u: nat)
    requires pos + 4 <= |s|
    ensures Spells(s[pos..pos + 4], u) <==> QuadHex(s, pos) == Ok(u, pos + 4)
  {
    hide IsDigitOf, HexValue;
    var digits := s[pos..pos + 4];
    assert digits[0] == s[pos] && digits[1] == s[pos + 1] && digits[2] == s[pos + 2] && digits[3] == s[pos + 3];
    if u < 0x1_0000 {
      DigitIsRead(s[pos], u / 4096);
      DigitIsRead(s[pos + 1], u / 256 % 16);
      DigitIsRead(s[pos + 2], u / 16 % 16);
      DigitIsRead(s[pos + 3], u % 16);
      if QuadHex(s, pos).Ok? { FourDigits(HexValue(s[pos]), HexValue(s[pos + 1]), HexValue(s[pos + 2]), HexValue(s[pos + 3]), u); }
    }
  }

  lemma HexIsRead(s: Bytes, pos: nat, u: nat, digits: Bytes)
    requires Spells(digits, u) && OccursAt(s, pos, Written(Hex(u, digits)))
    ensures |digits| == 4 && pos + 6 <= |s| && s[pos] == '\\' && s[pos + 1] == 'u' && QuadHex(s, pos + 2) == Ok(u, pos + 6)
  {
    var w := ['\\', 'u'] + digits;
    assert |digits| == 4 && s[pos..pos + 6] == w;
    assert s[pos] == w[0] && s[pos + 1] == w[1] && s[pos + 2..pos + 6] == w[2..] == digits;
    hide Spells;
    CodeIsRead(s, pos + 2, u);
  }

  lemma ReadHex(s: Bytes, pos: nat) returns (x: Unit)
    requires pos + 2 <= |s| && s[pos] == '\\' && s[pos + 1] == 'u' && QuadHex(s, pos + 2).Ok?
    ensures pos + 6 <= |s| && x.Hex? && x.u == QuadHex(s, pos + 2).value && x.digits == s[pos + 2..pos + 6]
    ensures Spells(x.digits, x.u) && OccursAt(s, pos, Written(x)) && |Written(x)| == 6
  {
    x := Hex(QuadHex(s, pos + 2).value, s[pos + 2..pos + 6]);
    CodeIsRead(s, pos + 2, x.u);
    assert s[pos..pos + 6] == ['\\', 'u'] + s[pos + 2..pos + 6];
  }

  lemma ShortIsRead(letter: Byte, b: Byte)
    ensures (letter, b) in SHORTS <==> SimpleEscape(letter) == AByte(b)
  {
    assert SHORTS[0] == ('"', '"') && SHORTS[1] == ('\\', '\\') && SHORTS[2] == ('/', '/') && SHORTS[3] == ('b', '\U{08}');
    assert SHORTS[4] == ('f', '\U{0C}') && SHORTS[5] == ('n', '\n') && SHORTS[6] == ('r', '\r') && SHORTS[7] == ('t', '\t');
  }

  /** How one turn of the string loop starts. */
  lemma CharStep(s: Bytes, pos: nat, out: Bytes)
    requires pos < |s| && s[pos] >= ' ' && s[pos] != '"'
    ensures s[pos] != '\\' ==> ParseString(s, pos, out) == ParseString(s, pos + 1, out + [s[pos]])
    ensures s[pos] == '\\' && pos + 1 < |s| && s[pos + 1] == 'u' ==>
              ParseString(s, pos, out)
              == if CodePoint(s, pos + 2).Fail? then Fail else ParseString(s, CodePoint(s, pos + 2).pos, out + CodePoint(s, pos + 2).value)
    ensures s[pos] == '\\' && pos + 1 < |s| && s[pos + 1] != 'u' ==>
              ParseString(s, pos, out)
              == if SimpleEscape(s[pos + 1]).NoByte? then Fail else ParseString(s, pos + 2, out + [SimpleEscape(s[pos + 1]).b])
  {
    hide CodePoint, SimpleEscape;
  }

  /** A character is read as what it means. */
  lemma CharIsRead(s: Bytes, pos: nat, c: Char, out: Bytes)
    requires IsChar(c) && OccursAt(s, pos, WrittenChar(c))
    ensures ParseString(s, pos, out) == ParseString(s, pos + |WrittenChar(c)|, out + CharMeaning(c))
  {
    hide ParseString, OccursAt, CharMeaning, WrittenChar, Spells;
    match c {
      case One(Plain(_)) => PlainIsRead(s, pos, c, out);
      case One(Short(_, _)) => ShortCharIsRead(s, pos, c, out);
      case One(Hex(_, _)) => HexCharIsRead(s, pos, c, out);
      case Pair(_, _) => PairIsRead(s, pos, c, out);
    }
  }

  lemma PlainIsRead(s: Bytes, pos: nat, c: Char, out: Bytes)
    requires IsChar(c) && c.One? && c.x.Plain? && OccursAt(s, pos, WrittenChar(c))
    ensures ParseString(s, pos, out) == ParseString(s, pos + |WrittenChar(c)|, out + CharMeaning(c))
  {
    hide ParseString, OccursAt;
    R.AtByte(s, pos, [c.x.b], 0);
    CharStep(s, pos, out);
  }

  lemma ShortCharIsRead(s: Bytes, pos: nat, c: Char, out: Bytes)
    requires IsChar(c) && c.One? && c.x.Short? && OccursAt(s, pos, WrittenChar(c))
    ensures ParseString(s, pos, out) == ParseString(s, pos + |WrittenChar(c)|, out + CharMeaning(c))
  {
    ShortIsRead(c.x.letter, c.x.b);
    NoShortU();
    hide ParseString, OccursAt, SimpleEscape, SHORTS;
    R.AtByte(s, pos, ['\\', c.x.letter], 0);
    R.AtByte(s, pos, ['\\', c.x.letter], 1);
    CharStep(s, pos, out);
  }

  lemma HexCharIsRead(s: Bytes, pos: nat, c: Char, out: Bytes)
    requires IsChar(c) && c.One? && c.x.Hex? && OccursAt(s, pos, WrittenChar(c))
    ensures ParseString(s, pos, out) == ParseString(s, pos + |WrittenChar(c)|, out + CharMeaning(c))
  {
    hide OccursAt, ParseString, QuadHex, Encoded, Spells;
    HexIsRead(s, pos, c.x.u, c.x.digits);
    CharStep(s, pos, out);
  }

  lemma PairIsRead(s: Bytes, pos: nat, c: Char, out: Bytes)
    requires IsChar(c) && c.Pair? && OccursAt(s, pos, WrittenChar(c))
    ensures ParseString(s, pos, out) == ParseString(s, pos + |WrittenChar(c)|, out + CharMeaning(c))
  {
    hide OccursAt, ParseString, QuadHex, Encoded, Spells;
    R.AtSplit(s, pos, Written(c.high), Written(c.low));
    HexIsRead(s, pos, c.high.u, c.high.digits);
    HexIsRead(s, pos + 6, c.low.u, c.low.digits);
    CharStep(s, pos, out);
  }

  lemma NoShortU()
    ensures SimpleEscape('u') == NoByte
  {}

  /** A character that is read stands there. */
  lemma ReadChar(s: Bytes, pos: nat, out: Bytes) returns (c: Char)
    requires pos < |s| && s[pos] != '"' && ParseString(s, pos, out).Ok?
    ensures IsChar(c) && OccursAt(s, pos, WrittenChar(c))
  {
    Heads(s, pos, out);
    hide *;
    if s[pos] != '\\' {
      c := One(Plain(s[pos]));
      PlainChar(s, pos);
    } else if s[pos + 1] != 'u' {
      c := One(Short(s[pos + 1], SimpleEscape(s[pos + 1]).b));
      ShortChar(s, pos);
    } else {
      c := ReadCode(s, pos);
    }
  }

  lemma Heads(s: Bytes, pos: nat, out: Bytes)
    requires pos < |s| && s[pos] != '"' && ParseString(s, pos, out).Ok?
    ensures s[pos] >= ' ' && (s[pos] == '\\' ==> pos + 1 < |s|)
    ensures s[pos] == '\\' ==> if s[pos + 1] == 'u' then CodePoint(s, pos + 2).Ok? else SimpleEscape(s[pos + 1]).AByte?
  {
    hide CodePoint, SimpleEscape;
  }

  lemma PlainChar(s: Bytes, pos: nat)
    requires pos < |s| && s[pos] != '"' && s[pos] != '\\' && s[pos] >= ' '
    ensures IsChar(One(Plain(s[pos]))) && OccursAt(s, pos, WrittenChar(One(Plain(s[pos]))))
  {}

  lemma ShortChar(s: Bytes, pos: nat)
    requires pos + 1 < |s| && s[pos] == '\\' && SimpleEscape(s[pos + 1]).AByte?
    ensures var c := One(Short(s[pos + 1], SimpleEscape(s[pos + 1]).b)); IsChar(c) && OccursAt(s, pos, WrittenChar(c))
  {
    ShortIsRead(s[pos + 1], SimpleEscape(s[pos + 1]).b);
    hide SimpleEscape, SHORTS;
    assert s[pos..pos + 2] == ['\\', s[pos + 1]];
  }

  lemma ReadCode(s: Bytes, pos: nat) returns (c: Char)
    requires pos + 1 < |s| && s[pos] == '\\' && s[pos + 1] == 'u' && CodePoint(s, pos + 2).Ok?
    ensures IsChar(c) && OccursAt(s, pos, WrittenChar(c))
  {
    hide QuadHex, Encoded, Spells, OccursAt, Written;
    var high := ReadHex(s, pos);
    assert QuadHex(s, pos + 2) == Ok(high.u, pos + 6);
    if IsHigh(high.u) {
      var low := ReadHex(s, pos + 6);
      c := Pair(high, low);
      TwoOccur(s, pos, high, low);
    } else {
      c := One(high);
    }
  }

  lemma TwoOccur(s: Bytes, pos: nat, high: Unit, low: Unit)
    requires OccursAt(s, pos, Written(high)) && |Written(high)| == 6 && OccursAt(s, pos + 6, Written(low))
    ensures OccursAt(s, pos, Written(high) + Written(low))
  {
    hide Written;
    var a, b := Written(high), Written(low);
    assert s[pos..pos + 6] + s[pos + 6..pos + 6 + |b|] == s[pos..pos + 6 + |b|];
  }

  // ---- Whole strings ------------------------------------------------------------------------------------------------------

  lemma {:induction false} CharsAreRead(s: Bytes, pos: nat, chars: seq<Char>, out: Bytes)
    requires AllChars(chars) && OccursAt(s, pos, Chars(chars) + ['"'])
    ensures ParseString(s, pos, out) == Ok(out + CharsSay(chars), pos + |Chars(chars)| + 1)
    decreases |chars|
  {
    hide OccursAt, IsChar, WrittenChar, CharMeaning, CodePoint, SimpleEscape;
    if chars == [] {
      assert [] + ['"'] == ['"'] && out + [] == out;
      R.AtByte(s, pos, ['"'], 0);
    } else {
      var w, rest := WrittenChar(chars[0]), Chars(chars[1..]);
      assert Chars(chars) + ['"'] == w + (rest + ['"']);
      R.AtSplit(s, pos, w, rest + ['"']);
      CharIsRead(s, pos, chars[0], out);
      CharsAreRead(s, pos + |w|, chars[1..], out + CharMeaning(chars[0]));
      assert (out + CharMeaning(chars[0])) + CharsSay(chars[1..]) == out + CharsSay(chars);
    }
  }

  lemma {:induction false} ReadChars(s: Bytes, pos: nat, out: Bytes) returns (chars: seq<Char>)
    requires pos <= |s| && ParseString(s, pos, out).Ok?
    ensures AllChars(chars) && OccursAt(s, pos, Chars(chars) + ['"'])
    ensures ParseString(s, pos, out) == Ok(out + CharsSay(chars), pos + |Chars(chars)| + 1)
    decreases |s| - pos
  {
    hide IsChar, WrittenChar, CharMeaning, CodePoint, SimpleEscape;
    if s[pos] == '"' {
      chars := [];
      assert [] + ['"'] == ['"'];
    } else {
      var c := ReadChar(s, pos, out);
      CharIsRead(s, pos, c, out);
      CharNotEmpty(c);
      var w := WrittenChar(c);
      var rest := ReadChars(s, pos + |w|, out + CharMeaning(c));
      chars := [c] + rest;
      assert chars[1..] == rest;
      assert w + (Chars(rest) + ['"']) == Chars(chars) + ['"'];
      assert s[pos..pos + |w|] + s[pos + |w|..pos + |w| + |Chars(rest)| + 1] == s[pos..pos + |w| + |Chars(rest)| + 1];
    }
    CharsAreRead(s, pos, chars, out);
  }

  lemma CharNotEmpty(c: Char)
    ensures WrittenChar(c) != []
  {}
}

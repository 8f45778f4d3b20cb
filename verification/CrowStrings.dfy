/** What crow's reading of strings means: exactly the strings of JSON, each as the bytes that its units stand for. */
module CrowStrings {
  import opened Bytes
  import opened Utf8
  import opened JsonStrings
  import opened CrowJsonText

  /** A unit of JSON; a NUL byte would end the text. */
  predicate Fits(x: Unit) { IsUnit(x) && x != Plain('\0') }

  predicate AllFit(units: seq<Unit>) { forall i :: 0 <= i < |units| ==> Fits(units[i]) }

  /** Halves of a surrogate pair are not joined. */
  function Meaning(x: Unit): Bytes
    requires Fits(x)
  {
    match x
    case Plain(b) => [b]
    case Short(_, b) => [b]
    case Hex(u, _) => Encoded(u)
  }

  function Said(units: seq<Unit>): Bytes
    requires AllFit(units)
  {
    if units == [] then [] else Meaning(units[0]) + Said(units[1..])
  }

  lemma DigitIsRead(c: Byte, v: nat)
    requires v < 16
    ensures IsDigitOf(c, v) <==> IsHex(c) && FromHex(c) == v
  {
    if IsDigitOf(c, v) { DigitNumber(c, v); }
    if IsHex(c) && FromHex(c) == v { NumberDigit(c, v); }
  }

  lemma CodeIsRead(text: Bytes, i: nat, u: nat)
    requires i + 4 <= |text|
    ensures Spells(text[i..i + 4], u) <==> Hex4(text, i) && Code(text, i) == u
  {
    hide IsDigitOf, IsHex, FromHex;
    var digits := text[i..i + 4];
    assert digits[0] == text[i] && digits[1] == text[i + 1] && digits[2] == text[i + 2] && digits[3] == text[i + 3];
    if u < 0x1_0000 {
      DigitIsRead(text[i], u / 4096);
      DigitIsRead(text[i + 1], u / 256 % 16);
      DigitIsRead(text[i + 2], u / 16 % 16);
      DigitIsRead(text[i + 3], u % 16);
      if Hex4(text, i) { FourDigits(FromHex(text[i]), FromHex(text[i + 1]), FromHex(text[i + 2]), FromHex(text[i + 3]), u); }
    }
  }

  /** A unit in front of any text is the unit that is read, and it is read as what it means. */
  lemma UnitIsRead(x: Unit, rest: Bytes)
    requires Fits(x)
    ensures UnitLength(Written(x) + rest) == |Written(x)| && UnitValue(Written(x) + rest) == Meaning(x)
  {
    hide IsHex, FromHex, IsDigitOf, Hex4, Code, Encoded, Spells;
    var text := Written(x) + rest;
    assert text[0] == Written(x)[0];
    match x {
      case Plain(_) =>
      case Short(letter, b) =>
        assert text[1] == letter;
        ShortIsRead(letter, b);
      case Hex(u, digits) =>
        assert text[1] == 'u' && |digits| == 4 by { DigitsAreFour(u, digits); }
        assert text[2..6] == digits;
        CodeIsRead(text, 2, u);
    }
  }

  lemma DigitsAreFour(u: nat, digits: Bytes)
    requires Spells(digits, u)
    ensures |digits| == 4 && u < 0x1_0000
  {}

  lemma ShortIsRead(letter: Byte, b: Byte)
    ensures (letter, b) in SHORTS <==> letter in SIMPLE && Simple(letter) == b
    ensures 'u' !in SIMPLE
  {
    assert SHORTS[0] == ('"', '"') && SHORTS[1] == ('\\', '\\') && SHORTS[2] == ('/', '/') && SHORTS[3] == ('b', '\U{08}');
    assert SHORTS[4] == ('f', '\U{0C}') && SHORTS[5] == ('n', '\n') && SHORTS[6] == ('r', '\r') && SHORTS[7] == ('t', '\t');
    assert SIMPLE[0] == '"' && SIMPLE[1] == '\\' && SIMPLE[2] == '/' && SIMPLE[3] == 'b' && SIMPLE[4] == 'f' && SIMPLE[5] == 'n';
    assert SIMPLE[6] == 'r' && SIMPLE[7] == 't';
  }

  /** The unit that is read from the front of a text. */
  lemma ReadUnit(text: Bytes) returns (x: Unit)
    requires UnitLength(text) > 0
    ensures Fits(x) && text[..UnitLength(text)] == Written(x)
  {
    hide IsHex, FromHex, IsDigitOf, Hex4, Code, Encoded, Spells;
    if text[0] != '\\' {
      x := Plain(text[0]);
    } else if text[1] == 'u' {
      x := Hex(Code(text, 2), text[2..6]);
      CodeIsRead(text, 2, x.u);
      assert text[..6] == text[..2] + text[2..6];
    } else {
      x := Short(text[1], Simple(text[1]));
      ShortIsRead(text[1], x.b);
    }
  }

  lemma {:induction false} TextIsRead(units: seq<Unit>)
    requires AllFit(units)
    ensures Decodable(Text(units)) && Unescaped(Text(units)) == Said(units)
  {
    hide Written, Meaning, UnitLength, UnitValue, Fits;
    if units != [] {
      UnitIsRead(units[0], Text(units[1..]));
      TextIsRead(units[1..]);
      assert Text(units)[|Written(units[0])|..] == Text(units[1..]);
    }
  }

  lemma {:induction false} ReadUnits(text: Bytes) returns (units: seq<Unit>)
    requires Decodable(text)
    ensures AllFit(units) && Text(units) == text
  {
    hide Written, UnitLength, UnitValue, Fits;
    if text == [] {
      units := [];
    } else {
      var x := ReadUnit(text);
      var rest := ReadUnits(text[UnitLength(text)..]);
      units := [x] + rest;
      assert units[1..] == rest && text == text[..UnitLength(text)] + text[UnitLength(text)..];
    }
  }

  lemma SaidIsUnescaped(text: Bytes)
    requires Decodable(text)
    ensures forall units :: AllFit(units) && Text(units) == text ==> Unescaped(text) == Said(units)
  {
    forall units | AllFit(units) && Text(units) == text ensures Unescaped(text) == Said(units) { TextIsRead(units); }
  }

  /** The inside of a string is accepted exactly when it is written in units, and stands for what they say. */
  lemma StringIff(text: Bytes, value: Bytes)
    ensures Decodable(text) && Unescaped(text) == value
            <==> exists units :: AllFit(units) && Text(units) == text && Said(units) == value
  {
    hide *;
    if Decodable(text) && Unescaped(text) == value {
      var units := ReadUnits(text);
      TextIsRead(units);
      assert AllFit(units) && Text(units) == text && Said(units) == value;
    }
    if units :| AllFit(units) && Text(units) == text && Said(units) == value { TextIsRead(units); }
  }

  predicate HasEscape(units: seq<Unit>) { exists i :: 0 <= i < |units| && !units[i].Plain? }

  lemma EscapesOf(units: seq<Unit>)
    requires units != []
    ensures HasEscape(units) <==> !units[0].Plain? || HasEscape(units[1..])
  {
    if i :| 1 <= i < |units| && !units[i].Plain? { assert !units[1..][i - 1].Plain?; }
    if i :| 0 <= i < |units[1..]| && !units[1..][i].Plain? { assert !units[i + 1].Plain?; }
  }

  /** A string of units is scanned to its own closing quote. */
  lemma {:induction false} TextIsScanned(units: seq<Unit>, before: Bytes, after: Bytes, hasEscape: bool)
    requires AllFit(units)
    ensures ScanFrom(before + Text(units) + ['"'] + after, |before|, hasEscape)
            == Closed(|before| + |Text(units)|, hasEscape || HasEscape(units))
    decreases |units|
  {
    hide *;
    if units == [] {
      NothingToScan(before, after, hasEscape);
    } else {
      var e, rest := Written(units[0]), Text(units[1..]);
      FirstUnit(units);
      ScanUnit(units[0], before, rest + ['"'] + after, hasEscape);
      TextIsScanned(units[1..], before + e, after, hasEscape || !units[0].Plain?);
      assert before + (e + rest) + ['"'] + after == (before + e) + rest + ['"'] + after;
      assert before + e + (rest + ['"'] + after) == (before + e) + rest + ['"'] + after;
      EscapesOf(units);
    }
  }

  lemma FirstUnit(units: seq<Unit>)
    requires units != [] && AllFit(units)
    ensures Fits(units[0]) && AllFit(units[1..]) && Text(units) == Written(units[0]) + Text(units[1..])
  {
    hide Fits, Written;
  }

  lemma NothingToScan(before: Bytes, after: Bytes, hasEscape: bool)
    ensures ScanFrom(before + Text([]) + ['"'] + after, |before|, hasEscape) == Closed(|before| + |Text([])|, hasEscape || HasEscape([]))
  {
    assert Text([]) == [] && before + [] == before;
    assert (before + ['"'] + after)[|before|] == '"';
  }

  lemma ScanUnit(x: Unit, before: Bytes, after: Bytes, hasEscape: bool)
    requires Fits(x)
    ensures ScanFrom(before + Written(x) + after, |before|, hasEscape)
            == ScanFrom(before + Written(x) + after, |before + Written(x)|, hasEscape || !x.Plain?)
  {
    hide Written, UnitLength, UnitValue, Fits;
    var text := before + Written(x) + after;
    UnitIsRead(x, after);
    UnitStart(x);
    assert text[|before|..] == Written(x) + after;
    assert text[|before|] == Written(x)[0];
  }

  lemma UnitStart(x: Unit)
    requires Fits(x)
    ensures Written(x)[0] != '"' && Written(x)[0] != '\0' && (Written(x)[0] == '\\' <==> !x.Plain?)
  {}

  /** In the text, from `at` to `end`, stands a string between its quotes, and it says `value`. */
  ghost predicate IsString(text: Bytes, at: nat, end: nat, value: Bytes) {
    exists units :: IsStringOf(units, text, at, end) && Said(units) == value
  }

  predicate IsStringOf(units: seq<Unit>, text: Bytes, at: nat, end: nat) {
    AllFit(units) && OccursAt(text, at, ['"'] + Text(units) + ['"']) && end == at + |Text(units)| + 2
  }

  lemma ScannedString(text: Bytes, at: nat) returns (units: seq<Unit>)
    requires at < |text| && text[at] == '"' && ScanFrom(text, at + 1, false).Closed?
    ensures IsStringOf(units, text, at, ScanFrom(text, at + 1, false).end + 1)
  {
    ScannedIsDecodable(text, at + 1, false);
    var end := ScanFrom(text, at + 1, false).end;
    assert at + 1 <= end < |text| && text[end] == '"';
    hide *;
    units := Enclosed(text, at, end);
  }

  lemma Enclosed(text: Bytes, at: nat, end: nat) returns (units: seq<Unit>)
    requires at + 1 <= end < |text| && text[at] == '"' && text[end] == '"' && Decodable(text[at + 1..end])
    ensures IsStringOf(units, text, at, end + 1)
  {
    hide *;
    units := ReadUnits(text[at + 1..end]);
    Between(text, at, end);
    StringOf(units, text, at, end + 1);
  }

  lemma StringOf(units: seq<Unit>, text: Bytes, at: nat, end: nat)
    requires AllFit(units) && at + 1 < end <= |text| && text[at..end] == ['"'] + Text(units) + ['"']
    ensures IsStringOf(units, text, at, end)
  {
    hide Text, AllFit;
    assert end - at == |['"'] + Text(units) + ['"']|;
  }

  lemma Between(text: Bytes, at: nat, end: nat)
    requires at < end < |text| && text[at] == '"' && text[end] == '"'
    ensures text[at..end + 1] == ['"'] + text[at + 1..end] + ['"']
  {}

  lemma SubSlice(text: Bytes, at: nat, end: nat)
    requires at + 1 < end <= |text|
    ensures text[at + 1..end - 1] == text[at..end][1..end - at - 1]
  {
    var a, b := text[at + 1..end - 1], text[at..end][1..end - at - 1];
    forall k | 0 <= k < |a| ensures a[k] == b[k] { assert b[k] == text[at..end][1 + k]; }
  }

  lemma AroundString(units: seq<Unit>, text: Bytes, at: nat, end: nat)
    requires IsStringOf(units, text, at, end)
    ensures at + 1 < end <= |text| && text[at] == '"' && text[at + 1..end - 1] == Text(units)
    ensures text == (text[..at] + ['"']) + Text(units) + ['"'] + text[end..]
  {
    hide Text, AllFit;
    var inside := Text(units);
    var whole := ['"'] + inside + ['"'];
    assert text[at..end] == whole;
    assert whole[0] == '"' && whole[1..|whole| - 1] == inside;
    assert |whole| == end - at;
    assert text[at] == text[at..end][0];
    SubSlice(text, at, end);
    assert text == text[..at] + text[at..end] + text[end..];
    assert text[..at] + (['"'] + inside + ['"']) == (text[..at] + ['"']) + inside + ['"'];
  }

  lemma StringIsScanned(units: seq<Unit>, text: Bytes, at: nat, end: nat)
    requires IsStringOf(units, text, at, end) && AllFit(units)
    ensures at + 1 < end <= |text| && text[at] == '"'
    ensures ScanFrom(text, at + 1, false).Closed? && ScanFrom(text, at + 1, false).end == end - 1
    ensures Text(units) == text[at + 1..end - 1]
  {
    AroundString(units, text, at, end);
    hide *;
    TextIsScanned(units, text[..at] + ['"'], text[end..], false);
    assert |text[..at] + ['"']| == at + 1;
    assert |text[at + 1..end - 1]| == end - at - 2;
  }

  /** A string is decoded exactly when one stands there; where it ends and what it says are its own. */
  lemma DecodedIff(text: Bytes, at: nat)
    requires at < |text|
    ensures StartsString(text, at) <==> exists end, value :: IsString(text, at, end, value)
    ensures StartsString(text, at) ==>
              var end := ScanFrom(text, at + 1, false).end;
              && Decodable(text[at + 1..end]) && IsString(text, at, end + 1, Unescaped(text[at + 1..end]))
              && forall e, value :: IsString(text, at, e, value) ==> e == end + 1 && value == Unescaped(text[at + 1..end])
  {
    hide *;
    if StartsString(text, at) { StartIsString(text, at); }
    forall e: nat, value: Bytes | IsString(text, at, e, value)
      ensures StartsString(text, at) && e == ScanFrom(text, at + 1, false).end + 1
      ensures at + 1 < e <= |text| && Decodable(text[at + 1..e - 1]) && value == Unescaped(text[at + 1..e - 1])
    {
      StringIsDecoded(text, at, e, value);
    }
  }

  predicate StartsString(text: Bytes, at: nat)
    requires at < |text|
    ensures StartsString(text, at) <==> text[at] == '"' && ScanFrom(text, at + 1, false).Closed?
  {
    text[at] == '"' && ScanFrom(text, at + 1, false).Closed?
  }

  lemma StartIsString(text: Bytes, at: nat)
    requires at < |text| && StartsString(text, at)
    ensures at + 1 <= ScanFrom(text, at + 1, false).end < |text|
    ensures var end := ScanFrom(text, at + 1, false).end;
            Decodable(text[at + 1..end]) && IsString(text, at, end + 1, Unescaped(text[at + 1..end]))
  {
    hide Decodable, Unescaped, IsString, IsStringOf;
    var units := ScannedString(text, at);
    SaysItself(units, text, at, ScanFrom(text, at + 1, false).end);
  }

  lemma SaysItself(units: seq<Unit>, text: Bytes, at: nat, end: nat)
    requires IsStringOf(units, text, at, end + 1)
    ensures at + 1 <= end < |text| && Decodable(text[at + 1..end]) && IsString(text, at, end + 1, Unescaped(text[at + 1..end]))
  {
    hide *;
    StringIs(units, text, at, end + 1);
  }

  lemma StringIsDecoded(text: Bytes, at: nat, e: nat, value: Bytes)
    requires at < |text| && IsString(text, at, e, value)
    ensures StartsString(text, at) && e == ScanFrom(text, at + 1, false).end + 1
    ensures at + 1 < e <= |text| && Decodable(text[at + 1..e - 1]) && value == Unescaped(text[at + 1..e - 1])
  {
    var units := UnitsOf(text, at, e, value);
    hide *;
    StringIs(units, text, at, e);
  }

  lemma UnitsOf(text: Bytes, at: nat, end: nat, value: Bytes) returns (units: seq<Unit>)
    requires IsString(text, at, end, value)
    ensures IsStringOf(units, text, at, end) && AllFit(units) && Said(units) == value
  {
    units :| IsStringOf(units, text, at, end) && Said(units) == value;
  }

  lemma FitAll(units: seq<Unit>, text: Bytes, at: nat, end: nat)
    requires IsStringOf(units, text, at, end)
    ensures AllFit(units)
  {}

  lemma StringIs(units: seq<Unit>, text: Bytes, at: nat, end: nat)
    requires IsStringOf(units, text, at, end)
    ensures at + 1 < end <= |text| && text[at] == '"' && AllFit(units)
    ensures ScanFrom(text, at + 1, false).Closed? && ScanFrom(text, at + 1, false).end == end - 1
    ensures Decodable(text[at + 1..end - 1]) && Unescaped(text[at + 1..end - 1]) == Said(units)
    ensures IsString(text, at, end, Said(units))
  {
    FitAll(units, text, at, end);
    hide ScanFrom, Decodable, Unescaped, Said, Text, IsStringOf, AllFit;
    StringIsScanned(units, text, at, end);
    TextIsRead(units);
  }

  // ---- Writing ------------------------------------------------------------------------------------------------------------

  /** Some unit other than the one for a slash is a short form of the byte. */
  predicate HasShort(c: Byte) { exists i :: 0 <= i < |SHORTS| && SHORTS[i].0 != '/' && SHORTS[i].1 == c }

  /** How a byte is written: in its short form if it has one, control bytes by their number, all others as they are. */
  predicate IsWriting(x: Unit, c: Byte) {
    if HasShort(c) then x.Short? && x.letter != '/' && x.b == c
    else if c < ' ' then x.Hex? && x.u == c as int && forall i :: 0 <= i < |x.digits| ==> !('A' <= x.digits[i] <= 'F')
    else x == Plain(c)
  }

  lemma ShortFormsOf(c: Byte)
    ensures HasShort(c) <==> c in ['"', '\\', '\U{08}', '\U{0C}', '\n', '\r', '\t']
  {
    assert SHORTS[0].1 == '"' && SHORTS[1].1 == '\\' && SHORTS[3].1 == '\U{08}' && SHORTS[4].1 == '\U{0C}';
    assert SHORTS[5].1 == '\n' && SHORTS[6].1 == '\r' && SHORTS[7].1 == '\t';
  }

  lemma HexOf(c: Byte)
    requires c < ' '
    ensures Spells(['0', '0', ToHex(c as int / 16), ToHex(c as int % 16)], c as int)
  {
    NumberDigit('0', 0);
    NumberDigit(ToHex(c as int / 16), c as int / 16);
    NumberDigit(ToHex(c as int % 16), c as int % 16);
    hide IsDigitOf;
  }

  lemma ByteWriting(c: Byte) returns (x: Unit)
    ensures Fits(x) && IsWriting(x, c) && EscapeChar(c) == Written(x)
  {
    ShortFormsOf(c);
    hide HasShort, Spells;
    if HasShort(c) {
      x := Short(EscapeChar(c)[1], c);
      ShortIsRead(x.letter, c);
    } else if c < ' ' {
      HexOf(c);
      x := Hex(c as int, ['0', '0', ToHex(c as int / 16), ToHex(c as int % 16)]);
    } else {
      x := Plain(c);
    }
  }

  lemma {:induction false} EscapedSays(s: Bytes) returns (units: seq<Unit>)
    ensures |units| == |s| && AllFit(units) && Escaped(s) == Text(units)
    ensures forall i :: 0 <= i < |s| ==> IsWriting(units[i], s[i])
  {
    hide EscapeChar, Written, Fits, IsWriting;
    if s == [] {
      units := [];
    } else {
      var x := ByteWriting(s[0]);
      var rest := EscapedSays(s[1..]);
      units := [x] + rest;
      assert units[1..] == rest;
    }
  }
}

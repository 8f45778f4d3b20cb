/** crow JSON strings as text: escaping, scanning for the closing quote, and what the escapes stand for. */
module CrowJsonText {
  import opened Bytes
  import opened Utf8

  // ---- Writing ------------------------------------------------------------------------------------------------------

  function ToHex(c: nat): Byte
    requires c < 16
  {
    if c < 10 then '0' + c as char else 'a' + (c - 10) as char
  }

  function EscapeChar(c: Byte): (r: Bytes)
    ensures r != []
  {
    match c
    case '"' => ['\\', '"']
    case '\\' => ['\\', '\\']
    case '\n' => ['\\', 'n']
    case '\U{08}' => ['\\', 'b']
    case '\U{0C}' => ['\\', 'f']
    case '\r' => ['\\', 'r']
    case '\t' => ['\\', 't']
    case _ => if c < ' ' then ['\\', 'u', '0', '0', ToHex(c as int / 16), ToHex(c as int % 16)] else [c]
  }

  function Escaped(s: Bytes): Bytes {
    if s == [] then [] else EscapeChar(s[0]) + Escaped(s[1..])
  }

  lemma {:induction false} EscapedSnoc(s: Bytes, c: Byte)
    ensures Escaped(s + [c]) == Escaped(s) + EscapeChar(c)
  {
    if s == [] {
      assert s + [c] == [c] && [c][1..] == [];
    } else {
      assert (s + [c])[1..] == s[1..] + [c];
      EscapedSnoc(s[1..], c);
    }
  }

  // ---- Reading one unit -----------------------------------------------------------------------------------------------

  predicate IsHex(c: Byte) { '0' <= c <= '9' || 'a' <= c <= 'f' || 'A' <= c <= 'F' }

  function FromHex(c: Byte): (v: nat)
    requires IsHex(c)
    ensures v < 16
  {
    if c >= 'a' then c as int - 'a' as int + 10 else if c >= 'A' then c as int - 'A' as int + 10 else c as int - '0' as int
  }

  predicate Hex4(text: Bytes, i: nat) { i + 4 <= |text| && IsHex(text[i]) && IsHex(text[i + 1]) && IsHex(text[i + 2]) && IsHex(text[i + 3]) }

  function Code(text: Bytes, i: nat): (code: nat)
    requires Hex4(text, i)
    ensures code < 0x10000
  {
    FromHex(text[i]) * 4096 + FromHex(text[i + 1]) * 256 + FromHex(text[i + 2]) * 16 + FromHex(text[i + 3])
  }

  const SIMPLE: Bytes := ['"', '\\', '/', 'b', 'f', 'n', 'r', 't']

  function Simple(c: Byte): Byte {
    match c
    case 'b' => '\U{08}'
    case 'f' => '\U{0C}'
    case 'n' => '\n'
    case 'r' => '\r'
    case 't' => '\t'
    case _ => c
  }

  /** How many bytes the unit at the front takes; 0 if it is none. */
  function UnitLength(text: Bytes): (n: nat)
    ensures n <= 6 && n <= |text|
  {
    if text == [] then 0
    else if text[0] == '"' || text[0] == '\0' then 0
    else if text[0] != '\\' then 1
    else if |text| == 1 then 0
    else if text[1] == 'u' then (if Hex4(text, 2) then 6 else 0)
    else if text[1] in SIMPLE then 2
    else 0
  }

  function UnitValue(text: Bytes): (r: Bytes)
    requires UnitLength(text) > 0
    ensures 1 <= |r| <= UnitLength(text)
  {
    if text[0] != '\\' then [text[0]]
    else if text[1] == 'u' then Encoded(Code(text, 2))
    else [Simple(text[1])]
  }

  // ---- Whole strings ----------------------------------------------------------------------------------------------------

  /** The inside of a string that decode_string accepts. */
  predicate Decodable(text: Bytes) {
    text == [] || (UnitLength(text) > 0 && Decodable(text[UnitLength(text)..]))
  }

  function Unescaped(text: Bytes): Bytes
    requires Decodable(text)
  {
    if text == [] then [] else UnitValue(text) + Unescaped(text[UnitLength(text)..])
  }

  datatype Scan = Closed(end: nat, hasEscape: bool) | Broken

  /** Where the string that starts at i ends, in a text closed by a NUL. */
  function ScanFrom(text: Bytes, i: nat, hasEscape: bool): (r: Scan)
    requires i <= |text|
    ensures r.Closed? ==> i <= r.end < |text| && text[r.end] == '"'
    decreases |text| - i
  {
    if i == |text| || text[i] == '\0' then Broken
    else if text[i] == '"' then Closed(i, hasEscape)
    else
      var n := UnitLength(text[i..]);
      if n == 0 then Broken else ScanFrom(text, i + n, hasEscape || text[i] == '\\')
  }

  lemma UnitOfPrefix(text: Bytes, n: nat)
    requires n <= |text| && UnitLength(text) > 0 && UnitLength(text) <= n
    ensures UnitLength(text[..n]) == UnitLength(text) && UnitValue(text[..n]) == UnitValue(text)
  {
    hide Code, Encoded;
    if text[0] == '\\' && text[1] == 'u' {
      CodeOfPrefix(text, n);
    }
  }

  lemma CodeOfPrefix(text: Bytes, n: nat)
    requires 6 <= n <= |text| && Hex4(text, 2)
    ensures Hex4(text[..n], 2) && Code(text[..n], 2) == Code(text, 2)
  {}

  lemma DecodableUnit(text: Bytes, n: nat)
    requires n <= |text| && 0 < UnitLength(text) <= n && Decodable(text[UnitLength(text)..n])
    ensures Decodable(text[..n])
  {
    hide UnitValue;
    UnitOfPrefix(text, n);
    assert text[..n][UnitLength(text)..] == text[UnitLength(text)..n];
  }

  /** What is scanned over is decodable, and the flag says whether there is an escape in it. */
  lemma {:induction false} ScannedIsDecodable(text: Bytes, i: nat, hasEscape: bool)
    requires i <= |text| && ScanFrom(text, i, hasEscape).Closed?
    ensures var r := ScanFrom(text, i, hasEscape);
            Decodable(text[i..r.end]) && (hasEscape || '\\' in text[i..r.end] ==> r.hasEscape)
            && (r.hasEscape ==> hasEscape || '\\' in text[i..r.end])
    decreases |text| - i
  {
    hide UnitValue, Decodable, Unescaped, Code, Encoded;
    var end := ScanFrom(text, i, hasEscape).end;
    if i < end {
      var rest := text[i..];
      var n := UnitLength(rest);
      hide UnitLength;
      ScannedIsDecodable(text, i + n, hasEscape || text[i] == '\\');
      UnitHead(rest);
      assert rest[n..end - i] == text[i + n..end] && rest[..end - i] == text[i..end];
      DecodableUnit(rest, end - i);
      assert text[i..end] == text[i..i + n] + text[i + n..end];
      assert text[i..i + n] == rest[..n];
    } else {
      assert text[i..end] == [];
      NothingDecodable();
    }
  }

  lemma NothingDecodable()
    ensures Decodable([]) && Unescaped([]) == []
  {}

  lemma UnitHead(text: Bytes)
    requires UnitLength(text) > 0
    ensures '\\' in text[..UnitLength(text)] <==> text[0] == '\\'
  {
    assert text[..UnitLength(text)][0] == text[0];
  }

  lemma UnescapedStep(text: Bytes)
    requires Decodable(text) && text != []
    ensures 0 < UnitLength(text) <= |text| && Decodable(text[UnitLength(text)..])
    ensures Unescaped(text) == UnitValue(text) + Unescaped(text[UnitLength(text)..])
  {}

  /** Without an escape nothing has to be done. */
  lemma {:induction false} NothingToUnescape(text: Bytes)
    requires Decodable(text) && '\\' !in text
    ensures Unescaped(text) == text
  {
    if text != [] {
      PlainUnit(text);
      NothingToUnescape(text[1..]);
      assert text == text[..1] + text[1..];
    }
  }

  lemma PlainUnit(text: Bytes)
    requires UnitLength(text) > 0 && text[0] != '\\'
    ensures UnitLength(text) == 1 && UnitValue(text) == text[..1]
  {}

  // ---- Round trip ---------------------------------------------------------------------------------------------------------

  lemma HexRoundTrip(v: nat)
    requires v < 16
    ensures IsHex(ToHex(v)) && FromHex(ToHex(v)) == v
  {}

  /** An escaped byte is one unit, and the unit is the byte. */
  lemma EscapedUnit(c: Byte, rest: Bytes)
    ensures UnitLength(EscapeChar(c) + rest) == |EscapeChar(c)| && UnitValue(EscapeChar(c) + rest) == [c]
  {
    var e := EscapeChar(c);
    var text := e + rest;
    assert text[..|e|] == e;
    if |e| == 6 {
      HexRoundTrip(c as int / 16);
      HexRoundTrip(c as int % 16);
      HexRoundTrip(0);
      assert text[2] == '0' && text[3] == '0' && text[4] == e[4] && text[5] == e[5];
      assert Hex4(text, 2) && Code(text, 2) == c as int;
    }
  }

  lemma {:induction false} UnescapedEscaped(s: Bytes)
    ensures Decodable(Escaped(s)) && Unescaped(Escaped(s)) == s
  {
    hide EscapeChar, UnitLength, UnitValue;
    if s != [] {
      UnescapedEscaped(s[1..]);
      EscapedUnit(s[0], Escaped(s[1..]));
      assert (EscapeChar(s[0]) + Escaped(s[1..]))[|EscapeChar(s[0])|..] == Escaped(s[1..]);
    }
  }
}

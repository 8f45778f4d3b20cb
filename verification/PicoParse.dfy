/** What picojson's parser makes of a text, position by position. */
module PicoParse {
  import opened Bytes
  import opened Utf8
  import opened Options
  import opened PicoText
  import Decimals

  datatype Parsed<T> = Fail | Ok(value: T, pos: nat)

  /** strtod on a whole number text: None when it does not consume all of it. */
  type Strtod = Bytes -> Option<real>

  // ---- Input ----

  predicate IsWs(c: Byte) { c == ' ' || c == '\t' || c == '\n' || c == '\r' }

  function SkipWs(s: Bytes, pos: nat): (r: nat)
    requires pos <= |s|
    ensures pos <= r <= |s|
    ensures r < |s| ==> !IsWs(s[r])
    decreases |s| - pos
  {
    if pos < |s| && IsWs(s[pos]) then SkipWs(s, pos + 1) else pos
  }

  /** input::expect */
  function Expect(s: Bytes, pos: nat, c: Byte): (r: (bool, nat))
    requires pos <= |s|
    ensures pos <= r.1 <= |s|
    ensures r.0 ==> pos < r.1
  {
    var p := SkipWs(s, pos);
    if p < |s| && s[p] == c then (true, p + 1) else (false, p)
  }

  // ---- Strings ----

  function HexValue(c: Byte): (r: int)
    ensures -1 <= r < 16
  {
    if '0' <= c <= '9' then c as int - '0' as int
    else if 'A' <= c <= 'F' then c as int - 'A' as int + 10
    else if 'a' <= c <= 'f' then c as int - 'a' as int + 10
    else -1
  }

  /** _parse_quadhex: four hex digits. */
  function QuadHex(s: Bytes, pos: nat): (r: Parsed<nat>)
    requires pos <= |s|
    ensures r.Ok? ==> r.pos == pos + 4 <= |s| && r.value < 0x1_0000
  {
    if pos + 4 > |s| then Fail else
    var a, b, c, d := HexValue(s[pos]), HexValue(s[pos + 1]), HexValue(s[pos + 2]), HexValue(s[pos + 3]);
    if a == -1 || b == -1 || c == -1 || d == -1 then Fail
    else Ok(((a * 16 + b) * 16 + c) * 16 + d, pos + 4)
  }

  /** _parse_codepoint: after "\u". */
  function CodePoint(s: Bytes, pos: nat): (r: Parsed<Bytes>)
    requires pos <= |s|
    ensures r.Ok? ==> pos < r.pos <= |s|
  {
    match QuadHex(s, pos)
    case Fail => Fail
    case Ok(u, p) =>
      if 0xD800 <= u <= 0xDFFF then
        if 0xDC00 <= u then Fail
        else if p + 2 > |s| || s[p] != '\\' || s[p + 1] != 'u' then Fail
        else
          match QuadHex(s, p + 2)
          case Fail => Fail
          case Ok(v, q) =>
            if 0xDC00 <= v <= 0xDFFF then Ok(Encoded((u - 0xD800) * 1024 + (v - 0xDC00) + 0x1_0000), q) else Fail
      else Ok(Encoded(u), p)
  }

  datatype MaybeByte = NoByte | AByte(b: Byte)

  function SimpleEscape(c: Byte): MaybeByte {
    match c
    case '"' => AByte('"')
    case '\\' => AByte('\\')
    case '/' => AByte('/')
    case 'b' => AByte(8 as char)
    case 'f' => AByte(12 as char)
    case 'n' => AByte('\n')
    case 'r' => AByte('\r')
    case 't' => AByte('\t')
    case _ => NoByte
  }

  /** _parse_string: after the opening quote; `out` was read already. */
  function ParseString(s: Bytes, pos: nat, out: Bytes): (r: Parsed<Bytes>)
    requires pos <= |s|
    ensures r.Ok? ==> pos < r.pos <= |s|
    decreases |s| - pos
  {
    if pos == |s| || s[pos] < ' ' then Fail
    else if s[pos] == '"' then Ok(out, pos + 1)
    else if s[pos] == '\\' then
      if pos + 1 == |s| then Fail
      else if s[pos + 1] == 'u' then
        match CodePoint(s, pos + 2)
        case Fail => Fail
        case Ok(bytes, p) => ParseString(s, p, out + bytes)
      else
        match SimpleEscape(s[pos + 1])
        case NoByte => Fail
        case AByte(b) => ParseString(s, pos + 2, out + [b])
    else ParseString(s, pos + 1, out + [s[pos]])
  }

  // ---- Numbers ----

  predicate IsNumberChar(c: Byte) {
    Decimals.IsDigit(c) || c == '+' || c == '-' || c == 'e' || c == 'E' || c == '.'
  }

  /** The end of the number characters that start at pos. */
  function NumberEnd(s: Bytes, pos: nat): (r: nat)
    requires pos <= |s|
    ensures pos <= r <= |s|
    ensures pos < |s| && IsNumberChar(s[pos]) ==> pos < r
    decreases |s| - pos
  {
    if pos < |s| && IsNumberChar(s[pos]) then NumberEnd(s, pos + 1) else pos
  }

  /** strtoimax on the whole text, when it is a decimal integer that int64_t can hold. */
  function IntOf(text: Bytes): Option<int> {
    var negative := text != [] && text[0] == '-';
    var digits := if negative then text[1..] else text;
    if digits == [] || !Decimals.AllDigits(digits) then None else
    var value: int := if negative then 0 - Decimals.Value(digits) else Decimals.Value(digits);
    if INT64_MIN <= value <= INT64_MAX then Some(value) else None
  }

  function ParseNumber(s: Bytes, pos: nat, strtod: Strtod): (r: Parsed<Value>)
    requires pos < |s| && IsNumberChar(s[pos])
    ensures r.Ok? ==> pos < r.pos <= |s|
  {
    var end := NumberEnd(s, pos);
    var text := s[pos..end];
    match IntOf(text)
    case Some(i) => Ok(Int64(i), end)
    case None =>
      match strtod(text)
      case Some(d) => Ok(Double(d), end)
      case None => Fail
  }

  // ---- Values ----

  /** _parse with default_parse_context; `depth` is its depths_, which only arrays use up. */
  function Parse(s: Bytes, pos: nat, depth: nat, strtod: Strtod): (r: Parsed<Value>)
    requires pos <= |s|
    ensures r.Ok? ==> pos < r.pos <= |s|
    decreases |s| - pos, 1
  {
    var p := SkipWs(s, pos);
    if p == |s| then Fail
    else if s[p] == 'n' then if OccursAt(s, p + 1, "ull") then Ok(Null, p + 4) else Fail
    else if s[p] == 'f' then if OccursAt(s, p + 1, "alse") then Ok(Bool(false), p + 5) else Fail
    else if s[p] == 't' then if OccursAt(s, p + 1, "rue") then Ok(Bool(true), p + 4) else Fail
    else if s[p] == '"' then
      match ParseString(s, p + 1, [])
      case Fail => Fail
      case Ok(str, q) => Ok(Str(str), q)
    else if s[p] == '[' then
      if depth == 0 then Fail
      else if Expect(s, p + 1, ']').0 then Ok(Arr([]), Expect(s, p + 1, ']').1)
      else ParseItems(s, Expect(s, p + 1, ']').1, depth - 1, [], strtod)
    else if s[p] == '{' then
      if depth == 0 then Fail
      else if Expect(s, p + 1, '}').0 then Ok(Obj(map[]), Expect(s, p + 1, '}').1)
      else ParseMembers(s, Expect(s, p + 1, '}').1, depth, map[], strtod)
    else if Decimals.IsDigit(s[p]) || s[p] == '-' then ParseNumber(s, p, strtod)
    else Fail
  }

  /** The array loop, at the start of an item. */
  function ParseItems(s: Bytes, pos: nat, depth: nat, out: seq<Value>, strtod: Strtod): (r: Parsed<Value>)
    requires pos <= |s|
    ensures r.Ok? ==> pos < r.pos <= |s|
    decreases |s| - pos, 2
  {
    match Parse(s, pos, depth, strtod)
    case Fail => Fail
    case Ok(v, p) =>
      var (comma, q) := Expect(s, p, ',');
      if comma then ParseItems(s, q, depth, out + [v], strtod)
      else
        var (close, e) := Expect(s, q, ']');
        if close then Ok(Arr(out + [v]), e) else Fail
  }

  /** The object loop, at the start of a member. */
  function ParseMembers(s: Bytes, pos: nat, depth: nat, out: map<Bytes, Value>, strtod: Strtod): (r: Parsed<Value>)
    requires pos <= |s|
    ensures r.Ok? ==> pos < r.pos <= |s|
    decreases |s| - pos, 2
  {
    var (quote, p) := Expect(s, pos, '"');
    if !quote then Fail else
    match ParseString(s, p, [])
    case Fail => Fail
    case Ok(key, q) =>
      var (colon, c) := Expect(s, q, ':');
      if !colon then Fail else
      match Parse(s, c, depth, strtod)
      case Fail => Fail
      case Ok(v, e) =>
        var out' := out[key := v];
        var (comma, m) := Expect(s, e, ',');
        if comma then ParseMembers(s, m, depth, out', strtod)
        else
          var (close, e') := Expect(s, m, '}');
          if close then Ok(Obj(out'), e') else Fail
  }

  const DEFAULT_MAX_DEPTHS := 100

  /** parse(value &, const std::string &): what follows the value is not looked at. */
  function ParseText(s: Bytes, strtod: Strtod): Parsed<Value> { Parse(s, 0, DEFAULT_MAX_DEPTHS, strtod) }
}

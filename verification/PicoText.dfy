/** picojson values and the text value::_serialize writes for them. */
module PicoText {
  import opened Bytes
  import Decimals

  datatype Value =
    | Null
    | Bool(b: bool)
    | Int64(i: int)
    | Double(d: real)
    | Str(s: Bytes)
    | Arr(items: seq<Value>)
    | Obj(members: map<Bytes, Value>)

  const INT64_MIN: int := -0x8000_0000_0000_0000
  const INT64_MAX: int := 0x7FFF_FFFF_FFFF_FFFF

  // ---- Strings ----

  function HexDigit(n: nat): Byte
    requires n < 16
  {
    if n < 10 then '0' + n as char else 'a' + (n - 10) as char
  }

  /** serialize_str_char */
  function EscapeChar(c: Byte): Bytes {
    if c == '"' then "\\\""
    else if c == '\\' then "\\\\"
    else if c == '/' then "\\/"
    else if c == 8 as char then "\\b"
    else if c == 12 as char then "\\f"
    else if c == '\n' then "\\n"
    else if c == '\r' then "\\r"
    else if c == '\t' then "\\t"
    else if c < ' ' || c == 127 as char then
      ['\\', 'u', '0', '0', HexDigit(c as int / 16), HexDigit(c as int % 16)]
    else [c]
  }

  function Escape(s: Bytes): Bytes {
    if s == [] then [] else EscapeChar(s[0]) + Escape(s[1..])
  }

  function Quoted(s: Bytes): Bytes { ['"'] + Escape(s) + ['"'] }

  // ---- Order of object keys ----

  predicate IsLeast(k: Bytes, keys: set<Bytes>) {
    k in keys && forall j :: j in keys ==> j == k || Less(k, j)
  }

  lemma {:induction false} LeastExists(keys: set<Bytes>) returns (k: Bytes)
    requires keys != {}
    ensures IsLeast(k, keys)
    decreases |keys|
  {
    k :| k in keys;
    var rest := keys - {k};
    if rest != {} {
      var l := LeastExists(rest);
      LessIsTotal(k, l);
      if Less(l, k) {
        k := l;
      } else {
        forall j | j in keys && j != k ensures Less(k, j) {
          if j != l { LessIsTransitive(k, l, j); }
        }
      }
    }
  }

  /** The keys of a std::map in iteration order. */
  ghost function Ordered(keys: set<Bytes>): (r: seq<Bytes>)
    ensures |r| == |keys| && forall k :: k in r <==> k in keys
    ensures forall i, j :: 0 <= i < j < |r| ==> r[i] != r[j]
    decreases |keys|
  {
    if keys == {} then [] else
    assert exists k :: IsLeast(k, keys) by { var k := LeastExists(keys); }
    var k :| IsLeast(k, keys);
    [k] + Ordered(keys - {k})
  }

  // ---- Values ----

  /** A new line and two spaces per level; nothing in the compact form, whose indent is -1. */
  function Indent(indent: int): Bytes
    requires indent >= -1
  {
    if indent == -1 then [] else ['\n'] + seq(indent * 2, _ => ' ')
  }

  function Deeper(indent: int): int
    requires indent >= -1
    ensures Deeper(indent) >= -1
  {
    if indent == -1 then -1 else indent + 1
  }

  /** The number formats of to_str: "%" PRId64, and for doubles whatever printf makes of them. */
  function IntText(i: int): Bytes {
    if i < 0 then ['-'] + Decimals.Text(-i) else Decimals.Text(i)
  }

  type Printf = real -> Bytes

  /** The text of a value, without the line end that the outermost value gets in the pretty form. */
  ghost function Body(v: Value, indent: int, printf: Printf): Bytes
    requires indent >= -1
    decreases v, 2
  {
    match v
    case Null => "null"
    case Bool(b) => if b then "true" else "false"
    case Int64(i) => IntText(i)
    case Double(d) => printf(d)
    case Str(s) => Quoted(s)
    case Arr(items) =>
      var inner: Bytes := if items == [] then [] else Items(v, 0, Deeper(indent), printf) + Indent(indent);
      ['['] + inner + [']']
    case Obj(members) =>
      var inner: Bytes := if members == map[] then [] else Members(v, Ordered(members.Keys), Deeper(indent), printf) + Indent(indent);
      ['{'] + inner + ['}']
  }

  /** The array items from i on, with the commas between them. */
  ghost function Items(v: Value, i: nat, indent: int, printf: Printf): Bytes
    requires indent >= -1 && v.Arr? && i < |v.items|
    decreases v, 1, |v.items| - i
  {
    Indent(indent) + Nested(v.items[i], indent, printf) +
    if i + 1 < |v.items| then [','] + Items(v, i + 1, indent, printf) else []
  }

  /** The members of the given keys, with the commas between them. */
  ghost function Members(v: Value, keys: seq<Bytes>, indent: int, printf: Printf): Bytes
    requires indent >= -1 && v.Obj? && keys != [] && forall k :: k in keys ==> k in v.members
    decreases v, 1, |keys|
  {
    Indent(indent) + Quoted(keys[0]) + Colon(indent) + Nested(v.members[keys[0]], indent, printf) +
    if |keys| > 1 then [','] + Members(v, keys[1..], indent, printf) else []
  }

  function Colon(indent: int): Bytes { if indent == -1 then [':'] else [':', ' '] }

  ghost function Nested(v: Value, indent: int, printf: Printf): Bytes
    requires indent >= -1
    decreases v, 3
  {
    Body(v, indent, printf) + (if indent == 0 then ['\n'] else [])
  }

  /** value::serialize */
  ghost function Serialize(v: Value, prettify: bool, printf: Printf): Bytes {
    Nested(v, if prettify then 0 else -1, printf)
  }
}

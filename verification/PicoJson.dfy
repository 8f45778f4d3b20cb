/** picojson's serializer and parser as they run: an output that grows, and an input cursor that moves. */
module PicoJson {
  import opened Bytes
  import opened Utf8
  import opened Options
  import opened Sequences
  import opened PicoText
  import opened PicoParse
  import G = PicoGrammar
  import opened PicoRoundTrip
  import Decimals

  // ---- Serializing ----

  class Output {
    var text: Bytes

    constructor ()
      ensures text == []
    {
      text := [];
    }

    method Put(part: Bytes)
      modifies this
      ensures text == old(text) + part
    {
      text := text + part;
    }

    method SerializeString(s: Bytes)
      modifies this
      ensures text == old(text) + Quoted(s)
    {
      hide EscapeChar;
      Put(['"']);
      for i := 0 to |s|
        invariant text == old(text) + ['"'] + Escape(s[..i])
      {
        Put(EscapeChar(s[i]));
        EscapeMore(s[..i], s[i]);
        assert s[..i] + [s[i]] == s[..i + 1];
      }
      assert s[..|s|] == s;
      Put(['"']);
    }

    /** value::_serialize */
    method Serialize(v: Value, indent: int, printf: Printf)
      requires indent >= -1
      modifies this
      ensures text == old(text) + Nested(v, indent, printf)
      decreases v, 2
    {
      match v {
        case Str(s) => SerializeString(s);
        case Arr(items) => SerializeArray(v, indent, printf);
        case Obj(members) => SerializeObject(v, indent, printf);
        case Null => Put("null");
        case Bool(b) => Put(if b then "true" else "false");
        case Int64(i) => Put(IntText(i));
        case Double(d) => Put(printf(d));
      }
      if indent == 0 {
        Put(['\n']);
      }
    }

    method SerializeArray(v: Value, indent: int, printf: Printf)
      requires indent >= -1 && v.Arr?
      modifies this
      ensures text == old(text) + Body(v, indent, printf)
      decreases v, 0
    {
      hide Nested, Indent, Items;
      ArrayBody(v, indent, printf);
      hide Body;
      Put(['[']);
      var inner := if indent != -1 then indent + 1 else indent;
      ghost var start := text;
      for i := 0 to |v.items|
        invariant i < |v.items| ==>
          text + (if i > 0 then [','] else []) + Items(v, i, inner, printf) == start + Items(v, 0, inner, printf)
        invariant i == |v.items| > 0 ==> text == start + Items(v, 0, inner, printf)
        invariant |v.items| == 0 ==> text == start
      {
        ghost var before := text;
        if i != 0 {
          Put([',']);
        }
        if inner != -1 {
          Put(Indent(inner));
        }
        IndentNone();
        Serialize(v.items[i], inner, printf);
        assert text == before + (if i > 0 then [','] else []) + Indent(inner) + Nested(v.items[i], inner, printf);
        NextItem(text, before, start + Items(v, 0, inner, printf), v, i, inner, printf);
      }
      if indent != -1 && v.items != [] {
        Put(Indent(indent));
      }
      IndentNone();
      Put([']']);
      assert v.items != [] ==> text == old(text) + ['['] + Items(v, 0, inner, printf) + Indent(indent) + [']'];
    }

    method PutMember(v: Value, key: Bytes, indent: int, printf: Printf)
      requires indent >= -1 && v.Obj? && key in v.members
      modifies this
      ensures text == old(text) + Member(v, key, indent, printf)
      decreases v, 0, 0
    {
      hide Nested, Indent, Quoted, Colon;
      if indent != -1 {
        Put(Indent(indent));
      }
      IndentNone();
      SerializeString(key);
      Put([':']);
      if indent != -1 {
        Put([' ']);
      }
      ColonText(indent);
      assert text == old(text) + (Indent(indent) + Quoted(key) + Colon(indent));
      Serialize(v.members[key], indent, printf);
      assert old(text) + (Indent(indent) + Quoted(key) + Colon(indent)) + Nested(v.members[key], indent, printf)
          == old(text) + Member(v, key, indent, printf);
    }

    method SerializeObject(v: Value, indent: int, printf: Printf)
      requires indent >= -1 && v.Obj?
      modifies this
      ensures text == old(text) + Body(v, indent, printf)
      decreases v, 1, 1
    {
      hide Members, Indent, Ordered;
      Put(['{']);
      if v.members != map[] { KeysNotEmpty(v.members); }
      PutMembers(v, if indent != -1 then indent + 1 else indent, printf);
      if indent != -1 && v.members != map[] {
        Put(Indent(indent));
      }
      IndentNone();
      Put(['}']);
    }

    /** The loop over the members, in the order of their keys. */
    method PutMembers(v: Value, inner: int, printf: Printf)
      requires inner >= -1 && v.Obj?
      modifies this
      ensures text == old(text) + MembersOf(v, v.members.Keys, inner, printf)
      decreases v, 1, 0
    {
      hide Member, MembersOf, Rest, Indent, Ordered, IsLeast;
      var keys := v.members.Keys;
      var first := true;
      ghost var whole := text + Rest(v, keys, true, inner, printf);
      while keys != {}
        invariant keys <= v.members.Keys
        invariant text + Rest(v, keys, first, inner, printf) == whole
        decreases |keys|
      {
        ghost var before := text;
        ghost var l := LeastExists(keys);
        var key :| key in keys && IsLeast(key, keys);
        RestFromLeast(v, keys, key, first, inner, printf);
        if !first {
          Put([',']);
        }
        PutMember(v, key, inner, printf);
        var comma, rest := if first then [] else [','], Rest(v, keys - {key}, false, inner, printf);
        Regroup(before, comma, Member(v, key, inner, printf) + rest);
        Regroup(before + comma, Member(v, key, inner, printf), rest);
        keys := keys - {key};
        first := false;
      }
      RestEnds(v, first, inner, printf);
    }
  }

  lemma IndentNone()
    ensures Indent(-1) == []
  {
  }

  lemma ColonText(indent: int)
    ensures Colon(indent) == if indent == -1 then [':'] else [':'] + [' ']
  {
  }

  lemma ArrayBody(v: Value, indent: int, printf: Printf)
    requires indent >= -1 && v.Arr?
    ensures Body(v, indent, printf)
            == ['['] + (if v.items == [] then [] else Items(v, 0, if indent != -1 then indent + 1 else indent, printf) + Indent(indent)) + [']']
  {
    hide Indent, Items;
  }

  lemma NextItem(text: Bytes, before: Bytes, whole: Bytes, v: Value, i: nat, inner: int, printf: Printf)
    requires inner >= -1 && v.Arr? && i < |v.items|
    requires before + (if i > 0 then [','] else []) + Items(v, i, inner, printf) == whole
    requires text == before + (if i > 0 then [','] else []) + Indent(inner) + Nested(v.items[i], inner, printf)
    ensures i + 1 < |v.items| ==> text + [','] + Items(v, i + 1, inner, printf) == whole
    ensures i + 1 == |v.items| ==> text == whole
  {
    hide Nested, Indent;
  }

  lemma LeastIsFirst(keys: set<Bytes>, key: Bytes)
    requires IsLeast(key, keys)
    ensures Ordered(keys) == [key] + Ordered(keys - {key})
  {
    var k := Ordered(keys)[0];
    assert IsLeast(k, keys);
    if k != key && Less(k, key) { LessIsStrict(k, key); }
  }

  /** One member without the comma before it. */
  ghost function Member(v: Value, key: Bytes, indent: int, printf: Printf): Bytes
    requires indent >= -1 && v.Obj? && key in v.members
  {
    Indent(indent) + Quoted(key) + Colon(indent) + Nested(v.members[key], indent, printf)
  }

  ghost function MembersOf(v: Value, keys: set<Bytes>, indent: int, printf: Printf): Bytes
    requires indent >= -1 && v.Obj? && keys <= v.members.Keys
  {
    if keys == {} then [] else
    assert |Ordered(keys)| > 0;
    Members(v, Ordered(keys), indent, printf)
  }

  /** What the loop still has to write. */
  ghost function Rest(v: Value, keys: set<Bytes>, first: bool, indent: int, printf: Printf): Bytes
    requires indent >= -1 && v.Obj? && keys <= v.members.Keys
  {
    if keys == {} then [] else (if first then [] else [',']) + MembersOf(v, keys, indent, printf)
  }

  lemma RestEnds(v: Value, first: bool, indent: int, printf: Printf)
    requires indent >= -1 && v.Obj?
    ensures Rest(v, {}, first, indent, printf) == []
    ensures Rest(v, v.members.Keys, true, indent, printf) == MembersOf(v, v.members.Keys, indent, printf)
  {
  }

  lemma RestFromLeast(v: Value, keys: set<Bytes>, key: Bytes, first: bool, indent: int, printf: Printf)
    requires indent >= -1 && v.Obj? && keys <= v.members.Keys && IsLeast(key, keys)
    ensures Rest(v, keys, first, indent, printf) ==
            (if first then [] else [',']) + (Member(v, key, indent, printf) + Rest(v, keys - {key}, false, indent, printf))
  {
    LeastIsFirst(keys, key);
    MembersOfFirst(v, keys, key, indent, printf);
    hide Member, MembersOf;
  }

  lemma MembersOfFirst(v: Value, keys: set<Bytes>, key: Bytes, inner: int, printf: Printf)
    requires inner >= -1 && v.Obj? && keys <= v.members.Keys && key in keys
    requires Ordered(keys) == [key] + Ordered(keys - {key})
    ensures MembersOf(v, keys, inner, printf) == Member(v, key, inner, printf) +
              if keys - {key} == {} then [] else [','] + MembersOf(v, keys - {key}, inner, printf)
  {
    OrderedEmpty(keys - {key});
    var todo := Ordered(keys);
    assert todo[0] == key && todo[1..] == Ordered(keys - {key});
    MembersAreMembers(v, todo, inner, printf);
    hide Member, Members, Ordered;
  }

  lemma OrderedEmpty(keys: set<Bytes>)
    ensures Ordered(keys) == [] <==> keys == {}
  {
    assert |Ordered(keys)| == |keys|;
  }

  lemma MembersAreMembers(v: Value, keys: seq<Bytes>, inner: int, printf: Printf)
    requires inner >= -1 && v.Obj? && keys != [] && forall k :: k in keys ==> k in v.members
    ensures Members(v, keys, inner, printf) ==
            Member(v, keys[0], inner, printf) + (if |keys| > 1 then [','] + Members(v, keys[1..], inner, printf) else [])
  {
    hide Nested, Indent, Quoted, Colon;
  }

  lemma {:induction false} EscapeMore(s: Bytes, c: Byte)
    ensures Escape(s + [c]) == Escape(s) + EscapeChar(c)
  {
    hide EscapeChar;
    if s == [] {
      assert [c][1..] == [];
      assert s + [c] == [c];
    } else {
      assert (s + [c])[1..] == s[1..] + [c];
      EscapeMore(s[1..], c);
    }
  }

  // ---- Parsing ----

  function Newlines(s: Bytes): nat {
    if s == [] then 0 else Newlines(s[..|s| - 1]) + if s[|s| - 1] == '\n' then 1 else 0
  }

  /** The input cursor: a byte that was read counts as consumed only at the next read. */
  lemma AtNext(s: Bytes, pos: nat, pattern: Bytes, i: nat)
    requires i < |pattern| && OccursAt(s, pos, pattern[..i]) && pos + i < |s| && s[pos + i] == pattern[i]
    ensures OccursAt(s, pos, pattern[..i + 1])
  {
    assert s[pos..pos + i + 1] == s[pos..pos + i] + [s[pos + i]];
    assert pattern[..i + 1] == pattern[..i] + [pattern[i]];
  }

  class Input {
    const s: Bytes
    var cur: nat
    var consumed: bool
    var line: nat

    ghost predicate Valid()
      reads this
    {
      cur <= |s| && (consumed ==> cur < |s|) && line == 1 + Newlines(s[..cur])
    }

    /** The position of the next byte. */
    function Pos(): nat
      reads this
    {
      if consumed then cur + 1 else cur
    }

    constructor (s: Bytes)
      ensures Valid() && Pos() == 0 && this.s == s
    {
      this.s := s;
      cur, consumed, line := 0, false, 1;
    }

    /** The next byte, or -1 at the end. */
    method Getc() returns (ch: int)
      requires Valid()
      modifies this
      ensures Valid()
      ensures old(Pos()) < |s| ==> ch == s[old(Pos())] as int && consumed && cur == old(Pos())
      ensures old(Pos()) >= |s| ==> ch == -1 && !consumed && cur == old(Pos())
    {
      if consumed {
        if s[cur] == '\n' { line := line + 1; }
        assert s[..cur + 1][..cur] == s[..cur];
        cur := cur + 1;
      }
      if cur == |s| {
        consumed := false;
        return -1;
      }
      consumed := true;
      return s[cur] as int;
    }

    method Ungetc()
      requires Valid()
      modifies this`consumed
      ensures Valid() && !consumed
    {
      consumed := false;
    }

    method SkipWhite()
      requires Valid()
      modifies this
      ensures Valid() && Pos() == SkipWs(s, old(Pos())) && !consumed
    {
      while true
        invariant Valid() && SkipWs(s, Pos()) == SkipWs(s, old(Pos()))
        decreases |s| - Pos()
      {
        var ch := Getc();
        if !(ch == ' ' as int || ch == '\t' as int || ch == '\n' as int || ch == '\r' as int) {
          Ungetc();
          break;
        }
      }
    }

    method ExpectByte(expected: Byte) returns (ok: bool)
      requires Valid()
      modifies this
      ensures Valid() && (ok, Pos()) == Expect(s, old(Pos()), expected)
    {
      SkipWhite();
      var ch := Getc();
      if ch != expected as int {
        Ungetc();
        return false;
      }
      return true;
    }

    method Match(pattern: Bytes) returns (ok: bool)
      requires Valid()
      modifies this
      ensures Valid()
      ensures ok == OccursAt(s, old(Pos()), pattern)
      ensures ok ==> Pos() == old(Pos()) + |pattern|
    {
      ghost var start := Pos();
      for i := 0 to |pattern|
        invariant Valid() && Pos() == start + i
        invariant OccursAt(s, start, pattern[..i])
      {
        hide OccursAt;
        var ch := Getc();
        if ch != pattern[i] as int {
          if OccursAt(s, start, pattern) { AtByte(s, start, pattern, i); }
          Ungetc();
          return false;
        }
        AtNext(s, start, pattern, i);
      }
      assert pattern[..|pattern|] == pattern;
      return true;
    }

    method GetQuadHex() returns (r: int)
      requires Valid()
      modifies this
      ensures Valid()
      ensures match QuadHex(s, old(Pos()))
              case Fail => r == -1
              case Ok(u, p) => r == u && Pos() == p
    {
      r := 0;
      ghost var start := Pos();
      for i := 0 to 4
        invariant Valid() && Pos() == start + i
        invariant start + i <= |s| && forall j :: start <= j < start + i ==> HexValue(s[j]) != -1
        invariant r == (if i == 0 then 0 else if i == 1 then HexValue(s[start])
          else if i == 2 then HexValue(s[start]) * 16 + HexValue(s[start + 1])
          else if i == 3 then (HexValue(s[start]) * 16 + HexValue(s[start + 1])) * 16 + HexValue(s[start + 2])
          else ((HexValue(s[start]) * 16 + HexValue(s[start + 1])) * 16 + HexValue(s[start + 2])) * 16 + HexValue(s[start + 3]))
      {
        var ch := Getc();
        if ch == -1 { return -1; }
        var hex := HexValue(ch as char);
        if hex == -1 {
          Ungetc();
          return -1;
        }
        r := r * 16 + hex;
      }
    }
  }

  /** _parse_codepoint */
  method ReadCodepoint(inp: Input) returns (ok: bool, bytes: Bytes)
    requires inp.Valid()
    modifies inp
    ensures inp.Valid()
    ensures match CodePoint(inp.s, old(inp.Pos()))
            case Fail => !ok
            case Ok(b, p) => ok && bytes == b && inp.Pos() == p
  {
    hide QuadHex, Encoded, Newlines;
    bytes := [];
    var u := inp.GetQuadHex();
    if u == -1 { return false, []; }
    if 0xD800 <= u <= 0xDFFF {
      if 0xDC00 <= u { return false, []; }
      var c := inp.Getc();
      var d := -1;
      if c == '\\' as int { d := inp.Getc(); }
      if c != '\\' as int || d != 'u' as int {
        inp.Ungetc();
        return false, [];
      }
      var second := inp.GetQuadHex();
      if !(0xDC00 <= second <= 0xDFFF) { return false, []; }
      u := (u - 0xD800) * 1024 + (second - 0xDC00) + 0x1_0000;
    }
    return true, Encoded(u);
  }

  /** _parse_string */
  method ReadString(inp: Input) returns (ok: bool, out: Bytes)
    requires inp.Valid()
    modifies inp
    ensures inp.Valid()
    ensures match ParseString(inp.s, old(inp.Pos()), [])
            case Fail => !ok
            case Ok(str, p) => ok && out == str && inp.Pos() == p
  {
    hide CodePoint, OccursAt;
    out := [];
    ghost var whole := ParseString(inp.s, inp.Pos(), []);
    while true
      invariant inp.Valid() && inp.Pos() <= |inp.s|
      invariant ParseString(inp.s, inp.Pos(), out) == whole
      decreases |inp.s| - inp.Pos()
    {
      ghost var pos, before := inp.Pos(), out;
      var ch := inp.Getc();
      if ch < ' ' as int {
        inp.Ungetc();
        return false, out;
      } else if ch == '"' as int {
        return true, out;
      } else if ch == '\\' as int {
        ch := inp.Getc();
        if ch == -1 { return false, out; }
        if ch == 'u' as int {
          var good, bytes := ReadCodepoint(inp);
          if !good { return false, out; }
          out := out + bytes;
        } else {
          var e := SimpleEscape(ch as char);
          if e.NoByte? { return false, out; }
          out := out + [e.b];
        }
      } else {
        out := out + [ch as char];
      }
    }
  }

  /** _parse_number and the conversions behind it */
  lemma NumberGoesOn(s: Bytes, start: nat, pos: nat)
    requires start <= pos <= |s|
    ensures pos < |s| ==> s[start..pos + 1] == s[start..pos] + [s[pos]]
    ensures NumberEnd(s, pos) == if pos < |s| && IsNumberChar(s[pos]) then NumberEnd(s, pos + 1) else pos
  {}

  method ReadNumber(inp: Input, strtod: Strtod) returns (ok: bool, v: Value)
    requires inp.Valid() && inp.Pos() < |inp.s| && IsNumberChar(inp.s[inp.Pos()])
    modifies inp
    ensures inp.Valid()
    ensures match ParseNumber(inp.s, old(inp.Pos()), strtod)
            case Fail => !ok
            case Ok(w, p) => ok && v == w && inp.Pos() == p
  {
    hide IntOf, NumberEnd, IsNumberChar;
    v := Null;
    ghost var start := inp.Pos();
    var text: Bytes := [];
    while true
      invariant inp.Valid() && start <= inp.Pos() <= |inp.s|
      invariant text == inp.s[start..inp.Pos()] && NumberEnd(inp.s, inp.Pos()) == NumberEnd(inp.s, start)
      decreases |inp.s| - inp.Pos()
    {
      NumberGoesOn(inp.s, start, inp.Pos());
      var ch := inp.Getc();
      if ch != -1 && IsNumberChar(ch as char) {
        text := text + [ch as char];
      } else {
        inp.Ungetc();
        break;
      }
    }
    assert inp.Pos() == NumberEnd(inp.s, start);
    var i := IntOf(text);
    if i.Some? { return true, Int64(i.value); }
    var d := strtod(text);
    if d.Some? { return true, Double(d.value); }
    return false, Null;
  }

  /** _parse with a default_parse_context of the given depth; what it writes to *out_ is returned. */
  method ReadValue(inp: Input, depth: nat, strtod: Strtod) returns (ok: bool, v: Value)
    requires inp.Valid() && inp.Pos() <= |inp.s|
    modifies inp
    ensures inp.Valid()
    ensures match Parse(inp.s, old(inp.Pos()), depth, strtod)
            case Fail => !ok
            case Ok(w, p) => ok && v == w && inp.Pos() == p
    decreases |inp.s| - inp.Pos(), 1
  {
    hide ParseString, ParseNumber, ParseItems, ParseMembers, OccursAt;
    v := Null;
    inp.SkipWhite();
    ghost var start := inp.Pos();
    var ch := inp.Getc();
    if ch == 'n' as int {
      ok := inp.Match("ull");
    } else if ch == 'f' as int {
      ok := inp.Match("alse");
      v := Bool(false);
    } else if ch == 't' as int {
      ok := inp.Match("rue");
      v := Bool(true);
    } else if ch == '"' as int {
      var str;
      ok, str := ReadString(inp);
      v := Str(str);
    } else if ch == '[' as int {
      ok, v := ReadArray(inp, depth, strtod);
    } else if ch == '{' as int {
      ok, v := ReadObject(inp, depth, strtod);
    } else if ch != -1 && (Decimals.IsDigit(ch as char) || ch == '-' as int) {
      inp.Ungetc();
      ok, v := ReadNumber(inp, strtod);
    } else {
      inp.Ungetc();
      ok := false;
    }
  }

  /** _parse_array, after the bracket */
  method ReadArray(inp: Input, depth: nat, strtod: Strtod) returns (ok: bool, v: Value)
    requires inp.Valid() && inp.Pos() <= |inp.s|
    modifies inp
    ensures inp.Valid()
    ensures var (empty, q) := Expect(inp.s, old(inp.Pos()), ']');
            match if depth == 0 then Fail else if empty then Ok(Arr([]), q) else ParseItems(inp.s, q, depth - 1, [], strtod)
            case Fail => !ok
            case Ok(w, p) => ok && v == w && inp.Pos() == p
    decreases |inp.s| - inp.Pos(), 3
  {
    hide Parse, Expect;
    v := Arr([]);
    if depth == 0 { return false, v; }
    var close := inp.ExpectByte(']');
    if close { return true, v; }
    var items: seq<Value> := [];
    ghost var whole := ParseItems(inp.s, inp.Pos(), depth - 1, [], strtod);
    while true
      invariant inp.Valid() && inp.Pos() <= |inp.s| && old(inp.Pos()) <= inp.Pos()
      invariant ParseItems(inp.s, inp.Pos(), depth - 1, items, strtod) == whole
      decreases |inp.s| - inp.Pos()
    {
      var good, item := ReadValue(inp, depth - 1, strtod);
      if !good { return false, v; }
      items := items + [item];
      var comma := inp.ExpectByte(',');
      if !comma {
        close := inp.ExpectByte(']');
        return close, Arr(items);
      }
    }
  }

  /** _parse_object, after the brace */
  method ReadObject(inp: Input, depth: nat, strtod: Strtod) returns (ok: bool, v: Value)
    requires inp.Valid() && inp.Pos() <= |inp.s|
    modifies inp
    ensures inp.Valid()
    ensures var (empty, q) := Expect(inp.s, old(inp.Pos()), '}');
            match if depth == 0 then Fail else if empty then Ok(Obj(map[]), q) else ParseMembers(inp.s, q, depth, map[], strtod)
            case Fail => !ok
            case Ok(w, p) => ok && v == w && inp.Pos() == p
    decreases |inp.s| - inp.Pos(), 3
  {
    hide Parse, Expect, ParseString;
    v := Obj(map[]);
    if depth == 0 { return false, v; }
    var close := inp.ExpectByte('}');
    if close { return true, v; }
    var members: map<Bytes, Value> := map[];
    ghost var whole := ParseMembers(inp.s, inp.Pos(), depth, map[], strtod);
    while true
      invariant inp.Valid() && inp.Pos() <= |inp.s| && old(inp.Pos()) <= inp.Pos()
      invariant ParseMembers(inp.s, inp.Pos(), depth, members, strtod) == whole
      decreases |inp.s| - inp.Pos()
    {
      var quote := inp.ExpectByte('"');
      if !quote { return false, v; }
      var good, key := ReadString(inp);
      if !good { return false, v; }
      var colon := inp.ExpectByte(':');
      if !colon { return false, v; }
      var item;
      good, item := ReadValue(inp, depth, strtod);
      if !good { return false, v; }
      members := members[key := item];
      var comma := inp.ExpectByte(',');
      if !comma {
        close := inp.ExpectByte('}');
        return close, Obj(members);
      }
    }
  }

  /** parse(value &, const std::string &): accepts exactly the texts of JSON; what follows the value is not looked at. */
  method ParseDocument(s: Bytes, strtod: Strtod) returns (ok: bool, v: Value)
    ensures ok <==> exists end, w :: G.Says(s, 0, end, w, 100, strtod)
    ensures ok ==> exists end :: G.Says(s, 0, end, v, 100, strtod)
  {
    assert DEFAULT_MAX_DEPTHS == 100;
    hide Parse, G.Says;
    var inp := new Input(s);
    forall end: nat, w ensures Parse(s, 0, DEFAULT_MAX_DEPTHS, strtod) == Ok(w, end) <==> G.Says(s, 0, end, w, DEFAULT_MAX_DEPTHS, strtod) {
      G.ParseIff(s, 0, end, w, DEFAULT_MAX_DEPTHS, strtod);
    }
    ok, v := ReadValue(inp, DEFAULT_MAX_DEPTHS, strtod);
    if ok { assert G.Says(s, 0, inp.Pos(), v, DEFAULT_MAX_DEPTHS, strtod); }
  }

  /** Serializing a value and parsing the text, with the objects of the library. */
  method SerializeAndParse(v: Value, prettify: bool, printf: Printf, strtod: Strtod) returns (ok: bool, w: Value)
    requires Plain(v)
    ensures ok == Fits(v, DEFAULT_MAX_DEPTHS)
    ensures ok ==> w == v
  {
    hide Parse, Nested, Plain, Fits;
    var out := new Output();
    out.Serialize(v, if prettify then 0 else -1, printf);
    RoundTrip(v, prettify, printf, strtod);
    assert out.text == Serialize(v, prettify, printf);
    var inp := new Input(out.text);
    ok, w := ReadValue(inp, DEFAULT_MAX_DEPTHS, strtod);
  }
}

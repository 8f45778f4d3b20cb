/** Parsing what picojson serialized gives back the value, exactly when its arrays are not nested too deep. */
module PicoRoundTrip {
  import opened Bytes
  import opened Utf8
  import opened Options
  import opened PicoText
  import opened PicoParse
  import Decimals

  /** No doubles, and integers that int64_t can hold. */
  predicate Plain(v: Value) {
    match v
    case Double(_) => false
    case Int64(i) => INT64_MIN <= i <= INT64_MAX
    case Arr(items) => forall i :: 0 <= i < |items| ==> Plain(items[i])
    case Obj(members) => forall k :: k in members ==> Plain(members[k])
    case _ => true
  }

  /** Every container in v has fewer than `depth` arrays around it. */
  predicate Fits(v: Value, depth: nat) {
    match v
    case Arr(items) => depth > 0 && forall i :: 0 <= i < |items| ==> Fits(items[i], depth - 1)
    case Obj(members) => depth > 0 && forall k :: k in members ==> Fits(members[k], depth)
    case _ => true
  }

  // ---- Text at a position ----

  lemma AtSplit(s: Bytes, pos: nat, a: Bytes, b: Bytes)
    requires OccursAt(s, pos, a + b)
    ensures OccursAt(s, pos, a) && OccursAt(s, pos + |a|, b)
  {
    var t := s[pos..pos + |a + b|];
    assert t[..|a|] == a && t[|a|..] == b;
  }

  lemma AtByte(s: Bytes, pos: nat, text: Bytes, i: nat)
    requires OccursAt(s, pos, text) && i < |text|
    ensures pos + i < |s| && s[pos + i] == text[i]
  {
    assert s[pos..pos + |text|][i] == text[i];
  }

  lemma {:induction false} WsIsSkipped(s: Bytes, pos: nat, ws: Bytes)
    requires OccursAt(s, pos, ws) && forall i :: 0 <= i < |ws| ==> IsWs(ws[i])
    requires pos + |ws| < |s| ==> !IsWs(s[pos + |ws|])
    ensures SkipWs(s, pos) == pos + |ws|
    decreases |ws|
  {
    if ws != [] {
      AtByte(s, pos, ws, 0);
      assert ws == [ws[0]] + ws[1..];
      AtSplit(s, pos, [ws[0]], ws[1..]);
      WsIsSkipped(s, pos + 1, ws[1..]);
    }
  }

  lemma IndentIsSkipped(s: Bytes, pos: nat, indent: int)
    requires indent >= -1 && OccursAt(s, pos, Indent(indent))
    requires pos + |Indent(indent)| < |s| ==> !IsWs(s[pos + |Indent(indent)|])
    ensures SkipWs(s, pos) == pos + |Indent(indent)|
  {
    WsIsSkipped(s, pos, Indent(indent));
  }

  // ---- Strings ----

  lemma HexDigitsRead(n: nat)
    requires n < 16
    ensures HexValue(HexDigit(n)) == n
  {
  }

  /** One escaped byte is read back as that byte. */
  lemma EscapedByteIsRead(s: Bytes, pos: nat, c: Byte, out: Bytes)
    requires OccursAt(s, pos, EscapeChar(c))
    ensures ParseString(s, pos, out) == ParseString(s, pos + |EscapeChar(c)|, out + [c])
  {
    var e := EscapeChar(c);
    AtByte(s, pos, e, 0);
    if |e| == 2 {
      AtByte(s, pos, e, 1);
    } else if |e| == 6 {
      AtByte(s, pos, e, 1);
      AtByte(s, pos, e, 2);
      AtByte(s, pos, e, 3);
      AtByte(s, pos, e, 4);
      AtByte(s, pos, e, 5);
      HexDigitsRead(c as int / 16);
      HexDigitsRead(c as int % 16);
      assert QuadHex(s, pos + 2) == Ok(c as int, pos + 6);
      assert Encoded(c as int) == [c];
    }
  }

  lemma {:induction false} EscapedTextIsRead(s: Bytes, pos: nat, text: Bytes, out: Bytes)
    requires OccursAt(s, pos, Escape(text) + ['"'])
    ensures ParseString(s, pos, out) == Ok(out + text, pos + |Escape(text)| + 1)
    decreases |text|
  {
    hide OccursAt, EscapeChar, CodePoint, SimpleEscape;
    if text == [] {
      assert Escape(text) + ['"'] == ['"'];
      AtByte(s, pos, ['"'], 0);
      assert out + text == out;
    } else {
      var e, rest := EscapeChar(text[0]), Escape(text[1..]);
      assert Escape(text) + ['"'] == e + (rest + ['"']);
      AtSplit(s, pos, e, rest + ['"']);
      EscapedByteIsRead(s, pos, text[0], out);
      EscapedTextIsRead(s, pos + |e|, text[1..], out + [text[0]]);
      assert (out + [text[0]]) + text[1..] == out + text;
    }
  }

  // ---- Integers ----

  lemma {:induction false} NumberIsDelimited(s: Bytes, pos: nat, text: Bytes)
    requires OccursAt(s, pos, text) && forall i :: 0 <= i < |text| ==> IsNumberChar(text[i])
    requires pos + |text| < |s| ==> !IsNumberChar(s[pos + |text|])
    ensures NumberEnd(s, pos) == pos + |text|
    decreases |text|
  {
    if text != [] {
      AtByte(s, pos, text, 0);
      assert text == [text[0]] + text[1..];
      AtSplit(s, pos, [text[0]], text[1..]);
      NumberIsDelimited(s, pos + 1, text[1..]);
    }
  }

  lemma IntIsRead(i: int)
    requires INT64_MIN <= i <= INT64_MAX
    ensures IntText(i) != [] && IntOf(IntText(i)) == Some(i)
    ensures forall j :: 0 <= j < |IntText(i)| ==> IsNumberChar(IntText(i)[j])
    ensures Decimals.IsDigit(IntText(i)[0]) || IntText(i)[0] == '-'
  {
    var n := if i < 0 then -i else i;
    Decimals.ValueOfText(n);
    var t := Decimals.Text(n);
    assert Decimals.IsDigit(t[0]);
    if i < 0 {
      assert (['-'] + t)[1..] == t;
    }
  }

  // ---- Values ----

  /** What may follow a serialized value: the end, or a byte that does not continue a number. */
  predicate Ends(s: Bytes, pos: nat) {
    pos <= |s| && (pos < |s| ==> !IsNumberChar(s[pos]))
  }

  /** The first byte of a serialized value. */
  lemma BodyStart(v: Value, indent: int, printf: Printf)
    requires indent >= -1 && Plain(v)
    ensures Body(v, indent, printf) != [] && !IsWs(Body(v, indent, printf)[0])
    ensures Body(v, indent, printf)[0] != ']' && Body(v, indent, printf)[0] != '}'
  {
    if v.Int64? { IntIsRead(v.i); }
  }

  /**
   * A serialized value, compact or indented, is read back; and it is refused when its containers are nested in too
   * many arrays.
   */
  lemma {:induction false} BodyIsRead(
    s: Bytes, pos: nat, v: Value, indent: int, depth: nat, printf: Printf, strtod: Strtod)
    requires indent >= -1 && Plain(v) && OccursAt(s, pos, Body(v, indent, printf))
    requires Ends(s, pos + |Body(v, indent, printf)|)
    ensures Parse(s, pos, depth, strtod) ==
            if Fits(v, depth) then Ok(v, pos + |Body(v, indent, printf)|) else Fail
    decreases v, 3
  {
    hide Body, Parse, OccursAt, Plain, Fits;
    match v {
      case Int64(i) => IntValueIsRead(s, pos, v, indent, depth, printf, strtod);
      case Arr(items) => ArrayIsRead(s, pos, v, indent, depth, printf, strtod);
      case Obj(members) => ObjectIsRead(s, pos, v, indent, depth, printf, strtod);
      case Double(_) => NoDouble(v);
      case _ => WordIsRead(s, pos, v, indent, depth, printf, strtod);
    }
  }

  lemma PlainItem(v: Value, i: nat)
    requires v.Arr? && Plain(v) && i < |v.items|
    ensures Plain(v.items[i])
  {
  }

  lemma PlainMember(v: Value, k: Bytes)
    requires v.Obj? && Plain(v) && k in v.members
    ensures Plain(v.members[k])
  {
  }

  /** Leading white space makes no difference to a value. */
  lemma ParseAfterWs(s: Bytes, pos: nat, depth: nat, strtod: Strtod)
    requires pos <= |s|
    ensures Parse(s, SkipWs(s, pos), depth, strtod) == Parse(s, pos, depth, strtod)
  {
    hide ParseItems, ParseMembers, ParseString, ParseNumber, OccursAt;
    SkipTwice(s, pos);
  }

  lemma NoDouble(v: Value)
    requires Plain(v)
    ensures !v.Double?
  {
  }

  lemma WordIsRead(s: Bytes, pos: nat, v: Value, indent: int, depth: nat, printf: Printf, strtod: Strtod)
    requires indent >= -1 && (v.Null? || v.Bool? || v.Str?) && OccursAt(s, pos, Body(v, indent, printf))
    ensures Fits(v, depth) && Parse(s, pos, depth, strtod) == Ok(v, pos + |Body(v, indent, printf)|)
  {
    hide ParseItems, ParseMembers, ParseNumber, ParseString, OccursAt, Escape;
    var text := Body(v, indent, printf);
    AtByte(s, pos, text, 0);
    if v.Str? {
      assert text == ['"'] + (Escape(v.s) + ['"']);
      AtSplit(s, pos, ['"'], Escape(v.s) + ['"']);
      EscapedTextIsRead(s, pos + 1, v.s, []);
      assert [] + v.s == v.s;
    } else if v.Null? {
      assert text == "n" + "ull";
      AtSplit(s, pos, "n", "ull");
    } else if v.b {
      assert text == "t" + "rue";
      AtSplit(s, pos, "t", "rue");
    } else {
      assert text == "f" + "alse";
      AtSplit(s, pos, "f", "alse");
    }
  }

  lemma IntValueIsRead(s: Bytes, pos: nat, v: Value, indent: int, depth: nat, printf: Printf, strtod: Strtod)
    requires indent >= -1 && v.Int64? && Plain(v) && OccursAt(s, pos, Body(v, indent, printf))
    requires Ends(s, pos + |Body(v, indent, printf)|)
    ensures Fits(v, depth) && Parse(s, pos, depth, strtod) == Ok(v, pos + |Body(v, indent, printf)|)
  {
    hide ParseItems, ParseMembers, ParseString, IntText, IntOf;
    IntIsRead(v.i);
    var text := IntText(v.i);
    AtByte(s, pos, text, 0);
    NumberIsDelimited(s, pos, text);
    hide OccursAt;
  }

  lemma {:induction false} ArrayIsRead(
    s: Bytes, pos: nat, v: Value, indent: int, depth: nat, printf: Printf, strtod: Strtod)
    requires indent >= -1 && v.Arr? && Plain(v) && OccursAt(s, pos, Body(v, indent, printf))
    ensures Parse(s, pos, depth, strtod) ==
            if Fits(v, depth) then Ok(v, pos + |Body(v, indent, printf)|) else Fail
    decreases v, 2
  {
    hide ParseItems, ParseMembers, ParseString, ParseNumber, Items, OccursAt, Indent;
    var text := Body(v, indent, printf);
    AtByte(s, pos, text, 0);
    if depth > 0 {
      if v.items == [] {
        AtByte(s, pos, text, 1);
      } else {
        var inner := Items(v, 0, Deeper(indent), printf);
        var end := Indent(indent) + [']'];
        assert text == ['['] + (inner + end);
        AtSplit(s, pos, ['['], inner + end);
        ItemsStart(s, pos + 1, v, 0, Deeper(indent), printf, end);
        ItemsAreRead(s, pos + 1, v, 0, indent, depth - 1, printf, strtod);
        assert Expect(s, pos + 1, ']') == (false, SkipWs(s, pos + 1));
        ParseSkipsWs(s, pos + 1, depth - 1, [], strtod);
        assert v.items[..0] == [];
      }
    }
  }

  /** The item loop may start before or after the white space in front of the item. */
  lemma ParseSkipsWs(s: Bytes, pos: nat, depth: nat, out: seq<Value>, strtod: Strtod)
    requires pos <= |s|
    ensures ParseItems(s, SkipWs(s, pos), depth, out, strtod) == ParseItems(s, pos, depth, out, strtod)
  {
    hide Parse, Expect;
    ParseAfterWs(s, pos, depth, strtod);
  }

  lemma SkipTwice(s: Bytes, pos: nat)
    requires pos <= |s|
    ensures SkipWs(s, SkipWs(s, pos)) == SkipWs(s, pos)
  {
  }

  lemma ItemsShape(v: Value, i: nat, indent: int, printf: Printf, end: Bytes)
    requires indent != 0 && indent >= -1 && v.Arr? && i < |v.items|
    ensures Items(v, i, indent, printf) + end ==
            Indent(indent) + (Body(v.items[i], indent, printf) +
              ((if i + 1 < |v.items| then [','] + Items(v, i + 1, indent, printf) else []) + end))
  {
    hide Body, Indent;
  }

  /** In front of an item there is white space, and then no closing bracket. */
  lemma ItemsStart(s: Bytes, pos: nat, v: Value, i: nat, indent: int, printf: Printf, end: Bytes)
    requires indent != 0 && indent >= -1 && v.Arr? && Plain(v) && i < |v.items|
    requires OccursAt(s, pos, Items(v, i, indent, printf) + end)
    ensures var p := SkipWs(s, pos); p == pos + |Indent(indent)| < |s| && s[p] != ']'
    ensures OccursAt(s, pos + |Indent(indent)|, Body(v.items[i], indent, printf))
  {
    hide OccursAt, Items, Parse, Indent, Body;
    var item := Body(v.items[i], indent, printf);
    var rest := (if i + 1 < |v.items| then [','] + Items(v, i + 1, indent, printf) else []) + end;
    ItemsShape(v, i, indent, printf, end);
    AtSplit(s, pos, Indent(indent), item + rest);
    AtSplit(s, pos + |Indent(indent)|, item, rest);
    BodyStart(v.items[i], indent, printf);
    AtByte(s, pos + |Indent(indent)|, item, 0);
    IndentIsSkipped(s, pos, indent);
  }

  /** The items from i on and the closing bracket, after the items before i were read. */
  lemma {:induction false} ItemsAreRead(
    s: Bytes, pos: nat, v: Value, i: nat, indent: int, depth: nat, printf: Printf, strtod: Strtod)
    requires indent >= -1 && v.Arr? && Plain(v) && i < |v.items|
    requires OccursAt(s, pos, Items(v, i, Deeper(indent), printf) + (Indent(indent) + [']']))
    ensures ParseItems(s, pos, depth, v.items[..i], strtod) ==
            if forall j :: i <= j < |v.items| ==> Fits(v.items[j], depth)
            then Ok(v, pos + |Items(v, i, Deeper(indent), printf)| + |Indent(indent)| + 1) else Fail
    decreases v, 1, |v.items| - i
  {
    hide OccursAt, Items, Parse, Indent, Body, Fits, Plain, Expect, Ends;
    var inner, end := Deeper(indent), Indent(indent) + [']'];
    var item := Body(v.items[i], inner, printf);
    ItemsStart(s, pos, v, i, inner, printf, end);
    var p := pos + |Indent(inner)|;
    var q := p + |item|;
    AfterItem(s, pos, v, i, indent, printf);
    ItemsShape(v, i, inner, printf, end);
    PlainItem(v, i);
    BodyIsRead(s, p, v.items[i], inner, depth, printf, strtod);
    ParseAfterWs(s, pos, depth, strtod);
    assert v.items[..i + 1] == v.items[..i] + [v.items[i]];
    if Fits(v.items[i], depth) {
      if i + 1 < |v.items| {
        ItemsAreRead(s, q + 1, v, i + 1, indent, depth, printf, strtod);
      } else {
        assert v.items[..i + 1] == v.items;
      }
    }
  }

  /** Behind an item: a comma and the next item, or the closing bracket. */
  lemma AfterItem(s: Bytes, pos: nat, v: Value, i: nat, indent: int, printf: Printf)
    requires indent >= -1 && v.Arr? && Plain(v) && i < |v.items|
    requires OccursAt(s, pos, Items(v, i, Deeper(indent), printf) + (Indent(indent) + [']']))
    ensures var q := pos + |Indent(Deeper(indent))| + |Body(v.items[i], Deeper(indent), printf)|;
            && Ends(s, q)
            && if i + 1 < |v.items| then
                 && Expect(s, q, ',') == (true, q + 1)
                 && OccursAt(s, q + 1, Items(v, i + 1, Deeper(indent), printf) + (Indent(indent) + [']']))
               else
                 && !Expect(s, q, ',').0
                 && Expect(s, Expect(s, q, ',').1, ']') == (true, q + |Indent(indent)| + 1)
  {
    hide OccursAt, Items, Parse, Indent, Body, Plain;
    var inner, end := Deeper(indent), Indent(indent) + [']'];
    var before := Indent(inner) + Body(v.items[i], inner, printf);
    var q := pos + |before|;
    if i + 1 < |v.items| {
      var next := Items(v, i + 1, inner, printf);
      ItemsShape(v, i, inner, printf, end);
      assert Indent(inner) + (Body(v.items[i], inner, printf) + (([','] + next) + end)) == before + ([','] + (next + end));
      AtSplit(s, pos, before, [','] + (next + end));
      AtSplit(s, q, [','], next + end);
      AtByte(s, q, [','], 0);
    } else {
      ItemsShape(v, i, inner, printf, end);
      assert Indent(inner) + (Body(v.items[i], inner, printf) + ([] + end)) == before + end;
      AtSplit(s, pos, before, end);
      ClosingIsRead(s, q, indent, ']');
    }
  }

  lemma ClosingIsRead(s: Bytes, q: nat, indent: int, bracket: Byte)
    requires indent >= -1 && (bracket == ']' || bracket == '}') && OccursAt(s, q, Indent(indent) + [bracket])
    ensures Ends(s, q) && !Expect(s, q, ',').0
    ensures Expect(s, Expect(s, q, ',').1, bracket) == (true, q + |Indent(indent)| + 1)
  {
    hide OccursAt, SkipWs, Indent, IsWs, Ends;
    ClosingStarts(s, q, indent, bracket);
    ClosingIsNext(s, q, indent, bracket);
    SkipTwice(s, q);
  }

  lemma ClosingStarts(s: Bytes, q: nat, indent: int, bracket: Byte)
    requires indent >= -1 && (bracket == ']' || bracket == '}') && OccursAt(s, q, Indent(indent) + [bracket])
    ensures Ends(s, q)
  {
    hide OccursAt;
    AtByte(s, q, Indent(indent) + [bracket], 0);
  }

  lemma ClosingIsNext(s: Bytes, q: nat, indent: int, bracket: Byte)
    requires indent >= -1 && (bracket == ']' || bracket == '}') && OccursAt(s, q, Indent(indent) + [bracket])
    ensures q <= |s| && SkipWs(s, q) == q + |Indent(indent)| < |s| && s[q + |Indent(indent)|] == bracket
  {
    assert !IsWs(bracket);
    hide *;
    AtSplit(s, q, Indent(indent), [bracket]);
    AtByte(s, q + |Indent(indent)|, [bracket], 0);
    IndentIsSkipped(s, q, indent);
  }

  lemma {:induction false} ObjectIsRead(
    s: Bytes, pos: nat, v: Value, indent: int, depth: nat, printf: Printf, strtod: Strtod)
    requires indent >= -1 && v.Obj? && Plain(v) && OccursAt(s, pos, Body(v, indent, printf))
    ensures Parse(s, pos, depth, strtod) ==
            if Fits(v, depth) then Ok(v, pos + |Body(v, indent, printf)|) else Fail
    decreases v, 2
  {
    hide *;
    ObjectText(v, indent, printf);
    if v.members == map[] {
      EmptyObjectIsRead(s, pos, v, indent, depth, printf, strtod);
    } else {
      var keys := Ordered(v.members.Keys);
      KeysNotEmpty(v.members);
      FilledObjectIsRead(s, pos, v, keys, indent, depth, printf, strtod);
    }
  }

  lemma ObjectText(v: Value, indent: int, printf: Printf)
    requires indent >= -1 && v.Obj?
    ensures v.members == map[] ==> Body(v, indent, printf) == ['{'] + ['}']
    ensures forall k :: k in Ordered(v.members.Keys) <==> k in v.members
    ensures v.members != map[] ==>
              var keys := Ordered(v.members.Keys);
              && keys != []
              && Body(v, indent, printf) == ['{'] + (Members(v, keys, Deeper(indent), printf) + (Indent(indent) + ['}']))
  {
    if v.members != map[] { KeysNotEmpty(v.members); }
    hide Members, Ordered, Indent;
  }

  lemma EmptyObjectIsRead(s: Bytes, pos: nat, v: Value, indent: int, depth: nat, printf: Printf, strtod: Strtod)
    requires indent >= -1 && v.Obj? && v.members == map[] && OccursAt(s, pos, ['{'] + ['}']) && Body(v, indent, printf) == ['{'] + ['}']
    ensures Parse(s, pos, depth, strtod) == if Fits(v, depth) then Ok(v, pos + |Body(v, indent, printf)|) else Fail
  {
    hide ParseItems, ParseMembers, ParseString, ParseNumber, OccursAt, Body;
    AtByte(s, pos, ['{'] + ['}'], 0);
    AtByte(s, pos, ['{'] + ['}'], 1);
  }

  lemma {:induction false} FilledObjectIsRead(
    s: Bytes, pos: nat, v: Value, keys: seq<Bytes>, indent: int, depth: nat, printf: Printf, strtod: Strtod)
    requires indent >= -1 && v.Obj? && Plain(v) && keys != [] && forall k :: k in keys <==> k in v.members
    requires OccursAt(s, pos, ['{'] + (Members(v, keys, Deeper(indent), printf) + (Indent(indent) + ['}'])))
    ensures Parse(s, pos, depth, strtod) ==
            if Fits(v, depth) then Ok(v, pos + 1 + |Members(v, keys, Deeper(indent), printf)| + |Indent(indent)| + 1) else Fail
    decreases v, 1, |keys| + 1
  {
    assert Deeper(indent) != 0;
    hide *;
    var inner, end := Members(v, keys, Deeper(indent), printf), Indent(indent) + ['}'];
    BraceIsRead(s, pos, inner + end);
    MembersStart(s, pos + 1, v, keys, Deeper(indent), printf, end);
    MembersAreRead(s, pos + 1, v, keys, map[], indent, depth, printf, strtod);
    ObjectOpens(s, pos, depth, strtod);
    ObjectFits(v, keys, depth);
  }

  lemma BraceIsRead(s: Bytes, pos: nat, rest: Bytes)
    requires OccursAt(s, pos, ['{'] + rest)
    ensures pos < |s| && s[pos] == '{' && OccursAt(s, pos + 1, rest)
  {
    hide OccursAt;
    AtByte(s, pos, ['{'] + rest, 0);
    AtSplit(s, pos, ['{'], rest);
  }

  lemma ObjectFits(v: Value, keys: seq<Bytes>, depth: nat)
    requires v.Obj? && forall k :: k in keys <==> k in v.members
    ensures Fits(v, depth) <==> depth > 0 && forall k :: k in keys ==> Fits(v.members[k], depth)
  {}

  lemma ObjectOpens(s: Bytes, pos: nat, depth: nat, strtod: Strtod)
    requires pos < |s| && s[pos] == '{' && SkipWs(s, pos + 1) < |s| && s[SkipWs(s, pos + 1)] == '"'
    ensures Parse(s, pos, depth, strtod) == if depth == 0 then Fail else ParseMembers(s, pos + 1, depth, map[], strtod)
  {
    hide ParseItems, ParseMembers, ParseString, ParseNumber, OccursAt;
    MembersAfterWs(s, pos + 1, depth, strtod);
  }

  lemma MembersAfterWs(s: Bytes, pos: nat, depth: nat, strtod: Strtod)
    requires pos <= |s|
    ensures ParseMembers(s, SkipWs(s, pos), depth, map[], strtod) == ParseMembers(s, pos, depth, map[], strtod)
  {
    SkipTwice(s, pos);
    assert Expect(s, SkipWs(s, pos), '"') == Expect(s, pos, '"');
    hide Parse, ParseString, Expect;
  }

  lemma KeysNotEmpty(m: map<Bytes, Value>)
    requires m != map[]
    ensures Ordered(m.Keys) != []
  {
    var k :| k in m;
    assert k in m.Keys;
  }

  lemma MembersShape(v: Value, keys: seq<Bytes>, indent: int, printf: Printf, end: Bytes)
    requires indent != 0 && indent >= -1 && v.Obj? && keys != [] && forall k :: k in keys ==> k in v.members
    ensures Members(v, keys, indent, printf) + end ==
            Indent(indent) + (['"'] + ((Escape(keys[0]) + ['"']) +
              (Colon(indent) + Body(v.members[keys[0]], indent, printf) + MemberRest(v, keys, indent, printf) + end)))
  {
    hide Body, Indent, Escape, Colon;
  }

  /** In front of a member there is white space, and then the quote of its key. */
  lemma MembersStart(s: Bytes, pos: nat, v: Value, keys: seq<Bytes>, indent: int, printf: Printf, end: Bytes)
    requires indent != 0 && indent >= -1 && v.Obj? && keys != [] && forall k :: k in keys ==> k in v.members
    requires OccursAt(s, pos, Members(v, keys, indent, printf) + end)
    ensures var p := SkipWs(s, pos); p == pos + |Indent(indent)| < |s| && s[p] == '"' && Expect(s, pos, '"') == (true, p + 1)
    ensures OccursAt(s, pos + |Indent(indent)| + 1, Escape(keys[0]) + ['"'])
    ensures OccursAt(s, pos + |Indent(indent)| + |Quoted(keys[0])|,
               Colon(indent) + Body(v.members[keys[0]], indent, printf) + MemberRest(v, keys, indent, printf) + end)
  {
    hide OccursAt, Members, Parse, Indent, Body, Escape, Colon, MemberRest;
    var value := Body(v.members[keys[0]], indent, printf);
    var rest := Colon(indent) + value + MemberRest(v, keys, indent, printf) + end;
    var key := Escape(keys[0]) + ['"'];
    MembersShape(v, keys, indent, printf, end);
    AtSplit(s, pos, Indent(indent), ['"'] + (key + rest));
    var p := pos + |Indent(indent)|;
    AtSplit(s, p, ['"'], key + rest);
    AtByte(s, p, ['"'], 0);
    AtSplit(s, p + 1, key, rest);
    IndentIsSkipped(s, pos, indent);
    assert Quoted(keys[0]) == ['"'] + key;
  }

  ghost function MemberRest(v: Value, keys: seq<Bytes>, indent: int, printf: Printf): Bytes
    requires indent >= -1 && v.Obj? && keys != [] && forall k :: k in keys ==> k in v.members
  {
    if |keys| > 1 then [','] + Members(v, keys[1..], indent, printf) else []
  }

  /** Behind a key: the colon and the value. */
  lemma AfterKey(s: Bytes, c: nat, v: Value, indent: int, printf: Printf, rest: Bytes)
    requires indent >= -1 && Plain(v) && OccursAt(s, c, Colon(indent) + Body(v, indent, printf) + rest)
    ensures Expect(s, c, ':') == (true, c + 1)
    ensures var p := c + |Colon(indent)|;
            && SkipWs(s, c + 1) == p && OccursAt(s, p, Body(v, indent, printf)) && OccursAt(s, p + |Body(v, indent, printf)|, rest)
  {
    hide OccursAt, Body, Plain;
    var value := Body(v, indent, printf);
    assert Colon(indent) + value + rest == Colon(indent) + (value + rest);
    AtSplit(s, c, Colon(indent), value + rest);
    AtByte(s, c, Colon(indent), 0);
    var p := c + |Colon(indent)|;
    AtSplit(s, p, value, rest);
    BodyStart(v, indent, printf);
    AtByte(s, p, value, 0);
    if |Colon(indent)| == 2 { AtByte(s, c, Colon(indent), 1); }
  }

  /** Behind a member: a comma and the next member, or the closing brace. */
  lemma AfterMember(s: Bytes, q: nat, v: Value, keys: seq<Bytes>, indent: int, printf: Printf)
    requires indent >= -1 && v.Obj? && keys != [] && forall k :: k in keys ==> k in v.members
    requires OccursAt(s, q, MemberRest(v, keys, Deeper(indent), printf) + (Indent(indent) + ['}']))
    ensures Ends(s, q)
    ensures if |keys| > 1 then
              && Expect(s, q, ',') == (true, q + 1)
              && OccursAt(s, q + 1, Members(v, keys[1..], Deeper(indent), printf) + (Indent(indent) + ['}']))
            else
              && !Expect(s, q, ',').0
              && Expect(s, Expect(s, q, ',').1, '}') == (true, q + |Indent(indent)| + 1)
  {
    hide OccursAt, Members, Indent;
    var end := Indent(indent) + ['}'];
    if |keys| > 1 {
      var next := Members(v, keys[1..], Deeper(indent), printf);
      assert MemberRest(v, keys, Deeper(indent), printf) + end == [','] + (next + end);
      AtSplit(s, q, [','], next + end);
      AtByte(s, q, [','], 0);
    } else {
      assert MemberRest(v, keys, Deeper(indent), printf) + end == end;
      ClosingIsRead(s, q, indent, '}');
    }
  }

  /** One turn of the object loop. */
  lemma MemberStep(
    s: Bytes, pos: nat, p: nat, key: Bytes, q: nat, c: nat, depth: nat, out: map<Bytes, Value>, strtod: Strtod)
    requires pos <= |s| && p <= |s| && q <= |s| && c <= |s| && Expect(s, pos, '"') == (true, p)
    requires ParseString(s, p, []) == Ok(key, q) && Expect(s, q, ':') == (true, c)
    ensures Parse(s, c, depth, strtod).Fail? ==> ParseMembers(s, pos, depth, out, strtod) == Fail
    ensures Parse(s, c, depth, strtod).Ok? ==>
      var v := Parse(s, c, depth, strtod);
      var out' := out[key := v.value];
      var (comma, m) := Expect(s, v.pos, ',');
      ParseMembers(s, pos, depth, out, strtod) ==
        if comma then ParseMembers(s, m, depth, out', strtod)
        else if Expect(s, m, '}').0 then Ok(Obj(out'), Expect(s, m, '}').1) else Fail
  {
    hide Parse, ParseString, Expect;
  }

  /** The members of the given keys and the closing brace, after the other members were read into `out`. */
  lemma {:induction false} MembersAreRead(
    s: Bytes, pos: nat, v: Value, keys: seq<Bytes>, out: map<Bytes, Value>, indent: int, depth: nat,
    printf: Printf, strtod: Strtod)
    requires indent >= -1 && v.Obj? && Plain(v) && keys != [] && forall k :: k in keys ==> k in v.members
    requires forall k :: k in out ==> k in v.members && out[k] == v.members[k]
    requires forall k :: k in v.members ==> k in out || k in keys
    requires OccursAt(s, pos, Members(v, keys, Deeper(indent), printf) + (Indent(indent) + ['}']))
    ensures ParseMembers(s, pos, depth, out, strtod) ==
            if forall k :: k in keys ==> Fits(v.members[k], depth)
            then Ok(v, pos + |Members(v, keys, Deeper(indent), printf)| + |Indent(indent)| + 1) else Fail
    decreases v, 1, |keys|
  {
    hide OccursAt, Members, Parse, ParseMembers, Indent, Body, Fits, Expect, Ends, ParseString, Plain, Colon, MemberRest;
    var key := keys[0];
    var inner, value := Deeper(indent), v.members[key];
    var k, c, q := OneMember(s, pos, v, keys, indent, printf);
    BodyIsRead(s, SkipWs(s, c + 1), value, inner, depth, printf, strtod);
    ParseAfterWs(s, c + 1, depth, strtod);
    MemberStep(s, pos, k, key, c, c + 1, depth, out, strtod);
    assert keys == [key] + keys[1..];
    if Fits(value, depth) {
      var out' := out[key := value];
      if |keys| > 1 {
        MembersAreRead(s, q + 1, v, keys[1..], out', indent, depth, printf, strtod);
      } else {
        assert out' == v.members;
      }
    }
  }

  /** Where the parts of the first member end: the opening quote, the key, the value. */
  lemma OneMember(s: Bytes, pos: nat, v: Value, keys: seq<Bytes>, indent: int, printf: Printf)
    returns (k: nat, c: nat, q: nat)
    requires indent >= -1 && v.Obj? && Plain(v) && keys != [] && forall k :: k in keys ==> k in v.members
    requires OccursAt(s, pos, Members(v, keys, Deeper(indent), printf) + (Indent(indent) + ['}']))
    ensures k <= |s| && Expect(s, pos, '"') == (true, k) && ParseString(s, k, []) == Ok(keys[0], c)
    ensures c < |s| && Expect(s, c, ':') == (true, c + 1) && Plain(v.members[keys[0]])
    ensures var value := Body(v.members[keys[0]], Deeper(indent), printf);
            OccursAt(s, SkipWs(s, c + 1), value) && q == SkipWs(s, c + 1) + |value| && Ends(s, q)
    ensures if |keys| > 1 then
              && Expect(s, q, ',') == (true, q + 1)
              && OccursAt(s, q + 1, Members(v, keys[1..], Deeper(indent), printf) + (Indent(indent) + ['}']))
              && q + 1 + |Members(v, keys[1..], Deeper(indent), printf)| == pos + |Members(v, keys, Deeper(indent), printf)|
            else
              && !Expect(s, q, ',').0
              && Expect(s, Expect(s, q, ',').1, '}') == (true, q + |Indent(indent)| + 1)
              && q == pos + |Members(v, keys, Deeper(indent), printf)|
  {
    hide OccursAt, Members, Indent, Body, Expect, Ends, ParseString, Escape, Colon, Plain;
    var inner, end := Deeper(indent), Indent(indent) + ['}'];
    var key := keys[0];
    var value := v.members[key];
    MembersStart(s, pos, v, keys, inner, printf, end);
    MembersShape(v, keys, inner, printf, end);
    var k0 := pos + |Indent(inner)|;
    k := k0 + 1;
    EscapedTextIsRead(s, k, key, []);
    assert [] + key == key;
    c := k0 + |Quoted(key)|;
    PlainMember(v, key);
    var rest := MemberRest(v, keys, inner, printf) + end;
    assert Colon(inner) + Body(value, inner, printf) + MemberRest(v, keys, inner, printf) + end ==
           Colon(inner) + Body(value, inner, printf) + rest;
    AfterKey(s, c, value, inner, printf, rest);
    q := c + |Colon(inner)| + |Body(value, inner, printf)|;
    AfterMember(s, q, v, keys, indent, printf);
  }

  lemma SerializedBody(v: Value, prettify: bool, printf: Printf)
    ensures var text := Serialize(v, prettify, printf); var body := Body(v, if prettify then 0 else -1, printf);
            && OccursAt(text, 0, body) && Ends(text, |body|) && |text| == |body| + (if prettify then 1 else 0)
  {
    hide Body;
    var text := Serialize(v, prettify, printf);
    var body := Body(v, if prettify then 0 else -1, printf);
    assert text[..|body|] == body;
  }

  /**
   * The round trip: a value without doubles comes back from its serialization, compact or pretty, exactly when each of
   * its containers has fewer than 100 arrays around it.
   */
  lemma RoundTrip(v: Value, prettify: bool, printf: Printf, strtod: Strtod)
    requires Plain(v)
    ensures var text := Serialize(v, prettify, printf);
            ParseText(text, strtod) ==
              if Fits(v, DEFAULT_MAX_DEPTHS) then Ok(v, |text| - (if prettify then 1 else 0)) else Fail
  {
    var text := Serialize(v, prettify, printf);
    var indent := if prettify then 0 else -1;
    SerializedBody(v, prettify, printf);
    hide Body, Fits, Plain, Parse, Serialize, OccursAt, Ends;
    BodyIsRead(text, 0, v, indent, DEFAULT_MAX_DEPTHS, printf, strtod);
  }
}

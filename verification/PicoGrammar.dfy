/** What picojson's parser means: the texts of JSON, each as the value it writes, up to a depth of arrays. */
module PicoGrammar {
  import opened Bytes
  import opened Options
  import opened PicoText
  import opened PicoParse
  import opened PicoStrings
  import Decimals
  import R = PicoRoundTrip

  // ---- The grammar --------------------------------------------------------------------------------------------------------

  /** A text of JSON, with all its white space. */
  datatype Tree =
    | Word(word: Bytes, v: Value)
    | Num(text: Bytes, v: Value)
    | Quote(chars: seq<Char>)
    | List(gap: Bytes, items: seq<Item>)
    | Record(gap: Bytes, members: seq<Member>)

  datatype Item = Item(before: Bytes, tree: Tree, after: Bytes)

  datatype Member = Member(before: Bytes, key: seq<Char>, afterKey: Bytes, item: Item)

  const WORDS: seq<(Bytes, Value)> := [("null", Null), ("true", Bool(true)), ("false", Bool(false))]

  const BLANKS: Bytes := " \t\n\r"

  const NUMBER_BYTES: Bytes := "0123456789+-eE."

  predicate AllIn(text: Bytes, bytes: Bytes) { forall i :: 0 <= i < |text| ==> text[i] in bytes }

  /** A decimal integer that fits in 64 bits, with or without a minus sign. */
  predicate IsInt(text: Bytes, i: int) {
    && -0x8000_0000_0000_0000 <= i <= 0x7FFF_FFFF_FFFF_FFFF
    && if text != [] && text[0] == '-' then IsNatural(text[1..], -i) else IsNatural(text, i)
  }

  predicate IsNatural(digits: Bytes, n: int) { digits != [] && Decimals.AllDigits(digits) && Decimals.Value(digits) == n }

  /** Bytes of numbers from a digit or a minus sign on: an integer when they write one, else what strtod makes of all of them. */
  ghost predicate IsNumber(text: Bytes, v: Value, strtod: Strtod) {
    && text != [] && AllIn(text, NUMBER_BYTES) && (text[0] == '-' || text[0] in "0123456789")
    && match v
       case Int64(i) => IsInt(text, i)
       case Double(d) => (forall i :: !IsInt(text, i)) && strtod(text) == Some(d)
       case _ => false
  }

  ghost predicate IsTree(t: Tree, strtod: Strtod) {
    match t
    case Word(word, v) => (word, v) in WORDS
    case Num(text, v) => IsNumber(text, v, strtod)
    case Quote(chars) => AllChars(chars)
    case List(gap, items) => AllIn(gap, BLANKS) && AllItems(items, strtod)
    case Record(gap, members) => AllIn(gap, BLANKS) && AllMembers(members, strtod)
  }

  ghost predicate AllItems(items: seq<Item>, strtod: Strtod) { forall i :: 0 <= i < |items| ==> IsItem(items[i], strtod) }

  ghost predicate AllMembers(members: seq<Member>, strtod: Strtod) { forall i :: 0 <= i < |members| ==> IsMember(members[i], strtod) }

  ghost predicate IsItem(x: Item, strtod: Strtod) { AllIn(x.before, BLANKS) && AllIn(x.after, BLANKS) && IsTree(x.tree, strtod) }

  ghost predicate IsMember(m: Member, strtod: Strtod) {
    AllIn(m.before, BLANKS) && AllChars(m.key) && AllIn(m.afterKey, BLANKS) && IsItem(m.item, strtod)
  }

  function TextOf(t: Tree): Bytes
    decreases t, 1
  {
    match t
    case Word(word, _) => word
    case Num(text, _) => text
    case Quote(chars) => ['"'] + Chars(chars) + ['"']
    case List(gap, items) => ['['] + (if items == [] then gap else ItemsText(items)) + [']']
    case Record(gap, members) => ['{'] + (if members == [] then gap else MembersText(members)) + ['}']
  }

  function ItemText(x: Item): Bytes
    decreases x, 2
  {
    x.before + TextOf(x.tree) + x.after
  }

  function ItemsText(items: seq<Item>): Bytes
    requires items != []
    decreases items, 3
  {
    ItemText(items[0]) + if |items| == 1 then [] else [','] + ItemsText(items[1..])
  }

  function MemberText(m: Member): Bytes
    decreases m, 3
  {
    m.before + ['"'] + Chars(m.key) + ['"'] + m.afterKey + [':'] + ItemText(m.item)
  }

  function MembersText(members: seq<Member>): Bytes
    requires members != []
    decreases members, 4
  {
    MemberText(members[0]) + if |members| == 1 then [] else [','] + MembersText(members[1..])
  }

  /** The value written; of equal keys the last one stays. */
  ghost function ValueOf(t: Tree, strtod: Strtod): Value
    requires IsTree(t, strtod)
    decreases t, 1
  {
    match t
    case Word(_, v) => v
    case Num(_, v) => v
    case Quote(chars) => Str(CharsSay(chars))
    case List(_, items) => Arr(Values(items, strtod))
    case Record(_, members) => Obj(Updated(map[], members, strtod))
  }

  ghost function Values(items: seq<Item>, strtod: Strtod): seq<Value>
    requires AllItems(items, strtod)
    decreases items, 2
  {
    if items == [] then [] else assert IsItem(items[0], strtod); [ValueOf(items[0].tree, strtod)] + Values(items[1..], strtod)
  }

  ghost function Updated(m: map<Bytes, Value>, members: seq<Member>, strtod: Strtod): map<Bytes, Value>
    requires AllMembers(members, strtod)
    decreases members, 3
  {
    if members == [] then m
    else
      assert IsMember(members[0], strtod) && IsItem(members[0].item, strtod);
      Updated(m[CharsSay(members[0].key) := ValueOf(members[0].item.tree, strtod)], members[1..], strtod)
  }

  /** Every container has fewer than `depth` arrays around it. */
  predicate Nests(t: Tree, depth: nat) {
    match t
    case List(_, items) => depth > 0 && forall i :: 0 <= i < |items| ==> Nests(items[i].tree, depth - 1)
    case Record(_, members) => depth > 0 && forall i :: 0 <= i < |members| ==> Nests(members[i].item.tree, depth)
    case _ => true
  }

  // ---- Numbers and words --------------------------------------------------------------------------------------------------

  lemma NumberBytes(c: Byte)
    ensures IsNumberChar(c) <==> c in NUMBER_BYTES
    ensures Decimals.IsDigit(c) <==> c in "0123456789"
    ensures IsWs(c) <==> c in BLANKS
  {
    var n := NUMBER_BYTES;
    assert n[0] == '0' && n[1] == '1' && n[2] == '2' && n[3] == '3' && n[4] == '4' && n[5] == '5' && n[6] == '6' && n[7] == '7';
    assert n[8] == '8' && n[9] == '9' && n[10] == '+' && n[11] == '-' && n[12] == 'e' && n[13] == 'E' && n[14] == '.';
    var d := "0123456789";
    assert d[0] == '0' && d[1] == '1' && d[2] == '2' && d[3] == '3' && d[4] == '4' && d[5] == '5' && d[6] == '6' && d[7] == '7';
    assert d[8] == '8' && d[9] == '9';
    var b := BLANKS;
    assert b[0] == ' ' && b[1] == '\t' && b[2] == '\n' && b[3] == '\r';
  }

  lemma IntIff(text: Bytes, i: int)
    ensures IsInt(text, i) <==> IntOf(text) == Some(i)
  {}

  /** A whole number text is parsed as what it writes, or refused. */
  lemma NumberIff(text: Bytes, s: Bytes, pos: nat, v: Value, strtod: Strtod)
    requires text != [] && OccursAt(s, pos, text) && R.Ends(s, pos + |text|)
    requires AllIn(text, NUMBER_BYTES) && (text[0] == '-' || text[0] in "0123456789")
    ensures pos < |s| && IsNumberChar(s[pos])
    ensures ParseNumber(s, pos, strtod) == Ok(v, pos + |text|) <==> IsNumber(text, v, strtod)
    ensures ParseNumber(s, pos, strtod).Ok? ==> ParseNumber(s, pos, strtod).pos == pos + |text|
  {
    hide IntOf, IsNumberChar, IsInt;
    forall i | 0 <= i < |text| ensures IsNumberChar(text[i]) { NumberBytes(text[i]); }
    R.NumberIsDelimited(s, pos, text);
    R.AtByte(s, pos, text, 0);
    forall i ensures IsInt(text, i) <==> IntOf(text) == Some(i) { IntIff(text, i); }
    assert s[pos..pos + |text|] == text;
  }

  lemma WsIsSkipped(s: Bytes, pos: nat, ws: Bytes)
    requires AllIn(ws, BLANKS) && OccursAt(s, pos, ws) && pos + |ws| < |s| && s[pos + |ws|] !in BLANKS
    ensures SkipWs(s, pos) == pos + |ws|
  {
    hide BLANKS, IsWs, OccursAt;
    forall i | 0 <= i < |ws| ensures IsWs(ws[i]) { NumberBytes(ws[i]); }
    NumberBytes(s[pos + |ws|]);
    R.WsIsSkipped(s, pos, ws);
  }

  /** The first byte of a value. */
  lemma TreeStart(t: Tree, strtod: Strtod)
    requires IsTree(t, strtod)
    ensures TextOf(t) != [] && TextOf(t)[0] !in BLANKS && TextOf(t)[0] != ']' && TextOf(t)[0] != '}'
  {
    if t.Word? {
      assert WORDS[0].0[0] == 'n' && WORDS[1].0[0] == 't' && WORDS[2].0[0] == 'f';
    }
    if t.Num? { NumberBytes(t.text[0]); }
  }

  // ---- Texts are read -----------------------------------------------------------------------------------------------------

  /** What stands behind an item: white space, and then the byte that ends it. */
  lemma ItemEnds(s: Bytes, pos: nat, x: Item, c: Byte, strtod: Strtod)
    requires IsItem(x, strtod) && c in ",]}" && OccursAt(s, pos, ItemText(x) + [c])
    ensures OccursAt(s, pos, x.before + TextOf(x.tree)) && R.Ends(s, pos + |x.before| + |TextOf(x.tree)|)
    ensures var e := pos + |ItemText(x)|; e < |s| && s[e] == c && SkipWs(s, pos + |x.before| + |TextOf(x.tree)|) == e && SkipWs(s, e) == e
  {
    hide *;
    ItemParts(x, strtod);
    EndByte(c);
    var front, back := x.before + TextOf(x.tree), x.after + [c];
    ItemShape(x, c);
    R.AtSplit(s, pos, front, back);
    var q := pos + |front|;
    R.AtByte(s, q, back, |x.after|);
    R.AtByte(s, q, back, 0);
    if x.after != [] { BlankIsNoNumber(x.after); }
    R.AtSplit(s, q, x.after, [c]);
    WsIsSkipped(s, q, x.after);
    NoneSkipped(s, q + |x.after|);
    NotEnding(s, q);
  }

  lemma NotEnding(s: Bytes, q: nat)
    requires q < |s| && !IsNumberChar(s[q])
    ensures R.Ends(s, q)
  {}

  lemma NoneSkipped(s: Bytes, pos: nat)
    requires pos < |s| && !IsWs(s[pos])
    ensures SkipWs(s, pos) == pos
  {}

  lemma ItemShape(x: Item, c: Byte)
    ensures ItemText(x) + [c] == (x.before + TextOf(x.tree)) + (x.after + [c])
  {
    hide TextOf;
  }

  lemma EndByte(c: Byte)
    requires c in ",]}"
    ensures c !in BLANKS && !IsWs(c) && !IsNumberChar(c)
  {}

  lemma BlankIsNoNumber(blanks: Bytes)
    requires blanks != [] && AllIn(blanks, BLANKS)
    ensures !IsNumberChar(blanks[0])
  {}

  /** A text of JSON is parsed as its value exactly when its arrays are not nested too deep. */
  lemma {:induction false} TreeIsRead(s: Bytes, pos: nat, ws: Bytes, t: Tree, depth: nat, strtod: Strtod)
    requires IsTree(t, strtod) && AllIn(ws, BLANKS) && OccursAt(s, pos, ws + TextOf(t))
    requires t.Num? ==> R.Ends(s, pos + |ws| + |TextOf(t)|)
    ensures Parse(s, pos, depth, strtod) == if Nests(t, depth) then Ok(ValueOf(t, strtod), pos + |ws| + |TextOf(t)|) else Fail
    decreases t, 3
  {
    hide *;
    TreeStart(t, strtod);
    R.AtSplit(s, pos, ws, TextOf(t));
    var p := pos + |ws|;
    R.AtByte(s, p, TextOf(t), 0);
    WsIsSkipped(s, pos, ws);
    R.ParseAfterWs(s, pos, depth, strtod);
    match t {
      case Word(_, _) => WordIsRead(s, p, t, depth, strtod);
      case Num(_, _) => NumIsRead(s, p, t, depth, strtod);
      case Quote(_) => QuoteIsRead(s, p, t, depth, strtod);
      case List(_, _) => ListIsRead(s, p, t, depth, strtod);
      case Record(_, _) => RecordIsRead(s, p, t, depth, strtod);
    }
  }

  lemma WordParts(t: Tree, depth: nat, strtod: Strtod)
    requires t.Word? && IsTree(t, strtod)
    ensures TextOf(t) == t.word && ValueOf(t, strtod) == t.v && Nests(t, depth)
    ensures (t.word == "n" + "ull" && t.v == Null) || (t.word == "t" + "rue" && t.v == Bool(true))
            || (t.word == "f" + "alse" && t.v == Bool(false))
  {
    assert WORDS[0] == ("null", Null) && WORDS[1] == ("true", Bool(true)) && WORDS[2] == ("false", Bool(false));
  }

  lemma WordParses(s: Bytes, p: nat, depth: nat, strtod: Strtod)
    requires p < |s|
    ensures s[p] == 'n' ==> Parse(s, p, depth, strtod) == if OccursAt(s, p + 1, "ull") then Ok(Null, p + 4) else Fail
    ensures s[p] == 't' ==> Parse(s, p, depth, strtod) == if OccursAt(s, p + 1, "rue") then Ok(Bool(true), p + 4) else Fail
    ensures s[p] == 'f' ==> Parse(s, p, depth, strtod) == if OccursAt(s, p + 1, "alse") then Ok(Bool(false), p + 5) else Fail
  {
    hide ParseItems, ParseMembers, ParseNumber, ParseString, OccursAt;
  }

  lemma WordIsRead(s: Bytes, p: nat, t: Tree, depth: nat, strtod: Strtod)
    requires t.Word? && IsTree(t, strtod) && OccursAt(s, p, TextOf(t))
    ensures Nests(t, depth) && Parse(s, p, depth, strtod) == Ok(ValueOf(t, strtod), p + |TextOf(t)|)
  {
    hide *;
    WordParts(t, depth, strtod);
    R.AtByte(s, p, t.word, 0);
    WordParses(s, p, depth, strtod);
    if t.v.Null? {
      R.AtSplit(s, p, "n", "ull");
    } else if t.v == Bool(true) {
      R.AtSplit(s, p, "t", "rue");
    } else {
      R.AtSplit(s, p, "f", "alse");
    }
  }

  lemma NumberStarts(s: Bytes, p: nat, depth: nat, strtod: Strtod)
    requires p < |s| && (s[p] == '-' || Decimals.IsDigit(s[p]))
    ensures IsNumberChar(s[p])
    ensures Parse(s, p, depth, strtod) == ParseNumber(s, p, strtod)
  {
    hide ParseItems, ParseMembers, ParseNumber, ParseString;
  }

  lemma NumParts(t: Tree, depth: nat, strtod: Strtod)
    requires t.Num? && IsTree(t, strtod)
    ensures IsNumber(t.text, t.v, strtod) && TextOf(t) == t.text != [] && ValueOf(t, strtod) == t.v && Nests(t, depth)
    ensures AllIn(t.text, NUMBER_BYTES) && (t.text[0] == '-' || t.text[0] in "0123456789")
  {}

  lemma NumIsRead(s: Bytes, p: nat, t: Tree, depth: nat, strtod: Strtod)
    requires t.Num? && IsTree(t, strtod) && OccursAt(s, p, TextOf(t)) && R.Ends(s, p + |TextOf(t)|)
    ensures Nests(t, depth) && Parse(s, p, depth, strtod) == Ok(ValueOf(t, strtod), p + |TextOf(t)|)
  {
    hide *;
    NumParts(t, depth, strtod);
    NumberIff(t.text, s, p, t.v, strtod);
    NumberBytes(t.text[0]);
    R.AtByte(s, p, t.text, 0);
    NumberStarts(s, p, depth, strtod);
  }

  lemma QuoteIsRead(s: Bytes, p: nat, t: Tree, depth: nat, strtod: Strtod)
    requires t.Quote? && IsTree(t, strtod) && OccursAt(s, p, TextOf(t))
    ensures Nests(t, depth) && Parse(s, p, depth, strtod) == Ok(ValueOf(t, strtod), p + |TextOf(t)|)
  {
    hide ParseItems, ParseMembers, ParseNumber, ParseString, OccursAt, Chars, CharsSay;
    var inside := Chars(t.chars) + ['"'];
    assert TextOf(t) == ['"'] + inside;
    R.AtSplit(s, p, ['"'], inside);
    R.AtByte(s, p, ['"'], 0);
    CharsAreRead(s, p + 1, t.chars, []);
    assert [] + CharsSay(t.chars) == CharsSay(t.chars);
  }

  lemma {:induction false} ListIsRead(s: Bytes, p: nat, t: Tree, depth: nat, strtod: Strtod)
    requires t.List? && IsTree(t, strtod) && OccursAt(s, p, TextOf(t))
    ensures Parse(s, p, depth, strtod) == if Nests(t, depth) then Ok(ValueOf(t, strtod), p + |TextOf(t)|) else Fail
    decreases t, 2
  {
    hide *;
    ListParts(t, depth, strtod);
    var inside := (if t.items == [] then t.gap else ItemsText(t.items)) + [']'];
    R.AtSplit(s, p, ['['], inside);
    R.AtByte(s, p, ['['], 0);
    ListOpens(s, p, depth, strtod);
    if t.items == [] {
      GapIsRead(s, p + 1, t.gap, ']');
    } else {
      FirstItem(s, p + 1, t.items, strtod);
      if depth > 0 { ItemsAreRead(s, p + 1, t.items, [], depth - 1, strtod); }
    }
  }

  lemma ListParts(t: Tree, depth: nat, strtod: Strtod)
    requires t.List? && IsTree(t, strtod)
    ensures AllIn(t.gap, BLANKS) && AllItems(t.items, strtod)
    ensures TextOf(t) == ['['] + ((if t.items == [] then t.gap else ItemsText(t.items)) + [']'])
    ensures ValueOf(t, strtod) == Arr(Values(t.items, strtod)) == Arr([] + Values(t.items, strtod)) && Values([], strtod) == []
    ensures Nests(t, depth) <==> depth > 0 && AllNest(t.items, depth - 1)
    ensures t.items == [] && depth > 0 ==> Nests(t, depth)
  {
    assert [] + Values(t.items, strtod) == Values(t.items, strtod);
  }

  lemma ListOpens(s: Bytes, p: nat, depth: nat, strtod: Strtod)
    requires p < |s| && s[p] == '['
    ensures Parse(s, p, depth, strtod)
            == if depth == 0 then Fail
               else if Expect(s, p + 1, ']').0 then Ok(Arr([]), Expect(s, p + 1, ']').1)
               else ParseItems(s, p + 1, depth - 1, [], strtod)
  {
    hide *;
    if depth > 0 { R.ParseSkipsWs(s, p + 1, depth - 1, [], strtod); }
    BracketParses(s, p, depth, strtod);
    ExpectsNot(s, p + 1, ']');
  }

  lemma BracketParses(s: Bytes, p: nat, depth: nat, strtod: Strtod)
    requires p < |s|
    ensures s[p] == '[' ==>
              Parse(s, p, depth, strtod)
              == if depth == 0 then Fail
                 else if Expect(s, p + 1, ']').0 then Ok(Arr([]), Expect(s, p + 1, ']').1)
                 else ParseItems(s, Expect(s, p + 1, ']').1, depth - 1, [], strtod)
    ensures s[p] == '{' ==>
              Parse(s, p, depth, strtod)
              == if depth == 0 then Fail
                 else if Expect(s, p + 1, '}').0 then Ok(Obj(map[]), Expect(s, p + 1, '}').1)
                 else ParseMembers(s, Expect(s, p + 1, '}').1, depth, map[], strtod)
  {
    hide ParseItems, ParseMembers, ParseNumber, ParseString, Expect;
  }

  lemma ExpectsNot(s: Bytes, pos: nat, c: Byte)
    requires pos <= |s|
    ensures Expect(s, pos, c).0 || Expect(s, pos, c).1 == SkipWs(s, pos)
  {}

  lemma GapIsRead(s: Bytes, pos: nat, gap: Bytes, close: Byte)
    requires AllIn(gap, BLANKS) && (close == ']' || close == '}') && OccursAt(s, pos, gap + [close])
    ensures pos <= |s| && Expect(s, pos, close) == (true, pos + |gap| + 1)
  {
    hide OccursAt;
    NumberBytes(close);
    R.AtSplit(s, pos, gap, [close]);
    R.AtByte(s, pos + |gap|, [close], 0);
    WsIsSkipped(s, pos, gap);
  }

  /** In front of a first item there is no closing bracket. */
  lemma FirstItem(s: Bytes, pos: nat, items: seq<Item>, strtod: Strtod)
    requires items != [] && AllItems(items, strtod) && OccursAt(s, pos, ItemsText(items) + [']'])
    ensures pos <= |s| && !Expect(s, pos, ']').0
  {
    var x := items[0];
    assert IsItem(x, strtod);
    var rest := ItemsFront(items);
    hide OccursAt, IsTree, TextOf, ItemsText;
    TreeStart(x.tree, strtod);
    R.AtSplit(s, pos, x.before, TextOf(x.tree) + rest);
    R.AtByte(s, pos + |x.before|, TextOf(x.tree) + rest, 0);
    WsIsSkipped(s, pos, x.before);
  }

  lemma ItemsFront(items: seq<Item>) returns (rest: Bytes)
    requires items != []
    ensures ItemsText(items) + [']'] == items[0].before + (TextOf(items[0].tree) + rest)
  {
    hide TextOf;
    var more := if |items| == 1 then [] else [','] + ItemsText(items[1..]);
    var t := TextOf(items[0].tree);
    rest := items[0].after + more + [']'];
    assert items[0].before + t + items[0].after + more + [']'] == items[0].before + (t + rest);
  }

  /** One turn of the item loop. */
  lemma ItemStep(s: Bytes, pos: nat, depth: nat, out: seq<Value>, strtod: Strtod)
    requires pos <= |s|
    ensures var v := Parse(s, pos, depth, strtod);
            ParseItems(s, pos, depth, out, strtod) ==
              if v.Fail? then Fail
              else if Expect(s, v.pos, ',').0 then ParseItems(s, Expect(s, v.pos, ',').1, depth, out + [v.value], strtod)
              else if Expect(s, Expect(s, v.pos, ',').1, ']').0
                then Ok(Arr(out + [v.value]), Expect(s, Expect(s, v.pos, ',').1, ']').1) else Fail
  {
    hide Parse, Expect;
  }

  lemma Expects(s: Bytes, q: nat, e: nat, c: Byte)
    requires q <= e < |s| && SkipWs(s, q) == e && SkipWs(s, e) == e && s[e] == c
    ensures Expect(s, q, c) == (true, e + 1) && Expect(s, e, c) == (true, e + 1) && (c != ',' ==> Expect(s, q, ',') == (false, e))
  {}

  /** An item up to the byte that ends it. */
  lemma {:induction false} ItemIsRead(s: Bytes, pos: nat, x: Item, c: Byte, depth: nat, strtod: Strtod)
    requires IsItem(x, strtod) && c in ",]}" && OccursAt(s, pos, ItemText(x) + [c])
    ensures IsTree(x.tree, strtod) && pos <= |s|
    ensures Parse(s, pos, depth, strtod).Ok? <==> Nests(x.tree, depth)
    ensures Parse(s, pos, depth, strtod).Ok? ==>
              var v := Parse(s, pos, depth, strtod);
              && v.value == ValueOf(x.tree, strtod) && Expect(s, v.pos, c) == (true, pos + |ItemText(x)| + 1)
              && (c != ',' ==> Expect(s, v.pos, ',') == (false, pos + |ItemText(x)|)
                               && Expect(s, pos + |ItemText(x)|, c) == (true, pos + |ItemText(x)| + 1))
    decreases x, 4
  {
    hide *;
    ItemParts(x, strtod);
    ItemEnds(s, pos, x, c, strtod);
    TreeIsRead(s, pos, x.before, x.tree, depth, strtod);
    var q, e := pos + |x.before| + |TextOf(x.tree)|, pos + |ItemText(x)|;
    Expects(s, q, e, c);
    assert |x.before + TextOf(x.tree)| == |x.before| + |TextOf(x.tree)|;
  }

  lemma ItemParts(x: Item, strtod: Strtod)
    requires IsItem(x, strtod)
    ensures AllIn(x.before, BLANKS) && AllIn(x.after, BLANKS) && IsTree(x.tree, strtod)
    ensures |ItemText(x)| == |x.before| + |TextOf(x.tree)| + |x.after|
  {
    hide TextOf, IsTree;
  }

  predicate AllNest(items: seq<Item>, depth: nat) { forall i :: 0 <= i < |items| ==> Nests(items[i].tree, depth) }

  lemma FirstNests(items: seq<Item>, depth: nat)
    requires items != []
    ensures AllNest(items, depth) <==> Nests(items[0].tree, depth) && AllNest(items[1..], depth)
  {
    hide Nests;
    if AllNest(items[1..], depth) {
      forall i | 1 <= i < |items| ensures Nests(items[i].tree, depth) { assert items[i] == items[1..][i - 1]; }
    }
  }

  lemma FirstOfItems(items: seq<Item>, strtod: Strtod)
    requires items != [] && AllItems(items, strtod)
    ensures IsItem(items[0], strtod) && AllItems(items[1..], strtod)
  {
    hide IsItem;
  }

  lemma FirstValue(items: seq<Item>, strtod: Strtod)
    requires items != [] && AllItems(items, strtod) && IsItem(items[0], strtod) && AllItems(items[1..], strtod)
    ensures IsTree(items[0].tree, strtod)
    ensures Values(items, strtod) == [ValueOf(items[0].tree, strtod)] + Values(items[1..], strtod)
  {
    assert IsTree(items[0].tree, strtod);
    hide ValueOf, AllItems, IsTree;
  }

  lemma NoValues(strtod: Strtod)
    ensures AllItems([], strtod) && Values([], strtod) == []
  {}

  lemma ItemsParts(items: seq<Item>, out: seq<Value>, strtod: Strtod)
    requires items != [] && AllItems(items, strtod)
    ensures IsItem(items[0], strtod) && IsTree(items[0].tree, strtod) && AllItems(items[1..], strtod)
    ensures out + Values(items, strtod) == (out + [ValueOf(items[0].tree, strtod)]) + Values(items[1..], strtod)
    ensures |items| == 1 ==> out + Values(items, strtod) == out + [ValueOf(items[0].tree, strtod)]
  {
    hide *;
    FirstOfItems(items, strtod);
    FirstValue(items, strtod);
    if |items| == 1 {
      assert items[1..] == [];
      NoValues(strtod);
    }
  }

  lemma ItemsTexts(items: seq<Item>)
    requires items != []
    ensures |items| == 1 ==> ItemsText(items) == ItemText(items[0])
    ensures |items| > 1 ==> ItemsText(items) + [']'] == (ItemText(items[0]) + [',']) + (ItemsText(items[1..]) + [']'])
                            && |ItemsText(items)| == |ItemText(items[0])| + 1 + |ItemsText(items[1..])|
  {
    hide ItemText;
    if |items| == 1 {
      assert ItemText(items[0]) + [] == ItemText(items[0]);
    } else {
      var one: Bytes, rest: Bytes, comma: Bytes, close: Bytes := ItemText(items[0]), ItemsText(items[1..]), [','], [']'];
      assert (one + (comma + rest)) + close == (one + comma) + (rest + close);
    }
  }

  lemma {:induction false} ItemsAreRead(s: Bytes, pos: nat, items: seq<Item>, out: seq<Value>, depth: nat, strtod: Strtod)
    requires items != [] && AllItems(items, strtod)
    requires OccursAt(s, pos, ItemsText(items) + [']'])
    ensures pos <= |s|
    ensures ParseItems(s, pos, depth, out, strtod)
            == if AllNest(items, depth) then Ok(Arr(out + Values(items, strtod)), pos + |ItemsText(items)| + 1) else Fail
    decreases items, 5
  {
    hide *;
    var x := items[0];
    ItemsParts(items, out, strtod);
    ItemsTexts(items);
    FirstNests(items, depth);
    if |items| == 1 {
      assert items[1..] == [];
      NothingNests(depth);
      ItemIsRead(s, pos, x, ']', depth, strtod);
    } else {
      R.AtSplit(s, pos, ItemText(x) + [','], ItemsText(items[1..]) + [']']);
      ItemIsRead(s, pos, x, ',', depth, strtod);
      ItemsAreRead(s, pos + |ItemText(x)| + 1, items[1..], out + [ValueOf(x.tree, strtod)], depth, strtod);
    }
    ItemStep(s, pos, depth, out, strtod);
  }

  lemma NothingNests(depth: nat)
    ensures AllNest([], depth)
  {}

  // ---- Objects ------------------------------------------------------------------------------------------------------------

  lemma {:induction false} RecordIsRead(s: Bytes, p: nat, t: Tree, depth: nat, strtod: Strtod)
    requires t.Record? && IsTree(t, strtod) && OccursAt(s, p, TextOf(t))
    ensures Parse(s, p, depth, strtod) == if Nests(t, depth) then Ok(ValueOf(t, strtod), p + |TextOf(t)|) else Fail
    decreases t, 2
  {
    hide *;
    RecordParts(t, depth, strtod);
    var inside := (if t.members == [] then t.gap else MembersText(t.members)) + ['}'];
    R.AtSplit(s, p, ['{'], inside);
    R.AtByte(s, p, ['{'], 0);
    RecordOpens(s, p, depth, strtod);
    if t.members == [] {
      GapIsRead(s, p + 1, t.gap, '}');
    } else {
      FirstMember(s, p + 1, t.members, strtod);
      if depth > 0 { MembersAreRead(s, p + 1, t.members, map[], depth, strtod); }
    }
  }

  predicate MembersNest(members: seq<Member>, depth: nat) { forall i :: 0 <= i < |members| ==> Nests(members[i].item.tree, depth) }

  lemma RecordParts(t: Tree, depth: nat, strtod: Strtod)
    requires t.Record? && IsTree(t, strtod)
    ensures AllIn(t.gap, BLANKS) && AllMembers(t.members, strtod)
    ensures TextOf(t) == ['{'] + ((if t.members == [] then t.gap else MembersText(t.members)) + ['}'])
    ensures ValueOf(t, strtod) == Obj(Updated(map[], t.members, strtod)) && Updated(map[], [], strtod) == map[]
    ensures Nests(t, depth) <==> depth > 0 && MembersNest(t.members, depth)
    ensures t.members == [] && depth > 0 ==> Nests(t, depth)
  {}

  lemma RecordOpens(s: Bytes, p: nat, depth: nat, strtod: Strtod)
    requires p < |s| && s[p] == '{'
    ensures Parse(s, p, depth, strtod)
            == if depth == 0 then Fail
               else if Expect(s, p + 1, '}').0 then Ok(Obj(map[]), Expect(s, p + 1, '}').1)
               else ParseMembers(s, p + 1, depth, map[], strtod)
  {
    hide *;
    R.MembersAfterWs(s, p + 1, depth, strtod);
    BracketParses(s, p, depth, strtod);
    ExpectsNot(s, p + 1, '}');
  }

  /** In front of a first member stands the quote of its key. */
  lemma FirstMember(s: Bytes, pos: nat, members: seq<Member>, strtod: Strtod)
    requires members != [] && AllMembers(members, strtod) && OccursAt(s, pos, MembersText(members) + ['}'])
    ensures pos <= |s| && !Expect(s, pos, '}').0
  {
    hide *;
    MembersParts(members, map[], strtod);
    var m := members[0];
    MemberParts(m, strtod);
    var rest := MembersFront(members);
    QuoteIsNext(s, pos, m.before, rest);
  }

  lemma QuoteIsNext(s: Bytes, pos: nat, before: Bytes, rest: Bytes)
    requires AllIn(before, BLANKS) && OccursAt(s, pos, before + (['"'] + rest))
    ensures pos <= |s| && !Expect(s, pos, '}').0
  {
    hide OccursAt;
    R.AtSplit(s, pos, before, ['"'] + rest);
    R.AtByte(s, pos + |before|, ['"'] + rest, 0);
    WsIsSkipped(s, pos, before);
  }

  lemma MembersFront(members: seq<Member>) returns (rest: Bytes)
    requires members != []
    ensures MembersText(members) + ['}'] == members[0].before + (['"'] + rest)
  {
    hide ItemText, Chars;
    var m := members[0];
    var more := if |members| == 1 then [] else [','] + MembersText(members[1..]);
    var quote: Bytes, colon: Bytes := ['"'], [':'];
    rest := Chars(m.key) + quote + m.afterKey + colon + ItemText(m.item) + more + ['}'];
    assert m.before + quote + Chars(m.key) + quote + m.afterKey + colon + ItemText(m.item) + more + ['}'] == m.before + (quote + rest);
  }

  /** A key, its colon and what follows. */
  lemma KeyIsRead(s: Bytes, pos: nat, m: Member, rest: Bytes, strtod: Strtod)
    requires IsMember(m, strtod) && OccursAt(s, pos, m.before + (['"'] + ((Chars(m.key) + ['"']) + (m.afterKey + ([':'] + rest)))))
    ensures pos <= |s| && AllChars(m.key)
    ensures var k, c := pos + |m.before| + 1, pos + |m.before| + |Chars(m.key)| + 2;
            && c <= |s| && Expect(s, pos, '"') == (true, k) && ParseString(s, k, []) == Ok(CharsSay(m.key), c)
            && Expect(s, c, ':') == (true, c + |m.afterKey| + 1) && OccursAt(s, c + |m.afterKey| + 1, rest)
  {
    hide *;
    MemberParts(m, strtod);
    var q := pos + |m.before|;
    var c := q + |Chars(m.key)| + 2;
    KeyPlaces(s, pos, m, rest);
    GapIsSkipped(s, pos, m.before, '"');
    CharsAreRead(s, q + 1, m.key, []);
    assert [] + CharsSay(m.key) == CharsSay(m.key);
    GapIsSkipped(s, c, m.afterKey, ':');
  }

  lemma KeyPlaces(s: Bytes, pos: nat, m: Member, rest: Bytes)
    requires OccursAt(s, pos, m.before + (['"'] + ((Chars(m.key) + ['"']) + (m.afterKey + ([':'] + rest)))))
    ensures var q, c := pos + |m.before|, pos + |m.before| + |Chars(m.key)| + 2;
            && OccursAt(s, pos, m.before) && OccursAt(s, q, ['"']) && OccursAt(s, q + 1, Chars(m.key) + ['"'])
            && OccursAt(s, c, m.afterKey) && OccursAt(s, c + |m.afterKey|, [':']) && OccursAt(s, c + |m.afterKey| + 1, rest)
            && c + |m.afterKey| + 1 <= |s|
  {
    hide *;
    var key := Chars(m.key) + ['"'];
    ThreePlaces(s, pos, m.before, '"', key + (m.afterKey + ([':'] + rest)));
    R.AtSplit(s, pos + |m.before| + 1, key, m.afterKey + ([':'] + rest));
    ThreePlaces(s, pos + |m.before| + 1 + |key|, m.afterKey, ':', rest);
  }

  lemma ThreePlaces(s: Bytes, pos: nat, gap: Bytes, c: Byte, rest: Bytes)
    requires OccursAt(s, pos, gap + ([c] + rest))
    ensures OccursAt(s, pos, gap) && OccursAt(s, pos + |gap|, [c]) && OccursAt(s, pos + |gap| + 1, rest) && pos + |gap| + 1 <= |s|
  {
    hide *;
    R.AtSplit(s, pos, gap, [c] + rest);
    R.AtSplit(s, pos + |gap|, [c], rest);
    R.AtByte(s, pos + |gap|, [c], 0);
  }

  lemma MemberParts(m: Member, strtod: Strtod)
    requires IsMember(m, strtod)
    ensures AllIn(m.before, BLANKS) && AllChars(m.key) && AllIn(m.afterKey, BLANKS) && IsItem(m.item, strtod)
  {
    hide IsItem;
  }

  lemma GapIsSkipped(s: Bytes, pos: nat, gap: Bytes, c: Byte)
    requires AllIn(gap, BLANKS) && (c == '"' || c == ':') && OccursAt(s, pos, gap) && OccursAt(s, pos + |gap|, [c])
    ensures pos <= |s| && Expect(s, pos, c) == (true, pos + |gap| + 1)
  {
    hide OccursAt;
    R.AtByte(s, pos + |gap|, [c], 0);
    WsIsSkipped(s, pos, gap);
  }

  /** A member up to the byte that ends it. */
  lemma {:induction false} MemberIsRead(s: Bytes, pos: nat, m: Member, c: Byte, depth: nat, out: map<Bytes, Value>, strtod: Strtod)
    requires IsMember(m, strtod) && (c == ',' || c == '}') && OccursAt(s, pos, MemberText(m) + [c])
    ensures AllChars(m.key) && IsItem(m.item, strtod) && IsTree(m.item.tree, strtod) && pos + |MemberText(m)| + 1 <= |s|
    ensures var out' := out[CharsSay(m.key) := ValueOf(m.item.tree, strtod)];
            var e := pos + |MemberText(m)| + 1;
            ParseMembers(s, pos, depth, out, strtod)
            == if !Nests(m.item.tree, depth) then Fail
               else if c == ',' then ParseMembers(s, e, depth, out', strtod)
               else Ok(Obj(out'), e)
    decreases m, 5
  {
    hide *;
    MemberParts(m, strtod);
    ItemParts(m.item, strtod);
    MemberShape(m, c);
    KeyIsRead(s, pos, m, ItemText(m.item) + [c], strtod);
    var p := pos + |m.before| + |Chars(m.key)| + 2;
    var e := p + |m.afterKey| + 1;
    R.AtByte(s, pos, MemberText(m) + [c], |MemberText(m)|);
    ItemIsRead(s, e, m.item, c, depth, strtod);
    R.MemberStep(s, pos, pos + |m.before| + 1, CharsSay(m.key), p, e, depth, out, strtod);
  }

  lemma MemberShape(m: Member, c: Byte)
    ensures MemberText(m) + [c]
         == m.before + (['"'] + ((Chars(m.key) + ['"']) + (m.afterKey + ([':'] + (ItemText(m.item) + [c])))))
    ensures |MemberText(m)| == |m.before| + |Chars(m.key)| + 2 + |m.afterKey| + 1 + |ItemText(m.item)|
  {
    hide ItemText, Chars;
    var quote: Bytes, colon: Bytes, k, x := ['"'], [':'], Chars(m.key), ItemText(m.item);
    assert m.before + quote + k + quote + m.afterKey + colon + x + [c] == m.before + (quote + ((k + quote) + (m.afterKey + (colon + (x + [c])))));
  }

  lemma FirstMemberNests(members: seq<Member>, depth: nat)
    requires members != []
    ensures MembersNest(members, depth) <==> Nests(members[0].item.tree, depth) && MembersNest(members[1..], depth)
  {
    hide Nests;
    if MembersNest(members[1..], depth) {
      forall i | 1 <= i < |members| ensures Nests(members[i].item.tree, depth) { assert members[i] == members[1..][i - 1]; }
    }
  }

  lemma NoMembersNest(depth: nat)
    ensures MembersNest([], depth)
  {}

  lemma MembersParts(members: seq<Member>, out: map<Bytes, Value>, strtod: Strtod)
    requires members != [] && AllMembers(members, strtod)
    ensures var m := members[0];
            && IsMember(m, strtod) && AllChars(m.key) && IsItem(m.item, strtod) && IsTree(m.item.tree, strtod)
            && AllMembers(members[1..], strtod)
    ensures var out' := out[CharsSay(members[0].key) := ValueOf(members[0].item.tree, strtod)];
            Updated(out, members, strtod) == Updated(out', members[1..], strtod) && (|members| == 1 ==> Updated(out, members, strtod) == out')
  {
    assert IsMember(members[0], strtod);
    hide IsTree, ValueOf, CharsSay;
    if |members| == 1 { assert members[1..] == []; }
  }

  lemma MembersTexts(members: seq<Member>)
    requires members != []
    ensures |members| == 1 ==> MembersText(members) == MemberText(members[0])
    ensures |members| > 1 ==> MembersText(members) + ['}'] == (MemberText(members[0]) + [',']) + (MembersText(members[1..]) + ['}'])
                              && |MembersText(members)| == |MemberText(members[0])| + 1 + |MembersText(members[1..])|
  {
    hide MemberText;
    if |members| == 1 {
      assert MemberText(members[0]) + [] == MemberText(members[0]);
    } else {
      var one: Bytes, rest: Bytes, comma: Bytes, close: Bytes := MemberText(members[0]), MembersText(members[1..]), [','], ['}'];
      assert (one + (comma + rest)) + close == (one + comma) + (rest + close);
    }
  }

  lemma {:induction false} MembersAreRead(
    s: Bytes, pos: nat, members: seq<Member>, out: map<Bytes, Value>, depth: nat, strtod: Strtod)
    requires members != [] && AllMembers(members, strtod)
    requires OccursAt(s, pos, MembersText(members) + ['}'])
    ensures pos <= |s|
    ensures ParseMembers(s, pos, depth, out, strtod)
            == if MembersNest(members, depth) then Ok(Obj(Updated(out, members, strtod)), pos + |MembersText(members)| + 1) else Fail
    decreases members, 6
  {
    hide *;
    var m := members[0];
    MembersParts(members, out, strtod);
    MembersTexts(members);
    FirstMemberNests(members, depth);
    if |members| == 1 {
      assert members[1..] == [];
      NoMembersNest(depth);
      MemberIsRead(s, pos, m, '}', depth, out, strtod);
    } else {
      R.AtSplit(s, pos, MemberText(m) + [','], MembersText(members[1..]) + ['}']);
      MemberIsRead(s, pos, m, ',', depth, out, strtod);
      MembersAreRead(s, pos + |MemberText(m)| + 1, members[1..], out[CharsSay(m.key) := ValueOf(m.item.tree, strtod)], depth, strtod);
    }
  }

  // ---- What is parsed is a text of JSON -----------------------------------------------------------------------------------

  lemma {:induction false} SkippedIsBlank(s: Bytes, pos: nat)
    requires pos <= |s|
    ensures AllIn(s[pos..SkipWs(s, pos)], BLANKS)
    decreases |s| - pos
  {
    if pos < |s| && IsWs(s[pos]) {
      SkippedIsBlank(s, pos + 1);
      NumberBytes(s[pos]);
      assert s[pos..SkipWs(s, pos)] == [s[pos]] + s[pos + 1..SkipWs(s, pos)];
    }
  }

  lemma ExpectedIsThere(s: Bytes, pos: nat, c: Byte)
    requires pos <= |s|
    ensures var p := SkipWs(s, pos);
            && Expect(s, pos, c) == (if p < |s| && s[p] == c then (true, p + 1) else (false, p))
            && AllIn(s[pos..p], BLANKS)
            && (Expect(s, pos, c).0 ==> s[pos..p + 1] == s[pos..p] + [c])
  {
    hide IsWs, AllIn;
    SkippedIsBlank(s, pos);
    var p := SkipWs(s, pos);
    if p < |s| { assert s[pos..p + 1] == s[pos..p] + [s[p]]; }
  }

  lemma Joined(s: Bytes, i: nat, j: nat, a: Bytes, k: nat, b: Bytes)
    requires i <= j <= k <= |s| && s[i..j] == a && s[j..k] == b
    ensures s[i..k] == a + b
  {}

  /** What a value can start with, and what then was parsed. */
  lemma ValueStarts(s: Bytes, p: nat, depth: nat, strtod: Strtod)
    requires p < |s| && SkipWs(s, p) == p && Parse(s, p, depth, strtod).Ok?
    ensures s[p] in ['n', 't', 'f', '"', '[', '{'] || s[p] in "-0123456789"
    ensures s[p] == '"' ==> ParseString(s, p + 1, []).Ok? && Parse(s, p, depth, strtod).pos == ParseString(s, p + 1, []).pos
    ensures s[p] == '[' || s[p] == '{' ==> depth > 0
  {
    hide ParseItems, ParseMembers, ParseNumber, ParseString, OccursAt;
    if Decimals.IsDigit(s[p]) { NumberBytes(s[p]); }
  }

  lemma {:induction false} ReadTree(s: Bytes, pos: nat, depth: nat, strtod: Strtod) returns (ws: Bytes, t: Tree)
    requires pos <= |s| && Parse(s, pos, depth, strtod).Ok?
    ensures IsTree(t, strtod) && AllIn(ws, BLANKS)
    ensures Parse(s, pos, depth, strtod).pos == pos + |ws| + |TextOf(t)| <= |s|
    ensures s[pos..pos + |ws| + |TextOf(t)|] == ws + TextOf(t)
    ensures t.Num? ==> R.Ends(s, pos + |ws| + |TextOf(t)|)
    decreases |s| - pos, 3
  {
    var p := SkipWs(s, pos);
    NotEmpty(s, pos, depth, strtod);
    hide *;
    ws := s[pos..p];
    SkippedIsBlank(s, pos);
    R.ParseAfterWs(s, pos, depth, strtod);
    R.SkipTwice(s, pos);
    t := ReadBody(s, p, depth, strtod);
    Joined(s, pos, p, ws, p + |TextOf(t)|, TextOf(t));
  }

  lemma {:induction false} ReadBody(s: Bytes, p: nat, depth: nat, strtod: Strtod) returns (t: Tree)
    requires p < |s| && SkipWs(s, p) == p && Parse(s, p, depth, strtod).Ok?
    ensures IsTree(t, strtod) && (t.Num? ==> R.Ends(s, p + |TextOf(t)|))
    ensures Parse(s, p, depth, strtod).pos == p + |TextOf(t)| <= |s| && s[p..p + |TextOf(t)|] == TextOf(t)
    decreases |s| - p, 2
  {
    hide *;
    ValueStarts(s, p, depth, strtod);
    if s[p] == 'n' || s[p] == 't' || s[p] == 'f' {
      t := ReadWord(s, p, depth, strtod);
    } else if s[p] == '"' {
      t := ReadQuote(s, p, strtod);
    } else if s[p] == '[' {
      t := ReadList(s, p, depth, strtod);
    } else if s[p] == '{' {
      t := ReadRecord(s, p, depth, strtod);
    } else {
      t := ReadNumber(s, p, depth, strtod);
    }
  }

  lemma NotEmpty(s: Bytes, pos: nat, depth: nat, strtod: Strtod)
    requires pos <= |s| && Parse(s, pos, depth, strtod).Ok?
    ensures pos <= SkipWs(s, pos) < |s|
  {
    hide ParseItems, ParseMembers, ParseNumber, ParseString, OccursAt;
  }

  lemma ReadWord(s: Bytes, p: nat, depth: nat, strtod: Strtod) returns (t: Tree)
    requires p < |s| && (s[p] == 'n' || s[p] == 't' || s[p] == 'f') && Parse(s, p, depth, strtod).Ok?
    ensures IsTree(t, strtod) && !t.Num?
    ensures Parse(s, p, depth, strtod).pos == p + |TextOf(t)| <= |s| && s[p..p + |TextOf(t)|] == TextOf(t)
  {
    hide *;
    WordParses(s, p, depth, strtod);
    if s[p] == 'n' {
      t := Word("null", Null);
      Spelt(s, p, "ull", t, strtod);
    } else if s[p] == 't' {
      t := Word("true", Bool(true));
      Spelt(s, p, "rue", t, strtod);
    } else {
      t := Word("false", Bool(false));
      Spelt(s, p, "alse", t, strtod);
    }
  }

  lemma Spelt(s: Bytes, p: nat, rest: Bytes, t: Tree, strtod: Strtod)
    requires p < |s| && OccursAt(s, p + 1, rest)
    requires (s[p], rest, t) in [('n', "ull", Word("null", Null)), ('t', "rue", Word("true", Bool(true))), ('f', "alse", Word("false", Bool(false)))]
    ensures t.Word? && IsTree(t, strtod) && TextOf(t) == t.word && |t.word| == 1 + |rest|
    ensures p + |t.word| <= |s| && s[p..p + |t.word|] == t.word
  {
    assert WORDS[0] == ("null", Null) && WORDS[1] == ("true", Bool(true)) && WORDS[2] == ("false", Bool(false));
    Joined(s, p, p + 1, [s[p]], p + 1 + |rest|, rest);
    assert "null" == ['n'] + "ull" && "true" == ['t'] + "rue" && "false" == ['f'] + "alse";
  }

  lemma ReadQuote(s: Bytes, p: nat, strtod: Strtod) returns (t: Tree)
    requires p < |s| && s[p] == '"' && ParseString(s, p + 1, []).Ok?
    ensures IsTree(t, strtod) && !t.Num?
    ensures ParseString(s, p + 1, []).pos == p + |TextOf(t)| <= |s| && s[p..p + |TextOf(t)|] == TextOf(t)
  {
    hide Chars, TextOf, IsTree, ParseString;
    var chars := ReadChars(s, p + 1, []);
    t := Quote(chars);
    QuoteText(t, strtod);
    Joined(s, p, p + 1, ['"'], p + |TextOf(t)|, Chars(chars) + ['"']);
  }

  lemma QuoteText(t: Tree, strtod: Strtod)
    requires t.Quote? && AllChars(t.chars)
    ensures IsTree(t, strtod) && TextOf(t) == ['"'] + (Chars(t.chars) + ['"'])
  {}

  lemma ReadNumber(s: Bytes, p: nat, depth: nat, strtod: Strtod) returns (t: Tree)
    requires p < |s| && s[p] in "-0123456789" && Parse(s, p, depth, strtod).Ok?
    ensures IsTree(t, strtod) && R.Ends(s, p + |TextOf(t)|)
    ensures Parse(s, p, depth, strtod).pos == p + |TextOf(t)| <= |s| && s[p..p + |TextOf(t)|] == TextOf(t)
  {
    hide *;
    StartOfNumber(s[p]);
    NumberStarts(s, p, depth, strtod);
    var end := NumberEnd(s, p);
    RunOfNumber(s, p);
    var text := s[p..end];
    var v := ParseNumber(s, p, strtod);
    NumberIff(text, s, p, v.value, strtod);
    t := Num(text, v.value);
    NumText(t, strtod);
  }

  lemma StartOfNumber(c: Byte)
    requires c in "-0123456789"
    ensures (c == '-' || c in "0123456789") && (c == '-' || Decimals.IsDigit(c))
  {
    NumberBytes(c);
  }

  lemma NumText(t: Tree, strtod: Strtod)
    requires t.Num? && IsNumber(t.text, t.v, strtod)
    ensures IsTree(t, strtod) && TextOf(t) == t.text
  {}

  lemma {:induction false} RunOfNumber(s: Bytes, p: nat)
    requires p <= |s|
    ensures AllIn(s[p..NumberEnd(s, p)], NUMBER_BYTES) && R.Ends(s, NumberEnd(s, p)) && OccursAt(s, p, s[p..NumberEnd(s, p)])
    ensures p < |s| && IsNumberChar(s[p]) ==> s[p..NumberEnd(s, p)] != [] && s[p..NumberEnd(s, p)][0] == s[p]
    decreases |s| - p
  {
    hide IsNumberChar;
    if p < |s| && IsNumberChar(s[p]) {
      RunOfNumber(s, p + 1);
      NumberBytes(s[p]);
      assert s[p..NumberEnd(s, p)] == [s[p]] + s[p + 1..NumberEnd(s, p)];
    }
  }

  lemma {:induction false} ReadList(s: Bytes, p: nat, depth: nat, strtod: Strtod) returns (t: Tree)
    requires p < |s| && s[p] == '[' && depth > 0 && Parse(s, p, depth, strtod).Ok?
    ensures IsTree(t, strtod) && !t.Num?
    ensures Parse(s, p, depth, strtod).pos == p + |TextOf(t)| <= |s| && s[p..p + |TextOf(t)|] == TextOf(t)
    decreases |s| - p, 1
  {
    hide *;
    ListOpens(s, p, depth, strtod);
    ExpectedIsThere(s, p + 1, ']');
    var inside;
    if Expect(s, p + 1, ']').0 {
      t := List(s[p + 1..SkipWs(s, p + 1)], []);
      inside := t.gap + [']'];
      EmptyItems(strtod);
    } else {
      var items := ReadItems(s, p + 1, depth - 1, [], strtod);
      t := List([], items);
      inside := ItemsText(items) + [']'];
      NoBlanks();
    }
    ListTree(t, strtod);
    Joined(s, p, p + 1, ['['], p + 1 + |inside|, inside);
  }

  lemma EmptyItems(strtod: Strtod)
    ensures AllItems([], strtod) && AllMembers([], strtod)
  {}

  lemma NoBlanks()
    ensures AllIn([], BLANKS)
  {}

  lemma ListTree(t: Tree, strtod: Strtod)
    requires t.List? && AllIn(t.gap, BLANKS) && AllItems(t.items, strtod)
    ensures IsTree(t, strtod)
    ensures TextOf(t) == ['['] + ((if t.items == [] then t.gap else ItemsText(t.items)) + [']'])
  {}

  lemma RecordTree(t: Tree, strtod: Strtod)
    requires t.Record? && AllIn(t.gap, BLANKS) && AllMembers(t.members, strtod)
    ensures IsTree(t, strtod)
    ensures TextOf(t) == ['{'] + ((if t.members == [] then t.gap else MembersText(t.members)) + ['}'])
  {}

  lemma {:induction false} ReadItems(s: Bytes, pos: nat, depth: nat, out: seq<Value>, strtod: Strtod) returns (items: seq<Item>)
    requires pos <= |s| && ParseItems(s, pos, depth, out, strtod).Ok?
    ensures items != [] && AllItems(items, strtod)
    ensures ParseItems(s, pos, depth, out, strtod).pos == pos + |ItemsText(items)| + 1 <= |s|
    ensures s[pos..pos + |ItemsText(items)| + 1] == ItemsText(items) + [']']
    decreases |s| - pos, 5
  {
    hide *;
    ItemStep(s, pos, depth, out, strtod);
    var v := Parse(s, pos, depth, strtod);
    var x, q := ReadItem(s, pos, depth, strtod);
    EndOfTurn(s, v.pos, ']');
    if s[q] == ',' {
      var rest := ReadItems(s, q + 1, depth, out + [v.value], strtod);
      items := [x] + rest;
      assert items[1..] == rest;
      MoreItems(x, rest, strtod);
      Joined(s, pos, q, ItemText(x), q + 1, [',']);
      Joined(s, pos, q + 1, ItemText(x) + [','], q + 1 + |ItemsText(rest)| + 1, ItemsText(rest) + [']']);
    } else {
      items := [x];
      OneItem(x, strtod);
      Joined(s, pos, q, ItemText(x), q + 1, [']']);
    }
    ItemsTexts(items);
  }

  lemma ItemIs(x: Item, strtod: Strtod)
    requires AllIn(x.before, BLANKS) && AllIn(x.after, BLANKS) && IsTree(x.tree, strtod)
    ensures IsItem(x, strtod) && ItemText(x) == x.before + TextOf(x.tree) + x.after
  {}

  lemma OneItem(x: Item, strtod: Strtod)
    requires IsItem(x, strtod)
    ensures AllItems([x], strtod)
  {
    hide IsItem;
  }

  lemma MoreItems(x: Item, rest: seq<Item>, strtod: Strtod)
    requires IsItem(x, strtod) && AllItems(rest, strtod)
    ensures AllItems([x] + rest, strtod)
  {
    hide IsItem;
  }

  lemma {:induction false} ReadRecord(s: Bytes, p: nat, depth: nat, strtod: Strtod) returns (t: Tree)
    requires p < |s| && s[p] == '{' && depth > 0 && Parse(s, p, depth, strtod).Ok?
    ensures IsTree(t, strtod) && !t.Num?
    ensures Parse(s, p, depth, strtod).pos == p + |TextOf(t)| <= |s| && s[p..p + |TextOf(t)|] == TextOf(t)
    decreases |s| - p, 1
  {
    hide *;
    RecordOpens(s, p, depth, strtod);
    ExpectedIsThere(s, p + 1, '}');
    var inside;
    if Expect(s, p + 1, '}').0 {
      t := Record(s[p + 1..SkipWs(s, p + 1)], []);
      inside := t.gap + ['}'];
      EmptyItems(strtod);
    } else {
      var members := ReadMembers(s, p + 1, depth, map[], strtod);
      t := Record([], members);
      inside := MembersText(members) + ['}'];
      NoBlanks();
    }
    RecordTree(t, strtod);
    Joined(s, p, p + 1, ['{'], p + 1 + |inside|, inside);
  }

  /** What one turn of the object loop needs. */
  lemma MemberTurn(s: Bytes, pos: nat, depth: nat, out: map<Bytes, Value>, strtod: Strtod)
    requires pos <= |s| && ParseMembers(s, pos, depth, out, strtod).Ok?
    ensures var (quote, k) := Expect(s, pos, '"');
            && quote && ParseString(s, k, []).Ok?
            && var c := ParseString(s, k, []).pos;
            && Expect(s, c, ':').0 && Parse(s, Expect(s, c, ':').1, depth, strtod).Ok?
  {
    hide Parse, ParseString, Expect;
  }

  lemma {:induction false} ReadMember(s: Bytes, pos: nat, depth: nat, out: map<Bytes, Value>, strtod: Strtod)
    returns (m: Member, q: nat, out': map<Bytes, Value>)
    requires pos <= |s| && ParseMembers(s, pos, depth, out, strtod).Ok?
    ensures IsMember(m, strtod) && pos < q < |s| && s[pos..q] == MemberText(m) && SkipWs(s, q) == q && (s[q] == ',' || s[q] == '}')
    ensures ParseMembers(s, pos, depth, out, strtod) == if s[q] == ',' then ParseMembers(s, q + 1, depth, out', strtod) else Ok(Obj(out'), q + 1)
    decreases |s| - pos, 3
  {
    hide *;
    MemberTurn(s, pos, depth, out, strtod);
    var k := Expect(s, pos, '"').1;
    ExpectedIsThere(s, pos, '"');
    var key := ReadChars(s, k, []);
    var c := ParseString(s, k, []).pos;
    ExpectedIsThere(s, c, ':');
    var at := Expect(s, c, ':').1;
    R.MemberStep(s, pos, k, ParseString(s, k, []).value, c, at, depth, out, strtod);
    out' := out[ParseString(s, k, []).value := Parse(s, at, depth, strtod).value];
    var x;
    x, q := ReadItem(s, at, depth, strtod);
    m := Member(s[pos..k - 1], key, s[c..at - 1], x);
    MemberIs(m, strtod);
    MemberPlaced(s, pos, k, c, at, q, m);
    EndOfTurn(s, Parse(s, at, depth, strtod).pos, '}');
  }

  /** An item up to the white space behind it. */
  lemma {:induction false} ReadItem(s: Bytes, pos: nat, depth: nat, strtod: Strtod) returns (x: Item, q: nat)
    requires pos <= |s| && Parse(s, pos, depth, strtod).Ok?
    ensures IsItem(x, strtod) && q == SkipWs(s, Parse(s, pos, depth, strtod).pos) <= |s| && pos < q && s[pos..q] == ItemText(x)
    decreases |s| - pos, 4
  {
    hide *;
    var end := Parse(s, pos, depth, strtod).pos;
    var ws, tree := ReadTree(s, pos, depth, strtod);
    q := SkipWs(s, end);
    SkippedIsBlank(s, end);
    x := Item(ws, tree, s[end..q]);
    Joined(s, pos, end, ws + TextOf(tree), q, x.after);
    ItemIs(x, strtod);
  }

  /** After an item stands a comma or the closing bracket. */
  lemma EndOfTurn(s: Bytes, pos: nat, close: Byte)
    requires pos <= |s| && (Expect(s, pos, ',').0 || Expect(s, Expect(s, pos, ',').1, close).0)
    ensures var q := SkipWs(s, pos);
            && q < |s| && SkipWs(s, q) == q
            && (if Expect(s, pos, ',').0 then s[q] == ',' && Expect(s, pos, ',').1 == q + 1
                else s[q] == close && s[q] != ',' && Expect(s, Expect(s, pos, ',').1, close).1 == q + 1)
  {
    R.SkipTwice(s, pos);
  }

  lemma {:induction false} ReadMembers(s: Bytes, pos: nat, depth: nat, out: map<Bytes, Value>, strtod: Strtod)
    returns (members: seq<Member>)
    requires pos <= |s| && ParseMembers(s, pos, depth, out, strtod).Ok?
    ensures members != [] && AllMembers(members, strtod)
    ensures ParseMembers(s, pos, depth, out, strtod).pos == pos + |MembersText(members)| + 1 <= |s|
    ensures s[pos..pos + |MembersText(members)| + 1] == MembersText(members) + ['}']
    decreases |s| - pos, 4
  {
    hide *;
    var m, q, out' := ReadMember(s, pos, depth, out, strtod);
    if s[q] == ',' {
      var rest := ReadMembers(s, q + 1, depth, out', strtod);
      members := [m] + rest;
      assert members[1..] == rest;
      MoreMembers(m, rest, strtod);
      Joined(s, pos, q, MemberText(m), q + 1, [',']);
      Joined(s, pos, q + 1, MemberText(m) + [','], q + 1 + |MembersText(rest)| + 1, MembersText(rest) + ['}']);
    } else {
      members := [m];
      OneMember(m, strtod);
      Joined(s, pos, q, MemberText(m), q + 1, ['}']);
    }
    MembersTexts(members);
  }

  lemma MemberIs(m: Member, strtod: Strtod)
    requires AllIn(m.before, BLANKS) && AllChars(m.key) && AllIn(m.afterKey, BLANKS) && IsItem(m.item, strtod)
    ensures IsMember(m, strtod)
  {}

  lemma MemberPlaced(s: Bytes, pos: nat, k: nat, c: nat, at: nat, q: nat, m: Member)
    requires pos < k <= c < at <= q <= |s| && s[pos..k] == m.before + ['"'] && OccursAt(s, k, Chars(m.key) + ['"'])
    requires c == k + |Chars(m.key)| + 1 && s[c..at] == m.afterKey + [':'] && s[at..q] == ItemText(m.item)
    ensures s[pos..q] == MemberText(m)
  {
    hide Chars, ItemText;
    Joined(s, pos, k, m.before + ['"'], c, Chars(m.key) + ['"']);
    Joined(s, pos, c, (m.before + ['"']) + (Chars(m.key) + ['"']), at, m.afterKey + [':']);
    Joined(s, pos, at, ((m.before + ['"']) + (Chars(m.key) + ['"'])) + (m.afterKey + [':']), q, ItemText(m.item));
    assert MemberText(m) == ((m.before + ['"']) + (Chars(m.key) + ['"'])) + (m.afterKey + [':']) + ItemText(m.item);
  }

  lemma OneMember(m: Member, strtod: Strtod)
    requires IsMember(m, strtod)
    ensures AllMembers([m], strtod)
  {
    hide IsMember;
  }

  lemma MoreMembers(m: Member, rest: seq<Member>, strtod: Strtod)
    requires IsMember(m, strtod) && AllMembers(rest, strtod)
    ensures AllMembers([m] + rest, strtod)
  {
    hide IsMember;
  }

  // ---- The parser and the grammar -----------------------------------------------------------------------------------------

  /** From pos to end stands white space and then a text of JSON for v, its arrays nested less deep than `depth`. */
  ghost predicate Says(s: Bytes, pos: nat, end: nat, v: Value, depth: nat, strtod: Strtod) {
    exists ws, t :: IsText(ws, t, s, pos, end, strtod) && Nests(t, depth) && ValueOf(t, strtod) == v
  }

  ghost predicate IsText(ws: Bytes, t: Tree, s: Bytes, pos: nat, end: nat, strtod: Strtod) {
    && IsTree(t, strtod) && AllIn(ws, BLANKS) && pos <= end <= |s| && s[pos..end] == ws + TextOf(t)
    && (t.Num? ==> R.Ends(s, end))
  }

  /** The parser accepts exactly the texts of JSON, each as the value it writes. */
  lemma ParseIff(s: Bytes, pos: nat, end: nat, v: Value, depth: nat, strtod: Strtod)
    requires pos <= |s|
    ensures Parse(s, pos, depth, strtod) == Ok(v, end) <==> Says(s, pos, end, v, depth, strtod)
  {
    hide *;
    if Parse(s, pos, depth, strtod) == Ok(v, end) {
      var ws, t := ReadTree(s, pos, depth, strtod);
      SaysTree(ws, t, s, pos, end, depth, strtod);
    }
    if Says(s, pos, end, v, depth, strtod) {
      var ws, t := TreeOf(s, pos, end, v, depth, strtod);
      SaysTree(ws, t, s, pos, end, depth, strtod);
    }
  }

  lemma TreeOf(s: Bytes, pos: nat, end: nat, v: Value, depth: nat, strtod: Strtod) returns (ws: Bytes, t: Tree)
    requires Says(s, pos, end, v, depth, strtod)
    ensures IsTree(t, strtod) && AllIn(ws, BLANKS) && pos <= end <= |s| && s[pos..end] == ws + TextOf(t)
    ensures (t.Num? ==> R.Ends(s, end)) && Nests(t, depth) && ValueOf(t, strtod) == v
  {
    ws, t :| IsText(ws, t, s, pos, end, strtod) && Nests(t, depth) && ValueOf(t, strtod) == v;
  }

  lemma SaysTree(ws: Bytes, t: Tree, s: Bytes, pos: nat, end: nat, depth: nat, strtod: Strtod)
    requires IsTree(t, strtod) && AllIn(ws, BLANKS) && pos <= end <= |s| && s[pos..end] == ws + TextOf(t)
    requires t.Num? ==> R.Ends(s, end)
    ensures Parse(s, pos, depth, strtod) == if Nests(t, depth) then Ok(ValueOf(t, strtod), end) else Fail
    ensures Nests(t, depth) ==> Says(s, pos, end, ValueOf(t, strtod), depth, strtod)
  {
    assert IsText(ws, t, s, pos, end, strtod);
    assert end == pos + |ws + TextOf(t)|;
    assert OccursAt(s, pos, ws + TextOf(t));
    hide IsText, IsTree, TextOf, Nests, ValueOf, Parse, OccursAt;
    TreeIsRead(s, pos, ws, t, depth, strtod);
  }
}

/** What a route pattern catches, said by pattern texts and URLs alone: a URL matches when arguments put in for the
    parameters of the pattern give it. */
module RouteInstances {
  import opened Bytes
  import opened Decimals
  import opened RoutePattern
  import opened TrieNodes
  import opened TrieRules

  // ---- Patterns with arguments put in ----

  /** A character of a pattern, or a parameter by its name with the argument put in for it and how that is written. */
  datatype Piece = Plain(c: char) | Slot(name: string, written: string, arg: Capture)

  function PatternOf(ps: seq<Piece>): string {
    if ps == [] then "" else (if ps[0].Plain? then [ps[0].c] else ps[0].name) + PatternOf(ps[1..])
  }

  function UrlOf(ps: seq<Piece>): string {
    if ps == [] then "" else (if ps[0].Plain? then [ps[0].c] else ps[0].written) + UrlOf(ps[1..])
  }

  // The arguments of each kind, in the order of the pattern.
  function IntsOf(ps: seq<Piece>): seq<int> {
    if ps == [] then [] else (if ps[0].Slot? && ps[0].arg.IntArg? then [ps[0].arg.i] else []) + IntsOf(ps[1..])
  }

  function UintsOf(ps: seq<Piece>): seq<nat> {
    if ps == [] then [] else (if ps[0].Slot? && ps[0].arg.UintArg? then [ps[0].arg.u] else []) + UintsOf(ps[1..])
  }

  function DoublesOf(ps: seq<Piece>): seq<real> {
    if ps == [] then [] else (if ps[0].Slot? && ps[0].arg.DoubleArg? then [ps[0].arg.d] else []) + DoublesOf(ps[1..])
  }

  function TextsOf(ps: seq<Piece>): seq<string> {
    if ps == [] then [] else (if ps[0].Slot? && ps[0].arg.TextArg? then [ps[0].arg.s] else []) + TextsOf(ps[1..])
  }

  function ArgsOf(ps: seq<Piece>): Params { Params(IntsOf(ps), UintsOf(ps), DoublesOf(ps), TextsOf(ps)) }

  // ---- What may be put in ----

  predicate EndsNumber(after: string) { after == "" || !IsDigit(after[0]) }

  /** A decimal text of n: digits, possibly with zeros in front. */
  predicate Writes(text: string, n: nat) { text != "" && AllDigits(text) && Value(text) == n }

  /** A sign may stand before the digits; an unsigned number has no minus. */
  predicate WritesInt(text: string, i: int) {
    text != "" &&
    if text[0] == '-' then i <= 0 && Writes(text[1..], -i)
    else i >= 0 && Writes(if text[0] == '+' then text[1..] else text, i)
  }

  predicate WritesUint(text: string, u: nat) { text != "" && Writes(if text[0] == '+' then text[1..] else text, u) }

  /** The argument is of the kind the name asks for, fits it, and is written so that it ends where the rest of the URL begins. */
  predicate SlotFits(name: string, written: string, arg: Capture, after: string, strtod: Strtod) {
    match arg
    case IntArg(i) =>
      name == "<int>" && -0x8000_0000_0000_0000 <= i <= 0x7FFF_FFFF_FFFF_FFFF && WritesInt(written, i) && EndsNumber(after)
    case UintArg(u) => name == "<uint>" && u <= 0xFFFF_FFFF_FFFF_FFFF && WritesUint(written, u) && EndsNumber(after)
    case DoubleArg(d) =>
      && (name == "<float>" || name == "<double>") && written != "" && (IsDigit(written[0]) || written[0] in "+-.")
      && strtod(written + after) == DoubleScan(|written|, d, false)
    case TextArg(s) =>
      && written == s != ""
      && if name == "<path>" then after == ""
         else (name == "<str>" || name == "<string>") && '/' !in s && (after == "" || after[0] == '/')
  }

  /** Every argument fits; other characters are not the start of a parameter. */
  predicate Fits(ps: seq<Piece>, strtod: Strtod) {
    ps != [] ==>
      && (if ps[0].Plain? then ps[0].c != '<' else SlotFits(ps[0].name, ps[0].written, ps[0].arg, UrlOf(ps[1..]), strtod))
      && Fits(ps[1..], strtod)
  }

  // ---- The tokens of a pattern ----

  function KindOf(name: string, arg: Capture): ParamType {
    match arg
    case IntArg(_) => INT case UintArg(_) => UINT case DoubleArg(_) => DOUBLE
    case TextArg(_) => if name == "<path>" then PATH else STRING
  }

  function TokenOf(p: Piece): Token { if p.Plain? then Lit(p.c) else Par(KindOf(p.name, p.arg)) }

  function TokensOf(ps: seq<Piece>): seq<Token> { if ps == [] then [] else [TokenOf(ps[0])] + TokensOf(ps[1..]) }

  predicate IsName(name: string, p: ParamType) {
    match p
    case INT => name == "<int>" case UINT => name == "<uint>" case DOUBLE => name == "<float>" || name == "<double>"
    case STRING => name == "<str>" || name == "<string>" case PATH => name == "<path>"
  }

  lemma NamesOfKinds(n: nat)
    requires n < |PARAM_NAMES|
    ensures IsName(PARAM_NAMES[n].0, PARAM_NAMES[n].1)
  {
    assert n <= 6;
  }

  lemma NameIsKnown(name: string, p: ParamType) returns (n: nat)
    requires IsName(name, p)
    ensures n < |PARAM_NAMES| && PARAM_NAMES[n] == (name, p)
  {
    n := match p
      case INT => 0 case UINT => 1 case DOUBLE => if name == "<float>" then 2 else 3
      case STRING => if name == "<str>" then 4 else 5 case PATH => 6;
  }

  predicate Bracketed(name: string) { |name| > 0 && name[|name| - 1] == '>' && '>' !in name[..|name| - 1] }

  lemma NamesAreBracketed(name: string, p: ParamType)
    requires IsName(name, p)
    ensures Bracketed(name) && name[0] == '<'
  {}

  /** Two names cannot stand at the same place. */
  lemma OneNameAt(pattern: string, i: nat, a: string, b: string)
    requires Bracketed(a) && Bracketed(b) && OccursAt(pattern, i, a) && OccursAt(pattern, i, b)
    ensures a == b
  {
    NameEndsAt(pattern, i, a);
    NameEndsAt(pattern, i, b);
    assert |a| == |b|;
  }

  lemma NameEndsAt(pattern: string, i: nat, name: string)
    requires Bracketed(name) && OccursAt(pattern, i, name)
    ensures pattern[i + |name| - 1] == '>' && forall k :: i <= k < i + |name| - 1 ==> pattern[k] != '>'
  {
    assert pattern[i..i + |name|][|name| - 1] == '>';
    forall k | i <= k < i + |name| - 1 ensures pattern[k] != '>' {
      assert pattern[k] == pattern[i..i + |name|][k - i] == name[..|name| - 1][k - i];
    }
  }

  lemma NameIsFound(pattern: string, i: nat, name: string, p: ParamType)
    requires IsName(name, p) && OccursAt(pattern, i, name)
    ensures var n := ParamAt(pattern, i); n < |PARAM_NAMES| && PARAM_NAMES[n] == (name, p)
  {
    var k := NameIsKnown(name, p);
    SomeNameIsFound(pattern, i, k, 0);
    var n := ParamAt(pattern, i);
    NamesOfKinds(n);
    NamesAreBracketed(name, p);
    NamesAreBracketed(PARAM_NAMES[n].0, PARAM_NAMES[n].1);
    OneNameAt(pattern, i, name, PARAM_NAMES[n].0);
    OneKind(name, p, PARAM_NAMES[n].1);
  }

  lemma OneKind(name: string, p: ParamType, q: ParamType)
    requires IsName(name, p) && IsName(name, q)
    ensures p == q
  {}

  lemma {:induction false} SomeNameIsFound(pattern: string, i: nat, k: nat, n: nat)
    requires n <= k < |PARAM_NAMES| && OccursAt(pattern, i, PARAM_NAMES[k].0)
    ensures ParamAt(pattern, i, n) < |PARAM_NAMES|
    decreases |PARAM_NAMES| - n
  {
    if !OccursAt(pattern, i, PARAM_NAMES[n].0) { SomeNameIsFound(pattern, i, k, n + 1); }
  }

  lemma SlotHasName(name: string, written: string, arg: Capture, after: string, strtod: Strtod)
    requires SlotFits(name, written, arg, after, strtod)
    ensures IsName(name, KindOf(name, arg)) && written != ""
  {}

  /** The tokens of a pattern text are those of its pieces. */
  lemma {:induction false} TokensOfPattern(pattern: string, i: nat, ps: seq<Piece>, strtod: Strtod)
    requires i <= |pattern| && pattern[i..] == PatternOf(ps) && Fits(ps, strtod)
    ensures WellFormed(pattern, i) && Tokens(pattern, i) == TokensOf(ps)
    decreases |ps|
  {
    hide *;
    if ps == [] {
      NoTokens(pattern, i);
    } else {
      var p := ps[0];
      FirstFits(ps, strtod);
      if p.Plain? {
        NextPlain(pattern, i, ps);
        TokensOfPattern(pattern, i + 1, ps[1..], strtod);
        PlainToken(pattern, i, ps);
      } else {
        SlotHasName(p.name, p.written, p.arg, UrlOf(ps[1..]), strtod);
        NextSlot(pattern, i, ps);
        TokensOfPattern(pattern, i + |p.name|, ps[1..], strtod);
        SlotToken(pattern, i, ps);
      }
    }
  }

  lemma NoTokens(pattern: string, i: nat)
    requires i <= |pattern| && pattern[i..] == PatternOf([])
    ensures WellFormed(pattern, i) && Tokens(pattern, i) == TokensOf([])
  {
    assert |pattern[i..]| == |pattern| - i;
  }

  lemma FirstFits(ps: seq<Piece>, strtod: Strtod)
    requires ps != [] && Fits(ps, strtod)
    ensures Fits(ps[1..], strtod)
    ensures if ps[0].Plain? then ps[0].c != '<' else SlotFits(ps[0].name, ps[0].written, ps[0].arg, UrlOf(ps[1..]), strtod)
  {
    hide SlotFits;
  }

  lemma PlainToken(pattern: string, i: nat, ps: seq<Piece>)
    requires i < |pattern| && ps != [] && ps[0].Plain? && ps[0].c != '<' && pattern[i] == ps[0].c
    requires WellFormed(pattern, i + 1) && Tokens(pattern, i + 1) == TokensOf(ps[1..])
    ensures WellFormed(pattern, i) && Tokens(pattern, i) == TokensOf(ps)
  {
    hide ParamAt;
  }

  lemma SlotToken(pattern: string, i: nat, ps: seq<Piece>)
    requires i < |pattern| && ps != [] && ps[0].Slot? && pattern[i] == '<' && i < i + |ps[0].name| <= |pattern|
    requires var n := ParamAt(pattern, i); n < |PARAM_NAMES| && PARAM_NAMES[n] == (ps[0].name, KindOf(ps[0].name, ps[0].arg))
    requires WellFormed(pattern, i + |ps[0].name|) && Tokens(pattern, i + |ps[0].name|) == TokensOf(ps[1..])
    ensures WellFormed(pattern, i) && Tokens(pattern, i) == TokensOf(ps)
  {
    hide ParamAt, KindOf, PARAM_NAMES;
  }

  lemma NextPlain(pattern: string, i: nat, ps: seq<Piece>)
    requires i <= |pattern| && ps != [] && ps[0].Plain? && pattern[i..] == PatternOf(ps)
    ensures i < |pattern| && pattern[i] == ps[0].c && pattern[i + 1..] == PatternOf(ps[1..])
  {
    assert |pattern[i..]| == |pattern| - i;
    assert pattern[i..][0] == ps[0].c && pattern[i..][1..] == pattern[i + 1..];
  }

  lemma NextSlot(pattern: string, i: nat, ps: seq<Piece>)
    requires i <= |pattern| && ps != [] && ps[0].Slot? && pattern[i..] == PatternOf(ps)
    requires IsName(ps[0].name, KindOf(ps[0].name, ps[0].arg))
    ensures i < i + |ps[0].name| <= |pattern| && pattern[i] == '<' && pattern[i + |ps[0].name|..] == PatternOf(ps[1..])
    ensures var n := ParamAt(pattern, i); n < |PARAM_NAMES| && PARAM_NAMES[n] == (ps[0].name, KindOf(ps[0].name, ps[0].arg))
  {
    var name, kind := ps[0].name, KindOf(ps[0].name, ps[0].arg);
    NamesAreBracketed(name, kind);
    hide IsName;
    assert |pattern[i..]| == |pattern| - i;
    assert pattern[i..][..|name|] == name && pattern[i..][|name|..] == pattern[i + |name|..];
    assert pattern[i..i + |name|] == name;
    assert pattern[i..][0] == name[0];
    NameIsFound(pattern, i, name, kind);
  }

  // ---- One parameter ----

  /** Where an argument is written, the reader reads it, and nothing else. */
  lemma SlotIsRead(name: string, arg: Capture, url: string, pos: nat, end: nat, strtod: Strtod)
    requires pos < end <= |url| && SlotFits(name, url[pos..end], arg, url[end..], strtod)
    ensures ReadParam(KindOf(name, arg), url, pos, strtod) == Hit(end, arg)
  {
    WrittenAt(url, pos, end);
    hide WritesInt, WritesUint, ReadParam, Value;
    match arg
    case IntArg(i) => IntIsRead(url, pos, end, i, strtod);
    case UintArg(u) => UintIsRead(url, pos, end, u, strtod);
    case DoubleArg(d) => DoubleIsRead(url, pos, end, d, strtod);
    case TextArg(s) => TextIsRead(name, url, pos, end, strtod);
  }

  lemma IntIsRead(url: string, pos: nat, end: nat, i: int, strtod: Strtod)
    requires pos < end <= |url| && INT64_MIN <= i <= INT64_MAX && WritesInt(url[pos..end], i) && (end < |url| ==> !IsDigit(url[end]))
    ensures ReadParam(INT, url, pos, strtod) == Hit(end, IntArg(i))
  {
    WrittenAt(url, pos, end);
    NumberIsRead(url, pos, end);
    hide Value, SegmentEnd;
  }

  lemma UintIsRead(url: string, pos: nat, end: nat, u: nat, strtod: Strtod)
    requires pos < end <= |url| && u <= UINT64_MAX && WritesUint(url[pos..end], u) && (end < |url| ==> !IsDigit(url[end]))
    ensures ReadParam(UINT, url, pos, strtod) == Hit(end, UintArg(u))
  {
    WrittenAt(url, pos, end);
    NumberIsRead(url, pos, end);
    hide Value, SegmentEnd;
  }

  lemma DoubleIsRead(url: string, pos: nat, end: nat, d: real, strtod: Strtod)
    requires pos < end <= |url| && (IsDigit(url[pos]) || url[pos] in "+-.")
    requires strtod(url[pos..end] + url[end..]) == DoubleScan(end - pos, d, false)
    ensures ReadParam(DOUBLE, url, pos, strtod) == Hit(end, DoubleArg(d))
  {
    hide Value, SegmentEnd, DigitsEnd;
    assert url[pos..] == url[pos..end] + url[end..];
  }

  lemma TextIsRead(name: string, url: string, pos: nat, end: nat, strtod: Strtod)
    requires pos < end <= |url|
    requires if name == "<path>" then end == |url| else '/' !in url[pos..end] && (end < |url| ==> url[end] == '/')
    ensures ReadParam(if name == "<path>" then PATH else STRING, url, pos, strtod) == Hit(end, TextArg(url[pos..end]))
  {
    if name != "<path>" { SegmentIsRead(url, pos, end); }
    hide Value, SegmentEnd, DigitsEnd;
  }

  lemma WrittenAt(url: string, pos: nat, end: nat)
    requires pos < end <= |url|
    ensures url[pos..end][0] == url[pos] && url[pos..end][1..] == url[pos + 1..end]
    ensures end < |url| ==> url[end..][0] == url[end]
  {}

  lemma SegmentIsRead(url: string, pos: nat, end: nat)
    requires pos < end <= |url| && '/' !in url[pos..end] && (end < |url| ==> url[end] == '/')
    ensures SegmentEnd(url, pos) == end
  {
    forall k | pos <= k < end ensures url[k] != '/' { assert url[k] == url[pos..end][k - pos]; }
    var e := SegmentEnd(url, pos);
    hide SegmentEnd;
  }

  lemma NumberIsRead(url: string, pos: nat, end: nat)
    requires pos < end <= |url| && (end < |url| ==> !IsDigit(url[end]))
    requires var first := if IsDigit(url[pos]) then pos else pos + 1;
             first < end && AllDigits(url[first..end])
    ensures DigitsEnd(url, if IsDigit(url[pos]) then pos else pos + 1) == end
  {
    var first := if IsDigit(url[pos]) then pos else pos + 1;
    forall k | first <= k < end ensures IsDigit(url[k]) {
      assert url[k] == url[first..end][k - first];
    }
    hide IsDigit, AllDigits;
    DigitsEndAt(url, first, end);
  }

  lemma {:induction false} DigitsEndAt(url: string, i: nat, end: nat)
    requires i <= end <= |url| && (forall k :: i <= k < end ==> IsDigit(url[k])) && (end < |url| ==> !IsDigit(url[end]))
    ensures DigitsEnd(url, i) == end
  {
    var e := DigitsEnd(url, i);
    hide DigitsEnd, IsDigit;
  }

  /** What the reader reads is an argument written there. */
  lemma ReadIsSlot(p: ParamType, name: string, url: string, pos: nat, strtod: Strtod)
    requires pos < |url| && IsName(name, p) && ReadParam(p, url, pos, strtod).Hit?
    ensures var r := ReadParam(p, url, pos, strtod);
            SlotFits(name, url[pos..r.end], r.arg, url[r.end..], strtod) && KindOf(name, r.arg) == p
  {
    var r := ReadParam(p, url, pos, strtod);
    var written := url[pos..r.end];
    assert written[0] == url[pos] && written[1..] == url[pos + 1..r.end];
    assert r.end < |url| ==> url[r.end..][0] == url[r.end];
    match p
    case INT =>
    case UINT =>
    case DOUBLE => assert url[pos..] == written + url[r.end..];
    case STRING =>
    case PATH =>
  }

  // ---- A whole URL ----

  function Extended(params: Params, ps: seq<Piece>): Params {
    Params(params.ints + IntsOf(ps), params.uints + UintsOf(ps), params.doubles + DoublesOf(ps), params.strings + TextsOf(ps))
  }

  lemma NothingExtended(params: Params)
    ensures Extended(params, []) == params
  {
    assert params.ints + [] == params.ints && params.uints + [] == params.uints;
    assert params.doubles + [] == params.doubles && params.strings + [] == params.strings;
  }

  lemma SlotExtends(params: Params, ps: seq<Piece>)
    requires ps != []
    ensures Extended(params, ps) == Extended(if ps[0].Slot? then params.Push(ps[0].arg) else params, ps[1..])
  {
    var rest := ps[1..];
    Grouped(params.ints, if ps[0].Slot? && ps[0].arg.IntArg? then [ps[0].arg.i] else [], IntsOf(rest));
    Grouped(params.uints, if ps[0].Slot? && ps[0].arg.UintArg? then [ps[0].arg.u] else [], UintsOf(rest));
    Grouped(params.doubles, if ps[0].Slot? && ps[0].arg.DoubleArg? then [ps[0].arg.d] else [], DoublesOf(rest));
    Grouped(params.strings, if ps[0].Slot? && ps[0].arg.TextArg? then [ps[0].arg.s] else [], TextsOf(rest));
  }

  lemma Grouped<T>(a: seq<T>, b: seq<T>, c: seq<T>)
    ensures a + (b + c) == (a + b) + c && (b == [] ==> a + b == a)
  {}

  lemma {:induction false} InstanceFrom(ps: seq<Piece>, url: string, pos: nat, params: Params, strtod: Strtod)
    requires pos <= |url| && url[pos..] == UrlOf(ps) && Fits(ps, strtod)
    ensures MatchFrom(TokensOf(ps), url, pos, params, CrowReader(strtod)) == Matched(Extended(params, ps))
    decreases |ps|
  {
    hide *;
    if ps == [] {
      InstanceEnds(url, pos, params, CrowReader(strtod));
    } else {
      var p := ps[0];
      FirstFits(ps, strtod);
      SlotExtends(params, ps);
      if p.Plain? {
        UrlPlain(url, pos, ps);
        InstanceFrom(ps[1..], url, pos + 1, params, strtod);
        MatchesPlain(ps, url, pos, params, CrowReader(strtod));
      } else {
        SlotHasName(p.name, p.written, p.arg, UrlOf(ps[1..]), strtod);
        UrlSlot(url, pos, ps);
        var end := pos + |p.written|;
        SlotIsRead(p.name, p.arg, url, pos, end, strtod);
        InstanceFrom(ps[1..], url, end, params.Push(p.arg), strtod);
        MatchesSlot(ps, url, pos, params, strtod);
      }
    }
  }

  lemma InstanceEnds(url: string, pos: nat, params: Params, read: Reader)
    requires pos <= |url| && url[pos..] == UrlOf([])
    ensures MatchFrom(TokensOf([]), url, pos, params, read) == Matched(Extended(params, []))
  {
    assert |url[pos..]| == |url| - pos;
    NothingExtended(params);
  }

  lemma UrlPlain(url: string, pos: nat, ps: seq<Piece>)
    requires pos <= |url| && ps != [] && ps[0].Plain? && url[pos..] == UrlOf(ps)
    ensures pos < |url| && url[pos] == ps[0].c && url[pos + 1..] == UrlOf(ps[1..])
  {
    assert |url[pos..]| == |url| - pos;
    assert url[pos..][0] == ps[0].c && url[pos..][1..] == url[pos + 1..];
  }

  lemma UrlSlot(url: string, pos: nat, ps: seq<Piece>)
    requires pos <= |url| && ps != [] && ps[0].Slot? && ps[0].written != "" && url[pos..] == UrlOf(ps)
    ensures var end := pos + |ps[0].written|; pos < end <= |url| && url[pos..end] == ps[0].written && url[end..] == UrlOf(ps[1..])
  {
    var w := ps[0].written;
    assert |url[pos..]| == |url| - pos;
    assert url[pos..][..|w|] == w && url[pos..][|w|..] == url[pos + |w|..] && url[pos..pos + |w|] == url[pos..][..|w|];
  }

  lemma MatchesPlain(ps: seq<Piece>, url: string, pos: nat, params: Params, read: Reader)
    requires pos < |url| && ps != [] && ps[0].Plain? && url[pos] == ps[0].c
    ensures MatchFrom(TokensOf(ps), url, pos, params, read) == MatchFrom(TokensOf(ps[1..]), url, pos + 1, params, read)
  {
    assert TokensOf(ps)[1..] == TokensOf(ps[1..]);
  }

  lemma MatchesSlot(ps: seq<Piece>, url: string, pos: nat, params: Params, strtod: Strtod)
    requires ps != [] && ps[0].Slot? && ps[0].written != "" && pos + |ps[0].written| <= |url|
    requires ReadParam(KindOf(ps[0].name, ps[0].arg), url, pos, strtod) == Hit(pos + |ps[0].written|, ps[0].arg)
    ensures MatchFrom(TokensOf(ps), url, pos, params, CrowReader(strtod))
         == MatchFrom(TokensOf(ps[1..]), url, pos + |ps[0].written|, params.Push(ps[0].arg), CrowReader(strtod))
  {
    hide ReadParam, KindOf;
    assert TokensOf(ps)[1..] == TokensOf(ps[1..]);
  }

  /** A URL that the pattern matches is written by putting the captured arguments into the pattern. */
  lemma {:induction false} MatchFromPieces(pattern: string, i: nat, url: string, pos: nat, params: Params, strtod: Strtod)
    returns (ps: seq<Piece>)
    requires i <= |pattern| && WellFormed(pattern, i) && pos <= |url|
    requires MatchFrom(Tokens(pattern, i), url, pos, params, CrowReader(strtod)).Matched?
    ensures Fits(ps, strtod) && PatternOf(ps) == pattern[i..] && UrlOf(ps) == url[pos..]
    ensures MatchFrom(Tokens(pattern, i), url, pos, params, CrowReader(strtod)) == Matched(Extended(params, ps))
    decreases |pattern| - i
  {
    hide *;
    if i == |pattern| {
      ps := [];
      MatchEnds(pattern, url, pos, params, strtod);
    } else {
      var next := NextToken(pattern, i).1;
      var piece, end := FirstPiece(pattern, i, url, pos, params, strtod);
      var params' := if piece.Slot? then params.Push(piece.arg) else params;
      var rest := MatchFromPieces(pattern, next, url, end, params', strtod);
      ps := [piece] + rest;
      SlotExtends(params, ps);
      PiecesBefore(piece, rest, strtod);
      SlicesJoin(pattern, i, next);
      SlicesJoin(url, pos, end);
    }
  }

  lemma MatchEnds(pattern: string, url: string, pos: nat, params: Params, strtod: Strtod)
    requires pos <= |url| && MatchFrom(Tokens(pattern, |pattern|), url, pos, params, CrowReader(strtod)).Matched?
    ensures Fits([], strtod) && PatternOf([]) == pattern[|pattern|..] && UrlOf([]) == url[pos..]
    ensures MatchFrom(Tokens(pattern, |pattern|), url, pos, params, CrowReader(strtod)) == Matched(Extended(params, []))
  {
    NothingExtended(params);
  }

  lemma SlicesJoin(s: string, i: nat, j: nat)
    requires i <= j <= |s|
    ensures s[i..] == s[i..j] + s[j..]
  {}

  lemma FirstPiece(pattern: string, i: nat, url: string, pos: nat, params: Params, strtod: Strtod) returns (piece: Piece, end: nat)
    requires i < |pattern| && WellFormed(pattern, i) && pos <= |url|
    requires MatchFrom(Tokens(pattern, i), url, pos, params, CrowReader(strtod)).Matched?
    ensures var (t, next) := NextToken(pattern, i);
            && i < next <= |pattern| && WellFormed(pattern, next) && pos < end <= |url|
            && MatchFrom(Tokens(pattern, i), url, pos, params, CrowReader(strtod))
               == MatchFrom(Tokens(pattern, next), url, end, if piece.Slot? then params.Push(piece.arg) else params, CrowReader(strtod))
            && (if piece.Plain? then [piece.c] else piece.name) == pattern[i..next]
            && (if piece.Plain? then [piece.c] else piece.written) == url[pos..end]
            && (if piece.Plain? then piece.c != '<' else SlotFits(piece.name, piece.written, piece.arg, url[end..], strtod))
  {
    hide ReadParam, ParamAt, SlotFits;
    var (t, next) := NextToken(pattern, i);
    assert Tokens(pattern, i)[1..] == Tokens(pattern, next) && Tokens(pattern, i)[0] == t;
    match t
    case Lit(c) =>
      piece, end := Plain(c), pos + 1;
      assert pattern[i..next] == [c] && url[pos..end] == [c];
    case Par(p) =>
      var n := ParamAt(pattern, i);
      NamesOfKinds(n);
      var name, scan := PARAM_NAMES[n].0, ReadParam(p, url, pos, strtod);
      assert pattern[i..next] == name;
      assert CrowReader(strtod)(p, url, pos) == scan && scan.Hit?;
      end := scan.end;
      ReadIsSlot(p, name, url, pos, strtod);
      piece := Slot(name, url[pos..end], scan.arg);
  }

  lemma PiecesBefore(piece: Piece, rest: seq<Piece>, strtod: Strtod)
    requires if piece.Plain? then piece.c != '<' else SlotFits(piece.name, piece.written, piece.arg, UrlOf(rest), strtod)
    requires Fits(rest, strtod)
    ensures var ps := [piece] + rest;
            && ps[1..] == rest && Fits(ps, strtod)
            && PatternOf(ps) == (if piece.Plain? then [piece.c] else piece.name) + PatternOf(rest)
            && UrlOf(ps) == (if piece.Plain? then [piece.c] else piece.written) + UrlOf(rest)
  {
    hide *;
    var ps := [piece] + rest;
    assert ps[1..] == rest;
    FitsBefore(ps, strtod);
    PiecesJoined(ps);
  }

  lemma PiecesJoined(ps: seq<Piece>)
    requires ps != []
    ensures PatternOf(ps) == (if ps[0].Plain? then [ps[0].c] else ps[0].name) + PatternOf(ps[1..])
    ensures UrlOf(ps) == (if ps[0].Plain? then [ps[0].c] else ps[0].written) + UrlOf(ps[1..])
  {}

  lemma FitsBefore(ps: seq<Piece>, strtod: Strtod)
    requires ps != [] && Fits(ps[1..], strtod)
    requires if ps[0].Plain? then ps[0].c != '<' else SlotFits(ps[0].name, ps[0].written, ps[0].arg, UrlOf(ps[1..]), strtod)
    ensures Fits(ps, strtod)
  {
    hide SlotFits;
  }

  // ---- What a pattern catches ----

  /** The URL is the pattern with these arguments put in. */
  ghost predicate IsInstance(pattern: string, url: string, args: Params, strtod: Strtod) {
    exists ps: seq<Piece> :: Fits(ps, strtod) && PatternOf(ps) == pattern && UrlOf(ps) == url && ArgsOf(ps) == args
  }

  lemma FromNothing(ps: seq<Piece>)
    ensures Extended(NO_PARAMS, ps) == ArgsOf(ps)
  {
    hide IntsOf, UintsOf, DoublesOf, TextsOf;
    assert [] + IntsOf(ps) == IntsOf(ps) && [] + UintsOf(ps) == UintsOf(ps);
    assert [] + DoublesOf(ps) == DoublesOf(ps) && [] + TextsOf(ps) == TextsOf(ps);
  }

  /** Arguments put into a pattern are what the router reads out of the URL. */
  lemma InstanceMatches(ps: seq<Piece>, strtod: Strtod)
    requires Fits(ps, strtod)
    ensures WellFormed(PatternOf(ps)) && MatchUrl(Tokens(PatternOf(ps)), UrlOf(ps), CrowReader(strtod)) == Matched(ArgsOf(ps))
  {
    var pattern, url := PatternOf(ps), UrlOf(ps);
    assert pattern[0..] == pattern && url[0..] == url;
    hide *;
    TokensOfPattern(pattern, 0, ps, strtod);
    InstanceFrom(ps, url, 0, NO_PARAMS, strtod);
    FromNothing(ps);
    UrlFromStart(TokensOf(ps), url, CrowReader(strtod));
  }

  lemma UrlFromStart(tokens: seq<Token>, url: string, read: Reader)
    ensures MatchUrl(tokens, url, read) == MatchFrom(tokens, url, 0, NO_PARAMS, read)
  {}

  /** A pattern matches a URL with exactly the arguments that, put into the pattern, give the URL. */
  lemma MatchIsInstance(pattern: string, url: string, args: Params, strtod: Strtod)
    requires WellFormed(pattern)
    ensures MatchUrl(Tokens(pattern), url, CrowReader(strtod)) == Matched(args) <==> IsInstance(pattern, url, args, strtod)
  {
    hide *;
    UrlFromStart(Tokens(pattern), url, CrowReader(strtod));
    if MatchUrl(Tokens(pattern), url, CrowReader(strtod)) == Matched(args) {
      var ps := MatchFromPieces(pattern, 0, url, 0, NO_PARAMS, strtod);
      assert pattern[0..] == pattern && url[0..] == url;
      FromNothing(ps);
      InstanceBy(ps, strtod);
    }
    if IsInstance(pattern, url, args, strtod) {
      var ps := InstanceOf(pattern, url, args, strtod);
      InstanceMatches(ps, strtod);
    }
  }

  lemma InstanceBy(ps: seq<Piece>, strtod: Strtod)
    requires Fits(ps, strtod)
    ensures IsInstance(PatternOf(ps), UrlOf(ps), ArgsOf(ps), strtod)
  {}

  lemma InstanceOf(pattern: string, url: string, args: Params, strtod: Strtod) returns (ps: seq<Piece>)
    requires IsInstance(pattern, url, args, strtod)
    ensures Fits(ps, strtod) && PatternOf(ps) == pattern && UrlOf(ps) == url && ArgsOf(ps) == args
  {
    ps :| Fits(ps, strtod) && PatternOf(ps) == pattern && UrlOf(ps) == url && ArgsOf(ps) == args;
  }

  // ---- Slashes ----

  function Slashes(s: string): nat { if s == "" then 0 else (if s[0] == '/' then 1 else 0) + Slashes(s[1..]) }

  lemma {:induction false} SlashesAppend(a: string, b: string)
    ensures Slashes(a + b) == Slashes(a) + Slashes(b)
  {
    if a == "" {
      assert a + b == b;
    } else {
      assert (a + b)[1..] == a[1..] + b;
      SlashesAppend(a[1..], b);
    }
  }

  lemma {:induction false} NoSlashes(s: string)
    requires '/' !in s
    ensures Slashes(s) == 0
  {
    if s != "" { NoSlashes(s[1..]); }
  }

  /** Of the parameters only a path may hold a slash, and so may what strtod consumes. */
  predicate Segmented(ps: seq<Piece>) {
    forall k :: 0 <= k < |ps| && ps[k].Slot? ==> !ps[k].arg.DoubleArg? && ps[k].name != "<path>"
  }

  /** Without a path a URL has as many slashes as its pattern: no parameter reaches across one. */
  lemma {:induction false} SlashesAgree(ps: seq<Piece>, strtod: Strtod)
    requires Fits(ps, strtod) && Segmented(ps)
    ensures Slashes(UrlOf(ps)) == Slashes(PatternOf(ps))
  {
    if ps != [] {
      var p := ps[0];
      FirstFits(ps, strtod);
      assert forall k :: 0 <= k < |ps[1..]| ==> ps[1..][k] == ps[k + 1];
      SlashesAgree(ps[1..], strtod);
      PiecesJoined(ps);
      if p.Slot? {
        SlotHasNoSlash(p, UrlOf(ps[1..]), strtod);
        NoSlashes(p.name);
        NoSlashes(p.written);
      }
      hide *;
      SlashesAppend(if p.Plain? then [p.c] else p.name, PatternOf(ps[1..]));
      SlashesAppend(if p.Plain? then [p.c] else p.written, UrlOf(ps[1..]));
    }
  }

  lemma SlotHasNoSlash(p: Piece, after: string, strtod: Strtod)
    requires p.Slot? && SlotFits(p.name, p.written, p.arg, after, strtod) && !p.arg.DoubleArg? && p.name != "<path>"
    ensures '/' !in p.name && '/' !in p.written
  {
    match p.arg
    case IntArg(i) => SignedHasNoSlash(p.written);
    case UintArg(u) => SignedHasNoSlash(p.written);
    case TextArg(s) =>
  }

  lemma SignedHasNoSlash(text: string)
    requires text != "" && (text[0] == '+' || text[0] == '-' || IsDigit(text[0])) && AllDigits(text[1..])
    ensures '/' !in text
  {
    forall k | 0 <= k < |text| ensures text[k] != '/' {
      if k > 0 { assert text[k] == text[1..][k - 1]; }
    }
  }

  // ---- What the router answers ----

  /** These are the token lists of patterns, as add makes them. */
  ghost predicate FromPatterns(rules: Rules) { forall ts :: ts in rules ==> exists p: string :: WellFormed(p) && Tokens(p) == ts }

  /**
   * The answer of a search: a rule is found exactly when the URL is some pattern with arguments put in; no such pattern has a
   * smaller index, and the captured parameters are arguments that, put into a pattern of that index, give the URL.
   */
  ghost predicate IsFirstInstance(rules: Rules, url: string, strtod: Strtod, r: Outcome) {
    && (forall p: string, args :: WellFormed(p) && Tokens(p) in rules && IsInstance(p, url, args, strtod)
                                  ==> 0 < r.rule <= rules[Tokens(p)])
    && (r.rule != 0 ==> exists p: string :: WellFormed(p) && Tokens(p) in rules && rules[Tokens(p)] == r.rule
                                            && IsInstance(p, url, r.params, strtod))
  }

  lemma BestIsFirstInstance(rules: Rules, url: string, strtod: Strtod, r: Outcome)
    requires IsBest(rules, url, CrowReader(strtod), r) && FromPatterns(rules)
    ensures IsFirstInstance(rules, url, strtod, r)
  {
    hide WellFormed, Tokens, MatchUrl, IsInstance, CrowReader;
    forall p: string, args | WellFormed(p) && Tokens(p) in rules && IsInstance(p, url, args, strtod)
      ensures 0 < r.rule <= rules[Tokens(p)]
    {
      MatchIsInstance(p, url, args, strtod);
    }
    if r.rule != 0 {
      var ts :| ts in rules && rules[ts] == r.rule && MatchUrl(ts, url, CrowReader(strtod)) == Matched(r.params);
      var p: string :| WellFormed(p) && Tokens(p) == ts;
      MatchIsInstance(p, url, r.params, strtod);
    }
  }
}

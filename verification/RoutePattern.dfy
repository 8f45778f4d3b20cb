/** Route patterns of the crow router and what it means for a URL to match one. */
module RoutePattern {
  import opened Bytes
  import opened Decimals

  /** The captured-parameter kinds, in the order in which the router tries them. */
  datatype ParamType = INT | UINT | DOUBLE | STRING | PATH

  datatype Token = Lit(c: char) | Par(p: ParamType)

  /** What one parameter captured, before it is appended to its list. */
  datatype Capture = IntArg(i: int) | UintArg(u: nat) | DoubleArg(d: real) | TextArg(s: string)

  /** The captured parameters of a URL, grouped by kind. */
  datatype Params = Params(ints: seq<int>, uints: seq<nat>, doubles: seq<real>, strings: seq<string>)
  {
    function Push(a: Capture): Params {
      match a
      case IntArg(i) => this.(ints := ints + [i])
      case UintArg(u) => this.(uints := uints + [u])
      case DoubleArg(d) => this.(doubles := doubles + [d])
      case TextArg(s) => this.(strings := strings + [s])
    }
  }

  const NO_PARAMS := Params([], [], [], [])

  // ---- Pattern text to tokens ----

  const PARAM_NAMES: seq<(string, ParamType)> :=
    [("<int>", INT), ("<uint>", UINT), ("<float>", DOUBLE), ("<double>", DOUBLE),
     ("<str>", STRING), ("<string>", STRING), ("<path>", PATH)]

  /** The first entry of PARAM_NAMES, from entry n on, that stands at position i; |PARAM_NAMES| if none does. */
  function ParamAt(pattern: string, i: nat, n: nat := 0): (r: nat)
    requires n <= |PARAM_NAMES|
    ensures n <= r <= |PARAM_NAMES|
    ensures r < |PARAM_NAMES| ==> OccursAt(pattern, i, PARAM_NAMES[r].0) && |PARAM_NAMES[r].0| > 0
    decreases |PARAM_NAMES| - n
  {
    if n == |PARAM_NAMES| then n
    else if OccursAt(pattern, i, PARAM_NAMES[n].0) then n
    else ParamAt(pattern, i, n + 1)
  }

  /** Every '<' from position i on opens a known parameter. Trie::add never returns on any other pattern. */
  predicate WellFormed(pattern: string, i: nat := 0)
    requires i <= |pattern|
    decreases |pattern| - i
  {
    if i == |pattern| then true
    else if pattern[i] == '<' then
      var n := ParamAt(pattern, i);
      n < |PARAM_NAMES| && WellFormed(pattern, i + |PARAM_NAMES[n].0|)
    else WellFormed(pattern, i + 1)
  }

  /** The token at position i of a pattern and where the next one starts. */
  function NextToken(pattern: string, i: nat): (r: (Token, nat))
    requires i < |pattern| && WellFormed(pattern, i)
    ensures i < r.1 <= |pattern| && WellFormed(pattern, r.1)
  {
    if pattern[i] == '<' then
      var n := ParamAt(pattern, i);
      (Par(PARAM_NAMES[n].1), i + |PARAM_NAMES[n].0|)
    else (Lit(pattern[i]), i + 1)
  }

  function Tokens(pattern: string, i: nat := 0): (r: seq<Token>)
    requires i <= |pattern| && WellFormed(pattern, i)
    decreases |pattern| - i
  {
    if i == |pattern| then [] else
    var (t, next) := NextToken(pattern, i);
    [t] + Tokens(pattern, next)
  }

  lemma NameEnds(n: nat)
    requires n < |PARAM_NAMES|
    ensures var name := PARAM_NAMES[n].0; |name| > 0 && name[|name| - 1] == '>'
  {
    var name := PARAM_NAMES[n].0;
    assert n <= 6;
    if n == 0 || n == 1 {} else if n == 2 || n == 3 {} else {}
  }

  /** A text that ends in '>' stands in a rule just where it stands in the rule without its last slash. */
  lemma OccursInDirectory(rule: string, i: nat, name: string)
    requires |rule| > 0 && rule[|rule| - 1] == '/' && |name| > 0 && name[|name| - 1] == '>'
    ensures OccursAt(rule[..|rule| - 1], i, name) == OccursAt(rule, i, name)
    ensures OccursAt(rule, i, name) ==> i + |name| < |rule|
  {
    var short := rule[..|rule| - 1];
    if OccursAt(rule, i, name) { assert rule[i..i + |name|][|name| - 1] == '>'; }
    if i + |name| <= |short| { assert short[i..i + |name|] == rule[i..i + |name|]; }
  }

  lemma {:induction false} ParamAtInDirectory(rule: string, i: nat, n: nat)
    requires |rule| > 0 && rule[|rule| - 1] == '/' && n <= |PARAM_NAMES|
    ensures ParamAt(rule[..|rule| - 1], i, n) == ParamAt(rule, i, n)
    ensures var r := ParamAt(rule, i, n); r < |PARAM_NAMES| ==> i + |PARAM_NAMES[r].0| < |rule|
    decreases |PARAM_NAMES| - n
  {
    if n < |PARAM_NAMES| {
      NameEnds(n);
      OccursInDirectory(rule, i, PARAM_NAMES[n].0);
      if !OccursAt(rule, i, PARAM_NAMES[n].0) { ParamAtInDirectory(rule, i, n + 1); }
    }
  }

  /** A rule for a directory is its rule without the trailing slash, and then a slash. */
  lemma {:induction false} DirectoryTokens(rule: string, i: nat)
    requires i < |rule| && rule[|rule| - 1] == '/' && WellFormed(rule, i)
    ensures WellFormed(rule[..|rule| - 1], i)
    ensures Tokens(rule, i) == Tokens(rule[..|rule| - 1], i) + [Lit('/')]
    decreases |rule| - i
  {
    var short := rule[..|rule| - 1];
    if i == |short| {
      LastSlash(rule);
    } else {
      var (t, next) := NextToken(rule, i);
      NextInDirectory(rule, i);
      hide ParamAt, WellFormed, NextToken;
      DirectoryTokens(rule, next);
      assert [t] + (Tokens(short, next) + [Lit('/')]) == ([t] + Tokens(short, next)) + [Lit('/')];
    }
  }

  lemma NextInDirectory(rule: string, i: nat)
    requires i + 1 < |rule| && rule[|rule| - 1] == '/' && WellFormed(rule, i)
    ensures var (t, next) := NextToken(rule, i);
            var short := rule[..|rule| - 1];
            && next < |rule| && WellFormed(rule, next)
            && (WellFormed(short, next) ==> WellFormed(short, i) && NextToken(short, i) == (t, next))
  {
    if rule[i] == '<' { ParamAtInDirectory(rule, i, 0); }
    hide ParamAt;
  }

  lemma LastSlash(rule: string)
    requires rule != [] && rule[|rule| - 1] == '/' && WellFormed(rule, |rule| - 1)
    ensures Tokens(rule, |rule| - 1) == Tokens(rule[..|rule| - 1], |rule| - 1) + [Lit('/')]
  {
    hide ParamAt;
    assert Tokens(rule, |rule|) == [];
  }

  // ---- Reading one parameter out of a URL ----

  /** What strtod makes of a text: bytes consumed, the value, and whether it set ERANGE. */
  datatype DoubleScan = DoubleScan(used: nat, value: real, range: bool)

  /** The C library's strtod; it never consumes more than it is given. */
  type Strtod = f: string -> DoubleScan | forall s :: f(s).used <= |s|
    witness (s: string) => DoubleScan(0, 0.0, false)

  datatype Scan = Miss | Hit(end: nat, arg: Capture)

  /** The end of the maximal run of digits that starts at i. */
  function DigitsEnd(url: string, i: nat): (e: nat)
    requires i <= |url|
    ensures i <= e <= |url|
    ensures forall k :: i <= k < e ==> IsDigit(url[k])
    ensures e < |url| ==> !IsDigit(url[e])
    decreases |url| - i
  {
    if i < |url| && IsDigit(url[i]) then DigitsEnd(url, i + 1) else i
  }

  /** The end of the path segment that starts at i. */
  function SegmentEnd(url: string, i: nat): (e: nat)
    requires i <= |url|
    ensures i <= e <= |url|
    ensures forall k :: i <= k < e ==> url[k] != '/'
    ensures e < |url| ==> url[e] == '/'
    decreases |url| - i
  {
    if i < |url| && url[i] != '/' then SegmentEnd(url, i + 1) else i
  }

  const INT64_MIN: int := -0x8000_0000_0000_0000
  const INT64_MAX: int := 0x7FFF_FFFF_FFFF_FFFF
  const UINT64_MAX: int := 0xFFFF_FFFF_FFFF_FFFF

  lemma SliceOfDigits(url: string, i: nat, e: nat)
    requires i <= e <= |url| && forall k :: i <= k < e ==> IsDigit(url[k])
    ensures AllDigits(url[i..e])
  {}

  /** How a parameter of kind p reads the URL from position pos. */
  function ReadParam(p: ParamType, url: string, pos: nat, strtod: Strtod): (r: Scan)
    requires pos < |url|
    ensures r.Hit? ==> pos < r.end <= |url|
    ensures r.Hit? ==> match p
                       case INT => r.arg.IntArg?
                       case UINT => r.arg.UintArg?
                       case DOUBLE => r.arg.DoubleArg?
                       case _ => r.arg.TextArg?
  {
    var c := url[pos];
    match p
    case INT =>
      if !(IsDigit(c) || c == '+' || c == '-') then Miss else
      var first := if IsDigit(c) then pos else pos + 1;
      var end := DigitsEnd(url, first);
      if end == first then Miss else
      SliceOfDigits(url, first, end);
      var magnitude: int := Value(url[first..end]);
      var value: int := if c == '-' then -magnitude else magnitude;
      if INT64_MIN <= value <= INT64_MAX then Hit(end, IntArg(value)) else Miss
    case UINT =>
      if !(IsDigit(c) || c == '+') then Miss else
      var first := if IsDigit(c) then pos else pos + 1;
      var end := DigitsEnd(url, first);
      if end == first then Miss else
      SliceOfDigits(url, first, end);
      var value := Value(url[first..end]);
      if value <= UINT64_MAX then Hit(end, UintArg(value)) else Miss
    case DOUBLE =>
      if !(IsDigit(c) || c == '+' || c == '-' || c == '.') then Miss else
      var scan := strtod(url[pos..]);
      if scan.range || scan.used == 0 then Miss else Hit(pos + scan.used, DoubleArg(scan.value))
    case STRING =>
      var end := SegmentEnd(url, pos);
      if end == pos then Miss else Hit(end, TextArg(url[pos..end]))
    case PATH =>
      Hit(|url|, TextArg(url[pos..]))
  }

  /** Any way of reading parameters that moves forward inside the URL. */
  type Reader = f: (ParamType, string, nat) -> Scan |
      forall p: ParamType, url: string, pos: nat :: f(p, url, pos).Hit? ==> pos < f(p, url, pos).end <= |url|
    witness (p: ParamType, url: string, pos: nat) => Miss

  /** The router's own reader. */
  function CrowReader(strtod: Strtod): Reader {
    var f := (p: ParamType, url: string, pos: nat) => if pos < |url| then ReadParam(p, url, pos, strtod) else Miss;
    assert forall p: ParamType, url: string, pos: nat :: f(p, url, pos).Hit? ==> pos < f(p, url, pos).end <= |url|;
    f
  }

  // ---- Matching a whole URL ----

  datatype Match = NoMatch | Matched(params: Params)

  /** The reference meaning of a pattern: consume the URL from pos to its end, token by token. */
  function MatchFrom(tokens: seq<Token>, url: string, pos: nat, params: Params, read: Reader): Match
    requires pos <= |url|
    decreases |tokens|
  {
    if tokens == [] then
      if pos == |url| then Matched(params) else NoMatch
    else if pos == |url| then NoMatch
    else
      match tokens[0]
      case Lit(c) =>
        if url[pos] == c then MatchFrom(tokens[1..], url, pos + 1, params, read) else NoMatch
      case Par(p) =>
        match read(p, url, pos)
        case Miss => NoMatch
        case Hit(end, arg) => MatchFrom(tokens[1..], url, end, params.Push(arg), read)
  }

  function MatchUrl(tokens: seq<Token>, url: string, read: Reader): Match {
    MatchFrom(tokens, url, 0, NO_PARAMS, read)
  }
}

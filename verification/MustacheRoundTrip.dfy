/** Written templates: what a document of texts, values and sections is as a body, and that compiling the body gives it back. */
module MustacheRoundTrip {
  import opened Bytes
  import opened Options
  import opened MustacheTemplate
  import opened MustacheContext
  import opened MustacheMeaning
  import opened MustacheLayout
  import opened MustacheLines
  import opened MustacheDocs
  import opened MustacheRender

  // ---- Documents that survive being written down ------------------------------------------------------

  ghost predicate NoneIn(s: string, part: string) { forall i {:trigger OccursAt(s, i, part)} :: 0 <= i ==> !OccursAt(s, i, part) }

  /** A text followed by a tag: its end must not lengthen the opening braces. */
  ghost predicate TextFits(s: string) { NoneIn(s, "{{") && (s != "" ==> s[|s| - 1] != '{') }

  ghost predicate NameFits(s: string) {
    && s != "" && NoneIn(s, "}}") && s[|s| - 1] != '}' && s[0] != ' ' && s[|s| - 1] != ' '
  }

  ghost predicate Printable(d: Doc) {
    match d
    case Text(text) => NoneIn(text, "{{")
    case Value(text, escaped, name, rest) =>
      TextFits(text) && NameFits(name) && (escaped ==> name[0] !in "#/^!>{&=") && Printable(rest)
    case Section(text, inverted, name, inside, rest) =>
      TextFits(text) && NameFits(name) && Printable(inside) && TextFits(LastText(inside)) && Printable(rest)
  }

  function LastText(d: Doc): string { if d.Text? then d.text else LastText(d.rest) }

  // ---- A document as a list of tags -------------------------------------------------------------------

  datatype Token = Token(text: string, kind: Kind, name: string)

  function Tokens(d: Doc): seq<Token> {
    match d
    case Text(_) => []
    case Value(text, escaped, name, rest) => [Token(text, if escaped then Tag else UnescapeTag, name)] + Tokens(rest)
    case Section(text, inverted, name, inside, rest) =>
      [Token(text, if inverted then ElseBlock else OpenBlock, name)] + Tokens(inside)
      + [Token(LastText(inside), CloseBlock, name)] + Tokens(rest)
  }

  function Unparse(ts: seq<Token>, last: string): string {
    if ts == [] then last
    else ts[0].text + WriteTag(ts[0].kind, ts[0].name, Unparse(ts[1..], last))
  }

  ghost predicate TokenFits(t: Token) {
    && TextFits(t.text) && NameFits(t.name) && !t.kind.Ignore? && !t.kind.Partial?
    && (t.kind.Tag? ==> t.name[0] !in "#/^!>{&=")
  }

  ghost predicate TokensFit(ts: seq<Token>) { forall k :: 0 <= k < |ts| ==> TokenFits(ts[k]) }

  lemma {:induction false} TokensOfPrintable(d: Doc)
    requires Printable(d)
    ensures TokensFit(Tokens(d)) && NoneIn(LastText(d), "{{")
  {
    match d
    case Text(_) =>
    case Value(text, escaped, name, rest) => TokensOfPrintable(rest);
    case Section(text, inverted, name, inside, rest) =>
      TokensOfPrintable(inside);
      TokensOfPrintable(rest);
  }

  lemma {:induction false} UnparseAppend(a: seq<Token>, b: seq<Token>, last: string)
    ensures Unparse(a + b, last) == Unparse(a, Unparse(b, last))
  {
    if a == [] {
      assert a + b == b;
    } else {
      assert (a + b)[1..] == a[1..] + b;
      UnparseAppend(a[1..], b, last);
    }
  }

  lemma WriteTagAppend(text: string, kind: Kind, name: string, after: string, more: string)
    ensures text + WriteTag(kind, name, after) + more == text + WriteTag(kind, name, after + more)
  {
    assert "}}" + after + more == "}}" + (after + more);
    var x := "}}" + after;
    assert name + x + more == name + (x + more);
    var y := name + x;
    assert Sigil(kind) + y + more == Sigil(kind) + (y + more);
    var z := Sigil(kind) + y;
    assert "{{" + z + more == "{{" + (z + more);
    assert text + ("{{" + z) + more == text + ("{{" + z + more);
  }

  lemma UnparseCons(t: Token, ts: seq<Token>, last: string)
    ensures Unparse([t] + ts, last) == t.text + WriteTag(t.kind, t.name, Unparse(ts, last))
  {
    assert ([t] + ts)[1..] == ts;
  }

  lemma {:induction false} PrintIsUnparse(d: Doc, after: string)
    ensures Unparse(Tokens(d), LastText(d) + after) == Print(d) + after
  {
    hide Unparse, WriteTag;
    var last := LastText(d) + after;
    match d
    case Text(_) =>
      assert Unparse([], last) == last by { UnparseNil(last); }
    case Value(text, escaped, name, rest) =>
      PrintIsUnparse(rest, after);
      UnparseCons(Tokens(d)[0], Tokens(rest), last);
      WriteTagAppend(text, Tokens(d)[0].kind, name, Print(rest), after);
    case Section(text, inverted, name, inside, rest) =>
      PrintIsUnparse(rest, after);
      PrintIsUnparse(inside, WriteTag(CloseBlock, name, Print(rest)) + after);
      PrintSection(d, after);
  }

  lemma PrintSection(d: Doc, after: string)
    requires d.Section? && Unparse(Tokens(d.rest), LastText(d.rest) + after) == Print(d.rest) + after
    requires var end := WriteTag(CloseBlock, d.name, Print(d.rest)) + after;
             Unparse(Tokens(d.inside), LastText(d.inside) + end) == Print(d.inside) + end
    ensures Unparse(Tokens(d), LastText(d) + after) == Print(d) + after
  {
    hide Unparse, WriteTag;
    var opening, closing := Opening(d), Closing(d);
    var last, tail := LastText(d) + after, WriteTag(CloseBlock, d.name, Print(d.rest));
    PrintEnd(closing, Tokens(d.rest), last, Print(d.rest), after);
    SectionTokens(d);
    UnparseAppend(Tokens(d.inside), [closing] + Tokens(d.rest), last);
    UnparseCons(opening, Tokens(d.inside) + ([closing] + Tokens(d.rest)), last);
    assert Print(d.inside) + tail + after == Print(d.inside) + (tail + after);
    WriteTagAppend(d.text, opening.kind, d.name, Print(d.inside) + tail, after);
  }

  lemma PrintEnd(t: Token, ts: seq<Token>, last: string, printed: string, after: string)
    requires Unparse(ts, last) == printed + after
    ensures Unparse([t] + ts, last) == t.text + (WriteTag(t.kind, t.name, printed) + after)
  {
    hide *;
    UnparseCons(t, ts, last);
    WriteTagAppend("", t.kind, t.name, printed, after);
    assert "" + WriteTag(t.kind, t.name, printed) == WriteTag(t.kind, t.name, printed);
    assert "" + WriteTag(t.kind, t.name, printed + after) == WriteTag(t.kind, t.name, printed + after);
  }

  lemma UnparseNil(last: string)
    ensures Unparse([], last) == last
  {}

  // ---- Scanning the printed document ------------------------------------------------------------------

  /** The compiled tags from index b on are these tokens. */
  predicate Matches(c: Compiled, b: nat, ts: seq<Token>)
    requires Fits(c.body, c.fragments, c.actions)
  {
    b + |ts| <= |c.actions| &&
    forall k {:trigger ts[k]} :: 0 <= k < |ts| ==> c.actions[b + k].kind == ts[k].kind && TagName(c.body, c.actions[b + k]) == ts[k].name
  }

  /** The literals from index b on are the texts of these tokens. */
  predicate Spells(c: Compiled, b: nat, ts: seq<Token>)
    requires Fits(c.body, c.fragments, c.actions)
  {
    b + |ts| <= |c.fragments| && forall k {:trigger ts[k]} :: 0 <= k < |ts| ==> c.Literal(b + k) == ts[k].text
  }

  lemma FindAfter(body: string, from: nat, text: string, part: string)
    requires from + |text| + 2 <= |body| && |part| == 2 && part[0] == part[1]
    requires body[from..from + |text|] == text && body[from + |text|..from + |text| + 2] == part
    requires NoneIn(text, part) && (text != "" ==> text[|text| - 1] != part[0])
    ensures Find(body, part, from) == from + |text|
  {
    assert forall k :: 0 <= k < |text| ==> body[from + k] == text[k];
    forall i | from <= i < from + |text| ensures !OccursAt(body, i, part) {
      TwoAt(body, i, part);
      if i + 1 < from + |text| {
        assert !OccursAt(text, i - from, part);
        TwoAt(text, i - from, part);
      }
    }
    assert OccursAt(body, from + |text|, part);
  }

  lemma TwoAt(s: string, i: nat, part: string)
    requires |part| == 2 && i + 2 <= |s|
    ensures OccursAt(s, i, part) <==> s[i] == part[0] && s[i + 1] == part[1]
  {
    assert s[i..i + 2] == [s[i], s[i + 1]] && part == [part[0], part[1]];
  }

  lemma FindNone(body: string, from: nat, part: string)
    requires from <= |body| && NoneIn(body[from..], part)
    ensures Find(body, part, from) == -1
  {
    forall i {:trigger OccursAt(body, i, part)} | from <= i ensures !OccursAt(body, i, part) {
      assert !OccursAt(body[from..], i - from, part);
      SliceOfRest(body, from, i, i + |part|);
    }
  }

  lemma SliceOfRest(body: string, from: nat, i: nat, j: nat)
    requires from <= i <= j
    ensures j <= |body| ==> body[from..][i - from..j - from] == body[i..j]
  {}

  lemma TrimsNothing(body: string, start: nat, end: nat)
    requires start < end <= |body| && body[start] != ' ' && body[end - 1] != ' '
    ensures AfterSpaces(body, start) == start && BeforeSpaces(body, end) == end
  {}

  lemma Cut(body: string, from: nat, part: string, rest: string)
    requires from <= |body| && body[from..] == part + rest
    ensures from + |part| <= |body| && body[from..from + |part|] == part && body[from + |part|..] == rest
  {
    assert body[from..][..|part|] == part;
    assert body[from..][|part|..] == body[from + |part|..];
  }

  /** Where the parts of a written tag are. */
  lemma TagParts(body: string, from: nat, t: Token, tail: string)
    requires from <= |body| && body[from..] == t.text + WriteTag(t.kind, t.name, tail)
    ensures var at := from + |t.text|; var start := at + 2 + |Sigil(t.kind)|; var end := start + |t.name|;
            && end + 2 + |tail| == |body|
            && body[from..at] == t.text && body[at..at + 2] == "{{" && body[at + 2..start] == Sigil(t.kind)
            && body[start..end] == t.name && body[end..end + 2] == "}}" && body[end + 2..] == tail
  {
    TagOpens(body, from, t.text, Sigil(t.kind) + (t.name + ("}}" + tail)));
    TagCloses(body, from + |t.text| + 2, Sigil(t.kind), t.name, tail);
    hide *;
  }

  lemma TagOpens(body: string, from: nat, text: string, rest: string)
    requires from <= |body| && body[from..] == text + ("{{" + rest)
    ensures var at := from + |text|;
            at + 2 <= |body| && body[from..at] == text && body[at..at + 2] == "{{" && body[at + 2..] == rest
  {
    Cut(body, from, text, "{{" + rest);
    Cut(body, from + |text|, "{{", rest);
  }

  lemma TagCloses(body: string, from: nat, sigil: string, name: string, tail: string)
    requires from <= |body| && body[from..] == sigil + (name + ("}}" + tail))
    ensures var start := from + |sigil|; var end := start + |name|;
            && end + 2 + |tail| == |body| && body[from..start] == sigil
            && body[start..end] == name && body[end..end + 2] == "}}" && body[end + 2..] == tail
  {
    Cut(body, from, sigil, name + ("}}" + tail));
    Cut(body, from + |sigil|, name, "}}" + tail);
    Cut(body, from + |sigil| + |name|, "}}", tail);
  }

  lemma SigilHasNoBrace(kind: Kind)
    ensures forall i :: 0 <= i < |Sigil(kind)| ==> Sigil(kind)[i] != '}'
  {}

  lemma NameWithSigil(t: Token)
    requires TokenFits(t)
    ensures var s := Sigil(t.kind) + t.name; NoneIn(s, "}}") && s[|s| - 1] != '}' && s != ""
  {
    SigilHasNoBrace(t.kind);
    hide Sigil;
    var s := Sigil(t.kind) + t.name;
    var n := |Sigil(t.kind)|;
    forall i {:trigger OccursAt(s, i, "}}")} | 0 <= i ensures !OccursAt(s, i, "}}") {
      if i + 2 <= |s| {
        if i >= n {
          assert !OccursAt(t.name, i - n, "}}");
          assert s[i..i + 2] == t.name[i - n..i - n + 2];
        } else {
          assert s[i..i + 2][0] == s[i] != '}';
        }
      }
    }
  }

  /** The two delimiters of a written tag are found where they were written. */
  lemma FindsTag(body: string, from: nat, t: Token, tail: string)
    requires from <= |body| && TokenFits(t)
    requires body[from..] == t.text + WriteTag(t.kind, t.name, tail)
    ensures var at := from + |t.text|; var end := at + 2 + |Sigil(t.kind)| + |t.name|;
            end + 2 <= |body| && Find(body, "{{", from) == at && Find(body, "}}", at + 2) == end
  {
    hide Sigil, WriteTag, NoneIn, Find;
    TagParts(body, from, t, tail);
    FindAfter(body, from, t.text, "{{");
    FindsTagEnd(body, from + |t.text| + 2, t);
  }

  lemma FindsTagEnd(body: string, from: nat, t: Token)
    requires var start := from + |Sigil(t.kind)|; var end := start + |t.name|;
             && end + 2 <= |body| && body[from..start] == Sigil(t.kind) && body[start..end] == t.name && body[end..end + 2] == "}}"
    requires TokenFits(t)
    ensures Find(body, "}}", from) == from + |Sigil(t.kind)| + |t.name|
  {
    hide *;
    var start := from + |Sigil(t.kind)|;
    var end := start + |t.name|;
    NameWithSigil(t);
    assert body[from..end] == body[from..start] + body[start..end];
    FindAfter(body, from, Sigil(t.kind) + t.name, "}}");
  }

  lemma ReadsOne(body: string, from: nat, t: Token, tail: string)
    requires from <= |body| && TokenFits(t)
    requires body[from..] == t.text + WriteTag(t.kind, t.name, tail)
    ensures var at := from + |t.text|; var start := at + 2 + |Sigil(t.kind)|; var end := start + |t.name|;
            && end + 2 <= |body| && body[from..at] == t.text && body[start..end] == t.name && body[end + 2..] == tail
            && ReadTag(body, from, "{{", "}}") == Found(at, Action(t.kind, start, end, 0), end + 2, "{{", "}}")
  {
    hide WriteTag, NoneIn, Find, AfterSpaces, BeforeSpaces, ReadDelimiters, ReadContent;
    TagParts(body, from, t, tail);
    FindsTag(body, from, t, tail);
    ReadsContent(body, from + |t.text|, t);
  }

  lemma ReadsContent(body: string, at: nat, t: Token)
    requires TokenFits(t)
    requires var start := at + 2 + |Sigil(t.kind)|; var end := start + |t.name|;
             end + 2 <= |body| && body[at + 2..start] == Sigil(t.kind) && body[start..end] == t.name
    ensures var start := at + 2 + |Sigil(t.kind)|; var end := start + |t.name|;
            ReadContent(body, at, at + 2, end, "{{", "}}") == Found(at, Action(t.kind, start, end, 0), end + 2, "{{", "}}")
  {
    hide NoneIn, AfterSpaces, BeforeSpaces, ReadDelimiters;
    var start := at + 2 + |Sigil(t.kind)|;
    var end := start + |t.name|;
    assert body[start..end][0] == body[start] && body[start..end][|t.name| - 1] == body[end - 1];
    TrimsNothing(body, start, end);
    assert Sigil(t.kind) != "" ==> body[at + 2..start][0] == body[at + 2];
  }

  /** A scan that found exactly these tokens. */
  predicate ReadsAll(body: string, scan: Scan, ts: seq<Token>, last: string) {
    && Fits(body, scan.fragments, scan.tags) && scan.ok && |scan.tags| == |ts| + 1
    && (var c := Compiled(body, scan.fragments, scan.tags);
        Matches(c, 0, ts) && Spells(c, 0, ts) && scan.tags[|ts|] == Action(Ignore, 0, 0, 0) && c.Literal(|ts|) == last)
  }

  /** Every token is read back: its kind, its name and the text before it. */
  lemma {:induction false} ScanReads(body: string, from: nat, ts: seq<Token>, last: string)
    requires from <= |body| && body[from..] == Unparse(ts, last) && TokensFit(ts) && NoneIn(last, "{{")
    ensures ReadsAll(body, ScanFrom(body, from, "{{", "}}"), ts, last)
    decreases |ts|
  {
    hide *;
    if ts == [] {
      UnparseNil(last);
      FindNone(body, from, "{{");
      ReadsLast(body, from);
    } else {
      var t, tail := ts[0], Unparse(ts[1..], last);
      assert [t] + ts[1..] == ts;
      UnparseCons(t, ts[1..], last);
      assert TokenFits(t) && TokensFit(ts[1..]) by { FitsEach(ts); }
      ReadsOne(body, from, t, tail);
      var next := from + |t.text| + 4 + |Sigil(t.kind)| + |t.name|;
      ScanReads(body, next, ts[1..], last);
      ScanOneMore(body, from, t, ts[1..], last, next);
    }
  }

  lemma FitsEach(ts: seq<Token>)
    requires TokensFit(ts) && ts != []
    ensures TokenFits(ts[0]) && TokensFit(ts[1..])
  {}

  lemma ScanOneMore(body: string, from: nat, t: Token, ts: seq<Token>, last: string, next: nat)
    requires from <= |body| && next <= |body| && ReadsAll(body, ScanFrom(body, next, "{{", "}}"), ts, last)
    requires var at := from + |t.text|; var start := at + 2 + |Sigil(t.kind)|; var end := start + |t.name|;
             && next == end + 2 && body[from..at] == t.text && body[start..end] == t.name
             && ReadTag(body, from, "{{", "}}") == Found(at, Action(t.kind, start, end, 0), end + 2, "{{", "}}")
    ensures ReadsAll(body, ScanFrom(body, from, "{{", "}}"), [t] + ts, last)
  {
    hide ReadTag, Matches, Spells, Sigil;
    var rest := ScanFrom(body, next, "{{", "}}");
    var start := from + |t.text| + 2 + |Sigil(t.kind)|;
    var action := Action(t.kind, start, start + |t.name|, 0);
    var fragment := Fragment(from, from + |t.text|);
    assert ScanFrom(body, from, "{{", "}}") == Scan([fragment] + rest.fragments, [action] + rest.tags, rest.ok);
    OneMore(body, fragment, action, rest, t, ts);
    var c := Compiled(body, [fragment] + rest.fragments, [action] + rest.tags);
    assert c.fragments[|ts| + 1] == rest.fragments[|ts|];
    assert c.Literal(|ts| + 1) == Compiled(body, rest.fragments, rest.tags).Literal(|ts|);
  }

  lemma ReadsLast(body: string, from: nat)
    requires from <= |body| && Find(body, "{{", from) == -1
    ensures ReadsAll(body, ScanFrom(body, from, "{{", "}}"), [], body[from..])
  {
    assert ReadTag(body, from, "{{", "}}").Last?;
  }

  lemma OneMore(body: string, fragment: Fragment, action: Action, rest: Scan, t: Token, ts: seq<Token>)
    requires Fits(body, rest.fragments, rest.tags) && |rest.tags| == |ts| + 1
    requires var d := Compiled(body, rest.fragments, rest.tags); Matches(d, 0, ts) && Spells(d, 0, ts)
    requires fragment.first <= fragment.second <= |body| && ActionFits(body, action)
    requires action.kind == t.kind && TagName(body, action) == t.name && body[fragment.first..fragment.second] == t.text
    ensures var c := Compiled(body, [fragment] + rest.fragments, [action] + rest.tags);
            && c.Valid() && Matches(c, 0, [t] + ts) && Spells(c, 0, [t] + ts)
  {
    var c := Compiled(body, [fragment] + rest.fragments, [action] + rest.tags);
    var d := Compiled(body, rest.fragments, rest.tags);
    var all := [t] + ts;
    forall k {:trigger all[k]} | 0 <= k < |all|
      ensures c.actions[k].kind == all[k].kind && TagName(body, c.actions[k]) == all[k].name && c.Literal(k) == all[k].text
    {
      if k > 0 {
        assert all[k] == ts[k - 1];
        assert c.actions[k] == d.actions[0 + (k - 1)] && c.Literal(k) == d.Literal(0 + (k - 1));
      }
    }
  }

  // ---- The nesting of the printed document --------------------------------------------------------------

  lemma MatchesSplit(c: Compiled, b: nat, x: seq<Token>, y: seq<Token>)
    requires c.Valid() && Matches(c, b, x + y)
    ensures Matches(c, b, x) && Matches(c, b + |x|, y)
  {
    forall k {:trigger x[k]} | 0 <= k < |x|
      ensures c.actions[b + k].kind == x[k].kind && TagName(c.body, c.actions[b + k]) == x[k].name
    {
      assert (x + y)[k] == x[k];
    }
    forall k {:trigger y[k]} | 0 <= k < |y|
      ensures c.actions[b + |x| + k].kind == y[k].kind && TagName(c.body, c.actions[b + |x| + k]) == y[k].name
    {
      assert (x + y)[|x| + k] == y[k] && b + (|x| + k) == b + |x| + k;
    }
  }

  function Opening(d: Doc): Token
    requires d.Section?
  {
    Token(d.text, if d.inverted then ElseBlock else OpenBlock, d.name)
  }

  function Closing(d: Doc): Token
    requires d.Section?
  {
    Token(LastText(d.inside), CloseBlock, d.name)
  }

  lemma MatchesFour(c: Compiled, b: nat, open: Token, x: seq<Token>, close: Token, y: seq<Token>)
    requires c.Valid() && Matches(c, b, [open] + (x + ([close] + y)))
    ensures b + |x| + |y| + 2 <= |c.actions| && Matches(c, b + 1, x) && Matches(c, b + 2 + |x|, y)
    ensures c.actions[b].kind == open.kind && TagName(c.body, c.actions[b]) == open.name
    ensures var k := b + 1 + |x|; c.actions[k].kind == close.kind && TagName(c.body, c.actions[k]) == close.name
  {
    assert b + |[open] + (x + ([close] + y))| <= |c.actions|;
    hide Matches, TagName;
    MatchesSplit(c, b, [open], x + ([close] + y));
    MatchesSplit(c, b + 1, x, [close] + y);
    MatchesSplit(c, b + 1 + |x|, [close], y);
    MatchesFirst(c, b, open);
    MatchesFirst(c, b + 1 + |x|, close);
  }

  lemma SectionTokens(d: Doc)
    requires d.Section?
    ensures Tokens(d) == [Opening(d)] + (Tokens(d.inside) + ([Closing(d)] + Tokens(d.rest)))
  {}

  lemma MatchesFirst(c: Compiled, b: nat, t: Token)
    requires c.Valid() && Matches(c, b, [t])
    ensures b < |c.actions| && c.actions[b].kind == t.kind && TagName(c.body, c.actions[b]) == t.name
  {
    assert [t][0] == t;
    assert c.actions[b + 0].kind == t.kind;
  }

  lemma ValueParts(c: Compiled, d: Doc, b: nat)
    requires c.Valid() && d.Value? && Matches(c, b, Tokens(d))
    ensures b < |c.actions| && c.actions[b].kind == (if d.escaped then Tag else UnescapeTag)
    ensures TagName(c.body, c.actions[b]) == d.name && Matches(c, b + 1, Tokens(d.rest))
    ensures |Tokens(d)| == |Tokens(d.rest)| + 1
  {
    var first := Tokens(d)[0];
    MatchesSplit(c, b, [first], Tokens(d.rest));
    assert [first][0] == first;
    assert c.actions[b + 0].kind == first.kind;
  }

  lemma BlockOpens(c: Compiled, b: nat, at: seq<nat>)
    requires c.Valid() && b < |c.actions| && BlocksAfter(c.body, c.actions, b) == Pending(at) && IsOpen(c.actions[b])
    ensures BlocksAfter(c.body, c.actions, b + 1) == Pending(at + [b])
  {}

  lemma NoBlock(c: Compiled, b: nat, at: seq<nat>)
    requires c.Valid() && b < |c.actions| && BlocksAfter(c.body, c.actions, b) == Pending(at)
    requires !IsOpen(c.actions[b]) && !c.actions[b].kind.CloseBlock?
    ensures BlocksAfter(c.body, c.actions, b + 1) == Pending(at)
  {}

  lemma BlockCloses(c: Compiled, open: nat, b: nat, at: seq<nat>)
    requires c.Valid() && open < b < |c.actions| && BlocksAfter(c.body, c.actions, b) == Pending(at + [open])
    requires c.actions[b].kind.CloseBlock? && TagName(c.body, c.actions[b]) == TagName(c.body, c.actions[open])
    ensures BlocksAfter(c.body, c.actions, b + 1) == Pending(at)
  {
    assert (at + [open])[..|at|] == at;
  }

  /** Every section of the document is closed by its own end. */
  lemma {:induction false} SectionsClose(c: Compiled, d: Doc, b: nat, at: seq<nat>)
    requires c.Valid() && Matches(c, b, Tokens(d)) && BlocksAfter(c.body, c.actions, b) == Pending(at)
    ensures b + |Tokens(d)| <= |c.actions| && BlocksAfter(c.body, c.actions, b + |Tokens(d)|) == Pending(at)
    decreases d
  {
    hide BlocksAfter, TagName;
    match d
    case Text(_) =>
    case Value(text, escaped, name, rest) =>
      hide Tokens, Matches;
      ValueParts(c, d, b);
      NoBlock(c, b, at);
      SectionsClose(c, rest, b + 1, at);
    case Section(text, inverted, name, inside, rest) =>
      SectionTokens(d);
      hide Tokens, Matches;
      MatchesFour(c, b, Opening(d), Tokens(inside), Closing(d), Tokens(rest));
      BlockOpens(c, b, at);
      SectionsClose(c, inside, b + 1, at + [b]);
      BlockCloses(c, b, b + 1 + |Tokens(inside)|, at);
      SectionsClose(c, rest, b + 2 + |Tokens(inside)|, at);
  }

  lemma FirstIsLeaf(c: Compiled, f: Forest, b: nat, e: nat)
    requires c.Valid() && Covers(c.body, c.actions, f, b, e) && b < e
    requires !IsOpen(c.actions[b]) && !c.actions[b].kind.CloseBlock?
    ensures f.Leaf? && f.at == b && Covers(c.body, c.actions, f.rest, b + 1, e)
  {}

  lemma FirstIsBlock(c: Compiled, f: Forest, b: nat, e: nat)
    requires c.Valid() && Covers(c.body, c.actions, f, b, e) && b < e && IsOpen(c.actions[b])
    ensures f.Block? && f.open == b && b < f.close < e && c.actions[f.close].kind.CloseBlock?
    ensures Covers(c.body, c.actions, f.inside, b + 1, f.close) && Covers(c.body, c.actions, f.rest, f.close + 1, e)
  {}

  lemma NothingBeforeClose(c: Compiled, f: Forest, b: nat, e: nat)
    requires c.Valid() && Covers(c.body, c.actions, f, b, e) && b < |c.actions| && c.actions[b].kind.CloseBlock?
    ensures b == e
  {
    CoversBounds(c.body, c.actions, f, b, e);
  }

  /** A closing tag that ends a nesting right after the document's tags is the first one that can. */
  lemma {:induction false} SectionEnd(c: Compiled, d: Doc, f: Forest, b: nat, e: nat)
    requires c.Valid() && Matches(c, b, Tokens(d)) && Covers(c.body, c.actions, f, b, e)
    requires b + |Tokens(d)| < |c.actions| && c.actions[b + |Tokens(d)|].kind.CloseBlock?
    requires e < |c.actions| && c.actions[e].kind.CloseBlock?
    ensures e == b + |Tokens(d)|
    decreases d
  {
    hide Matches, Covers, TagName;
    CoversBounds(c.body, c.actions, f, b, e);
    match d
    case Text(_) =>
      NothingBeforeClose(c, f, b, e);
    case Value(text, escaped, name, rest) =>
      hide Tokens;
      ValueParts(c, d, b);
      FirstIsLeaf(c, f, b, e);
      SectionEnd(c, rest, f.rest, b + 1, e);
    case Section(text, inverted, name, inside, rest) =>
      SectionTokens(d);
      hide Tokens;
      MatchesFour(c, b, Opening(d), Tokens(inside), Closing(d), Tokens(rest));
      FirstIsBlock(c, f, b, e);
      SectionEnd(c, inside, f.inside, b + 1, f.close);
      SectionEnd(c, rest, f.rest, f.close + 1, e);
  }

  /** The document with the literal texts a compiled template has kept. */
  function Retext(c: Compiled, d: Doc, b: nat): Doc
    requires Fits(c.body, c.fragments, c.actions) && b + |Tokens(d)| < |c.fragments|
    decreases d
  {
    match d
    case Text(_) => Text(c.Literal(b))
    case Value(_, escaped, name, rest) => Value(c.Literal(b), escaped, name, Retext(c, rest, b + 1))
    case Section(_, inverted, name, inside, rest) =>
      Section(c.Literal(b), inverted, name, Retext(c, inside, b + 1), Retext(c, rest, b + 2 + |Tokens(inside)|))
  }

  lemma SectionSays(c: Compiled, d: Doc, b: nat, stack: seq<Json>)
    requires c.Valid() && stack != [] && d.Section? && b + |Tokens(d)| < |c.fragments|
    requires c.actions[b].kind == Opening(d).kind && TagName(c.body, c.actions[b]) == d.name
    ensures b + 2 + |Tokens(d.inside)| + |Tokens(d.rest)| == b + |Tokens(d)|
    ensures Says(Retext(c, d, b), stack)
            == Join(Join(Some(c.Literal(b)), SaysEach(Retext(c, d.inside, b + 1), stack, c.Contexts(b, stack))),
                    Says(Retext(c, d.rest, b + 2 + |Tokens(d.inside)|), stack))
  {
    SectionTokens(d);
    hide SaysEach, Compiled.Literal, TagName, Meaning, SectionContexts, InvertedContexts, Tokens;
  }

  /** What the compiled actions denote is what the document says. */
  lemma {:induction false} DenotesDoc(c: Compiled, d: Doc, f: Forest, b: nat, stack: seq<Json>)
    requires c.Valid() && stack != [] && b + |Tokens(d)| < |c.actions|
    requires Matches(c, b, Tokens(d)) && Covers(c.body, c.actions, f, b, b + |Tokens(d)|)
    ensures c.Denote(f, b, b + |Tokens(d)|, stack) == Says(Retext(c, d, b), stack)
    decreases d, 0, 0
  {
    hide Matches, Covers, TagName, Compiled.Literal, Compiled.DenoteEach, SaysEach, Meaning;
    var e := b + |Tokens(d)|;
    match d
    case Text(_) =>
      CoversBounds(c.body, c.actions, f, b, e);
      hide Meaning, Join;
    case Value(text, escaped, name, rest) =>
      ValueParts(c, d, b);
      hide Tokens, Compiled.Denote, Says, Retext, Join;
      FirstIsLeaf(c, f, b, e);
      DenotesDoc(c, rest, f.rest, b + 1, stack);
      ValueDenotes(c, d, f, b, e, stack);
    case Section(text, inverted, name, inside, rest) =>
      hide *;
      SectionPlaces(c, d, f, b);
      DenotesEach(c, inside, f.inside, b + 1, stack, c.Contexts(b, stack));
      DenotesDoc(c, rest, f.rest, f.close + 1, stack);
      BlockBounds(c, f, b, e);
      BlockText(c, f, b, e, stack);
      SectionSays(c, d, b, stack);
  }

  /** Where the parts of a section are. */
  lemma SectionPlaces(c: Compiled, d: Doc, f: Forest, b: nat)
    requires c.Valid() && d.Section? && b + |Tokens(d)| < |c.actions| && Matches(c, b, Tokens(d))
    requires Covers(c.body, c.actions, f, b, b + |Tokens(d)|)
    ensures Fits(c.body, c.fragments, c.actions) && |c.fragments| == |c.actions|
    ensures |Tokens(d)| == |Tokens(d.inside)| + |Tokens(d.rest)| + 2
    ensures f.Block? && f.close == b + 1 + |Tokens(d.inside)|
    ensures c.actions[b].kind == Opening(d).kind && TagName(c.body, c.actions[b]) == d.name
    ensures Matches(c, b + 1, Tokens(d.inside)) && Covers(c.body, c.actions, f.inside, b + 1, f.close)
    ensures Matches(c, f.close + 1, Tokens(d.rest)) && Covers(c.body, c.actions, f.rest, f.close + 1, b + |Tokens(d)|)
  {
    hide Matches, Covers, TagName, Tokens;
    SectionTokens(d);
    MatchesFour(c, b, Opening(d), Tokens(d.inside), Closing(d), Tokens(d.rest));
    hide Fits;
    FirstIsBlock(c, f, b, b + |Tokens(d)|);
    SectionEnd(c, d.inside, f.inside, b + 1, f.close);
  }

  lemma ValueDenotes(c: Compiled, d: Doc, f: Forest, b: nat, e: nat, stack: seq<Json>)
    requires c.Valid() && stack != [] && d.Value? && f.Leaf? && e == b + |Tokens(d)| < |c.actions| && |Tokens(d)| == |Tokens(d.rest)| + 1
    requires Covers(c.body, c.actions, f, b, e) && Covers(c.body, c.actions, f.rest, b + 1, e)
    requires c.actions[b].kind == (if d.escaped then Tag else UnescapeTag) && TagName(c.body, c.actions[b]) == d.name
    requires c.Denote(f.rest, b + 1, e, stack) == Says(Retext(c, d.rest, b + 1), stack)
    ensures c.Denote(f, b, e, stack) == Says(Retext(c, d, b), stack)
  {
    hide TagName, Compiled.Literal, Meaning, Tokens;
    assert c.Written(b, stack) == Shown(Meaning(d.name, stack), d.escaped);
  }

  lemma {:induction false} DenotesEach(c: Compiled, d: Doc, f: Forest, b: nat, stack: seq<Json>, contexts: seq<Json>)
    requires c.Valid() && stack != [] && b + |Tokens(d)| < |c.actions|
    requires Matches(c, b, Tokens(d)) && Covers(c.body, c.actions, f, b, b + |Tokens(d)|)
    ensures c.DenoteEach(f, b, b + |Tokens(d)|, stack, contexts) == SaysEach(Retext(c, d, b), stack, contexts)
    decreases d, 1, |contexts|
  {
    hide Matches, Says, Retext, Covers;
    if contexts != [] {
      var n := |contexts| - 1;
      DenotesEach(c, d, f, b, stack, contexts[..n]);
      DenotesDoc(c, d, f, b, stack + [contexts[n]]);
    }
  }

  lemma SpellsSplit(c: Compiled, b: nat, x: seq<Token>, y: seq<Token>)
    requires c.Valid() && Spells(c, b, x + y)
    ensures Spells(c, b, x) && Spells(c, b + |x|, y)
  {
    forall k {:trigger x[k]} | 0 <= k < |x| ensures c.Literal(b + k) == x[k].text {
      assert (x + y)[k] == x[k];
    }
    forall k {:trigger y[k]} | 0 <= k < |y| ensures c.Literal(b + |x| + k) == y[k].text {
      assert (x + y)[|x| + k] == y[k] && b + (|x| + k) == b + |x| + k;
    }
  }

  lemma ValueSpells(c: Compiled, d: Doc, b: nat)
    requires c.Valid() && d.Value? && Spells(c, b, Tokens(d))
    ensures b < |c.fragments| && c.Literal(b) == d.text && Spells(c, b + 1, Tokens(d.rest))
    ensures |Tokens(d)| == |Tokens(d.rest)| + 1
  {
    hide Spells;
    var first := Tokens(d)[0];
    assert Tokens(d) == [first] + Tokens(d.rest);
    SpellsFirst(c, b, Tokens(d));
    SpellsSplit(c, b, [first], Tokens(d.rest));
  }

  lemma SpellsFour(c: Compiled, b: nat, open: Token, x: seq<Token>, close: Token, y: seq<Token>)
    requires c.Valid() && Spells(c, b, [open] + (x + ([close] + y)))
    ensures b + |x| + |y| + 2 <= |c.fragments|
    ensures c.Literal(b) == open.text && Spells(c, b + 1, x)
    ensures c.Literal(b + 1 + |x|) == close.text && Spells(c, b + 2 + |x|, y)
  {
    hide Compiled.Literal;
    SpellsSplit(c, b, [open], x + ([close] + y));
    SpellsSplit(c, b + 1, x, [close] + y);
    SpellsSplit(c, b + 1 + |x|, [close], y);
    SpellsOne(c, b, open);
    SpellsOne(c, b + 1 + |x|, close);
    assert b + |[open] + (x + ([close] + y))| <= |c.fragments|;
  }

  /** With all its texts kept, the document is the one written. */
  lemma {:induction false} SameTexts(c: Compiled, d: Doc, b: nat)
    requires c.Valid() && b + |Tokens(d)| < |c.fragments|
    requires Spells(c, b, Tokens(d)) && c.Literal(b + |Tokens(d)|) == LastText(d)
    ensures Retext(c, d, b) == d
    decreases d
  {
    hide Spells, Compiled.Literal;
    match d
    case Text(_) =>
    case Value(text, escaped, name, rest) =>
      ValueSpells(c, d, b);
      hide Tokens;
      SameTexts(c, rest, b + 1);
    case Section(text, inverted, name, inside, rest) =>
      SectionTokens(d);
      hide Tokens;
      SpellsFour(c, b, Opening(d), Tokens(inside), Closing(d), Tokens(rest));
      SameTexts(c, inside, b + 1);
      SameTexts(c, rest, b + 2 + |Tokens(inside)|);
  }

  lemma SpellsOne(c: Compiled, b: nat, t: Token)
    requires c.Valid() && Spells(c, b, [t])
    ensures b < |c.fragments| && c.Literal(b) == t.text
  {
    SpellsFirst(c, b, [t]);
  }

  lemma SpellsFirst(c: Compiled, b: nat, ts: seq<Token>)
    requires c.Valid() && Spells(c, b, ts) && ts != []
    ensures b < |c.fragments| && c.Literal(b) == ts[0].text
  {
    assert c.Literal(b + 0) == ts[0].text;
  }

  // ---- From the document to the page --------------------------------------------------------------------

  lemma PrintIsScanned(d: Doc)
    requires Printable(d)
    ensures Print(d)[0..] == Print(d) && ReadsAll(Print(d), ScanFrom(Print(d), 0, "{{", "}}"), Tokens(d), LastText(d))
  {
    hide *;
    TokensOfPrintable(d);
    PrintIsUnparse(d, "");
    assert Print(d) + "" == Print(d) && LastText(d) + "" == LastText(d);
    assert Print(d)[0..] == Print(d);
    ScanReads(Print(d), 0, Tokens(d), LastText(d));
  }

  /** Compiling a written document succeeds, and every section of it is closed. */
  lemma PrintedCompiles(d: Doc) returns (scan: Scan)
    requires Printable(d)
    ensures scan == ScanFrom(Print(d), 0, "{{", "}}") && ReadsAll(Print(d), scan, Tokens(d), LastText(d))
    ensures BlocksAfter(Print(d), scan.tags, |scan.tags|) == Pending([])
  {
    hide Printable, Print, Tokens, LastText, ScanFrom, BlocksAfter, Matches, Spells;
    PrintIsScanned(d);
    scan := ScanFrom(Print(d), 0, "{{", "}}");
    var c := Compiled(Print(d), scan.fragments, scan.tags);
    NothingPendingYet(c);
    SectionsClose(c, d, 0, []);
    LastTagKeeps(c, |Tokens(d)|);
  }

  lemma NothingPendingYet(c: Compiled)
    requires c.Valid()
    ensures BlocksAfter(c.body, c.actions, 0) == Pending([])
  {}

  lemma LastTagKeeps(c: Compiled, n: nat)
    requires c.Valid() && n < |c.actions| && c.actions[n] == Action(Ignore, 0, 0, 0)
    requires BlocksAfter(c.body, c.actions, n) == Pending([])
    ensures BlocksAfter(c.body, c.actions, n + 1) == Pending([])
  {}

  lemma TextsKept(d: Doc, scan: Scan, wide: Compiled)
    requires ReadsAll(Print(d), scan, Tokens(d), LastText(d))
    requires wide.Valid() && wide.body == Print(d) && wide.fragments == scan.fragments
    ensures |wide.fragments| == |Tokens(d)| + 1 && Retext(wide, d, 0) == d
  {
    hide Retext, Print, Tokens, LastText;
    TextsSpelled(d, scan, wide);
    hide Spells;
    SameTexts(wide, d, 0);
  }

  lemma TextsSpelled(d: Doc, scan: Scan, wide: Compiled)
    requires ReadsAll(Print(d), scan, Tokens(d), LastText(d))
    requires wide.Valid() && wide.body == Print(d) && wide.fragments == scan.fragments
    ensures |wide.fragments| == |Tokens(d)| + 1 && Spells(wide, 0, Tokens(d)) && wide.Literal(|Tokens(d)|) == LastText(d)
  {
    hide Print, Tokens, LastText;
    var c := Compiled(Print(d), scan.fragments, scan.tags);
    forall k | 0 <= k < |scan.fragments| ensures wide.Literal(k) == c.Literal(k) {}
    assert forall k {:trigger Tokens(d)[k]} :: 0 <= k < |Tokens(d)| ==> c.Literal(0 + k) == Tokens(d)[k].text;
  }

  lemma TagKept(d: Doc, scan: Scan, wide: Compiled, c: Compiled, k: nat)
    requires ReadsAll(Print(d), scan, Tokens(d), LastText(d)) && TokensFit(Tokens(d))
    requires wide.Valid() && c.Valid() && wide.body == Print(d) && Narrows(wide, c)
    requires Compiles(wide.body, wide.actions, scan.tags, []) && k < |c.actions|
    ensures |c.actions| == |Tokens(d)| + 1 && !c.actions[k].kind.Partial?
    ensures k < |Tokens(d)| ==> c.actions[k].kind == Tokens(d)[k].kind && TagName(c.body, c.actions[k]) == Tokens(d)[k].name
  {
    hide Print, Tokens, LastText, TextFits, NameFits, Spells, Nested;
    var ts := Tokens(d);
    var w := Compiled(Print(d), scan.fragments, scan.tags);
    assert SameTag(wide.actions[k], c.actions[k]);
    if k < |ts| {
      assert TokenFits(ts[k]);
      assert w.actions[0 + k].kind == ts[k].kind && TagName(w.body, w.actions[0 + k]) == ts[k].name;
    }
  }

  lemma TagsKept(d: Doc, scan: Scan, wide: Compiled, c: Compiled)
    requires Printable(d) && ReadsAll(Print(d), scan, Tokens(d), LastText(d))
    requires wide.Valid() && c.Valid() && wide.body == Print(d) && Narrows(wide, c)
    requires Compiles(wide.body, wide.actions, scan.tags, [])
    ensures |c.actions| == |Tokens(d)| + 1 && Matches(c, 0, Tokens(d)) && NoPartials(c.actions)
  {
    hide Print, Tokens, LastText, Printable, TokensFit, ReadsAll, Compiles, Narrows;
    TokensOfPrintable(d);
    var ts := Tokens(d);
    assert |c.actions| == |ts| + 1 by { SameCount(d, scan, wide, c); }
    forall k | 0 <= k < |c.actions|
      ensures !c.actions[k].kind.Partial?
      ensures k < |ts| ==> c.actions[k].kind == ts[k].kind && TagName(c.body, c.actions[k]) == ts[k].name
    {
      TagKept(d, scan, wide, c, k);
    }
  }

  lemma ScanIsOk(body: string, scan: Scan, ts: seq<Token>, last: string)
    requires ReadsAll(body, scan, ts, last)
    ensures scan.ok && |scan.tags| == |ts| + 1
  {}

  lemma SameCount(d: Doc, scan: Scan, wide: Compiled, c: Compiled)
    requires ReadsAll(Print(d), scan, Tokens(d), LastText(d)) && wide.Valid() && c.Valid() && Narrows(wide, c)
    requires Compiles(wide.body, wide.actions, scan.tags, [])
    ensures |c.actions| == |Tokens(d)| + 1
  {
    hide Print, Tokens, LastText;
  }

  /**
   * crow::mustache::compile and render on a written document: the page is what the document says, with the texts left
   * after the lines of standalone tags are dropped. Without such lines it is what the document says as written.
   */
  method CompileAndRender(d: Doc, context: Json) returns (page: Option<string>, t: Template, ghost wide: Compiled)
    requires Printable(d)
    ensures fresh(t) && t.Value().Valid() && wide.Valid() && Narrows(wide, t.Value()) && |t.actions| == |Tokens(d)| + 1
    ensures t.body == Source(d) && page == PageOf(Retext(t.Value(), d, 0), [context])
    ensures LinesDropped(wide, t.Value()) && |wide.actions| == |t.actions| && Retext(wide, d, 0) == d
  {
    PrintIsSource(d);
    hide Printable, Print, Tokens, LastText, ScanFrom, BlocksAfter, Compiles, Narrows, TrimFrom, Retext, Matches, NoPartials, Says;
    ghost var scan := PrintedCompiles(d);
    ScanIsOk(Print(d), scan, Tokens(d), LastText(d));
    hide ReadsAll;
    t := new Template(Print(d));
    var outcome, unclosed;
    outcome, unclosed, wide := t.Parse();
    TextsKept(d, scan, wide);
    TagsKept(d, scan, wide, t.Value());
    ghost var f :| Nested(t.body, t.actions, f);
    page := t.Render(context);
    DenotesDoc(t.Value(), d, f, 0, [context]);
    SaysIsPage(Retext(t.Value(), d, 0), [context]);
    PassDropsLines(wide);
  }
}

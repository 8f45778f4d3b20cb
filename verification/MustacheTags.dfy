/** The tags of the syntax as authors write them, with spaces around names, and what is read from each. */
module MustacheTags {
  import opened Bytes
  import opened MustacheTemplate
  import opened MustacheMeaning
  import opened MustacheRoundTrip

  function Spaces(n: nat): string { seq(n, _ => ' ') }

  /** What can stand between "{{" and "}}". */
  ghost predicate ContentFits(content: string) { content != "" && NoneIn(content, "}}") && content[|content| - 1] != '}' }

  /** The mark of each kind of tag with a name. */
  const MARKS: seq<(string, Kind)> :=
    [("", Tag), ("&", UnescapeTag), ("#", OpenBlock), ("^", ElseBlock), ("/", CloseBlock), (">", Partial)]

  predicate NameStands(name: string) { name != "" && name[0] != ' ' && name[|name| - 1] != ' ' }

  /** Where the parts of a tag are found. */
  lemma TagPlaces(body: string, from: nat, text: string, content: string, tail: string)
    requires from <= |body| && body[from..] == text + ("{{" + (content + ("}}" + tail)))
    requires TextFits(text) && ContentFits(content)
    ensures var at := from + |text|; var end := at + 2 + |content|;
            && end + 2 <= |body| && body[from..at] == text && body[at + 2..end] == content && body[end..end + 2] == "}}"
            && body[end + 2..] == tail
            && ReadTag(body, from, "{{", "}}") == ReadContent(body, at, at + 2, end, "{{", "}}")
  {
    hide NoneIn, Find, ReadContent, AfterSpaces, BeforeSpaces, ReadDelimiters;
    var at := from + |text|;
    TagOpens(body, from, text, content + ("}}" + tail));
    Cut(body, at + 2, content, "}}" + tail);
    var end := at + 2 + |content|;
    Cut(body, end, "}}", tail);
    FindAfter(body, from, text, "{{");
    FindAfter(body, at + 2, content, "}}");
  }

  lemma SpacesEnd(body: string, i: nat, left: nat)
    requires i + left < |body| && body[i..i + left] == Spaces(left) && body[i + left] != ' '
    ensures AfterSpaces(body, i) == i + left
  {
    forall k | i <= k < i + left ensures body[k] == ' ' { assert body[k] == body[i..i + left][k - i]; }
    var r := AfterSpaces(body, i);
    hide AfterSpaces;
  }

  lemma SpacesStart(body: string, e: nat, right: nat)
    requires right < e <= |body| && body[e - right..e] == Spaces(right) && body[e - right - 1] != ' '
    ensures BeforeSpaces(body, e) == e - right
  {
    forall k | e - right <= k < e ensures body[k] == ' ' { assert body[k] == body[e - right..e][k - (e - right)]; }
    var r := BeforeSpaces(body, e);
    hide BeforeSpaces;
  }

  lemma ThreePieces(body: string, i: nat, end: nat, a: string, b: string, c: string)
    requires i <= end <= |body| && body[i..end] == a + b + c
    ensures var s, e := i + |a|, i + |a| + |b|;
            s <= e <= end && e + |c| == end && body[i..s] == a && body[s..e] == b && body[e..end] == c
  {
    var all := a + b + c;
    var s, e := i + |a|, i + |a| + |b|;
    assert end - i == |all|;
    assert all[..|a|] == a && all[|a|..|a| + |b|] == b && all[|a| + |b|..] == c;
    Within(body, i, end, 0, |a|);
    Within(body, i, end, |a|, |a| + |b|);
    Within(body, i, end, |a| + |b|, |all|);
  }

  lemma Within(body: string, i: nat, end: nat, a: nat, b: nat)
    requires i <= end <= |body| && a <= b <= end - i
    ensures body[i..end][a..b] == body[i + a..i + b]
  {
    var x, y := body[i..end][a..b], body[i + a..i + b];
    forall k | 0 <= k < b - a ensures x[k] == y[k] { assert x[k] == body[i..end][a + k]; }
  }

  lemma Ends(body: string, s: nat, e: nat, part: string)
    requires s < e <= |body| && body[s..e] == part
    ensures |part| == e - s && body[s] == part[0] && body[e - 1] == part[|part| - 1]
  {}

  /** The name between its spaces. */
  lemma NameIsTrimmed(body: string, i: nat, end: nat, left: nat, name: string, right: nat, kind: Kind)
    requires i <= end <= |body| && body[i..end] == Spaces(left) + name + Spaces(right) && NameStands(name)
    ensures TagName(body, Trimmed(body, kind, i, end)) == name
  {
    hide AfterSpaces, BeforeSpaces;
    ThreePieces(body, i, end, Spaces(left), name, Spaces(right));
    Ends(body, i + left, i + left + |name|, name);
    SpacesEnd(body, i, left);
    SpacesStart(body, end, right);
  }

  predicate IsNoMark(c: char) { c !in "#/^!>{&=" }

  /** The content of a tag with this mark, with spaces before and after its name. */
  ghost predicate Names(content: string, mark: string, left: nat, name: string, right: nat) {
    && content == mark + (Spaces(left) + name + Spaces(right)) && ContentFits(content) && NameStands(name)
    && (mark == "" && left == 0 ==> IsNoMark(name[0]))
  }

  /** A tag of any kind, with spaces before and after its name. */
  lemma TagIsRead(body: string, from: nat, text: string, content: string, mark: string, kind: Kind, left: nat, name: string, right: nat,
                  tail: string)
    requires from <= |body| && (mark, kind) in MARKS && Names(content, mark, left, name, right)
    requires body[from..] == text + ("{{" + (content + ("}}" + tail))) && TextFits(text)
    ensures var r := ReadTag(body, from, "{{", "}}");
            && r.Found? && body[from..r.at] == text && r.action.kind == kind && TagName(body, r.action) == name
            && body[r.next..] == tail && r.open == "{{" && r.close == "}}"
  {
    hide *;
    ContentIsFit(content, mark, left, name, right);
    TagPlaces(body, from, text, content, tail);
    NamedIsRead(body, from + |text|, from + |text| + 2 + |content|, content, mark, kind, left, name, right);
  }

  lemma ContentIsFit(content: string, mark: string, left: nat, name: string, right: nat)
    requires Names(content, mark, left, name, right)
    ensures ContentFits(content) && content != ""
  {}

  lemma NamedIsRead(body: string, at: nat, end: nat, content: string, mark: string, kind: Kind, left: nat, name: string, right: nat)
    requires (mark, kind) in MARKS && at + 2 < end && end + 2 <= |body| && body[at + 2..end] == content
    requires Names(content, mark, left, name, right)
    ensures var r := ReadContent(body, at, at + 2, end, "{{", "}}");
            && r.Found? && r.at == at && r.action.kind == kind && TagName(body, r.action) == name
            && r.next == end + 2 && r.open == "{{" && r.close == "}}"
  {
    hide *;
    NamesFacts(content, mark, left, name, right);
    ContentStarts(body, at + 2, end, mark, Spaces(left) + name + Spaces(right));
    NameIsTrimmed(body, at + 2 + |mark|, end, left, name, right, kind);
    MarkIsRead(body, at, end, mark, kind);
    TrimmedIs(body, kind, at + 2 + |mark|, end);
  }

  lemma NamesFacts(content: string, mark: string, left: nat, name: string, right: nat)
    requires Names(content, mark, left, name, right)
    ensures var inside := Spaces(left) + name + Spaces(right);
            content == mark + inside && content != "" && NameStands(name) && inside != "" && (mark == "" ==> IsNoMark(inside[0]))
  {
    FirstInside(left, name, right);
  }

  lemma FirstInside(left: nat, name: string, right: nat)
    requires name != ""
    ensures var inside := Spaces(left) + name + Spaces(right); inside != "" && inside[0] == if left > 0 then ' ' else name[0]
  {}

  lemma MarkIsRead(body: string, at: nat, end: nat, mark: string, kind: Kind)
    requires (mark, kind) in MARKS && at + 2 + |mark| <= end && at + 2 < end && end + 2 <= |body|
    requires if mark == "" then IsNoMark(body[at + 2]) else body[at + 2] == mark[0]
    ensures ReadContent(body, at, at + 2, end, "{{", "}}") == Found(at, Trimmed(body, kind, at + 2 + |mark|, end), end + 2, "{{", "}}")
  {
    assert MARKS[0] == ("", Tag) && MARKS[1] == ("&", UnescapeTag) && MARKS[2] == ("#", OpenBlock);
    assert MARKS[3] == ("^", ElseBlock) && MARKS[4] == ("/", CloseBlock) && MARKS[5] == (">", Partial);
    hide AfterSpaces, BeforeSpaces, ReadDelimiters, Find, Trimmed;
  }

  lemma TrimmedIs(body: string, kind: Kind, i: nat, end: nat)
    requires i <= |body| && end <= |body|
    ensures Trimmed(body, kind, i, end).kind == kind
  {}

  lemma ContentStarts(body: string, i: nat, end: nat, mark: string, inside: string)
    requires i <= end <= |body| && body[i..end] == mark + inside && mark + inside != ""
    ensures |mark + inside| == end - i && body[i + |mark|..end] == inside && body[i] == if mark != "" then mark[0] else inside[0]
  {
    assert mark + inside + "" == mark + inside;
    ThreePieces(body, i, end, mark, inside, "");
    Ends(body, i, end, mark + inside);
  }

  /** A value that is not escaped, in three braces. */
  lemma TripleIsRead(body: string, from: nat, text: string, left: nat, name: string, right: nat, tail: string)
    requires from <= |body|
    requires var content := "{" + (Spaces(left) + name + Spaces(right));
             body[from..] == text + ("{{" + (content + ("}}" + ("}" + tail)))) && TextFits(text) && ContentFits(content)
    requires NameStands(name)
    ensures var r := ReadTag(body, from, "{{", "}}");
            && r.Found? && body[from..r.at] == text && r.action.kind == UnescapeTag && TagName(body, r.action) == name
            && body[r.next..] == tail && r.open == "{{" && r.close == "}}"
  {
    hide *;
    var inside := Spaces(left) + name + Spaces(right);
    var content := "{" + inside;
    var at := from + |text|;
    var end := at + 2 + |content|;
    TagPlaces(body, from, text, content, "}" + tail);
    Cut(body, end + 2, "}", tail);
    ContentStarts(body, at + 2, end, "{", inside);
    NameIsTrimmed(body, at + 3, end, left, name, right, UnescapeTag);
    Ends(body, end + 2, end + 3, "}");
    TripleMark(body, at, end);
    TrimmedIs(body, UnescapeTag, at + 3, end);
  }

  lemma TripleMark(body: string, at: nat, end: nat)
    requires at + 3 <= end && end + 2 < |body| && body[at + 2] == '{' && body[end + 2] == '}'
    ensures ReadContent(body, at, at + 2, end, "{{", "}}") == Found(at, Trimmed(body, UnescapeTag, at + 3, end), end + 3, "{{", "}}")
  {
    hide AfterSpaces, BeforeSpaces, ReadDelimiters, Find, Trimmed;
  }

  /** A comment, whatever it says. */
  lemma CommentIsRead(body: string, from: nat, text: string, comment: string, tail: string)
    requires from <= |body|
    requires body[from..] == text + ("{{" + (("!" + comment) + ("}}" + tail))) && TextFits(text) && ContentFits("!" + comment)
    ensures var r := ReadTag(body, from, "{{", "}}");
            && r.Found? && body[from..r.at] == text && r.action.kind == Ignore
            && body[r.next..] == tail && r.open == "{{" && r.close == "}}"
  {
    var content := "!" + comment;
    var at := from + |text|;
    TagPlaces(body, from, text, content, tail);
    hide ReadTag, NoneIn, ContentFits, TextFits, AfterSpaces, BeforeSpaces, ReadDelimiters, Find;
    assert body[at + 2] == content[0] == '!';
  }

  predicate IsDelimiter(s: string) { s != "" && ' ' !in s }

  /** New delimiters, with spaces around and between them. */
  lemma DelimitersAreRead(body: string, from: nat, text: string, left: nat, open: string, between: nat, close: string, right: nat, tail: string)
    requires from <= |body| && IsDelimiter(open) && IsDelimiter(close) && between > 0
    requires var content := "=" + (Spaces(left) + (open + Spaces(between) + close) + Spaces(right)) + "=";
             body[from..] == text + ("{{" + (content + ("}}" + tail))) && TextFits(text) && ContentFits(content)
    ensures var r := ReadTag(body, from, "{{", "}}");
            && r.Found? && body[from..r.at] == text && r.action.kind == Ignore
            && body[r.next..] == tail && r.open == open && r.close == close
  {
    hide *;
    var inside := Spaces(left) + (open + Spaces(between) + close) + Spaces(right);
    var content := "=" + inside + "=";
    var at := from + |text|;
    var end := at + 2 + |content|;
    TagPlaces(body, from, text, content, tail);
    ThreePieces(body, at + 2, end, "=", inside, "=");
    Ends(body, at + 2, end, content);
    PairIsRead(body, at + 3, end, left, open, between, close, right);
    PairMark(body, at, end);
  }

  lemma PairMark(body: string, at: nat, end: nat)
    requires at + 3 < end && end + 2 <= |body| && body[at + 2] == '='
    ensures ReadDelimiters(body, at + 3, end).Pair? ==>
              var pair := ReadDelimiters(body, at + 3, end);
              ReadContent(body, at, at + 2, end, "{{", "}}") == Found(at, Action(Ignore, at + 3, end, 0), end + 2, pair.open, pair.close)
  {
    hide AfterSpaces, BeforeSpaces, ReadDelimiters, Find, Trimmed;
  }

  lemma PairIsRead(body: string, i: nat, end: nat, left: nat, open: string, between: nat, close: string, right: nat)
    requires 2 <= i < end <= |body| && body[end - 1] == '=' && IsDelimiter(open) && IsDelimiter(close) && between > 0
    requires body[i..end - 1] == Spaces(left) + (open + Spaces(between) + close) + Spaces(right)
    ensures ReadDelimiters(body, i, end) == Pair(open, close)
  {
    hide *;
    var pair := open + Spaces(between) + close;
    var s, e := i + left, i + left + |pair|;
    SpacesLength(left);
    ThreePieces(body, i, end - 1, Spaces(left), pair, Spaces(right));
    PairEnds(open, between, close);
    Ends(body, s, e, pair);
    SpacesLength(right);
    SpacesEnd(body, i, left);
    SpacesStart(body, end - 1, right);
    PairParts(body, s, e, open, between, close);
    ReadsPair(body, i, end, s, e, s + |open|, s + |open| + between);
  }

  lemma SpacesLength(n: nat)
    ensures |Spaces(n)| == n
  {}

  lemma ReadsPair(body: string, i: nat, end: nat, s: nat, e: nat, m: nat, n: nat)
    requires 2 <= i < end <= |body| && body[end - 1] == '=' && i <= s < m < n < e <= end - 1
    requires AfterSpaces(body, i) == s && BeforeSpaces(body, end - 1) == e && Find(body, " ", s) == m && AfterSpaces(body, m) == n
    requires ' ' !in body[n..e]
    ensures ReadDelimiters(body, i, end) == Pair(body[s..m], body[n..e])
  {
    hide AfterSpaces, BeforeSpaces, Find;
  }

  lemma PairEnds(open: string, between: nat, close: string)
    requires IsDelimiter(open) && IsDelimiter(close)
    ensures var pair := open + Spaces(between) + close; pair != "" && pair[0] != ' ' && pair[|pair| - 1] != ' '
  {
    var pair := open + Spaces(between) + close;
    assert pair[0] == open[0] && open[0] in open;
    assert pair[|pair| - 1] == close[|close| - 1] && close[|close| - 1] in close;
  }

  lemma PairParts(body: string, s: nat, e: nat, open: string, between: nat, close: string)
    requires s < e <= |body| && body[s..e] == open + Spaces(between) + close && IsDelimiter(open) && IsDelimiter(close) && between > 0
    ensures s < s + |open| < s + |open| + between < e
    ensures Find(body, " ", s) == s + |open| && AfterSpaces(body, s + |open|) == s + |open| + between
    ensures body[s..s + |open|] == open && body[s + |open| + between..e] == close && ' ' !in body[s + |open| + between..e]
  {
    hide AfterSpaces, Find;
    var m, n := s + |open|, s + |open| + between;
    ThreePieces(body, s, e, open, Spaces(between), close);
    Ends(body, n, e, close);
    Ends(body, m, n, Spaces(between));
    assert close[0] in close;
    SpacesEnd(body, m, between);
    FirstSpace(body, s, m);
  }

  lemma FirstSpace(body: string, s: nat, m: nat)
    requires s <= m < |body| && ' ' !in body[s..m] && body[m] == ' '
    ensures Find(body, " ", s) == m
  {
    forall k | s <= k < m ensures !OccursAt(body, k, " ") {
      assert body[k] == body[s..m][k - s] && body[s..m][k - s] in body[s..m];
      assert body[k..k + 1] == [body[k]];
    }
    assert body[m..m + 1] == [body[m]];
    assert OccursAt(body, m, " ");
  }
}

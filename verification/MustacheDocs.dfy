/** Documents: how an author writes a template, and the page it stands for in a context. */
module MustacheDocs {
  import opened Bytes
  import opened Options
  import opened MustacheTemplate
  import opened MustacheContext
  import opened MustacheMeaning

  /** A template as its author thinks of it: each part with the text before it. */
  datatype Doc =
    | Text(text: string)
    | Value(text: string, escaped: bool, name: string, rest: Doc)
    | Section(text: string, inverted: bool, name: string, inside: Doc, rest: Doc)

  function Print(d: Doc): string {
    match d
    case Text(text) => text
    case Value(text, escaped, name, rest) => text + WriteTag(if escaped then Tag else UnescapeTag, name, Print(rest))
    case Section(text, inverted, name, inside, rest) =>
      text + WriteTag(if inverted then ElseBlock else OpenBlock, name,
                      Print(inside) + WriteTag(CloseBlock, name, Print(rest)))
  }

  function WriteTag(kind: Kind, name: string, after: string): string {
    "{{" + (Sigil(kind) + (name + ("}}" + after)))
  }

  function Sigil(kind: Kind): string {
    match kind
    case OpenBlock => "#"
    case CloseBlock => "/"
    case ElseBlock => "^"
    case Partial => ">"
    case UnescapeTag => "&"
    case Ignore => "!"
    case Tag => ""
  }

  /** What the document says in nested contexts, without indices, positions or a stack machine. */
  function Says(d: Doc, stack: seq<Json>): Option<string>
    requires stack != []
    decreases d, 0, 0
  {
    match d
    case Text(text) => Some(text)
    case Value(text, escaped, name, rest) => Join(Join(Some(text), Shown(Meaning(name, stack), escaped)), Says(rest, stack))
    case Section(text, inverted, name, inside, rest) =>
      var found := Meaning(name, stack);
      Join(Join(Some(text), SaysEach(inside, stack, if inverted then InvertedContexts(found) else SectionContexts(found))),
           Says(rest, stack))
  }

  function SaysEach(d: Doc, stack: seq<Json>, contexts: seq<Json>): Option<string>
    requires stack != []
    decreases d, 1, |contexts|
  {
    if contexts == [] then Some("")
    else Join(SaysEach(d, stack, contexts[..|contexts| - 1]), Says(d, stack + [contexts[|contexts| - 1]]))
  }

  function Shown(found: Option<Json>, escaped: bool): Option<string> {
    match found
    case None => Some("")
    case Some(Number(dumped)) => Some(dumped)
    case Some(String(text)) => Some(if escaped then EscapeHtml(text) else text)
    case Some(_) => None
  }

  // ---- As an author writes it -----------------------------------------------------------------------------------------------

  /** {{name}}, {{&name}}, {{#name}}...{{/name}} and {{^name}}...{{/name}}. */
  function Source(d: Doc): string {
    match d
    case Text(text) => text
    case Value(text, escaped, name, rest) => text + ((if escaped then "{{" else "{{&") + name + "}}" + Source(rest))
    case Section(text, inverted, name, inside, rest) =>
      text + ((if inverted then "{{^" else "{{#") + name + "}}" + (Source(inside) + ("{{/" + name + "}}" + Source(rest))))
  }

  lemma TagIs(kind: Kind, name: string, after: string)
    ensures kind.Tag? ==> WriteTag(kind, name, after) == "{{" + name + "}}" + after
    ensures kind.UnescapeTag? ==> WriteTag(kind, name, after) == "{{&" + name + "}}" + after
    ensures kind.OpenBlock? ==> WriteTag(kind, name, after) == "{{#" + name + "}}" + after
    ensures kind.ElseBlock? ==> WriteTag(kind, name, after) == "{{^" + name + "}}" + after
    ensures kind.CloseBlock? ==> WriteTag(kind, name, after) == "{{/" + name + "}}" + after
  {
    var sigil := Sigil(kind);
    assert "{{" + (sigil + (name + ("}}" + after))) == ("{{" + sigil) + name + "}}" + after;
    assert "{{" + "" == "{{" && "{{" + "&" == "{{&" && "{{" + "#" == "{{#" && "{{" + "^" == "{{^" && "{{" + "/" == "{{/";
  }

  lemma {:induction false} PrintIsSource(d: Doc)
    ensures Print(d) == Source(d)
  {
    hide WriteTag;
    match d
    case Text(_) =>
    case Value(text, escaped, name, rest) =>
      PrintIsSource(rest);
      TagIs(if escaped then Tag else UnescapeTag, name, Print(rest));
    case Section(text, inverted, name, inside, rest) =>
      PrintIsSource(inside);
      PrintIsSource(rest);
      TagIs(CloseBlock, name, Print(rest));
      TagIs(if inverted then ElseBlock else OpenBlock, name, Print(inside) + WriteTag(CloseBlock, name, Print(rest)));
  }

  // ---- Names ------------------------------------------------------------------------------------------------------------------

  /** From an object, field by field along the pieces of a dotted name, to a value. */
  ghost predicate Leads(ctx: Json, name: string, v: Json)
    decreases |name|
  {
    && ctx.Object?
    && (|| ('.' !in name && name in ctx.fields && ctx.fields[name] == v)
        || exists k :: 0 <= k < |name| && IsFirstDot(name, k) && name[..k] in ctx.fields && Leads(ctx.fields[name[..k]], name[k + 1..], v))
  }

  predicate IsFirstDot(name: string, k: nat) { k < |name| && name[k] == '.' && '.' !in name[..k] }

  /** A dot is the innermost context; any other name is a value that the innermost context with all of its path has. */
  ghost predicate IsMeant(name: string, stack: seq<Json>, v: Json)
    requires stack != []
  {
    if name == "." then v == stack[|stack| - 1]
    else exists i :: 0 <= i < |stack| && Leads(stack[i], name, v) && forall j :: i < j < |stack| ==> NoPath(stack[j], name)
  }

  ghost predicate NoPath(ctx: Json, name: string) { forall v :: !Leads(ctx, name, v) }

  lemma {:induction false} LeadsIff(ctx: Json, name: string, from: nat, v: Json)
    requires from <= |name|
    ensures Resolve(ctx, PiecesFrom(name, from)) == Some(v) <==> Leads(ctx, name[from..], v)
    decreases |name| - from
  {
    var tail := name[from..];
    FirstDot(name, from);
    var dot := Find(name, ".", from);
    hide Find;
    if dot == -1 {
      LastPiece(ctx, name, from, v);
    } else if ctx.Object? && name[from..dot] in ctx.fields {
      LeadsIff(ctx.fields[name[from..dot]], name, dot + 1, v);
      PieceStep(ctx, name, from, dot, v);
    } else {
      PieceStep(ctx, name, from, dot, v);
    }
  }

  lemma FirstDot(name: string, from: nat)
    requires from <= |name|
    ensures var dot := Find(name, ".", from);
            if dot == -1 then '.' !in name[from..]
            else from <= dot < |name| && IsFirstDot(name[from..], dot - from) && name[from..][..dot - from] == name[from..dot]
                 && name[from..][dot - from + 1..] == name[dot + 1..]
  {
    var dot := Find(name, ".", from);
    if dot == -1 {
      NoDot(name, from, |name|);
      assert name[from..] == name[from..|name|];
    } else {
      NoDot(name, from, dot);
      assert name[dot..dot + 1] == ".";
    }
  }

  lemma LastPiece(ctx: Json, name: string, from: nat, v: Json)
    requires from <= |name| && Find(name, ".", from) == -1 && '.' !in name[from..]
    ensures Resolve(ctx, PiecesFrom(name, from)) == Some(v) <==> Leads(ctx, name[from..], v)
  {
    hide Find;
    var tail := name[from..];
    assert PiecesFrom(name, from) == [tail] && [tail][1..] == [];
  }

  lemma PieceStep(ctx: Json, name: string, from: nat, dot: nat, v: Json)
    requires from <= dot < |name| && Find(name, ".", from) == dot && IsFirstDot(name[from..], dot - from)
    requires name[from..][..dot - from] == name[from..dot] && name[from..][dot - from + 1..] == name[dot + 1..]
    requires ctx.Object? && name[from..dot] in ctx.fields ==>
               (Resolve(ctx.fields[name[from..dot]], PiecesFrom(name, dot + 1)) == Some(v)
                <==> Leads(ctx.fields[name[from..dot]], name[dot + 1..], v))
    ensures Resolve(ctx, PiecesFrom(name, from)) == Some(v) <==> Leads(ctx, name[from..], v)
  {
    hide *;
    FirstPiece(name, from, dot);
    LeadsStep(ctx, name[from..], dot - from, v);
    ResolveStep(ctx, name[from..dot], PiecesFrom(name, dot + 1));
  }

  lemma FirstPiece(name: string, from: nat, dot: nat)
    requires from <= dot < |name| && Find(name, ".", from) == dot
    ensures PiecesFrom(name, from) == [name[from..dot]] + PiecesFrom(name, dot + 1)
  {
    hide Find;
  }

  lemma ResolveStep(ctx: Json, head: string, rest: seq<string>)
    ensures Resolve(ctx, [head] + rest) == if ctx.Object? && head in ctx.fields then Resolve(ctx.fields[head], rest) else None
  {
    assert ([head] + rest)[1..] == rest && ([head] + rest)[0] == head;
  }

  lemma LeadsStep(ctx: Json, name: string, k: nat, v: Json)
    requires IsFirstDot(name, k)
    ensures Leads(ctx, name, v)
            <==> ctx.Object? && name[..k] in ctx.fields && Leads(ctx.fields[name[..k]], name[k + 1..], v)
  {
    assert '.' in name;
    forall l | 0 <= l < |name| && IsFirstDot(name, l) ensures l == k { OneFirstDot(name, k, l); }
    hide IsFirstDot;
  }

  lemma OneFirstDot(name: string, k: nat, l: nat)
    requires IsFirstDot(name, k) && IsFirstDot(name, l)
    ensures k == l
  {
    if k < l { NotBefore(name, l, k); }
    if l < k { NotBefore(name, k, l); }
  }

  lemma NotBefore(name: string, k: nat, j: nat)
    requires IsFirstDot(name, k) && j < k
    ensures name[j] != '.'
  {
    assert name[..k][j] == name[j] && name[..k][j] in name[..k];
  }

  lemma NoPathIff(ctx: Json, names: seq<string>, name: string)
    requires forall w :: Resolve(ctx, names) == Some(w) <==> Leads(ctx, name, w)
    ensures Resolve(ctx, names) == None <==> NoPath(ctx, name)
  {
    hide Leads, Resolve;
    if Resolve(ctx, names).Some? {
      assert Leads(ctx, name, Resolve(ctx, names).value);
    }
  }

  lemma MeantIff(name: string, stack: seq<Json>, v: Json)
    requires stack != []
    ensures Meaning(name, stack) == Some(v) <==> IsMeant(name, stack, v)
  {
    if name != "." {
      var names := PiecesFrom(name, 0);
      forall i, w | 0 <= i < |stack| ensures Resolve(stack[i], names) == Some(w) <==> Leads(stack[i], name, w) {
        assert name[0..] == name;
        LeadsIff(stack[i], name, 0, w);
      }
      forall i | 0 <= i < |stack| ensures Resolve(stack[i], names) == None <==> NoPath(stack[i], name) {
        NoPathIff(stack[i], names, name);
      }
      LookupIsInnermost(names, stack, v);
      hide Leads, Resolve, Lookup, PiecesFrom, NoPath;
    }
  }

  // ---- The page -----------------------------------------------------------------------------------------------------------------

  /** The value that a name means, if any. */
  ghost function Found(name: string, stack: seq<Json>): Option<Json>
    requires stack != []
  {
    if v :| IsMeant(name, stack, v) then Some(v) else None
  }

  const ENTITIES := [('&', "&amp;"), ('<', "&lt;"), ('>', "&gt;"), ('"', "&quot;"), ('\'', "&#39;"), ('/', "&#x2F;")]

  function Entity(c: char): string { EntityFrom(c, 0) }

  function EntityFrom(c: char, i: nat): string
    requires i <= |ENTITIES|
    decreases |ENTITIES| - i
  {
    if i == |ENTITIES| then [c] else if ENTITIES[i].0 == c then ENTITIES[i].1 else EntityFrom(c, i + 1)
  }

  function WithEntities(s: string): string {
    if s == "" then "" else WithEntities(s[..|s| - 1]) + Entity(s[|s| - 1])
  }

  /** Nothing stands there: no value, null, false or an empty list. */
  predicate IsNothing(found: Option<Json>) { found == None || found.value.Null? || found.value.False? || found.value == List([]) }

  function Both(a: Option<string>, b: Option<string>): Option<string> {
    if a == None || b == None then None else Some(a.value + b.value)
  }

  /** The page of a document in nested contexts; None where a value is neither a text nor a number, and rendering throws. */
  ghost function PageOf(d: Doc, stack: seq<Json>): Option<string>
    requires stack != []
    decreases d, 0, 0
  {
    match d
    case Text(text) => Some(text)
    case Value(text, escaped, name, rest) => Both(Some(text), Both(ValueText(Found(name, stack), escaped), PageOf(rest, stack)))
    case Section(text, inverted, name, inside, rest) =>
      var found := Found(name, stack);
      var contexts := if inverted != IsNothing(found) then []
                      else if inverted then [Null]
                      else if found.value.List? then found.value.items
                      else [found.value];
      Both(Some(text), Both(PagesOf(inside, stack, contexts), PageOf(rest, stack)))
  }

  /** The inside of a section, once in each context, the first one first. */
  ghost function PagesOf(d: Doc, stack: seq<Json>, contexts: seq<Json>): Option<string>
    requires stack != []
    decreases d, 1, |contexts|
  {
    if contexts == [] then Some("") else Both(PageOf(d, stack + [contexts[0]]), PagesOf(d, stack, contexts[1..]))
  }

  /** What a value tag writes. */
  function ValueText(found: Option<Json>, escaped: bool): Option<string> {
    if found == None then Some("")
    else if found.value.Number? then Some(found.value.dumped)
    else if !found.value.String? then None
    else if escaped then Some(WithEntities(found.value.text))
    else Some(found.value.text)
  }

  lemma FoundIsMeaning(name: string, stack: seq<Json>)
    requires stack != []
    ensures Found(name, stack) == Meaning(name, stack)
  {
    forall v ensures Meaning(name, stack) == Some(v) <==> IsMeant(name, stack, v) { MeantIff(name, stack, v); }
    hide Meaning, IsMeant;
    if Meaning(name, stack).Some? { assert IsMeant(name, stack, Meaning(name, stack).value); }
  }

  lemma EntityIs(c: char)
    ensures Entity(c) == EscapeChar(c)
  {
    assert ENTITIES[0] == ('&', "&amp;") && ENTITIES[1] == ('<', "&lt;") && ENTITIES[2] == ('>', "&gt;");
    assert ENTITIES[3] == ('"', "&quot;") && ENTITIES[4] == ('\'', "&#39;") && ENTITIES[5] == ('/', "&#x2F;") && |ENTITIES| == 6;
    hide ENTITIES;
    assert EntityFrom(c, 6) == [c];
    assert EntityFrom(c, 5) == if c == '/' then "&#x2F;" else [c];
    assert EntityFrom(c, 4) == if c == '\'' then "&#39;" else EntityFrom(c, 5);
    assert EntityFrom(c, 3) == if c == '"' then "&quot;" else EntityFrom(c, 4);
    assert EntityFrom(c, 2) == if c == '>' then "&gt;" else EntityFrom(c, 3);
    assert EntityFrom(c, 1) == if c == '<' then "&lt;" else EntityFrom(c, 2);
    assert EntityFrom(c, 0) == if c == '&' then "&amp;" else EntityFrom(c, 1);
  }

  lemma {:induction false} EntitiesAre(s: string)
    ensures WithEntities(s) == EscapeHtml(s)
  {
    hide Entity, EscapeChar;
    if s != "" {
      var n := |s| - 1;
      EntitiesAre(s[..n]);
      EntityIs(s[n]);
      EscapeAppend(s[..n], s[n]);
      assert s == s[..n] + [s[n]];
    }
  }

  lemma ShownIs(found: Option<Json>, escaped: bool)
    ensures ValueText(found, escaped) == Shown(found, escaped)
  {
    if found.Some? && found.value.String? { EntitiesAre(found.value.text); }
    hide WithEntities, EscapeHtml;
  }

  lemma ContextsAre(found: Option<Json>)
    ensures SectionContexts(found) == if IsNothing(found) then [] else if found.value.List? then found.value.items else [found.value]
    ensures InvertedContexts(found) == if IsNothing(found) then [Null] else []
  {}

  lemma BothIsJoin(a: Option<string>, b: Option<string>)
    ensures Both(a, b) == Join(a, b)
  {}

  lemma JoinNothing(a: Option<string>)
    ensures Join(Some(""), a) == a && Join(a, Some("")) == a
  {
    if a.Some? { assert "" + a.value == a.value && a.value + "" == a.value; }
  }

  /** The document says its page. */
  lemma {:induction false} SaysIsPage(d: Doc, stack: seq<Json>)
    requires stack != []
    ensures Says(d, stack) == PageOf(d, stack)
    decreases d, 0, 0
  {
    hide Found, Meaning, Shown, ValueText, SectionContexts, InvertedContexts, Join, Both;
    match d
    case Text(_) =>
    case Value(text, escaped, name, rest) =>
      SaysIsPage(rest, stack);
      FoundIsMeaning(name, stack);
      ShownIs(Found(name, stack), escaped);
      ThreeParts(Some(text), ValueText(Found(name, stack), escaped), PageOf(rest, stack));
    case Section(text, inverted, name, inside, rest) =>
      var found := Found(name, stack);
      FoundIsMeaning(name, stack);
      ContextsAre(found);
      var contexts := if inverted then InvertedContexts(found) else SectionContexts(found);
      SaysEachIsPages(inside, stack, contexts);
      SaysIsPage(rest, stack);
      ThreeParts(Some(text), PagesOf(inside, stack, contexts), PageOf(rest, stack));
  }

  lemma ThreeParts(a: Option<string>, b: Option<string>, c: Option<string>)
    ensures Join(Join(a, b), c) == Both(a, Both(b, c))
  {
    JoinAssociates(a, b, c);
    BothIsJoin(b, c);
    BothIsJoin(a, Both(b, c));
  }

  lemma {:induction false} SaysEachIsPages(d: Doc, stack: seq<Json>, contexts: seq<Json>)
    requires stack != []
    ensures SaysEach(d, stack, contexts) == PagesOf(d, stack, contexts)
    decreases d, 1, |contexts|
  {
    hide Join, Both;
    if contexts != [] {
      var n := |contexts| - 1;
      SaysEachIsPages(d, stack, contexts[..n]);
      SaysIsPage(d, stack + [contexts[n]]);
      PagesSnoc(d, stack, contexts[..n], contexts[n]);
      assert contexts == contexts[..n] + [contexts[n]];
      BothIsJoin(PagesOf(d, stack, contexts[..n]), PageOf(d, stack + [contexts[n]]));
    }
  }

  lemma {:induction false} PagesSnoc(d: Doc, stack: seq<Json>, contexts: seq<Json>, last: Json)
    requires stack != []
    ensures PagesOf(d, stack, contexts + [last]) == Both(PagesOf(d, stack, contexts), PageOf(d, stack + [last]))
    decreases |contexts|
  {
    hide PageOf;
    var p := PageOf(d, stack + [last]);
    BothIsJoin(p, Some(""));
    BothIsJoin(Some(""), p);
    JoinNothing(p);
    if contexts == [] {
      assert contexts + [last] == [last] && [last][1..] == [];
    } else {
      PagesSnoc(d, stack, contexts[1..], last);
      assert (contexts + [last])[1..] == contexts[1..] + [last];
      var a, b := PageOf(d, stack + [contexts[0]]), PagesOf(d, stack, contexts[1..]);
      JoinAssociates(a, b, p);
    }
  }
}

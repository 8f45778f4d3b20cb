/** Mustache contexts: looking a name up on the context stack, which branches a block takes, HTML escaping. */
module MustacheContext {
  import opened Bytes
  import opened Sequences
  import opened Options

  /** A crow::json value; a number is kept as the text json::dump writes for it. */
  datatype Json =
    | Null
    | False
    | True
    | Number(dumped: string)
    | String(text: string)
    | List(items: seq<Json>)
    | Object(fields: map<string, Json>)

  // ---- Dotted names -----------------------------------------------------------------------------------

  function PiecesFrom(name: string, from: nat): (r: seq<string>)
    requires from <= |name|
    ensures r != [] && forall k :: 0 <= k < |r| ==> '.' !in r[k]
    decreases |name| - from
  {
    var dot := Find(name, ".", from);
    if dot == -1 then
      NoDot(name, from, |name|);
      [name[from..]]
    else
      NoDot(name, from, dot);
      [name[from..dot]] + PiecesFrom(name, dot + 1)
  }

  lemma NoDot(name: string, from: nat, to: nat)
    requires from <= to <= |name|
    requires forall i {:trigger OccursAt(name, i, ".")} :: from <= i < to ==> !OccursAt(name, i, ".")
    ensures '.' !in name[from..to]
  {
    forall k | 0 <= k < to - from ensures name[from..to][k] != '.' {
      assert !OccursAt(name, from + k, ".");
      assert name[from + k..from + k + 1] == [name[from + k]];
    }
  }

  function Dotted(pieces: seq<string>): string
    requires pieces != []
  {
    if |pieces| == 1 then pieces[0] else pieces[0] + "." + Dotted(pieces[1..])
  }

  /** The pieces of a name are dot-free and, joined again, are the name. */
  lemma {:induction false} PiecesJoin(name: string, from: nat)
    requires from <= |name|
    ensures Dotted(PiecesFrom(name, from)) == name[from..]
    decreases |name| - from
  {
    hide Find, PiecesFrom;
    var dot := Find(name, ".", from);
    PiecesStep(name, from);
    if dot != -1 {
      PiecesJoin(name, dot + 1);
      DottedCons(name[from..dot], PiecesFrom(name, dot + 1));
      hide Dotted;
      DotThere(name, from);
    }
  }

  lemma DotThere(name: string, from: nat)
    requires from <= |name| && Find(name, ".", from) != -1
    ensures var dot := Find(name, ".", from); from <= dot < |name| && name[from..] == name[from..dot] + "." + name[dot + 1..]
  {
    var dot := Find(name, ".", from);
    assert OccursAt(name, dot, ".");
    assert name[dot..dot + 1] == ".";
    assert name[from..] == name[from..dot] + name[dot..dot + 1] + name[dot + 1..];
  }

  lemma DottedCons(piece: string, rest: seq<string>)
    requires rest != []
    ensures Dotted([piece] + rest) == piece + "." + Dotted(rest)
  {
    assert ([piece] + rest)[1..] == rest;
  }

  function Resolve(v: Json, names: seq<string>): Option<Json> {
    if names == [] then Some(v)
    else if v.Object? && names[0] in v.fields then Resolve(v.fields[names[0]], names[1..])
    else None
  }

  function Lookup(names: seq<string>, stack: seq<Json>): Option<Json> {
    if stack == [] then None
    else if Resolve(stack[|stack| - 1], names).Some? then Resolve(stack[|stack| - 1], names)
    else Lookup(names, stack[..|stack| - 1])
  }

  /** A name means what it means in the innermost context that has all of its path. */
  lemma {:induction false} LookupIsInnermost(names: seq<string>, stack: seq<Json>, v: Json)
    ensures Lookup(names, stack) == Some(v) <==>
            exists i :: 0 <= i < |stack| && Resolve(stack[i], names) == Some(v)
                        && forall j :: i < j < |stack| ==> Resolve(stack[j], names) == None
  {
    if stack != [] {
      var n := |stack| - 1;
      var under := stack[..n];
      LookupIsInnermost(names, under, v);
      assert forall j :: 0 <= j < n ==> under[j] == stack[j];
      if Resolve(stack[n], names).None? && Lookup(names, stack) == Some(v) {
        var i :| 0 <= i < |under| && Resolve(under[i], names) == Some(v)
                 && forall j :: i < j < |under| ==> Resolve(under[j], names) == None;
        forall j | i < j < |stack| ensures Resolve(stack[j], names) == None {
          if j < n { assert under[j] == stack[j]; }
        }
        assert Resolve(stack[i], names) == Some(v);
      }
    }
  }

  /** What a tag's name means on a stack of contexts. */
  function Meaning(name: string, stack: seq<Json>): Option<Json>
    requires stack != []
  {
    if name == "." then Some(stack[|stack| - 1]) else Lookup(PiecesFrom(name, 0), stack)
  }

  /** find_context: the value found, or the empty string. */
  method FindContext(name: string, stack: seq<Json>) returns (found: bool, ctx: Json)
    requires stack != []
    ensures found == Meaning(name, stack).Some?
    ensures ctx == if found then Meaning(name, stack).value else String("")
  {
    if name == "." { return true, stack[|stack| - 1]; }
    var dotPosition := Find(name, ".", 0);
    if dotPosition == -1 {
      assert PiecesFrom(name, 0) == [name];
      var k := |stack|;
      assert stack[..k] == stack;
      while k > 0
        invariant 0 <= k <= |stack|
        invariant Lookup([name], stack) == Lookup([name], stack[..k])
      {
        k := k - 1;
        assert stack[..k + 1][..k] == stack[..k];
        if stack[k].Object? && name in stack[k].fields {
          assert [name][1..] == [];
          assert Resolve(stack[k].fields[name], []) == Some(stack[k].fields[name]);
          assert Resolve(stack[k], [name]) == Some(stack[k].fields[name]);
          return true, stack[k].fields[name];
        }
      }
    } else {
      assert name != "";
      var names := SplitName(name);
      var k := |stack|;
      assert stack[..k] == stack;
      while k > 0
        invariant 0 <= k <= |stack|
        invariant Lookup(names, stack) == Lookup(names, stack[..k])
      {
        k := k - 1;
        assert stack[..k + 1][..k] == stack[..k];
        var view := stack[k];
        var ok := true;
        var j := 0;
        while j < |names|
          invariant 0 <= j <= |names| && ok
          invariant Resolve(stack[k], names) == Resolve(view, names[j..])
        {
          if view.Object? && names[j] in view.fields {
            view := view.fields[names[j]];
            assert names[j..][1..] == names[j + 1..];
          } else {
            ok := false;
            break;
          }
          j := j + 1;
        }
        if ok { return true, view; }
      }
    }
    return false, String("");
  }

  /** The piece after dots[i - 1] ends at dots[i], the next dot, or at the end of the name when there is none. */
  ghost predicate DotStep(name: string, dots: seq<int>, i: nat)
    requires 1 <= i < |dots|
  {
    if i + 1 < |dots| then IsNextDot(name, dots[i - 1], dots[i])
    else 0 <= dots[i - 1] + 1 <= |name| && dots[i] == |name| && Find(name, ".", dots[i - 1] + 1) == -1
  }

  predicate IsNextDot(name: string, last: int, dot: int) {
    dot != -1 && 0 <= last + 1 <= |name| && Find(name, ".", last + 1) == dot
  }

  /** -1, the positions of the dots of a name in order, and its length. */
  ghost predicate DotsOf(name: string, dots: seq<int>) {
    && |dots| >= 2 && dots[0] == -1
    && forall i :: 1 <= i < |dots| ==> DotStep(name, dots, i)
  }

  lemma DotFollows(name: string, from: nat)
    requires from <= |name| && Find(name, ".", from) != -1
    ensures from <= Find(name, ".", from) < |name|
  {
    assert OccursAt(name, Find(name, ".", from), ".");
  }

  method DotPositions(name: string) returns (dots: seq<int>)
    requires name != ""
    ensures DotsOf(name, dots)
  {
    hide Find;
    dots := [-1];
    var last := -1;
    var dot := Find(name, ".", 0);
    while dot != -1
      invariant |dots| > 0 && dots[0] == -1 && last == dots[|dots| - 1] && -1 <= last < |name|
      invariant dot == Find(name, ".", last + 1)
      invariant forall i :: 1 <= i < |dots| ==> IsNextDot(name, dots[i - 1], dots[i])
      decreases |name| - last
    {
      DotFollows(name, last + 1);
      dots := dots + [dot];
      last := dot;
      dot := Find(name, ".", dot + 1);
    }
    dots := dots + [|name|];
  }

  /** The text between each two neighbouring positions. */
  method SplitName(name: string) returns (names: seq<string>)
    requires name != ""
    ensures names == PiecesFrom(name, 0)
  {
    hide DotStep, PiecesFrom;
    var dots := DotPositions(name);
    names := [];
    var i := 1;
    var from := 0;
    while i < |dots|
      invariant 1 <= i <= |dots| && from == dots[i - 1] + 1
      invariant i < |dots| ==> 0 <= from <= |name| && names + PiecesFrom(name, from) == PiecesFrom(name, 0)
      invariant i == |dots| ==> names == PiecesFrom(name, 0)
    {
      assert DotStep(name, dots, i);
      if i + 1 < |dots| { assert DotStep(name, dots, i + 1); }
      PieceAt(name, dots, i);
      Regroup(names, [name[from..dots[i]]], if i + 1 < |dots| then PiecesFrom(name, dots[i] + 1) else []);
      names := names + [name[from..dots[i]]];
      from := dots[i] + 1;
      i := i + 1;
    }
  }

  lemma PieceAt(name: string, dots: seq<int>, i: nat)
    requires 1 <= i < |dots| && DotStep(name, dots, i) && (i + 1 < |dots| ==> DotStep(name, dots, i + 1))
    ensures 0 <= dots[i - 1] + 1 <= dots[i] <= |name| && (i + 1 < |dots| ==> dots[i] < |name|)
    ensures var from := dots[i - 1] + 1;
            PiecesFrom(name, from) == [name[from..dots[i]]] + (if i + 1 < |dots| then PiecesFrom(name, dots[i] + 1) else [])
  {
    hide *;
    var from := dots[i - 1] + 1;
    DotStepMeans(name, dots, i);
    PiecesStep(name, from);
    if i + 1 == |dots| {
      assert name[from..|name|] == name[from..];
      assert [name[from..]] + [] == [name[from..]];
    }
  }

  lemma DotStepMeans(name: string, dots: seq<int>, i: nat)
    requires 1 <= i < |dots| && DotStep(name, dots, i)
    ensures 0 <= dots[i - 1] + 1 <= |name|
    ensures i + 1 < |dots| ==> dots[i] != -1 && Find(name, ".", dots[i - 1] + 1) == dots[i]
    ensures i + 1 == |dots| ==> dots[i] == |name| && Find(name, ".", dots[i - 1] + 1) == -1
  {
    hide Find;
  }

  lemma PiecesStep(name: string, from: nat)
    requires from <= |name|
    ensures var dot := Find(name, ".", from);
            && (dot == -1 ==> PiecesFrom(name, from) == [name[from..]])
            && (dot != -1 ==> from <= dot < |name| && PiecesFrom(name, from) == [name[from..dot]] + PiecesFrom(name, dot + 1))
  {
    hide Find;
    if Find(name, ".", from) != -1 { DotFollows(name, from); }
  }

  // ---- Blocks -----------------------------------------------------------------------------------------

  /** The contexts a {{#name}} block is rendered in, one rendering each. */
  function SectionContexts(found: Option<Json>): seq<Json> {
    match found
    case None => []
    case Some(List(items)) => items
    case Some(v) => if v.False? || v.Null? then [] else [v]
  }

  /** The contexts a {{^name}} block is rendered in. */
  function InvertedContexts(found: Option<Json>): seq<Json> {
    match found
    case None => [Null]
    case Some(List(items)) => if items == [] then [Null] else []
    case Some(v) => if v.False? || v.Null? then [Null] else []
  }

  /** Of {{#name}} and {{^name}} exactly one is rendered. */
  lemma SectionOrInverted(found: Option<Json>)
    ensures SectionContexts(found) == [] <==> InvertedContexts(found) == [Null]
    ensures SectionContexts(found) != [] <==> InvertedContexts(found) == []
  {
    if found.Some? && found.value.List? && found.value.items != [] {
      assert InvertedContexts(found) == [];
    }
  }

  // ---- Escaping ---------------------------------------------------------------------------------------

  function EscapeChar(c: char): (r: string) ensures r != "" {
    match c
    case '&' => "&amp;"
    case '<' => "&lt;"
    case '>' => "&gt;"
    case '"' => "&quot;"
    case '\'' => "&#39;"
    case '/' => "&#x2F;"
    case _ => [c]
  }

  function EscapeHtml(s: string): string {
    if s == "" then "" else EscapeChar(s[0]) + EscapeHtml(s[1..])
  }

  lemma {:induction false} EscapeAppend(s: string, c: char)
    ensures EscapeHtml(s + [c]) == EscapeHtml(s) + EscapeChar(c)
  {
    hide EscapeChar;
    if s == "" {
      assert s + [c] == [c] && [c][1..] == "";
    } else {
      EscapeAppend(s[1..], c);
      assert (s + [c])[1..] == s[1..] + [c];
    }
  }

  method Escape(input: string, before: string) returns (out: string)
    ensures out == before + EscapeHtml(input)
  {
    out := before;
    var i := 0;
    assert out == before + EscapeHtml(input[..0]);
    while i < |input|
      invariant 0 <= i <= |input|
      invariant out == before + EscapeHtml(input[..i])
    {
      EscapeAppend(input[..i], input[i]);
      assert input[..i + 1] == input[..i] + [input[i]];
      var piece;
      match input[i] {
        case '&' => piece := "&amp;";
        case '<' => piece := "&lt;";
        case '>' => piece := "&gt;";
        case '"' => piece := "&quot;";
        case '\'' => piece := "&#39;";
        case '/' => piece := "&#x2F;";
        case _ => piece := [input[i]];
      }
      assert piece == EscapeChar(input[i]);
      assert before + EscapeHtml(input[..i]) + piece == before + (EscapeHtml(input[..i]) + piece);
      out := out + piece;
      i := i + 1;
    }
    assert input[..i] == input;
  }

  /** Reading the six entities back. */
  function Unescape(s: string): string {
    if s == "" then ""
    else if "&amp;" <= s then "&" + Unescape(s[5..])
    else if "&lt;" <= s then "<" + Unescape(s[4..])
    else if "&gt;" <= s then ">" + Unescape(s[4..])
    else if "&quot;" <= s then "\"" + Unescape(s[6..])
    else if "&#39;" <= s then "'" + Unescape(s[5..])
    else if "&#x2F;" <= s then "/" + Unescape(s[6..])
    else [s[0]] + Unescape(s[1..])
  }

  /** Escaping loses nothing. */
  lemma {:induction false} UnescapeEscape(s: string)
    ensures Unescape(EscapeHtml(s)) == s
  {
    if s != "" {
      UnescapeEscape(s[1..]);
      UnescapeOne(s[0], EscapeHtml(s[1..]));
    }
  }

  lemma UnescapeOne(c: char, rest: string)
    ensures Unescape(EscapeChar(c) + rest) == [c] + Unescape(rest)
  {
    var t := EscapeChar(c) + rest;
    assert t[|EscapeChar(c)|..] == rest;
    assert t[0] == if c in "&<>\"'/" then '&' else c;
    assert c !in "&<>\"'/" ==> t[0] != '&';
    assert c == '<' ==> t[1] == 'l';
    assert c == '>' ==> t[1] == 'g';
    assert c == '"' ==> t[1] == 'q';
    assert c == '\'' ==> t[1] == '#' && t[2] == '3';
    assert c == '/' ==> t[1] == '#' && t[2] == 'x';
    assert c == '/' ==> "&#x2F;" <= t;
    assert c == '\'' ==> "&#39;" <= t;
    assert c == '"' ==> "&quot;" <= t;
  }

  /** Escaped text can neither open nor close a tag or a quoted attribute. */
  lemma {:induction false} EscapedIsInert(s: string)
    ensures forall c :: c in EscapeHtml(s) ==> c !in "<>\"'/"
  {
    if s != "" {
      EscapedIsInert(s[1..]);
      assert forall c :: c in EscapeChar(s[0]) ==> c !in "<>\"'/";
    }
  }
}

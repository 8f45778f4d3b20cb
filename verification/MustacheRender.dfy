/** crow::mustache::template_t: compiling a body into fragments and actions, and rendering them on a context stack. */
module MustacheRender {
  import opened Bytes
  import opened Options
  import opened MustacheTemplate
  import opened MustacheContext
  import opened MustacheLayout
  import opened MustacheMeaning

  /** The two arguments render_internal shares by reference. */
  class Rendering {
    var stack: seq<Json>
    var out: string

    constructor (context: Json)
      ensures stack == [context] && out == ""
    {
      stack := [context];
      out := "";
    }
  }

  datatype Outcome = Ok | InvalidTemplate | StrayClose

  class Template {
    const body: string
    var fragments: seq<Fragment>
    var actions: seq<Action>

    constructor (body: string)
      ensures this.body == body && fragments == [] && actions == []
    {
      this.body := body;
      fragments := [];
      actions := [];
    }

    ghost function Value(): Compiled reads this { Compiled(body, fragments, actions) }

    // ---- Compiling ------------------------------------------------------------------------------------

    method SkipSpaces(i: nat) returns (r: nat)
      requires i <= |body|
      ensures r == AfterSpaces(body, i)
    {
      r := i;
      while r < |body| && body[r] == ' '
        invariant i <= r <= |body| && AfterSpaces(body, r) == AfterSpaces(body, i)
      {
        r := r + 1;
      }
    }

    method DropSpaces(e: nat) returns (r: nat)
      requires e <= |body|
      ensures r == BeforeSpaces(body, e)
    {
      r := e;
      while r > 0 && body[r - 1] == ' '
        invariant r <= e && BeforeSpaces(body, r) == BeforeSpaces(body, e)
      {
        r := r - 1;
      }
    }

    /** The branch of parse() that changes the delimiters. */
    method ScanDelimiters(idx: nat, end: nat) returns (r: Delimiters)
      requires 2 <= idx <= end <= |body|
      ensures r == ReadDelimiters(body, idx, end)
    {
      if body[end - 1] != '=' { return Invalid; }
      var s := SkipSpaces(idx);
      var e := DropSpaces(end - 1);
      var i := s;
      while i < e
        invariant s <= i && (s <= e ==> i <= e) && (e < s ==> i == s)
        invariant forall k :: s <= k < i ==> body[k] != ' '
      {
        if body[i] == ' ' {
          SpaceFound(s, i);
          var t := SkipSpaces(i);
          assert body[e - 1] != ' ';
          return if ' ' in body[t..e] then Invalid else Pair(body[s..i], body[t..e]);
        }
        i := i + 1;
      }
      if s < e { NotBefore(s, e); }
      r := Invalid;
    }

    lemma SpaceFound(s: nat, i: nat)
      requires s <= i < |body| && body[i] == ' ' && forall k :: s <= k < i ==> body[k] != ' '
      ensures Find(body, " ", s) == i
    {
      assert body[i..i + 1] == " ";
      assert OccursAt(body, i, " ");
      NotBefore(s, i);
    }

    lemma NotBefore(s: nat, e: nat)
      requires s <= e <= |body| && forall k :: s <= k < e ==> body[k] != ' '
      ensures forall k {:trigger OccursAt(body, k, " ")} :: s <= k < e ==> !OccursAt(body, k, " ")
    {
      forall k | s <= k < e ensures !OccursAt(body, k, " ") {
        assert body[k..k + 1] == [body[k]];
      }
    }

    method TrimTag(kind: Kind, i: nat, end: nat) returns (action: Action)
      requires i <= |body| && end <= |body|
      ensures action == Trimmed(body, kind, i, end)
    {
      var start := SkipSpaces(i);
      var stop := DropSpaces(end);
      action := Action(kind, start, stop, 0);
    }

    /** The switch of parse() on the first character of a tag. */
    method ScanContent(at: nat, idx: nat, end: nat, open: string, close: string) returns (r: Reading)
      requires 0 < idx < end && end + |close| <= |body| && open != "" && close != ""
      ensures r == ReadContent(body, at, idx, end, open, close)
    {
      hide AfterSpaces, BeforeSpaces, ReadDelimiters, Trimmed;
      var next := end + |close|;
      var action: Action;
      match body[idx] {
        case '#' => action := TrimTag(OpenBlock, idx + 1, end);
        case '/' => action := TrimTag(CloseBlock, idx + 1, end);
        case '^' => action := TrimTag(ElseBlock, idx + 1, end);
        case '!' => action := Action(Ignore, idx + 1, end, 0);
        case '>' => action := TrimTag(Partial, idx + 1, end);
        case '{' =>
          if open != "{{" || close != "}}" { return Bad; }
          if end + 2 >= |body| || body[end + 2] != '}' { return Bad; }
          action := TrimTag(UnescapeTag, idx + 1, end);
          next := next + 1;
        case '&' => action := TrimTag(UnescapeTag, idx + 1, end);
        case '=' =>
          var delimiters := ScanDelimiters(idx + 1, end);
          if delimiters.Invalid? { return Bad; }
          return Found(at, Action(Ignore, idx + 1, end, 0), next, delimiters.open, delimiters.close);
        case _ => action := TrimTag(Tag, idx, end);
      }
      r := Found(at, action, next, open, close);
    }

    /** The part of one turn of parse() that reads the next tag. */
    method ScanTag(from: nat, open: string, close: string) returns (r: Reading)
      requires from <= |body| && open != "" && close != ""
      ensures r == ReadTag(body, from, open, close)
    {
      hide ReadContent;
      var at := Find(body, open, from);
      if at == -1 { return Last; }
      var idx := at + |open|;
      var end := Find(body, close, idx);
      if end == idx || end == -1 { return Bad; }
      assert OccursAt(body, end, close);
      r := ScanContent(at, idx, end, open, close);
    }

    /** The first loop of parse(); `unclosed` are the blocks without a partner. */
    method ParseTags() returns (outcome: Outcome, unclosed: seq<nat>)
      requires fragments == [] && actions == []
      modifies this
      ensures var scan := ScanFrom(body, 0, "{{", "}}");
              var blocks := BlocksAfter(body, scan.tags, |scan.tags|);
              && (outcome == StrayClose <==> blocks.Stray?)
              && (outcome == Ok <==> scan.ok && blocks.Pending?)
              && (outcome == Ok ==> fragments == scan.fragments && unclosed == blocks.at
                                    && Compiles(body, actions, scan.tags, unclosed))
    {
      hide *;
      ghost var scan := ScanFrom(body, 0, "{{", "}}");
      Starts(body, scan);
      ghost var levels: seq<Forest> := [Nil];
      ghost var more := scan;
      var open, close := "{{", "}}";
      var blocks: seq<nat> := [];
      var current := 0;
      while true
        invariant current <= |body| && open != "" && close != ""
        invariant more == ScanFrom(body, current, open, close)
        invariant Matching(body, actions, scan.tags, blocks, levels)
        invariant Scanning(fragments, |actions|, scan, more)
        decreases |body| - current
      {
        MatchingPending(body, actions, scan.tags, blocks, levels);
        ScanEnds(body, current, open, close, fragments, |actions|, scan, more);
        var reading := ScanTag(current, open, close);
        if reading.Bad? { return InvalidTemplate, []; }
        if reading.Last? {
          MatchingEnds(body, actions, scan.tags, blocks, levels);
          fragments := fragments + [Fragment(current, |body|)];
          actions := actions + [Action(Ignore, 0, 0, 0)];
          break;
        }
        ScanStep(body, current, open, close, fragments, |actions|, scan, more);
        fragments := fragments + [Fragment(current, reading.at)];
        outcome, blocks, levels := MatchTag(reading.action, blocks, scan.tags, levels);
        if outcome != Ok {
          BlocksStayFailed(body, scan.tags, |actions| + 1, |scan.tags|);
          return outcome, [];
        }
        more := ScanFrom(body, reading.next, reading.open, reading.close);
        current, open, close := reading.next, reading.open, reading.close;
      }
      outcome := Ok;
      unclosed := blocks;
    }

    /** The part of one turn of parse() that keeps the block stack. */
    method MatchTag(action: Action, blocks: seq<nat>, ghost tags: seq<Action>, ghost levels: seq<Forest>)
      returns (outcome: Outcome, blocks': seq<nat>, ghost levels': seq<Forest>)
      requires AllFit(body, tags) && Matching(body, actions, tags, blocks, levels)
      requires |actions| < |tags| && tags[|actions|] == action && action.pos == 0
      modifies this`actions
      ensures outcome == Ok ==> |actions| == |old(actions)| + 1 && Matching(body, actions, tags, blocks', levels')
      ensures outcome != Ok ==> actions == old(actions)
      ensures outcome == StrayClose ==> BlocksAfter(body, tags, |actions| + 1).Stray?
      ensures outcome == InvalidTemplate ==> BlocksAfter(body, tags, |actions| + 1).Mismatched?
    {
      hide Levels;
      levels' := levels;
      blocks' := blocks;
      outcome := Ok;
      match action.kind {
        case OpenBlock =>
          levels' := MatchingOpen(body, actions, tags, blocks, levels, action);
          blocks' := blocks + [|actions|];
          actions := actions + [action];
        case ElseBlock =>
          levels' := MatchingOpen(body, actions, tags, blocks, levels, action);
          blocks' := blocks + [|actions|];
          actions := actions + [action];
        case CloseBlock =>
          if blocks == [] { return StrayClose, blocks, levels; }
          var partner := blocks[|blocks| - 1];
          assert partner < |actions|;
          if TagName(body, actions[partner]) != TagName(body, action) { return InvalidTemplate, blocks, levels; }
          var closing := action.(pos := partner);
          levels' := MatchingClose(body, actions, tags, blocks, levels, closing);
          actions := actions[partner := actions[partner].(pos := |actions|)] + [closing];
          blocks' := blocks[..|blocks| - 1];
        case _ =>
          levels' := MatchingLeaf(body, actions, tags, blocks, levels, action);
          actions := actions + [action];
      }
    }

    /** The second loop of parse(): from the last tag back, cut off the line of a tag that stands alone on it. */
    method RemoveStandalones()
      requires Value().Valid() && actions != []
      modifies this
      ensures Value() == TrimFrom(old(Value()), |old(actions)| - 2)
    {
      var i := |actions| - 2;
      while i >= 0
        invariant -1 <= i && i + 1 < |actions| && Value().Valid()
        invariant TrimFrom(Value(), i) == TrimFrom(old(Value()), |old(actions)| - 2)
      {
        RemoveStandalone(i);
        i := i - 1;
      }
    }

    method RemoveStandalone(i: nat)
      requires Value().Valid() && i + 1 < |actions|
      modifies this
      ensures Value() == TrimAt(old(Value()), i)
    {
      hide Standalone, SpacesBack, SpacesOn;
      if actions[i].kind.Tag? || actions[i].kind.UnescapeTag? { return; }
      var before, after := fragments[i], fragments[i + 1];
      var cut := FindCut(before, after, i == 0, i + 2 == |actions|);
      if cut.Keep? { return; }
      if actions[i].kind.Partial? {
        actions := actions[i := actions[i].(pos := before.second - cut.second)];
      }
      fragments := fragments[i := before.(second := cut.second)][i + 1 := after.(first := cut.first)];
    }

    /** The two scans for blanks around a tag, and what they say. */
    method FindCut(before: Fragment, after: Fragment, isFirst: bool, isLast: bool) returns (cut: Cut)
      requires before.second <= |body| && after.first <= |body| && after.second <= |body|
      ensures cut == Standalone(body, before, after, isFirst, isLast)
    {
      var m := before.second;
      while m > before.first && body[m - 1] == ' '
        invariant 0 <= m <= before.second && SpacesBack(body, before.first, m) == SpacesBack(body, before.first, before.second)
      {
        m := m - 1;
      }
      assert m == SpacesBack(body, before.first, before.second);
      if m <= before.first && !isFirst { return Keep; }
      if m > before.first && body[m - 1] != '\n' { return Keep; }
      var k := after.first;
      while k < after.second && body[k] == ' '
        invariant after.first <= k && SpacesOn(body, k, after.second) == SpacesOn(body, after.first, after.second)
      {
        k := k + 1;
      }
      assert k == SpacesOn(body, after.first, after.second);
      hide SpacesBack, SpacesOn;
      if k >= after.second { return if isLast then Cut(m, after.first) else Keep; }
      if body[k] == '\n' { return Cut(m, k + 1); }
      if body[k] == '\r' && k + 1 < |body| && body[k + 1] == '\n' { return Cut(m, k + 2); }
      cut := Keep;
    }

    /** parse(): `wide` is the template before lines of standalone tags are dropped. */
    method Parse() returns (outcome: Outcome, unclosed: seq<nat>, ghost wide: Compiled)
      requires fragments == [] && actions == []
      modifies this
      ensures var scan := ScanFrom(body, 0, "{{", "}}");
              var blocks := BlocksAfter(body, scan.tags, |scan.tags|);
              && (outcome == StrayClose <==> blocks.Stray?)
              && (outcome == Ok <==> scan.ok && blocks.Pending?)
              && (outcome == Ok ==> wide.body == body && wide.fragments == scan.fragments && unclosed == blocks.at
                                    && Compiles(body, wide.actions, scan.tags, unclosed))
      ensures outcome == Ok ==> wide.Valid() && Value().Valid() && Narrows(wide, Value())
                                && Value() == TrimFrom(wide, |wide.actions| - 2)
      ensures outcome == Ok && unclosed == [] ==> exists f :: Nested(body, actions, f)
    {
      hide ScanFrom, BlocksAfter, Narrows, Nested, TrimFrom;
      outcome, unclosed := ParseTags();
      wide := Value();
      if outcome == Ok {
        assert Value().Valid();
        hide Compiles;
        RemoveStandalones();
        TrimNarrows(wide, |wide.actions| - 2);
        if unclosed == [] { NarrowedIsNested(wide, Value(), ScanFrom(body, 0, "{{", "}}").tags); }
      }
    }

    /** render(): every nesting of the actions gives the one meaning, and that is what is written. */
    method Render(context: Json) returns (text: Option<string>)
      requires Value().Valid() && NoPartials(actions) && exists f :: Nested(body, actions, f)
      ensures forall f :: Nested(body, actions, f) ==> text == Value().Denote(f, 0, |actions| - 1, [context])
    {
      ghost var f :| Nested(body, actions, f);
      var r := new Rendering(context);
      var ok := RenderInternal(0, |fragments| - 1, r, f);
      forall g | Nested(body, actions, g) ensures g == f {
        NestingIsUnique(body, actions, f, g, 0, |actions| - 1);
      }
      text := if ok then Some(r.out) else None;
      ghost var whole := Value().Denote(f, 0, |actions| - 1, [context]);
      assert whole.Some? ==> "" + whole.value == whole.value;
    }

    // ---- Rendering ------------------------------------------------------------------------------------

    method RenderTag(current: nat, r: Rendering) returns (ok: bool)
      requires Value().Valid() && current < |actions| && r.stack != []
      requires actions[current].kind.Tag? || actions[current].kind.UnescapeTag?
      modifies r`out
      ensures ok == Value().Written(current, r.stack).Some?
      ensures ok ==> r.out == old(r.out) + Value().Written(current, r.stack).value
    {
      var action := actions[current];
      var found, ctx := FindContext(TagName(body, action), r.stack);
      match ctx {
        case Number(dumped) => r.out := r.out + dumped;
        case String(text) =>
          if action.kind.Tag? {
            r.out := Escape(text, r.out);
          } else {
            r.out := r.out + text;
          }
        case _ => return false;
      }
      ok := true;
      if !found {
        assert EscapeHtml("") == "";
      }
    }

    /** A list block: the inside once for each item, the item pushed meanwhile. */
    method RenderItems(open: nat, close: nat, items: seq<Json>, r: Rendering, ghost inside: Forest) returns (ok: bool)
      requires Value().Valid() && NoPartials(actions) && r.stack != []
      requires open + 1 <= close < |actions| && Covers(body, actions, inside, open + 1, close)
      modifies r
      ensures ok <==> Value().DenoteEach(inside, open + 1, close, old(r.stack), items).Some?
      ensures ok ==> r.stack == old(r.stack)
                     && r.out == old(r.out) + Value().DenoteEach(inside, open + 1, close, old(r.stack), items).value
      decreases close - open, 0
    {
      hide Compiled.Denote, Compiled.DenoteEach, Covers, NoPartials, Fits;
      ghost var c, stack, start := Value(), r.stack, r.out;
      var i := 0;
      c.EachStarts(inside, open + 1, close, stack, items, start);
      while i < |items|
        invariant 0 <= i <= |items| && r.stack == stack && Value() == c
        invariant c.EachWritten(inside, open + 1, close, stack, items[..i], start, r.out)
      {
        r.stack := r.stack + [items[i]];
        ghost var before := r.out;
        var rendered := RenderInternal(open + 1, close, r, inside);
        if !rendered {
          EachFails(c, inside, open + 1, close, stack, items, i);
          return false;
        }
        c.EachGrows(inside, open + 1, close, stack, items, i, start, before, r.out);
        r.stack := r.stack[..|r.stack| - 1];
        assert r.stack == stack;
        i := i + 1;
      }
      assert items[..i] == items;
      ok := true;
    }

    /** Writes what the nesting denotes, or fails as it does; the stack is left as it was found. */
    method RenderInternal(actionBegin: nat, actionEnd: nat, r: Rendering, ghost f: Forest) returns (ok: bool)
      requires Value().Valid() && NoPartials(actions) && r.stack != []
      requires actionEnd < |actions| && Covers(body, actions, f, actionBegin, actionEnd)
      modifies r
      ensures ok <==> Value().Denote(f, actionBegin, actionEnd, old(r.stack)).Some?
      ensures ok ==> r.stack == old(r.stack)
                     && r.out == old(r.out) + Value().Denote(f, actionBegin, actionEnd, old(r.stack)).value
      decreases actionEnd - actionBegin, 1
    {
      hide Compiled.Denote;
      CoversBounds(body, actions, f, actionBegin, actionEnd);
      ghost var run := Run(Value(), actionEnd, r.stack, Join(Some(r.out), Value().Denote(f, actionBegin, actionEnd, r.stack)));
      ghost var todo, frames := f, Done(actionEnd);
      var current := actionBegin;
      while current < actionEnd
        invariant Value() == run.c && actionBegin <= current
        invariant run.At(todo, frames, current, r.stack, r.out)
        decreases actionEnd - current
      {
        ok, current, todo, frames := RenderAction(current, actionEnd, r, run, todo, frames);
        if !ok { return; }
      }
      run.AtEnd(todo, frames, current, r.stack, r.out);
      RenderFragment(actionEnd, r);
      ok := true;
    }

    /** One turn of the loop: the literal before the action, the action, and where to go on. */
    method RenderAction(current: nat, actionEnd: nat, r: Rendering, ghost run: Run, ghost todo: Forest, ghost frames: Frames)
      returns (ok: bool, next: nat, ghost todo': Forest, ghost frames': Frames)
      requires run.c == Value() && run.c.Valid() && NoPartials(actions)
      requires run.end == actionEnd && current < actionEnd < |actions|
      requires run.At(todo, frames, current, r.stack, r.out)
      modifies r
      ensures ok ==> current < next && run.At(todo', frames', next, r.stack, r.out)
      ensures !ok ==> run.whole.None?
      decreases actionEnd - current, 0
    {
      hide Compiled.Denote, DenoteFrames, CoversFrames, Covers;
      run.AtKind(todo, frames, current, r.stack, r.out);
      ghost var stack, out := r.stack, r.out;
      RenderFragment(current, r);
      var action := actions[current];
      next := current;
      todo', frames' := todo, frames;
      ok := true;
      match action.kind {
        case Ignore =>
          run.PassLeaf(todo, frames, current, stack, out);
          assert r.out + "" == r.out;
          todo' := todo.rest;
        case UnescapeTag =>
          run.PassLeaf(todo, frames, current, stack, out);
          ok := RenderTag(current, r);
          todo' := todo.rest;
        case Tag =>
          run.PassLeaf(todo, frames, current, stack, out);
          ok := RenderTag(current, r);
          todo' := todo.rest;
        case ElseBlock =>
          var found, ctx := FindContext(TagName(body, action), r.stack);
          var skip := found && !ctx.False? && !ctx.Null? && (ctx.List? ==> ctx.items != []);
          if skip {
            run.Skip(todo, frames, current, stack, out);
            next := action.pos;
            todo' := todo.rest;
          } else {
            run.Enter(todo, frames, current, stack, out, Null);
            r.stack := r.stack + [Null];
            todo', frames' := todo.inside, After(todo.close, todo.rest, frames);
          }
        case OpenBlock =>
          var found, ctx := FindContext(TagName(body, action), r.stack);
          if !found || ctx.False? || ctx.Null? {
            run.Skip(todo, frames, current, stack, out);
            next := action.pos;
            todo' := todo.rest;
          } else if ctx.List? {
            run.PassBlock(todo, frames, current, stack, out,
                          run.c.DenoteEach(todo.inside, current + 1, todo.close, stack, ctx.items));
            ok := RenderItems(current, action.pos, ctx.items, r, todo.inside);
            next := action.pos;
            todo' := todo.rest;
          } else {
            run.Enter(todo, frames, current, stack, out, ctx);
            r.stack := r.stack + [ctx];
            todo', frames' := todo.inside, After(todo.close, todo.rest, frames);
          }
        case CloseBlock =>
          run.Leave(todo, frames, current, stack, out);
          r.stack := r.stack[..|r.stack| - 1];
          todo', frames' := frames.rest, frames.outer;
        case Partial => assert false;
      }
      next := next + 1;
    }

    method RenderFragment(k: nat, r: Rendering)
      requires Value().Valid() && k < |fragments|
      modifies r`out
      ensures r.out == old(r.out) + Value().Literal(k)
    {
      var fragment := fragments[k];
      r.out := r.out + Slice(body, fragment.first, fragment.second);
    }
  }
}

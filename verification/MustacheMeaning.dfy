/** What a compiled template means: blocks as one rendering per context, by recursion over the nesting. */
module MustacheMeaning {
  import opened Bytes
  import opened Options
  import opened MustacheTemplate
  import opened MustacheContext

  predicate Fits(body: string, fragments: seq<Fragment>, actions: seq<Action>) {
    && |fragments| == |actions|
    && (forall k :: 0 <= k < |actions| ==> ActionFits(body, actions[k]))
    && (forall k :: 0 <= k < |fragments| ==> fragments[k].first <= |body| && fragments[k].second <= |body|)
  }

  predicate NoPartials(actions: seq<Action>) { forall k :: 0 <= k < |actions| ==> !actions[k].kind.Partial? }

  datatype Compiled = Compiled(body: string, fragments: seq<Fragment>, actions: seq<Action>) {
    ghost predicate Valid() { Fits(body, fragments, actions) }

    function Literal(k: nat): string
      requires Fits(body, fragments, actions) && k < |fragments|
    {
      Slice(body, fragments[k].first, fragments[k].second)
    }

    /** What the tag at k writes itself; None where rendering fails. */
    function Written(k: nat, stack: seq<Json>): Option<string>
      requires Fits(body, fragments, actions) && k < |actions| && stack != []
    {
      if !actions[k].kind.Tag? && !actions[k].kind.UnescapeTag? then Some("")
      else
        match Meaning(TagName(body, actions[k]), stack)
        case None => Some("")
        case Some(Number(dumped)) => Some(dumped)
        case Some(String(text)) => Some(if actions[k].kind.Tag? then EscapeHtml(text) else text)
        case Some(_) => None
    }

    /** The contexts in which the block opened at k is rendered. */
    function Contexts(k: nat, stack: seq<Json>): seq<Json>
      requires Fits(body, fragments, actions) && k < |actions| && stack != []
    {
      var found := Meaning(TagName(body, actions[k]), stack);
      if actions[k].kind.OpenBlock? then SectionContexts(found) else InvertedContexts(found)
    }

    /** The text of the actions of f followed by the literal before action e. */
    ghost function Denote(f: Forest, b: nat, e: nat, stack: seq<Json>): Option<string>
      requires Fits(body, fragments, actions) && stack != []
      requires e < |actions| && Covers(body, actions, f, b, e)
      decreases f, 0, 0
    {
      match f
      case Nil => Some(Literal(e))
      case Leaf(at, rest) =>
        Join(Join(Some(Literal(at)), Written(at, stack)), Denote(rest, b + 1, e, stack))
      case Block(open, inside, close, rest) =>
        var each := DenoteEach(inside, open + 1, close, stack, Contexts(open, stack));
        Join(Join(Some(Literal(open)), each), Denote(rest, close + 1, e, stack))
    }

    /** f once in each of the contexts, each pushed alone on the stack. */
    ghost function DenoteEach(f: Forest, b: nat, e: nat, stack: seq<Json>, contexts: seq<Json>): Option<string>
      requires Fits(body, fragments, actions) && stack != []
      requires e < |actions| && Covers(body, actions, f, b, e)
      decreases f, 1, |contexts|
    {
      if contexts == [] then Some("")
      else
        var n := |contexts| - 1;
        Join(DenoteEach(f, b, e, stack, contexts[..n]), Denote(f, b, e, stack + [contexts[n]]))
    }

    /** `out` is `start` and then f in each of the contexts. */
    ghost predicate EachWritten(f: Forest, b: nat, e: nat, stack: seq<Json>, contexts: seq<Json>, start: string, out: string)
      requires Fits(body, fragments, actions) && stack != []
      requires e < |actions| && Covers(body, actions, f, b, e)
    {
      var each := DenoteEach(f, b, e, stack, contexts);
      each.Some? && out == start + each.value
    }

    lemma EachStarts(f: Forest, b: nat, e: nat, stack: seq<Json>, contexts: seq<Json>, start: string)
      requires Fits(body, fragments, actions) && stack != []
      requires e < |actions| && Covers(body, actions, f, b, e)
      ensures EachWritten(f, b, e, stack, contexts[..0], start, start)
    {
      assert start + "" == start;
    }

    lemma EachGrows(f: Forest, b: nat, e: nat, stack: seq<Json>, contexts: seq<Json>, k: nat, start: string, before: string, after: string)
      requires Fits(body, fragments, actions) && stack != [] && k < |contexts|
      requires e < |actions| && Covers(body, actions, f, b, e)
      requires EachWritten(f, b, e, stack, contexts[..k], start, before)
      requires var one := Denote(f, b, e, stack + [contexts[k]]); one.Some? && after == before + one.value
      ensures EachWritten(f, b, e, stack, contexts[..k + 1], start, after)
    {
      hide Denote, Covers, Fits;
      assert contexts[..k + 1][..k] == contexts[..k];
      var each, one := DenoteEach(f, b, e, stack, contexts[..k]).value, Denote(f, b, e, stack + [contexts[k]]).value;
      assert start + each + one == start + (each + one);
    }
  }

  function Join(a: Option<string>, b: Option<string>): Option<string> {
    if a.Some? && b.Some? then Some(a.value + b.value) else None
  }

  lemma JoinAssociates(a: Option<string>, b: Option<string>, c: Option<string>)
    ensures Join(Join(a, b), c) == Join(a, Join(b, c))
  {
    if a.Some? && b.Some? && c.Some? {
      assert (a.value + b.value) + c.value == a.value + (b.value + c.value);
    }
  }

  /** One failing rendering fails the block. */
  lemma {:induction false} EachFails(c: Compiled, f: Forest, b: nat, e: nat, stack: seq<Json>, contexts: seq<Json>, k: nat)
    requires c.Valid() && stack != [] && e < |c.actions| && Covers(c.body, c.actions, f, b, e)
    requires k < |contexts| && c.Denote(f, b, e, stack + [contexts[k]]).None?
    ensures c.DenoteEach(f, b, e, stack, contexts).None?
    decreases |contexts|
  {
    var n := |contexts| - 1;
    if k < n {
      EachFails(c, f, b, e, stack, contexts[..n], k);
    }
  }

  lemma EachOfOne(c: Compiled, f: Forest, b: nat, e: nat, stack: seq<Json>, context: Json)
    requires c.Valid() && stack != [] && e < |c.actions| && Covers(c.body, c.actions, f, b, e)
    ensures c.DenoteEach(f, b, e, stack, [context]) == c.Denote(f, b, e, stack + [context])
  {
    assert [context][..0] == [];
    var d := c.Denote(f, b, e, stack + [context]);
    assert d.Some? ==> "" + d.value == d.value;
  }

  // ---- The rest of a rendering loop -------------------------------------------------------------------

  /** What is left to do after the current block: close it, go on with `rest`, then what follows that. */
  datatype Frames = Done(e: nat) | After(close: nat, rest: Forest, outer: Frames)

  function Depth(k: Frames): nat { if k.Done? then 0 else 1 + Depth(k.outer) }

  function End(k: Frames): nat { if k.Done? then k.e else End(k.outer) }

  ghost predicate CoversFrames(c: Compiled, f: Forest, k: Frames, b: nat)
    requires c.Valid()
    decreases k
  {
    match k
    case Done(e) => Covers(c.body, c.actions, f, b, e)
    case After(close, rest, outer) =>
      && Covers(c.body, c.actions, f, b, close) && close < |c.actions| && c.actions[close].kind.CloseBlock?
      && CoversFrames(c, rest, outer, close + 1)
  }

  lemma {:induction false} FramesBounds(c: Compiled, f: Forest, k: Frames, b: nat)
    requires c.Valid() && CoversFrames(c, f, k, b)
    ensures b <= End(k) && End(k) <= |c.actions|
    ensures k.After? ==> b <= k.close < End(k)
    decreases k
  {
    match k
    case Done(e) => CoversBounds(c.body, c.actions, f, b, e);
    case After(close, rest, outer) =>
      CoversBounds(c.body, c.actions, f, b, close);
      FramesBounds(c, rest, outer, close + 1);
  }

  ghost function DenoteFrames(c: Compiled, f: Forest, k: Frames, b: nat, stack: seq<Json>): Option<string>
    requires c.Valid() && CoversFrames(c, f, k, b) && |stack| > Depth(k) && End(k) < |c.actions|
    decreases k
  {
    FramesBounds(c, f, k, b);
    match k
    case Done(e) => c.Denote(f, b, e, stack)
    case After(close, rest, outer) =>
      Join(c.Denote(f, b, close, stack), DenoteFrames(c, rest, outer, close + 1, stack[..|stack| - 1]))
  }

  lemma LeafStep(c: Compiled, f: Forest, k: Frames, b: nat, stack: seq<Json>)
    requires c.Valid() && CoversFrames(c, f, k, b) && |stack| > Depth(k) && End(k) < |c.actions| && f.Leaf?
    ensures b < End(k) && CoversFrames(c, f.rest, k, b + 1)
    ensures DenoteFrames(c, f, k, b, stack)
            == Join(Join(Some(c.Literal(b)), c.Written(b, stack)), DenoteFrames(c, f.rest, k, b + 1, stack))
  {
    FramesBounds(c, f, k, b);
    FramesBounds(c, f.rest, k, b + 1);
    hide Compiled.Written, Compiled.Literal, Fits, Join;
    if k.After? {
      JoinAssociates(Join(Some(c.Literal(b)), c.Written(b, stack)), c.Denote(f.rest, b + 1, k.close, stack),
                     DenoteFrames(c, k.rest, k.outer, k.close + 1, stack[..|stack| - 1]));
    }
  }

  lemma BlockCovers(c: Compiled, f: Forest, k: Frames, b: nat)
    requires c.Valid() && CoversFrames(c, f, k, b) && f.Block?
    ensures b < f.close < End(k) <= |c.actions| && CoversFrames(c, f.rest, k, f.close + 1)
    ensures k.After? ==> f.close < k.close && Covers(c.body, c.actions, f.rest, f.close + 1, k.close)
  {
    hide Fits;
    FramesBounds(c, f, k, b);
    FramesBounds(c, f.rest, k, f.close + 1);
  }

  /** Rendering a block: its own text, then what follows it. */
  lemma BlockStep(c: Compiled, f: Forest, k: Frames, b: nat, stack: seq<Json>)
    requires c.Valid() && CoversFrames(c, f, k, b) && |stack| > Depth(k) && End(k) < |c.actions| && f.Block?
    ensures b < f.close < End(k) && CoversFrames(c, f.rest, k, f.close + 1)
    ensures DenoteFrames(c, f, k, b, stack)
            == Join(Join(Some(c.Literal(b)), c.DenoteEach(f.inside, b + 1, f.close, stack, c.Contexts(b, stack))),
                    DenoteFrames(c, f.rest, k, f.close + 1, stack))
  {
    hide *;
    BlockCovers(c, f, k, b);
    FramesStep(c, f, k, b, stack);
    FramesStep(c, f.rest, k, f.close + 1, stack);
    FirstCovers(c, f, k, b);
    if k.After? {
      BlockBounds(c, f, b, k.close);
      BlockText(c, f, b, k.close, stack);
      JoinAssociates(Join(Some(c.Literal(b)), c.DenoteEach(f.inside, b + 1, f.close, stack, c.Contexts(b, stack))),
                     c.Denote(f.rest, f.close + 1, k.close, stack),
                     DenoteFrames(c, k.rest, k.outer, k.close + 1, stack[..|stack| - 1]));
    } else {
      BlockBounds(c, f, b, k.e);
      BlockText(c, f, b, k.e, stack);
    }
  }

  lemma FirstCovers(c: Compiled, f: Forest, k: Frames, b: nat)
    requires c.Valid() && CoversFrames(c, f, k, b)
    ensures k.Done? ==> k.e <= |c.actions| && Covers(c.body, c.actions, f, b, k.e)
    ensures k.After? ==> k.close < |c.actions| && Covers(c.body, c.actions, f, b, k.close) && CoversFrames(c, k.rest, k.outer, k.close + 1)
  {
    FramesBounds(c, f, k, b);
    hide Fits, Covers;
  }

  lemma FramesStep(c: Compiled, f: Forest, k: Frames, b: nat, stack: seq<Json>)
    requires c.Valid() && CoversFrames(c, f, k, b) && |stack| > Depth(k) && End(k) < |c.actions|
    ensures stack != [] && Fits(c.body, c.fragments, c.actions)
    ensures k.Done? ==> k.e < |c.actions| && Covers(c.body, c.actions, f, b, k.e) && DenoteFrames(c, f, k, b, stack) == c.Denote(f, b, k.e, stack)
    ensures k.After? ==>
              && k.close < |c.actions| && Covers(c.body, c.actions, f, b, k.close) && |stack| > 1
              && CoversFrames(c, k.rest, k.outer, k.close + 1) && End(k.outer) < |c.actions| && |stack| - 1 > Depth(k.outer)
              && DenoteFrames(c, f, k, b, stack)
                 == Join(c.Denote(f, b, k.close, stack), DenoteFrames(c, k.rest, k.outer, k.close + 1, stack[..|stack| - 1]))
  {
    FirstCovers(c, f, k, b);
    FramesBounds(c, f, k, b);
    hide Fits, Covers, Join, Compiled.Denote;
  }

  lemma BlockBounds(c: Compiled, f: Forest, b: nat, e: nat)
    requires c.Valid() && f.Block? && Covers(c.body, c.actions, f, b, e) && e < |c.actions|
    ensures Fits(c.body, c.fragments, c.actions) && f.open == b < f.close < e && |c.fragments| == |c.actions|
    ensures Covers(c.body, c.actions, f.inside, b + 1, f.close) && Covers(c.body, c.actions, f.rest, f.close + 1, e)
  {
    CoversBounds(c.body, c.actions, f, b, e);
    hide Fits;
  }

  lemma BlockText(c: Compiled, f: Forest, b: nat, e: nat, stack: seq<Json>)
    requires c.Valid() && f.Block? && Covers(c.body, c.actions, f, b, e) && e < |c.actions| && stack != []
    requires Fits(c.body, c.fragments, c.actions) && f.open == b < f.close < e && |c.fragments| == |c.actions|
    requires Covers(c.body, c.actions, f.inside, b + 1, f.close) && Covers(c.body, c.actions, f.rest, f.close + 1, e)
    ensures c.Denote(f, b, e, stack)
            == Join(Join(Some(c.Literal(b)), c.DenoteEach(f.inside, b + 1, f.close, stack, c.Contexts(b, stack))),
                    c.Denote(f.rest, f.close + 1, e, stack))
  {
    hide Compiled.DenoteEach, Compiled.Contexts, Compiled.Literal, Join, Fits, Covers;
  }

  lemma EnterCovers(c: Compiled, f: Forest, k: Frames, b: nat)
    requires c.Valid() && CoversFrames(c, f, k, b) && f.Block?
    ensures Fits(c.body, c.fragments, c.actions) && b < f.close < |c.actions| == |c.fragments|
    ensures Covers(c.body, c.actions, f.inside, b + 1, f.close) && CoversFrames(c, f.inside, After(f.close, f.rest, k), b + 1)
  {
    FramesBounds(c, f, k, b);
    hide Fits;
  }

  /** The inside of a block, followed by what comes after it. */
  lemma InsideThenRest(c: Compiled, f: Forest, k: Frames, b: nat, stack: seq<Json>, context: Json)
    requires c.Valid() && CoversFrames(c, f, k, b) && |stack| > Depth(k) && End(k) < |c.actions| && f.Block?
    requires CoversFrames(c, f.rest, k, f.close + 1)
    requires f.close < |c.actions| && Covers(c.body, c.actions, f.inside, b + 1, f.close)
    requires CoversFrames(c, f.inside, After(f.close, f.rest, k), b + 1)
    ensures DenoteFrames(c, f.inside, After(f.close, f.rest, k), b + 1, stack + [context])
            == Join(c.Denote(f.inside, b + 1, f.close, stack + [context]), DenoteFrames(c, f.rest, k, f.close + 1, stack))
  {
    hide Fits, Compiled.Denote, Covers, Join, CoversFrames;
    assert (stack + [context])[..|stack + [context]| - 1] == stack;
  }

  /** A block rendered once may be entered in place, with its context pushed until its close. */
  lemma EnterStep(c: Compiled, f: Forest, k: Frames, b: nat, stack: seq<Json>, context: Json)
    requires c.Valid() && CoversFrames(c, f, k, b) && |stack| > Depth(k) && End(k) < |c.actions| && f.Block?
    requires c.Contexts(b, stack) == [context]
    ensures CoversFrames(c, f.inside, After(f.close, f.rest, k), b + 1)
    ensures DenoteFrames(c, f, k, b, stack)
            == Join(Some(c.Literal(b)), DenoteFrames(c, f.inside, After(f.close, f.rest, k), b + 1, stack + [context]))
  {
    hide *;
    EnterCovers(c, f, k, b);
    BlockStep(c, f, k, b, stack);
    EachOfOne(c, f.inside, b + 1, f.close, stack, context);
    InsideThenRest(c, f, k, b, stack, context);
    JoinAssociates(Some(c.Literal(b)), c.Denote(f.inside, b + 1, f.close, stack + [context]),
                   DenoteFrames(c, f.rest, k, f.close + 1, stack));
  }

  /** One call of the rendering loop: where it ends, the stack it found and what it must have written when it is done. */
  datatype Run = Run(c: Compiled, end: nat, found: seq<Json>, whole: Option<string>) {
    ghost predicate At(todo: Forest, frames: Frames, b: nat, stack: seq<Json>, out: string)
      requires c.Valid()
    {
      && CoversFrames(c, todo, frames, b) && End(frames) == end < |c.actions|
      && found != [] && found <= stack && |stack| == |found| + Depth(frames)
      && whole == Join(Some(out), DenoteFrames(c, todo, frames, b, stack))
    }

    /** The next action tells which part of the nesting comes next. */
    lemma AtKind(todo: Forest, frames: Frames, b: nat, stack: seq<Json>, out: string)
      requires c.Valid() && At(todo, frames, b, stack, out) && b < end
      ensures todo.Block? <==> IsOpen(c.actions[b])
      ensures todo.Nil? <==> c.actions[b].kind.CloseBlock?
      ensures todo.Nil? ==> frames.After? && frames.close == b
      ensures todo.Block? ==> c.actions[b].pos == todo.close && b < todo.close < end
      ensures todo.Block? ==> Covers(c.body, c.actions, todo.inside, b + 1, todo.close)
    {
      hide DenoteFrames, Join, Fits;
      FramesBounds(c, todo, frames, b);
      if todo.Block? { FramesBounds(c, todo.rest, frames, todo.close + 1); }
    }

    lemma AtEnd(todo: Forest, frames: Frames, b: nat, stack: seq<Json>, out: string)
      requires c.Valid() && At(todo, frames, b, stack, out) && end <= b
      ensures b == end && stack == found && whole == Some(out + c.Literal(end))
    {
      FramesBounds(c, todo, frames, b);
      CoversBounds(c.body, c.actions, todo, b, end);
    }

    lemma PassLeaf(todo: Forest, frames: Frames, b: nat, stack: seq<Json>, out: string)
      requires c.Valid() && At(todo, frames, b, stack, out) && todo.Leaf?
      ensures c.Written(b, stack).None? ==> whole.None?
      ensures c.Written(b, stack).Some? ==> At(todo.rest, frames, b + 1, stack, out + c.Literal(b) + c.Written(b, stack).value)
    {
      LeafStep(c, todo, frames, b, stack);
      JoinAssociates(Some(out), Join(Some(c.Literal(b)), c.Written(b, stack)), DenoteFrames(c, todo.rest, frames, b + 1, stack));
      JoinAssociates(Some(out), Some(c.Literal(b)), c.Written(b, stack));
    }

    lemma PassBlock(todo: Forest, frames: Frames, b: nat, stack: seq<Json>, out: string, each: Option<string>)
      requires c.Valid() && At(todo, frames, b, stack, out) && todo.Block?
      requires each == c.DenoteEach(todo.inside, b + 1, todo.close, stack, c.Contexts(b, stack))
      ensures each.None? ==> whole.None?
      ensures each.Some? ==> At(todo.rest, frames, todo.close + 1, stack, out + c.Literal(b) + each.value)
    {
      BlockStep(c, todo, frames, b, stack);
      JoinAssociates(Some(out), Join(Some(c.Literal(b)), each), DenoteFrames(c, todo.rest, frames, todo.close + 1, stack));
      JoinAssociates(Some(out), Some(c.Literal(b)), each);
    }

    lemma Skip(todo: Forest, frames: Frames, b: nat, stack: seq<Json>, out: string)
      requires c.Valid() && At(todo, frames, b, stack, out) && todo.Block? && c.Contexts(b, stack) == []
      ensures At(todo.rest, frames, todo.close + 1, stack, out + c.Literal(b))
    {
      PassBlock(todo, frames, b, stack, out, Some(""));
      assert out + c.Literal(b) + "" == out + c.Literal(b);
    }

    lemma Enter(todo: Forest, frames: Frames, b: nat, stack: seq<Json>, out: string, context: Json)
      requires c.Valid() && At(todo, frames, b, stack, out) && todo.Block? && c.Contexts(b, stack) == [context]
      ensures At(todo.inside, After(todo.close, todo.rest, frames), b + 1, stack + [context], out + c.Literal(b))
    {
      EnterStep(c, todo, frames, b, stack, context);
      JoinAssociates(Some(out), Some(c.Literal(b)),
                     DenoteFrames(c, todo.inside, After(todo.close, todo.rest, frames), b + 1, stack + [context]));
    }

    lemma Leave(todo: Forest, frames: Frames, b: nat, stack: seq<Json>, out: string)
      requires c.Valid() && At(todo, frames, b, stack, out) && todo.Nil? && frames.After?
      ensures At(frames.rest, frames.outer, b + 1, stack[..|stack| - 1], out + c.Literal(b))
    {
      JoinAssociates(Some(out), Some(c.Literal(b)),
                     DenoteFrames(c, frames.rest, frames.outer, b + 1, stack[..|stack| - 1]));
    }
  }
}

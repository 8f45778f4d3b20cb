/** Two passes over compiled templates: matching blocks while tags arrive, and dropping the lines of standalone tags. */
module MustacheLayout {
  import opened Bytes
  import opened Sequences
  import opened MustacheTemplate
  import opened MustacheMeaning

  // ---- How far scanning has come ------------------------------------------------------------------------

  /** n tags read; `more` is what scanning the rest will give. */
  ghost predicate Scanning(fragments: seq<Fragment>, n: nat, scan: Scan, more: Scan) {
    && |fragments| == n <= |scan.tags| && fragments + more.fragments == scan.fragments
    && scan.tags[n..] == more.tags && scan.ok == more.ok
  }

  lemma ScanStep(body: string, from: nat, open: string, close: string, fragments: seq<Fragment>, n: nat, scan: Scan, more: Scan)
    requires from <= |body| && open != "" && close != ""
    requires more == ScanFrom(body, from, open, close) && Scanning(fragments, n, scan, more)
    requires ReadTag(body, from, open, close).Found?
    ensures var found := ReadTag(body, from, open, close);
            && n < |scan.tags| && scan.tags[n] == found.action
            && Scanning(fragments + [Fragment(from, found.at)], n + 1, scan, ScanFrom(body, found.next, found.open, found.close))
  {
    hide ReadTag;
    var found := ReadTag(body, from, open, close);
    var rest := ScanFrom(body, found.next, found.open, found.close);
    Shift(scan.tags, n, found.action, rest.tags);
    Regroup(fragments, [Fragment(from, found.at)], rest.fragments);
  }

  lemma Shift<T>(xs: seq<T>, n: nat, head: T, rest: seq<T>)
    requires n <= |xs| && xs[n..] == [head] + rest
    ensures n < |xs| && xs[n] == head && xs[n + 1..] == rest
  {
    assert xs[n] == xs[n..][0];
    assert xs[n..][1..] == xs[n + 1..];
  }

  lemma Starts(body: string, scan: Scan)
    requires scan == ScanFrom(body, 0, "{{", "}}")
    ensures AllFit(body, scan.tags) && Matching(body, [], scan.tags, [], [Nil]) && Scanning([], 0, scan, scan)
  {
    hide ReadTag;
  }

  lemma ScanEnds(body: string, from: nat, open: string, close: string, fragments: seq<Fragment>, n: nat, scan: Scan, more: Scan)
    requires from <= |body| && open != "" && close != ""
    requires more == ScanFrom(body, from, open, close) && Scanning(fragments, n, scan, more)
    ensures ReadTag(body, from, open, close).Bad? ==> n == |scan.tags| && !scan.ok
    ensures ReadTag(body, from, open, close).Last? ==>
              && |scan.tags| == n + 1 && scan.tags[n] == Action(Ignore, 0, 0, 0) && scan.ok
              && scan.fragments == fragments + [Fragment(from, |body|)]
  {
    var reading := ReadTag(body, from, open, close);
    if reading.Last? {
      assert scan.tags[n] == more.tags[0];
    }
  }

  // ---- Blocks still open ------------------------------------------------------------------------------

  predicate AllFit(body: string, actions: seq<Action>) { forall k :: 0 <= k < |actions| ==> ActionFits(body, actions[k]) }

  /** One forest for each open block and one for the top level, each reaching up to the next block's opening. */
  ghost predicate Levels(body: string, actions: seq<Action>, levels: seq<Forest>, blocks: seq<nat>, n: nat)
    requires AllFit(body, actions)
    decreases |blocks|
  {
    && |levels| == |blocks| + 1 && n <= |actions|
    && if blocks == [] then Covers(body, actions, levels[0], 0, n)
       else
         var top := |blocks| - 1;
         && blocks[top] < n && IsOpen(actions[blocks[top]]) && actions[blocks[top]].pos == 0
         && Covers(body, actions, levels[top + 1], blocks[top] + 1, n)
         && Levels(body, actions, levels[..top + 1], blocks[..top], blocks[top])
  }

  lemma {:induction false} LevelsFrame(body: string, actions: seq<Action>, others: seq<Action>, levels: seq<Forest>, blocks: seq<nat>, n: nat)
    requires AllFit(body, actions) && AllFit(body, others)
    requires Levels(body, actions, levels, blocks, n) && n <= |others|
    requires forall k :: 0 <= k < n ==> others[k] == actions[k]
    ensures Levels(body, others, levels, blocks, n)
    decreases |blocks|
  {
    if blocks == [] {
      CoversFrame(body, actions, others, levels[0], 0, n);
    } else {
      var top := |blocks| - 1;
      CoversFrame(body, actions, others, levels[top + 1], blocks[top] + 1, n);
      LevelsFrame(body, actions, others, levels[..top + 1], blocks[..top], blocks[top]);
    }
  }

  /** Something new at the innermost level. */
  lemma LevelsExtend(body: string, actions: seq<Action>, levels: seq<Forest>, blocks: seq<nat>, n: nat, g: Forest, e: nat)
    requires AllFit(body, actions) && Levels(body, actions, levels, blocks, n)
    requires Covers(body, actions, g, n, e)
    ensures |levels| == |blocks| + 1
    ensures Levels(body, actions, levels[|blocks| := Append(levels[|blocks|], g)], blocks, e)
  {
    hide Covers;
    var top := |blocks|;
    var wider := levels[top := Append(levels[top], g)];
    CoversBounds(body, actions, g, n, e);
    if blocks == [] {
      CoversAppend(body, actions, levels[0], g, 0, n, e);
    } else {
      CoversAppend(body, actions, levels[top], g, blocks[top - 1] + 1, n, e);
      assert wider[..top] == levels[..top];
    }
    assert e <= |actions| by { CoversLength(body, actions, g, n, e); }
  }

  lemma CoversLength(body: string, actions: seq<Action>, g: Forest, n: nat, e: nat)
    requires AllFit(body, actions) && Covers(body, actions, g, n, e)
    ensures e <= |actions|
  {}

  lemma LevelsLeaf(body: string, actions: seq<Action>, action: Action, levels: seq<Forest>, blocks: seq<nat>) returns (levels': seq<Forest>)
    requires AllFit(body, actions) && ActionFits(body, action) && Levels(body, actions, levels, blocks, |actions|)
    requires !IsOpen(action) && !action.kind.CloseBlock?
    ensures Levels(body, actions + [action], levels', blocks, |actions| + 1)
  {
    hide Levels;
    var more := actions + [action];
    LevelsFrame(body, actions, more, levels, blocks, |actions|);
    LevelsExtend(body, more, levels, blocks, |actions|, Leaf(|actions|, Nil), |actions| + 1);
    levels' := levels[|blocks| := Append(levels[|blocks|], Leaf(|actions|, Nil))];
  }

  lemma LevelsOpen(body: string, actions: seq<Action>, action: Action, levels: seq<Forest>, blocks: seq<nat>) returns (levels': seq<Forest>)
    requires AllFit(body, actions) && ActionFits(body, action) && Levels(body, actions, levels, blocks, |actions|)
    requires IsOpen(action) && action.pos == 0
    ensures Levels(body, actions + [action], levels', blocks + [|actions|], |actions| + 1)
  {
    var more := actions + [action];
    levels' := levels + [Nil];
    LevelsFrame(body, actions, more, levels, blocks, |actions|);
    assert levels'[..|levels|] == levels;
    assert (blocks + [|actions|])[..|blocks|] == blocks;
  }

  /** The partner of the innermost block: both learn each other's index and the block moves one level out. */
  lemma LevelsClose(body: string, actions: seq<Action>, action: Action, levels: seq<Forest>, blocks: seq<nat>) returns (levels': seq<Forest>)
    requires AllFit(body, actions) && ActionFits(body, action) && Levels(body, actions, levels, blocks, |actions|)
    requires blocks != [] && action.kind.CloseBlock? && action.pos == blocks[|blocks| - 1] < |actions|
    requires TagName(body, actions[action.pos]) == TagName(body, action)
    ensures Levels(body, actions[action.pos := actions[action.pos].(pos := |actions|)] + [action], levels',
                   blocks[..|blocks| - 1], |actions| + 1)
  {
    var open, n, top := action.pos, |actions|, |blocks| - 1;
    var more := actions[open := actions[open].(pos := n)] + [action];
    var outer := levels[..top + 1];
    assert AllFit(body, more);
    assert TagName(body, more[open]) == TagName(body, more[n]);
    hide ActionFits, TagName;
    assert Levels(body, actions, outer, blocks[..top], open);
    LevelsFrame(body, actions, more, outer, blocks[..top], open);
    CoversFrame(body, actions, more, levels[top + 1], open + 1, n);
    var block := Block(open, levels[top + 1], n, Nil);
    assert Covers(body, more, Nil, n + 1, n + 1);
    assert Covers(body, more, block, open, n + 1);
    LevelsExtend(body, more, outer, blocks[..top], open, block, n + 1);
    levels' := outer[top := Append(outer[top], block)];
  }

  /** The compiled actions match the tags read so far, `blocks` are the open ones, `levels` the nesting between them. */
  ghost predicate Matching(body: string, actions: seq<Action>, tags: seq<Action>, blocks: seq<nat>, levels: seq<Forest>)
    requires AllFit(body, tags)
  {
    && |actions| <= |tags| && AllFit(body, actions)
    && (forall k :: 0 <= k < |actions| ==> actions[k] == tags[k].(pos := actions[k].pos))
    && BlocksAfter(body, tags, |actions|) == Pending(blocks)
    && Levels(body, actions, levels, blocks, |actions|)
  }

  lemma MatchingLeaf(body: string, actions: seq<Action>, tags: seq<Action>, blocks: seq<nat>, levels: seq<Forest>, action: Action)
    returns (levels': seq<Forest>)
    requires AllFit(body, tags) && Matching(body, actions, tags, blocks, levels)
    requires |actions| < |tags| && tags[|actions|] == action && !IsOpen(action) && !action.kind.CloseBlock?
    ensures Matching(body, actions + [action], tags, blocks, levels')
  {
    hide Levels;
    levels' := LevelsLeaf(body, actions, action, levels, blocks);
  }

  lemma MatchingOpen(body: string, actions: seq<Action>, tags: seq<Action>, blocks: seq<nat>, levels: seq<Forest>, action: Action)
    returns (levels': seq<Forest>)
    requires AllFit(body, tags) && Matching(body, actions, tags, blocks, levels)
    requires |actions| < |tags| && tags[|actions|] == action && IsOpen(action) && action.pos == 0
    ensures Matching(body, actions + [action], tags, blocks + [|actions|], levels')
  {
    hide Levels;
    levels' := LevelsOpen(body, actions, action, levels, blocks);
  }

  lemma MatchingClose(body: string, actions: seq<Action>, tags: seq<Action>, blocks: seq<nat>, levels: seq<Forest>, action: Action)
    returns (levels': seq<Forest>)
    requires AllFit(body, tags) && Matching(body, actions, tags, blocks, levels)
    requires |actions| < |tags| && action.kind.CloseBlock? && tags[|actions|] == action.(pos := 0)
    requires blocks != [] && action.pos == blocks[|blocks| - 1] < |actions|
    requires TagName(body, actions[action.pos]) == TagName(body, action)
    ensures Matching(body, actions[action.pos := actions[action.pos].(pos := |actions|)] + [action], tags,
                     blocks[..|blocks| - 1], levels')
  {
    hide Levels;
    var n := |actions|;
    levels' := LevelsClose(body, actions, action, levels, blocks);
    assert TagName(body, tags[action.pos]) == TagName(body, actions[action.pos]);
    assert TagName(body, tags[n]) == TagName(body, action);
    assert BlocksAfter(body, tags, n + 1) == Pending(blocks[..|blocks| - 1]);
  }

  lemma MatchingPending(body: string, actions: seq<Action>, tags: seq<Action>, blocks: seq<nat>, levels: seq<Forest>)
    requires AllFit(body, tags) && Matching(body, actions, tags, blocks, levels)
    ensures |actions| <= |tags| && AllFit(body, actions) && BlocksAfter(body, tags, |actions|) == Pending(blocks)
  {}

  /** The actions are the tags; unclosed blocks point to 0, and when there are none the others nest. */
  ghost predicate Compiles(body: string, actions: seq<Action>, tags: seq<Action>, unclosed: seq<nat>) {
    && |actions| == |tags| > 0 && AllFit(body, actions)
    && (forall k :: 0 <= k < |actions| ==> actions[k] == tags[k].(pos := actions[k].pos))
    && (forall k :: 0 <= k < |unclosed| ==> unclosed[k] < |actions| && actions[unclosed[k]].pos == 0)
    && (unclosed == [] ==> exists f :: Nested(body, actions, f))
  }

  /** The nesting of compiled actions; the last action only ends the list. */
  ghost predicate Nested(body: string, actions: seq<Action>, f: Forest) {
    AllFit(body, actions) && actions != [] && Covers(body, actions, f, 0, |actions| - 1)
  }

  lemma {:induction false} UnclosedPointNowhere(body: string, actions: seq<Action>, levels: seq<Forest>, blocks: seq<nat>, n: nat)
    requires AllFit(body, actions) && Levels(body, actions, levels, blocks, n)
    ensures forall k :: 0 <= k < |blocks| ==> blocks[k] < n <= |actions| && actions[blocks[k]].pos == 0
    decreases |blocks|
  {
    if blocks != [] {
      var top := |blocks| - 1;
      UnclosedPointNowhere(body, actions, levels[..top + 1], blocks[..top], blocks[top]);
      forall k | 0 <= k < |blocks| ensures blocks[k] < n && actions[blocks[k]].pos == 0 {
        if k < top { assert blocks[..top][k] == blocks[k]; }
      }
    }
  }

  lemma NothingOpenNests(body: string, actions: seq<Action>, levels: seq<Forest>, more: seq<Action>)
    requires AllFit(body, actions) && Levels(body, actions, levels, [], |actions|)
    requires AllFit(body, more) && more == actions + [Action(Ignore, 0, 0, 0)]
    ensures exists f :: Nested(body, more, f)
  {
    hide ActionFits;
    assert Covers(body, actions, levels[0], 0, |actions|);
    CoversFrame(body, actions, more, levels[0], 0, |actions|);
    assert Nested(body, more, levels[0]);
  }

  /** After the last literal. */
  lemma MatchingEnds(body: string, actions: seq<Action>, tags: seq<Action>, blocks: seq<nat>, levels: seq<Forest>)
    requires AllFit(body, tags) && Matching(body, actions, tags, blocks, levels)
    requires |tags| == |actions| + 1 && tags[|actions|] == Action(Ignore, 0, 0, 0)
    ensures BlocksAfter(body, tags, |tags|) == Pending(blocks)
    ensures Compiles(body, actions + [Action(Ignore, 0, 0, 0)], tags, blocks)
  {
    hide Levels, Nested, Covers;
    var more := actions + [Action(Ignore, 0, 0, 0)];
    UnclosedPointNowhere(body, actions, levels, blocks, |actions|);
    assert AllFit(body, more);
    if blocks == [] {
      NothingOpenNests(body, actions, levels, more);
    }
  }

  // ---- Standalone tags --------------------------------------------------------------------------------

  /** Where the trailing spaces of body[first..second] begin. */
  function SpacesBack(body: string, first: nat, second: nat): (r: nat)
    requires second <= |body|
    ensures r <= second && (first <= second ==> first <= r) && forall k :: r <= k < second ==> body[k] == ' '
    ensures r > first ==> body[r - 1] != ' '
  {
    if second > first && body[second - 1] == ' ' then SpacesBack(body, first, second - 1) else second
  }

  /** Where the leading spaces of body[first..second] end. */
  function SpacesOn(body: string, first: nat, second: nat): (r: nat)
    requires second <= |body|
    ensures r >= first && (first <= second ==> r <= second) && forall k :: first <= k < r ==> k < |body| && body[k] == ' '
    ensures r < second ==> body[r] != ' '
    decreases second - first
  {
    if first < second && body[first] == ' ' then SpacesOn(body, first + 1, second) else first
  }

  datatype Cut = Keep | Cut(second: nat, first: nat)

  /** For a tag alone on its line: where the text before it is cut off and where the text after it starts. */
  function Standalone(body: string, before: Fragment, after: Fragment, isFirst: bool, isLast: bool): (r: Cut)
    requires before.second <= |body| && after.first <= |body| && after.second <= |body|
    ensures r.Cut? ==> r.second <= before.second && after.first <= r.first <= |body|
    ensures r.Cut? ==> forall k :: r.second <= k < before.second ==> body[k] == ' '
    ensures r.Cut? ==> (r.second > before.first && body[r.second - 1] == '\n') || (isFirst && r.second <= before.first)
    ensures r.Cut? && r.first == after.first ==> isLast && forall k :: after.first <= k < after.second ==> body[k] == ' '
    ensures r.Cut? && r.first != after.first ==>
              body[r.first - 1] == '\n' && forall k :: after.first <= k < r.first - 1 ==> body[k] in " \r"
  {
    var m := SpacesBack(body, before.first, before.second);
    var k := SpacesOn(body, after.first, after.second);
    if m <= before.first && !isFirst then Keep
    else if m > before.first && body[m - 1] != '\n' then Keep
    else if k >= after.second then (if isLast then Cut(m, after.first) else Keep)
    else if body[k] == '\n' then Cut(m, k + 1)
    else if body[k] == '\r' && k + 1 < |body| && body[k + 1] == '\n' then Cut(m, k + 2)
    else Keep
  }

  predicate AllSpaces(body: string, i: nat, j: nat)
    requires j <= |body|
  {
    forall k :: i <= k < j ==> body[k] == ' '
  }

  /** Nothing but spaces from the start of a line, or of the template, up to the tag. */
  ghost predicate LineStarts(body: string, before: Fragment, isFirst: bool)
    requires before.second <= |body|
  {
    || (isFirst && AllSpaces(body, before.first, before.second))
    || exists m: nat :: before.first < m <= before.second && body[m - 1] == '\n' && AllSpaces(body, m, before.second)
  }

  /** A line end stands at k. */
  predicate LineEndsAt(body: string, k: nat) {
    k < |body| && (body[k] == '\n' || (body[k] == '\r' && k + 1 < |body| && body[k + 1] == '\n'))
  }

  /** Nothing but spaces from the tag on to a line end, or to the end of the template. */
  ghost predicate LineEnds(body: string, after: Fragment, isLast: bool)
    requires after.second <= |body|
  {
    || (isLast && AllSpaces(body, after.first, after.second))
    || exists k: nat :: after.first <= k < after.second && LineEndsAt(body, k) && AllSpaces(body, after.first, k)
  }

  /** A tag is cut out with its line exactly when it stands alone on it. */
  lemma StandaloneIff(body: string, before: Fragment, after: Fragment, isFirst: bool, isLast: bool)
    requires before.first <= before.second <= |body| && after.first <= after.second <= |body|
    ensures Standalone(body, before, after, isFirst, isLast).Cut?
            <==> LineStarts(body, before, isFirst) && LineEnds(body, after, isLast)
  {
    StartsIff(body, before, isFirst);
    EndsIff(body, after, isLast);
  }

  lemma StartsIff(body: string, before: Fragment, isFirst: bool)
    requires before.first <= before.second <= |body|
    ensures var m := SpacesBack(body, before.first, before.second);
            LineStarts(body, before, isFirst) <==> if m <= before.first then isFirst else body[m - 1] == '\n'
  {
    var m := SpacesBack(body, before.first, before.second);
    assert AllSpaces(body, m, before.second);
    if m > before.first {
      assert !AllSpaces(body, before.first, before.second) by { assert body[m - 1] != ' '; }
    }
  }

  lemma EndsIff(body: string, after: Fragment, isLast: bool)
    requires after.first <= after.second <= |body|
    ensures var k := SpacesOn(body, after.first, after.second);
            LineEnds(body, after, isLast) <==> if k >= after.second then isLast else LineEndsAt(body, k)
  {
    var k := SpacesOn(body, after.first, after.second);
    if k < after.second {
      assert body[k] != ' ' && AllSpaces(body, after.first, k);
    }
  }

  function TrimAt(c: Compiled, i: nat): (r: Compiled)
    requires Fits(c.body, c.fragments, c.actions) && i + 1 < |c.actions|
    ensures Fits(r.body, r.fragments, r.actions) && r.body == c.body && |r.actions| == |c.actions|
  {
    if c.actions[i].kind.Tag? || c.actions[i].kind.UnescapeTag? then c
    else
      var before, after := c.fragments[i], c.fragments[i + 1];
      match Standalone(c.body, before, after, i == 0, i + 2 == |c.actions|)
      case Keep => c
      case Cut(m, k) =>
        Compiled(c.body,
                 c.fragments[i := before.(second := m)][i + 1 := after.(first := k)],
                 if c.actions[i].kind.Partial? then c.actions[i := c.actions[i].(pos := before.second - m)] else c.actions)
  }

  /** The pass over tags i, i - 1, ..., 0. */
  function TrimFrom(c: Compiled, i: int): (r: Compiled)
    requires Fits(c.body, c.fragments, c.actions) && i + 1 < |c.actions|
    ensures Fits(r.body, r.fragments, r.actions) && r.body == c.body && |r.actions| == |c.actions|
    decreases if i < 0 then 0 else i + 1
  {
    if i < 0 then c else TrimFrom(TrimAt(c, i), i - 1)
  }

  /** d has the tags of c and its text, except that blanks and line ends may have gone from the edges. */
  ghost predicate Narrows(c: Compiled, d: Compiled)
    requires c.Valid() && d.Valid()
  {
    && c.body == d.body && |c.actions| == |d.actions|
    && (forall k :: 0 <= k < |c.actions| ==> SameTag(c.actions[k], d.actions[k]))
    && (forall k :: 0 <= k < |c.fragments| ==> NarrowsTo(c.body, c.fragments[k], d.fragments[k]))
  }

  /** Equal but for the indentation kept with a partial. */
  predicate SameTag(a: Action, b: Action) { b == a || (a.kind.Partial? && b == a.(pos := b.pos)) }

  predicate NarrowsTo(body: string, wide: Fragment, narrow: Fragment) {
    && wide.first <= narrow.first <= |body| && narrow.second <= wide.second <= |body|
    && (forall i :: wide.first <= i < narrow.first ==> body[i] in " \r\n")
    && (forall i :: narrow.second <= i < wide.second ==> body[i] in " \r\n")
  }

  /** Dropping standalone lines loses only blanks and line ends, and no tag. */
  lemma {:induction false} TrimNarrows(c: Compiled, i: int)
    requires c.Valid() && i + 1 < |c.actions|
    ensures Narrows(c, TrimFrom(c, i))
    decreases if i < 0 then 0 else i + 1
  {
    if i >= 0 {
      var d := TrimAt(c, i);
      TrimAtNarrows(c, i);
      hide TrimAt;
      TrimNarrows(d, i - 1);
      hide TrimFrom;
      NarrowsTwice(c, d, TrimFrom(d, i - 1));
    }
  }

  lemma TrimAtNarrows(c: Compiled, i: nat)
    requires c.Valid() && i + 1 < |c.actions|
    ensures Narrows(c, TrimAt(c, i))
  {
    hide SpacesBack, SpacesOn, Standalone;
  }

  lemma NarrowsTwice(c: Compiled, d: Compiled, e: Compiled)
    requires c.Valid() && d.Valid() && e.Valid() && Narrows(c, d) && Narrows(d, e)
    ensures Narrows(c, e)
  {
    forall k | 0 <= k < |c.fragments| ensures NarrowsTo(c.body, c.fragments[k], e.fragments[k]) {
      assert NarrowsTo(c.body, c.fragments[k], d.fragments[k]) && NarrowsTo(d.body, d.fragments[k], e.fragments[k]);
    }
    forall k | 0 <= k < |c.actions| ensures SameTag(c.actions[k], e.actions[k]) {
      assert SameTag(c.actions[k], d.actions[k]) && SameTag(d.actions[k], e.actions[k]);
    }
  }

  lemma NarrowedIsNested(c: Compiled, d: Compiled, tags: seq<Action>)
    requires c.Valid() && d.Valid() && Narrows(c, d) && Compiles(c.body, c.actions, tags, [])
    ensures exists f :: Nested(d.body, d.actions, f)
  {
    assert c.body == d.body && |c.actions| == |d.actions|;
    hide Narrows;
    var f :| Nested(c.body, c.actions, f);
    NarrowsKeepsNesting(c, d, f, 0, |c.actions| - 1);
    assert Nested(d.body, d.actions, f);
  }

  /** The nesting of blocks survives. */
  lemma NarrowsKeepsNesting(c: Compiled, d: Compiled, f: Forest, b: nat, e: nat)
    requires c.Valid() && d.Valid() && Narrows(c, d) && Covers(c.body, c.actions, f, b, e) && e <= |c.actions|
    ensures Covers(d.body, d.actions, f, b, e)
  {
    forall k | b <= k < e
      ensures d.actions[k] == c.actions[k] || (c.actions[k].kind.Partial? && d.actions[k] == c.actions[k].(pos := d.actions[k].pos))
    {
      assert SameTag(c.actions[k], d.actions[k]);
    }
    CoversFrame(c.body, c.actions, d.actions, f, b, e);
  }
}

/** What the pass over standalone tags leaves of a template: the lines on which a tag stands alone are gone, all else stays. */
module MustacheLines {
  import opened MustacheTemplate
  import opened MustacheMeaning
  import opened MustacheLayout

  /** A tag other than a value that stands alone between its neighbouring texts, as they were written. */
  ghost predicate Alone(c: Compiled, i: nat)
    requires c.Valid() && i + 1 < |c.actions|
  {
    && !c.actions[i].kind.Tag? && !c.actions[i].kind.UnescapeTag?
    && LineStarts(c.body, c.fragments[i], i == 0) && LineEnds(c.body, c.fragments[i + 1], i + 2 == |c.actions|)
  }

  /** The text f cut off where its last line starts, of which there are only spaces. */
  predicate EndsBefore(body: string, f: Fragment, second: nat)
    requires f.second <= |body|
  {
    && f.first <= second <= f.second && AllSpaces(body, second, f.second)
    && (second == f.first || body[second - 1] == '\n')
  }

  /** The text f from its second line on, or all of it when it holds no line end. */
  predicate StartsAfter(body: string, f: Fragment, first: nat)
    requires f.second <= |body|
  {
    if AllSpaces(body, f.first, f.second) then first == f.first
    else exists k :: f.first <= k < f.second && LineEndsAt(body, k) && AllSpaces(body, f.first, k)
                     && first == (if body[k] == '\n' then k + 1 else k + 2)
  }

  /** Where text i of d ends, that of c being given. */
  ghost predicate EndDropped(c: Compiled, d: Compiled, i: nat)
    requires c.Valid() && d.Valid() && |d.actions| == |c.actions| && i + 1 < |c.actions|
  {
    if Alone(c, i) then EndsBefore(c.body, c.fragments[i], d.fragments[i].second) else d.fragments[i].second == c.fragments[i].second
  }

  /** Where text i + 1 of d starts. */
  ghost predicate StartDropped(c: Compiled, d: Compiled, i: nat)
    requires c.Valid() && d.Valid() && |d.actions| == |c.actions| && i + 1 < |c.actions|
  {
    if Alone(c, i) then StartsAfter(c.body, c.fragments[i + 1], d.fragments[i + 1].first)
    else d.fragments[i + 1].first == c.fragments[i + 1].first
  }

  /** d is c without the lines on which a tag stands alone. */
  ghost predicate LinesDropped(c: Compiled, d: Compiled)
    requires c.Valid() && d.Valid() && c.actions != []
  {
    && d.body == c.body && |d.actions| == |c.actions| && DroppedFrom(c, d, 0)
    && d.fragments[0].first == c.fragments[0].first && d.fragments[|d.actions| - 1].second == c.fragments[|d.actions| - 1].second
  }

  ghost predicate DroppedFrom(c: Compiled, d: Compiled, n: nat)
    requires c.Valid() && d.Valid() && |d.actions| == |c.actions|
  {
    forall i :: n <= i < |c.actions| - 1 ==> EndDropped(c, d, i) && StartDropped(c, d, i)
  }

  /** The pass has been over the tags from n on. */
  ghost predicate PassedTo(c: Compiled, d: Compiled, n: nat)
    requires c.Valid() && d.Valid()
  {
    && d.body == c.body && |d.actions| == |c.actions| && n < |c.actions| && DroppedFrom(c, d, n)
    && (forall i :: 0 <= i < n ==> d.fragments[i] == c.fragments[i] && d.actions[i] == c.actions[i])
    && d.fragments[n].first == c.fragments[n].first
    && d.fragments[|d.actions| - 1].second == c.fragments[|d.actions| - 1].second
  }

  predicate InOrder(fragments: seq<Fragment>) { forall k :: 0 <= k < |fragments| ==> fragments[k].first <= fragments[k].second }

  // ---- One tag --------------------------------------------------------------------------------------------------------------

  /** Cutting the end of a text off does not change how its first line ends. */
  lemma SameLineEnd(body: string, f: Fragment, second: nat)
    requires f.first <= f.second <= |body| && LineStarts(body, f, false) && EndsBefore(body, f, second)
    ensures LineEnds(body, Fragment(f.first, second), false) <==> LineEnds(body, f, false)
    ensures f.first < second
  {
    var m: nat :| f.first < m <= f.second && body[m - 1] == '\n' && AllSpaces(body, m, f.second);
    assert body[m - 1] != ' ';
    if LineEnds(body, f, false) {
      var k: nat :| f.first <= k < f.second && LineEndsAt(body, k) && AllSpaces(body, f.first, k);
      assert body[second - 1] == '\n';
    }
  }

  lemma CutEnd(body: string, before: Fragment, after: Fragment, isFirst: bool, isLast: bool)
    requires before.first <= before.second <= |body| && after.first <= after.second <= |body|
    requires Standalone(body, before, after, isFirst, isLast).Cut?
    ensures EndsBefore(body, before, Standalone(body, before, after, isFirst, isLast).second)
  {}

  lemma CutStart(body: string, before: Fragment, after: Fragment, isFirst: bool, isLast: bool)
    requires before.first <= before.second <= |body| && after.first <= after.second <= |body|
    requires Standalone(body, before, after, isFirst, isLast).Cut?
    ensures StartsAfter(body, after, Standalone(body, before, after, isFirst, isLast).first)
  {
    var k := SpacesOn(body, after.first, after.second);
    assert AllSpaces(body, after.first, k);
    hide SpacesBack;
  }

  /** A text whose end was cut off starts after its first line where the whole text does. */
  lemma SameStart(body: string, f: Fragment, second: nat, first: nat)
    requires f.first <= f.second <= |body| && LineStarts(body, f, false) && EndsBefore(body, f, second)
    requires LineEnds(body, f, false) && StartsAfter(body, Fragment(f.first, second), first)
    ensures StartsAfter(body, f, first)
  {
    SameLineEnd(body, f, second);
    var k: nat :| f.first <= k < f.second && LineEndsAt(body, k) && AllSpaces(body, f.first, k);
    assert body[k] != ' ' && !AllSpaces(body, f.first, f.second);
    var l: nat :| f.first <= l < second && LineEndsAt(body, l) && AllSpaces(body, f.first, l);
    assert body[l] != ' ' && !AllSpaces(body, f.first, second);
  }

  /** The text behind tag i when the pass comes to the tag: as it was, or its end cut off. */
  lemma TextBehind(c: Compiled, d: Compiled, i: nat)
    requires c.Valid() && d.Valid() && InOrder(c.fragments) && i + 1 < |c.actions| && PassedTo(c, d, i + 1)
    ensures var wide, narrow := c.fragments[i + 1], d.fragments[i + 1]; var isLast := i + 2 == |c.actions|;
            && narrow.first == wide.first <= narrow.second <= wide.second
            && (narrow == wide || (!isLast && LineStarts(c.body, wide, false) && EndsBefore(c.body, wide, narrow.second)))
  {
    if i + 2 < |c.actions| {
      assert EndDropped(c, d, i + 1);
    }
  }

  lemma CutDecision(c: Compiled, d: Compiled, i: nat)
    requires c.Valid() && d.Valid() && InOrder(c.fragments) && i + 1 < |c.actions| && PassedTo(c, d, i + 1)
    requires !c.actions[i].kind.Tag? && !c.actions[i].kind.UnescapeTag?
    ensures var cut := Standalone(d.body, d.fragments[i], d.fragments[i + 1], i == 0, i + 2 == |d.actions|);
            && (cut.Cut? <==> Alone(c, i))
            && (cut.Cut? ==> EndsBefore(c.body, c.fragments[i], cut.second) && StartsAfter(c.body, c.fragments[i + 1], cut.first))
  {
    var isFirst, isLast := i == 0, i + 2 == |d.actions|;
    var before, wide, narrow := c.fragments[i], c.fragments[i + 1], d.fragments[i + 1];
    TextBehind(c, d, i);
    assert d.fragments[i] == before;
    hide Standalone, LineStarts, LineEnds, EndsBefore, StartsAfter, DroppedFrom;
    StandaloneIff(c.body, before, narrow, isFirst, isLast);
    if narrow != wide { SameLineEnd(c.body, wide, narrow.second); }
    var cut := Standalone(c.body, before, narrow, isFirst, isLast);
    if cut.Cut? {
      CutEnd(c.body, before, narrow, isFirst, isLast);
      CutStart(c.body, before, narrow, isFirst, isLast);
      if narrow != wide { SameStart(c.body, wide, narrow.second, cut.first); }
    }
  }

  /** One turn of the pass. */
  lemma PassStep(c: Compiled, d: Compiled, i: nat)
    requires c.Valid() && d.Valid() && InOrder(c.fragments) && i + 1 < |c.actions| && PassedTo(c, d, i + 1)
    ensures TrimAt(d, i).Valid() && PassedTo(c, TrimAt(d, i), i)
  {
    TrimAtIs(d, i);
    hide TrimAt, Alone, EndDropped, StartDropped;
    DroppedHere(c, d, i);
    forall k | i < k < |c.actions| - 1 ensures EndDropped(c, TrimAt(d, i), k) && StartDropped(c, TrimAt(d, i), k) {
      assert EndDropped(c, d, k) && StartDropped(c, d, k);
      StillDropped(c, d, TrimAt(d, i), k);
    }
    hide Standalone;
  }

  lemma DroppedHere(c: Compiled, d: Compiled, i: nat)
    requires c.Valid() && d.Valid() && InOrder(c.fragments) && i + 1 < |c.actions| && PassedTo(c, d, i + 1)
    ensures TrimAt(d, i).Valid() && |TrimAt(d, i).actions| == |c.actions|
    ensures EndDropped(c, TrimAt(d, i), i) && StartDropped(c, TrimAt(d, i), i)
  {
    TrimAtIs(d, i);
    if !c.actions[i].kind.Tag? && !c.actions[i].kind.UnescapeTag? { CutDecision(c, d, i); }
    hide Standalone, LineStarts, LineEnds, EndsBefore, StartsAfter, TrimAt, DroppedFrom;
  }

  lemma StillDropped(c: Compiled, d: Compiled, e: Compiled, k: nat)
    requires c.Valid() && d.Valid() && e.Valid() && |d.actions| == |e.actions| == |c.actions| && k + 1 < |c.actions|
    requires EndDropped(c, d, k) && StartDropped(c, d, k)
    requires e.fragments[k].second == d.fragments[k].second && e.fragments[k + 1].first == d.fragments[k + 1].first
    ensures EndDropped(c, e, k) && StartDropped(c, e, k)
  {
    hide Alone, EndsBefore, StartsAfter;
  }

  lemma TrimAtIs(d: Compiled, i: nat)
    requires d.Valid() && i + 1 < |d.actions|
    ensures var e := TrimAt(d, i); var cut := Standalone(d.body, d.fragments[i], d.fragments[i + 1], i == 0, i + 2 == |d.actions|);
            && e.Valid() && e.body == d.body && |e.actions| == |d.actions|
            && (forall k :: 0 <= k < |d.actions| && k != i ==> e.fragments[k].second == d.fragments[k].second && e.actions[k] == d.actions[k])
            && (forall k :: 0 <= k < |d.actions| && k != i + 1 ==> e.fragments[k].first == d.fragments[k].first)
            && (if d.actions[i].kind.Tag? || d.actions[i].kind.UnescapeTag? || cut.Keep? then e == d
                else e.fragments[i].second == cut.second && e.fragments[i + 1].first == cut.first)
  {
    hide Standalone;
  }

  lemma {:induction false} PassIs(c: Compiled, d: Compiled, i: int)
    requires c.Valid() && d.Valid() && InOrder(c.fragments) && -1 <= i && i + 1 < |c.actions| && PassedTo(c, d, i + 1)
    ensures TrimFrom(d, i).Valid() && PassedTo(c, TrimFrom(d, i), 0)
    decreases i + 1
  {
    hide TrimAt, PassedTo, InOrder;
    if i >= 0 {
      SameActions(c, d, i + 1);
      PassStep(c, d, i);
      PassIs(c, TrimAt(d, i), i - 1);
    }
  }

  lemma SameActions(c: Compiled, d: Compiled, n: nat)
    requires c.Valid() && d.Valid() && PassedTo(c, d, n)
    ensures |d.actions| == |c.actions|
  {}

  /** The pass from the last tag to the first drops the lines on which a tag stands alone in the text as written. */
  lemma PassDropsLines(c: Compiled)
    requires c.Valid() && InOrder(c.fragments) && c.actions != []
    ensures TrimFrom(c, |c.actions| - 2).Valid() && LinesDropped(c, TrimFrom(c, |c.actions| - 2))
  {
    assert PassedTo(c, c, |c.actions| - 1);
    hide TrimAt, TrimFrom;
    if |c.actions| > 1 { PassIs(c, c, |c.actions| - 2); }
    else { NothingToPass(c); }
    hide DroppedFrom;
  }

  lemma NothingToPass(c: Compiled)
    requires c.Valid() && |c.actions| == 1
    ensures TrimFrom(c, -1) == c
  {}
}

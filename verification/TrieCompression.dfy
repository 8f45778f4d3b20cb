/** Why path compression of the route trie keeps its shape and the answer of every search. */
module TrieCompression {
  import opened Bytes
  import opened RoutePattern
  import opened TrieNodes

  /** Node i gets the static edges `merged`; the other nodes stay. */
  function WithChildren(ns: seq<Node>, i: nat, merged: map<string, nat>): seq<Node>
    requires i < |ns|
  {
    ns[i := ns[i].(children := merged)]
  }

  ghost predicate GrandEdge(ns: seq<Node>, children: map<string, nat>, k: string, x: string) {
    k in children && children[k] < |ns| && x in ns[children[k]].children
  }

  /** `merged` holds, for every static edge k and every static edge x of its target, the edge k + x. */
  ghost predicate IsMerged(ns: seq<Node>, children: map<string, nat>, merged: map<string, nat>) {
    && (forall k, x {:trigger GrandEdge(ns, children, k, x)} :: GrandEdge(ns, children, k, x) ==>
          k + x in merged && merged[k + x] == ns[children[k]].children[x])
    && (forall m :: m in merged ==> exists k, x :: GrandEdge(ns, children, k, x) && m == k + x)
  }

  // ---- Searching after one merge ----

  /** From every node, every search at a position after pos has the same result in ns and in ms. */
  ghost predicate AgreeAfter(ns: seq<Node>, ms: seq<Node>, url: string, pos: nat, read: Reader)
    requires WellLinked(ns) && WellLinked(ms) && |ns| == |ms|
  {
    forall j: nat, q: nat, ps {:trigger FindFrom(ms, j, url, q, ps, read)} :: j < |ns| && pos < q <= |url| ==>
      FindFrom(ms, j, url, q, ps, read) == FindFrom(ns, j, url, q, ps, read)
  }

  /** Merging at node i changes no search, from whatever node it starts. */
  lemma {:induction false} MergePreservesFind(
    ns: seq<Node>, ms: seq<Node>, i: nat, j: nat, url: string, pos: nat, ps: Params, read: Reader)
    requires i < |ns| && MergeAt(ns, ms, i)
    requires j < |ns| && pos <= |url|
    ensures FindFrom(ms, j, url, pos, ps, read) == FindFrom(ns, j, url, pos, ps, read)
    decreases |url| - pos
  {
    if pos < |url| {
      forall h: nat, q: nat, qs | h < |ns| && pos < q <= |url|
        ensures FindFrom(ms, h, url, q, qs, read) == FindFrom(ns, h, url, q, qs, read)
      {
        MergePreservesFind(ns, ms, i, h, url, q, qs, read);
      }
      SameParamSteps(ns, ms, j, url, pos, ps, read);
      if j != i {
        SameStaticStep(ns, ms, j, url, pos, ps, read);
      } else {
        MergedStaticStep(ns, ms, i, url, pos, ps, read);
      }
    }
  }

  /** ms is ns after the static edges of node i were merged with those of their targets, all of them simple. */
  ghost predicate MergeAt(ns: seq<Node>, ms: seq<Node>, i: nat)
    requires i < |ns|
  {
    && WellLinked(ns) && WellLinked(ms)
    && |ns| == |ms| && (forall x: nat {:trigger ms[x]} :: x < |ns| && x != i ==> ms[x] == ns[x])
    && (forall x: nat {:trigger ns[x]} :: x < |ns| ==> EqualLengths(ns[x].children))
    && (forall k :: k in ns[i].children ==> ns[i].children[k] < |ns| && ns[ns[i].children[k]].IsSimple())
    && ms[i].rule == ns[i].rule && ms[i].params == ns[i].params
    && IsMerged(ns, ns[i].children, ms[i].children) && EqualLengths(ms[i].children)
  }

  lemma SameParamSteps(ns: seq<Node>, ms: seq<Node>, j: nat, url: string, pos: nat, ps: Params, read: Reader)
    requires WellLinked(ns) && WellLinked(ms) && j < |ns| == |ms| && pos < |url|
    requires ms[j].params == ns[j].params && AgreeAfter(ns, ms, url, pos, read)
    ensures ParamSteps(ms, j, url, pos, ps, read) == ParamSteps(ns, j, url, pos, ps, read)
  {
    SameParamStep(ns, ms, j, INT, url, pos, ps, read);
    SameParamStep(ns, ms, j, UINT, url, pos, ps, read);
    SameParamStep(ns, ms, j, DOUBLE, url, pos, ps, read);
    SameParamStep(ns, ms, j, STRING, url, pos, ps, read);
    SameParamStep(ns, ms, j, PATH, url, pos, ps, read);
  }

  lemma SameParamStep(
    ns: seq<Node>, ms: seq<Node>, j: nat, p: ParamType, url: string, pos: nat, ps: Params, read: Reader)
    requires WellLinked(ns) && WellLinked(ms) && j < |ns| == |ms| && pos < |url|
    requires ms[j].params == ns[j].params && AgreeAfter(ns, ms, url, pos, read)
    ensures ParamStep(ms, j, p, url, pos, ps, read) == ParamStep(ns, j, p, url, pos, ps, read)
  {
    if p in ns[j].params { assert HasEdge(ns[j], ByParam(p)) && HasEdge(ms[j], ByParam(p)); }
  }

  lemma SameStaticStep(ns: seq<Node>, ms: seq<Node>, j: nat, url: string, pos: nat, ps: Params, read: Reader)
    requires WellLinked(ns) && WellLinked(ms) && j < |ns| == |ms| && pos < |url|
    requires ms[j].children == ns[j].children && AgreeAfter(ns, ms, url, pos, read)
    ensures StaticStep(ms, j, url, pos, ps, read) == StaticStep(ns, j, url, pos, ps, read)
  {
    var choice := StaticKey(ns[j].children, url, pos);
    if choice.Key? { assert HasEdge(ns[j], ByText(choice.key)) && HasEdge(ms[j], ByText(choice.key)); }
  }

  /** At the merged node itself the two static steps end in results that a search cannot tell apart. */
  lemma MergedStaticStep(ns: seq<Node>, ms: seq<Node>, i: nat, url: string, pos: nat, ps: Params, read: Reader)
    requires i < |ns| && MergeAt(ns, ms, i) && pos < |url| && AgreeAfter(ns, ms, url, pos, read)
    ensures var a := StaticStep(ms, i, url, pos, ps, read);
            var b := StaticStep(ns, i, url, pos, ps, read);
            a == b || a.rule == b.rule == 0
  {
    match StaticKey(ms[i].children, url, pos) {
      case Key(m) =>
        hide *;
        MergedKeyStep(ns, ms, i, m, url, pos, ps, read);
      case NoKey =>
        hide FindFrom, ParamSteps, IsMerged, GrandEdge, OccursAt;
        NoTwoStaticSteps(ns, i, ms[i].children, url, pos, ps, read);
    }
  }

  lemma MergedKeyStep(ns: seq<Node>, ms: seq<Node>, i: nat, m: string, url: string, pos: nat, ps: Params, read: Reader)
    requires i < |ns| && MergeAt(ns, ms, i) && pos < |url| && AgreeAfter(ns, ms, url, pos, read)
    requires StaticKey(ms[i].children, url, pos) == Key(m)
    ensures var a := StaticStep(ms, i, url, pos, ps, read);
            var b := StaticStep(ns, i, url, pos, ps, read);
            a == b || a.rule == b.rule == 0
  {
    hide FindFrom, ParamSteps, IsMerged, GrandEdge, OccursAt, StaticKey, StaticStep, EqualLengths, WellLinked;
    assert HasEdge(ms[i], ByText(m));
    StaticStepFollows(ms, i, m, url, pos, ps, read);
    hide HasEdge;
    var k, x := MatchedHalves(ns, i, ms[i].children, m, url, pos);
    assert k in ns[i].children;
    TwoStaticSteps(ns, i, k, x, url, pos, ps, read);
  }

  lemma StaticStepFollows(ns: seq<Node>, i: nat, k: string, url: string, pos: nat, ps: Params, read: Reader)
    requires WellLinked(ns) && i < |ns| && pos < |url|
    requires k in ns[i].children && OccursAt(url, pos, k) && EqualLengths(ns[i].children)
    ensures HasEdge(ns[i], ByText(k))
    ensures StaticStep(ns, i, url, pos, ps, read) == FindFrom(ns, ns[i].children[k], url, pos + |k|, ps, read)
  {
    AtMostOneStaticMatch(ns[i].children, url, pos, k);
  }

  /** The old edges behind a merged edge m that matches. */
  lemma MatchedHalves(ns: seq<Node>, i: nat, merged: map<string, nat>, m: string, url: string, pos: nat)
    returns (k: string, x: string)
    requires WellLinked(ns) && i < |ns|
    requires IsMerged(ns, ns[i].children, merged) && m in merged && OccursAt(url, pos, m)
    ensures GrandEdge(ns, ns[i].children, k, x) && k != "" && x != ""
    ensures |m| == |k| + |x| && OccursAt(url, pos, k) && OccursAt(url, pos + |k|, x)
    ensures ns[i].children[k] < |ns| && merged[m] == ns[ns[i].children[k]].children[x]
  {
    k, x :| GrandEdge(ns, ns[i].children, k, x) && m == k + x;
    assert HasEdge(ns[i], ByText(k)) && HasEdge(ns[ns[i].children[k]], ByText(x));
    assert url[pos..pos + |m|][..|k|] == k && url[pos..pos + |m|][|k|..] == x;
  }

  /** Two static edges k and x that match one after the other: the search follows both. */
  lemma TwoStaticSteps(
    ns: seq<Node>, i: nat, k: string, x: string, url: string, pos: nat, ps: Params, read: Reader)
    requires WellLinked(ns) && i < |ns| && pos < |url|
    requires GrandEdge(ns, ns[i].children, k, x) && OccursAt(url, pos, k) && OccursAt(url, pos + |k|, x)
    requires x != ""
    requires var c := ns[i].children[k];
             ns[c].IsSimple() && EqualLengths(ns[i].children) && EqualLengths(ns[c].children)
    ensures ns[ns[i].children[k]].children[x] < |ns|
    ensures var a := FindFrom(ns, ns[ns[i].children[k]].children[x], url, pos + |k| + |x|, ps, read);
            var b := StaticStep(ns, i, url, pos, ps, read);
            a == b || a.rule == b.rule == 0
  {
    hide FindFrom, StaticStep;
    var c := ns[i].children[k];
    assert HasEdge(ns[i], ByText(k)) && HasEdge(ns[c], ByText(x));
    var mid := pos + |k|;
    StaticStepFollows(ns, i, k, url, pos, ps, read);
    StaticStepFollows(ns, c, x, url, mid, ps, read);
    SimpleNodeSearch(ns, c, url, mid, ps, read);
  }

  /** No merged edge matches: following the old edges finds no rule either. */
  lemma NoTwoStaticSteps(
    ns: seq<Node>, i: nat, merged: map<string, nat>, url: string, pos: nat, ps: Params, read: Reader)
    requires WellLinked(ns) && i < |ns| && pos < |url|
    requires forall k :: k in ns[i].children ==> ns[i].children[k] < |ns| && ns[ns[i].children[k]].IsSimple()
    requires IsMerged(ns, ns[i].children, merged)
    requires StaticKey(merged, url, pos).NoKey?
    ensures StaticStep(ns, i, url, pos, ps, read).rule == 0
  {
    var children := ns[i].children;
    var choice := StaticKey(children, url, pos);
    if choice.Key? {
      var k := choice.key;
      assert HasEdge(ns[i], ByText(k));
      SimpleNodeSearch(ns, children[k], url, pos + |k|, ps, read);
      if pos + |k| < |url| {
        var below := StaticKey(ns[children[k]].children, url, pos + |k|);
        if below.Key? {
          assert GrandEdge(ns, children, k, below.key);
          OccurrencesJoin(url, pos, k, below.key);
        }
      }
    }
  }

  lemma OccurrencesJoin(url: string, pos: nat, k: string, x: string)
    requires OccursAt(url, pos, k) && OccursAt(url, pos + |k|, x)
    ensures OccursAt(url, pos, k + x)
  {
    assert url[pos..pos + |k + x|] == url[pos..pos + |k|] + url[pos + |k|..pos + |k| + |x|];
  }

  /** A node without rule and parameters only passes on what its static edge finds. */
  lemma SimpleNodeSearch(ns: seq<Node>, c: nat, url: string, pos: nat, ps: Params, read: Reader)
    requires WellLinked(ns) && c < |ns| && ns[c].IsSimple() && pos <= |url|
    ensures var r := FindFrom(ns, c, url, pos, ps, read);
            if pos == |url| then r.rule == 0
            else r == Better(NOT_FOUND, StaticStep(ns, c, url, pos, ps, read))
  {
    if pos < |url| {
      assert ParamSteps(ns, c, url, pos, ps, read) == NOT_FOUND;
    }
  }

  lemma MergePreservesRouting(ns: seq<Node>, par: seq<nat>, i: nat, merged: map<string, nat>, read: Reader)
    requires TreeOk(ns, par) && i < |ns|
    requires forall k :: k in ns[i].children ==> ns[i].children[k] < |ns| && ns[ns[i].children[k]].IsSimple()
    requires IsMerged(ns, ns[i].children, merged)
    requires TreeOk(WithChildren(ns, i, merged), par)
    ensures WellLinked(ns) && WellLinked(WithChildren(ns, i, merged))
    ensures SameRouting(ns, WithChildren(ns, i, merged), read)
  {
    hide FindFrom;
    var ms := WithChildren(ns, i, merged);
    TreeIsWellLinked(ns, par);
    TreeIsWellLinked(ms, par);
    assert NodeOk(ms, par, i);
    forall x: nat | x < |ns| ensures EqualLengths(ns[x].children) {
      assert NodeOk(ns, par, x);
    }
    forall j: nat, url, pos: nat, ps | j < |ns| && pos <= |url|
      ensures FindFrom(ms, j, url, pos, ps, read) == FindFrom(ns, j, url, pos, ps, read)
    {
      MergePreservesFind(ns, ms, i, j, url, pos, ps, read);
    }
  }

  // ---- Shape after one merge ----

  lemma MergeKeepsTree(ns: seq<Node>, par: seq<nat>, i: nat, merged: map<string, nat>)
    requires TreeOk(ns, par) && i < |ns|
    requires forall k :: k in ns[i].children ==> ns[i].children[k] < |ns| && OneChar(ns[ns[i].children[k]])
    requires IsMerged(ns, ns[i].children, merged)
    ensures TreeOk(WithChildren(ns, i, merged), par)
  {
    var ms := WithChildren(ns, i, merged);
    MergedNodeOk(ns, par, i, merged);
    forall x: nat | x < |ns| ensures NodeOk(ms, par, x) {
      if x != i { assert NodeOk(ns, par, x); }
    }
  }

  lemma MergedNodeOk(ns: seq<Node>, par: seq<nat>, i: nat, merged: map<string, nat>)
    requires TreeOk(ns, par) && i < |ns|
    requires forall k :: k in ns[i].children ==> ns[i].children[k] < |ns| && OneChar(ns[ns[i].children[k]])
    requires IsMerged(ns, ns[i].children, merged)
    ensures NodeOk(WithChildren(ns, i, merged), par, i)
  {
    hide TreeOk, IsMerged, Above, Unrelated, OneChar;
    var ms := WithChildren(ns, i, merged);
    forall e | HasEdge(ms[i], e)
      ensures i < Target(ms[i], e) < |ns| && Above(par, i, Target(ms[i], e)) && (e.ByText? ==> e.key != "")
    {
      MergedEdgeBelow(ns, par, i, merged, e);
    }
    forall e, f | e != f && HasEdge(ms[i], e) && HasEdge(ms[i], f)
      ensures Unrelated(par, Target(ms[i], e), Target(ms[i], f))
    {
      MergedEdgesUnrelated(ns, par, i, merged, e, f);
    }
    forall k, l | k in merged && l in merged ensures |k| == |l| {
      var k1, k2 := SplitEdge(ns, par, i, merged, k);
      var l1, l2 := SplitEdge(ns, par, i, merged, l);
      MergedLengths(ns, par, i, k1, l1);
    }
  }

  lemma MergedLengths(ns: seq<Node>, par: seq<nat>, i: nat, k: string, l: string)
    requires TreeOk(ns, par) && i < |ns| && k in ns[i].children && l in ns[i].children
    ensures |k| == |l|
  {
    assert NodeOk(ns, par, i);
  }

  lemma MergedEdgeBelow(ns: seq<Node>, par: seq<nat>, i: nat, merged: map<string, nat>, e: Edge)
    requires TreeOk(ns, par) && i < |ns|
    requires forall k :: k in ns[i].children ==> ns[i].children[k] < |ns| && OneChar(ns[ns[i].children[k]])
    requires IsMerged(ns, ns[i].children, merged)
    requires HasEdge(WithChildren(ns, i, merged)[i], e)
    ensures var t := Target(WithChildren(ns, i, merged)[i], e);
            i < t < |ns| && Above(par, i, t) && (e.ByText? ==> e.key != "")
  {
    assert NodeOk(ns, par, i);
    if e.ByText? {
      hide TreeOk, IsMerged, Unrelated, OneChar;
      var k, x := SplitEdge(ns, par, i, merged, e.key);
      AboveTransitive(par, i, ns[i].children[k], merged[e.key]);
    } else {
      assert HasEdge(ns[i], e);
    }
  }

  lemma SplitEdge(ns: seq<Node>, par: seq<nat>, i: nat, merged: map<string, nat>, m: string)
    returns (k: string, x: string)
    requires TreeOk(ns, par) && i < |ns| && m in merged
    requires forall k :: k in ns[i].children ==> ns[i].children[k] < |ns| && OneChar(ns[ns[i].children[k]])
    requires IsMerged(ns, ns[i].children, merged)
    ensures GrandEdge(ns, ns[i].children, k, x) && m == k + x && |x| == 1
    ensures |m| > 0 && k == m[..|m| - 1] && x == m[|m| - 1..]
    ensures HasEdge(ns[i], ByText(k)) && HasEdge(ns[ns[i].children[k]], ByText(x))
    ensures merged[m] == ns[ns[i].children[k]].children[x]
    ensures Above(par, ns[i].children[k], merged[m]) && i < ns[i].children[k] < merged[m] < |ns|
  {
    k, x :| GrandEdge(ns, ns[i].children, k, x) && m == k + x;
    var c := ns[i].children[k];
    assert NodeOk(ns, par, i) && NodeOk(ns, par, c);
    assert HasEdge(ns[i], ByText(k)) && HasEdge(ns[c], ByText(x));
  }

  /** The edge of the unmerged node from which an edge of the merged node was made. */
  function OldEdge(e: Edge): Edge {
    if e.ByText? && e.key != "" then ByText(e.key[..|e.key| - 1]) else e
  }

  lemma MergedEdgeBelowOldEdge(ns: seq<Node>, par: seq<nat>, i: nat, merged: map<string, nat>, e: Edge)
    requires TreeOk(ns, par) && i < |ns|
    requires forall k :: k in ns[i].children ==> ns[i].children[k] < |ns| && OneChar(ns[ns[i].children[k]])
    requires IsMerged(ns, ns[i].children, merged)
    requires HasEdge(ns[i].(children := merged), e)
    ensures HasEdge(ns[i], OldEdge(e))
    ensures Above(par, Target(ns[i], OldEdge(e)), Target(ns[i].(children := merged), e))
    ensures e.ByParam? <==> OldEdge(e) == e
  {
    if e.ByText? {
      var k, x := SplitEdge(ns, par, i, merged, e.key);
    }
  }

  lemma MergedEdgesUnrelated(ns: seq<Node>, par: seq<nat>, i: nat, merged: map<string, nat>, e: Edge, f: Edge)
    requires TreeOk(ns, par) && i < |ns|
    requires forall k :: k in ns[i].children ==> ns[i].children[k] < |ns| && OneChar(ns[ns[i].children[k]])
    requires IsMerged(ns, ns[i].children, merged)
    requires var n := ns[i].(children := merged); e != f && HasEdge(n, e) && HasEdge(n, f)
    ensures var n := ns[i].(children := merged); Unrelated(par, Target(n, e), Target(n, f))
  {
    var n := ns[i].(children := merged);
    assert NodeOk(ns, par, i);
    var e1, f1 := OldEdge(e), OldEdge(f);
    MergedEdgeBelowOldEdge(ns, par, i, merged, e);
    MergedEdgeBelowOldEdge(ns, par, i, merged, f);
    if e1 != f1 {
      UnrelatedBelow(par, Target(ns[i], e1), Target(ns[i], f1), Target(n, e), Target(n, f));
    } else {
      var k, x := SplitEdge(ns, par, i, merged, e.key);
      var l, y := SplitEdge(ns, par, i, merged, f.key);
      assert NodeOk(ns, par, ns[i].children[k]);
      assert ByText(x) != ByText(y);
    }
  }

  lemma ConcatInjective(a: string, b: string, c: string, d: string)
    requires |a| == |c| && a + b == c + d
    ensures a == c && b == d
  {
    assert a == (a + b)[..|a|] && b == (a + b)[|a|..];
  }

  // ---- What optimizeNode may touch and what it reaches ----

  ghost predicate Mergeable(ns: seq<Node>, i: nat)
    requires WellLinked(ns) && i < |ns|
  {
    && ns[i].children != map[]
    && forall k :: k in ns[i].children ==> (assert HasEdge(ns[i], ByText(k)); ns[ns[i].children[k]].IsSimple())
  }

  /** No node that can be reached from i is left to merge. */
  ghost predicate Compressed(ns: seq<Node>, i: nat)
    requires WellLinked(ns) && i < |ns|
    decreases |ns| - i
  {
    && !Mergeable(ns, i)
    && forall e {:trigger HasEdge(ns[i], e)} :: HasEdge(ns[i], e) ==> Compressed(ns, Target(ns[i], e))
  }

  /** The subtree of i is as Trie::add built it. */
  ghost predicate RawBelow(ns: seq<Node>, par: seq<nat>, i: nat) {
    forall x: nat {:trigger ns[x]} :: x < |ns| && Above(par, i, x) ==> OneChar(ns[x])
  }

  /** Node i can be handed to optimizeNode: each subtree below it is raw or finished, and raw where it would merge. */
  ghost predicate Ready(ns: seq<Node>, par: seq<nat>, i: nat)
    requires WellLinked(ns) && i < |ns|
  {
    && (forall e {:trigger HasEdge(ns[i], e)} :: HasEdge(ns[i], e) ==> Settled(ns, par, Target(ns[i], e)))
    && (Mergeable(ns, i) ==> forall k :: k in ns[i].children ==> RawBelow(ns, par, ns[i].children[k]))
  }

  ghost predicate Settled(ns: seq<Node>, par: seq<nat>, i: nat)
    requires WellLinked(ns) && i < |ns|
  {
    RawBelow(ns, par, i) || Compressed(ns, i)
  }

  lemma SettledIsReady(ns: seq<Node>, par: seq<nat>, i: nat)
    requires TreeOk(ns, par) && WellLinked(ns) && i < |ns| && Settled(ns, par, i)
    ensures Ready(ns, par, i)
  {
    assert NodeOk(ns, par, i);
    if RawBelow(ns, par, i) {
      forall e | HasEdge(ns[i], e) ensures RawBelow(ns, par, Target(ns[i], e)) {
        forall x: nat | x < |ns| && Above(par, Target(ns[i], e), x) ensures OneChar(ns[x]) {
          AboveTransitive(par, i, Target(ns[i], e), x);
        }
      }
      forall k | k in ns[i].children ensures RawBelow(ns, par, ns[i].children[k]) {
        assert HasEdge(ns[i], ByText(k));
      }
    }
  }

  lemma {:induction false} CompressedFrame(ns: seq<Node>, ms: seq<Node>, par: seq<nat>, i: nat)
    requires TreeOk(ns, par) && TreeOk(ms, par) && WellLinked(ns) && WellLinked(ms) && i < |ns|
    requires forall x: nat {:trigger ns[x]} {:trigger ms[x]} :: x < |ns| && Above(par, i, x) ==> ms[x] == ns[x]
    requires Compressed(ns, i)
    ensures Compressed(ms, i)
    decreases |ns| - i
  {
    assert NodeOk(ns, par, i) && ms[i] == ns[i];
    forall e | HasEdge(ms[i], e) ensures Compressed(ms, Target(ms[i], e)) {
      assert HasEdge(ns[i], e);
      var t := Target(ns[i], e);
      forall x: nat | x < |ns| && Above(par, t, x) ensures ms[x] == ns[x] {
        AboveTransitive(par, i, t, x);
      }
      CompressedFrame(ns, ms, par, t);
    }
    if Mergeable(ms, i) {
      forall k | k in ns[i].children ensures HasEdge(ns[i], ByText(k)) && ns[ns[i].children[k]].IsSimple() {
        assert HasEdge(ns[i], ByText(k)) && HasEdge(ms[i], ByText(k));
        assert ms[ns[i].children[k]] == ns[ns[i].children[k]];
      }
      assert Mergeable(ns, i);
    }
  }

  /** ms is what optimizing the subtree of i may make of ns. */
  ghost predicate Optimized(ns: seq<Node>, ms: seq<Node>, par: seq<nat>, i: nat, read: Reader) {
    && TreeOk(ns, par) && TreeOk(ms, par) && WellLinked(ns) && WellLinked(ms) && |ns| == |ms|
    && (forall x: nat {:trigger ms[x]} :: x < |ns| ==> ms[x].rule == ns[x].rule && ms[x].params == ns[x].params)
    && (forall x: nat {:trigger ms[x]} :: x < |ns| && !Above(par, i, x) ==> ms[x] == ns[x])
    && SameRouting(ns, ms, read)
  }

  lemma OptimizedThenBelow(ns: seq<Node>, ms: seq<Node>, os: seq<Node>, par: seq<nat>, i: nat, c: nat, read: Reader)
    requires Optimized(ns, ms, par, i, read) && Optimized(ms, os, par, c, read) && Above(par, i, c)
    ensures Optimized(ns, os, par, i, read)
  {
    forall x: nat | x < |ns| && !Above(par, i, x) ensures os[x] == ns[x] {
      assert ms[x] == ns[x];
      if Above(par, c, x) { AboveTransitive(par, i, c, x); }
    }
    forall x: nat | x < |ns| ensures os[x].rule == ns[x].rule && os[x].params == ns[x].params {
      assert ms[x].rule == ns[x].rule;
    }
    SameRoutingTransitive(ns, ms, os, read);
  }

  lemma SameRoutingTransitive(ns: seq<Node>, ms: seq<Node>, os: seq<Node>, read: Reader)
    requires WellLinked(ns) && WellLinked(ms) && WellLinked(os)
    requires SameRouting(ns, ms, read) && SameRouting(ms, os, read)
    ensures SameRouting(ns, os, read)
  {
    hide FindFrom;
    forall i: nat, url, pos: nat, ps | i < |ns| && pos <= |url|
      ensures FindFrom(os, i, url, pos, ps, read) == FindFrom(ns, i, url, pos, ps, read)
    {
      assert FindFrom(ms, i, url, pos, ps, read) == FindFrom(ns, i, url, pos, ps, read);
    }
  }

  /** Optimizing below edge e of node i leaves the node and the subtrees of its other edges alone. */
  lemma OtherEdgesKeep(ns: seq<Node>, ms: seq<Node>, par: seq<nat>, i: nat, e: Edge, f: Edge, read: Reader)
    requires TreeOk(ns, par) && i < |ns| && HasEdge(ns[i], e) && HasEdge(ns[i], f) && e != f
    requires Optimized(ns, ms, par, Target(ns[i], e), read)
    ensures ms[i] == ns[i] && Target(ns[i], f) < |ns|
    ensures RawBelow(ns, par, Target(ns[i], f)) ==> RawBelow(ms, par, Target(ns[i], f))
    ensures Compressed(ns, Target(ns[i], f)) ==> Compressed(ms, Target(ns[i], f))
  {
    var c, t := Target(ns[i], e), Target(ns[i], f);
    assert NodeOk(ns, par, i);
    assert !Above(par, c, i) by {
      assert i < c;
    }
    forall x: nat | x < |ns| && Above(par, t, x) ensures ms[x] == ns[x] {
      if Above(par, c, x) { UnrelatedBelow(par, t, c, x, x); }
    }
    if Compressed(ns, t) { CompressedFrame(ns, ms, par, t); }
  }

  lemma NothingChangedIsOptimized(ns: seq<Node>, par: seq<nat>, i: nat, read: Reader)
    requires TreeOk(ns, par) && WellLinked(ns)
    ensures Optimized(ns, ns, par, i, read)
  {
    hide FindFrom;
  }

  lemma MergeableTargets(ns: seq<Node>, par: seq<nat>, i: nat)
    requires TreeOk(ns, par) && WellLinked(ns) && i < |ns| && Mergeable(ns, i) && Ready(ns, par, i)
    ensures forall k :: k in ns[i].children ==> ns[i].children[k] < |ns| && OneChar(ns[ns[i].children[k]])
    ensures forall k :: k in ns[i].children ==> ns[i].children[k] < |ns| && ns[ns[i].children[k]].IsSimple()
  {
    forall k | k in ns[i].children
      ensures ns[i].children[k] < |ns| && OneChar(ns[ns[i].children[k]]) && ns[ns[i].children[k]].IsSimple()
    {
      assert HasEdge(ns[i], ByText(k));
    }
  }

  /** One merge is a step of the optimization. */
  lemma MergeIsOptimized(ns: seq<Node>, par: seq<nat>, i: nat, merged: map<string, nat>, read: Reader)
    requires TreeOk(ns, par) && WellLinked(ns) && i < |ns|
    requires Mergeable(ns, i) && Ready(ns, par, i) && IsMerged(ns, ns[i].children, merged)
    ensures Optimized(ns, WithChildren(ns, i, merged), par, i, read)
  {
    hide FindFrom, IsMerged, SameRouting;
    MergeableTargets(ns, par, i);
    hide Ready, Mergeable;
    MergeKeepsTree(ns, par, i, merged);
    MergePreservesRouting(ns, par, i, merged, read);
  }

  /** After one merge, node i is ready for the next, and its static edges lead further down. */
  lemma MergeIsReady(ns: seq<Node>, par: seq<nat>, i: nat, merged: map<string, nat>, lo: nat)
    requires TreeOk(ns, par) && WellLinked(ns) && i < |ns|
    requires Mergeable(ns, i) && Ready(ns, par, i) && IsMerged(ns, ns[i].children, merged)
    requires forall k :: k in ns[i].children ==> lo <= ns[i].children[k]
    requires TreeOk(WithChildren(ns, i, merged), par) && WellLinked(WithChildren(ns, i, merged))
    ensures Ready(WithChildren(ns, i, merged), par, i)
    ensures forall m :: m in merged ==> lo < merged[m]
  {
    hide IsMerged;
    var ms := WithChildren(ns, i, merged);
    MergeableTargets(ns, par, i);
    forall m | m in merged
      ensures RawBelow(ms, par, merged[m]) && lo < merged[m] < |ns|
    {
      var k, x := SplitEdge(ns, par, i, merged, m);
      MergedTargetIsRaw(ns, ms, par, i, ns[i].children[k], merged[m]);
    }
    forall e | HasEdge(ms[i], e) ensures Settled(ms, par, Target(ms[i], e)) {
      if e.ByParam? {
        assert HasEdge(ns[i], e);
        SettledElsewhere(ns, ms, par, i, e);
      }
    }
  }

  lemma MergedTargetIsRaw(ns: seq<Node>, ms: seq<Node>, par: seq<nat>, i: nat, c: nat, t: nat)
    requires |ns| == |ms| && forall x: nat {:trigger ms[x]} :: x < |ns| && x != i ==> ms[x] == ns[x]
    requires i < c && RawBelow(ns, par, c) && Above(par, c, t)
    ensures RawBelow(ms, par, t)
  {
    forall x: nat | x < |ms| && Above(par, t, x) ensures OneChar(ms[x]) {
      AboveTransitive(par, c, t, x);
      assert ms[x] == ns[x];
    }
  }

  lemma SettledElsewhere(ns: seq<Node>, ms: seq<Node>, par: seq<nat>, i: nat, e: Edge)
    requires TreeOk(ns, par) && TreeOk(ms, par) && WellLinked(ns) && WellLinked(ms) && |ns| == |ms|
    requires forall x: nat {:trigger ms[x]} :: x < |ns| && x != i ==> ms[x] == ns[x]
    requires i < |ns| && HasEdge(ns[i], e) && Settled(ns, par, Target(ns[i], e))
    ensures Settled(ms, par, Target(ns[i], e))
  {
    var t := Target(ns[i], e);
    assert forall x: nat :: x < |ns| && Above(par, t, x) ==> ms[x] == ns[x];
    if Compressed(ns, t) {
      CompressedFrame(ns, ms, par, t);
    } else {
      MergedTargetIsRaw(ns, ms, par, i, t, t);
    }
  }

  lemma SameSimplicity(ns: seq<Node>, ms: seq<Node>, par: seq<nat>, i: nat, read: Reader)
    requires Optimized(ns, ms, par, i, read) && i < |ns| && ms[i] == ns[i]
    ensures Mergeable(ms, i) == Mergeable(ns, i)
  {
    hide FindFrom, SameRouting;
    forall k | k in ns[i].children
      ensures HasEdge(ns[i], ByText(k)) && ns[i].children[k] < |ns|
      ensures ns[ns[i].children[k]].IsSimple() == ms[ns[i].children[k]].IsSimple()
    {
      assert HasEdge(ns[i], ByText(k));
      assert ms[ns[i].children[k]].rule == ns[ns[i].children[k]].rule;
    }
  }

  /** After the child behind edge e was optimized: node i is ready as before, and nothing finished came undone. */
  lemma EdgeOptimized(ns: seq<Node>, ms: seq<Node>, par: seq<nat>, i: nat, e: Edge, read: Reader)
    requires TreeOk(ns, par) && WellLinked(ns) && i < |ns| && HasEdge(ns[i], e) && Ready(ns, par, i)
    requires Optimized(ns, ms, par, Target(ns[i], e), read) && Compressed(ms, Target(ns[i], e))
    ensures Optimized(ns, ms, par, i, read) && ms[i] == ns[i]
    ensures !Mergeable(ns, i) ==> !Mergeable(ms, i)
    ensures Mergeable(ns, i) && e.ByParam? ==> Mergeable(ms, i)
    ensures e.ByParam? || !Mergeable(ns, i) ==> Ready(ms, par, i)
    ensures forall f {:trigger HasEdge(ns[i], f)} :: HasEdge(ns[i], f) && Compressed(ns, Target(ns[i], f)) ==>
      Compressed(ms, Target(ns[i], f))
  {
    hide FindFrom, SameRouting;
    var c := Target(ns[i], e);
    assert NodeOk(ns, par, i);
    assert Optimized(ns, ms, par, i, read) by {
      forall x: nat | x < |ns| && !Above(par, i, x) ensures ms[x] == ns[x] {
        if Above(par, c, x) { AboveTransitive(par, i, c, x); }
      }
    }
    assert !Above(par, c, i);
    assert ms[i] == ns[i];
    SameSimplicity(ns, ms, par, i, read);
    forall f | HasEdge(ns[i], f)
      ensures Compressed(ns, Target(ns[i], f)) ==> Compressed(ms, Target(ns[i], f))
      ensures Settled(ms, par, Target(ns[i], f))
      ensures f != e && RawBelow(ns, par, Target(ns[i], f)) ==> RawBelow(ms, par, Target(ns[i], f))
    {
      if f != e { OtherEdgesKeep(ns, ms, par, i, e, f, read); }
    }
    if Mergeable(ns, i) && e.ByParam? {
      forall k | k in ms[i].children ensures RawBelow(ms, par, ms[i].children[k]) {
        assert HasEdge(ns[i], ByText(k)) && ByText(k) != e;
      }
    }
  }

  /** The child behind an edge of a ready node can be optimized. */
  lemma ReadyChild(ns: seq<Node>, par: seq<nat>, i: nat, e: Edge)
    requires TreeOk(ns, par) && WellLinked(ns) && i < |ns| && HasEdge(ns[i], e) && Ready(ns, par, i)
    ensures i < Target(ns[i], e) < |ns| && Ready(ns, par, Target(ns[i], e))
    ensures forall k :: k in ns[Target(ns[i], e)].children ==> Target(ns[i], e) < ns[Target(ns[i], e)].children[k]
  {
    SettledIsReady(ns, par, Target(ns[i], e));
    TargetsBelow(ns, par, Target(ns[i], e));
  }

  lemma TargetsBelow(ns: seq<Node>, par: seq<nat>, i: nat)
    requires TreeOk(ns, par) && i < |ns|
    ensures forall k :: k in ns[i].children ==> i + 1 <= ns[i].children[k] < |ns|
    ensures EqualLengths(ns[i].children)
  {
    assert NodeOk(ns, par, i);
    forall k | k in ns[i].children ensures i + 1 <= ns[i].children[k] < |ns| {
      assert HasEdge(ns[i], ByText(k));
    }
  }

  lemma LeafIsCompressed(ns: seq<Node>, i: nat)
    requires WellLinked(ns) && i < |ns| && ns[i].children == map[]
    requires forall p: ParamType :: p in ns[i].params ==> HasEdge(ns[i], ByParam(p)) && Compressed(ns, ns[i].params[p])
    ensures Compressed(ns, i)
  {
  }
}

/** A trie built by Trie::add as a finite map from token lists to rule indices, and the best match in it. */
module TrieRules {
  import opened Bytes
  import opened RoutePattern
  import opened TrieNodes

  type Rules = map<seq<Token>, nat>

  function EdgeOf(t: Token): Edge {
    match t
    case Lit(c) => ByText([c])
    case Par(p) => ByParam(p)
  }

  /** The rule index at the end of the path spelled by the tokens; 0 when the path leaves the trie. */
  ghost function RuleAt(ns: seq<Node>, i: nat, tokens: seq<Token>): nat
    requires WellLinked(ns) && i < |ns|
    decreases |tokens|
  {
    if tokens == [] then ns[i].rule
    else
      var e := EdgeOf(tokens[0]);
      if HasEdge(ns[i], e) then RuleAt(ns, Target(ns[i], e), tokens[1..]) else 0
  }

  /** The trie holds exactly these rules. */
  ghost predicate Represents(ns: seq<Node>, rules: Rules)
    requires WellLinked(ns) && |ns| > 0
  {
    && (forall ts: seq<Token> {:trigger RuleAt(ns, 0, ts)} ::
          RuleAt(ns, 0, ts) == if ts in rules then rules[ts] else 0)
    && (forall ts :: ts in rules ==> rules[ts] != 0)
  }

  /** The declarative answer: the smallest index among the rules that match the whole URL, with that rule's parse. */
  ghost predicate IsBest(rules: Rules, url: string, read: Reader, r: Outcome) {
    && (forall ts :: ts in rules && MatchUrl(ts, url, read).Matched? ==> 0 < r.rule <= rules[ts])
    && (r.rule != 0 ==> exists ts :: ts in rules && rules[ts] == r.rule && MatchUrl(ts, url, read) == Matched(r.params))
  }

  ghost predicate AllOneChar(ns: seq<Node>) {
    forall i: nat {:trigger ns[i]} :: i < |ns| ==> OneChar(ns[i])
  }

  lemma {:induction false} FindReachesEveryMatch(
    ns: seq<Node>, i: nat, tokens: seq<Token>, url: string, pos: nat, ps: Params, read: Reader)
    requires WellLinked(ns) && AllOneChar(ns) && i < |ns| && pos <= |url|
    requires RuleAt(ns, i, tokens) != 0 && MatchFrom(tokens, url, pos, ps, read).Matched?
    ensures 0 < FindFrom(ns, i, url, pos, ps, read).rule <= RuleAt(ns, i, tokens)
    decreases |tokens|
  {
    if tokens != [] {
      match tokens[0] {
        case Lit(c) =>
          assert HasEdge(ns[i], ByText([c])) && OneChar(ns[i]);
          hide FindFrom;
          FindReachesEveryMatch(ns, ns[i].children[[c]], tokens[1..], url, pos + 1, ps, read);
          CharReaches(ns, i, c, url, pos, ps, read);
        case Par(p) =>
          assert HasEdge(ns[i], ByParam(p));
          var scan := read(p, url, pos);
          hide FindFrom;
          FindReachesEveryMatch(ns, ns[i].params[p], tokens[1..], url, scan.end, ps.Push(scan.arg), read);
          ParamReaches(ns, i, p, url, pos, ps, read);
      }
    }
  }

  lemma CharReaches(ns: seq<Node>, i: nat, c: char, url: string, pos: nat, ps: Params, read: Reader)
    requires WellLinked(ns) && i < |ns| && OneChar(ns[i]) && pos < |url| && url[pos] == c && [c] in ns[i].children
    ensures ns[i].children[[c]] < |ns|
    ensures var below := FindFrom(ns, ns[i].children[[c]], url, pos + 1, ps, read).rule;
            below != 0 ==> 0 < FindFrom(ns, i, url, pos, ps, read).rule <= below
  {
    assert HasEdge(ns[i], ByText([c])) && OccursAt(url, pos, [c]);
    AtMostOneStaticMatch(ns[i].children, url, pos, [c]);
    hide ParamSteps, StaticKey, WellLinked;
  }

  lemma ParamReaches(ns: seq<Node>, i: nat, p: ParamType, url: string, pos: nat, ps: Params, read: Reader)
    requires WellLinked(ns) && i < |ns| && pos < |url| && p in ns[i].params && read(p, url, pos).Hit?
    requires pos < read(p, url, pos).end <= |url|
    ensures ns[i].params[p] < |ns|
    ensures var scan := read(p, url, pos);
            var below := FindFrom(ns, ns[i].params[p], url, scan.end, ps.Push(scan.arg), read).rule;
            below != 0 ==> 0 < FindFrom(ns, i, url, pos, ps, read).rule <= below
  {
    assert HasEdge(ns[i], ByParam(p));
    ParamStepsReach(ns, i, p, url, pos, ps, read);
    hide ParamSteps, StaticStep;
  }

  lemma {:induction false} FindNamesAMatch(ns: seq<Node>, i: nat, url: string, pos: nat, ps: Params, read: Reader)
    returns (tokens: seq<Token>)
    requires WellLinked(ns) && AllOneChar(ns) && i < |ns| && pos <= |url|
    requires FindFrom(ns, i, url, pos, ps, read).rule != 0
    ensures var r := FindFrom(ns, i, url, pos, ps, read);
            RuleAt(ns, i, tokens) == r.rule && MatchFrom(tokens, url, pos, ps, read) == Matched(r.params)
    decreases |url| - pos
  {
    var r := FindFrom(ns, i, url, pos, ps, read);
    if pos == |url| {
      tokens := [];
    } else if r == StaticStep(ns, i, url, pos, ps, read) {
      var key := StaticKey(ns[i].children, url, pos).key;
      assert HasEdge(ns[i], ByText(key)) && key == [url[pos]];
      var rest := FindNamesAMatch(ns, ns[i].children[key], url, pos + 1, ps, read);
      tokens := [Lit(url[pos])] + rest;
    } else {
      var p := ParamStepsPick(ns, i, url, pos, ps, read);
      var scan := read(p, url, pos);
      assert HasEdge(ns[i], ByParam(p));
      var rest := FindNamesAMatch(ns, ns[i].params[p], url, scan.end, ps.Push(scan.arg), read);
      tokens := [Par(p)] + rest;
    }
  }

  /** Searching a freshly built trie answers as the declarative reading of its rules does. */
  lemma FindIsBest(ns: seq<Node>, rules: Rules, url: string, read: Reader)
    requires WellLinked(ns) && AllOneChar(ns) && |ns| > 0 && Represents(ns, rules)
    ensures IsBest(rules, url, read, FindFrom(ns, 0, url, 0, NO_PARAMS, read))
  {
    var r := FindFrom(ns, 0, url, 0, NO_PARAMS, read);
    forall ts | ts in rules && MatchUrl(ts, url, read).Matched? ensures 0 < r.rule <= rules[ts] {
      assert RuleAt(ns, 0, ts) == rules[ts];
      FindReachesEveryMatch(ns, 0, ts, url, 0, NO_PARAMS, read);
    }
    if r.rule != 0 {
      var ts := FindNamesAMatch(ns, 0, url, 0, NO_PARAMS, read);
      assert RuleAt(ns, 0, ts) == r.rule;
    }
  }

  // ---- How add changes the map ----

  /** A trie as add leaves it: one-character edges, and par names the node that made each node. */
  ghost predicate RawTrie(ns: seq<Node>, par: seq<nat>) {
    && TreeOk(ns, par) && AllOneChar(ns) && |ns| > 0 && WellLinked(ns)
    && forall i: nat, e {:trigger HasEdge(ns[i], e)} ::
         i < |ns| && HasEdge(ns[i], e) ==> Target(ns[i], e) < |par| && par[Target(ns[i], e)] == i
  }

  function WithTarget(n: Node, e: Edge, j: nat): Node {
    match e
    case ByParam(p) => n.(params := n.params[p := j])
    case ByText(key) => n.(children := n.children[key := j])
  }

  /** A new empty node behind a new edge of node i. */
  function WithEdge(ns: seq<Node>, i: nat, e: Edge): seq<Node>
    requires i < |ns|
  {
    ns[i := WithTarget(ns[i], e, |ns|)] + [EMPTY_NODE]
  }

  lemma {:induction false} AboveInLongerList(par: seq<nat>, i: nat, a: nat, b: nat)
    requires b < |par|
    ensures Above(par + [i], a, b) == Above(par, a, b)
    decreases b
  {
    if a < b && par[b] < b { AboveInLongerList(par, i, a, par[b]); }
  }

  lemma NewEdgeKeepsNode(ns: seq<Node>, par: seq<nat>, i: nat, e: Edge, x: nat)
    requires RawTrie(ns, par) && i < |ns| && !HasEdge(ns[i], e) && (e.ByText? ==> |e.key| == 1) && x < |ns|
    ensures NodeOk(WithEdge(ns, i, e), par + [i], x)
  {
    var ms := WithEdge(ns, i, e);
    var par' := par + [i];
    assert NodeOk(ns, par, x) && OneChar(ns[x]);
    forall f | HasEdge(ms[x], f)
      ensures x < Target(ms[x], f) < |ms| && Above(par', x, Target(ms[x], f)) && (f.ByText? ==> f.key != "")
    {
      if HasEdge(ns[x], f) { AboveInLongerList(par, i, x, Target(ns[x], f)); }
    }
    forall f, g | f != g && HasEdge(ms[x], f) && HasEdge(ms[x], g)
      ensures Unrelated(par', Target(ms[x], f), Target(ms[x], g))
    {
      hide RawTrie, NodeOk, WellLinked;
      NewEdgeUnrelated(ns, par, i, e, x, f, g);
    }
    forall k, l | k in ms[x].children && l in ms[x].children ensures |k| == |l| {
      assert |k| == 1 && |l| == 1;
    }
  }

  lemma NewEdgeUnrelated(ns: seq<Node>, par: seq<nat>, i: nat, e: Edge, x: nat, f: Edge, g: Edge)
    requires RawTrie(ns, par) && i < |ns| && !HasEdge(ns[i], e) && x < |ns|
    requires f != g && HasEdge(WithEdge(ns, i, e)[x], f) && HasEdge(WithEdge(ns, i, e)[x], g)
    ensures Unrelated(par + [i], Target(WithEdge(ns, i, e)[x], f), Target(WithEdge(ns, i, e)[x], g))
  {
    var ms := WithEdge(ns, i, e);
    assert NodeOk(ns, par, x);
    if HasEdge(ns[x], f) && HasEdge(ns[x], g) {
      AboveInLongerList(par, i, Target(ns[x], f), Target(ns[x], g));
      AboveInLongerList(par, i, Target(ns[x], g), Target(ns[x], f));
    } else {
      var t := if f == e then Target(ns[x], g) else Target(ns[x], f);
      assert x == i < t && !Above(par + [i], t, i);
    }
  }

  lemma NewEdgeKeepsRaw(ns: seq<Node>, par: seq<nat>, i: nat, e: Edge)
    requires RawTrie(ns, par) && i < |ns| && !HasEdge(ns[i], e) && (e.ByText? ==> |e.key| == 1)
    ensures RawTrie(WithEdge(ns, i, e), par + [i])
  {
    var ms := WithEdge(ns, i, e);
    forall x: nat | x < |ms| ensures NodeOk(ms, par + [i], x) && OneChar(ms[x]) {
      if x < |ns| {
        NewEdgeKeepsNode(ns, par, i, e, x);
        assert OneChar(ns[x]);
      }
    }
    TreeIsWellLinked(ms, par + [i]);
    forall x: nat, f | x < |ms| && HasEdge(ms[x], f)
      ensures Target(ms[x], f) < |par + [i]| && (par + [i])[Target(ms[x], f)] == x
    {
      if x < |ns| && HasEdge(ns[x], f) { assert par[Target(ns[x], f)] == x; }
    }
  }

  lemma {:induction false} NewEdgeKeepsRules(ns: seq<Node>, i: nat, e: Edge, x: nat, ts: seq<Token>)
    requires WellLinked(ns) && i < |ns| && x < |ns| && !HasEdge(ns[i], e) && WellLinked(WithEdge(ns, i, e))
    ensures RuleAt(WithEdge(ns, i, e), x, ts) == RuleAt(ns, x, ts)
    decreases |ts|
  {
    if ts != [] && HasEdge(ns[x], EdgeOf(ts[0])) {
      NewEdgeKeepsRules(ns, i, e, Target(ns[x], EdgeOf(ts[0])), ts[1..]);
    }
  }

  /** The node at the end of the path spelled by the tokens, or -1. */
  ghost function Walk(ns: seq<Node>, i: nat, ts: seq<Token>): (j: int)
    requires WellLinked(ns) && i < |ns|
    ensures -1 <= j < |ns| && (j >= 0 ==> i + |ts| <= j)
    decreases |ts|
  {
    if ts == [] then i
    else if HasEdge(ns[i], EdgeOf(ts[0])) then Walk(ns, Target(ns[i], EdgeOf(ts[0])), ts[1..])
    else -1
  }

  lemma EmptyWalk(ns: seq<Node>)
    requires WellLinked(ns) && |ns| > 0
    ensures Walk(ns, 0, []) == 0
  {
  }

  lemma {:induction false} WalkFindsRule(ns: seq<Node>, i: nat, ts: seq<Token>)
    requires WellLinked(ns) && i < |ns|
    ensures RuleAt(ns, i, ts) == if Walk(ns, i, ts) >= 0 then ns[Walk(ns, i, ts)].rule else 0
    decreases |ts|
  {
    if ts != [] && HasEdge(ns[i], EdgeOf(ts[0])) {
      WalkFindsRule(ns, Target(ns[i], EdgeOf(ts[0])), ts[1..]);
    }
  }

  lemma {:induction false} WalkOneMore(ns: seq<Node>, i: nat, ts: seq<Token>, t: Token)
    requires WellLinked(ns) && i < |ns|
    ensures var j := Walk(ns, i, ts);
            Walk(ns, i, ts + [t]) ==
              if j >= 0 && HasEdge(ns[j], EdgeOf(t)) then Target(ns[j], EdgeOf(t)) else -1
    decreases |ts|
  {
    if ts == [] {
      assert ts + [t] == [t];
    } else {
      assert (ts + [t])[1..] == ts[1..] + [t];
      if HasEdge(ns[i], EdgeOf(ts[0])) {
        WalkOneMore(ns, Target(ns[i], EdgeOf(ts[0])), ts[1..], t);
      }
    }
  }

  /** No two token lists lead to the same node. */
  lemma {:induction false} WalkIsInjective(ns: seq<Node>, par: seq<nat>, ts: seq<Token>, us: seq<Token>)
    requires RawTrie(ns, par) && Walk(ns, 0, ts) == Walk(ns, 0, us) >= 0
    ensures ts == us
    decreases |ts|
  {
    hide NodeOk, AllOneChar;
    if ts != [] && us != [] {
      var a, s := ts[..|ts| - 1], ts[|ts| - 1];
      var b, u := us[..|us| - 1], us[|us| - 1];
      assert ts == a + [s] && us == b + [u];
      WalkOneMore(ns, 0, a, s);
      WalkOneMore(ns, 0, b, u);
      var x, y := Walk(ns, 0, a), Walk(ns, 0, b);
      assert HasEdge(ns[x], EdgeOf(s)) && HasEdge(ns[y], EdgeOf(u));
      assert x == y;
      WalkIsInjective(ns, par, a, b);
      SameTargetSameEdge(ns, par, x, EdgeOf(s), EdgeOf(u));
    }
  }

  lemma SameTargetSameEdge(ns: seq<Node>, par: seq<nat>, i: nat, e: Edge, f: Edge)
    requires TreeOk(ns, par) && i < |ns| && HasEdge(ns[i], e) && HasEdge(ns[i], f)
    requires Target(ns[i], e) == Target(ns[i], f)
    ensures e == f
  {
    assert NodeOk(ns, par, i);
  }

  lemma {:induction false} WalkKept(ns: seq<Node>, ms: seq<Node>, i: nat, ts: seq<Token>)
    requires WellLinked(ns) && WellLinked(ms) && i < |ns| <= |ms|
    requires EdgesKept(ns, ms)
    requires Walk(ns, i, ts) >= 0
    ensures Walk(ms, i, ts) == Walk(ns, i, ts)
    decreases |ts|
  {
    if ts != [] { WalkKept(ns, ms, Target(ns[i], EdgeOf(ts[0])), ts[1..]); }
  }

  lemma {:induction false} RuleChangeKeepsWalk(ns: seq<Node>, ms: seq<Node>, i: nat, ts: seq<Token>)
    requires WellLinked(ns) && WellLinked(ms) && i < |ns| == |ms|
    requires forall x: nat {:trigger ms[x]} :: x < |ns| ==> ms[x].params == ns[x].params && ms[x].children == ns[x].children
    ensures Walk(ms, i, ts) == Walk(ns, i, ts)
    decreases |ts|
  {
    if ts != [] && HasEdge(ns[i], EdgeOf(ts[0])) {
      RuleChangeKeepsWalk(ns, ms, Target(ns[i], EdgeOf(ts[0])), ts[1..]);
    }
  }

  /** Naming a rule at the end of a path changes the map at that path only. */
  lemma NewRule(ns: seq<Node>, par: seq<nat>, rules: Rules, path: seq<Token>, rule: nat)
    requires RawTrie(ns, par) && Represents(ns, rules)
    requires Walk(ns, 0, path) >= 0 && rule != 0 && path !in rules
    ensures var i := Walk(ns, 0, path);
            var ms := ns[i := ns[i].(rule := rule)];
            RawTrie(ms, par) && Represents(ms, rules[path := rule])
  {
    var i := Walk(ns, 0, path);
    var ms := ns[i := ns[i].(rule := rule)];
    RuleKeepsRaw(ns, par, i, rule);
    hide RawTrie, RuleAt, Walk, WellLinked;
    forall ts: seq<Token> ensures RuleAt(ms, 0, ts) == if ts in rules[path := rule] then rules[path := rule][ts] else 0 {
      WalkFindsRule(ns, 0, ts);
      WalkFindsRule(ms, 0, ts);
      RuleChangeKeepsWalk(ns, ms, 0, ts);
      if Walk(ns, 0, ts) == i { WalkIsInjective(ns, par, ts, path); }
    }
  }

  lemma RuleKeepsRaw(ns: seq<Node>, par: seq<nat>, i: nat, rule: nat)
    requires RawTrie(ns, par) && i < |ns|
    ensures RawTrie(ns[i := ns[i].(rule := rule)], par)
  {
    var ms := ns[i := ns[i].(rule := rule)];
    forall x: nat | x < |ms| ensures NodeOk(ms, par, x) && OneChar(ms[x]) {
      assert NodeOk(ns, par, x) && OneChar(ns[x]);
      assert forall e :: HasEdge(ms[x], e) == HasEdge(ns[x], e);
      assert forall e :: HasEdge(ms[x], e) ==> Target(ms[x], e) == Target(ns[x], e);
    }
    TreeIsWellLinked(ms, par);
    forall x: nat, e | x < |ms| && HasEdge(ms[x], e) ensures Target(ms[x], e) < |par| && par[Target(ms[x], e)] == x {
      assert HasEdge(ns[x], e);
    }
  }

  /** A new edge leaves the shape and the map as they were, and no existing edge moves. */
  lemma NewEdgeKeepsAll(ns: seq<Node>, par: seq<nat>, rules: Rules, i: nat, e: Edge)
    requires RawTrie(ns, par) && Represents(ns, rules) && i < |ns|
    requires !HasEdge(ns[i], e) && (e.ByText? ==> |e.key| == 1)
    ensures var ms := WithEdge(ns, i, e); RawTrie(ms, par + [i]) && Represents(ms, rules) && EdgesKept(ns, ms)
  {
    NewEdgeKeepsRaw(ns, par, i, e);
    var ms := WithEdge(ns, i, e);
    forall ts: seq<Token> ensures RuleAt(ms, 0, ts) == RuleAt(ns, 0, ts) {
      NewEdgeKeepsRules(ns, i, e, 0, ts);
    }
  }

  ghost predicate EdgesKept(ns: seq<Node>, ms: seq<Node>) {
    |ns| <= |ms| && forall x: nat, e {:trigger HasEdge(ns[x], e)} ::
      x < |ns| && HasEdge(ns[x], e) ==> HasEdge(ms[x], e) && Target(ms[x], e) == Target(ns[x], e)
  }

  /** A path that ended in node i now goes on along t. */
  lemma PathGoesOn(ns: seq<Node>, ms: seq<Node>, i: nat, ts: seq<Token>, t: Token)
    requires WellLinked(ns) && WellLinked(ms) && 0 < |ns| && EdgesKept(ns, ms)
    requires Walk(ns, 0, ts) == i && HasEdge(ms[i], EdgeOf(t))
    ensures Walk(ms, 0, ts + [t]) == Target(ms[i], EdgeOf(t))
  {
    WalkKept(ns, ms, 0, ts);
    WalkOneMore(ms, 0, ts, t);
  }

  lemma RuleAtPath(ns: seq<Node>, rules: Rules, path: seq<Token>)
    requires WellLinked(ns) && |ns| > 0 && Represents(ns, rules) && Walk(ns, 0, path) >= 0
    ensures (ns[Walk(ns, 0, path)].rule == 0) == (path !in rules)
  {
    WalkFindsRule(ns, 0, path);
  }
}

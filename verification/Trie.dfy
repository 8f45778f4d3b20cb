/** The route trie of the crow router: building it, compressing it, searching it. */
module Trie {
  import opened Bytes
  import opened Options
  import opened RoutePattern
  import opened TrieNodes
  import opened TrieCompression
  import opened TrieRules
  import RouteInstances

  /** The parameter lists that a search pushes to and pops from. */
  class RoutingParams {
    var ints: seq<int>
    var uints: seq<nat>
    var doubles: seq<real>
    var strings: seq<string>

    function Value(): Params
      reads this
    {
      Params(ints, uints, doubles, strings)
    }

    constructor ()
      ensures Value() == NO_PARAMS
    {
      ints, uints, doubles, strings := [], [], [], [];
    }
  }

  class Trie {
    var nodes: seq<Node>
    const strtod: Strtod

    ghost var rules: Rules       // the patterns added so far
    ghost var par: seq<nat>      // the node that created each node
    ghost var built: seq<Node>   // the nodes as add left them

    ghost function Read(): Reader { CrowReader(strtod) }

    ghost predicate Valid()
      reads this
    {
      && RawTrie(built, par) && Represents(built, rules) && |nodes| > 0
      && TreeOk(nodes, par) && WellLinked(nodes) && SameRouting(built, nodes, Read()) && RouteInstances.FromPatterns(rules)
    }

    constructor (strtod: Strtod)
      ensures Valid() && nodes == built && rules == map[]
    {
      this.strtod := strtod;
      nodes, built := [EMPTY_NODE], [EMPTY_NODE];
      par, rules := [0], map[];
      new;
      EmptyTrie(Read());
    }

    lemma EmptyTrie(read: Reader)
      ensures RawTrie([EMPTY_NODE], [0]) && Represents([EMPTY_NODE], map[]) && SameRouting([EMPTY_NODE], [EMPTY_NODE], read)
    {
      hide FindFrom, Above;
      assert forall e :: !HasEdge(EMPTY_NODE, e);
      assert NodeOk([EMPTY_NODE], [0], 0);
    }

    // ---- Searching ----

    /** One level of the search: the node's parameter edges, then its static edges. */
    method FindAt(url: string, i: nat, pos: nat, params: RoutingParams) returns (r: Outcome)
      requires WellLinked(nodes) && i < |nodes| && pos <= |url|
      requires forall x: nat {:trigger nodes[x]} :: x < |nodes| ==> EqualLengths(nodes[x].children)
      modifies params
      ensures params.Value() == old(params.Value())
      ensures r == FindFrom(nodes, i, url, pos, old(params.Value()), Read())
      decreases |url| - pos, 2
    {
      if pos == |url| { return Outcome(nodes[i].rule, params.Value()); }
      r := FindByParams(url, i, pos, params);
      r := FindByText(url, i, pos, params, r);
    }

    method FindByText(url: string, i: nat, pos: nat, params: RoutingParams, found: Outcome) returns (r: Outcome)
      requires WellLinked(nodes) && i < |nodes| && pos < |url|
      requires forall x: nat {:trigger nodes[x]} :: x < |nodes| ==> EqualLengths(nodes[x].children)
      modifies params
      ensures params.Value() == old(params.Value())
      ensures r == Better(found, StaticStep(nodes, i, url, pos, old(params.Value()), Read()))
      decreases |url| - pos, 1
    {
      hide FindFrom, StaticStep, OccursAt;
      r := found;
      ghost var ps := params.Value();
      ghost var below := StaticStep(nodes, i, url, pos, ps, Read());
      NoStaticStep(nodes, i, url, pos, ps, Read());
      hide StaticKey;
      ghost var choice := StaticKey(nodes[i].children, url, pos);
      var keys := nodes[i].children.Keys;
      while keys != {}
        invariant keys <= nodes[i].children.Keys
        invariant params.Value() == ps
        invariant r == if choice.Key? && choice.key !in keys then Better(found, below) else found
        decreases |keys|
      {
        var fragment :| fragment in keys;
        assert HasEdge(nodes[i], ByText(fragment));
        if OccursAt(url, pos, fragment) {
          AtMostOneStaticMatch(nodes[i].children, url, pos, fragment);
          StaticStepOf(nodes, i, url, pos, ps, Read(), fragment);
          var ret := FindAt(url, nodes[i].children[fragment], pos + |fragment|, params);
          r := Better(r, ret);
        }
        keys := keys - {fragment};
      }
    }

    lemma NoStaticStep(ns: seq<Node>, i: nat, url: string, pos: nat, ps: Params, read: Reader)
      requires WellLinked(ns) && i < |ns| && pos < |url|
      ensures StaticKey(ns[i].children, url, pos).NoKey? ==> StaticStep(ns, i, url, pos, ps, read) == NOT_FOUND
      ensures StaticKey(ns[i].children, url, pos).Key? ==> StaticKey(ns[i].children, url, pos).key in ns[i].children
    {}

    lemma StaticStepOf(ns: seq<Node>, i: nat, url: string, pos: nat, ps: Params, read: Reader, key: string)
      requires WellLinked(ns) && i < |ns| && pos < |url| && StaticKey(ns[i].children, url, pos) == Key(key)
      ensures key in ns[i].children && ns[i].children[key] < |ns| && key != "" && pos + |key| <= |url|
      ensures StaticStep(ns, i, url, pos, ps, read) == FindFrom(ns, ns[i].children[key], url, pos + |key|, ps, read)
    {
      assert HasEdge(ns[i], ByText(key));
    }

    method FindByParams(url: string, i: nat, pos: nat, params: RoutingParams) returns (r: Outcome)
      requires WellLinked(nodes) && i < |nodes| && pos < |url|
      requires forall x: nat {:trigger nodes[x]} :: x < |nodes| ==> EqualLengths(nodes[x].children)
      modifies params
      ensures params.Value() == old(params.Value())
      ensures r == ParamSteps(nodes, i, url, pos, old(params.Value()), Read())
      decreases |url| - pos, 1
    {
      hide FindFrom, ParamStep;
      r := NOT_FOUND;
      r := TryInt(url, i, pos, params, r);
      r := TryUint(url, i, pos, params, r);
      r := TryDouble(url, i, pos, params, r);
      r := TryText(url, i, pos, params, r, STRING);
      r := TryText(url, i, pos, params, r, PATH);
    }

    method TryInt(url: string, i: nat, pos: nat, params: RoutingParams, found: Outcome) returns (r: Outcome)
      requires WellLinked(nodes) && i < |nodes| && pos < |url|
      requires forall x: nat {:trigger nodes[x]} :: x < |nodes| ==> EqualLengths(nodes[x].children)
      modifies params
      ensures params.Value() == old(params.Value())
      ensures r == Better(found, ParamStep(nodes, i, INT, url, pos, old(params.Value()), Read()))
      decreases |url| - pos, 0
    {
      hide FindFrom, ReadParam;
      r := found;
      if INT in nodes[i].params {
        assert HasEdge(nodes[i], ByParam(INT));
        var scan := ReadParam(INT, url, pos, strtod);
        if scan.Hit? {
          params.ints := params.ints + [scan.arg.i];
          var ret := FindAt(url, nodes[i].params[INT], scan.end, params);
          r := Better(r, ret);
          params.ints := params.ints[..|params.ints| - 1];
        }
      }
    }

    method TryUint(url: string, i: nat, pos: nat, params: RoutingParams, found: Outcome) returns (r: Outcome)
      requires WellLinked(nodes) && i < |nodes| && pos < |url|
      requires forall x: nat {:trigger nodes[x]} :: x < |nodes| ==> EqualLengths(nodes[x].children)
      modifies params
      ensures params.Value() == old(params.Value())
      ensures r == Better(found, ParamStep(nodes, i, UINT, url, pos, old(params.Value()), Read()))
      decreases |url| - pos, 0
    {
      hide FindFrom, ReadParam;
      r := found;
      if UINT in nodes[i].params {
        assert HasEdge(nodes[i], ByParam(UINT));
        var scan := ReadParam(UINT, url, pos, strtod);
        if scan.Hit? {
          params.uints := params.uints + [scan.arg.u];
          var ret := FindAt(url, nodes[i].params[UINT], scan.end, params);
          r := Better(r, ret);
          params.uints := params.uints[..|params.uints| - 1];
        }
      }
    }

    method TryDouble(url: string, i: nat, pos: nat, params: RoutingParams, found: Outcome) returns (r: Outcome)
      requires WellLinked(nodes) && i < |nodes| && pos < |url|
      requires forall x: nat {:trigger nodes[x]} :: x < |nodes| ==> EqualLengths(nodes[x].children)
      modifies params
      ensures params.Value() == old(params.Value())
      ensures r == Better(found, ParamStep(nodes, i, DOUBLE, url, pos, old(params.Value()), Read()))
      decreases |url| - pos, 0
    {
      hide FindFrom, ReadParam;
      r := found;
      if DOUBLE in nodes[i].params {
        assert HasEdge(nodes[i], ByParam(DOUBLE));
        var scan := ReadParam(DOUBLE, url, pos, strtod);
        if scan.Hit? {
          params.doubles := params.doubles + [scan.arg.d];
          var ret := FindAt(url, nodes[i].params[DOUBLE], scan.end, params);
          r := Better(r, ret);
          params.doubles := params.doubles[..|params.doubles| - 1];
        }
      }
    }

    method TryText(url: string, i: nat, pos: nat, params: RoutingParams, found: Outcome, kind: ParamType) returns (r: Outcome)
      requires WellLinked(nodes) && i < |nodes| && pos < |url|
      requires forall x: nat {:trigger nodes[x]} :: x < |nodes| ==> EqualLengths(nodes[x].children)
      requires kind == STRING || kind == PATH
      modifies params
      ensures params.Value() == old(params.Value())
      ensures r == Better(found, ParamStep(nodes, i, kind, url, pos, old(params.Value()), Read()))
      decreases |url| - pos, 0
    {
      hide FindFrom, ReadParam;
      r := found;
      if kind in nodes[i].params {
        assert HasEdge(nodes[i], ByParam(kind));
        var scan := ReadParam(kind, url, pos, strtod);
        if scan.Hit? {
          params.strings := params.strings + [scan.arg.s];
          var ret := FindAt(url, nodes[i].params[kind], scan.end, params);
          r := Better(r, ret);
          params.strings := params.strings[..|params.strings| - 1];
        }
      }
    }

    /** The public search: every URL gets the best of the rules added so far. */
    method Find(url: string) returns (r: Outcome)
      requires Valid()
      ensures IsBest(rules, url, Read(), r)
      ensures RouteInstances.IsFirstInstance(rules, url, strtod, r)
    {
      var params := new RoutingParams();
      forall x: nat | x < |nodes| ensures EqualLengths(nodes[x].children) {
        assert NodeOk(nodes, par, x);
      }
      r := FindAt(url, 0, 0, params);
      assert r == FindFrom(built, 0, url, 0, NO_PARAMS, Read());
      FindIsBest(built, rules, url, Read());
      RouteInstances.BestIsFirstInstance(rules, url, strtod, r);
    }

    // ---- Path compression ----

    /** The static edges of node i joined with those of their targets. */
    method MergedChildren(i: nat) returns (merged: map<string, nat>)
      requires WellLinked(nodes) && i < |nodes|
      requires EqualLengths(nodes[i].children)
      ensures IsMerged(nodes, nodes[i].children, merged)
    {
      merged := map[];
      var children := nodes[i].children;
      var keys := children.Keys;
      NoneJoined(children);
      hide JoinedFor;
      while keys != {}
        invariant keys <= children.Keys && JoinedFor(merged, children, keys)
        decreases |keys|
      {
        var k :| k in keys;
        assert HasEdge(nodes[i], ByText(k));
        merged := MergeInto(merged, children, keys, k);
        keys := keys - {k};
      }
      AllJoined(merged, children);
    }

    /** The inner loop: adds k + x for every static edge x of the target of k. */
    method MergeInto(merged0: map<string, nat>, children: map<string, nat>, ghost keys: set<string>, k: string)
      returns (merged: map<string, nat>)
      requires EqualLengths(children) && keys <= children.Keys && k in keys && children[k] < |nodes|
      requires JoinedFor(merged0, children, keys)
      ensures JoinedFor(merged, children, keys - {k})
    {
      merged := merged0;
      var below := nodes[children[k]].children;
      var todo := below.Keys;
      StartsJoined(merged0, children, keys, k);
      hide *;
      while todo != {}
        invariant todo <= below.Keys && Joined(merged, children, keys, k, todo)
        decreases |todo|
      {
        var x :| x in todo;
        OneMoreJoined(merged, children, keys, k, todo, x);
        merged := merged[k + x := below[x]];
        todo := todo - {x};
      }
      EndsJoined(merged, children, keys, k);
    }

    /** The joined edges are those whose first half is not among the keys, and no others. */
    ghost predicate JoinedFor(merged: map<string, nat>, children: map<string, nat>, keys: set<string>)
      reads this`nodes
    {
      && (forall l, x {:trigger GrandEdge(nodes, children, l, x)} ::
            GrandEdge(nodes, children, l, x) && l !in keys ==> IsJoined(merged, children, l, x))
      && forall m :: m in merged ==> exists l, x :: GrandEdge(nodes, children, l, x) && l !in keys && m == l + x
    }

    lemma NoneJoined(children: map<string, nat>)
      ensures JoinedFor(map[], children, children.Keys)
    {}

    lemma AllJoined(merged: map<string, nat>, children: map<string, nat>)
      requires JoinedFor(merged, children, {})
      ensures IsMerged(nodes, children, merged)
    {
      forall k, x | GrandEdge(nodes, children, k, x) ensures IsJoined(merged, children, k, x) {}
      hide GrandEdge;
    }

    lemma StartsJoined(merged: map<string, nat>, children: map<string, nat>, keys: set<string>, k: string)
      requires k in keys && k in children && children[k] < |nodes| && JoinedFor(merged, children, keys)
      ensures Joined(merged, children, keys, k, nodes[children[k]].children.Keys)
    {
      forall m | m in merged
        ensures exists l, x :: GrandEdge(nodes, children, l, x) && Counts(keys, k, nodes[children[k]].children.Keys, l, x) && m == l + x
      {
        var l, x :| GrandEdge(nodes, children, l, x) && l !in keys && m == l + x;
        assert Counts(keys, k, nodes[children[k]].children.Keys, l, x);
      }
    }

    lemma EndsJoined(merged: map<string, nat>, children: map<string, nat>, keys: set<string>, k: string)
      requires k in keys && Joined(merged, children, keys, k, {})
      ensures JoinedFor(merged, children, keys - {k})
    {
      forall l, x | GrandEdge(nodes, children, l, x) && l !in keys - {k} ensures IsJoined(merged, children, l, x) {
        assert Counts(keys, k, {}, l, x);
      }
      forall m | m in merged ensures exists l, x :: GrandEdge(nodes, children, l, x) && l !in keys - {k} && m == l + x {
        var l, x :| GrandEdge(nodes, children, l, x) && Counts(keys, k, {}, l, x) && m == l + x;
      }
    }

    /** An edge counts when its first half is done, or is k with its second half done. */
    ghost predicate Counts(keys: set<string>, k: string, todo: set<string>, l: string, x: string) { l !in keys || (l == k && x !in todo) }

    /** The joined edges are those that count, and no others. */
    ghost predicate Joined(merged: map<string, nat>, children: map<string, nat>, keys: set<string>, k: string, todo: set<string>)
      reads this`nodes
    {
      && (forall l, x {:trigger GrandEdge(nodes, children, l, x)} ::
            GrandEdge(nodes, children, l, x) && Counts(keys, k, todo, l, x) ==> IsJoined(merged, children, l, x))
      && forall m :: m in merged ==> exists l, x :: GrandEdge(nodes, children, l, x) && Counts(keys, k, todo, l, x) && m == l + x
    }

    ghost predicate IsJoined(merged: map<string, nat>, children: map<string, nat>, l: string, x: string)
      requires GrandEdge(nodes, children, l, x)
      reads this`nodes
    {
      l + x in merged && merged[l + x] == nodes[children[l]].children[x]
    }

    lemma OneMoreJoined(merged: map<string, nat>, children: map<string, nat>, keys: set<string>, k: string, todo: set<string>, x: string)
      requires EqualLengths(children) && k in keys && k in children && children[k] < |nodes|
      requires x in todo && x in nodes[children[k]].children && Joined(merged, children, keys, k, todo)
      ensures Joined(merged[k + x := nodes[children[k]].children[x]], children, keys, k, todo - {x})
    {
      ghost var after := merged[k + x := nodes[children[k]].children[x]];
      assert GrandEdge(nodes, children, k, x);
      forall l, y | GrandEdge(nodes, children, l, y) && Counts(keys, k, todo - {x}, l, y) ensures IsJoined(after, children, l, y) {
        CountedIsJoined(merged, children, keys, k, todo, x, l, y);
      }
      forall m | m in after ensures exists l, y :: GrandEdge(nodes, children, l, y) && Counts(keys, k, todo - {x}, l, y) && m == l + y {
        hide GrandEdge, IsJoined, EqualLengths;
        if m == k + x {
          assert Counts(keys, k, todo - {x}, k, x);
        } else {
          var l, y :| GrandEdge(nodes, children, l, y) && Counts(keys, k, todo, l, y) && m == l + y;
          assert Counts(keys, k, todo - {x}, l, y);
        }
      }
    }

    lemma CountedIsJoined(merged: map<string, nat>, children: map<string, nat>, keys: set<string>, k: string, todo: set<string>, x: string,
                          l: string, y: string)
      requires EqualLengths(children) && k in keys && k in children && children[k] < |nodes|
      requires x in todo && x in nodes[children[k]].children && Joined(merged, children, keys, k, todo)
      requires GrandEdge(nodes, children, l, y) && Counts(keys, k, todo - {x}, l, y)
      ensures IsJoined(merged[k + x := nodes[children[k]].children[x]], children, l, y)
    {
      if l + y == k + x {
        hide Joined;
        ConcatInjective(l, y, k, x);
      } else {
        assert Counts(keys, k, todo, l, y);
        assert IsJoined(merged, children, l, y);
        hide Joined, EqualLengths;
      }
    }

    /**
     * Compresses the subtree of node i. `lo` is a lower bound on the targets of the node's static edges: each merge
     * raises it, which is why the recursion ends.
     */
    method OptimizeNode(i: nat, ghost lo: nat)
      requires TreeOk(nodes, par) && WellLinked(nodes) && i < |nodes| && i < lo <= |nodes|
      requires forall k :: k in nodes[i].children ==> lo <= nodes[i].children[k]
      requires Ready(nodes, par, i)
      modifies this`nodes
      ensures Optimized(old(nodes), nodes, par, i, Read()) && Compressed(nodes, i)
      decreases |nodes| - i, |nodes| - lo, 2
    {
      hide FindFrom, SameRouting, Compressed, IsMerged, NodeOk, Ready;
      OptimizeParams(i, lo);
      ghost var before := nodes;
      if nodes[i].children == map[] {
        LeafIsCompressed(nodes, i);
        return;
      }
      TargetsBelow(nodes, par, i);
      var mergeWithChild := AllChildrenSimple(i);
      if mergeWithChild {
        var merged := MergedChildren(i);
        MergeIsOptimized(nodes, par, i, merged, Read());
        MergeIsReady(nodes, par, i, merged, lo);
        nodes := nodes[i := nodes[i].(children := merged)];
        ghost var joined := nodes;
        OptimizeNode(i, lo + 1);
        OptimizedThenBelow(before, joined, nodes, par, i, i, Read());
      } else {
        OptimizeChildren(i, lo);
      }
      OptimizedThenBelow(old(nodes), before, nodes, par, i, i, Read());
    }

    method AllChildrenSimple(i: nat) returns (all: bool)
      requires WellLinked(nodes) && i < |nodes|
      ensures all <==> nodes[i].children == map[] || Mergeable(nodes, i)
    {
      all := true;
      var keys := nodes[i].children.Keys;
      while keys != {}
        invariant keys <= nodes[i].children.Keys
        invariant forall k :: k in nodes[i].children && k !in keys ==>
          HasEdge(nodes[i], ByText(k)) && nodes[nodes[i].children[k]].IsSimple()
        decreases |keys|
      {
        var k :| k in keys;
        assert HasEdge(nodes[i], ByText(k));
        if !nodes[nodes[i].children[k]].IsSimple() { return false; }
        keys := keys - {k};
      }
    }

    /** The first loop of the source's optimizeNode: each parameter child in turn. */
    method OptimizeParams(i: nat, ghost lo: nat)
      requires TreeOk(nodes, par) && WellLinked(nodes) && i < |nodes| && i < lo <= |nodes|
      requires Ready(nodes, par, i)
      modifies this`nodes
      ensures Optimized(old(nodes), nodes, par, i, Read())
      ensures nodes[i] == old(nodes)[i] && Ready(nodes, par, i)
      ensures forall p: ParamType :: p in nodes[i].params ==>
        HasEdge(nodes[i], ByParam(p)) && Compressed(nodes, nodes[i].params[p])
      decreases |nodes| - i, |nodes| - lo, 1
    {
      hide FindFrom, SameRouting, NodeOk, Ready, Compressed, Optimized, TreeOk;
      var order := [INT, UINT, DOUBLE, STRING, PATH];
      NothingChangedIsOptimized(nodes, par, i, Read());
      for n := 0 to |order|
        invariant |nodes| == old(|nodes|) && TreeOk(nodes, par) && WellLinked(nodes)
        invariant Optimized(old(nodes), nodes, par, i, Read())
        invariant nodes[i] == old(nodes)[i] && Ready(nodes, par, i)
        invariant forall p: ParamType :: p in order[..n] && p in nodes[i].params ==>
          HasEdge(nodes[i], ByParam(p)) && Compressed(nodes, nodes[i].params[p])
      {
        ghost var before := nodes;
        if order[n] in nodes[i].params {
          OptimizeParam(i, lo, order[n]);
          StaysAbove(i);
          OptimizedThenBelow(old(nodes), before, nodes, par, i, i, Read());
        }
        assert order[..n + 1] == order[..n] + [order[n]];
      }
      assert order[..|order|] == order;
      forall p: ParamType ensures p in order {
        var n := match p case INT => 0 case UINT => 1 case DOUBLE => 2 case STRING => 3 case PATH => 4;
        assert order[n] == p;
      }
    }

    lemma StaysAbove(i: nat)
      ensures Above(par, i, i)
    {}

    /** One parameter child. */
    method OptimizeParam(i: nat, ghost lo: nat, p: ParamType)
      requires TreeOk(nodes, par) && WellLinked(nodes) && i < |nodes| && i < lo <= |nodes|
      requires Ready(nodes, par, i) && p in nodes[i].params
      modifies this`nodes
      ensures |nodes| == old(|nodes|) && TreeOk(nodes, par) && WellLinked(nodes) && Optimized(old(nodes), nodes, par, i, Read())
      ensures nodes[i] == old(nodes)[i] && Ready(nodes, par, i)
      ensures HasEdge(nodes[i], ByParam(p)) && Compressed(nodes, nodes[i].params[p])
      ensures forall q: ParamType :: q in nodes[i].params && HasEdge(nodes[i], ByParam(q)) && Compressed(old(nodes), nodes[i].params[q])
                                     ==> Compressed(nodes, nodes[i].params[q])
      decreases |nodes| - i, |nodes| - lo, 0
    {
      hide FindFrom, SameRouting, NodeOk, Ready, Compressed;
      ghost var before := nodes;
      assert HasEdge(before[i], ByParam(p));
      ReadyChild(nodes, par, i, ByParam(p));
      OptimizeNode(nodes[i].params[p], nodes[i].params[p] + 1);
      EdgeOptimized(before, nodes, par, i, ByParam(p), Read());
      forall q: ParamType | q in nodes[i].params && HasEdge(nodes[i], ByParam(q)) && Compressed(before, nodes[i].params[q])
        ensures Compressed(nodes, nodes[i].params[q])
      {
        assert HasEdge(before[i], ByParam(q));
      }
    }

    /** The last loop of the source's optimizeNode: each static child in turn, when they cannot be merged away. */
    method OptimizeChildren(i: nat, ghost lo: nat)
      requires TreeOk(nodes, par) && WellLinked(nodes) && i < |nodes| && i < lo <= |nodes|
      requires Ready(nodes, par, i) && !Mergeable(nodes, i)
      requires forall p: ParamType :: p in nodes[i].params ==>
        HasEdge(nodes[i], ByParam(p)) && Compressed(nodes, nodes[i].params[p])
      modifies this`nodes
      ensures Optimized(old(nodes), nodes, par, i, Read()) && Compressed(nodes, i)
      decreases |nodes| - i, |nodes| - lo, 0
    {
      hide FindFrom, SameRouting, NodeOk, Ready;
      NothingChangedIsOptimized(nodes, par, i, Read());
      var keys := nodes[i].children.Keys;
      while keys != {}
        invariant |nodes| == old(|nodes|) && keys <= nodes[i].children.Keys
        invariant Optimized(old(nodes), nodes, par, i, Read())
        invariant nodes[i] == old(nodes)[i] && Ready(nodes, par, i) && !Mergeable(nodes, i)
        invariant forall e {:trigger HasEdge(nodes[i], e)} :: HasEdge(nodes[i], e) && (e.ByText? ==> e.key !in keys) ==>
          Compressed(nodes, Target(nodes[i], e))
        decreases |keys|
      {
        var k :| k in keys;
        ghost var before := nodes;
        assert HasEdge(before[i], ByText(k));
        ReadyChild(nodes, par, i, ByText(k));
        OptimizeNode(nodes[i].children[k], nodes[i].children[k] + 1);
        EdgeOptimized(before, nodes, par, i, ByText(k), Read());
        OptimizedThenBelow(old(nodes), before, nodes, par, i, i, Read());
        keys := keys - {k};
        forall e | HasEdge(nodes[i], e) && (e.ByText? ==> e.key !in keys)
          ensures Compressed(nodes, Target(nodes[i], e))
        {
          assert HasEdge(before[i], e);
        }
      }
    }

    /** Refuses a trie whose root is not simple, as the source throws; otherwise compresses it, and no route changes. */
    method Validate() returns (ok: bool)
      requires Valid() && nodes == built
      modifies this`nodes
      ensures Valid()
      ensures ok == built[0].IsSimple()
      ensures !ok ==> nodes == built
      ensures ok ==> Compressed(nodes, 0)
    {
      ok := nodes[0].IsSimple();
      if !ok { return; }
      RootIsReady();
      TargetsBelow(nodes, par, 0);
      TreeIsKept();
      hide *;
      OptimizeNode(0, 1);
      StillValid(built);
    }

    lemma TreeIsKept()
      requires Valid()
      ensures TreeOk(nodes, par) && WellLinked(nodes) && |nodes| > 0
    {}

    /** An optimized trie routes as before. */
    lemma StillValid(before: seq<Node>)
      requires before == built && RawTrie(built, par) && Represents(built, rules) && |built| > 0 && RouteInstances.FromPatterns(rules)
      requires Optimized(before, nodes, par, 0, Read())
      ensures Valid()
    {
      hide FindFrom, NodeOk, Represents, RawTrie, RouteInstances.FromPatterns;
    }

    lemma RootIsReady()
      requires Valid() && nodes == built
      ensures Ready(nodes, par, 0)
    {
      hide FindFrom, SameRouting, Compressed, NodeOk, Represents, RouteInstances.FromPatterns, Ready;
      assert RawBelow(nodes, par, 0);
      SettledIsReady(nodes, par, 0);
    }

    // ---- Adding a pattern ----

    /** Follows one edge, making it first where it is missing; no rule changes. */
    method Descend(i: nat, t: Token, ghost path: seq<Token>) returns (j: nat)
      requires Valid() && nodes == built && i < |nodes| && Walk(nodes, 0, path) == i
      modifies this`nodes, this`par, this`built
      ensures Valid() && nodes == built
      ensures j < |nodes| && Walk(nodes, 0, path + [t]) == j
    {
      hide FindFrom, NodeOk, AllOneChar, Represents, Walk, TreeOk;
      ghost var ns, par0 := nodes, par;
      var e := EdgeOf(t);
      if !HasEdge(nodes[i], e) {
        j := |nodes|;
        nodes := nodes + [EMPTY_NODE];
        nodes := nodes[i := WithTarget(nodes[i], e, j)];
        assert nodes == WithEdge(ns, i, e);
        NewEdgeKeepsAll(ns, par0, rules, i, e);
        par := par + [i];
        built := nodes;
      } else {
        j := Target(nodes[i], e);
      }
      PathGoesOn(ns, nodes, i, path, t);
    }

    /** The first part of add: follows the pattern from the root, making the missing nodes. */
    method MakePath(url: string) returns (idx: nat)
      requires Valid() && nodes == built && WellFormed(url)
      modifies this`nodes, this`par, this`built
      ensures Valid() && nodes == built
      ensures idx < |nodes| && Walk(nodes, 0, Tokens(url)) == idx
    {
      hide FindFrom, NodeOk, Represents, TreeOk, RawTrie, SameRouting, WellLinked, WellFormed, NextToken, Walk, Tokens;
      assert Walk(nodes, 0, []) == 0 by { EmptyWalk(nodes); }
      Prepend([], Tokens(url));
      idx := 0;
      var i := 0;
      ghost var path: seq<Token> := [];
      while i < |url|
        invariant i <= |url| && WellFormed(url, i) && path + Tokens(url, i) == Tokens(url)
        invariant Valid() && nodes == built
        invariant idx < |nodes| && Walk(nodes, 0, path) == idx
      {
        var (t, next) := NextToken(url, i);
        TokensStep(url, i);
        OneFurther(path, t, Tokens(url, next));
        idx := Descend(idx, t, path);
        path := path + [t];
        i := next;
      }
      NoTokens(url, i);
      Prepend(path, []);
    }

    lemma Prepend(path: seq<Token>, rest: seq<Token>)
      ensures path == [] ==> path + rest == rest
      ensures rest == [] ==> path + rest == path
    {}

    lemma OneFurther(path: seq<Token>, t: Token, rest: seq<Token>)
      ensures path + ([t] + rest) == (path + [t]) + rest
    {}

    lemma TokensStep(url: string, i: nat)
      requires i < |url| && WellFormed(url, i)
      ensures var (t, next) := NextToken(url, i); i < next <= |url| && WellFormed(url, next) && Tokens(url, i) == [t] + Tokens(url, next)
    {
      hide NextToken;
    }

    lemma NoTokens(url: string, i: nat)
      requires i == |url|
      ensures WellFormed(url, i) && Tokens(url, i) == []
    {}

    /** Registers a pattern; false where the source throws because its handler already exists. */
    method Add(url: string, ruleIndex: nat) returns (ok: bool)
      requires Valid() && nodes == built
      requires WellFormed(url) && ruleIndex != 0
      modifies this
      ensures Valid() && nodes == built
      ensures ok == (Tokens(url) !in old(rules))
      ensures rules == if ok then old(rules)[Tokens(url) := ruleIndex] else old(rules)
    {
      hide FindFrom, NodeOk, AllOneChar, TreeOk, WellLinked, Represents, RuleAt, Walk;
      var idx := MakePath(url);
      RuleAtPath(nodes, rules, Tokens(url));
      if nodes[idx].rule != 0 { return false; }
      NewRule(nodes, par, rules, Tokens(url), ruleIndex);
      nodes := nodes[idx := nodes[idx].(rule := ruleIndex)];
      built := nodes;
      rules := rules[Tokens(url) := ruleIndex];
      return true;
    }
  }

  /** The rule index whose handler redirects to the URL with a trailing slash. */
  const RULE_SPECIAL_REDIRECT_SLASH := 1

  predicate IsDirectory(rule: string) {
    |rule| > 1 && rule[|rule| - 1] == '/'
  }

  /** The rules after a rule was registered under `index`, or None when one of its patterns is taken. */
  function Registered(rules: Rules, rule: string, index: nat): Option<Rules>
    requires WellFormed(rule)
  {
    var tokens := Tokens(rule);
    if tokens in rules then None else
    var added := rules[tokens := index];
    if !IsDirectory(rule) then Some(added) else
    var bare := (DirectoryTokens(rule, 0); tokens[..|tokens| - 1]);
    if bare in added then None else Some(added[bare := RULE_SPECIAL_REDIRECT_SLASH])
  }

  class Router {
    const trie: Trie
    var ruleCount: nat    // the length of the source's rules_, whose first two entries stay empty

    ghost predicate Valid()
      reads this, trie
    {
      trie.Valid() && ruleCount >= 2 && forall ts :: ts in trie.rules ==> trie.rules[ts] < ruleCount
    }

    constructor (strtod: Strtod)
      ensures Valid() && fresh(trie) && trie.rules == map[] && trie.nodes == trie.built
    {
      trie := new Trie(strtod);
      ruleCount := 2;
    }

    /** Registers a rule; a rule for a directory also catches the URL without its trailing slash. */
    method InternalAddRuleObject(rule: string) returns (ok: bool)
      requires Valid() && trie.nodes == trie.built && WellFormed(rule)
      modifies this, trie
      ensures Valid() && trie.nodes == trie.built && ruleCount == old(ruleCount) + 1
      ensures ok <==> Registered(old(trie.rules), rule, old(ruleCount)).Some?
      ensures ok ==> Registered(old(trie.rules), rule, old(ruleCount)) == Some(trie.rules)
    {
      hide FindFrom, NodeOk, Represents, TreeOk, RawTrie, SameRouting, WellLinked, WellFormed, Tokens;
      ruleCount := ruleCount + 1;
      ok := trie.Add(rule, ruleCount - 1);
      if !ok { return; }
      if |rule| > 1 && rule[|rule| - 1] == '/' {
        DirectoryTokens(rule, 0);
        ok := trie.Add(rule[..|rule| - 1], RULE_SPECIAL_REDIRECT_SLASH);
      }
    }
  }
}

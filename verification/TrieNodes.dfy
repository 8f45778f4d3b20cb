/** The node vector of the route trie: what a search returns, and which shapes it can have. */
module TrieNodes {
  import opened Bytes
  import opened RoutePattern

  /** One trie node; an index 0 in the source's parameter array is an absent key here. */
  datatype Node = Node(rule: nat, params: map<ParamType, nat>, children: map<string, nat>)
  {
    predicate IsSimple() { rule == 0 && params == map[] }
  }

  const EMPTY_NODE := Node(0, map[], map[])

  datatype Edge = ByParam(p: ParamType) | ByText(key: string)

  predicate HasEdge(n: Node, e: Edge) {
    match e
    case ByParam(p) => p in n.params
    case ByText(key) => key in n.children
  }

  function Target(n: Node, e: Edge): nat
    requires HasEdge(n, e)
  {
    match e
    case ByParam(p) => n.params[p]
    case ByText(key) => n.children[key]
  }

  /** Edges lead to later nodes of the vector and static edges are not empty. */
  ghost predicate WellLinked(ns: seq<Node>) {
    forall i, e {:trigger HasEdge(ns[i], e)} :: 0 <= i < |ns| && HasEdge(ns[i], e) ==>
      i < Target(ns[i], e) < |ns| && (e.ByText? ==> e.key != "")
  }

  // ---- Searching ----

  datatype Outcome = Outcome(rule: nat, params: Params)

  const NOT_FOUND := Outcome(0, NO_PARAMS)

  /** A candidate replaces the best result when it names a rule with a smaller index. */
  function Better(best: Outcome, cand: Outcome): Outcome {
    if cand.rule != 0 && (best.rule == 0 || best.rule > cand.rule) then cand else best
  }

  datatype KeyChoice = NoKey | Key(key: string)

  /** A static edge that matches the URL at pos. */
  ghost function StaticKey(children: map<string, nat>, url: string, pos: nat): (r: KeyChoice)
    ensures r.Key? ==> r.key in children && OccursAt(url, pos, r.key)
    ensures r.NoKey? ==> forall k :: k in children ==> !OccursAt(url, pos, k)
  {
    if exists k :: k in children && OccursAt(url, pos, k) then
      var k :| k in children && OccursAt(url, pos, k);
      Key(k)
    else NoKey
  }

  ghost function FindFrom(ns: seq<Node>, i: nat, url: string, pos: nat, ps: Params, read: Reader): Outcome
    requires WellLinked(ns) && i < |ns| && pos <= |url|
    decreases |url| - pos, 2
  {
    if pos == |url| then Outcome(ns[i].rule, ps)
    else Better(ParamSteps(ns, i, url, pos, ps, read), StaticStep(ns, i, url, pos, ps, read))
  }

  ghost function ParamSteps(ns: seq<Node>, i: nat, url: string, pos: nat, ps: Params, read: Reader): Outcome
    requires WellLinked(ns) && i < |ns| && pos < |url|
    decreases |url| - pos, 1
  {
    var r := Better(NOT_FOUND, ParamStep(ns, i, INT, url, pos, ps, read));
    var r := Better(r, ParamStep(ns, i, UINT, url, pos, ps, read));
    var r := Better(r, ParamStep(ns, i, DOUBLE, url, pos, ps, read));
    var r := Better(r, ParamStep(ns, i, STRING, url, pos, ps, read));
    Better(r, ParamStep(ns, i, PATH, url, pos, ps, read))
  }

  ghost function ParamStep(ns: seq<Node>, i: nat, p: ParamType, url: string, pos: nat, ps: Params, read: Reader)
    : Outcome
    requires WellLinked(ns) && i < |ns| && pos < |url|
    decreases |url| - pos, 0
  {
    var scan := read(p, url, pos);
    if p in ns[i].params && scan.Hit? then
      assert HasEdge(ns[i], ByParam(p));
      FindFrom(ns, ns[i].params[p], url, scan.end, ps.Push(scan.arg), read)
    else NOT_FOUND
  }

  /** The parameter steps together are no worse than each of them. */
  lemma ParamStepsReach(ns: seq<Node>, i: nat, p: ParamType, url: string, pos: nat, ps: Params, read: Reader)
    requires WellLinked(ns) && i < |ns| && pos < |url|
    ensures var r := ParamStep(ns, i, p, url, pos, ps, read).rule;
            r != 0 ==> 0 < ParamSteps(ns, i, url, pos, ps, read).rule <= r
  {
    hide FindFrom, ParamStep;
  }

  /** What the parameter steps find, one of them found. */
  lemma ParamStepsPick(ns: seq<Node>, i: nat, url: string, pos: nat, ps: Params, read: Reader) returns (p: ParamType)
    requires WellLinked(ns) && i < |ns| && pos < |url|
    requires ParamSteps(ns, i, url, pos, ps, read).rule != 0
    ensures ParamSteps(ns, i, url, pos, ps, read) == ParamStep(ns, i, p, url, pos, ps, read)
  {
    hide FindFrom, ParamStep;
    var r := ParamSteps(ns, i, url, pos, ps, read);
    p := if r == ParamStep(ns, i, INT, url, pos, ps, read) then INT
         else if r == ParamStep(ns, i, UINT, url, pos, ps, read) then UINT
         else if r == ParamStep(ns, i, DOUBLE, url, pos, ps, read) then DOUBLE
         else if r == ParamStep(ns, i, STRING, url, pos, ps, read) then STRING else PATH;
  }

  ghost function StaticStep(ns: seq<Node>, i: nat, url: string, pos: nat, ps: Params, read: Reader): Outcome
    requires WellLinked(ns) && i < |ns| && pos < |url|
    decreases |url| - pos, 0
  {
    match StaticKey(ns[i].children, url, pos)
    case NoKey => NOT_FOUND
    case Key(key) =>
      assert HasEdge(ns[i], ByText(key));
      FindFrom(ns, ns[i].children[key], url, pos + |key|, ps, read)
  }

  /** The two vectors answer every search from every node alike. */
  ghost predicate SameRouting(ns: seq<Node>, ms: seq<Node>, read: Reader)
    requires WellLinked(ns) && WellLinked(ms)
  {
    |ns| == |ms| &&
    forall i: nat, url, pos: nat, ps {:trigger FindFrom(ms, i, url, pos, ps, read)} ::
      i < |ns| && pos <= |url| ==>
        FindFrom(ms, i, url, pos, ps, read) == FindFrom(ns, i, url, pos, ps, read)
  }

  // ---- Shape ----

  ghost predicate EqualLengths(children: map<string, nat>) {
    forall k, l :: k in children && l in children ==> |k| == |l|
  }

  ghost predicate OneChar(n: Node) {
    forall k :: k in n.children ==> |k| == 1
  }

  /** At most one static edge of a node matches at any position. */
  lemma AtMostOneStaticMatch(children: map<string, nat>, url: string, pos: nat, k: string)
    requires EqualLengths(children)
    requires k in children && OccursAt(url, pos, k)
    ensures StaticKey(children, url, pos) == Key(k)
  {
    var c := StaticKey(children, url, pos);
    assert c.Key?;
    assert |c.key| == |k|;
  }

  /** Node i is j, or an ancestor of j under the parent links par. */
  ghost predicate Above(par: seq<nat>, i: nat, j: nat)
    decreases j
  {
    i == j || (i < j < |par| && par[j] < j && Above(par, i, par[j]))
  }

  ghost predicate Unrelated(par: seq<nat>, i: nat, j: nat) {
    !Above(par, i, j) && !Above(par, j, i)
  }

  lemma {:induction false} AboveTransitive(par: seq<nat>, i: nat, j: nat, k: nat)
    requires Above(par, i, j) && Above(par, j, k)
    ensures Above(par, i, k)
    decreases k
  {
    if j != k { AboveTransitive(par, i, j, par[k]); }
  }

  lemma {:induction false} AncestorsFormAChain(par: seq<nat>, i: nat, j: nat, k: nat)
    requires Above(par, i, k) && Above(par, j, k)
    ensures Above(par, i, j) || Above(par, j, i)
    decreases k
  {
    if i != k && j != k { AncestorsFormAChain(par, i, j, par[k]); }
  }

  lemma UnrelatedBelow(par: seq<nat>, i: nat, j: nat, x: nat, y: nat)
    requires Unrelated(par, i, j) && Above(par, i, x) && Above(par, j, y)
    ensures Unrelated(par, x, y) && x != y
  {
    if Above(par, x, y) {
      AboveTransitive(par, i, x, y);
      AncestorsFormAChain(par, i, j, y);
    }
    if Above(par, y, x) {
      AboveTransitive(par, j, y, x);
      AncestorsFormAChain(par, i, j, x);
    }
  }

  /** Distinct edges of node i lead into disjoint subtrees below i, and its static edges have one common length. */
  ghost predicate NodeOk(ns: seq<Node>, par: seq<nat>, i: nat)
    requires i < |ns| == |par|
  {
    && (forall e {:trigger HasEdge(ns[i], e)} :: HasEdge(ns[i], e) ==>
          i < Target(ns[i], e) < |ns| && Above(par, i, Target(ns[i], e)) && (e.ByText? ==> e.key != ""))
    && (forall e, f {:trigger HasEdge(ns[i], e), HasEdge(ns[i], f)} ::
          e != f && HasEdge(ns[i], e) && HasEdge(ns[i], f) ==> Unrelated(par, Target(ns[i], e), Target(ns[i], f)))
    && EqualLengths(ns[i].children)
  }

  /** The invariant of the trie: a forest whose static edges are distinct and equally long node by node. */
  ghost predicate TreeOk(ns: seq<Node>, par: seq<nat>) {
    |ns| == |par| && forall i: nat {:trigger ns[i]} :: i < |ns| ==> NodeOk(ns, par, i)
  }

  lemma TreeIsWellLinked(ns: seq<Node>, par: seq<nat>)
    requires TreeOk(ns, par)
    ensures WellLinked(ns)
  {
    forall i, e | 0 <= i < |ns| && HasEdge(ns[i], e)
      ensures i < Target(ns[i], e) < |ns| && (e.ByText? ==> e.key != "")
    {
      assert NodeOk(ns, par, i);
    }
  }
}

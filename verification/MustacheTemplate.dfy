/** Mustache templates: what one tag is, how tags split a body, and how blocks nest. */
module MustacheTemplate {
  import opened Bytes

  datatype Kind = Ignore | Tag | UnescapeTag | OpenBlock | CloseBlock | ElseBlock | Partial

  /** One compiled tag. The name is body[start..end]; `pos` of a block is the index of its partner. */
  datatype Action = Action(kind: Kind, start: nat, end: nat, pos: nat)

  /** The literal text between two tags. */
  datatype Fragment = Fragment(first: nat, second: nat)

  /** std::string::substr and insert with a count computed as b - a: a negative count wraps and means the rest. */
  function Slice(body: string, a: nat, b: nat): string
    requires a <= |body| && b <= |body|
  {
    if a <= b then body[a..b] else body[a..]
  }

  predicate ActionFits(body: string, a: Action) { a.start <= |body| && a.end <= |body| }

  function TagName(body: string, a: Action): string
    requires ActionFits(body, a)
  {
    Slice(body, a.start, a.end)
  }

  // ---- Reading one tag --------------------------------------------------------------------------------

  function AfterSpaces(body: string, i: nat): (r: nat)
    requires i <= |body|
    ensures i <= r <= |body| && (forall k :: i <= k < r ==> body[k] == ' ') && (r < |body| ==> body[r] != ' ')
    decreases |body| - i
  {
    if i < |body| && body[i] == ' ' then AfterSpaces(body, i + 1) else i
  }

  function BeforeSpaces(body: string, e: nat): (r: nat)
    requires e <= |body|
    ensures r <= e && (forall k :: r <= k < e ==> body[k] == ' ') && (r > 0 ==> body[r - 1] != ' ')
  {
    if e > 0 && body[e - 1] == ' ' then BeforeSpaces(body, e - 1) else e
  }

  datatype Delimiters = Invalid | Pair(open: string, close: string)

  /** {{=open close=}}: the content between `idx` (after the first '=') and `end`. */
  function ReadDelimiters(body: string, idx: nat, end: nat): (r: Delimiters)
    requires 2 <= idx <= end <= |body|
    ensures r.Pair? ==> r.open != "" && r.close != "" && ' ' !in r.open && ' ' !in r.close
  {
    if body[end - 1] != '=' then Invalid
    else
      var s := AfterSpaces(body, idx);
      var e := BeforeSpaces(body, end - 1);
      if s >= e then Invalid
      else
        var space := Find(body, " ", s);
        if space == -1 || space >= e then Invalid
        else
          var t := AfterSpaces(body, space);
          assert body[e - 1] != ' ';
          assert OccursAt(body, space, " ") && body[space..space + 1][0] == ' ';
          assert t < e;
          assert forall k :: s <= k < space ==> body[k] != ' ' by {
            forall k | s <= k < space ensures body[k] != ' ' {
              assert !OccursAt(body, k, " ");
              assert body[k..k + 1] == [body[k]];
            }
          }
          if ' ' in body[t..e] then Invalid else Pair(body[s..space], body[t..e])
  }

  datatype Reading =
    | Last
    | Bad
    | Found(at: nat, action: Action, next: nat, open: string, close: string)

  function Trimmed(body: string, kind: Kind, i: nat, end: nat): (r: Action)
    requires i <= |body| && end <= |body|
    ensures ActionFits(body, r) && r.pos == 0
  {
    Action(kind, AfterSpaces(body, i), BeforeSpaces(body, end), 0)
  }

  /** The tag whose opening delimiter is at `at`, with its content from idx to end. */
  function ReadContent(body: string, at: nat, idx: nat, end: nat, open: string, close: string): (r: Reading)
    requires 0 < idx < end && end + |close| <= |body| && open != "" && close != ""
    ensures r.Found? ==> r.at == at && end < r.next <= |body| && r.open != "" && r.close != ""
    ensures r.Found? ==> ActionFits(body, r.action) && r.action.pos == 0
  {
    var next := end + |close|;
    match body[idx]
    case '#' => Found(at, Trimmed(body, OpenBlock, idx + 1, end), next, open, close)
    case '/' => Found(at, Trimmed(body, CloseBlock, idx + 1, end), next, open, close)
    case '^' => Found(at, Trimmed(body, ElseBlock, idx + 1, end), next, open, close)
    case '!' => Found(at, Action(Ignore, idx + 1, end, 0), next, open, close)
    case '>' => Found(at, Trimmed(body, Partial, idx + 1, end), next, open, close)
    case '{' =>
      if open != "{{" || close != "}}" || end + 2 >= |body| || body[end + 2] != '}' then Bad
      else Found(at, Trimmed(body, UnescapeTag, idx + 1, end), next + 1, open, close)
    case '&' => Found(at, Trimmed(body, UnescapeTag, idx + 1, end), next, open, close)
    case '=' =>
      (match ReadDelimiters(body, idx + 1, end)
       case Invalid => Bad
       case Pair(o, c) => Found(at, Action(Ignore, idx + 1, end, 0), next, o, c))
    case _ => Found(at, Trimmed(body, Tag, idx, end), next, open, close)
  }

  /** The next tag at or after `from`, with the delimiters in force. */
  function ReadTag(body: string, from: nat, open: string, close: string): (r: Reading)
    requires from <= |body| && open != "" && close != ""
    ensures r.Found? ==> from <= r.at < r.next <= |body| && r.open != "" && r.close != ""
    ensures r.Found? ==> ActionFits(body, r.action) && r.action.pos == 0
  {
    var at := Find(body, open, from);
    if at == -1 then Last
    else
      var idx := at + |open|;
      var end := Find(body, close, idx);
      if end == idx || end == -1 then Bad else ReadContent(body, at, idx, end, open, close)
  }

  // ---- The whole body ---------------------------------------------------------------------------------

  /** The fragments and tags of a body; `ok` when no tag on the way is malformed. */
  datatype Scan = Scan(fragments: seq<Fragment>, tags: seq<Action>, ok: bool)

  function ScanFrom(body: string, from: nat, open: string, close: string): (r: Scan)
    requires from <= |body| && open != "" && close != ""
    ensures |r.fragments| == |r.tags|
    ensures r.ok ==> r.tags != []
    ensures forall k :: 0 <= k < |r.tags| ==> ActionFits(body, r.tags[k]) && r.tags[k].pos == 0
    ensures forall k :: 0 <= k < |r.fragments| ==> from <= r.fragments[k].first <= r.fragments[k].second <= |body|
    decreases |body| - from
  {
    match ReadTag(body, from, open, close)
    case Last => Scan([Fragment(from, |body|)], [Action(Ignore, 0, 0, 0)], true)
    case Bad => Scan([], [], false)
    case Found(at, action, next, o, c) =>
      var rest := ScanFrom(body, next, o, c);
      Scan([Fragment(from, at)] + rest.fragments, [action] + rest.tags, rest.ok)
  }

  // ---- Block matching ---------------------------------------------------------------------------------

  predicate IsOpen(a: Action) { a.kind.OpenBlock? || a.kind.ElseBlock? }

  /** The blocks still open after some tags: their indices, or why the last close tag had no partner. */
  datatype Blocks = Pending(at: seq<nat>) | Mismatched | Stray

  function BlocksAfter(body: string, tags: seq<Action>, n: nat): (r: Blocks)
    requires n <= |tags| && forall k :: 0 <= k < |tags| ==> ActionFits(body, tags[k])
    ensures r.Pending? ==> forall k :: 0 <= k < |r.at| ==> r.at[k] < n && IsOpen(tags[r.at[k]])
  {
    if n == 0 then Pending([])
    else
      match BlocksAfter(body, tags, n - 1)
      case Mismatched => Mismatched
      case Stray => Stray
      case Pending(at) =>
        var tag := tags[n - 1];
        if IsOpen(tag) then Pending(at + [n - 1])
        else if !tag.kind.CloseBlock? then Pending(at)
        else if at == [] then Stray
        else if TagName(body, tags[at[|at| - 1]]) != TagName(body, tag) then Mismatched
        else Pending(at[..|at| - 1])
  }

  /** Once matching has failed it stays failed. */
  lemma {:induction false} BlocksStayFailed(body: string, tags: seq<Action>, m: nat, n: nat)
    requires m <= n <= |tags| && forall k :: 0 <= k < |tags| ==> ActionFits(body, tags[k])
    requires !BlocksAfter(body, tags, m).Pending?
    ensures BlocksAfter(body, tags, n) == BlocksAfter(body, tags, m)
    decreases n
  {
    if m < n { BlocksStayFailed(body, tags, m, n - 1); }
  }

  /** More opening than closing tags is the number of blocks still open. */
  function Excess(tags: seq<Action>, n: nat): int
    requires n <= |tags|
  {
    if n == 0 then 0
    else Excess(tags, n - 1) + (if IsOpen(tags[n - 1]) then 1 else if tags[n - 1].kind.CloseBlock? then -1 else 0)
  }

  lemma {:induction false} PendingIsExcess(body: string, tags: seq<Action>, n: nat)
    requires n <= |tags| && forall k :: 0 <= k < |tags| ==> ActionFits(body, tags[k])
    requires BlocksAfter(body, tags, n).Pending?
    ensures |BlocksAfter(body, tags, n).at| == Excess(tags, n)
  {
    if n > 0 { PendingIsExcess(body, tags, n - 1); }
  }

  // ---- Nesting ----------------------------------------------------------------------------------------

  /** The block structure over action indices. */
  datatype Forest =
    | Nil
    | Leaf(at: nat, rest: Forest)
    | Block(open: nat, inside: Forest, close: nat, rest: Forest)

  /** The actions from b up to e are exactly this forest: each block's ends point at each other and carry one name. */
  predicate Covers(body: string, actions: seq<Action>, f: Forest, b: nat, e: nat)
    requires forall k :: 0 <= k < |actions| ==> ActionFits(body, actions[k])
    decreases f
  {
    e <= |actions| &&
    match f
    case Nil => b == e
    case Leaf(at, rest) =>
      at == b < e && !IsOpen(actions[at]) && !actions[at].kind.CloseBlock? && Covers(body, actions, rest, b + 1, e)
    case Block(open, inside, close, rest) =>
      && open == b < close < e && IsOpen(actions[open]) && actions[close].kind.CloseBlock?
      && actions[open].pos == close && actions[close].pos == open
      && TagName(body, actions[open]) == TagName(body, actions[close])
      && Covers(body, actions, inside, open + 1, close)
      && Covers(body, actions, rest, close + 1, e)
  }

  lemma {:induction false} CoversBounds(body: string, actions: seq<Action>, f: Forest, b: nat, e: nat)
    requires forall k :: 0 <= k < |actions| ==> ActionFits(body, actions[k])
    requires Covers(body, actions, f, b, e)
    ensures b <= e && (b == e <==> f.Nil?)
  {
    match f
    case Nil =>
    case Leaf(at, rest) => CoversBounds(body, actions, rest, b + 1, e);
    case Block(open, inside, close, rest) => CoversBounds(body, actions, rest, close + 1, e);
  }

  /** The compiled actions have one reading as nested blocks. */
  lemma {:induction false} NestingIsUnique(body: string, actions: seq<Action>, f: Forest, g: Forest, b: nat, e: nat)
    requires forall k :: 0 <= k < |actions| ==> ActionFits(body, actions[k])
    requires Covers(body, actions, f, b, e) && Covers(body, actions, g, b, e)
    ensures f == g
    decreases f
  {
    CoversBounds(body, actions, f, b, e);
    CoversBounds(body, actions, g, b, e);
    match f
    case Nil =>
    case Leaf(at, rest) => NestingIsUnique(body, actions, rest, g.rest, b + 1, e);
    case Block(open, inside, close, rest) =>
      NestingIsUnique(body, actions, inside, g.inside, open + 1, close);
      NestingIsUnique(body, actions, rest, g.rest, close + 1, e);
  }

  function Append(f: Forest, g: Forest): Forest {
    match f
    case Nil => g
    case Leaf(at, rest) => Leaf(at, Append(rest, g))
    case Block(open, inside, close, rest) => Block(open, inside, close, Append(rest, g))
  }

  lemma {:induction false} CoversAppend(body: string, actions: seq<Action>, f: Forest, g: Forest, b: nat, m: nat, e: nat)
    requires forall k :: 0 <= k < |actions| ==> ActionFits(body, actions[k])
    requires Covers(body, actions, f, b, m) && Covers(body, actions, g, m, e)
    ensures Covers(body, actions, Append(f, g), b, e)
  {
    hide ActionFits, TagName;
    CoversBounds(body, actions, g, m, e);
    if !f.Nil? {
      var next := if f.Leaf? then b + 1 else f.close + 1;
      CoversBounds(body, actions, f.rest, next, m);
      CoversWith(body, actions, f, Append(f.rest, g), b, m, e);
      hide Covers;
      CoversAppend(body, actions, f.rest, g, next, m, e);
    }
  }

  /** What follows the first tag or block may be exchanged. */
  lemma CoversWith(body: string, actions: seq<Action>, f: Forest, rest: Forest, b: nat, m: nat, e: nat)
    requires forall k :: 0 <= k < |actions| ==> ActionFits(body, actions[k])
    requires Covers(body, actions, f, b, m) && !f.Nil? && m <= e <= |actions|
    ensures Covers(body, actions, rest, if f.Leaf? then b + 1 else f.close + 1, e) ==> Covers(body, actions, f.(rest := rest), b, e)
  {
    hide ActionFits, TagName;
  }

  /** Nesting looks only at the actions of its own stretch, and not at what partials store in `pos`. */
  lemma {:induction false} CoversFrame(body: string, actions: seq<Action>, others: seq<Action>, f: Forest, b: nat, e: nat)
    requires forall k :: 0 <= k < |actions| ==> ActionFits(body, actions[k])
    requires forall k :: 0 <= k < |others| ==> ActionFits(body, others[k])
    requires Covers(body, actions, f, b, e) && e <= |others|
    requires forall k :: b <= k < e ==> others[k] == actions[k] || (actions[k].kind.Partial? && others[k] == actions[k].(pos := others[k].pos))
    ensures Covers(body, others, f, b, e)
  {
    hide ActionFits, TagName;
    match f
    case Nil =>
    case Leaf(at, rest) => CoversFrame(body, actions, others, rest, b + 1, e);
    case Block(open, inside, close, rest) =>
      CoversFrame(body, actions, others, inside, open + 1, close);
      CoversFrame(body, actions, others, rest, close + 1, e);
  }
}

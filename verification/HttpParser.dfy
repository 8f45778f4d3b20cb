/** The HTTP parser as crow runs it: http_parser_execute with its marks, and the callbacks that build the request. */
module HttpParser {
  import opened Bytes
  import opened HttpControl
  import opened HttpRun

  // ---- What the callbacks build ----

  /** What the handler is given when a message is complete. */
  datatype Message = Message(rawUrl: Bytes, headers: seq<(Bytes, Bytes)>, body: Bytes)

  datatype Fields = Fields(
    rawUrl: Bytes, building: bool, field: Bytes, value: Bytes, headers: seq<(Bytes, Bytes)>, body: Bytes,
    handled: seq<Message>)

  const NO_FIELDS := Fields([], false, [], [], [], [], [])

  /** The effect of one callback; `building` is header_building_state. */
  function Deliver(f: Fields, e: Event): Fields {
    match e
    case Note(MessageBegin) => NO_FIELDS.(handled := f.handled)
    case Data(UrlData, b) => f.(rawUrl := f.rawUrl + b)
    case Data(FieldData, b) =>
      if f.building then f.(field := f.field + b)
      else if f.value != [] then
        f.(headers := f.headers + [(f.field, f.value)], value := [], field := b, building := true)
      else f.(field := b, building := true)
    case Data(ValueData, b) =>
      if f.building then f.(building := false, value := b) else f.(value := f.value + b)
    case Note(HeadersComplete) =>
      if f.field != [] then f.(headers := f.headers + [(f.field, f.value)], field := [], value := []) else f
    case Data(BodyData, b) => f.(body := f.body + b)
    case Note(MessageComplete) => f.(handled := f.handled + [Message(f.rawUrl, f.headers, f.body)])
  }

  function DeliverAll(f: Fields, es: seq<Event>): Fields {
    if es == [] then f else Deliver(DeliverAll(f, es[..|es| - 1]), es[|es| - 1])
  }

  /** Two data callbacks of one kind in a row do what one callback with the joined bytes does. */
  lemma DeliverTwice(f: Fields, k: Kind, x: Bytes, y: Bytes)
    ensures Deliver(Deliver(f, Data(k, x)), Data(k, y)) == Deliver(f, Data(k, x + y))
  {
    assert f.rawUrl + (x + y) == (f.rawUrl + x) + y;
    assert f.field + (x + y) == (f.field + x) + y;
    assert f.value + (x + y) == (f.value + x) + y;
    assert f.body + (x + y) == (f.body + x) + y;
  }

  lemma DeliverPush(f: Fields, js: seq<Event>, e: Event)
    ensures DeliverAll(f, Push(js, e)) == Deliver(DeliverAll(f, js), e)
  {
    hide Deliver;
    if js != [] && e.Data? && EndsIn(js, e.k) {
      var front, last := js[..|js| - 1], js[|js| - 1];
      var joined := Data(e.k, last.bytes + e.bytes);
      assert Push(js, e)[..|Push(js, e)| - 1] == front;
      DeliverTwice(DeliverAll(f, front), e.k, last.bytes, e.bytes);
    } else {
      assert (js + [e])[..|js + [e]| - 1] == js;
    }
  }

  /** What the callbacks build depends on the joined callback stream only. */
  lemma {:induction false} DeliverJoined(f: Fields, js: seq<Event>, es: seq<Event>)
    ensures DeliverAll(f, JoinOnto(js, es)) == DeliverAll(DeliverAll(f, js), es)
  {
    if es != [] {
      var n := |es| - 1;
      DeliverJoined(f, js, es[..n]);
      DeliverPush(f, JoinOnto(js, es[..n]), es[n]);
    }
  }

  /** The data callback of a state whose mark is set again at the start of each read. */
  ghost predicate Continues(s: State, trace: seq<Event>) {
    DataKind(s).Of? ==> EndsIn(Join(trace), DataKind(s).k)
  }

  // ---- Marks ----

  /** Which marks are set before byte i of an n-byte read: at most one, and which one the state tells. */
  ghost predicate MarksFit(s: State, marks: map<Kind, nat>, i: nat, n: nat) {
    && (forall k :: k in marks ==> marks[k] <= i)
    && match DataKind(s)
       case Of(k) => marks.Keys == {k}
       case NoMark =>
         if s.ChunkDataAlmostDone? then marks.Keys <= {BodyData}
         else if BulkState(s) then marks == map[] || (marks.Keys == {BodyData} && i == n)
         else marks == map[]
  }

  /** The bytes that are marked but not yet reported. */
  ghost function Pending(marks: map<Kind, nat>, data: Bytes, i: nat): seq<Event>
    requires i <= |data| && forall k :: k in marks ==> marks[k] <= i
  {
    if UrlData in marks then [Data(UrlData, data[marks[UrlData]..i])]
    else if FieldData in marks then [Data(FieldData, data[marks[FieldData]..i])]
    else if ValueData in marks then [Data(ValueData, data[marks[ValueData]..i])]
    else if BodyData in marks then [Data(BodyData, data[marks[BodyData]..i])]
    else []
  }

  lemma OnePending(marks: map<Kind, nat>, data: Bytes, i: nat, k: Kind)
    requires i <= |data| && marks.Keys == {k} && marks[k] <= i
    ensures Pending(marks, data, i) == [Data(k, data[marks[k]..i])]
  {
  }

  /** What the loop did with one control byte, as a relation between marks and callbacks before and after. */
  ghost predicate Did(ctl: Ctl, data: Bytes, i: nat, m: map<Kind, nat>, m': map<Kind, nat>, t: seq<Event>, t': seq<Event>)
    requires ctl.Go? && i < |data| && forall k :: k in m ==> m[k] <= i
  {
    var flushed := if ctl.flush.Of? && ctl.flush.k in m then [Data(ctl.flush.k, data[m[ctl.flush.k]..i])] else [];
    var m1 := if ctl.flush.Of? then m - {ctl.flush.k} else m;
    var m2 := if ctl.emptyValue then m1 - {ValueData} else m1;
    && t' == t + flushed + (if ctl.emptyValue then [Data(ValueData, [])] else []) + Notes(ctl.notes)
    && m' == if ctl.mark.Of? && ctl.mark.k !in m2 then m2[ctl.mark.k := i] else m2
  }

  lemma NextPending(js: seq<Event>, k: Kind, data: Bytes, a: nat, i: nat)
    requires a <= i < |data|
    ensures JoinOnto(js, [Data(k, data[a..i + 1])]) == JoinOnto(JoinOnto(js, [Data(k, data[a..i])]), [Data(k, [data[i]])])
  {
    hide Push;
    JoinOne(js, Data(k, data[a..i + 1]));
    JoinOne(js, Data(k, data[a..i]));
    JoinOne(Push(js, Data(k, data[a..i])), Data(k, [data[i]]));
    PushTwice(js, k, data[a..i], [data[i]]);
    assert data[a..i] + [data[i]] == data[a..i + 1];
  }

  /** The next state keeps its bytes under the same mark. */
  lemma DataGoesOn(
    s: State, ctl: Ctl, data: Bytes, i: nat, m: map<Kind, nat>, m': map<Kind, nat>, t: seq<Event>, t': seq<Event>)
    requires ctl.Go? && i < |data| && Fits(s, ctl) && !BulkState(s) && MarksFit(s, m, i, |data|)
    requires Did(ctl, data, i, m, m', t, t')
    requires DataKind(s).Of? && !ctl.flush.Of?
    ensures MarksFit(ctl.next.state, m', i + 1, |data|)
    ensures JoinOnto(Join(t'), Pending(m', data, i + 1)) ==
            JoinOnto(JoinOnto(Join(t), Pending(m, data, i)), ControlEvents(ctl, data[i]))
    ensures !ctl.exit
  {
    var k := DataKind(s).k;
    assert t' == t && m' == m;
    OnePending(m, data, i, k);
    OnePending(m, data, i + 1, k);
    assert ControlEvents(ctl, data[i]) == [Data(k, [data[i]])];
    NextPending(Join(t), k, data, m[k], i);
  }

  /** A data state, or the data of a chunk, ends: its bytes are reported. */
  lemma DataEnds(
    s: State, ctl: Ctl, data: Bytes, i: nat, m: map<Kind, nat>, m': map<Kind, nat>, t: seq<Event>, t': seq<Event>)
    requires ctl.Go? && i < |data| && Fits(s, ctl) && !BulkState(s) && MarksFit(s, m, i, |data|)
    requires Did(ctl, data, i, m, m', t, t')
    requires ctl.flush.Of?
    ensures m' == map[]
    ensures JoinOnto(Join(t'), Pending(m', data, i + 1)) ==
            JoinOnto(JoinOnto(Join(t), Pending(m, data, i)), ControlEvents(ctl, data[i]))
  {
    var k := ctl.flush.k;
    assert ControlEvents(ctl, data[i]) == [];
    assert m.Keys <= {k};
    if k in m {
      OnePending(m, data, i, k);
      assert t' == t + Pending(m, data, i);
    } else {
      assert m == map[] && t' == t + Pending(m, data, i);
    }
    JoinSplit([], t, Pending(m, data, i));
  }

  /** No bytes were pending: the notifications go out, and the byte may be the first of a data state. */
  lemma DataStarts(
    s: State, ctl: Ctl, data: Bytes, i: nat, m: map<Kind, nat>, m': map<Kind, nat>, t: seq<Event>, t': seq<Event>)
    requires ctl.Go? && i < |data| && Fits(s, ctl) && !BulkState(s) && MarksFit(s, m, i, |data|)
    requires Did(ctl, data, i, m, m', t, t')
    requires !DataKind(s).Of? && !ctl.flush.Of?
    ensures MarksFit(ctl.next.state, m', i + 1, |data|)
    ensures JoinOnto(Join(t'), Pending(m', data, i + 1)) ==
            JoinOnto(JoinOnto(Join(t), Pending(m, data, i)), ControlEvents(ctl, data[i]))
    ensures ctl.exit ==> m' == map[]
  {
    var after := DataKind(ctl.next.state);
    assert m == map[];
    var notes := (if ctl.emptyValue then [Data(ValueData, [])] else []) + Notes(ctl.notes);
    assert t' == t + notes;
    assert Pending(m', data, i + 1) == ByteOf(ctl.next.state, data[i]) by {
      if after.Of? {
        assert m' == map[after.k := i];
        OnePending(m', data, i + 1, after.k);
        assert data[i..i + 1] == [data[i]];
      } else {
        assert m' == map[];
      }
    }
    assert ControlEvents(ctl, data[i]) == notes + ByteOf(ctl.next.state, data[i]);
    JoinSplit([], t, notes);
    JoinSplit(Join(t), notes, ByteOf(ctl.next.state, data[i]));
  }

  /** After one control byte, the callbacks and the pending bytes together are those of the byte-by-byte parser. */
  lemma ControlJoins(
    s: State, ctl: Ctl, data: Bytes, i: nat, m: map<Kind, nat>, m': map<Kind, nat>, t: seq<Event>, t': seq<Event>)
    requires ctl.Go? && i < |data| && Fits(s, ctl) && !BulkState(s) && MarksFit(s, m, i, |data|)
    requires Did(ctl, data, i, m, m', t, t')
    ensures MarksFit(ctl.next.state, m', i + 1, |data|)
    ensures JoinOnto(Join(t'), Pending(m', data, i + 1)) ==
            JoinOnto(JoinOnto(Join(t), Pending(m, data, i)), ControlEvents(ctl, data[i]))
    ensures ctl.exit ==> m' == map[]
  {
    if ctl.flush.Of? {
      DataEnds(s, ctl, data, i, m, m', t, t');
    } else if DataKind(s).Of? {
      DataGoesOn(s, ctl, data, i, m, m', t, t');
    } else {
      DataStarts(s, ctl, data, i, m, m', t, t');
    }
  }

  lemma AtMostOneMark(marks: map<Kind, nat>)
    requires |marks| <= 1
    ensures forall k, l :: k in marks && l in marks ==> k == l
  {
    forall k, l | k in marks && l in marks ensures k == l {
      var rest := marks.Keys - {k};
      assert |rest| == |marks.Keys| - 1;
    }
  }

  /** The source's assert before the last callbacks: at most one mark is set. */
  lemma OneMarkAtMost(s: State, marks: map<Kind, nat>, n: nat)
    requires MarksFit(s, marks, n, n)
    ensures |marks| <= 1 && forall k :: k in marks ==> marks[k] <= n
  {
    if marks != map[] {
      var k :| k in marks;
      assert marks.Keys == {k};
      assert |marks.Keys| == 1;
    }
  }

  ghost function Piece(k: Kind, marks: map<Kind, nat>, data: Bytes): seq<Event>
    requires k in marks ==> marks[k] <= |data|
  {
    if k in marks then [Data(k, data[marks[k]..|data|])] else []
  }

  lemma PendingPieces(marks: map<Kind, nat>, data: Bytes)
    requires (forall k :: k in marks ==> marks[k] <= |data|) && |marks| <= 1
    ensures Pending(marks, data, |data|) ==
            Piece(FieldData, marks, data) + Piece(ValueData, marks, data) + Piece(UrlData, marks, data) +
            Piece(BodyData, marks, data)
  {
    AtMostOneMark(marks);
  }

  lemma NothingPending(trace: seq<Event>, data: Bytes, i: nat)
    requires i <= |data|
    ensures JoinOnto(Join(trace), Pending(map[], data, i)) == Join(trace)
  {
  }

  /** The marks set at the start of a read add nothing yet. */
  lemma FirstPending(s: State, marks: map<Kind, nat>, data: Bytes, trace: seq<Event>)
    requires Continues(s, trace)
    requires marks == match DataKind(s) case Of(k) => map[k := 0] case NoMark => map[]
    ensures MarksFit(s, marks, 0, |data|)
    ensures JoinOnto(Join(trace), Pending(marks, data, 0)) == Join(trace)
  {
    if DataKind(s).Of? {
      OnePending(marks, data, 0, DataKind(s).k);
      assert data[0..0] == [];
      JoinOne(Join(trace), Data(DataKind(s).k, []));
      PushNothing(Join(trace), DataKind(s).k);
    }
  }

  /** After the last callbacks the next read can set its mark again. */
  lemma LastPending(s: State, marks: map<Kind, nat>, data: Bytes, trace: seq<Event>)
    requires MarksFit(s, marks, |data|, |data|)
    ensures forall k :: k in marks ==> marks[k] <= |data|
    ensures Continues(s, trace + Pending(marks, data, |data|))
    ensures Join(trace + Pending(marks, data, |data|)) == JoinOnto(Join(trace), Pending(marks, data, |data|))
  {
    JoinSplit([], trace, Pending(marks, data, |data|));
    if DataKind(s).Of? {
      var k := DataKind(s).k;
      OnePending(marks, data, |data|, k);
      JoinOne(Join(trace), Data(k, data[marks[k]..|data|]));
    }
  }

  lemma EmptyRun(p: Parser, trace: seq<Event>)
    requires WF(p)
    ensures Run(p, []) == Result(Running(p), [])
    ensures JoinOnto(Join(trace), []) == Join(trace)
  {
  }

  lemma NoMarkInBulk(s: State, marks: map<Kind, nat>, data: Bytes, i: nat, trace: seq<Event>)
    requires BulkState(s) && i < |data| && MarksFit(s, marks, i, |data|)
    ensures marks == map[] && JoinOnto(Join(trace), Pending(marks, data, i)) == Join(trace)
  {
  }

  /** After a bulk read, the callbacks and the pending bytes together are those of the byte-by-byte parser. */
  lemma JoinNone(js: seq<Event>)
    ensures JoinOnto(js, []) == js
  {}

  lemma BulkJoins(
    p: Parser, n: nat, data: Bytes, i: nat, m: map<Kind, nat>, t: seq<Event>, t': seq<Event>)
    requires WF(p) && BulkState(p.state) && 0 < n <= p.contentLength && i + n <= |data|
    requires n < p.contentLength ==> i + n == |data|
    requires var whole := [Data(BodyData, data[i..i + n])];
             if n == p.contentLength && p.state.BodyIdentity? then m == map[] && t' == t + whole + [Note(MessageComplete)]
             else m == map[BodyData := i] && t' == t
    ensures MarksFit(AfterBulk(p, n).state, m, i + n, |data|)
    ensures Run(p, data[i..i + n]).outcome == Running(AfterBulk(p, n)) && WF(AfterBulk(p, n))
    ensures JoinOnto(Join(t'), Pending(m, data, i + n)) == JoinOnto(Join(t), Run(p, data[i..i + n]).events)
  {
    hide Run, StepByte, Push, JoinOnto;
    var bytes := data[i..i + n];
    JoinNone(Join(t'));
    JoinNone(Push(Join(t), Data(BodyData, bytes)));
    RunBulk(p, bytes, Join(t));
    JoinOne(Join(t), Data(BodyData, bytes));
    if n == p.contentLength && p.state.BodyIdentity? {
      assert t + [Data(BodyData, bytes)] + [Note(MessageComplete)] == t + [Data(BodyData, bytes), Note(MessageComplete)];
      JoinSplit([], t + [Data(BodyData, bytes)], [Note(MessageComplete)]);
      JoinSplit([], t, [Data(BodyData, bytes)]);
    } else {
      OnePending(m, data, i + n, BodyData);
    }
  }

  /** The run so far, and a run of the next bytes. */
  lemma RunGoesOn(start: Parser, joined: seq<Event>, p: Parser, data: Bytes, i: nat, next: nat)
    requires WF(start) && WF(p) && i <= next <= |data| && Run(start, data[..i]).outcome == Running(p)
    requires Run(p, data[i..next]).outcome.Running?
    ensures Run(start, data[..next]).outcome == Run(p, data[i..next]).outcome
    ensures JoinOnto(joined, Run(start, data[..next]).events) ==
            JoinOnto(JoinOnto(joined, Run(start, data[..i]).events), Run(p, data[i..next]).events)
  {
    hide Run, WF, JoinOnto;
    assert data[..next] == data[..i] + data[i..next];
    RunAppend(start, data[..i], data[i..next]);
    JoinSplit(joined, Run(start, data[..i]).events, Run(p, data[i..next]).events);
  }

  /** The run so far, and one more byte. */
  lemma RunOneMore(start: Parser, joined: seq<Event>, p: Parser, data: Bytes, i: nat)
    requires WF(start) && WF(p) && i < |data| && Run(start, data[..i]).outcome == Running(p)
    ensures match StepByte(p, data[i])
            case StepFail(e) => Run(start, data).outcome == Failed(e, i)
            case StepOk(next, events, exit) =>
              && JoinOnto(joined, Run(start, data[..i + 1]).events) ==
                 JoinOnto(JoinOnto(joined, Run(start, data[..i]).events), events)
              && if exit then Run(start, data[..i + 1]) == Run(start, data) && Run(start, data).outcome == Exited(next, i + 1)
                 else Run(start, data[..i + 1]).outcome == Running(next)
  {
    hide StepByte, WF, JoinOnto;
    var front := data[..i + 1];
    assert front[..i] == data[..i] && front + data[i + 1..] == data;
    if StepByte(p, data[i]).StepOk? {
      JoinSplit(joined, Run(start, data[..i]).events, StepByte(p, data[i]).events);
    }
    if !Run(start, front).outcome.Running? {
      RunStops(start, front, data[i + 1..]);
    }
  }

  lemma EmptyFeed(p: Parser, trace: seq<Event>, parts: seq<Bytes>)
    requires WF(p)
    ensures FeedRuns(p, parts[..0]) == Result(Running(p), []) && JoinOnto(Join(trace), []) == Join(trace)
  {}

  /** One more read, after reads that were all taken. */
  lemma OneMoreFeed(start: Parser, parts: seq<Bytes>, i: nat)
    requires WF(start) && i < |parts| && FeedRuns(start, parts[..i]).outcome.Running?
    ensures var r := FeedRuns(start, parts[..i]); var s := Run(r.outcome.p, parts[i]);
            FeedRuns(start, parts[..i + 1]) == Result(Fed(s.outcome, |parts[i]|), r.events + s.events)
  {
    hide Run;
    assert parts[..i + 1][..i] == parts[..i];
  }

  lemma {:induction false} FeedStops(start: Parser, parts: seq<Bytes>, i: nat)
    requires WF(start) && i <= |parts| && !FeedRuns(start, parts[..i]).outcome.Running?
    ensures !FeedRuns(start, parts).outcome.Running?
    decreases |parts|
  {
    hide Run;
    if i < |parts| {
      assert parts[..|parts| - 1][..i] == parts[..i];
      FeedStops(start, parts[..|parts| - 1], i);
    } else {
      assert parts[..i] == parts;
    }
  }

  lemma FedView(before: seq<Event>, after: seq<Event>, events: seq<Event>)
    requires Join(after) == JoinOnto(Join(before), events)
    ensures DeliverAll(NO_FIELDS, after) == DeliverAll(DeliverAll(NO_FIELDS, before), events)
  {
    hide Deliver, JoinOnto;
    assert DeliverAll(NO_FIELDS, []) == NO_FIELDS;
    hide DeliverAll;
    DeliverJoined(NO_FIELDS, [], after);
    DeliverJoined(NO_FIELDS, [], before);
    DeliverJoined(NO_FIELDS, Join(before), events);
  }

  datatype Errnum = OK | HPE(e: Errno)

  class HTTPParser {
    // http_parser
    var core: Parser
    var errno: Errnum
    // crow's HTTPParser
    var rawUrl: Bytes
    var building: bool
    var field: Bytes
    var value: Bytes
    var headers: seq<(Bytes, Bytes)>
    var body: Bytes
    var handled: seq<Message>

    ghost var trace: seq<Event>   // every callback so far

    function View(): Fields
      reads this
    {
      Fields(rawUrl, building, field, value, headers, body, handled)
    }

    ghost predicate Valid()
      reads this
    {
      WF(core) && Continues(core.state, trace) && View() == DeliverAll(NO_FIELDS, trace)
    }

    constructor ()
      ensures Valid() && core == INITIAL && errno == OK && trace == []
    {
      core, errno := INITIAL, OK;
      rawUrl, building, field, value, headers, body, handled := [], false, [], [], [], [], [];
      trace := [];
    }

    // ---- Callbacks ----

    method OnData(k: Kind, at: Bytes)
      modifies this`rawUrl, this`building, this`field, this`value, this`headers, this`body, this`trace
      ensures trace == old(trace) + [Data(k, at)]
      ensures View() == Deliver(old(View()), Data(k, at))
    {
      trace := trace + [Data(k, at)];
      match k {
        case UrlData => rawUrl := rawUrl + at;
        case FieldData =>
          if !building {
            if value != [] {
              headers := headers + [(field, value)];
              value := [];
            }
            field := at;
            building := true;
          } else {
            field := field + at;
          }
        case ValueData =>
          if !building {
            value := value + at;
          } else {
            building := false;
            value := at;
          }
        case BodyData => body := body + at;
      }
    }

    method OnNotice(n: Notice)
      modifies this`rawUrl, this`building, this`field, this`value, this`headers, this`body, this`handled, this`trace
      ensures trace == old(trace) + [Note(n)]
      ensures View() == Deliver(old(View()), Note(n))
    {
      trace := trace + [Note(n)];
      match n {
        case MessageBegin =>
          rawUrl, building, field, value, headers, body := [], false, [], [], [], [];
        case HeadersComplete =>
          if field != [] {
            headers := headers + [(field, value)];
            field, value := [], [];
          }
        case MessageComplete =>
          handled := handled + [Message(rawUrl, headers, body)];
      }
    }

    // ---- http_parser_execute ----

    /** The source's CALLBACK_DATA for kind k: reports the bytes from its mark up to `end`, and clears the mark. */
    method CallbackData(k: Kind, marks: map<Kind, nat>, data: Bytes, end: nat) returns (rest: map<Kind, nat>)
      requires k in marks ==> marks[k] <= end <= |data|
      modifies this`rawUrl, this`building, this`field, this`value, this`headers, this`body, this`trace
      ensures rest == marks - {k}
      ensures trace == old(trace) + (if k in marks then [Data(k, data[marks[k]..end])] else [])
      ensures old(View()) == DeliverAll(NO_FIELDS, old(trace)) ==> View() == DeliverAll(NO_FIELDS, trace)
    {
      hide Deliver;
      rest := marks - {k};
      if k in marks {
        OnData(k, data[marks[k]..end]);
        assert trace[..|trace| - 1] == old(trace);
      } else {
        assert trace == old(trace) + [];
      }
    }

    method Notify(notices: seq<Notice>)
      modifies this`rawUrl, this`building, this`field, this`value, this`headers, this`body, this`handled, this`trace
      ensures trace == old(trace) + Notes(notices)
      ensures old(View()) == DeliverAll(NO_FIELDS, old(trace)) ==> View() == DeliverAll(NO_FIELDS, trace)
    {
      hide Deliver;
      for i := 0 to |notices|
        invariant trace == old(trace) + Notes(notices)[..i]
        invariant old(View()) == DeliverAll(NO_FIELDS, old(trace)) ==> View() == DeliverAll(NO_FIELDS, trace)
      {
        ghost var before := trace;
        OnNotice(notices[i]);
        assert trace[..|trace| - 1] == before;
      }
    }

    /** Runs the callbacks of one byte, in the source's order, and sets its mark. */
    method Act(ctl: Ctl, data: Bytes, i: nat, marks0: map<Kind, nat>) returns (marks: map<Kind, nat>)
      requires ctl.Go? && i < |data| && View() == DeliverAll(NO_FIELDS, trace)
      requires forall k :: k in marks0 ==> marks0[k] <= i
      modifies this`rawUrl, this`building, this`field, this`value, this`headers, this`body, this`handled, this`trace
      ensures View() == DeliverAll(NO_FIELDS, trace)
      ensures Did(ctl, data, i, marks0, marks, old(trace), trace)
    {
      hide Deliver, DeliverAll;
      marks := marks0;
      if ctl.flush.Of? {
        marks := CallbackData(ctl.flush.k, marks, data, i);
      }
      if ctl.emptyValue {
        marks := marks[ValueData := i];
        assert data[i..i] == [];
        marks := CallbackData(ValueData, marks, data, i);
      }
      Notify(ctl.notes);
      if ctl.mark.Of? && ctl.mark.k !in marks {
        marks := marks[ctl.mark.k := i];
      }
    }

    /** One turn of the loop outside the bulk states. */
    method ControlByte(data: Bytes, i: nat, marks0: map<Kind, nat>) returns (stop: bool, marks: map<Kind, nat>)
      requires i < |data| && WF(core) && !BulkState(core.state) && errno == OK
      requires MarksFit(core.state, marks0, i, |data|) && View() == DeliverAll(NO_FIELDS, trace)
      requires forall k :: k in marks0 ==> marks0[k] <= i
      modifies this
      ensures View() == DeliverAll(NO_FIELDS, trace)
      ensures match StepByte(old(core), data[i])
              case StepFail(e) => stop && errno == HPE(e)
              case StepOk(next, events, exit) =>
                && stop == exit && errno == OK && core == next && MarksFit(next.state, marks, i + 1, |data|)
                && JoinOnto(Join(trace), Pending(marks, data, i + 1)) ==
                   JoinOnto(JoinOnto(Join(old(trace)), Pending(marks0, data, i)), events)
                && (exit ==> marks == map[])
    {
      hide Control, Deliver, DeliverAll, WF, Fits, Counted, MarksFit, Pending, ControlEvents, Did;
      marks := marks0;
      var ch := data[i];
      var (ok, q) := CountByte(core);
      if !ok {
        errno := HPE(HeaderOverflow);
        return true, marks;
      }
      CountKeeps(core);
      ControlFits(q, ch);
      var ctl := Control(q, ch);
      if ctl.Fail? {
        errno := HPE(ctl.errno);
        return true, marks;
      }
      core := ctl.next;
      marks := Act(ctl, data, i, marks0);
      ControlJoins(old(core.state), ctl, data, i, marks0, marks, old(trace), trace);
      stop := ctl.exit;
    }

    /** One turn of the loop in a bulk state: takes as many bytes as there are and as the body still owes. */
    method BulkBytes(data: Bytes, i: nat, marks0: map<Kind, nat>) returns (next: nat, marks: map<Kind, nat>)
      requires i < |data| && WF(core) && BulkState(core.state)
      requires MarksFit(core.state, marks0, i, |data|) && View() == DeliverAll(NO_FIELDS, trace)
      modifies this
      ensures View() == DeliverAll(NO_FIELDS, trace) && errno == old(errno)
      ensures i < next <= |data| && WF(core) && MarksFit(core.state, marks, next, |data|)
      ensures var r := Run(old(core), data[i..next]);
              && r.outcome == Running(core)
              && JoinOnto(Join(trace), Pending(marks, data, next)) ==
                 JoinOnto(JoinOnto(Join(old(trace)), Pending(marks0, data, i)), r.events)
    {
      hide Deliver, DeliverAll, Run, StepByte, WF, Pending, MarksFit, Push, JoinOnto, EndsIn;
      BulkOwes(core);
      NoMarkInBulk(core.state, marks0, data, i, trace);
      var toRead := if core.contentLength < |data| - i then core.contentLength else |data| - i;
      next := i + toRead;
      marks := marks0;
      if BodyData !in marks { marks := marks[BodyData := i]; }
      core := core.(contentLength := core.contentLength - toRead);
      if core.contentLength == 0 {
        if core.state.BodyIdentity? {
          marks := CallbackData(BodyData, marks, data, next);
          core := core.(state := NewMessage(core));
          Notify([MessageComplete]);
        } else {
          core := core.(state := ChunkDataAlmostDone);
        }
      }
      assert core == AfterBulk(old(core), toRead);
      BulkJoins(old(core), toRead, data, i, marks, old(trace), trace);
    }

    /** The callbacks for marks that are left when the read is used up. */
    method FlushRest(data: Bytes, marks0: map<Kind, nat>)
      requires (forall k :: k in marks0 ==> marks0[k] <= |data|) && |marks0| <= 1
      requires View() == DeliverAll(NO_FIELDS, trace)
      modifies this`rawUrl, this`building, this`field, this`value, this`headers, this`body, this`trace
      ensures View() == DeliverAll(NO_FIELDS, trace)
      ensures trace == old(trace) + Pending(marks0, data, |data|)
    {
      hide Deliver, DeliverAll, Pending;
      PendingPieces(marks0, data);
      ghost var start := trace;
      var marks := CallbackData(FieldData, marks0, data, |data|);
      assert trace == start + Piece(FieldData, marks0, data);
      ghost var first := trace;
      marks := CallbackData(ValueData, marks, data, |data|);
      assert trace == first + Piece(ValueData, marks0, data);
      ghost var second := trace;
      marks := CallbackData(UrlData, marks, data, |data|);
      assert trace == second + Piece(UrlData, marks0, data);
      ghost var third := trace;
      marks := CallbackData(BodyData, marks, data, |data|);
      assert trace == third + Piece(BodyData, marks0, data);
      hide Piece;
      FourPieces(start, Piece(FieldData, marks0, data), Piece(ValueData, marks0, data), Piece(UrlData, marks0, data),
                 Piece(BodyData, marks0, data));
    }

    lemma FourPieces(s: seq<Event>, a: seq<Event>, b: seq<Event>, c: seq<Event>, d: seq<Event>)
      ensures s + a + b + c + d == s + (a + b + c + d)
    {}

    /** http_parser_execute: reads `data`, and returns how many bytes it took. */
    method Execute(data: Bytes) returns (n: nat)
      requires Valid()
      modifies this
      ensures old(errno) != OK ==> n == 0 && core == old(core) && trace == old(trace) && errno == old(errno)
      ensures old(errno) == OK && data == [] ==>
        && core == old(core) && trace == old(trace)
        && if core.state.Dead? || core.state.StartReq? then n == 0 && errno == OK else n == 1 && errno == HPE(InvalidEofState)
      ensures old(errno) == OK && data != [] ==>
        match Run(old(core), data).outcome
        case Running(p) => n == |data| && errno == OK && core == p
        case Exited(p, used) => n == used && errno == OK && core == p
        case Failed(e, used) => n == used && errno == HPE(e)
      ensures old(errno) == OK && errno == OK ==>
        Valid() && Join(trace) == JoinOnto(Join(old(trace)), Run(old(core), data).events)
      ensures View() == DeliverAll(NO_FIELDS, trace)
    {
      hide Run, Deliver, DeliverAll, StepByte, Pending, AfterBulk, JoinOnto, Push, WF;
      if errno != OK { return 0; }
      if data == [] {
        EmptyRun(core, trace);
        if core.state.Dead? || core.state.StartReq? { return 0; }
        errno := HPE(InvalidEofState);
        return 1;
      }
      var marks: map<Kind, nat> := map[];
      if DataKind(core.state).Of? {
        marks := map[DataKind(core.state).k := 0];
      }
      ghost var start, joined := core, Join(trace);
      EmptyRun(core, trace);
      FirstPending(core.state, marks, data, trace);
      var i := 0;
      while i < |data|
        invariant i <= |data| && errno == OK && WF(core) && MarksFit(core.state, marks, i, |data|)
        invariant View() == DeliverAll(NO_FIELDS, trace)
        invariant Run(start, data[..i]).outcome == Running(core)
        invariant JoinOnto(Join(trace), Pending(marks, data, i)) == JoinOnto(joined, Run(start, data[..i]).events)
        decreases |data| - i
      {
        ghost var before := core;
        if BulkState(core.state) {
          var next;
          next, marks := BulkBytes(data, i, marks);
          RunGoesOn(start, joined, before, data, i, next);
          i := next;
        } else {
          var stop;
          stop, marks := ControlByte(data, i, marks);
          RunOneMore(start, joined, before, data, i);
          if stop {
            if errno == OK { NothingPending(trace, data, i + 1); }
            return i + (if errno == OK then 1 else 0);
          }
          i := i + 1;
        }
      }
      assert data[..i] == data;
      OneMarkAtMost(core.state, marks, |data|);
      LastPending(core.state, marks, data, trace);
      FlushRest(data, marks);
      return |data|;
    }

    /** HTTPParser::feed */
    method Feed(data: Bytes) returns (ok: bool)
      requires Valid() && errno == OK && data != []
      modifies this
      ensures match Run(old(core), data).outcome
        case Running(p) => ok && errno == OK && core == p
        case Exited(p, used) => ok == (used == |data|) && errno == OK && core == p
        case Failed(e, used) => !ok && errno == HPE(e)
      ensures errno == OK ==> Valid() && Join(trace) == JoinOnto(Join(old(trace)), Run(old(core), data).events)
      ensures View() == DeliverAll(NO_FIELDS, trace)
    {
      hide Run, Deliver, DeliverAll, StepByte, WF, JoinOnto;
      var n := Execute(data);
      ok := n == |data|;
    }

    /** The connection's reading loop: feeds read after read until one is refused. */
    method FeedReads(parts: seq<Bytes>) returns (ok: bool)
      requires Valid() && errno == OK
      requires forall i :: 0 <= i < |parts| ==> parts[i] != []
      modifies this
      ensures ok == FeedRuns(old(core), parts).outcome.Running?
      ensures var r := FeedRuns(old(core), parts);
        ok ==> && Valid() && errno == OK && r.outcome == Running(core)
               && Join(trace) == JoinOnto(Join(old(trace)), r.events) && View() == DeliverAll(old(View()), r.events)
      ensures Run(old(core), Concat(parts)).outcome.Running? ==> ok && FeedRuns(old(core), parts) == Run(old(core), Concat(parts))
    {
      hide Run, FeedRuns, Deliver, DeliverAll, StepByte, WF, JoinOnto;
      ghost var start, before := core, trace;
      ok := true;
      EmptyFeed(core, trace, parts);
      if Run(start, Concat(parts)).outcome.Running? { FedAsOne(start, parts); }
      for i := 0 to |parts|
        invariant ok && Valid() && errno == OK
        invariant FeedRuns(start, parts[..i]).outcome == Running(core)
        invariant Join(trace) == JoinOnto(Join(before), FeedRuns(start, parts[..i]).events)
      {
        ghost var p := core;
        OneMoreFeed(start, parts, i);
        ok := Feed(parts[i]);
        if !ok {
          FeedStops(start, parts, i + 1);
          return;
        }
        JoinSplit(Join(before), FeedRuns(start, parts[..i]).events, Run(p, parts[i]).events);
      }
      assert parts[..|parts|] == parts;
      FedView(before, trace, FeedRuns(start, parts).events);
    }
  }
}

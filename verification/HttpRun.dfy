/** The HTTP request parser read one byte at a time, and why the cutting of the input into reads does not matter. */
module HttpRun {
  import opened Bytes
  import opened HttpControl

  datatype Event = Data(k: Kind, bytes: seq<Byte>) | Note(notice: Notice)

  // ---- One byte ----

  datatype Step = StepFail(errno: Errno) | StepOk(next: Parser, events: seq<Event>, exit: bool)

  function Notes(notices: seq<Notice>): (r: seq<Event>)
    ensures |r| == |notices| && forall i :: 0 <= i < |r| ==> r[i] == Note(notices[i])
  {
    seq(|notices|, i requires 0 <= i < |notices| => Note(notices[i]))
  }

  /** The events of one byte outside the bulk states: each byte of a data state is an event of its own. */
  function ControlEvents(ctl: Ctl, ch: Byte): seq<Event>
    requires ctl.Go?
  {
    (if ctl.emptyValue then [Data(ValueData, [])] else []) + Notes(ctl.notes) + ByteOf(ctl.next.state, ch)
  }

  function ByteOf(s: State, ch: Byte): seq<Event> {
    match DataKind(s)
    case NoMark => []
    case Of(k) => [Data(k, [ch])]
  }

  function StepByte(p: Parser, ch: Byte): (r: Step)
    requires WF(p)
    ensures r.StepOk? ==> WF(r.next)
  {
    if BulkState(p.state) then
      var q := p.(contentLength := p.contentLength - 1);
      if q.contentLength > 0 then StepOk(q, [Data(BodyData, [ch])], false)
      else if p.state.ChunkData? then StepOk(q.(state := ChunkDataAlmostDone), [Data(BodyData, [ch])], false)
      else StepOk(q.(state := NewMessage(q)), [Data(BodyData, [ch]), Note(MessageComplete)], false)
    else
      var (ok, q) := CountByte(p);
      if !ok then StepFail(HeaderOverflow) else
      ControlFits(q, ch);
      match Control(q, ch)
      case Fail(e) => StepFail(e)
      case Go(next, _, _, _, _, exit) => StepOk(next, ControlEvents(Control(q, ch), ch), exit)
  }

  function StepOf(ctl: Ctl, ch: Byte): Step {
    match ctl
    case Fail(e) => StepFail(e)
    case Go(next, _, _, _, _, exit) => StepOk(next, ControlEvents(ctl, ch), exit)
  }

  /** A header byte that is not one too many is counted and read. */
  lemma HeaderByteIsRead(p: Parser, ch: Byte)
    requires WF(p) && ParsingHeader(p.state) && p.nread < MAX_HEADER_SIZE
    ensures Counted(p.(nread := p.nread + 1)) && StepByte(p, ch) == StepOf(Control(p.(nread := p.nread + 1), ch), ch)
  {
    hide *;
    Counts(p);
    CountKeeps(p);
    OutOfBulk(p, ch);
  }

  lemma Counts(p: Parser)
    requires ParsingHeader(p.state) && p.nread < MAX_HEADER_SIZE
    ensures !BulkState(p.state) && CountByte(p) == (true, p.(nread := p.nread + 1))
  {}

  lemma OutOfBulk(p: Parser, ch: Byte)
    requires WF(p) && !BulkState(p.state) && CountByte(p).0 && Counted(CountByte(p).1)
    ensures StepByte(p, ch) == StepOf(Control(CountByte(p).1, ch), ch)
  {
    hide WF, Counted, BulkState, CountByte, Control, ControlEvents, Fits;
  }

  // ---- A whole read ----

  datatype Outcome = Running(p: Parser) | Exited(p: Parser, used: nat) | Failed(errno: Errno, used: nat)

  datatype Result = Result(outcome: Outcome, events: seq<Event>)

  function Run(p: Parser, data: seq<Byte>): (r: Result)
    requires WF(p)
    ensures !r.outcome.Failed? ==> WF(r.outcome.p)
    ensures r.outcome.Exited? ==> 0 < r.outcome.used <= |data|
    ensures r.outcome.Failed? ==> r.outcome.used < |data|
  {
    if data == [] then Result(Running(p), []) else
    var n := |data| - 1;
    var r := Run(p, data[..n]);
    if !r.outcome.Running? then r else
    match StepByte(r.outcome.p, data[n])
    case StepFail(e) => Result(Failed(e, n), r.events)
    case StepOk(next, events, exit) => Result(if exit then Exited(next, n + 1) else Running(next), r.events + events)
  }

  lemma {:induction false} RunAppend(p: Parser, a: seq<Byte>, b: seq<Byte>)
    requires WF(p) && Run(p, a).outcome.Running?
    ensures var r, s := Run(p, a), Run(Run(p, a).outcome.p, b);
            && Run(p, a + b).events == r.events + s.events
            && Run(p, a + b).outcome ==
               match s.outcome
               case Running(q) => Running(q)
               case Exited(q, n) => Exited(q, |a| + n)
               case Failed(e, n) => Failed(e, |a| + n)
  {
    hide StepByte, WF;
    if b == [] {
      assert a + b == a;
    } else {
      assert (a + b)[..|a + b| - 1] == a + b[..|b| - 1];
      RunAppend(p, a, b[..|b| - 1]);
    }
  }

  lemma {:induction false} RunStops(p: Parser, a: seq<Byte>, b: seq<Byte>)
    requires WF(p) && !Run(p, a).outcome.Running?
    ensures Run(p, a + b) == Run(p, a)
  {
    hide StepByte, WF;
    if b == [] {
      assert a + b == a;
    } else {
      assert (a + b)[..|a + b| - 1] == a + b[..|b| - 1];
      RunStops(p, a, b[..|b| - 1]);
    }
  }

  // ---- Joining adjacent data events ----

  /** Appends an event; a data event after one of its own kind is joined to it. */
  function Push(js: seq<Event>, e: Event): seq<Event> {
    if js != [] && e.Data? && EndsIn(js, e.k)
    then js[..|js| - 1] + [Data(e.k, js[|js| - 1].bytes + e.bytes)]
    else js + [e]
  }

  predicate EndsIn(js: seq<Event>, k: Kind) {
    js != [] && js[|js| - 1].Data? && js[|js| - 1].k == k
  }

  function JoinOnto(js: seq<Event>, es: seq<Event>): seq<Event> {
    if es == [] then js else Push(JoinOnto(js, es[..|es| - 1]), es[|es| - 1])
  }

  /** The callback stream with adjacent data events of one kind joined. */
  function Join(es: seq<Event>): seq<Event> { JoinOnto([], es) }

  lemma {:induction false} JoinSplit(js: seq<Event>, a: seq<Event>, b: seq<Event>)
    ensures JoinOnto(js, a + b) == JoinOnto(JoinOnto(js, a), b)
  {
    if b == [] {
      assert a + b == a;
    } else {
      assert (a + b)[..|a + b| - 1] == a + b[..|b| - 1];
      JoinSplit(js, a, b[..|b| - 1]);
    }
  }

  lemma JoinOne(js: seq<Event>, e: Event)
    ensures JoinOnto(js, [e]) == Push(js, e)
  {
    assert [e][..0] == [];
  }

  lemma PushTwice(js: seq<Event>, k: Kind, x: seq<Byte>, y: seq<Byte>)
    ensures Push(Push(js, Data(k, x)), Data(k, y)) == Push(js, Data(k, x + y))
  {
    if EndsIn(js, k) {
      var b := js[|js| - 1].bytes;
      assert (b + x) + y == b + (x + y);
    }
  }

  lemma PushNothing(js: seq<Event>, k: Kind)
    requires EndsIn(js, k)
    ensures Push(js, Data(k, [])) == js
  {
    assert js[|js| - 1].bytes + [] == js[|js| - 1].bytes;
  }

  // ---- Many reads ----

  function Concat(parts: seq<seq<Byte>>): seq<Byte> {
    if parts == [] then [] else Concat(parts[..|parts| - 1]) + parts[|parts| - 1]
  }

  /** One read after the other, as long as the parser neither fails nor exits. */
  function RunReads(p: Parser, parts: seq<seq<Byte>>): (r: Result)
    requires WF(p)
    ensures !r.outcome.Failed? ==> WF(r.outcome.p)
  {
    if parts == [] then Result(Running(p), []) else
    var r := RunReads(p, parts[..|parts| - 1]);
    if !r.outcome.Running? then r else
    var s := Run(r.outcome.p, parts[|parts| - 1]);
    Result(s.outcome, r.events + s.events)
  }

  /**
   * However a byte stream is cut into reads: while the parser runs on, its state and its events are those of one
   * single read, and it stops on a cut stream exactly when it stops on the whole.
   */
  lemma {:induction false} CutsDoNotMatter(p: Parser, parts: seq<seq<Byte>>)
    requires WF(p)
    ensures RunReads(p, parts).outcome.Running? <==> Run(p, Concat(parts)).outcome.Running?
    ensures RunReads(p, parts).outcome.Running? ==> RunReads(p, parts) == Run(p, Concat(parts))
  {
    if parts != [] {
      var front, last := parts[..|parts| - 1], parts[|parts| - 1];
      CutsDoNotMatter(p, front);
      if RunReads(p, front).outcome.Running? {
        RunAppend(p, Concat(front), last);
      } else {
        RunStops(p, Concat(front), last);
      }
    }
  }

  /** What feeding a read of n bytes comes to: an exit at its very end counts as taken. */
  function Fed(outcome: Outcome, n: nat): (r: Outcome)
    ensures outcome.Running? ==> r == outcome
    ensures outcome.Failed? ==> r == outcome
  {
    match outcome case Exited(p, used) => if used == n then Running(p) else outcome case _ => outcome
  }

  /** Feeding one read after the other until one is refused. */
  function FeedRuns(p: Parser, parts: seq<seq<Byte>>): (r: Result)
    requires WF(p)
    ensures r.outcome.Running? ==> WF(r.outcome.p)
  {
    if parts == [] then Result(Running(p), []) else
    var r := FeedRuns(p, parts[..|parts| - 1]);
    if !r.outcome.Running? then r else
    var s := Run(r.outcome.p, parts[|parts| - 1]);
    Result(Fed(s.outcome, |parts[|parts| - 1]|), r.events + s.events)
  }

  /** While no read exits, feeding the reads is feeding them at once. */
  lemma {:induction false} FedAsOne(p: Parser, parts: seq<seq<Byte>>)
    requires WF(p) && Run(p, Concat(parts)).outcome.Running?
    ensures FeedRuns(p, parts) == Run(p, Concat(parts))
  {
    hide StepByte, WF;
    if parts != [] {
      hide Run;
      var front, last := parts[..|parts| - 1], parts[|parts| - 1];
      if !Run(p, Concat(front)).outcome.Running? { RunStops(p, Concat(front), last); }
      FedAsOne(p, front);
      RunAppend(p, Concat(front), last);
    }
  }

  // ---- Body bytes taken in bulk ----

  lemma BulkStep(p: Parser, n: nat, ch: Byte)
    requires WF(p) && BulkState(p.state) && n < p.contentLength
    ensures var q := if n == 0 then p else AfterBulk(p, n);
            && WF(q)
            && StepByte(q, ch) == StepOk(AfterBulk(p, n + 1), [Data(BodyData, [ch])] + EndOfBulk(p, n + 1), false)
  {
  }

  /** Up to content_length bytes of a body state: exactly these bytes are delivered, and the rest is still owed. */
  lemma {:induction false} RunBulk(p: Parser, bytes: seq<Byte>, js: seq<Event>)
    requires WF(p) && BulkState(p.state) && 0 < |bytes| <= p.contentLength
    ensures Run(p, bytes).outcome == Running(AfterBulk(p, |bytes|))
    ensures JoinOnto(js, Run(p, bytes).events) ==
            JoinOnto(Push(js, Data(BodyData, bytes)), EndOfBulk(p, |bytes|))
  {
    hide StepByte, WF, AfterBulk, Push;
    var n := |bytes| - 1;
    var head, last := bytes[..n], bytes[n];
    BulkStep(p, n, last);
    var one := Data(BodyData, [last]);
    var step := [one] + EndOfBulk(p, |bytes|);
    if n == 0 {
      assert head == [] && bytes == [last];
      assert Run(p, bytes).events == step;
      JoinSplit(js, [one], EndOfBulk(p, 1));
      JoinOne(js, one);
    } else {
      RunBulk(p, head, js);
      var r := Run(p, head);
      assert EndOfBulk(p, n) == [];
      assert JoinOnto(js, r.events) == Push(js, Data(BodyData, head));
      assert Run(p, bytes).events == r.events + step;
      JoinSplit(js, r.events, step);
      JoinSplit(Push(js, Data(BodyData, head)), [one], EndOfBulk(p, |bytes|));
      JoinOne(Push(js, Data(BodyData, head)), one);
      PushTwice(js, BodyData, head, [last]);
      assert head + [last] == bytes;
    }
  }

  /** The parser after n body bytes. */
  function AfterBulk(p: Parser, n: nat): Parser
    requires BulkState(p.state) && 0 < n <= p.contentLength
  {
    var q := p.(contentLength := p.contentLength - n);
    if q.contentLength > 0 then q
    else if p.state.ChunkData? then q.(state := ChunkDataAlmostDone)
    else q.(state := NewMessage(q))
  }

  /** What follows the n-th body byte: the end of the message, if it was the last one of an identity body. */
  function EndOfBulk(p: Parser, n: nat): seq<Event>
    requires BulkState(p.state) && n <= p.contentLength
  {
    if n == p.contentLength && p.state.BodyIdentity? then [Note(MessageComplete)] else []
  }
}

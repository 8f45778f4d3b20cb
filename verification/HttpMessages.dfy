/** Whole requests, one after the other on a connection: from their bytes to the messages the handler is given. */
module HttpMessages {
  import opened Bytes
  import opened HttpControl
  import opened HttpRun
  import opened HttpFraming
  import opened HttpHeaders
  import opened HttpRequest
  import opened HttpParser

  // ---- Requests ----

  /** What follows the blank line. */
  datatype Payload = Unsized | Sized(body: seq<Byte>) | InChunks(chunks: seq<Chunk>, last: Chunk, trailers: seq<Header>)

  datatype Request = Request(verb: Method, url: seq<Byte>, minor: Byte, headers: seq<Header>, payload: Payload)

  function Head(r: Request): seq<Byte> { RequestLine(r.verb, r.url, r.minor) + Lines(r.headers) }

  function PayloadBytes(payload: Payload): seq<Byte> {
    match payload
    case Unsized => []
    case Sized(body) => body
    case InChunks(chunks, last, trailers) => Encode(chunks) + SizeLine(last) + Lines(trailers) + CRLF
  }

  function RequestBytes(r: Request): seq<Byte> { Head(r) + (CRLF + PayloadBytes(r.payload)) }

  /** The flags that the headers set. */
  function FlagsOf(r: Request): Flags { FlagsAfter(NO_FLAGS, r.headers) }

  /** The payload is the one that the headers announce. */
  predicate PayloadOk(r: Request) {
    match r.payload
    case Unsized => !FlagsOf(r).chunked && LengthAfter(ULLONG_MAX, r.headers) == ULLONG_MAX
    case Sized(body) => !FlagsOf(r).chunked && LengthAfter(ULLONG_MAX, r.headers) == |body| < ULLONG_MAX
    case InChunks(chunks, last, trailers) =>
      FlagsOf(r).chunked && ChunksOk(chunks, last) && HeadersOk(trailers) && |Lines(trailers)| + 2 <= MAX_HEADER_SIZE
  }

  predicate ChunksOk(chunks: seq<Chunk>, last: Chunk) {
    (forall i :: 0 <= i < |chunks| ==> LineOk(chunks[i]) && chunks[i].data != []) && LineOk(last) && last.data == []
  }

  /**
   * A request of any method but CONNECT, with any headers but an Upgrade header with a value, after which the connection
   * leaves HTTP.
   */
  predicate RequestOk(r: Request) {
    r.verb != CONNECT && UrlText(r.url) && IsMinor(r.minor) && HeadersOk(r.headers) && PayloadOk(r)
  }

  /** The flags at the end of the message: trailer fields count as well. */
  function LastFlags(r: Request): Flags {
    if r.payload.InChunks? then FlagsAfter(FlagsOf(r).(trailing := true), r.payload.trailers) else FlagsOf(r)
  }

  /** Whether another request may follow: in HTTP/1.1 unless closed, in HTTP/1.0 when kept alive. */
  predicate KeepsAlive(r: Request) {
    if r.minor == '0' then LastFlags(r).keepAlive else !LastFlags(r).close
  }

  /** The header bytes that the next request starts with: those of the trailer are still counted. */
  function CountAfter(r: Request): nat { if r.payload.InChunks? then |Lines(r.payload.trailers)| + 2 else 0 }

  // ---- Payloads ----

  function BodyOf(payload: Payload): seq<Byte> {
    match payload case Unsized => [] case Sized(body) => body case InChunks(chunks, _, _) => Body(chunks)
  }

  function BodyEvents(body: seq<Byte>): seq<Event> { if body == [] then [] else [Data(BodyData, body)] }

  function TrailersOf(payload: Payload): seq<Header> { if payload.InChunks? then payload.trailers else [] }

  function PayloadEvents(payload: Payload): seq<Event> {
    [Note(HeadersComplete)] + BodyEvents(BodyOf(payload)) + HeaderEvents(TrailersOf(payload)) + [Note(MessageComplete)]
  }

  lemma NoTrailers(payload: Payload)
    requires !payload.InChunks?
    ensures PayloadEvents(payload) == [Note(HeadersComplete)] + BodyEvents(BodyOf(payload)) + [Note(MessageComplete)]
  {}

  lemma JoinMessage(js: seq<Event>, body: seq<Byte>)
    ensures JoinOnto(js, [Note(HeadersComplete)] + BodyEvents(body) + [Note(MessageComplete)])
            == js + [Note(HeadersComplete)] + BodyEvents(body) + [Note(MessageComplete)]
  {
    var first := js + [Note(HeadersComplete)];
    JoinOne(js, Note(HeadersComplete));
    JoinSplit(js, [Note(HeadersComplete)], BodyEvents(body));
    JoinSplit(js, [Note(HeadersComplete)] + BodyEvents(body), [Note(MessageComplete)]);
    if body == [] {
      assert JoinOnto(first, []) == first && first + [] == first;
      JoinOne(first, Note(MessageComplete));
    } else {
      JoinOne(first, Data(BodyData, body));
      JoinOne(first + [Data(BodyData, body)], Note(MessageComplete));
    }
  }

  /** The blank line and a body of the announced length. */
  lemma SizedIsRead(p: Parser, body: seq<Byte>) returns (q: Parser)
    requires AtBlankLine(p) && !p.flags.chunked && p.contentLength == |body| < ULLONG_MAX
    ensures Yields(p, CRLF + body, q, PayloadEvents(Sized(body)))
    ensures q == Completed(p.(nread := 0, upgrade := false, contentLength := 0))
  {
    hide Run, JoinOnto;
    q := Completed(p.(nread := 0, upgrade := false, contentLength := 0));
    NoTrailers(Sized(body));
    forall js ensures JoinOnto(js, Run(p, CRLF + body).events) == JoinOnto(js, PayloadEvents(Sized(body))) {
      IdentityMessage(p, body, js);
      JoinMessage(js, body);
    }
    IdentityMessage(p, body, []);
  }

  /** The blank line of a request without any length. */
  lemma UnsizedIsRead(p: Parser) returns (q: Parser)
    requires AtBlankLine(p) && !p.flags.chunked && p.contentLength == ULLONG_MAX
    ensures Yields(p, CRLF + [], q, PayloadEvents(Unsized))
    ensures q == Completed(p.(nread := 0, upgrade := false))
  {
    q := Completed(p.(nread := 0, upgrade := false));
    MessageWithoutLength(p);
    NoTrailers(Unsized);
    YieldsExactly(p, CRLF, q, [Note(HeadersComplete), Note(MessageComplete)]);
    assert CRLF + [] == CRLF;
    assert PayloadEvents(Unsized) == [Note(HeadersComplete), Note(MessageComplete)];
  }

  /** The chunks and the last size line: the body is what the chunks hold. */
  lemma ChunksThenLast(p: Parser, chunks: seq<Chunk>, last: Chunk) returns (q: Parser)
    requires AtBlankLine(p) && p.flags.chunked && ChunksOk(chunks, last)
    ensures Yields(p, CRLF + Encode(chunks) + SizeLine(last), q, [Note(HeadersComplete)] + BodyEvents(Body(chunks)))
    ensures q == p.(state := HeaderFieldStart, nread := 0, upgrade := false, contentLength := 0, flags := p.flags.(trailing := true))
    ensures WF(q)
  {
    hide StepByte, Run, LineOk, SizeLine, Encode, Body, JoinOnto, Push;
    BlankLineCR(p);
    BlankLineLF(p.(state := HeadersAlmostDone, nread := p.nread + 1));
    TwoBytes(p, [Note(HeadersComplete)]);
    var r := p.(nread := 0, upgrade := false, state := ChunkSizeStart);
    YieldsExactly(p, CRLF, r, [Note(HeadersComplete)]);
    YieldsWF(p, CRLF, r, [Note(HeadersComplete)]);
    var s := ChunksYield(r, chunks);
    YieldsAppend(p, CRLF, r, [Note(HeadersComplete)], Encode(chunks), s, BodyEvents(Body(chunks)));
    YieldsWF(r, Encode(chunks), s, BodyEvents(Body(chunks)));
    SizeLineIsRead(s, last);
    q := EndOfSizeLine(s.(contentLength := 0));
    YieldsExactly(s, SizeLine(last), q, []);
    YieldsWF(s, SizeLine(last), q, []);
    var es := [Note(HeadersComplete)] + BodyEvents(Body(chunks));
    YieldsAppend(p, CRLF + Encode(chunks), s, es, SizeLine(last), q, []);
    assert es + [] == es;
  }

  lemma ChunksYield(p: Parser, chunks: seq<Chunk>) returns (q: Parser)
    requires WF(p) && p.state.ChunkSizeStart? && forall i :: 0 <= i < |chunks| ==> LineOk(chunks[i]) && chunks[i].data != []
    ensures Yields(p, Encode(chunks), q, BodyEvents(Body(chunks)))
    ensures q == p.(contentLength := q.contentLength) && q.state.ChunkSizeStart?
  {
    hide Run, LineOk, JoinOnto, Push, Encode;
    assert p.nread == 0;
    ChunksAreRead(p, chunks);
    q := if chunks == [] then p else AfterChunk(p);
    if chunks != [] {
      BodyNotEmpty(chunks);
      forall js ensures JoinOnto(js, Run(p, Encode(chunks)).events) == JoinOnto(js, BodyEvents(Body(chunks))) {
        JoinOne(js, Data(BodyData, Body(chunks)));
      }
    } else {
      forall js ensures JoinOnto(js, Run(p, Encode(chunks)).events) == JoinOnto(js, BodyEvents(Body(chunks))) {
        NothingToJoin(js);
      }
    }
  }

  lemma BodyNotEmpty(chunks: seq<Chunk>)
    requires chunks != [] && chunks[|chunks| - 1].data != []
    ensures Body(chunks) != []
  {}

  /** The blank line after the trailer. */
  lemma TrailerEnd(p: Parser) returns (q: Parser)
    requires LineStart(p) && Settled(p).flags.trailing && p.nread + 2 <= MAX_HEADER_SIZE
    ensures Yields(p, CRLF, q, Owed(p) + [Note(MessageComplete)])
    ensures q == Completed(Settled(p).(nread := p.nread + 2))
  {
    hide StepByte, Run, JoinOnto, Settled, Owed, WF;
    SettledFits(p);
    var s := Settled(p);
    BlankLineCR(s);
    TrailerLF(s.(state := HeadersAlmostDone, nread := s.nread + 1));
    TwoBytes(s, [Note(MessageComplete)]);
    q := Completed(s.(nread := s.nread + 2));
    YieldsExactly(s, CRLF, q, [Note(MessageComplete)]);
    assert [CR] + [LF] == CRLF;
    SettledYields(p, CR, [LF], q, [Note(MessageComplete)]);
  }

  /**
   * A chunked message, from its blank line: for every list of non-empty chunks the body is their concatenation, the trailer
   * fields are reported after it, and then the message is complete, once (section 4.1 of RFC 7230).
   */
  lemma ChunkedMessage(p: Parser, chunks: seq<Chunk>, last: Chunk, trailers: seq<Header>) returns (q: Parser)
    requires AtBlankLine(p) && p.flags.chunked && ChunksOk(chunks, last)
    requires HeadersOk(trailers) && |Lines(trailers)| + 2 <= MAX_HEADER_SIZE
    ensures Yields(p, CRLF + PayloadBytes(InChunks(chunks, last, trailers)), q, PayloadEvents(InChunks(chunks, last, trailers)))
    ensures q.state == NewMessage(q) && q.nread == |Lines(trailers)| + 2
    ensures q.httpMajor == p.httpMajor && q.httpMinor == p.httpMinor
    ensures q.flags == FlagsAfter(p.flags.(trailing := true), trailers)
  {
    hide *;
    var r := ChunksThenLast(p, chunks, last);
    q := TrailerIsRead(r, trailers);
    var es := [Note(HeadersComplete)] + BodyEvents(Body(chunks));
    var front := CRLF + Encode(chunks) + SizeLine(last);
    YieldsAppend(p, front, r, es, Lines(trailers) + CRLF, q, HeaderEvents(trailers) + [Note(MessageComplete)]);
    ChunkedParts(chunks, last, trailers);
  }

  lemma ChunkedParts(chunks: seq<Chunk>, last: Chunk, trailers: seq<Header>)
    ensures var payload := InChunks(chunks, last, trailers);
            && CRLF + PayloadBytes(payload) == (CRLF + Encode(chunks) + SizeLine(last)) + (Lines(trailers) + CRLF)
            && PayloadEvents(payload)
               == ([Note(HeadersComplete)] + BodyEvents(Body(chunks))) + (HeaderEvents(trailers) + [Note(MessageComplete)])
  {
    hide Encode, SizeLine, Lines, Body, HeaderEvents, BodyEvents;
  }

  /** The trailer fields and the blank line after them. */
  lemma TrailerIsRead(p: Parser, trailers: seq<Header>) returns (q: Parser)
    requires WF(p) && p.state.HeaderFieldStart? && p.flags.trailing && p.nread == 0
    requires HeadersOk(trailers) && |Lines(trailers)| + 2 <= MAX_HEADER_SIZE
    ensures Yields(p, Lines(trailers) + CRLF, q, HeaderEvents(trailers) + [Note(MessageComplete)])
    ensures q.state == NewMessage(q) && q.nread == |Lines(trailers)| + 2
    ensures q.httpMajor == p.httpMajor && q.httpMinor == p.httpMinor && q.flags == FlagsAfter(p.flags, trailers)
  {
    hide Run, JoinOnto, WF, HeadersOk, Lines, HeaderEvents, EarlyEvents, FlagsAfter, LengthAfter, Settled, Owed, LineStart, Yields;
    var s := HeadersAreRead(p, trailers);
    TrailingStays(p.flags, trailers);
    SettledFits(s);
    q := TrailerEnd(s);
    YieldsAppend(p, Lines(trailers), s, EarlyEvents(trailers), CRLF, q, Owed(s) + [Note(MessageComplete)]);
    assert EarlyEvents(trailers) + (Owed(s) + [Note(MessageComplete)]) == (EarlyEvents(trailers) + Owed(s)) + [Note(MessageComplete)];
  }

  lemma {:induction false} TrailingStays(flags: Flags, hs: seq<Header>)
    ensures FlagsAfter(flags, hs).trailing == flags.trailing && FlagsAfter(flags, hs).upgrade == flags.upgrade
    ensures FlagsAfter(flags, hs).skipBody == flags.skipBody
  {
    hide StateAfter;
    if hs != [] { TrailingStays(flags, hs[..|hs| - 1]); }
  }

  // ---- A whole request ----

  function HeadEvents(r: Request): seq<Event> { [Note(MessageBegin), Data(UrlData, r.url)] + HeaderEvents(r.headers) }

  function RequestEvents(r: Request): seq<Event> { HeadEvents(r) + PayloadEvents(r.payload) }

  /** What is reported before the blank line. */
  function EarlyHead(r: Request): seq<Event> { [Note(MessageBegin), Data(UrlData, r.url)] + EarlyEvents(r.headers) }

  lemma HeadIsRead(p: Parser, r: Request) returns (q: Parser)
    requires Idle(p) && RequestOk(r) && p.nread + |Head(r)| <= MAX_HEADER_SIZE
    ensures LineStart(q) && Yields(p, Head(r), q, EarlyHead(r)) && EarlyHead(r) + Owed(q) == HeadEvents(r)
    ensures var s := Settled(q);
            && s.flags == FlagsOf(r) && s.contentLength == LengthAfter(ULLONG_MAX, r.headers) && s.nread == p.nread + |Head(r)|
            && s.verb == r.verb && s.httpMajor == 1 && s.httpMinor == Digit(r.minor) && s.state.HeaderFieldStart?
            && !s.flags.trailing && !s.flags.upgrade && !s.flags.skipBody
  {
    hide Run, JoinOnto, WF, UrlText, HeadersOk, PayloadOk, RequestLine, Lines, HeaderEvents, EarlyEvents, FlagsAfter, LengthAfter, Settled,
      Owed, LineStart;
    RequestLineIsRead(p, r.verb, r.url, r.minor);
    var line := RequestLine(r.verb, r.url, r.minor);
    var s := AfterRequestLine(p, r.verb, r.url, r.minor);
    q := HeadersAreRead(s, r.headers);
    TrailingStays(NO_FLAGS, r.headers);
    var es := [Note(MessageBegin), Data(UrlData, r.url)];
    YieldsAppend(p, line, s, es, Lines(r.headers), q, EarlyEvents(r.headers));
    assert (es + EarlyEvents(r.headers)) + Owed(q) == es + (EarlyEvents(r.headers) + Owed(q));
  }

  /** The payload, from the blank line on. */
  lemma PayloadIsRead(s: Parser, r: Request) returns (q: Parser)
    requires RequestOk(r) && AtBlankLine(s)
    requires s.flags == FlagsOf(r) && s.contentLength == LengthAfter(ULLONG_MAX, r.headers)
    requires s.httpMajor == 1 && s.httpMinor == Digit(r.minor)
    ensures Yields(s, CRLF + PayloadBytes(r.payload), q, PayloadEvents(r.payload))
    ensures q.state == (if KeepsAlive(r) then StartReq else Dead) && q.nread == CountAfter(r)
  {
    hide Run, JoinOnto, WF, UrlText, HeadersOk, Lines, HeaderEvents, FlagsAfter, LengthAfter, ChunksOk, Encode, SizeLine, Body;
    match r.payload {
      case Unsized => q := UnsizedIsRead(s);
      case Sized(body) => q := SizedIsRead(s, body);
      case InChunks(chunks, last, trailers) =>
        q := ChunkedMessage(s, chunks, last, trailers);
    }
  }

  /** Reading a request reports its parts in order, and leaves the connection open exactly when it is to be kept alive. */
  lemma RequestIsParsed(p: Parser, r: Request) returns (q: Parser)
    requires Idle(p) && RequestOk(r) && p.nread + |Head(r)| + 2 <= MAX_HEADER_SIZE
    ensures Yields(p, RequestBytes(r), q, RequestEvents(r))
    ensures q.state == (if KeepsAlive(r) then StartReq else Dead) && q.nread == CountAfter(r)
  {
    hide Run, JoinOnto, WF, RequestOk, Head, PayloadBytes, HeadEvents, EarlyHead, PayloadEvents, FlagsOf, LengthAfter, KeepsAlive,
      CountAfter, LineStart, Settled, Owed, StepByte;
    assert r.verb != CONNECT by { NotConnect(r); }
    var t := HeadIsRead(p, r);
    SettledFits(t);
    var s := Settled(t);
    q := PayloadIsRead(s, r);
    BlankLineCR(s);
    var rest := CRLF + PayloadBytes(r.payload);
    assert rest == [CR] + rest[1..];
    SettledYields(t, CR, rest[1..], q, PayloadEvents(r.payload));
    YieldsAppend(p, Head(r), t, EarlyHead(r), rest, q, Owed(t) + PayloadEvents(r.payload));
    assert EarlyHead(r) + (Owed(t) + PayloadEvents(r.payload)) == (EarlyHead(r) + Owed(t)) + PayloadEvents(r.payload);
  }

  lemma NotConnect(r: Request)
    requires RequestOk(r)
    ensures r.verb != CONNECT
  {}

  // ---- What the handler is given ----

  /** A field is added by the next one, if its value is not empty. */
  function Filled(hs: seq<Header>): seq<(Bytes, Bytes)> {
    if hs == [] then []
    else
      var h := hs[|hs| - 1];
      Filled(hs[..|hs| - 1]) + (if h.value == [] then [] else [(h.name, h.value)])
  }

  /** The last header is added at the end of headers, with a value or without. */
  function KeptHeaders(hs: seq<Header>): seq<(Bytes, Bytes)> {
    if hs == [] then [] else Filled(hs[..|hs| - 1]) + [(hs[|hs| - 1].name, hs[|hs| - 1].value)]
  }

  /** The last trailer field is not added: it would be by the next field or at the end of headers, and neither comes. */
  function KeptTrailers(hs: seq<Header>): seq<(Bytes, Bytes)> { if hs == [] then [] else Filled(hs[..|hs| - 1]) }

  function MessageOf(r: Request): Message {
    Message(r.url, KeptHeaders(r.headers) + KeptTrailers(TrailersOf(r.payload)), BodyOf(r.payload))
  }

  lemma DeliverMore(f: Fields, es: seq<Event>, e: Event)
    ensures DeliverAll(f, es + [e]) == Deliver(DeliverAll(f, es), e)
  {
    assert (es + [e])[..|es + [e]| - 1] == es;
  }

  lemma {:induction false} DeliverAppend(f: Fields, a: seq<Event>, b: seq<Event>)
    ensures DeliverAll(f, a + b) == DeliverAll(DeliverAll(f, a), b)
  {
    hide Deliver;
    if b == [] {
      assert a + b == a;
    } else {
      var init := b[..|b| - 1];
      DeliverAppend(f, a, init);
      assert a + b == (a + init) + [b[|b| - 1]] && b == init + [b[|b| - 1]];
      DeliverMore(f, a + init, b[|b| - 1]);
      DeliverMore(DeliverAll(f, a), init, b[|b| - 1]);
    }
  }

  lemma DeliverOne(f: Fields, e: Event)
    ensures DeliverAll(f, [e]) == Deliver(f, e)
  {
    DeliverMore(f, [], e);
    assert [] + [e] == [e];
  }

  lemma DeliverTwo(f: Fields, d: Event, e: Event)
    ensures DeliverAll(f, [d, e]) == Deliver(Deliver(f, d), e)
  {
    hide Deliver;
    DeliverOne(f, d);
    DeliverMore(f, [d], e);
    assert [d] + [e] == [d, e];
  }

  /** Nothing is held back for the next header. */
  predicate NoHeader(f: Fields) { !f.building && f.field == [] && f.value == [] }

  /** The fields after headers: the last one waits for the next, or for the end of headers. */
  function WithHeaders(f: Fields, hs: seq<Header>): Fields {
    if hs == [] then f
    else
      var h := hs[|hs| - 1];
      f.(headers := f.headers + Filled(hs[..|hs| - 1]), field := h.name, value := h.value)
  }

  lemma {:induction false} HeadersAreDelivered(f: Fields, hs: seq<Header>)
    requires NoHeader(f)
    ensures DeliverAll(f, HeaderEvents(hs)) == WithHeaders(f, hs)
  {
    hide Deliver, DeliverAll, WithHeaders, HeaderEvents;
    if hs == [] {
      NothingDelivered(f);
    } else {
      var init, h := hs[..|hs| - 1], hs[|hs| - 1];
      HeadersAreDelivered(f, init);
      EventsOfLast(hs);
      DeliverAppend(f, HeaderEvents(init), Pair(h));
      DeliverTwo(WithHeaders(f, init), Data(FieldData, h.name), Data(ValueData, h.value));
      NextHeader(f, init, h);
      assert hs == init + [h];
    }
  }

  lemma NothingDelivered(f: Fields)
    ensures DeliverAll(f, HeaderEvents([])) == f == WithHeaders(f, [])
  {}

  lemma NextHeader(f: Fields, init: seq<Header>, h: Header)
    requires NoHeader(f)
    ensures Deliver(Deliver(WithHeaders(f, init), Data(FieldData, h.name)), Data(ValueData, h.value)) == WithHeaders(f, init + [h])
  {
    assert (init + [h])[..|init|] == init;
    if init != [] {
      var last := init[|init| - 1];
      var before := Filled(init[..|init| - 1]);
      assert before + [] == before;
      assert f.headers + (before + [(last.name, last.value)]) == (f.headers + before) + [(last.name, last.value)];
    } else {
      assert f.headers + Filled([]) == f.headers;
    }
  }

  lemma {:induction false} HeadersEnd(f: Fields, hs: seq<Header>)
    requires NoHeader(f) && forall i :: 0 <= i < |hs| ==> hs[i].name != []
    ensures Deliver(WithHeaders(f, hs), Note(HeadersComplete)) == f.(headers := f.headers + KeptHeaders(hs))
  {
    if hs != [] {
      var last := hs[|hs| - 1];
      assert last.name != [];
      var before := Filled(hs[..|hs| - 1]);
      assert f.headers + (before + [(last.name, last.value)]) == (f.headers + before) + [(last.name, last.value)];
    } else {
      assert f.headers + KeptHeaders([]) == f.headers;
    }
  }

  /** The first events of a message: the handler's fields are cleared. */
  lemma MessageStarts(f: Fields, url: seq<Byte>)
    ensures DeliverAll(f, [Note(MessageBegin), Data(UrlData, url)]) == NO_FIELDS.(handled := f.handled, rawUrl := url)
  {
    DeliverTwo(f, Note(MessageBegin), Data(UrlData, url));
    assert [] + url == url;
  }

  lemma BodyIsDelivered(f: Fields, body: seq<Byte>)
    requires f.body == []
    ensures DeliverAll(f, BodyEvents(body)) == f.(body := body)
  {
    if body != [] {
      DeliverOne(f, Data(BodyData, body));
      assert [] + body == body;
    } else {
      assert DeliverAll(f, []) == f;
    }
  }

  lemma EventsBuildMessage(f: Fields, r: Request)
    requires HeadersOk(r.headers) && HeadersOk(TrailersOf(r.payload))
    ensures DeliverAll(f, RequestEvents(r)).handled == f.handled + [MessageOf(r)]
  {
    hide Deliver, DeliverAll, HeadersOk, HeaderEvents, Filled, KeptHeaders;
    var trailers, body := TrailersOf(r.payload), BodyOf(r.payload);
    AllNamed(r.headers);
    var start := [Note(MessageBegin), Data(UrlData, r.url)];
    var g := NO_FIELDS.(handled := f.handled, rawUrl := r.url);
    MessageStarts(f, r.url);
    HeadersAreDelivered(g, r.headers);
    DeliverAppend(f, start, HeaderEvents(r.headers));
    HeadersEnd(g, r.headers);
    DeliverOne(WithHeaders(g, r.headers), Note(HeadersComplete));
    var k := g.(headers := g.headers + KeptHeaders(r.headers));
    BodyIsDelivered(k, body);
    HeadersAreDelivered(k.(body := body), trailers);
    var l := WithHeaders(k.(body := body), trailers);
    DeliverOne(l, Note(MessageComplete));
    DeliverAppend(k, BodyEvents(body), HeaderEvents(trailers));
    DeliverAppend(k, BodyEvents(body) + HeaderEvents(trailers), [Note(MessageComplete)]);
    DeliverAppend(WithHeaders(g, r.headers), [Note(HeadersComplete)], BodyEvents(body) + HeaderEvents(trailers) + [Note(MessageComplete)]);
    assert PayloadEvents(r.payload)
        == [Note(HeadersComplete)] + (BodyEvents(body) + HeaderEvents(trailers) + [Note(MessageComplete)]);
    DeliverAppend(f, HeadEvents(r), PayloadEvents(r.payload));
    LastField(l, r, k, body);
  }

  lemma LastField(l: Fields, r: Request, k: Fields, body: seq<Byte>)
    requires k.headers == [] + KeptHeaders(r.headers) && k.rawUrl == r.url && body == BodyOf(r.payload)
    requires l == WithHeaders(k.(body := body), TrailersOf(r.payload))
    ensures Deliver(l, Note(MessageComplete)).handled == k.handled + [MessageOf(r)]
  {
    var trailers := TrailersOf(r.payload);
    var kept := KeptHeaders(r.headers);
    assert [] + kept == kept == kept + [];
    assert l.headers == kept + KeptTrailers(trailers);
  }

  lemma DeliverYielded(f: Fields, p: Parser, bytes: seq<Byte>, q: Parser, es: seq<Event>)
    requires Yields(p, bytes, q, es)
    ensures DeliverAll(f, Run(p, bytes).events) == DeliverAll(f, es)
  {
    assert DeliverAll(f, []) == f;
    hide Run, Deliver, DeliverAll, JoinOnto;
    DeliverJoined(f, [], Run(p, bytes).events);
    DeliverJoined(f, [], es);
  }

  lemma OkParts(r: Request)
    requires RequestOk(r)
    ensures HeadersOk(r.headers) && HeadersOk(TrailersOf(r.payload))
  {}

  /** The handler is given one message, and it is the one that was sent, whatever was handled before. */
  lemma RequestIsHandled(p: Parser, f: Fields, r: Request) returns (q: Parser)
    requires Idle(p) && RequestOk(r) && p.nread + |Head(r)| + 2 <= MAX_HEADER_SIZE
    ensures Run(p, RequestBytes(r)).outcome == Running(q) && WF(q)
    ensures DeliverAll(f, Run(p, RequestBytes(r)).events).handled == f.handled + [MessageOf(r)]
    ensures q.state == (if KeepsAlive(r) then StartReq else Dead) && q.nread == CountAfter(r)
  {
    hide Run, WF, JoinOnto, RequestBytes, RequestEvents, RequestOk, KeepsAlive, CountAfter, Head;
    q := RequestIsParsed(p, r);
    YieldsWF(p, RequestBytes(r), q, RequestEvents(r));
    DeliverYielded(f, p, RequestBytes(r), q, RequestEvents(r));
    OkParts(r);
    EventsBuildMessage(f, r);
  }

  // ---- What is lost ----

  function Pairs(hs: seq<Header>): seq<(Bytes, Bytes)> {
    if hs == [] then [] else Pairs(hs[..|hs| - 1]) + [(hs[|hs| - 1].name, hs[|hs| - 1].value)]
  }

  /** The message with all its trailer fields, which may be put with the header fields (section 4.1.2 of RFC 7230). */
  function SentMessage(r: Request): Message {
    Message(r.url, Pairs(r.headers) + Pairs(TrailersOf(r.payload)), BodyOf(r.payload))
  }

  predicate AllFilled(hs: seq<Header>) { forall i :: 0 <= i < |hs| ==> hs[i].value != [] }

  /** There is no trailer field, and no header but the last one has an empty value. */
  predicate NothingLost(r: Request) { TrailersOf(r.payload) == [] && (r.headers == [] || AllFilled(r.headers[..|r.headers| - 1])) }

  lemma {:induction false} FilledLength(hs: seq<Header>)
    ensures |Pairs(hs)| == |hs| && |Filled(hs)| <= |hs| && (|Filled(hs)| == |hs| <==> AllFilled(hs))
    ensures AllFilled(hs) ==> Filled(hs) == Pairs(hs)
  {
    if hs != [] {
      var init, h := hs[..|hs| - 1], hs[|hs| - 1];
      FilledLength(init);
      assert AllFilled(hs) <==> AllFilled(init) && h.value != [] by {
        forall i | 0 <= i < |init| ensures init[i] == hs[i] {}
      }
      hide AllFilled;
    }
  }

  /** The handler is given the message as it was sent exactly when it has nothing that is lost. */
  lemma SentIsHandledIff(p: Parser, f: Fields, r: Request)
    requires Idle(p) && RequestOk(r) && p.nread + |Head(r)| + 2 <= MAX_HEADER_SIZE
    ensures DeliverAll(f, Run(p, RequestBytes(r)).events).handled == f.handled + [SentMessage(r)] <==> NothingLost(r)
  {
    var _ := RequestIsHandled(p, f, r);
    hide *;
    SentIff(r);
    var handled := DeliverAll(f, Run(p, RequestBytes(r)).events).handled;
    assert handled[|f.handled|] == MessageOf(r) && (f.handled + [SentMessage(r)])[|f.handled|] == SentMessage(r);
  }

  lemma SentIff(r: Request)
    ensures MessageOf(r) == SentMessage(r) <==> NothingLost(r)
  {
    hide Pairs, Filled, AllFilled;
    var trailers := TrailersOf(r.payload);
    FilledLength(r.headers);
    FilledLength(trailers);
    if trailers != [] { FilledLength(trailers[..|trailers| - 1]); }
    if r.headers != [] { FilledLength(r.headers[..|r.headers| - 1]); }
    AllButLast(r.headers);
  }

  lemma AllButLast(hs: seq<Header>)
    ensures hs == [] ==> KeptHeaders(hs) == Pairs(hs)
    ensures hs != [] && Filled(hs[..|hs| - 1]) == Pairs(hs[..|hs| - 1]) ==> KeptHeaders(hs) == Pairs(hs)
  {
    hide Filled;
  }

  const CODING := Header("Transfer-Encoding", " ", "chunked")

  const DIGEST := Header("Digest", " ", "x")

  /** One chunk and one trailer field. */
  const TRAILED := Request(POST, "/", '1', [CODING], InChunks([Chunk("1", [], "a")], Chunk("0", [], []), [DIGEST]))

  /** The one trailer field of this request does not reach the handler. */
  lemma TrailerIsLost(p: Parser, f: Fields)
    requires Idle(p) && p.nread + |Head(TRAILED)| + 2 <= MAX_HEADER_SIZE
    ensures RequestOk(TRAILED) && TrailersOf(TRAILED.payload) == [DIGEST]
    ensures DeliverAll(f, Run(p, RequestBytes(TRAILED)).events).handled
            == f.handled + [Message("/", [("Transfer-Encoding", "chunked")], "a")]
  {
    TrailedIsOk();
    TrailedMessage();
    hide *;
    var _ := RequestIsHandled(p, f, TRAILED);
  }

  lemma TrailedMessage()
    ensures TrailersOf(TRAILED.payload) == [DIGEST]
    ensures MessageOf(TRAILED) == Message("/", [("Transfer-Encoding", "chunked")], "a")
  {
    assert [DIGEST][..0] == [] && [CODING][..0] == [];
    assert [Chunk("1", [], "a")][..0] == [];
  }

  lemma TrailedIsOk()
    ensures RequestOk(TRAILED)
  {
    PathIsUrlIff("/");
    CodingIsChunked();
    DigestIsPlain();
    hide UrlText, HeaderOk, StateAfter, Lines, LineOk;
    assert [CODING][..0] == [];
    assert FlagsAfter(NO_FLAGS, [CODING]) == FlagsFor(NO_FLAGS, Chunked);
    TrailedPayload();
  }

  lemma TrailedPayload()
    ensures LineOk(Chunk("1", [], "a")) && LineOk(Chunk("0", [], [])) && |Lines([DIGEST])| == 11
  {
    assert [DIGEST][..0] == [] && Lines([]) == [];
  }

  lemma CodingIsChunked()
    ensures HeaderOk(CODING) && StateAfter(CODING) == Chunked
  {
    CodingInLowerCase();
    hide NameState, ValueMeaning, Lowered, Lowers;
    NamesRecognised("transfer-encoding");
    ValuesRecognised(TransferEncoding, "chunked");
  }

  lemma CodingInLowerCase()
    ensures AllTokens(CODING.name) && ValueText(CODING.value)
    ensures Lowered(CODING.name) == "transfer-encoding" && Lowers(CODING.value) == "chunked"
  {
    assert Lowered(CODING.name) == "transfer-encoding";
    assert Lowers(CODING.value) == "chunked";
  }

  lemma DigestIsPlain()
    ensures HeaderOk(DIGEST) && KindOf(DIGEST) == General
  {
    assert Lowered(DIGEST.name) == "digest";
    hide ValueMeaning;
  }

  /** A header without a value before one with a value. */
  const BLANKED := Request(GET, "/", '1', [Header("Accept", [], []), DIGEST], Unsized)

  /** The header without a value does not reach the handler. */
  lemma EmptyIsLost(p: Parser, f: Fields)
    requires Idle(p) && p.nread + |Head(BLANKED)| + 2 <= MAX_HEADER_SIZE
    ensures RequestOk(BLANKED) && BLANKED.headers[0] == Header("Accept", [], [])
    ensures DeliverAll(f, Run(p, RequestBytes(BLANKED)).events).handled == f.handled + [Message("/", [("Digest", "x")], [])]
  {
    BlankedIsOk();
    BlankedMessage();
    hide *;
    var _ := RequestIsHandled(p, f, BLANKED);
  }

  lemma BlankedMessage()
    ensures BLANKED.headers[0] == Header("Accept", [], []) && MessageOf(BLANKED) == Message("/", [("Digest", "x")], [])
  {
    var hs := BLANKED.headers;
    assert hs[..1] == [hs[0]] && hs[..1][..0] == [];
    assert Filled([]) == [] && Filled(hs[..1]) == [];
  }

  lemma BlankedIsOk()
    ensures RequestOk(BLANKED)
  {
    var hs := BLANKED.headers;
    PathIsUrlIff("/");
    DigestIsPlain();
    AcceptIsOk();
    assert hs[..1] == [hs[0]] && hs[..1][..0] == [];
    hide UrlText, HeaderOk, KindOf;
    assert StateAfter(hs[0]) == StateAfter(hs[1]) == General;
    assert FlagsAfter(NO_FLAGS, hs[..1]) == NO_FLAGS && LengthAfter(ULLONG_MAX, hs[..1]) == ULLONG_MAX;
  }

  lemma AcceptIsOk()
    ensures HeaderOk(Header("Accept", [], []))
  {}

  // ---- Requests one after the other ----

  /** Requests that one connection can carry, the first of them after `count` header bytes. */
  predicate PipelineOk(count: nat, rs: seq<Request>)
    decreases |rs|
  {
    if rs == [] then true
    else
      && RequestOk(rs[0]) && count + |Head(rs[0])| + 2 <= MAX_HEADER_SIZE
      && (|rs| > 1 ==> KeepsAlive(rs[0])) && PipelineOk(CountAfter(rs[0]), rs[1..])
  }

  function PipelineBytes(rs: seq<Request>): seq<Byte> { if rs == [] then [] else RequestBytes(rs[0]) + PipelineBytes(rs[1..]) }

  function Messages(rs: seq<Request>): seq<Message> { if rs == [] then [] else [MessageOf(rs[0])] + Messages(rs[1..]) }

  lemma PipelineGoesOn(count: nat, rs: seq<Request>)
    requires PipelineOk(count, rs) && rs != []
    ensures RequestOk(rs[0]) && count + |Head(rs[0])| + 2 <= MAX_HEADER_SIZE
    ensures (rs[1..] != [] ==> KeepsAlive(rs[0])) && PipelineOk(CountAfter(rs[0]), rs[1..])
  {
    hide RequestOk, KeepsAlive, CountAfter, Head;
  }

  /** Requests sent in a row are handled in order, each of them once. */
  lemma {:induction false} PipelineIsHandled(p: Parser, f: Fields, rs: seq<Request>)
    requires WF(p) && (rs != [] ==> p.state.StartReq?) && PipelineOk(p.nread, rs)
    ensures Run(p, PipelineBytes(rs)).outcome.Running?
    ensures DeliverAll(f, Run(p, PipelineBytes(rs)).events).handled == f.handled + Messages(rs)
    decreases |rs|
  {
    hide WF, RequestBytes, RequestOk, KeepsAlive, CountAfter, Head, MessageOf, Deliver, StepByte;
    if rs == [] {
      assert DeliverAll(f, []) == f && f.handled + [] == f.handled;
      assert Run(p, []).outcome.Running?;
    } else {
      hide Run, DeliverAll, PipelineOk, PipelineBytes, Messages;
      PipelineGoesOn(p.nread, rs);
      var q := RequestIsHandled(p, f, rs[0]);
      PipelineIsHandled(q, DeliverAll(f, Run(p, RequestBytes(rs[0])).events), rs[1..]);
      FirstThenOthers(p, f, rs, q);
    }
  }

  /** The first request and then the others. */
  lemma FirstThenOthers(p: Parser, f: Fields, rs: seq<Request>, q: Parser)
    requires rs != [] && WF(p) && Run(p, RequestBytes(rs[0])).outcome == Running(q)
    requires var g := DeliverAll(f, Run(p, RequestBytes(rs[0])).events); var r := Run(q, PipelineBytes(rs[1..]));
             && g.handled == f.handled + [MessageOf(rs[0])]
             && r.outcome.Running? && DeliverAll(g, r.events).handled == g.handled + Messages(rs[1..])
    ensures Run(p, PipelineBytes(rs)).outcome.Running?
    ensures DeliverAll(f, Run(p, PipelineBytes(rs)).events).handled == f.handled + Messages(rs)
  {
    hide WF, RequestBytes, MessageOf, Deliver, StepByte, Run, DeliverAll;
    var bytes, rest := RequestBytes(rs[0]), PipelineBytes(rs[1..]);
    RunAppend(p, bytes, rest);
    DeliverAppend(f, Run(p, bytes).events, Run(q, rest).events);
    assert f.handled + [MessageOf(rs[0])] + Messages(rs[1..]) == f.handled + ([MessageOf(rs[0])] + Messages(rs[1..]));
  }

  /** The connection's reading loop is given the bytes of requests in any cut: the handler gets exactly their messages. */
  method HandleConnection(parser: HTTPParser, parts: seq<Bytes>, ghost rs: seq<Request>) returns (ok: bool)
    requires parser.Valid() && parser.errno == OK && parser.core.state.StartReq?
    requires (forall i :: 0 <= i < |parts| ==> parts[i] != []) && Concat(parts) == PipelineBytes(rs)
    requires PipelineOk(parser.core.nread, rs)
    modifies parser
    ensures ok && parser.Valid() && parser.errno == OK
    ensures parser.handled == old(parser.handled) + Messages(rs)
  {
    hide Run, DeliverAll, Deliver, PipelineOk, PipelineBytes, Messages, Concat, WF, JoinOnto;
    ghost var p, f := parser.core, parser.View();
    PipelineIsHandled(p, f, rs);
    ok := parser.FeedReads(parts);
  }
}

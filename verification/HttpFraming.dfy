/** Message framing: what lengths the parser reads, and which bytes it then delivers as the body. */
module HttpFraming {
  import opened Bytes
  import opened HttpControl
  import opened HttpRun

  /** Reading `bytes` takes the parser from p to q with exactly these events. */
  ghost predicate RunsTo(p: Parser, bytes: seq<Byte>, q: Parser, events: seq<Event>) {
    WF(p) && Run(p, bytes) == Result(Running(q), events)
  }

  lemma RunsAppend(p: Parser, a: seq<Byte>, q: Parser, es: seq<Event>, b: seq<Byte>, r: Parser, fs: seq<Event>)
    requires RunsTo(p, a, q, es) && RunsTo(q, b, r, fs)
    ensures RunsTo(p, a + b, r, es + fs)
  {
    hide Run;
    RunAppend(p, a, b);
  }

  /** A first data byte starts the joined data. */
  lemma FirstDataByte(p: Parser, ch: Byte, k: Kind)
    requires WF(p) && StepByte(p, ch).StepOk? && !StepByte(p, ch).exit && StepByte(p, ch).events == [Data(k, [ch])]
    ensures Run(p, [ch]).outcome == Running(StepByte(p, ch).next)
    ensures forall js :: JoinOnto(js, Run(p, [ch]).events) == Push(js, Data(k, [ch]))
  {
    hide StepByte, WF, Push, JoinOnto;
    RunsByte(p, ch);
    hide Run;
    forall js ensures JoinOnto(js, Run(p, [ch]).events) == Push(js, Data(k, [ch])) {
      JoinOne(js, Data(k, [ch]));
    }
  }

  /** One more data byte of the same kind lengthens it. */
  lemma NextDataByte(p: Parser, front: seq<Byte>, ch: Byte, k: Kind)
    requires WF(p) && Run(p, front).outcome.Running? && WF(Run(p, front).outcome.p)
    requires forall js :: JoinOnto(js, Run(p, front).events) == Push(js, Data(k, front))
    requires var s := StepByte(Run(p, front).outcome.p, ch); s.StepOk? && !s.exit && s.events == [Data(k, [ch])]
    ensures Run(p, front + [ch]).outcome == Running(StepByte(Run(p, front).outcome.p, ch).next)
    ensures forall js :: JoinOnto(js, Run(p, front + [ch]).events) == Push(js, Data(k, front + [ch]))
  {
    hide StepByte, WF, Push, JoinOnto;
    var es := Run(p, front).events;
    assert (front + [ch])[..|front|] == front;
    assert Run(p, front + [ch]).events == es + [Data(k, [ch])];
    hide Run;
    forall js ensures JoinOnto(js, Run(p, front + [ch]).events) == Push(js, Data(k, front + [ch])) {
      JoinSplit(js, es, [Data(k, [ch])]);
      JoinOne(Push(js, Data(k, front)), Data(k, [ch]));
      PushTwice(js, k, front, [ch]);
    }
  }

  lemma RunsByte(p: Parser, ch: Byte)
    requires WF(p)
    ensures StepByte(p, ch).StepOk? && !StepByte(p, ch).exit ==>
      RunsTo(p, [ch], StepByte(p, ch).next, StepByte(p, ch).events)
    ensures StepByte(p, ch).StepFail? ==> Run(p, [ch]).outcome == Failed(StepByte(p, ch).errno, 0)
  {
    hide StepByte, WF;
    assert [ch][..0] == [] && Run(p, []) == Result(Running(p), []);
    if StepByte(p, ch).StepOk? {
      assert [] + StepByte(p, ch).events == StepByte(p, ch).events;
    }
  }

  // ---- Content-Length ----

  /** The number written by the digits of a text, its other characters ignored. */
  function Decimal(text: seq<Byte>): nat {
    if text == [] then 0 else
    var front, last := Decimal(text[..|text| - 1]), text[|text| - 1];
    if IsNum(last) then 10 * front + Digit(last) else front
  }

  /** Content-Length text: a digit, and then digits and spaces. */
  predicate LengthText(text: seq<Byte>) {
    text != [] && IsNum(text[0]) && forall i :: 0 <= i < |text| ==> IsNum(text[i]) || text[i] == ' '
  }

  /** The largest length the parser accepts in decimal. */
  const MAX_DECIMAL: nat := 0xFFFF_FFFF_FFFF_FFF9

  /** The overflow test is exact: it refuses a digit just when the new number is above MAX_DECIMAL, so nothing wraps. */
  lemma LengthDigitExact(length: nat, d: nat)
    requires d < 10
    ensures LengthDigit(length, d).0 <==> length * 10 + d <= MAX_DECIMAL
    ensures LengthDigit(length, d).0 ==> LengthDigit(length, d).1 == length * 10 + d < ULLONG_MAX
  {
  }

  lemma {:induction false} DecimalGrows(text: seq<Byte>, i: nat)
    requires i <= |text|
    ensures Decimal(text[..i]) <= Decimal(text)
    decreases |text|
  {
    if i < |text| {
      DecimalGrows(text[..|text| - 1], i);
      assert text[..|text| - 1][..i] == text[..i];
    } else {
      assert text[..i] == text;
    }
  }

  /** Before a Content-Length value: its first byte is read next. */
  predicate AtLengthValue(p: Parser) {
    WF(p) && p.state.HeaderValueDiscardWs? && p.headerState.ContentLength?
  }

  function AfterLength(p: Parser, text: seq<Byte>): Parser {
    p.(state := HeaderValue, index := 0, nread := p.nread + |text|, contentLength := Decimal(text))
  }

  lemma FirstLengthByte(p: Parser, ch: Byte)
    requires AtLengthValue(p) && IsNum(ch) && p.nread < MAX_HEADER_SIZE
    ensures StepByte(p, ch) == StepOk(AfterLength(p, [ch]), [Data(ValueData, [ch])], false)
  {
    hide FieldStartByte, HeadersAlmostDoneByte, UrlByte, ChunkByte, VersionByte;
    assert [ch][..0] == [];
    assert Decimal([ch]) == Digit(ch);
    CountKeeps(p);
  }

  lemma NextLengthByte(p: Parser, ch: Byte)
    requires WF(p) && p.state.HeaderValue? && p.headerState.ContentLength? && p.nread < MAX_HEADER_SIZE
    requires IsNum(ch) || ch == ' '
    ensures var v := if IsNum(ch) then 10 * p.contentLength + Digit(ch) else p.contentLength;
            StepByte(p, ch) ==
              if IsNum(ch) && v > MAX_DECIMAL then StepFail(InvalidContentLength)
              else StepOk(p.(nread := p.nread + 1, contentLength := v), [Data(ValueData, [ch])], false)
  {
    hide FieldStartByte, HeadersAlmostDoneByte, UrlByte, ChunkByte, VersionByte;
    CountKeeps(p);
    if IsNum(ch) { LengthDigitExact(p.contentLength, Digit(ch)); }
  }

  /** Content-Length text is accepted exactly up to MAX_DECIMAL, and then the length is the number it writes. */
  lemma {:induction false} ContentLengthIsRead(p: Parser, text: seq<Byte>)
    requires AtLengthValue(p) && LengthText(text) && p.nread + |text| <= MAX_HEADER_SIZE
    ensures Decimal(text) <= MAX_DECIMAL ==> Run(p, text).outcome == Running(AfterLength(p, text))
    ensures Decimal(text) <= MAX_DECIMAL ==> forall js :: JoinOnto(js, Run(p, text).events) == Push(js, Data(ValueData, text))
    ensures Decimal(text) > MAX_DECIMAL ==>
      Run(p, text).outcome.Failed? && Run(p, text).outcome.errno == InvalidContentLength
    decreases |text|
  {
    hide StepByte, WF, Push, ValueHState, LengthDigit, Run, JoinOnto;
    var n := |text| - 1;
    var front, last := text[..n], text[n];
    if n == 0 {
      assert text == [last] && front == [];
      FirstLengthByte(p, last);
      RunsByte(p, last);
      if StepByte(p, last).StepOk? { FirstDataByte(p, last, ValueData); }
    } else {
      assert front + [last] == text;
      ContentLengthIsRead(p, front);
      if Decimal(front) <= MAX_DECIMAL {
        NextLengthByte(AfterLength(p, front), last);
        if Decimal(text) <= MAX_DECIMAL {
          NextDataByte(p, front, last, ValueData);
        } else {
          NextByteFails(p, front, last);
        }
      } else {
        DecimalGrows(text, n);
        RunStops(p, front, [last]);
      }
    }
  }

  lemma NextByteFails(p: Parser, front: seq<Byte>, ch: Byte)
    requires WF(p) && Run(p, front).outcome.Running? && WF(Run(p, front).outcome.p)
    requires StepByte(Run(p, front).outcome.p, ch).StepFail?
    ensures Run(p, front + [ch]).outcome == Failed(StepByte(Run(p, front).outcome.p, ch).errno, |front|)
  {
    hide StepByte, WF;
    assert (front + [ch])[..|front|] == front;
  }

  // ---- Chunk sizes ----

  /** The number written by a size text, digit by digit as the unhex table reads it. */
  function SizeValue(text: seq<Byte>): nat
    requires SizeText(text)
  {
    if |text| <= 1 then (if text == [] then 0 else Unhex(text[0]))
    else
      assert Unhex(text[|text| - 1]) != -1;
      16 * SizeValue(text[..|text| - 1]) + Unhex(text[|text| - 1])
  }

  predicate SizeText(text: seq<Byte>) {
    forall i :: 0 <= i < |text| ==> Unhex(text[i]) != -1
  }

  /** The largest chunk size the parser accepts. */
  const MAX_HEX: nat := 0xFFFF_FFFF_FFFF_FFEF

  lemma SizeDigitExact(length: nat, d: nat)
    requires d < 16
    ensures SizeDigit(length, d).0 <==> length * 16 + d <= MAX_HEX
    ensures SizeDigit(length, d).0 ==> SizeDigit(length, d).1 == length * 16 + d < ULLONG_MAX
  {
  }

  function AfterSize(p: Parser, text: seq<Byte>): Parser
    requires SizeText(text)
  {
    p.(state := ChunkSize, nread := p.nread + |text|, contentLength := SizeValue(text))
  }

  lemma FirstSizeByte(p: Parser, ch: Byte)
    requires WF(p) && p.state.ChunkSizeStart? && Unhex(ch) != -1
    ensures StepByte(p, ch) == StepOk(p.(state := ChunkSize, nread := 1, contentLength := Unhex(ch)), [], false)
  {
    hide FieldStartByte, HeadersAlmostDoneByte, UrlByte, FieldByte, ValueByte, VersionByte;
    CountKeeps(p);
  }

  lemma NextSizeByte(p: Parser, ch: Byte)
    requires WF(p) && p.state.ChunkSize? && p.nread < MAX_HEADER_SIZE && Unhex(ch) != -1
    ensures var v := 16 * p.contentLength + Unhex(ch);
            StepByte(p, ch) ==
              if v > MAX_HEX then StepFail(InvalidContentLength)
              else StepOk(p.(nread := p.nread + 1, contentLength := v), [], false)
  {
    hide FieldStartByte, HeadersAlmostDoneByte, UrlByte, FieldByte, ValueByte, VersionByte;
    CountKeeps(p);
    SizeDigitExact(p.contentLength, Unhex(ch));
  }

  lemma {:induction false} SizeGrows(text: seq<Byte>)
    requires SizeText(text) && |text| > 1
    ensures SizeText(text[..|text| - 1]) && 16 * SizeValue(text[..|text| - 1]) <= SizeValue(text)
  {
    assert Unhex(text[|text| - 1]) != -1;
  }

  /** A chunk-size text is accepted exactly up to MAX_HEX, and then the chunk has the size it writes. */
  lemma {:induction false} ChunkSizeIsRead(p: Parser, text: seq<Byte>)
    requires WF(p) && p.state.ChunkSizeStart? && text != [] && SizeText(text) && |text| <= MAX_HEADER_SIZE
    ensures SizeValue(text) <= MAX_HEX ==> RunsTo(p, text, AfterSize(p, text), [])
    ensures SizeValue(text) > MAX_HEX ==>
      Run(p, text).outcome.Failed? && Run(p, text).outcome.errno == InvalidContentLength
    decreases |text|
  {
    var n := |text| - 1;
    var front, last := text[..n], text[n];
    assert p.nread == 0;
    hide StepByte, WF, Unhex, Run;
    if n == 0 {
      assert text == [last];
      FirstSizeByte(p, last);
      RunsByte(p, last);
    } else {
      SizeGrows(text);
      ChunkSizeIsRead(p, front);
      assert front + [last] == text;
      if SizeValue(front) <= MAX_HEX {
        NextSizeIsRead(p, text);
      } else {
        RunStops(p, front, [last]);
      }
    }
  }

  lemma NextSizeIsRead(p: Parser, text: seq<Byte>)
    requires WF(p) && p.state.ChunkSizeStart? && |text| > 1 && SizeText(text) && |text| <= MAX_HEADER_SIZE && p.nread == 0
    requires SizeText(text[..|text| - 1]) && SizeValue(text[..|text| - 1]) <= MAX_HEX
    requires RunsTo(p, text[..|text| - 1], AfterSize(p, text[..|text| - 1]), [])
    ensures SizeValue(text) <= MAX_HEX ==> RunsTo(p, text, AfterSize(p, text), [])
    ensures SizeValue(text) > MAX_HEX ==>
      Run(p, text).outcome.Failed? && Run(p, text).outcome.errno == InvalidContentLength
  {
    hide StepByte, WF, Unhex, Run;
    var n := |text| - 1;
    var front, last := text[..n], text[n];
    var q := AfterSize(p, front);
    assert front + [last] == text && Unhex(last) != -1;
    NextSizeByte(q, last);
    RunsByte(q, last);
    RunAppend(p, front, [last]);
  }

  // ---- What the table takes for a hex digit ----

  predicate IsHexDigit(c: Byte) { IsNum(c) || 'a' <= c <= 'f' || 'A' <= c <= 'F' }

  /** The table agrees with hex notation just on the ASCII half: from 128 on every byte passes as the digit 0. */
  lemma HighBytesPassAsZero(c: Byte)
    ensures Unhex(c) != -1 <==> IsHexDigit(c) || c as int >= 128
    ensures c as int >= 128 ==> Unhex(c) == 0
  {
  }

  /** A size line is hex notation (RFC 7230, section 4.1) exactly when, being accepted, it has no byte from 128 on. */
  lemma SizeLineIsHexIff(text: seq<Byte>)
    requires SizeText(text)
    ensures (forall i :: 0 <= i < |text| ==> IsHexDigit(text[i])) <==> (forall i :: 0 <= i < |text| ==> text[i] as int < 128)
  {
    forall i | 0 <= i < |text| ensures IsHexDigit(text[i]) <==> text[i] as int < 128 {
      HighBytesPassAsZero(text[i]);
    }
  }

  /** A size line that is no hex number, and that the parser takes for the end of the body. */
  lemma HighByteCounterexample(p: Parser)
    requires WF(p) && p.state.ChunkSizeStart?
    ensures var ch := 0x80 as char; !IsHexDigit(ch) && RunsTo(p, [ch], AfterSize(p, [ch]), []) && SizeValue([ch]) == 0
  {
    ChunkSizeIsRead(p, [0x80 as char]);
  }

  // ---- Chunks ----

  /** A chunk as it is sent: the size line, possibly with parameters, and the data. */
  datatype Chunk = Chunk(size: seq<Byte>, ext: seq<Byte>, data: seq<Byte>)

  const CRLF: seq<Byte> := [CR, LF]

  function SizeLine(c: Chunk): seq<Byte> { c.size + c.ext + CRLF }

  predicate LineOk(c: Chunk) {
    && c.size != [] && SizeText(c.size) && SizeValue(c.size) == |c.data| <= MAX_HEX
    && (c.ext != [] ==> c.ext[0] == ';' || c.ext[0] == ' ')
    && CR !in c.ext
    && |SizeLine(c)| <= MAX_HEADER_SIZE
  }

  function Encode(cs: seq<Chunk>): seq<Byte> {
    if cs == [] then [] else
    var c := cs[|cs| - 1];
    Encode(cs[..|cs| - 1]) + (SizeLine(c) + c.data + CRLF)
  }

  function Body(cs: seq<Chunk>): seq<Byte> {
    if cs == [] then [] else Body(cs[..|cs| - 1]) + cs[|cs| - 1].data
  }

  lemma ParameterByte(p: Parser, ch: Byte)
    requires WF(p) && (p.state.ChunkSize? || p.state.ChunkParameters?) && p.nread < MAX_HEADER_SIZE
    requires ch != CR && (p.state.ChunkSize? ==> ch == ';' || ch == ' ')
    ensures StepByte(p, ch) == StepOk(p.(state := ChunkParameters, nread := p.nread + 1), [], false)
  {
    hide SizeDigit, HeadersDoneByte, FieldStartByte, HeadersAlmostDoneByte, UrlByte, FieldByte, ValueByte, VersionByte;
    CountKeeps(p);
  }

  lemma {:induction false} ParametersAreSkipped(p: Parser, ext: seq<Byte>)
    requires WF(p) && p.state.ChunkSize? && p.nread + |ext| <= MAX_HEADER_SIZE && CR !in ext
    requires ext != [] ==> ext[0] == ';' || ext[0] == ' '
    ensures RunsTo(p, ext, p.(state := if ext == [] then ChunkSize else ChunkParameters, nread := p.nread + |ext|), [])
    decreases |ext|
  {
    hide StepByte;
    if ext != [] {
      var n := |ext| - 1;
      var front, last := ext[..n], ext[n];
      assert last in ext && (n > 0 ==> front[0] == ext[0]);
      ParametersAreSkipped(p, front);
      var q := p.(state := if front == [] then ChunkSize else ChunkParameters, nread := p.nread + n);
      ParameterByte(q, last);
      RunsByte(q, last);
      assert front + [last] == ext;
      RunsAppend(p, front, q, [], [last], StepByte(q, last).next, []);
    }
  }

  lemma SizeLineCR(p: Parser)
    requires WF(p) && (p.state.ChunkSize? || p.state.ChunkParameters?) && p.nread < MAX_HEADER_SIZE
    ensures StepByte(p, CR) == StepOk(p.(state := ChunkSizeAlmostDone, nread := p.nread + 1), [], false)
  {
    hide FieldStartByte, HeadersAlmostDoneByte, UrlByte, FieldByte, ValueByte, VersionByte;
    CountKeeps(p);
  }

  lemma SizeLineLF(p: Parser)
    requires WF(p) && p.state.ChunkSizeAlmostDone? && p.nread < MAX_HEADER_SIZE
    ensures StepByte(p, LF) == StepOk(EndOfSizeLine(p), [], false)
  {
    hide FieldStartByte, HeadersAlmostDoneByte, UrlByte, FieldByte, ValueByte, VersionByte;
    CountKeeps(p);
  }

  lemma SizeLineEnd(p: Parser)
    requires WF(p) && (p.state.ChunkSize? || p.state.ChunkParameters?) && p.nread + 2 <= MAX_HEADER_SIZE
    ensures RunsTo(p, CRLF, EndOfSizeLine(p), [])
  {
    hide StepByte, Run;
    var q := p.(state := ChunkSizeAlmostDone, nread := p.nread + 1);
    SizeLineCR(p);
    SizeLineLF(q);
    RunsByte(p, CR);
    RunsByte(q, LF);
    RunsAppend(p, [CR], q, [], [LF], EndOfSizeLine(p), []);
    assert CRLF == [CR] + [LF];
  }

  /** After the size line: the data, or after a zero size the trailer. */
  function EndOfSizeLine(p: Parser): Parser {
    if p.contentLength == 0 then p.(state := HeaderFieldStart, nread := 0, flags := p.flags.(trailing := true))
    else p.(state := ChunkData, nread := 0)
  }

  /** A size line, read from the start of a chunk. */
  lemma SizeLineIsRead(p: Parser, c: Chunk)
    requires WF(p) && p.state.ChunkSizeStart? && LineOk(c)
    ensures RunsTo(p, SizeLine(c), EndOfSizeLine(p.(contentLength := |c.data|)), [])
  {
    assert p.nread == 0;
    hide Run, WF;
    ChunkSizeIsRead(p, c.size);
    var q := AfterSize(p, c.size);
    ParametersAreSkipped(q, c.ext);
    var r := q.(state := if c.ext == [] then ChunkSize else ChunkParameters, nread := q.nread + |c.ext|);
    RunsAppend(p, c.size, q, [], c.ext, r, []);
    SizeLineEnd(r);
    RunsAppend(p, c.size + c.ext, r, [], CRLF, EndOfSizeLine(r), []);
  }

  lemma ChunkEndCR(p: Parser)
    requires WF(p) && p.state.ChunkDataAlmostDone?
    ensures StepByte(p, CR) == StepOk(p.(state := ChunkDataDone), [], false)
  {
    hide FieldStartByte, HeadersAlmostDoneByte, UrlByte, FieldByte, ValueByte, VersionByte;
    CountKeeps(p);
  }

  lemma ChunkEndLF(p: Parser)
    requires WF(p) && p.state.ChunkDataDone?
    ensures StepByte(p, LF) == StepOk(p.(state := ChunkSizeStart, nread := 0), [], false)
  {
    hide FieldStartByte, HeadersAlmostDoneByte, UrlByte, FieldByte, ValueByte, VersionByte;
    CountKeeps(p);
  }

  lemma ChunkEnd(p: Parser)
    requires WF(p) && p.state.ChunkDataAlmostDone?
    ensures RunsTo(p, CRLF, p.(state := ChunkSizeStart, nread := 0), [])
  {
    hide StepByte, Run;
    var q, r := p.(state := ChunkDataDone), p.(state := ChunkSizeStart, nread := 0);
    ChunkEndCR(p);
    ChunkEndLF(q);
    RunsByte(p, CR);
    RunsByte(q, LF);
    RunsAppend(p, [CR], q, [], [LF], r, []);
    assert CRLF == [CR] + [LF];
  }

  function AfterChunk(p: Parser): Parser { p.(state := ChunkSizeStart, nread := 0, contentLength := 0) }

  /** One chunk: its data is delivered, and the parser is at the start of the next chunk. */
  lemma ChunkIsRead(p: Parser, c: Chunk)
    requires WF(p) && p.state.ChunkSizeStart? && LineOk(c) && c.data != []
    ensures Run(p, SizeLine(c) + c.data + CRLF).outcome == Running(AfterChunk(p))
    ensures forall js :: JoinOnto(js, Run(p, SizeLine(c) + c.data + CRLF).events) == Push(js, Data(BodyData, c.data))
  {
    var q := p.(state := ChunkData, nread := 0, contentLength := |c.data|);
    var r := AfterBulk(q, |c.data|);
    hide Run, Push, WF, JoinOnto, LineOk;
    SizeLineIsRead(p, c);
    ChunkDataState(p, c);
    RunBulk(q, c.data, []);
    ChunkEnd(r);
    RunAppend(p, SizeLine(c), c.data);
    RunAppend(p, SizeLine(c) + c.data, CRLF);
    var es := Run(q, c.data).events;
    assert Run(p, SizeLine(c) + c.data + CRLF).events == es;
    forall js ensures JoinOnto(js, es) == Push(js, Data(BodyData, c.data)) {
      RunBulk(q, c.data, js);
      NothingToJoin(Push(js, Data(BodyData, c.data)));
    }
  }

  lemma ChunkDataState(p: Parser, c: Chunk)
    requires WF(p) && p.state.ChunkSizeStart? && LineOk(c) && c.data != []
    ensures var q := p.(state := ChunkData, nread := 0, contentLength := |c.data|);
            && EndOfSizeLine(p.(contentLength := |c.data|)) == q
            && WF(q) && WF(AfterBulk(q, |c.data|)) && AfterBulk(q, |c.data|).state.ChunkDataAlmostDone?
            && AfterBulk(q, |c.data|).(state := ChunkSizeStart, nread := 0) == AfterChunk(p)
  {
  }

  lemma NothingToJoin(js: seq<Event>)
    ensures JoinOnto(js, []) == js
  {
  }

  /** Any list of non-empty chunks: the body callbacks deliver exactly their concatenation. */
  lemma {:induction false} ChunksAreRead(p: Parser, cs: seq<Chunk>)
    requires WF(p) && p.state.ChunkSizeStart?
    requires forall i :: 0 <= i < |cs| ==> LineOk(cs[i]) && cs[i].data != []
    ensures Run(p, Encode(cs)).outcome == Running(if cs == [] then p else AfterChunk(p))
    ensures forall js :: JoinOnto(js, Run(p, Encode(cs)).events) ==
                         if cs == [] then js else Push(js, Data(BodyData, Body(cs)))
  {
    hide StepByte, LineOk, Push, SizeLine;
    if cs != [] {
      var n := |cs| - 1;
      var front, c := cs[..n], cs[n];
      ChunksAreRead(p, front);
      var q := if front == [] then p else AfterChunk(p);
      assert LineOk(c);
      ChunkIsRead(q, c);
      var a, b := Encode(front), SizeLine(c) + c.data + CRLF;
      hide Run, JoinOnto;
      RunAppend(p, a, b);
      forall js ensures JoinOnto(js, Run(p, Encode(cs)).events) == Push(js, Data(BodyData, Body(cs))) {
        JoinSplit(js, Run(p, a).events, Run(q, b).events);
        if front != [] {
          PushTwice(js, BodyData, Body(front), c.data);
        } else {
          assert [] + c.data == c.data;
        }
      }
    }
  }

  // ---- The blank line after the headers, and the whole message ----

  /** After the last header: no trailer yet, and no upgrade. */
  predicate AtBlankLine(p: Parser) {
    && WF(p) && p.state.HeaderFieldStart? && p.nread + 2 <= MAX_HEADER_SIZE
    && !p.flags.trailing && !p.flags.upgrade && !p.flags.skipBody && p.verb != CONNECT
  }

  function Completed(p: Parser): Parser { p.(state := NewMessage(p)) }

  lemma BlankLineCR(p: Parser)
    requires WF(p) && p.state.HeaderFieldStart? && p.nread < MAX_HEADER_SIZE
    ensures StepByte(p, CR) == StepOk(p.(state := HeadersAlmostDone, nread := p.nread + 1), [], false)
  {
    hide HeadersAlmostDoneByte, UrlByte, FieldByte, ValueByte, VersionByte, ChunkByte;
    CountKeeps(p);
  }

  lemma BlankLineLF(p: Parser)
    requires WF(p) && p.state.HeadersAlmostDone? && p.nread < MAX_HEADER_SIZE
    requires !p.flags.trailing && !p.flags.upgrade && !p.flags.skipBody && p.verb != CONNECT
    ensures var q := p.(nread := 0, upgrade := false);
            StepByte(p, LF) ==
              if p.flags.chunked then StepOk(q.(state := ChunkSizeStart), [Note(HeadersComplete)], false)
              else if p.contentLength == 0 || p.contentLength == ULLONG_MAX
              then StepOk(Completed(q), [Note(HeadersComplete), Note(MessageComplete)], false)
              else StepOk(q.(state := BodyIdentity), [Note(HeadersComplete)], false)
  {
    hide FieldStartByte, UrlByte, FieldByte, ValueByte, VersionByte, ChunkByte;
    CountKeeps(p);
    var es := StepByte(p, LF).events;
    assert |es| <= 2;
  }

  lemma TrailerLF(p: Parser)
    requires WF(p) && p.state.HeadersAlmostDone? && p.nread < MAX_HEADER_SIZE && p.flags.trailing
    ensures StepByte(p, LF) == StepOk(Completed(p.(nread := p.nread + 1)), [Note(MessageComplete)], false)
  {
    hide FieldStartByte, UrlByte, FieldByte, ValueByte, VersionByte, ChunkByte;
    CountKeeps(p);
  }

  lemma TwoBytes(p: Parser, es: seq<Event>)
    requires WF(p) && StepByte(p, CR).StepOk? && !StepByte(p, CR).exit && StepByte(p, CR).events == []
    requires StepByte(StepByte(p, CR).next, LF).StepOk? && !StepByte(StepByte(p, CR).next, LF).exit
    requires StepByte(StepByte(p, CR).next, LF).events == es
    ensures RunsTo(p, CRLF, StepByte(StepByte(p, CR).next, LF).next, es)
  {
    hide StepByte, Run;
    var q := StepByte(p, CR).next;
    RunsByte(p, CR);
    RunsByte(q, LF);
    RunsAppend(p, [CR], q, [], [LF], StepByte(q, LF).next, es);
    assert CRLF == [CR] + [LF] && [] + es == es;
  }

  /**
   * A message with Content-Length N, from its blank line: exactly the next N bytes are the body, and then the message
   * is complete, once.
   */
  lemma IdentityMessage(p: Parser, body: seq<Byte>, js: seq<Event>)
    requires AtBlankLine(p) && !p.flags.chunked && p.contentLength == |body| < ULLONG_MAX
    ensures var q := p.(nread := 0, upgrade := false, contentLength := 0);
            Run(p, CRLF + body).outcome == Running(Completed(q))
    ensures JoinOnto(js, Run(p, CRLF + body).events) ==
            js + [Note(HeadersComplete)] + (if body == [] then [] else [Data(BodyData, body)]) + [Note(MessageComplete)]
  {
    hide StepByte, Run, JoinOnto;
    BlankLineCR(p);
    BlankLineLF(p.(state := HeadersAlmostDone, nread := p.nread + 1));
    if body == [] {
      TwoBytes(p, [Note(HeadersComplete), Note(MessageComplete)]);
      assert CRLF + body == CRLF;
      JoinTwoNotes(js);
    } else {
      TwoBytes(p, [Note(HeadersComplete)]);
      IdentityBody(p, body, js);
    }
  }

  /** The body after its blank line. */
  lemma IdentityBody(p: Parser, body: seq<Byte>, js: seq<Event>)
    requires AtBlankLine(p) && !p.flags.chunked && p.contentLength == |body| < ULLONG_MAX && body != []
    requires var q := p.(nread := 0, upgrade := false, state := BodyIdentity);
             Run(p, CRLF).outcome == Running(q) && Run(p, CRLF).events == [Note(HeadersComplete)]
    ensures Run(p, CRLF + body).outcome == Running(Completed(p.(nread := 0, upgrade := false, contentLength := 0)))
    ensures JoinOnto(js, Run(p, CRLF + body).events) == js + [Note(HeadersComplete)] + [Data(BodyData, body)] + [Note(MessageComplete)]
  {
    hide StepByte, Run, JoinOnto;
    var q := p.(nread := 0, upgrade := false, state := BodyIdentity);
    RunAppend(p, CRLF, body);
    var js' := js + [Note(HeadersComplete)];
    RunBulk(q, body, js');
    JoinOne(js, Note(HeadersComplete));
    JoinSplit(js, [Note(HeadersComplete)], Run(q, body).events);
    JoinOne(js' + [Data(BodyData, body)], Note(MessageComplete));
  }

  lemma JoinTwoNotes(js: seq<Event>)
    ensures JoinOnto(js, [Note(HeadersComplete), Note(MessageComplete)]) ==
            js + [Note(HeadersComplete)] + [] + [Note(MessageComplete)]
  {
    JoinSplit(js, [Note(HeadersComplete)], [Note(MessageComplete)]);
    JoinOne(js, Note(HeadersComplete));
    JoinOne(js + [Note(HeadersComplete)], Note(MessageComplete));
    assert [Note(HeadersComplete)] + [Note(MessageComplete)] == [Note(HeadersComplete), Note(MessageComplete)];
  }

  /** A message without any length: it is complete at its blank line. */
  lemma MessageWithoutLength(p: Parser)
    requires AtBlankLine(p) && !p.flags.chunked && p.contentLength == ULLONG_MAX
    ensures RunsTo(p, CRLF, Completed(p.(nread := 0, upgrade := false)), [Note(HeadersComplete), Note(MessageComplete)])
  {
    hide StepByte, Run;
    BlankLineCR(p);
    BlankLineLF(p.(state := HeadersAlmostDone, nread := p.nread + 1));
    TwoBytes(p, [Note(HeadersComplete), Note(MessageComplete)]);
  }
}

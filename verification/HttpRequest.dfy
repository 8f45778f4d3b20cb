/** The request line and the header lines, from their bytes to what the parser has understood. */
module HttpRequest {
  import opened Bytes
  import opened HttpControl
  import opened HttpRun
  import opened HttpFraming
  import opened HttpHeaders

  // ---- Reading one part after the other ----

  /** Reading `bytes` takes the parser from p to q, with these events up to the joining of data. */
  ghost predicate Yields(p: Parser, bytes: seq<Byte>, q: Parser, events: seq<Event>) {
    && WF(p) && Run(p, bytes).outcome == Running(q)
    && forall js :: JoinOnto(js, Run(p, bytes).events) == JoinOnto(js, events)
  }

  lemma YieldsAppend(p: Parser, a: seq<Byte>, q: Parser, es: seq<Event>, b: seq<Byte>, r: Parser, fs: seq<Event>)
    requires Yields(p, a, q, es) && Yields(q, b, r, fs)
    ensures Yields(p, a + b, r, es + fs)
  {
    hide Run, JoinOnto, WF;
    RunAppend(p, a, b);
    forall js ensures JoinOnto(js, Run(p, a + b).events) == JoinOnto(js, es + fs) {
      JoinSplit(js, Run(p, a).events, Run(q, b).events);
      JoinSplit(js, es, fs);
    }
  }

  lemma YieldsExactly(p: Parser, bytes: seq<Byte>, q: Parser, events: seq<Event>)
    requires RunsTo(p, bytes, q, events)
    ensures Yields(p, bytes, q, events)
  {
    hide Run, JoinOnto;
  }

  lemma YieldsData(p: Parser, bytes: seq<Byte>, q: Parser, k: Kind)
    requires WF(p) && Run(p, bytes).outcome == Running(q)
    requires forall js :: JoinOnto(js, Run(p, bytes).events) == Push(js, Data(k, bytes))
    ensures Yields(p, bytes, q, [Data(k, bytes)])
  {
    hide Run, JoinOnto, Push;
    forall js ensures JoinOnto(js, Run(p, bytes).events) == JoinOnto(js, [Data(k, bytes)]) {
      JoinOne(js, Data(k, bytes));
    }
  }

  lemma YieldsWF(p: Parser, bytes: seq<Byte>, q: Parser, events: seq<Event>)
    requires Yields(p, bytes, q, events)
    ensures WF(q)
  {
    hide JoinOnto;
  }

  lemma RunsMore(p: Parser, a: seq<Byte>, q: Parser, es: seq<Event>, ch: Byte, r: Parser)
    requires RunsTo(p, a, q, es) && StepByte(q, ch) == StepOk(r, [], false)
    ensures RunsTo(p, a + [ch], r, es)
  {
    hide Run, StepByte;
    RunsByte(q, ch);
    RunsAppend(p, a, q, es, [ch], r, []);
    assert es + [] == es;
  }

  /** Between messages, on a fresh or kept-alive connection. */
  predicate Idle(p: Parser) { WF(p) && p.state.StartReq? }

  // ---- Method ----

  /** The parser's guess after the first i characters of a method. */
  function Guess(m: Method, i: nat): Method {
    if i <= 1 then FirstMethod(NameByte(m, 0)).1
    else match m
      case PROPPATCH => if i <= 4 then PROPFIND else m
      case PURGE => if i <= 2 then PUT else m
      case UNSUBSCRIBE => if i <= 2 then UNLOCK else m
      case COPY => if i <= 2 then CONNECT else m
      case MKACTIVITY => if i <= 2 then MKCOL else m
      case MKCALENDAR => if i <= 3 then MKCOL else m
      case _ => m
  }

  lemma NamesAreBytes(m: Method)
    ensures 3 <= |MethodName(m)| && forall i :: 0 <= i < |MethodName(m)| ==> ' ' < MethodName(m)[i] <= 'Z'
  {}

  function NameByte(m: Method, i: nat): Byte {
    NamesAreBytes(m);
    if i < |MethodName(m)| then MethodName(m)[i] else ' '
  }

  lemma FirstGuess(m: Method)
    ensures FirstMethod(NameByte(m, 0)) == (true, Guess(m, 1))
  {}

  /** What one more character of a method does to the guess. */
  function NextGuess(g: Method, i: nat, ch: Byte): (r: (bool, Method)) {
    if ch == At(MethodName(g), i) then (true, g) else OtherMethod(g, i, ch)
  }

  lemma GuessStep(m: Method, i: nat)
    requires 1 <= i < |MethodName(m)|
    ensures NextGuess(Guess(m, i), i, NameByte(m, i)) == (true, Guess(m, i + 1))
  {
    if i == 1 {
      SecondCharacter(m);
    } else if i == 2 {
      ThirdCharacter(m);
    } else {
      LaterCharacter(m, i);
    }
  }

  lemma SecondCharacter(m: Method)
    ensures NextGuess(Guess(m, 1), 1, NameByte(m, 1)) == (true, Guess(m, 2))
  {
    if m in {DELETE, GET, HEAD, OPTIONS, TRACE, LOCK, UNLOCK, REPORT, NOTIFY, UNSUBSCRIBE, CONNECT, CHECKOUT, COPY} {
      SecondAlone(m);
    } else {
      SecondShared(m);
    }
  }

  lemma SecondAlone(m: Method)
    requires m in {DELETE, GET, HEAD, OPTIONS, TRACE, LOCK, UNLOCK, REPORT, NOTIFY, UNSUBSCRIBE, CONNECT, CHECKOUT, COPY}
    ensures NextGuess(Guess(m, 1), 1, NameByte(m, 1)) == (true, Guess(m, 2))
  {
    if m in {DELETE, GET, HEAD, OPTIONS, TRACE, LOCK} { SecondOfFirstSix(m); } else { SecondOfOthers(m); }
  }

  lemma SecondOfFirstSix(m: Method)
    requires m in {DELETE, GET, HEAD, OPTIONS, TRACE, LOCK}
    ensures NextGuess(Guess(m, 1), 1, NameByte(m, 1)) == (true, Guess(m, 2))
  {}

  lemma SecondOfOthers(m: Method)
    requires m in {UNLOCK, REPORT, NOTIFY, UNSUBSCRIBE, CONNECT, CHECKOUT, COPY}
    ensures NextGuess(Guess(m, 1), 1, NameByte(m, 1)) == (true, Guess(m, 2))
  {}

  lemma SecondShared(m: Method)
    requires m !in {DELETE, GET, HEAD, OPTIONS, TRACE, LOCK, UNLOCK, REPORT, NOTIFY, UNSUBSCRIBE, CONNECT, CHECKOUT, COPY}
    ensures NextGuess(Guess(m, 1), 1, NameByte(m, 1)) == (true, Guess(m, 2))
  {}

  lemma ThirdCharacter(m: Method)
    ensures NextGuess(Guess(m, 2), 2, NameByte(m, 2)) == (true, Guess(m, 3))
  {}

  lemma LaterCharacter(m: Method, i: nat)
    requires 3 <= i < |MethodName(m)|
    ensures NextGuess(Guess(m, i), i, NameByte(m, i)) == (true, Guess(m, i + 1))
  {
    if m != PROPPATCH && m != MKCALENDAR {
      assert Guess(m, i) == m == Guess(m, i + 1);
    } else if i > 4 {
      assert Guess(m, i) == m == Guess(m, i + 1);
    }
  }

  lemma LastGuess(m: Method)
    ensures Guess(m, |MethodName(m)|) == m
  {}

  function AtMethod(p: Parser, m: Method, i: nat): Parser {
    p.(state := ReqMethod, flags := NO_FLAGS, contentLength := ULLONG_MAX, verb := Guess(m, i), index := i, nread := p.nread + i)
  }

  lemma FirstMethodByte(p: Parser, m: Method)
    requires Idle(p) && p.nread < MAX_HEADER_SIZE
    ensures StepByte(p, NameByte(m, 0)) == StepOk(AtMethod(p, m, 1), [Note(MessageBegin)], false)
  {
    FirstGuess(m);
    NamesAreBytes(m);
    hide Guess, NameByte, MethodName, FirstMethod, FieldStartByte, HeadersAlmostDoneByte, UrlByte, FieldByte, ValueByte, VersionByte,
      ChunkByte, ReqMethodByte;
    var ch := NameByte(m, 0);
    assert ch != CR && ch != LF by { IsNameByte(m, 0); }
    CountKeeps(p);
    assert StepByte(p, ch).events == [] + [Note(MessageBegin)] + [];
  }

  lemma IsNameByte(m: Method, i: nat)
    requires i < |MethodName(m)|
    ensures NameByte(m, i) == MethodName(m)[i] && ' ' < NameByte(m, i) <= 'Z'
  {
    NamesAreBytes(m);
  }

  lemma NextMethodByte(p: Parser, ch: Byte, g: Method)
    requires WF(p) && p.state.ReqMethod? && p.nread < MAX_HEADER_SIZE && ' ' < ch <= 'Z'
    requires NextGuess(p.verb, p.index, ch) == (true, g)
    ensures StepByte(p, ch) == StepOk(p.(verb := g, index := p.index + 1, nread := p.nread + 1), [], false)
  {
    hide FieldStartByte, HeadersAlmostDoneByte, UrlByte, FieldByte, ValueByte, VersionByte, ChunkByte, MethodName, OtherMethod;
    CountKeeps(p);
  }

  lemma MethodEnd(p: Parser)
    requires WF(p) && p.state.ReqMethod? && p.nread < MAX_HEADER_SIZE && p.index == |MethodName(p.verb)|
    ensures StepByte(p, ' ') == StepOk(p.(state := ReqSpacesBeforeUrl, index := p.index + 1, nread := p.nread + 1), [], false)
  {
    hide FieldStartByte, HeadersAlmostDoneByte, UrlByte, FieldByte, ValueByte, VersionByte, ChunkByte, MethodName, OtherMethod;
    CountKeeps(p);
  }

  function NameBytes(m: Method, n: nat): seq<Byte> { if n == 0 then [] else NameBytes(m, n - 1) + [NameByte(m, n - 1)] }

  lemma {:induction false} NameIsBytes(m: Method, n: nat)
    requires n <= |MethodName(m)|
    ensures NameBytes(m, n) == MethodName(m)[..n]
  {
    hide MethodName, NameByte;
    if n > 0 {
      NameIsBytes(m, n - 1);
      IsNameByte(m, n - 1);
      assert MethodName(m)[..n] == MethodName(m)[..n - 1] + [MethodName(m)[n - 1]];
    }
  }

  lemma {:induction false} GuessIsRead(p: Parser, m: Method, n: nat)
    requires Idle(p) && 1 <= n <= |MethodName(m)| && p.nread + n <= MAX_HEADER_SIZE
    ensures WF(AtMethod(p, m, n)) && RunsTo(p, NameBytes(m, n), AtMethod(p, m, n), [Note(MessageBegin)])
  {
    hide StepByte, Run, Guess, MethodName, NameByte, NextGuess, WF;
    if n == 1 {
      FirstMethodByte(p, m);
      RunsByte(p, NameByte(m, 0));
      assert NameBytes(m, 0) == [];
      assert NameBytes(m, 1) == [] + [NameByte(m, 0)] == [NameByte(m, 0)];
    } else {
      GuessIsRead(p, m, n - 1);
      GuessStep(m, n - 1);
      IsNameByte(m, n - 1);
      NextMethodByte(AtMethod(p, m, n - 1), NameByte(m, n - 1), Guess(m, n));
      RunsMore(p, NameBytes(m, n - 1), AtMethod(p, m, n - 1), [Note(MessageBegin)], NameByte(m, n - 1), AtMethod(p, m, n));
    }
  }

  function MethodText(m: Method): seq<Byte> { NameBytes(m, |MethodName(m)|) + [' '] }

  function AfterMethod(p: Parser, m: Method): Parser {
    var n := |MethodName(m)| + 1;
    p.(state := ReqSpacesBeforeUrl, flags := NO_FLAGS, contentLength := ULLONG_MAX, verb := m, index := n, nread := p.nread + n)
  }

  /** Each of the methods, although many are reached through guesses of others, is read as itself. */
  lemma MethodIsRead(p: Parser, m: Method)
    requires Idle(p) && p.nread + |MethodText(m)| <= MAX_HEADER_SIZE
    ensures MethodText(m) == MethodName(m) + " "
    ensures RunsTo(p, MethodText(m), AfterMethod(p, m), [Note(MessageBegin)])
  {
    hide StepByte, Run, Guess, MethodName, NameByte, NextGuess;
    var n := |MethodName(m)|;
    NamesAreBytes(m);
    NameIsBytes(m, n);
    GuessIsRead(p, m, n);
    LastGuess(m);
    var q := AtMethod(p, m, n);
    MethodEnd(q);
    RunsMore(p, NameBytes(m, n), q, [Note(MessageBegin)], ' ', AfterMethod(p, m));
  }

  lemma OtherMethodAgrees(g: Method, i: nat, ch: Byte)
    requires i >= 1 && OtherMethod(g, i, ch).0
    ensures var h := OtherMethod(g, i, ch).1;
            && i < |MethodName(h)| && MethodName(h)[i] == ch
            && i <= |MethodName(g)| && MethodName(h)[..i] == MethodName(g)[..i]
  {
    if i == 1 { OtherAtSecond(g, ch); } else { OtherLater(g, i, ch); }
  }

  lemma OtherAtSecond(g: Method, ch: Byte)
    requires OtherMethod(g, 1, ch).0
    ensures var h := OtherMethod(g, 1, ch).1;
            1 < |MethodName(h)| && MethodName(h)[1] == ch && MethodName(h)[..1] == MethodName(g)[..1]
  {}

  lemma OtherLater(g: Method, i: nat, ch: Byte)
    requires i > 1 && OtherMethod(g, i, ch).0
    ensures var h := OtherMethod(g, i, ch).1;
            && i < |MethodName(h)| && MethodName(h)[i] == ch
            && i <= |MethodName(g)| && MethodName(h)[..i] == MethodName(g)[..i]
  {
    if i == 2 { OtherThird(g, ch); } else { OtherAfterThird(g, i, ch); }
  }

  lemma OtherThird(g: Method, ch: Byte)
    requires OtherMethod(g, 2, ch).0
    ensures var h := OtherMethod(g, 2, ch).1;
            && 2 < |MethodName(h)| && MethodName(h)[2] == ch && 2 <= |MethodName(g)| && MethodName(h)[..2] == MethodName(g)[..2]
  {}

  lemma OtherAfterThird(g: Method, i: nat, ch: Byte)
    requires i > 2 && OtherMethod(g, i, ch).0
    ensures var h := OtherMethod(g, i, ch).1;
            && i < |MethodName(h)| && MethodName(h)[i] == ch
            && i <= |MethodName(g)| && MethodName(h)[..i] == MethodName(g)[..i]
  {}

  lemma FirstMethodAgrees(ch: Byte)
    requires FirstMethod(ch).0
    ensures MethodName(FirstMethod(ch).1)[..1] == [ch]
  {}

  /** Where the parser is in a method: what was read is the beginning of its guess. */
  predicate InMethod(p: Parser, text: seq<Byte>) {
    p.state.ReqMethod? && p.index == |text| <= |MethodName(p.verb)| && MethodName(p.verb)[..|text|] == text
  }

  lemma FirstByteOfMethod(p: Parser, ch: Byte)
    requires Idle(p) && ch != CR && ch != LF && p.nread < MAX_HEADER_SIZE && StepByte(p, ch).StepOk?
    ensures InMethod(StepByte(p, ch).next, [ch])
    ensures !StepByte(p, ch).exit && StepByte(p, ch).next.nread == p.nread + 1
  {
    hide MethodName, FieldStartByte, HeadersAlmostDoneByte, UrlByte, FieldByte, ValueByte, VersionByte, ChunkByte, ReqMethodByte;
    CountKeeps(p);
    hide FirstMethod;
    FirstMethodAgrees(ch);
  }

  lemma ByteOfMethod(p: Parser, text: seq<Byte>, ch: Byte)
    requires WF(p) && text != [] && InMethod(p, text) && p.nread < MAX_HEADER_SIZE && StepByte(p, ch).StepOk?
    ensures var q := StepByte(p, ch).next;
            && !StepByte(p, ch).exit && q.nread == p.nread + 1
            && if ch == ' ' then q.state.ReqSpacesBeforeUrl? && q.verb == p.verb && text == MethodName(p.verb)
               else InMethod(q, text + [ch])
  {
    hide MethodName, OtherMethod, StepByte, WF;
    MethodByteIs(p, ch);
    NamesAreBytes(p.verb);
    var i := p.index;
    var name := MethodName(p.verb);
    if i < |name| {
      assert name[i] > ' ';
      assert name[..i + 1] == name[..i] + [name[i]];
    }
    if OtherMethod(p.verb, i, ch).0 {
      OtherMethodAgrees(p.verb, i, ch);
      var other := MethodName(OtherMethod(p.verb, i, ch).1);
      NamesAreBytes(OtherMethod(p.verb, i, ch).1);
      assert other[i] == ch;
      assert other[..i + 1] == other[..i] + [other[i]];
    }
    if i == |name| { assert name[..i] == name; }
  }

  lemma MethodByteIs(p: Parser, ch: Byte)
    requires WF(p) && p.state.ReqMethod? && p.nread < MAX_HEADER_SIZE && StepByte(p, ch).StepOk?
    ensures var ctl := ReqMethodByte(p.(nread := p.nread + 1), ch);
            ctl.Go? && StepByte(p, ch).next == ctl.next && !StepByte(p, ch).exit
  {
    hide ReqMethodByte, FieldStartByte, HeadersAlmostDoneByte, UrlByte, FieldByte, ValueByte, VersionByte, ChunkByte;
    CountKeeps(p);
    MethodGoesOn(p.(nread := p.nread + 1), ch);
  }

  lemma MethodGoesOn(p: Parser, ch: Byte)
    ensures ReqMethodByte(p, ch).Go? ==> !ReqMethodByte(p, ch).exit
  {
    hide OtherMethod, MethodName;
  }

  lemma {:induction false} BytesOfMethod(p: Parser, text: seq<Byte>)
    requires Idle(p) && text != [] && text[0] != CR && text[0] != LF && ' ' !in text && p.nread + |text| <= MAX_HEADER_SIZE
    requires Run(p, text).outcome.Running?
    ensures var q := Run(p, text).outcome.p; InMethod(q, text) && q.nread == p.nread + |text|
    decreases |text|
  {
    hide StepByte, MethodName, InMethod;
    var n := |text| - 1;
    var front, last := text[..n], text[n];
    assert last in text;
    if n == 0 {
      assert front == [] && text == [last];
      FirstByteOfMethod(p, last);
    } else {
      assert front[0] == text[0];
      BytesOfMethod(p, front);
      ByteOfMethod(Run(p, front).outcome.p, front, last);
      assert text == front + [last];
    }
  }

  /** And no other text is: what the parser takes for a method, up to its space, is the name of one. */
  lemma OnlyMethodsAreRead(p: Parser, text: seq<Byte>)
    requires Idle(p) && text != [] && text[0] != CR && text[0] != LF && ' ' !in text && p.nread + |text| + 1 <= MAX_HEADER_SIZE
    ensures Run(p, text + [' ']).outcome.Running? <==> exists m :: text == MethodName(m)
    ensures Run(p, text + [' ']).outcome.Running? ==> text == MethodName(Run(p, text + [' ']).outcome.p.verb)
  {
    hide StepByte, MethodName, InMethod, MethodText;
    var whole := text + [' '];
    assert whole[..|text|] == text && whole[|text|] == ' ';
    if Run(p, whole).outcome.Running? {
      BytesOfMethod(p, text);
      ByteOfMethod(Run(p, text).outcome.p, text, ' ');
    }
    if m :| text == MethodName(m) {
      MethodLength(m);
      MethodIsRead(p, m);
    }
  }

  lemma MethodLength(m: Method)
    ensures |MethodText(m)| == |MethodName(m)| + 1
  {
    NameIsBytes(m, |MethodName(m)|);
  }

  // ---- URL ----

  /** The URL state after a text. */
  function UrlAfter(s: State, url: seq<Byte>): State {
    if url == [] then s else ParseUrlChar(UrlAfter(s, url[..|url| - 1]), url[|url| - 1])
  }

  /** The states in which a space may end the URL. */
  predicate UrlEnds(s: State) {
    s in {ReqServer, ReqServerWithAt, ReqPath, ReqQueryStringStart, ReqQueryString, ReqFragmentStart, ReqFragment}
  }

  /** A URL: with or without a schema and a server, a path, a query, a fragment. */
  predicate UrlText(url: seq<Byte>) { url != [] && UrlEnds(UrlAfter(ReqSpacesBeforeUrl, url)) }

  lemma {:induction false} UrlPrefix(s: State, url: seq<Byte>)
    requires url != [] && UrlState(UrlAfter(s, url))
    ensures |url| > 1 ==> UrlState(UrlAfter(s, url[..|url| - 1]))
    ensures url[|url| - 1] !in " \r\n"
  {
    var front := url[..|url| - 1];
    if |url| > 1 {
      assert UrlAfter(s, front) == ParseUrlChar(UrlAfter(s, front[..|front| - 1]), front[|front| - 1]);
    }
  }

  lemma FirstUrlByte(p: Parser, ch: Byte)
    requires WF(p) && p.state.ReqSpacesBeforeUrl? && p.verb != CONNECT && p.nread < MAX_HEADER_SIZE
    requires UrlState(ParseUrlChar(ReqSpacesBeforeUrl, ch))
    ensures StepByte(p, ch) == StepOk(p.(state := ParseUrlChar(ReqSpacesBeforeUrl, ch), nread := p.nread + 1), [Data(UrlData, [ch])], false)
  {
    assert ch != ' ';
    hide ParseUrlChar, FieldStartByte, HeadersAlmostDoneByte, FieldByte, ValueByte, VersionByte, ChunkByte;
    CountKeeps(p);
  }

  lemma NextUrlByte(p: Parser, ch: Byte)
    requires WF(p) && UrlState(p.state) && p.nread < MAX_HEADER_SIZE && ch !in " \r\n" && UrlState(ParseUrlChar(p.state, ch))
    ensures StepByte(p, ch) == StepOk(p.(state := ParseUrlChar(p.state, ch), nread := p.nread + 1), [Data(UrlData, [ch])], false)
  {
    hide ParseUrlChar, FieldStartByte, HeadersAlmostDoneByte, FieldByte, ValueByte, VersionByte, ChunkByte;
    CountKeeps(p);
  }

  lemma {:induction false} UrlIsRead(p: Parser, url: seq<Byte>)
    requires WF(p) && p.state.ReqSpacesBeforeUrl? && p.verb != CONNECT && p.nread + |url| <= MAX_HEADER_SIZE
    requires url != [] && UrlState(UrlAfter(ReqSpacesBeforeUrl, url))
    ensures Run(p, url).outcome == Running(p.(state := UrlAfter(ReqSpacesBeforeUrl, url), nread := p.nread + |url|))
    ensures forall js :: JoinOnto(js, Run(p, url).events) == Push(js, Data(UrlData, url))
    decreases |url|
  {
    hide StepByte, WF, Push, Run, JoinOnto, ParseUrlChar, UrlState;
    var n := |url| - 1;
    var front, last := url[..n], url[n];
    UrlPrefix(ReqSpacesBeforeUrl, url);
    if n == 0 {
      assert front == [] && url == [last];
      FirstUrlByte(p, last);
      FirstDataByte(p, last, UrlData);
    } else {
      UrlIsRead(p, front);
      NextUrlByte(p.(state := UrlAfter(ReqSpacesBeforeUrl, front), nread := p.nread + n), last);
      assert front + [last] == url;
      NextDataByte(p, front, last, UrlData);
    }
  }

  lemma {:induction false} PathStates(url: seq<Byte>)
    requires url != [] && url[0] in "/*"
    ensures if forall i :: 0 <= i < |url| ==> '!' <= url[i] <= '~'
            then UrlAfter(ReqSpacesBeforeUrl, url) in {ReqPath, ReqQueryStringStart, ReqQueryString, ReqFragmentStart, ReqFragment}
            else UrlAfter(ReqSpacesBeforeUrl, url).Dead?
  {
    var n := |url| - 1;
    if n == 0 {
      assert url[..0] == [];
    } else {
      assert url[..n][0] == url[0];
      PathStates(url[..n]);
    }
  }

  /** A text that starts with a slash or an asterisk is read as a URL exactly when its bytes are visible ASCII. */
  lemma PathIsUrlIff(url: seq<Byte>)
    requires url != [] && url[0] in "/*"
    ensures UrlText(url) <==> forall i :: 0 <= i < |url| ==> '!' <= url[i] <= '~'
  {
    PathStates(url);
  }

  // ---- Version ----

  const HTTP_1: seq<Byte> := [' ', 'H', 'T', 'T', 'P', '/', '1', '.']

  /** " HTTP/1.x" and the end of the line. */
  function VersionText(minor: Byte): seq<Byte> { HTTP_1 + [minor] + CRLF }

  predicate IsMinor(minor: Byte) { minor == '0' || minor == '1' }

  function VersionState(i: nat): State {
    match i
    case 1 => ReqHttpStart case 2 => ReqHttpH case 3 => ReqHttpHT case 4 => ReqHttpHTT
    case 5 => ReqHttpHTTP case 6 => ReqFirstHttpMajor case 7 => ReqHttpMajor case 8 => ReqFirstHttpMinor
    case 9 => ReqHttpMinor case 10 => ReqLineAlmostDone case _ => HeaderFieldStart
  }

  function AtVersion(p: Parser, minor: Byte, i: nat): Parser
    requires IsMinor(minor)
  {
    if i == 0 then p
    else p.(state := VersionState(i), nread := p.nread + i,
            httpMajor := if i >= 7 then 1 else p.httpMajor, httpMinor := if i >= 9 then Digit(minor) else p.httpMinor)
  }

  lemma UrlEnd(p: Parser)
    requires WF(p) && UrlEnds(p.state) && p.nread < MAX_HEADER_SIZE
    ensures StepByte(p, ' ') == StepOk(p.(state := ReqHttpStart, nread := p.nread + 1), [], false)
  {
    hide ParseUrlChar, FieldStartByte, HeadersAlmostDoneByte, FieldByte, ValueByte, ChunkByte, VersionByte;
    CountKeeps(p);
  }

  /** A byte of the version text that moves on to another state. */
  lemma VersionMove(p: Parser, ch: Byte, next: Parser)
    requires WF(p) && p.nread < MAX_HEADER_SIZE && WF(next)
    requires VersionStates(p.state)
    requires VersionByte(p.(nread := p.nread + 1), ch) == To(next) && DataKind(next.state) == NoMark
    ensures StepByte(p, ch) == StepOk(next, [], false)
  {
    HeaderByteIsRead(p, ch);
    hide StepByte, WF, FieldStartByte, HeadersAlmostDoneByte, FieldByte, ValueByte, ChunkByte, VersionByte;
  }

  predicate VersionStates(s: State) {
    s in {ReqHttpStart, ReqHttpH, ReqHttpHT, ReqHttpHTT, ReqHttpHTTP, ReqFirstHttpMajor, ReqHttpMajor,
          ReqFirstHttpMinor, ReqHttpMinor, ReqLineAlmostDone}
  }

  lemma VersionStep(p: Parser, minor: Byte, i: nat)
    requires WF(p) && UrlEnds(p.state) && IsMinor(minor) && i < 11 && p.nread + i < MAX_HEADER_SIZE
    ensures WF(AtVersion(p, minor, i))
    ensures StepByte(AtVersion(p, minor, i), VersionText(minor)[i]) == StepOk(AtVersion(p, minor, i + 1), [], false)
  {
    hide *;
    VersionLength(minor);
    if i == 0 {
      FirstVersionStep(p, minor);
    } else {
      VersionTable(p, minor, i);
      VersionMove(AtVersion(p, minor, i), VersionText(minor)[i], AtVersion(p, minor, i + 1));
    }
  }

  lemma VersionLength(minor: Byte)
    ensures |VersionText(minor)| == 11
  {}

  lemma FirstVersionStep(p: Parser, minor: Byte)
    requires WF(p) && UrlEnds(p.state) && IsMinor(minor) && p.nread < MAX_HEADER_SIZE
    ensures AtVersion(p, minor, 0) == p && StepByte(p, VersionText(minor)[0]) == StepOk(AtVersion(p, minor, 1), [], false)
  {
    hide WF, UrlEnds, StepByte;
    UrlEnd(p);
  }

  lemma VersionTable(p: Parser, minor: Byte, i: nat)
    requires WF(p) && UrlEnds(p.state) && IsMinor(minor) && 0 < i < 11 && p.nread + i < MAX_HEADER_SIZE
    ensures WF(AtVersion(p, minor, i)) && WF(AtVersion(p, minor, i + 1)) && VersionStates(AtVersion(p, minor, i).state)
    ensures DataKind(AtVersion(p, minor, i + 1).state) == NoMark && AtVersion(p, minor, i).nread == p.nread + i
    ensures VersionByte(AtVersion(p, minor, i).(nread := p.nread + i + 1), VersionText(minor)[i]) == To(AtVersion(p, minor, i + 1))
  {
    hide *;
    VersionFitsState(p, minor, i);
    if i <= 3 { VersionLetters(p, minor, i); } else if i <= 6 { VersionSlash(p, minor, i); } else { VersionEnd(p, minor, i); }
  }

  lemma VersionFitsState(p: Parser, minor: Byte, i: nat)
    requires WF(p) && UrlEnds(p.state) && IsMinor(minor) && 0 < i < 11 && p.nread + i < MAX_HEADER_SIZE
    ensures WF(AtVersion(p, minor, i)) && WF(AtVersion(p, minor, i + 1)) && VersionStates(AtVersion(p, minor, i).state)
    ensures DataKind(AtVersion(p, minor, i + 1).state) == NoMark && AtVersion(p, minor, i).nread == p.nread + i
  {}

  lemma VersionLetters(p: Parser, minor: Byte, i: nat)
    requires IsMinor(minor) && 0 < i <= 3
    ensures VersionByte(AtVersion(p, minor, i).(nread := p.nread + i + 1), VersionText(minor)[i]) == To(AtVersion(p, minor, i + 1))
  {}

  lemma VersionSlash(p: Parser, minor: Byte, i: nat)
    requires IsMinor(minor) && 3 < i <= 6
    ensures VersionByte(AtVersion(p, minor, i).(nread := p.nread + i + 1), VersionText(minor)[i]) == To(AtVersion(p, minor, i + 1))
  {}

  lemma VersionEnd(p: Parser, minor: Byte, i: nat)
    requires IsMinor(minor) && 6 < i < 11
    ensures VersionByte(AtVersion(p, minor, i).(nread := p.nread + i + 1), VersionText(minor)[i]) == To(AtVersion(p, minor, i + 1))
  {}

  lemma {:induction false} VersionIsRead(p: Parser, minor: Byte, i: nat)
    requires WF(p) && UrlEnds(p.state) && IsMinor(minor) && i <= 11 && p.nread + i <= MAX_HEADER_SIZE
    ensures RunsTo(p, VersionText(minor)[..i], AtVersion(p, minor, i), [])
  {
    hide StepByte;
    if i > 0 {
      hide Run;
      var text := VersionText(minor);
      VersionIsRead(p, minor, i - 1);
      VersionStep(p, minor, i - 1);
      RunsMore(p, text[..i - 1], AtVersion(p, minor, i - 1), [], text[i - 1], AtVersion(p, minor, i));
      assert text[..i - 1] + [text[i - 1]] == text[..i];
    }
  }

  // ---- The request line ----

  function RequestLine(m: Method, url: seq<Byte>, minor: Byte): seq<Byte> { MethodText(m) + url + VersionText(minor) }

  function AfterRequestLine(p: Parser, m: Method, url: seq<Byte>, minor: Byte): Parser
    requires IsMinor(minor)
  {
    AfterMethod(p, m).(state := HeaderFieldStart, nread := p.nread + |RequestLine(m, url, minor)|,
                       httpMajor := 1, httpMinor := Digit(minor))
  }

  /** A request line reports the URL, and leaves method and version in the parser. */
  lemma RequestLineIsRead(p: Parser, m: Method, url: seq<Byte>, minor: Byte)
    requires Idle(p) && m != CONNECT && UrlText(url) && IsMinor(minor) && p.nread + |RequestLine(m, url, minor)| <= MAX_HEADER_SIZE
    ensures WF(AfterRequestLine(p, m, url, minor))
    ensures Yields(p, RequestLine(m, url, minor), AfterRequestLine(p, m, url, minor), [Note(MessageBegin), Data(UrlData, url)])
  {
    hide Run, WF, JoinOnto, MethodText, MethodName;
    MethodIsRead(p, m);
    var q := AfterMethod(p, m);
    UrlEndsInUrl(UrlAfter(ReqSpacesBeforeUrl, url));
    MethodLength(m);
    UrlIsRead(q, url);
    var r := q.(state := UrlAfter(ReqSpacesBeforeUrl, url), nread := q.nread + |url|);
    VersionIsRead(r, minor, 11);
    var version := VersionText(minor);
    assert version[..11] == version;
    YieldsExactly(p, MethodText(m), q, [Note(MessageBegin)]);
    YieldsData(q, url, r, UrlData);
    YieldsExactly(r, version, AtVersion(r, minor, 11), []);
    YieldsAppend(p, MethodText(m), q, [Note(MessageBegin)], url, r, [Data(UrlData, url)]);
    YieldsAppend(p, MethodText(m) + url, r, [Note(MessageBegin)] + [Data(UrlData, url)], version, AtVersion(r, minor, 11), []);
    assert [Note(MessageBegin)] + [Data(UrlData, url)] + [] == [Note(MessageBegin), Data(UrlData, url)];
    assert AtVersion(r, minor, 11) == AfterRequestLine(p, m, url, minor);
    YieldsWF(p, RequestLine(m, url, minor), AfterRequestLine(p, m, url, minor), [Note(MessageBegin), Data(UrlData, url)]);
  }

  lemma UrlEndsInUrl(s: State)
    requires UrlEnds(s)
    ensures UrlState(s)
  {}

  // ---- One header line ----

  /** A header as it is sent: after the colon any spaces and tabs, and then the value. */
  datatype Header = Header(name: seq<Byte>, space: seq<Byte>, value: seq<Byte>)

  function LineOf(h: Header): seq<Byte> { h.name + [':'] + h.space + h.value + CRLF }

  /** What the parser takes the name for. */
  function KindOf(h: Header): HState { if h.name == [] then General else NameState(Lowered(h.name)) }

  /** Headers the parser reads to their end: a token as name, and a value that is empty or, as a length, a number. */
  predicate HeaderOk(h: Header) {
    && h.name != [] && AllTokens(h.name)
    && (forall i :: 0 <= i < |h.space| ==> h.space[i] == ' ' || h.space[i] == '\t')
    && (h.value != [] ==> ValueOk(h))
  }

  predicate ValueOk(h: Header) {
    && ValueText(h.value) && !KindOf(h).Upgrade?
    && (KindOf(h).ContentLength? ==> LengthText(h.value) && Decimal(h.value) <= MAX_DECIMAL)
  }

  /** What the value means; an empty one means nothing, whatever the name. */
  function StateAfter(h: Header): HState {
    if h.value == [] then General
    else if KindOf(h).ContentLength? then ContentLength
    else ValueMeaning(KindOf(h), Lowers(h.value))
  }

  function FlagsFor(flags: Flags, state: HState): Flags {
    match state
    case KeepAlive => flags.(keepAlive := true)
    case Close => flags.(close := true)
    case Chunked => flags.(chunked := true)
    case _ => flags
  }

  function LengthWith(length: nat, h: Header): nat {
    if h.value != [] && KindOf(h).ContentLength? then Decimal(h.value) else length
  }

  function AfterHeader(p: Parser, h: Header): Parser {
    p.(flags := FlagsFor(p.flags, StateAfter(h)), contentLength := LengthWith(p.contentLength, h), nread := p.nread + |LineOf(h)|)
  }

  lemma ColonByte(p: Parser)
    requires WF(p) && p.state.HeaderField? && p.nread < MAX_HEADER_SIZE
    ensures StepByte(p, ':') == StepOk(p.(state := HeaderValueDiscardWs, nread := p.nread + 1), [], false)
  {
    hide FieldStartByte, HeadersAlmostDoneByte, UrlByte, ValueByte, VersionByte, ChunkByte, FieldNameByte;
    CountKeeps(p);
  }

  lemma SpaceByte(p: Parser, ch: Byte)
    requires WF(p) && p.state.HeaderValueDiscardWs? && p.nread < MAX_HEADER_SIZE && (ch == ' ' || ch == '\t')
    ensures StepByte(p, ch) == StepOk(p.(nread := p.nread + 1), [], false)
  {
    hide FieldStartByte, HeadersAlmostDoneByte, UrlByte, ValueByte, VersionByte, ChunkByte, FieldByte;
    CountKeeps(p);
  }

  lemma {:induction false} SpaceIsSkipped(p: Parser, space: seq<Byte>)
    requires WF(p) && p.state.HeaderValueDiscardWs? && p.nread + |space| <= MAX_HEADER_SIZE
    requires forall i :: 0 <= i < |space| ==> space[i] == ' ' || space[i] == '\t'
    ensures RunsTo(p, space, p.(nread := p.nread + |space|), [])
    decreases |space|
  {
    hide StepByte;
    if space != [] {
      hide Run;
      var n := |space| - 1;
      SpaceIsSkipped(p, space[..n]);
      SpaceByte(p.(nread := p.nread + n), space[n]);
      RunsMore(p, space[..n], p.(nread := p.nread + n), [], space[n], p.(nread := p.nread + |space|));
      assert space[..n] + [space[n]] == space;
    }
  }

  lemma ValueCR(p: Parser)
    requires WF(p) && p.state.HeaderValue? && p.nread < MAX_HEADER_SIZE
    ensures StepByte(p, CR) == StepOk(p.(state := HeaderAlmostDone, nread := p.nread + 1), [], false)
  {
    hide FieldStartByte, HeadersAlmostDoneByte, UrlByte, VersionByte, ChunkByte, FieldByte;
    CountKeeps(p);
  }

  lemma ValueLF(p: Parser)
    requires WF(p) && p.state.HeaderAlmostDone? && p.nread < MAX_HEADER_SIZE
    ensures StepByte(p, LF) == StepOk(p.(state := HeaderValueLws, nread := p.nread + 1), [], false)
  {
    hide FieldStartByte, HeadersAlmostDoneByte, UrlByte, VersionByte, ChunkByte, FieldByte, ValueByte;
    CountKeeps(p);
  }

  lemma ValueEnd(p: Parser)
    requires WF(p) && p.state.HeaderValue? && p.nread + 2 <= MAX_HEADER_SIZE
    ensures RunsTo(p, CRLF, p.(state := HeaderValueLws, nread := p.nread + 2), [])
  {
    ValueCR(p);
    ValueLF(p.(state := HeaderAlmostDone, nread := p.nread + 1));
    TwoBytes(p, []);
  }

  /** The value of a header, a length or any other. */
  lemma PartValueIsRead(p: Parser, h: Header) returns (q: Parser)
    requires WF(p) && p.state.HeaderValueDiscardWs? && h.value != [] && ValueOk(h) && p.headerState == KindOf(h)
    requires p.nread + |h.value| <= MAX_HEADER_SIZE
    ensures WF(q) && Yields(p, h.value, q, [Data(ValueData, h.value)])
    ensures q == p.(state := HeaderValue, nread := p.nread + |h.value|, index := q.index,
                    headerState := StateAfter(h), contentLength := LengthWith(p.contentLength, h))
  {
    hide Run, WF, JoinOnto, Push, NameState, AllTokens, Lowered, LengthText, Decimal, ValueMeaning, ValueText;
    if KindOf(h).ContentLength? {
      ContentLengthIsRead(p, h.value);
    } else {
      ValueIsRead(p, h.value);
    }
    q := Run(p, h.value).outcome.p;
    YieldsData(p, h.value, q, ValueData);
    YieldsWF(p, h.value, q, [Data(ValueData, h.value)]);
  }

  /** The name, the colon and the spaces. */
  lemma PartNameIsRead(p: Parser, h: Header) returns (q: Parser)
    requires WF(p) && p.state.HeaderFieldStart? && HeaderOk(h) && p.nread + |h.name| + 1 + |h.space| <= MAX_HEADER_SIZE
    ensures WF(q) && Yields(p, h.name + [':'] + h.space, q, [Data(FieldData, h.name)])
    ensures q == p.(state := HeaderValueDiscardWs, nread := p.nread + |h.name| + 1 + |h.space|, index := q.index,
                    headerState := KindOf(h))
  {
    hide Run, WF, JoinOnto, Push, NameState, AllTokens, Lowered, LengthText, ValueText, StepByte;
    NameIsRead(p, h.name);
    var r := Run(p, h.name).outcome.p;
    YieldsData(p, h.name, r, FieldData);
    YieldsWF(p, h.name, r, [Data(FieldData, h.name)]);
    ColonByte(r);
    RunsByte(r, ':');
    var s := r.(state := HeaderValueDiscardWs, nread := r.nread + 1);
    YieldsExactly(r, [':'], s, []);
    YieldsWF(r, [':'], s, []);
    YieldsAppend(p, h.name, r, [Data(FieldData, h.name)], [':'], s, []);
    SpaceIsSkipped(s, h.space);
    q := s.(nread := s.nread + |h.space|);
    YieldsExactly(s, h.space, q, []);
    YieldsWF(s, h.space, q, []);
    YieldsAppend(p, h.name + [':'], s, [Data(FieldData, h.name)] + [], h.space, q, []);
    assert [Data(FieldData, h.name)] + [] + [] == [Data(FieldData, h.name)];
  }

  // ---- Between lines ----

  /** At the start of a line: of the first one, or of one after a header with a value or without. */
  predicate LineStart(p: Parser) {
    WF(p) && (p.state.HeaderFieldStart? || p.state.HeaderValueLws? || p.state.HeaderValueDiscardLws?)
  }

  /** After a header its flag is set by the first byte of the next line. */
  function Settled(p: Parser): Parser {
    if p.state.HeaderValueLws? then p.(state := HeaderFieldStart, flags := FlagsFor(p.flags, p.headerState))
    else if p.state.HeaderValueDiscardLws? then p.(state := HeaderFieldStart)
    else p
  }

  /** The first byte of the next line also reports a value that was empty. */
  function Owed(p: Parser): seq<Event> { if p.state.HeaderValueDiscardLws? then [Data(ValueData, [])] else [] }

  function After(es: seq<Event>, step: Step): Step {
    match step
    case StepOk(next, events, exit) => StepOk(next, es + events, exit)
    case StepFail(_) => step
  }

  lemma SettledStep(p: Parser, ch: Byte)
    requires LineStart(p) && ch != ' ' && ch != '\t' && p.nread < MAX_HEADER_SIZE
    ensures WF(Settled(p)) && StepByte(p, ch) == After(Owed(p), StepByte(Settled(p), ch))
  {
    hide *;
    SettledFits(p);
    if p.state.HeaderFieldStart? {
      NothingOwed(p, StepByte(p, ch));
    } else {
      HeaderByteIsRead(p, ch);
      HeaderByteIsRead(Settled(p), ch);
      SettledControl(p.(nread := p.nread + 1), ch);
    }
  }

  lemma NothingOwed(p: Parser, step: Step)
    requires !p.state.HeaderValueDiscardLws?
    ensures After(Owed(p), step) == step
  {
    if step.StepOk? { assert [] + step.events == step.events; }
  }

  lemma SettledFits(p: Parser)
    requires LineStart(p)
    ensures WF(p) && WF(Settled(p)) && ParsingHeader(p.state) && ParsingHeader(Settled(p).state) && Settled(p).nread == p.nread
    ensures Settled(p).state.HeaderFieldStart? && (p.state.HeaderFieldStart? ==> Settled(p) == p)
    ensures p.state.HeaderFieldStart? || p.state.HeaderValueLws? || p.state.HeaderValueDiscardLws?
    ensures Settled(p.(nread := p.nread + 1)) == Settled(p).(nread := p.nread + 1) && Owed(p.(nread := p.nread + 1)) == Owed(p)
  {}

  lemma SettledControl(p: Parser, ch: Byte)
    requires Counted(p) && (p.state.HeaderValueLws? || p.state.HeaderValueDiscardLws?) && ch != ' ' && ch != '\t' && Counted(Settled(p))
    ensures StepOf(Control(p, ch), ch) == After(Owed(p), StepOf(Control(Settled(p), ch), ch))
  {
    hide *;
    if p.state.HeaderValueLws? {
      ValueIsSettled(p, ch);
      NothingOwed(p, StepOf(Control(p, ch), ch));
    } else {
      EmptyIsOwed(p, ch);
    }
  }

  lemma ValueIsSettled(p: Parser, ch: Byte)
    requires Counted(p) && p.state.HeaderValueLws? && ch != ' ' && ch != '\t' && Counted(Settled(p))
    ensures Control(p, ch) == Control(Settled(p), ch)
  {
    hide FieldStartByte, HeadersAlmostDoneByte, UrlByte, VersionByte, ChunkByte, FieldByte, ValueByte, WF;
  }

  lemma EmptyIsOwed(p: Parser, ch: Byte)
    requires Counted(p) && p.state.HeaderValueDiscardLws? && ch != ' ' && ch != '\t' && Counted(Settled(p))
    ensures StepOf(Control(p, ch), ch) == After(Owed(p), StepOf(Control(Settled(p), ch), ch))
  {
    hide HeadersAlmostDoneByte, UrlByte, VersionByte, ChunkByte, FieldByte, ValueByte, WF;
    EmptyControl(p, ch);
    FieldStartHasValue(Settled(p), ch);
    hide FieldStartByte, Control, DiscardLwsByte, Settled;
    var ctl := Control(Settled(p), ch);
    if ctl.Go? { EventsWithEmpty(ctl, ch); }
  }

  lemma EmptyControl(p: Parser, ch: Byte)
    requires Counted(p) && p.state.HeaderValueDiscardLws? && ch != ' ' && ch != '\t' && Counted(Settled(p))
    ensures var ctl := Control(Settled(p), ch); Control(p, ch) == if ctl.Fail? then ctl else ctl.(emptyValue := true)
  {
    hide FieldStartByte, HeadersAlmostDoneByte, UrlByte, VersionByte, ChunkByte, FieldByte, ValueByte, WF;
  }

  lemma FieldStartHasValue(p: Parser, ch: Byte)
    requires Counted(p) && p.state.HeaderFieldStart?
    ensures Control(p, ch).Go? ==> !Control(p, ch).emptyValue
  {
    hide UrlByte, VersionByte, ChunkByte, FieldByte, ValueByte, WF, Token;
  }

  lemma EventsWithEmpty(ctl: Ctl, ch: Byte)
    requires ctl.Go? && !ctl.emptyValue
    ensures ControlEvents(ctl.(emptyValue := true), ch) == [Data(ValueData, [])] + ControlEvents(ctl, ch)
  {
    assert [] + Notes(ctl.notes) + ByteOf(ctl.next.state, ch) == Notes(ctl.notes) + ByteOf(ctl.next.state, ch);
    assert [Data(ValueData, [])] + Notes(ctl.notes) + ByteOf(ctl.next.state, ch)
        == [Data(ValueData, [])] + (Notes(ctl.notes) + ByteOf(ctl.next.state, ch));
  }

  lemma SettledRun(p: Parser, ch: Byte, rest: seq<Byte>)
    requires LineStart(p) && ch != ' ' && ch != '\t' && p.nread < MAX_HEADER_SIZE
    requires WF(Settled(p)) && StepByte(Settled(p), ch).StepOk? && !StepByte(Settled(p), ch).exit
    ensures Run(p, [ch] + rest).outcome == Run(Settled(p), [ch] + rest).outcome
    ensures Run(p, [ch] + rest).events == Owed(p) + Run(Settled(p), [ch] + rest).events
  {
    hide StepByte, Run, Settled, Owed;
    SettledStep(p, ch);
    var q := Settled(p);
    RunsByte(p, ch);
    RunsByte(q, ch);
    RunAppend(p, [ch], rest);
    RunAppend(q, [ch], rest);
    var step, later := StepByte(q, ch), Run(StepByte(q, ch).next, rest).events;
    assert (Owed(p) + step.events) + later == Owed(p) + (step.events + later);
  }

  lemma SettledYields(p: Parser, ch: Byte, rest: seq<Byte>, q: Parser, es: seq<Event>)
    requires LineStart(p) && ch != ' ' && ch != '\t' && p.nread < MAX_HEADER_SIZE
    requires WF(Settled(p)) && StepByte(Settled(p), ch).StepOk? && !StepByte(Settled(p), ch).exit
    requires Yields(Settled(p), [ch] + rest, q, es)
    ensures Yields(p, [ch] + rest, q, Owed(p) + es)
  {
    hide StepByte, Run, Settled, JoinOnto, Owed, WF;
    SettledFits(p);
    SettledRun(p, ch, rest);
    var later := Run(Settled(p), [ch] + rest).events;
    forall js ensures JoinOnto(js, Run(p, [ch] + rest).events) == JoinOnto(js, Owed(p) + es) {
      JoinSplit(js, Owed(p), later);
      JoinSplit(js, Owed(p), es);
    }
  }

  /** What a header reports: its field and its value. */
  function Pair(h: Header): seq<Event> { [Data(FieldData, h.name), Data(ValueData, h.value)] }

  /** What is reported of it by the end of its line. */
  function Early(h: Header): seq<Event> { if h.value == [] then [Data(FieldData, h.name)] else Pair(h) }

  /** A header line: field and value are reported, and flags and length are what it says. */
  lemma LineIsRead(p: Parser, h: Header) returns (q: Parser)
    requires WF(p) && p.state.HeaderFieldStart? && HeaderOk(h) && p.nread + |LineOf(h)| <= MAX_HEADER_SIZE
    ensures LineStart(q) && Yields(p, LineOf(h), q, Early(h)) && Early(h) + Owed(q) == Pair(h)
    ensures Settled(q) == AfterHeader(p, h).(index := q.index, headerState := q.headerState)
  {
    var r := PartNameIsRead(p, h);
    if h.value == [] {
      q := EmptyEnds(p, h, r);
    } else {
      q := ValueEnds(p, h, r);
    }
  }

  /** The line after its name, when there is a value. */
  lemma ValueEnds(p: Parser, h: Header, r: Parser) returns (q: Parser)
    requires WF(r) && p.state.HeaderFieldStart? && HeaderOk(h) && h.value != [] && p.nread + |LineOf(h)| <= MAX_HEADER_SIZE
    requires r == p.(state := HeaderValueDiscardWs, nread := p.nread + |h.name| + 1 + |h.space|, index := r.index, headerState := KindOf(h))
    requires Yields(p, h.name + [':'] + h.space, r, [Data(FieldData, h.name)])
    ensures LineStart(q) && Yields(p, LineOf(h), q, Early(h)) && Early(h) + Owed(q) == Pair(h)
    ensures Settled(q) == AfterHeader(p, h).(index := q.index, headerState := q.headerState)
  {
    hide Run, WF, JoinOnto, ValueOk, KindOf, StateAfter, Decimal, AllTokens;
    var s := PartValueIsRead(r, h);
    ValueEnd(s);
    q := s.(state := HeaderValueLws, nread := s.nread + 2);
    YieldsExactly(s, CRLF, q, []);
    YieldsWF(s, CRLF, q, []);
    var front, es, fs := h.name + [':'] + h.space, [Data(FieldData, h.name)], [Data(ValueData, h.value)];
    YieldsAppend(p, front, r, es, h.value, s, fs);
    YieldsAppend(p, front + h.value, s, es + fs, CRLF, q, []);
    assert es + fs + [] == Early(h) == Pair(h) == Pair(h) + [];
  }

  /** The line after its name, when there is none: the value is reported with the next byte. */
  lemma EmptyEnds(p: Parser, h: Header, r: Parser) returns (q: Parser)
    requires WF(r) && p.state.HeaderFieldStart? && h.value == [] && p.nread + |LineOf(h)| <= MAX_HEADER_SIZE
    requires r == p.(state := HeaderValueDiscardWs, nread := p.nread + |h.name| + 1 + |h.space|, index := r.index, headerState := KindOf(h))
    requires Yields(p, h.name + [':'] + h.space, r, [Data(FieldData, h.name)])
    ensures LineStart(q) && Yields(p, LineOf(h), q, Early(h)) && Early(h) + Owed(q) == Pair(h)
    ensures Settled(q) == AfterHeader(p, h).(index := q.index, headerState := q.headerState)
  {
    hide Run, WF, JoinOnto, KindOf, Decimal;
    EmptyEnd(r);
    q := r.(state := HeaderValueDiscardLws, nread := r.nread + 2);
    YieldsExactly(r, CRLF, q, []);
    YieldsWF(r, CRLF, q, []);
    var front := h.name + [':'] + h.space;
    YieldsAppend(p, front, r, [Data(FieldData, h.name)], CRLF, q, []);
    assert front + CRLF == LineOf(h) && [Data(FieldData, h.name)] + [] == Early(h);
  }

  lemma EmptyCR(p: Parser)
    requires WF(p) && p.state.HeaderValueDiscardWs? && p.nread < MAX_HEADER_SIZE
    ensures StepByte(p, CR) == StepOk(p.(state := HeaderValueDiscardWsAlmostDone, nread := p.nread + 1), [], false)
  {
    hide FieldStartByte, HeadersAlmostDoneByte, UrlByte, VersionByte, ChunkByte, FieldByte, ValueByte, ValueStartByte;
    CountKeeps(p);
  }

  lemma EmptyLF(p: Parser)
    requires WF(p) && p.state.HeaderValueDiscardWsAlmostDone? && p.nread < MAX_HEADER_SIZE
    ensures StepByte(p, LF) == StepOk(p.(state := HeaderValueDiscardLws, nread := p.nread + 1), [], false)
  {
    hide FieldStartByte, HeadersAlmostDoneByte, UrlByte, VersionByte, ChunkByte, FieldByte, ValueByte, ValueStartByte;
    CountKeeps(p);
  }

  lemma EmptyEnd(p: Parser)
    requires WF(p) && p.state.HeaderValueDiscardWs? && p.nread + 2 <= MAX_HEADER_SIZE
    ensures RunsTo(p, CRLF, p.(state := HeaderValueDiscardLws, nread := p.nread + 2), [])
  {
    hide StepByte, Run;
    EmptyCR(p);
    EmptyLF(p.(state := HeaderValueDiscardWsAlmostDone, nread := p.nread + 1));
    TwoBytes(p, []);
  }

  // ---- Any number of header lines ----

  predicate HeadersOk(hs: seq<Header>) { forall i :: 0 <= i < |hs| ==> HeaderOk(hs[i]) }

  function Lines(hs: seq<Header>): seq<Byte> { if hs == [] then [] else Lines(hs[..|hs| - 1]) + LineOf(hs[|hs| - 1]) }

  function HeaderEvents(hs: seq<Header>): seq<Event> {
    if hs == [] then []
    else
      var h := hs[|hs| - 1];
      HeaderEvents(hs[..|hs| - 1]) + Pair(h)
  }

  /** What is reported by the end of the last line. */
  function EarlyEvents(hs: seq<Header>): seq<Event> {
    if hs == [] then [] else HeaderEvents(hs[..|hs| - 1]) + Early(hs[|hs| - 1])
  }

  function FlagsAfter(flags: Flags, hs: seq<Header>): Flags {
    if hs == [] then flags else FlagsFor(FlagsAfter(flags, hs[..|hs| - 1]), StateAfter(hs[|hs| - 1]))
  }

  function LengthAfter(length: nat, hs: seq<Header>): nat {
    if hs == [] then length else LengthWith(LengthAfter(length, hs[..|hs| - 1]), hs[|hs| - 1])
  }

  lemma AllNamed(hs: seq<Header>)
    requires HeadersOk(hs)
    ensures forall i :: 0 <= i < |hs| ==> hs[i].name != []
  {}

  function AfterHeaders(p: Parser, hs: seq<Header>): Parser {
    p.(flags := FlagsAfter(p.flags, hs), contentLength := LengthAfter(p.contentLength, hs), nread := p.nread + |Lines(hs)|)
  }

  /** Header lines: all fields and values are reported in order, and flags and length are what they say together. */
  lemma {:induction false} HeadersAreRead(p: Parser, hs: seq<Header>) returns (q: Parser)
    requires WF(p) && p.state.HeaderFieldStart? && HeadersOk(hs) && p.nread + |Lines(hs)| <= MAX_HEADER_SIZE
    ensures LineStart(q) && Yields(p, Lines(hs), q, EarlyEvents(hs)) && EarlyEvents(hs) + Owed(q) == HeaderEvents(hs)
    ensures Settled(q) == AfterHeaders(p, hs).(index := q.index, headerState := q.headerState)
    decreases |hs|
  {
    hide WF, JoinOnto, HeaderOk, KindOf, StateAfter, LineOf, LengthWith, FlagsFor;
    if hs == [] {
      q := p;
      assert Yields(p, [], p, []);
    } else {
      hide Run, Settled, Owed, Yields, Early, Pair, EarlyEvents, HeaderEvents;
      var init, h := hs[..|hs| - 1], hs[|hs| - 1];
      assert HeaderOk(h) && HeadersOk(init);
      var r := HeadersAreRead(p, init);
      q := NextLineIsRead(r, h);
      LineMore(p, hs, r, q);
    }
  }

  /** Joining what the lines before the last one and the last one report. */
  lemma LineMore(p: Parser, hs: seq<Header>, r: Parser, q: Parser)
    requires hs != []
    requires var init, h := hs[..|hs| - 1], hs[|hs| - 1];
             && Yields(p, Lines(init), r, EarlyEvents(init)) && EarlyEvents(init) + Owed(r) == HeaderEvents(init)
             && Yields(r, LineOf(h), q, Owed(r) + Early(h)) && Early(h) + Owed(q) == Pair(h)
    ensures Yields(p, Lines(hs), q, EarlyEvents(hs)) && EarlyEvents(hs) + Owed(q) == HeaderEvents(hs)
  {
    var init, h := hs[..|hs| - 1], hs[|hs| - 1];
    EventsOfLast(hs);
    hide *;
    YieldsAppend(p, Lines(init), r, EarlyEvents(init), LineOf(h), q, Owed(r) + Early(h));
    assert EarlyEvents(init) + (Owed(r) + Early(h)) == (EarlyEvents(init) + Owed(r)) + Early(h);
    assert (HeaderEvents(init) + Early(h)) + Owed(q) == HeaderEvents(init) + (Early(h) + Owed(q));
  }

  lemma EventsOfLast(hs: seq<Header>)
    requires hs != []
    ensures var init, h := hs[..|hs| - 1], hs[|hs| - 1];
            && Lines(hs) == Lines(init) + LineOf(h) && HeaderEvents(hs) == HeaderEvents(init) + Pair(h)
            && EarlyEvents(hs) == HeaderEvents(init) + Early(h)
  {
    hide LineOf, Pair, Early;
  }

  lemma NextLineIsRead(p: Parser, h: Header) returns (q: Parser)
    requires LineStart(p) && HeaderOk(h) && p.nread + |LineOf(h)| <= MAX_HEADER_SIZE
    ensures LineStart(q) && Yields(p, LineOf(h), q, Owed(p) + Early(h)) && Early(h) + Owed(q) == Pair(h)
    ensures Settled(q) == AfterHeader(Settled(p), h).(index := q.index, headerState := q.headerState)
  {
    hide *;
    var s := Settled(p);
    LineBegins(h);
    SettledFits(p);
    FirstNameByte(s, h.name[0]);
    q := LineIsRead(s, h);
    SettledYields(p, h.name[0], LineOf(h)[1..], q, Early(h));
  }

  lemma LineBegins(h: Header)
    requires HeaderOk(h)
    ensures h.name != [] && IsTchar(h.name[0]) && Token(h.name[0]) != NUL && h.name[0] != ' ' && h.name[0] != '\t'
    ensures LineOf(h) == [h.name[0]] + LineOf(h)[1..]
  {
    hide KindOf, Token, ValueText, LengthText, Decimal;
    TokenIsTchar(h.name[0]);
    TokenIsNoSpace(h.name[0]);
    assert LineOf(h)[0] == h.name[0];
  }

  lemma TokenIsNoSpace(ch: Byte)
    requires IsTchar(ch)
    ensures ch != ' ' && ch != '\t'
  {}
}

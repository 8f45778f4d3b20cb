/** What the headers of a request say, in terms of their names and values alone. */
module HttpMeaning {
  import opened Bytes
  import Decimals
  import opened HttpControl
  import opened HttpRun
  import opened HttpFraming
  import opened HttpHeaders
  import opened HttpRequest
  import opened HttpParser
  import opened HttpMessages

  // ---- Values in any letter case ----

  /** As the value of a connection header or of Transfer-Encoding is compared: a letter of the word, or its hyphen. */
  lemma SameLetterCase(c: Byte, w: char)
    requires c != CR && (w == '-' || 'a' <= w <= 'z')
    ensures LowChar(c) == w <==> LowerCase(c) == w
  {}

  lemma {:induction false} TrimsAlike(v: seq<Byte>)
    ensures var n := |Trimmed(v)|; n <= |v| && Trimmed(v) == v[..n] && Trimmed(Lowers(v)) == Lowers(v[..n])
  {
    if v != [] && v[|v| - 1] == ' ' {
      assert Lowers(v)[..|v| - 1] == Lowers(v[..|v| - 1]);
      TrimsAlike(v[..|v| - 1]);
    } else if v != [] {
      assert Lowers(v)[|v| - 1] != ' ';
      assert v[..|v|] == v;
    }
  }

  predicate PlainWord(word: string) { forall i :: 0 <= i < |word| ==> word[i] == '-' || 'a' <= word[i] <= 'z' }

  /** The value is the word in any letter case, with spaces after it. */
  predicate IsWord(v: seq<Byte>, word: string) { Lowered(Trimmed(v)) == word }

  lemma WordIsMatched(v: seq<Byte>, word: string)
    requires CR !in v && PlainWord(word)
    ensures Trimmed(Lowers(v)) == word <==> IsWord(v, word)
  {
    TrimsAlike(v);
    var t := v[..|Trimmed(v)|];
    hide Trimmed, LowChar, LowerCase;
    forall i | 0 <= i < |t| && i < |word| ensures Lowers(t)[i] == word[i] <==> Lowered(t)[i] == word[i] {
      assert t[i] in v;
      SameLetterCase(t[i], word[i]);
    }
    SameWhen(Lowers(t), Lowered(t), word);
  }

  lemma SameWhen(a: string, b: string, word: string)
    requires |a| == |b| && forall i :: 0 <= i < |a| && i < |word| ==> (a[i] == word[i] <==> b[i] == word[i])
    ensures a == word <==> b == word
  {}

  // ---- Flags and length ----

  /** Some header has one of these names and this word as its value. */
  predicate Says(hs: seq<Header>, names: set<string>, word: string) { exists i :: 0 <= i < |hs| && SaysIt(hs[i], names, word) }

  predicate SaysIt(h: Header, names: set<string>, word: string) { Lowered(h.name) in names && IsWord(h.value, word) }

  const CODINGS := {"transfer-encoding"}
  const CONNECTIONS := {"connection", "proxy-connection"}

  lemma HeaderSays(h: Header)
    requires HeaderOk(h)
    ensures StateAfter(h) == Chunked <==> SaysIt(h, CODINGS, "chunked")
    ensures StateAfter(h) == KeepAlive <==> SaysIt(h, CONNECTIONS, "keep-alive")
    ensures StateAfter(h) == Close <==> SaysIt(h, CONNECTIONS, "close")
  {
    hide NameState, ValueMeaning, AllTokens, Trimmed, Lowered, Lowers, LengthText, Decimal;
    NamesRecognised(Lowered(h.name));
    if h.value == [] {
      NothingSaid();
    } else {
      WordIsMatched(h.value, "chunked");
      WordIsMatched(h.value, "keep-alive");
      WordIsMatched(h.value, "close");
      ValuesRecognised(KindOf(h), Lowers(h.value));
    }
  }

  lemma NothingSaid()
    ensures Lowered(Trimmed([])) == ""
  {}

  /** After headers each flag is set exactly when some header says so. */
  lemma {:induction false} FlagsSay(flags: Flags, hs: seq<Header>)
    requires HeadersOk(hs)
    ensures var f := FlagsAfter(flags, hs);
            && (f.chunked <==> flags.chunked || Says(hs, CODINGS, "chunked"))
            && (f.keepAlive <==> flags.keepAlive || Says(hs, CONNECTIONS, "keep-alive"))
            && (f.close <==> flags.close || Says(hs, CONNECTIONS, "close"))
  {
    hide HeaderOk, StateAfter, SaysIt, CODINGS, CONNECTIONS;
    if hs != [] {
      var init, h := hs[..|hs| - 1], hs[|hs| - 1];
      FlagsSay(flags, init);
      HeaderSays(h);
      SaysLast(hs, CODINGS, "chunked");
      SaysLast(hs, CONNECTIONS, "keep-alive");
      SaysLast(hs, CONNECTIONS, "close");
      hide Says;
    }
  }

  lemma SaysLast(hs: seq<Header>, names: set<string>, word: string)
    requires hs != []
    ensures Says(hs, names, word) <==> Says(hs[..|hs| - 1], names, word) || SaysIt(hs[|hs| - 1], names, word)
  {
    hide SaysIt;
    var init := hs[..|hs| - 1];
    if Says(hs, names, word) {
      var i :| 0 <= i < |hs| && SaysIt(hs[i], names, word);
      if i < |init| { assert SaysIt(init[i], names, word); }
    }
    if Says(init, names, word) {
      var i :| 0 <= i < |init| && SaysIt(init[i], names, word);
      assert SaysIt(hs[i], names, word);
    }
  }

  predicate IsLength(h: Header) { h.value != [] && Lowered(h.name) == "content-length" }

  /** After headers the length is that of the last Content-Length with a value, or what it was. */
  lemma {:induction false} LengthSays(length: nat, hs: seq<Header>) returns (i: int)
    requires HeadersOk(hs)
    ensures -1 <= i < |hs| && forall j :: i < j < |hs| ==> !IsLength(hs[j])
    ensures i == -1 ==> LengthAfter(length, hs) == length
    ensures i >= 0 ==> IsLength(hs[i]) && LengthAfter(length, hs) == Decimal(hs[i].value)
  {
    hide *;
    if hs == [] {
      i := -1;
      NoHeaders(length);
    } else {
      var n := |hs| - 1;
      LengthOfLast(length, hs);
      if IsLength(hs[n]) {
        i := n;
      } else {
        HeadersOkBefore(hs);
        i := LengthSays(length, hs[..n]);
      }
    }
  }

  lemma NoHeaders(length: nat)
    ensures LengthAfter(length, []) == length
  {}

  lemma HeadersOkBefore(hs: seq<Header>)
    requires HeadersOk(hs) && hs != []
    ensures HeadersOk(hs[..|hs| - 1])
  {
    hide HeaderOk;
  }

  lemma LengthOfLast(length: nat, hs: seq<Header>)
    requires HeadersOk(hs) && hs != []
    ensures var n := |hs| - 1;
            LengthAfter(length, hs) == if IsLength(hs[n]) then Decimal(hs[n].value) else LengthAfter(length, hs[..n])
  {
    hide NameState, Lowered, Decimal;
    var h := hs[|hs| - 1];
    assert HeaderOk(h);
    NamesRecognised(Lowered(h.name));
  }

  /** The connection stays open exactly when HTTP/1.0 asks for it, or HTTP/1.1 does not ask for the opposite. */
  lemma KeepsAliveIff(r: Request)
    requires RequestOk(r)
    ensures var hs := r.headers + TrailersOf(r.payload);
            KeepsAlive(r) <==> if r.minor == '0' then Says(hs, CONNECTIONS, "keep-alive") else !Says(hs, CONNECTIONS, "close")
  {
    var trailers := TrailersOf(r.payload);
    OkParts(r);
    FlagsSay(NO_FLAGS, r.headers);
    FlagsSay(FlagsOf(r).(trailing := true), trailers);
    hide Says, FlagsAfter, HeadersOk, RequestOk;
    SaysEither(r.headers, trailers, CONNECTIONS, "keep-alive");
    SaysEither(r.headers, trailers, CONNECTIONS, "close");
    NothingSays(CONNECTIONS, "keep-alive");
    NothingSays(CONNECTIONS, "close");
  }

  lemma NothingSays(names: set<string>, word: string)
    ensures !Says([], names, word)
  {}

  lemma SaysEither(a: seq<Header>, b: seq<Header>, names: set<string>, word: string)
    ensures Says(a + b, names, word) <==> Says(a, names, word) || Says(b, names, word)
  {
    hide SaysIt;
    var c := a + b;
    if Says(c, names, word) {
      var i :| 0 <= i < |c| && SaysIt(c[i], names, word);
      if i < |a| { assert c[i] == a[i]; } else { assert c[i] == b[i - |a|]; }
    }
    if Says(a, names, word) {
      var i :| 0 <= i < |a| && SaysIt(a[i], names, word);
      assert c[i] == a[i];
    }
    if Says(b, names, word) {
      var i :| 0 <= i < |b| && SaysIt(b[i], names, word);
      assert c[|a| + i] == b[i];
    }
  }

  // ---- Numbers as they are written ----

  /** A length in decimal notation is read as that length. */
  lemma {:induction false} WrittenLengthIsRead(n: nat)
    ensures LengthText(Decimals.Text(n)) && Decimal(Decimals.Text(n)) == n
  {
    var text := Decimals.Text(n);
    DigitsAreNum(text);
    if n >= 10 {
      WrittenLengthIsRead(n / 10);
      assert text[..|text| - 1] == Decimals.Text(n / 10);
    } else {
      assert text[..0] == [] && Decimal([]) == 0;
    }
  }

  lemma DigitsAreNum(text: seq<Byte>)
    requires Decimals.AllDigits(text)
    ensures forall i :: 0 <= i < |text| ==> IsNum(text[i])
  {
    forall i | 0 <= i < |text| ensures IsNum(text[i]) { assert Decimals.IsDigit(text[i]); }
  }

  const HEX := "0123456789abcdef"

  /** Hexadecimal notation. */
  function Hex(n: nat): (r: string)
    ensures r != ""
  {
    if n < 16 then [HEX[n]] else Hex(n / 16) + [HEX[n % 16]]
  }

  lemma HexDigitIsRead(c: Byte, d: nat)
    requires d < 16 && LowerCase(c) == HEX[d]
    ensures Unhex(c) == d
  {
    if d < 10 { assert HEX[d] == '0' + d as char; } else { assert HEX[d] == 'a' + (d - 10) as char; }
  }

  /** A size in hexadecimal notation, in any letter case, is read as that size (section 4.1 of RFC 7230). */
  lemma {:induction false} WrittenSizeIsRead(n: nat, text: seq<Byte>)
    requires Lowered(text) == Hex(n)
    ensures SizeText(text) && SizeValue(text) == n
    decreases n
  {
    var k := |text| - 1;
    assert |text| == |Hex(n)| && LowerCase(text[k]) == Hex(n)[k];
    HexDigitIsRead(text[k], n % 16);
    hide Unhex, HEX, LowerCase;
    if n >= 16 {
      assert Lowered(text[..k]) == Hex(n)[..k] == Hex(n / 16);
      WrittenSizeIsRead(n / 16, text[..k]);
      SizeOfLast(text);
    }
  }

  lemma SizeOfLast(text: seq<Byte>)
    requires |text| > 1 && SizeText(text[..|text| - 1]) && Unhex(text[|text| - 1]) != -1
    ensures SizeText(text) && SizeValue(text) == 16 * SizeValue(text[..|text| - 1]) + Unhex(text[|text| - 1])
  {
    hide Unhex;
    var init := text[..|text| - 1];
    forall i | 0 <= i < |text| ensures Unhex(text[i]) != -1 { if i < |init| { assert Unhex(init[i]) != -1; } }
  }

  // ---- A request with a body, as text ----

  /** A header that says nothing of the framing, with a value. */
  predicate FieldOk(field: (Bytes, Bytes)) {
    && field.0 != [] && AllTokens(field.0) && ValueText(field.1)
    && Lowered(field.0) !in {"content-length", "transfer-encoding", "connection", "proxy-connection", "upgrade"}
  }

  function FieldLines(fields: seq<(Bytes, Bytes)>): seq<Byte> {
    if fields == [] then []
    else FieldLines(fields[..|fields| - 1]) + (fields[|fields| - 1].0 + ": " + fields[|fields| - 1].1 + "\r\n")
  }

  function HeadText(m: Method, url: seq<Byte>, fields: seq<(Bytes, Bytes)>, size: nat): seq<Byte> {
    NamesAreBytes(m);
    MethodName(m) + " " + url + " HTTP/1.1\r\n" + FieldLines(fields) + "Content-Length: " + Decimals.Text(size) + "\r\n\r\n"
  }

  const LENGTH_NAME: Bytes := "Content-Length"

  function HeadersOf(fields: seq<(Bytes, Bytes)>): seq<Header> {
    if fields == [] then [] else HeadersOf(fields[..|fields| - 1]) + [Header(fields[|fields| - 1].0, " ", fields[|fields| - 1].1)]
  }

  function LengthHeader(size: nat): Header { Header(LENGTH_NAME, " ", Decimals.Text(size)) }

  function WithBody(m: Method, url: seq<Byte>, fields: seq<(Bytes, Bytes)>, body: seq<Byte>): Request {
    Request(m, url, '1', HeadersOf(fields) + [LengthHeader(|body|)], Sized(body))
  }

  lemma {:induction false} FieldsAreHeaders(fields: seq<(Bytes, Bytes)>)
    requires forall i :: 0 <= i < |fields| ==> FieldOk(fields[i])
    ensures var hs := HeadersOf(fields);
            && |hs| == |fields| && HeadersOk(hs) && Lines(hs) == FieldLines(fields) && Filled(hs) == fields
            && forall i :: 0 <= i < |hs| ==> hs[i].name == fields[i].0
  {
    hide FieldOk, HeaderOk;
    if fields != [] {
      var init, field := fields[..|fields| - 1], fields[|fields| - 1];
      FieldsAreHeaders(init);
      FieldIsHeader(field);
      assert fields == init + [field];
    }
  }

  lemma FieldIsHeader(field: (Bytes, Bytes))
    requires FieldOk(field)
    ensures var h := Header(field.0, " ", field.1); HeaderOk(h) && h.value != [] && LineOf(h) == field.0 + ": " + field.1 + "\r\n"
  {
    hide NameState, Lowered, LengthText, Decimal, AllTokens;
    NamesRecognised(Lowered(field.0));
    assert ": " == [':'] + " " && CRLF == "\r\n";
  }

  lemma LengthHeaderIsOk(size: nat)
    requires size <= MAX_DECIMAL
    ensures var h := LengthHeader(size);
            && HeaderOk(h) && IsLength(h) && Decimal(h.value) == size && !Says([h], CODINGS, "chunked") && !Says([h], CONNECTIONS, "close")
            && LineOf(h) == "Content-Length: " + Decimals.Text(size) + "\r\n"
  {
    assert Lowered(LENGTH_NAME) == "content-length" && AllTokens(LENGTH_NAME);
    hide NameState, Lowered, LengthText, Decimal, ValueText, AllTokens;
    WrittenLengthIsRead(size);
    NamesRecognised("content-length");
    NumberIsText(Decimals.Text(size));
    hide NameState, Lowered, LengthText, Decimal, ValueText, AllTokens, LineOf, LENGTH_NAME;
    LengthLine(Decimals.Text(size));
  }

  lemma LengthLine(text: seq<Byte>)
    ensures LineOf(Header(LENGTH_NAME, " ", text)) == "Content-Length: " + text + "\r\n"
  {
    assert "Content-Length: " == LENGTH_NAME + [':'] + " " && CRLF == "\r\n";
  }

  lemma NumberIsText(text: seq<Byte>)
    requires text != [] && Decimals.AllDigits(text)
    ensures ValueText(text)
  {
    assert forall i :: 0 <= i < |text| ==> Decimals.IsDigit(text[i]);
  }

  lemma NoFraming(fields: seq<(Bytes, Bytes)>)
    requires forall i :: 0 <= i < |fields| ==> FieldOk(fields[i])
    ensures !Says(HeadersOf(fields), CODINGS, "chunked") && !Says(HeadersOf(fields), CONNECTIONS, "close")
  {
    FieldsAreHeaders(fields);
    var hs := HeadersOf(fields);
    forall i | 0 <= i < |hs| ensures Lowered(hs[i].name) !in CODINGS + CONNECTIONS { PlainName(fields[i]); }
    hide *;
    OthersSayNothing(hs, CODINGS + CONNECTIONS, CODINGS, "chunked");
    OthersSayNothing(hs, CODINGS + CONNECTIONS, CONNECTIONS, "close");
  }

  lemma PlainName(field: (Bytes, Bytes))
    requires FieldOk(field)
    ensures Lowered(field.0) !in CODINGS + CONNECTIONS
  {
    hide AllTokens, ValueText;
  }

  lemma OthersSayNothing(hs: seq<Header>, all: set<string>, names: set<string>, word: string)
    requires names <= all && forall i :: 0 <= i < |hs| ==> Lowered(hs[i].name) !in all
    ensures !Says(hs, names, word)
  {
    hide Lowered, IsWord;
  }

  lemma WithBodyIsOk(m: Method, url: seq<Byte>, fields: seq<(Bytes, Bytes)>, body: seq<Byte>)
    requires m != CONNECT && UrlText(url) && |body| <= MAX_DECIMAL && forall i :: 0 <= i < |fields| ==> FieldOk(fields[i])
    ensures RequestOk(WithBody(m, url, fields, body)) && KeepsAlive(WithBody(m, url, fields, body))
  {
    var front, h := HeadersOf(fields), LengthHeader(|body|);
    FieldsAreHeaders(fields);
    LengthHeaderIsOk(|body|);
    NoFraming(fields);
    hide *;
    AllHeadersOk(front, h);
    FramingOf(front, h, |body|);
    WithBodyFits(m, url, fields, body);
  }

  lemma AllHeadersOk(front: seq<Header>, h: Header)
    requires HeadersOk(front) && HeaderOk(h)
    ensures HeadersOk(front + [h])
  {
    hide HeaderOk;
  }

  lemma FramingOf(front: seq<Header>, h: Header, size: nat)
    requires HeadersOk(front + [h]) && IsLength(h) && Decimal(h.value) == size
    requires !Says(front, CODINGS, "chunked") && !Says(front, CONNECTIONS, "close")
    requires !Says([h], CODINGS, "chunked") && !Says([h], CONNECTIONS, "close")
    ensures var hs := front + [h]; var flags := FlagsAfter(NO_FLAGS, hs);
            !flags.chunked && !flags.close && LengthAfter(ULLONG_MAX, hs) == size
  {
    var hs := front + [h];
    FlagsSay(NO_FLAGS, hs);
    hide *;
    SaysEither(front, [h], CODINGS, "chunked");
    SaysEither(front, [h], CONNECTIONS, "close");
    var i := LengthSays(ULLONG_MAX, hs);
    assert hs[|front|] == h;
  }

  lemma WithBodyFits(m: Method, url: seq<Byte>, fields: seq<(Bytes, Bytes)>, body: seq<Byte>)
    requires m != CONNECT && UrlText(url) && |body| <= MAX_DECIMAL
    requires var hs := HeadersOf(fields) + [LengthHeader(|body|)]; var flags := FlagsAfter(NO_FLAGS, hs);
             HeadersOk(hs) && !flags.chunked && !flags.close && LengthAfter(ULLONG_MAX, hs) == |body|
    ensures RequestOk(WithBody(m, url, fields, body)) && KeepsAlive(WithBody(m, url, fields, body))
  {
    hide UrlText, HeadersOk, FlagsAfter, LengthAfter, HeadersOf, LengthHeader;
  }

  lemma WithBodyIsWritten(m: Method, url: seq<Byte>, fields: seq<(Bytes, Bytes)>, body: seq<Byte>)
    requires |body| <= MAX_DECIMAL && forall i :: 0 <= i < |fields| ==> FieldOk(fields[i])
    ensures RequestBytes(WithBody(m, url, fields, body)) == HeadText(m, url, fields, |body|) + body
    ensures MessageOf(WithBody(m, url, fields, body)) == Message(url, fields + [(LENGTH_NAME, Decimals.Text(|body|))], body)
  {
    hide *;
    FieldsAreHeaders(fields);
    LengthHeaderIsOk(|body|);
    LinesBefore(HeadersOf(fields), LengthHeader(|body|));
    TextOfRequest(m, url, fields, body);
    MessageOfRequest(m, url, fields, body);
  }

  lemma LinesBefore(front: seq<Header>, h: Header)
    ensures Lines(front + [h]) == Lines(front) + LineOf(h)
  {
    assert (front + [h])[..|front|] == front;
  }

  lemma TextOfRequest(m: Method, url: seq<Byte>, fields: seq<(Bytes, Bytes)>, body: seq<Byte>)
    requires Lines(HeadersOf(fields) + [LengthHeader(|body|)])
             == FieldLines(fields) + ("Content-Length: " + Decimals.Text(|body|) + "\r\n")
    ensures RequestBytes(WithBody(m, url, fields, body)) == HeadText(m, url, fields, |body|) + body
  {
    PartsOfRequest(m, url, fields, body);
    LineIsWritten(m, url);
    PartsOfHead(m, url, fields, |body|);
    hide *;
    JoinParts(RequestLine(m, url, '1'), FieldLines(fields), "Content-Length: " + Decimals.Text(|body|), "\r\n", body);
  }

  lemma PartsOfRequest(m: Method, url: seq<Byte>, fields: seq<(Bytes, Bytes)>, body: seq<Byte>)
    ensures RequestBytes(WithBody(m, url, fields, body))
         == (RequestLine(m, url, '1') + Lines(HeadersOf(fields) + [LengthHeader(|body|)])) + ("\r\n" + body)
  {
    hide RequestLine, Lines, HeadersOf, LengthHeader;
    assert CRLF == "\r\n";
  }

  lemma PartsOfHead(m: Method, url: seq<Byte>, fields: seq<(Bytes, Bytes)>, size: nat)
    ensures HeadText(m, url, fields, size)
         == (MethodName(m) + " " + url + " HTTP/1.1\r\n") + FieldLines(fields) + ("Content-Length: " + Decimals.Text(size)) + ("\r\n" + "\r\n")
  {
    hide MethodName, FieldLines;
    assert "\r\n\r\n" == "\r\n" + "\r\n";
  }

  lemma JoinParts(line: string, lines: string, last: string, end: string, body: string)
    ensures (line + (lines + (last + end))) + (end + body) == (line + lines + last + (end + end)) + body
  {
    assert line + (lines + (last + end)) == (line + lines + last) + end;
    assert ((line + lines + last) + end) + (end + body) == ((line + lines + last) + (end + end)) + body;
  }

  lemma MessageOfRequest(m: Method, url: seq<Byte>, fields: seq<(Bytes, Bytes)>, body: seq<Byte>)
    requires Filled(HeadersOf(fields)) == fields
    ensures MessageOf(WithBody(m, url, fields, body)) == Message(url, fields + [(LENGTH_NAME, Decimals.Text(|body|))], body)
  {
    hide Filled, HeadersOf;
    var front, h := HeadersOf(fields), LengthHeader(|body|);
    assert (front + [h])[..|front|] == front;
  }

  lemma LineIsWritten(m: Method, url: seq<Byte>)
    ensures RequestLine(m, url, '1') == MethodName(m) + " " + url + " HTTP/1.1\r\n"
  {
    NameIsBytes(m, |MethodName(m)|);
    hide NameBytes, MethodName;
    assert VersionText('1') == " HTTP/1.1\r\n";
    assert MethodName(m)[..|MethodName(m)|] == MethodName(m);
  }

  /**
   * The text of a request with a body: the handler is given its URL, its headers in order and its body, once, and the
   * connection waits for the next request.
   */
  lemma WrittenRequestIsHandled(p: Parser, f: Fields, m: Method, url: seq<Byte>, fields: seq<(Bytes, Bytes)>, body: seq<Byte>)
    requires Idle(p) && m != CONNECT && url != [] && url[0] == '/' && (forall i :: 0 <= i < |url| ==> '!' <= url[i] <= '~')
    requires (forall i :: 0 <= i < |fields| ==> FieldOk(fields[i])) && |body| <= MAX_DECIMAL
    requires p.nread + |HeadText(m, url, fields, |body|)| <= 80 * 1024
    ensures var r := Run(p, HeadText(m, url, fields, |body|) + body);
            && r.outcome.Running? && r.outcome.p.state.StartReq?
            && DeliverAll(f, r.events).handled
               == f.handled + [Message(url, fields + [(LENGTH_NAME, Decimals.Text(|body|))], body)]
  {
    PathIsUrlIff(url);
    assert MAX_HEADER_SIZE == 80 * 1024;
    hide *;
    var r := WithBody(m, url, fields, body);
    WithBodyIsOk(m, url, fields, body);
    WithBodyIsWritten(m, url, fields, body);
    HeadIsBeforeBody(m, url, fields, body);
    var q := RequestIsHandled(p, f, r);
  }

  lemma HeadIsBeforeBody(m: Method, url: seq<Byte>, fields: seq<(Bytes, Bytes)>, body: seq<Byte>)
    requires RequestBytes(WithBody(m, url, fields, body)) == HeadText(m, url, fields, |body|) + body
    ensures |Head(WithBody(m, url, fields, body))| + 2 == |HeadText(m, url, fields, |body|)|
  {
    hide HeadText, RequestLine, Lines;
  }
}

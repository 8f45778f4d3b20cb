/** Which header names and values the parser's matching automaton recognises. */
module HttpHeaders {
  import opened Bytes
  import opened HttpControl
  import opened HttpRun
  import opened HttpFraming

  // ---- One word ----

  predicate Starts(word: string, s: string) { |s| < |word| && word[..|s|] == s }

  /** The state of a matcher for `word` after s. */
  function WordState(word: string, matching: HState, done: HState, s: string): HState {
    if s == word then done else if Starts(word, s) then matching else General
  }

  lemma StartsOneMore(word: string, s: string, c: char)
    ensures Starts(word, s + [c]) <==> Starts(word, s) && |s| + 1 < |word| && word[|s|] == c
    ensures s + [c] == word <==> Starts(word, s) && |s| + 1 == |word| && word[|s|] == c
  {
    if |s| < |word| {
      assert word[..|s| + 1] == word[..|s|] + [word[|s|]];
    }
  }

  /** MatchWord does one step of recognising the word. */
  lemma MatchWordStep(p: Parser, word: string, matching: HState, done: HState, s: string, c: Byte)
    requires Starts(word, s) && s != [] && p.index == |s| - 1 && p.headerState == matching && c != NUL
    ensures var q := MatchWord(p, c, word, done);
            && q == p.(index := |s|, headerState := WordState(word, matching, done, s + [c]))
  {
    StartsOneMore(word, s, c);
  }

  // ---- Names ----

  /** The characters of a header name: tchar of section 3.2.6 of RFC 7230. */
  predicate IsTchar(c: Byte) {
    || '0' <= c <= '9' || 'A' <= c <= 'Z' || 'a' <= c <= 'z'
    || c in {'!', '#', '$', '%', '&', '\'', '*', '+', '-', '.', '^', '_', '`', '|', '~'}
  }

  predicate AllTokens(name: seq<Byte>) { forall i :: 0 <= i < |name| ==> IsTchar(name[i]) }

  /** The token table takes exactly these characters, letters in lower case and the others as they are. */
  lemma TokenIsTchar(c: Byte)
    ensures Token(c) != NUL <==> IsTchar(c)
    ensures IsTchar(c) ==> Token(c) == LowerCase(c)
  {
    if '0' <= c <= '9' || 'A' <= c <= 'Z' || 'a' <= c <= 'z' {} else {}
  }

  /** The name in lower case. */
  function Lowered(name: string): (r: string)
    ensures |r| == |name| && forall i :: 0 <= i < |r| ==> r[i] == LowerCase(name[i])
  {
    seq(|name|, i requires 0 <= i < |name| => LowerCase(name[i]))
  }

  /** What a lower-cased, non-empty name has been recognised as. */
  function NameState(s: string): HState
    requires s != []
  {
    match s[0]
    case 'p' => WordState(PROXY_CONNECTION, MatchingProxyConnection, Connection, s)
    case 't' => WordState(TRANSFER_ENCODING, MatchingTransferEncoding, TransferEncoding, s)
    case 'u' => WordState(UPGRADE, MatchingUpgrade, Upgrade, s)
    case 'c' =>
      if |s| == 1 then C
      else if s[1] != 'o' then General
      else if |s| == 2 then CO
      else if s[2] != 'n' then General
      else if |s| == 3 then CON
      else if s[3] == 'n' then WordState(CONNECTION, MatchingConnection, Connection, s)
      else if s[3] == 't' then WordState(CONTENT_LENGTH, MatchingContentLength, ContentLength, s)
      else General
    case _ => General
  }

  /** The matcher's place in the header name. */
  ghost predicate NamePlace(p: Parser, s: string) {
    s != [] && p.headerState == NameState(s) && (p.headerState != General ==> p.index == |s| - 1)
  }

  lemma KeptGeneral(word: string, matching: HState, done: HState, s: string, c: char)
    requires WordState(word, matching, done, s) in {done, General} && done != matching && matching != General
    ensures WordState(word, matching, done, s + [c]) == General
  {
    StartsOneMore(word, s, c);
  }

  /** The field-name byte in a word's own states. */
  lemma WordByte(p: Parser, ch: Byte, c: Byte, s: string, word: string, matching: HState, done: HState)
    requires c == Token(ch) != NUL && s != [] && word != []
    requires p.headerState == WordState(word, matching, done, s) && (p.headerState != General ==> p.index == |s| - 1)
    requires (word, matching, done) in
      {(CONNECTION, MatchingConnection, Connection), (PROXY_CONNECTION, MatchingProxyConnection, Connection),
       (CONTENT_LENGTH, MatchingContentLength, ContentLength), (UPGRADE, MatchingUpgrade, Upgrade),
       (TRANSFER_ENCODING, MatchingTransferEncoding, TransferEncoding)}
    ensures var q := FieldNameByte(p, ch, c);
            && q.headerState == WordState(word, matching, done, s + [c])
            && (q.headerState != General ==> q.index == |s|)
            && q == p.(index := q.index, headerState := q.headerState)
  {
    hide WordState;
    assert ch != ' ';
    if p.headerState == matching {
      InMatching(word, matching, done, s);
      MatchWordStep(p, word, matching, done, s, c);
      hide MatchWord;
    } else {
      NotMatching(word, matching, done, s);
      KeptGeneral(word, matching, done, s, c);
    }
  }

  lemma InMatching(word: string, matching: HState, done: HState, s: string)
    requires WordState(word, matching, done, s) == matching && done != matching && matching != General
    ensures Starts(word, s)
  {
  }

  lemma NotMatching(word: string, matching: HState, done: HState, s: string)
    requires WordState(word, matching, done, s) != matching
    ensures WordState(word, matching, done, s) in {done, General}
  {
  }

  lemma FourthChar(s: string, c: char)
    requires |s| == 3 && s[0] == 'c' && s[1] == 'o' && s[2] == 'n'
    ensures NameState(s + [c]) == if c == 'n' then MatchingConnection else if c == 't' then MatchingContentLength else General
  {
    var t := s + [c];
    if c == 'n' {
      assert CONNECTION[..4] == ['c', 'o', 'n', 'n'] == t;
    } else if c == 't' {
      assert CONTENT_LENGTH[..4] == ['c', 'o', 'n', 't'] == t;
    }
  }

  /** One more character of a header name keeps the matcher in step with the name read so far. */
  lemma NameStep(p: Parser, ch: Byte, s: string)
    requires NamePlace(p, s) && Token(ch) != NUL && FieldHState(p.headerState)
    ensures var q := FieldNameByte(p, ch, Token(ch));
            NamePlace(q, s + [Token(ch)]) && q == p.(index := q.index, headerState := q.headerState)
  {
    var c := Token(ch);
    var t := s + [c];
    assert t[0] == s[0];
    hide WordState, MatchWord;
    match s[0] {
      case 'p' => WordByte(p, ch, c, s, PROXY_CONNECTION, MatchingProxyConnection, Connection);
      case 't' => WordByte(p, ch, c, s, TRANSFER_ENCODING, MatchingTransferEncoding, TransferEncoding);
      case 'u' => WordByte(p, ch, c, s, UPGRADE, MatchingUpgrade, Upgrade);
      case 'c' =>
        if |s| == 3 && s[1] == 'o' && s[2] == 'n' {
          FourthChar(s, c);
        } else if |s| > 3 && s[1] == 'o' && s[2] == 'n' && s[3] == 'n' {
          WordByte(p, ch, c, s, CONNECTION, MatchingConnection, Connection);
        } else if |s| > 3 && s[1] == 'o' && s[2] == 'n' && s[3] == 't' {
          WordByte(p, ch, c, s, CONTENT_LENGTH, MatchingContentLength, ContentLength);
        }
      case _ =>
    }
  }

  lemma FirstChar(c: char)
    ensures NameState([c]) == match c
      case 'c' => C case 'p' => MatchingProxyConnection case 't' => MatchingTransferEncoding
      case 'u' => MatchingUpgrade case _ => General
  {
    if c == 'p' { assert PROXY_CONNECTION[..1] == ['p']; }
    if c == 't' { assert TRANSFER_ENCODING[..1] == ['t']; }
    if c == 'u' { assert UPGRADE[..1] == ['u']; }
  }

  lemma FirstNameByte(p: Parser, ch: Byte)
    requires WF(p) && p.state.HeaderFieldStart? && p.nread < MAX_HEADER_SIZE && Token(ch) != NUL
    ensures StepByte(p, ch).StepOk? && !StepByte(p, ch).exit && StepByte(p, ch).events == [Data(FieldData, [ch])]
    ensures var q := StepByte(p, ch).next;
            && q == p.(state := HeaderField, nread := p.nread + 1, index := 0, headerState := q.headerState)
            && NamePlace(q, [Token(ch)])
  {
    hide NameState, HeadersAlmostDoneByte, FieldByte, ValueByte, UrlByte, VersionByte, ChunkByte;
    FirstChar(Token(ch));
    HeaderByteIsRead(p, ch);
    assert ch != CR && ch != LF;
    hide StepByte, WF, Token;
  }

  lemma NextNameByte(p: Parser, ch: Byte, s: string)
    requires WF(p) && p.state.HeaderField? && p.nread < MAX_HEADER_SIZE && Token(ch) != NUL && NamePlace(p, s)
    ensures StepByte(p, ch).StepOk? && !StepByte(p, ch).exit && StepByte(p, ch).events == [Data(FieldData, [ch])]
    ensures var q := StepByte(p, ch).next;
            && q == p.(nread := p.nread + 1, index := q.index, headerState := q.headerState)
            && NamePlace(q, s + [Token(ch)])
  {
    hide NameState, HeadersAlmostDoneByte, FieldNameByte, ValueByte, UrlByte, VersionByte, ChunkByte, FieldStartByte;
    CountKeeps(p);
    NameStep(p.(nread := p.nread + 1), ch, s);
  }

  /** The whole name is reported as the field, and the matcher has recognised exactly what NameState says. */
  lemma {:induction false} NameIsRead(p: Parser, name: seq<Byte>)
    requires WF(p) && p.state.HeaderFieldStart? && name != [] && AllTokens(name)
    requires p.nread + |name| <= MAX_HEADER_SIZE
    ensures Run(p, name).outcome.Running?
    ensures var q := Run(p, name).outcome.p;
            && q == p.(state := HeaderField, nread := p.nread + |name|, index := q.index, headerState := NameState(Lowered(name)))
            && NamePlace(q, Lowered(name))
    ensures forall js :: JoinOnto(js, Run(p, name).events) == Push(js, Data(FieldData, name))
    decreases |name|
  {
    hide StepByte, WF, Push, NameState, Run, JoinOnto;
    var n := |name| - 1;
    var front, last := name[..n], name[n];
    assert IsTchar(last);
    TokenIsTchar(last);
    hide Token, IsTchar;
    assert Lowered(name) == Lowered(front) + [Token(last)];
    if n == 0 {
      assert front == [] && name == [last] && Lowered(name) == [Token(last)];
      FirstNameByte(p, last);
      FirstDataByte(p, last, FieldData);
    } else {
      NameIsRead(p, front);
      var q := Run(p, front).outcome.p;
      NextNameByte(q, last, Lowered(front));
      assert front + [last] == name;
      NextDataByte(p, front, last, FieldData);
    }
  }

  /** The framing headers are recognised by exactly their names, in any letter case. */
  lemma NamesRecognised(s: string)
    requires s != []
    ensures NameState(s) == ContentLength <==> s == "content-length"
    ensures NameState(s) == TransferEncoding <==> s == "transfer-encoding"
    ensures NameState(s) == Connection <==> s == "connection" || s == "proxy-connection"
    ensures NameState(s) == Upgrade <==> s == "upgrade"
  {
  }

  // ---- Values ----

  /** A value byte as the matcher compares it; NUL is kept apart from the space it would lower to. */
  function LowChar(ch: Byte): Byte { if ch == NUL then NUL else Lower(ch) }

  function Lowers(value: seq<Byte>): (r: string)
    ensures |r| == |value| && forall i :: 0 <= i < |r| ==> r[i] == LowChar(value[i])
  {
    seq(|value|, i requires 0 <= i < |value| => LowChar(value[i]))
  }

  /** A text without the spaces at its end. */
  function Trimmed(s: string): string {
    if s != [] && s[|s| - 1] == ' ' then Trimmed(s[..|s| - 1]) else s
  }

  /** What a value has been recognised as by the matcher for `word`; spaces may follow the whole word. */
  function ValueState(word: string, matching: HState, done: HState, s: string): HState {
    if Starts(word, s) then matching else if Trimmed(s) == word then done else General
  }

  /** One more character of a value keeps the matcher in step. */
  lemma ValueStep(p: Parser, ch: Byte, s: string, word: string, matching: HState, done: HState)
    requires ' ' !in word && NUL !in word && s != []
    requires p.headerState == ValueState(word, matching, done, s) && (p.headerState == matching ==> p.index == |s| - 1)
    requires matching != done && matching != General && done != General
    ensures var q := if p.headerState == matching then MatchWord(p, Lower(ch), word, done)
                     else if ch != ' ' then p.(headerState := General) else p;
            && q.headerState == ValueState(word, matching, done, s + [LowChar(ch)])
            && (q.headerState == matching ==> q.index == |s|)
            && q == p.(index := q.index, headerState := q.headerState)
  {
    var c := LowChar(ch);
    assert c == ' ' <==> ch == ' ';
    StartsOneMore(word, s, c);
    var t := s + [c];
    assert t[..|t| - 1] == s;
    assert c == ' ' ==> Trimmed(t) == Trimmed(s);
    assert c != ' ' ==> Trimmed(t) == t;
    if p.headerState == matching {
      assert s[|s| - 1] == word[|s| - 1] && word[|s| - 1] in word && word[|s|] in word;
      if ch != NUL {
        MatchWordStep(p, word, matching, done, s, c);
      }
    }
  }

  /** Value text: no line ends, and no space or tab first. */
  predicate ValueText(v: seq<Byte>) {
    v != [] && v[0] != ' ' && v[0] != '\t' && CR !in v && LF !in v
  }

  /** What a value has been recognised as, for the header that h stands for. */
  function ValueMeaning(h: HState, s: string): HState
    requires s != []
  {
    match h
    case TransferEncoding => ValueState(CHUNKED, MatchingChunked, Chunked, s)
    case Connection =>
      if s[0] == 'k' then ValueState(KEEP_ALIVE, MatchingKeepAlive, KeepAlive, s) else ValueState(CLOSE, MatchingClose, Close, s)
    case _ => General
  }

  /** Headers whose value may be any text: all but Content-Length, and Upgrade, after which HTTP ends. */
  predicate AnyValue(h: HState) { !h.ContentLength? && !h.Upgrade? }

  predicate MatchingValue(h: HState) { h.MatchingChunked? || h.MatchingKeepAlive? || h.MatchingClose? }

  ghost predicate ValuePlace(p: Parser, h: HState, s: string) {
    s != [] && p.headerState == ValueMeaning(h, s) && (MatchingValue(p.headerState) ==> p.index == |s| - 1)
  }

  lemma FirstOfWord(word: string, matching: HState, done: HState, c: char)
    requires |word| > 1 && c != ' '
    ensures ValueState(word, matching, done, [c]) == if c == word[0] then matching else General
  {
    assert Trimmed([c]) == [c];
    assert word[..1] == [word[0]] && [word[0]][0] == word[0] && [c][0] == c;
  }

  lemma FirstOfValue(h: HState, c: char)
    requires c != ' '
    ensures ValueMeaning(h, [c]) == match h
      case TransferEncoding => if c == 'c' then MatchingChunked else General
      case Connection => if c == 'k' then MatchingKeepAlive else if c == 'c' then MatchingClose else General
      case _ => General
  {
    hide ValueState;
    FirstOfWord(CHUNKED, MatchingChunked, Chunked, c);
    FirstOfWord(KEEP_ALIVE, MatchingKeepAlive, KeepAlive, c);
    FirstOfWord(CLOSE, MatchingClose, Close, c);
  }

  /** Where the value of a header begins. */
  predicate AtValue(p: Parser) { WF(p) && p.state.HeaderValueDiscardWs? && AnyValue(p.headerState) }

  lemma FirstValueByte(p: Parser, ch: Byte)
    requires AtValue(p) && p.nread < MAX_HEADER_SIZE && ch != ' ' && ch != '\t' && ch != CR && ch != LF
    ensures StepByte(p, ch).StepOk? && !StepByte(p, ch).exit && StepByte(p, ch).events == [Data(ValueData, [ch])]
    ensures var q := StepByte(p, ch).next;
            && q == p.(state := HeaderValue, nread := p.nread + 1, index := 0, headerState := q.headerState)
            && ValuePlace(q, p.headerState, [LowChar(ch)])
  {
    hide ValueMeaning, HeadersAlmostDoneByte, FieldByte, FieldStartByte, ValueByte, UrlByte, VersionByte, ChunkByte;
    FirstOfValue(p.headerState, LowChar(ch));
    CountKeeps(p);
  }

  /** The matching step of ValueByte. */
  function NextMatch(p: Parser, ch: Byte): Parser {
    match p.headerState
    case MatchingChunked => MatchWord(p, Lower(ch), CHUNKED, Chunked)
    case MatchingKeepAlive => MatchWord(p, Lower(ch), KEEP_ALIVE, KeepAlive)
    case MatchingClose => MatchWord(p, Lower(ch), CLOSE, Close)
    case _ => if ch != ' ' then p.(headerState := General) else p
  }

  lemma MatchStep(p: Parser, h: HState, ch: Byte, s: string)
    requires ValuePlace(p, h, s)
    ensures var q := NextMatch(p, ch);
            ValuePlace(q, h, s + [LowChar(ch)]) && q == p.(index := q.index, headerState := q.headerState)
  {
    assert (s + [LowChar(ch)])[0] == s[0];
    hide ValueState, MatchWord;
    match h {
      case TransferEncoding => WordStep(p, ch, s, CHUNKED, MatchingChunked, Chunked);
      case Connection =>
        if s[0] == 'k' {
          WordStep(p, ch, s, KEEP_ALIVE, MatchingKeepAlive, KeepAlive);
        } else {
          WordStep(p, ch, s, CLOSE, MatchingClose, Close);
        }
      case _ =>
    }
    hide NextMatch;
  }

  /** One character in the value of a header with this word. */
  lemma WordStep(p: Parser, ch: Byte, s: string, word: string, matching: HState, done: HState)
    requires s != [] && p.headerState == ValueState(word, matching, done, s)
    requires MatchingValue(p.headerState) ==> p.index == |s| - 1
    requires (word, matching, done)
             in {(CHUNKED, MatchingChunked, Chunked), (KEEP_ALIVE, MatchingKeepAlive, KeepAlive), (CLOSE, MatchingClose, Close)}
    ensures var q := NextMatch(p, ch);
            && q.headerState == ValueState(word, matching, done, s + [LowChar(ch)])
            && (MatchingValue(q.headerState) ==> q.index == |s|) && q == p.(index := q.index, headerState := q.headerState)
  {
    hide ValueState, MatchWord;
    StatesOfValue(word, matching, done, s);
    StatesOfValue(word, matching, done, s + [LowChar(ch)]);
    ValueStep(p, ch, s, word, matching, done);
  }

  lemma StatesOfValue(word: string, matching: HState, done: HState, s: string)
    ensures ValueState(word, matching, done, s) in {General, matching, done}
  {
  }

  lemma MeaningsOfValue(h: HState, s: string)
    requires s != []
    ensures ValueMeaning(h, s) in {General, MatchingChunked, MatchingKeepAlive, MatchingClose, Chunked, KeepAlive, Close}
  {
    hide Starts, Trimmed;
  }

  lemma NextValueByte(p: Parser, h: HState, ch: Byte, s: string)
    requires WF(p) && p.state.HeaderValue? && p.nread < MAX_HEADER_SIZE && ch != CR && ch != LF && ValuePlace(p, h, s)
    ensures StepByte(p, ch).StepOk? && !StepByte(p, ch).exit && StepByte(p, ch).events == [Data(ValueData, [ch])]
    ensures var q := StepByte(p, ch).next;
            && q == p.(nread := p.nread + 1, index := q.index, headerState := q.headerState)
            && ValuePlace(q, h, s + [LowChar(ch)])
  {
    hide ValueMeaning, MatchWord, HeadersAlmostDoneByte, FieldByte, FieldStartByte, UrlByte, VersionByte, ChunkByte;
    CountKeeps(p);
    MatchStep(p.(nread := p.nread + 1), h, ch, s);
    MeaningsOfValue(h, s);
  }

  /** The whole value is reported, and the matcher has recognised exactly what ValueMeaning says. */
  lemma {:induction false} ValueIsRead(p: Parser, v: seq<Byte>)
    requires AtValue(p) && ValueText(v) && p.nread + |v| <= MAX_HEADER_SIZE
    ensures Run(p, v).outcome.Running?
    ensures var q := Run(p, v).outcome.p;
            && q == p.(state := HeaderValue, nread := p.nread + |v|, index := q.index,
                       headerState := ValueMeaning(p.headerState, Lowers(v)))
            && ValuePlace(q, p.headerState, Lowers(v))
    ensures forall js :: JoinOnto(js, Run(p, v).events) == Push(js, Data(ValueData, v))
    decreases |v|
  {
    hide StepByte, WF, Push, ValueMeaning, Run, JoinOnto;
    var n := |v| - 1;
    var front, last := v[..n], v[n];
    assert Lowers(v) == Lowers(front) + [LowChar(last)];
    assert last in v;
    if n == 0 {
      assert front == [] && v == [last] && Lowers(v) == [LowChar(last)];
      FirstValueByte(p, last);
      FirstDataByte(p, last, ValueData);
    } else {
      assert front[0] == v[0];
      ValueIsRead(p, front);
      NextValueByte(Run(p, front).outcome.p, p.headerState, last, Lowers(front));
      assert front + [last] == v;
      NextDataByte(p, front, last, ValueData);
    }
  }

  /** Framing and connection values are recognised by exactly their words, in any letter case and with spaces after them. */
  lemma ValuesRecognised(h: HState, s: string)
    requires s != []
    ensures ValueMeaning(h, s) == Chunked <==> h.TransferEncoding? && Trimmed(s) == "chunked"
    ensures ValueMeaning(h, s) == KeepAlive <==> h.Connection? && Trimmed(s) == "keep-alive"
    ensures ValueMeaning(h, s) == Close <==> h.Connection? && Trimmed(s) == "close"
  {
    TrimmedIsPrefix(s);
    MeaningsOfValue(h, s);
    assert Trimmed(s) != [] ==> Trimmed(s)[0] == s[0];
    assert |KEEP_ALIVE| == 10 && |CLOSE| == 5 && |CHUNKED| == 7;
    assert KEEP_ALIVE[0] == 'k' && CLOSE[0] == 'c' && CHUNKED[0] == 'c';
    hide Trimmed;
  }

  lemma {:induction false} TrimmedIsPrefix(s: string)
    ensures Trimmed(s) <= s
  {
    if s != [] && s[|s| - 1] == ' ' { TrimmedIsPrefix(s[..|s| - 1]); }
  }
}

/** The byte-driven control of the HTTP/1.1 request parser: states, transitions and what each byte triggers. */
module HttpControl {
  import opened Bytes

  const NUL: Byte := '\0'
  const CR: Byte := '\r'
  const LF: Byte := '\n'
  /** 2^64 - 1: the largest uint64_t, and the mark for "no length given". */
  const ULLONG_MAX: nat := 0xFFFF_FFFF_FFFF_FFFF
  const MAX_HEADER_SIZE: nat := 80 * 1024

  // ---- Parser state ----

  datatype State =
    | Dead | StartReq | ReqMethod | ReqSpacesBeforeUrl
    | ReqSchema | ReqSchemaSlash | ReqSchemaSlashSlash | ReqServerStart | ReqServer | ReqServerWithAt
    | ReqPath | ReqQueryStringStart | ReqQueryString | ReqFragmentStart | ReqFragment
    | ReqHttpStart | ReqHttpH | ReqHttpHT | ReqHttpHTT | ReqHttpHTTP
    | ReqFirstHttpMajor | ReqHttpMajor | ReqFirstHttpMinor | ReqHttpMinor | ReqLineAlmostDone
    | HeaderFieldStart | HeaderField | HeaderValueDiscardWs | HeaderValueDiscardWsAlmostDone | HeaderValueDiscardLws
    | HeaderValueStart | HeaderValue | HeaderValueLws | HeaderAlmostDone
    | ChunkSizeStart | ChunkSize | ChunkParameters | ChunkSizeAlmostDone
    | HeadersAlmostDone | HeadersDone
    | ChunkData | ChunkDataAlmostDone | ChunkDataDone | BodyIdentity

  /** The states in which bytes count against the header size limit. */
  predicate ParsingHeader(s: State) {
    !(s.ChunkData? || s.ChunkDataAlmostDone? || s.ChunkDataDone? || s.BodyIdentity?)
  }

  datatype HState =
    | General | C | CO | CON
    | MatchingConnection | MatchingProxyConnection | MatchingContentLength | MatchingTransferEncoding | MatchingUpgrade
    | Connection | ContentLength | TransferEncoding | Upgrade
    | MatchingChunked | MatchingKeepAlive | MatchingClose
    | Chunked | KeepAlive | Close

  datatype Method =
    | DELETE | GET | HEAD | POST | PUT | CONNECT | OPTIONS | TRACE | COPY | LOCK | MKCOL | MOVE | PROPFIND | PROPPATCH
    | SEARCH | UNLOCK | REPORT | MKACTIVITY | CHECKOUT | MERGE | MSEARCH | NOTIFY | SUBSCRIBE | UNSUBSCRIBE | PATCH
    | PURGE | MKCALENDAR

  function MethodName(m: Method): string {
    match m
    case DELETE => "DELETE" case GET => "GET" case HEAD => "HEAD" case POST => "POST" case PUT => "PUT"
    case CONNECT => "CONNECT" case OPTIONS => "OPTIONS" case TRACE => "TRACE" case COPY => "COPY" case LOCK => "LOCK"
    case MKCOL => "MKCOL" case MOVE => "MOVE" case PROPFIND => "PROPFIND" case PROPPATCH => "PROPPATCH"
    case SEARCH => "SEARCH" case UNLOCK => "UNLOCK" case REPORT => "REPORT" case MKACTIVITY => "MKACTIVITY"
    case CHECKOUT => "CHECKOUT" case MERGE => "MERGE" case MSEARCH => "M-SEARCH" case NOTIFY => "NOTIFY"
    case SUBSCRIBE => "SUBSCRIBE" case UNSUBSCRIBE => "UNSUBSCRIBE" case PATCH => "PATCH" case PURGE => "PURGE"
    case MKCALENDAR => "MKCALENDAR"
  }

  datatype Flags = Flags(chunked: bool, keepAlive: bool, close: bool, trailing: bool, upgrade: bool, skipBody: bool)

  const NO_FLAGS := Flags(false, false, false, false, false, false)

  datatype Parser = Parser(
    state: State, headerState: HState, index: nat, nread: nat, contentLength: nat, flags: Flags,
    verb: Method, httpMajor: nat, httpMinor: nat, upgrade: bool)

  /** http_parser_init for requests. */
  const INITIAL := Parser(StartReq, General, 0, 0, 0, NO_FLAGS, DELETE, 0, 0, false)

  datatype Errno =
    | HeaderOverflow | ClosedConnection | InvalidVersion | InvalidMethod | InvalidUrl | LfExpected
    | InvalidHeaderToken | InvalidContentLength | InvalidChunkSize | InvalidConstant | StrictCheck | InvalidEofState

  // ---- What a byte triggers ----

  /** The data callbacks; the parser keeps one mark for each. */
  datatype Kind = UrlData | FieldData | ValueData | BodyData
  datatype Mark = NoMark | Of(k: Kind)
  datatype Notice = MessageBegin | HeadersComplete | MessageComplete

  /**
   * The outcome of one byte outside the bulk body states: an error, or the next parser state together with, in this
   * order, the data callback to run, an empty header value to report, the notifications, and the mark to set.
   */
  datatype Ctl =
    | Fail(errno: Errno)
    | Go(next: Parser, flush: Mark, emptyValue: bool, notes: seq<Notice>, mark: Mark, exit: bool)

  function To(p: Parser): Ctl { Go(p, NoMark, false, [], NoMark, false) }
  function ToState(p: Parser, s: State): Ctl { To(p.(state := s)) }
  function Flushing(p: Parser, k: Kind): Ctl { Go(p, Of(k), false, [], NoMark, false) }
  function Marking(p: Parser, k: Kind): Ctl { Go(p, NoMark, false, [], Of(k), false) }
  function Notifying(p: Parser, note: Notice): Ctl { Go(p, NoMark, false, [note], NoMark, false) }

  function At(word: string, i: nat): char { if i < |word| then word[i] else '\0' }

  // ---- Character classes (strict mode) ----

  predicate IsNum(c: Byte) { '0' <= c <= '9' }
  predicate IsAlpha(c: Byte) { 'a' <= c <= 'z' || 'A' <= c <= 'Z' }

  /** c | 0x20 */
  function Lower(c: Byte): Byte {
    if (c as int / 32) % 2 == 0 then (c as int + 32) as char else c
  }

  /** The token table: the lower-cased character, or NUL for a non-token. */
  function Token(c: Byte): Byte {
    if IsAlpha(c) then Lower(c)
    else if IsNum(c) || c in "!#$%&'*+-.^_`|~" then c
    else NUL
  }

  predicate IsUrlChar(c: Byte) { '!' <= c <= '~' && c != '#' && c != '?' }

  predicate IsUserinfoChar(c: Byte) { IsAlpha(c) || IsNum(c) || c in "-_.!~*'()%;:&=+$," }

  /**
   * The unhex table; -1 for a byte that is no hex digit. The table is written out for the 128 ASCII codes only, so the
   * bytes from 128 on read as 0.
   */
  function Unhex(c: Byte): (v: int)
    ensures -1 <= v < 16
  {
    if '0' <= c <= '9' then c as int - '0' as int
    else if 'a' <= c <= 'f' then c as int - 'a' as int + 10
    else if 'A' <= c <= 'F' then c as int - 'A' as int + 10
    else if c as int >= 128 then 0
    else -1
  }

  // ---- URL ----

  predicate UrlState(s: State) {
    s.ReqSchema? || s.ReqSchemaSlash? || s.ReqSchemaSlashSlash? || s.ReqServerStart? || s.ReqServer? ||
    s.ReqServerWithAt? || s.ReqPath? || s.ReqQueryStringStart? || s.ReqQueryString? || s.ReqFragmentStart? ||
    s.ReqFragment?
  }

  /** parse_url_char: the next URL state, Dead on an error. */
  function ParseUrlChar(s: State, ch: Byte): (r: State)
    ensures r.Dead? || UrlState(r)
  {
    if ch in " \r\n\t\U{0C}" then Dead else
    match s
    case ReqSpacesBeforeUrl =>
      if ch == '/' || ch == '*' then ReqPath else if IsAlpha(ch) then ReqSchema else Dead
    case ReqSchema =>
      if IsAlpha(ch) then ReqSchema else if ch == ':' then ReqSchemaSlash else Dead
    case ReqSchemaSlash => if ch == '/' then ReqSchemaSlashSlash else Dead
    case ReqSchemaSlashSlash => if ch == '/' then ReqServerStart else Dead
    case ReqServerWithAt => if ch == '@' then Dead else ServerChar(ch)
    case ReqServerStart => ServerChar(ch)
    case ReqServer => ServerChar(ch)
    case ReqPath =>
      if IsUrlChar(ch) then ReqPath else if ch == '?' then ReqQueryStringStart
      else if ch == '#' then ReqFragmentStart else Dead
    case ReqQueryStringStart => QueryChar(ch)
    case ReqQueryString => QueryChar(ch)
    case ReqFragmentStart =>
      if IsUrlChar(ch) || ch == '?' then ReqFragment else if ch == '#' then ReqFragmentStart else Dead
    case ReqFragment => if IsUrlChar(ch) || ch == '?' || ch == '#' then ReqFragment else Dead
    case _ => Dead
  }

  function ServerChar(ch: Byte): (r: State)
    ensures r.Dead? || UrlState(r)
  {
    if ch == '/' then ReqPath
    else if ch == '?' then ReqQueryStringStart
    else if ch == '@' then ReqServerWithAt
    else if IsUserinfoChar(ch) || ch == '[' || ch == ']' then ReqServer
    else Dead
  }

  function QueryChar(ch: Byte): (r: State)
    ensures r.Dead? || UrlState(r)
  {
    if IsUrlChar(ch) || ch == '?' then ReqQueryString else if ch == '#' then ReqFragmentStart else Dead
  }

  // ---- Messages ----

  /** http_should_keep_alive, for requests. */
  predicate ShouldKeepAlive(p: Parser) {
    if p.httpMajor > 0 && p.httpMinor > 0 then !p.flags.close else p.flags.keepAlive
  }

  function NewMessage(p: Parser): State { if ShouldKeepAlive(p) then StartReq else Dead }

  function Complete(p: Parser): Ctl { Notifying(p.(state := NewMessage(p)), MessageComplete) }

  // ---- Request line ----

  function FirstMethod(ch: Byte): (r: (bool, Method)) {
    match ch
    case 'C' => (true, CONNECT) case 'D' => (true, DELETE) case 'G' => (true, GET) case 'H' => (true, HEAD)
    case 'L' => (true, LOCK) case 'M' => (true, MKCOL) case 'N' => (true, NOTIFY) case 'O' => (true, OPTIONS)
    case 'P' => (true, POST) case 'R' => (true, REPORT) case 'S' => (true, SUBSCRIBE) case 'T' => (true, TRACE)
    case 'U' => (true, UNLOCK) case _ => (false, DELETE)
  }

  function StartReqByte(p: Parser, ch: Byte): Ctl {
    if ch == CR || ch == LF then To(p) else
    var (known, m) := FirstMethod(ch);
    if !known then Fail(InvalidMethod) else
    Notifying(p.(flags := NO_FLAGS, contentLength := ULLONG_MAX, verb := m, index := 1, state := ReqMethod), MessageBegin)
  }

  /** The method a mismatch at the given index turns the current guess into. */
  function OtherMethod(m: Method, index: nat, ch: Byte): (r: (bool, Method))
    ensures r.0 ==> index <= 4 && index <= |MethodName(r.1)|
  {
    if m == CONNECT then
      if index == 1 && ch == 'H' then (true, CHECKOUT)
      else if index == 2 && ch == 'P' then (true, COPY) else (false, m)
    else if m == MKCOL then
      if index == 1 && ch == 'O' then (true, MOVE)
      else if index == 1 && ch == 'E' then (true, MERGE)
      else if index == 1 && ch == '-' then (true, MSEARCH)
      else if index == 2 && ch == 'A' then (true, MKACTIVITY)
      else if index == 3 && ch == 'A' then (true, MKCALENDAR) else (false, m)
    else if m == SUBSCRIBE then
      if index == 1 && ch == 'E' then (true, SEARCH) else (false, m)
    else if index == 1 && m == POST then
      if ch == 'R' then (true, PROPFIND)
      else if ch == 'U' then (true, PUT)
      else if ch == 'A' then (true, PATCH) else (false, m)
    else if index == 2 then
      if m == PUT && ch == 'R' then (true, PURGE)
      else if m == UNLOCK && ch == 'S' then (true, UNSUBSCRIBE) else (false, m)
    else if index == 4 && m == PROPFIND && ch == 'P' then (true, PROPPATCH)
    else (false, m)
  }

  function ReqMethodByte(p: Parser, ch: Byte): Ctl {
    if ch == NUL then Fail(InvalidMethod) else
    var expected := At(MethodName(p.verb), p.index);
    if ch == ' ' && expected == '\0' then To(p.(state := ReqSpacesBeforeUrl, index := p.index + 1))
    else if ch == expected then To(p.(index := p.index + 1))
    else
      var (ok, m) := OtherMethod(p.verb, p.index, ch);
      if ok then To(p.(verb := m, index := p.index + 1)) else Fail(InvalidMethod)
  }

  function UrlStartByte(p: Parser, ch: Byte): Ctl {
    if ch == ' ' then To(p) else
    var s := ParseUrlChar(if p.verb == CONNECT then ReqServerStart else p.state, ch);
    if s.Dead? then Fail(InvalidUrl) else Marking(p.(state := s), UrlData)
  }

  function UrlByte(p: Parser, ch: Byte): Ctl {
    var early := p.state.ReqSchema? || p.state.ReqSchemaSlash? || p.state.ReqSchemaSlashSlash? || p.state.ReqServerStart?;
    if ch == ' ' || ch == CR || ch == LF then
      if early then Fail(InvalidUrl)
      else if ch == ' ' then Flushing(p.(state := ReqHttpStart), UrlData)
      else
        var after := if ch == CR then ReqLineAlmostDone else HeaderFieldStart;
        Flushing(p.(httpMajor := 0, httpMinor := 9, state := after), UrlData)
    else
      var s := ParseUrlChar(p.state, ch);
      if s.Dead? then Fail(InvalidUrl) else ToState(p, s)
  }

  function Digit(ch: Byte): nat
    requires IsNum(ch)
  {
    ch as int - '0' as int
  }

  function VersionByte(p: Parser, ch: Byte): Ctl {
    match p.state
    case ReqHttpStart =>
      if ch == 'H' then ToState(p, ReqHttpH) else if ch == ' ' then To(p) else Fail(InvalidConstant)
    case ReqHttpH => if ch != 'T' then Fail(StrictCheck) else ToState(p, ReqHttpHT)
    case ReqHttpHT => if ch != 'T' then Fail(StrictCheck) else ToState(p, ReqHttpHTT)
    case ReqHttpHTT => if ch != 'P' then Fail(StrictCheck) else ToState(p, ReqHttpHTTP)
    case ReqHttpHTTP => if ch != '/' then Fail(StrictCheck) else ToState(p, ReqFirstHttpMajor)
    case ReqFirstHttpMajor =>
      if ch < '1' || ch > '9' then Fail(InvalidVersion) else To(p.(httpMajor := Digit(ch), state := ReqHttpMajor))
    case ReqHttpMajor =>
      if ch == '.' then ToState(p, ReqFirstHttpMinor)
      else if !IsNum(ch) then Fail(InvalidVersion) else
      var major := p.httpMajor * 10 + Digit(ch);
      if major > 999 then Fail(InvalidVersion) else To(p.(httpMajor := major))
    case ReqFirstHttpMinor =>
      if !IsNum(ch) then Fail(InvalidVersion) else To(p.(httpMinor := Digit(ch), state := ReqHttpMinor))
    case ReqHttpMinor =>
      if ch == CR then ToState(p, ReqLineAlmostDone)
      else if ch == LF then ToState(p, HeaderFieldStart)
      else if !IsNum(ch) then Fail(InvalidVersion) else
      var minor := p.httpMinor * 10 + Digit(ch);
      if minor > 999 then Fail(InvalidVersion) else To(p.(httpMinor := minor))
    case _ =>
      if ch != LF then Fail(LfExpected) else ToState(p, HeaderFieldStart)
  }

  // ---- Header fields ----

  const CONNECTION := "connection"
  const PROXY_CONNECTION := "proxy-connection"
  const CONTENT_LENGTH := "content-length"
  const TRANSFER_ENCODING := "transfer-encoding"
  const UPGRADE := "upgrade"
  const CHUNKED := "chunked"
  const KEEP_ALIVE := "keep-alive"
  const CLOSE := "close"

  /** One byte of a word being recognised; `c` is already lower-cased. */
  function MatchWord(p: Parser, c: Byte, word: string, done: HState): Parser {
    var i := p.index + 1;
    if i > |word| || c != At(word, i) then p.(index := i, headerState := General)
    else if i == |word| - 1 then p.(index := i, headerState := done)
    else p.(index := i)
  }

  function FieldStartByte(p: Parser, ch: Byte): Ctl {
    if ch == CR then ToState(p, HeadersAlmostDone)
    else if ch == LF then HeadersAlmostDoneByte(p, ch)
    else
      var c := Token(ch);
      if c == NUL then Fail(InvalidHeaderToken) else
      var h := match c
        case 'c' => C case 'p' => MatchingProxyConnection case 't' => MatchingTransferEncoding
        case 'u' => MatchingUpgrade case _ => General;
      Marking(p.(index := 0, state := HeaderField, headerState := h), FieldData)
  }

  predicate FieldHState(h: HState) {
    h in {General, C, CO, CON, MatchingConnection, MatchingProxyConnection, MatchingContentLength,
          MatchingTransferEncoding, MatchingUpgrade, Connection, ContentLength, TransferEncoding, Upgrade}
  }

  function FieldNameByte(p: Parser, ch: Byte, c: Byte): Parser
    requires FieldHState(p.headerState)
  {
    match p.headerState
    case General => p
    case C => p.(index := p.index + 1, headerState := if c == 'o' then CO else General)
    case CO => p.(index := p.index + 1, headerState := if c == 'n' then CON else General)
    case CON =>
      p.(index := p.index + 1,
         headerState := if c == 'n' then MatchingConnection else if c == 't' then MatchingContentLength else General)
    case MatchingConnection => MatchWord(p, c, CONNECTION, Connection)
    case MatchingProxyConnection => MatchWord(p, c, PROXY_CONNECTION, Connection)
    case MatchingContentLength => MatchWord(p, c, CONTENT_LENGTH, ContentLength)
    case MatchingTransferEncoding => MatchWord(p, c, TRANSFER_ENCODING, TransferEncoding)
    case MatchingUpgrade => MatchWord(p, c, UPGRADE, Upgrade)
    case _ => if ch != ' ' then p.(headerState := General) else p
  }

  function FieldByte(p: Parser, ch: Byte): Ctl
    requires FieldHState(p.headerState)
  {
    var c := Token(ch);
    if c != NUL then To(FieldNameByte(p, ch, c))
    else if ch == ':' then Flushing(p.(state := HeaderValueDiscardWs), FieldData)
    else if ch == CR then Flushing(p.(state := HeaderAlmostDone), FieldData)
    else if ch == LF then Flushing(p.(state := HeaderFieldStart), FieldData)
    else Fail(InvalidHeaderToken)
  }

  // ---- Header values ----

  function ValueStartByte(p: Parser, ch: Byte): Ctl {
    var q := p.(state := HeaderValue, index := 0);
    var c := Lower(ch);
    match p.headerState
    case Upgrade => Value(q.(flags := q.flags.(upgrade := true), headerState := General))
    case TransferEncoding => Value(q.(headerState := if c == 'c' then MatchingChunked else General))
    case ContentLength => if !IsNum(ch) then Fail(InvalidContentLength) else Value(q.(contentLength := Digit(ch)))
    case Connection =>
      Value(q.(headerState := if c == 'k' then MatchingKeepAlive else if c == 'c' then MatchingClose else General))
    case _ => Value(q.(headerState := General))
  }

  function Value(p: Parser): Ctl { Marking(p, ValueData) }

  function DiscardWsByte(p: Parser, ch: Byte): Ctl {
    if ch == ' ' || ch == '\t' then To(p)
    else if ch == CR then ToState(p, HeaderValueDiscardWsAlmostDone)
    else if ch == LF then ToState(p, HeaderValueDiscardLws)
    else ValueStartByte(p, ch)
  }

  function DiscardLwsByte(p: Parser, ch: Byte): Ctl {
    if ch == ' ' || ch == '\t' then ToState(p, HeaderValueDiscardWs)
    else
      var ctl := FieldStartByte(p.(state := HeaderFieldStart), ch);
      if ctl.Fail? then ctl else ctl.(emptyValue := true)
  }

  predicate ValueHState(h: HState) {
    h in {General, ContentLength, MatchingChunked, MatchingKeepAlive, MatchingClose, Chunked, KeepAlive, Close}
  }

  /** One decimal digit of Content-Length, in 64-bit arithmetic with the source's overflow test. */
  function LengthDigit(length: nat, d: nat): (r: (bool, nat)) {
    if (ULLONG_MAX - 10) / 10 < length then (false, 0) else (true, (length * 10 + d) % (ULLONG_MAX + 1))
  }

  function ValueByte(p: Parser, ch: Byte): Ctl
    requires ValueHState(p.headerState)
  {
    if ch == CR then Flushing(p.(state := HeaderAlmostDone), ValueData)
    else if ch == LF then
      Flushing(p.(state := HeaderValueLws), ValueData)
    else
      var c := Lower(ch);
      match p.headerState
      case General => To(p)
      case ContentLength =>
        if ch == ' ' then To(p)
        else if !IsNum(ch) then Fail(InvalidContentLength) else
        var (ok, length) := LengthDigit(p.contentLength, Digit(ch));
        if ok then To(p.(contentLength := length)) else Fail(InvalidContentLength)
      case MatchingChunked => To(MatchWord(p, c, CHUNKED, Chunked))
      case MatchingKeepAlive => To(MatchWord(p, c, KEEP_ALIVE, KeepAlive))
      case MatchingClose => To(MatchWord(p, c, CLOSE, Close))
      case _ => if ch != ' ' then To(p.(headerState := General)) else To(p)
  }

  function ValueLwsByte(p: Parser, ch: Byte): Ctl {
    if ch == ' ' || ch == '\t' then ValueStartByte(p, ch)
    else
      var flags := match p.headerState
        case KeepAlive => p.flags.(keepAlive := true)
        case Close => p.flags.(close := true)
        case Chunked => p.flags.(chunked := true)
        case _ => p.flags;
      FieldStartByte(p.(flags := flags, state := HeaderFieldStart), ch)
  }

  // ---- End of the headers ----

  function HeadersAlmostDoneByte(p: Parser, ch: Byte): Ctl {
    if ch != LF then Fail(StrictCheck)
    else if p.flags.trailing then Complete(p)
    else
      var q := p.(state := HeadersDone, upgrade := p.flags.upgrade || p.verb == CONNECT);
      var ctl := HeadersDoneByte(q, ch);
      if ctl.Fail? then ctl else ctl.(notes := [HeadersComplete] + ctl.notes)
  }

  function HeadersDoneByte(p0: Parser, ch: Byte): Ctl {
    if ch != LF then Fail(StrictCheck) else
    var p := p0.(nread := 0);
    if p.upgrade then Go(p.(state := NewMessage(p)), NoMark, false, [MessageComplete], NoMark, true)
    else if p.flags.skipBody then Complete(p)
    else if p.flags.chunked then ToState(p, ChunkSizeStart)
    else if p.contentLength == 0 then Complete(p)
    else if p.contentLength != ULLONG_MAX then ToState(p, BodyIdentity)
    else Complete(p)
  }

  // ---- Chunks ----

  /** One hex digit of a chunk size, in 64-bit arithmetic with the source's overflow test. */
  function SizeDigit(length: nat, d: nat): (r: (bool, nat)) {
    if (ULLONG_MAX - 16) / 16 < length then (false, 0) else (true, (length * 16 + d) % (ULLONG_MAX + 1))
  }

  function ChunkByte(p: Parser, ch: Byte): Ctl {
    match p.state
    case ChunkSizeStart =>
      if Unhex(ch) == -1 then Fail(InvalidChunkSize) else To(p.(contentLength := Unhex(ch), state := ChunkSize))
    case ChunkSize =>
      if ch == CR then ToState(p, ChunkSizeAlmostDone)
      else if Unhex(ch) == -1 then
        if ch == ';' || ch == ' ' then ToState(p, ChunkParameters) else Fail(InvalidChunkSize)
      else
        var (ok, length) := SizeDigit(p.contentLength, Unhex(ch));
        if ok then To(p.(contentLength := length)) else Fail(InvalidContentLength)
    case ChunkParameters =>
      if ch == CR then ToState(p, ChunkSizeAlmostDone) else To(p)
    case ChunkSizeAlmostDone =>
      if ch != LF then Fail(StrictCheck)
      else if p.contentLength == 0 then
        To(p.(nread := 0, flags := p.flags.(trailing := true), state := HeaderFieldStart))
      else To(p.(nread := 0, state := ChunkData))
    case ChunkDataAlmostDone =>
      if ch != CR then Fail(StrictCheck) else Flushing(p.(state := ChunkDataDone), BodyData)
    case _ =>
      if ch != LF then Fail(StrictCheck) else To(p.(nread := 0, state := ChunkSizeStart))
  }

  // ---- One byte ----

  /** The states whose bytes are taken in bulk. */
  predicate BulkState(s: State) { s.BodyIdentity? || s.ChunkData? }

  /**
   * What holds between bytes, and what makes every assert of the source's state machine true: no unknown header state,
   * chunk states only under F_CHUNKED, and body lengths that are neither 0 nor the "no length" mark.
   */
  predicate WF(p: Parser) {
    && p.contentLength <= ULLONG_MAX
    && (p.state.ReqMethod? ==> p.index <= |MethodName(p.verb)|)
    && (p.state.HeaderField? ==> FieldHState(p.headerState))
    && (p.state.HeaderValue? ==> ValueHState(p.headerState))
    && (p.state.ChunkSizeStart? ==> p.nread == 0)
    && (InChunk(p.state) ==> p.flags.chunked)
    && (BulkState(p.state) ==> 0 < p.contentLength < ULLONG_MAX)
    && (p.state.ChunkDataAlmostDone? ==> p.contentLength == 0)
    && ((p.state.ChunkSize? || p.state.ChunkParameters? || p.state.ChunkSizeAlmostDone?) ==> p.contentLength < ULLONG_MAX)
  }

  predicate InChunk(s: State) {
    s.ChunkSizeStart? || s.ChunkSize? || s.ChunkParameters? || s.ChunkSizeAlmostDone? ||
    s.ChunkData? || s.ChunkDataAlmostDone? || s.ChunkDataDone?
  }

  /** Outside the bulk states the invariant does not mention the byte count, except at the start of a chunk size. */
  predicate Counted(p: Parser) { WF(p.(nread := 0)) && !BulkState(p.state) }

  /** The switch of http_parser_execute, after the header byte was counted. */
  function Control(p: Parser, ch: Byte): Ctl
    requires Counted(p)
  {
    match p.state
    case Dead => if ch == CR || ch == LF then To(p) else Fail(ClosedConnection)
    case StartReq => StartReqByte(p, ch)
    case ReqMethod => ReqMethodByte(p, ch)
    case ReqSpacesBeforeUrl => UrlStartByte(p, ch)
    case HeaderFieldStart => FieldStartByte(p, ch)
    case HeaderField => FieldByte(p, ch)
    case HeaderValueDiscardWs => DiscardWsByte(p, ch)
    case HeaderValueDiscardWsAlmostDone => if ch != LF then Fail(StrictCheck) else ToState(p, HeaderValueDiscardLws)
    case HeaderValueDiscardLws => DiscardLwsByte(p, ch)
    case HeaderValueStart => ValueStartByte(p, ch)
    case HeaderValue => ValueByte(p, ch)
    case HeaderAlmostDone => if ch != LF then Fail(StrictCheck) else ToState(p, HeaderValueLws)
    case HeaderValueLws => ValueLwsByte(p, ch)
    case HeadersAlmostDone => HeadersAlmostDoneByte(p, ch)
    case HeadersDone => HeadersDoneByte(p, ch)
    case _ =>
      if UrlState(p.state) then UrlByte(p, ch)
      else if InChunk(p.state) then ChunkByte(p, ch)
      else VersionByte(p, ch)
  }

  /** Counts a header byte; false when the headers are too long. */
  function CountByte(p: Parser): (r: (bool, Parser)) {
    if ParsingHeader(p.state) then (p.nread + 1 <= MAX_HEADER_SIZE, p.(nread := p.nread + 1)) else (true, p)
  }

  /** The source's assert in the bulk states. */
  lemma BulkOwes(p: Parser)
    requires WF(p) && BulkState(p.state)
    ensures p.contentLength != 0 && p.contentLength != ULLONG_MAX
  {
  }

  /** A counted byte can be read; at the start of a chunk size it is the first one, as the source asserts. */
  lemma CountKeeps(p: Parser)
    requires WF(p) && !BulkState(p.state)
    ensures Counted(CountByte(p).1)
    ensures p.state.ChunkSizeStart? ==> CountByte(p).1.nread == 1
  {
  }

  /** The data callback to which the bytes of a state belong. */
  function DataKind(s: State): Mark {
    if UrlState(s) then Of(UrlData)
    else if s.HeaderField? then Of(FieldData)
    else if s.HeaderValue? then Of(ValueData)
    else NoMark
  }

  /**
   * The next state keeps the invariant, and the marks follow the states: a flush when a data state is left, a mark
   * when one is entered, never two kinds at once.
   */
  predicate Fits(s: State, ctl: Ctl) {
    ctl.Go? ==>
      var before, after := DataKind(s), DataKind(ctl.next.state);
      && WF(ctl.next)
      && (before.Of? ==>
            && ctl.mark == NoMark && !ctl.emptyValue && ctl.notes == []
            && if ctl.flush.Of? then ctl.flush == before && after == NoMark else after == before)
      && (before == NoMark ==> ctl.mark == after)
      && (before == NoMark && ctl.flush.Of? ==>
            s.ChunkDataAlmostDone? && after == NoMark && !ctl.emptyValue && ctl.notes == [])
      && (s.ChunkDataAlmostDone? ==> ctl.flush == Of(BodyData))
      && !ctl.next.state.ChunkDataAlmostDone?
      && (ctl.exit ==> !BulkState(ctl.next.state) && after == NoMark)
  }

  /** A state that is neither a data state nor the end of a chunk: no mark is set there. */
  predicate Unmarked(s: State) { DataKind(s) == NoMark && !s.ChunkDataAlmostDone? }

  lemma HeadersDoneFits(p: Parser, ch: Byte, s: State)
    requires p.contentLength <= ULLONG_MAX && Unmarked(s)
    ensures Fits(s, HeadersDoneByte(p, ch))
  {
  }

  lemma HeadersAlmostDoneFits(p: Parser, ch: Byte, s: State)
    requires p.contentLength <= ULLONG_MAX && Unmarked(s)
    ensures Fits(s, HeadersAlmostDoneByte(p, ch))
  {
    HeadersDoneFits(p.(state := HeadersDone, upgrade := p.flags.upgrade || p.verb == CONNECT), ch, s);
    hide HeadersDoneByte;
  }

  lemma FieldStartFits(p: Parser, ch: Byte, s: State)
    requires p.contentLength <= ULLONG_MAX && Unmarked(s)
    ensures Fits(s, FieldStartByte(p, ch))
  {
    HeadersAlmostDoneFits(p, ch, s);
    hide HeadersAlmostDoneByte, Token;
  }

  lemma ValueStartFits(p: Parser, ch: Byte, s: State)
    requires p.contentLength <= ULLONG_MAX && Unmarked(s)
    ensures Fits(s, ValueStartByte(p, ch))
  {
  }

  lemma ValueFits(p: Parser, ch: Byte)
    requires Counted(p) && p.state.HeaderValue?
    ensures Fits(p.state, ValueByte(p, ch))
  {
  }

  lemma FieldFits(p: Parser, ch: Byte)
    requires Counted(p) && p.state.HeaderField?
    ensures Fits(p.state, FieldByte(p, ch))
  {
  }

  lemma StartReqFits(p: Parser, ch: Byte)
    requires Counted(p) && p.state.StartReq?
    ensures Fits(p.state, StartReqByte(p, ch))
  {
  }

  lemma UrlStartFits(p: Parser, ch: Byte)
    requires Counted(p) && p.state.ReqSpacesBeforeUrl?
    ensures Fits(p.state, UrlStartByte(p, ch))
  {
    hide ParseUrlChar;
  }

  lemma UrlFits(p: Parser, ch: Byte)
    requires Counted(p) && UrlState(p.state)
    ensures Fits(p.state, UrlByte(p, ch))
  {
    hide ParseUrlChar;
  }

  lemma ReqMethodFits(p: Parser, ch: Byte)
    requires Counted(p) && p.state.ReqMethod?
    ensures Fits(p.state, ReqMethodByte(p, ch))
  {
    var (ok, m) := OtherMethod(p.verb, p.index, ch);
    if ok { OtherMethodIsLonger(p.verb, p.index, ch); }
    hide MethodName, OtherMethod;
  }

  lemma OtherMethodIsLonger(m: Method, index: nat, ch: Byte)
    requires OtherMethod(m, index, ch).0
    ensures index < |MethodName(OtherMethod(m, index, ch).1)|
  {
  }

  lemma VersionFits(p: Parser, ch: Byte)
    requires Counted(p) && DataKind(p.state) == NoMark && !InChunk(p.state)
    ensures Fits(p.state, VersionByte(p, ch))
  {
  }

  lemma ChunkFits(p: Parser, ch: Byte)
    requires Counted(p) && InChunk(p.state)
    ensures Fits(p.state, ChunkByte(p, ch))
  {
    if p.state.ChunkSizeStart? {
      ChunkStartFits(p, ch);
    } else if p.state.ChunkSize? {
      ChunkSizeFits(p, ch);
    } else {
      hide Unhex, SizeDigit;
    }
  }

  lemma ChunkStartFits(p: Parser, ch: Byte)
    requires Counted(p) && p.state.ChunkSizeStart?
    ensures Fits(p.state, ChunkByte(p, ch))
  {
    hide Unhex, SizeDigit;
  }

  lemma ChunkSizeFits(p: Parser, ch: Byte)
    requires Counted(p) && p.state.ChunkSize?
    ensures Fits(p.state, ChunkByte(p, ch))
  {
    SizeStaysBelow(p.contentLength, Unhex(ch));
    hide Unhex, SizeDigit;
  }

  /** An accepted size is below the "no length" mark. */
  lemma SizeStaysBelow(length: nat, d: int)
    requires length <= ULLONG_MAX && -1 <= d < 16
    ensures d != -1 && SizeDigit(length, d).0 ==> SizeDigit(length, d).1 < ULLONG_MAX
  {
  }

  lemma ValueLwsFits(p: Parser, ch: Byte)
    requires Counted(p) && Unmarked(p.state)
    ensures Fits(p.state, ValueLwsByte(p, ch))
  {
    ValueStartFits(p, ch, p.state);
    var flags := match p.headerState
      case KeepAlive => p.flags.(keepAlive := true)
      case Close => p.flags.(close := true)
      case Chunked => p.flags.(chunked := true)
      case _ => p.flags;
    FieldStartFits(p.(flags := flags, state := HeaderFieldStart), ch, p.state);
    hide FieldStartByte, ValueStartByte, Fits;
  }

  lemma DiscardFits(p: Parser, ch: Byte)
    requires Counted(p) && Unmarked(p.state)
    ensures p.state.HeaderValueDiscardWs? ==> Fits(p.state, DiscardWsByte(p, ch))
    ensures p.state.HeaderValueDiscardLws? ==> Fits(p.state, DiscardLwsByte(p, ch))
  {
    hide FieldStartByte, ValueStartByte;
    if p.state.HeaderValueDiscardWs? {
      ValueStartFits(p, ch, p.state);
    } else {
      FieldStartFits(p.(state := HeaderFieldStart), ch, p.state);
    }
  }

  lemma LineFeedFits(p: Parser, ch: Byte)
    requires Counted(p) && Unmarked(p.state)
    ensures p.state.Dead? ==> Fits(p.state, if ch == CR || ch == LF then To(p) else Fail(ClosedConnection))
    ensures Fits(p.state, if ch != LF then Fail(StrictCheck) else ToState(p, HeaderValueDiscardLws))
    ensures Fits(p.state, if ch != LF then Fail(StrictCheck) else ToState(p, HeaderValueLws))
  {
  }

  /** Every byte that is not an error keeps the invariant and the discipline of the marks. */
  lemma ControlFits(p: Parser, ch: Byte)
    requires Counted(p)
    ensures Fits(p.state, Control(p, ch))
  {
    hide Fits, VersionByte, ChunkByte, StartReqByte, ReqMethodByte, UrlStartByte, UrlByte, FieldByte, ValueByte,
         ValueStartByte, ValueLwsByte, DiscardWsByte, DiscardLwsByte, FieldStartByte, HeadersAlmostDoneByte,
         HeadersDoneByte, To, ToState;
    match p.state {
      case StartReq => StartReqFits(p, ch);
      case ReqMethod => ReqMethodFits(p, ch);
      case ReqSpacesBeforeUrl => UrlStartFits(p, ch);
      case HeaderField => FieldFits(p, ch);
      case HeaderValue => ValueFits(p, ch);
      case _ =>
        if UrlState(p.state) {
          UrlFits(p, ch);
        } else if InChunk(p.state) {
          ChunkFits(p, ch);
        } else {
          UnmarkedFits(p, ch);
        }
    }
  }

  lemma UnmarkedFits(p: Parser, ch: Byte)
    requires Counted(p) && Unmarked(p.state) && !InChunk(p.state) && !UrlState(p.state)
    requires !p.state.StartReq? && !p.state.ReqMethod? && !p.state.ReqSpacesBeforeUrl?
    ensures Fits(p.state, Control(p, ch))
  {
    hide Fits, VersionByte, ValueStartByte, ValueLwsByte, DiscardWsByte, DiscardLwsByte, FieldStartByte,
         HeadersAlmostDoneByte, HeadersDoneByte, To, ToState;
    VersionFits(p, ch);
    LineFeedFits(p, ch);
    DiscardFits(p, ch);
    ValueLwsFits(p, ch);
    ValueStartFits(p, ch, p.state);
    FieldStartFits(p, ch, p.state);
    HeadersDoneFits(p, ch, p.state);
    HeadersAlmostDoneFits(p, ch, p.state);
  }
}

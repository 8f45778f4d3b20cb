/** Events as a server sends them, and that exactly their data comes out of the stream. */
module SseEvents {
  import opened Bytes
  import opened Sse

  /** A line of an event: data, with or without the space that may stand before it, or any other line. */
  datatype Field = Data(space: bool, payload: string) | Other(text: string)

  datatype Event = Event(fields: seq<Field>, end: string)

  function FieldText(x: Field): string {
    match x
    case Data(space, payload) => "data:" + ((if space then " " else "") + payload)
    case Other(text) => text
  }

  predicate OneLine(text: string) { '\n' !in text && '\r' !in text }

  predicate FieldFits(x: Field) {
    match x
    case Data(space, payload) => OneLine(payload) && (!space && payload != "" ==> payload[0] != ' ')
    case Other(text) => OneLine(text) && text != "" && !("data:" <= text)
  }

  /** The lines of an event and the blank line after them, all with one kind of line end. */
  predicate EventFits(e: Event) {
    e.fields != [] && (e.end == "\n" || e.end == "\r\n") && forall i :: 0 <= i < |e.fields| ==> FieldFits(e.fields[i])
  }

  function FieldsText(fields: seq<Field>, end: string): string
    requires fields != []
  {
    if |fields| == 1 then FieldText(fields[0]) else FieldText(fields[0]) + (end + FieldsText(fields[1..], end))
  }

  function EventText(e: Event): string
    requires e.fields != []
  {
    FieldsText(e.fields, e.end) + (e.end + e.end)
  }

  predicate AllFit(events: seq<Event>) { forall i :: 0 <= i < |events| ==> EventFits(events[i]) }

  function Stream(events: seq<Event>): string
    requires AllFit(events)
  {
    if events == [] then "" else EventText(events[0]) + Stream(events[1..])
  }

  function DataOf(fields: seq<Field>): seq<string> {
    if fields == [] then [] else (if fields[0].Data? then [fields[0].payload] else []) + DataOf(fields[1..])
  }

  function AllData(events: seq<Event>): seq<string> {
    if events == [] then [] else DataOf(events[0].fields) + AllData(events[1..])
  }

  // ---- Frames ---------------------------------------------------------------------------------------------------------

  /** Every line end inside is followed by a line that is not empty. */
  predicate Quiet(s: string) {
    && (forall i :: 0 <= i < |s| && s[i] == '\n' ==> i + 1 < |s| && !IsEnd(s[i + 1]))
    && (forall i :: 0 <= i < |s| && s[i] == '\r' ==> i + 1 < |s| && s[i + 1] == '\n')
  }

  lemma FieldStarts(x: Field)
    requires FieldFits(x)
    ensures OneLine(FieldText(x)) && FieldText(x) != ""
  {
    if x.Data? {
      var t := (if x.space then " " else "") + x.payload;
      assert OneLine(t);
      assert OneLine("data:") && FieldText(x) == "data:" + t;
    }
  }

  lemma {:induction false} FieldsAreQuiet(fields: seq<Field>, end: string)
    requires fields != [] && (end == "\n" || end == "\r\n") && forall i :: 0 <= i < |fields| ==> FieldFits(fields[i])
    ensures Quiet(FieldsText(fields, end)) && FieldsText(fields, end) != "" && !IsEnd(FieldsText(fields, end)[0])
  {
    hide FieldText, FieldFits;
    FieldStarts(fields[0]);
    var t := FieldText(fields[0]);
    if |fields| == 1 {
      OneLineIsQuiet(t);
    } else {
      FieldsAreQuiet(fields[1..], end);
      QuietJoin(t, end, FieldsText(fields[1..], end));
    }
  }

  lemma OneLineIsQuiet(t: string)
    requires OneLine(t) && t != ""
    ensures Quiet(t) && !IsEnd(t[0])
  {
    assert forall i :: 0 <= i < |t| ==> t[i] in t;
  }

  lemma QuietJoin(t: string, end: string, rest: string)
    requires OneLine(t) && t != "" && (end == "\n" || end == "\r\n") && Quiet(rest) && rest != "" && !IsEnd(rest[0])
    ensures Quiet(t + (end + rest)) && !IsEnd((t + (end + rest))[0])
  {
    var s := t + (end + rest);
    assert forall i :: 0 <= i < |t| ==> t[i] in t && s[i] == t[i];
    assert forall i :: |t| + |end| <= i < |s| ==> s[i] == rest[i - |t| - |end|];
    assert s[|t|] == end[0] && s[|t| + |end| - 1] == end[|end| - 1];
  }

  /** The blank line behind a quiet text is the first one. */
  lemma BlankIsFirst(s: string, end: string, rest: string)
    requires Quiet(s) && (end == "\n" || end == "\r\n")
    ensures FirstDelimiter(s + ((end + end) + rest)) == At(|s|, 2 * |end|)
  {
    hide FirstDelimiter;
    var whole := s + ((end + end) + rest);
    FirstDelimiterIsFirst(whole);
    assert forall i :: 0 <= i < |s| ==> whole[i] == s[i];
    assert whole[|s|] == end[0] && whole[|s| + 1] == (end + end)[1];
    forall i: nat | i < |s| ensures !BlankAt(whole, i) {
      BlankChars(whole, i);
    }
    BlankChars(whole, |s|);
    if end == "\r\n" { assert whole[|s| + 2] == (end + end)[2] && whole[|s| + 3] == (end + end)[3]; }
    assert BlankAt(whole, |s|);
    BlankChars(whole, FirstDelimiter(whole).pos);
  }

  function FramesOf(events: seq<Event>): seq<string>
    requires AllFit(events)
  {
    if events == [] then [] else [FieldsText(events[0].fields, events[0].end)] + FramesOf(events[1..])
  }

  lemma {:induction false} StreamIsFramed(events: seq<Event>)
    requires AllFit(events)
    ensures Frame(Stream(events)) == Framing(FramesOf(events), "")
  {
    if events == [] {
      NothingFramed();
    } else {
      var e, rest := events[0], Stream(events[1..]);
      StreamIsFramed(events[1..]);
      assert EventFits(e);
      FieldsAreQuiet(e.fields, e.end);
      hide EventFits, FieldsText, Quiet, Frame, FirstDelimiter;
      var s := FieldsText(e.fields, e.end);
      BlankIsFirst(s, e.end, rest);
      assert Stream(events) == s + ((e.end + e.end) + rest);
      FrameStep(Stream(events));
      assert Stream(events)[|s| + 2 * |e.end|..] == rest && Stream(events)[..|s|] == s;
    }
  }

  // ---- Lines ------------------------------------------------------------------------------------------------------------

  function FieldTexts(fields: seq<Field>): seq<string> {
    if fields == [] then [] else [FieldText(fields[0])] + FieldTexts(fields[1..])
  }

  lemma {:induction false} FieldsAreLines(s: string, start: nat, fields: seq<Field>, end: string)
    requires fields != [] && (end == "\n" || end == "\r\n") && forall i :: 0 <= i < |fields| ==> FieldFits(fields[i])
    requires start <= |s| && s[start..] == FieldsText(fields, end)
    ensures LinesFrom(s, start) == FieldTexts(fields)
    decreases |fields|
  {
    hide FieldText, FieldFits, LinesFrom, LineEnd, NextLine;
    FieldStarts(fields[0]);
    var t := FieldText(fields[0]);
    if |fields| == 1 {
      LastLine(s, start, t);
      assert fields[1..] == [];
    } else {
      var rest := FieldsText(fields[1..], end);
      LineIsOne(t, end);
      FieldsAreQuiet(fields[1..], end);
      LineIsRead(s, start, Line(t, end), rest);
      FieldsAreLines(s, start + |t| + |end|, fields[1..], end);
      LinesFromFirst(s, start);
    }
  }

  lemma LineIsOne(t: string, end: string)
    requires OneLine(t) && (end == "\n" || end == "\r\n")
    ensures LineFits(Line(t, end))
  {
    assert forall i :: 0 <= i < |t| ==> t[i] in t;
  }

  lemma LastLine(s: string, start: nat, t: string)
    requires start <= |s| && s[start..] == t && OneLine(t) && t != ""
    ensures LinesFrom(s, start) == [t]
  {
    assert forall i :: start <= i < |s| ==> s[i] == s[start..][i - start] && s[start..][i - start] in t;
    assert start < |s| && s[start..|s|] == t;
    assert LineEnd(s, start) == |s| && NextLine(s, |s|) == |s| && LinesFrom(s, |s|) == [];
    LinesFromFirst(s, start);
    assert [t] + [] == [t];
  }

  lemma {:induction false} FieldsSay(fields: seq<Field>)
    requires forall i :: 0 <= i < |fields| ==> FieldFits(fields[i])
    ensures PayloadsOfLines(FieldTexts(fields)) == DataOf(fields)
  {
    hide FieldText, FieldFits, Payload;
    if fields != [] {
      FieldsSay(fields[1..]);
      FieldSays(fields[0]);
      assert FieldTexts(fields)[1..] == FieldTexts(fields[1..]);
    }
  }

  lemma FieldSays(x: Field)
    requires FieldFits(x)
    ensures "data:" <= FieldText(x) <==> x.Data?
    ensures x.Data? ==> Payload(FieldText(x)) == x.payload
  {
    if x.Data? {
      var t := (if x.space then " " else "") + x.payload;
      var line := FieldText(x);
      assert line == "data:" + t && line[..5] == "data:" && line[5..] == t;
      if x.space {
        assert t == " " + x.payload && t[0] == ' ' && t[1..] == x.payload;
      } else {
        assert t == x.payload && (t == "" || t[0] != ' ');
      }
      assert Payload(line) == if t != "" && t[0] == ' ' then t[1..] else t;
    }
  }

  lemma {:induction false} FramesSay(events: seq<Event>)
    requires AllFit(events)
    ensures PayloadsOf(FramesOf(events)) == AllData(events)
  {
    if events == [] {
      NoPayloads();
    } else {
      var e := events[0];
      var s := FieldsText(e.fields, e.end);
      assert EventFits(e);
      FieldsAreLines(s, 0, e.fields, e.end);
      FieldsSay(e.fields);
      FramesSay(events[1..]);
      hide PayloadsOf, FieldsText, LinesFrom, EventFits;
      PayloadsAppend([s], FramesOf(events[1..]));
      PayloadsOfOne(s);
    }
  }

  /** Of a stream of events, cut into chunks in any way, exactly the data comes out, in order, and nothing is left over. */
  method ReceiveEvents(events: seq<Event>, chunks: seq<string>) returns (r: Receiver)
    requires AllFit(events) && Joined(chunks) == Stream(events)
    ensures fresh(r) && r.payloads == AllData(events) && r.buffer == ""
  {
    hide *;
    r := new Receiver();
    r.Receive(chunks);
    StreamIsFramed(events);
    FramesSay(events);
  }
}

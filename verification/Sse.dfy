/** Server-sent events as the LLM proxy receives them: frames out of chunks, lines out of frames, payloads out of lines. */
module Sse {
  import opened Bytes

  // ---- Frames ---------------------------------------------------------------------------------------------------------

  datatype Delimiter = None | At(pos: nat, length: nat)

  /** The first blank line, in either form. */
  function FirstDelimiter(s: string): (d: Delimiter)
    ensures d.At? ==> d.length > 0 && d.pos + d.length <= |s|
  {
    var pos1 := Find(s, "\n\n", 0);
    var pos2 := Find(s, "\r\n\r\n", 0);
    if pos1 == -1 && pos2 == -1 then None
    else if pos2 == -1 || (pos1 != -1 && pos1 < pos2) then assert OccursAt(s, pos1, "\n\n"); At(pos1, 2)
    else assert OccursAt(s, pos2, "\r\n\r\n"); At(pos2, 4)
  }

  /** A blank line of either form stands at i. */
  predicate BlankAt(s: string, i: nat) { OccursAt(s, i, "\n\n") || OccursAt(s, i, "\r\n\r\n") }

  lemma FirstDelimiterIsFirst(s: string)
    ensures FirstDelimiter(s).None? <==> forall i: nat :: !BlankAt(s, i)
    ensures FirstDelimiter(s).At? ==>
              var d := FirstDelimiter(s);
              && OccursAt(s, d.pos, if d.length == 2 then "\n\n" else "\r\n\r\n") && (d.length == 2 || d.length == 4)
              && forall i: nat :: i < d.pos ==> !BlankAt(s, i)
  {
    var pos1, pos2 := Find(s, "\n\n", 0), Find(s, "\r\n\r\n", 0);
    if FirstDelimiter(s).None? {
      forall i: nat ensures !BlankAt(s, i) {
        assert !OccursAt(s, i, "\n\n") && !OccursAt(s, i, "\r\n\r\n");
      }
    } else {
      var d := FirstDelimiter(s);
      assert BlankAt(s, d.pos);
      forall i: nat | i < d.pos ensures !BlankAt(s, i) {
        assert !OccursAt(s, i, "\n\n") && !OccursAt(s, i, "\r\n\r\n");
      }
    }
  }

  datatype Framing = Framing(frames: seq<string>, leftover: string)

  /** Everything up to the last blank line as frames, and the rest. */
  function Frame(s: string): (r: Framing)
    decreases |s|
  {
    var d := FirstDelimiter(s);
    if d.None? then Framing([], s)
    else
      var rest := Frame(s[d.pos + d.length..]);
      Framing([s[..d.pos]] + rest.frames, rest.leftover)
  }

  lemma {:induction false} LeftoverHasNoBlankLine(s: string)
    ensures forall i: nat :: !BlankAt(Frame(s).leftover, i)
    decreases |s|
  {
    FirstDelimiterIsFirst(s);
    var d := FirstDelimiter(s);
    if d.At? { LeftoverHasNoBlankLine(s[d.pos + d.length..]); }
  }

  lemma BlankChars(s: string, i: nat)
    ensures OccursAt(s, i, "\n\n") <==> i + 2 <= |s| && s[i] == '\n' && s[i + 1] == '\n'
    ensures OccursAt(s, i, "\r\n\r\n") <==>
              i + 4 <= |s| && s[i] == '\r' && s[i + 1] == '\n' && s[i + 2] == '\r' && s[i + 3] == '\n'
  {
    if i + 2 <= |s| {
      assert s[i..i + 2] == [s[i], s[i + 1]];
    }
    if i + 4 <= |s| {
      assert s[i..i + 4] == [s[i], s[i + 1], s[i + 2], s[i + 3]];
    }
  }

  /** More data neither moves nor completes an earlier delimiter, not even one cut in the middle. */
  lemma DelimiterStays(a: string, b: string)
    requires FirstDelimiter(a).At?
    ensures FirstDelimiter(a + b) == FirstDelimiter(a)
  {
    hide FirstDelimiter;
    var s, d, e := a + b, FirstDelimiter(a), FirstDelimiter(a + b);
    FirstDelimiterIsFirst(a);
    FirstDelimiterIsFirst(s);
    BlankChars(a, d.pos);
    BlankChars(s, d.pos);
    assert BlankAt(s, d.pos);
    forall i: nat | i < d.pos ensures !BlankAt(s, i) {
      NoEarlier(a, b, i);
    }
    assert BlankAt(s, e.pos);
  }

  lemma NoEarlier(a: string, b: string, i: nat)
    requires FirstDelimiter(a).At? && i < FirstDelimiter(a).pos
    ensures !BlankAt(a + b, i)
  {
    hide FirstDelimiter;
    FirstDelimiterIsFirst(a);
    assert !BlankAt(a, i);
    BlankChars(a, i);
    BlankChars(a + b, i);
    BlankChars(a, FirstDelimiter(a).pos);
  }

  lemma FrameStep(s: string)
    requires FirstDelimiter(s).At?
    ensures var d := FirstDelimiter(s); var rest := Frame(s[d.pos + d.length..]);
            Frame(s) == Framing([s[..d.pos]] + rest.frames, rest.leftover)
  {}

  lemma DelimiterInside(s: string)
    requires FirstDelimiter(s).At?
    ensures FirstDelimiter(s).pos + FirstDelimiter(s).length <= |s|
  {}

  /** Cutting the stream anywhere, also inside a delimiter, changes neither the frames nor the leftover. */
  lemma {:induction false} FrameAppend(a: string, b: string)
    ensures var first := Frame(a); var second := Frame(first.leftover + b);
            Frame(a + b) == Framing(first.frames + second.frames, second.leftover)
    decreases |a|
  {
    hide FirstDelimiter, Frame;
    var d := FirstDelimiter(a);
    if d.None? {
      FrameEnds(a);
      var s := Frame(a + b);
      assert [] + s.frames == s.frames;
    } else {
      var rest := a[d.pos + d.length..];
      DelimiterStays(a, b);
      FrameAppend(rest, b);
      FrameStep(a);
      FrameStep(a + b);
      DelimiterInside(a);
      CutAt(a, b, d.pos + d.length);
      CutAt(a, b, d.pos);
      var first, second := Frame(rest), Frame(Frame(rest).leftover + b);
      assert [a[..d.pos]] + (first.frames + second.frames) == [a[..d.pos]] + first.frames + second.frames;
    }
  }

  lemma CutAt(a: string, b: string, i: nat)
    requires i <= |a|
    ensures (a + b)[i..] == a[i..] + b && (a + b)[..i] == a[..i]
  {}

  lemma FrameEnds(s: string)
    requires FirstDelimiter(s).None?
    ensures Frame(s) == Framing([], s)
  {}

  // ---- Lines ------------------------------------------------------------------------------------------------------------

  predicate IsEnd(c: char) { c == '\n' || c == '\r' }

  /** find_first_of("\n\r", start), or the length. */
  function LineEnd(s: string, start: nat): (r: nat)
    requires start <= |s|
    ensures start <= r <= |s| && (forall i :: start <= i < r ==> !IsEnd(s[i])) && (r < |s| ==> IsEnd(s[r]))
    decreases |s| - start
  {
    if start < |s| && !IsEnd(s[start]) then LineEnd(s, start + 1) else start
  }

  /** Where the line after the one ending at `end` starts. */
  function NextLine(s: string, end: nat): (r: nat)
    requires end <= |s|
    ensures end <= r <= |s| && (end < |s| ==> end < r)
  {
    if end == |s| then |s|
    else if s[end] == '\r' && end + 1 < |s| && s[end + 1] == '\n' then end + 2
    else end + 1
  }

  function LinesFrom(s: string, start: nat): seq<string>
    requires start <= |s|
    decreases |s| - start
  {
    if start == |s| then []
    else
      var end := LineEnd(s, start);
      [s[start..end]] + LinesFrom(s, NextLine(s, end))
  }

  /** A line of a frame as it was sent, with one of the three line ends. */
  datatype Line = Line(text: string, end: string)

  predicate LineFits(l: Line) {
    (forall i :: 0 <= i < |l.text| ==> !IsEnd(l.text[i])) && l.end in ["\n", "\r", "\r\n"]
  }

  function Sent(lines: seq<Line>): string {
    if lines == [] then "" else lines[0].text + (lines[0].end + Sent(lines[1..]))
  }

  /** A lone "\r" must not be followed by an empty line ended by "\n", which would read as one line end. */
  predicate EndsApart(lines: seq<Line>) {
    forall i :: 0 <= i < |lines| - 1 ==>
      !(lines[i].end == "\r" && lines[i + 1].text == "" && lines[i + 1].end == "\n")
  }

  lemma LineIsRead(s: string, start: nat, l: Line, rest: string)
    requires start <= |s| && s[start..] == l.text + (l.end + rest) && LineFits(l)
    requires l.end == "\r" ==> rest == "" || rest[0] != '\n'
    ensures start < |s| && LineEnd(s, start) == start + |l.text| && s[start..start + |l.text|] == l.text
    ensures NextLine(s, LineEnd(s, start)) == start + |l.text| + |l.end|
    ensures s[start + |l.text| + |l.end|..] == rest
  {
    var end := start + |l.text|;
    Parts(s, start, l.text, l.end + rest);
    Parts(s, end, l.end, rest);
    assert s[end] == s[end..][0] == (l.end + rest)[0] == l.end[0];
    forall i | start <= i < end ensures !IsEnd(s[i]) {
      assert s[start..end][i - start] == s[i];
    }
    if l.end == "\r\n" {
      assert s[end + 1] == (l.end + rest)[1];
    } else if l.end == "\r" && rest != "" {
      assert s[end + 1] == (l.end + rest)[1] == rest[0];
    }
  }

  lemma Parts(s: string, start: nat, part: string, rest: string)
    requires start <= |s| && s[start..] == part + rest
    ensures start + |part| <= |s| && s[start..start + |part|] == part && s[start + |part|..] == rest
  {
    assert s[start..][..|part|] == part;
    assert s[start..][|part|..] == rest;
  }

  lemma FirstOf(a: string, b: string, c: string)
    requires b != ""
    ensures (a + (b + c))[0] == if a != "" then a[0] else b[0]
  {}

  lemma SentStart(lines: seq<Line>)
    requires lines != [] && LineFits(lines[0]) && Sent(lines) != "" && Sent(lines)[0] == '\n'
    ensures lines[0].text == "" && lines[0].end == "\n"
  {
    FirstOf(lines[0].text, lines[0].end, Sent(lines[1..]));
  }

  function Texts(lines: seq<Line>): seq<string> {
    if lines == [] then [] else [lines[0].text] + Texts(lines[1..])
  }

  /** The lines of a frame are the lines that were sent. */
  lemma {:induction false} LinesAreRead(s: string, start: nat, lines: seq<Line>)
    requires start <= |s| && s[start..] == Sent(lines)
    requires EndsApart(lines) && forall i :: 0 <= i < |lines| ==> LineFits(lines[i])
    ensures LinesFrom(s, start) == Texts(lines)
    decreases |lines|
  {
    hide *;
    if lines == [] {
      NoLines(s, start);
    } else {
      var l, rest := lines[0], Sent(lines[1..]);
      EndStandsApart(lines);
      SentFirst(lines);
      LineIsRead(s, start, l, rest);
      RestApart(lines);
      LinesAreRead(s, start + |l.text| + |l.end|, lines[1..]);
      LinesFromFirst(s, start);
    }
  }

  lemma EndStandsApart(lines: seq<Line>)
    requires lines != [] && EndsApart(lines) && forall i :: 0 <= i < |lines| ==> LineFits(lines[i])
    ensures var rest := Sent(lines[1..]); lines[0].end == "\r" ==> rest == "" || rest[0] != '\n'
  {
    hide LineFits;
    assert |lines| > 1 ==> lines[1..][0] == lines[1];
    var rest := Sent(lines[1..]);
    if rest != "" && rest[0] == '\n' { SentStart(lines[1..]); }
  }

  lemma SentFirst(lines: seq<Line>)
    requires lines != []
    ensures Sent(lines) == lines[0].text + (lines[0].end + Sent(lines[1..])) && Texts(lines) == [lines[0].text] + Texts(lines[1..])
  {}

  lemma NoLines(s: string, start: nat)
    requires start <= |s| && s[start..] == Sent([])
    ensures LinesFrom(s, start) == Texts([]) == []
  {
    assert |s[start..]| == |s| - start;
  }

  lemma LinesFromFirst(s: string, start: nat)
    requires start < |s|
    ensures LinesFrom(s, start) == [s[start..LineEnd(s, start)]] + LinesFrom(s, NextLine(s, LineEnd(s, start)))
  {}

  lemma RestApart(lines: seq<Line>)
    requires lines != [] && EndsApart(lines)
    ensures EndsApart(lines[1..])
  {
    forall i | 0 <= i < |lines[1..]| - 1
      ensures !(lines[1..][i].end == "\r" && lines[1..][i + 1].text == "" && lines[1..][i + 1].end == "\n")
    {
      assert lines[1..][i] == lines[i + 1] && lines[1..][i + 1] == lines[i + 2];
    }
  }

  // ---- Payloads -----------------------------------------------------------------------------------------------------------

  function Payload(line: string): string
    requires "data:" <= line
  {
    var p := line[5..];
    if p != "" && p[0] == ' ' then p[1..] else p
  }

  function PayloadsOfLines(lines: seq<string>): seq<string> {
    if lines == [] then []
    else
      (if "data:" <= lines[0] then [Payload(lines[0])] else []) + PayloadsOfLines(lines[1..])
  }

  function PayloadsOf(frames: seq<string>): seq<string> {
    if frames == [] then [] else PayloadsOf(frames[..|frames| - 1]) + PayloadsOfLines(LinesFrom(frames[|frames| - 1], 0))
  }

  lemma {:induction false} PayloadsAppend(a: seq<string>, b: seq<string>)
    ensures PayloadsOf(a + b) == PayloadsOf(a) + PayloadsOf(b)
  {
    hide LinesFrom, PayloadsOfLines;
    if b == [] {
      assert a + b == a;
    } else {
      PayloadsAppend(a, b[..|b| - 1]);
      assert (a + b)[..|a + b| - 1] == a + b[..|b| - 1];
    }
  }

  /** The state of the write callback; the payloads stand for what is sent on, which depends on nothing else. */
  class Receiver {
    var buffer: string
    var payloads: seq<string>

    constructor ()
      ensures buffer == "" && payloads == []
    {
      buffer := "";
      payloads := [];
    }

    /** write_cb: the frames that a chunk completes are taken out of the buffer and examined. */
    method Write(chunk: string)
      modifies this
      ensures buffer == Frame(old(buffer) + chunk).leftover
      ensures payloads == old(payloads) + PayloadsOf(Frame(old(buffer) + chunk).frames)
    {
      hide LinesFrom, PayloadsOfLines, PayloadsOf, Frame, Find;
      buffer := buffer + chunk;
      ghost var whole := Frame(buffer);
      ghost var done: seq<string> := [];
      assert PayloadsOf([]) == [] by { NoPayloads(); }
      while true
        invariant |done| <= |whole.frames| && done == whole.frames[..|done|]
        invariant Frame(buffer) == Framing(whole.frames[|done|..], whole.leftover)
        invariant payloads == old(payloads) + PayloadsOf(done)
        decreases |buffer|
      {
        var pos1 := Find(buffer, "\n\n", 0);
        var pos2 := Find(buffer, "\r\n\r\n", 0);
        var pos, delimLen;
        if pos1 == -1 && pos2 == -1 {
          FrameEnds(buffer);
          break;
        }
        if pos2 == -1 || (pos1 != -1 && pos1 < pos2) {
          pos, delimLen := pos1, 2;
        } else {
          pos, delimLen := pos2, 4;
        }
        assert FirstDelimiter(buffer) == At(pos, delimLen);
        FrameStep(buffer);
        var frame := buffer[..pos];
        ghost var rest := Frame(buffer[pos + delimLen..]);
        TakeOne(whole.frames, |done|, frame, rest.frames);
        PayloadsAppend(done, [frame]);
        PayloadsOfOne(frame);
        done := done + [frame];
        buffer := buffer[pos + delimLen..];
        var found := Examine(frame);
        payloads := payloads + found;
      }
      assert done == whole.frames;
    }

    /** A whole stream, however it is cut into chunks. */
    method Receive(chunks: seq<string>)
      requires buffer == "" && payloads == []
      modifies this
      ensures buffer == Frame(Joined(chunks)).leftover && payloads == PayloadsOf(Frame(Joined(chunks)).frames)
    {
      var i := 0;
      assert Frame("").frames == [] && Frame("").leftover == "" by { NothingFramed(); }
      assert chunks[..0] == [];
      while i < |chunks|
        invariant 0 <= i <= |chunks|
        invariant buffer == Frame(Joined(chunks[..i])).leftover && payloads == PayloadsOf(Frame(Joined(chunks[..i])).frames)
      {
        hide Frame, PayloadsOf;
        FrameAppend(Joined(chunks[..i]), chunks[i]);
        PayloadsAppend(Frame(Joined(chunks[..i])).frames, Frame(Frame(Joined(chunks[..i])).leftover + chunks[i]).frames);
        assert chunks[..i + 1][..i] == chunks[..i];
        Write(chunks[i]);
        i := i + 1;
      }
      assert chunks[..i] == chunks;
    }
  }

  /** The loop over the lines of a frame. */
  method Examine(frame: string) returns (found: seq<string>)
    ensures found == PayloadsOfLines(LinesFrom(frame, 0))
  {
    found := [];
    var start := 0;
    while start < |frame|
      invariant 0 <= start <= |frame|
      invariant found + PayloadsOfLines(LinesFrom(frame, start)) == PayloadsOfLines(LinesFrom(frame, 0))
      decreases |frame| - start
    {
      var end := start;
      while end < |frame| && !IsEnd(frame[end])
        invariant start <= end <= |frame| && LineEnd(frame, end) == LineEnd(frame, start)
      {
        end := end + 1;
      }
      var line := frame[start..end];
      FirstLine(frame, start, found);
      start := NextLine(frame, end);
      if "data:" <= line {
        found := found + [Payload(line)];
      }
    }
  }

  lemma FirstLine(frame: string, start: nat, found: seq<string>)
    requires start < |frame|
    ensures var line := frame[start..LineEnd(frame, start)];
            found + PayloadsOfLines(LinesFrom(frame, start))
            == (if "data:" <= line then found + [Payload(line)] else found)
               + PayloadsOfLines(LinesFrom(frame, NextLine(frame, LineEnd(frame, start))))
  {
    var line := frame[start..LineEnd(frame, start)];
    var rest := LinesFrom(frame, NextLine(frame, LineEnd(frame, start)));
    assert LinesFrom(frame, start) == [line] + rest;
    assert ([line] + rest)[1..] == rest;
  }

  lemma TakeOne(xs: seq<string>, n: nat, x: string, rest: seq<string>)
    requires n <= |xs| && xs[n..] == [x] + rest
    ensures n < |xs| && xs[..n + 1] == xs[..n] + [x] && xs[n + 1..] == rest
  {
    assert xs[n] == xs[n..][0];
    assert xs[n..][1..] == xs[n + 1..];
  }

  lemma NoPayloads()
    ensures PayloadsOf([]) == []
  {}

  lemma PayloadsOfOne(frame: string)
    ensures PayloadsOf([frame]) == PayloadsOfLines(LinesFrom(frame, 0))
  {
    assert [frame][..0] == [];
  }

  lemma NothingFramed()
    ensures Frame("") == Framing([], "")
  {
    assert FirstDelimiter("").None?;
  }

  function Joined(chunks: seq<string>): string {
    if chunks == [] then "" else Joined(chunks[..|chunks| - 1]) + chunks[|chunks| - 1]
  }
}

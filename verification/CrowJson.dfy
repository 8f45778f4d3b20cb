/** crow JSON strings in their buffer: dump_string, decode_string and the in-place unescape. */
module CrowJson {
  import opened Bytes
  import opened Utf8
  import opened CrowJsonText
  import opened JsonStrings
  import opened CrowStrings

  method Escape(str: Bytes, before: Bytes) returns (ret: Bytes)
    ensures ret == before + Escaped(str)
  {
    ret := before;
    var i := 0;
    assert str[..0] == [] && before + Escaped([]) == before;
    hide *;
    while i < |str|
      invariant 0 <= i <= |str| && ret == before + Escaped(str[..i])
    {
      var piece := EscapeByte(str[i]);
      EscapedSnoc(str[..i], str[i]);
      assert str[..i + 1] == str[..i] + [str[i]];
      assert (before + Escaped(str[..i])) + piece == before + (Escaped(str[..i]) + piece);
      ret := ret + piece;
      i := i + 1;
    }
    assert str[..i] == str;
  }

  /** The switch of escape(). */
  method EscapeByte(c: Byte) returns (piece: Bytes)
    ensures piece == EscapeChar(c)
  {
    match c {
      case '"' => piece := ['\\', '"'];
      case '\\' => piece := ['\\', '\\'];
      case '\n' => piece := ['\\', 'n'];
      case '\U{08}' => piece := ['\\', 'b'];
      case '\U{0C}' => piece := ['\\', 'f'];
      case '\r' => piece := ['\\', 'r'];
      case '\t' => piece := ['\\', 't'];
      case _ =>
        if c < ' ' {
          piece := ['\\', 'u', '0', '0'];
          piece := piece + [ToHex(c as int / 16)];
          piece := piece + [ToHex(c as int % 16)];
        } else {
          piece := [c];
        }
    }
  }

  method DumpString(str: Bytes, before: Bytes) returns (out: Bytes)
    ensures out == before + ['"'] + Escaped(str) + ['"']
  {
    out := Escape(str, before + ['"']);
    out := out + ['"'];
  }

  /** A string value: the stretch of a shared buffer from start to end, with its flag in the byte before and NUL after. */
  class StringValue {
    const buffer: array<Byte>
    const start: nat
    var end: nat

    constructor (buffer: array<Byte>, start: nat, end: nat)
      ensures this.buffer == buffer && this.start == start && this.end == end
    {
      this.buffer := buffer;
      this.start := start;
      this.end := end;
    }

    /** The flag is raised over decodable text, or lowered over final text. */
    ghost predicate Valid()
      reads this, buffer
    {
      && 0 < start <= end < buffer.Length && buffer[end] == '\0'
      && (buffer[start - 1] != '\0' ==> Decodable(buffer[start..end]))
    }

    /** The bytes the value stands for. */
    ghost function Contents(): Bytes
      reads this, buffer
      requires Valid()
    {
      if buffer[start - 1] != '\0' then Unescaped(buffer[start..end]) else buffer[start..end]
    }

    /**
     * Rewrites the escapes in place. The value keeps its contents, the flag is lowered, and no byte outside the value,
     * its flag and its NUL changes.
     */
    method Unescape()
      requires Valid()
      modifies this`end, buffer
      ensures Valid() && buffer[start - 1] == '\0' && end <= old(end)
      ensures Contents() == old(Contents()) == buffer[start..end]
      ensures old(buffer[start - 1]) != '\0' ==>
                forall units :: AllFit(units) && Text(units) == old(buffer[start..end]) ==> buffer[start..end] == Said(units)
      ensures old(buffer[start - 1]) == '\0' ==> end == old(end) && buffer[..] == old(buffer[..])
      ensures forall i :: 0 <= i < buffer.Length && !(start - 1 <= i <= old(end)) ==> buffer[i] == old(buffer[i])
    {
      ghost var text := buffer[start..end];
      if buffer[start - 1] != '\0' { SaidIsUnescaped(text); }
      hide AllFit, Said, Text;
      if buffer[start - 1] != '\0' {
        hide Unescaped, Decodable;
        var tail := Rewrite();
        ghost var value := buffer[start..tail];
        end := tail;
        buffer[end] := '\0';
        assert buffer[start..end] == value;
        buffer[start - 1] := '\0';
        assert buffer[start..end] == value;
      }
    }

    /** The loop of unescape(). */
    method Rewrite() returns (tail: nat)
      requires start <= end < buffer.Length && Decodable(buffer[start..end])
      modifies buffer
      ensures start <= tail <= end && buffer[start..tail] == Unescaped(old(buffer[start..end]))
      ensures forall i :: 0 <= i < buffer.Length && !(start <= i < end) ==> buffer[i] == old(buffer[i])
    {
      hide Decodable, Unescaped, UnitLength, UnitValue;
      ghost var text := buffer[start..end];
      var head := start;
      tail := start;
      assert buffer[start..start] == [] && text[0..] == text;
      assert buffer[start..start] + Unescaped(text) == Unescaped(text);
      while head != end
        invariant start <= tail <= head <= end < buffer.Length
        invariant buffer[head..end] == text[head - start..] && Decodable(text[head - start..])
        invariant buffer[start..tail] + Unescaped(text[head - start..]) == Unescaped(text)
        invariant forall i :: 0 <= i < buffer.Length && !(start <= i < head) ==> buffer[i] == old(buffer[i])
        decreases end - head
      {
        head, tail := Turn(head, tail, text);
      }
      assert text[head - start..] == [];
      NothingDecodable();
      assert buffer[start..tail] + [] == buffer[start..tail];
    }

    /** One turn of the loop, and what it leaves to be done. */
    method Turn(head: nat, tail: nat, ghost text: Bytes) returns (head': nat, tail': nat)
      requires start <= tail <= head < end < buffer.Length && |text| == end - start
      requires buffer[head..end] == text[head - start..] && Decodable(text) && Decodable(text[head - start..])
      requires buffer[start..tail] + Unescaped(text[head - start..]) == Unescaped(text)
      modifies buffer
      ensures head < head' <= end && start <= tail' <= head'
      ensures buffer[head'..end] == text[head' - start..] && Decodable(text[head' - start..])
      ensures buffer[start..tail'] + Unescaped(text[head' - start..]) == Unescaped(text)
      ensures forall i :: 0 <= i < buffer.Length && !(start <= i < head') ==> buffer[i] == old(buffer[i])
    {
      hide Decodable, Unescaped, UnitLength, UnitValue;
      ghost var rest, done := text[head - start..], buffer[start..tail];
      UnescapedStep(rest);
      head', tail' := UnescapeUnit(head, tail, rest);
      assert rest[head' - head..] == text[head' - start..];
      assert buffer[start..tail'] == buffer[start..tail] + buffer[tail..tail'];
      assert buffer[start..tail] == done;
      assert done + UnitValue(rest) + Unescaped(rest[head' - head..]) == done + (UnitValue(rest) + Unescaped(rest[head' - head..]));
      assert buffer[head'..end] == old(buffer[head..end])[head' - head..];
    }

    /** The unit at head is written at tail, which never passes head. */
    method UnescapeUnit(head: nat, tail: nat, ghost rest: Bytes) returns (head': nat, tail': nat)
      requires tail <= head < end < buffer.Length && buffer[head..end] == rest && UnitLength(rest) > 0
      modifies buffer
      ensures head < head' <= end && tail <= tail' <= head' && head' - head == UnitLength(rest)
      ensures buffer[tail..tail'] == UnitValue(rest)
      ensures forall i :: 0 <= i < buffer.Length && !(tail <= i < tail') ==> buffer[i] == old(buffer[i])
    {
      hide Code, Encoded, Hex4;
      assert rest[0] == buffer[head];
      if buffer[head] == '\\' {
        assert rest[1] == buffer[head + 1];
        var c := buffer[head + 1];
        match c {
          case '"' => buffer[tail] := '"';
          case '\\' => buffer[tail] := '\\';
          case '/' => buffer[tail] := '/';
          case 'b' => buffer[tail] := '\U{08}';
          case 'f' => buffer[tail] := '\U{0C}';
          case 'n' => buffer[tail] := '\n';
          case 'r' => buffer[tail] := '\r';
          case 't' => buffer[tail] := '\t';
          case _ =>
            assert c == 'u';
            tail' := UnescapeCode(head, tail, rest);
            return head + 6, tail';
        }
        head', tail' := head + 2, tail + 1;
      } else {
        buffer[tail] := buffer[head];
        head', tail' := head + 1, tail + 1;
      }
    }

    method UnescapeCode(head: nat, tail: nat, ghost rest: Bytes) returns (tail': nat)
      requires tail <= head && head + 6 <= end < buffer.Length && buffer[head..end] == rest && Hex4(rest, 2)
      modifies buffer
      ensures tail <= tail' <= tail + 3 && buffer[tail..tail'] == Encoded(Code(rest, 2))
      ensures forall i :: 0 <= i < buffer.Length && !(tail <= i < tail') ==> buffer[i] == old(buffer[i])
    {
      assert rest[2] == buffer[head + 2] && rest[3] == buffer[head + 3] && rest[4] == buffer[head + 4] && rest[5] == buffer[head + 5];
      var code := FromHex(buffer[head + 2]) * 4096 + FromHex(buffer[head + 3]) * 256
                  + FromHex(buffer[head + 4]) * 16 + FromHex(buffer[head + 5]);
      assert code == Code(rest, 2);
      if code >= 0x800 {
        buffer[tail] := (0xE0 + code / 4096) as char;
        buffer[tail + 1] := (0x80 + code / 64 % 64) as char;
        buffer[tail + 2] := (0x80 + code % 64) as char;
        tail' := tail + 3;
      } else if code >= 0x80 {
        buffer[tail] := (0xC0 + code / 64) as char;
        buffer[tail + 1] := (0x80 + code % 64) as char;
        tail' := tail + 2;
      } else {
        buffer[tail] := code as char;
        tail' := tail + 1;
      }
    }

    /** s(): what a reader of the value gets, the first time and every time after. */
    method Read() returns (text: Bytes)
      requires Valid()
      modifies this`end, buffer
      ensures Valid() && text == old(Contents()) == Contents() && buffer[start - 1] == '\0'
      ensures old(buffer[start - 1]) == '\0' ==> end == old(end) && buffer[..] == old(buffer[..])
    {
      Unescape();
      text := buffer[start..end];
    }
  }

  // ---- decode_string ------------------------------------------------------------------------------------------------------

  /** A string at `at`, or nothing; with it the position after its closing quote. */
  method DecodeString(data: array<Byte>, at: nat) returns (ok: bool, value: StringValue?, next: nat)
    requires at < data.Length && data[data.Length - 1] == '\0'
    modifies data
    ensures ok <==> exists end, text :: IsString(old(data[..]), at, end, text)
    ensures !ok ==> data[..] == old(data[..]) && value == null
    ensures ok ==> value != null && fresh(value) && value.buffer == data && value.start == at + 1 && value.Valid()
    ensures ok ==> next == value.end + 1 && IsString(old(data[..]), at, next, value.Contents())
    ensures ok ==> forall i :: 0 <= i < data.Length && i != at && i != value.end ==> data[i] == old(data[i])
  {
    hide ScanFrom, Decodable, Unescaped, IsString;
    ghost var text := data[..];
    DecodedIff(text, at);
    ok, value, next := false, null, at;
    if data[at] != '"' { return; }
    var start := at + 1;
    var end, hasEscape;
    ok, end, hasEscape := FindEnd(data, start);
    if !ok { return; }
    FlagMeans(text, start);
    data[end] := '\0';
    data[start - 1] := if hasEscape then '\U{01}' else '\0';
    assert data[start..end] == text[start..end];
    value := new StringValue(data, start, end);
    next := end + 1;
  }

  /** The loop of decode_string: on to the closing quote, checking every escape. */
  method FindEnd(data: array<Byte>, start: nat) returns (ok: bool, end: nat, hasEscape: bool)
    requires start < data.Length && data[data.Length - 1] == '\0'
    ensures ok == ScanFrom(data[..], start, false).Closed?
    ensures ok ==> start <= end < data.Length && ScanFrom(data[..], start, false) == Closed(end, hasEscape)
  {
    hide ScanFrom;
    ok, end, hasEscape := false, start, false;
    while true
      invariant start <= end < data.Length
      invariant ScanFrom(data[..], end, hasEscape) == ScanFrom(data[..], start, false)
      decreases data.Length - end
    {
      ScanStep(data[..], end, hasEscape);
      if data[end] != '"' && data[end] != '\\' && data[end] != '\0' {
        end := end + 1;
      } else if data[end] == '"' {
        return true, end, hasEscape;
      } else if data[end] == '\\' {
        if data[end + 1] == 'u' {
          var hex := CheckHex(data, end + 2);
          if !hex { return; }
          end := end + 6;
        } else if data[end + 1] in SIMPLE {
          end := end + 2;
        } else {
          return;
        }
        hasEscape := true;
      } else {
        return;
      }
    }
  }

  /** Four hex digits, read one after the other so that the NUL stops the reading. */
  method CheckHex(data: array<Byte>, i: nat) returns (ok: bool)
    requires i < data.Length && data[data.Length - 1] == '\0'
    ensures ok == Hex4(data[..], i)
    ensures ok ==> i + 4 < data.Length
  {
    ok := IsHex(data[i]) && IsHex(data[i + 1]) && IsHex(data[i + 2]) && IsHex(data[i + 3]);
  }

  lemma ScanStep(text: Bytes, i: nat, hasEscape: bool)
    requires i < |text| && text[|text| - 1] == '\0'
    ensures text[i] == '\0' ==> ScanFrom(text, i, hasEscape).Broken?
    ensures text[i] == '"' ==> ScanFrom(text, i, hasEscape) == Closed(i, hasEscape)
    ensures text[i] !in ['"', '\\', '\0'] ==> i + 1 < |text| && ScanFrom(text, i, hasEscape) == ScanFrom(text, i + 1, hasEscape)
    ensures text[i] == '\\' ==> i + 1 < |text|
    ensures text[i] == '\\' && text[i + 1] == 'u' ==>
              i + 2 < |text| && ScanFrom(text, i, hasEscape) == if Hex4(text, i + 2) then ScanFrom(text, i + 6, true) else Broken
    ensures text[i] == '\\' && text[i + 1] in SIMPLE ==> i + 2 < |text| && ScanFrom(text, i, hasEscape) == ScanFrom(text, i + 2, true)
    ensures text[i] == '\\' && text[i + 1] != 'u' && text[i + 1] !in SIMPLE ==> ScanFrom(text, i, hasEscape).Broken?
  {
    var rest := text[i..];
    assert rest[0] == text[i];
    if text[i] == '\\' {
      assert rest[1] == text[i + 1];
      assert Hex4(rest, 2) == Hex4(text, i + 2);
    }
  }

  /** Contents of a fresh value: with the flag lowered there was nothing to unescape. */
  lemma FlagMeans(text: Bytes, start: nat)
    requires start <= |text| && ScanFrom(text, start, false).Closed?
    ensures var r := ScanFrom(text, start, false);
            Decodable(text[start..r.end]) && (!r.hasEscape ==> Unescaped(text[start..r.end]) == text[start..r.end])
  {
    ScannedIsDecodable(text, start, false);
    if !ScanFrom(text, start, false).hasEscape {
      NothingToUnescape(text[start..ScanFrom(text, start, false).end]);
    }
  }

  // ---- Round trip -----------------------------------------------------------------------------------------------------------

  /** A dumped string, anywhere in a document, reads back as it was, also a second time. */
  method DumpAndRead(s: Bytes, before: Bytes, after: Bytes) returns (first: Bytes, again: Bytes, next: nat)
    ensures first == s && again == s && next == |before| + |Escaped(s)| + 2
  {
    hide Escaped, Decodable, Unescaped, IsString, AllFit;
    var dumped := DumpString(s, before);
    var text := dumped + after + ['\0'];
    var buffer := new Byte[|text|](i requires 0 <= i < |text| => text[i]);
    assert buffer[..] == text;
    DumpedIsString(s, before, after + ['\0']);
    assert text == before + ['"'] + Escaped(s) + ['"'] + (after + ['\0']);
    var ok, value;
    ok, value, next := DecodeString(buffer, |before|);
    first := value.Read();
    again := value.Read();
  }

  lemma DumpedIsString(s: Bytes, before: Bytes, after: Bytes)
    ensures var text := before + ['"'] + Escaped(s) + ['"'] + after;
            && |before| < |text| && IsString(text, |before|, |before| + |Escaped(s)| + 2, s)
            && forall end, value :: IsString(text, |before|, end, value) ==> end == |before| + |Escaped(s)| + 2 && value == s
  {
    hide *;
    var units := EscapedSays(s);
    UnescapedEscaped(s);
    TextIsRead(units);
    Quoted(before, Escaped(s), after);
    var text := before + ['"'] + Escaped(s) + ['"'] + after;
    StringOf(units, text, |before|, |before| + |Escaped(s)| + 2);
    StringIs(units, text, |before|, |before| + |Escaped(s)| + 2);
    DecodedIff(text, |before|);
  }

  lemma Quoted(before: Bytes, inside: Bytes, after: Bytes)
    ensures var text := before + ['"'] + inside + ['"'] + after;
            |before| + |inside| + 2 <= |text| && text[|before|..|before| + |inside| + 2] == ['"'] + inside + ['"']
  {
    assert before + ['"'] + inside + ['"'] + after == before + (['"'] + inside + ['"']) + after;
  }
}

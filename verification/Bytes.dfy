/** Bytes of C++ strings, and where one text occurs in another. */
module Bytes {
  type Byte = c: char | c as int < 256 witness 'a'

  type Bytes = seq<Byte>

  /** `part` stands in `text` at position i. */
  predicate OccursAt(text: string, i: nat, part: string) {
    i + |part| <= |text| && text[i..i + |part|] == part
  }

  /** std::string::find: the first position from `from` on at which `part` occurs, or -1. */
  function Find(text: string, part: string, from: nat): (r: int)
    requires from <= |text|
    ensures r == -1 || (from <= r && OccursAt(text, r, part))
    ensures forall i {:trigger OccursAt(text, i, part)} :: from <= i && (r == -1 || i < r) ==> !OccursAt(text, i, part)
    decreases |text| - from
  {
    if OccursAt(text, from, part) then from
    else if from == |text| then -1
    else Find(text, part, from + 1)
  }

  /** std::string's operator<: byte by byte, a prefix first. */
  predicate Less(a: string, b: string) {
    if b == [] then false
    else if a == [] then true
    else a[0] < b[0] || (a[0] == b[0] && Less(a[1..], b[1..]))
  }

  lemma {:induction false} LessIsTotal(a: string, b: string)
    ensures a == b || Less(a, b) || Less(b, a)
  {
    if a != [] && b != [] && a[0] == b[0] {
      LessIsTotal(a[1..], b[1..]);
      assert a == [a[0]] + a[1..] && b == [b[0]] + b[1..];
    }
  }

  lemma {:induction false} LessIsTransitive(a: string, b: string, c: string)
    requires Less(a, b) && Less(b, c)
    ensures Less(a, c)
  {
    if a != [] && a[0] == b[0] && b[0] == c[0] {
      LessIsTransitive(a[1..], b[1..], c[1..]);
    }
  }

  lemma {:induction false} LessIsStrict(a: string, b: string)
    requires Less(a, b)
    ensures a != b && !Less(b, a)
  {
    if a != [] && a[0] == b[0] {
      LessIsStrict(a[1..], b[1..]);
    }
  }

  lemma LessIsIrreflexive(a: string)
    ensures !Less(a, a)
  {
    if Less(a, a) { LessIsStrict(a, a); }
  }

  lemma {:induction false} LessAtFirstDifference(a: string, b: string, k: nat)
    requires k < |a| && k < |b| && a[..k] == b[..k] && a[k] < b[k]
    ensures Less(a, b)
    decreases k
  {
    if k > 0 {
      assert a[..k][0] == b[..k][0];
      assert a[1..][..k - 1] == a[..k][1..] && b[1..][..k - 1] == b[..k][1..];
      LessAtFirstDifference(a[1..], b[1..], k - 1);
    }
  }

  lemma {:induction false} LessThanLonger(a: string, b: string)
    requires |a| < |b| && b[..|a|] == a
    ensures Less(a, b)
  {
    if a != [] {
      assert a[0] == b[..|a|][0] && b[1..][..|a| - 1] == b[..|a|][1..];
      LessThanLonger(a[1..], b[1..]);
    }
  }

  /** The order of a dictionary: a beginning first, else by the first character that differs. */
  predicate Before(a: string, b: string) {
    (|a| < |b| && b[..|a|] == a) || exists k :: 0 <= k < |a| && k < |b| && DifferAt(a, b, k) && a[k] < b[k]
  }

  predicate DifferAt(a: string, b: string, k: nat) { k < |a| && k < |b| && a[..k] == b[..k] && a[k] != b[k] }

  lemma {:induction false} LessIsBefore(a: string, b: string)
    ensures Less(a, b) <==> Before(a, b)
  {
    if Before(a, b) {
      if |a| < |b| && b[..|a|] == a {
        LessThanLonger(a, b);
      } else {
        var k :| 0 <= k < |a| && k < |b| && DifferAt(a, b, k) && a[k] < b[k];
        LessAtFirstDifference(a, b, k);
      }
    }
    if Less(a, b) { LessDiffers(a, b); }
  }

  lemma {:induction false} LessDiffers(a: string, b: string)
    requires Less(a, b)
    ensures Before(a, b)
  {
    if a != [] {
      if a[0] < b[0] {
        assert a[..0] == b[..0];
        assert DifferAt(a, b, 0);
      } else {
        LessDiffers(a[1..], b[1..]);
        BeforeLonger(a, b);
      }
    }
  }

  lemma BeforeLonger(a: string, b: string)
    requires a != [] && b != [] && a[0] == b[0] && Before(a[1..], b[1..])
    ensures Before(a, b)
  {
    if |a[1..]| < |b[1..]| && b[1..][..|a[1..]|] == a[1..] {
      assert b[..|a|] == [b[0]] + b[1..][..|a| - 1];
    } else {
      var k :| 0 <= k < |a[1..]| && k < |b[1..]| && DifferAt(a[1..], b[1..], k) && a[1..][k] < b[1..][k];
      assert a[..k + 1] == [a[0]] + a[1..][..k] && b[..k + 1] == [b[0]] + b[1..][..k];
      assert DifferAt(a, b, k + 1);
    }
  }

  // ---- Letter case --------------------------------------------------------------------------------------------------------

  /** A letter of ASCII in lower case. */
  function LowerCase(c: char): char { if 'A' <= c <= 'Z' then c + ' ' else c }

  // ---- White space of JavaScript -------------------------------------------------------------------------------------------

  /** WhiteSpace and LineTerminator of ECMAScript: what trim removes and parseInt skips. */
  predicate IsSpace(c: char) {
    || c == ' ' || '\t' <= c <= '\r' || c == '\U{A0}' || c == '\U{1680}' || '\U{2000}' <= c <= '\U{200A}' || c == '\U{2028}'
    || c == '\U{2029}' || c == '\U{202F}' || c == '\U{205F}' || c == '\U{3000}' || c == '\U{FEFF}'
  }

  /** How many spaces a text starts with. */
  function SpacesAtStart(s: string): (n: nat)
    ensures n <= |s| && (forall k :: 0 <= k < n ==> IsSpace(s[k])) && (n < |s| ==> !IsSpace(s[n]))
  {
    if s != "" && IsSpace(s[0]) then
      var n := SpacesAtStart(s[1..]);
      assert forall k :: 0 < k <= n ==> s[k] == s[1..][k - 1];
      n + 1
    else 0
  }

  /** Where the spaces at the end of a text begin. */
  function SpacesAtEnd(s: string): (n: nat)
    ensures n <= |s| && (forall k :: n <= k < |s| ==> IsSpace(s[k])) && (n > 0 ==> !IsSpace(s[n - 1]))
  {
    if s != "" && IsSpace(s[|s| - 1]) then SpacesAtEnd(s[..|s| - 1]) else |s|
  }

  /** String.prototype.trim: the text without the spaces at both ends. */
  function Trim(s: string): (r: string)
    ensures r == "" <==> forall k :: 0 <= k < |s| ==> IsSpace(s[k])
    ensures r != "" ==> !IsSpace(r[0]) && !IsSpace(r[|r| - 1]) && r == s[SpacesAtStart(s)..SpacesAtEnd(s)]
  {
    if SpacesAtStart(s) == |s| then "" else s[SpacesAtStart(s)..SpacesAtEnd(s)]
  }
}

/** Which texts the URL states of the HTTP parser accept, as a grammar. */
module HttpUrls {
  import opened Bytes
  import opened HttpControl
  import opened HttpRequest

  // ---- The grammar ----

  /** Visible ASCII: a path with its query and fragment may hold any of it. */
  predicate Visible(s: seq<Byte>) { forall i :: 0 <= i < |s| ==> '!' <= s[i] <= '~' }

  predicate IsLetter(c: Byte) { 'a' <= c <= 'z' || 'A' <= c <= 'Z' }

  predicate AllLetters(s: seq<Byte>) { forall i :: 0 <= i < |s| ==> IsLetter(s[i]) }

  predicate InServer(c: Byte) {
    || IsLetter(c) || '0' <= c <= '9'
    || c in {'-', '_', '.', '!', '~', '*', '\'', '(', ')', '%', ';', ':', '&', '=', '+', '$', ',', '[', ']', '@'}
  }

  /** User, host and port: no two at signs follow one another. */
  predicate ServerText(s: seq<Byte>) {
    && (forall i :: 0 <= i < |s| ==> InServer(s[i]))
    && (forall i :: 0 <= i < |s| - 1 ==> !(s[i] == '@' && s[i + 1] == '@'))
  }

  /** What may follow the schema: a server, then a path or a query; one of them may be missing. */
  predicate ServerThenPath(s: seq<Byte>, e: nat) {
    e <= |s| && ServerText(s[..e]) && if e == |s| then e > 0 else s[e] in "/?" && Visible(s[e..])
  }

  /** A schema of letters, "://", and the rest. */
  predicate Absolute(url: seq<Byte>, k: nat, e: nat) {
    && 1 <= k && k + 3 <= |url| && AllLetters(url[..k]) && url[k] == ':' && url[k + 1] == '/' && url[k + 2] == '/'
    && ServerThenPath(url[k + 3..], e)
  }

  // ---- States over texts ----

  lemma {:induction false} AfterAppend(s: State, a: seq<Byte>, b: seq<Byte>)
    ensures UrlAfter(s, a + b) == UrlAfter(UrlAfter(s, a), b)
  {
    hide ParseUrlChar;
    if b == [] {
      assert a + b == a;
    } else {
      var init := b[..|b| - 1];
      AfterAppend(s, a, init);
      assert (a + b)[..|a + b| - 1] == a + init;
    }
  }

  lemma AfterOne(s: State, ch: Byte)
    ensures UrlAfter(s, [ch]) == ParseUrlChar(s, ch)
  {
    hide ParseUrlChar;
    assert [ch][..0] == [];
    assert UrlAfter(s, []) == s;
  }

  lemma {:induction false} DeadStays(s: seq<Byte>)
    ensures UrlAfter(Dead, s).Dead?
  {
    if s != [] { DeadStays(s[..|s| - 1]); }
  }

  predicate InPath(s: State) { s in {ReqPath, ReqQueryStringStart, ReqQueryString, ReqFragmentStart, ReqFragment} }

  lemma {:induction false} PathGoesOn(s: State, text: seq<Byte>)
    requires InPath(s)
    ensures if Visible(text) then InPath(UrlAfter(s, text)) else UrlAfter(s, text).Dead?
  {
    if text != [] {
      var init := text[..|text| - 1];
      PathGoesOn(s, init);
      assert Visible(text) <==> Visible(init) && '!' <= text[|text| - 1] <= '~' by {
        assert forall i :: 0 <= i < |init| ==> init[i] == text[i];
      }
      hide Visible;
      PathChar(UrlAfter(s, init), text[|text| - 1]);
    }
  }

  lemma PathChar(s: State, ch: Byte)
    requires InPath(s) || s.Dead?
    ensures if InPath(s) && '!' <= ch <= '~' then InPath(ParseUrlChar(s, ch)) else ParseUrlChar(s, ch).Dead?
  {}

  lemma {:induction false} SchemaGoesOn(text: seq<Byte>)
    requires text != [] && AllLetters(text)
    ensures UrlAfter(ReqSpacesBeforeUrl, text) == ReqSchema
  {
    var init := text[..|text| - 1];
    if init != [] {
      assert forall i :: 0 <= i < |init| ==> init[i] == text[i];
      SchemaGoesOn(init);
    }
  }

  /** From the start of the server over texts without slash and question mark. */
  lemma {:induction false} ServerGoesOn(text: seq<Byte>)
    requires text != [] && '/' !in text && '?' !in text
    ensures UrlAfter(ReqServerStart, text) == if !ServerText(text) then Dead else if text[|text| - 1] == '@' then ReqServerWithAt else ReqServer
  {
    var n := |text| - 1;
    var init, ch := text[..n], text[n];
    assert ch in text;
    if n == 0 {
      FirstServerChar(text);
    } else {
      forall c | c in init ensures c in text { var i :| 0 <= i < |init| && init[i] == c; assert text[i] == c; }
      ServerGoesOn(init);
      ServerTextMore(text);
      hide ServerText;
      ServerCharIs(UrlAfter(ReqServerStart, init), ch);
    }
  }

  lemma FirstServerChar(text: seq<Byte>)
    requires |text| == 1 && text[0] != '/' && text[0] != '?'
    ensures UrlAfter(ReqServerStart, text) == if !ServerText(text) then Dead else if text[0] == '@' then ReqServerWithAt else ReqServer
  {
    assert text == [text[0]];
    AfterOne(ReqServerStart, text[0]);
    hide UrlAfter;
    ServerCharIs(ReqServerStart, text[0]);
    hide ParseUrlChar, InServer;
  }

  lemma ServerTextMore(text: seq<Byte>)
    requires |text| > 1
    ensures var n := |text| - 1;
            ServerText(text) <==> ServerText(text[..n]) && InServer(text[n]) && !(text[n - 1] == '@' && text[n] == '@')
  {
    hide InServer;
    var init := text[..|text| - 1];
    assert forall i :: 0 <= i < |init| ==> init[i] == text[i];
  }

  lemma ServerCharIs(s: State, ch: Byte)
    requires s in {ReqServerStart, ReqServer, ReqServerWithAt, Dead} && ch != '/' && ch != '?'
    ensures ParseUrlChar(s, ch)
         == if s.Dead? || !InServer(ch) || (s.ReqServerWithAt? && ch == '@') then Dead
            else if ch == '@' then ReqServerWithAt else ReqServer
  {}

  // ---- Both directions ----

  /** The server may not hold a slash or a question mark, so it ends at the first of them. */
  function ServerEnd(s: seq<Byte>): (e: nat)
    ensures e <= |s| && '/' !in s[..e] && '?' !in s[..e] && (e < |s| ==> s[e] in "/?")
  {
    if s == [] || s[0] in "/?" then 0
    else
      var e := 1 + ServerEnd(s[1..]);
      assert s[..e] == [s[0]] + s[1..][..e - 1];
      e
  }

  lemma ServerHasNoSlash(s: seq<Byte>)
    requires ServerText(s)
    ensures '/' !in s && '?' !in s
  {}

  lemma ServerEndIs(s: seq<Byte>, e: nat)
    requires ServerThenPath(s, e)
    ensures e == ServerEnd(s)
  {
    ServerHasNoSlash(s[..e]);
    var f := ServerEnd(s);
    hide ServerEnd, ServerText, Visible;
    NotInPrefix(s, e, '/');
    NotInPrefix(s, e, '?');
    NotInPrefix(s, f, '/');
    NotInPrefix(s, f, '?');
  }

  lemma NotInPrefix(s: seq<Byte>, e: nat, c: Byte)
    requires e <= |s| && c !in s[..e]
    ensures forall i :: 0 <= i < e ==> s[i] != c
  {
    forall i | 0 <= i < e ensures s[i] != c { assert s[..e][i] == s[i]; }
  }

  /** After "://". */
  lemma ServerIff(s: seq<Byte>)
    ensures UrlEnds(UrlAfter(ReqServerStart, s)) <==> ServerThenPath(s, ServerEnd(s))
  {
    var e := ServerEnd(s);
    var server, rest := s[..e], s[e..];
    assert s == server + rest;
    AfterAppend(ReqServerStart, server, rest);
    var t := UrlAfter(ReqServerStart, server);
    if e == 0 { NoServer(); } else { ServerGoesOn(server); }
    hide ServerEnd, ServerText, Visible, ParseUrlChar;
    if e < |s| {
      RestIff(t, rest);
    } else {
      assert UrlAfter(t, rest) == t;
    }
  }

  lemma NoServer()
    ensures UrlAfter(ReqServerStart, []) == ReqServerStart && ServerText([])
  {}

  lemma RestIff(t: State, rest: seq<Byte>)
    requires t in {ReqServerStart, ReqServer, ReqServerWithAt, Dead} && rest != [] && rest[0] in "/?"
    ensures UrlEnds(UrlAfter(t, rest)) <==> !t.Dead? && Visible(rest)
  {
    hide UrlAfter, ParseUrlChar;
    var more := rest[1..];
    StepOff(t, rest);
    assert Visible(rest) <==> Visible(more) by {
      assert forall i :: 0 <= i < |more| ==> more[i] == rest[i + 1];
    }
    hide Visible;
    SlashAfterServer(t, rest[0]);
    if t.Dead? { DeadStays(more); } else { PathGoesOn(ParseUrlChar(t, rest[0]), more); }
  }

  lemma SlashAfterServer(t: State, ch: Byte)
    requires t in {ReqServerStart, ReqServer, ReqServerWithAt, Dead} && ch in "/?"
    ensures if t.Dead? then ParseUrlChar(t, ch).Dead? else InPath(ParseUrlChar(t, ch))
  {}

  function SchemaEnd(s: seq<Byte>): (k: nat)
    ensures k <= |s| && AllLetters(s[..k]) && (k < |s| ==> !IsLetter(s[k]))
  {
    if s == [] || !IsLetter(s[0]) then 0
    else
      var k := 1 + SchemaEnd(s[1..]);
      assert s[..k] == [s[0]] + s[1..][..k - 1];
      k
  }

  lemma SchemaEndIs(s: seq<Byte>, k: nat)
    requires k < |s| && AllLetters(s[..k]) && !IsLetter(s[k])
    ensures k == SchemaEnd(s)
  {
    var j := SchemaEnd(s);
    hide SchemaEnd, IsLetter;
    LettersBefore(s, j);
    LettersBefore(s, k);
  }

  lemma LettersBefore(s: seq<Byte>, k: nat)
    requires k <= |s| && AllLetters(s[..k])
    ensures forall i :: 0 <= i < k ==> IsLetter(s[i])
  {
    hide IsLetter;
    forall i | 0 <= i < k ensures IsLetter(s[i]) { assert s[..k][i] == s[i]; }
  }

  /** The three characters after the schema. */
  lemma SeparatorIff(s: seq<Byte>)
    requires s != [] && !IsLetter(s[0])
    ensures UrlEnds(UrlAfter(ReqSchema, s)) <==> |s| >= 3 && s[0] == ':' && s[1] == '/' && s[2] == '/' && UrlEnds(UrlAfter(ReqServerStart, s[3..]))
  {
    hide ParseUrlChar, UrlAfter;
    StepOff(ReqSchema, s);
    SchemaChars(s[0]);
    if s[0] != ':' { DeadStays(s[1..]); }
    else if |s| > 1 {
      StepOff(ReqSchemaSlash, s[1..]);
      assert s[1..][1..] == s[2..];
      SchemaChars(s[1]);
      if s[1] != '/' { DeadStays(s[2..]); }
      else if |s| > 2 {
        StepOff(ReqSchemaSlashSlash, s[2..]);
        assert s[2..][1..] == s[3..];
        SchemaChars(s[2]);
        if s[2] != '/' { DeadStays(s[3..]); }
      } else {
        assert s[1..][1..] == [];
        NothingMore(ReqSchemaSlashSlash);
      }
    } else {
      assert s[1..] == [];
      NothingMore(ReqSchemaSlash);
    }
  }

  lemma NothingMore(s: State)
    ensures UrlAfter(s, []) == s
  {}

  lemma StepOff(s: State, text: seq<Byte>)
    requires text != []
    ensures UrlAfter(s, text) == UrlAfter(ParseUrlChar(s, text[0]), text[1..])
  {
    hide ParseUrlChar;
    assert text == [text[0]] + text[1..];
    AfterAppend(s, [text[0]], text[1..]);
    AfterOne(s, text[0]);
  }

  lemma SchemaChars(ch: Byte)
    ensures !IsLetter(ch) ==> ParseUrlChar(ReqSchema, ch) == if ch == ':' then ReqSchemaSlash else Dead
    ensures ParseUrlChar(ReqSchemaSlash, ch) == if ch == '/' then ReqSchemaSlashSlash else Dead
    ensures ParseUrlChar(ReqSchemaSlashSlash, ch) == if ch == '/' then ReqServerStart else Dead
  {}

  /** The URL states accept a path, or "*", of visible characters, or a schema with a server, a path or a query; and nothing else. */
  lemma UrlTextIff(url: seq<Byte>)
    requires url != []
    ensures UrlText(url) <==> if url[0] in "/*" then Visible(url) else exists k: nat, e: nat :: Absolute(url, k, e)
  {
    hide UrlText;
    if url[0] in "/*" {
      PathIsUrlIff(url);
    } else {
      AbsoluteIff(url);
    }
  }

  lemma AbsoluteIff(url: seq<Byte>)
    requires url != [] && url[0] !in "/*"
    ensures UrlText(url) <==> exists k: nat, e: nat :: Absolute(url, k, e)
  {
    var k := SchemaEnd(url);
    if k == 0 {
      NoSchema(url);
    } else if k == |url| {
      assert url[..k] == url;
      SchemaGoesOn(url);
      LettersBefore(url, k);
    } else {
      SchemaThenServer(url, k);
    }
  }

  lemma NoSchema(url: seq<Byte>)
    requires url != [] && url[0] !in "/*" && !IsLetter(url[0])
    ensures !UrlText(url) && forall k: nat, e: nat :: !Absolute(url, k, e)
  {
    StepOff(ReqSpacesBeforeUrl, url);
    DeadStays(url[1..]);
    forall k: nat, e: nat ensures !Absolute(url, k, e) { FirstIsLetter(url, k); }
  }

  lemma FirstIsLetter(url: seq<Byte>, k: nat)
    requires url != [] && !IsLetter(url[0])
    ensures 1 <= k <= |url| ==> !AllLetters(url[..k])
  {
    if 1 <= k <= |url| { assert url[..k][0] == url[0]; }
  }

  lemma SchemaThenServer(url: seq<Byte>, k: nat)
    requires 0 < k < |url| && k == SchemaEnd(url)
    ensures UrlText(url) <==> exists j: nat, e: nat :: Absolute(url, j, e)
  {
    SchemaThenRest(url, k);
    hide *;
    if UrlText(url) {
      assert Absolute(url, k, ServerEnd(url[k + 3..]));
    } else if exists j: nat, e: nat :: Absolute(url, j, e) {
      var j: nat, e: nat :| Absolute(url, j, e);
      OneSchema(url, j, e, k);
      assert false;
    }
  }

  lemma OneSchema(url: seq<Byte>, j: nat, e: nat, k: nat)
    requires Absolute(url, j, e) && k < |url| && k == SchemaEnd(url)
    ensures j == k && e == ServerEnd(url[k + 3..])
  {
    hide ServerThenPath, SchemaEnd;
    SchemaEndIs(url, j);
    ServerEndIs(url[j + 3..], e);
  }

  lemma SchemaThenRest(url: seq<Byte>, k: nat)
    requires 0 < k < |url| && k == SchemaEnd(url)
    ensures UrlText(url) <==> k + 3 <= |url| && Absolute(url, k, ServerEnd(url[k + 3..]))
  {
    hide ParseUrlChar, SchemaEnd, ServerThenPath, AllLetters, UrlAfter;
    var rest := url[k..];
    assert url == url[..k] + rest;
    AfterAppend(ReqSpacesBeforeUrl, url[..k], rest);
    SchemaGoesOn(url[..k]);
    SeparatorIff(rest);
    if |rest| >= 3 {
      assert rest[3..] == url[k + 3..];
      ServerIff(rest[3..]);
    }
  }
}

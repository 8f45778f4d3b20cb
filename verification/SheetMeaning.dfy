/** What the reports show, said of the posted lines and the chart of accounts alone. */
module SheetMeaning {
  import opened Bytes
  import opened Options
  import opened Grouping
  import opened Accounting

  // ---- Lines and types ----------------------------------------------------------------------------------------------------

  /** Debits less credits of the lines on an account. */
  function NetOn(lines: seq<Line>, code: string): real { DebitsOn(lines, code) - CreditsOn(lines, code) }

  function DebitsOn(lines: seq<Line>, code: string): real {
    if lines == [] then 0.0
    else DebitsOn(lines[..|lines| - 1], code) + (if lines[|lines| - 1].account == code then lines[|lines| - 1].debit else 0.0)
  }

  function CreditsOn(lines: seq<Line>, code: string): real {
    if lines == [] then 0.0
    else CreditsOn(lines[..|lines| - 1], code) + (if lines[|lines| - 1].account == code then lines[|lines| - 1].credit else 0.0)
  }

  /** The last account of the project with this code has this type; without one the type is unknown. */
  predicate IsTyped(accounts: seq<Account>, project: string, code: string, kind: string) {
    if exists i :: 0 <= i < |accounts| && IsIt(accounts[i], project, code)
    then exists i :: 0 <= i < |accounts| && IsIt(accounts[i], project, code) && accounts[i].kind == kind
                     && forall j :: i < j < |accounts| ==> !IsIt(accounts[j], project, code)
    else kind == "Unknown"
  }

  predicate IsIt(a: Account, project: string, code: string) { a.project == project && a.code == code }

  lemma {:induction false} KindIsTyped(accounts: seq<Account>, project: string, code: string, kind: string)
    ensures IsTyped(accounts, project, code, kind) <==> kind == KindOf(accounts, project, code)
  {
    if accounts != [] {
      var n := |accounts| - 1;
      var init := accounts[..n];
      KindIsTyped(init, project, code, kind);
      assert forall i :: 0 <= i < n ==> init[i] == accounts[i];
      if IsIt(accounts[n], project, code) {
        assert IsTyped(accounts, project, code, accounts[n].kind);
      } else {
        SameType(accounts, project, code, kind);
      }
    }
  }

  lemma SameType(accounts: seq<Account>, project: string, code: string, kind: string)
    requires accounts != [] && !IsIt(accounts[|accounts| - 1], project, code)
    ensures IsTyped(accounts, project, code, kind) <==> IsTyped(accounts[..|accounts| - 1], project, code, kind)
  {
    var n := |accounts| - 1;
    var init := accounts[..n];
    assert forall i :: 0 <= i < n ==> init[i] == accounts[i];
    if i :| 0 <= i < n && IsIt(accounts[i], project, code) { assert IsIt(init[i], project, code); }
    if i :| 0 <= i < n && IsIt(init[i], project, code) { assert IsIt(accounts[i], project, code); }
  }

  /** Debits less credits of the lines whose account is of one of these types. */
  function NetOfTypes(lines: seq<Line>, accounts: seq<Account>, project: string, kinds: seq<string>): real {
    if lines == [] then 0.0
    else
      var l := lines[|lines| - 1];
      NetOfTypes(lines[..|lines| - 1], accounts, project, kinds)
      + (if exists k :: k in kinds && IsTyped(accounts, project, l.account, k) then l.debit - l.credit else 0.0)
  }

  // ---- Groups -------------------------------------------------------------------------------------------------------------

  lemma {:induction false} AccountSides(lines: seq<Line>, code: string)
    ensures InOrder(ByAccount(lines)) && KeySet(ByAccount(lines)) == set l | l in lines :: l.account
    ensures ValueAt(ByAccount(lines), code, NOTHING) == Sides(DebitsOn(lines, code), CreditsOn(lines, code))
  {
    hide Bump, InOrder, KeySet, ValueAt;
    if lines == [] {
      NoSides(code);
    } else {
      var init, l := lines[..|lines| - 1], lines[|lines| - 1];
      AccountSides(init, code);
      BumpKeys(ByAccount(init), l.account, NOTHING, (s: Sides) => Plus(s, l));
      BumpAt(ByAccount(init), l.account, NOTHING, (s: Sides) => Plus(s, l), code);
      AccountSides(init, l.account);
      assert lines == init + [l];
    }
  }

  lemma NoSides(code: string)
    ensures InOrder<Sides>([]) && KeySet<Sides>([]) == {} && ValueAt([], code, NOTHING) == NOTHING
  {}

  predicate Occurs(lines: seq<Line>, code: string) { exists i :: 0 <= i < |lines| && lines[i].account == code }

  predicate IsKey(groups: seq<Group<Sides>>, code: string) { exists k :: 0 <= k < |groups| && groups[k].key == code }

  /** A report's groups: the accounts that occur, in order, each with its own debits and credits. */
  predicate GroupsSay(groups: seq<Group<Sides>>, lines: seq<Line>) {
    && (forall i, j :: 0 <= i < j < |groups| ==> Before(groups[i].key, groups[j].key))
    && (forall i :: 0 <= i < |lines| ==> IsKey(groups, lines[i].account))
    && (forall k :: 0 <= k < |groups| ==> Occurs(lines, groups[k].key))
    && (forall k :: 0 <= k < |groups| ==> groups[k].value == Sides(DebitsOn(lines, groups[k].key), CreditsOn(lines, groups[k].key)))
  }

  lemma {:induction false} ValueOfKey(groups: seq<Group<Sides>>, k: nat)
    requires InOrder(groups) && k < |groups|
    ensures ValueAt(groups, groups[k].key, NOTHING) == groups[k].value
  {
    if k > 0 {
      LessIsStrict(groups[0].key, groups[k].key);
      AfterHead(groups);
      hide Less, InOrder;
      ValueOfKey(groups[1..], k - 1);
    }
  }

  lemma KeysInOrder(groups: seq<Group<Sides>>)
    requires InOrder(groups)
    ensures forall i, j :: 0 <= i < j < |groups| ==> Before(groups[i].key, groups[j].key)
  {
    forall i, j | 0 <= i < j < |groups| ensures Before(groups[i].key, groups[j].key) { LessIsBefore(groups[i].key, groups[j].key); }
  }

  lemma KeysAreAccounts(groups: seq<Group<Sides>>, lines: seq<Line>)
    requires KeySet(groups) == set l | l in lines :: l.account
    ensures forall i :: 0 <= i < |lines| ==> IsKey(groups, lines[i].account)
    ensures forall k :: 0 <= k < |groups| ==> Occurs(lines, groups[k].key)
  {
    forall i | 0 <= i < |lines| ensures IsKey(groups, lines[i].account) {
      assert lines[i] in lines && lines[i].account in KeySet(groups);
    }
    forall k | 0 <= k < |groups| ensures Occurs(lines, groups[k].key) {
      assert groups[k].key in KeySet(groups);
      var l :| l in lines && l.account == groups[k].key;
    }
  }

  lemma ByAccountSays(lines: seq<Line>)
    ensures GroupsSay(ByAccount(lines), lines)
  {
    var groups := ByAccount(lines);
    AccountSides(lines, "");
    hide ByAccount, ValueAt, KeySet, InOrder, Before, Less;
    KeysInOrder(groups);
    KeysAreAccounts(groups, lines);
    forall k | 0 <= k < |groups| ensures groups[k].value == Sides(DebitsOn(lines, groups[k].key), CreditsOn(lines, groups[k].key)) {
      AccountSides(lines, groups[k].key);
      ValueOfKey(groups, k);
    }
  }

  // ---- Sections -----------------------------------------------------------------------------------------------------------

  /** The rows of the groups whose account is of this type. */
  function RowsOfKind(groups: seq<Group<Sides>>, accounts: seq<Account>, project: string, kind: string): seq<Row> {
    if groups == [] then []
    else
      var g := groups[|groups| - 1];
      RowsOfKind(groups[..|groups| - 1], accounts, project, kind) + (if IsTyped(accounts, project, g.key, kind) then [RowOf(g)] else [])
  }

  function EarningsOf(groups: seq<Group<Sides>>, accounts: seq<Account>, project: string): real {
    if groups == [] then 0.0
    else
      var g := groups[|groups| - 1];
      EarningsOf(groups[..|groups| - 1], accounts, project)
      + (if IsTyped(accounts, project, g.key, "Revenue") || IsTyped(accounts, project, g.key, "Expense") then RowOf(g).balance else 0.0)
  }

  lemma {:induction false} SectionsByKind(groups: seq<Group<Sides>>, accounts: seq<Account>, project: string)
    ensures Sections(groups, accounts, project)
         == Sheet(RowsOfKind(groups, accounts, project, "Asset"), RowsOfKind(groups, accounts, project, "Liability"),
                  RowsOfKind(groups, accounts, project, "Equity"), EarningsOf(groups, accounts, project))
  {
    hide KindOf, IsTyped, RowOf;
    if groups != [] {
      var init, g := groups[..|groups| - 1], groups[|groups| - 1];
      SectionsByKind(init, accounts, project);
      forall kind ensures IsTyped(accounts, project, g.key, kind) <==> kind == KindOf(accounts, project, g.key) {
        KindIsTyped(accounts, project, g.key, kind);
      }
      assert RowsOfKind(init, accounts, project, "Asset") + [] == RowsOfKind(init, accounts, project, "Asset");
      assert RowsOfKind(init, accounts, project, "Liability") + [] == RowsOfKind(init, accounts, project, "Liability");
      assert RowsOfKind(init, accounts, project, "Equity") + [] == RowsOfKind(init, accounts, project, "Equity");
    }
  }

  /** A section: the accounts of its type that have a line, each once, in order, with debits less credits, rounded. */
  predicate SectionSays(rows: seq<Row>, lines: seq<Line>, accounts: seq<Account>, project: string, kind: string) {
    && (forall i, j :: 0 <= i < j < |rows| ==> Before(rows[i].code, rows[j].code))
    && (forall i :: 0 <= i < |rows| ==> RowSays(rows[i], lines, accounts, project, kind))
    && (forall i :: 0 <= i < |lines| && IsTyped(accounts, project, lines[i].account, kind) ==> HasRow(rows, lines[i].account))
  }

  predicate RowSays(row: Row, lines: seq<Line>, accounts: seq<Account>, project: string, kind: string) {
    row.balance == Round2(NetOn(lines, row.code)) && IsTyped(accounts, project, row.code, kind) && Occurs(lines, row.code)
  }

  predicate HasRow(rows: seq<Row>, code: string) { exists k :: 0 <= k < |rows| && rows[k].code == code }

  /** Which groups make the section. */
  predicate Picks(picks: seq<nat>, groups: seq<Group<Sides>>, accounts: seq<Account>, project: string, kind: string) {
    && (forall i, j :: 0 <= i < j < |picks| ==> picks[i] < picks[j]) && (forall k :: 0 <= k < |picks| ==> picks[k] < |groups|)
    && forall i :: 0 <= i < |groups| ==> (i in picks <==> IsTyped(accounts, project, groups[i].key, kind))
  }

  lemma PicksOneMore(picks: seq<nat>, groups: seq<Group<Sides>>, accounts: seq<Account>, project: string, kind: string)
    requires groups != [] && Picks(picks, groups[..|groups| - 1], accounts, project, kind)
    ensures var n := |groups| - 1;
            Picks(if IsTyped(accounts, project, groups[n].key, kind) then picks + [n] else picks, groups, accounts, project, kind)
  {
    hide IsTyped;
    var n := |groups| - 1;
    forall i | 0 <= i < n ensures i in picks <==> IsTyped(accounts, project, groups[i].key, kind) { assert groups[..n][i] == groups[i]; }
    assert n !in picks;
  }

  lemma {:induction false} KindPicks(groups: seq<Group<Sides>>, accounts: seq<Account>, project: string, kind: string)
    returns (picks: seq<nat>)
    ensures var rows := RowsOfKind(groups, accounts, project, kind);
            && |picks| == |rows| && Picks(picks, groups, accounts, project, kind)
            && forall k :: 0 <= k < |picks| ==> picks[k] < |groups| && rows[k] == RowOf(groups[picks[k]])
  {
    hide *;
    RowsOfLast(groups, accounts, project, kind);
    if groups == [] {
      picks := [];
      NoPicks(accounts, project, kind);
    } else {
      var n := |groups| - 1;
      picks := KindPicks(groups[..n], accounts, project, kind);
      PicksOneMore(picks, groups, accounts, project, kind);
      if IsTyped(accounts, project, groups[n].key, kind) { picks := picks + [n]; }
    }
  }

  lemma NoPicks(accounts: seq<Account>, project: string, kind: string)
    ensures Picks([], [], accounts, project, kind)
  {}

  lemma RowsOfLast(groups: seq<Group<Sides>>, accounts: seq<Account>, project: string, kind: string)
    ensures groups == [] ==> RowsOfKind(groups, accounts, project, kind) == []
    ensures groups != [] ==> var n := |groups| - 1;
              RowsOfKind(groups, accounts, project, kind)
              == RowsOfKind(groups[..n], accounts, project, kind)
                 + (if IsTyped(accounts, project, groups[n].key, kind) then [RowOf(groups[n])] else [])
  {
    hide IsTyped, RowOf;
  }

  lemma SectionIsSaid(groups: seq<Group<Sides>>, lines: seq<Line>, accounts: seq<Account>, project: string, kind: string)
    requires GroupsSay(groups, lines)
    ensures SectionSays(RowsOfKind(groups, accounts, project, kind), lines, accounts, project, kind)
  {
    hide IsTyped, Before, RowsOfKind, Round2, DebitsOn, CreditsOn, Occurs, IsKey, HasRow;
    var rows := RowsOfKind(groups, accounts, project, kind);
    var picks := KindPicks(groups, accounts, project, kind);
    forall k | 0 <= k < |rows| ensures RowSays(rows[k], lines, accounts, project, kind) {
      assert picks[k] in picks;
    }
    forall i | 0 <= i < |lines| && IsTyped(accounts, project, lines[i].account, kind) ensures HasRow(rows, lines[i].account) {
      LineHasRow(groups, rows, picks, accounts, project, kind, lines[i].account);
    }
  }

  lemma LineHasRow(groups: seq<Group<Sides>>, rows: seq<Row>, picks: seq<nat>, accounts: seq<Account>, project: string, kind: string, code: string)
    requires IsKey(groups, code) && IsTyped(accounts, project, code, kind) && Picks(picks, groups, accounts, project, kind)
    requires |rows| == |picks| && forall k :: 0 <= k < |picks| ==> picks[k] < |groups| && rows[k] == RowOf(groups[picks[k]])
    ensures HasRow(rows, code)
  {
    hide IsTyped, Round2;
    var g :| 0 <= g < |groups| && groups[g].key == code;
    assert g in picks;
    var k :| 0 <= k < |picks| && picks[k] == g;
    assert rows[k].code == code;
  }

  // ---- Totals -------------------------------------------------------------------------------------------------------------

  predicate OneOf(accounts: seq<Account>, project: string, code: string, kinds: seq<string>) {
    exists k :: k in kinds && IsTyped(accounts, project, code, k)
  }

  function NetOfGroups(groups: seq<Group<Sides>>, accounts: seq<Account>, project: string, kinds: seq<string>): real {
    if groups == [] then 0.0
    else
      (if OneOf(accounts, project, groups[0].key, kinds) then Difference(groups[0].value) else 0.0)
      + NetOfGroups(groups[1..], accounts, project, kinds)
  }

  lemma {:induction false} BumpNet(groups: seq<Group<Sides>>, l: Line, accounts: seq<Account>, project: string, kinds: seq<string>)
    ensures NetOfGroups(Bump(groups, l.account, NOTHING, (s: Sides) => Plus(s, l)), accounts, project, kinds)
         == NetOfGroups(groups, accounts, project, kinds) + (if OneOf(accounts, project, l.account, kinds) then l.debit - l.credit else 0.0)
  {
    hide OneOf, Less;
    var after := Bump(groups, l.account, NOTHING, (s: Sides) => Plus(s, l));
    if groups != [] {
      if groups[0].key == l.account {
        assert after[1..] == groups[1..];
      } else if Less(l.account, groups[0].key) {
        assert after[1..] == groups;
      } else {
        BumpNet(groups[1..], l, accounts, project, kinds);
        assert after[1..] == Bump(groups[1..], l.account, NOTHING, (s: Sides) => Plus(s, l));
      }
    }
  }

  lemma {:induction false} NetOfLines(lines: seq<Line>, accounts: seq<Account>, project: string, kinds: seq<string>)
    ensures NetOfGroups(ByAccount(lines), accounts, project, kinds) == NetOfTypes(lines, accounts, project, kinds)
  {
    hide IsTyped, Bump;
    if lines != [] {
      var init, l := lines[..|lines| - 1], lines[|lines| - 1];
      NetOfLines(init, accounts, project, kinds);
      BumpNet(ByAccount(init), l, accounts, project, kinds);
      hide NetOfGroups;
    }
  }

  lemma {:induction false} NetSnoc(groups: seq<Group<Sides>>, g: Group<Sides>, accounts: seq<Account>, project: string, kinds: seq<string>)
    ensures NetOfGroups(groups + [g], accounts, project, kinds)
         == NetOfGroups(groups, accounts, project, kinds) + (if OneOf(accounts, project, g.key, kinds) then Difference(g.value) else 0.0)
  {
    hide OneOf;
    if groups == [] {
      assert groups + [g] == [g];
    } else {
      NetSnoc(groups[1..], g, accounts, project, kinds);
      assert (groups + [g])[1..] == groups[1..] + [g];
    }
  }

  lemma CentsOfRow(g: Group<Sides>)
    requires IsCents(g.value.debit) && IsCents(g.value.credit)
    ensures RowOf(g).balance == Difference(g.value)
  {
    hide Round2, IsCents;
    CentsAdd(g.value.debit, g.value.credit);
    RoundOfCents(g.value.debit - g.value.credit);
  }

  lemma {:induction false} RowsNet(groups: seq<Group<Sides>>, accounts: seq<Account>, project: string, kind: string)
    requires GroupsCents(groups)
    ensures SumRows(RowsOfKind(groups, accounts, project, kind)) == NetOfGroups(groups, accounts, project, [kind])
  {
    hide IsTyped, RowOf, IsCents;
    if groups != [] {
      var init, g := groups[..|groups| - 1], groups[|groups| - 1];
      RowsNet(init, accounts, project, kind);
      CentsOfRow(g);
      assert init + [g] == groups;
      NetSnoc(init, g, accounts, project, [kind]);
      assert OneOf(accounts, project, g.key, [kind]) <==> IsTyped(accounts, project, g.key, kind);
      hide NetOfGroups, SumRows;
      SumSnoc(RowsOfKind(init, accounts, project, kind), RowOf(g));
      assert RowsOfKind(init, accounts, project, kind) + [] == RowsOfKind(init, accounts, project, kind);
    }
  }

  lemma {:induction false} EarningsNet(groups: seq<Group<Sides>>, accounts: seq<Account>, project: string)
    requires GroupsCents(groups)
    ensures EarningsOf(groups, accounts, project) == NetOfGroups(groups, accounts, project, ["Revenue", "Expense"])
  {
    hide IsTyped, RowOf, IsCents;
    if groups != [] {
      var init, g := groups[..|groups| - 1], groups[|groups| - 1];
      EarningsNet(init, accounts, project);
      CentsOfRow(g);
      assert init + [g] == groups;
      NetSnoc(init, g, accounts, project, ["Revenue", "Expense"]);
      hide NetOfGroups;
    }
  }

  // ---- The balance sheet --------------------------------------------------------------------------------------------------

  /**
   * In whole cents: the three sections show exactly the accounts of their types, earnings that are not zero close the equity,
   * and each total is what was debited less what was credited on accounts of these types.
   */
  predicate ReportSays(r: Report, lines: seq<Line>, accounts: seq<Account>, project: string) {
    var earnings := NetOfTypes(lines, accounts, project, ["Revenue", "Expense"]);
    var last := if earnings == 0.0 then [] else [Row("0000", earnings)];
    && SectionSays(r.assets, lines, accounts, project, "Asset") && SectionSays(r.liabilities, lines, accounts, project, "Liability")
    && |last| <= |r.equity| && r.equity[|r.equity| - |last|..] == last
    && SectionSays(r.equity[..|r.equity| - |last|], lines, accounts, project, "Equity")
    && r.totalAssets == NetOfTypes(lines, accounts, project, ["Asset"])
    && r.totalLiabilities == NetOfTypes(lines, accounts, project, ["Liability"])
    && r.totalEquity == NetOfTypes(lines, accounts, project, ["Equity"]) + earnings
  }

  lemma ReportIsSaid(lines: seq<Line>, accounts: seq<Account>, project: string)
    requires WholeCents(lines)
    ensures ReportSays(ReportOf(Sections(ByAccount(lines), accounts, project)), lines, accounts, project)
  {
    var groups := ByAccount(lines);
    SumsAreCents(lines);
    ByAccountSays(lines);
    hide *;
    SectionsByKind(groups, accounts, project);
    SectionsCents(groups, accounts, project);
    SectionIsSaid(groups, lines, accounts, project, "Asset");
    SectionIsSaid(groups, lines, accounts, project, "Liability");
    SectionIsSaid(groups, lines, accounts, project, "Equity");
    TotalIsNet(lines, accounts, project, "Asset");
    TotalIsNet(lines, accounts, project, "Liability");
    TotalIsNet(lines, accounts, project, "Equity");
    EarningsNet(groups, accounts, project);
    NetOfLines(lines, accounts, project, ["Revenue", "Expense"]);
    SheetIsSaid(Sections(groups, accounts, project), lines, accounts, project);
  }

  lemma TotalIsNet(lines: seq<Line>, accounts: seq<Account>, project: string, kind: string)
    requires WholeCents(lines)
    ensures SumRows(RowsOfKind(ByAccount(lines), accounts, project, kind)) == NetOfTypes(lines, accounts, project, [kind])
  {
    SumsAreCents(lines);
    hide *;
    RowsNet(ByAccount(lines), accounts, project, kind);
    NetOfLines(lines, accounts, project, [kind]);
  }

  lemma SheetIsSaid(s: Sheet, lines: seq<Line>, accounts: seq<Account>, project: string)
    requires SheetCents(s) && s.earnings == NetOfTypes(lines, accounts, project, ["Revenue", "Expense"])
    requires SectionSays(s.assets, lines, accounts, project, "Asset") && SectionSays(s.liabilities, lines, accounts, project, "Liability")
    requires SectionSays(s.equity, lines, accounts, project, "Equity")
    requires SumRows(s.assets) == NetOfTypes(lines, accounts, project, ["Asset"])
    requires SumRows(s.liabilities) == NetOfTypes(lines, accounts, project, ["Liability"])
    requires SumRows(s.equity) == NetOfTypes(lines, accounts, project, ["Equity"])
    ensures ReportSays(ReportOf(s), lines, accounts, project)
  {
    hide Round2, IsCents, SectionSays, NetOfTypes, SumRows;
    SumSnoc(s.equity, Row("0000", s.earnings));
    CentsAdd(SumRows(s.equity), s.earnings);
    RoundOfCents(SumRows(s.assets));
    RoundOfCents(SumRows(s.liabilities));
    RoundOfCents(SumRows(s.equity));
    RoundOfCents(SumRows(s.equity) + s.earnings);
    var equity := if s.earnings == 0.0 then [] else [Row("0000", s.earnings)];
    assert (s.equity + equity)[..|s.equity|] == s.equity && (s.equity + equity)[|s.equity|..] == equity;
    assert s.equity + [] == s.equity;
  }
}

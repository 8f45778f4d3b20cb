/** The books of scripts/business.js: posting entries and reporting on them, over whole runs. */
module Books {
  import opened Bytes
  import opened Options
  import opened Decimals
  import opened Grouping
  import opened Accounting
  import opened SheetMeaning

  const DEFAULT_ACCOUNTS := [
    ("1000", "Cash", "Asset"), ("1100", "Bank", "Asset"), ("1200", "Accounts Receivable", "Asset"), ("1300", "Inventory", "Asset"),
    ("2000", "Accounts Payable", "Liability"), ("2100", "Taxes Payable", "Liability"),
    ("3000", "Owner Equity", "Equity"), ("3100", "Retained Earnings", "Equity"),
    ("4000", "Sales Revenue", "Revenue"), ("4100", "Service Revenue", "Revenue"),
    ("5000", "Cost of Goods Sold", "Expense"), ("5100", "Rent", "Expense"), ("5200", "Utilities", "Expense"),
    ("5300", "Salaries", "Expense"), ("5400", "Marketing", "Expense"), ("5500", "Shopping", "Expense")]

  predicate HasProject(accounts: seq<Account>, project: string) {
    exists i :: 0 <= i < |accounts| && accounts[i].project == project
  }

  function OfProject(accounts: seq<Account>, project: string): seq<Account> {
    if accounts == [] then []
    else OfProject(accounts[..|accounts| - 1], project)
         + (if accounts[|accounts| - 1].project == project then [accounts[|accounts| - 1]] else [])
  }

  lemma {:induction false} OfProjectIn(accounts: seq<Account>, project: string)
    ensures forall a :: a in OfProject(accounts, project) ==> a in accounts
  {
    if accounts != [] { OfProjectIn(accounts[..|accounts| - 1], project); }
  }

  function AccountLike(a: Account, project: string): Account { Account(project, a.code, a.name, a.kind) }

  function DefaultAccount(i: nat, project: string): Account
    requires i < |DEFAULT_ACCOUNTS|
  {
    Account(project, DEFAULT_ACCOUNTS[i].0, DEFAULT_ACCOUNTS[i].1, DEFAULT_ACCOUNTS[i].2)
  }

  /** The first n of the rows, as accounts of the project. */
  function Copies(rows: seq<Account>, n: nat, project: string): seq<Account>
    requires n <= |rows|
  {
    if n == 0 then [] else Copies(rows, n - 1, project) + [AccountLike(rows[n - 1], project)]
  }

  /** The first n default accounts. */
  function Defaults(n: nat, project: string): seq<Account>
    requires n <= |DEFAULT_ACCOUNTS|
  {
    if n == 0 then [] else Defaults(n - 1, project) + [DefaultAccount(n - 1, project)]
  }

  /** The accounts that a project still has to get: those of 'global', or else the default ones. */
  function Seeds(accounts: seq<Account>, project: string): seq<Account> {
    var globalRows := OfProject(accounts, "global");
    if HasProject(accounts, project) then []
    else if globalRows != [] then Copies(globalRows, |globalRows|, project)
    else Defaults(|DEFAULT_ACCOUNTS|, project)
  }

  lemma {:induction false} CopiesAre(rows: seq<Account>, n: nat, project: string)
    requires n <= |rows|
    ensures |Copies(rows, n, project)| == n
    ensures forall i :: 0 <= i < n ==> Copies(rows, n, project)[i] == AccountLike(rows[i], project)
  {
    if n > 0 { CopiesAre(rows, n - 1, project); }
  }

  lemma {:induction false} DefaultsAre(n: nat, project: string)
    requires n <= |DEFAULT_ACCOUNTS|
    ensures |Defaults(n, project)| == n
    ensures forall i :: 0 <= i < n ==> Defaults(n, project)[i] == DefaultAccount(i, project)
  {
    if n > 0 { DefaultsAre(n - 1, project); }
  }

  /** Seeding brings no new kinds of account. */
  lemma SeedsAreOfKinds(accounts: seq<Account>, project: string)
    requires forall i :: 0 <= i < |accounts| ==> accounts[i].kind in KINDS
    ensures forall a :: a in Seeds(accounts, project) ==> a.kind in KINDS
  {
    hide OfProject, HasProject, Copies, Defaults;
    var globalRows := OfProject(accounts, "global");
    OfProjectIn(accounts, "global");
    CopiesAre(globalRows, |globalRows|, project);
    DefaultsAre(|DEFAULT_ACCOUNTS|, project);
    forall i | 0 <= i < |globalRows| ensures globalRows[i].kind in KINDS {
      hide *;
      assert globalRows[i] in accounts;
    }
  }

  /** A project is seeded once: afterwards it has accounts, and nothing is left to seed. */
  lemma SeededOnce(accounts: seq<Account>, project: string)
    ensures HasProject(accounts + Seeds(accounts, project), project)
    ensures Seeds(accounts + Seeds(accounts, project), project) == []
  {
    var all := accounts + Seeds(accounts, project);
    if HasProject(accounts, project) {
      var i :| 0 <= i < |accounts| && accounts[i].project == project;
      assert all[i].project == project;
    } else {
      var globalRows := OfProject(accounts, "global");
      CopiesAre(globalRows, |globalRows|, project);
      DefaultsAre(|DEFAULT_ACCOUNTS|, project);
      assert all[|accounts|].project == project;
    }
  }

  /** A project seeded from 'global' has each account that 'global' has. */
  lemma {:induction false} GlobalIsCopied(accounts: seq<Account>, project: string, code: string)
    requires !HasProject(accounts, project) && HasAccount(accounts, "global", code)
    ensures HasAccount(accounts + Seeds(accounts, project), project, code)
  {
    var rows := OfProject(accounts, "global");
    OfProjectHas(accounts, "global", code);
    var i :| 0 <= i < |rows| && rows[i].code == code;
    CopiesAre(rows, |rows|, project);
    assert (accounts + Seeds(accounts, project))[|accounts| + i] == AccountLike(rows[i], project);
  }

  lemma {:induction false} OfProjectHas(accounts: seq<Account>, project: string, code: string)
    requires HasAccount(accounts, project, code)
    ensures exists i :: 0 <= i < |OfProject(accounts, project)| && OfProject(accounts, project)[i].code == code
  {
    var n := |accounts| - 1;
    var rest := OfProject(accounts[..n], project);
    if accounts[n].project == project && accounts[n].code == code {
      assert OfProject(accounts, project)[|rest|].code == code;
    } else {
      var k :| 0 <= k < |accounts| && accounts[k].project == project && accounts[k].code == code;
      assert accounts[..n][k] == accounts[k];
      OfProjectHas(accounts[..n], project, code);
      var i :| 0 <= i < |rest| && rest[i].code == code;
      assert OfProject(accounts, project)[i] == rest[i];
    }
  }

  /** The lines of a project in the table, whatever their entries. */
  function ProjectLines(rows: seq<LineRow>, project: string): seq<Line> {
    if rows == [] then []
    else
      ProjectLines(rows[..|rows| - 1], project) + (if rows[|rows| - 1].project == project then [rows[|rows| - 1].line] else [])
  }

  lemma {:induction false} ProjectAppend(a: seq<LineRow>, b: seq<LineRow>, project: string)
    ensures ProjectLines(a + b, project) == ProjectLines(a, project) + ProjectLines(b, project)
  {
    hide *;
    if b == [] {
      assert a + b == a;
      NoProjectLines(project);
    } else {
      var init, last := b[..|b| - 1], b[|b| - 1];
      ProjectAppend(a, init, project);
      ProjectSnoc(a + init, last, project);
      ProjectSnoc(init, last, project);
      assert a + b == (a + init) + [last] && b == init + [last];
    }
  }

  lemma {:induction false} ProjectOfPost(p: Post, n: nat, project: string)
    requires n <= |p.lines|
    ensures ProjectLines(RowsOfPost(p, n), project) == if p.entry.project == project then p.lines[..n] else []
  {
    hide ProjectLines;
    if n == 0 {
      NoProjectLines(project);
    } else {
      ProjectOfPost(p, n - 1, project);
      ProjectSnoc(RowsOfPost(p, n - 1), LineRow(p.entry.id, p.entry.project, n, p.lines[n - 1]), project);
      assert p.lines[..n] == p.lines[..n - 1] + [p.lines[n - 1]];
    }
  }

  lemma NoProjectLines(project: string)
    ensures ProjectLines([], project) == []
  {}

  lemma ProjectSnoc(rows: seq<LineRow>, row: LineRow, project: string)
    ensures ProjectLines(rows + [row], project) == ProjectLines(rows, project) + (if row.project == project then [row.line] else [])
  {
    assert (rows + [row])[..|rows|] == rows;
  }

  /** Reading lines without their entries gives the lines of all posts of the project. */
  lemma {:induction false} ProjectPosts(posts: seq<Post>, project: string)
    ensures ProjectLines(RowsOfPosts(posts), project) == PostedLines(posts, project, None)
  {
    if posts != [] {
      var init, p := posts[..|posts| - 1], posts[|posts| - 1];
      ProjectPosts(init, project);
      ProjectOfPost(p, |p.lines|, project);
      assert p.lines[..|p.lines|] == p.lines;
      ProjectAppend(RowsOfPosts(init), RowsOfPost(p, |p.lines|), project);
    }
  }

  /** The trial balance of a project sums to zero after any run of accepted postings in whole cents. */
  lemma TrialBalanceIsZero(posts: seq<Post>, project: string)
    requires PostsFit(posts)
    ensures SumRows(TrialRows(ByAccount(ProjectLines(RowsOfPosts(posts), project)))) == 0.0
  {
    hide Gate, WholeCents, ByAccount, GroupsCents;
    var lines := ProjectLines(RowsOfPosts(posts), project);
    ProjectPosts(posts, project);
    PostedBalance(posts, project, None);
    GroupsNet(lines);
    SumsAreCents(lines);
    TrialSum(ByAccount(lines));
  }

  /** Accepted posts under ids of their own, on accounts that exist. */
  ghost predicate PostsHold(accounts: seq<Account>, posts: seq<Post>) {
    && FreshIds(posts) && (forall i :: 0 <= i < |posts| ==> Gate(posts[i].lines))
    && forall i, j :: 0 <= i < |posts| && 0 <= j < |posts[i].lines|
                      ==> HasAccount(accounts, posts[i].entry.project, posts[i].lines[j].account)
  }

  lemma OnePost(before: seq<Post>, p: Post)
    ensures EntriesOfPosts(before + [p]) == EntriesOfPosts(before) + [p.entry]
    ensures RowsOfPosts(before + [p]) == RowsOfPosts(before) + RowsOfPost(p, |p.lines|)
  {
    assert (before + [p])[..|before|] == before;
  }

  lemma PostsGrow(accounts: seq<Account>, posts: seq<Post>, p: Post)
    requires PostsHold(accounts, posts) && forall i :: 0 <= i < |posts| ==> posts[i].entry.id != p.entry.id
    requires Gate(p.lines) && forall j :: 0 <= j < |p.lines| ==> HasAccount(accounts, p.entry.project, p.lines[j].account)
    ensures PostsHold(accounts, posts + [p])
  {
    hide Gate, HasAccount;
  }

  lemma PostsStay(before: seq<Account>, accounts: seq<Account>, posts: seq<Post>)
    requires PostsHold(before, posts)
    requires forall project, code :: HasAccount(before, project, code) ==> HasAccount(accounts, project, code)
    ensures PostsHold(accounts, posts)
  {
    hide Gate, HasAccount, FreshIds;
  }

  /** The balance sheet of accepted posts in whole cents says what was posted. */
  lemma SheetIsOfPosts(posts: seq<Post>, accounts: seq<Account>, project: string, asOf: Option<string>)
    requires PostsFit(posts)
    ensures ReportSays(BalanceSheetOf(RowsOfPosts(posts), EntriesOfPosts(posts), accounts, project, asOf),
                       PostedLines(posts, project, asOf), accounts, project)
  {
    IncludedPosts(posts, |posts|, project, asOf);
    assert posts[..|posts|] == posts;
    hide Gate, WholeCents, ReportSays, ReportOf, Sections, ByAccount, Included, PostedLines, RowsOfPosts, EntriesOfPosts;
    PostedBalance(posts, project, asOf);
    ReportIsSaid(PostedLines(posts, project, asOf), accounts, project);
  }

  // ---- The trial balance --------------------------------------------------------------------------------------------------

  /** A row as it is reported: the group, what its account is called, and the rounded balance. */
  datatype TrialRow = TrialRow(code: string, debit: real, credit: real, name: string, kind: string, balance: real)

  /** The name of an account: that of the last one of the project with its code. */
  function AccountName(accounts: seq<Account>, project: string, code: string): string {
    if accounts == [] then "(Unknown)"
    else if accounts[|accounts| - 1].project == project && accounts[|accounts| - 1].code == code then accounts[|accounts| - 1].name
    else AccountName(accounts[..|accounts| - 1], project, code)
  }

  function NamedRow(g: Group<Sides>, accounts: seq<Account>, project: string): TrialRow {
    TrialRow(g.key, g.value.debit, g.value.credit, AccountName(accounts, project, g.key), KindOf(accounts, project, g.key),
             Round2(g.value.debit - g.value.credit))
  }

  /** The accounts of one project and code agree on name and type. */
  predicate OneMeaning(accounts: seq<Account>, project: string, code: string) {
    forall a, b :: a in accounts && b in accounts && IsFor(a, project, code) && IsFor(b, project, code)
                   ==> a.name == b.name && a.kind == b.kind
  }

  predicate IsFor(a: Account, project: string, code: string) { a.project == project && a.code == code }

  /** The order of the accounts, which is that of their random uuids, matters exactly where two of one code differ. */
  lemma AccountOrderIff(accounts: seq<Account>, project: string, g: Group<Sides>)
    ensures (forall other: seq<Account> :: multiset(other) == multiset(accounts)
                                           ==> NamedRow(g, other, project) == NamedRow(g, accounts, project))
            <==> OneMeaning(accounts, project, g.key)
  {
    hide NamedRow;
    if OneMeaning(accounts, project, g.key) {
      forall other: seq<Account> | multiset(other) == multiset(accounts)
        ensures NamedRow(g, other, project) == NamedRow(g, accounts, project)
      {
        SameName(other, accounts, project, g);
      }
    } else {
      var other := OtherName(accounts, project, g);
    }
  }

  lemma SameName(other: seq<Account>, accounts: seq<Account>, project: string, g: Group<Sides>)
    requires multiset(other) == multiset(accounts) && OneMeaning(accounts, project, g.key)
    ensures NamedRow(g, other, project) == NamedRow(g, accounts, project)
  {
    hide KindOf, AccountName;
    var k := LastAccount(accounts, project, g.key);
    var l := LastAccount(other, project, g.key);
    SameMembers(other, accounts);
    hide IsFor;
    if l >= 0 { assert other[l] in accounts; }
    if k >= 0 { assert accounts[k] in other; }
  }

  /** With an account of another name or type last, the row is another. */
  lemma OtherName(accounts: seq<Account>, project: string, g: Group<Sides>) returns (other: seq<Account>)
    requires !OneMeaning(accounts, project, g.key)
    ensures multiset(other) == multiset(accounts) && NamedRow(g, other, project) != NamedRow(g, accounts, project)
  {
    hide KindOf, AccountName, IsFor;
    var a, b :| a in accounts && b in accounts && IsFor(a, project, g.key) && IsFor(b, project, g.key)
                && !(a.name == b.name && a.kind == b.kind);
    var named := NamedRow(g, accounts, project);
    var d := if a.name == named.name && a.kind == named.kind then b else a;
    other := PutLast(accounts, d);
    var _ := LastAccount(other, project, g.key);
  }

  lemma PutLast(accounts: seq<Account>, d: Account) returns (other: seq<Account>)
    requires d in accounts
    ensures multiset(other) == multiset(accounts) && other != [] && other[|other| - 1] == d
  {
    var i :| 0 <= i < |accounts| && accounts[i] == d;
    other := accounts[..i] + accounts[i + 1..] + [d];
    assert accounts == accounts[..i] + [d] + accounts[i + 1..];
  }

  lemma SameMembers(a: seq<Account>, b: seq<Account>)
    requires multiset(a) == multiset(b)
    ensures forall x :: x in a <==> x in b
  {
    forall x ensures x in a <==> x in b {
      assert x in multiset(a) <==> x in multiset(b);
    }
  }

  /** The account that gives a code its name and type: the last of that code. */
  lemma {:induction false} LastAccount(accounts: seq<Account>, project: string, code: string) returns (last: int)
    ensures -1 <= last < |accounts| && forall i :: last < i < |accounts| ==> !IsFor(accounts[i], project, code)
    ensures last == -1 ==> AccountName(accounts, project, code) == "(Unknown)" && KindOf(accounts, project, code) == "Unknown"
    ensures last >= 0 ==> IsFor(accounts[last], project, code) && AccountName(accounts, project, code) == accounts[last].name
                          && KindOf(accounts, project, code) == accounts[last].kind
  {
    var n := |accounts| - 1;
    if accounts == [] || IsFor(accounts[n], project, code) {
      last := n;
    } else {
      last := LastAccount(accounts[..n], project, code);
    }
  }

  function NamedRows(groups: seq<Group<Sides>>, accounts: seq<Account>, project: string): (report: seq<TrialRow>)
    ensures |report| == |groups| && forall k :: 0 <= k < |groups| ==> report[k] == NamedRow(groups[k], accounts, project)
  {
    if groups == [] then []
    else NamedRows(groups[..|groups| - 1], accounts, project) + [NamedRow(groups[|groups| - 1], accounts, project)]
  }

  /** The last account of the project with this code has this name and type; without one neither is known. */
  predicate IsCalled(accounts: seq<Account>, project: string, code: string, name: string, kind: string) {
    || (exists i :: 0 <= i < |accounts| && IsFor(accounts[i], project, code) && accounts[i].name == name && accounts[i].kind == kind
                    && forall j :: i < j < |accounts| ==> !IsFor(accounts[j], project, code))
    || (name == "(Unknown)" && kind == "Unknown" && forall j :: 0 <= j < |accounts| ==> !IsFor(accounts[j], project, code))
  }

  /** A row: an account with a line, its own debits and credits, their difference rounded, its name and its type. */
  predicate TrialRowSays(row: TrialRow, lines: seq<Line>, accounts: seq<Account>, project: string) {
    && Occurs(lines, row.code) && row.debit == DebitsOn(lines, row.code) && row.credit == CreditsOn(lines, row.code)
    && row.balance == Round2(row.debit - row.credit) && IsCalled(accounts, project, row.code, row.name, row.kind)
  }

  predicate HasTrialRow(report: seq<TrialRow>, code: string) { exists k :: 0 <= k < |report| && report[k].code == code }

  /** A row for every account with a line, in the order of the codes, and no others. */
  predicate TrialSays(report: seq<TrialRow>, lines: seq<Line>, accounts: seq<Account>, project: string) {
    && (forall i, j :: 0 <= i < j < |report| ==> Before(report[i].code, report[j].code))
    && (forall k :: 0 <= k < |report| ==> TrialRowSays(report[k], lines, accounts, project))
    && (forall i :: 0 <= i < |lines| ==> HasTrialRow(report, lines[i].account))
  }

  lemma IsCalledByName(accounts: seq<Account>, project: string, code: string)
    ensures IsCalled(accounts, project, code, AccountName(accounts, project, code), KindOf(accounts, project, code))
  {
    hide AccountName, KindOf, IsFor;
    var _ := LastAccount(accounts, project, code);
  }

  lemma TrialIsSaid(groups: seq<Group<Sides>>, lines: seq<Line>, accounts: seq<Account>, project: string)
    requires GroupsSay(groups, lines)
    ensures TrialSays(NamedRows(groups, accounts, project), lines, accounts, project)
  {
    hide Before, DebitsOn, CreditsOn, Occurs, IsCalled, AccountName, KindOf, Round2, NamedRows;
    var report := NamedRows(groups, accounts, project);
    forall k | 0 <= k < |report| ensures TrialRowSays(report[k], lines, accounts, project) {
      IsCalledByName(accounts, project, groups[k].key);
    }
    forall i | 0 <= i < |lines| ensures HasTrialRow(report, lines[i].account) {
      assert IsKey(groups, lines[i].account);
      var k :| 0 <= k < |groups| && groups[k].key == lines[i].account;
      assert report[k].code == lines[i].account;
    }
  }

  function SumBalances(report: seq<TrialRow>): real {
    if report == [] then 0.0 else SumBalances(report[..|report| - 1]) + report[|report| - 1].balance
  }

  lemma {:induction false} BalancesOfRows(groups: seq<Group<Sides>>, accounts: seq<Account>, project: string)
    ensures SumBalances(NamedRows(groups, accounts, project)) == SumRows(TrialRows(groups))
  {
    hide Round2, AccountName, KindOf;
    if groups != [] {
      var init, g := groups[..|groups| - 1], groups[|groups| - 1];
      BalancesOfRows(init, accounts, project);
      assert NamedRows(groups, accounts, project)[..|init|] == NamedRows(init, accounts, project);
      SumSnoc(TrialRows(init), RowOf(g));
    }
  }

  class Journal {
    var accounts: seq<Account>
    var entries: seq<Entry>
    var rows: seq<LineRow>
    ghost var posts: seq<Post>

    constructor ()
      ensures Valid() && accounts == [] && posts == []
    {
      accounts, entries, rows, posts := [], [], [], [];
    }

    /** The two tables hold accepted posts, whole and under their own ids, on accounts that exist. */
    ghost predicate Valid()
      reads this
    {
      entries == EntriesOfPosts(posts) && rows == RowsOfPosts(posts) && PostsHold(accounts, posts)
    }

    lemma AccountsMayGrow(before: seq<Account>)
      requires forall i :: 0 <= i < |before| ==> before[i] in accounts
      ensures forall project, code :: HasAccount(before, project, code) ==> HasAccount(accounts, project, code)
    {
      forall project, code | HasAccount(before, project, code) ensures HasAccount(accounts, project, code) {
        var i :| 0 <= i < |before| && before[i].project == project && before[i].code == code;
        assert before[i] in accounts;
        var j :| 0 <= j < |accounts| && accounts[j] == before[i];
      }
    }

    /** A project without accounts gets those of the project 'global', or the default ones. */
    method EnsureAccountsForProject(project: string)
      requires Valid()
      modifies this`accounts
      ensures Valid() && accounts == old(accounts) + Seeds(old(accounts), project)
    {
      if HasProject(accounts, project) { return; }
      hide PostsHold, HasAccount, HasProject, OfProject, EntriesOfPosts, RowsOfPosts, AccountLike, DefaultAccount, DEFAULT_ACCOUNTS;
      var globalRows := OfProject(accounts, "global");
      var i := 0;
      if globalRows != [] {
        while i < |globalRows|
          invariant 0 <= i <= |globalRows| && accounts == old(accounts) + Copies(globalRows, i, project)
        {
          accounts := accounts + [AccountLike(globalRows[i], project)];
          i := i + 1;
        }
      } else {
        while i < |DEFAULT_ACCOUNTS|
          invariant 0 <= i <= |DEFAULT_ACCOUNTS| && accounts == old(accounts) + Defaults(i, project)
        {
          accounts := accounts + [DefaultAccount(i, project)];
          i := i + 1;
        }
      }
      AccountsMayGrow(old(accounts));
      PostsStay(old(accounts), accounts, posts);
    }

    /** The new row stands at the place of its uuid in key order. */
    method AddAccount(project: string, code: string, name: string, kind: string, place: nat)
      requires Valid() && place <= |accounts|
      modifies this`accounts
      ensures Valid()
      ensures accounts == old(accounts)[..place] + [Account(project, Trim(code), Trim(name), kind)] + old(accounts)[place..]
    {
      hide Gate, FreshIds, EntriesOfPosts, RowsOfPosts, Trim, HasAccount, PostsHold;
      accounts := accounts[..place] + [Account(project, Trim(code), Trim(name), kind)] + accounts[place..];
      assert old(accounts) == old(accounts)[..place] + old(accounts)[place..];
      AccountsMayGrow(old(accounts));
      PostsStay(old(accounts), accounts, posts);
    }

    /** An entry and its lines; false where a check throws, and then nothing is posted. The id is a new uuid. */
    method PostJournal(project: string, date: string, memo: string, lines: seq<Line>, entryId: string, user: string, now: string,
                       toIsoDate: string -> Option<string>)
      returns (ok: bool)
      requires Valid() && forall i :: 0 <= i < |posts| ==> posts[i].entry.id != entryId
      modifies this
      ensures Valid() && accounts == old(accounts) + Seeds(old(accounts), project)
      ensures ok <==> StartsAsIsoDate(date) && toIsoDate(date).Some? && Gate(lines)
                      && forall j :: 0 <= j < |lines| ==> HasAccount(accounts, project, lines[j].account)
      ensures posts == if ok then old(posts) + [Post(Entry(entryId, project, toIsoDate(date).value, memo, user, now), lines)] else old(posts)
    {
      EnsureAccountsForProject(project);
      if !StartsAsIsoDate(date) { return false; }
      var balanced := EnsureBalancedLines(lines);
      if !balanced { return false; }
      var i := 0;
      while i < |lines|
        invariant 0 <= i <= |lines| && Valid() && posts == old(posts)
        invariant accounts == old(accounts) + Seeds(old(accounts), project)
        invariant forall j :: 0 <= j < i ==> HasAccount(accounts, project, lines[j].account)
      {
        if !HasAccount(accounts, project, lines[i].account) { return false; }
        i := i + 1;
      }
      var day := toIsoDate(date);
      if day.None? { return false; }
      Record(Post(Entry(entryId, project, day.value, memo, user, now), lines));
      ok := true;
    }

    /** The inserts of postJournal. */
    method Record(p: Post)
      requires Valid() && forall i :: 0 <= i < |posts| ==> posts[i].entry.id != p.entry.id
      requires Gate(p.lines) && forall j :: 0 <= j < |p.lines| ==> HasAccount(accounts, p.entry.project, p.lines[j].account)
      modifies this`entries, this`rows, this`posts
      ensures Valid() && posts == old(posts) + [p]
    {
      hide PostsHold, Gate, HasAccount, EntriesOfPosts, RowsOfPosts;
      ghost var start := posts;
      assert rows + RowsOfPost(p, 0) == rows;
      entries := entries + [p.entry];
      ghost var before := rows;
      var lineNo := 1;
      var i := 0;
      while i < |p.lines|
        invariant 0 <= i <= |p.lines| && lineNo == i + 1 && rows == before + RowsOfPost(p, i)
        invariant posts == start && entries == old(entries) + [p.entry]
      {
        rows := rows + [LineRow(p.entry.id, p.entry.project, lineNo, p.lines[i])];
        lineNo := lineNo + 1;
        i := i + 1;
      }
      posts := posts + [p];
      OnePost(start, p);
      PostsGrow(accounts, start, p);
    }

    /** The rows of the trial balance, each with the name and the type of its account. */
    method TrialBalance(project: string) returns (report: seq<TrialRow>)
      requires Valid()
      ensures TrialSays(report, PostedLines(posts, project, None), accounts, project)
      ensures (forall i :: 0 <= i < |posts| ==> WholeCents(posts[i].lines)) ==> SumBalances(report) == 0.0
    {
      hide Gate, WholeCents, ByAccount, Round2, IsCents, AccountName, KindOf, NamedRow, TrialSays, GroupsSay, TrialRows, SumRows;
      var groups := ByAccount(ProjectLines(rows, project));
      report := [];
      var i := 0;
      while i < |groups|
        invariant 0 <= i <= |groups| && |report| == i
        invariant forall k :: 0 <= k < i ==> report[k] == NamedRow(groups[k], accounts, project)
      {
        report := report + [NamedRow(groups[i], accounts, project)];
        i := i + 1;
      }
      assert report == NamedRows(groups, accounts, project);
      ProjectPosts(posts, project);
      ByAccountSays(PostedLines(posts, project, None));
      TrialIsSaid(groups, PostedLines(posts, project, None), accounts, project);
      BalancesOfRows(groups, accounts, project);
      if forall k :: 0 <= k < |posts| ==> WholeCents(posts[k].lines) {
        TrialBalanceIsZero(posts, project);
      }
    }

    /** The balance sheet of a project, up to a date when one is given. */
    method BalanceSheet(project: string, asOf: Option<string>) returns (r: Report)
      requires Valid()
      ensures r == BalanceSheetOf(rows, entries, accounts, project, asOf)
      ensures (forall i :: 0 <= i < |posts| ==> WholeCents(posts[i].lines))
              ==> ReportSays(r, PostedLines(posts, project, asOf), accounts, project)
      ensures (forall i :: 0 <= i < |posts| ==> WholeCents(posts[i].lines))
              && (forall i :: 0 <= i < |accounts| ==> accounts[i].kind in KINDS)
              ==> r.totalAssets + r.totalLiabilities + r.totalEquity == 0.0
    {
      hide Gate, WholeCents, ByAccount, Round2, IsCents, Included, EntriesOfPosts, RowsOfPosts, HasAccount;
      var groups := ByAccount(Included(rows, entries, project, asOf));
      var assets, liabilities, equity: seq<Row>, earnings := [], [], [], 0.0;
      var i := 0;
      assert groups[..0] == [];
      while i < |groups|
        invariant 0 <= i <= |groups|
        invariant Sheet(assets, liabilities, equity, earnings) == Sections(groups[..i], accounts, project)
      {
        assert groups[..i + 1][..i] == groups[..i];
        var row := RowOf(groups[i]);
        var kind := KindOf(accounts, project, groups[i].key);
        if kind == "Asset" { assets := assets + [row]; }
        else if kind == "Liability" { liabilities := liabilities + [row]; }
        else if kind == "Equity" { equity := equity + [row]; }
        else if kind == "Revenue" { earnings := earnings + row.balance; }
        else if kind == "Expense" { earnings := earnings + row.balance; }
        i := i + 1;
      }
      assert groups[..i] == groups;
      if earnings != 0.0 { equity := equity + [Row("0000", earnings)]; }
      var totalAssets := TotalOf(assets);
      var totalLiabilities := TotalOf(liabilities);
      var totalEquity := TotalOf(equity);
      r := Report(assets, liabilities, equity, totalAssets, totalLiabilities, totalEquity);
      if forall k :: 0 <= k < |posts| ==> WholeCents(posts[k].lines) {
        SheetIsOfPosts(posts, accounts, project, asOf);
      }
      if (forall k :: 0 <= k < |posts| ==> WholeCents(posts[k].lines))
         && (forall k :: 0 <= k < |accounts| ==> accounts[k].kind in KINDS) {
        BalanceSheetBalances(posts, accounts, project, asOf);
      }
    }
  }

  /** total(): the sum of the balances, rounded. */
  method TotalOf(report: seq<Row>) returns (total: real)
    ensures total == Round2(SumRows(report))
  {
    var s := 0.0;
    var i := 0;
    assert report[..0] == [];
    while i < |report|
      invariant 0 <= i <= |report| && s == SumRows(report[..i])
    {
      assert report[..i + 1][..i] == report[..i];
      s := s + report[i].balance;
      i := i + 1;
    }
    assert report[..i] == report;
    total := Round2(s);
  }

  // ---- A run that unbalances the report -----------------------------------------------------------------------------------

  const MIXED := [Account("p", "1000", "Cash", "Asset"), Account("p", "9999", "Suspense", "Other")]
  const MIXED_LINES := [Line("1000", 1.0, 0.0), Line("9999", 0.0, 1.0)]

  lemma MixedPosts()
    ensures [Post(Entry("e", "p", "2024-01-01", "", "u", ""), MIXED_LINES)] == [Transfer("p", "2024-01-01", "1000", "9999")]
    ensures Gate(MIXED_LINES) && Seeds(MIXED, "p") == []
    ensures forall j :: 0 <= j < |MIXED_LINES| ==> HasAccount(MIXED, "p", MIXED_LINES[j].account)
  {
    TransferFits("p", "2024-01-01", "1000", "9999");
    assert MIXED[0].code == "1000" && MIXED[0].project == "p" && MIXED[1].code == "9999" && MIXED[1].project == "p";
    assert PostsFit([Post(Entry("e", "p", "2024-01-01", "", "u", ""), MIXED_LINES)]);
    assert Gate([Post(Entry("e", "p", "2024-01-01", "", "u", ""), MIXED_LINES)][0].lines);
  }

  lemma TrimKeeps(s: string)
    requires s != "" && !IsSpace(s[0]) && !IsSpace(s[|s| - 1])
    ensures Trim(s) == s
  {
    assert SpacesAtStart(s) == 0 && SpacesAtEnd(s) == |s|;
    assert s[0..|s|] == s;
  }

  lemma MixedStart()
    ensures [] + [Account("p", Trim("1000"), Trim("Cash"), "Asset")] + [Account("p", Trim("9999"), Trim("Suspense"), "Other")] == MIXED
    ensures StartsAsIsoDate("2024-01-01")
  {
    DayOf2024();
    hide Trim;
    TrimKeeps("1000");
    TrimKeeps("Cash");
    TrimKeeps("9999");
    TrimKeeps("Suspense");
  }

  /** Two accounts, one of them of a type of its own, and one accepted entry: the balance sheet is off by its amount. */
  method MixedRun(toIsoDate: string -> Option<string>) returns (books: Journal, r: Report)
    requires toIsoDate("2024-01-01") == Some("2024-01-01")
    ensures fresh(books) && books.Valid() && books.accounts == MIXED && |books.posts| == 1
    ensures ReportSum(r) == 1.0 && r == BalanceSheetOf(books.rows, books.entries, books.accounts, "p", None)
  {
    hide *;
    MixedStart();
    MixedPosts();
    MixedReport();
    books := new Journal();
    books.AddAccount("p", "1000", "Cash", "Asset", 0);
    books.AddAccount("p", "9999", "Suspense", "Other", 1);
    var ok := books.PostJournal("p", "2024-01-01", "", MIXED_LINES, "e", "u", "", toIsoDate);
    r := books.BalanceSheet("p", None);
    TablesOfPosts(books);
  }

  lemma TablesOfPosts(books: Journal)
    requires books.Valid()
    ensures books.entries == EntriesOfPosts(books.posts) && books.rows == RowsOfPosts(books.posts)
  {}

  lemma MixedReport()
    ensures var posts := [] + [Post(Entry("e", "p", "2024-01-01", "", "u", ""), MIXED_LINES)];
            |posts| == 1 && ReportSum(BalanceSheetOf(RowsOfPosts(posts), EntriesOfPosts(posts), MIXED, "p", None)) == 1.0
    ensures MIXED + [] == MIXED
  {
    MixedPosts();
    OtherTypeUnbalances();
    hide BalanceSheetOf, RowsOfPosts, EntriesOfPosts, Transfer, MIXED_LINES;
    var post := Post(Entry("e", "p", "2024-01-01", "", "u", ""), MIXED_LINES);
    assert [] + [post] == [post];
  }
}

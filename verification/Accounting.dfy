/** Journal entries and reports: the balance gate, what it lets through, and the accounting equation. */
module Accounting {
  import opened Bytes
  import opened Options
  import opened Database
  import opened Grouping
  import opened Decimals

  // ---- Rounding -----------------------------------------------------------------------------------------------------------

  /** Number(x.toFixed(2)): to the nearest cent, halves away from zero. */
  function Round2(x: real): real {
    if x < 0.0 then -((-x * 100.0 + 0.5).Floor as real / 100.0) else (x * 100.0 + 0.5).Floor as real / 100.0
  }

  predicate IsCents(x: real) { x * 100.0 == (x * 100.0).Floor as real }

  lemma CentsOf(n: int)
    ensures IsCents(n as real / 100.0)
  {}

  lemma CentsAdd(x: real, y: real)
    requires IsCents(x) && IsCents(y)
    ensures IsCents(x + y) && IsCents(x - y)
  {
    var n, m := (x * 100.0).Floor, (y * 100.0).Floor;
    IsWhole((x + y) * 100.0, n + m);
    IsWhole((x - y) * 100.0, n - m);
  }

  lemma IsWhole(z: real, n: int)
    requires z == n as real
    ensures z == z.Floor as real
  {}

  lemma RoundedIsCents(x: real)
    ensures IsCents(Round2(x))
  {
    if x < 0.0 {
      CentsOf(-(-x * 100.0 + 0.5).Floor);
    } else {
      CentsOf((x * 100.0 + 0.5).Floor);
    }
  }

  /** Whole cents stay as they are. */
  lemma RoundOfCents(x: real)
    requires IsCents(x)
    ensures Round2(x) == x
  {
    var n := (x * 100.0).Floor;
    assert (n as real + 0.5).Floor == n && (-n as real + 0.5).Floor == -n;
  }

  /** Rounding moves by half a cent at most. */
  lemma RoundingError(x: real)
    ensures -0.005 <= x - Round2(x) <= 0.005
  {}

  /** A half cent is rounded away from zero. */
  lemma HalfCents(n: nat)
    ensures Round2((n as real + 0.5) / 100.0) == (n + 1) as real / 100.0
    ensures Round2(-(n as real + 0.5) / 100.0) == -((n + 1) as real / 100.0)
  {
    assert ((n as real + 0.5) + 0.5).Floor == n + 1;
  }

  // ---- The gate -----------------------------------------------------------------------------------------------------------

  datatype Line = Line(account: string, debit: real, credit: real)

  /** Debits minus credits as they are stored. */
  function Net(lines: seq<Line>): real {
    if lines == [] then 0.0 else Net(lines[..|lines| - 1]) + (lines[|lines| - 1].debit - lines[|lines| - 1].credit)
  }

  function RoundedDebits(lines: seq<Line>): real {
    if lines == [] then 0.0 else RoundedDebits(lines[..|lines| - 1]) + Round2(lines[|lines| - 1].debit)
  }

  function RoundedCredits(lines: seq<Line>): real {
    if lines == [] then 0.0 else RoundedCredits(lines[..|lines| - 1]) + Round2(lines[|lines| - 1].credit)
  }

  predicate LineFits(l: Line) {
    var d, c := Round2(l.debit), Round2(l.credit);
    d >= 0.0 && c >= 0.0 && !(d > 0.0 && c > 0.0) && l.account != ""
  }

  /** What ensureBalancedLines accepts: the rounded sides are equal. */
  predicate Gate(lines: seq<Line>) {
    && lines != [] && (forall i :: 0 <= i < |lines| ==> LineFits(lines[i]))
    && RoundedDebits(lines) == RoundedCredits(lines)
  }

  method EnsureBalancedLines(lines: seq<Line>) returns (ok: bool)
    ensures ok == Gate(lines)
  {
    hide Round2, IsCents;
    if lines == [] { return false; }
    var totalDebit, totalCredit := 0.0, 0.0;
    var i := 0;
    CentsOfZero();
    assert lines[..0] == [];
    while i < |lines|
      invariant 0 <= i <= |lines| && forall k :: 0 <= k < i ==> LineFits(lines[k])
      invariant totalDebit == RoundedDebits(lines[..i]) && totalCredit == RoundedCredits(lines[..i])
      invariant IsCents(totalDebit) && IsCents(totalCredit)
    {
      var l := lines[i];
      assert lines[..i + 1][..i] == lines[..i];
      var d, c := Round2(l.debit), Round2(l.credit);
      if d < 0.0 || c < 0.0 { return false; }
      if d > 0.0 && c > 0.0 { return false; }
      if l.account == "" { return false; }
      RoundedIsCents(l.debit);
      RoundedIsCents(l.credit);
      CentsAdd(totalDebit, d);
      CentsAdd(totalCredit, c);
      totalDebit := totalDebit + d;
      totalCredit := totalCredit + c;
      i := i + 1;
    }
    assert lines[..i] == lines;
    RoundOfCents(totalDebit);
    RoundOfCents(totalCredit);
    ok := Round2(totalDebit) == Round2(totalCredit);
  }

  lemma CentsOfZero()
    ensures IsCents(0.0)
  {}

  /** What rounding takes from debits, less what it takes from credits. */
  function Errors(lines: seq<Line>): real {
    if lines == [] then 0.0
    else
      var l := lines[|lines| - 1];
      Errors(lines[..|lines| - 1]) + ((l.debit - Round2(l.debit)) - (l.credit - Round2(l.credit)))
  }

  lemma {:induction false} NetAndErrors(lines: seq<Line>)
    ensures Net(lines) == RoundedDebits(lines) - RoundedCredits(lines) + Errors(lines)
  {
    hide Round2;
    if lines != [] { NetAndErrors(lines[..|lines| - 1]); }
  }

  lemma {:induction false} ErrorsBound(lines: seq<Line>)
    ensures -0.01 * |lines| as real <= Errors(lines) <= 0.01 * |lines| as real
  {
    hide Round2;
    if lines != [] {
      var l := lines[|lines| - 1];
      ErrorsBound(lines[..|lines| - 1]);
      RoundingError(l.debit);
      RoundingError(l.credit);
    }
  }

  /**
   * The gate looks at rounded amounts but the raw ones are stored. An accepted entry is out of balance by its rounding
   * errors: it balances exactly when they cancel, and never misses by more than one cent a line.
   */
  lemma AcceptedImbalance(lines: seq<Line>)
    requires Gate(lines)
    ensures Net(lines) == Errors(lines)
    ensures Net(lines) == 0.0 <==> Errors(lines) == 0.0
    ensures -0.01 * |lines| as real <= Net(lines) <= 0.01 * |lines| as real
  {
    NetAndErrors(lines);
    ErrorsBound(lines);
  }

  /** An entry that is accepted and does not balance. */
  lemma AcceptedUnbalanced()
    ensures var lines := [Line("1000", 0.004, 0.0)]; Gate(lines) && Net(lines) == 0.004
  {
    var lines := [Line("1000", 0.004, 0.0)];
    assert Round2(0.004) == 0.0 by { assert (0.004 * 100.0 + 0.5).Floor == 0; }
    assert Round2(0.0) == 0.0 by { assert (0.0 * 100.0 + 0.5).Floor == 0; }
    assert lines[..0] == [];
  }

  predicate WholeCents(lines: seq<Line>) { forall i :: 0 <= i < |lines| ==> IsCents(lines[i].debit) && IsCents(lines[i].credit) }

  lemma {:induction false} CentsHaveNoErrors(lines: seq<Line>)
    requires WholeCents(lines)
    ensures Errors(lines) == 0.0
  {
    hide Round2, IsCents;
    if lines != [] {
      CentsHaveNoErrors(lines[..|lines| - 1]);
      RoundOfCents(lines[|lines| - 1].debit);
      RoundOfCents(lines[|lines| - 1].credit);
    }
  }

  /** A line names an account and has one side only, which is not negative. */
  predicate OneSided(l: Line) { l.account != "" && l.debit >= 0.0 && l.credit >= 0.0 && (l.debit == 0.0 || l.credit == 0.0) }

  /** In whole cents exactly the entries of one-sided lines whose debits are their credits are accepted. */
  lemma CentsGate(lines: seq<Line>)
    requires WholeCents(lines)
    ensures Gate(lines) <==> lines != [] && (forall i :: 0 <= i < |lines| ==> OneSided(lines[i])) && Net(lines) == 0.0
  {
    hide Round2, IsCents;
    forall i | 0 <= i < |lines| ensures LineFits(lines[i]) <==> OneSided(lines[i]) {
      RoundOfCents(lines[i].debit);
      RoundOfCents(lines[i].credit);
    }
    NetAndErrors(lines);
    CentsHaveNoErrors(lines);
    hide LineFits, OneSided, Net, RoundedDebits, RoundedCredits;
  }

  // ---- Journal ------------------------------------------------------------------------------------------------------------

  datatype Entry = Entry(id: string, project: string, date: string, memo: string, createdBy: string, createdAt: string)

  datatype LineRow = LineRow(entryId: string, project: string, lineNo: nat, line: Line)

  datatype Account = Account(project: string, code: string, name: string, kind: string)

  /** An entry with its lines, as they were posted together. */
  datatype Post = Post(entry: Entry, lines: seq<Line>)

  function RowsOfPost(p: Post, n: nat): seq<LineRow>
    requires n <= |p.lines|
  {
    if n == 0 then [] else RowsOfPost(p, n - 1) + [LineRow(p.entry.id, p.entry.project, n, p.lines[n - 1])]
  }

  function RowsOfPosts(posts: seq<Post>): seq<LineRow> {
    if posts == [] then [] else RowsOfPosts(posts[..|posts| - 1]) + RowsOfPost(posts[|posts| - 1], |posts[|posts| - 1].lines|)
  }

  function EntriesOfPosts(posts: seq<Post>): seq<Entry> {
    if posts == [] then [] else EntriesOfPosts(posts[..|posts| - 1]) + [posts[|posts| - 1].entry]
  }

  predicate FreshIds(posts: seq<Post>) { forall i, j :: 0 <= i < j < |posts| ==> posts[i].entry.id != posts[j].entry.id }

  // ---- Reports: the joined rows -------------------------------------------------------------------------------------------

  /** The entry a line joins with. */
  function EntryOf(entries: seq<Entry>, id: string): Option<Entry> {
    if entries == [] then None
    else if entries[|entries| - 1].id == id then Some(entries[|entries| - 1])
    else EntryOf(entries[..|entries| - 1], id)
  }

  /** WHERE l.project_id = project AND e.date <= asOf, the date only when one is given. */
  predicate IsIncluded(entry: Entry, asOf: Option<string>) { asOf.Some? ==> UpTo(entry.date, asOf.value) }

  function Included(rows: seq<LineRow>, entries: seq<Entry>, project: string, asOf: Option<string>): seq<Line> {
    if rows == [] then []
    else
      var row := rows[|rows| - 1];
      var entry := EntryOf(entries, row.entryId);
      Included(rows[..|rows| - 1], entries, project, asOf)
      + (if row.project == project && entry.Some? && IsIncluded(entry.value, asOf) then [row.line] else [])
  }

  lemma {:induction false} IncludedAppend(a: seq<LineRow>, b: seq<LineRow>, entries: seq<Entry>, project: string, asOf: Option<string>)
    ensures Included(a + b, entries, project, asOf) == Included(a, entries, project, asOf) + Included(b, entries, project, asOf)
  {
    if b == [] {
      assert a + b == a;
    } else {
      IncludedAppend(a, b[..|b| - 1], entries, project, asOf);
      assert (a + b)[..|a + b| - 1] == a + b[..|b| - 1];
    }
  }

  lemma {:induction false} EntryOfPost(posts: seq<Post>, k: nat)
    requires FreshIds(posts) && k < |posts|
    ensures EntryOf(EntriesOfPosts(posts), posts[k].entry.id) == Some(posts[k].entry)
    decreases |posts|
  {
    var init := posts[..|posts| - 1];
    assert EntriesOfPosts(posts)[..|EntriesOfPosts(posts)| - 1] == EntriesOfPosts(init);
    if k < |init| {
      EntryOfPost(init, k);
      assert init[k] == posts[k];
    }
  }

  lemma {:induction false} IncludedOfPost(p: Post, n: nat, entries: seq<Entry>, project: string, asOf: Option<string>)
    requires n <= |p.lines| && EntryOf(entries, p.entry.id) == Some(p.entry)
    ensures Included(RowsOfPost(p, n), entries, project, asOf)
            == if p.entry.project == project && IsIncluded(p.entry, asOf) then p.lines[..n] else []
  {
    hide EntryOf, IsIncluded, Included;
    if n == 0 {
      NoneIncluded(entries, project, asOf);
    } else {
      IncludedOfPost(p, n - 1, entries, project, asOf);
      IncludedSnoc(RowsOfPost(p, n - 1), LineRow(p.entry.id, p.entry.project, n, p.lines[n - 1]), entries, project, asOf);
      assert p.lines[..n] == p.lines[..n - 1] + [p.lines[n - 1]];
    }
  }

  lemma NoneIncluded(entries: seq<Entry>, project: string, asOf: Option<string>)
    ensures Included([], entries, project, asOf) == []
  {}

  lemma IncludedSnoc(rows: seq<LineRow>, row: LineRow, entries: seq<Entry>, project: string, asOf: Option<string>)
    ensures var entry := EntryOf(entries, row.entryId);
            Included(rows + [row], entries, project, asOf)
            == Included(rows, entries, project, asOf)
               + (if row.project == project && entry.Some? && IsIncluded(entry.value, asOf) then [row.line] else [])
  {
    hide EntryOf, IsIncluded;
    assert (rows + [row])[..|rows|] == rows;
  }

  /** The lines of the posts of a project up to a date. */
  function PostedLines(posts: seq<Post>, project: string, asOf: Option<string>): seq<Line> {
    if posts == [] then []
    else
      var p := posts[|posts| - 1];
      PostedLines(posts[..|posts| - 1], project, asOf)
      + (if p.entry.project == project && IsIncluded(p.entry, asOf) then p.lines else [])
  }

  lemma {:induction false} IncludedPosts(posts: seq<Post>, n: nat, project: string, asOf: Option<string>)
    requires FreshIds(posts) && n <= |posts|
    ensures Included(RowsOfPosts(posts[..n]), EntriesOfPosts(posts), project, asOf) == PostedLines(posts[..n], project, asOf)
  {
    hide *;
    PostedRows(posts, n, project, asOf);
    if n == 0 {
      NoneIncluded(EntriesOfPosts(posts), project, asOf);
    } else {
      var p := posts[n - 1];
      IncludedPosts(posts, n - 1, project, asOf);
      EntryOfPost(posts, n - 1);
      IncludedOfPost(p, |p.lines|, EntriesOfPosts(posts), project, asOf);
      assert p.lines[..|p.lines|] == p.lines;
      IncludedAppend(RowsOfPosts(posts[..n - 1]), RowsOfPost(p, |p.lines|), EntriesOfPosts(posts), project, asOf);
    }
  }

  /** One more post in the tables and in the report. */
  lemma PostedRows(posts: seq<Post>, n: nat, project: string, asOf: Option<string>)
    requires n <= |posts|
    ensures n == 0 ==> RowsOfPosts(posts[..n]) == [] && PostedLines(posts[..n], project, asOf) == []
    ensures n > 0 ==>
              var p := posts[n - 1];
              && RowsOfPosts(posts[..n]) == RowsOfPosts(posts[..n - 1]) + RowsOfPost(p, |p.lines|)
              && PostedLines(posts[..n], project, asOf) == PostedLines(posts[..n - 1], project, asOf)
                 + (if p.entry.project == project && IsIncluded(p.entry, asOf) then p.lines else [])
  {
    if n > 0 { assert posts[..n][..n - 1] == posts[..n - 1]; }
    hide IsIncluded, RowsOfPost;
  }

  // ---- Reports: the groups ------------------------------------------------------------------------------------------------

  datatype Sides = Sides(debit: real, credit: real)

  const NOTHING := Sides(0.0, 0.0)

  function Plus(s: Sides, l: Line): Sides { Sides(s.debit + l.debit, s.credit + l.credit) }

  /** SELECT account_code, SUM(debit), SUM(credit) ... GROUP BY account_code, with exact sums. */
  function ByAccount(lines: seq<Line>): seq<Group<Sides>> {
    if lines == [] then []
    else
      var l := lines[|lines| - 1];
      Bump(ByAccount(lines[..|lines| - 1]), l.account, NOTHING, (s: Sides) => Plus(s, l))
  }

  function Difference(s: Sides): real { s.debit - s.credit }

  /** The groups partition the lines: their differences add up to that of all lines. */
  lemma {:induction false} GroupsNet(lines: seq<Line>)
    ensures Total(ByAccount(lines), Difference) == Net(lines)
  {
    if lines != [] {
      var l := lines[|lines| - 1];
      GroupsNet(lines[..|lines| - 1]);
      BumpTotal(ByAccount(lines[..|lines| - 1]), l.account, NOTHING, (s: Sides) => Plus(s, l), Difference, l.debit - l.credit);
    }
  }

  predicate GroupsCents(groups: seq<Group<Sides>>) {
    forall i :: 0 <= i < |groups| ==> IsCents(groups[i].value.debit) && IsCents(groups[i].value.credit)
  }

  lemma {:induction false} BumpCents(groups: seq<Group<Sides>>, l: Line)
    requires GroupsCents(groups) && IsCents(l.debit) && IsCents(l.credit)
    ensures GroupsCents(Bump(groups, l.account, NOTHING, (s: Sides) => Plus(s, l)))
  {
    hide IsCents;
    CentsOfZero();
    CentsAdd(0.0, l.debit);
    CentsAdd(0.0, l.credit);
    if groups != [] {
      CentsAdd(groups[0].value.debit, l.debit);
      CentsAdd(groups[0].value.credit, l.credit);
      if groups[0].key != l.account && !Less(l.account, groups[0].key) { BumpCents(groups[1..], l); }
    }
  }

  lemma {:induction false} SumsAreCents(lines: seq<Line>)
    requires WholeCents(lines)
    ensures GroupsCents(ByAccount(lines))
  {
    if lines != [] {
      SumsAreCents(lines[..|lines| - 1]);
      BumpCents(ByAccount(lines[..|lines| - 1]), lines[|lines| - 1]);
    }
  }

  /** One row of a report: an account and its balance, rounded. */
  datatype Row = Row(code: string, balance: real)

  function RowOf(g: Group<Sides>): Row { Row(g.key, Round2(g.value.debit - g.value.credit)) }

  function SumRows(rows: seq<Row>): real {
    if rows == [] then 0.0 else SumRows(rows[..|rows| - 1]) + rows[|rows| - 1].balance
  }

  function TrialRows(groups: seq<Group<Sides>>): seq<Row> {
    if groups == [] then [] else TrialRows(groups[..|groups| - 1]) + [RowOf(groups[|groups| - 1])]
  }

  lemma {:induction false} TotalSnoc(groups: seq<Group<Sides>>, g: Group<Sides>)
    ensures Total(groups + [g], Difference) == Total(groups, Difference) + Difference(g.value)
  {
    if groups == [] {
      assert groups + [g] == [g];
    } else {
      TotalSnoc(groups[1..], g);
      assert (groups + [g])[1..] == groups[1..] + [g];
    }
  }

  lemma {:induction false} TrialSum(groups: seq<Group<Sides>>)
    requires GroupsCents(groups)
    ensures SumRows(TrialRows(groups)) == Total(groups, Difference)
  {
    hide Round2, IsCents;
    if groups != [] {
      var init, g := groups[..|groups| - 1], groups[|groups| - 1];
      TrialSum(init);
      CentsAdd(g.value.debit, g.value.credit);
      RoundOfCents(g.value.debit - g.value.credit);
      hide SumRows, Total;
      SumSnoc(TrialRows(init), RowOf(g));
      TotalSnoc(init, g);
      assert init + [g] == groups;
    }
  }

  // ---- Balance sheet ------------------------------------------------------------------------------------------------------

  /** The type of an account: the last one of the project with its code, or Unknown. */
  function KindOf(accounts: seq<Account>, project: string, code: string): string {
    if accounts == [] then "Unknown"
    else if accounts[|accounts| - 1].project == project && accounts[|accounts| - 1].code == code then accounts[|accounts| - 1].kind
    else KindOf(accounts[..|accounts| - 1], project, code)
  }

  const KINDS := ["Asset", "Liability", "Equity", "Revenue", "Expense"]

  datatype Sheet = Sheet(assets: seq<Row>, liabilities: seq<Row>, equity: seq<Row>, earnings: real)

  function AddRow(s: Sheet, kind: string, row: Row): Sheet {
    if kind == "Asset" then s.(assets := s.assets + [row])
    else if kind == "Liability" then s.(liabilities := s.liabilities + [row])
    else if kind == "Equity" then s.(equity := s.equity + [row])
    else if kind == "Revenue" || kind == "Expense" then s.(earnings := s.earnings + row.balance)
    else s
  }

  function Sections(groups: seq<Group<Sides>>, accounts: seq<Account>, project: string): Sheet {
    if groups == [] then Sheet([], [], [], 0.0)
    else
      var g := groups[|groups| - 1];
      AddRow(Sections(groups[..|groups| - 1], accounts, project), KindOf(accounts, project, g.key), RowOf(g))
  }

  /** The balances of the accounts that no section shows. */
  function Unshown(groups: seq<Group<Sides>>, accounts: seq<Account>, project: string): real {
    if groups == [] then 0.0
    else
      var g := groups[|groups| - 1];
      Unshown(groups[..|groups| - 1], accounts, project)
      + (if KindOf(accounts, project, g.key) in KINDS then 0.0 else RowOf(g).balance)
  }

  function SheetSum(s: Sheet): real { SumRows(s.assets) + SumRows(s.liabilities) + SumRows(s.equity) + s.earnings }

  lemma SumSnoc(rows: seq<Row>, row: Row)
    ensures SumRows(rows + [row]) == SumRows(rows) + row.balance
  {
    assert (rows + [row])[..|rows|] == rows;
  }

  lemma AddRowSum(s: Sheet, kind: string, row: Row)
    ensures SheetSum(AddRow(s, kind, row)) == SheetSum(s) + (if kind in KINDS then row.balance else 0.0)
  {
    hide SumRows;
    SumSnoc(s.assets, row);
    SumSnoc(s.liabilities, row);
    SumSnoc(s.equity, row);
  }

  /** The sections and what they leave out are the trial balance. */
  lemma {:induction false} SectionsSum(groups: seq<Group<Sides>>, accounts: seq<Account>, project: string)
    ensures SheetSum(Sections(groups, accounts, project)) + Unshown(groups, accounts, project) == SumRows(TrialRows(groups))
  {
    if groups == [] {
      assert SheetSum(Sheet([], [], [], 0.0)) == 0.0;
    } else {
      hide Round2, KindOf, SheetSum, AddRow, SumRows;
      var init, g := groups[..|groups| - 1], groups[|groups| - 1];
      SectionsSum(init, accounts, project);
      AddRowSum(Sections(init, accounts, project), KindOf(accounts, project, g.key), RowOf(g));
      SumSnoc(TrialRows(init), RowOf(g));
    }
  }

  /** The report: earnings that are not zero become a row of equity; the totals are rounded. */
  datatype Report = Report(assets: seq<Row>, liabilities: seq<Row>, equity: seq<Row>,
                           totalAssets: real, totalLiabilities: real, totalEquity: real)

  function ReportOf(s: Sheet): Report {
    var equity := if s.earnings != 0.0 then s.equity + [Row("0000", s.earnings)] else s.equity;
    Report(s.assets, s.liabilities, equity, Round2(SumRows(s.assets)), Round2(SumRows(s.liabilities)), Round2(SumRows(equity)))
  }

  predicate SheetCents(s: Sheet) {
    IsCents(SumRows(s.assets)) && IsCents(SumRows(s.liabilities)) && IsCents(SumRows(s.equity)) && IsCents(s.earnings)
  }

  lemma AddRowCents(s: Sheet, kind: string, row: Row)
    requires SheetCents(s) && IsCents(row.balance)
    ensures SheetCents(AddRow(s, kind, row))
  {
    hide SumRows, IsCents;
    SumSnoc(s.assets, row);
    SumSnoc(s.liabilities, row);
    SumSnoc(s.equity, row);
    CentsAdd(SumRows(s.assets), row.balance);
    CentsAdd(SumRows(s.liabilities), row.balance);
    CentsAdd(SumRows(s.equity), row.balance);
    CentsAdd(s.earnings, row.balance);
  }

  lemma EmptySheetCents()
    ensures SheetCents(Sheet([], [], [], 0.0))
  {
    CentsOfZero();
  }

  lemma {:induction false} SectionsCents(groups: seq<Group<Sides>>, accounts: seq<Account>, project: string)
    ensures SheetCents(Sections(groups, accounts, project))
  {
    hide Round2, KindOf, IsCents, SheetCents, AddRow;
    if groups == [] {
      EmptySheetCents();
    } else {
      var init, g := groups[..|groups| - 1], groups[|groups| - 1];
      SectionsCents(init, accounts, project);
      RoundedIsCents(g.value.debit - g.value.credit);
      AddRowCents(Sections(init, accounts, project), KindOf(accounts, project, g.key), RowOf(g));
    }
  }

  lemma ReportTotals(s: Sheet)
    requires SheetCents(s)
    ensures var r := ReportOf(s); r.totalAssets + r.totalLiabilities + r.totalEquity == SheetSum(s)
  {
    hide Round2, IsCents;
    SumSnoc(s.equity, Row("0000", s.earnings));
    CentsAdd(SumRows(s.equity), s.earnings);
    RoundOfCents(SumRows(s.assets));
    RoundOfCents(SumRows(s.liabilities));
    RoundOfCents(SumRows(s.equity));
    RoundOfCents(SumRows(s.equity) + s.earnings);
  }

  // ---- The accounting equation --------------------------------------------------------------------------------------------

  /** Every post was accepted, and its amounts are whole cents. */
  predicate PostsFit(posts: seq<Post>) {
    FreshIds(posts) && forall i :: 0 <= i < |posts| ==> Gate(posts[i].lines) && WholeCents(posts[i].lines)
  }

  lemma {:induction false} NetAppend(a: seq<Line>, b: seq<Line>)
    ensures Net(a + b) == Net(a) + Net(b)
  {
    if b == [] {
      assert a + b == a;
    } else {
      NetAppend(a, b[..|b| - 1]);
      assert (a + b)[..|a + b| - 1] == a + b[..|b| - 1];
    }
  }

  lemma {:induction false} PostedBalance(posts: seq<Post>, project: string, asOf: Option<string>)
    requires forall i :: 0 <= i < |posts| ==> Gate(posts[i].lines) && WholeCents(posts[i].lines)
    ensures Net(PostedLines(posts, project, asOf)) == 0.0 && WholeCents(PostedLines(posts, project, asOf))
  {
    if posts != [] {
      var init, p := posts[..|posts| - 1], posts[|posts| - 1];
      var before := PostedLines(init, project, asOf);
      assert PostedLines(posts, project, asOf) == before + p.lines || PostedLines(posts, project, asOf) == before;
      hide *;
      PostedBalance(init, project, asOf);
      AcceptedImbalance(p.lines);
      CentsHaveNoErrors(p.lines);
      NetAppend(before, p.lines);
      CentsAppend(before, p.lines);
    }
  }

  lemma CentsAppend(a: seq<Line>, b: seq<Line>)
    requires WholeCents(a) && WholeCents(b)
    ensures WholeCents(a + b)
  {
    hide IsCents;
  }

  /** The balance sheet of a project up to a date. */
  function BalanceSheetOf(rows: seq<LineRow>, entries: seq<Entry>, accounts: seq<Account>, project: string, asOf: Option<string>): Report {
    ReportOf(Sections(ByAccount(Included(rows, entries, project, asOf)), accounts, project))
  }

  /**
   * After any run of accepted postings in whole cents, for every project and date: the trial balance sums to zero, and
   * assets, liabilities and equity with the current earnings sum to what the sections leave out. So the equation holds
   * exactly when the accounts whose type is none of the five balance among themselves.
   */
  lemma AccountingEquation(posts: seq<Post>, accounts: seq<Account>, project: string, asOf: Option<string>)
    requires PostsFit(posts)
    ensures var rows, entries := RowsOfPosts(posts), EntriesOfPosts(posts);
            var groups := ByAccount(Included(rows, entries, project, asOf));
            var r := BalanceSheetOf(rows, entries, accounts, project, asOf);
            && SumRows(TrialRows(groups)) == 0.0
            && r.totalAssets + r.totalLiabilities + r.totalEquity == -Unshown(groups, accounts, project)
            && (r.totalAssets + r.totalLiabilities + r.totalEquity == 0.0 <==> Unshown(groups, accounts, project) == 0.0)
  {
    hide Gate, WholeCents, ByAccount, Sections, Included, PostedLines, GroupsCents, SheetCents, ReportOf, SheetSum, Unshown, RowsOfPosts;
    var rows, entries := RowsOfPosts(posts), EntriesOfPosts(posts);
    assert posts[..|posts|] == posts;
    IncludedPosts(posts, |posts|, project, asOf);
    PostedBalance(posts, project, asOf);
    var lines := Included(rows, entries, project, asOf);
    var groups := ByAccount(lines);
    GroupsNet(lines);
    SumsAreCents(lines);
    TrialSum(groups);
    SectionsSum(groups, accounts, project);
    SectionsCents(groups, accounts, project);
    ReportTotals(Sections(groups, accounts, project));
  }

  lemma {:induction false} NothingUnshown(groups: seq<Group<Sides>>, accounts: seq<Account>, project: string)
    requires forall i :: 0 <= i < |groups| ==> KindOf(accounts, project, groups[i].key) in KINDS
    ensures Unshown(groups, accounts, project) == 0.0
  {
    hide KindOf;
    if groups != [] { NothingUnshown(groups[..|groups| - 1], accounts, project); }
  }

  /** With every account among the five types the balance sheet balances, for every date. */
  lemma BalanceSheetBalances(posts: seq<Post>, accounts: seq<Account>, project: string, asOf: Option<string>)
    requires PostsFit(posts)
    requires forall i :: 0 <= i < |accounts| ==> accounts[i].kind in KINDS
    requires forall i, j :: 0 <= i < |posts| && 0 <= j < |posts[i].lines| && posts[i].entry.project == project
                            ==> HasAccount(accounts, project, posts[i].lines[j].account)
    ensures var r := BalanceSheetOf(RowsOfPosts(posts), EntriesOfPosts(posts), accounts, project, asOf);
            r.totalAssets + r.totalLiabilities + r.totalEquity == 0.0
  {
    hide RowsOfPosts, EntriesOfPosts, BalanceSheetOf, Included, ByAccount, PostsFit, Unshown;
    var lines := Included(RowsOfPosts(posts), EntriesOfPosts(posts), project, asOf);
    var groups := ByAccount(lines);
    AccountingEquation(posts, accounts, project, asOf);
    assert lines == PostedLines(posts, project, asOf) by {
      assert posts[..|posts|] == posts;
      PostsAreFresh(posts);
      IncludedPosts(posts, |posts|, project, asOf);
    }
    PostedAccounts(posts, accounts, project, asOf);
    GroupAccounts(lines, accounts, project);
    forall i | 0 <= i < |groups| ensures KindOf(accounts, project, groups[i].key) in KINDS {
      KindOfAccount(accounts, project, groups[i].key);
    }
    NothingUnshown(groups, accounts, project);
  }

  lemma PostsAreFresh(posts: seq<Post>)
    requires PostsFit(posts)
    ensures FreshIds(posts)
  {}

  predicate HasAccount(accounts: seq<Account>, project: string, code: string) {
    exists i :: 0 <= i < |accounts| && accounts[i].project == project && accounts[i].code == code
  }

  lemma {:induction false} KindOfAccount(accounts: seq<Account>, project: string, code: string)
    requires HasAccount(accounts, project, code) && forall i :: 0 <= i < |accounts| ==> accounts[i].kind in KINDS
    ensures KindOf(accounts, project, code) in KINDS
  {
    var n := |accounts| - 1;
    if !(accounts[n].project == project && accounts[n].code == code) {
      var i :| 0 <= i < |accounts| && accounts[i].project == project && accounts[i].code == code;
      assert accounts[..n][i] == accounts[i];
      KindOfAccount(accounts[..n], project, code);
    }
  }

  predicate AllHaveAccounts(lines: seq<Line>, accounts: seq<Account>, project: string) {
    forall i :: 0 <= i < |lines| ==> HasAccount(accounts, project, lines[i].account)
  }

  lemma {:induction false} PostedAccounts(posts: seq<Post>, accounts: seq<Account>, project: string, asOf: Option<string>)
    requires forall i, j :: 0 <= i < |posts| && 0 <= j < |posts[i].lines| && posts[i].entry.project == project
                            ==> HasAccount(accounts, project, posts[i].lines[j].account)
    ensures AllHaveAccounts(PostedLines(posts, project, asOf), accounts, project)
  {
    hide HasAccount;
    if posts != [] {
      var init, p := posts[..|posts| - 1], posts[|posts| - 1];
      assert forall i :: 0 <= i < |init| ==> init[i] == posts[i];
      PostedAccounts(init, accounts, project, asOf);
    }
  }

  lemma {:induction false} GroupAccounts(lines: seq<Line>, accounts: seq<Account>, project: string)
    requires AllHaveAccounts(lines, accounts, project)
    ensures InOrder(ByAccount(lines))
    ensures forall i :: 0 <= i < |ByAccount(lines)| ==> HasAccount(accounts, project, ByAccount(lines)[i].key)
  {
    hide HasAccount;
    if lines != [] {
      var init, l := lines[..|lines| - 1], lines[|lines| - 1];
      GroupAccounts(init, accounts, project);
      BumpKeys(ByAccount(init), l.account, NOTHING, (s: Sides) => Plus(s, l));
      forall i | 0 <= i < |ByAccount(lines)| ensures HasAccount(accounts, project, ByAccount(lines)[i].key) {
        var g := ByAccount(lines)[i];
        if g.key != l.account { assert g in ByAccount(init); }
      }
    }
  }

  // ---- Which charts of accounts keep the equation -------------------------------------------------------------------------

  function ReportSum(r: Report): real { r.totalAssets + r.totalLiabilities + r.totalEquity }

  predicate Shown(accounts: seq<Account>, project: string, code: string) { KindOf(accounts, project, code) in KINDS }

  /** /^\d{4}-\d{2}-\d{2}/ */
  predicate StartsAsIsoDate(s: string) {
    && |s| >= 10 && s[4] == '-' && s[7] == '-'
    && forall i :: 0 <= i < 10 && i != 4 && i != 7 ==> IsDigit(s[i])
  }

  /** The number written by two digits. */
  function TwoDigits(s: string, i: nat): int
    requires i + 1 < |s|
  {
    10 * (s[i] as int - '0' as int) + (s[i + 1] as int - '0' as int)
  }

  function DaysIn(year: int, month: int): int {
    if month == 2 then (if year % 400 == 0 || (year % 4 == 0 && year % 100 != 0) then 29 else 28)
    else if month in {4, 6, 9, 11} then 30 else 31
  }

  /** A day as toISOString().slice(0, 10) writes it, in the years 0 to 9999. */
  predicate IsDay(s: string) {
    && |s| == 10 && StartsAsIsoDate(s)
    && 1 <= TwoDigits(s, 5) <= 12 && 1 <= TwoDigits(s, 8) <= DaysIn(100 * TwoDigits(s, 0) + TwoDigits(s, 2), TwoDigits(s, 5))
  }

  const FIRST_DAY := "0000-01-01"

  lemma FirstDayFits()
    ensures IsDay(FIRST_DAY)
  {}

  /** No day comes before the first one. */
  lemma FirstDayIsFirst(day: string)
    requires IsDay(day)
    ensures UpTo(FIRST_DAY, day)
  {
    hide Less;
    if day != FIRST_DAY {
      FirstDayFits();
      var k := FirstDifference(FIRST_DAY, day, 0);
      LessAtFirstDifference(FIRST_DAY, day, k);
    }
  }

  /** Where a day first differs from the first one, it is greater. */
  lemma FirstDifference(first: string, day: string, i: nat) returns (k: nat)
    requires first == FIRST_DAY && IsDay(day) && i <= 10 && day[..i] == first[..i] && day != first
    ensures k < 10 && day[..k] == first[..k] && first[k] < day[k]
    decreases 10 - i
  {
    assert day == day[..10] && first == first[..10];
    assert i < 10;
    if day[i] == first[i] {
      assert day[..i + 1] == day[..i] + [day[i]] && first[..i + 1] == first[..i] + [first[i]];
      k := FirstDifference(first, day, i + 1);
    } else {
      k := i;
      assert i == 6 ==> day[..6][5] == first[..6][5] == '0';
      assert i == 9 ==> day[..9][8] == first[..9][8] == '0';
    }
  }

  /** Some day is not after the date of the report. */
  predicate Reached(asOf: Option<string>) { asOf.Some? ==> UpTo(FIRST_DAY, asOf.value) }

  /** Accepted posts in whole cents on existing accounts, each on a day. */
  predicate PostedTo(accounts: seq<Account>, project: string, posts: seq<Post>) {
    && PostsFit(posts) && (forall i :: 0 <= i < |posts| ==> IsDay(posts[i].entry.date))
    && forall i, j :: 0 <= i < |posts| && 0 <= j < |posts[i].lines| && posts[i].entry.project == project
                      ==> HasAccount(accounts, project, posts[i].lines[j].account)
  }

  /** After these posts the balance sheet balances. */
  predicate Balances(accounts: seq<Account>, project: string, asOf: Option<string>, posts: seq<Post>) {
    PostedTo(accounts, project, posts)
    ==> ReportSum(BalanceSheetOf(RowsOfPosts(posts), EntriesOfPosts(posts), accounts, project, asOf)) == 0.0
  }

  /** An account that can be posted to: the gate asks for a code. */
  predicate CanPost(accounts: seq<Account>, project: string, code: string) { code != "" && HasAccount(accounts, project, code) }

  /** No account is shown while another is not. */
  ghost predicate NotMixed(accounts: seq<Account>, project: string) {
    forall c, d :: CanPost(accounts, project, c) && CanPost(accounts, project, d)
                   ==> Shown(accounts, project, c) == Shown(accounts, project, d)
  }

  /**
   * For every run of accepted posts in whole cents the balance sheet balances exactly when the accounts of the project are
   * all of the five types, or none of them is, or the report ends before the first day.
   */
  lemma EquationIff(accounts: seq<Account>, project: string, asOf: Option<string>)
    ensures (forall posts :: Balances(accounts, project, asOf, posts)) <==> NotMixed(accounts, project) || !Reached(asOf)
  {
    if NotMixed(accounts, project) || !Reached(asOf) {
      forall posts ensures Balances(accounts, project, asOf, posts) {
        hide NotMixed, Reached, ReportSum, BalanceSheetOf;
        if PostedTo(accounts, project, posts) {
          if Reached(asOf) { NotMixedBalances(accounts, project, asOf, posts); } else { NothingReported(accounts, project, asOf, posts); }
        }
      }
    } else {
      hide KindOf, IsDay, Balances;
      var c, d :| CanPost(accounts, project, c) && CanPost(accounts, project, d)
                  && Shown(accounts, project, c) && !Shown(accounts, project, d);
      FirstDayFits();
      MixedUnbalances(accounts, project, FIRST_DAY, asOf, c, d);
    }
  }

  /** Before the first day there is nothing to report. */
  lemma NothingReported(accounts: seq<Account>, project: string, asOf: Option<string>, posts: seq<Post>)
    requires !Reached(asOf) && PostedTo(accounts, project, posts)
    ensures ReportSum(BalanceSheetOf(RowsOfPosts(posts), EntriesOfPosts(posts), accounts, project, asOf)) == 0.0
  {
    hide RowsOfPosts, EntriesOfPosts, BalanceSheetOf, Included, PostsFit, KindOf, HasAccount, IsDay, SumRows, TrialRows, Less;
    AccountingEquation(posts, accounts, project, asOf);
    assert posts[..|posts|] == posts;
    PostsAreFresh(posts);
    IncludedPosts(posts, |posts|, project, asOf);
    forall i | 0 <= i < |posts| ensures !IsIncluded(posts[i].entry, asOf) {
      var day := posts[i].entry.date;
      FirstDayIsFirst(day);
      if UpTo(day, asOf.value) && FIRST_DAY != day && day != asOf.value { LessIsTransitive(FIRST_DAY, day, asOf.value); }
    }
    NothingPosted(posts, project, asOf);
    assert ByAccount([]) == [] && Unshown([], accounts, project) == 0.0;
  }

  lemma {:induction false} NothingPosted(posts: seq<Post>, project: string, asOf: Option<string>)
    requires forall i :: 0 <= i < |posts| ==> !IsIncluded(posts[i].entry, asOf)
    ensures PostedLines(posts, project, asOf) == []
  {
    if posts != [] { NothingPosted(posts[..|posts| - 1], project, asOf); }
  }

  lemma NotMixedBalances(accounts: seq<Account>, project: string, asOf: Option<string>, posts: seq<Post>)
    requires NotMixed(accounts, project) && PostedTo(accounts, project, posts)
    ensures ReportSum(BalanceSheetOf(RowsOfPosts(posts), EntriesOfPosts(posts), accounts, project, asOf)) == 0.0
  {
    hide RowsOfPosts, EntriesOfPosts, BalanceSheetOf, Included, ByAccount, PostsFit, Unshown, KindOf, HasAccount, SumRows, TrialRows;
    var lines := Included(RowsOfPosts(posts), EntriesOfPosts(posts), project, asOf);
    var groups := ByAccount(lines);
    AccountingEquation(posts, accounts, project, asOf);
    assert lines == PostedLines(posts, project, asOf) by {
      assert posts[..|posts|] == posts;
      PostsAreFresh(posts);
      IncludedPosts(posts, |posts|, project, asOf);
    }
    PostedAccounts(posts, accounts, project, asOf);
    PostedCodes(posts, project, asOf);
    GroupCodes(lines, accounts, project);
    if exists i :: 0 <= i < |groups| && Shown(accounts, project, groups[i].key) {
      var i :| 0 <= i < |groups| && Shown(accounts, project, groups[i].key);
      forall j | 0 <= j < |groups| ensures KindOf(accounts, project, groups[j].key) in KINDS {
        assert CanPost(accounts, project, groups[i].key) && CanPost(accounts, project, groups[j].key);
      }
      NothingUnshown(groups, accounts, project);
    } else {
      AllUnshown(groups, accounts, project);
    }
  }

  lemma {:induction false} AllUnshown(groups: seq<Group<Sides>>, accounts: seq<Account>, project: string)
    requires forall i :: 0 <= i < |groups| ==> !Shown(accounts, project, groups[i].key)
    ensures Unshown(groups, accounts, project) == SumRows(TrialRows(groups))
  {
    hide KindOf, Round2;
    if groups != [] {
      var init, g := groups[..|groups| - 1], groups[|groups| - 1];
      AllUnshown(init, accounts, project);
      assert !Shown(accounts, project, g.key);
      SumSnoc(TrialRows(init), RowOf(g));
    }
  }

  predicate AllHaveCodes(lines: seq<Line>) { forall i :: 0 <= i < |lines| ==> lines[i].account != "" }

  lemma {:induction false} PostedCodes(posts: seq<Post>, project: string, asOf: Option<string>)
    requires PostsFit(posts)
    ensures AllHaveCodes(PostedLines(posts, project, asOf))
  {
    hide Round2, IsCents, RoundedDebits, RoundedCredits;
    if posts != [] {
      var init, p := posts[..|posts| - 1], posts[|posts| - 1];
      PostedCodes(init, project, asOf);
      assert Gate(p.lines);
      assert forall i :: 0 <= i < |p.lines| ==> LineFits(p.lines[i]);
    }
  }

  /** Every group is that of an account that can be posted to. */
  lemma {:induction false} GroupCodes(lines: seq<Line>, accounts: seq<Account>, project: string)
    requires AllHaveAccounts(lines, accounts, project) && AllHaveCodes(lines)
    ensures InOrder(ByAccount(lines))
    ensures forall i :: 0 <= i < |ByAccount(lines)| ==> CanPost(accounts, project, ByAccount(lines)[i].key)
  {
    hide HasAccount;
    if lines != [] {
      var init, l := lines[..|lines| - 1], lines[|lines| - 1];
      GroupCodes(init, accounts, project);
      BumpKeys(ByAccount(init), l.account, NOTHING, (s: Sides) => Plus(s, l));
      forall i | 0 <= i < |ByAccount(lines)| ensures CanPost(accounts, project, ByAccount(lines)[i].key) {
        var g := ByAccount(lines)[i];
        if g.key != l.account { assert g in ByAccount(init); }
      }
    }
  }

  /** An entry of one unit from an account to another. */
  function Transfer(project: string, date: string, debit: string, credit: string): Post {
    Post(Entry.Entry("e", project, date, "", "u", ""), [Line(debit, 1.0, 0.0), Line(credit, 0.0, 1.0)])
  }

  /** A unit on a shown account against one that is not: the report is off by that unit. */
  lemma MixedUnbalances(accounts: seq<Account>, project: string, date: string, asOf: Option<string>, shown: string, unshown: string)
    requires IsDay(date) && (asOf.Some? ==> UpTo(date, asOf.value))
    requires CanPost(accounts, project, shown) && CanPost(accounts, project, unshown)
    requires Shown(accounts, project, shown) && !Shown(accounts, project, unshown)
    ensures var posts := [Transfer(project, date, shown, unshown)];
            && PostedTo(accounts, project, posts)
            && ReportSum(BalanceSheetOf(RowsOfPosts(posts), EntriesOfPosts(posts), accounts, project, asOf)) == 1.0
            && !Balances(accounts, project, asOf, posts)
  {
    TransferPosts(accounts, project, date, shown, unshown);
    var p := Transfer(project, date, shown, unshown);
    assert p.entry.project == project && IsIncluded(p.entry, asOf);
    hide KindOf, BalanceSheetOf, IsDay, Transfer, PostsFit, HasAccount, IsIncluded, Included, ByAccount, RowsOfPosts,
      EntriesOfPosts, Unshown, Shown, CanPost;
    AccountingEquation([p], accounts, project, asOf);
    IncludedTransfer(p, project, asOf);
    TransferGroups(accounts, project, date, shown, unshown);
  }

  lemma TransferPosts(accounts: seq<Account>, project: string, date: string, debit: string, credit: string)
    requires IsDay(date) && CanPost(accounts, project, debit) && CanPost(accounts, project, credit)
    ensures PostedTo(accounts, project, [Transfer(project, date, debit, credit)])
  {
    hide IsDay, PostsFit;
    TransferFits(project, date, debit, credit);
  }

  lemma TransferFits(project: string, date: string, debit: string, credit: string)
    requires debit != "" && credit != ""
    ensures PostsFit([Transfer(project, date, debit, credit)])
  {
    var lines := Transfer(project, date, debit, credit).lines;
    UnitIsCents();
    RoundOfCents(1.0);
    RoundOfCents(0.0);
    hide Round2, IsCents;
    assert lines[..1] == [lines[0]] && lines[..1][..0] == [];
    assert RoundedDebits([]) == 0.0 && RoundedCredits([]) == 0.0;
    assert RoundedDebits(lines[..1]) == 1.0 && RoundedCredits(lines[..1]) == 0.0;
  }

  lemma UnitIsCents()
    ensures IsCents(0.0) && IsCents(1.0) && IsCents(-1.0)
  {}

  lemma IncludedTransfer(p: Post, project: string, asOf: Option<string>)
    requires p.entry.project == project && IsIncluded(p.entry, asOf)
    ensures Included(RowsOfPosts([p]), EntriesOfPosts([p]), project, asOf) == p.lines
  {
    assert [p][..1] == [p] && [p][..0] == [];
    assert FreshIds([p]);
    hide IsIncluded;
    IncludedPosts([p], 1, project, asOf);
    assert PostedLines([], project, asOf) == [];
  }

  lemma TransferGroups(accounts: seq<Account>, project: string, date: string, shown: string, unshown: string)
    requires Shown(accounts, project, shown) && !Shown(accounts, project, unshown)
    ensures Unshown(ByAccount(Transfer(project, date, shown, unshown).lines), accounts, project) == -1.0
  {
    hide KindOf;
    var lines := Transfer(project, date, shown, unshown).lines;
    var first, last := lines[0], lines[1];
    var g, h := Group(shown, Sides(1.0, 0.0)), Group(unshown, Sides(0.0, 1.0));
    assert lines[..1] == [first] && lines[..1][..0] == [];
    assert ByAccount([]) == [];
    assert ByAccount(lines[..1]) == [g];
    var groups := ByAccount(lines);
    assert shown != unshown && [g][1..] == [];
    assert Bump([], unshown, NOTHING, (s: Sides) => Plus(s, last)) == [h];
    assert groups == if Less(unshown, shown) then [h, g] else [g, h];
    UnitIsCents();
    RoundOfCents(-1.0);
    hide Round2, IsCents, ByAccount;
    assert groups[..1][..0] == [];
    assert Unshown([], accounts, project) == 0.0;
    assert groups[..1] == [groups[0]];
    assert Unshown(groups[..1], accounts, project) == if groups[0] == h then -1.0 else 0.0;
  }

  /** A run on a chart with an account of another type: one accepted entry, and the balance sheet is off by it. */
  lemma OtherTypeUnbalances()
    ensures var accounts := [Account("p", "1000", "Cash", "Asset"), Account("p", "9999", "Suspense", "Other")];
            var posts := [Transfer("p", "2024-01-01", "1000", "9999")];
            && PostedTo(accounts, "p", posts)
            && ReportSum(BalanceSheetOf(RowsOfPosts(posts), EntriesOfPosts(posts), accounts, "p", None)) == 1.0
  {
    var accounts := [Account("p", "1000", "Cash", "Asset"), Account("p", "9999", "Suspense", "Other")];
    assert accounts[0].code == "1000" && accounts[1].code == "9999";
    assert accounts[..1] == [accounts[0]];
    assert KindOf(accounts[..1], "p", "1000") == "Asset";
    DayOf2024();
    hide BalanceSheetOf, PostedTo, IsDay;
    MixedUnbalances(accounts, "p", "2024-01-01", None, "1000", "9999");
  }

  lemma DayOf2024()
    ensures IsDay("2024-01-01")
  {}

  // ---- Amounts that are not whole cents -----------------------------------------------------------------------------------

  /** Every post was accepted, in whatever amounts. */
  predicate PostsAccepted(posts: seq<Post>) { FreshIds(posts) && forall i :: 0 <= i < |posts| ==> Gate(posts[i].lines) }

  predicate Within(x: real, bound: real) { -bound <= x <= bound }

  lemma {:induction false} PostedImbalance(posts: seq<Post>, project: string, asOf: Option<string>)
    requires forall i :: 0 <= i < |posts| ==> Gate(posts[i].lines)
    ensures Within(Net(PostedLines(posts, project, asOf)), 0.01 * |PostedLines(posts, project, asOf)| as real)
  {
    hide Gate, IsIncluded;
    if posts != [] {
      var init, p := posts[..|posts| - 1], posts[|posts| - 1];
      PostedImbalance(init, project, asOf);
      AcceptedImbalance(p.lines);
      NetAppend(PostedLines(init, project, asOf), p.lines);
      NetAppend(PostedLines(init, project, asOf), []);
    }
  }

  lemma {:induction false} TrialError(groups: seq<Group<Sides>>)
    ensures Within(SumRows(TrialRows(groups)) - Total(groups, Difference), 0.005 * |groups| as real)
  {
    hide Round2;
    if groups != [] {
      var init, g := groups[..|groups| - 1], groups[|groups| - 1];
      TrialError(init);
      RoundingError(g.value.debit - g.value.credit);
      hide SumRows, Total;
      SumSnoc(TrialRows(init), RowOf(g));
      TotalSnoc(init, g);
      assert init + [g] == groups;
    }
  }

  lemma ReportError(s: Sheet)
    ensures Within(ReportSum(ReportOf(s)) - SheetSum(s), 0.015)
  {
    hide Round2;
    SumSnoc(s.equity, Row("0000", s.earnings));
    RoundingError(SumRows(s.assets));
    RoundingError(SumRows(s.liabilities));
    RoundingError(SumRows(s.equity));
    RoundingError(SumRows(s.equity) + s.earnings);
  }

  lemma {:induction false} FewGroups(lines: seq<Line>)
    ensures |ByAccount(lines)| <= |lines|
  {
    if lines != [] {
      var l := lines[|lines| - 1];
      FewGroups(lines[..|lines| - 1]);
      BumpAddsOne(ByAccount(lines[..|lines| - 1]), l.account, NOTHING, (s: Sides) => Plus(s, l));
    }
  }

  lemma {:induction false} BumpAddsOne<V>(groups: seq<Group<V>>, key: string, zero: V, change: V -> V)
    ensures |Bump(groups, key, zero, change)| <= |groups| + 1
  {
    if groups != [] { BumpAddsOne(groups[1..], key, zero, change); }
  }

  /**
   * After any run of accepted posts, in whatever amounts: the trial balance misses zero by at most a cent for each line and
   * half a cent for each account, and the three totals, with what the sections leave out, by one and a half cents more.
   */
  lemma EquationBound(posts: seq<Post>, accounts: seq<Account>, project: string, asOf: Option<string>)
    requires PostsAccepted(posts)
    ensures var rows, entries := RowsOfPosts(posts), EntriesOfPosts(posts);
            var lines := Included(rows, entries, project, asOf);
            var groups := ByAccount(lines);
            && lines == PostedLines(posts, project, asOf) && |groups| <= |lines|
            && Within(SumRows(TrialRows(groups)), 0.01 * |lines| as real + 0.005 * |groups| as real)
            && Within(ReportSum(BalanceSheetOf(rows, entries, accounts, project, asOf)) + Unshown(groups, accounts, project),
                      0.01 * |lines| as real + 0.005 * |groups| as real + 0.015)
  {
    hide Gate, ByAccount, Sections, Included, PostedLines, ReportOf, SheetSum, Unshown, RowsOfPosts, SumRows, TrialRows, ReportSum, Total;
    var rows, entries := RowsOfPosts(posts), EntriesOfPosts(posts);
    assert posts[..|posts|] == posts;
    IncludedPosts(posts, |posts|, project, asOf);
    PostedImbalance(posts, project, asOf);
    var lines := Included(rows, entries, project, asOf);
    var groups := ByAccount(lines);
    FewGroups(lines);
    GroupsNet(lines);
    TrialError(groups);
    SectionsSum(groups, accounts, project);
    ReportError(Sections(groups, accounts, project));
  }
}

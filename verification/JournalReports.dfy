/** The reports' SELECTs answered by the engine on what postJournal stored: the groups on which the reports rest. */
module JournalReports {
  import opened Bytes
  import opened Options
  import opened Database
  import opened Multimaps
  import opened Indexing
  import opened IndexManager
  import opened Selecting
  import opened Grouping
  import opened SelectAnswer
  import opened QueryExecutor
  import opened JournalTables
  import opened JournalQueries
  import A = Accounting
  import B = Books

  // ---- What the engine answers --------------------------------------------------------------------------------------------------

  /** The rows of a report query for the groups. */
  function ReportRow(g: Group<A.Sides>, show: real -> string): Row {
    map["account_code" := g.key, "debit" := show(g.value.debit), "credit" := show(g.value.credit)]
  }

  function ReportRows(groups: seq<Group<A.Sides>>, show: real -> string): seq<Row> {
    seq(|groups|, i requires 0 <= i < |groups| => ReportRow(groups[i], show))
  }

  lemma ShownIsReport(group: Group<Sums>, g: Group<A.Sides>, show: real -> string)
    requires group.key == g.key && group.value.Keys == {"debit", "credit"}
    requires SumAt(group.value, "debit") == g.value.debit && SumAt(group.value, "credit") == g.value.credit
    ensures ShownSums(group, "account_code", show) == ReportRow(g, show)
  {
    assert "debit" in group.value && "credit" in group.value;
    assert "account_code" !in group.value by { assert "account_code" !in {"debit", "credit"}; }
  }

  /** A query of this shape, over rows with the sums of these lines, answers with the groups of the lines. */
  lemma AnswerOf(q: Query, rows: seq<Row>, lines: seq<A.Line>, numbers: Numbers)
    requires q == SheetQuery("", None).(conditions := q.conditions) || q == TrialQuery("").(conditions := q.conditions)
    requires forall account :: SameSums(rows, lines, q.aggs, numbers.stod, account)
    ensures Answer(q, rows, numbers) == ReportRows(A.ByAccount(lines), numbers.showReal)
  {
    Names();
    hide Unqualified, Find, IsBase, Accumulate, A.ByAccount, SameSums, SumAt, ShownSums, ReportRow;
    var accs, groups := Accumulate(rows, "account_code", q.aggs, numbers.stod), A.ByAccount(lines);
    assert ReportAggs(q.aggs) && q.groupBy != "" && Unqualified(q.groupBy) == "account_code";
    GroupsAgree(rows, lines, q.aggs, numbers.stod);
    GroupNames(rows, q.aggs, numbers.stod);
    var shown := Shown(q, rows, numbers);
    assert |shown| == |groups|;
    forall i | 0 <= i < |groups| ensures shown[i] == ReportRow(groups[i], numbers.showReal) {
      ShownIsReport(accs[i], groups[i], numbers.showReal);
    }
    assert Slice(shown, 0, -1) == shown;
  }

  /** The tables hold these lines and entries. */
  predicate Stores(tables: Tables, rs: seq<A.LineRow>, es: seq<A.Entry>, text: real -> string) {
    ContentsOf(tables, LINES) == LinesTable(rs, text) && ContentsOf(tables, ENTRIES) == EntriesTable(es)
  }

  /**
   * The query of the balance sheet, on tables with the journal's rows and with fresh indexes or none: the engine answers with
   * the accounts of the included lines and their sums of debits and credits, in order.
   */
  lemma SheetSelect(tables: Tables, index: Index, rs: seq<A.LineRow>, es: seq<A.Entry>, project: string, asOf: Option<string>,
                    text: real -> string, numbers: Numbers)
    requires Stores(tables, rs, es, text) && TablesFit(tables) && Fresh(tables, index)
    requires DistinctKeys(rs) && Readable(rs, text, numbers.stod)
    ensures Select(tables, index, SheetQuery(project, asOf), numbers)
            == Some(ReportRows(A.ByAccount(A.Included(rs, es, project, asOf)), numbers.showReal))
  {
    hide LinesTable, EntriesTable, TablesFit, Fresh, DistinctKeys, Readable, A.Included, A.ByAccount, AllSheetRows, SameSums, Answer;
    var q := SheetQuery(project, asOf);
    var rows := AllSheetRows(LinesTable(rs, text), EntriesTable(es), project, asOf);
    SheetIsJoined(tables, index, rs, es, project, asOf, text);
    forall account ensures SameSums(rows, A.Included(rs, es, project, asOf), q.aggs, numbers.stod, account) {
      SheetSums(rs, es, project, asOf, text, numbers.stod, account);
    }
    AnswerOf(q, rows, A.Included(rs, es, project, asOf), numbers);
  }

  lemma SheetIsJoined(tables: Tables, index: Index, rs: seq<A.LineRow>, es: seq<A.Entry>, project: string, asOf: Option<string>,
                      text: real -> string)
    requires Stores(tables, rs, es, text) && TablesFit(tables) && Fresh(tables, index)
    ensures var q := SheetQuery(project, asOf);
            Joined(tables, index, q.table, q.conditions, q.joins, q.skip, q.limit)
            == Some(AllSheetRows(LinesTable(rs, text), EntriesTable(es), project, asOf))
  {
    SplitConditionsOf(project, asOf);
    EntriesTableFits(es);
    var t, conditions := LinesTable(rs, text), [OfProject(project)];
    var base := RowsIn(Filtered(t, conditions));
    JoinedByLine(t, tables, project, asOf);
    assert AllHave(EntriesTable(es), "id");
    assert Window(Filtered(t, conditions), 0, -1) == Filtered(t, conditions);
    hide LinesTable, EntriesTable, Filtered, AllSheetRows, PostFilter, JoinRows, JoinAll, BaseConditions, PostConditions, TablesFit, Fresh,
      Rebuilt, OfProject, UpToDate, AllHave, Window;
    JoinsToEntry(tables, base);
    IndexesAreTransparent(tables, index, [TO_ENTRY], base);
  }

  lemma JoinsToEntry(tables: Tables, rows: seq<Row>)
    ensures JoinAll(tables, map[], [TO_ENTRY], rows) == JoinRows(tables, map[], TO_ENTRY, rows)
  {
    hide JoinRows;
    assert [TO_ENTRY][1..] == [];
  }

  lemma SheetSums(rs: seq<A.LineRow>, es: seq<A.Entry>, project: string, asOf: Option<string>, text: real -> string,
                  stod: string -> real, account: string)
    requires DistinctKeys(rs) && Readable(rs, text, stod)
    ensures SameSums(AllSheetRows(LinesTable(rs, text), EntriesTable(es), project, asOf), A.Included(rs, es, project, asOf),
                     SHEET_AGGS, stod, account)
  {
    hide DistinctKeys, Readable, LinesTable, EntriesTable, AllSheetRows, SheetRows, A.Included, Weigh, WeighTable, WeighLines, WeighIncluded,
      SameWeight, ColumnWeight, CountWeight, LineWeight;
    SheetWeight(rs, es, project, asOf, text, ColumnWeight("account_code", account, SHEET_AGGS, "debit", stod),
                LineWeight(account, "debit"), stod, account, "debit");
    SheetWeight(rs, es, project, asOf, text, ColumnWeight("account_code", account, SHEET_AGGS, "credit", stod),
                LineWeight(account, "credit"), stod, account, "credit");
    SheetWeight(rs, es, project, asOf, text, CountWeight("account_code", account), LineWeight(account, ""), stod, account, "");
  }

  lemma SheetWeight(rs: seq<A.LineRow>, es: seq<A.Entry>, project: string, asOf: Option<string>, text: real -> string,
                    weight: Row -> real, lineWeight: A.Line -> real, stod: string -> real, account: string, name: string)
    requires DistinctKeys(rs) && Readable(rs, text, stod) && name in ["debit", "credit", ""]
    requires weight == if name == "" then CountWeight("account_code", account) else ColumnWeight("account_code", account, SHEET_AGGS, name, stod)
    requires lineWeight == LineWeight(account, name)
    ensures Weigh(AllSheetRows(LinesTable(rs, text), EntriesTable(es), project, asOf), weight)
            == WeighIncluded(A.Included(rs, es, project, asOf), lineWeight)
  {
    hide DistinctKeys, Readable, LinesTable, EntriesTable, AllSheetRows, SheetRows, A.Included, Weigh, WeighTable, WeighLines, WeighIncluded,
      SameWeight, ColumnWeight, CountWeight, LineWeight;
    WeightsOfLines(rs, text, SHEET_AGGS, account, if name == "" then "debit" else name, stod);
    WeighSheet(LinesTable(rs, text), EntriesTable(es), project, asOf, weight);
    WeighLinesTable(rs, text, row => Weigh(SheetRows(row, EntriesTable(es), project, asOf), weight));
    WeighOfIncluded(rs, es, project, asOf, text, weight, lineWeight);
  }

  /** The query of the trial balance likewise, over all lines of the project. */
  lemma TrialSelect(tables: Tables, index: Index, rs: seq<A.LineRow>, project: string, text: real -> string, numbers: Numbers)
    requires ContentsOf(tables, LINES) == LinesTable(rs, text)
    requires DistinctKeys(rs) && Readable(rs, text, numbers.stod)
    ensures Select(tables, index, TrialQuery(project), numbers)
            == Some(ReportRows(A.ByAccount(B.ProjectLines(rs, project)), numbers.showReal))
  {
    var q, t := TrialQuery(project), LinesTable(rs, text);
    var rows := RowsIn(Filtered(t, [OfProject(project)]));
    SplitConditionsOf(project, None);
    assert [OfProject(project)] + UpToDate(None) == [OfProject(project)];
    hide LinesTable, DistinctKeys, Readable, B.ProjectLines, A.ByAccount, SameSums, Answer, Filtered, BaseConditions, PostConditions, OfProject;
    assert Window(Filtered(t, [OfProject(project)]), 0, -1) == Filtered(t, [OfProject(project)]);
    NoPostFilter(rows);
    assert Joined(tables, index, q.table, q.conditions, q.joins, q.skip, q.limit) == Some(rows);
    forall account ensures SameSums(rows, B.ProjectLines(rs, project), q.aggs, numbers.stod, account) {
      TrialSums(rs, project, text, numbers.stod, account);
    }
    AnswerOf(q, rows, B.ProjectLines(rs, project), numbers);
  }

  lemma TrialSums(rs: seq<A.LineRow>, project: string, text: real -> string, stod: string -> real, account: string)
    requires DistinctKeys(rs) && Readable(rs, text, stod)
    ensures SameSums(RowsIn(Filtered(LinesTable(rs, text), [OfProject(project)])), B.ProjectLines(rs, project), TRIAL_AGGS, stod, account)
  {
    hide DistinctKeys, Readable, LinesTable, Filtered, B.ProjectLines, Weigh, WeighIncluded, ColumnWeight, CountWeight, LineWeight;
    TrialWeight(rs, project, text, ColumnWeight("account_code", account, TRIAL_AGGS, "debit", stod),
                LineWeight(account, "debit"), stod, account, "debit");
    TrialWeight(rs, project, text, ColumnWeight("account_code", account, TRIAL_AGGS, "credit", stod),
                LineWeight(account, "credit"), stod, account, "credit");
    TrialWeight(rs, project, text, CountWeight("account_code", account), LineWeight(account, ""), stod, account, "");
  }

  lemma TrialWeight(rs: seq<A.LineRow>, project: string, text: real -> string, weight: Row -> real, lineWeight: A.Line -> real,
                    stod: string -> real, account: string, name: string)
    requires DistinctKeys(rs) && Readable(rs, text, stod) && name in ["debit", "credit", ""]
    requires weight == if name == "" then CountWeight("account_code", account) else ColumnWeight("account_code", account, TRIAL_AGGS, name, stod)
    requires lineWeight == LineWeight(account, name)
    ensures Weigh(RowsIn(Filtered(LinesTable(rs, text), [OfProject(project)])), weight)
            == WeighIncluded(B.ProjectLines(rs, project), lineWeight)
  {
    hide DistinctKeys, Readable, LinesTable, Filtered, B.ProjectLines, Weigh, WeighTable, WeighLines, WeighIncluded, SameOwnWeight, ColumnWeight,
      CountWeight, LineWeight, Passes;
    OwnWeights(rs, text, TRIAL_AGGS, account, if name == "" then "debit" else name, stod);
    WeighFiltered(LinesTable(rs, text), [OfProject(project)], weight);
    WeighLinesTable(rs, text, row => if Passes(row, [OfProject(project)]) then weight(row) else 0.0);
    WeighOfProject(rs, project, text, weight, lineWeight);
  }

  // ---- Posting to the engine and reporting from it ------------------------------------------------------------------------------

  lemma FirstFields(e: A.Entry, r: A.LineRow, text: real -> string)
    ensures "created_at" in EntryRow(e) && forall f :: f in EntryRow(e) ==> UpTo("created_at", f)
    ensures "account_code" in LineRow(r, text) && forall f :: f in LineRow(r, text) ==> UpTo("account_code", f)
    ensures Field(EntryRow(e), "id") == e.id && Field(LineRow(r, text), "id") == LineKey(r)
    ensures "id" in EntryRow(e) && "id" in LineRow(r, text)
  {
    hide *;
    FirstEntryField(e);
    FirstLineField(r, text);
  }

  lemma FirstEntryField(e: A.Entry)
    ensures "created_at" in EntryRow(e) && forall f :: f in EntryRow(e) ==> UpTo("created_at", f)
    ensures "id" in EntryRow(e) && Field(EntryRow(e), "id") == e.id
  {
    hide Less;
    CreatedAtIsFirst();
    assert EntryRow(e).Keys == {"id", "project_id", "date", "memo", "created_by", "created_at"};
  }

  lemma CreatedAtIsFirst()
    ensures UpTo("created_at", "created_by") && UpTo("created_at", "id") && UpTo("created_at", "project_id")
    ensures UpTo("created_at", "date") && UpTo("created_at", "memo")
  {
    hide Less;
    LessAtFirstDifference("created_at", "created_by", 8);
    LessAtFirstDifference("created_at", "id", 0);
    LessAtFirstDifference("created_at", "project_id", 0);
    LessAtFirstDifference("created_at", "date", 0);
    LessAtFirstDifference("created_at", "memo", 0);
  }

  lemma FirstLineField(r: A.LineRow, text: real -> string)
    ensures "account_code" in LineRow(r, text) && forall f :: f in LineRow(r, text) ==> UpTo("account_code", f)
    ensures "id" in LineRow(r, text) && Field(LineRow(r, text), "id") == LineKey(r)
  {
    hide LineKey, Less;
    AccountCodeIsFirst();
    assert LineRow(r, text).Keys == {"id", "entry_id", "project_id", "line_no", "account_code", "debit", "credit"};
  }

  lemma AccountCodeIsFirst()
    ensures UpTo("account_code", "id") && UpTo("account_code", "entry_id") && UpTo("account_code", "project_id")
    ensures UpTo("account_code", "line_no") && UpTo("account_code", "debit") && UpTo("account_code", "credit")
  {
    hide Less;
    LessAtFirstDifference("account_code", "id", 0);
    LessAtFirstDifference("account_code", "entry_id", 0);
    LessAtFirstDifference("account_code", "project_id", 0);
    LessAtFirstDifference("account_code", "line_no", 0);
    LessAtFirstDifference("account_code", "debit", 0);
    LessAtFirstDifference("account_code", "credit", 0);
  }

  lemma NextRow(rs: seq<A.LineRow>, r: A.LineRow, text: real -> string)
    ensures LinesTable(rs + [r], text) == PutRow(LinesTable(rs, text), LineKey(r), LineRow(r, text))
  {
    assert (rs + [r])[..|rs|] == rs;
  }

  lemma NextEntry(es: seq<A.Entry>, e: A.Entry)
    ensures EntriesTable(es + [e]) == PutRow(EntriesTable(es), e.id, EntryRow(e))
  {
    assert (es + [e])[..|es|] == es;
  }

  /** The inserts of postJournal, for one post after the other. */
  method StorePosts(db: DBManager, posts: seq<A.Post>, text: real -> string)
    requires db.Valid() && db.tables == map[]
    modifies db
    ensures db.Valid() && Stores(db.tables, A.RowsOfPosts(posts), A.EntriesOfPosts(posts), text)
  {
    hide LinesTable, EntriesTable, LineRow, EntryRow, LineKey, PutRow;
    StoresNothing(text);
    var i := 0;
    assert posts[..0] == [];
    while i < |posts|
      invariant 0 <= i <= |posts| && db.Valid()
      invariant Stores(db.tables, A.RowsOfPosts(posts[..i]), A.EntriesOfPosts(posts[..i]), text)
    {
      assert posts[..i + 1][..i] == posts[..i];
      StorePost(db, posts[i], text, A.RowsOfPosts(posts[..i]), A.EntriesOfPosts(posts[..i]));
      i := i + 1;
    }
    assert posts[..i] == posts;
  }

  lemma StoresNothing(text: real -> string)
    ensures Stores(map[], A.RowsOfPosts([]), A.EntriesOfPosts([]), text)
  {}

  method StorePost(db: DBManager, p: A.Post, text: real -> string, ghost rs: seq<A.LineRow>, ghost es: seq<A.Entry>)
    requires db.Valid() && Stores(db.tables, rs, es, text)
    modifies db
    ensures db.Valid() && Stores(db.tables, rs + A.RowsOfPost(p, |p.lines|), es + [p.entry], text)
  {
    hide LinesTable, EntriesTable, LineRow, EntryRow, LineKey, PutRow;
    PlainNames();
    FirstFields(p.entry, A.LineRow("", "", 0, A.Line("", 0.0, 0.0)), text);
    NextEntry(es, p.entry);
    var key := db.Insert(ENTRIES, EntryRow(p.entry), "created_at");
    assert key == p.entry.id;
    assert rs + A.RowsOfPost(p, 0) == rs;
    var i := 0;
    while i < |p.lines|
      invariant 0 <= i <= |p.lines| && db.Valid() && Stores(db.tables, rs + A.RowsOfPost(p, i), es + [p.entry], text)
    {
      var r := A.LineRow(p.entry.id, p.entry.project, i + 1, p.lines[i]);
      FirstFields(p.entry, r, text);
      NextRow(rs + A.RowsOfPost(p, i), r, text);
      assert rs + A.RowsOfPost(p, i + 1) == (rs + A.RowsOfPost(p, i)) + [r];
      key := db.Insert(LINES, LineRow(r, text), "account_code");
      assert key == LineKey(r);
      i := i + 1;
    }
  }

  /** The sums as the scripts read them from the answer. */
  function GroupOfRow(row: Row, number: string -> real): Group<A.Sides> {
    Group(Field(row, "account_code"), A.Sides(number(Field(row, "debit")), number(Field(row, "credit"))))
  }

  /** The sums are read as they were shown. */
  predicate ReadsBack(groups: seq<Group<A.Sides>>, show: real -> string, number: string -> real) {
    forall i :: 0 <= i < |groups| ==>
      number(show(groups[i].value.debit)) == groups[i].value.debit && number(show(groups[i].value.credit)) == groups[i].value.credit
  }

  lemma GroupsReadBack(groups: seq<Group<A.Sides>>, show: real -> string, number: string -> real)
    requires ReadsBack(groups, show, number)
    ensures var rows := ReportRows(groups, show); |rows| == |groups| && forall i :: 0 <= i < |rows| ==> GroupOfRow(rows[i], number) == groups[i]
  {
    var rows := ReportRows(groups, show);
    forall i | 0 <= i < |rows| ensures GroupOfRow(rows[i], number) == groups[i] {
      assert rows[i] == ReportRow(groups[i], show);
    }
  }

  /** The answer to the query of the balance sheet, on stored posts. */
  lemma SheetAnswer(tables: Tables, index: Index, posts: seq<A.Post>, project: string, asOf: Option<string>, text: real -> string,
                    numbers: Numbers)
    requires Stores(tables, A.RowsOfPosts(posts), A.EntriesOfPosts(posts), text) && TablesFit(tables) && Fresh(tables, index)
    requires A.FreshIds(posts) && PlainIds(posts) && Readable(A.RowsOfPosts(posts), text, numbers.stod)
    ensures Select(tables, index, SheetQuery(project, asOf), numbers)
            == Some(ReportRows(A.ByAccount(A.PostedLines(posts, project, asOf)), numbers.showReal))
  {
    hide *;
    PostedKeysDiffer(posts);
    assert posts[..|posts|] == posts;
    A.IncludedPosts(posts, |posts|, project, asOf);
    SheetSelect(tables, index, A.RowsOfPosts(posts), A.EntriesOfPosts(posts), project, asOf, text, numbers);
  }

  /** The answer to the query of the trial balance, and its sum. */
  lemma TrialAnswer(tables: Tables, index: Index, posts: seq<A.Post>, project: string, text: real -> string, numbers: Numbers)
    requires Stores(tables, A.RowsOfPosts(posts), A.EntriesOfPosts(posts), text)
    requires A.PostsFit(posts) && PlainIds(posts) && Readable(A.RowsOfPosts(posts), text, numbers.stod)
    ensures Select(tables, index, TrialQuery(project), numbers)
            == Some(ReportRows(A.ByAccount(B.ProjectLines(A.RowsOfPosts(posts), project)), numbers.showReal))
    ensures A.SumRows(A.TrialRows(A.ByAccount(B.ProjectLines(A.RowsOfPosts(posts), project)))) == 0.0
  {
    hide *;
    A.PostsAreFresh(posts);
    PostedKeysDiffer(posts);
    B.TrialBalanceIsZero(posts, project);
    StoredLines(tables, A.RowsOfPosts(posts), A.EntriesOfPosts(posts), text);
    TrialSelect(tables, index, A.RowsOfPosts(posts), project, text, numbers);
  }

  lemma ValidTables(db: DBManager)
    requires db.Valid()
    ensures TablesFit(db.tables)
  {}

  /**
   * After accepted posts were stored, the engine's answer to the query of the balance sheet is the grouping of the posted
   * lines, on which the accounting equation rests.
   */
  method SheetGroups(db: DBManager, indexes: Indexes, ghost posts: seq<A.Post>, project: string, asOf: Option<string>,
                     ghost text: real -> string, numbers: Numbers, number: string -> real)
    returns (ok: bool, groups: seq<Group<A.Sides>>)
    requires db.Valid() && Stores(db.tables, A.RowsOfPosts(posts), A.EntriesOfPosts(posts), text)
    requires (forall t, f :: Sorted(Entries(indexes.index, t, f))) && Fresh(db.tables, indexes.index)
    requires A.FreshIds(posts) && PlainIds(posts) && Readable(A.RowsOfPosts(posts), text, numbers.stod)
    requires ReadsBack(A.ByAccount(A.PostedLines(posts, project, asOf)), numbers.showReal, number)
    ensures ok && groups == A.ByAccount(A.PostedLines(posts, project, asOf))
  {
    hide *;
    ValidTables(db);
    SheetAnswer(db.tables, indexes.index, posts, project, asOf, text, numbers);
    var rows;
    ok, rows := HandleSelect(db, indexes, SheetQuery(project, asOf), numbers);
    GroupsReadBack(A.ByAccount(A.PostedLines(posts, project, asOf)), numbers.showReal, number);
    groups := seq(|rows|, i requires 0 <= i < |rows| => GroupOfRow(rows[i], number));
  }

  /** And the trial balance made of its answer sums to zero, in whole cents. */
  method TrialGroups(db: DBManager, indexes: Indexes, ghost posts: seq<A.Post>, project: string,
                     ghost text: real -> string, numbers: Numbers, number: string -> real)
    returns (ok: bool, groups: seq<Group<A.Sides>>)
    requires db.Valid() && Stores(db.tables, A.RowsOfPosts(posts), A.EntriesOfPosts(posts), text)
    requires forall t, f :: Sorted(Entries(indexes.index, t, f))
    requires A.PostsFit(posts) && PlainIds(posts) && Readable(A.RowsOfPosts(posts), text, numbers.stod)
    requires ReadsBack(A.ByAccount(B.ProjectLines(A.RowsOfPosts(posts), project)), numbers.showReal, number)
    ensures ok && groups == A.ByAccount(B.ProjectLines(A.RowsOfPosts(posts), project))
    ensures A.SumRows(A.TrialRows(groups)) == 0.0
  {
    hide *;
    TrialAnswer(db.tables, indexes.index, posts, project, text, numbers);
    var rows;
    ok, rows := HandleSelect(db, indexes, TrialQuery(project), numbers);
    GroupsReadBack(A.ByAccount(B.ProjectLines(A.RowsOfPosts(posts), project)), numbers.showReal, number);
    groups := seq(|rows|, i requires 0 <= i < |rows| => GroupOfRow(rows[i], number));
  }

  lemma StoredLines(tables: Tables, rs: seq<A.LineRow>, es: seq<A.Entry>, text: real -> string)
    requires Stores(tables, rs, es, text)
    ensures ContentsOf(tables, LINES) == LinesTable(rs, text)
  {}
}

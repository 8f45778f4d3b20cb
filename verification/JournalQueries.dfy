/** The two SELECTs of the reports: what the engine makes of each line of the journal, and sums over its rows. */
module JournalQueries {
  import opened Bytes
  import opened Options
  import opened Database
  import opened Multimaps
  import opened Indexing
  import opened IndexManager
  import opened Selecting
  import opened Grouping
  import opened SelectAnswer
  import opened QueryExecutor
  import opened JournalTables
  import A = Accounting
  import B = Books

  // ---- The queries ----------------------------------------------------------------------------------------------------------

  const LINES := "journal_lines"
  const ENTRIES := "journal_entries"
  const DATE := "journal_entries.date"

  const TO_ENTRY := Join(false, "entry_id", ENTRIES, "id")

  function OfProject(project: string): Condition { Condition("project_id", "=", project) }

  function UpToDate(asOf: Option<string>): seq<Condition> {
    if asOf.Some? then [Condition(DATE, "<=", asOf.value)] else []
  }

  /**
   * SELECT l.account_code, SUM(l.debit) AS debit, SUM(l.credit) AS credit FROM journal_lines l JOIN journal_entries e ON
   * l.entry_id = e.id WHERE l.project_id = project AND e.date <= asOf GROUP BY l.account_code, as the parser leaves it.
   */
  function SheetQuery(project: string, asOf: Option<string>): Query {
    Query(LINES, ["l.account_code"], [Agg("l.debit", "debit"), Agg("l.credit", "credit")], false, "l.account_code", 0, -1,
          [OfProject(project)] + UpToDate(asOf), [TO_ENTRY])
  }

  /** SELECT account_code, SUM(debit) AS debit, SUM(credit) AS credit FROM journal_lines WHERE project_id = project GROUP BY account_code */
  function TrialQuery(project: string): Query {
    Query(LINES, ["account_code"], [Agg("debit", "debit"), Agg("credit", "credit")], false, "account_code", 0, -1,
          [OfProject(project)], [])
  }

  // ---- Names with and without qualifiers ------------------------------------------------------------------------------------

  lemma NoDot(name: string)
    requires '.' !in name
    ensures Find(name, ".", 0) == -1 && Unqualified(name) == name && IsBase(LINES, name)
  {
    forall i: nat ensures !OccursAt(name, i, ".") {
      if i < |name| { assert name[i..i + 1] == [name[i]] && name[i] in name; }
    }
  }

  lemma OneDot(qualifier: string, name: string)
    requires '.' !in qualifier
    ensures Find(qualifier + "." + name, ".", 0) == |qualifier| && Unqualified(qualifier + "." + name) == name
    ensures IsBase(LINES, qualifier + "." + name) == (qualifier == LINES)
  {
    var key := qualifier + "." + name;
    assert OccursAt(key, |qualifier|, ".");
    forall i | 0 <= i < |qualifier| ensures !OccursAt(key, i, ".") {
      assert key[i] == qualifier[i] && qualifier[i] in qualifier;
      assert key[i..i + 1] == [qualifier[i]];
    }
    assert key[..|qualifier|] == qualifier && key[|qualifier| + 1..] == name;
  }

  lemma PlainNames()
    ensures '.' !in "project_id" && '.' !in "account_code" && '.' !in "debit" && '.' !in "credit" && '.' !in ENTRIES && '.' !in "l"
    ensures DATE == ENTRIES + "." + "date" && "l.account_code" == "l" + "." + "account_code"
    ensures "l.debit" == "l" + "." + "debit" && "l.credit" == "l" + "." + "credit" && ENTRIES != LINES
  {
    assert |ENTRIES| != |LINES|;
  }

  lemma Names()
    ensures IsBase(LINES, "project_id") && Unqualified("project_id") == "project_id"
    ensures !IsBase(LINES, DATE) && Unqualified(DATE) == "date"
    ensures Unqualified("l.account_code") == Unqualified("account_code") == "account_code"
    ensures Unqualified("l.debit") == Unqualified("debit") == "debit"
    ensures Unqualified("l.credit") == Unqualified("credit") == "credit"
  {
    PlainNames();
    hide *;
    NoDot("project_id");
    NoDot("account_code");
    NoDot("debit");
    NoDot("credit");
    OneDot(ENTRIES, "date");
    OneDot("l", "account_code");
    OneDot("l", "debit");
    OneDot("l", "credit");
  }

  lemma SplitConditionsOf(project: string, asOf: Option<string>)
    ensures var conditions := [OfProject(project)] + UpToDate(asOf);
            BaseConditions(LINES, conditions) == [OfProject(project)] && PostConditions(LINES, conditions) == UpToDate(asOf)
  {
    Names();
    hide Find, Unqualified, IsBase;
    var c := OfProject(project);
    assert [c][..0] == [] && BaseConditions(LINES, []) == [] && PostConditions(LINES, []) == [];
    assert BaseConditions(LINES, [c]) == [c] && PostConditions(LINES, [c]) == [];
    if asOf.Some? {
      var both := [c] + UpToDate(asOf);
      assert both[..1] == [c] && both[1] == UpToDate(asOf)[0];
    } else {
      assert [c] + [] == [c];
    }
  }

  // ---- What one line comes to ---------------------------------------------------------------------------------------------

  /** The rows that the base condition, the join and the date condition make of one row of the line table. */
  function SheetRows(row: Row, entries: Table, project: string, asOf: Option<string>): seq<Row> {
    if !Passes(row, [OfProject(project)]) then []
    else PostFilter(ScanMatches(entries, "id", Field(row, "entry_id"), row), UpToDate(asOf))
  }

  function AllSheetRows(t: Table, entries: Table, project: string, asOf: Option<string>): seq<Row> {
    if t == [] then [] else AllSheetRows(t[..|t| - 1], entries, project, asOf) + SheetRows(t[|t| - 1].row, entries, project, asOf)
  }

  /** The rows of the whole query are those of its lines, one after the other. */
  lemma {:induction false} JoinedByLine(t: Table, tables: Tables, project: string, asOf: Option<string>)
    ensures var rows := JoinRows(tables, map[], TO_ENTRY, RowsIn(Filtered(t, [OfProject(project)])));
            && rows.Some?
            && PostFilter(rows.value, UpToDate(asOf)) == AllSheetRows(t, ContentsOf(tables, ENTRIES), project, asOf)
  {
    if t == [] {
      assert RowsIn([]) == [];
    } else {
      hide Passes, PostFilter, ScanMatches, UpToDate, OfProject, Cat;
      var init, e := t[..|t| - 1], t[|t| - 1];
      var conditions := [OfProject(project)];
      JoinedByLine(init, tables, project, asOf);
      var before := Filtered(init, conditions);
      if Passes(e.row, conditions) {
        var rows := JoinRows(tables, map[], TO_ENTRY, RowsIn(before)).value;
        var matches := ScanMatches(ContentsOf(tables, ENTRIES), "id", Field(e.row, "entry_id"), e.row);
        JoinsOneMore(before, e, tables);
        PostFilterAppend(rows, matches, UpToDate(asOf));
      } else {
        assert before + [] == before;
      }
    }
  }

  lemma JoinsOneMore(before: Table, e: Entry, tables: Tables)
    ensures JoinRows(tables, map[], TO_ENTRY, RowsIn(before + [e]))
            == Cat(JoinRows(tables, map[], TO_ENTRY, RowsIn(before)),
                   Some(ScanMatches(ContentsOf(tables, ENTRIES), "id", Field(e.row, "entry_id"), e.row)))
  {
    hide ScanMatches;
    assert RowsIn(before + [e]) == RowsIn(before) + [e.row];
    assert (RowsIn(before) + [e.row])[..|before|] == RowsIn(before);
  }

  // ---- Weights ----------------------------------------------------------------------------------------------------------------

  function Weigh(rows: seq<Row>, weight: Row -> real): real {
    if rows == [] then 0.0 else Weigh(rows[..|rows| - 1], weight) + weight(rows[|rows| - 1])
  }

  lemma {:induction false} WeighAppend(a: seq<Row>, b: seq<Row>, weight: Row -> real)
    ensures Weigh(a + b, weight) == Weigh(a, weight) + Weigh(b, weight)
  {
    if b == [] {
      assert a + b == a;
    } else {
      WeighAppend(a, b[..|b| - 1], weight);
      assert (a + b)[..|a + b| - 1] == a + b[..|b| - 1];
    }
  }

  lemma {:induction false} WeighSheet(t: Table, entries: Table, project: string, asOf: Option<string>, weight: Row -> real)
    ensures Weigh(AllSheetRows(t, entries, project, asOf), weight)
            == WeighTable(t, row => Weigh(SheetRows(row, entries, project, asOf), weight))
  {
    hide SheetRows;
    if t != [] {
      var init, e := t[..|t| - 1], t[|t| - 1];
      WeighSheet(init, entries, project, asOf, weight);
      WeighAppend(AllSheetRows(init, entries, project, asOf), SheetRows(e.row, entries, project, asOf), weight);
      WeighSnoc(init, e, row => Weigh(SheetRows(row, entries, project, asOf), weight));
      assert init + [e] == t;
    }
  }

  /** A sum of one column over the rows of a group is a weight of all rows. */
  function ColumnWeight(column: string, key: string, aggs: seq<Agg>, name: string, stod: string -> real): Row -> real {
    row => if Field(row, column) == key then Contribution(row, aggs, name, stod) else 0.0
  }

  function CountWeight(column: string, key: string): Row -> real { row => if Field(row, column) == key then 1.0 else 0.0 }

  lemma {:induction false} SumsAreWeights(rows: seq<Row>, column: string, key: string, aggs: seq<Agg>, name: string, stod: string -> real)
    ensures SumOf(RowsWith(rows, column, key), aggs, name, stod) == Weigh(rows, ColumnWeight(column, key, aggs, name, stod))
    ensures |RowsWith(rows, column, key)| as real == Weigh(rows, CountWeight(column, key))
  {
    hide Contribution, Field;
    if rows != [] {
      var init, row := rows[..|rows| - 1], rows[|rows| - 1];
      SumsAreWeights(init, column, key, aggs, name, stod);
      SumOfSnoc(RowsWith(init, column, key), row, aggs, name, stod);
      assert RowsWith(init, column, key) + [] == RowsWith(init, column, key);
    }
  }

  lemma {:induction false} KeyIsCounted(rows: seq<Row>, column: string, key: string)
    ensures (exists r :: r in rows && Field(r, column) == key) <==> |RowsWith(rows, column, key)| > 0
  {
    hide Field;
    if rows != [] {
      var init, row := rows[..|rows| - 1], rows[|rows| - 1];
      KeyIsCounted(init, column, key);
      assert rows == init + [row];
    }
  }

  // ---- The same sums over the lines that the reports include -----------------------------------------------------------------

  function LineWeight(account: string, name: string): A.Line -> real {
    (l: A.Line) => if l.account != account then 0.0 else if name == "debit" then l.debit else if name == "credit" then l.credit else 1.0
  }

  function WeighIncluded(lines: seq<A.Line>, weight: A.Line -> real): real {
    if lines == [] then 0.0 else WeighIncluded(lines[..|lines| - 1], weight) + weight(lines[|lines| - 1])
  }

  lemma {:induction false} AccountSums(lines: seq<A.Line>, account: string)
    ensures var s := ValueAt(A.ByAccount(lines), account, A.NOTHING);
            && s.debit == WeighIncluded(lines, LineWeight(account, "debit"))
            && s.credit == WeighIncluded(lines, LineWeight(account, "credit"))
    ensures InOrder(A.ByAccount(lines))
    ensures account in KeySet(A.ByAccount(lines)) <==> WeighIncluded(lines, LineWeight(account, "")) > 0.0
    ensures WeighIncluded(lines, LineWeight(account, "")) >= 0.0
  {
    hide Bump, ValueAt, InOrder, KeySet;
    if lines == [] {
      NoAccounts(account);
    } else {
      var init, l := lines[..|lines| - 1], lines[|lines| - 1];
      AccountSums(init, account);
      var change := (s: A.Sides) => A.Plus(s, l);
      BumpKeys(A.ByAccount(init), l.account, A.NOTHING, change);
      BumpAt(A.ByAccount(init), l.account, A.NOTHING, change, account);
    }
  }

  lemma NoAccounts(account: string)
    ensures ValueAt([], account, A.NOTHING) == A.NOTHING && InOrder<A.Sides>([]) && KeySet<A.Sides>([]) == {}
  {}

  /** The amounts are read as they were written. */
  predicate Readable(rs: seq<A.LineRow>, text: real -> string, stod: string -> real) {
    forall i :: 0 <= i < |rs| ==> stod(text(rs[i].line.debit)) == rs[i].line.debit && stod(text(rs[i].line.credit)) == rs[i].line.credit
  }

  // ---- One line of the journal ------------------------------------------------------------------------------------------------

  lemma GetRowSnoc(t: Table, e: Entry, key: string)
    requires Ascending(t + [e])
    ensures Ascending(t) && GetRow(t + [e], key) == if HasKey(t, key) then GetRow(t, key) else if e.key == key then Some(e.row) else None
    ensures e.key == key ==> !HasKey(t, key)
  {
    var u := t + [e];
    assert forall i :: 0 <= i < |t| ==> u[i] == t[i];
    assert u[|t|] == e;
    if i :| 0 <= i < |u| && u[i].key == key {
      GetRowAt(u, i);
      if i < |t| {
        GetRowAt(t, i);
        LessIsStrict(u[i].key, e.key);
      } else {
        forall j | 0 <= j < |t| ensures t[j].key != key { LessIsStrict(u[j].key, e.key); }
      }
    }
  }

  /** Scanning for an id in a table keyed by it finds the row of that key, if there is one. */
  lemma {:induction false} ScanById(t: Table, id: string, row: Row)
    requires Ascending(t) && KeyedById(t)
    ensures ScanMatches(t, "id", id, row) == if GetRow(t, id).Some? then [Merged(row, GetRow(t, id).value)] else []
  {
    if t != [] {
      var init, e := t[..|t| - 1], t[|t| - 1];
      assert t == init + [e];
      GetRowSnoc(init, e, id);
      ScanById(init, id, row);
      hide Ascending, GetRow;
      assert "id" in e.row && e.row["id"] == e.key;
    }
  }

  lemma DateReached(date: string, asOf: string)
    ensures Holds(date, "<=", asOf) == UpTo(date, asOf)
  {
    LessIsTotal(date, asOf);
    if Less(date, asOf) { LessIsStrict(date, asOf); }
    if Less(asOf, date) { LessIsStrict(asOf, date); }
    hide Less;
  }

  lemma DateFilter(row: Row, asOf: Option<string>)
    requires "date" in row
    ensures PostFilter([row], UpToDate(asOf)) == if asOf.Some? ==> UpTo(row["date"], asOf.value) then [row] else []
  {
    Names();
    hide Unqualified, Find, IsBase, Holds;
    var conditions := UpToDate(asOf);
    assert [row][..0] == [] && PostFilter([], conditions) == [];
    if asOf.Some? {
      DateReached(row["date"], asOf.value);
      var c := conditions[0];
      assert Field(row, Unqualified(c.key)) == row["date"];
      assert conditions[..0] == [];
      assert TouchedAll(row, conditions) == Touched(TouchedAll(row, []), "date") == row;
    } else {
      assert TouchedAll(row, conditions) == row;
    }
  }

  lemma FieldsOfLine(r: A.LineRow, text: real -> string)
    ensures var row := LineRow(r, text);
            && Field(row, "project_id") == r.project && Field(row, "entry_id") == r.entryId && "date" !in row
            && Field(row, "account_code") == r.line.account
            && Field(row, "debit") == text(r.line.debit) && Field(row, "credit") == text(r.line.credit)
  {}

  lemma FieldsOfMerged(row: Row, e: A.Entry)
    requires "date" !in row
    ensures var m := Merged(row, EntryRow(e));
            && "date" in m && m["date"] == e.date
            && (forall f :: f in row ==> f in m && m[f] == row[f])
  {}

  lemma MergedFields(r: A.LineRow, text: real -> string, e: A.Entry)
    ensures var m := Merged(LineRow(r, text), EntryRow(e));
            && "date" in m && m["date"] == e.date && Field(m, "account_code") == r.line.account
            && Field(m, "debit") == text(r.line.debit) && Field(m, "credit") == text(r.line.credit)
  {
    var row := LineRow(r, text);
    assert "account_code" in row && "debit" in row && "credit" in row;
    FieldsOfLine(r, text);
    FieldsOfMerged(row, e);
    hide LineRow, EntryRow, Merged;
  }

  lemma OneCondition(row: Row, c: Condition)
    ensures Passes(row, [c]) == Holds(Field(row, c.key), c.op, c.value)
  {
    assert [c][0] == c;
  }

  /** A line comes to one row, with its entry's date, or to none. */
  lemma SheetRowsOf(r: A.LineRow, es: seq<A.Entry>, project: string, asOf: Option<string>, text: real -> string)
    ensures var e := A.EntryOf(es, r.entryId);
            SheetRows(LineRow(r, text), EntriesTable(es), project, asOf)
            == if r.project == project && e.Some? && A.IsIncluded(e.value, asOf) then [Merged(LineRow(r, text), EntryRow(e.value))] else []
  {
    FieldsOfLine(r, text);
    var row := LineRow(r, text);
    OneCondition(row, OfProject(project));
    assert Passes(row, [OfProject(project)]) == (r.project == project);
    hide LineRow, EntryRow, EntriesTable, Merged, PostFilter, ScanMatches, Passes, UpToDate, OfProject;
    EntriesTableFits(es);
    StoredEntry(es, r.entryId);
    ScanById(EntriesTable(es), r.entryId, row);
    var e := A.EntryOf(es, r.entryId);
    if e.Some? {
      MergedFields(r, text, e.value);
      DateFilter(Merged(row, EntryRow(e.value)), asOf);
    } else {
      NothingFiltered(UpToDate(asOf));
    }
  }

  lemma NothingFiltered(conditions: seq<Condition>)
    ensures PostFilter([], conditions) == []
  {}

  // ---- All lines ----------------------------------------------------------------------------------------------------------------

  /** A weight of a line's row is a weight of the line. */
  ghost predicate SameWeight(rs: seq<A.LineRow>, text: real -> string, weight: Row -> real, lineWeight: A.Line -> real) {
    forall i, e :: 0 <= i < |rs| ==> weight(Merged(LineRow(rs[i], text), EntryRow(e))) == lineWeight(rs[i].line)
  }

  lemma {:induction false} WeighOfIncluded(rs: seq<A.LineRow>, es: seq<A.Entry>, project: string, asOf: Option<string>, text: real -> string,
                                           weight: Row -> real, lineWeight: A.Line -> real)
    requires SameWeight(rs, text, weight, lineWeight)
    ensures WeighLines(rs, text, row => Weigh(SheetRows(row, EntriesTable(es), project, asOf), weight))
            == WeighIncluded(A.Included(rs, es, project, asOf), lineWeight)
  {
    hide SheetRows, EntriesTable, LineRow, EntryRow, Merged, A.EntryOf, A.IsIncluded, A.Included, Weigh, WeighIncluded, SameWeight;
    if rs == [] {
      NothingIncluded(es, project, asOf, lineWeight);
    } else {
      var init, r := rs[..|rs| - 1], rs[|rs| - 1];
      SameWeightInit(rs, text, weight, lineWeight);
      WeighOfIncluded(init, es, project, asOf, text, weight, lineWeight);
      OneLineWeighs(rs, es, project, asOf, text, weight, lineWeight);
      A.IncludedSnoc(init, r, es, project, asOf);
      assert init + [r] == rs;
      var before, e := A.Included(init, es, project, asOf), A.EntryOf(es, r.entryId);
      if r.project == project && e.Some? && A.IsIncluded(e.value, asOf) {
        WeighIncludedSnoc(before, r.line, lineWeight);
      } else {
        assert before + [] == before;
      }
    }
  }

  lemma NothingIncluded(es: seq<A.Entry>, project: string, asOf: Option<string>, lineWeight: A.Line -> real)
    ensures WeighIncluded(A.Included([], es, project, asOf), lineWeight) == 0.0
  {}

  lemma WeighIncludedSnoc(lines: seq<A.Line>, l: A.Line, weight: A.Line -> real)
    ensures WeighIncluded(lines + [l], weight) == WeighIncluded(lines, weight) + weight(l)
  {
    assert (lines + [l])[..|lines|] == lines;
  }

  lemma SameWeightInit(rs: seq<A.LineRow>, text: real -> string, weight: Row -> real, lineWeight: A.Line -> real)
    requires rs != [] && SameWeight(rs, text, weight, lineWeight)
    ensures SameWeight(rs[..|rs| - 1], text, weight, lineWeight)
  {
    hide LineRow, EntryRow, Merged;
    var init := rs[..|rs| - 1];
    forall i, e | 0 <= i < |init| ensures weight(Merged(LineRow(init[i], text), EntryRow(e))) == lineWeight(init[i].line) {
      assert init[i] == rs[i];
    }
  }

  lemma OneLineWeighs(rs: seq<A.LineRow>, es: seq<A.Entry>, project: string, asOf: Option<string>, text: real -> string,
                      weight: Row -> real, lineWeight: A.Line -> real)
    requires rs != [] && SameWeight(rs, text, weight, lineWeight)
    ensures var r := rs[|rs| - 1]; var e := A.EntryOf(es, r.entryId);
            Weigh(SheetRows(LineRow(r, text), EntriesTable(es), project, asOf), weight)
            == if r.project == project && e.Some? && A.IsIncluded(e.value, asOf) then lineWeight(r.line) else 0.0
  {
    hide SheetRows, EntriesTable, LineRow, EntryRow, Merged, A.EntryOf, A.IsIncluded;
    var r := rs[|rs| - 1];
    SheetRowsOf(r, es, project, asOf, text);
    var rows := SheetRows(LineRow(r, text), EntriesTable(es), project, asOf);
    assert rows == [] || (rows[..0] == [] && Weigh(rows[..0], weight) == 0.0);
  }

  const SHEET_AGGS := [Agg("l.debit", "debit"), Agg("l.credit", "credit")]
  const TRIAL_AGGS := [Agg("debit", "debit"), Agg("credit", "credit")]

  predicate ReportAggs(aggs: seq<Agg>) { aggs == SHEET_AGGS || aggs == TRIAL_AGGS }

  lemma ContributionOf(row: Row, aggs: seq<Agg>, name: string, stod: string -> real)
    requires ReportAggs(aggs)
    ensures Contribution(row, aggs, name, stod)
            == if name == "debit" then stod(Field(row, "debit")) else if name == "credit" then stod(Field(row, "credit")) else 0.0
  {
    Names();
    hide Unqualified, Find, IsBase, Field;
    var first := aggs[..1];
    assert first == [aggs[0]] && first[..0] == [] && Contribution(row, [], name, stod) == 0.0;
    assert NameOf(aggs[0]) == "debit" && NameOf(aggs[1]) == "credit";
    assert Amount(row, aggs[0], stod) == stod(Field(row, "debit"));
    assert Amount(row, aggs[1], stod) == stod(Field(row, "credit"));
    assert Contribution(row, first, name, stod) == if name == "debit" then stod(Field(row, "debit")) else 0.0;
    assert "debit" != "credit";
  }

  lemma WeightsOfLines(rs: seq<A.LineRow>, text: real -> string, aggs: seq<Agg>, account: string, name: string, stod: string -> real)
    requires ReportAggs(aggs) && Readable(rs, text, stod) && (name == "debit" || name == "credit")
    ensures SameWeight(rs, text, ColumnWeight("account_code", account, aggs, name, stod), LineWeight(account, name))
    ensures SameWeight(rs, text, CountWeight("account_code", account), LineWeight(account, ""))
  {
    hide LineRow, EntryRow, Merged, Contribution, Field;
    forall i, e | 0 <= i < |rs|
      ensures ColumnWeight("account_code", account, aggs, name, stod)(Merged(LineRow(rs[i], text), EntryRow(e)))
              == LineWeight(account, name)(rs[i].line)
      ensures CountWeight("account_code", account)(Merged(LineRow(rs[i], text), EntryRow(e))) == LineWeight(account, "")(rs[i].line) {
      MergedFields(rs[i], text, e);
      ContributionOf(Merged(LineRow(rs[i], text), EntryRow(e)), aggs, name, stod);
    }
  }

  // ---- The trial balance: no join -----------------------------------------------------------------------------------------------

  lemma {:induction false} WeighFiltered(t: Table, conditions: seq<Condition>, weight: Row -> real)
    ensures Weigh(RowsIn(Filtered(t, conditions)), weight) == WeighTable(t, row => if Passes(row, conditions) then weight(row) else 0.0)
  {
    hide Passes;
    if t == [] {
      assert RowsIn([]) == [];
    } else {
      var init, e := t[..|t| - 1], t[|t| - 1];
      WeighFiltered(init, conditions, weight);
      var before := Filtered(init, conditions);
      assert before + [] == before;
      assert RowsIn(before + [e]) == RowsIn(before) + [e.row];
      WeighAppend(RowsIn(before), [e.row], weight);
      assert [e.row][..0] == [] && Weigh([e.row], weight) == weight(e.row);
      WeighSnoc(init, e, row => if Passes(row, conditions) then weight(row) else 0.0);
      assert init + [e] == t;
    }
  }

  /** A weight of a line's own row is a weight of the line. */
  ghost predicate SameOwnWeight(rs: seq<A.LineRow>, text: real -> string, weight: Row -> real, lineWeight: A.Line -> real) {
    forall i :: 0 <= i < |rs| ==> weight(LineRow(rs[i], text)) == lineWeight(rs[i].line)
  }

  lemma {:induction false} WeighOfProject(rs: seq<A.LineRow>, project: string, text: real -> string,
                                          weight: Row -> real, lineWeight: A.Line -> real)
    requires SameOwnWeight(rs, text, weight, lineWeight)
    ensures WeighLines(rs, text, row => if Passes(row, [OfProject(project)]) then weight(row) else 0.0)
            == WeighIncluded(B.ProjectLines(rs, project), lineWeight)
  {
    hide LineRow, Passes, WeighIncluded;
    if rs == [] {
      assert WeighIncluded([], lineWeight) == 0.0 by { NothingWeighs(lineWeight); }
    } else {
      var init, r := rs[..|rs| - 1], rs[|rs| - 1];
      assert forall i :: 0 <= i < |init| ==> init[i] == rs[i];
      WeighOfProject(init, project, text, weight, lineWeight);
      OneCondition(LineRow(r, text), OfProject(project));
      FieldsOfLine(r, text);
      var before := B.ProjectLines(init, project);
      WeighIncludedSnoc(before, r.line, lineWeight);
      assert before + [] == before;
    }
  }

  lemma NothingWeighs(lineWeight: A.Line -> real)
    ensures WeighIncluded([], lineWeight) == 0.0
  {}

  lemma OwnWeights(rs: seq<A.LineRow>, text: real -> string, aggs: seq<Agg>, account: string, name: string, stod: string -> real)
    requires ReportAggs(aggs) && Readable(rs, text, stod) && (name == "debit" || name == "credit")
    ensures SameOwnWeight(rs, text, ColumnWeight("account_code", account, aggs, name, stod), LineWeight(account, name))
    ensures SameOwnWeight(rs, text, CountWeight("account_code", account), LineWeight(account, ""))
  {
    hide LineRow, Contribution, Field;
    forall i | 0 <= i < |rs|
      ensures ColumnWeight("account_code", account, aggs, name, stod)(LineRow(rs[i], text)) == LineWeight(account, name)(rs[i].line)
      ensures CountWeight("account_code", account)(LineRow(rs[i], text)) == LineWeight(account, "")(rs[i].line) {
      FieldsOfLine(rs[i], text);
      ContributionOf(LineRow(rs[i], text), aggs, name, stod);
    }
  }

  // ---- Equal sums, equal groups -------------------------------------------------------------------------------------------------

  /** The rows and the lines give the same sums and counts for an account. */
  predicate SameSums(rows: seq<Row>, lines: seq<A.Line>, aggs: seq<Agg>, stod: string -> real, account: string) {
    && Weigh(rows, ColumnWeight("account_code", account, aggs, "debit", stod)) == WeighIncluded(lines, LineWeight(account, "debit"))
    && Weigh(rows, ColumnWeight("account_code", account, aggs, "credit", stod)) == WeighIncluded(lines, LineWeight(account, "credit"))
    && Weigh(rows, CountWeight("account_code", account)) == WeighIncluded(lines, LineWeight(account, ""))
  }

  lemma HeadIsLeast<V>(groups: seq<Group<V>>, key: string)
    requires InOrder(groups) && key in KeySet(groups)
    ensures groups != [] && UpTo(groups[0].key, key)
  {
    var i :| 0 <= i < |groups| && groups[i].key == key;
    hide Less;
  }

  lemma {:induction false} SameKeys<V, W>(g: seq<Group<V>>, h: seq<Group<W>>)
    requires InOrder(g) && InOrder(h) && KeySet(g) == KeySet(h)
    ensures |g| == |h| && forall i :: 0 <= i < |g| ==> g[i].key == h[i].key
    decreases |g|
  {
    hide Less, InOrder, KeySet;
    if g == [] || h == [] {
      NotEmptyKeys(g);
      NotEmptyKeys(h);
    } else {
      KeySetCons(g);
      KeySetCons(h);
      HeadIsLeast(g, h[0].key);
      HeadIsLeast(h, g[0].key);
      if g[0].key != h[0].key { LessIsStrict(g[0].key, h[0].key); }
      TailKeys(g);
      TailKeys(h);
      SameKeys(g[1..], h[1..]);
      forall i | 0 <= i < |g| ensures g[i].key == h[i].key {
        if i > 0 { assert g[1..][i - 1] == g[i] && h[1..][i - 1] == h[i]; }
      }
    }
  }

  lemma NotEmptyKeys<V>(g: seq<Group<V>>)
    ensures KeySet(g) == {} <==> g == []
  {
    if g != [] { assert g[0].key in KeySet(g); }
  }

  lemma TailKeys<V>(g: seq<Group<V>>)
    requires InOrder(g) && g != []
    ensures InOrder(g[1..]) && KeySet(g[1..]) == KeySet(g) - {g[0].key}
  {
    Grouping.AfterHead(g);
    KeySetCons(g);
    if g[0].key in KeySet(g[1..]) {
      var i :| 0 <= i < |g[1..]| && g[1..][i].key == g[0].key;
      LessIsStrict(g[0].key, g[1..][i].key);
    }
  }

  lemma {:induction false} ValueOfGroup<V>(g: seq<Group<V>>, i: nat, zero: V)
    requires InOrder(g) && i < |g|
    ensures ValueAt(g, g[i].key, zero) == g[i].value
  {
    if i > 0 {
      LessIsStrict(g[0].key, g[i].key);
      assert g[1..][i - 1] == g[i];
      ValueOfGroup(g[1..], i - 1, zero);
    }
  }

  lemma KeysAgree(rows: seq<Row>, lines: seq<A.Line>, aggs: seq<Agg>, stod: string -> real, account: string)
    requires SameSums(rows, lines, aggs, stod, account)
    ensures account in KeySet(Accumulate(rows, "account_code", aggs, stod)) <==> account in KeySet(A.ByAccount(lines))
  {
    hide Weigh, WeighIncluded, Field, KeySet, Accumulate, RowsWith;
    GroupSum(rows, "account_code", aggs, stod, account, "debit");
    KeyIsCounted(rows, "account_code", account);
    SumsAreWeights(rows, "account_code", account, aggs, "debit", stod);
    AccountSums(lines, account);
  }

  lemma SumsAgree(rows: seq<Row>, lines: seq<A.Line>, aggs: seq<Agg>, stod: string -> real, account: string)
    requires SameSums(rows, lines, aggs, stod, account)
    ensures var sums, sides := ValueAt(Accumulate(rows, "account_code", aggs, stod), account, map[]), ValueAt(A.ByAccount(lines), account, A.NOTHING);
            SumAt(sums, "debit") == sides.debit && SumAt(sums, "credit") == sides.credit
  {
    hide Weigh, WeighIncluded, Field, KeySet, Accumulate, RowsWith, ValueAt, SumAt, SumOf;
    GroupSum(rows, "account_code", aggs, stod, account, "debit");
    GroupSum(rows, "account_code", aggs, stod, account, "credit");
    SumsAreWeights(rows, "account_code", account, aggs, "debit", stod);
    SumsAreWeights(rows, "account_code", account, aggs, "credit", stod);
    AccountSums(lines, account);
  }

  lemma GroupsAgree(rows: seq<Row>, lines: seq<A.Line>, aggs: seq<Agg>, stod: string -> real)
    requires forall account :: SameSums(rows, lines, aggs, stod, account)
    ensures var accs, groups := Accumulate(rows, "account_code", aggs, stod), A.ByAccount(lines);
            && |accs| == |groups|
            && forall i :: 0 <= i < |groups| ==>
                 && accs[i].key == groups[i].key
                 && SumAt(accs[i].value, "debit") == groups[i].value.debit && SumAt(accs[i].value, "credit") == groups[i].value.credit
  {
    hide SameSums, Accumulate, SumAt, ValueAt, InOrder, KeySet, A.ByAccount;
    var accs, groups := Accumulate(rows, "account_code", aggs, stod), A.ByAccount(lines);
    GroupSum(rows, "account_code", aggs, stod, "", "debit");
    AccountSums(lines, "");
    forall account ensures account in KeySet(accs) <==> account in KeySet(groups) {
      assert SameSums(rows, lines, aggs, stod, account);
      KeysAgree(rows, lines, aggs, stod, account);
    }
    SameKeys(accs, groups);
    forall i | 0 <= i < |groups|
      ensures SumAt(accs[i].value, "debit") == groups[i].value.debit && SumAt(accs[i].value, "credit") == groups[i].value.credit {
      ValueOfGroup(accs, i, map[]);
      ValueOfGroup(groups, i, A.NOTHING);
      assert SameSums(rows, lines, aggs, stod, groups[i].key);
      SumsAgree(rows, lines, aggs, stod, groups[i].key);
    }
  }

  /** Every group has the two sums, and no other. */
  lemma GroupNames(rows: seq<Row>, aggs: seq<Agg>, stod: string -> real)
    requires ReportAggs(aggs)
    ensures forall i :: 0 <= i < |Accumulate(rows, "account_code", aggs, stod)| ==>
              Accumulate(rows, "account_code", aggs, stod)[i].value.Keys == {"debit", "credit"}
  {
    LabelsOfGroups(rows, "account_code", aggs, stod);
    LabelsOfReports(aggs);
    hide LabelsOf;
  }

  lemma LabelsOfReports(aggs: seq<Agg>)
    requires ReportAggs(aggs)
    ensures LabelsOf(aggs) == {"debit", "credit"}
  {
    assert Label(aggs[0]) == "debit" && Label(aggs[1]) == "credit";
    assert |aggs| == 2;
  }
}

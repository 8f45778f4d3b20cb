/** QueryExecutor::handleSelect, but for ORDER BY. */
module QueryExecutor {
  import opened Bytes
  import opened Options
  import opened Database
  import opened Multimaps
  import opened Indexing
  import opened IndexManager
  import opened Selecting
  import opened Grouping
  import opened SelectMeaning
  import opened SelectAnswer

  // ---- The steps ------------------------------------------------------------------------------------------------

  method SplitConditions(table: string, conditions: seq<Condition>) returns (base: seq<Condition>, post: seq<Condition>)
    ensures base == BaseConditions(table, conditions) && post == PostConditions(table, conditions)
  {
    base, post := [], [];
    var i := 0;
    while i < |conditions|
      invariant 0 <= i <= |conditions|
      invariant base == BaseConditions(table, conditions[..i]) && post == PostConditions(table, conditions[..i])
    {
      var c := conditions[i];
      assert conditions[..i + 1][..i] == conditions[..i];
      var dot := Find(c.key, ".", 0);
      if dot == -1 {
        base := base + [c];
      } else {
        assert OccursAt(c.key, dot, ".");
        if c.key[..dot] == table {
          base := base + [c.(key := c.key[dot + 1..])];
        } else {
          post := post + [c];
        }
      }
      i := i + 1;
    }
    assert conditions[..i] == conditions;
  }

  /** 1) fetch rows: the keys of a scan are those of stored rows. */
  method Fetch(db: DBManager, table: string, ghost entries: Table, keys: seq<string>) returns (rows: seq<Row>)
    requires db.Valid() && keys == Keys(entries) && forall e :: e in entries ==> e in db.Contents(table)
    ensures rows == RowsIn(entries)
  {
    rows := [];
    var i := 0;
    while i < |keys|
      invariant 0 <= i <= |keys| && rows == RowsIn(entries[..i])
    {
      Stored(db.Contents(table), entries[i]);
      var row := db.Get(table, keys[i]);
      rows := rows + [row.value];
      assert entries[..i + 1] == entries[..i] + [entries[i]];
      i := i + 1;
    }
    assert entries[..i] == entries;
  }

  lemma Stored(t: Table, e: Entry)
    requires Ascending(t) && e in t
    ensures GetRow(t, e.key) == Some(e.row)
  {
    var i :| 0 <= i < |t| && t[i] == e;
    GetRowAt(t, i);
  }

  lemma {:induction false} FilteredIn(t: Table, conditions: seq<Condition>)
    ensures forall e :: e in Filtered(t, conditions) ==> e in t
  {
    if t != [] { FilteredIn(t[..|t| - 1], conditions); }
  }

  /** The rows of the right table through an index; false where reading a row that is gone throws. */
  method JoinThroughIndex(db: DBManager, j: Join, range: Multimap, row: Row) returns (ok: bool, merged: seq<Row>)
    ensures ok == IndexMatches(range, db.Contents(j.rightTable), row).Some?
    ensures ok ==> merged == IndexMatches(range, db.Contents(j.rightTable), row).value
  {
    merged := [];
    ghost var right := db.Contents(j.rightTable);
    var i := 0;
    assert range[..0] == [];
    assert IndexMatches([], right, row) == Some([]);
    hide IndexMatches, Merged, GetRow;
    while i < |range|
      invariant 0 <= i <= |range|
      invariant IndexMatches(range[..i], right, row) == Some(merged)
    {
      assert range[..i + 1] == range[..i] + [range[i]];
      IndexMatchesSnoc(range[..i], range[i], right, row);
      var rd := db.Get(j.rightTable, range[i].key);
      if rd.None? {
        IndexStaysBroken(range, i + 1, right, row);
        return false, [];
      }
      merged := merged + [Merged(row, rd.value)];
      i := i + 1;
    }
    assert range[..i] == range;
    ok := true;
  }

  lemma {:induction false} IndexStaysBroken(range: Multimap, i: nat, right: Table, row: Row)
    requires i <= |range| && IndexMatches(range[..i], right, row).None?
    ensures IndexMatches(range, right, row).None?
    decreases |range|
  {
    if i < |range| {
      assert range[..|range| - 1][..i] == range[..i];
      IndexStaysBroken(range[..|range| - 1], i, right, row);
    } else {
      assert range[..i] == range;
    }
  }

  lemma WholeWindow(t: Table)
    ensures Window(Filtered(t, []), 0, -1) == t
  {
    EmptyFilter(t);
  }

  lemma {:induction false} EmptyFilter(t: Table)
    ensures Filtered(t, []) == t
  {
    if t != [] { EmptyFilter(t[..|t| - 1]); }
  }

  /** The rows of the right table by scanning it. */
  method JoinThroughScan(db: DBManager, j: Join, lval: string, row: Row) returns (merged: seq<Row>)
    requires db.Valid()
    ensures merged == ScanMatches(db.Contents(j.rightTable), j.rightField, lval, row)
  {
    var all := db.Scan(j.rightTable, [], 0, -1);
    ghost var right := db.Contents(j.rightTable);
    WholeWindow(right);
    merged := [];
    var i := 0;
    assert ScanMatches([], j.rightField, lval, row) == [];
    hide ScanMatches, Merged, GetRow, Window, Filtered;
    while i < |all|
      invariant 0 <= i <= |all| && all == Keys(right)
      invariant merged == ScanMatches(right[..i], j.rightField, lval, row)
    {
      ScanStep(right, j.rightField, lval, row, i);
      GetRowAt(right, i);
      var got := db.Get(j.rightTable, all[i]);
      var rd := Touched(got.value, j.rightField);
      if rd[j.rightField] == lval {
        merged := merged + [Merged(row, rd)];
      }
      i := i + 1;
    }
    assert right[..i] == right;
  }

  lemma ScanStep(right: Table, field: string, value: string, row: Row, i: nat)
    requires i < |right|
    ensures var before, last := ScanMatches(right[..i], field, value, row), right[i].row;
            ScanMatches(right[..i + 1], field, value, row)
            == if Field(last, field) == value then before + [Merged(row, Touched(last, field))] else before
  {
    hide Merged, Touched;
    assert right[..i + 1][..i] == right[..i];
    assert ScanMatches(right[..i], field, value, row) + [] == ScanMatches(right[..i], field, value, row);
  }

  /** 2) one JOIN over all left rows. */
  method JoinStep(db: DBManager, indexes: Indexes, j: Join, rows: seq<Row>) returns (ok: bool, merged: seq<Row>)
    requires db.Valid() && Sorted(Entries(indexes.index, j.rightTable, j.rightField))
    ensures ok == JoinRows(db.tables, indexes.index, j, rows).Some?
    ensures ok ==> merged == JoinRows(db.tables, indexes.index, j, rows).value
  {
    merged := [];
    var i := 0;
    assert rows[..0] == [];
    assert JoinRows(db.tables, indexes.index, j, []) == Some([]);
    hide JoinRows, JoinRow;
    while i < |rows|
      invariant 0 <= i <= |rows|
      invariant JoinRows(db.tables, indexes.index, j, rows[..i]) == Some(merged)
    {
      OneMoreRow(db.tables, indexes.index, j, rows, i);
      var extensions;
      ok, extensions := JoinOne(db, indexes, j, rows[i]);
      if !ok {
        JoinStaysBroken(db.tables, indexes.index, j, rows, i + 1);
        return false, [];
      }
      merged := merged + extensions;
      i := i + 1;
    }
    assert rows[..i] == rows;
    ok := true;
  }

  method JoinOne(db: DBManager, indexes: Indexes, j: Join, row: Row) returns (ok: bool, merged: seq<Row>)
    requires db.Valid() && Sorted(Entries(indexes.index, j.rightTable, j.rightField))
    ensures ok == JoinRow(db.tables, indexes.index, j, row).Some?
    ensures ok ==> merged == JoinRow(db.tables, indexes.index, j, row).value
  {
    hide IndexMatches, ScanMatches, Sorted, Range, LowerBound, UpperBound;
    var lval := if j.leftField in row then row[j.leftField] else "";
    ok := true;
    if HasIndex(indexes.index, j.rightTable, j.rightField) {
      var mm := indexes.index[j.rightTable][j.rightField];
      RangeIsSlice(mm, lval);
      ok, merged := JoinThroughIndex(db, j, mm[LowerBound(mm, lval)..UpperBound(mm, lval)], row);
    } else {
      merged := JoinThroughScan(db, j, lval, row);
    }
    if ok && merged == [] && j.isLeft {
      merged := [row];
    }
  }

  lemma OneMoreRow(tables: Tables, index: Index, j: Join, rows: seq<Row>, i: nat)
    requires i < |rows|
    ensures JoinRows(tables, index, j, rows[..i + 1]) == Cat(JoinRows(tables, index, j, rows[..i]), JoinRow(tables, index, j, rows[i]))
  {
    hide JoinRow;
    assert rows[..i + 1][..i] == rows[..i];
  }

  lemma {:induction false} JoinStaysBroken(tables: Tables, index: Index, j: Join, rows: seq<Row>, i: nat)
    requires i <= |rows| && JoinRows(tables, index, j, rows[..i]).None?
    ensures JoinRows(tables, index, j, rows).None?
    decreases |rows|
  {
    if i < |rows| {
      assert rows[..|rows| - 1][..i] == rows[..i];
      JoinStaysBroken(tables, index, j, rows[..|rows| - 1], i);
    } else {
      assert rows[..i] == rows;
    }
  }

  method JoinLoop(db: DBManager, indexes: Indexes, joins: seq<Join>, base: seq<Row>) returns (ok: bool, rows: seq<Row>)
    requires db.Valid() && forall t, f :: Sorted(Entries(indexes.index, t, f))
    ensures ok == JoinAll(db.tables, indexes.index, joins, base).Some?
    ensures ok ==> rows == JoinAll(db.tables, indexes.index, joins, base).value
  {
    rows := base;
    var i := 0;
    assert joins[0..] == joins;
    while i < |joins|
      invariant 0 <= i <= |joins|
      invariant JoinAll(db.tables, indexes.index, joins[i..], rows) == JoinAll(db.tables, indexes.index, joins, base)
    {
      assert joins[i..][1..] == joins[i + 1..];
      ok, rows := JoinStep(db, indexes, joins[i], rows);
      if !ok { return; }
      i := i + 1;
    }
    ok := true;
  }

  /** 3) the conditions that were not pushed down. */
  method PostFilterLoop(rows: seq<Row>, conditions: seq<Condition>) returns (filt: seq<Row>)
    ensures filt == PostFilter(rows, conditions)
  {
    filt := [];
    var i := 0;
    while i < |rows|
      invariant 0 <= i <= |rows| && filt == PostFilter(rows[..i], conditions)
    {
      assert rows[..i + 1][..i] == rows[..i];
      var ok, row := CheckPost(rows[i], conditions);
      if ok { filt := filt + [row]; }
      i := i + 1;
    }
    assert rows[..i] == rows;
  }

  method CheckPost(start: Row, conditions: seq<Condition>) returns (ok: bool, row: Row)
    ensures ok == PassesPost(start, conditions)
    ensures ok ==> row == TouchedAll(start, conditions)
  {
    hide Holds, Unqualified, PassesPost;
    row := start;
    var j := 0;
    PostStarts(start, conditions);
    while j < |conditions|
      invariant 0 <= j <= |conditions| && PassesPost(start, conditions[..j])
      invariant row == TouchedAll(start, conditions[..j]) && forall f :: Field(row, f) == Field(start, f)
    {
      PostStep(start, conditions, j);
      var c := conditions[j];
      var key := Unqualified(c.key);
      row := Touched(row, key);
      if !Holds(row[key], c.op, c.value) { return false, row; }
      j := j + 1;
    }
    assert conditions[..j] == conditions;
    ok := true;
  }

  lemma PostStarts(row: Row, conditions: seq<Condition>)
    ensures PassesPost(row, conditions[..0]) && TouchedAll(row, conditions[..0]) == row
  {}

  lemma PostStep(row: Row, conditions: seq<Condition>, j: nat)
    requires j < |conditions| && PassesPost(row, conditions[..j])
    ensures var c := conditions[j]; var holds := Holds(Field(row, Unqualified(c.key)), c.op, c.value);
            && PassesPost(row, conditions[..j + 1]) == holds
            && (!holds ==> !PassesPost(row, conditions))
            && TouchedAll(row, conditions[..j + 1]) == Touched(TouchedAll(row, conditions[..j]), Unqualified(c.key))
  {
    hide Holds, Unqualified;
    assert conditions[..j + 1][..j] == conditions[..j] && conditions[..j + 1][j] == conditions[j];
    forall i | 0 <= i < j ensures conditions[..j + 1][i] == conditions[..j][i] {}
  }

  /** 4) GROUP BY with SUM. */
  method SumLoop(rows: seq<Row>, column: string, aggs: seq<Agg>, stod: string -> real) returns (accs: seq<Group<Sums>>)
    ensures accs == Accumulate(rows, column, aggs, stod)
  {
    hide AddAggs, Bump;
    accs := [];
    var i := 0;
    while i < |rows|
      invariant 0 <= i <= |rows| && accs == Accumulate(rows[..i], column, aggs, stod)
    {
      assert rows[..i + 1][..i] == rows[..i];
      var row := rows[i];
      var key := Field(row, column);
      GroupSum(rows[..i], column, aggs, stod, "", "");
      var sums := AddRow(ValueAt(accs, key, map[]), row, aggs, stod);
      BumpIsSet(accs, key, map[], s => AddAggs(s, row, aggs, stod), sums);
      accs := Bump(accs, key, map[], _ => sums);
      i := i + 1;
    }
    assert rows[..i] == rows;
  }

  method AddRow(start: Sums, row: Row, aggs: seq<Agg>, stod: string -> real) returns (sums: Sums)
    ensures sums == AddAggs(start, row, aggs, stod)
  {
    hide *;
    sums := start;
    var k := 0;
    AddNoAgg(start, row, aggs, stod);
    while k < |aggs|
      invariant 0 <= k <= |aggs| && sums == AddAggs(start, row, aggs[..k], stod)
    {
      AddOneAgg(start, row, aggs, stod, k);
      sums := AddAgg(sums, row, aggs[k], stod);
      k := k + 1;
    }
    assert aggs[..k] == aggs;
  }

  /** acc.sums[name] += v */
  function AddAgg(sums: Sums, row: Row, a: Agg, stod: string -> real): Sums {
    sums[NameOf(a) := SumAt(sums, NameOf(a)) + Amount(row, a, stod)]
  }

  lemma AddNoAgg(start: Sums, row: Row, aggs: seq<Agg>, stod: string -> real)
    ensures AddAggs(start, row, aggs[..0], stod) == start
  {}

  lemma AddOneAgg(start: Sums, row: Row, aggs: seq<Agg>, stod: string -> real, k: nat)
    requires k < |aggs|
    ensures AddAggs(start, row, aggs[..k + 1], stod) == AddAgg(AddAggs(start, row, aggs[..k], stod), row, aggs[k], stod)
  {
    hide Amount, NameOf, SumAt;
    assert aggs[..k + 1][..k] == aggs[..k];
  }

  /** Changing a group's value is setting it to the changed value. */
  lemma {:induction false} BumpIsSet<V>(groups: seq<Group<V>>, key: string, zero: V, change: V -> V, changed: V)
    requires changed == change(ValueAt(groups, key, zero)) && InOrder(groups)
    ensures Bump(groups, key, zero, _ => changed) == Bump(groups, key, zero, change)
  {
    if groups != [] {
      if groups[0].key != key {
        if Less(key, groups[0].key) {
          AbsentBelow(groups, key, zero);
        } else {
          BumpIsSet(groups[1..], key, zero, change, changed);
        }
      }
    }
  }

  /** 4) GROUP BY with a count. */
  method CountLoop(rows: seq<Row>, column: string) returns (grp: seq<Group<nat>>)
    ensures grp == Tally(rows, column)
  {
    grp := [];
    var i := 0;
    while i < |rows|
      invariant 0 <= i <= |rows| && grp == Tally(rows[..i], column)
    {
      assert rows[..i + 1][..i] == rows[..i];
      grp := Bump(grp, Field(rows[i], column), 0, (n: nat) => n + 1);
      i := i + 1;
    }
    assert rows[..i] == rows;
  }

  /** The scan, the joins, and the conditions left for the joined rows. */
  method JoinedRows(db: DBManager, indexes: Indexes, q: Query) returns (ok: bool, rows: seq<Row>)
    requires db.Valid() && forall t, f :: Sorted(Entries(indexes.index, t, f))
    ensures ok == Joined(db.tables, indexes.index, q.table, q.conditions, q.joins, q.skip, q.limit).Some?
    ensures ok ==> rows == Joined(db.tables, indexes.index, q.table, q.conditions, q.joins, q.skip, q.limit).value
  {
    hide Filtered, PostFilter, JoinAll, BaseConditions, PostConditions, Window, Passes, Sorted;
    var base, post := SplitConditions(q.table, q.conditions);
    var keys := db.Scan(q.table, base, q.skip, q.limit);
    ghost var entries := Window(Filtered(db.Contents(q.table), base), q.skip, q.limit);
    FilteredIn(db.Contents(q.table), base);
    WindowIn(Filtered(db.Contents(q.table), base), q.skip, q.limit);
    rows := Fetch(db, q.table, entries, keys);
    ok, rows := JoinLoop(db, indexes, q.joins, rows);
    if !ok { return; }
    if post != [] {
      rows := PostFilterLoop(rows, post);
    } else {
      NoPostFilter(rows);
    }
  }

  /** GROUP BY with sums or counts, or the projection. */
  method ShownRows(q: Query, joined: seq<Row>, numbers: Numbers) returns (rows: seq<Row>)
    ensures rows == Shown(q, joined, numbers)
  {
    hide Accumulate, Tally, ShownSums, ShownCount, Projected;
    if q.groupBy != "" {
      var column := Unqualified(q.groupBy);
      if q.aggs != [] {
        var accs := SumLoop(joined, column, q.aggs, numbers.stod);
        rows := seq(|accs|, i requires 0 <= i < |accs| => ShownSums(accs[i], column, numbers.showReal));
      } else {
        var grp := CountLoop(joined, column);
        rows := seq(|grp|, i requires 0 <= i < |grp| => ShownCount(grp[i], column, numbers.showCount));
      }
    } else {
      rows := seq(|joined|, i requires 0 <= i < |joined| => Projected(joined[i], q.selectCols));
    }
  }

  /** The rows of a SELECT, or false where a stale index makes reading a right row throw. */
  method HandleSelect(db: DBManager, indexes: Indexes, q: Query, numbers: Numbers) returns (ok: bool, rows: seq<Row>)
    requires db.Valid() && forall t, f :: Sorted(Entries(indexes.index, t, f))
    ensures ok == Select(db.tables, indexes.index, q, numbers).Some?
    ensures ok ==> rows == Select(db.tables, indexes.index, q, numbers).value
    ensures DistinctLabels(q.aggs) && IndexesServe(db.tables, indexes.index, q.joins) ==> ok && Answers(rows, db.tables, q, numbers)
    ensures Plain(q) ==> ok && ListsTable(db.Contents(q.table), q, rows)
  {
    IndexedSelectMeans(db.tables, indexes.index, q, numbers);
    PlainAnswers(db.tables, indexes.index, q, numbers);
    hide Answers, ListsTable, Plain, DistinctLabels, IndexesServe, Sorted, Slice, Shown, Joined;
    ok, rows := JoinedRows(db, indexes, q);
    if !ok { return; }
    rows := ShownRows(q, rows, numbers);
    if q.joins != [] || q.groupBy != "" || q.isCount {
      rows := Slice(rows, q.skip, q.limit);
    }
  }

  lemma WindowIn(t: Table, skip: int, limit: int)
    ensures forall e :: e in Window(t, skip, limit) ==> e in t
  {}
}

/** The answer to a SELECT: what is shown of the joined rows, by row or by group, and what the shown rows hold. */
module SelectAnswer {
  import opened Bytes
  import opened Options
  import opened Database
  import opened Indexing
  import opened Selecting
  import opened Grouping
  import opened SelectMeaning
  import opened JoinMeaning

  datatype Query = Query(
    table: string, selectCols: seq<string>, aggs: seq<Agg>, isCount: bool, groupBy: string,
    skip: nat, limit: int, conditions: seq<Condition>, joins: seq<Join>)

  /** std::stod with its exceptions caught, and std::to_string. */
  datatype Numbers = Numbers(stod: string -> real, showReal: real -> string, showCount: nat -> string)

  // ---- What is shown ------------------------------------------------------------------------------------------

  function ShownSums(group: Group<Sums>, column: string, show: real -> string): Row {
    map[column := group.key] + map name | name in group.value :: show(group.value[name])
  }

  function ShownCount(group: Group<nat>, column: string, show: nat -> string): Row {
    map[column := group.key]["count" := show(group.value)]
  }

  function Projected(row: Row, columns: seq<string>): Row {
    if columns == ["*"] then row else map c | c in columns :: Field(row, Unqualified(c))
  }

  function Shown(q: Query, rows: seq<Row>, numbers: Numbers): seq<Row> {
    if q.groupBy == "" then seq(|rows|, i requires 0 <= i < |rows| => Projected(rows[i], q.selectCols))
    else
      var column := Unqualified(q.groupBy);
      if q.aggs != [] then
        var groups := Accumulate(rows, column, q.aggs, numbers.stod);
        seq(|groups|, i requires 0 <= i < |groups| => ShownSums(groups[i], column, numbers.showReal))
      else
        var groups := Tally(rows, column);
        seq(|groups|, i requires 0 <= i < |groups| => ShownCount(groups[i], column, numbers.showCount))
  }

  /** SKIP and LIMIT on the shown rows; here a limit of 0 leaves nothing. */
  function Slice(rows: seq<Row>, skip: nat, limit: int): seq<Row> {
    var start := if skip < |rows| then skip else |rows|;
    var end := if 0 <= limit && start + limit < |rows| then start + limit else |rows|;
    rows[start..end]
  }

  function Answer(q: Query, rows: seq<Row>, numbers: Numbers): seq<Row> {
    var shown := Shown(q, rows, numbers);
    if q.joins != [] || q.groupBy != "" || q.isCount then Slice(shown, q.skip, q.limit) else shown
  }

  function Select(tables: Tables, index: Index, q: Query, numbers: Numbers): Option<seq<Row>> {
    var joined := Joined(tables, index, q.table, q.conditions, q.joins, q.skip, q.limit);
    if joined.None? then None else Some(Answer(q, joined.value, numbers))
  }

  // ---- By row -------------------------------------------------------------------------------------------------

  lemma TouchedKeepsCells(row: Row, conditions: seq<Condition>, column: string)
    ensures Cell(TouchedAll(row, conditions), column) == Cell(row, column)
  {
    hide Unqualified;
    if conditions != [] { TouchedKeepsCells(row, conditions[..|conditions| - 1], column); }
  }

  lemma ProjectedShows(row: Row, table: string, conditions: seq<Condition>, columns: seq<string>)
    ensures Shows(Projected(TouchedAll(row, PostConditions(table, conditions)), columns), row, columns, table, conditions)
  {
    var post := PostConditions(table, conditions);
    if columns == ["*"] {
      TouchedShows(row, table, conditions);
    } else {
      hide Unqualified, Names, PostConditions, TouchedAll;
      var shown := Projected(TouchedAll(row, post), columns);
      forall c, f | c in columns && Names(c, f) ensures shown[c] == Cell(row, f) {
        NamesIsUnqualified(c, f);
        TouchedKeepsCells(row, post, f);
      }
    }
  }

  /** The rows at these positions, in order, each shown as the columns ask. */
  ghost predicate Lists(t: Table, q: Query, picks: seq<nat>, rows: seq<Row>) {
    && |rows| == |picks| && (forall k :: 0 <= k < |picks| ==> picks[k] < |t|)
    && forall k :: 0 <= k < |picks| ==> Shows(rows[k], t[picks[k]].row, q.selectCols, q.table, q.conditions)
  }

  predicate Plain(q: Query) { q.joins == [] && q.groupBy == "" && !q.isCount }

  /** A query of one table without SKIP and LIMIT: every row that meets the conditions, once, in key order, and no other. */
  lemma PlainSelectMeans(tables: Tables, index: Index, q: Query, numbers: Numbers) returns (picks: seq<nat>)
    requires Plain(q) && q.skip == 0 && q.limit <= 0
    ensures var t := ContentsOf(tables, q.table); var r := Select(tables, index, q, numbers);
            r.Some? && Selects(t, q.conditions, picks) && Lists(t, q, picks, r.value)
  {
    hide Projected, TouchedAll, Filtered, BaseConditions, PostConditions, PostFilter, MeetsAll, Shows, Selects;
    var t := ContentsOf(tables, q.table);
    picks := ScanMeans(t, q.table, q.conditions);
    assert Window(Filtered(t, BaseConditions(q.table, q.conditions)), q.skip, q.limit) == Filtered(t, BaseConditions(q.table, q.conditions));
    PicksFit(t, q.conditions, picks);
    forall k | 0 <= k < |picks| ensures Shows(Select(tables, index, q, numbers).value[k], t[picks[k]].row, q.selectCols, q.table, q.conditions) {
      ProjectedShows(t[picks[k]].row, q.table, q.conditions, q.selectCols);
    }
  }

  // ---- SKIP and LIMIT -----------------------------------------------------------------------------------------

  /** All but the first `skip`, and of those as many as the limit allows. */
  predicate IsPiece<T(==)>(piece: seq<T>, all: seq<T>, skip: nat, limit: Option<nat>) {
    var rest := if skip < |all| then |all| - skip else 0;
    && |piece| == (if limit.Some? && limit.value < rest then limit.value else rest)
    && forall k :: 0 <= k < |piece| ==> piece[k] == all[skip + k]
  }

  /** While a table is scanned a limit of 0 is none, too. */
  function ScanLimit(limit: int): Option<nat> { if limit > 0 then Some(limit) else None }

  /** On the shown rows only a negative limit is none. */
  function SliceLimit(limit: int): Option<nat> { if limit >= 0 then Some(limit) else None }

  lemma WindowIsPiece<T>(all: seq<T>, skip: nat, limit: int)
    ensures IsPiece(Window(all, skip, limit), all, skip, ScanLimit(limit))
  {}

  lemma SliceIsPiece(all: seq<Row>, skip: nat, limit: int)
    ensures IsPiece(Slice(all, skip, limit), all, skip, SliceLimit(limit))
  {}

  lemma RowsOfWindow(t: Table, skip: nat, limit: int)
    ensures RowsIn(Window(t, skip, limit)) == Window(RowsIn(t), skip, limit)
  {}

  predicate AllOf(table: string, conditions: seq<Condition>) { forall i :: 0 <= i < |conditions| ==> IsOf(table, conditions[i].key) }

  lemma {:induction false} NoPostConditions(table: string, conditions: seq<Condition>)
    requires AllOf(table, conditions)
    ensures PostConditions(table, conditions) == []
  {
    hide IsBase, IsOf;
    if conditions != [] {
      IsBaseIsOf(table, conditions[|conditions| - 1].key);
      NoPostConditions(table, conditions[..|conditions| - 1]);
    }
  }

  lemma {:induction false} NoPostFilter(rows: seq<Row>)
    ensures PostFilter(rows, []) == rows
  {
    if rows != [] { NoPostFilter(rows[..|rows| - 1]); }
  }

  /** SKIP and LIMIT of a query of one table, whose conditions are on that table, count the rows that meet them. */
  lemma PlainPieceMeans(tables: Tables, index: Index, q: Query, numbers: Numbers) returns (picks: seq<nat>, piece: seq<nat>)
    requires Plain(q) && AllOf(q.table, q.conditions)
    ensures var t := ContentsOf(tables, q.table); var r := Select(tables, index, q, numbers);
            && r.Some? && Selects(t, q.conditions, picks) && IsPiece(piece, picks, q.skip, ScanLimit(q.limit))
            && Lists(t, q, piece, r.value)
  {
    var t := ContentsOf(tables, q.table);
    picks := ScanMeans(t, q.table, q.conditions);
    piece := Window(picks, q.skip, q.limit);
    WindowIsPiece(picks, q.skip, q.limit);
    NoPostConditions(q.table, q.conditions);
    PicksFit(t, q.conditions, picks);
    var found := Scanned(t, q.table, q.conditions);
    WindowIsPiece(found, q.skip, q.limit);
    RowsOfWindow(Filtered(t, BaseConditions(q.table, q.conditions)), q.skip, q.limit);
    NoPostFilter(RowsIn(Filtered(t, BaseConditions(q.table, q.conditions))));
    NoPostFilter(Window(found, q.skip, q.limit));
    PieceIsShown(tables, index, q, numbers);
    hide *;
    ListsPiece(t, q, found, picks, piece);
  }

  /** What a query of one table shows when no condition is left for later. */
  lemma PieceIsShown(tables: Tables, index: Index, q: Query, numbers: Numbers)
    requires Plain(q) && PostConditions(q.table, q.conditions) == []
    ensures var found := Scanned(ContentsOf(tables, q.table), q.table, q.conditions);
            Select(tables, index, q, numbers) == Some(AllShown(Window(found, q.skip, q.limit), q.selectCols))
  {
    var filtered := Filtered(ContentsOf(tables, q.table), BaseConditions(q.table, q.conditions));
    hide Projected, Filtered, BaseConditions, PostConditions, PostFilter, Window;
    RowsOfWindow(filtered, q.skip, q.limit);
    NoPostFilter(RowsIn(filtered));
    NoPostFilter(RowsIn(Window(filtered, q.skip, q.limit)));
  }

  function AllShown(rows: seq<Row>, columns: seq<string>): seq<Row> {
    seq(|rows|, i requires 0 <= i < |rows| => Projected(rows[i], columns))
  }

  lemma ListsPiece(t: Table, q: Query, found: seq<Row>, picks: seq<nat>, piece: seq<nat>)
    requires |found| == |picks| && piece == Window(picks, q.skip, q.limit) && PostConditions(q.table, q.conditions) == []
    requires forall k :: 0 <= k < |picks| ==> picks[k] < |t| && found[k] == TouchedAll(t[picks[k]].row, PostConditions(q.table, q.conditions))
    ensures Lists(t, q, piece, AllShown(Window(found, q.skip, q.limit), q.selectCols))
  {
    hide Projected, TouchedAll, PostConditions, Shows;
    var rows := Window(found, q.skip, q.limit);
    WindowIsPiece(picks, q.skip, q.limit);
    WindowIsPiece(found, q.skip, q.limit);
    hide Window;
    forall k | 0 <= k < |piece|
      ensures piece[k] < |t| && Shows(Projected(rows[k], q.selectCols), t[piece[k]].row, q.selectCols, q.table, q.conditions)
    {
      assert piece[k] == picks[q.skip + k] && rows[k] == found[q.skip + k];
      ProjectedShows(t[piece[k]].row, q.table, q.conditions, q.selectCols);
    }
  }

  // ---- By group -----------------------------------------------------------------------------------------------

  function Label(a: Agg): string { if a.alias == "" then a.field else a.alias }

  predicate DistinctLabels(aggs: seq<Agg>) { forall i, j :: 0 <= i < j < |aggs| ==> Label(aggs[i]) != Label(aggs[j]) }

  /** The sum of one column over the rows that have the key in another. */
  function ColumnSum(rows: seq<Row>, column: string, key: string, summed: string, stod: string -> real): real {
    if rows == [] then 0.0
    else
      var row := rows[|rows| - 1];
      ColumnSum(rows[..|rows| - 1], column, key, summed, stod) + (if Cell(row, column) == key then stod(Cell(row, summed)) else 0.0)
  }

  function CountOf(rows: seq<Row>, column: string, key: string): nat {
    if rows == [] then 0
    else CountOf(rows[..|rows| - 1], column, key) + (if Cell(rows[|rows| - 1], column) == key then 1 else 0)
  }

  /** One group for each value of the column, in order. */
  ghost predicate KeysAre(keys: seq<string>, rows: seq<Row>, column: string) {
    && (forall i, j :: 0 <= i < j < |keys| ==> Before(keys[i], keys[j]))
    && forall v :: v in keys <==> exists i :: 0 <= i < |rows| && Cell(rows[i], column) == v
  }

  /** A row of a grouped answer: its key, and under each label the sum over the rows of the group. */
  ghost predicate ShowsSums(shown: Row, key: string, rows: seq<Row>, column: string, aggs: seq<Agg>, numbers: Numbers) {
    && (forall f :: f in shown <==> f == column || exists i :: 0 <= i < |aggs| && Label(aggs[i]) == f)
    && (forall i, f :: 0 <= i < |aggs| && Names(aggs[i].field, f)
          ==> shown[Label(aggs[i])] == numbers.showReal(ColumnSum(rows, column, key, f, numbers.stod)))
    && ((forall i :: 0 <= i < |aggs| ==> Label(aggs[i]) != column) ==> shown[column] == key)
  }

  ghost predicate ShowsCount(shown: Row, key: string, rows: seq<Row>, column: string, numbers: Numbers) {
    && (forall f :: f in shown <==> f == column || f == "count")
    && shown["count"] == numbers.showCount(CountOf(rows, column, key))
    && (column != "count" ==> shown[column] == key)
  }

  /** Each group by its own sum, when no two sums have one label. */
  lemma {:induction false} SumIsColumnSum(rows: seq<Row>, column: string, key: string, aggs: seq<Agg>, i: nat, f: string, stod: string -> real)
    requires i < |aggs| && DistinctLabels(aggs) && Names(aggs[i].field, f)
    ensures SumOf(RowsWith(rows, column, key), aggs, Label(aggs[i]), stod) == ColumnSum(rows, column, key, f, stod)
  {
    hide Contribution, Names;
    if rows != [] {
      var init, row := rows[..|rows| - 1], rows[|rows| - 1];
      SumIsColumnSum(init, column, key, aggs, i, f, stod);
      ContributionIs(row, aggs, i, f, stod);
      SumOfSnoc(RowsWith(init, column, key), row, aggs, Label(aggs[i]), stod);
      assert RowsWith(init, column, key) + [] == RowsWith(init, column, key);
      hide SumOf;
    }
  }

  lemma ContributionIs(row: Row, aggs: seq<Agg>, i: nat, f: string, stod: string -> real)
    requires i < |aggs| && DistinctLabels(aggs) && Names(aggs[i].field, f)
    ensures Contribution(row, aggs, Label(aggs[i]), stod) == stod(Cell(row, f))
  {
    hide Names, Unqualified;
    NamesIsUnqualified(aggs[i].field, f);
    OneContributes(row, aggs, |aggs|, i, stod);
    assert aggs[..|aggs|] == aggs;
  }

  lemma {:induction false} OneContributes(row: Row, aggs: seq<Agg>, n: nat, i: nat, stod: string -> real)
    requires n <= |aggs| && i < |aggs| && DistinctLabels(aggs)
    ensures Contribution(row, aggs[..n], Label(aggs[i]), stod) == if i < n then Amount(row, aggs[i], stod) else 0.0
  {
    hide Unqualified, Amount;
    if n > 0 {
      OneContributes(row, aggs, n - 1, i, stod);
      assert aggs[..n][..n - 1] == aggs[..n - 1];
    }
  }

  lemma {:induction false} CountIs(rows: seq<Row>, column: string, key: string)
    ensures |RowsWith(rows, column, key)| == CountOf(rows, column, key)
  {
    if rows != [] { CountIs(rows[..|rows| - 1], column, key); }
  }

  lemma KeysOfGroups<V>(groups: seq<Group<V>>, rows: seq<Row>, column: string) returns (keys: seq<string>)
    requires InOrder(groups) && KeySet(groups) == set r | r in rows :: Field(r, column)
    ensures |keys| == |groups| && KeysAre(keys, rows, column) && forall k :: 0 <= k < |keys| ==> keys[k] == groups[k].key
  {
    keys := seq(|groups|, k requires 0 <= k < |groups| => groups[k].key);
    forall i, j | 0 <= i < j < |keys| ensures Before(keys[i], keys[j]) { LessIsBefore(keys[i], keys[j]); }
    hide Less, Before;
    forall v ensures v in keys <==> exists i :: 0 <= i < |rows| && Cell(rows[i], column) == v {
      if v in keys { var k :| 0 <= k < |keys| && keys[k] == v; assert groups[k].key == v; }
      if v in KeySet(groups) { var k :| 0 <= k < |groups| && groups[k].key == v; assert keys[k] == v; }
      if v in KeySet(groups) {
        var r :| r in rows && Field(r, column) == v;
        var i :| 0 <= i < |rows| && rows[i] == r;
        assert Cell(rows[i], column) == v;
      }
      if i :| 0 <= i < |rows| && Cell(rows[i], column) == v { assert rows[i] in rows && Field(rows[i], column) == v; }
    }
  }

  lemma OrderAfterHead<V>(groups: seq<Group<V>>)
    requires InOrder(groups) && groups != []
    ensures InOrder(groups[1..])
  {
    hide Less;
  }

  lemma {:induction false} ValueOfGroup<V>(groups: seq<Group<V>>, k: nat, zero: V)
    requires InOrder(groups) && k < |groups|
    ensures ValueAt(groups, groups[k].key, zero) == groups[k].value
  {
    if k > 0 {
      LessIsStrict(groups[0].key, groups[k].key);
      OrderAfterHead(groups);
      hide Less, InOrder;
      ValueOfGroup(groups[1..], k - 1, zero);
    }
  }

  function LabelsOf(aggs: seq<Agg>): set<string> { set i | 0 <= i < |aggs| :: Label(aggs[i]) }

  predicate AllLabelled(groups: seq<Group<Sums>>, labels: set<string>) { forall k :: 0 <= k < |groups| ==> groups[k].value.Keys == labels }

  /** Every group has a sum under every label. */
  lemma {:induction false} LabelsOfGroups(rows: seq<Row>, column: string, aggs: seq<Agg>, stod: string -> real)
    ensures AllLabelled(Accumulate(rows, column, aggs, stod), LabelsOf(aggs))
  {
    hide AddAggs, LabelsOf, Field;
    if rows != [] {
      var init, row := rows[..|rows| - 1], rows[|rows| - 1];
      LabelsOfGroups(init, column, aggs, stod);
      forall sums: Sums | sums == map[] || sums.Keys == LabelsOf(aggs) ensures AddAggs(sums, row, aggs, stod).Keys == LabelsOf(aggs) {
        AddedLabels(sums, row, aggs, stod);
      }
      BumpLabels(Accumulate(init, column, aggs, stod), Field(row, column), sums => AddAggs(sums, row, aggs, stod), LabelsOf(aggs));
    }
  }

  lemma {:induction false} BumpLabels(groups: seq<Group<Sums>>, key: string, change: Sums -> Sums, labels: set<string>)
    requires AllLabelled(groups, labels)
    requires forall sums: Sums :: sums == map[] || sums.Keys == labels ==> change(sums).Keys == labels
    ensures AllLabelled(Bump(groups, key, map[], change), labels)
  {
    hide Less;
    if groups != [] && groups[0].key != key && !Less(key, groups[0].key) { BumpLabels(groups[1..], key, change, labels); }
  }

  lemma {:induction false} AddedLabels(sums: Sums, row: Row, aggs: seq<Agg>, stod: string -> real)
    ensures AddAggs(sums, row, aggs, stod).Keys == sums.Keys + LabelsOf(aggs)
  {
    hide Amount;
    if aggs != [] {
      var n := |aggs| - 1;
      AddedLabels(sums, row, aggs[..n], stod);
      LabelsOfLast(aggs);
      hide LabelsOf;
    }
  }

  lemma LabelsOfLast(aggs: seq<Agg>)
    requires aggs != []
    ensures LabelsOf(aggs) == LabelsOf(aggs[..|aggs| - 1]) + {Label(aggs[|aggs| - 1])}
  {
    hide Label;
    var n := |aggs| - 1;
    forall l ensures l in LabelsOf(aggs) <==> l in LabelsOf(aggs[..n]) + {Label(aggs[n])} {
      if i :| 0 <= i < |aggs| && Label(aggs[i]) == l { if i < n { assert Label(aggs[..n][i]) == l; } }
      if i :| 0 <= i < n && Label(aggs[..n][i]) == l { assert Label(aggs[i]) == l; }
    }
  }

  /** The rows of a grouped answer before SKIP and LIMIT. */
  ghost predicate ShowsGroups(out: seq<Row>, rows: seq<Row>, q: Query, numbers: Numbers) {
    exists keys: seq<string>, column: string :: Names(q.groupBy, column) && KeysAre(keys, rows, column) && |out| == |keys|
      && forall k :: 0 <= k < |keys|
           ==> if q.aggs != [] then ShowsSums(out[k], keys[k], rows, column, q.aggs, numbers)
               else ShowsCount(out[k], keys[k], rows, column, numbers)
  }

  lemma GroupsAreShown(q: Query, rows: seq<Row>, numbers: Numbers)
    requires q.groupBy != "" && DistinctLabels(q.aggs)
    ensures ShowsGroups(Shown(q, rows, numbers), rows, q, numbers)
  {
    var column := Unqualified(q.groupBy);
    NamesIsUnqualified(q.groupBy, column);
    hide Unqualified, Names, DistinctLabels, KeysAre;
    var out := Shown(q, rows, numbers);
    var keys: seq<string>;
    if q.aggs != [] {
      keys := SumsAreShown(q.aggs, rows, column, numbers);
    } else {
      keys := CountsAreShown(rows, column, numbers);
    }
  }

  lemma SumsAreShown(aggs: seq<Agg>, rows: seq<Row>, column: string, numbers: Numbers) returns (keys: seq<string>)
    requires DistinctLabels(aggs)
    ensures var accs := Accumulate(rows, column, aggs, numbers.stod);
            && |keys| == |accs| && KeysAre(keys, rows, column)
            && forall k :: 0 <= k < |keys| ==> ShowsSums(ShownSums(accs[k], column, numbers.showReal), keys[k], rows, column, aggs, numbers)
  {
    hide ShowsSums, ShownSums, KeysAre, DistinctLabels, Accumulate;
    var accs := Accumulate(rows, column, aggs, numbers.stod);
    GroupSum(rows, column, aggs, numbers.stod, "", "");
    keys := KeysOfGroups(accs, rows, column);
    LabelsOfGroups(rows, column, aggs, numbers.stod);
    forall k | 0 <= k < |keys| ensures ShowsSums(ShownSums(accs[k], column, numbers.showReal), keys[k], rows, column, aggs, numbers) {
      ValueOfGroup(accs, k, map[]);
      SumIsShown(accs[k], rows, column, aggs, numbers);
    }
  }

  lemma SumIsShown(group: Group<Sums>, rows: seq<Row>, column: string, aggs: seq<Agg>, numbers: Numbers)
    requires DistinctLabels(aggs) && group.value.Keys == LabelsOf(aggs)
    requires group.value == ValueAt(Accumulate(rows, column, aggs, numbers.stod), group.key, map[])
    ensures ShowsSums(ShownSums(group, column, numbers.showReal), group.key, rows, column, aggs, numbers)
  {
    hide Label, Names, Accumulate, ColumnSum, DistinctLabels;
    var shown := ShownSums(group, column, numbers.showReal);
    forall i, f | 0 <= i < |aggs| && Names(aggs[i].field, f)
      ensures shown[Label(aggs[i])] == numbers.showReal(ColumnSum(rows, column, group.key, f, numbers.stod))
    {
      GroupSum(rows, column, aggs, numbers.stod, group.key, Label(aggs[i]));
      SumIsColumnSum(rows, column, group.key, aggs, i, f, numbers.stod);
      assert Label(aggs[i]) in LabelsOf(aggs);
    }
  }

  lemma CountsAreShown(rows: seq<Row>, column: string, numbers: Numbers) returns (keys: seq<string>)
    ensures var groups := Tally(rows, column);
            && |keys| == |groups| && KeysAre(keys, rows, column)
            && forall k :: 0 <= k < |keys| ==> ShowsCount(ShownCount(groups[k], column, numbers.showCount), keys[k], rows, column, numbers)
  {
    hide KeysAre, Tally;
    var groups := Tally(rows, column);
    CountedKeys(rows, column);
    keys := KeysOfGroups(groups, rows, column);
    forall k | 0 <= k < |keys| ensures ShowsCount(ShownCount(groups[k], column, numbers.showCount), keys[k], rows, column, numbers) {
      ValueOfGroup(groups, k, 0);
      GroupCount(rows, column, keys[k]);
      CountIs(rows, column, keys[k]);
    }
  }

  // ---- A whole SELECT -----------------------------------------------------------------------------------------

  /** The joins one after the other. */
  ghost predicate JoinsAll(out: seq<Row>, base: seq<Row>, tables: Tables, joins: seq<Join>)
    decreases |joins|
  {
    if joins == [] then out == base
    else exists mid: seq<Row> ::
      Joins(mid, base, ContentsOf(tables, joins[0].rightTable), joins[0]) && JoinsAll(out, mid, tables, joins[1..])
  }

  lemma {:induction false} JoinAllMeans(tables: Tables, joins: seq<Join>, base: seq<Row>)
    ensures var r := JoinAll(tables, map[], joins, base); r.Some? && JoinsAll(r.value, base, tables, joins)
    decreases |joins|
  {
    hide JoinRows, Origins, Carries;
    if joins != [] {
      var from := JoinMeans(tables, joins[0], base);
      var mid := JoinRows(tables, map[], joins[0], base).value;
      assert Joins(mid, base, ContentsOf(tables, joins[0].rightTable), joins[0]);
      hide Joins;
      JoinAllMeans(tables, joins[1..], mid);
    }
  }

  /** The rows that the joins start from: of those that meet the table's own conditions, the piece that SKIP and LIMIT leave. */
  ghost predicate IsBaseOf(base: seq<Row>, t: Table, q: Query) {
    exists picks: seq<nat>, piece: seq<nat> :: Scans(t, q.table, q.conditions, picks) && IsPiece(piece, picks, q.skip, ScanLimit(q.limit))
                                               && RowsAt(base, t, piece)
  }

  predicate RowsAt(rows: seq<Row>, t: Table, piece: seq<nat>) {
    |rows| == |piece| && forall k :: 0 <= k < |rows| ==> piece[k] < |t| && rows[k] == t[piece[k]].row
  }

  /** Every row shown as the columns ask. */
  ghost predicate ShowsRows(out: seq<Row>, rows: seq<Row>, columns: seq<string>) {
    |out| == |rows| && forall k :: 0 <= k < |out| ==> if columns == ["*"] then out[k] == rows[k] else ShowsColumns(out[k], rows[k], columns)
  }

  predicate IsCut(q: Query) { q.joins != [] || q.groupBy != "" || q.isCount }

  /** What a SELECT answers: scan, joins, later conditions, rows or groups, and SKIP and LIMIT once more. */
  ghost predicate Answers(out: seq<Row>, tables: Tables, q: Query, numbers: Numbers) {
    exists base: seq<Row>, joined: seq<Row>, kept: seq<Row>, all: seq<Row> ::
      && IsBaseOf(base, ContentsOf(tables, q.table), q) && JoinsAll(joined, base, tables, q.joins)
      && Keeps(kept, joined, q.table, q.conditions)
      && (if q.groupBy == "" then ShowsRows(all, kept, q.selectCols) else ShowsGroups(all, kept, q, numbers))
      && (if IsCut(q) then IsPiece(out, all, q.skip, SliceLimit(q.limit)) else out == all)
  }

  lemma BaseIsBase(t: Table, q: Query)
    ensures IsBaseOf(RowsIn(Window(Filtered(t, BaseConditions(q.table, q.conditions)), q.skip, q.limit)), t, q)
  {
    hide Filtered, BaseConditions, Scans;
    var filtered := Filtered(t, BaseConditions(q.table, q.conditions));
    var picks := BaseMeans(t, q.table, q.conditions);
    var piece := Window(picks, q.skip, q.limit);
    WindowIsPiece(picks, q.skip, q.limit);
    WindowIsPiece(filtered, q.skip, q.limit);
    assert RowsAt(RowsIn(Window(filtered, q.skip, q.limit)), t, piece);
  }

  lemma RowsAreShown(q: Query, rows: seq<Row>, numbers: Numbers)
    requires q.groupBy == ""
    ensures ShowsRows(Shown(q, rows, numbers), rows, q.selectCols)
  {
    hide Unqualified, Names;
    if q.selectCols != ["*"] {
      forall k, c, f | 0 <= k < |rows| && c in q.selectCols && Names(c, f) ensures Projected(rows[k], q.selectCols)[c] == Cell(rows[k], f) {
        NamesIsUnqualified(c, f);
      }
    }
  }

  /** Without an index every SELECT answers so. */
  lemma SelectMeans(tables: Tables, q: Query, numbers: Numbers)
    requires DistinctLabels(q.aggs)
    ensures var r := Select(tables, map[], q, numbers); r.Some? && Answers(r.value, tables, q, numbers)
  {
    hide Filtered, BaseConditions, PostConditions, PostFilter, JoinAll, Window, Shown, Slice, KeptAt, IsBaseOf, JoinsAll, ShowsRows, ShowsGroups,
      IsPiece, DistinctLabels;
    var t := ContentsOf(tables, q.table);
    var base := RowsIn(Window(Filtered(t, BaseConditions(q.table, q.conditions)), q.skip, q.limit));
    BaseIsBase(t, q);
    JoinAllMeans(tables, q.joins, base);
    var joined := JoinAll(tables, map[], q.joins, base).value;
    var picks := KeepsMeans(joined, q.table, q.conditions);
    var kept := PostFilter(joined, PostConditions(q.table, q.conditions));
    assert Keeps(kept, joined, q.table, q.conditions);
    hide Keeps;
    if q.groupBy == "" { RowsAreShown(q, kept, numbers); } else { GroupsAreShown(q, kept, numbers); }
    SliceIsPiece(Shown(q, kept, numbers), q.skip, q.limit);
  }

  /** No index stands in for a scan, or every index is fresh and every row has the column it is joined on. */
  ghost predicate IndexesServe(tables: Tables, index: Index, joins: seq<Join>) {
    || index == map[]
    || (TablesFit(tables) && Fresh(tables, index)
        && forall i :: 0 <= i < |joins| ==> AllHave(ContentsOf(tables, joins[i].rightTable), joins[i].rightField))
  }

  lemma IndexedSelectMeans(tables: Tables, index: Index, q: Query, numbers: Numbers)
    ensures DistinctLabels(q.aggs) && IndexesServe(tables, index, q.joins)
            ==> var r := Select(tables, index, q, numbers); r.Some? && Answers(r.value, tables, q, numbers)
  {
    hide Answers, Answer, JoinAll, DistinctLabels, Filtered, Window, BaseConditions, PostFilter, PostConditions, TablesFit, Fresh;
    if DistinctLabels(q.aggs) && IndexesServe(tables, index, q.joins) {
      if index != map[] {
        IndexesAreTransparent(tables, index, q.joins,
                              RowsIn(Window(Filtered(ContentsOf(tables, q.table), BaseConditions(q.table, q.conditions)), q.skip, q.limit)));
      }
      SelectMeans(tables, q, numbers);
    }
  }

  /** A query of one table as it is read off the stored rows. */
  ghost predicate ListsTable(t: Table, q: Query, rows: seq<Row>) {
    && (q.skip == 0 && q.limit <= 0
        ==> exists picks: seq<nat> :: Selects(t, q.conditions, picks) && Lists(t, q, picks, rows))
    && (AllOf(q.table, q.conditions)
        ==> exists picks: seq<nat>, piece: seq<nat> ::
              Selects(t, q.conditions, picks) && IsPiece(piece, picks, q.skip, ScanLimit(q.limit)) && Lists(t, q, piece, rows))
  }

  lemma PlainAnswers(tables: Tables, index: Index, q: Query, numbers: Numbers)
    ensures Plain(q) ==> var r := Select(tables, index, q, numbers); r.Some? && ListsTable(ContentsOf(tables, q.table), q, r.value)
  {
    if Plain(q) {
      assert Select(tables, index, q, numbers).Some?;
      hide Select, Selects, Lists, IsPiece, AllOf;
      if q.skip == 0 && q.limit <= 0 { var picks := PlainSelectMeans(tables, index, q, numbers); }
      if AllOf(q.table, q.conditions) { var picks, piece := PlainPieceMeans(tables, index, q, numbers); }
    }
  }
}

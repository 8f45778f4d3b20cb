/** What SELECT means before ordering: scan, joins, the filter after them. */
module Selecting {
  import opened Bytes
  import opened Options
  import opened Database
  import opened Multimaps
  import opened Indexing

  datatype Join = Join(isLeft: bool, leftField: string, rightTable: string, rightField: string)

  type Tables = map<string, Table>

  function ContentsOf(tables: Tables, table: string): Table { if table in tables then tables[table] else [] }

  predicate TablesFit(tables: Tables) { forall t :: t in tables ==> Ascending(tables[t]) }

  // ---- Conditions -----------------------------------------------------------------------------------------

  /** The part after the first dot, or the whole key. */
  function Unqualified(key: string): string {
    var dot := Find(key, ".", 0);
    if dot == -1 then key else assert OccursAt(key, dot, "."); key[dot + 1..]
  }

  /** A condition on the base table: without a qualifier, or with the table's name as qualifier. */
  predicate IsBase(table: string, key: string) {
    var dot := Find(key, ".", 0);
    dot == -1 || key[..dot] == table
  }

  function BaseConditions(table: string, conditions: seq<Condition>): seq<Condition> {
    if conditions == [] then []
    else
      var c := conditions[|conditions| - 1];
      BaseConditions(table, conditions[..|conditions| - 1])
      + (if IsBase(table, c.key) then [c.(key := Unqualified(c.key))] else [])
  }

  function PostConditions(table: string, conditions: seq<Condition>): seq<Condition> {
    if conditions == [] then []
    else
      var c := conditions[|conditions| - 1];
      PostConditions(table, conditions[..|conditions| - 1]) + (if IsBase(table, c.key) then [] else [c])
  }

  // ---- Joins ----------------------------------------------------------------------------------------------

  /** map::insert of a range: what the left row has, wins. */
  function Merged(row: Row, right: Row): Row { right + row }

  /** row[field] as a map access leaves the row. */
  function Touched(row: Row, field: string): Row { if field in row then row else row[field := ""] }

  /** The full-scan branch: every right row whose field, or "", is the value. */
  function ScanMatches(right: Table, field: string, value: string, row: Row): seq<Row> {
    if right == [] then []
    else
      var last := right[|right| - 1].row;
      ScanMatches(right[..|right| - 1], field, value, row)
      + (if Field(last, field) == value then [Merged(row, Touched(last, field))] else [])
  }

  /** The index branch: the rows of these entries; None where reading a row that is gone throws. */
  function IndexMatches(range: Multimap, right: Table, row: Row): Option<seq<Row>> {
    if range == [] then Some([])
    else
      var stored := GetRow(right, range[|range| - 1].key);
      Cat(IndexMatches(range[..|range| - 1], right, row), if stored.None? then None else Some([Merged(row, stored.value)]))
  }

  function Cat(a: Option<seq<Row>>, b: Option<seq<Row>>): Option<seq<Row>> {
    if a.Some? && b.Some? then Some(a.value + b.value) else None
  }

  function Matches(tables: Tables, index: Index, j: Join, row: Row): Option<seq<Row>> {
    var value := Field(row, j.leftField);
    var right := ContentsOf(tables, j.rightTable);
    if HasIndex(index, j.rightTable, j.rightField)
    then IndexMatches(Range(Entries(index, j.rightTable, j.rightField), value), right, row)
    else Some(ScanMatches(right, j.rightField, value, row))
  }

  /** A left row's extensions; a LEFT join keeps the row itself when there is none. */
  function JoinRow(tables: Tables, index: Index, j: Join, row: Row): Option<seq<Row>> {
    var m := Matches(tables, index, j, row);
    if m == Some([]) && j.isLeft then Some([row]) else m
  }

  function JoinRows(tables: Tables, index: Index, j: Join, rows: seq<Row>): Option<seq<Row>> {
    if rows == [] then Some([])
    else
      Cat(JoinRows(tables, index, j, rows[..|rows| - 1]), JoinRow(tables, index, j, rows[|rows| - 1]))
  }

  function JoinAll(tables: Tables, index: Index, joins: seq<Join>, rows: seq<Row>): Option<seq<Row>> {
    if joins == [] then Some(rows)
    else
      var joined := JoinRows(tables, index, joins[0], rows);
      if joined.None? then None else JoinAll(tables, index, joins[1..], joined.value)
  }

  // ---- The filter after the joins ---------------------------------------------------------------------------

  /** A row as row[key] of every condition leaves it. */
  function TouchedAll(row: Row, conditions: seq<Condition>): Row {
    if conditions == [] then row
    else Touched(TouchedAll(row, conditions[..|conditions| - 1]), Unqualified(conditions[|conditions| - 1].key))
  }

  predicate PassesPost(row: Row, conditions: seq<Condition>) {
    forall i :: 0 <= i < |conditions|
      ==> Holds(Field(row, Unqualified(conditions[i].key)), conditions[i].op, conditions[i].value)
  }

  function PostFilter(rows: seq<Row>, conditions: seq<Condition>): seq<Row> {
    if rows == [] then []
    else
      var last := rows[|rows| - 1];
      PostFilter(rows[..|rows| - 1], conditions)
      + (if PassesPost(last, conditions) then [TouchedAll(last, conditions)] else [])
  }

  lemma {:induction false} PostFilterAppend(a: seq<Row>, b: seq<Row>, conditions: seq<Condition>)
    ensures PostFilter(a + b, conditions) == PostFilter(a, conditions) + PostFilter(b, conditions)
  {
    hide PassesPost, TouchedAll;
    if b == [] {
      assert a + b == a;
    } else {
      PostFilterAppend(a, b[..|b| - 1], conditions);
      assert (a + b)[..|a + b| - 1] == a + b[..|b| - 1];
    }
  }

  function RowsIn(t: Table): seq<Row> { seq(|t|, i requires 0 <= i < |t| => t[i].row) }

  /** The rows a query works on before grouping and projecting. */
  function Joined(tables: Tables, index: Index, table: string, conditions: seq<Condition>, joins: seq<Join>, skip: int, limit: int)
    : Option<seq<Row>>
  {
    var base := RowsIn(Window(Filtered(ContentsOf(tables, table), BaseConditions(table, conditions)), skip, limit));
    var joined := JoinAll(tables, index, joins, base);
    if joined.None? then None else Some(PostFilter(joined.value, PostConditions(table, conditions)))
  }

  // ---- LEFT and INNER -----------------------------------------------------------------------------------------

  function Max(a: nat, b: nat): nat { if a < b then b else a }

  /** How many rows a join makes of each left row, summed. */
  function Extensions(tables: Tables, index: Index, j: Join, rows: seq<Row>): nat {
    if rows == [] then 0
    else
      var m := Matches(tables, index, j, rows[|rows| - 1]);
      Extensions(tables, index, j, rows[..|rows| - 1])
      + (if m.None? then 0 else if j.isLeft then Max(1, |m.value|) else |m.value|)
  }

  /** A LEFT join makes max(1, matches) rows of each left row, an INNER join as many as it matches. */
  lemma {:induction false} JoinSize(tables: Tables, index: Index, j: Join, rows: seq<Row>)
    requires JoinRows(tables, index, j, rows).Some?
    ensures |JoinRows(tables, index, j, rows).value| == Extensions(tables, index, j, rows)
    ensures j.isLeft ==> |JoinRows(tables, index, j, rows).value| >= |rows|
  {
    if rows != [] {
      JoinSize(tables, index, j, rows[..|rows| - 1]);
    }
  }

  /** Every extension has the left row's values. */
  lemma {:induction false} ScanKeepsLeft(right: Table, field: string, value: string, row: Row)
    ensures forall r :: r in ScanMatches(right, field, value, row) ==> forall f :: f in row ==> f in r && r[f] == row[f]
  {
    if right != [] { ScanKeepsLeft(right[..|right| - 1], field, value, row); }
  }

  lemma {:induction false} IndexKeepsLeft(range: Multimap, right: Table, row: Row)
    requires IndexMatches(range, right, row).Some?
    ensures forall r :: r in IndexMatches(range, right, row).value ==> forall f :: f in row ==> f in r && r[f] == row[f]
  {
    if range != [] { IndexKeepsLeft(range[..|range| - 1], right, row); }
  }

  lemma JoinKeepsLeft(tables: Tables, index: Index, j: Join, row: Row)
    requires JoinRow(tables, index, j, row).Some?
    ensures forall r :: r in JoinRow(tables, index, j, row).value ==> forall f :: f in row ==> f in r && r[f] == row[f]
  {
    var value, right := Field(row, j.leftField), ContentsOf(tables, j.rightTable);
    if HasIndex(index, j.rightTable, j.rightField) {
      IndexKeepsLeft(Range(Entries(index, j.rightTable, j.rightField), value), right, row);
    } else {
      ScanKeepsLeft(right, j.rightField, value, row);
    }
  }

  // ---- The index branch against the scan branch -----------------------------------------------------------------

  predicate AllHave(t: Table, field: string) { forall i :: 0 <= i < |t| ==> field in t[i].row }

  /** The rows of a value through a rebuilt index. */
  function ThroughIndex(right: Table, field: string, value: string, row: Row): Option<seq<Row>> {
    IndexMatches(Range(Rebuilt(right, field), value), right, row)
  }

  /** The same rows by scanning, had the scan left out rows without the field. */
  function PresentMatches(right: Table, field: string, value: string, row: Row): seq<Row> {
    if right == [] then []
    else
      var last := right[|right| - 1].row;
      PresentMatches(right[..|right| - 1], field, value, row)
      + (if field in last && last[field] == value then [Merged(row, last)] else [])
  }

  lemma IndexMatchesSnoc(range: Multimap, p: Pair, right: Table, row: Row)
    ensures IndexMatches(range + [p], right, row)
            == Cat(IndexMatches(range, right, row),
                   if GetRow(right, p.key).None? then None else Some([Merged(row, GetRow(right, p.key).value)]))
  {
    assert (range + [p])[..|range|] == range;
  }

  lemma PairsStep(right: Table, field: string, value: string, n: nat)
    requires n < |right|
    ensures var before, e := PairsOf(right[..n], field, value), right[n];
            PairsOf(right[..n + 1], field, value)
            == if field in e.row && e.row[field] == value then before + [Pair(value, e.key)] else before
  {
    assert right[..n + 1][..n] == right[..n];
    assert PairsOf(right[..n], field, value) + [] == PairsOf(right[..n], field, value);
  }

  lemma PresentStep(right: Table, field: string, value: string, row: Row, n: nat)
    requires n < |right|
    ensures var before, e := PresentMatches(right[..n], field, value, row), right[n];
            PresentMatches(right[..n + 1], field, value, row)
            == if field in e.row && e.row[field] == value then before + [Merged(row, e.row)] else before
  {
    assert right[..n + 1][..n] == right[..n];
    assert PresentMatches(right[..n], field, value, row) + [] == PresentMatches(right[..n], field, value, row);
  }

  lemma {:induction false} PairsGiveRows(right: Table, field: string, value: string, row: Row, n: nat)
    requires Ascending(right) && n <= |right|
    ensures IndexMatches(PairsOf(right[..n], field, value), right, row) == Some(PresentMatches(right[..n], field, value, row))
  {
    if n == 0 {
      assert right[..0] == [];
    } else {
      hide *;
      var m := n - 1;
      PairsGiveRows(right, field, value, row, m);
      PairsStep(right, field, value, m);
      PresentStep(right, field, value, row, m);
      GetRowAt(right, m);
      var before, rows := PairsOf(right[..m], field, value), PresentMatches(right[..m], field, value, row);
      if field in right[m].row && right[m].row[field] == value {
        IndexMatchesSnoc(before, Pair(value, right[m].key), right, row);
        CatOne(rows, Merged(row, right[m].row));
      }
    }
  }

  lemma CatOne(rows: seq<Row>, row: Row)
    ensures Cat(Some(rows), Some([row])) == Some(rows + [row])
  {}

  /** The index gives the rows that have the field at the value, in key order. */
  lemma IndexGivesPresent(right: Table, field: string, value: string, row: Row)
    requires Ascending(right)
    ensures ThroughIndex(right, field, value, row) == Some(PresentMatches(right, field, value, row))
  {
    RangeOfRebuilt(right, field, value);
    PairsGiveRows(right, field, value, row, |right|);
    assert right[..|right|] == right;
  }

  lemma {:induction false} ScanAgainstPresent(right: Table, field: string, value: string, row: Row)
    ensures value != "" || AllHave(right, field)
            ==> ScanMatches(right, field, value, row) == PresentMatches(right, field, value, row)
    ensures |ScanMatches(right, field, value, row)| >= |PresentMatches(right, field, value, row)|
    ensures value == "" && !AllHave(right, field)
            ==> |ScanMatches(right, field, value, row)| > |PresentMatches(right, field, value, row)|
  {
    if right != [] {
      var part := right[..|right| - 1];
      ScanAgainstPresent(part, field, value, row);
      assert AllHave(right, field) ==> AllHave(part, field);
      if !AllHave(right, field) && field in right[|right| - 1].row {
        var i :| 0 <= i < |right| && field !in right[i].row;
        assert part[i] == right[i];
      }
    }
  }

  /**
   * The two branches of a join agree, row for row and in order, exactly when the value is not empty or every right row
   * has the field.
   */
  lemma IndexAgreesWithScanIff(right: Table, field: string, value: string, row: Row)
    requires Ascending(right)
    ensures ThroughIndex(right, field, value, row) == Some(ScanMatches(right, field, value, row))
            <==> value != "" || AllHave(right, field)
  {
    IndexGivesPresent(right, field, value, row);
    ScanAgainstPresent(right, field, value, row);
  }

  /** Every index is as a rebuild over the present tables leaves it. */
  ghost predicate Fresh(tables: Tables, index: Index) {
    forall t, f :: HasIndex(index, t, f) ==> Entries(index, t, f) == Rebuilt(ContentsOf(tables, t), f)
  }

  predicate Joinable(tables: Tables, j: Join, row: Row) {
    Field(row, j.leftField) != "" || AllHave(ContentsOf(tables, j.rightTable), j.rightField)
  }

  /** With fresh indexes a join gives what it would give without any. */
  lemma {:induction false} IndexIsTransparent(tables: Tables, index: Index, j: Join, rows: seq<Row>)
    requires TablesFit(tables) && Fresh(tables, index) && forall i :: 0 <= i < |rows| ==> Joinable(tables, j, rows[i])
    ensures JoinRows(tables, index, j, rows) == JoinRows(tables, map[], j, rows)
  {
    hide Rebuilt, ScanMatches, IndexMatches, Range, AllHave;
    if rows != [] {
      var row := rows[|rows| - 1];
      IndexIsTransparent(tables, index, j, rows[..|rows| - 1]);
      IndexAgreesWithScanIff(ContentsOf(tables, j.rightTable), j.rightField, Field(row, j.leftField), row);
    }
  }

  /** Whole queries: where every right row has the joined field, fresh indexes change nothing and no join fails. */
  lemma {:induction false} IndexesAreTransparent(tables: Tables, index: Index, joins: seq<Join>, rows: seq<Row>)
    requires TablesFit(tables) && Fresh(tables, index)
    requires forall i :: 0 <= i < |joins| ==> AllHave(ContentsOf(tables, joins[i].rightTable), joins[i].rightField)
    ensures JoinAll(tables, index, joins, rows) == JoinAll(tables, map[], joins, rows)
    ensures JoinAll(tables, map[], joins, rows).Some?
  {
    if joins != [] {
      assert joins[0] == joins[0];
      IndexIsTransparent(tables, index, joins[0], rows);
      ScanNeverFails(tables, joins[0], rows);
      IndexesAreTransparent(tables, index, joins[1..], JoinRows(tables, index, joins[0], rows).value);
    }
  }

  lemma {:induction false} ScanNeverFails(tables: Tables, j: Join, rows: seq<Row>)
    ensures JoinRows(tables, map[], j, rows).Some?
  {
    if rows != [] { ScanNeverFails(tables, j, rows[..|rows| - 1]); }
  }
}

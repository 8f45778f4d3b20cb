/** Filtering the base table before the joins instead of filtering their result. */
module Pushdown {
  import opened Bytes
  import opened Options
  import opened Database
  import opened Multimaps
  import opened Indexing
  import opened Selecting

  function FilterRows(rows: seq<Row>, conditions: seq<Condition>): seq<Row> {
    if rows == [] then []
    else FilterRows(rows[..|rows| - 1], conditions) + (if Passes(rows[|rows| - 1], conditions) then [rows[|rows| - 1]] else [])
  }

  lemma {:induction false} FilterAppend(a: seq<Row>, b: seq<Row>, conditions: seq<Condition>)
    ensures FilterRows(a + b, conditions) == FilterRows(a, conditions) + FilterRows(b, conditions)
  {
    hide Passes;
    if b == [] {
      assert a + b == a;
    } else {
      var init, row := b[..|b| - 1], b[|b| - 1];
      FilterAppend(a, init, conditions);
      assert b == init + [row] && a + b == (a + init) + [row];
      hide FilterRows;
      FilterSnoc(init, row, conditions);
      FilterSnoc(a + init, row, conditions);
    }
  }

  lemma FilterSnoc(rows: seq<Row>, row: Row, conditions: seq<Condition>)
    ensures FilterRows(rows + [row], conditions) == FilterRows(rows, conditions) + (if Passes(row, conditions) then [row] else [])
  {
    assert (rows + [row])[..|rows|] == rows;
  }

  lemma {:induction false} FilterUniform(rows: seq<Row>, conditions: seq<Condition>, pass: bool)
    requires forall i :: 0 <= i < |rows| ==> Passes(rows[i], conditions) == pass
    ensures FilterRows(rows, conditions) == if pass then rows else []
  {
    hide Passes;
    if rows != [] {
      var init, row := rows[..|rows| - 1], rows[|rows| - 1];
      assert init + [row] == rows;
      FilterUniform(init, conditions, pass);
      hide FilterRows;
      FilterSnoc(init, row, conditions);
    }
  }

  /** A condition whose truth does not depend on the left-hand side. */
  predicate Constant(op: string, value: string) {
    op !in ["=", "!=", "<", ">", "<=", ">=", "LIKE"] || (value == "" && op in ["<", ">=", "LIKE"])
  }

  /** A left-hand side on which a condition differs from what it says of the empty string. */
  function Deciding(op: string, value: string): string {
    if op == ">" || op == "<=" then (if value == "" then "a" else value + "a") else if value == "" then "a" else value
  }

  lemma {:induction false} LessThanLonger(s: string)
    ensures Less(s, s + "a") && !Less(s + "a", s)
  {
    if s == "" {
    } else {
      LessThanLonger(s[1..]);
      assert (s + "a")[1..] == s[1..] + "a";
    }
  }

  lemma ConstantHolds(a: string, b: string, op: string, value: string)
    requires Constant(op, value)
    ensures Holds(a, op, value) == Holds(b, op, value)
  {
    if op == "LIKE" {
      assert OccursAt(a, 0, "") && OccursAt(b, 0, "");
    }
  }

  lemma DecidingDecides(op: string, value: string)
    requires !Constant(op, value)
    ensures Holds(Deciding(op, value), op, value) != Holds("", op, value)
  {
    LessIsIrreflexive(value);
    LessThanLonger(value);
    if op == "LIKE" {
      assert OccursAt(value, 0, value);
      assert !OccursAt("", 0, value);
    }
  }

  /** A row carries what a condition tests, or the condition does not care. */
  predicate Settles(row: Row, c: Condition) { c.key in row || Constant(c.op, c.value) }

  predicate SettlesAll(row: Row, conditions: seq<Condition>) {
    forall i :: 0 <= i < |conditions| ==> Settles(row, conditions[i])
  }

  lemma ExtensionPasses(row: Row, extended: Row, conditions: seq<Condition>)
    requires SettlesAll(row, conditions) && forall f :: f in row ==> f in extended && extended[f] == row[f]
    ensures Passes(extended, conditions) == Passes(row, conditions) && SettlesAll(extended, conditions)
  {
    forall i | 0 <= i < |conditions|
      ensures Settles(extended, conditions[i])
      ensures Holds(Field(extended, conditions[i].key), conditions[i].op, conditions[i].value)
              == Holds(Field(row, conditions[i].key), conditions[i].op, conditions[i].value)
    {
      var c := conditions[i];
      assert Settles(row, c);
      if c.key !in row { ConstantHolds(Field(extended, c.key), Field(row, c.key), c.op, c.value); }
    }
  }

  lemma {:induction false} FilterThenJoin(tables: Tables, index: Index, j: Join, rows: seq<Row>, conditions: seq<Condition>)
    requires JoinRows(tables, index, j, rows).Some?
    requires forall r :: r in rows ==> SettlesAll(r, conditions)
    ensures JoinRows(tables, index, j, FilterRows(rows, conditions))
            == Some(FilterRows(JoinRows(tables, index, j, rows).value, conditions))
    ensures forall r :: r in JoinRows(tables, index, j, rows).value ==> SettlesAll(r, conditions)
  {
    hide JoinRow, SettlesAll, Passes;
    if rows != [] {
      var init, row := rows[..|rows| - 1], rows[|rows| - 1];
      assert init + [row] == rows;
      FilterThenJoin(tables, index, j, init, conditions);
      hide FilterRows, JoinRows;
      JoinSnoc(tables, index, j, init, row);
      FilterSnoc(init, row, conditions);
      JoinSnoc(tables, index, j, FilterRows(init, conditions), row);
      var before, made := JoinRows(tables, index, j, init).value, JoinRow(tables, index, j, row).value;
      JoinKeepsLeft(tables, index, j, row);
      forall r | r in made ensures Passes(r, conditions) == Passes(row, conditions) && SettlesAll(r, conditions) {
        ExtensionPasses(row, r, conditions);
      }
      FilterUniform(made, conditions, Passes(row, conditions));
      FilterAppend(before, made, conditions);
      assert FilterRows(init, conditions) + [] == FilterRows(init, conditions);
      assert FilterRows(before, conditions) + [] == FilterRows(before, conditions);
    }
  }

  lemma JoinSnoc(tables: Tables, index: Index, j: Join, rows: seq<Row>, row: Row)
    ensures JoinRows(tables, index, j, rows + [row]) == Cat(JoinRows(tables, index, j, rows), JoinRow(tables, index, j, row))
  {
    assert (rows + [row])[..|rows|] == rows;
  }

  /** Filtering first and joining after is joining first and filtering after, for any list of INNER and LEFT joins. */
  lemma {:induction false} FilterThenJoinAll(tables: Tables, index: Index, joins: seq<Join>, rows: seq<Row>, conditions: seq<Condition>)
    requires JoinAll(tables, index, joins, rows).Some?
    requires forall r :: r in rows ==> SettlesAll(r, conditions)
    ensures JoinAll(tables, index, joins, FilterRows(rows, conditions))
            == Some(FilterRows(JoinAll(tables, index, joins, rows).value, conditions))
    decreases |joins|
  {
    if joins != [] {
      FilterThenJoin(tables, index, joins[0], rows, conditions);
      FilterThenJoinAll(tables, index, joins[1..], JoinRows(tables, index, joins[0], rows).value, conditions);
    }
  }

  lemma {:induction false} FilteredRows(t: Table, conditions: seq<Condition>)
    ensures RowsIn(Filtered(t, conditions)) == FilterRows(RowsIn(t), conditions)
  {
    if t != [] {
      var n := |t| - 1;
      FilteredRows(t[..n], conditions);
      assert RowsIn(t)[..n] == RowsIn(t[..n]);
      assert RowsIn(Filtered(t[..n], conditions) + [t[n]]) == RowsIn(Filtered(t[..n], conditions)) + [t[n].row];
    }
  }

  /**
   * A query without SKIP and LIMIT gives what joining the whole base table and filtering afterwards by all its conditions
   * would, when the base rows carry the tested columns.
   */
  lemma PushdownPreserves(tables: Tables, index: Index, table: string, conditions: seq<Condition>, joins: seq<Join>, skip: int, limit: int)
    requires skip <= 0 && limit <= 0
    requires JoinAll(tables, index, joins, RowsIn(ContentsOf(tables, table))).Some?
    requires forall i :: 0 <= i < |ContentsOf(tables, table)|
                         ==> SettlesAll(ContentsOf(tables, table)[i].row, BaseConditions(table, conditions))
    ensures Joined(tables, index, table, conditions, joins, skip, limit)
            == Some(PostFilter(FilterRows(JoinAll(tables, index, joins, RowsIn(ContentsOf(tables, table))).value,
                                          BaseConditions(table, conditions)),
                               PostConditions(table, conditions)))
  {
    hide Filtered, FilterRows, SettlesAll, BaseConditions, PostConditions, JoinAll, PostFilter;
    var t, base := ContentsOf(tables, table), BaseConditions(table, conditions);
    FilteredRows(t, base);
    FilterThenJoinAll(tables, index, joins, RowsIn(t), base);
  }

  // ---- Exactly when --------------------------------------------------------------------------------------------

  ghost predicate Agrees(tables: Tables, index: Index, joins: seq<Join>, rows: seq<Row>, c: Condition) {
    JoinAll(tables, index, joins, rows).Some?
    ==> JoinAll(tables, index, joins, FilterRows(rows, [c])) == Some(FilterRows(JoinAll(tables, index, joins, rows).value, [c]))
  }

  /**
   * For one condition, filtering before agrees with filtering after whatever is joined, exactly when every row carries
   * the tested column or the condition does not depend on it.
   */
  lemma PushdownIff(rows: seq<Row>, c: Condition)
    ensures (forall tables, index, joins :: Agrees(tables, index, joins, rows, c)) <==> (forall r :: r in rows ==> Settles(r, c))
  {
    if forall r :: r in rows ==> Settles(r, c) {
      forall tables, index, joins ensures Agrees(tables, index, joins, rows, c) {
        if JoinAll(tables, index, joins, rows).Some? {
          FilterThenJoinAll(tables, index, joins, rows, [c]);
        }
      }
    } else {
      var k :| 0 <= k < |rows| && !Settles(rows[k], c);
      Disagrees(rows, c, k);
    }
  }

  // The witness: a table of one row, which joins on a field of its own and supplies the tested column.

  function WitnessRow(c: Condition, value: string): Row { map[c.key + "x" := value, c.key := Deciding(c.op, c.value)] }

  function WitnessTables(c: Condition, value: string): Tables { map["" := [Entry("", WitnessRow(c, value))]] }

  function WitnessJoin(c: Condition): Join { Join(false, "", "", c.key + "x") }

  function Extended(rows: seq<Row>, c: Condition, value: string): seq<Row> {
    if rows == [] then []
    else
      var last := rows[|rows| - 1];
      Extended(rows[..|rows| - 1], c, value) + (if Field(last, "") == value then [Merged(last, WitnessRow(c, value))] else [])
  }

  lemma WitnessOne(row: Row, c: Condition, value: string)
    ensures JoinRow(WitnessTables(c, value), map[], WitnessJoin(c), row)
            == Some(if Field(row, "") == value then [Merged(row, WitnessRow(c, value))] else [])
  {
    var only, field := WitnessRow(c, value), c.key + "x";
    var right := [Entry("", only)];
    assert |field| != |c.key|;
    assert field in only && only[field] == value;
    ScanOne(right, field, Field(row, ""), row);
    assert ContentsOf(WitnessTables(c, value), "") == right;
    var j := WitnessJoin(c);
    assert Matches(WitnessTables(c, value), map[], j, row) == Some(ScanMatches(right, field, Field(row, ""), row));
  }

  lemma ScanOne(right: Table, field: string, value: string, row: Row)
    requires |right| == 1 && field in right[0].row
    ensures ScanMatches(right, field, value, row) == if right[0].row[field] == value then [Merged(row, right[0].row)] else []
  {
    assert right[..0] == [];
  }

  lemma {:induction false} WitnessAll(rows: seq<Row>, c: Condition, value: string)
    ensures JoinRows(WitnessTables(c, value), map[], WitnessJoin(c), rows) == Some(Extended(rows, c, value))
  {
    hide JoinRow, WitnessTables, WitnessJoin, WitnessRow;
    if rows != [] {
      WitnessAll(rows[..|rows| - 1], c, value);
      WitnessOne(rows[|rows| - 1], c, value);
    }
  }

  lemma PassesOne(row: Row, c: Condition)
    ensures Passes(row, [c]) == Holds(Field(row, c.key), c.op, c.value)
  {
    assert [c][0] == c;
  }

  lemma {:induction false} AllPass(rows: seq<Row>, c: Condition)
    ensures forall r :: r in FilterRows(rows, [c]) ==> Passes(r, [c])
  {
    if rows != [] { AllPass(rows[..|rows| - 1], c); }
  }

  lemma ExtendedSnoc(rows: seq<Row>, row: Row, c: Condition, value: string)
    ensures Extended(rows + [row], c, value)
            == Extended(rows, c, value) + (if Field(row, "") == value then [Merged(row, WitnessRow(c, value))] else [])
  {
    assert (rows + [row])[..|rows|] == rows;
  }

  lemma WitnessTells(row: Row, c: Condition, value: string)
    requires !Constant(c.op, c.value)
    ensures Passes(row, [c]) == Holds(Field(row, c.key), c.op, c.value)
    ensures c.key in row ==> Passes(Merged(row, WitnessRow(c, value)), [c]) == Passes(row, [c])
    ensures c.key !in row ==> Passes(row, [c]) == Holds("", c.op, c.value)
    ensures c.key !in row ==> Passes(Merged(row, WitnessRow(c, value)), [c]) == !Holds("", c.op, c.value)
  {
    hide Holds;
    var made := Merged(row, WitnessRow(c, value));
    PassesOne(row, c);
    PassesOne(made, c);
    DecidingDecides(c.op, c.value);
    assert c.key in row ==> Field(made, c.key) == Field(row, c.key);
    assert c.key !in row ==> Field(made, c.key) == Deciding(c.op, c.value);
  }

  /** If the empty string passes, filtering first lets the row through, and its extension fails the condition. */
  lemma {:induction false} FailsThrough(rows: seq<Row>, c: Condition, k: nat)
    requires k < |rows| && !Settles(rows[k], c) && Holds("", c.op, c.value)
    ensures Merged(rows[k], WitnessRow(c, Field(rows[k], ""))) in Extended(FilterRows(rows, [c]), c, Field(rows[k], ""))
    ensures !Passes(Merged(rows[k], WitnessRow(c, Field(rows[k], ""))), [c])
  {
    hide Holds, Passes, Merged, WitnessRow, Field;
    var value := Field(rows[k], "");
    WitnessTells(rows[k], c, value);
    var init, row := rows[..|rows| - 1], rows[|rows| - 1];
    assert init + [row] == rows;
    if k < |init| {
      FailsThrough(init, c, k);
    }
    hide FilterRows, Extended;
    FilterSnoc(init, row, [c]);
    ExtendedSnoc(FilterRows(init, [c]), row, c, value);
    assert FilterRows(init, [c]) + [] == FilterRows(init, [c]);
  }

  /** If the empty string fails, filtering first loses the row, and its extension would have passed. */
  lemma {:induction false} LosesOne(rows: seq<Row>, c: Condition, value: string, k: int)
    requires !Constant(c.op, c.value) && !Holds("", c.op, c.value)
    requires 0 <= k < |rows| ==> c.key !in rows[k] && Field(rows[k], "") == value
    ensures |Extended(FilterRows(rows, [c]), c, value)| <= |FilterRows(Extended(rows, c, value), [c])|
    ensures 0 <= k < |rows| ==> |Extended(FilterRows(rows, [c]), c, value)| < |FilterRows(Extended(rows, c, value), [c])|
  {
    hide Holds, Passes, Merged, WitnessRow, Field;
    if rows != [] {
      var init, row := rows[..|rows| - 1], rows[|rows| - 1];
      assert init + [row] == rows;
      LosesOne(init, c, value, k);
      hide FilterRows, Extended;
      WitnessTells(row, c, value);
      FilterSnoc(init, row, [c]);
      ExtendedSnoc(init, row, c, value);
      ExtendedSnoc(FilterRows(init, [c]), row, c, value);
      FilterSnoc(Extended(init, c, value), Merged(row, WitnessRow(c, value)), [c]);
      assert FilterRows(init, [c]) + [] == FilterRows(init, [c]) && Extended(init, c, value) + [] == Extended(init, c, value);
    }
  }

  /** A row without the column that the condition depends on: this join tells filtering first from filtering after. */
  lemma Disagrees(rows: seq<Row>, c: Condition, k: nat)
    requires k < |rows| && !Settles(rows[k], c)
    ensures !Agrees(WitnessTables(c, Field(rows[k], "")), map[], [WitnessJoin(c)], rows, c)
  {
    var value := Field(rows[k], "");
    var tables, j := WitnessTables(c, value), WitnessJoin(c);
    WitnessAll(rows, c, value);
    WitnessAll(FilterRows(rows, [c]), c, value);
    assert [j][1..] == [];
    assert JoinAll(tables, map[], [j], rows) == Some(Extended(rows, c, value));
    assert JoinAll(tables, map[], [j], FilterRows(rows, [c])) == Some(Extended(FilterRows(rows, [c]), c, value));
    if Holds("", c.op, c.value) {
      FailsThrough(rows, c, k);
      AllPass(Extended(rows, c, value), c);
    } else {
      LosesOne(rows, c, value, k);
    }
  }
}

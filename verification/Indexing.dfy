/** IndexManager: value-to-key multimaps beside the tables. */
module Indexing {
  import opened Bytes
  import opened Options
  import opened Database
  import opened Multimaps

  /** The indexed fields of a table, as SchemaManager keeps them. */
  datatype Schema = Schema(table: string, fields: seq<string>)

  predicate Distinct<T(==)>(s: seq<T>) { forall i, j :: 0 <= i < j < |s| ==> s[i] != s[j] }

  predicate SchemasFit(schemas: seq<Schema>) {
    && (forall i, j :: 0 <= i < j < |schemas| ==> schemas[i].table != schemas[j].table)
    && forall i :: 0 <= i < |schemas| ==> Distinct(schemas[i].fields)
  }

  /** The indexed fields of a table; None where getSchema throws. */
  function FieldsOf(schemas: seq<Schema>, table: string): Option<seq<string>> {
    if schemas == [] then None
    else if schemas[0].table == table then Some(schemas[0].fields)
    else FieldsOf(schemas[1..], table)
  }

  type Index = map<string, map<string, Multimap>>

  function Entries(index: Index, table: string, field: string): Multimap {
    if table in index && field in index[table] then index[table][field] else []
  }

  predicate HasIndex(index: Index, table: string, field: string) { table in index && field in index[table] }

  /** index[table][field], with the two operator[] creating what is missing. */
  function With(index: Index, table: string, field: string, m: Multimap): Index {
    index[table := (if table in index then index[table] else map[])[field := m]]
  }

  /** b differs from a in the given fields of one table only. */
  ghost predicate SameElsewhere(a: Index, b: Index, table: string, fields: seq<string>) {
    forall t, f :: t != table || f !in fields ==> Entries(b, t, f) == Entries(a, t, f) && HasIndex(b, t, f) == HasIndex(a, t, f)
  }

  lemma ElsewhereStep(a: Index, b: Index, c: Index, table: string, fields: seq<string>, i: nat)
    requires i < |fields| && SameElsewhere(a, b, table, fields) && SameElsewhere(b, c, table, [fields[i]])
    ensures SameElsewhere(a, c, table, fields)
  {
    assert forall f :: f !in fields ==> f !in [fields[i]];
  }

  /** Some fields done, the others still as they should have been before. */
  ghost predicate Halfway(index: Index, table: string, fields: seq<string>, i: nat, before: map<string, Row>, after: map<string, Row>)
    requires i <= |fields|
  {
    && Coherent(index, table, fields[..i], after)
    && Coherent(index, table, fields[i..], before)
  }

  lemma HalfwayStep(a: Index, b: Index, table: string, fields: seq<string>, i: nat, before: map<string, Row>, after: map<string, Row>)
    requires i < |fields| && Distinct(fields) && Halfway(a, table, fields, i, before, after)
    requires SameElsewhere(a, b, table, [fields[i]]) && Mirrors(Entries(b, table, fields[i]), after, fields[i])
    ensures Halfway(b, table, fields, i + 1, before, after)
  {
    hide Mirrors, Entries;
    forall j | 0 <= j < |fields| && j != i ensures Entries(b, table, fields[j]) == Entries(a, table, fields[j]) {
      assert fields[j] !in [fields[i]];
    }
    forall j | 0 <= j <= i ensures Mirrors(Entries(b, table, fields[j]), after, fields[j]) {
      if j < i { assert fields[..i][j] == fields[j]; }
    }
    forall j | i < j < |fields| ensures Mirrors(Entries(b, table, fields[j]), before, fields[j]) {
      assert fields[i..][j - i] == fields[j];
    }
    var rest := fields[i + 1..];
    forall j | 0 <= j < |rest| ensures Mirrors(Entries(b, table, rest[j]), before, rest[j]) {
      assert rest[j] == fields[i + 1 + j];
    }
  }

  lemma HalfwayStarts(a: Index, table: string, fields: seq<string>, before: map<string, Row>, after: map<string, Row>)
    requires Coherent(a, table, fields, before)
    ensures Halfway(a, table, fields, 0, before, after)
  {
    assert fields[0..] == fields;
  }

  lemma HalfwayEnds(a: Index, table: string, fields: seq<string>, before: map<string, Row>, after: map<string, Row>)
    requires Halfway(a, table, fields, |fields|, before, after)
    ensures Coherent(a, table, fields, after)
  {
    assert fields[..|fields|] == fields;
  }

  lemma HalfwayNext(a: Index, table: string, fields: seq<string>, i: nat, before: map<string, Row>, after: map<string, Row>)
    requires i < |fields| && Halfway(a, table, fields, i, before, after)
    ensures Mirrors(Entries(a, table, fields[i]), before, fields[i])
  {
    assert fields[i..][0] == fields[i];
  }

  // ---- What an index should hold ------------------------------------------------------------------------

  /** How often a pair belongs in the index of a field: once for the row of its key, when the value is not empty. */
  function Due(rows: map<string, Row>, field: string, p: Pair): nat {
    if p.key in rows && p.value != "" && Field(rows[p.key], field) == p.value then 1 else 0
  }

  ghost predicate Mirrors(m: Multimap, rows: map<string, Row>, field: string) {
    Sorted(m) && forall p: Pair :: multiset(m)[p] == Due(rows, field, p)
  }

  ghost predicate Coherent(index: Index, table: string, fields: seq<string>, rows: map<string, Row>) {
    forall i :: 0 <= i < |fields| ==> Mirrors(Entries(index, table, fields[i]), rows, fields[i])
  }

  // ---- Building -----------------------------------------------------------------------------------------

  /** The index of a field over the rows in key order; a row without the field is left out, an empty value is not. */
  function Rebuilt(t: Table, field: string): Multimap {
    if t == [] then []
    else
      var n := |t| - 1;
      var m := Rebuilt(t[..n], field);
      if field in t[n].row then InsertPair(m, Pair(t[n].row[field], t[n].key)) else m
  }

  predicate SomeHas(t: Table, field: string) { exists i :: 0 <= i < |t| && field in t[i].row }

  /** The pairs of one value, in key order. */
  function PairsOf(t: Table, field: string, value: string): Multimap {
    if t == [] then []
    else
      var n := |t| - 1;
      PairsOf(t[..n], field, value)
      + (if field in t[n].row && t[n].row[field] == value then [Pair(value, t[n].key)] else [])
  }

  lemma {:induction false} RebuiltSorted(t: Table, field: string)
    ensures Sorted(Rebuilt(t, field))
  {
    if t != [] {
      var n := |t| - 1;
      RebuiltSorted(t[..n], field);
      if field in t[n].row { InsertKeepsSorted(Rebuilt(t[..n], field), Pair(t[n].row[field], t[n].key)); }
    }
  }

  /** A rebuilt index lists the rows of a value in key order. */
  lemma {:induction false} RangeOfRebuilt(t: Table, field: string, value: string)
    ensures Range(Rebuilt(t, field), value) == PairsOf(t, field, value)
  {
    if t != [] {
      var n := |t| - 1;
      RangeOfRebuilt(t[..n], field, value);
      RebuiltSorted(t[..n], field);
      if field in t[n].row {
        RangeOfInsert(Rebuilt(t[..n], field), Pair(t[n].row[field], t[n].key), value);
      }
    }
  }

  function RowsOf(t: Table): map<string, Row> {
    if t == [] then map[] else RowsOf(t[..|t| - 1])[t[|t| - 1].key := t[|t| - 1].row]
  }

  lemma {:induction false} KeysOfRows(t: Table, key: string)
    ensures key in RowsOf(t) <==> HasKey(t, key)
  {
    if t != [] {
      var n := |t| - 1;
      KeysOfRows(t[..n], key);
      assert t[..n] + [t[n]] == t;
    }
  }

  predicate NoEmptyValue(t: Table, field: string) { forall i :: 0 <= i < |t| && field in t[i].row ==> t[i].row[field] != "" }

  /** How often a rebuilt index has a pair: once for a row with that value, empty or not. */
  lemma {:induction false} RebuiltCounts(t: Table, field: string, p: Pair)
    requires Ascending(t)
    ensures multiset(Rebuilt(t, field))[p]
            == if p.key in RowsOf(t) && field in RowsOf(t)[p.key] && RowsOf(t)[p.key][field] == p.value then 1 else 0
  {
    if t != [] {
      var n := |t| - 1;
      RebuiltCounts(t[..n], field, p);
      RebuiltSorted(t[..n], field);
      KeysOfRows(t[..n], p.key);
      if p.key == t[n].key && HasKey(t[..n], p.key) {
        var i :| 0 <= i < n && t[..n][i].key == p.key;
        assert t[i].key == p.key;
        LessIsStrict(t[i].key, t[n].key);
      }
      if field in t[n].row { InsertKeepsSorted(Rebuilt(t[..n], field), Pair(t[n].row[field], t[n].key)); }
    }
  }

  /** A rebuilt index is coherent exactly when no row has the field empty. */
  lemma RebuiltMirrorsIff(t: Table, field: string)
    requires Ascending(t)
    ensures Mirrors(Rebuilt(t, field), RowsOf(t), field) <==> NoEmptyValue(t, field)
  {
    RebuiltSorted(t, field);
    var rows := RowsOf(t);
    if NoEmptyValue(t, field) {
      forall p: Pair ensures multiset(Rebuilt(t, field))[p] == Due(rows, field, p) {
        RebuiltCounts(t, field, p);
        if p.key in rows {
          RowIsEntry(t, p.key);
        }
      }
    } else {
      var i :| 0 <= i < |t| && field in t[i].row && t[i].row[field] == "";
      EntryIsRow(t, i);
      RebuiltCounts(t, field, Pair("", t[i].key));
    }
  }

  lemma {:induction false} RowIsEntry(t: Table, key: string)
    requires key in RowsOf(t)
    ensures exists i :: 0 <= i < |t| && t[i] == Entry(key, RowsOf(t)[key])
  {
    var n := |t| - 1;
    if t[n].key != key {
      RowIsEntry(t[..n], key);
      var i :| 0 <= i < n && t[..n][i] == Entry(key, RowsOf(t[..n])[key]);
      assert t[i] == Entry(key, RowsOf(t)[key]);
    }
  }

  lemma {:induction false} EntryIsRow(t: Table, i: nat)
    requires Ascending(t) && i < |t|
    ensures t[i].key in RowsOf(t) && RowsOf(t)[t[i].key] == t[i].row
    decreases |t|
  {
    var n := |t| - 1;
    if i < n {
      EntryIsRow(t[..n], i);
      LessIsStrict(t[i].key, t[n].key);
    }
  }

  // ---- Keeping up -----------------------------------------------------------------------------------------

  /** The entries of one field after the row of `key` changed from `before` to `after`, as add() updates them. */
  function Added(m: Multimap, key: string, before: string, after: string): Multimap {
    var rest := if before != "" && before != after then Without(m, before, key) else m;
    if after != "" && after != before then InsertPair(rest, Pair(after, key)) else rest
  }

  /** add() for one field: what was in the index for the stored row is replaced by what the new row asks for. */
  lemma AddKeepsMirror(m: Multimap, rows: map<string, Row>, field: string, key: string, row: Row, stored: Row)
    requires Mirrors(m, rows, field) && stored == (if key in rows then rows[key] else map[])
    ensures Mirrors(Added(m, key, Field(stored, field), Field(row, field)), rows[key := row], field)
  {
    hide Without, InsertPair, Sorted;
    var before, after := Field(stored, field), Field(row, field);
    var rest := if before != "" && before != after then Without(m, before, key) else m;
    if before != "" && before != after {
      WithoutKeepsSorted(m, before, key);
    }
    if after != "" && after != before { InsertKeepsSorted(rest, Pair(after, key)); }
    forall p: Pair ensures multiset(Added(m, key, before, after))[p] == Due(rows[key := row], field, p) {
      WithoutCounts(m, before, key, p);
    }
  }

  /** remove() for one field. */
  lemma RemoveKeepsMirror(m: Multimap, rows: map<string, Row>, field: string, key: string)
    requires Mirrors(m, rows, field)
    ensures key in rows && field in rows[key] ==> Mirrors(Without(m, rows[key][field], key), rows - {key}, field)
    ensures key in rows && field !in rows[key] ==> Mirrors(m, rows - {key}, field)
  {
    if key in rows && field in rows[key] {
      WithoutKeepsSorted(m, rows[key][field], key);
      forall p: Pair ensures multiset(Without(m, rows[key][field], key))[p] == Due(rows - {key}, field, p) {
        WithoutCounts(m, rows[key][field], key, p);
      }
    }
  }

  // ---- Whole runs -----------------------------------------------------------------------------------------

  /** A write to the table, told to the index with the row that was stored. */
  datatype Change = Store(key: string, row: Row) | Forget(key: string)

  function Stored(rows: map<string, Row>, key: string): Row { if key in rows then rows[key] else map[] }

  function RowsAfter(rows: map<string, Row>, changes: seq<Change>): map<string, Row> {
    if changes == [] then rows
    else
      var before := RowsAfter(rows, changes[..|changes| - 1]);
      match changes[|changes| - 1]
      case Store(key, row) => before[key := row]
      case Forget(key) => before - {key}
  }

  function IndexAfter(m: Multimap, rows: map<string, Row>, field: string, changes: seq<Change>): Multimap {
    if changes == [] then m
    else
      var earlier := changes[..|changes| - 1];
      var before, now := RowsAfter(rows, earlier), IndexAfter(m, rows, field, earlier);
      match changes[|changes| - 1]
      case Store(key, row) => Added(now, key, Field(Stored(before, key), field), Field(row, field))
      case Forget(key) =>
        if field in Stored(before, key) then Without(now, Stored(before, key)[field], key) else now
  }

  /** From a coherent index, every run of changes ends in one, whatever rows and keys it touches. */
  lemma {:induction false} EveryRunMirrors(m: Multimap, rows: map<string, Row>, field: string, changes: seq<Change>)
    requires Mirrors(m, rows, field)
    ensures Mirrors(IndexAfter(m, rows, field, changes), RowsAfter(rows, changes), field)
  {
    hide Mirrors;
    if changes != [] {
      var earlier := changes[..|changes| - 1];
      EveryRunMirrors(m, rows, field, earlier);
      var before, now := RowsAfter(rows, earlier), IndexAfter(m, rows, field, earlier);
      match changes[|changes| - 1]
      case Store(key, row) => AddKeepsMirror(now, before, field, key, row, Stored(before, key));
      case Forget(key) =>
        RemoveKeepsMirror(now, before, field, key);
        assert key !in before ==> before - {key} == before;
    }
  }
}

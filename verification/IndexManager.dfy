/** IndexManager's operations over its static index. */
module IndexManager {
  import opened Bytes
  import opened Options
  import opened Database
  import opened Multimaps
  import opened Indexing

  class Indexes {
    const schemas: seq<Schema>
    var index: Index

    constructor (schemas: seq<Schema>)
      requires SchemasFit(schemas)
      ensures this.schemas == schemas && index == map[]
    {
      this.schemas := schemas;
      index := map[];
    }

    /** The loop that erases the entries of one key inside equal_range(value). */
    method EraseKey(table: string, field: string, value: string, key: string)
      requires Sorted(Entries(index, table, field))
      modifies this
      ensures index == With(old(index), table, field, Without(Entries(old(index), table, field), value, key))
    {
      var start := Entries(index, table, field);
      var m := start;
      EqualRange(m, value);
      var i, end := LowerBound(m, value), UpperBound(m, value);
      while i < end
        invariant 0 <= i <= end <= |m| && index == old(index)
        invariant Without(m, value, key) == Without(start, value, key)
        invariant forall j :: 0 <= j < i || end <= j < |m| ==> m[j] != Pair(value, key)
        invariant forall j :: i <= j < end ==> m[j].value == value
        decreases end - i
      {
        if m[i].key == key {
          DropOne(m, i, value, key);
          m, end := m[..i] + m[i + 1..], end - 1;
        } else {
          i := i + 1;
        }
      }
      NothingToDrop(m, value, key);
      assert m == Without(start, value, key);
      index := With(index, table, field, m);
    }

    lemma {:induction false} DropOne(m: Multimap, i: nat, value: string, key: string)
      requires i < |m| && m[i] == Pair(value, key)
      ensures Without(m[..i] + m[i + 1..], value, key) == Without(m, value, key)
      decreases i
    {
      if i == 0 {
        assert m[..0] + m[1..] == m[1..];
      } else {
        DropOne(m[1..], i - 1, value, key);
        assert (m[..i] + m[i + 1..])[1..] == m[1..][..i - 1] + m[1..][i..];
      }
    }

    lemma {:induction false} NothingToDrop(m: Multimap, value: string, key: string)
      requires forall j :: 0 <= j < |m| ==> m[j] != Pair(value, key)
      ensures Without(m, value, key) == m
    {
      if m != [] { NothingToDrop(m[1..], value, key); }
    }

    /** The index follows a row from its stored to its new form; false where the table has no schema. */
    method Add(table: string, key: string, row: Row, oldRow: Row, ghost rows: map<string, Row>) returns (ok: bool)
      requires SchemasFit(schemas)
      requires FieldsOf(schemas, table).Some? ==> Coherent(index, table, FieldsOf(schemas, table).value, rows)
      requires oldRow == if key in rows then rows[key] else map[]
      modifies this
      ensures ok == FieldsOf(schemas, table).Some?
      ensures ok ==> Coherent(index, table, FieldsOf(schemas, table).value, rows[key := row])
      ensures !ok ==> index == old(index)
      ensures ok ==> SameElsewhere(old(index), index, table, FieldsOf(schemas, table).value)
    {
      hide Distinct, SchemasFit, FieldsOf, Coherent, Halfway, SameElsewhere, Mirrors, Entries;
      var found := FieldsOf(schemas, table);
      if found.None? { return false; }
      var fields := found.value;
      FieldsDistinct(table);
      HalfwayStarts(index, table, fields, rows, rows[key := row]);
      Unchanged(index, table, fields);
      var i := 0;
      while i < |fields|
        invariant 0 <= i <= |fields| && Halfway(index, table, fields, i, rows, rows[key := row])
        invariant SameElsewhere(old(index), index, table, fields)
      {
        ghost var before := index;
        HalfwayNext(index, table, fields, i, rows, rows[key := row]);
        AddField(table, key, fields[i], row, oldRow, rows);
        HalfwayStep(before, index, table, fields, i, rows, rows[key := row]);
        ElsewhereStep(old(index), before, index, table, fields, i);
        i := i + 1;
      }
      HalfwayEnds(index, table, fields, rows, rows[key := row]);
      ok := true;
    }

    lemma Unchanged(a: Index, table: string, fields: seq<string>)
      ensures SameElsewhere(a, a, table, fields)
    {}

    method AddField(table: string, key: string, field: string, row: Row, oldRow: Row, ghost rows: map<string, Row>)
      requires Mirrors(Entries(index, table, field), rows, field)
      requires oldRow == if key in rows then rows[key] else map[]
      modifies this
      ensures Mirrors(Entries(index, table, field), rows[key := row], field)
      ensures SameElsewhere(old(index), index, table, [field])
    {
      hide Mirrors, Sorted, Due, Without, InsertPair;
      Unchanged(index, table, [field]);
      MirrorSorted(Entries(index, table, field), rows, field);
      var oldVal := if field in oldRow then oldRow[field] else "";
      var newVal := if field in row then row[field] else "";
      AddKeepsMirror(Entries(index, table, field), rows, field, key, row, oldRow);
      ghost var added := Added(Entries(index, table, field), key, oldVal, newVal);
      ghost var m := Entries(index, table, field);
      if oldVal != "" && oldVal != newVal {
        WithChanges(index, table, field, Without(m, oldVal, key));
        EraseKey(table, field, oldVal, key);
        m := Without(m, oldVal, key);
      }
      hide Entries, HasIndex;
      assert m == Entries(index, table, field);
      if newVal != "" && newVal != oldVal {
        ghost var before := index;
        WithChanges(index, table, field, InsertPair(m, Pair(newVal, key)));
        index := With(index, table, field, InsertPair(Entries(index, table, field), Pair(newVal, key)));
        ElsewhereStep(old(index), before, index, table, [field], 0);
        m := InsertPair(m, Pair(newVal, key));
      }
      assert m == added;
    }

    /** The index forgets a stored row. */
    method Remove(table: string, key: string, oldRow: Row, ghost rows: map<string, Row>) returns (ok: bool)
      requires SchemasFit(schemas)
      requires FieldsOf(schemas, table).Some? ==> Coherent(index, table, FieldsOf(schemas, table).value, rows)
      requires key in rows && oldRow == rows[key]
      modifies this
      ensures ok == FieldsOf(schemas, table).Some?
      ensures ok ==> Coherent(index, table, FieldsOf(schemas, table).value, rows - {key})
      ensures !ok ==> index == old(index)
      ensures ok ==> SameElsewhere(old(index), index, table, FieldsOf(schemas, table).value)
    {
      hide Distinct, SchemasFit, FieldsOf, Coherent, Halfway, SameElsewhere, Mirrors, Entries;
      var found := FieldsOf(schemas, table);
      if found.None? { return false; }
      var fields := found.value;
      FieldsDistinct(table);
      HalfwayStarts(index, table, fields, rows, rows - {key});
      Unchanged(index, table, fields);
      var i := 0;
      while i < |fields|
        invariant 0 <= i <= |fields| && Halfway(index, table, fields, i, rows, rows - {key})
        invariant SameElsewhere(old(index), index, table, fields)
      {
        ghost var before := index;
        HalfwayNext(index, table, fields, i, rows, rows - {key});
        RemoveField(table, key, fields[i], oldRow, rows);
        HalfwayStep(before, index, table, fields, i, rows, rows - {key});
        ElsewhereStep(old(index), before, index, table, fields, i);
        i := i + 1;
      }
      HalfwayEnds(index, table, fields, rows, rows - {key});
      ok := true;
    }

    lemma WithChanges(a: Index, table: string, field: string, m: Multimap)
      ensures Entries(With(a, table, field, m), table, field) == m
      ensures SameElsewhere(a, With(a, table, field, m), table, [field])
    {}

    method RemoveField(table: string, key: string, field: string, oldRow: Row, ghost rows: map<string, Row>)
      requires Mirrors(Entries(index, table, field), rows, field) && key in rows && oldRow == rows[key]
      modifies this
      ensures Mirrors(Entries(index, table, field), rows - {key}, field)
      ensures SameElsewhere(old(index), index, table, [field])
    {
      hide Mirrors, Sorted, Due;
      MirrorSorted(Entries(index, table, field), rows, field);
      RemoveKeepsMirror(Entries(index, table, field), rows, field, key);
      if field in oldRow {
        EraseKey(table, field, oldRow[field], key);
      }
    }

    lemma MirrorSorted(m: Multimap, rows: map<string, Row>, field: string)
      requires Mirrors(m, rows, field)
      ensures Sorted(m)
    {}

    lemma FieldsDistinct(table: string)
      requires SchemasFit(schemas) && FieldsOf(schemas, table).Some?
      ensures Distinct(FieldsOf(schemas, table).value)
    {
      FieldsAt(schemas, table);
    }

    lemma {:induction false} FieldsAt(s: seq<Schema>, table: string)
      requires FieldsOf(s, table).Some?
      ensures exists i :: 0 <= i < |s| && s[i] == Schema(table, FieldsOf(s, table).value)
    {
      if s[0].table == table {
        assert s[0] == Schema(table, FieldsOf(s, table).value);
      } else {
        FieldsAt(s[1..], table);
        var i :| 0 <= i < |s[1..]| && s[1..][i] == Schema(table, FieldsOf(s, table).value);
        assert s[i + 1] == s[1..][i];
      }
    }

    // ---- rebuildAll ---------------------------------------------------------------------------------------

    /** After a rebuild, a field is indexed when the schema says so and some row has it, and then it lists those rows. */
    ghost predicate Built(table: string, fields: seq<string>, t: Table)
      reads this
    {
      && (forall f :: HasIndex(index, table, f) <==> f in fields && SomeHas(t, f))
      && (forall f :: f in fields ==> Entries(index, table, f) == Rebuilt(t, f))
    }

    method RebuildAll(db: DBManager)
      requires SchemasFit(schemas) && db.Valid()
      modifies this
      ensures forall i :: 0 <= i < |schemas| ==> Built(schemas[i].table, schemas[i].fields, db.Contents(schemas[i].table))
      ensures forall t, f :: HasIndex(index, t, f) ==> exists i :: 0 <= i < |schemas| && schemas[i].table == t
    {
      index := map[];
      var k := 0;
      while k < |schemas|
        invariant 0 <= k <= |schemas|
        invariant forall i :: 0 <= i < k ==> Built(schemas[i].table, schemas[i].fields, db.Contents(schemas[i].table))
        invariant forall t, f :: HasIndex(index, t, f) ==> exists i :: 0 <= i < k && schemas[i].table == t
      {
        label before:
        RebuildTable(schemas[k].table, schemas[k].fields, db.Contents(schemas[k].table));
        forall i | 0 <= i < k ensures Built(schemas[i].table, schemas[i].fields, db.Contents(schemas[i].table)) {
          assert schemas[i].table != schemas[k].table;
          assert old@before(Built(schemas[i].table, schemas[i].fields, db.Contents(schemas[i].table)));
          assert forall f :: HasIndex(index, schemas[i].table, f) == old@before(HasIndex(index, schemas[i].table, f));
          assert forall f :: Entries(index, schemas[i].table, f) == old@before(Entries(index, schemas[i].table, f));
        }
        k := k + 1;
      }
    }

    method RebuildTable(table: string, fields: seq<string>, t: Table)
      requires Distinct(fields) && forall f :: !HasIndex(index, table, f)
      modifies this
      ensures Built(table, fields, t)
      ensures SameElsewhere(old(index), index, table, fields)
    {
      var i := 0;
      while i < |t|
        invariant 0 <= i <= |t|
        invariant Built(table, fields, t[..i])
        invariant SameElsewhere(old(index), index, table, fields)
      {
        RebuildRow(table, fields, t, i);
        i := i + 1;
      }
      assert t[..i] == t;
    }

    method RebuildRow(table: string, fields: seq<string>, t: Table, i: nat)
      requires Distinct(fields) && i < |t| && Built(table, fields, t[..i])
      modifies this
      ensures Built(table, fields, t[..i + 1])
      ensures SameElsewhere(old(index), index, table, fields)
    {
      hide SomeHas, Rebuilt, Entries, HasIndex, SameElsewhere;
      SomeHasStep(t, i);
      var j := 0;
      Unchanged(index, table, fields);
      assert fields[..0] == [];
      while j < |fields|
        invariant 0 <= j <= |fields|
        invariant forall f :: f in fields[..j] ==> Entries(index, table, f) == Rebuilt(t[..i + 1], f)
        invariant forall f :: f in fields[..j] ==> (HasIndex(index, table, f) <==> SomeHas(t[..i + 1], f))
        invariant forall f :: f !in fields[..j] ==> Entries(index, table, f) == Entries(old(index), table, f)
        invariant forall f :: f !in fields[..j] ==> HasIndex(index, table, f) == HasIndex(old(index), table, f)
        invariant SameElsewhere(old(index), index, table, fields)
      {
        assert fields[..j + 1] == fields[..j] + [fields[j]];
        assert fields[j] !in fields[..j];
        ghost var before := index;
        RebuildField(table, fields[j], t, i);
        ElsewhereStep(old(index), before, index, table, fields, j);
        forall f | f != fields[j] ensures Entries(index, table, f) == Entries(before, table, f)
                                          && HasIndex(index, table, f) == HasIndex(before, table, f) {
          ElsewhereAt(before, index, table, fields[j], f);
        }
        j := j + 1;
      }
      assert fields[..j] == fields;
    }

    lemma ElsewhereAt(a: Index, b: Index, table: string, field: string, f: string)
      requires SameElsewhere(a, b, table, [field]) && f != field
      ensures Entries(b, table, f) == Entries(a, table, f) && HasIndex(b, table, f) == HasIndex(a, table, f)
    {}

    method RebuildField(table: string, field: string, t: Table, i: nat)
      requires i < |t| && Entries(index, table, field) == Rebuilt(t[..i], field)
      requires HasIndex(index, table, field) <==> SomeHas(t[..i], field)
      modifies this
      ensures Entries(index, table, field) == Rebuilt(t[..i + 1], field)
      ensures HasIndex(index, table, field) <==> SomeHas(t[..i + 1], field)
      ensures SameElsewhere(old(index), index, table, [field])
    {
      hide SomeHas;
      var e := t[i];
      assert t[..i + 1][..i] == t[..i];
      SomeHasStep(t, i);
      if field in e.row {
        index := With(index, table, field, InsertPair(Entries(index, table, field), Pair(e.row[field], e.key)));
      }
    }

    lemma SomeHasStep(t: Table, i: nat)
      requires i < |t|
      ensures forall f :: SomeHas(t[..i + 1], f) <==> SomeHas(t[..i], f) || f in t[i].row
    {
      forall f ensures SomeHas(t[..i + 1], f) <==> SomeHas(t[..i], f) || f in t[i].row {
        assert t[..i + 1][i] == t[i];
        assert forall k :: 0 <= k < i ==> t[..i + 1][k] == t[..i][k];
      }
    }
  }
}

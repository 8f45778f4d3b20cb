/** The key-value tables under the SQL engine: rows, conditions and DBManager. */
module Database {
  import opened Bytes
  import opened Options

  type Row = map<string, string>

  /** One stored row. The JSON in which it is stored is not part of this model. */
  datatype Entry = Entry(key: string, row: Row)

  datatype Condition = Condition(key: string, op: string, value: string)

  /** `a` comes before `b` or is it. */
  predicate UpTo(a: string, b: string) { a == b || Less(a, b) }

  /** evalCond, and the same comparison inside scan. */
  function Holds(lhs: string, op: string, rhs: string): bool {
    if op == "=" then lhs == rhs
    else if op == "!=" then lhs != rhs
    else if op == "<" then Less(lhs, rhs)
    else if op == ">" then Less(rhs, lhs)
    else if op == "<=" then !Less(rhs, lhs)
    else if op == ">=" then !Less(lhs, rhs)
    else if op == "LIKE" then Find(lhs, rhs, 0) != -1
    else false
  }

  /** row[field], which reads a missing field as the empty string. */
  function Field(row: Row, field: string): string { if field in row then row[field] else "" }

  predicate Passes(row: Row, conditions: seq<Condition>) {
    forall i :: 0 <= i < |conditions| ==> Holds(Field(row, conditions[i].key), conditions[i].op, conditions[i].value)
  }

  // ---- Tables -----------------------------------------------------------------------------------------

  /** A column family in iteration order. */
  type Table = seq<Entry>

  predicate Ascending(t: Table) { forall i, j :: 0 <= i < j < |t| ==> Less(t[i].key, t[j].key) }

  predicate HasKey(t: Table, key: string) { exists i :: 0 <= i < |t| && t[i].key == key }

  function GetRow(t: Table, key: string): (r: Option<Row>)
    ensures r.Some? <==> HasKey(t, key)
    ensures r.Some? ==> exists i :: 0 <= i < |t| && t[i] == Entry(key, r.value)
  {
    if t == [] then None
    else if t[0].key == key then Some(t[0].row)
    else
      var r := GetRow(t[1..], key);
      assert forall i :: 0 < i < |t| ==> t[i] == t[1..][i - 1];
      r
  }

  lemma {:induction false} GetRowAt(t: Table, i: nat)
    requires Ascending(t) && i < |t|
    ensures GetRow(t, t[i].key) == Some(t[i].row)
  {
    if i > 0 {
      LessIsStrict(t[0].key, t[i].key);
      GetRowAt(t[1..], i - 1);
    }
  }

  function PutRow(t: Table, key: string, row: Row): Table {
    if t == [] then [Entry(key, row)]
    else if t[0].key == key then [Entry(key, row)] + t[1..]
    else if Less(key, t[0].key) then [Entry(key, row)] + t
    else [t[0]] + PutRow(t[1..], key, row)
  }

  function DeleteRow(t: Table, key: string): Table {
    if t == [] then []
    else if t[0].key == key then t[1..]
    else [t[0]] + DeleteRow(t[1..], key)
  }

  lemma {:induction false} KeysOfPut(t: Table, key: string, row: Row)
    ensures forall e :: e in PutRow(t, key, row) ==> e.key == key || e in t
    ensures PutRow(t, key, row) != []
  {
    if t != [] && t[0].key != key && !Less(key, t[0].key) {
      KeysOfPut(t[1..], key, row);
      assert t == [t[0]] + t[1..];
    }
  }

  lemma HeadFirst(t: Table)
    requires t == [] || (Ascending(t[1..]) && forall e :: e in t[1..] ==> Less(t[0].key, e.key))
    ensures Ascending(t)
  {
    forall i, j | 0 <= i < j < |t| ensures Less(t[i].key, t[j].key) {
      assert t[1..][j - 1] == t[j];
      if i > 0 { assert t[1..][i - 1] == t[i]; }
    }
  }

  lemma AfterHead(t: Table)
    requires Ascending(t) && t != []
    ensures Ascending(t[1..]) && forall e :: e in t[1..] ==> Less(t[0].key, e.key)
  {}

  /** A written key reads back as written, the others as before, and the order stays. */
  lemma {:induction false} PutThenGet(t: Table, key: string, row: Row, other: string)
    requires Ascending(t)
    ensures Ascending(PutRow(t, key, row))
    ensures GetRow(PutRow(t, key, row), other) == if other == key then Some(row) else GetRow(t, other)
  {
    var u := PutRow(t, key, row);
    if t != [] {
      AfterHead(t);
      if t[0].key != key && !Less(key, t[0].key) {
        PutThenGet(t[1..], key, row, other);
        KeysOfPut(t[1..], key, row);
        LessIsTotal(key, t[0].key);
        assert u[1..] == PutRow(t[1..], key, row);
        HeadFirst(u);
      } else if t[0].key == key {
        assert u[1..] == t[1..];
        HeadFirst(u);
      } else {
        assert u[1..] == t;
        forall e | e in t ensures Less(key, e.key) {
          if e != t[0] {
            assert t == [t[0]] + t[1..];
            LessIsTransitive(key, t[0].key, e.key);
          }
        }
        HeadFirst(u);
      }
    }
  }

  lemma {:induction false} DeleteThenGet(t: Table, key: string, other: string)
    requires Ascending(t)
    ensures Ascending(DeleteRow(t, key)) && forall e :: e in DeleteRow(t, key) ==> e in t
    ensures GetRow(DeleteRow(t, key), other) == if other == key then None else GetRow(t, other)
  {
    if t != [] {
      AfterHead(t);
      var u := DeleteRow(t, key);
      if t[0].key == key {
        if other == key && HasKey(t[1..], key) {
          var i :| 0 <= i < |t[1..]| && t[1..][i].key == key;
          LessIsStrict(t[0].key, t[1..][i].key);
        }
      } else {
        DeleteThenGet(t[1..], key, other);
        assert u[1..] == DeleteRow(t[1..], key);
        assert t == [t[0]] + t[1..];
        HeadFirst(u);
      }
    }
  }

  // ---- scan -------------------------------------------------------------------------------------------

  /** The entries that pass, in order. */
  function Filtered(t: Table, conditions: seq<Condition>): Table {
    if t == [] then []
    else
      var n := |t| - 1;
      Filtered(t[..n], conditions) + (if Passes(t[n].row, conditions) then [t[n]] else [])
  }

  function Keys(t: Table): seq<string> { seq(|t|, i requires 0 <= i < |t| => t[i].key) }

  /** From `skip` on, and at most `limit` when that is positive: 0 is no limit either. */
  function Window<T>(s: seq<T>, skip: int, limit: int): seq<T> {
    var rest := if skip <= 0 then s else if skip <= |s| then s[skip..] else [];
    if 0 < limit < |rest| then rest[..limit] else rest
  }

  class DBManager {
    var tables: map<string, Table>

    constructor ()
      ensures Valid() && tables == map[]
    {
      tables := map[];
    }

    ghost predicate Valid() reads this { forall t :: t in tables ==> Ascending(tables[t]) }

    /** cf(): a name not seen before is an empty family. */
    function Contents(table: string): (t: Table)
      reads this
      ensures Valid() ==> Ascending(t)
    {
      if table in tables then tables[table] else []
    }

    function Get(table: string, key: string): Option<Row> reads this { GetRow(Contents(table), key) }

    method Put(table: string, key: string, row: Row)
      requires Valid()
      modifies this
      ensures Valid() && tables == old(tables)[table := PutRow(old(Contents(table)), key, row)]
    {
      PutThenGet(Contents(table), key, row, key);
      tables := tables[table := PutRow(Contents(table), key, row)];
    }

    /** The `id` of a row, or else the value of its first field, is its key. */
    method Insert(table: string, row: Row, firstField: string) returns (key: string)
      requires Valid()
      requires row != map[] ==> firstField in row && forall f :: f in row ==> UpTo(firstField, f)
      modifies this
      ensures Valid() && tables == old(tables)[table := PutRow(old(Contents(table)), key, row)]
      ensures key == if "id" in row then row["id"] else Field(row, firstField)
    {
      key := if "id" in row then row["id"] else if row == map[] then "" else row[firstField];
      Put(table, key, row);
    }

    /** New values over the stored ones; false where reading a missing row throws. */
    method Update(table: string, key: string, row: Row) returns (ok: bool)
      requires Valid()
      modifies this
      ensures Valid() && ok == old(HasKey(Contents(table), key))
      ensures !ok ==> tables == old(tables)
      ensures ok ==> tables == old(tables)[table := PutRow(old(Contents(table)), key, old(Get(table, key)).value + row)]
    {
      var existing := Get(table, key);
      if existing.None? { return false; }
      Put(table, key, existing.value + row);
      ok := true;
    }

    method Remove(table: string, key: string)
      requires Valid()
      modifies this
      ensures Valid() && tables == old(tables)[table := DeleteRow(old(Contents(table)), key)]
    {
      DeleteThenGet(Contents(table), key, key);
      tables := tables[table := DeleteRow(Contents(table), key)];
    }

    /** The keys of the rows that pass, in key order, without the first `skip`, and cut at a positive `limit`. */
    method Scan(table: string, conditions: seq<Condition>, skip: int, limit: int) returns (keys: seq<string>)
      requires Valid()
      ensures keys == Keys(Window(Filtered(Contents(table), conditions), skip, limit))
    {
      hide Filtered, Passes, Window, Keys;
      var t := Contents(table);
      keys := [];
      ghost var passed: Table := [];
      var seen := 0;
      var i := 0;
      ScanStarts(t, conditions, skip);
      while i < |t|
        invariant 0 <= i <= |t| && seen == |passed| && passed == Filtered(t[..i], conditions)
        invariant keys == Keys(Window(passed, skip, -1))
        invariant limit > 0 ==> |keys| < limit
      {
        FilteredStep(t, conditions, i);
        var ok := PassesAll(t[i].row, conditions);
        if ok {
          WindowGrows(passed, t[i], skip);
          passed := passed + [t[i]];
          if seen >= skip {
            keys := keys + [t[i].key];
            if limit > 0 && |keys| >= limit {
              FilteredPrefix(t, conditions, i + 1);
              WindowFull(passed, Filtered(t, conditions), skip, limit);
              return;
            }
          }
          seen := seen + 1;
        }
        i := i + 1;
      }
      assert t[..i] == t;
      WindowOpen(passed, skip, limit);
    }
  }

  method PassesAll(row: Row, conditions: seq<Condition>) returns (ok: bool)
    ensures ok == Passes(row, conditions)
  {
    var j := 0;
    while j < |conditions|
      invariant 0 <= j <= |conditions|
      invariant Passes(row, conditions[..j])
    {
      var c := conditions[j];
      if !Holds(Field(row, c.key), c.op, c.value) { return false; }
      j := j + 1;
    }
    assert conditions[..j] == conditions;
    ok := true;
  }

  lemma ScanStarts(t: Table, conditions: seq<Condition>, skip: int)
    ensures t[..0] == [] && Filtered([], conditions) == [] && Keys(Window([], skip, -1)) == []
  {}

  lemma FilteredStep(t: Table, conditions: seq<Condition>, i: nat)
    requires i < |t|
    ensures Filtered(t[..i + 1], conditions) == Filtered(t[..i], conditions) + (if Passes(t[i].row, conditions) then [t[i]] else [])
  {
    assert t[..i + 1][..i] == t[..i];
  }

  lemma WindowOpen(s: Table, skip: int, limit: int)
    requires limit > 0 ==> |Keys(Window(s, skip, -1))| < limit
    ensures Keys(Window(s, skip, limit)) == Keys(Window(s, skip, -1))
  {}

  lemma WindowGrows(s: Table, e: Entry, skip: int)
    ensures Keys(Window(s + [e], skip, -1)) == Keys(Window(s, skip, -1)) + (if |s| >= skip then [e.key] else [])
  {
    if 0 < skip <= |s| {
      assert (s + [e])[skip..] == s[skip..] + [e];
    }
  }

  lemma {:induction false} FilteredPrefix(t: Table, conditions: seq<Condition>, i: nat)
    requires i <= |t|
    ensures Filtered(t[..i], conditions) <= Filtered(t, conditions)
    decreases |t|
  {
    if i < |t| {
      var n := |t| - 1;
      FilteredPrefix(t[..n], conditions, i);
      assert t[..n][..i] == t[..i];
    } else {
      assert t[..i] == t;
    }
  }

  lemma WindowFull(s: Table, whole: Table, skip: int, limit: int)
    requires s <= whole && limit > 0 && |Keys(Window(s, skip, -1))| == limit
    ensures Keys(Window(whole, skip, limit)) == Keys(Window(s, skip, -1))
  {
    var a, b := Window(s, skip, -1), Window(whole, skip, -1);
    assert a <= b;
    assert Window(whole, skip, limit) == b[..limit] == a;
  }
}

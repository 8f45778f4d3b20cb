/** What a SELECT answers, said of stored rows and columns alone. */
module SelectMeaning {
  import opened Bytes
  import opened Options
  import opened Database
  import opened Selecting

  // ---- Conditions -----------------------------------------------------------------------------------------

  /** What the operators of a condition ask of a value. */
  ghost predicate Meets(value: string, op: string, rhs: string) {
    || (op == "=" && value == rhs)
    || (op == "!=" && value != rhs)
    || (op == "<" && Before(value, rhs))
    || (op == ">" && Before(rhs, value))
    || (op == "<=" && (Before(value, rhs) || value == rhs))
    || (op == ">=" && (Before(rhs, value) || value == rhs))
    || (op == "LIKE" && exists i :: 0 <= i && OccursAt(value, i, rhs))
  }

  lemma HoldsIsMeets(value: string, op: string, rhs: string)
    ensures Holds(value, op, rhs) <==> Meets(value, op, rhs)
  {
    LessIsBefore(value, rhs);
    LessIsBefore(rhs, value);
    LessIsTotal(value, rhs);
    LessIsIrreflexive(value);
    if Less(value, rhs) { LessIsStrict(value, rhs); }
    hide Less, Before;
    if Find(value, rhs, 0) != -1 { assert OccursAt(value, Find(value, rhs, 0), rhs); }
  }

  /** The column a key names: itself, or what stands behind its qualifier. */
  predicate Names(key: string, column: string) {
    ('.' !in key && column == key) || exists n :: 0 <= n < |key| && '.' !in key[..n] && key[n] == '.' && column == key[n + 1..]
  }

  /** A key of the table itself: without a qualifier, or qualified by the table. */
  predicate IsOf(table: string, key: string) {
    '.' !in key || ('.' !in table && |table| < |key| && key[..|table|] == table && key[|table|] == '.')
  }

  lemma FirstDot(key: string)
    ensures var n := Find(key, ".", 0);
            if n == -1 then '.' !in key else 0 <= n < |key| && key[n] == '.' && '.' !in key[..n]
  {
    var n := Find(key, ".", 0);
    var end := if n == -1 then |key| else n;
    if n != -1 { assert OccursAt(key, n, ".") && key[n..n + 1][0] == '.'; }
    forall k | 0 <= k < end ensures key[k] != '.' {
      assert !OccursAt(key, k, ".");
      assert key[k..k + 1] == [key[k]];
    }
  }

  lemma OneFirstDot(key: string, m: nat, n: nat)
    requires m < |key| && n < |key| && key[m] == '.' && key[n] == '.' && '.' !in key[..m] && '.' !in key[..n]
    ensures m == n
  {
    assert forall k :: 0 <= k < m ==> key[..m][k] == key[k];
    assert forall k :: 0 <= k < n ==> key[..n][k] == key[k];
    NotBefore(key, m);
    NotBefore(key, n);
  }

  lemma NotBefore(key: string, n: nat)
    requires n <= |key| && '.' !in key[..n]
    ensures forall k :: 0 <= k < n ==> key[k] != '.'
  {
    forall k | 0 <= k < n ensures key[k] != '.' { assert key[..n][k] == key[k]; }
  }

  lemma NamesIsUnqualified(key: string, column: string)
    ensures Names(key, column) <==> column == Unqualified(key)
  {
    FirstDot(key);
    hide Find;
    var m := Find(key, ".", 0);
    forall n | 0 <= n < |key| && '.' !in key[..n] && key[n] == '.' ensures n == m { OneFirstDot(key, n, m); }
  }

  lemma IsBaseIsOf(table: string, key: string)
    ensures IsBase(table, key) <==> IsOf(table, key)
  {
    FirstDot(key);
    hide Find;
    var n := Find(key, ".", 0);
    if n != -1 && IsOf(table, key) {
      OneFirstDot(key, |table|, n);
    }
  }

  /** A missing column counts as empty. */
  function Cell(row: Row, column: string): string { if column in row then row[column] else "" }

  /** The row meets every condition on the column it names. */
  ghost predicate MeetsAll(row: Row, conditions: seq<Condition>) {
    forall i :: 0 <= i < |conditions| ==> MeetsOne(row, conditions[i])
  }

  ghost predicate MeetsOne(row: Row, c: Condition) {
    exists column :: Names(c.key, column) && Meets(Cell(row, column), c.op, c.value)
  }

  lemma MeetsOneIff(row: Row, c: Condition)
    ensures MeetsOne(row, c) <==> Holds(Field(row, Unqualified(c.key)), c.op, c.value)
  {
    var column := Unqualified(c.key);
    HoldsIsMeets(Field(row, column), c.op, c.value);
    hide Holds, Meets, Unqualified;
    NamesIsUnqualified(c.key, column);
    forall d | Names(c.key, d) ensures d == column { NamesIsUnqualified(c.key, d); }
  }

  /** The two halves into which the executor splits the conditions. */
  lemma {:induction false} SplitMeets(row: Row, table: string, conditions: seq<Condition>)
    ensures Passes(row, BaseConditions(table, conditions)) && PassesPost(row, PostConditions(table, conditions))
            <==> MeetsAll(row, conditions)
  {
    hide IsBase, Holds, Unqualified, MeetsOne, Field;
    if conditions != [] {
      var init, c := conditions[..|conditions| - 1], conditions[|conditions| - 1];
      SplitMeets(row, table, init);
      MeetsOneIff(row, c);
      var base, post := BaseConditions(table, init), PostConditions(table, init);
      PassesOneMore(row, base, c.(key := Unqualified(c.key)));
      PostOneMore(row, post, c);
      assert MeetsAll(row, conditions) <==> MeetsAll(row, init) && MeetsOne(row, c) by {
        assert forall i :: 0 <= i < |init| ==> init[i] == conditions[i];
      }
      hide Passes, PassesPost, MeetsAll;
      assert base + [] == base && post + [] == post;
    }
  }

  lemma PassesOneMore(row: Row, conditions: seq<Condition>, c: Condition)
    ensures Passes(row, conditions + [c]) <==> Passes(row, conditions) && Holds(Field(row, c.key), c.op, c.value)
  {
    hide Holds;
    var more := conditions + [c];
    assert more[|conditions|] == c && forall i :: 0 <= i < |conditions| ==> more[i] == conditions[i];
  }

  lemma PostOneMore(row: Row, conditions: seq<Condition>, c: Condition)
    ensures PassesPost(row, conditions + [c]) <==> PassesPost(row, conditions) && Holds(Field(row, Unqualified(c.key)), c.op, c.value)
  {
    hide Holds, Unqualified;
    var more := conditions + [c];
    assert more[|conditions|] == c && forall i :: 0 <= i < |conditions| ==> more[i] == conditions[i];
  }

  // ---- The rows of one table --------------------------------------------------------------------------------

  predicate Rising(picks: seq<nat>) { forall i, j :: 0 <= i < j < |picks| ==> picks[i] < picks[j] }

  /** The positions of the rows that meet the conditions, in the order of the table. */
  ghost predicate Selects(t: Table, conditions: seq<Condition>, picks: seq<nat>) {
    && Rising(picks) && (forall k :: 0 <= k < |picks| ==> picks[k] < |t|)
    && forall i: nat :: i < |t| ==> (i in picks <==> MeetsAll(t[i].row, conditions))
  }

  /** What the executor has of a table without joins: its rows after both filters. */
  function Scanned(t: Table, table: string, conditions: seq<Condition>): seq<Row> {
    PostFilter(RowsIn(Filtered(t, BaseConditions(table, conditions))), PostConditions(table, conditions))
  }

  lemma ScannedOneMore(t: Table, table: string, conditions: seq<Condition>)
    requires t != []
    ensures var init, row := t[..|t| - 1], t[|t| - 1].row;
            var post := PostConditions(table, conditions);
            Scanned(t, table, conditions)
            == Scanned(init, table, conditions)
               + (if Passes(row, BaseConditions(table, conditions)) && PassesPost(row, post) then [TouchedAll(row, post)] else [])
  {
    hide Passes, PassesPost, TouchedAll, BaseConditions, PostConditions;
    var init, e := t[..|t| - 1], t[|t| - 1];
    var base, post := BaseConditions(table, conditions), PostConditions(table, conditions);
    var before := RowsIn(Filtered(init, base));
    if Passes(e.row, base) {
      assert RowsIn(Filtered(init, base) + [e]) == before + [e.row];
      assert (before + [e.row])[..|before|] == before;
    } else {
      assert Filtered(init, base) + [] == Filtered(init, base);
    }
  }

  lemma {:induction false} ScanMeans(t: Table, table: string, conditions: seq<Condition>) returns (picks: seq<nat>)
    ensures Selects(t, conditions, picks) && |picks| == |Scanned(t, table, conditions)|
    ensures forall k :: 0 <= k < |picks|
              ==> Scanned(t, table, conditions)[k] == TouchedAll(t[picks[k]].row, PostConditions(table, conditions))
  {
    hide *;
    if t == [] {
      picks := [];
      NothingScanned(table, conditions);
    } else {
      var n := |t| - 1;
      picks := ScanMeans(t[..n], table, conditions);
      ScannedOneMore(t, table, conditions);
      SplitMeets(t[n].row, table, conditions);
      SelectsOneMore(t, conditions, picks);
      PicksFit(t[..n], conditions, picks);
      if MeetsAll(t[n].row, conditions) { picks := picks + [n]; }
    }
  }

  lemma NothingScanned(table: string, conditions: seq<Condition>)
    ensures Selects([], conditions, []) && Scanned([], table, conditions) == []
  {
    assert RowsIn([]) == [];
  }

  lemma PicksFit(t: Table, conditions: seq<Condition>, picks: seq<nat>)
    requires Selects(t, conditions, picks)
    ensures forall k :: 0 <= k < |picks| ==> picks[k] < |t|
  {}

  lemma SelectsOneMore(t: Table, conditions: seq<Condition>, picks: seq<nat>)
    requires t != [] && Selects(t[..|t| - 1], conditions, picks)
    ensures var n := |t| - 1; Selects(t, conditions, if MeetsAll(t[n].row, conditions) then picks + [n] else picks)
  {
    hide MeetsAll;
    var n := |t| - 1;
    forall i: nat | i < n ensures i in picks <==> MeetsAll(t[i].row, conditions) { assert t[..n][i] == t[i]; }
    assert n !in picks;
  }

  // ---- Columns ----------------------------------------------------------------------------------------------

  /** A row as stored; a column that a condition on another table names is added, empty, where it is missing. */
  ghost predicate ShowsWhole(shown: Row, stored: Row, table: string, conditions: seq<Condition>) {
    && (forall f :: f in stored ==> f in shown && shown[f] == stored[f])
    && (forall f :: f in shown && f !in stored ==> shown[f] == "")
    && (forall f :: f in shown <==> f in stored || exists i :: 0 <= i < |conditions| && AddsColumn(conditions[i], table, f))
  }

  ghost predicate AddsColumn(c: Condition, table: string, column: string) { !IsOf(table, c.key) && Names(c.key, column) }

  /** Exactly these columns, each with the stored value of the name behind its qualifier. */
  ghost predicate ShowsColumns(shown: Row, stored: Row, columns: seq<string>) {
    && (forall c :: c in shown <==> c in columns)
    && forall c, f :: c in columns && Names(c, f) ==> shown[c] == Cell(stored, f)
  }

  ghost predicate Shows(shown: Row, stored: Row, columns: seq<string>, table: string, conditions: seq<Condition>) {
    if columns == ["*"] then ShowsWhole(shown, stored, table, conditions) else ShowsColumns(shown, stored, columns)
  }

  lemma {:induction false} TouchedShows(row: Row, table: string, conditions: seq<Condition>)
    ensures ShowsWhole(TouchedAll(row, PostConditions(table, conditions)), row, table, conditions)
  {
    if conditions != [] {
      hide IsBase, Unqualified, AddsColumn, ShowsWhole, Touched;
      var init, c := conditions[..|conditions| - 1], conditions[|conditions| - 1];
      var post := PostConditions(table, init);
      TouchedShows(row, table, init);
      assert (post + [c])[..|post|] == post && post + [] == post;
      OneMoreShows(TouchedAll(row, post), row, table, conditions);
    }
  }

  lemma OneMoreShows(shown: Row, row: Row, table: string, conditions: seq<Condition>)
    requires conditions != [] && ShowsWhole(shown, row, table, conditions[..|conditions| - 1])
    ensures var c := conditions[|conditions| - 1];
            ShowsWhole(if IsBase(table, c.key) then shown else Touched(shown, Unqualified(c.key)), row, table, conditions)
  {
    hide IsBase, Unqualified, AddsColumn;
    var c := conditions[|conditions| - 1];
    forall f ensures AddsColumn(c, table, f) <==> !IsBase(table, c.key) && f == Unqualified(c.key) {
      AddsUnqualified(c, table, f);
    }
    AddsOneMore(conditions, table);
  }

  lemma AddsUnqualified(c: Condition, table: string, f: string)
    ensures AddsColumn(c, table, f) <==> !IsBase(table, c.key) && f == Unqualified(c.key)
  {
    hide IsBase, Unqualified, Names, IsOf;
    NamesIsUnqualified(c.key, f);
    IsBaseIsOf(table, c.key);
  }

  lemma AddsOneMore(conditions: seq<Condition>, table: string)
    requires conditions != []
    ensures var n := |conditions| - 1;
            forall f :: (exists i :: 0 <= i <= n && AddsColumn(conditions[i], table, f))
                        <==> (exists i :: 0 <= i < n && AddsColumn(conditions[..n][i], table, f)) || AddsColumn(conditions[n], table, f)
  {
    hide AddsColumn;
    var n := |conditions| - 1;
    forall f ensures (exists i :: 0 <= i <= n && AddsColumn(conditions[i], table, f))
                     <==> (exists i :: 0 <= i < n && AddsColumn(conditions[..n][i], table, f)) || AddsColumn(conditions[n], table, f)
    {
      if i :| 0 <= i < n && AddsColumn(conditions[i], table, f) { assert AddsColumn(conditions[..n][i], table, f); }
      if i :| 0 <= i < n && AddsColumn(conditions[..n][i], table, f) { assert AddsColumn(conditions[i], table, f); }
    }
  }

  // ---- The two filters --------------------------------------------------------------------------------------

  /** The conditions on the table itself. */
  ghost predicate MeetsOwn(row: Row, table: string, conditions: seq<Condition>) {
    forall i :: 0 <= i < |conditions| && IsOf(table, conditions[i].key) ==> MeetsOne(row, conditions[i])
  }

  /** The conditions on other tables, which are left for the joined rows. */
  ghost predicate MeetsLater(row: Row, table: string, conditions: seq<Condition>) {
    forall i :: 0 <= i < |conditions| && !IsOf(table, conditions[i].key) ==> MeetsOne(row, conditions[i])
  }

  lemma {:induction false} HalvesMeet(row: Row, table: string, conditions: seq<Condition>)
    ensures Passes(row, BaseConditions(table, conditions)) <==> MeetsOwn(row, table, conditions)
    ensures PassesPost(row, PostConditions(table, conditions)) <==> MeetsLater(row, table, conditions)
  {
    hide IsBase, Holds, Unqualified, MeetsOne, Field, IsOf;
    if conditions != [] {
      var init, c := conditions[..|conditions| - 1], conditions[|conditions| - 1];
      HalvesMeet(row, table, init);
      MeetsOneIff(row, c);
      IsBaseIsOf(table, c.key);
      var base, post := BaseConditions(table, init), PostConditions(table, init);
      PassesOneMore(row, base, c.(key := Unqualified(c.key)));
      PostOneMore(row, post, c);
      MeetsOneMore(row, table, conditions);
      hide Passes, PassesPost, MeetsOwn, MeetsLater;
      assert base + [] == base && post + [] == post;
    }
  }

  lemma MeetsOneMore(row: Row, table: string, conditions: seq<Condition>)
    requires conditions != []
    ensures var init, c := conditions[..|conditions| - 1], conditions[|conditions| - 1];
            && (MeetsOwn(row, table, conditions) <==> MeetsOwn(row, table, init) && (IsOf(table, c.key) ==> MeetsOne(row, c)))
            && (MeetsLater(row, table, conditions) <==> MeetsLater(row, table, init) && (!IsOf(table, c.key) ==> MeetsOne(row, c)))
  {
    hide MeetsOne, IsOf;
    var init := conditions[..|conditions| - 1];
    assert forall i :: 0 <= i < |init| ==> init[i] == conditions[i];
  }

  /** The positions of the rows that meet the table's own conditions. */
  ghost predicate Scans(t: Table, table: string, conditions: seq<Condition>, picks: seq<nat>) {
    && Rising(picks) && (forall k :: 0 <= k < |picks| ==> picks[k] < |t|)
    && forall i: nat :: i < |t| ==> (i in picks <==> MeetsOwn(t[i].row, table, conditions))
  }

  lemma {:induction false} BaseMeans(t: Table, table: string, conditions: seq<Condition>) returns (picks: seq<nat>)
    ensures Scans(t, table, conditions, picks) && |picks| == |Filtered(t, BaseConditions(table, conditions))|
    ensures forall k :: 0 <= k < |picks| ==> picks[k] < |t| && Filtered(t, BaseConditions(table, conditions))[k] == t[picks[k]]
  {
    hide *;
    FilteredLast(t, BaseConditions(table, conditions));
    if t == [] {
      picks := [];
      NoneScans(table, conditions);
    } else {
      var n := |t| - 1;
      picks := BaseMeans(t[..n], table, conditions);
      HalvesMeet(t[n].row, table, conditions);
      ScansOneMore(t, table, conditions, picks);
      if MeetsOwn(t[n].row, table, conditions) { picks := picks + [n]; }
    }
  }

  lemma FilteredLast(t: Table, conditions: seq<Condition>)
    ensures t == [] ==> Filtered(t, conditions) == []
    ensures t != [] ==> var n := |t| - 1;
              Filtered(t, conditions) == if Passes(t[n].row, conditions) then Filtered(t[..n], conditions) + [t[n]] else Filtered(t[..n], conditions)
  {
    hide Passes;
  }

  lemma NoneScans(table: string, conditions: seq<Condition>)
    ensures Scans([], table, conditions, [])
  {}

  lemma ScansOneMore(t: Table, table: string, conditions: seq<Condition>, picks: seq<nat>)
    requires t != [] && Scans(t[..|t| - 1], table, conditions, picks)
    ensures var n := |t| - 1; Scans(t, table, conditions, if MeetsOwn(t[n].row, table, conditions) then picks + [n] else picks)
  {
    hide MeetsOwn;
    var n := |t| - 1;
    forall i: nat | i < n ensures i in picks <==> MeetsOwn(t[i].row, table, conditions) { assert t[..n][i] == t[i]; }
    assert n !in picks;
  }

  /** The rows that meet the other conditions, in order, each with the columns that these name. */
  ghost predicate Keeps(out: seq<Row>, rows: seq<Row>, table: string, conditions: seq<Condition>) {
    exists picks: seq<nat> :: KeptAt(out, rows, table, conditions, picks)
  }

  ghost predicate KeptAt(out: seq<Row>, rows: seq<Row>, table: string, conditions: seq<Condition>, picks: seq<nat>) {
    && Rising(picks) && |out| == |picks|
    && (forall i: nat :: i in picks <==> i < |rows| && MeetsLater(rows[i], table, conditions))
    && forall k :: 0 <= k < |out| ==> picks[k] < |rows| && ShowsWhole(out[k], rows[picks[k]], table, conditions)
  }

  lemma {:induction false} KeepsMeans(rows: seq<Row>, table: string, conditions: seq<Condition>) returns (picks: seq<nat>)
    ensures KeptAt(PostFilter(rows, PostConditions(table, conditions)), rows, table, conditions, picks)
  {
    hide MeetsLater, MeetsOwn, Passes, PassesPost, ShowsWhole, TouchedAll, PostConditions, KeptAt;
    if rows == [] {
      picks := [];
      NothingKept(table, conditions);
    } else {
      var n := |rows| - 1;
      picks := KeepsMeans(rows[..n], table, conditions);
      HalvesMeet(rows[n], table, conditions);
      TouchedShows(rows[n], table, conditions);
      var post := PostConditions(table, conditions);
      KeptOneMore(PostFilter(rows[..n], post), rows, table, conditions, picks, TouchedAll(rows[n], post));
      assert PostFilter(rows[..n], post) + [] == PostFilter(rows[..n], post);
      if MeetsLater(rows[n], table, conditions) { picks := picks + [n]; }
    }
  }

  lemma NothingKept(table: string, conditions: seq<Condition>)
    ensures KeptAt([], [], table, conditions, [])
  {}

  lemma KeptOneMore(out: seq<Row>, rows: seq<Row>, table: string, conditions: seq<Condition>, picks: seq<nat>, last: Row)
    requires rows != [] && KeptAt(out, rows[..|rows| - 1], table, conditions, picks)
    requires ShowsWhole(last, rows[|rows| - 1], table, conditions)
    ensures var n := |rows| - 1;
            if MeetsLater(rows[n], table, conditions) then KeptAt(out + [last], rows, table, conditions, picks + [n])
            else KeptAt(out, rows, table, conditions, picks)
  {
    hide MeetsLater, ShowsWhole;
    var n := |rows| - 1;
    assert forall i :: 0 <= i < n ==> rows[..n][i] == rows[i];
    assert forall k :: 0 <= k < |picks| ==> picks[k] < n;
    assert forall i: nat :: i in picks + [n] <==> i in picks || i == n;
  }
}

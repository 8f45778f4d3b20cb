/** GROUP BY: accumulators in key order, and why their sums add up to the ungrouped sum. */
module Grouping {
  import opened Bytes
  import opened Database
  import opened Selecting

  datatype Agg = Agg(field: string, alias: string)

  /** A std::map from group keys, in iteration order. */
  datatype Group<V> = Group(key: string, value: V)

  predicate InOrder<V>(groups: seq<Group<V>>) { forall i, j :: 0 <= i < j < |groups| ==> Less(groups[i].key, groups[j].key) }

  /** groups[key] with a change applied; a missing key starts from `zero`. */
  function Bump<V>(groups: seq<Group<V>>, key: string, zero: V, change: V -> V): seq<Group<V>> {
    if groups == [] then [Group(key, change(zero))]
    else if groups[0].key == key then [Group(key, change(groups[0].value))] + groups[1..]
    else if Less(key, groups[0].key) then [Group(key, change(zero))] + groups
    else [groups[0]] + Bump(groups[1..], key, zero, change)
  }

  function ValueAt<V>(groups: seq<Group<V>>, key: string, zero: V): V {
    if groups == [] then zero else if groups[0].key == key then groups[0].value else ValueAt(groups[1..], key, zero)
  }

  function KeySet<V>(groups: seq<Group<V>>): set<string> { set i | 0 <= i < |groups| :: groups[i].key }

  function Total<V>(groups: seq<Group<V>>, weight: V -> real): real {
    if groups == [] then 0.0 else weight(groups[0].value) + Total(groups[1..], weight)
  }

  lemma {:induction false} BumpKeys<V>(groups: seq<Group<V>>, key: string, zero: V, change: V -> V)
    requires InOrder(groups)
    ensures InOrder(Bump(groups, key, zero, change))
    ensures forall g :: g in Bump(groups, key, zero, change) ==> g.key == key || g in groups
    ensures KeySet(Bump(groups, key, zero, change)) == KeySet(groups) + {key}
  {
    hide Less;
    if groups == [] {
      assert Bump(groups, key, zero, change)[0].key == key;
    } else {
      hide InOrder;
      var head, rest := groups[0], groups[1..];
      AfterHead(groups);
      assert groups == [head] + rest;
      LessIsTotal(key, head.key);
      if head.key == key {
        ConsInOrder(Group(key, change(head.value)), rest);
      } else if Less(key, head.key) {
        forall g | g in groups ensures Less(key, g.key) {
          if g != head { LessIsTransitive(key, head.key, g.key); }
        }
        ConsInOrder(Group(key, change(zero)), groups);
      } else {
        BumpKeys(rest, key, zero, change);
        ConsInOrder(head, Bump(rest, key, zero, change));
      }
      ConsKeys(head, rest);
    }
  }

  lemma AfterHead<V>(groups: seq<Group<V>>)
    requires InOrder(groups) && groups != []
    ensures InOrder(groups[1..]) && forall g :: g in groups[1..] ==> Less(groups[0].key, g.key)
  {
    hide Less;
  }

  lemma ConsInOrder<V>(head: Group<V>, rest: seq<Group<V>>)
    requires InOrder(rest) && forall g :: g in rest ==> Less(head.key, g.key)
    ensures InOrder([head] + rest) && KeySet([head] + rest) == {head.key} + KeySet(rest)
  {
    hide Less;
    var all := [head] + rest;
    assert all[1..] == rest;
    HeadInOrder(all);
    ConsKeys(head, rest);
  }

  lemma ConsKeys<V>(head: Group<V>, rest: seq<Group<V>>)
    ensures KeySet([head] + rest) == {head.key} + KeySet(rest)
  {
    assert ([head] + rest)[1..] == rest;
    KeySetCons([head] + rest);
  }

  lemma KeySetCons<V>(groups: seq<Group<V>>)
    requires groups != []
    ensures KeySet(groups) == {groups[0].key} + KeySet(groups[1..])
  {
    forall k | k in KeySet(groups) ensures k in {groups[0].key} + KeySet(groups[1..]) {
      var i :| 0 <= i < |groups| && groups[i].key == k;
      if i > 0 { assert groups[1..][i - 1].key == k; }
    }
    forall k | k in KeySet(groups[1..]) ensures k in KeySet(groups) {
      var i :| 0 <= i < |groups[1..]| && groups[1..][i].key == k;
      assert groups[i + 1].key == k;
    }
    assert groups[0].key in KeySet(groups);
  }

  lemma HeadInOrder<V>(groups: seq<Group<V>>)
    requires groups != [] && InOrder(groups[1..])
    requires forall g :: g in groups[1..] ==> Less(groups[0].key, g.key)
    ensures InOrder(groups)
  {
    forall i, j | 0 <= i < j < |groups| ensures Less(groups[i].key, groups[j].key) {
      assert groups[1..][j - 1] == groups[j];
      if i > 0 { assert groups[1..][i - 1] == groups[i]; }
    }
  }

  lemma {:induction false} BumpAt<V>(groups: seq<Group<V>>, key: string, zero: V, change: V -> V, other: string)
    requires InOrder(groups)
    ensures ValueAt(Bump(groups, key, zero, change), other, zero)
            == if other == key then change(ValueAt(groups, key, zero)) else ValueAt(groups, other, zero)
  {
    if groups != [] {
      var after := Bump(groups, key, zero, change);
      if groups[0].key == key {
        assert after[1..] == groups[1..];
      } else if Less(key, groups[0].key) {
        assert after[1..] == groups;
        if other == key { AbsentBelow(groups, key, zero); }
      } else {
        assert after[1..] == Bump(groups[1..], key, zero, change);
        BumpAt(groups[1..], key, zero, change, other);
      }
    }
  }

  lemma {:induction false} AbsentBelow<V>(groups: seq<Group<V>>, key: string, zero: V)
    requires InOrder(groups) && (groups != [] ==> Less(key, groups[0].key))
    ensures ValueAt(groups, key, zero) == zero
  {
    if groups != [] {
      LessIsStrict(key, groups[0].key);
      if |groups| > 1 { LessIsTransitive(key, groups[0].key, groups[1].key); }
      AbsentBelow(groups[1..], key, zero);
    }
  }

  /** A change adds to the total what it adds to its group. */
  lemma {:induction false} BumpTotal<V(!new)>(groups: seq<Group<V>>, key: string, zero: V, change: V -> V, weight: V -> real, added: real)
    requires weight(zero) == 0.0 && forall v :: weight(change(v)) == weight(v) + added
    ensures Total(Bump(groups, key, zero, change), weight) == Total(groups, weight) + added
  {
    if groups != [] {
      var after := Bump(groups, key, zero, change);
      if groups[0].key == key {
        assert after[1..] == groups[1..];
      } else if Less(key, groups[0].key) {
        assert after[1..] == groups;
      } else {
        BumpTotal(groups[1..], key, zero, change, weight, added);
        assert after[1..] == Bump(groups[1..], key, zero, change);
      }
    }
  }

  // ---- SUM ----------------------------------------------------------------------------------------------------

  type Sums = map<string, real>

  function NameOf(a: Agg): string { if a.alias == "" then a.field else a.alias }

  function SumAt(sums: Sums, name: string): real { if name in sums then sums[name] else 0.0 }

  /** The number a row gives to one aggregate; `stod` gives 0 where std::stod throws. */
  function Amount(row: Row, a: Agg, stod: string -> real): real { stod(Field(row, Unqualified(a.field))) }

  function AddAggs(sums: Sums, row: Row, aggs: seq<Agg>, stod: string -> real): Sums {
    if aggs == [] then sums
    else
      var a := aggs[|aggs| - 1];
      var before := AddAggs(sums, row, aggs[..|aggs| - 1], stod);
      before[NameOf(a) := SumAt(before, NameOf(a)) + Amount(row, a, stod)]
  }

  function Accumulate(rows: seq<Row>, column: string, aggs: seq<Agg>, stod: string -> real): seq<Group<Sums>> {
    if rows == [] then []
    else
      var row := rows[|rows| - 1];
      Bump(Accumulate(rows[..|rows| - 1], column, aggs, stod), Field(row, column), map[], sums => AddAggs(sums, row, aggs, stod))
  }

  /** What a row adds to the column `name`. */
  function Contribution(row: Row, aggs: seq<Agg>, name: string, stod: string -> real): real {
    if aggs == [] then 0.0
    else
      var a := aggs[|aggs| - 1];
      Contribution(row, aggs[..|aggs| - 1], name, stod) + (if NameOf(a) == name then Amount(row, a, stod) else 0.0)
  }

  function SumOf(rows: seq<Row>, aggs: seq<Agg>, name: string, stod: string -> real): real {
    if rows == [] then 0.0
    else SumOf(rows[..|rows| - 1], aggs, name, stod) + Contribution(rows[|rows| - 1], aggs, name, stod)
  }

  function RowsWith(rows: seq<Row>, column: string, key: string): seq<Row> {
    if rows == [] then []
    else
      var row := rows[|rows| - 1];
      RowsWith(rows[..|rows| - 1], column, key) + (if Field(row, column) == key then [row] else [])
  }

  lemma {:induction false} AddAggsSum(sums: Sums, row: Row, aggs: seq<Agg>, name: string, stod: string -> real)
    ensures SumAt(AddAggs(sums, row, aggs, stod), name) == SumAt(sums, name) + Contribution(row, aggs, name, stod)
  {
    if aggs != [] { AddAggsSum(sums, row, aggs[..|aggs| - 1], name, stod); }
  }

  lemma SumOfSnoc(rows: seq<Row>, row: Row, aggs: seq<Agg>, name: string, stod: string -> real)
    ensures SumOf(rows + [row], aggs, name, stod) == SumOf(rows, aggs, name, stod) + Contribution(row, aggs, name, stod)
  {
    assert (rows + [row])[..|rows|] == rows;
  }

  lemma NoGroups(key: string, aggs: seq<Agg>, name: string, stod: string -> real)
    ensures InOrder<Sums>([]) && KeySet<Sums>([]) == {} && SumAt(ValueAt([], key, map[]), name) == 0.0 == SumOf([], aggs, name, stod)
  {}

  /** A group's sum is the sum over the rows of that group. */
  lemma {:induction false} GroupSum(rows: seq<Row>, column: string, aggs: seq<Agg>, stod: string -> real, key: string, name: string)
    ensures InOrder(Accumulate(rows, column, aggs, stod))
    ensures KeySet(Accumulate(rows, column, aggs, stod)) == set r | r in rows :: Field(r, column)
    ensures SumAt(ValueAt(Accumulate(rows, column, aggs, stod), key, map[]), name) == SumOf(RowsWith(rows, column, key), aggs, name, stod)
  {
    hide AddAggs, SumOf, SumAt, Bump, InOrder, Field, ValueAt, KeySet;
    if rows == [] {
      NoGroups(key, aggs, name, stod);
    } else {
      var init, row := rows[..|rows| - 1], rows[|rows| - 1];
      var groups := Accumulate(init, column, aggs, stod);
      var change := sums => AddAggs(sums, row, aggs, stod);
      GroupSum(init, column, aggs, stod, key, name);
      BumpKeys(groups, Field(row, column), map[], change);
      BumpAt(groups, Field(row, column), map[], change, key);
      AddAggsSum(ValueAt(groups, key, map[]), row, aggs, name, stod);
      SumOfSnoc(RowsWith(init, column, key), row, aggs, name, stod);
      assert init + [row] == rows;
      assert RowsWith(init, column, key) + [] == RowsWith(init, column, key);
    }
  }

  /** The groups partition the rows: their sums add up to the sum without grouping. */
  lemma {:induction false} GroupsAddUp(rows: seq<Row>, column: string, aggs: seq<Agg>, stod: string -> real, name: string)
    ensures Total(Accumulate(rows, column, aggs, stod), (sums: Sums) => SumAt(sums, name)) == SumOf(rows, aggs, name, stod)
  {
    var weight := (sums: Sums) => SumAt(sums, name);
    if rows != [] {
      var init, row := rows[..|rows| - 1], rows[|rows| - 1];
      var change := sums => AddAggs(sums, row, aggs, stod);
      GroupsAddUp(init, column, aggs, stod, name);
      forall sums ensures weight(change(sums)) == weight(sums) + Contribution(row, aggs, name, stod) {
        AddAggsSum(sums, row, aggs, name, stod);
      }
      BumpTotal(Accumulate(init, column, aggs, stod), Field(row, column), map[], change, weight, Contribution(row, aggs, name, stod));
    }
  }

  // ---- COUNT --------------------------------------------------------------------------------------------------

  function Tally(rows: seq<Row>, column: string): seq<Group<nat>> {
    if rows == [] then []
    else Bump(Tally(rows[..|rows| - 1], column), Field(rows[|rows| - 1], column), 0, (n: nat) => n + 1)
  }

  lemma {:induction false} CountedKeys(rows: seq<Row>, column: string)
    ensures InOrder(Tally(rows, column)) && KeySet(Tally(rows, column)) == set r | r in rows :: Field(r, column)
  {
    hide Bump, InOrder, Field, KeySet;
    if rows == [] {
      NothingCounted();
    } else {
      var init, row := rows[..|rows| - 1], rows[|rows| - 1];
      CountedKeys(init, column);
      BumpKeys(Tally(init, column), Field(row, column), 0, (n: nat) => n + 1);
      assert init + [row] == rows;
    }
  }

  lemma NothingCounted()
    ensures InOrder<nat>([]) && KeySet<nat>([]) == {}
  {}

  /** A group's count is the number of its rows. */
  lemma {:induction false} GroupCount(rows: seq<Row>, column: string, key: string)
    ensures ValueAt(Tally(rows, column), key, 0) == |RowsWith(rows, column, key)|
  {
    if rows != [] {
      var init, row := rows[..|rows| - 1], rows[|rows| - 1];
      hide Bump, InOrder, Field, ValueAt;
      CountedKeys(init, column);
      GroupCount(init, column, key);
      BumpAt(Tally(init, column), Field(row, column), 0, (n: nat) => n + 1, key);
    }
  }

  /** Every row is counted in one group. */
  lemma {:induction false} CountsAddUp(rows: seq<Row>, column: string)
    ensures Total(Tally(rows, column), (n: nat) => n as real) == |rows| as real
  {
    hide Bump, Field;
    if rows != [] {
      var init, row := rows[..|rows| - 1], rows[|rows| - 1];
      CountsAddUp(init, column);
      BumpTotal(Tally(init, column), Field(row, column), 0, (n: nat) => n + 1, (n: nat) => n as real, 1.0);
    }
  }
}

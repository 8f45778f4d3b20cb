/** What a join answers: which rows it puts together, in which order, and what the joined rows hold. */
module JoinMeaning {
  import opened Bytes
  import opened Options
  import opened Database
  import opened Indexing
  import opened Selecting
  import opened SelectMeaning

  // ---- One left row -------------------------------------------------------------------------------------------

  /** The columns of both rows; where both have one, the left row's. A column joined on that is missing is added, empty. */
  ghost predicate Combines(out: Row, left: Row, right: Row, joinedOn: string) {
    && (forall c :: c in out <==> c in left || c in right || c == joinedOn)
    && (forall c :: c in left ==> c in out && out[c] == left[c])
    && (forall c :: c in right && c !in left ==> c in out && out[c] == right[c])
    && (joinedOn !in left && joinedOn !in right ==> joinedOn in out && out[joinedOn] == "")
  }

  /** The positions of the rows with this value in the column, in order. */
  predicate Finds(right: Table, column: string, value: string, found: seq<nat>) {
    && Rising(found) && (forall k :: 0 <= k < |found| ==> found[k] < |right|)
    && forall m :: 0 <= m < |right| ==> (m in found <==> Cell(right[m].row, column) == value)
  }

  ghost predicate CombinesAll(out: seq<Row>, left: Row, right: Table, joinedOn: string, found: seq<nat>) {
    |out| == |found| && forall k :: 0 <= k < |found| ==> found[k] < |right| && Combines(out[k], left, right[found[k]].row, joinedOn)
  }

  lemma MergedCombines(left: Row, right: Row, joinedOn: string)
    ensures Combines(Merged(left, Touched(right, joinedOn)), left, right, joinedOn)
  {}

  lemma {:induction false} ScanFinds(right: Table, column: string, value: string, left: Row) returns (found: seq<nat>)
    ensures Finds(right, column, value, found) && CombinesAll(ScanMatches(right, column, value, left), left, right, column, found)
  {
    hide *;
    if right == [] {
      found := [];
      NothingFound(column, value, left);
    } else {
      var n := |right| - 1;
      found := ScanFinds(right[..n], column, value, left);
      FindsOneMore(right, column, value, found);
      CombinesOneMore(right, column, value, left, found);
      if Cell(right[n].row, column) == value { found := found + [n]; }
    }
  }

  lemma NothingFound(column: string, value: string, left: Row)
    ensures Finds([], column, value, []) && CombinesAll(ScanMatches([], column, value, left), left, [], column, [])
  {}

  lemma CombinesOneMore(right: Table, column: string, value: string, left: Row, found: seq<nat>)
    requires right != [] && CombinesAll(ScanMatches(right[..|right| - 1], column, value, left), left, right[..|right| - 1], column, found)
    ensures var n := |right| - 1;
            CombinesAll(ScanMatches(right, column, value, left), left, right, column,
                        if Cell(right[n].row, column) == value then found + [n] else found)
  {
    hide Combines, Merged, Touched;
    MergedCombines(left, right[|right| - 1].row, column);
  }

  lemma FindsOneMore(right: Table, column: string, value: string, found: seq<nat>)
    requires right != [] && Finds(right[..|right| - 1], column, value, found)
    ensures var n := |right| - 1; Finds(right, column, value, if Cell(right[n].row, column) == value then found + [n] else found)
  {
    hide Cell;
    var n := |right| - 1;
    forall m | 0 <= m < n ensures m in found <==> Cell(right[m].row, column) == value { assert right[..n][m] == right[m]; }
    assert n !in found;
  }

  // ---- All left rows ------------------------------------------------------------------------------------------

  /** Where a joined row comes from: a left row, and a row of the right table or none. */
  datatype Origin = Origin(left: nat, right: Option<nat>)

  predicate Earlier(a: Origin, b: Origin) {
    a.left < b.left || (a.left == b.left && a.right.Some? && b.right.Some? && a.right.value < b.right.value)
  }

  predicate Agree(left: Row, right: Row, j: Join) { Cell(left, j.leftField) == Cell(right, j.rightField) }

  /** These and no others belong together: each two rows that agree, and in a LEFT join each left row that agrees with none. */
  predicate Belongs(o: Origin, rows: seq<Row>, right: Table, j: Join) {
    && o.left < |rows|
    && if o.right.Some? then o.right.value < |right| && Agree(rows[o.left], right[o.right.value].row, j)
       else j.isLeft && forall m :: 0 <= m < |right| ==> !Agree(rows[o.left], right[m].row, j)
  }

  ghost predicate Origins(from: seq<Origin>, rows: seq<Row>, right: Table, j: Join) {
    && (forall k, l :: 0 <= k < l < |from| ==> Earlier(from[k], from[l]))
    && forall o :: o in from <==> Belongs(o, rows, right, j)
  }

  ghost predicate Carries(out: Row, o: Origin, rows: seq<Row>, right: Table, j: Join) {
    && o.left < |rows|
    && if o.right.None? then out == rows[o.left]
       else o.right.value < |right| && Combines(out, rows[o.left], right[o.right.value].row, j.rightField)
  }

  /** A join of stored rows without an index: for every list of left rows, these rows in this order. */
  ghost predicate Joins(out: seq<Row>, rows: seq<Row>, right: Table, j: Join) {
    exists from: seq<Origin> :: Origins(from, rows, right, j) && |out| == |from|
                                && forall k :: 0 <= k < |out| ==> Carries(out[k], from[k], rows, right, j)
  }

  function OriginsOf(n: nat, found: seq<nat>, isLeft: bool): seq<Origin> {
    if found == [] then (if isLeft then [Origin(n, None)] else [])
    else seq(|found|, k requires 0 <= k < |found| => Origin(n, Some(found[k])))
  }

  lemma OriginsOfRow(rows: seq<Row>, n: nat, right: Table, j: Join, found: seq<nat>)
    requires n < |rows| && Finds(right, j.rightField, Cell(rows[n], j.leftField), found)
    ensures var from := OriginsOf(n, found, j.isLeft);
            && (forall k, l :: 0 <= k < l < |from| ==> Earlier(from[k], from[l]))
            && forall o: Origin :: o in from <==> o.left == n && Belongs(o, rows, right, j)
  {
    hide Cell;
    var from := OriginsOf(n, found, j.isLeft);
    forall o: Origin ensures o in from <==> o.left == n && Belongs(o, rows, right, j) {
      if o.left == n && Belongs(o, rows, right, j) {
        if o.right.Some? {
          assert o.right.value in found;
          var k :| 0 <= k < |found| && found[k] == o.right.value;
          assert from[k] == o;
        } else if found != [] {
          assert Agree(rows[n], right[found[0]].row, j) by { assert found[0] in found; }
          assert false;
        }
      }
      if o in from && found == [] {
        forall m | 0 <= m < |right| ensures !Agree(rows[n], right[m].row, j) { assert m !in found; }
      }
      if o in from && found != [] {
        var k :| 0 <= k < |from| && from[k] == o;
        assert found[k] in found;
      }
    }
  }

  lemma JoinRowMeans(tables: Tables, j: Join, rows: seq<Row>, n: nat) returns (from: seq<Origin>)
    requires n < |rows|
    ensures var r := JoinRow(tables, map[], j, rows[n]); var right := ContentsOf(tables, j.rightTable);
            && r.Some? && |from| == |r.value|
            && (forall k, l :: 0 <= k < l < |from| ==> Earlier(from[k], from[l]))
            && (forall o: Origin :: o in from <==> o.left == n && Belongs(o, rows, right, j))
            && forall k :: 0 <= k < |from| ==> Carries(r.value[k], from[k], rows, right, j)
  {
    var right := ContentsOf(tables, j.rightTable);
    var value := Field(rows[n], j.leftField);
    var found := ScanFinds(right, j.rightField, value, rows[n]);
    OriginsOfRow(rows, n, right, j, found);
    hide Finds, Combines, Belongs, Earlier;
    from := OriginsOf(n, found, j.isLeft);
  }

  lemma {:induction false} JoinMeans(tables: Tables, j: Join, rows: seq<Row>) returns (from: seq<Origin>)
    ensures var r := JoinRows(tables, map[], j, rows); var right := ContentsOf(tables, j.rightTable);
            && r.Some? && Origins(from, rows, right, j) && |r.value| == |from|
            && forall k :: 0 <= k < |from| ==> Carries(r.value[k], from[k], rows, right, j)
  {
    hide JoinRow, Carries, Belongs, Earlier;
    var right := ContentsOf(tables, j.rightTable);
    if rows == [] {
      from := [];
      forall o: Origin ensures !Belongs(o, rows, right, j) { NothingBelongs(o, right, j); }
    } else {
      var n := |rows| - 1;
      from := JoinMeans(tables, j, rows[..n]);
      var more := JoinRowMeans(tables, j, rows, n);
      hide JoinRows, Origins;
      JoinOneMore(tables, j, rows);
      OriginsOneMore(from, more, rows, right, j);
      forall k | 0 <= k < |from| ensures Carries(JoinRows(tables, map[], j, rows[..n]).value[k], from[k], rows, right, j) {
        CarriesMore(JoinRows(tables, map[], j, rows[..n]).value[k], from[k], rows, right, j);
      }
      from := from + more;
    }
  }

  lemma NothingBelongs(o: Origin, right: Table, j: Join)
    ensures !Belongs(o, [], right, j)
  {}

  lemma JoinOneMore(tables: Tables, j: Join, rows: seq<Row>)
    requires rows != []
    ensures var n := |rows| - 1;
            JoinRows(tables, map[], j, rows) == Cat(JoinRows(tables, map[], j, rows[..n]), JoinRow(tables, map[], j, rows[n]))
  {
    hide JoinRow;
  }

  lemma CarriesMore(out: Row, o: Origin, rows: seq<Row>, right: Table, j: Join)
    requires rows != [] && Carries(out, o, rows[..|rows| - 1], right, j)
    ensures Carries(out, o, rows, right, j)
  {
    hide Combines;
  }

  lemma OriginsOneMore(from: seq<Origin>, more: seq<Origin>, rows: seq<Row>, right: Table, j: Join)
    requires rows != [] && Origins(from, rows[..|rows| - 1], right, j)
    requires forall k, l :: 0 <= k < l < |more| ==> Earlier(more[k], more[l])
    requires forall o: Origin :: o in more <==> o.left == |rows| - 1 && Belongs(o, rows, right, j)
    ensures Origins(from + more, rows, right, j)
  {
    hide Agree;
    var n := |rows| - 1;
    var all := from + more;
    forall o: Origin ensures o in all <==> Belongs(o, rows, right, j) {
      assert o in all <==> o in from || o in more;
      if o.left < n { assert rows[..n][o.left] == rows[o.left]; }
      assert Belongs(o, rows[..n], right, j) <==> Belongs(o, rows, right, j) && o.left < n;
    }
    forall k, l | 0 <= k < l < |all| ensures Earlier(all[k], all[l]) {
      if k < |from| <= l {
        assert all[k] in from && all[l] in more;
        assert Belongs(all[k], rows[..n], right, j);
      }
    }
  }

  /** With fresh indexes a join answers the same, where no empty value meets a row without the column. */
  lemma IndexedJoinMeans(tables: Tables, index: Index, j: Join, rows: seq<Row>)
    requires TablesFit(tables) && Fresh(tables, index) && forall i :: 0 <= i < |rows| ==> Joinable(tables, j, rows[i])
    ensures var r := JoinRows(tables, index, j, rows); r.Some? && Joins(r.value, rows, ContentsOf(tables, j.rightTable), j)
  {
    hide JoinRows, Origins, Carries, Fresh, TablesFit, Joinable;
    IndexIsTransparent(tables, index, j, rows);
    var from := JoinMeans(tables, j, rows);
  }
}

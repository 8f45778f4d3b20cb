/** The journal in the tables of the engine: rows as texts, and sums over the rows of a table. */
module JournalTables {
  import opened Bytes
  import opened Options
  import Decimals
  import opened Database
  import A = Accounting

  // ---- Rows -------------------------------------------------------------------------------------------------------------

  /** An entry as it is inserted. */
  function EntryRow(e: A.Entry): Row {
    map["id" := e.id, "project_id" := e.project, "date" := e.date, "memo" := e.memo, "created_by" := e.createdBy, "created_at" := e.createdAt]
  }

  function LineKey(r: A.LineRow): string { r.entryId + "#" + Decimals.Text(r.lineNo) }

  /** A line as it is inserted; `text` writes a number as JSON and the store do. */
  function LineRow(r: A.LineRow, text: real -> string): Row {
    map["id" := LineKey(r), "entry_id" := r.entryId, "project_id" := r.project, "line_no" := Decimals.Text(r.lineNo),
        "account_code" := r.line.account, "debit" := text(r.line.debit), "credit" := text(r.line.credit)]
  }

  function EntriesTable(es: seq<A.Entry>): Table {
    if es == [] then []
    else
      var e := es[|es| - 1];
      PutRow(EntriesTable(es[..|es| - 1]), e.id, EntryRow(e))
  }

  function LinesTable(rs: seq<A.LineRow>, text: real -> string): Table {
    if rs == [] then []
    else
      var r := rs[|rs| - 1];
      PutRow(LinesTable(rs[..|rs| - 1], text), LineKey(r), LineRow(r, text))
  }

  // ---- Keys -------------------------------------------------------------------------------------------------------------

  /** An id as uuid() makes it: letters, digits and dashes. */
  predicate PlainId(id: string) { '#' !in id }

  predicate DistinctKeys(rs: seq<A.LineRow>) { forall i, j :: 0 <= i < j < |rs| ==> LineKey(rs[i]) != LineKey(rs[j]) }

  lemma SameLineKey(a: A.LineRow, b: A.LineRow)
    requires PlainId(a.entryId) && PlainId(b.entryId) && LineKey(a) == LineKey(b)
    ensures a.entryId == b.entryId && a.lineNo == b.lineNo
  {
    hide Decimals.Text;
    FirstHash(a.entryId, Decimals.Text(a.lineNo));
    FirstHash(b.entryId, Decimals.Text(b.lineNo));
    Decimals.TextIsInjective(a.lineNo, b.lineNo);
  }

  /** The first '#' of a key ends the entry's id. */
  lemma FirstHash(id: string, rest: string)
    requires PlainId(id)
    ensures var key := id + "#" + rest; var n := Find(key, "#", 0);
            n == |id| && key[..n] == id && key[n + 1..] == rest
  {
    var key := id + "#" + rest;
    assert OccursAt(key, |id|, "#");
    forall i | 0 <= i < |id| ensures !OccursAt(key, i, "#") {
      assert key[i] == id[i] && id[i] in id;
      assert key[i..i + 1] == [id[i]];
    }
  }

  lemma {:induction false} RowsAt(p: A.Post, n: nat)
    requires n <= |p.lines|
    ensures |A.RowsOfPost(p, n)| == n
    ensures forall i :: 0 <= i < n ==> A.RowsOfPost(p, n)[i] == A.LineRow(p.entry.id, p.entry.project, i + 1, p.lines[i])
  {
    if n > 0 { RowsAt(p, n - 1); }
  }

  /** Every line of posts belongs to one of them. */
  lemma {:induction false} PostOfRow(posts: seq<A.Post>, i: nat)
    requires i < |A.RowsOfPosts(posts)|
    ensures exists k :: 0 <= k < |posts| && posts[k].entry.id == A.RowsOfPosts(posts)[i].entryId
  {
    var init, p := posts[..|posts| - 1], posts[|posts| - 1];
    RowsAt(p, |p.lines|);
    if i < |A.RowsOfPosts(init)| {
      PostOfRow(init, i);
      var k :| 0 <= k < |init| && init[k].entry.id == A.RowsOfPosts(init)[i].entryId;
      assert posts[k] == init[k];
    } else {
      assert posts[|posts| - 1].entry.id == A.RowsOfPosts(posts)[i].entryId;
    }
  }

  predicate PlainIds(posts: seq<A.Post>) { forall i :: 0 <= i < |posts| ==> PlainId(posts[i].entry.id) }

  /** Lines of different posts, and different lines of one, have different keys. */
  lemma {:induction false} PostedKeysDiffer(posts: seq<A.Post>)
    requires A.FreshIds(posts) && PlainIds(posts)
    ensures DistinctKeys(A.RowsOfPosts(posts))
  {
    hide LineKey, PlainId;
    if posts != [] {
      var init, p := posts[..|posts| - 1], posts[|posts| - 1];
      PostedKeysDiffer(init);
      RowsAt(p, |p.lines|);
      var rs, before := A.RowsOfPosts(posts), A.RowsOfPosts(init);
      assert rs == before + A.RowsOfPost(p, |p.lines|);
      forall i, j | 0 <= i < j < |rs| ensures LineKey(rs[i]) != LineKey(rs[j]) {
        if j >= |before| {
          if i < |before| {
            PostOfRow(init, i);
            var k :| 0 <= k < |init| && init[k].entry.id == before[i].entryId;
            assert posts[k].entry.id != p.entry.id;
          }
          assert rs[j].entryId == p.entry.id;
          PlainRow(posts, i);
          if LineKey(rs[i]) == LineKey(rs[j]) { SameLineKey(rs[i], rs[j]); }
        }
      }
    }
  }

  lemma PlainRow(posts: seq<A.Post>, i: nat)
    requires PlainIds(posts) && i < |A.RowsOfPosts(posts)|
    ensures PlainId(A.RowsOfPosts(posts)[i].entryId)
  {
    PostOfRow(posts, i);
  }

  // ---- Sums over tables ---------------------------------------------------------------------------------------------------

  function WeighTable(t: Table, weight: Row -> real): real {
    if t == [] then 0.0 else weight(t[0].row) + WeighTable(t[1..], weight)
  }

  lemma {:induction false} WeighSnoc(t: Table, e: Entry, weight: Row -> real)
    ensures WeighTable(t + [e], weight) == WeighTable(t, weight) + weight(e.row)
  {
    if t == [] {
      assert (t + [e])[1..] == [] && (t + [e])[0] == e;
    } else {
      WeighSnoc(t[1..], e, weight);
      assert (t + [e])[1..] == t[1..] + [e];
    }
  }

  /** Wherever a new key is put, its row adds its weight. */
  lemma {:induction false} WeighPut(t: Table, key: string, row: Row, weight: Row -> real)
    requires !HasKey(t, key)
    ensures WeighTable(PutRow(t, key, row), weight) == WeighTable(t, weight) + weight(row)
  {
    var u := PutRow(t, key, row);
    if t == [] {
      assert u[1..] == [];
    } else {
      assert t[0].key != key;
      if Less(key, t[0].key) {
        assert u[1..] == t;
      } else {
        assert u[1..] == PutRow(t[1..], key, row);
        assert forall i :: 0 <= i < |t[1..]| ==> t[1..][i] == t[i + 1];
        WeighPut(t[1..], key, row, weight);
      }
    }
  }

  function WeighLines(rs: seq<A.LineRow>, text: real -> string, weight: Row -> real): real {
    if rs == [] then 0.0 else WeighLines(rs[..|rs| - 1], text, weight) + weight(LineRow(rs[|rs| - 1], text))
  }

  lemma {:induction false} LinesTableFits(rs: seq<A.LineRow>, text: real -> string)
    ensures Ascending(LinesTable(rs, text))
    ensures forall key :: HasKey(LinesTable(rs, text), key) <==> exists i :: 0 <= i < |rs| && LineKey(rs[i]) == key
  {
    hide LineKey, LineRow, Ascending, HasKey;
    if rs == [] {
      NoKeys();
    } else {
      var init, r := rs[..|rs| - 1], rs[|rs| - 1];
      LinesTableFits(init, text);
      var t := LinesTable(init, text);
      forall key ensures HasKey(LinesTable(rs, text), key) <==> exists i :: 0 <= i < |rs| && LineKey(rs[i]) == key {
        PutThenGet(t, LineKey(r), LineRow(r, text), key);
        if i :| 0 <= i < |init| && LineKey(init[i]) == key { assert rs[i] == init[i]; }
        if i :| 0 <= i < |rs| && LineKey(rs[i]) == key {
          if i < |init| { assert init[i] == rs[i]; }
        }
      }
      PutThenGet(t, LineKey(r), LineRow(r, text), LineKey(r));
    }
  }

  lemma NoKeys()
    ensures Ascending([]) && forall key :: !HasKey([], key)
  {}

  /** Key order does not matter to sums: the table of lines weighs what the lines weigh. */
  lemma {:induction false} WeighLinesTable(rs: seq<A.LineRow>, text: real -> string, weight: Row -> real)
    requires DistinctKeys(rs)
    ensures WeighTable(LinesTable(rs, text), weight) == WeighLines(rs, text, weight)
  {
    hide LineKey, LineRow, HasKey;
    if rs != [] {
      var init, r := rs[..|rs| - 1], rs[|rs| - 1];
      WeighLinesTable(init, text, weight);
      LinesTableFits(init, text);
      forall i | 0 <= i < |init| ensures LineKey(init[i]) != LineKey(r) {
        assert rs[i] == init[i];
      }
      WeighPut(LinesTable(init, text), LineKey(r), LineRow(r, text), weight);
    }
  }

  // ---- Entries --------------------------------------------------------------------------------------------------------------

  /** Every row has its key as its id. */
  predicate KeyedById(t: Table) { forall i :: 0 <= i < |t| ==> "id" in t[i].row && t[i].row["id"] == t[i].key }

  lemma {:induction false} EntriesTableFits(es: seq<A.Entry>)
    ensures Ascending(EntriesTable(es)) && KeyedById(EntriesTable(es))
  {
    hide EntryRow, Ascending;
    if es == [] {
      NoKeys();
    } else {
      var init, e := es[..|es| - 1], es[|es| - 1];
      EntriesTableFits(init);
      PutThenGet(EntriesTable(init), e.id, EntryRow(e), e.id);
      KeptById(EntriesTable(init), e.id, EntryRow(e));
      assert "id" in EntryRow(e) && EntryRow(e)["id"] == e.id by { IdOfEntry(e); }
    }
  }

  lemma IdOfEntry(e: A.Entry)
    ensures "id" in EntryRow(e) && EntryRow(e)["id"] == e.id && EntryRow(e).Keys == {"id", "project_id", "date", "memo", "created_by", "created_at"}
  {}

  lemma {:induction false} KeptById(t: Table, key: string, row: Row)
    requires KeyedById(t)
    ensures "id" in row && row["id"] == key ==> KeyedById(PutRow(t, key, row))
  {
    if t != [] && t[0].key != key && !Less(key, t[0].key) {
      assert KeyedById(t[1..]);
      KeptById(t[1..], key, row);
    }
  }

  /** The entry stored under an id is the last one with it. */
  lemma {:induction false} StoredEntry(es: seq<A.Entry>, id: string)
    ensures GetRow(EntriesTable(es), id) == if A.EntryOf(es, id).Some? then Some(EntryRow(A.EntryOf(es, id).value)) else None
  {
    hide EntryRow;
    if es != [] {
      var init, e := es[..|es| - 1], es[|es| - 1];
      StoredEntry(init, id);
      EntriesTableFits(init);
      PutThenGet(EntriesTable(init), e.id, EntryRow(e), id);
    }
  }
}

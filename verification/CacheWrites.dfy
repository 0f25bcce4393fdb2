/** The ways a collected record reaches the real-time cache and, if asked for, the history: one
    statement, statements of up to a hundred rows, and a transaction. All of them leave the cache as if
    each record's fields had been upserted one by one. Any statement may fail. */
module CacheWrites {
  import opened Basics
  import opened Subsequences
  import opened CacheRows
  import opened CacheShape

  const BATCH_SIZE := 100
  const MAX_BATCH_ITEMS := 16

  datatype Request<V> = Request(data: Data<V>, storeHistory: bool)

  predicate SmallStatements(statements: seq<seq<Row>>) {
    forall i :: 0 <= i < |statements| ==> 1 <= |statements[i]| <= 100
  }

  class Store {
    var cache: Table
    // The history rows in the order they were inserted.
    var history: seq<Row>
    // The statements executed so far, each with its rows.
    ghost var statements: seq<seq<Row>>

    constructor ()
      ensures cache == map[] && history == [] && statements == []
    {
      cache, history, statements := map[], [], [];
    }

    /** Executes one multi-row upsert, or fails and changes nothing. */
    method Exec(rows: seq<Row>) returns (ok: bool)
      requires rows != []
      modifies this`cache, this`statements
      ensures ok ==> cache == Upserted(old(cache), rows) && statements == old(statements) + [rows]
      ensures !ok ==> cache == old(cache) && statements == old(statements)
    {
      ok := *;
      if ok {
        var t := cache;
        for i := 0 to |rows|
          invariant t == Upserted(cache, rows[..i])
        {
          assert rows[..i + 1][..i] == rows[..i];
          t := t[(rows[i].deviceId, rows[i].field) := rows[i].value];
        }
        assert rows[..|rows|] == rows;
        cache := t;
        statements := statements + [rows];
      }
    }

    /** Executes a statement of at most a hundred rows. */
    method ExecSmall(rows: seq<Row>) returns (ok: bool)
      requires 1 <= |rows| <= BATCH_SIZE && SmallStatements(statements)
      modifies this`cache, this`statements
      ensures SmallStatements(statements)
      ensures cache == if ok then Upserted(old(cache), rows) else old(cache)
    {
      ok := Exec(rows);
    }

    /** Inserts rows into the history in one statement, or fails and changes nothing. */
    method ExecHistory(rows: seq<Row>) returns (ok: bool)
      modifies this`history, this`statements
      ensures ok ==> history == old(history) + rows && statements == old(statements) + [rows]
      ensures !ok ==> history == old(history) && statements == old(statements)
    {
      ok := *;
      if ok {
        history := history + rows;
        statements := statements + [rows];
      }
    }

    /** `flushCollectDataArgs`: one statement for the cache and, if asked for, one for the history. */
    method ExecBoth(rows: seq<Row>, storeHistory: bool) returns (cached: bool, ok: bool)
      requires 1 <= |rows| <= BATCH_SIZE && SmallStatements(statements)
      modifies this
      ensures SmallStatements(statements) && (ok ==> cached)
      ensures cache == if cached then Upserted(old(cache), rows) else old(cache)
      ensures history == if ok && storeHistory then old(history) + rows else old(history)
    {
      hide Upserted;
      cached := Exec(rows);
      ok := cached;
      if cached && storeHistory {
        ok := ExecHistory(rows);
      }
    }

    /** The one-statement write of any record. */
    method InsertRows<V>(f: Format<V>, d: Data<V>) returns (ok: bool)
      modifies this`cache, this`statements
      ensures cache == if ok then old(cache) + Delta(f, d) else old(cache)
      ensures SmallStatements(old(statements)) && RowCount(f, d) <= BATCH_SIZE ==> SmallStatements(statements)
    {
      hide Delta, Upserted;
      var shape := BuildShape(f, d);
      var rows := RowsOf(f, d, shape);
      assert d.fields.Keys - shape.overridden == d.fields.Keys - PointFields(f, d.points).Keys;
      if |rows| == 0 {
        NothingUpserted(cache);
        return true;
      }
      ok := Exec(rows);
    }

    /** `insertCollectDataCacheDirect`: at most one statement, with shortcuts for a single row. */
    method InsertDirect<V>(f: Format<V>, d: Data<V>) returns (ok: bool)
      modifies this`cache, this`statements
      ensures cache == if ok then old(cache) + Delta(f, d) else old(cache)
      ensures SmallStatements(old(statements)) && RowCount(f, d) <= BATCH_SIZE ==> SmallStatements(statements)
    {
      hide Delta, Upserted, RowCount;
      if |d.fields| == 1 && |d.points| == 0 {
        var row := OnlyField(f, d);
        ok := Exec([row]);
        return;
      }
      if |d.fields| == 0 {
        var found := OnlyPoint(f, d);
        if found == NoRow {
          return true;
        }
        if found.OneRow? {
          ok := Exec([found.row]);
          return;
        }
      }
      ok := InsertRows(f, d);
    }

    /** The appending and flushing of `insertCollectDataCacheChunkedDirect` and of the transaction
        path: every statement has 1 to 100 rows, and together they hold the given rows in order. */
    method ExecChunks(rows: seq<Row>, storeHistory: bool) returns (ok: bool, ghost done: nat)
      requires SmallStatements(statements)
      modifies this
      ensures SmallStatements(statements)
      ensures done <= |rows| && cache == Upserted(old(cache), rows[..done]) && (ok ==> done == |rows|)
      ensures !storeHistory ==> history == old(history)
      ensures ok && storeHistory ==> history == old(history) + rows
    {
      hide Upserted, SmallStatements;
      var batch: seq<Row> := [];
      done := 0;
      NothingUpserted(cache);
      assert rows[..0] == [];
      for i := 0 to |rows|
        invariant |batch| < BATCH_SIZE && 0 <= done <= i && batch == rows[done..i]
        invariant SmallStatements(statements) && cache == Upserted(old(cache), rows[..done])
        invariant history == if storeHistory then old(history) + rows[..done] else old(history)
      {
        batch := batch + [rows[i]];
        assert batch == rows[done..i + 1];
        if |batch| == BATCH_SIZE {
          ChunkDone(old(cache), rows, done, i + 1);
          var cached;
          cached, ok := ExecBoth(batch, storeHistory);
          if !ok {
            done := if cached then i + 1 else done;
            return;
          }
          assert rows[..i + 1] == rows[..done] + batch;
          done := i + 1;
          batch := [];
        }
      }
      assert rows[..|rows|] == rows;
      ok := true;
      if |batch| > 0 {
        ChunkDone(old(cache), rows, done, |rows|);
        var cached;
        cached, ok := ExecBoth(batch, storeHistory);
        assert rows == rows[..done] + batch;
        done := if cached then |rows| else done;
      }
    }

    /** A record written in chunks; a failure leaves the chunks before it in place. */
    method InsertRecord<V>(f: Format<V>, r: Request<V>) returns (ok: bool)
      requires SmallStatements(statements)
      modifies this
      ensures SmallStatements(statements)
      ensures ok ==> cache == old(cache) + Delta(f, r.data)
      ensures cache + Delta(f, r.data) == old(cache) + Delta(f, r.data)
      ensures !r.storeHistory ==> history == old(history)
      ensures ok ==> Extends(f, old(history), history, Stored([r]))
    {
      hide Delta, Amounts, Extends, SmallStatements, Stored, Upserted, ShapeOf;
      var shape := BuildShape(f, r.data);
      var rows := RowsOf(f, r.data, shape);
      ghost var done;
      ok, done := ExecChunks(rows, r.storeHistory);
      assert rows[..|rows|] == rows;
      AmountsApply(old(cache), rows, Delta(f, r.data));
      ChunksAbsorbed(old(cache), rows, done, Delta(f, r.data));
      RowsLogged(f, r, old(history), rows, shape);
    }

    /** `insertCollectDataCacheChunkedDirect` */
    method InsertChunked<V>(f: Format<V>, d: Data<V>) returns (ok: bool)
      requires SmallStatements(statements)
      modifies this
      ensures SmallStatements(statements) && history == old(history)
      ensures ok ==> cache == old(cache) + Delta(f, d)
      ensures cache + Delta(f, d) == old(cache) + Delta(f, d)
    {
      hide Delta, Extends, SmallStatements, Stored;
      ok := InsertRecord(f, Request(d, false));
    }

    /** `insertCollectDataWithOptionsTx` for each item inside one transaction: all of them or nothing.
        The history gets the rows of exactly the items that ask for it. */
    method InTransaction<V>(f: Format<V>, items: seq<Request<V>>) returns (ok: bool)
      requires SmallStatements(statements)
      modifies this
      ensures SmallStatements(statements)
      ensures cache == if ok then old(cache) + DeltaOf(f, items) else old(cache)
      ensures if ok then Extends(f, old(history), history, Stored(items)) else history == old(history)
    {
      var before, was := cache, history;
      assert cache + DeltaOf(f, items[..0]) == cache;
      ExtendsNone(f, history);
      assert Stored(items[..0]) == [];
      hide Delta, SmallStatements, DeltaOf, Extends, Stored;
      for i := 0 to |items|
        invariant SmallStatements(statements) && cache == before + DeltaOf(f, items[..i])
        invariant Extends(f, was, history, Stored(items[..i]))
      {
        ghost var logged := history;
        ok := InsertRecord(f, items[i]);
        if !ok {
          cache, history := before, was;
          return;
        }
        ExtendsThen(f, was, logged, history, Stored(items[..i]), Stored([items[i]]));
        StoredNext(items, i);
        DeltaOfNext(f, items, i);
        OverlayAssociates(before, DeltaOf(f, items[..i]), Delta(f, items[i].data));
      }
      assert items[..|items|] == items;
      ok := *;
      if !ok {
        cache, history := before, was;
      }
    }

    /** `InsertCollectDataWithOptions`; with history the rows go through a transaction. */
    method Insert<V>(f: Format<V>, r: Request<V>) returns (ok: bool)
      requires SmallStatements(statements)
      modifies this
      ensures SmallStatements(statements)
      ensures ok ==> cache == old(cache) + Delta(f, r.data)
      ensures cache + Delta(f, r.data) == old(cache) + Delta(f, r.data)
      ensures if ok then Extends(f, old(history), history, Stored([r])) else history == old(history)
    {
      hide Delta, SmallStatements, RowCount, Extends;
      OverlayTwice(cache, Delta(f, r.data));
      if r.storeHistory {
        ok := InTransaction(f, [r]);
        SingleDelta(f, r);
        return;
      }
      ExtendsNone(f, history);
      assert [r][..0] == [] && Stored([r]) == [];
      var rows := CountRows(f, r.data);
      if rows <= BATCH_SIZE {
        ok := InsertDirect(f, r.data);
      } else {
        ok := InsertChunked(f, r.data);
      }
    }
  }

  // History. Every record that asks for it adds one group of rows.

  /** The records that ask to be kept in the history, in order. */
  function Stored<V>(items: seq<Request<V>>): seq<Data<V>> {
    if items == [] then []
    else Stored(items[..|items| - 1]) + if items[|items| - 1].storeHistory then [items[|items| - 1].data] else []
  }

  ghost function Asking<V>(items: seq<Request<V>>): (marks: seq<bool>)
    ensures |marks| == |items|
  {
    seq(|items|, i requires 0 <= i < |items| => items[i].storeHistory)
  }

  lemma {:induction false} StoredMarked<V>(items: seq<Request<V>>)
    ensures |Stored(items)| == |Marked(Asking(items))|
  {
    var marks := Asking(items);
    if items == [] {
      assert Marked(marks) == {};
    } else {
      var n := |items| - 1;
      StoredMarked(items[..n]);
      hide Marked;
      assert marks[..n] == Asking(items[..n]);
      MarkedNext(marks);
    }
  }

  lemma {:induction false} StoredHas<V>(items: seq<Request<V>>, i: nat)
    requires i < |items| && items[i].storeHistory
    ensures items[i].data in Stored(items)
  {
    if i < |items| - 1 {
      StoredHas(items[..|items| - 1], i);
    }
  }

  lemma {:induction false} StoredInOrder<V>(items: seq<Request<V>>)
    ensures Subsequence(Stored(items), Datas(items))
  {
    if items != [] {
      var init, last := items[..|items| - 1], items[|items| - 1];
      StoredInOrder(init);
      assert Datas(items) == Datas(init) + [last.data];
      assert Stored(items) == if last.storeHistory then Stored(init) + [last.data] else Stored(init);
      hide Subsequence, Stored;
      SubsequenceMore(Stored(init), Datas(init), last.data);
    }
  }

  /** The records that are kept are those of the requests that ask for it, as many as ask and in their order. */
  lemma StoredMeans<V>(items: seq<Request<V>>)
    ensures |Stored(items)| == |set i | 0 <= i < |items| && items[i].storeHistory|
    ensures forall i :: 0 <= i < |items| && items[i].storeHistory ==> items[i].data in Stored(items)
    ensures Subsequence(Stored(items), Datas(items))
  {
    hide Stored, Subsequence;
    StoredMarked(items);
    assert Marked(Asking(items)) == set i | 0 <= i < |items| && items[i].storeHistory;
    forall i | 0 <= i < |items| && items[i].storeHistory ensures items[i].data in Stored(items) {
      StoredHas(items, i);
    }
    StoredInOrder(items);
  }

  /** The rows are those of the records, record by record: as many as each takes, and the record's own. */
  ghost predicate Logged<V>(f: Format<V>, records: seq<Data<V>>, rows: seq<Row>) {
    if records == [] then rows == []
    else
      var n := |records| - 1;
      exists k :: 0 <= k <= |rows| && Logged(f, records[..n], rows[..k]) && LogOf(f, records[n], rows[k..])
  }

  ghost predicate LogOf<V>(f: Format<V>, d: Data<V>, rows: seq<Row>) {
    |rows| == RowCount(f, d) && Amounts(rows, Delta(f, d))
  }

  /** The history grew by the rows of the records. */
  ghost predicate Extends<V>(f: Format<V>, before: seq<Row>, after: seq<Row>, records: seq<Data<V>>) {
    |before| <= |after| && after[..|before|] == before && Logged(f, records, after[|before|..])
  }

  lemma AmountsApply(t: Table, rows: seq<Row>, delta: Table)
    requires Amounts(rows, delta)
    ensures Upserted(t, rows) == t + delta
  {
  }

  lemma ExtendsNone<V>(f: Format<V>, history: seq<Row>)
    ensures Extends(f, history, history, [])
  {
  }

  lemma {:induction false} LoggedConcat<V>(f: Format<V>, a: seq<Data<V>>, rows: seq<Row>,
                                              b: seq<Data<V>>, more: seq<Row>)
    requires Logged(f, a, rows) && Logged(f, b, more)
    ensures Logged(f, a + b, rows + more)
    decreases |b|
  {
    hide LogOf;
    if b == [] {
      assert a + b == a && rows + more == rows;
    } else {
      var n := |b| - 1;
      var k :| 0 <= k <= |more| && Logged(f, b[..n], more[..k]) && LogOf(f, b[n], more[k..]);
      LoggedConcat(f, a, rows, b[..n], more[..k]);
      assert (a + b)[..|a| + n] == a + b[..n];
      assert (rows + more)[..|rows| + k] == rows + more[..k];
      assert (rows + more)[|rows| + k..] == more[k..];
    }
  }

  lemma ExtendsThen<V>(f: Format<V>, h0: seq<Row>, h1: seq<Row>, h2: seq<Row>, a: seq<Data<V>>, b: seq<Data<V>>)
    requires Extends(f, h0, h1, a) && Extends(f, h1, h2, b)
    ensures Extends(f, h0, h2, a + b)
  {
    hide Logged;
    LoggedConcat(f, a, h1[|h0|..], b, h2[|h1|..]);
    assert h2[|h0|..] == h1[|h0|..] + h2[|h1|..];
    assert h2[..|h0|] == h1[..|h0|];
  }

  lemma StoredNext<V>(items: seq<Request<V>>, i: nat)
    requires i < |items|
    ensures Stored(items[..i + 1]) == Stored(items[..i]) + Stored([items[i]])
  {
    assert items[..i + 1][..i] == items[..i];
    assert [items[i]][..0] == [];
  }

  /** The rows of a record, appended to the history if the request asks for it. */
  lemma RowsLogged<V>(f: Format<V>, r: Request<V>, history: seq<Row>, rows: seq<Row>, shape: Shape)
    requires ShapeOf(shape, f, r.data) && |rows| == shape.rows && Amounts(rows, Delta(f, r.data))
    ensures Extends(f, history, if r.storeHistory then history + rows else history, Stored([r]))
  {
    hide Amounts, Delta;
    assert r.data.fields.Keys - shape.overridden == r.data.fields.Keys - PointFields(f, r.data.points).Keys;
    assert [r][..0] == [];
    if r.storeHistory {
      assert Stored([r]) == [r.data];
      assert (history + rows)[|history|..] == rows;
      assert [r.data][..0] == [] && rows[..0] == [] && rows[0..] == rows;
      assert Logged(f, [r.data][..0], rows[..0]);
      assert LogOf(f, r.data, rows[0..]);
    }
  }

  /** The number of rows a record takes. */
  function RowCount<V>(f: Format<V>, d: Data<V>): nat {
    ValidCount(f, d.points) + |d.fields.Keys - PointFields(f, d.points).Keys|
  }

  /** `countCollectDataCacheRows` */
  method CountRows<V>(f: Format<V>, d: Data<V>) returns (n: nat)
    ensures n == RowCount(f, d)
  {
    var shape := BuildShape(f, d);
    assert d.fields.Keys - shape.overridden == d.fields.Keys - PointFields(f, d.points).Keys;
    return shape.rows;
  }

  datatype Found = NoRow | OneRow(row: Row) | ManyRows

  lemma NothingUpserted(t: Table)
    ensures Upserted(t, []) == t
  {
  }

  /** The shortcut for a record with one field and no points. */
  method OnlyField<V>(f: Format<V>, d: Data<V>) returns (row: Row)
    requires |d.fields| == 1 && d.points == []
    ensures Amounts([row], Delta(f, d))
  {
    var order := AnyOrder(d.fields.Keys);
    ghost var k := SingleKey(d.fields);
    assert k in order && order[0] in order;
    row := Row(d.deviceId, order[0], d.fields[order[0]]);
    AmountsNone();
    AmountsNext([], map[], row);
    assert [] + [row] == [row];
    assert AllFields(f, d) == map[order[0] := d.fields[order[0]]];
    assert Delta(f, d) == map[(d.deviceId, order[0]) := d.fields[order[0]]];
  }

  lemma SingleKey<T>(m: map<T, string>) returns (k: T)
    requires |m| == 1
    ensures m.Keys == {k}
  {
    k :| k in m;
    assert |m.Keys - {k}| == 0;
  }

  /** The shortcut for a record without fields: how many rows its points make, up to two. */
  method OnlyPoint<V>(f: Format<V>, d: Data<V>) returns (found: Found)
    requires d.fields == map[]
    ensures found == NoRow ==> Delta(f, d) == map[]
    ensures found.OneRow? ==> Amounts([found.row], Delta(f, d))
  {
    found := NoRow;
    for i := 0 to |d.points|
      invariant found == NoRow ==> PointFields(f, d.points[..i]) == map[]
      invariant found.OneRow? ==>
                  && PointFields(f, d.points[..i]) == map[found.row.field := found.row.value]
                  && found.row.deviceId == d.deviceId
      invariant !found.ManyRows?
    {
      assert d.points[..i + 1][..i] == d.points[..i];
      var field := f.trim(d.points[i].fieldName);
      if field != "" {
        if found.OneRow? {
          return ManyRows;
        }
        found := OneRow(Row(d.deviceId, field, f.show(d.points[i].value)));
      }
    }
    assert d.points[..|d.points|] == d.points;
    if found.OneRow? {
      OneCell(found.row, f, d);
    }
  }

  lemma OneCell<V>(row: Row, f: Format<V>, d: Data<V>)
    requires AllFields(f, d) == map[row.field := row.value] && row.deviceId == d.deviceId
    ensures Amounts([row], Delta(f, d))
  {
    AmountsNone();
    AmountsNext([], map[], row);
    assert [] + [row] == [row];
    assert Delta(f, d) == map[(row.deviceId, row.field) := row.value];
  }

  // Batches.

  function Datas<V>(items: seq<Request<V>>): (r: seq<Data<V>>)
    ensures |r| == |items|
  {
    seq(|items|, i requires 0 <= i < |items| => items[i].data)
  }

  /** What a list of requests, written one after the other, changes in the cache. */
  function DeltaOf<V>(f: Format<V>, items: seq<Request<V>>): Table {
    DeltaAll(f, Datas(items))
  }

  lemma DeltaOfNext<V>(f: Format<V>, items: seq<Request<V>>, k: nat)
    requires k < |items|
    ensures DeltaOf(f, items[..k + 1]) == DeltaOf(f, items[..k]) + Delta(f, items[k].data)
  {
    hide Delta;
    assert Datas(items[..k + 1]) == Datas(items)[..k + 1];
    assert Datas(items[..k]) == Datas(items)[..k];
    DeltaNext(f, Datas(items), k);
  }

  lemma SingleDelta<V>(f: Format<V>, r: Request<V>)
    ensures DeltaOf(f, [r]) == Delta(f, r.data)
  {
    hide Delta;
    assert [r][..1] == [r] && DeltaOf(f, [r][..0]) == map[];
    DeltaOfNext(f, [r], 0);
  }
}

/** The background writer: it drains the queue of write requests in batches, writes a batch in as few
    statements as it can, and falls back twice when that fails. */
module WriteQueue {
  import opened Subsequences
  import opened CacheRows
  import opened CacheShape
  import opened CacheWrites

  /** After a partial write, the cache and the one before it agree once all items are laid over them. */
  ghost predicate Absorbed<V>(f: Format<V>, cache: Table, before: Table, items: seq<Request<V>>) {
    cache + DeltaOf(f, items) == before + DeltaOf(f, items)
  }

  lemma PrefixAbsorbed<V>(f: Format<V>, before: Table, items: seq<Request<V>>, k: nat)
    requires k <= |items|
    ensures Absorbed(f, before + DeltaOf(f, items[..k]), before, items)
  {
    hide DeltaAll;
    assert Datas(items[..k]) == Datas(items)[..k];
    Replay(f, before, Datas(items), k);
  }

  lemma NoDelta<V>(f: Format<V>, t: Table, items: seq<Request<V>>)
    ensures t + DeltaOf(f, items[..0]) == t
  {
  }

  /** The rows collected since the last flush stand for the items since then. */
  ghost predicate Pending<V>(f: Format<V>, items: seq<Request<V>>, flushed: nat, i: nat, rows: seq<Row>, delta: Table) {
    && flushed <= i <= |items|
    && Amounts(rows, delta)
    && DeltaOf(f, items[..i]) == DeltaOf(f, items[..flushed]) + delta
  }

  lemma PendingStart<V>(f: Format<V>, items: seq<Request<V>>, i: nat)
    requires i <= |items|
    ensures Pending(f, items, i, i, [], map[])
  {
    hide DeltaOf;
    AmountsNone();
    assert DeltaOf(f, items[..i]) + map[] == DeltaOf(f, items[..i]);
  }

  lemma PendingNext<V>(f: Format<V>, items: seq<Request<V>>, flushed: nat, i: nat, rows: seq<Row>, delta: Table,
                       more: seq<Row>)
    requires i < |items| && Pending(f, items, flushed, i, rows, delta) && Amounts(more, Delta(f, items[i].data))
    ensures Pending(f, items, flushed, i + 1, rows + more, delta + Delta(f, items[i].data))
  {
    hide DeltaOf, Delta, Amounts;
    AmountsConcat(rows, delta, more, Delta(f, items[i].data));
    DeltaOfNext(f, items, i);
    OverlayAssociates(DeltaOf(f, items[..flushed]), delta, Delta(f, items[i].data));
  }

  /** Flushing the pending rows accounts for the items they stand for. */
  lemma FlushedUpTo<V>(f: Format<V>, before: Table, items: seq<Request<V>>, flushed: nat, i: nat,
                       rows: seq<Row>, delta: Table)
    requires Pending(f, items, flushed, i, rows, delta)
    ensures Upserted(before + DeltaOf(f, items[..flushed]), rows) == before + DeltaOf(f, items[..i])
  {
    hide DeltaOf, Upserted;
    OverlayAssociates(before, DeltaOf(f, items[..flushed]), delta);
  }

  /** `writeCollectDataCacheOnlyBatchDirect`: whole items are gathered into statements of at most a
      hundred rows. It gives up at the first item with history or with too many rows, possibly after
      some statements went through. */
  method CacheOnlyBatch<V>(s: Store, f: Format<V>, items: seq<Request<V>>) returns (ok: bool)
    requires SmallStatements(s.statements)
    modifies s`cache, s`statements
    ensures SmallStatements(s.statements)
    ensures ok ==> s.cache == old(s.cache) + DeltaOf(f, items) && Stored(items) == []
    ensures Absorbed(f, s.cache, old(s.cache), items)
  {
    hide Upserted, Stored, DeltaOf, Delta, Amounts, Pending, Absorbed, SmallStatements, ShapeOf;
    ghost var before := s.cache;
    var rows: seq<Row>, batchRows := [], 0;
    ghost var delta: Table := map[];
    ghost var flushed: nat := 0;
    NoDelta(f, before, items);
    PendingStart(f, items, 0);
    for i := 0 to |items|
      invariant SmallStatements(s.statements) && |rows| == batchRows <= BATCH_SIZE && flushed <= |items|
      invariant s.cache == before + DeltaOf(f, items[..flushed])
      invariant Pending(f, items, flushed, i, rows, delta)
      invariant forall j :: 0 <= j < i ==> !items[j].storeHistory
    {
      PrefixAbsorbed(f, before, items, flushed);
      if items[i].storeHistory {
        return false;
      }
      var shape := BuildShape(f, items[i].data);
      if shape.rows > BATCH_SIZE {
        return false;
      }
      if batchRows > 0 && batchRows + shape.rows > BATCH_SIZE {
        FlushedUpTo(f, before, items, flushed, i, rows, delta);
        ok := s.ExecSmall(rows);
        if !ok {
          return;
        }
        flushed, rows, batchRows, delta := i, [], 0, map[];
        PendingStart(f, items, i);
      }
      var more := RowsOf(f, items[i].data, shape);
      PendingNext(f, items, flushed, i, rows, delta, more);
      rows, batchRows := rows + more, batchRows + shape.rows;
      delta := delta + Delta(f, items[i].data);
    }
    assert items[..|items|] == items;
    NoneStored(items);
    PrefixAbsorbed(f, before, items, flushed);
    FlushedUpTo(f, before, items, flushed, |items|, rows, delta);
    ok := true;
    if batchRows > 0 {
      ok := s.ExecSmall(rows);
    } else {
      NothingUpserted(s.cache);
    }
    PrefixAbsorbed(f, before, items, |items|);
  }

  lemma {:induction false} NoneStored<V>(items: seq<Request<V>>)
    requires forall j :: 0 <= j < |items| ==> !items[j].storeHistory
    ensures Stored(items) == []
  {
    if items != [] {
      NoneStored(items[..|items| - 1]);
    }
  }

  /** `writeCollectDataBatch`: one item is inserted by itself; a batch is tried without a transaction
      first, and if that gives up, everything is replayed inside one. */
  method WriteBatch<V>(s: Store, f: Format<V>, items: seq<Request<V>>) returns (ok: bool)
    requires SmallStatements(s.statements)
    modifies s
    ensures SmallStatements(s.statements)
    ensures ok ==> s.cache == old(s.cache) + DeltaOf(f, items)
    ensures Absorbed(f, s.cache, old(s.cache), items)
    ensures if ok then Extends(f, old(s.history), s.history, Stored(items)) else s.history == old(s.history)
  {
    hide Delta, DeltaAll, Datas, SmallStatements, Extends;
    ExtendsNone(f, s.history);
    if |items| == 0 {
      assert items[..0] == items;
      NoDelta(f, s.cache, items);
      return true;
    }
    if |items| == 1 {
      SingleDelta(f, items[0]);
      assert [items[0]] == items;
      ok := s.Insert(f, items[0]);
      return;
    }
    ok := CacheOnlyBatch(s, f, items);
    if ok {
      return;
    }
    ghost var tried := s.cache;
    ok := s.InTransaction(f, items);
    OverlayTwice(tried, DeltaOf(f, items));
  }

  lemma PrefixWithin<V>(f: Format<V>, items: seq<Request<V>>, k: nat)
    requires k <= |items|
    ensures DeltaOf(f, items[..k]).Keys <= DeltaOf(f, items).Keys
  {
    assert Datas(items)[..k] == Datas(items[..k]);
    ReplayAbsorbs(f, Datas(items), k);
  }

  lemma ItemWithin<V>(f: Format<V>, items: seq<Request<V>>, i: nat)
    requires i < |items|
    ensures Delta(f, items[i].data).Keys <= DeltaOf(f, items).Keys
  {
    hide Delta, DeltaOf;
    DeltaOfNext(f, items, i);
    PrefixWithin(f, items, i + 1);
  }

  lemma BatchWithin<V>(f: Format<V>, queue: seq<Request<V>>, next: nat, batch: seq<Request<V>>)
    requires next + |batch| <= |queue| && batch == queue[next..next + |batch|]
    ensures DeltaOf(f, batch).Keys <= DeltaOf(f, queue).Keys
  {
    hide DeltaOf;
    var end := next + |batch|;
    assert queue[..end] == queue[..next] + batch;
    DeltaOfConcat(f, queue[..next], batch);
    PrefixWithin(f, queue, end);
  }

  /** `flushCollectDataBatch`: a batch that could not be written is written item by item; an item that
      fails again is given up. */
  method FlushBatch<V>(s: Store, f: Format<V>, items: seq<Request<V>>) returns (ok: bool, ghost kept: seq<Data<V>>)
    requires SmallStatements(s.statements)
    modifies s
    ensures SmallStatements(s.statements)
    ensures ok ==> s.cache == old(s.cache) + DeltaOf(f, items)
    ensures Absorbed(f, s.cache, old(s.cache), items)
    ensures Extends(f, old(s.history), s.history, kept) && Subsequence(kept, Stored(items))
    ensures ok ==> kept == Stored(items)
  {
    assert Stored(items[..0]) == [];
    hide Delta, DeltaOf, SmallStatements, Stored, Extends, Subsequence;
    ok := WriteBatch(s, f, items);
    kept := Stored(items);
    SubsequenceSame(kept);
    if !ok {
      kept := [];
      ExtendsNone(f, s.history);
      SubsequenceSame(kept);
      ghost var start := s.cache;
      NoDelta(f, start, items);
      ok := true;
      for i := 0 to |items|
        invariant SmallStatements(s.statements)
        invariant ok ==> s.cache == start + DeltaOf(f, items[..i])
        invariant Absorbed(f, s.cache, old(s.cache), items)
        invariant Extends(f, old(s.history), s.history, kept) && Subsequence(kept, Stored(items[..i]))
        invariant ok ==> kept == Stored(items[..i])
      {
        ghost var before, logged := s.cache, s.history;
        var written := s.Insert(f, items[i]);
        DeltaOfNext(f, items, i);
        OverlayAssociates(start, DeltaOf(f, items[..i]), Delta(f, items[i].data));
        StoredNext(items, i);
        ghost var more := if written then Stored([items[i]]) else [];
        if written {
          ExtendsThen(f, old(s.history), logged, s.history, kept, more);
        }
        SubsequenceSame(Stored([items[i]]));
        SubsequenceConcat(kept, Stored(items[..i]), more, Stored([items[i]]));
        assert !written ==> kept + more == kept;
        kept := kept + more;
        ok := ok && written;
        ItemWithin(f, items, i);
        AbsorbedWithin(s.cache, before, Delta(f, items[i].data), DeltaOf(f, items));
      }
      assert items[..|items|] == items;
    }
  }

  function Flattened<T>(batches: seq<seq<T>>): seq<T> {
    if batches == [] then [] else Flattened(batches[..|batches| - 1]) + batches[|batches| - 1]
  }

  lemma {:induction false} DeltaOfConcat<V>(f: Format<V>, a: seq<Request<V>>, b: seq<Request<V>>)
    ensures DeltaOf(f, a + b) == DeltaOf(f, a) + DeltaOf(f, b)
    decreases |b|
  {
    hide Delta;
    if b == [] {
      assert a + b == a;
    } else {
      var n, all := |b| - 1, a + b;
      assert all[..|all| - 1] == a + b[..n] && b[..n + 1] == b && all[..|all|] == all;
      DeltaOfConcat(f, a, b[..n]);
      DeltaOfNext(f, b, n);
      DeltaOfNext(f, all, |all| - 1);
      OverlayAssociates(DeltaOf(f, a), DeltaOf(f, b[..n]), Delta(f, b[n].data));
    }
  }

  lemma {:induction false} StoredConcat<V>(a: seq<Request<V>>, b: seq<Request<V>>)
    ensures Stored(a + b) == Stored(a) + Stored(b)
    decreases |b|
  {
    if b == [] {
      assert a + b == a;
    } else {
      assert (a + b)[..|a + b| - 1] == a + b[..|b| - 1];
      StoredConcat(a, b[..|b| - 1]);
    }
  }

  /** `runCollectDataWriter`, given all the requests that go through the queue until it is closed: how
      many of them are waiting when it looks is arbitrary. Every request is flushed once, in order, in
      batches of 1 to 16. When the flushes succeed the cache ends up as if the requests had been
      written one by one; in any case no cell changes that no request writes. The history gets the
      rows of each request that asks for it once, or not at all if its writes fail: the batches that
      were tried and replayed leave no second copy. */
  method RunWriter<V>(s: Store, f: Format<V>, queue: seq<Request<V>>)
    returns (batches: seq<seq<Request<V>>>, ok: bool, ghost kept: seq<Data<V>>)
    requires SmallStatements(s.statements)
    modifies s
    ensures SmallStatements(s.statements)
    ensures Flattened(batches) == queue
    ensures forall i :: 0 <= i < |batches| ==> 1 <= |batches[i]| <= 16
    ensures ok ==> s.cache == old(s.cache) + DeltaOf(f, queue)
    ensures Absorbed(f, s.cache, old(s.cache), queue)
    ensures Extends(f, old(s.history), s.history, kept) && Subsequence(kept, Stored(queue))
    ensures ok ==> kept == Stored(queue)
  {
    hide SmallStatements, WrittenUpTo, DeltaOf, Absorbed, Stored, Extends, Subsequence;
    batches, ok, kept := [], true, [];
    var next := 0;
    NothingWritten(f, s.cache, s.history, queue);
    while next < |queue|
      invariant 0 <= next <= |queue| && SmallStatements(s.statements)
      invariant Flattened(batches) == queue[..next]
      invariant forall i :: 0 <= i < |batches| ==> 1 <= |batches[i]| <= MAX_BATCH_ITEMS
      invariant WrittenUpTo(f, old(s.cache), old(s.history), s.cache, s.history, queue, next, ok, kept)
    {
      var batch := Gather(queue, next);
      ghost var before, logged := s.cache, s.history;
      ghost var more;
      var flushed;
      flushed, more := FlushBatch(s, f, batch);
      WrittenNext(f, old(s.cache), old(s.history), before, logged, s.cache, s.history,
                  queue, next, batch, ok, flushed, kept, more);
      ok, kept := ok && flushed, kept + more;
      assert queue[..next + |batch|] == queue[..next] + batch;
      assert (batches + [batch])[..|batches|] == batches;
      batches := batches + [batch];
      next := next + |batch|;
    }
    assert queue[..next] == queue;
    AllWritten(f, old(s.cache), old(s.history), s.cache, s.history, queue, ok, kept);
  }

  /** What the first `n` requests of the queue have done to cache and history. */
  ghost predicate WrittenUpTo<V>(f: Format<V>, cache: Table, history: seq<Row>, cache': Table, history': seq<Row>,
                                 queue: seq<Request<V>>, n: nat, ok: bool, kept: seq<Data<V>>) {
    && n <= |queue|
    && (ok ==> cache' == cache + DeltaOf(f, queue[..n]))
    && Absorbed(f, cache', cache, queue)
    && Extends(f, history, history', kept) && Subsequence(kept, Stored(queue[..n]))
    && (ok ==> kept == Stored(queue[..n]))
  }

  lemma NothingWritten<V>(f: Format<V>, cache: Table, history: seq<Row>, queue: seq<Request<V>>)
    ensures WrittenUpTo(f, cache, history, cache, history, queue, 0, true, [])
  {
    assert Stored(queue[..0]) == [];
    hide DeltaOf, Stored, Extends, Subsequence;
    ExtendsNone(f, history);
    SubsequenceSame<Data<V>>([]);
    NoDelta(f, cache, queue);
  }

  lemma WrittenNext<V>(f: Format<V>, cache: Table, history: seq<Row>, cache1: Table, history1: seq<Row>,
                       cache2: Table, history2: seq<Row>, queue: seq<Request<V>>, n: nat, batch: seq<Request<V>>,
                       ok: bool, flushed: bool, kept: seq<Data<V>>, more: seq<Data<V>>)
    requires WrittenUpTo(f, cache, history, cache1, history1, queue, n, ok, kept)
    requires n + |batch| <= |queue| && batch == queue[n..n + |batch|]
    requires flushed ==> cache2 == cache1 + DeltaOf(f, batch) && more == Stored(batch)
    requires Absorbed(f, cache2, cache1, batch)
    requires Extends(f, history1, history2, more) && Subsequence(more, Stored(batch))
    ensures WrittenUpTo(f, cache, history, cache2, history2, queue, n + |batch|, ok && flushed, kept + more)
  {
    hide DeltaOf, Stored, Extends, Subsequence;
    assert queue[..n + |batch|] == queue[..n] + batch;
    ExtendsThen(f, history, history1, history2, kept, more);
    StoredConcat(queue[..n], batch);
    SubsequenceConcat(kept, Stored(queue[..n]), more, Stored(batch));
    BatchWithin(f, queue, n, batch);
    AbsorbedWithin(cache2, cache1, DeltaOf(f, batch), DeltaOf(f, queue));
    DeltaOfConcat(f, queue[..n], batch);
    OverlayAssociates(cache, DeltaOf(f, queue[..n]), DeltaOf(f, batch));
  }

  lemma AllWritten<V>(f: Format<V>, cache: Table, history: seq<Row>, cache': Table, history': seq<Row>,
                      queue: seq<Request<V>>, ok: bool, kept: seq<Data<V>>)
    requires WrittenUpTo(f, cache, history, cache', history', queue, |queue|, ok, kept)
    ensures ok ==> cache' == cache + DeltaOf(f, queue) && kept == Stored(queue)
    ensures Absorbed(f, cache', cache, queue)
    ensures Extends(f, history, history', kept) && Subsequence(kept, Stored(queue))
  {
    assert queue[..|queue|] == queue;
  }

  /** The inner loop of the writer: takes what is waiting, up to the batch size. */
  method Gather<T>(queue: seq<T>, next: nat) returns (batch: seq<T>)
    requires next < |queue|
    ensures 1 <= |batch| <= MAX_BATCH_ITEMS && next + |batch| <= |queue|
    ensures batch == queue[next..next + |batch|]
  {
    batch := [queue[next]];
    var waiting := true;
    while |batch| < MAX_BATCH_ITEMS && next + |batch| < |queue| && waiting
      invariant 1 <= |batch| <= MAX_BATCH_ITEMS && next + |batch| <= |queue|
      invariant batch == queue[next..next + |batch|]
      decreases |queue| - |batch|, waiting
    {
      if * {
        waiting := false;
      } else {
        batch := batch + [queue[next + |batch|]];
      }
    }
  }
}

/** The latest value of every field of every device, folded from cache rows and history rows read one
    after the other. Times are counted from Go's zero time. */
module LatestData {
  import opened Basics

  datatype Row = Row(deviceId: int, fieldName: string, value: string, collectedAt: nat)

  datatype Item = Item(deviceId: int, fields: map<string, string>, collectedAt: nat)

  datatype Stamped = Stamped(value: string, at: nat)

  /** Rows without a device or a field name are skipped. */
  predicate Counts(r: Row) {
    r.deviceId != 0 && r.fieldName != ""
  }

  predicate Hits(r: Row, deviceId: int, field: string) {
    Counts(r) && r.deviceId == deviceId && r.fieldName == field
  }

  /** The newest value of a field among the rows; of equally new ones the last read. */
  function Newest(rows: seq<Row>, deviceId: int, field: string): Option<Stamped> {
    if rows == [] then None
    else
      var before := Newest(rows[..|rows| - 1], deviceId, field);
      var r := rows[|rows| - 1];
      if Hits(r, deviceId, field) && (before.None? || before.value.at <= r.collectedAt)
      then Some(Stamped(r.value, r.collectedAt))
      else before
  }

  /** The time of a device's newest row. */
  function NewestTime(rows: seq<Row>, deviceId: int): nat {
    if rows == [] then 0
    else
      var before := NewestTime(rows[..|rows| - 1], deviceId);
      var r := rows[|rows| - 1];
      if Counts(r) && r.deviceId == deviceId && r.collectedAt > before then r.collectedAt else before
  }

  predicate Appears(rows: seq<Row>, deviceId: int) {
    exists i :: 0 <= i < |rows| && Counts(rows[i]) && rows[i].deviceId == deviceId
  }

  /** The newest value is the value of a row of greatest time, and of those the last one read. */
  lemma {:induction false} NewestMeans(rows: seq<Row>, deviceId: int, field: string)
    ensures var n := Newest(rows, deviceId, field);
            && (n.None? ==> forall i :: 0 <= i < |rows| ==> !Hits(rows[i], deviceId, field))
            && (n.Some? ==> exists i ::
                  && 0 <= i < |rows| && Hits(rows[i], deviceId, field)
                  && rows[i].value == n.value.value && rows[i].collectedAt == n.value.at
                  && (forall j :: 0 <= j < |rows| && Hits(rows[j], deviceId, field) ==>
                        rows[j].collectedAt <= n.value.at && (j > i ==> rows[j].collectedAt < n.value.at)))
  {
    if rows != [] {
      var init, r := rows[..|rows| - 1], rows[|rows| - 1];
      NewestMeans(init, deviceId, field);
      var before, n := Newest(init, deviceId, field), Newest(rows, deviceId, field);
      assert forall i :: 0 <= i < |init| ==> init[i] == rows[i];
      if n.Some? {
        if Hits(r, deviceId, field) && (before.None? || before.value.at <= r.collectedAt) {
          assert rows[|init|] == r;
        } else {
          var i :| && 0 <= i < |init| && Hits(init[i], deviceId, field)
                   && init[i].value == n.value.value && init[i].collectedAt == n.value.at
                   && (forall j :: 0 <= j < |init| && Hits(init[j], deviceId, field) ==>
                         init[j].collectedAt <= n.value.at && (j > i ==> init[j].collectedAt < n.value.at));
          assert rows[i] == init[i];
        }
      }
    }
  }

  /** The same, said of the rows' own columns. */
  lemma NewestIsLast(rows: seq<Row>, deviceId: int, field: string) returns (i: int)
    requires deviceId != 0 && field != ""
    ensures var n := Newest(rows, deviceId, field);
            if n.Some? then
              && 0 <= i < |rows| && rows[i].deviceId == deviceId && rows[i].fieldName == field
              && n.value.value == rows[i].value && n.value.at == rows[i].collectedAt
              && forall j :: 0 <= j < |rows| && rows[j].deviceId == deviceId && rows[j].fieldName == field ==>
                   rows[j].collectedAt <= rows[i].collectedAt && (j > i ==> rows[j].collectedAt < rows[i].collectedAt)
            else forall j :: 0 <= j < |rows| ==> rows[j].deviceId != deviceId || rows[j].fieldName != field
  {
    NewestMeans(rows, deviceId, field);
    hide Newest;
    var n := Newest(rows, deviceId, field);
    i := -1;
    if n.Some? {
      i :| && 0 <= i < |rows| && Hits(rows[i], deviceId, field)
           && rows[i].value == n.value.value && rows[i].collectedAt == n.value.at
           && (forall j :: 0 <= j < |rows| && Hits(rows[j], deviceId, field) ==>
                 rows[j].collectedAt <= n.value.at && (j > i ==> rows[j].collectedAt < n.value.at));
    }
  }

  /** A device without an id, or a field without a name, has no newest value. */
  lemma NothingForBlanks(rows: seq<Row>, deviceId: int, field: string)
    requires deviceId == 0 || field == ""
    ensures Newest(rows, deviceId, field) == None
  {
    NewestMeans(rows, deviceId, field);
    hide Newest;
  }

  /** A device appears with its first row that names a field. */
  lemma AppearsMeans(rows: seq<Row>, deviceId: int)
    ensures Appears(rows, deviceId) <==>
              deviceId != 0 && exists i :: 0 <= i < |rows| && rows[i].deviceId == deviceId && rows[i].fieldName != ""
  {
  }

  /** The device time bounds all of its rows and is one of them. */
  lemma {:induction false} NewestTimeMeans(rows: seq<Row>, deviceId: int)
    ensures forall i :: 0 <= i < |rows| && rows[i].deviceId == deviceId != 0 && rows[i].fieldName != "" ==>
              rows[i].collectedAt <= NewestTime(rows, deviceId)
    ensures NewestTime(rows, deviceId) == 0
         || exists i :: 0 <= i < |rows| && rows[i].deviceId == deviceId != 0 && rows[i].fieldName != ""
                        && rows[i].collectedAt == NewestTime(rows, deviceId)
  {
    if rows != [] {
      var init := rows[..|rows| - 1];
      NewestTimeMeans(init, deviceId);
      assert forall i :: 0 <= i < |init| ==> init[i] == rows[i];
      if NewestTime(rows, deviceId) != NewestTime(init, deviceId) {
        assert rows[|init|].collectedAt == NewestTime(rows, deviceId);
      } else if NewestTime(init, deviceId) != 0 {
        var i :| 0 <= i < |init| && init[i].deviceId == deviceId != 0 && init[i].fieldName != ""
                 && init[i].collectedAt == NewestTime(init, deviceId);
        assert rows[i] == init[i];
      }
    }
  }

  // The fold.

  type Times = map<(int, string), nat>

  /** The items so far, where each device's item is, and when each field was collected. */
  datatype Fold = Fold(result: seq<Item>, index: map<int, nat>, times: Times)

  const NOTHING := Fold([], map[], map[])

  /** Positions and device ids are inverse to each other, so each device has one item. */
  predicate Indexed(result: seq<Item>, index: map<int, nat>) {
    && (forall d :: d in index ==> index[d] < |result| && result[index[d]].deviceId == d)
    && (forall i :: 0 <= i < |result| ==> result[i].deviceId in index && index[result[i].deviceId] == i)
  }

  /** Finds or adds the device's item. */
  function Placed(s: Fold, deviceId: int): (s': Fold)
    requires Indexed(s.result, s.index)
    ensures Indexed(s'.result, s'.index) && deviceId in s'.index && s'.times == s.times
  {
    if deviceId in s.index then s
    else s.(result := s.result + [Item(deviceId, map[], 0)], index := s.index[deviceId := |s.result|])
  }

  /** `appendLatestDeviceFieldRow`: a row older than the value already there is ignored. */
  function Noted(item: Item, times: Times, r: Row): (n: (Item, Times))
    ensures n.0.deviceId == item.deviceId
  {
    var key := (r.deviceId, r.fieldName);
    if key in times && times[key] > r.collectedAt then (item, times)
    else
      (item.(fields := item.fields[r.fieldName := r.value],
             collectedAt := if r.collectedAt > item.collectedAt then r.collectedAt else item.collectedAt),
       times[key := r.collectedAt])
  }

  function Next(s: Fold, r: Row): (s': Fold)
    requires Indexed(s.result, s.index)
    ensures Indexed(s'.result, s'.index)
  {
    if !Counts(r) then s
    else
      var p := Placed(s, r.deviceId);
      var i := p.index[r.deviceId];
      var (item, times) := Noted(p.result[i], p.times, r);
      p.(result := p.result[i := item], times := times)
  }

  function FoldAll(s: Fold, rows: seq<Row>): (s': Fold)
    requires Indexed(s.result, s.index)
    ensures Indexed(s'.result, s'.index)
  {
    if rows == [] then s else Next(FoldAll(s, rows[..|rows| - 1]), rows[|rows| - 1])
  }

  /** The item says what the rows say about its device. */
  ghost predicate Tells(item: Item, rows: seq<Row>) {
    var d := item.deviceId;
    && Appears(rows, d)
    && item.collectedAt == NewestTime(rows, d)
    && (forall f :: f in item.fields <==> Newest(rows, d, f).Some?)
    && (forall f :: f in item.fields ==> item.fields[f] == Newest(rows, d, f).value.value)
  }

  ghost predicate TimesTell(times: Times, rows: seq<Row>) {
    && (forall d, f :: (d, f) in times <==> Newest(rows, d, f).Some?)
    && (forall d, f :: (d, f) in times ==> times[(d, f)] == Newest(rows, d, f).value.at)
  }

  ghost predicate Summarises(s: Fold, rows: seq<Row>) {
    && Indexed(s.result, s.index)
    && (forall i :: 0 <= i < |s.result| ==> Tells(s.result[i], rows))
    && (forall d :: Appears(rows, d) ==> d in s.index)
    && TimesTell(s.times, rows)
  }

  lemma AppearsNext(rows: seq<Row>, r: Row, d: int)
    ensures Appears(rows + [r], d) <==> Appears(rows, d) || (Counts(r) && r.deviceId == d)
  {
    var all := rows + [r];
    assert all[|rows|] == r;
    assert forall i :: 0 <= i < |rows| ==> all[i] == rows[i];
    if Appears(rows, d) {
      var i :| 0 <= i < |rows| && Counts(rows[i]) && rows[i].deviceId == d;
      assert all[i] == rows[i];
    }
  }

  lemma NewestNext(rows: seq<Row>, r: Row, d: int, f: string)
    ensures Newest(rows + [r], d, f) ==
              if Hits(r, d, f) && (Newest(rows, d, f).None? || Newest(rows, d, f).value.at <= r.collectedAt)
              then Some(Stamped(r.value, r.collectedAt)) else Newest(rows, d, f)
    ensures NewestTime(rows + [r], d) ==
              if Counts(r) && r.deviceId == d && r.collectedAt > NewestTime(rows, d) then r.collectedAt
              else NewestTime(rows, d)
  {
    assert (rows + [r])[..|rows|] == rows;
  }

  /** A field's newest time is no later than its device's. */
  lemma {:induction false} FieldWithinDevice(rows: seq<Row>, d: int, f: string)
    ensures Newest(rows, d, f).Some? ==> Newest(rows, d, f).value.at <= NewestTime(rows, d) && Appears(rows, d)
  {
    if rows != [] {
      var init, r := rows[..|rows| - 1], rows[|rows| - 1];
      FieldWithinDevice(init, d, f);
      assert rows == init + [r];
      AppearsNext(init, r, d);
    }
  }

  /** An item of another device is not affected. */
  lemma TellsOthers(item: Item, rows: seq<Row>, r: Row)
    requires Tells(item, rows) && (!Counts(r) || r.deviceId != item.deviceId)
    ensures Tells(item, rows + [r])
  {
    AppearsNext(rows, r, item.deviceId);
    forall f ensures Newest(rows + [r], item.deviceId, f) == Newest(rows, item.deviceId, f) {
      NewestNext(rows, r, item.deviceId, f);
    }
    NewestNext(rows, r, item.deviceId, "");
  }

  lemma TellsOwn(item: Item, times: Times, rows: seq<Row>, r: Row)
    requires Counts(r) && item.deviceId == r.deviceId && TimesTell(times, rows)
    requires Tells(item, rows) || (!Appears(rows, r.deviceId) && item == Item(r.deviceId, map[], 0))
    ensures Tells(Noted(item, times, r).0, rows + [r])
  {
    var d := r.deviceId;
    AppearsNext(rows, r, d);
    FieldWithinDevice(rows, d, r.fieldName);
    if !Appears(rows, d) {
      NothingYet(rows, d);
    }
    forall f ensures f in Noted(item, times, r).0.fields <==> Newest(rows + [r], d, f).Some?
             ensures f in Noted(item, times, r).0.fields ==>
                       Noted(item, times, r).0.fields[f] == Newest(rows + [r], d, f).value.value
    {
      NewestNext(rows, r, d, f);
    }
    NewestNext(rows, r, d, r.fieldName);
  }

  lemma NothingYet(rows: seq<Row>, d: int)
    requires !Appears(rows, d)
    ensures NewestTime(rows, d) == 0 && forall f :: Newest(rows, d, f).None?
  {
    NewestTimeMeans(rows, d);
    forall f ensures Newest(rows, d, f).None? {
      FieldWithinDevice(rows, d, f);
    }
  }

  lemma TimesNext(item: Item, times: Times, rows: seq<Row>, r: Row)
    requires Counts(r) && TimesTell(times, rows)
    ensures TimesTell(Noted(item, times, r).1, rows + [r])
  {
    forall d, f
      ensures (d, f) in Noted(item, times, r).1 <==> Newest(rows + [r], d, f).Some?
      ensures (d, f) in Noted(item, times, r).1 ==>
                Noted(item, times, r).1[(d, f)] == Newest(rows + [r], d, f).value.at
    {
      NewestNext(rows, r, d, f);
    }
  }

  lemma SkippedRow(s: Fold, rows: seq<Row>, r: Row)
    requires Summarises(s, rows) && !Counts(r)
    ensures Summarises(s, rows + [r])
  {
    forall i | 0 <= i < |s.result| ensures Tells(s.result[i], rows + [r]) {
      TellsOthers(s.result[i], rows, r);
    }
    forall d, f ensures Newest(rows + [r], d, f) == Newest(rows, d, f) {
      NewestNext(rows, r, d, f);
    }
    forall d | Appears(rows + [r], d) ensures d in s.index {
      AppearsNext(rows, r, d);
    }
  }

  lemma CountedRow(s: Fold, rows: seq<Row>, r: Row)
    requires Summarises(s, rows) && Counts(r)
    ensures Summarises(Next(s, r), rows + [r])
  {
    hide Tells, TimesTell, Appears, Newest, NewestTime, Noted;
    var p := Placed(s, r.deviceId);
    var k := p.index[r.deviceId];
    var s' := Next(s, r);
    TimesNext(p.result[k], s.times, rows, r);
    forall i | 0 <= i < |s'.result| ensures Tells(s'.result[i], rows + [r]) {
      if i == k {
        if r.deviceId !in s.index {
          assert !Appears(rows, r.deviceId);
        }
        TellsOwn(p.result[k], s.times, rows, r);
      } else {
        TellsOthers(s.result[i], rows, r);
      }
    }
    forall d | Appears(rows + [r], d) ensures d in s'.index {
      AppearsNext(rows, r, d);
    }
  }

  /** The fold summarises the rows: one item for each device that occurs, with the newest value of
      each of its fields (the last read among equally new ones) and its newest time. */
  lemma {:induction false} FoldSummarises(rows: seq<Row>)
    ensures Summarises(FoldAll(NOTHING, rows), rows)
  {
    if rows != [] {
      var init, r := rows[..|rows| - 1], rows[|rows| - 1];
      FoldSummarises(init);
      assert rows == init + [r];
      hide Summarises, Next;
      if Counts(r) {
        CountedRow(FoldAll(NOTHING, init), init, r);
      } else {
        SkippedRow(FoldAll(NOTHING, init), init, r);
        UncountedNext(FoldAll(NOTHING, init), r);
      }
    }
  }

  lemma UncountedNext(s: Fold, r: Row)
    requires Indexed(s.result, s.index) && !Counts(r)
    ensures Next(s, r) == s
  {
  }

  // The loops.

  /** The remembered position of the current device, if any, is its position. */
  predicate Remembers(s: Fold, current: Option<(int, nat)>) {
    current.Some? ==> current.value.0 in s.index && s.index[current.value.0] == current.value.1
  }

  /** One turn of the loops: consecutive rows of one device use the item found for the first. */
  method AppendRow(s: Fold, current: Option<(int, nat)>, r: Row) returns (s': Fold, current': Option<(int, nat)>)
    requires Indexed(s.result, s.index) && Remembers(s, current)
    ensures s' == Next(s, r) && Remembers(s', current')
  {
    hide Noted;
    s', current' := s, current;
    if !Counts(r) {
      return;
    }
    if current.None? || current.value.0 != r.deviceId {
      if r.deviceId !in s.index {
        s' := s.(result := s.result + [Item(r.deviceId, map[], 0)], index := s.index[r.deviceId := |s.result|]);
      }
      current' := Some((r.deviceId, s'.index[r.deviceId]));
    }
    var i := current'.value.1;
    var (item, times) := Noted(s'.result[i], s'.times, r);
    s' := s'.(result := s'.result[i := item], times := times);
  }

  /** `appendLatestDeviceFieldRowsFromCache` and `…FromHistory` */
  method AppendRows(result: seq<Item>, index: map<int, nat>, times: Times, rows: seq<Row>) returns (s: Fold)
    requires Indexed(result, index)
    ensures s == FoldAll(Fold(result, index, times), rows)
  {
    hide Next, Remembers;
    s := Fold(result, index, times);
    var current: Option<(int, nat)> := None;
    NothingRemembered(s);
    for n := 0 to |rows|
      invariant s == FoldAll(Fold(result, index, times), rows[..n]) && Remembers(s, current)
    {
      assert rows[..n + 1][..n] == rows[..n];
      s, current := AppendRow(s, current, rows[n]);
    }
    assert rows[..|rows|] == rows;
  }

  lemma NothingRemembered(s: Fold)
    ensures Remembers(s, None)
  {
  }

  /** The index of an already folded result. */
  method Reindex(result: seq<Item>) returns (index: map<int, nat>)
    requires forall i, j :: 0 <= i < j < |result| ==> result[i].deviceId != result[j].deviceId
    ensures Indexed(result, index)
  {
    index := map[];
    for i := 0 to |result|
      invariant Indexed(result[..i], index)
    {
      index := index[result[i].deviceId := i];
    }
    assert result[..|result|] == result;
  }

  lemma IndexUnique(result: seq<Item>, a: map<int, nat>, b: map<int, nat>)
    requires Indexed(result, a) && Indexed(result, b)
    ensures a == b
  {
    forall d | d in a ensures d in b && a[d] == b[d] {
      assert result[a[d]].deviceId == d;
    }
    forall d | d in b ensures d in a {
      assert result[b[d]].deviceId == d;
    }
    SameMap(a, b);
  }

  lemma SameMap<K, V>(a: map<K, V>, b: map<K, V>)
    requires forall k :: k in a ==> k in b && a[k] == b[k]
    requires forall k :: k in b ==> k in a
    ensures a == b
  {
    assert a.Keys == b.Keys;
  }

  /** `GetAllDevicesLatestData` with a disk database and no read errors: the cache, then the in-memory
      history if the cache had nothing, then the history on disk. */
  method GetAllDevicesLatestData(cache: seq<Row>, memory: seq<Row>, disk: seq<Row>)
    returns (result: seq<Item>, ghost read: seq<Row>)
    ensures (exists i :: 0 <= i < |cache| && cache[i].deviceId != 0 && cache[i].fieldName != "") ==>
              read == cache + disk
    ensures (forall i :: 0 <= i < |cache| ==> cache[i].deviceId == 0 || cache[i].fieldName == "") ==>
              read == cache + memory + disk
    ensures forall i, j :: 0 <= i < j < |result| ==> result[i].deviceId != result[j].deviceId
    ensures forall d :: (exists i :: 0 <= i < |result| && result[i].deviceId == d) <==> Appears(read, d)
    ensures forall i :: 0 <= i < |result| ==> result[i].collectedAt == NewestTime(read, result[i].deviceId)
    ensures forall i, f :: 0 <= i < |result| ==>
              (f in result[i].fields <==> Newest(read, result[i].deviceId, f).Some?)
    ensures forall i, f :: 0 <= i < |result| && f in result[i].fields ==>
              result[i].fields[f] == Newest(read, result[i].deviceId, f).value.value
  {
    hide Newest, NewestTime, FoldAll;
    var s := AppendRows([], map[], map[], cache);
    FoldSummarises(cache);
    assert |s.result| > 0 ==> Appears(cache, s.result[0].deviceId);
    assert |s.result| == 0 ==> forall i :: 0 <= i < |cache| && Counts(cache[i]) ==> !Appears(cache, cache[i].deviceId);
    read := cache;
    if |s.result| == 0 {
      FoldConcat(NOTHING, cache, memory);
      s := AppendRows(s.result, s.index, s.times, memory);
      read := cache + memory;
    }
    FoldConcat(NOTHING, read, disk);
    var index := Reindex(s.result);
    IndexUnique(s.result, index, s.index);
    s := AppendRows(s.result, index, s.times, disk);
    read := read + disk;
    FoldSummarises(read);
    result := s.result;
  }

  lemma {:induction false} FoldConcat(s: Fold, a: seq<Row>, b: seq<Row>)
    requires Indexed(s.result, s.index)
    ensures FoldAll(s, a + b) == FoldAll(FoldAll(s, a), b)
  {
    hide Next;
    if b == [] {
      assert a + b == a;
    } else {
      assert (a + b)[..|a + b| - 1] == a + b[..|b| - 1];
      FoldConcat(s, a, b[..|b| - 1]);
    }
  }
}

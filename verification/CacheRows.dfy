/** Collected records and the rows they put into the real-time cache. */
module CacheRows {
  import opened Basics

  datatype Data<V> = Data(deviceId: int, fields: map<string, string>, points: seq<Point<V>>)

  /** Name trimming and value formatting, as parameters. */
  datatype Format<!V> = Format(trim: string -> string, show: V -> string)

  datatype Row = Row(deviceId: int, field: string, value: string)

  type Cell = (int, string)

  type Table = map<Cell, string>

  /** A multi-row upsert, row by row. */
  function Upserted(t: Table, rows: seq<Row>): Table {
    if rows == [] then t
    else
      var r := rows[|rows| - 1];
      Upserted(t, rows[..|rows| - 1])[(r.deviceId, r.field) := r.value]
  }

  /** The points as fields: blank names are skipped, the last point of a name wins. */
  function PointFields<V>(f: Format<V>, points: seq<Point<V>>): map<string, string> {
    if points == [] then map[]
    else
      var m := PointFields(f, points[..|points| - 1]);
      var p := points[|points| - 1];
      if f.trim(p.fieldName) == "" then m else m[f.trim(p.fieldName) := f.show(p.value)]
  }

  /** The record's fields with its points laid over them: what `EnsureFields` returns. */
  function AllFields<V>(f: Format<V>, d: Data<V>): map<string, string> {
    d.fields + PointFields(f, d.points)
  }

  function Cells(deviceId: int, fields: map<string, string>): Table {
    map c | c in (set k | k in fields :: (deviceId, k)) :: fields[c.1]
  }

  /** What a record changes in the cache. */
  function Delta<V>(f: Format<V>, d: Data<V>): Table {
    Cells(d.deviceId, AllFields(f, d))
  }

  function DeltaAll<V>(f: Format<V>, items: seq<Data<V>>): Table {
    if items == [] then map[] else DeltaAll(f, items[..|items| - 1]) + Delta(f, items[|items| - 1])
  }

  /** Whatever the cache holds, executing `rows` amounts to laying `delta` over it. */
  ghost predicate Amounts(rows: seq<Row>, delta: Table) {
    forall t :: Upserted(t, rows) == t + delta
  }

  lemma {:induction false} UpsertedConcat(t: Table, a: seq<Row>, b: seq<Row>)
    ensures Upserted(t, a + b) == Upserted(Upserted(t, a), b)
  {
    if b == [] {
      assert a + b == a;
    } else {
      assert (a + b)[..|a + b| - 1] == a + b[..|b| - 1];
      UpsertedConcat(t, a, b[..|b| - 1]);
    }
  }

  lemma AmountsConcat(a: seq<Row>, da: Table, b: seq<Row>, db: Table)
    requires Amounts(a, da) && Amounts(b, db)
    ensures Amounts(a + b, da + db)
  {
    forall t ensures Upserted(t, a + b) == t + (da + db) {
      hide Upserted;
      UpsertedConcat(t, a, b);
      OverlayAssociates(t, da, db);
    }
  }

  lemma OverlayAssociates(t: Table, a: Table, b: Table)
    ensures t + (a + b) == t + a + b
  {
  }

  lemma AmountsNone()
    ensures Amounts([], map[])
  {
  }

  lemma AmountsNext(rows: seq<Row>, delta: Table, r: Row)
    requires Amounts(rows, delta)
    ensures Amounts(rows + [r], delta[(r.deviceId, r.field) := r.value])
  {
    forall t ensures Upserted(t, rows + [r]) == t + delta[(r.deviceId, r.field) := r.value] {
      assert (rows + [r])[..|rows|] == rows;
    }
  }

  lemma CellsNext(deviceId: int, m: map<string, string>, k: string, v: string)
    ensures Cells(deviceId, m[k := v]) == Cells(deviceId, m)[(deviceId, k) := v]
  {
  }

  /** Points written after any fields they do not override leave the whole record in place. */
  lemma OverlaidCells(deviceId: int, fields: map<string, string>, some: map<string, string>,
                      points: map<string, string>)
    requires forall k :: k in some ==> k in fields && some[k] == fields[k]
    requires forall k :: k in fields && k !in points ==> k in some
    ensures Cells(deviceId, some) + Cells(deviceId, points) == Cells(deviceId, fields + points)
  {
  }

  /** Replaying everything after a prefix has been written changes nothing. */
  lemma {:induction false} ReplayAbsorbs<V>(f: Format<V>, items: seq<Data<V>>, k: nat)
    requires k <= |items|
    ensures DeltaAll(f, items[..k]).Keys <= DeltaAll(f, items).Keys
  {
    if k < |items| {
      assert items[..|items| - 1][..k] == items[..k];
      ReplayAbsorbs(f, items[..|items| - 1], k);
    } else {
      assert items[..k] == items;
    }
  }

  lemma Replay<V>(f: Format<V>, t: Table, items: seq<Data<V>>, k: nat)
    requires k <= |items|
    ensures t + DeltaAll(f, items[..k]) + DeltaAll(f, items) == t + DeltaAll(f, items)
  {
    ReplayAbsorbs(f, items, k);
  }

  lemma DeltaNext<V>(f: Format<V>, items: seq<Data<V>>, k: nat)
    requires k < |items|
    ensures DeltaAll(f, items[..k + 1]) == DeltaAll(f, items[..k]) + Delta(f, items[k])
  {
    assert items[..k + 1][..k] == items[..k];
  }

  /** Executing rows in two statements is executing them in one. */
  lemma ChunkDone(t: Table, rows: seq<Row>, a: nat, b: nat)
    requires a <= b <= |rows|
    ensures Upserted(Upserted(t, rows[..a]), rows[a..b]) == Upserted(t, rows[..b])
  {
    hide Upserted;
    UpsertedConcat(t, rows[..a], rows[a..b]);
    assert rows[..a] + rows[a..b] == rows[..b];
  }

  function CellsOf(rows: seq<Row>): set<Cell> {
    set i | 0 <= i < |rows| :: (rows[i].deviceId, rows[i].field)
  }

  lemma {:induction false} UpsertedOutside(t: Table, rows: seq<Row>)
    ensures Upserted(t, rows).Keys == t.Keys + CellsOf(rows)
    ensures forall c :: c in t && c !in CellsOf(rows) ==> Upserted(t, rows)[c] == t[c]
  {
    if rows != [] {
      var init, r := rows[..|rows| - 1], rows[|rows| - 1];
      UpsertedOutside(t, init);
      assert CellsOf(rows) == CellsOf(init) + {(r.deviceId, r.field)} by {
        assert forall i :: 0 <= i < |init| ==> rows[i] == init[i];
      }
    }
  }

  lemma AmountsCells(rows: seq<Row>, delta: Table)
    requires Amounts(rows, delta)
    ensures delta.Keys == CellsOf(rows)
  {
    UpsertedOutside(map[], rows);
    assert Upserted(map[], rows) == map[] + delta;
    assert map[] + delta == delta;
  }

  lemma CellsPrefix(rows: seq<Row>, n: nat)
    requires n <= |rows|
    ensures CellsOf(rows[..n]) <= CellsOf(rows)
  {
    assert forall i :: 0 <= i < n ==> rows[..n][i] == rows[i];
  }

  /** Rows that were executed in part are absorbed when all of them are executed later. */
  lemma ChunksAbsorbed(t: Table, rows: seq<Row>, done: nat, delta: Table)
    requires done <= |rows| && Amounts(rows, delta)
    ensures Upserted(t, rows[..done]) + delta == t + delta
  {
    AmountsCells(rows, delta);
    CellsPrefix(rows, done);
    UpsertedOutside(t, rows[..done]);
    hide Upserted, Amounts, CellsOf;
  }

  lemma OverlayTwice(t: Table, delta: Table)
    ensures t + delta + delta == t + delta
  {
  }

  /** A change within some cells is a change within more of them. */
  lemma AbsorbedWithin(t': Table, t: Table, d: Table, more: Table)
    requires t' + d == t + d && d.Keys <= more.Keys
    ensures t' + more == t + more
  {
    forall c | c !in more ensures c in t' <==> c in t {
      assert c in t' + d <==> c in t + d;
    }
    forall c | c !in more && c in t ensures t'[c] == t[c] {
      assert (t' + d)[c] == (t + d)[c];
    }
  }

  // What the specification functions say.

  predicate RowFor(r: Row, c: Cell) {
    r.deviceId == c.0 && r.field == c.1
  }

  /** An upsert leaves in each cell what its last row for the cell says, and leaves other cells alone. */
  lemma {:induction false} UpsertMeans(t: Table, rows: seq<Row>, c: Cell) returns (i: int)
    ensures var t' := Upserted(t, rows);
            if exists k :: 0 <= k < |rows| && RowFor(rows[k], c) then
              && 0 <= i < |rows| && RowFor(rows[i], c) && c in t' && t'[c] == rows[i].value
              && forall j :: i < j < |rows| ==> !RowFor(rows[j], c)
            else (c in t' <==> c in t) && (c in t ==> t'[c] == t[c])
  {
    i := |rows| - 1;
    if rows != [] {
      if RowFor(rows[i], c) {
        assert c == (rows[i].deviceId, rows[i].field);
      } else {
        var init := rows[..i];
        assert forall k :: 0 <= k < |init| ==> init[k] == rows[k];
        i := UpsertMeans(t, init, c);
      }
    }
  }

  /** A field that points write has the formatted value of the last point of its trimmed name. */
  lemma {:induction false} PointFieldsMean<V>(f: Format<V>, points: seq<Point<V>>, n: string) returns (i: int)
    requires n != ""
    ensures var fields := PointFields(f, points);
            if n in fields then
              && 0 <= i < |points| && f.trim(points[i].fieldName) == n && fields[n] == f.show(points[i].value)
              && forall j :: i < j < |points| ==> f.trim(points[j].fieldName) != n
            else forall j :: 0 <= j < |points| ==> f.trim(points[j].fieldName) != n
  {
    i := |points| - 1;
    if points != [] && f.trim(points[i].fieldName) != n {
      i := PointFieldsMean(f, points[..i], n);
    }
  }

  /** Points without a name write nothing. */
  lemma {:induction false} NoBlankField<V>(f: Format<V>, points: seq<Point<V>>)
    ensures "" !in PointFields(f, points)
  {
    if points != [] {
      NoBlankField(f, points[..|points| - 1]);
    }
  }

  /** A record writes its fields and its points, the points over the fields, into the cells of its device. */
  lemma DeltaMeans<V>(f: Format<V>, d: Data<V>, c: Cell)
    ensures var points := PointFields(f, d.points);
            && (c in Delta(f, d) <==> c.0 == d.deviceId && (c.1 in d.fields || c.1 in points))
            && (c in Delta(f, d) ==> Delta(f, d)[c] == if c.1 in points then points[c.1] else d.fields[c.1])
  {
    hide PointFields;
    var all := AllFields(f, d);
    CellMeans(d.deviceId, all, c);
    assert c.1 in all <==> c.1 in d.fields || c.1 in PointFields(f, d.points);
  }

  lemma CellMeans(deviceId: int, fields: map<string, string>, c: Cell)
    ensures c in Cells(deviceId, fields) <==> c.0 == deviceId && c.1 in fields
    ensures c in Cells(deviceId, fields) ==> Cells(deviceId, fields)[c] == fields[c.1]
  {
    if c.0 == deviceId && c.1 in fields {
      assert c == (deviceId, c.1);
    }
  }

  /** Records written one after the other leave in each cell what the last record that writes it says. */
  lemma {:induction false} DeltaAllMeans<V>(f: Format<V>, items: seq<Data<V>>, c: Cell) returns (i: int)
    ensures var all := DeltaAll(f, items);
            if c in all then
              && 0 <= i < |items| && c in Delta(f, items[i]) && all[c] == Delta(f, items[i])[c]
              && forall j :: i < j < |items| ==> c !in Delta(f, items[j])
            else forall j :: 0 <= j < |items| ==> c !in Delta(f, items[j])
  {
    hide Delta, DeltaAll;
    i := |items| - 1;
    if items == [] {
      assert DeltaAll(f, items[..0]) == map[] by {
        NoDeltas(f);
      }
    } else {
      DeltaNext(f, items, i);
      assert items[..i + 1] == items;
      if c !in Delta(f, items[i]) {
        i := DeltaAllMeans(f, items[..i], c);
      }
    }
  }

  lemma NoDeltas<V>(f: Format<V>)
    ensures DeltaAll<V>(f, []) == map[]
  {
  }
}

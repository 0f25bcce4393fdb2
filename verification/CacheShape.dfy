/** How a collected record becomes rows: trimmed point names, the fields that points override, the
    row count announced in advance, and the rows themselves. */
module CacheShape {
  import opened Basics
  import opened CacheRows

  /** `collectDataCacheShape`. `names` is absent while every point name is already trimmed. */
  datatype Shape = Shape(names: Option<seq<string>>, overridden: set<string>, allOverridden: bool, rows: nat)

  /** `normalizedCollectPointFieldName` */
  function NameAt<V>(points: seq<Point<V>>, names: Option<seq<string>>, i: nat): string
    requires i < |points| && (names.Some? ==> |names.value| == |points|)
  {
    if names.Some? then names.value[i] else points[i].fieldName
  }

  function ValidCount<V>(f: Format<V>, points: seq<Point<V>>): nat {
    if points == [] then 0
    else ValidCount(f, points[..|points| - 1]) + if f.trim(points[|points| - 1].fieldName) == "" then 0 else 1
  }

  /** `normalizeCollectPointFieldNames`: the names list is built only when some name needs it. */
  method NormalizeNames<V>(f: Format<V>, points: seq<Point<V>>) returns (names: Option<seq<string>>, valid: nat)
    ensures names.Some? ==> |names.value| == |points|
    ensures forall i :: 0 <= i < |points| ==> NameAt(points, names, i) == f.trim(points[i].fieldName)
    ensures valid == ValidCount(f, points)
  {
    names, valid := None, 0;
    for i := 0 to |points|
      invariant names.Some? ==> |names.value| == |points|
      invariant names.Some? ==> forall j :: i <= j < |points| ==> names.value[j] == ""
      invariant forall j :: 0 <= j < i ==> NameAt(points, names, j) == f.trim(points[j].fieldName)
      invariant valid == ValidCount(f, points[..i])
    {
      assert points[..i + 1][..i] == points[..i];
      var name := f.trim(points[i].fieldName);
      if name == "" {
        if names.None? {
          names := Some(seq(|points|, j requires 0 <= j < |points| => if j < i then points[j].fieldName else ""));
        }
        continue;
      }
      if names.Some? {
        names := Some(names.value[i := name]);
      } else if name != points[i].fieldName {
        names := Some(seq(|points|, j requires 0 <= j < |points| =>
          if j < i then points[j].fieldName else if j == i then name else ""));
      }
      valid := valid + 1;
    }
    assert points[..|points|] == points;
  }

  /** The names list agrees with trimming. */
  predicate Trimmed<V>(f: Format<V>, points: seq<Point<V>>, names: Option<seq<string>>) {
    && (names.Some? ==> |names.value| == |points|)
    && forall i :: 0 <= i < |points| ==> NameAt(points, names, i) == f.trim(points[i].fieldName)
  }

  /** `collectOverriddenPointFieldNames` */
  method Overridden<V>(f: Format<V>, d: Data<V>, names: Option<seq<string>>) returns (r: set<string>)
    requires Trimmed(f, d.points, names)
    ensures r == d.fields.Keys * PointFields(f, d.points).Keys
  {
    r := {};
    for i := 0 to |d.points|
      invariant r == d.fields.Keys * PointFields(f, d.points[..i]).Keys
    {
      assert d.points[..i + 1][..i] == d.points[..i];
      var name := NameAt(d.points, names, i);
      if name != "" && name in d.fields {
        r := r + {name};
      }
    }
    assert d.points[..|d.points|] == d.points;
  }

  ghost predicate ShapeOf<V>(s: Shape, f: Format<V>, d: Data<V>) {
    && Trimmed(f, d.points, s.names)
    && s.overridden == d.fields.Keys * PointFields(f, d.points).Keys
    && (s.allOverridden <==> d.fields != map[] && s.overridden == d.fields.Keys)
    && s.rows == ValidCount(f, d.points) + |d.fields.Keys - s.overridden|
  }

  /** `buildCollectDataCacheShape` */
  method BuildShape<V>(f: Format<V>, d: Data<V>) returns (s: Shape)
    ensures ShapeOf(s, f, d)
  {
    hide PointFields, ValidCount, NameAt, NoRepeats, Others;
    var names, valid := NormalizeNames(f, d.points);
    var overridden := Overridden(f, d, names);
    var rows := valid;
    var allOverridden := |d.fields| > 0 && |overridden| == |d.fields|;
    SameSize(overridden, d.fields.Keys);
    if !allOverridden {
      var order := AnyOrder(d.fields.Keys);
      var n := CountOthers(order, overridden);
      rows := rows + n;
      AllOthers(order, d.fields.Keys, overridden);
    } else {
      assert d.fields.Keys - overridden == {};
    }
    return Shape(names, overridden, allOverridden, rows);
  }

  lemma {:induction false} SameSize<T>(a: set<T>, b: set<T>)
    requires a <= b
    ensures |a| == |b| <==> a == b
  {
    assert b == a + (b - a);
    assert |b| == |a| + |b - a|;
  }

  predicate NoRepeats<T(==)>(s: seq<T>) {
    forall i, j :: 0 <= i < j < |s| ==> s[i] != s[j]
  }

  /** The order in which Go happens to iterate a map. */
  method AnyOrder<T(==)>(keys: set<T>) returns (order: seq<T>)
    ensures NoRepeats(order) && forall k :: k in order <==> k in keys
  {
    order := [];
    var todo := keys;
    while todo != {}
      invariant NoRepeats(order) && todo <= keys
      invariant forall k :: k in order <==> k in keys && k !in todo
      decreases todo
    {
      var k :| k in todo;
      todo := todo - {k};
      order := order + [k];
    }
  }

  method CountOthers<T(==)>(order: seq<T>, skipped: set<T>) returns (n: nat)
    requires NoRepeats(order)
    ensures n == |Others(order, skipped)|
  {
    hide Others, NoRepeats;
    NoOthers<T>(order, skipped);
    n := 0;
    for i := 0 to |order|
      invariant n == |Others(order[..i], skipped)|
    {
      OthersNext(order, skipped, i);
      if order[i] !in skipped {
        n := n + 1;
      }
    }
    assert order[..|order|] == order;
  }

  ghost function Others<T>(order: seq<T>, skipped: set<T>): set<T> {
    set k | k in order && k !in skipped
  }

  lemma AllOthers<T>(order: seq<T>, keys: set<T>, skipped: set<T>)
    requires forall k :: k in order <==> k in keys
    ensures Others(order, skipped) == keys - skipped
  {
  }

  lemma NoOthers<T>(order: seq<T>, skipped: set<T>)
    ensures Others(order[..0], skipped) == {}
  {
  }

  lemma OthersNext<T>(order: seq<T>, skipped: set<T>, i: nat)
    requires NoRepeats(order) && i < |order|
    ensures |Others(order[..i + 1], skipped)| ==
              |Others(order[..i], skipped)| + if order[i] in skipped then 0 else 1
  {
    assert order[..i + 1] == order[..i] + [order[i]];
    var before, after := Others(order[..i], skipped), Others(order[..i + 1], skipped);
    assert order[i] !in before;
    assert after == if order[i] in skipped then before else before + {order[i]};
  }

  /** The fields named in `order` that are not skipped. */
  function Picked(fields: map<string, string>, order: seq<string>, skipped: set<string>): map<string, string> {
    if order == [] then map[]
    else
      var m := Picked(fields, order[..|order| - 1], skipped);
      var k := order[|order| - 1];
      if k in fields && k !in skipped then m[k := fields[k]] else m
  }

  lemma {:induction false} PickedMeans(fields: map<string, string>, order: seq<string>, skipped: set<string>)
    ensures Picked(fields, order, skipped) == map k | k in fields && k in order && k !in skipped :: fields[k]
  {
    if order != [] {
      PickedMeans(fields, order[..|order| - 1], skipped);
      assert order == order[..|order| - 1] + [order[|order| - 1]];
    }
  }

  lemma PickedNext(fields: map<string, string>, order: seq<string>, i: nat, skipped: set<string>)
    requires i < |order| && order[i] in fields
    ensures var m := Picked(fields, order[..i], skipped);
            Picked(fields, order[..i + 1], skipped) ==
              if order[i] in skipped then m else m[order[i] := fields[order[i]]]
  {
    assert order[..i + 1][..i] == order[..i];
  }

  /** The rows of the fields that no point overrides, in iteration order. */
  method FieldRows<V>(d: Data<V>, skipped: set<string>) returns (rows: seq<Row>, ghost some: map<string, string>)
    ensures some == map k | k in d.fields && k !in skipped :: d.fields[k]
    ensures Amounts(rows, Cells(d.deviceId, some))
    ensures |rows| == |d.fields.Keys - skipped|
  {
    hide RowsSoFar, Amounts, Cells;
    var order := AnyOrder(d.fields.Keys);
    rows, some := [], map[];
    RowsStart(d, order, skipped);
    for i := 0 to |order|
      invariant RowsSoFar(d, order[..i], skipped, rows, some)
    {
      var k := order[i];
      RowsNext(d, order, i, skipped, rows, some);
      if k !in skipped {
        rows := rows + [Row(d.deviceId, k, d.fields[k])];
        some := some[k := d.fields[k]];
      }
    }
    assert order[..|order|] == order;
    RowsDone(d, order, skipped, rows, some);
  }

  /** The rows of the fields that come first in `order`. */
  ghost predicate RowsSoFar<V>(d: Data<V>, order: seq<string>, skipped: set<string>, rows: seq<Row>,
                               some: map<string, string>) {
    some == Picked(d.fields, order, skipped) && |rows| == |some| && Amounts(rows, Cells(d.deviceId, some))
  }

  lemma RowsStart<V>(d: Data<V>, order: seq<string>, skipped: set<string>)
    ensures RowsSoFar(d, order[..0], skipped, [], map[])
  {
    hide Amounts, Cells;
    AmountsNone();
    CellsNone(d.deviceId);
  }

  lemma RowsNext<V>(d: Data<V>, order: seq<string>, i: nat, skipped: set<string>, rows: seq<Row>,
                    some: map<string, string>)
    requires i < |order| && NoRepeats(order) && order[i] in d.fields && RowsSoFar(d, order[..i], skipped, rows, some)
    ensures var k := order[i];
            if k in skipped then RowsSoFar(d, order[..i + 1], skipped, rows, some)
            else RowsSoFar(d, order[..i + 1], skipped, rows + [Row(d.deviceId, k, d.fields[k])], some[k := d.fields[k]])
  {
    hide Amounts, Cells, Picked;
    var k := order[i];
    PickedNext(d.fields, order, i, skipped);
    PickedMeans(d.fields, order[..i], skipped);
    if k !in skipped {
      CellRow(rows, d.deviceId, some, k, d.fields[k]);
    }
  }

  lemma RowsDone<V>(d: Data<V>, order: seq<string>, skipped: set<string>, rows: seq<Row>, some: map<string, string>)
    requires RowsSoFar(d, order, skipped, rows, some) && forall k :: k in order <==> k in d.fields
    ensures some == map k | k in d.fields && k !in skipped :: d.fields[k]
    ensures Amounts(rows, Cells(d.deviceId, some)) && |rows| == |d.fields.Keys - skipped|
  {
    hide Amounts, Cells, Picked;
    PickedMeans(d.fields, order, skipped);
    assert some.Keys == d.fields.Keys - skipped;
  }

  lemma CellRow(rows: seq<Row>, deviceId: int, some: map<string, string>, k: string, v: string)
    requires Amounts(rows, Cells(deviceId, some))
    ensures Amounts(rows + [Row(deviceId, k, v)], Cells(deviceId, some[k := v]))
  {
    hide Amounts, Cells;
    AmountsNext(rows, Cells(deviceId, some), Row(deviceId, k, v));
    CellsNext(deviceId, some, k, v);
  }

  lemma CellsNone(deviceId: int)
    ensures Cells(deviceId, map[]) == map[]
  {
  }

  /** The rows of the points, in order. */
  method PointRows<V>(f: Format<V>, d: Data<V>, names: Option<seq<string>>) returns (rows: seq<Row>)
    requires Trimmed(f, d.points, names)
    ensures Amounts(rows, Cells(d.deviceId, PointFields(f, d.points)))
    ensures |rows| == ValidCount(f, d.points)
  {
    hide Amounts, Cells;
    rows := [];
    AmountsNone();
    CellsNone(d.deviceId);
    for i := 0 to |d.points|
      invariant Amounts(rows, Cells(d.deviceId, PointFields(f, d.points[..i])))
      invariant |rows| == ValidCount(f, d.points[..i])
    {
      assert d.points[..i + 1][..i] == d.points[..i];
      var field := NameAt(d.points, names, i);
      if field != "" {
        var value := f.show(d.points[i].value);
        AmountsNext(rows, Cells(d.deviceId, PointFields(f, d.points[..i])), Row(d.deviceId, field, value));
        CellsNext(d.deviceId, PointFields(f, d.points[..i]), field, value);
        rows := rows + [Row(d.deviceId, field, value)];
      }
    }
    assert d.points[..|d.points|] == d.points;
  }

  /** `appendCollectDataCacheArgsForDataWithShape`: the rows are as many as announced, and executing
      them lays exactly the record's fields over the cache. */
  method RowsOf<V>(f: Format<V>, d: Data<V>, shape: Shape) returns (rows: seq<Row>)
    requires ShapeOf(shape, f, d)
    ensures |rows| == shape.rows && Amounts(rows, Delta(f, d))
  {
    hide Amounts, Cells;
    var fieldRows: seq<Row> := [];
    ghost var some: map<string, string> := map[];
    AmountsNone();
    CellsNone(d.deviceId);
    if !shape.allOverridden {
      fieldRows, some := FieldRows(d, shape.overridden);
    }
    var pointRows := PointRows(f, d, shape.names);
    OverlaidCells(d.deviceId, d.fields, some, PointFields(f, d.points));
    AmountsConcat(fieldRows, Cells(d.deviceId, some), pointRows, Cells(d.deviceId, PointFields(f, d.points)));
    rows := fieldRows + pointRows;
  }

  /** A collected record in memory, whose points may have been merged into its fields already. */
  class Record<V> {
    const format: Format<V>
    const deviceId: int
    const points: seq<Point<V>>
    var fields: map<string, string>
    var fieldsDone: bool
    // The record as it was collected.
    ghost const collected: Data<V>

    ghost predicate Valid()
      reads this
    {
      && collected.deviceId == deviceId && collected.points == points
      && fields == if fieldsDone then AllFields(format, collected) else collected.fields
    }

    constructor (format: Format<V>, d: Data<V>)
      ensures Valid() && collected == d && this.format == format && !fieldsDone
    {
      this.format, deviceId, points := format, d.deviceId, d.points;
      fields, fieldsDone, collected := d.fields, false, d;
    }

    /** `EnsureFields`: however often it is called, the result is the merge of what was collected. */
    method EnsureFields() returns (r: map<string, string>)
      requires Valid()
      modifies this
      ensures Valid() && r == AllFields(format, collected) == fields
    {
      hide PointFields;
      if |points| == 0 || fieldsDone {
        NoPoints(format);
        return fields;
      }
      r := MergeInto(format, fields, points);
      if |r| == 0 {
        return;
      }
      fields, fieldsDone := r, true;
    }
  }

  lemma NoPoints<V>(f: Format<V>)
    ensures PointFields(f, []) == map[]
  {
  }

  /** The loop of `EnsureFields`. */
  method MergeInto<V>(f: Format<V>, fields: map<string, string>, points: seq<Point<V>>) returns (r: map<string, string>)
    ensures r == fields + PointFields(f, points)
  {
    r := fields;
    for i := 0 to |points|
      invariant r == fields + PointFields(f, points[..i])
    {
      assert points[..i + 1][..i] == points[..i];
      var name := f.trim(points[i].fieldName);
      if name != "" {
        r := r[name := f.show(points[i].value)];
      }
    }
    assert points[..|points|] == points;
  }

  /** Merging the points into the fields first, as a caller of `EnsureFields` has done, does not change
      what the record writes. */
  lemma EnsureFieldsTwice<V>(f: Format<V>, d: Data<V>)
    ensures Delta(f, d.(fields := AllFields(f, d))) == Delta(f, d)
  {
    assert AllFields(f, d.(fields := AllFields(f, d))) == AllFields(f, d);
  }

  ghost function Named<V>(f: Format<V>, points: seq<Point<V>>): (marks: seq<bool>)
    ensures |marks| == |points|
  {
    seq(|points|, i requires 0 <= i < |points| => f.trim(points[i].fieldName) != "")
  }

  lemma {:induction false} ValidMarked<V>(f: Format<V>, points: seq<Point<V>>)
    ensures ValidCount(f, points) == |Marked(Named(f, points))|
  {
    var marks := Named(f, points);
    if points == [] {
      assert Marked(marks) == {};
    } else {
      var n := |points| - 1;
      ValidMarked(f, points[..n]);
      hide Marked;
      assert marks[..n] == Named(f, points[..n]);
      MarkedNext(marks);
    }
  }

  /** The points that count are those with a name. */
  lemma ValidCounted<V>(f: Format<V>, points: seq<Point<V>>)
    ensures ValidCount(f, points) == |set i | 0 <= i < |points| && f.trim(points[i].fieldName) != ""|
  {
    hide ValidCount;
    ValidMarked(f, points);
    assert Marked(Named(f, points)) == set i | 0 <= i < |points| && f.trim(points[i].fieldName) != "";
  }
}

/** Merging two newest-first lists of history points, one from memory and one from disk. */
module MergePoints {
  import opened Basics

  datatype DataPoint = DataPoint(deviceId: int, fieldName: string, value: string, collectedAt: int)

  datatype Key = Key(deviceId: int, fieldName: string, collectedAt: int)

  type Point = Option<DataPoint>

  function KeyOf(p: DataPoint): Key {
    Key(p.deviceId, p.fieldName, p.collectedAt)
  }

  function Limit(primary: seq<Point>, secondary: seq<Point>, limit: int): (n: nat)
  {
    if limit <= 0 then |primary| + |secondary| else limit
  }

  /** `dataPointsDoNotOverlap`: the newest secondary point is not newer than the oldest primary one. */
  predicate DoNotOverlap(primary: seq<Point>, secondary: seq<Point>) {
    || primary == [] || secondary == []
    || (&& primary[|primary| - 1].Some? && secondary[0].Some?
        && secondary[0].value.collectedAt <= primary[|primary| - 1].value.collectedAt)
  }

  /** The merging loop takes the next point from the primary list: there is no other, or the other is
      nil, or the primary one is not older. */
  predicate TakesPrimary(p: seq<Point>, s: seq<Point>, i: nat, j: nat)
    requires i <= |p| && j <= |s|
  {
    || j == |s|
    || (i < |p| && (s[j].None? || (p[i].Some? && p[i].value.collectedAt >= s[j].value.collectedAt)))
  }

  /** The order in which the loop visits the points from positions `i` and `j` on. */
  function Visits(p: seq<Point>, s: seq<Point>, i: nat, j: nat): seq<Point>
    requires i <= |p| && j <= |s|
    decreases |p| - i + |s| - j
  {
    if i == |p| && j == |s| then []
    else if TakesPrimary(p, s, i, j) then [p[i]] + Visits(p, s, i + 1, j)
    else [s[j]] + Visits(p, s, i, j + 1)
  }

  /** The points whose key is new, in order; nil points are skipped. */
  function Distinct(points: seq<Point>): (r: seq<Point>)
    ensures NilFree(r)
  {
    if points == [] then []
    else
      var r := Distinct(points[..|points| - 1]);
      var x := points[|points| - 1];
      if x.None? || KeyOf(x.value) in Keys(r) then r else r + [x]
  }

  predicate NilFree(points: seq<Point>) {
    forall i :: 0 <= i < |points| ==> points[i].Some?
  }

  function Keys(points: seq<Point>): set<Key> {
    set i | 0 <= i < |points| && points[i].Some? :: KeyOf(points[i].value)
  }

  lemma KeysNext(points: seq<Point>, x: Point)
    ensures Keys(points + [x]) == Keys(points) + if x.Some? then {KeyOf(x.value)} else {}
  {
    var all := points + [x];
    assert forall i :: 0 <= i < |points| ==> all[i] == points[i];
    assert all[|points|] == x;
    forall k | k in Keys(points) ensures k in Keys(all) {
      var i :| 0 <= i < |points| && points[i].Some? && KeyOf(points[i].value) == k;
      assert all[i] == points[i];
    }
  }

  lemma {:induction false} DistinctGrows(a: seq<Point>, b: seq<Point>)
    ensures |Distinct(a)| <= |Distinct(a + b)| && Distinct(a + b)[..|Distinct(a)|] == Distinct(a)
  {
    hide Keys;
    if b == [] {
      assert a + b == a;
    } else {
      assert (a + b)[..|a + b| - 1] == a + b[..|b| - 1];
      DistinctGrows(a, b[..|b| - 1]);
    }
  }

  /** What `mergeDataPoints` returns, for every input. */
  function Merged(primary: seq<Point>, secondary: seq<Point>, limit: int): seq<Point> {
    var n := Limit(primary, secondary, limit);
    if secondary == [] then First(primary, n)
    else if primary == [] then First(secondary, n)
    else if DoNotOverlap(primary, secondary) then First(primary + secondary, n)
    else First(Distinct(Visits(primary, secondary, 0, 0)), n)
  }

  /** `mergeDataPoints` */
  method MergeDataPoints(primary: seq<Point>, secondary: seq<Point>, limit: int) returns (result: seq<Point>)
    ensures result == Merged(primary, secondary, limit)
  {
    var n := Limit(primary, secondary, limit);
    if |secondary| == 0 {
      return if |primary| > n then primary[..n] else primary;
    }
    if |primary| == 0 {
      return if |secondary| > n then secondary[..n] else secondary;
    }
    if DoNotOverlap(primary, secondary) {
      if |primary| >= n {
        assert primary[..n] == (primary + secondary)[..n];
        return primary[..n];
      }
      var remaining := n - |primary|;
      if remaining > |secondary| {
        remaining := |secondary|;
      }
      assert primary + secondary[..remaining] == First(primary + secondary, n);
      return primary + secondary[..remaining];
    }
    result := MergeLoop(primary, secondary, n);
  }

  /** The merging loop, with its lazily built set of the keys already returned. */
  method MergeLoop(primary: seq<Point>, secondary: seq<Point>, limit: nat) returns (result: seq<Point>)
    ensures result == First(Distinct(Visits(primary, secondary, 0, 0)), limit)
  {
    hide Keys, KeyOf, Visits, Distinct;
    result := [];
    var seen: Option<set<Key>> := None;
    var i, j := 0, 0;
    ghost var visited: seq<Point> := [];
    ghost var all := Visits(primary, secondary, 0, 0);
    DistinctNone();
    while |result| < limit && (i < |primary| || j < |secondary|)
      invariant 0 <= i <= |primary| && 0 <= j <= |secondary| && |result| <= limit
      invariant all == visited + Visits(primary, secondary, i, j)
      invariant result == Distinct(visited)
      invariant seen.Some? ==> seen.value == Keys(result)
      decreases |primary| - i + |secondary| - j
    {
      VisitsStep(primary, secondary, i, j);
      var candidate: Point;
      if TakesPrimary(primary, secondary, i, j) {
        candidate := primary[i];
        i := i + 1;
      } else {
        candidate := secondary[j];
        j := j + 1;
      }
      assert all == visited + [candidate] + Visits(primary, secondary, i, j);
      DistinctNext(visited, candidate);
      visited := visited + [candidate];
      if candidate.None? {
        continue;
      }
      result, seen := Keep(result, seen, candidate);
    }
    DistinctGrows(visited, Visits(primary, secondary, i, j));
    if |result| < limit {
      VisitsEnd(primary, secondary);
      assert visited == all;
    }
  }

  lemma DistinctNone()
    ensures Distinct([]) == []
  {
  }

  lemma VisitsStep(p: seq<Point>, s: seq<Point>, i: nat, j: nat)
    requires i <= |p| && j <= |s| && (i < |p| || j < |s|)
    ensures TakesPrimary(p, s, i, j) ==> i < |p| && Visits(p, s, i, j) == [p[i]] + Visits(p, s, i + 1, j)
    ensures !TakesPrimary(p, s, i, j) ==> j < |s| && Visits(p, s, i, j) == [s[j]] + Visits(p, s, i, j + 1)
  {
  }

  lemma VisitsEnd(p: seq<Point>, s: seq<Point>)
    ensures Visits(p, s, |p|, |s|) == []
  {
  }

  /** The duplicate test: a scan until the first duplicate turns up, then a set. */
  method Keep(result: seq<Point>, seen: Option<set<Key>>, candidate: Point)
    returns (result': seq<Point>, seen': Option<set<Key>>)
    requires candidate.Some? && (seen.Some? ==> seen.value == Keys(result))
    ensures result' == if KeyOf(candidate.value) in Keys(result) then result else result + [candidate]
    ensures seen'.Some? ==> seen'.value == Keys(result')
    ensures seen.Some? || KeyOf(candidate.value) in Keys(result) ==> seen'.Some?
  {
    KeysNext(result, candidate);
    if seen.None? {
      var duplicate := IsDuplicate(result, candidate.value);
      if !duplicate {
        return result + [candidate], None;
      }
      var keys := CollectKeys(result);
      return result, Some(keys);
    }
    if KeyOf(candidate.value) in seen.value {
      return result, seen;
    }
    return result + [candidate], Some(seen.value + {KeyOf(candidate.value)});
  }

  method IsDuplicate(result: seq<Point>, candidate: DataPoint) returns (duplicate: bool)
    ensures duplicate <==> KeyOf(candidate) in Keys(result)
  {
    for i := 0 to |result|
      invariant forall j :: 0 <= j < i && result[j].Some? ==> KeyOf(result[j].value) != KeyOf(candidate)
    {
      if result[i].Some? {
        var existing := result[i].value;
        if existing.deviceId == candidate.deviceId && existing.fieldName == candidate.fieldName
           && existing.collectedAt == candidate.collectedAt {
          return true;
        }
      }
    }
    return false;
  }

  method CollectKeys(result: seq<Point>) returns (keys: set<Key>)
    ensures keys == Keys(result)
  {
    keys := {};
    for i := 0 to |result|
      invariant keys == Keys(result[..i])
    {
      KeysNext(result[..i], result[i]);
      assert result[..i + 1] == result[..i] + [result[i]];
      if result[i].Some? {
        keys := keys + {KeyOf(result[i].value)};
      }
    }
    assert result[..|result|] == result;
  }

  // The reference: drop from the secondary list what the primary one already has, then merge by time.

  predicate NewestFirst(points: seq<Point>) {
    && NilFree(points)
    && forall i, j :: 0 <= i < j < |points| ==> points[i].value.collectedAt >= points[j].value.collectedAt
  }

  predicate KeyDistinct(points: seq<Point>) {
    NilFree(points) && forall i, j :: 0 <= i < j < |points| ==> KeyOf(points[i].value) != KeyOf(points[j].value)
  }

  /** A list as the history queries return it. */
  predicate Proper(points: seq<Point>) {
    NewestFirst(points) && KeyDistinct(points)
  }

  /** The points whose keys are not in `keys`. */
  function Without(points: seq<Point>, keys: set<Key>): seq<Point>
    requires NilFree(points)
  {
    if points == [] then []
    else if KeyOf(points[0].value) in keys then Without(points[1..], keys)
    else [points[0]] + Without(points[1..], keys)
  }

  /** Newest first, the primary point before a secondary one of the same time. */
  function ByTime(p: seq<Point>, s: seq<Point>): seq<Point>
    requires NilFree(p) && NilFree(s)
  {
    if p == [] then s
    else if s == [] then p
    else if p[0].value.collectedAt >= s[0].value.collectedAt then [p[0]] + ByTime(p[1..], s)
    else [s[0]] + ByTime(p, s[1..])
  }

  function Reference(primary: seq<Point>, secondary: seq<Point>): seq<Point>
    requires NilFree(primary) && NilFree(secondary)
  {
    WithoutNilFree(secondary, Keys(primary));
    ByTime(primary, Without(secondary, Keys(primary)))
  }

  lemma {:induction false} WithoutNilFree(points: seq<Point>, keys: set<Key>)
    requires NilFree(points)
    ensures NilFree(Without(points, keys))
  {
    if points != [] {
      WithoutNilFree(points[1..], keys);
    }
  }

  lemma {:induction false} WithoutFrom(points: seq<Point>, keys: set<Key>, k: nat)
    requires NilFree(points)
    requires k < |Without(points, keys)|
    ensures Without(points, keys)[k] in points && Without(points, keys)[k].Some?
    ensures KeyOf(Without(points, keys)[k].value) !in keys
  {
    if KeyOf(points[0].value) in keys {
      WithoutFrom(points[1..], keys, k);
    } else if k > 0 {
      WithoutFrom(points[1..], keys, k - 1);
    }
  }

  /** The loop's view from positions `i` and `j`, given the keys already returned. */
  function DistinctFrom(points: seq<Point>, seen: set<Key>): seq<Point>
    requires NilFree(points)
  {
    if points == [] then []
    else
      var k := KeyOf(points[0].value);
      if k in seen then DistinctFrom(points[1..], seen)
      else [points[0]] + DistinctFrom(points[1..], seen + {k})
  }

  lemma DistinctFromStep(points: seq<Point>, seen: set<Key>)
    requires points != [] && NilFree(points)
    ensures NilFree(points[1..])
    ensures var k := KeyOf(points[0].value);
            DistinctFrom(points, seen) == (if k in seen then [] else [points[0]])
                                          + DistinctFrom(points[1..], if k in seen then seen else seen + {k})
  {
  }

  lemma DistinctFromNone(seen: set<Key>)
    ensures DistinctFrom([], seen) == []
  {
  }

  lemma DistinctNext(a: seq<Point>, x: Point)
    ensures Distinct(a + [x]) ==
              if x.None? || KeyOf(x.value) in Keys(Distinct(a)) then Distinct(a) else Distinct(a) + [x]
  {
    assert (a + [x])[..|a|] == a;
  }

  lemma {:induction false} DistinctSplits(a: seq<Point>, b: seq<Point>)
    requires NilFree(b)
    ensures Distinct(a + b) == Distinct(a) + DistinctFrom(b, Keys(Distinct(a)))
    decreases |b|
  {
    hide Keys, KeyOf, Distinct, DistinctFrom;
    if b == [] {
      DistinctFromNone(Keys(Distinct(a)));
      assert a + b == a && Distinct(a) + [] == Distinct(a);
    } else {
      var x, rest := b[0], b[1..];
      assert a + b == (a + [x]) + rest;
      DistinctNext(a, x);
      KeysNext(Distinct(a), x);
      DistinctSplits(a + [x], rest);
      DistinctFromStep(b, Keys(Distinct(a)));
    }
  }

  lemma {:induction false} VisitsNilFree(p: seq<Point>, s: seq<Point>, i: nat, j: nat)
    requires NilFree(p) && NilFree(s) && i <= |p| && j <= |s|
    ensures NilFree(Visits(p, s, i, j))
    decreases |p| - i + |s| - j
  {
    hide Visits, TakesPrimary;
    if i == |p| && j == |s| {
      VisitsEnd(p, s);
    } else {
      VisitsStep(p, s, i, j);
      if TakesPrimary(p, s, i, j) {
        VisitsNilFree(p, s, i + 1, j);
      } else {
        VisitsNilFree(p, s, i, j + 1);
      }
    }
  }

  /** The keys returned by the time the loop is at positions `i` and `j`. */
  function KeysBefore(p: seq<Point>, s: seq<Point>, i: nat, j: nat): set<Key>
    requires i <= |p| && j <= |s|
  {
    Keys(p[..i]) + Keys(s[..j])
  }

  /** No secondary point visited so far is still to come in the primary list. */
  predicate PrimaryFirst(p: seq<Point>, s: seq<Point>, i: nat, j: nat)
    requires NilFree(p) && NilFree(s) && i <= |p| && j <= |s|
  {
    forall a, b :: i <= a < |p| && 0 <= b < j ==> KeyOf(p[a].value) != KeyOf(s[b].value)
  }

  lemma KeysUpTo(p: seq<Point>, i: nat)
    requires i < |p| && Proper(p)
    ensures Keys(p[..i + 1]) == Keys(p[..i]) + {KeyOf(p[i].value)}
    ensures KeyOf(p[i].value) !in Keys(p[..i])
  {
    assert p[..i + 1] == p[..i] + [p[i]];
    KeysNext(p[..i], p[i]);
  }

  /** A secondary point newer than the whole rest of the primary list occurs in the primary list
      exactly if it occurs in the part already visited. */
  lemma SeenInPrimary(p: seq<Point>, s: seq<Point>, i: nat, j: nat)
    requires Proper(p) && Proper(s) && i <= |p| && j < |s| && !TakesPrimary(p, s, i, j)
    ensures KeyOf(s[j].value) in Keys(p[..i]) <==> KeyOf(s[j].value) in Keys(p)
    ensures forall a :: i <= a < |p| ==> KeyOf(p[a].value) != KeyOf(s[j].value)
  {
    var k := KeyOf(s[j].value);
    assert forall a :: 0 <= a < i ==> p[..i][a] == p[a];
    if k in Keys(p) {
      var a :| 0 <= a < |p| && KeyOf(p[a].value) == k;
      assert a < i;
      assert p[..i][a] == p[a];
    }
  }

  /** From positions `i` and `j` on, the loop returns what the reference does. */
  ghost predicate Agrees(p: seq<Point>, s: seq<Point>, i: nat, j: nat)
    requires i <= |p| && j <= |s| && NilFree(p) && NilFree(s)
  {
    && NilFree(Visits(p, s, i, j)) && NilFree(Without(s[j..], Keys(p)))
    && DistinctFrom(Visits(p, s, i, j), KeysBefore(p, s, i, j)) == ByTime(p[i..], Without(s[j..], Keys(p)))
  }

  lemma PrimaryStep(p: seq<Point>, s: seq<Point>, i: nat, j: nat)
    requires Proper(p) && Proper(s) && i < |p| && j <= |s| && PrimaryFirst(p, s, i, j)
    requires TakesPrimary(p, s, i, j) && Agrees(p, s, i + 1, j)
    ensures Agrees(p, s, i, j)
  {
    VisitsNilFree(p, s, i, j);
    NotSeenBefore(p, s, i, j);
    PrimaryLeads(p, s, i, j);
    KeysUpTo(p, i);
    hide Keys, ByTime, Without, Proper, PrimaryFirst;
    assert KeysBefore(p, s, i + 1, j) == KeysBefore(p, s, i, j) + {KeyOf(p[i].value)};
    assert Visits(p, s, i, j)[1..] == Visits(p, s, i + 1, j);
    assert p[i..][1..] == p[i + 1..];
  }

  lemma SecondaryStep(p: seq<Point>, s: seq<Point>, i: nat, j: nat)
    requires Proper(p) && Proper(s) && i <= |p| && j < |s|
    requires !TakesPrimary(p, s, i, j) && Agrees(p, s, i, j + 1)
    ensures Agrees(p, s, i, j)
  {
    var k := KeyOf(s[j].value);
    VisitsNilFree(p, s, i, j);
    WithoutNilFree(s[j..], Keys(p));
    SeenInPrimary(p, s, i, j);
    KeysUpTo(s, j);
    SecondaryLeads(p, s, i, j);
    hide Keys, Without, Proper, KeyOf, ByTime;
    assert KeysBefore(p, s, i, j + 1) == KeysBefore(p, s, i, j) + {k};
    assert k in Keys(p) ==> KeysBefore(p, s, i, j) + {k} == KeysBefore(p, s, i, j);
    assert Visits(p, s, i, j)[1..] == Visits(p, s, i, j + 1);
  }

  /** A secondary point that is taken leads the rest of the reference, unless it is a duplicate. */
  lemma SecondaryLeads(p: seq<Point>, s: seq<Point>, i: nat, j: nat)
    requires Proper(p) && Proper(s) && i <= |p| && j < |s| && !TakesPrimary(p, s, i, j)
    ensures NilFree(Without(s[j..], Keys(p))) && NilFree(Without(s[j + 1..], Keys(p)))
    ensures ByTime(p[i..], Without(s[j..], Keys(p)))
         == (if KeyOf(s[j].value) in Keys(p) then [] else [s[j]]) + ByTime(p[i..], Without(s[j + 1..], Keys(p)))
  {
    WithoutNilFree(s[j..], Keys(p));
    WithoutNilFree(s[j + 1..], Keys(p));
    assert s[j..][1..] == s[j + 1..];
  }

  lemma {:induction false} LoopIsReference(p: seq<Point>, s: seq<Point>, i: nat, j: nat)
    requires Proper(p) && Proper(s) && i <= |p| && j <= |s| && PrimaryFirst(p, s, i, j)
    ensures Agrees(p, s, i, j)
    decreases |p| - i + |s| - j
  {
    if i == |p| && j == |s| {
    } else if TakesPrimary(p, s, i, j) {
      LoopIsReference(p, s, i + 1, j);
      hide Agrees;
      PrimaryStep(p, s, i, j);
    } else {
      SeenInPrimary(p, s, i, j);
      LoopIsReference(p, s, i, j + 1);
      hide Agrees;
      SecondaryStep(p, s, i, j);
    }
  }

  lemma NotSeenBefore(p: seq<Point>, s: seq<Point>, i: nat, j: nat)
    requires Proper(p) && Proper(s) && i < |p| && j <= |s| && PrimaryFirst(p, s, i, j)
    ensures KeyOf(p[i].value) !in KeysBefore(p, s, i, j)
  {
    assert forall b :: 0 <= b < j ==> s[..j][b] == s[b];
    assert forall a :: 0 <= a < i ==> p[..i][a] == p[a];
  }

  /** What is left of the secondary list is not newer than the primary point taken. */
  lemma PrimaryLeads(p: seq<Point>, s: seq<Point>, i: nat, j: nat)
    requires Proper(p) && Proper(s) && i < |p| && j <= |s| && TakesPrimary(p, s, i, j)
    ensures NilFree(Without(s[j..], Keys(p)))
    ensures ByTime(p[i..], Without(s[j..], Keys(p))) == [p[i]] + ByTime(p[i..][1..], Without(s[j..], Keys(p)))
  {
    var rest := Without(s[j..], Keys(p));
    WithoutNilFree(s[j..], Keys(p));
    if rest != [] {
      WithoutFrom(s[j..], Keys(p), 0);
      var b :| 0 <= b < |s[j..]| && s[j..][b] == rest[0];
      assert s[j..][b] == s[j + b];
    }
  }

  lemma {:induction false} ByTimeConcat(p: seq<Point>, q: seq<Point>)
    requires NilFree(p) && NilFree(q) && (q != [] ==> NotOlder(p, q[0].value.collectedAt))
    ensures ByTime(p, q) == p + q
  {
    hide ByTime, NotOlder;
    if p == [] || q == [] {
      ByTimeAlone(p, q);
    } else {
      ByTimeLead(p, q);
      ByTimeConcat(p[1..], q);
      assert p + q == [p[0]] + (p[1..] + q);
    }
  }

  lemma ByTimeAlone(p: seq<Point>, q: seq<Point>)
    requires NilFree(p) && NilFree(q) && (p == [] || q == [])
    ensures ByTime(p, q) == p + q
  {
    assert p + [] == p && [] + q == q;
  }

  lemma ByTimeLead(p: seq<Point>, q: seq<Point>)
    requires NilFree(p) && NilFree(q) && p != [] && q != [] && NotOlder(p, q[0].value.collectedAt)
    ensures ByTime(p, q) == [p[0]] + ByTime(p[1..], q) && NotOlder(p[1..], q[0].value.collectedAt)
  {
  }

  predicate NotOlder(points: seq<Point>, t: int)
    requires NilFree(points)
  {
    forall i :: 0 <= i < |points| ==> points[i].value.collectedAt >= t
  }

  /** Lists that do not overlap: the reference is the primary list, then the new secondary points. */
  lemma ReferenceConcat(p: seq<Point>, s: seq<Point>)
    requires Proper(p) && Proper(s) && DoNotOverlap(p, s)
    ensures Reference(p, s) == p + Without(s, Keys(p))
  {
    var q := Without(s, Keys(p));
    WithoutNilFree(s, Keys(p));
    if p != [] && q != [] {
      WithoutFrom(s, Keys(p), 0);
      var c :| 0 <= c < |s| && s[c] == q[0];
      assert s[0].value.collectedAt >= s[c].value.collectedAt;
      forall a | 0 <= a < |p| ensures p[a].value.collectedAt >= q[0].value.collectedAt {
        assert p[a].value.collectedAt >= p[|p| - 1].value.collectedAt;
      }
    }
    ByTimeConcat(p, q);
  }

  /** The secondary points that the concatenating fast path would return have keys of their own. */
  predicate FreshTail(p: seq<Point>, s: seq<Point>, n: nat)
    requires NilFree(s)
  {
    forall b :: 0 <= b < |s| && |p| + b < n ==> KeyOf(s[b].value) !in Keys(p)
  }

  lemma {:induction false} WithoutPrefix(s: seq<Point>, keys: set<Key>, m: nat)
    requires NilFree(s) && m <= |s| && forall b :: 0 <= b < m ==> KeyOf(s[b].value) !in keys
    ensures |Without(s, keys)| >= m && Without(s, keys)[..m] == s[..m]
    ensures m == |s| ==> Without(s, keys) == s
  {
    if m > 0 {
      WithoutPrefix(s[1..], keys, m - 1);
      assert s[..m] == [s[0]] + s[1..][..m - 1];
    }
  }

  lemma FastPathAgrees(p: seq<Point>, s: seq<Point>, n: nat)
    requires NilFree(s) && FreshTail(p, s, n)
    ensures First(p + s, n) == First(p + Without(s, Keys(p)), n)
  {
    hide Keys;
    var q := Without(s, Keys(p));
    if n >= |p| {
      var m := if n - |p| < |s| then n - |p| else |s|;
      WithoutPrefix(s, Keys(p), m);
      assert First(p + s, n) == p + s[..m];
      assert First(p + q, n) == p + q[..m];
    }
  }

  lemma FastPathDiffers(p: seq<Point>, s: seq<Point>, n: nat)
    requires NilFree(s) && !FreshTail(p, s, n)
    ensures First(p + s, n) != First(p + Without(s, Keys(p)), n)
  {
    hide Keys;
    var q := Without(s, Keys(p));
    var b :| 0 <= b < |s| && |p| + b < n && KeyOf(s[b].value) in Keys(p);
    assert First(p + s, n)[|p| + b] == s[b];
    if b < |q| {
      WithoutFrom(s, Keys(p), b);
      assert First(p + q, n)[|p| + b] == q[b];
    }
  }

  /** For proper lists `mergeDataPoints` returns the first points of the reference, newest first,
      without duplicates, the primary copy kept, exactly unless the lists do not overlap and the
      concatenating fast path returns a secondary point that the primary list already has. */
  lemma MergedIsReference(p: seq<Point>, s: seq<Point>, limit: int)
    requires Proper(p) && Proper(s)
    ensures var n := Limit(p, s, limit);
            (Merged(p, s, limit) == First(Reference(p, s), n)) <==>
            (p == [] || s == [] || !DoNotOverlap(p, s) || FreshTail(p, s, n))
  {
    hide Reference, FreshTail, Visits, Distinct, Without, Keys;
    var n := Limit(p, s, limit);
    if s == [] || p == [] {
      EmptyReference(p, s);
    } else if DoNotOverlap(p, s) {
      ReferenceConcat(p, s);
      if FreshTail(p, s, n) {
        FastPathAgrees(p, s, n);
      } else {
        FastPathDiffers(p, s, n);
      }
    } else {
      LoopAgrees(p, s);
    }
  }

  lemma LoopAgrees(p: seq<Point>, s: seq<Point>)
    requires Proper(p) && Proper(s)
    ensures Distinct(Visits(p, s, 0, 0)) == Reference(p, s)
  {
    LoopIsReference(p, s, 0, 0);
    var v := Visits(p, s, 0, 0);
    hide Visits, Proper, Without, ByTime;
    assert [] + v == v;
    DistinctSplits([], v);
    assert p[0..] == p && s[0..] == s && KeysBefore(p, s, 0, 0) == Keys([]);
  }

  lemma EmptyReference(p: seq<Point>, s: seq<Point>)
    requires NilFree(p) && NilFree(s) && (p == [] || s == [])
    ensures Reference(p, s) == p + s
  {
    if p == [] {
      WithoutPrefix(s, Keys(p), |s|);
    }
  }

  /** A secondary list strictly older than the primary one has no duplicates to skip. */
  lemma StrictlyOlderAgrees(p: seq<Point>, s: seq<Point>, limit: int)
    requires Proper(p) && Proper(s) && p != [] && s != []
    requires s[0].value.collectedAt < p[|p| - 1].value.collectedAt
    ensures Merged(p, s, limit) == First(Reference(p, s), Limit(p, s, limit))
  {
    MergedIsReference(p, s, limit);
    forall a, b | 0 <= a < |p| && 0 <= b < |s| ensures KeyOf(s[b].value) != KeyOf(p[a].value) {
      assert p[a].value.collectedAt >= p[|p| - 1].value.collectedAt && s[0].value.collectedAt >= s[b].value.collectedAt;
    }
  }

  /** The boundary tie that does return a duplicate. */
  lemma BoundaryTieDuplicates() returns (p: seq<Point>, s: seq<Point>)
    ensures Proper(p) && Proper(s)
    ensures Merged(p, s, 0) == p + s && !KeyDistinct(Merged(p, s, 0))
  {
    p := [Some(DataPoint(1, "temperature", "20", 100))];
    s := [Some(DataPoint(1, "temperature", "21", 100))];
    assert KeyOf((p + s)[0].value) == KeyOf((p + s)[1].value);
  }

  // What the reference means.

  lemma {:induction false} ByTimeMembers(p: seq<Point>, s: seq<Point>)
    requires NilFree(p) && NilFree(s)
    ensures NilFree(ByTime(p, s)) && |ByTime(p, s)| == |p| + |s|
    ensures forall x :: x in ByTime(p, s) <==> x in p || x in s
  {
    if p != [] && s != [] {
      if p[0].value.collectedAt >= s[0].value.collectedAt {
        ByTimeMembers(p[1..], s);
        assert p == [p[0]] + p[1..];
      } else {
        ByTimeMembers(p, s[1..]);
        assert s == [s[0]] + s[1..];
      }
    }
  }

  predicate Bounded(points: seq<Point>, t: int)
    requires NilFree(points)
  {
    forall i :: 0 <= i < |points| ==> points[i].value.collectedAt <= t
  }

  lemma {:induction false} ByTimeSorted(p: seq<Point>, s: seq<Point>)
    requires NewestFirst(p) && NewestFirst(s)
    ensures NewestFirst(ByTime(p, s))
  {
    if p != [] && s != [] {
      if p[0].value.collectedAt >= s[0].value.collectedAt {
        ByTimeSorted(p[1..], s);
        ByTimeMembers(p[1..], s);
        LeadSorted(p[0], ByTime(p[1..], s), p[1..], s);
      } else {
        ByTimeSorted(p, s[1..]);
        ByTimeMembers(p, s[1..]);
        LeadSorted(s[0], ByTime(p, s[1..]), p, s[1..]);
      }
    }
  }

  lemma LeadSorted(x: Point, rest: seq<Point>, p: seq<Point>, s: seq<Point>)
    requires x.Some? && NewestFirst(rest) && NilFree(p) && NilFree(s)
    requires forall y :: y in rest <==> y in p || y in s
    requires Bounded(p, x.value.collectedAt) && Bounded(s, x.value.collectedAt)
    ensures NewestFirst([x] + rest)
  {
    forall i | 0 <= i < |rest| ensures rest[i].value.collectedAt <= x.value.collectedAt {
      assert rest[i] in p || rest[i] in s;
    }
  }

  lemma {:induction false} WithoutMembers(points: seq<Point>, keys: set<Key>)
    requires NewestFirst(points)
    ensures NewestFirst(Without(points, keys))
    ensures forall x :: x in Without(points, keys) <==> x in points && KeyOf(x.value) !in keys
  {
    if points != [] {
      WithoutMembers(points[1..], keys);
      assert points == [points[0]] + points[1..];
      if KeyOf(points[0].value) !in keys {
        LeadSorted(points[0], Without(points[1..], keys), Without(points[1..], keys), []);
      }
    }
  }

  lemma {:induction false} DistinctMeans(points: seq<Point>)
    ensures KeyDistinct(Distinct(points))
  {
    if points != [] {
      DistinctMeans(points[..|points| - 1]);
    }
  }

  /** The reference is sorted newest first, free of duplicate keys, and holds exactly the primary points
      and the secondary points whose key the primary list lacks. */
  lemma ReferenceMeans(p: seq<Point>, s: seq<Point>)
    requires Proper(p) && Proper(s)
    ensures NewestFirst(Reference(p, s)) && KeyDistinct(Reference(p, s))
    ensures forall x :: x in Reference(p, s) <==>
              x in p || (x in s && KeyOf(x.value) !in Keys(p))
  {
    WithoutMembers(s, Keys(p));
    ByTimeSorted(p, Without(s, Keys(p)));
    ByTimeMembers(p, Without(s, Keys(p)));
    LoopAgrees(p, s);
    DistinctMeans(Visits(p, s, 0, 0));
  }

  /** On every path, duplicates at the boundary or not: sorted, within the limit, nothing invented. */
  lemma MergedSound(p: seq<Point>, s: seq<Point>, limit: int)
    requires Proper(p) && Proper(s)
    ensures NewestFirst(Merged(p, s, limit)) && |Merged(p, s, limit)| <= Limit(p, s, limit)
    ensures forall x :: x in Merged(p, s, limit) ==> x in p || x in s
  {
    if p != [] && s != [] {
      if DoNotOverlap(p, s) {
        ConcatSorted(p, s);
      } else {
        hide Reference, Keys, NewestFirst, KeyDistinct, Visits, Distinct;
        MergedIsReference(p, s, limit);
        ReferenceMeans(p, s);
        FirstSorted(Reference(p, s), Limit(p, s, limit));
      }
    }
  }

  lemma FirstSorted(points: seq<Point>, n: nat)
    requires NewestFirst(points)
    ensures NewestFirst(First(points, n))
  {
  }

  lemma ConcatSorted(p: seq<Point>, s: seq<Point>)
    requires NewestFirst(p) && NewestFirst(s) && DoNotOverlap(p, s)
    ensures NewestFirst(p + s)
  {
    forall a, b | 0 <= a < |p| && 0 <= b < |s| ensures p[a].value.collectedAt >= s[b].value.collectedAt {
      assert p[a].value.collectedAt >= p[|p| - 1].value.collectedAt;
      assert s[0].value.collectedAt >= s[b].value.collectedAt;
    }
  }

  // The same, field by field.

  predicate SameRow(a: DataPoint, b: DataPoint) {
    a.deviceId == b.deviceId && a.fieldName == b.fieldName && a.collectedAt == b.collectedAt
  }

  /** Points have one key exactly if they agree on device, field and time. */
  lemma KeyMeans(a: DataPoint, b: DataPoint)
    ensures KeyOf(a) == KeyOf(b) <==> SameRow(a, b)
  {
  }

  /** The result has a point of the device, field and time of `x`. */
  ghost predicate HasRow(result: seq<Point>, x: DataPoint) {
    exists i :: 0 <= i < |result| && result[i].Some? && SameRow(result[i].value, x)
  }

  lemma {:induction false} VisitsMembers(p: seq<Point>, s: seq<Point>, i: nat, j: nat)
    requires i <= |p| && j <= |s|
    ensures |Visits(p, s, i, j)| == |p| - i + |s| - j
    ensures forall x :: x in Visits(p, s, i, j) <==> x in p[i..] || x in s[j..]
    decreases |p| - i + |s| - j
  {
    hide Visits, TakesPrimary;
    if i == |p| && j == |s| {
      VisitsEnd(p, s);
    } else {
      VisitsStep(p, s, i, j);
      if TakesPrimary(p, s, i, j) {
        VisitsMembers(p, s, i + 1, j);
        assert p[i..] == [p[i]] + p[i + 1..];
      } else {
        VisitsMembers(p, s, i, j + 1);
        assert s[j..] == [s[j]] + s[j + 1..];
      }
    }
  }

  lemma {:induction false} DistinctCovers(points: seq<Point>)
    ensures |Distinct(points)| <= |points|
    ensures forall x :: x in Distinct(points) ==> x in points
    ensures forall x :: x in points && x.Some? ==> KeyOf(x.value) in Keys(Distinct(points))
  {
    if points != [] {
      var init, last := points[..|points| - 1], points[|points| - 1];
      assert points == init + [last];
      DistinctCovers(init);
      KeysNext(Distinct(init), last);
      hide Keys, KeyOf;
    }
  }

  lemma KeyHasRow(result: seq<Point>, x: DataPoint)
    ensures KeyOf(x) in Keys(result) <==> HasRow(result, x)
  {
    if HasRow(result, x) {
      var i :| 0 <= i < |result| && result[i].Some? && SameRow(result[i].value, x);
      assert KeyOf(result[i].value) == KeyOf(x);
    }
    if KeyOf(x) in Keys(result) {
      var i :| 0 <= i < |result| && result[i].Some? && KeyOf(result[i].value) == KeyOf(x);
      assert SameRow(result[i].value, x);
    }
  }

  /** Merging two lists that overlap, any lists at all, without a limit: every device, field and time of
      either list is in the result, none twice, and the result is made of points of the lists. */
  lemma MergedRows(p: seq<Point>, s: seq<Point>, limit: int)
    requires p != [] && s != [] && !DoNotOverlap(p, s) && limit <= 0
    ensures var r := Merged(p, s, limit);
            && (forall x :: x in p + s && x.Some? ==> HasRow(r, x.value))
            && (forall i, j :: 0 <= i < j < |r| ==> r[i].Some? && r[j].Some? && !SameRow(r[i].value, r[j].value))
            && (forall x :: x in r ==> x in p || x in s)
  {
    var v := Visits(p, s, 0, 0);
    VisitsMembers(p, s, 0, 0);
    assert p[0..] == p && s[0..] == s;
    DistinctCovers(v);
    DistinctMeans(v);
    hide Visits, Distinct, Keys, HasRow, DoNotOverlap;
    var r := Merged(p, s, limit);
    assert r == Distinct(v);
    forall x | x in p + s && x.Some? ensures HasRow(r, x.value) {
      KeyHasRow(r, x.value);
    }
  }

  /** Lists as the queries return them: all primary points are in the result, and a secondary point is missing
      only if the primary list has its device, field and time. */
  lemma MergedKeepsRows(p: seq<Point>, s: seq<Point>, limit: int)
    requires Proper(p) && Proper(s) && p != [] && s != [] && !DoNotOverlap(p, s) && limit <= 0
    ensures forall x :: x in p ==> x in Merged(p, s, limit)
    ensures forall x :: x in s && x !in Merged(p, s, limit) ==> HasRow(p, x.value)
  {
    var v := Visits(p, s, 0, 0);
    VisitsMembers(p, s, 0, 0);
    DistinctCovers(v);
    LoopAgrees(p, s);
    ReferenceMeans(p, s);
    hide Visits, Distinct, Keys, HasRow, DoNotOverlap, Reference;
    assert Merged(p, s, limit) == Reference(p, s);
    forall x | x in s && x !in Merged(p, s, limit) ensures HasRow(p, x.value) {
      KeyHasRow(p, x.value);
    }
  }

  /** A limit cuts off the end, for any lists; none does not. */
  lemma LimitCuts(p: seq<Point>, s: seq<Point>, limit: int)
    requires limit > 0
    ensures var all := Merged(p, s, 0);
            Merged(p, s, limit) == if |all| <= limit then all else all[..limit]
  {
    var v := Visits(p, s, 0, 0);
    VisitsMembers(p, s, 0, 0);
    DistinctCovers(v);
    hide Visits, Distinct, DoNotOverlap;
  }
}

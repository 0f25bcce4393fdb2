/** Threshold evaluation looks fields up by name in a collected record, with several lazily filled
    caches. What the caches do to the answers is stated exactly: for which names they are invisible.
    Text trimming, lower-casing and number parsing are parameters. */
module FieldLookup {
  import opened Basics

  /** `V` is the type of point values, `F` that of numbers. */
  datatype Env<!V, F> = Env(
    trim: string -> string,
    lower: string -> string,
    parse: string -> Option<F>,
    parseValue: V -> Option<F>,
    cacheable: V -> bool,
    text: V -> string
  )

  ghost predicate Lawful<V, F>(env: Env<V, F>) {
    && (forall s :: env.lower(env.lower(s)) == env.lower(s))
    && (forall s :: env.lower(s) == "" <==> s == "")
    && (forall s :: env.trim(env.trim(s)) == env.trim(s))
    && (forall s :: env.trim(s) == s ==> env.trim(env.lower(s)) == env.lower(s))
  }

  /** A collected record, and the orders in which Go happens to iterate its fields and its points' names.
      A lookup iterates each of them at most once. */
  datatype Sample<!V, F> = Sample(
    env: Env<V, F>,
    fields: map<string, string>,
    points: seq<Point<V>>,
    fieldOrder: seq<string>,
    pointOrder: seq<string>
  )

  /** `normalizeFieldName` */
  function Norm<V, F>(env: Env<V, F>, name: string): string {
    if env.trim(name) == "" then "" else env.lower(env.trim(name))
  }

  function NormOf<V, F>(env: Env<V, F>): string -> string {
    s => Norm(env, s)
  }

  /** The points by trimmed name; the first of a name wins. */
  function ByName<V, F>(env: Env<V, F>, points: seq<Point<V>>): map<string, V> {
    if points == [] then map[]
    else
      var m := ByName(env, points[..|points| - 1]);
      var p := points[|points| - 1];
      var name := env.trim(p.fieldName);
      if name == "" || name in m then m else m[name := p.value]
  }

  /** The values by the normal form of their names; of names with one form the first in `order` wins. */
  function ByForm<T>(names: map<string, T>, norm: string -> string, order: seq<string>): map<string, T> {
    if order == [] then map[]
    else
      var m := ByForm(names, norm, order[..|order| - 1]);
      var k := order[|order| - 1];
      if k !in names || norm(k) == "" || norm(k) in m then m else m[norm(k) := names[k]]
  }

  function Names<V, F>(s: Sample<V, F>): map<string, V> {
    ByName(s.env, s.points)
  }

  function FieldForms<V, F>(s: Sample<V, F>): map<string, string> {
    ByForm(s.fields, NormOf(s.env), s.fieldOrder)
  }

  function PointForms<V, F>(s: Sample<V, F>): map<string, V> {
    ByForm(Names(s), s.env.lower, s.pointOrder)
  }

  predicate Enumerates(order: seq<string>, keys: set<string>) {
    (forall k :: k in keys ==> k in order) && forall i :: 0 <= i < |order| ==> order[i] in keys
  }

  ghost predicate Proper<V, F>(s: Sample<V, F>) {
    Lawful(s.env) && Enumerates(s.fieldOrder, s.fields.Keys) && Enumerates(s.pointOrder, Names(s).Keys)
  }

  // A lookup without caches, by the name as it is spelled in the query.

  /** A point that is a number: the point spelled like the query, or else the one of its normal form; with
      the key to keep it under, blank if it is not kept. */
  function PointNumber<V, F>(s: Sample<V, F>, q: string): Option<(F, string)> {
    var names, forms, c := Names(s), PointForms(s), s.env.lower(q);
    if q in names && s.env.parseValue(names[q]).Some? then
      Some((s.env.parseValue(names[q]).value, if s.env.cacheable(names[q]) then q else ""))
    else if c in forms && s.env.parseValue(forms[c]).Some? then
      Some((s.env.parseValue(forms[c]).value, if s.env.cacheable(forms[c]) then c else ""))
    else None
  }

  function PointText<V, F>(s: Sample<V, F>, q: string): Option<(string, string)> {
    var names, forms, c := Names(s), PointForms(s), s.env.lower(q);
    if q in names then Some((q, s.env.text(names[q])))
    else if c in forms then Some((c, s.env.text(forms[c])))
    else None
  }

  /** The text to parse, with the key to keep its number under. */
  function Text<V, F>(s: Sample<V, F>, q: string): Option<(string, string)> {
    var forms, c := FieldForms(s), s.env.lower(q);
    if q == "" then None
    else if q in s.fields then Some((q, s.fields[q]))
    else if c in forms then Some((c, forms[c]))
    else PointText(s, q)
  }

  /** The answer to a query when nothing has been asked before. */
  function Alone<V, F>(s: Sample<V, F>, q: string): Option<F> {
    if PointNumber(s, q).Some? then Some(PointNumber(s, q).value.0)
    else if Text(s, q).Some? then s.env.parse(Text(s, q).value.1)
    else None
  }

  /** The key that this answer is kept under; blank if it is not kept. */
  function Kept<V, F>(s: Sample<V, F>, q: string): string {
    if PointNumber(s, q).Some? then PointNumber(s, q).value.1
    else if Text(s, q).Some? then Text(s, q).value.0
    else ""
  }

  // A lookup with caches.

  datatype Caches<F> = Caches(parsed: map<string, F>, invalid: set<string>)

  function NothingKept<F>(): Caches<F> {
    Caches(map[], {})
  }

  function Cached<F>(m: Caches<F>, primary: string, fallback: string): Option<F> {
    if primary != "" && primary in m.parsed then Some(m.parsed[primary])
    else if fallback != "" && fallback in m.parsed then Some(m.parsed[fallback])
    else None
  }

  predicate KnownInvalid<F>(m: Caches<F>, primary: string, fallback: string) {
    (primary != "" && primary in m.invalid) || (fallback != "" && fallback in m.invalid)
  }

  function Remember<F>(m: Caches<F>, key: string, r: Option<F>): Caches<F> {
    if key == "" then m
    else if r.Some? then m.(parsed := m.parsed[key := r.value])
    else m.(invalid := m.invalid + {key})
  }

  function Ask<V, F>(s: Sample<V, F>, m: Caches<F>, q: string): (Option<F>, Caches<F>) {
    var c := s.env.lower(q);
    if Cached(m, q, c).Some? then (Cached(m, q, c), m)
    else if KnownInvalid(m, q, c) then (None, m)
    else (Alone(s, q), Remember(m, Kept(s, q), Alone(s, q)))
  }

  /** The answers to a sequence of queries, and the caches after it. */
  function AskMany<V, F>(s: Sample<V, F>, m: Caches<F>, queries: seq<string>): (r: (seq<Option<F>>, Caches<F>))
    ensures |r.0| == |queries|
  {
    if queries == [] then ([], m)
    else
      var (answers, m') := AskMany(s, m, queries[..|queries| - 1]);
      var (r, m'') := Ask(s, m', queries[|queries| - 1]);
      (answers + [r], m'')
  }

  class Lookup<!V(!new), !F(!new)> {
    const sample: Sample<V, F>
    var normalized: Option<map<string, string>>
    var parsed: map<string, F>
    var invalid: set<string>
    var pointRaw: Option<map<string, V>>
    var pointNorm: Option<map<string, V>>

    function View(): Caches<F>
      reads this
    {
      Caches(parsed, invalid)
    }

    /** The tables built so far are the right ones. */
    ghost predicate Valid()
      reads this
    {
      && Proper(sample)
      && (normalized.Some? ==> normalized.value == FieldForms(sample))
      && (pointRaw.Some? ==> pointRaw.value == Names(sample))
      && (pointNorm.Some? ==> pointNorm.value == PointForms(sample))
    }

    constructor (sample: Sample<V, F>)
      ensures this.sample == sample && View() == NothingKept()
      ensures Proper(sample) ==> Valid()
      ensures normalized == None && pointRaw == None && pointNorm == None
    {
      this.sample := sample;
      normalized, parsed, invalid, pointRaw, pointNorm := None, map[], {}, None, None;
    }

    /** `ensurePointRaw` */
    method EnsurePointRaw()
      requires Valid() && sample.points != []
      modifies this`pointRaw
      ensures Valid() && pointRaw == Some(Names(sample))
    {
      hide ByForm, Lawful, Enumerates;
      if pointRaw.Some? {
        return;
      }
      var points := sample.points;
      var m: map<string, V> := map[];
      for i := 0 to |points|
        invariant m == ByName(sample.env, points[..i])
      {
        assert points[..i + 1][..i] == points[..i];
        var name := sample.env.trim(points[i].fieldName);
        if name != "" && name !in m {
          m := m[name := points[i].value];
        }
      }
      assert points[..|points|] == points;
      pointRaw := Some(m);
    }

    /** `ensurePointNormalized` */
    method EnsurePointNormalized()
      requires Valid() && sample.points != []
      modifies this`pointRaw, this`pointNorm
      ensures Valid() && pointNorm == Some(PointForms(sample))
      ensures pointRaw == old(pointRaw) || pointRaw == Some(Names(sample))
    {
      hide ByForm, ByName, Lawful;
      if pointNorm.Some? {
        return;
      }
      EnsurePointRaw();
      var m := Normalise(pointRaw.value, sample.env.lower, sample.pointOrder);
      pointNorm := Some(m);
    }

    /** `getRawValueWithNormalized`: the text to parse, and the key to cache its value under. */
    method GetRawValue(trimmed: string, norm: string) returns (r: Option<(string, string)>)
      requires Valid() && norm == sample.env.lower(trimmed)
      modifies this`normalized, this`pointRaw, this`pointNorm
      ensures Valid() && r == Text(sample, trimmed)
    {
      hide ByForm, ByName, Lawful;
      if trimmed == "" {
        return None;
      }
      if |sample.fields| > 0 {
        if trimmed in sample.fields {
          return Some((trimmed, sample.fields[trimmed]));
        }
        if normalized.None? {
          var m := Normalise(sample.fields, NormOf(sample.env), sample.fieldOrder);
          normalized := Some(m);
        }
        if norm in normalized.value {
          return Some((norm, normalized.value[norm]));
        }
      } else {
        NoForms(sample.fields, NormOf(sample.env), sample.fieldOrder);
      }
      r := GetPointRawValue(trimmed, norm);
    }

    /** `getPointRawValue` */
    method GetPointRawValue(trimmed: string, norm: string) returns (r: Option<(string, string)>)
      requires Valid() && norm == sample.env.lower(trimmed)
      modifies this`pointRaw, this`pointNorm
      ensures Valid() && r == PointText(sample, trimmed)
    {
      hide ByForm, ByName, Lawful;
      if sample.points == [] {
        NoPointForms(sample);
        return None;
      }
      EnsurePointRaw();
      if trimmed in pointRaw.value {
        return Some((trimmed, sample.env.text(pointRaw.value[trimmed])));
      }
      EnsurePointNormalized();
      if norm !in pointNorm.value {
        return None;
      }
      return Some((norm, sample.env.text(pointNorm.value[norm])));
    }

    /** `getCachedFloat` */
    method GetCached(primary: string, fallback: string) returns (r: Option<F>)
      ensures r == Cached(View(), primary, fallback)
    {
      if primary != "" && primary in parsed {
        return Some(parsed[primary]);
      }
      if fallback != "" && fallback != primary && fallback in parsed {
        return Some(parsed[fallback]);
      }
      return None;
    }

    /** `isKnownInvalid` */
    method IsKnownInvalid(primary: string, fallback: string) returns (known: bool)
      ensures known == KnownInvalid(View(), primary, fallback)
    {
      known := (primary != "" && primary in invalid)
            || (fallback != "" && fallback != primary && fallback in invalid);
    }

    /** `cacheParsedFloat` */
    method CacheParsed(key: string, value: F)
      modifies this`parsed
      ensures View() == Remember(old(View()), key, Some(value))
    {
      if key != "" {
        parsed := parsed[key := value];
      }
    }

    /** `cacheInvalidFloat` */
    method CacheInvalid(key: string)
      modifies this`invalid
      ensures View() == Remember(old(View()), key, None)
    {
      if key != "" {
        invalid := invalid + {key};
      }
    }

    /** The first half of `getFloatByPreparedKeys`: a point that holds a number, or the spelling of a
        point that does not. */
    method GetPointNumber(trimmed: string, norm: string) returns (r: Option<F>, pointInvalidKey: string)
      requires Valid() && norm == sample.env.lower(trimmed)
      modifies this`pointRaw, this`pointNorm, this`parsed
      ensures Valid()
      ensures match PointNumber(sample, trimmed)
              case Some((value, key)) => r == Some(value) && View() == Remember(old(View()), key, r)
              case None => r == None && View() == old(View())
      ensures pointInvalidKey != "" ==> PointText(sample, trimmed).Some?
    {
      hide ByForm, ByName, Lawful;
      pointInvalidKey := "";
      if sample.points == [] {
        NoPointForms(sample);
        return None, pointInvalidKey;
      }
      EnsurePointRaw();
      if trimmed in pointRaw.value {
        var v := pointRaw.value[trimmed];
        r := sample.env.parseValue(v);
        if r.Some? {
          if sample.env.cacheable(v) {
            CacheParsed(trimmed, r.value);
          }
          return;
        }
        pointInvalidKey := trimmed;
      }
      EnsurePointNormalized();
      if norm !in pointNorm.value {
        return None, pointInvalidKey;
      }
      var v := pointNorm.value[norm];
      r := sample.env.parseValue(v);
      if r.Some? {
        if sample.env.cacheable(v) {
          CacheParsed(norm, r.value);
        }
        return;
      }
      if pointInvalidKey == "" {
        pointInvalidKey := norm;
      }
    }

    /** `getFloatByPreparedKeys`. The second look into the caches and the two uses of the key remembered for
        a point never take effect. */
    method GetFloat(trimmed: string, norm: string) returns (r: Option<F>)
      requires Valid() && norm == sample.env.lower(trimmed)
      modifies this
      ensures Valid() && (r, View()) == Ask(sample, old(View()), trimmed)
    {
      hide FieldForms, PointForms, Names;
      r := GetCached(trimmed, norm);
      if r.Some? {
        return;
      }
      var known := IsKnownInvalid(trimmed, norm);
      if known {
        return None;
      }
      var pointInvalidKey: string;
      r, pointInvalidKey := GetPointNumber(trimmed, norm);
      if r.Some? {
        return;
      }
      var found := GetRawValue(trimmed, norm);
      if found.None? {
        BlankNotFound(sample);
        assert pointInvalidKey == "";
        CacheInvalid(pointInvalidKey);
        return None;
      }
      var (cacheKey, text) := found.value;
      r := GetCached(cacheKey, norm);
      known := IsKnownInvalid(cacheKey, norm);
      if r.Some? || known {
        assert false;
      }
      r := sample.env.parse(text);
      if r.None? {
        assert cacheKey != "";
        CacheInvalid(if cacheKey == "" then pointInvalidKey else cacheKey);
      } else {
        CacheParsed(cacheKey, r.value);
      }
    }
  }

  /** The loops that fill a table by normal form; an earlier entry is not replaced. */
  method Normalise<T>(names: map<string, T>, norm: string -> string, order: seq<string>) returns (m: map<string, T>)
    requires Enumerates(order, names.Keys)
    ensures m == ByForm(names, norm, order)
  {
    m := map[];
    for i := 0 to |order|
      invariant m == ByForm(names, norm, order[..i])
    {
      assert order[..i + 1][..i] == order[..i];
      var k := order[i];
      if norm(k) != "" && norm(k) !in m {
        m := m[norm(k) := names[k]];
      }
    }
    assert order[..|order|] == order;
  }

  lemma {:induction false} NoForms<T>(names: map<string, T>, norm: string -> string, order: seq<string>)
    requires names == map[]
    ensures ByForm(names, norm, order) == map[]
  {
    if order != [] {
      NoForms(names, norm, order[..|order| - 1]);
    }
  }

  lemma NoPointForms<V, F>(s: Sample<V, F>)
    requires s.points == []
    ensures Names(s) == map[] && PointForms(s) == map[]
  {
    NoForms(Names(s), s.env.lower, s.pointOrder);
  }

  lemma {:induction false} BlankName<V, F>(env: Env<V, F>, points: seq<Point<V>>)
    ensures "" !in ByName(env, points)
  {
    if points != [] {
      BlankName(env, points[..|points| - 1]);
    }
  }

  /** `v` is the value of a name of normal form `n`. */
  ghost predicate ValueOf<T>(names: map<string, T>, norm: string -> string, n: string, v: T) {
    exists k :: k in names && norm(k) == n && v == names[k]
  }

  /** Every entry stems from a name of its form, and every name of the record has an entry. */
  lemma {:induction false} FormsMean<T>(names: map<string, T>, norm: string -> string, order: seq<string>)
    ensures forall n :: n in ByForm(names, norm, order) ==>
              n != "" && ValueOf(names, norm, n, ByForm(names, norm, order)[n])
    ensures forall k :: k in names && k in order && norm(k) != "" ==> norm(k) in ByForm(names, norm, order)
  {
    if order != [] {
      var init, last := order[..|order| - 1], order[|order| - 1];
      FormsMean(names, norm, init);
      var m, before := ByForm(names, norm, order), ByForm(names, norm, init);
      forall n | n in m ensures n != "" && ValueOf(names, norm, n, m[n]) {
        if n in before {
          assert ValueOf(names, norm, n, before[n]);
        } else {
          assert last in names && norm(last) == n;
        }
      }
      forall k | k in names && k in order && norm(k) != "" ensures norm(k) in m {
        assert k == last || k in init;
      }
    }
  }

  /** The blank name is not found. */
  lemma BlankNotFound<V, F>(s: Sample<V, F>)
    requires Lawful(s.env)
    ensures PointText(s, "") == None && PointNumber(s, "") == None && Text(s, "") == None
  {
    BlankName(s.env, s.points);
    FormsMean(Names(s), s.env.lower, s.pointOrder);
    assert s.env.lower("") == "";
    assert "" !in Names(s);
    assert "" !in ByForm(Names(s), s.env.lower, s.pointOrder);
  }

  /** Any sequence of queries. */
  method AskAll<V(!new), F(!new)>(l: Lookup<V, F>, queries: seq<string>) returns (answers: seq<Option<F>>)
    requires l.Valid()
    modifies l
    ensures l.Valid() && (answers, l.View()) == AskMany(l.sample, old(l.View()), queries)
  {
    hide Ask, Lookup.Valid;
    answers := [];
    for i := 0 to |queries|
      invariant l.Valid() && (answers, l.View()) == AskMany(l.sample, old(l.View()), queries[..i])
    {
      assert queries[..i + 1][..i] == queries[..i];
      var r := l.GetFloat(queries[i], l.sample.env.lower(queries[i]));
      answers := answers + [r];
    }
    assert queries[..|queries|] == queries;
  }

  // When the caches are invisible.

  /** A query as the threshold rules prepare it: a trimmed name. */
  predicate Trimmed<V, F>(s: Sample<V, F>, q: string) {
    s.env.trim(q) == q
  }

  ghost predicate AllTrimmed<V, F>(s: Sample<V, F>, queries: seq<string>) {
    forall i :: 0 <= i < |queries| ==> Trimmed(s, queries[i])
  }

  /** For names of normal form `c` the caches are invisible: in every sequence of queries on a new lookup,
      whatever else it asks, each of them gets the answer it would get alone. */
  ghost predicate Invisible<V, F>(s: Sample<V, F>, c: string) {
    forall queries, i :: AllTrimmed(s, queries) && 0 <= i < |queries| && s.env.lower(queries[i]) == c ==>
      AskMany(s, NothingKept(), queries).0[i] == Alone(s, queries[i])
  }

  /** Whatever is kept under `c` is the answer of every spelling of it. */
  ghost predicate Shareable<V, F>(s: Sample<V, F>, c: string) {
    forall q, other :: Spells(s, q, c) && Spells(s, other, c) && Kept(s, other) == c ==>
      Alone(s, q) == Alone(s, other)
  }

  predicate Spells<V, F>(s: Sample<V, F>, q: string, c: string) {
    Trimmed(s, q) && s.env.lower(q) == c
  }

  /** The entry `r` under `key` is what some query gets alone and keeps there. */
  ghost predicate Stems<V, F>(s: Sample<V, F>, key: string, r: Option<F>) {
    exists q :: Trimmed(s, q) && Kept(s, q) == key && Alone(s, q) == r
  }

  ghost predicate AllStem<V, F>(s: Sample<V, F>, m: Caches<F>) {
    && (forall k :: k in m.parsed ==> k != "" && Stems(s, k, Some(m.parsed[k])))
    && (forall k :: k in m.invalid ==> k != "" && Stems(s, k, None))
  }

  lemma AskStems<V, F>(s: Sample<V, F>, m: Caches<F>, q: string)
    requires AllStem(s, m) && Trimmed(s, q)
    ensures AllStem(s, Ask(s, m, q).1)
  {
    hide Alone, Kept;
    assert Stems(s, Kept(s, q), Alone(s, q));
  }

  lemma KeptKeys<V, F>(s: Sample<V, F>, q: string)
    ensures Kept(s, q) == "" || Kept(s, q) == q || Kept(s, q) == s.env.lower(q)
  {
    hide Names, PointForms, FieldForms;
  }

  /** An entry found for a query stems from a query of the same normal form: from the same query, or from
      one that was kept under the normal form. */
  lemma EntryMeans<V, F>(s: Sample<V, F>, q: string, key: string, r: Option<F>) returns (other: string)
    requires Lawful(s.env) && Trimmed(s, q) && key != "" && (key == q || key == s.env.lower(q)) && Stems(s, key, r)
    ensures Spells(s, other, s.env.lower(q)) && Alone(s, other) == r
    ensures other == q || Kept(s, other) == s.env.lower(q)
  {
    hide Kept, Alone;
    other :| Trimmed(s, other) && Kept(s, other) == key && Alone(s, other) == r;
    KeptKeys(s, other);
  }

  /** Every answer, whatever was asked before, is the one some spelling of the name gets alone. */
  lemma AnswerMeans<V, F>(s: Sample<V, F>, m: Caches<F>, q: string) returns (other: string)
    requires Lawful(s.env) && AllStem(s, m) && Trimmed(s, q)
    ensures Spells(s, other, s.env.lower(q)) && Ask(s, m, q).0 == Alone(s, other)
    ensures other == q || Kept(s, other) == s.env.lower(q)
  {
    hide Kept, Alone, Stems;
    var c := s.env.lower(q);
    if Cached(m, q, c).Some? {
      var key := if q != "" && q in m.parsed then q else c;
      other := EntryMeans(s, q, key, Some(m.parsed[key]));
    } else if KnownInvalid(m, q, c) {
      var key := if q != "" && q in m.invalid then q else c;
      other := EntryMeans(s, q, key, None);
    } else {
      other := q;
    }
  }

  lemma {:induction false} AskedStems<V, F>(s: Sample<V, F>, queries: seq<string>)
    requires AllTrimmed(s, queries)
    ensures AllStem(s, AskMany(s, NothingKept(), queries).1)
  {
    if queries != [] {
      hide Ask, AllStem;
      var n := |queries| - 1;
      AskedStems(s, queries[..n]);
      AskStems(s, AskMany(s, NothingKept(), queries[..n]).1, queries[n]);
    }
  }

  lemma {:induction false} AnswersSoFar<V, F>(s: Sample<V, F>, m: Caches<F>, queries: seq<string>, i: nat)
    requires i < |queries|
    ensures AskMany(s, m, queries).0[i] == Ask(s, AskMany(s, m, queries[..i]).1, queries[i]).0
  {
    var n := |queries| - 1;
    if i < n {
      assert queries[..n][..i] == queries[..i];
      AnswersSoFar(s, m, queries[..n], i);
    }
  }

  lemma ShareableInvisible<V, F>(s: Sample<V, F>, c: string)
    requires Lawful(s.env) && Shareable(s, c)
    ensures Invisible(s, c)
  {
    forall queries, i | AllTrimmed(s, queries) && 0 <= i < |queries| && s.env.lower(queries[i]) == c
      ensures AskMany(s, NothingKept(), queries).0[i] == Alone(s, queries[i])
    {
      hide AskMany, Ask, Alone, Kept, AllStem;
      AnswersSoFar(s, NothingKept(), queries, i);
      AskedStems(s, queries[..i]);
      var other := AnswerMeans(s, AskMany(s, NothingKept(), queries[..i]).1, queries[i]);
    }
  }

  /** A query answered by an entry that another spelling left. */
  lemma AskedAfter<V, F>(s: Sample<V, F>, q: string, other: string)
    requires Lawful(s.env) && s.env.lower(q) == s.env.lower(other) == Kept(s, other)
    ensures AskMany(s, NothingKept(), [other, q]).0[1] == Alone(s, other)
  {
    hide Alone, Kept;
    var both := [other, q];
    assert both[..1][..0] == [] && both[..1] == [other];
    assert AskMany(s, NothingKept(), [other]).1 == Ask(s, NothingKept(), other).1 by {
      assert [other][..0] == [];
    }
    if s.env.lower(q) == "" {
      assert q == other == "";
      BlankNotFound(s);
    }
  }

  /** Exactly when the caches are invisible to the names of one normal form: if and only if whatever one
      spelling keeps under the normal form is the answer of every spelling. */
  lemma InvisibleIff<V, F>(s: Sample<V, F>, c: string)
    requires Lawful(s.env)
    ensures Invisible(s, c) <==> Shareable(s, c)
  {
    if Shareable(s, c) {
      ShareableInvisible(s, c);
    }
    hide AskMany, Alone, Kept;
    if Invisible(s, c) {
      forall q, other | Spells(s, q, c) && Spells(s, other, c) && Kept(s, other) == c
        ensures Alone(s, q) == Alone(s, other)
      {
        AskedAfter(s, q, other);
        assert AllTrimmed(s, [other, q]) && s.env.lower([other, q][1]) == c;
      }
    }
  }

  /** Spellings that do not occur in the record are all alike, so the condition is decided by the ones that
      occur and, if there are any others, one of those. */
  lemma OthersAlike<V, F>(s: Sample<V, F>, q: string, other: string)
    requires s.env.lower(q) == s.env.lower(other) && q != "" && other != ""
    requires q !in s.fields && q !in Names(s) && other !in s.fields && other !in Names(s)
    ensures Alone(s, q) == Alone(s, other) && Kept(s, q) == Kept(s, other)
  {
    hide Names, PointForms, FieldForms;
  }

  // What that condition says of the record.

  /** All fields whose name has the normal form `c` hold the same number, or none, and so do all such
      points. A name with one spelling in the record is settled. */
  ghost predicate Settled<V, F>(s: Sample<V, F>, c: string) {
    && (forall a, b :: a in s.fields && b in s.fields && Norm(s.env, a) == c && Norm(s.env, b) == c ==>
          s.env.parse(s.fields[a]) == s.env.parse(s.fields[b]))
    && (forall a, b :: a in Names(s) && b in Names(s) && s.env.lower(a) == c && s.env.lower(b) == c ==>
          && s.env.parseValue(Names(s)[a]) == s.env.parseValue(Names(s)[b])
          && s.env.parse(s.env.text(Names(s)[a])) == s.env.parse(s.env.text(Names(s)[b])))
  }

  /** What a table by normal form holds under `c` is the value of a name of that form. */
  lemma FormOf<T>(names: map<string, T>, norm: string -> string, order: seq<string>, c: string) returns (k: string)
    requires Enumerates(order, names.Keys) && c != ""
    ensures var m := ByForm(names, norm, order);
            if c in m then k in names && norm(k) == c && m[c] == names[k]
            else forall a :: a in names ==> norm(a) != c
  {
    FormsMean(names, norm, order);
    var m := ByForm(names, norm, order);
    if c in m {
      assert ValueOf(names, norm, c, m[c]);
      k :| k in names && norm(k) == c && m[c] == names[k];
    } else {
      k := "";
    }
  }

  /** The number of some point of normal form `c`, if it is one. */
  lemma SettledPoint<V, F>(s: Sample<V, F>, q: string, c: string)
    requires Proper(s) && Settled(s, c) && s.env.lower(q) == c != ""
    ensures var forms := PointForms(s);
            && (PointText(s, q).Some? <==> c in forms)
            && (c in forms ==> s.env.parse(PointText(s, q).value.1) == s.env.parse(s.env.text(forms[c])))
            && (PointNumber(s, q).Some? <==> c in forms && s.env.parseValue(forms[c]).Some?)
            && (PointNumber(s, q).Some? ==> PointNumber(s, q).value.0 == s.env.parseValue(forms[c]).value)
  {
    hide ByForm, ByName, Lawful;
    var k := FormOf(Names(s), s.env.lower, s.pointOrder, c);
  }

  lemma SettledText<V, F>(s: Sample<V, F>, q: string, c: string)
    requires Proper(s) && Settled(s, c) && Spells(s, q, c) && c != ""
    ensures var fields, points := FieldForms(s), PointForms(s);
            && (Text(s, q).Some? <==> c in fields || c in points)
            && (c in fields ==> s.env.parse(Text(s, q).value.1) == s.env.parse(fields[c]))
            && (c !in fields && c in points ==>
                  s.env.parse(Text(s, q).value.1) == s.env.parse(s.env.text(points[c])))
  {
    assert q != "";
    hide ByForm, ByName, Lawful, PointText;
    var k := FormOf(s.fields, NormOf(s.env), s.fieldOrder, c);
    SettledPoint(s, q, c);
  }

  /** All spellings of a settled name have one answer. */
  lemma SettledAlone<V, F>(s: Sample<V, F>, q: string, other: string, c: string)
    requires Proper(s) && Settled(s, c) && Spells(s, q, c) && Spells(s, other, c)
    ensures Alone(s, q) == Alone(s, other)
  {
    if c == "" {
      assert q == other == "";
    } else {
      hide PointNumber, Text, PointForms, FieldForms, Lawful, Settled;
      SettledPoint(s, q, c);
      SettledPoint(s, other, c);
      SettledText(s, q, c);
      SettledText(s, other, c);
    }
  }

  /** The caches are invisible to every settled name, whatever else the record holds. */
  lemma SettledInvisible<V, F>(s: Sample<V, F>, c: string)
    requires Proper(s) && Settled(s, c)
    ensures Invisible(s, c)
  {
    hide Settled, Invisible, Alone, Kept;
    forall q, other | Spells(s, q, c) && Spells(s, other, c) && Kept(s, other) == c
      ensures Alone(s, q) == Alone(s, other)
    {
      SettledAlone(s, q, other, c);
    }
    InvisibleIff(s, c);
  }

  /** Without points and with trimmed field names that is exact: the caches are invisible to a name if and
      only if all fields spelled like it, up to case, hold the same number, or none. */
  lemma FieldsInvisibleIff<V, F>(s: Sample<V, F>, c: string)
    requires Proper(s) && s.points == [] && forall k :: k in s.fields ==> Trimmed(s, k)
    ensures Invisible(s, c) <==> Settled(s, c)
  {
    if Settled(s, c) {
      SettledInvisible(s, c);
    }
    if Invisible(s, c) {
      InvisibleIff(s, c);
      hide Invisible, Alone, Kept;
      forall a, b | a in s.fields && b in s.fields && Norm(s.env, a) == c && Norm(s.env, b) == c
        ensures s.env.parse(s.fields[a]) == s.env.parse(s.fields[b])
      {
        if c != "" {
          KeptByForm(s, c, a);
          FieldAlone(s, a);
          FieldAlone(s, b);
          assert Alone(s, a) == Alone(s, c) == Alone(s, b);
        }
      }
      NoPointForms(s);
    }
  }

  lemma FieldAlone<V, F>(s: Sample<V, F>, a: string)
    requires s.points == [] && a in s.fields && a != ""
    ensures Alone(s, a) == s.env.parse(s.fields[a])
  {
    NoPointForms(s);
  }

  /** Asked for by its normal form, a field is kept under it. */
  lemma KeptByForm<V, F>(s: Sample<V, F>, c: string, a: string)
    requires Proper(s) && s.points == [] && a in s.fields && Trimmed(s, a) && Norm(s.env, a) == c != ""
    ensures Spells(s, c, c) && Spells(s, a, c) && Kept(s, c) == c
  {
    NoPointForms(s);
    FormsMean(s.fields, NormOf(s.env), s.fieldOrder);
    assert NormOf(s.env)(a) == c;
  }

  /** Points that are numbers and are not kept, as Go's native numbers are, do not disturb each other,
      whatever their spellings and values. */
  lemma NativePointsInvisible<V, F>(s: Sample<V, F>, c: string)
    requires Proper(s) && exists k :: k in Names(s) && s.env.lower(k) == c
    requires forall k :: k in Names(s) && s.env.lower(k) == c ==>
               s.env.parseValue(Names(s)[k]).Some? && !s.env.cacheable(Names(s)[k])
    ensures Invisible(s, c)
  {
    BlankName(s.env, s.points);
    assert c != "";
    hide Invisible, Lawful, ByName, ByForm;
    var k := FormOf(Names(s), s.env.lower, s.pointOrder, c);
    forall q, other | Spells(s, q, c) && Spells(s, other, c) ensures Kept(s, other) != c {
      assert PointNumber(s, other).Some?;
    }
    InvisibleIff(s, c);
  }

  /** Points that are numbers and are kept, as texts are, share their entries: without fields, the caches are
      invisible to a name if and only if all points spelled like it, up to case, hold the same number. */
  lemma KeptPointsInvisibleIff<V, F>(s: Sample<V, F>, c: string)
    requires Proper(s) && s.fields == map[]
    requires forall k :: k in Names(s) && s.env.lower(k) == c ==>
               Trimmed(s, k) && s.env.parseValue(Names(s)[k]).Some? && s.env.cacheable(Names(s)[k])
    ensures Invisible(s, c) <==>
              forall a, b :: a in Names(s) && b in Names(s) && s.env.lower(a) == c && s.env.lower(b) == c ==>
                s.env.parseValue(Names(s)[a]) == s.env.parseValue(Names(s)[b])
  {
    InvisibleIff(s, c);
    BlankName(s.env, s.points);
    hide Invisible, ByName, ByForm, Lawful;
    if Shareable(s, c) {
      forall a, b | a in Names(s) && b in Names(s) && s.env.lower(a) == c && s.env.lower(b) == c
        ensures s.env.parseValue(Names(s)[a]) == s.env.parseValue(Names(s)[b])
      {
        KeptPoint(s, c, a);
        KeptPoint(s, c, b);
        assert Alone(s, a) == Alone(s, c) == Alone(s, b);
      }
    }
    if forall a, b :: a in Names(s) && b in Names(s) && s.env.lower(a) == c && s.env.lower(b) == c ==>
         s.env.parseValue(Names(s)[a]) == s.env.parseValue(Names(s)[b])
    {
      forall q, other | Spells(s, q, c) && Spells(s, other, c) && Kept(s, other) == c
        ensures Alone(s, q) == Alone(s, other)
      {
        SamePoints(s, q, other, c);
      }
    }
  }

  lemma KeptPoint<V, F>(s: Sample<V, F>, c: string, a: string)
    requires Proper(s) && a in Names(s) && a != "" && s.env.lower(a) == c && Trimmed(s, a)
    requires forall k :: k in Names(s) && s.env.lower(k) == c ==>
               s.env.parseValue(Names(s)[k]).Some? && s.env.cacheable(Names(s)[k])
    ensures Spells(s, c, c) && Spells(s, a, c) && Kept(s, c) == c
    ensures Alone(s, a) == s.env.parseValue(Names(s)[a])
  {
    assert c != "" && s.env.lower(c) == c;
    hide ByName, ByForm, Lawful;
    var k := FormOf(Names(s), s.env.lower, s.pointOrder, c);
  }

  lemma SamePoints<V, F>(s: Sample<V, F>, q: string, other: string, c: string)
    requires Proper(s) && s.fields == map[] && Spells(s, q, c) && Spells(s, other, c)
    requires forall k :: k in Names(s) && s.env.lower(k) == c ==> s.env.parseValue(Names(s)[k]).Some?
    requires forall a, b :: a in Names(s) && b in Names(s) && s.env.lower(a) == c && s.env.lower(b) == c ==>
               s.env.parseValue(Names(s)[a]) == s.env.parseValue(Names(s)[b])
    ensures Alone(s, q) == Alone(s, other)
  {
    NoForms(s.fields, NormOf(s.env), s.fieldOrder);
    if c == "" {
      assert q == other == "";
    } else {
      hide ByName, ByForm, Lawful;
      var k := FormOf(Names(s), s.env.lower, s.pointOrder, c);
    }
  }

  // What is looked up, said of the record itself.

  /** `v` is the value of the first point with the trimmed name `n`, if there is one. */
  ghost predicate PointNamed<V, F>(s: Sample<V, F>, n: string, v: Option<V>) {
    match v
    case None => forall i :: 0 <= i < |s.points| ==> s.env.trim(s.points[i].fieldName) != n
    case Some(x) => exists i ::
      && 0 <= i < |s.points| && s.env.trim(s.points[i].fieldName) == n && s.points[i].value == x
      && forall j :: 0 <= j < i ==> s.env.trim(s.points[j].fieldName) != n
  }

  lemma {:induction false} NameMeans<V, F>(env: Env<V, F>, points: seq<Point<V>>, n: string)
    requires n != ""
    ensures n in ByName(env, points) <==> exists i :: 0 <= i < |points| && env.trim(points[i].fieldName) == n
    ensures n in ByName(env, points) ==> exists i ::
              && 0 <= i < |points| && env.trim(points[i].fieldName) == n && points[i].value == ByName(env, points)[n]
              && forall j :: 0 <= j < i ==> env.trim(points[j].fieldName) != n
  {
    if points != [] {
      var init := points[..|points| - 1];
      NameMeans(env, init, n);
      assert forall i :: 0 <= i < |init| ==> init[i] == points[i];
      if n in ByName(env, init) {
        var i :| && 0 <= i < |init| && env.trim(init[i].fieldName) == n && init[i].value == ByName(env, init)[n]
                 && forall j :: 0 <= j < i ==> env.trim(init[j].fieldName) != n;
        assert points[i].value == ByName(env, points)[n];
      }
    }
  }

  lemma NamedPoint<V, F>(s: Sample<V, F>, n: string, v: Option<V>)
    requires n != "" && PointNamed(s, n, v)
    ensures v == if n in Names(s) then Some(Names(s)[n]) else None
  {
    NameMeans(s.env, s.points, n);
    hide ByName;
  }

  /** Position `i` of the order holds its first name of normal form `c`. */
  predicate FirstOfForm(order: seq<string>, norm: string -> string, c: string, i: int) {
    0 <= i < |order| && norm(order[i]) == c && forall j :: 0 <= j < i ==> norm(order[j]) != c
  }

  lemma {:induction false} FormFirst<T>(names: map<string, T>, norm: string -> string, order: seq<string>,
                                        c: string, i: int)
    requires forall j :: 0 <= j < |order| ==> order[j] in names
    requires c != "" && FirstOfForm(order, norm, c, i)
    ensures c in ByForm(names, norm, order) && ByForm(names, norm, order)[c] == names[order[i]]
    decreases |order|
  {
    var n := |order| - 1;
    var init := order[..n];
    if i < n {
      FormFirst(names, norm, init, c, i);
    } else {
      FormsMean(names, norm, init);
      if c in ByForm(names, norm, init) {
        NotYet(names, norm, init, c);
      }
    }
  }

  lemma {:induction false} NotYet<T>(names: map<string, T>, norm: string -> string, order: seq<string>, c: string)
    requires forall j :: 0 <= j < |order| ==> norm(order[j]) != c
    ensures c !in ByForm(names, norm, order)
  {
    if order != [] {
      NotYet(names, norm, order[..|order| - 1], c);
    }
  }

  /** `v` is the value of the first point, in iteration order of the names, whose name has the normal form `c`. */
  ghost predicate PointOfForm<V, F>(s: Sample<V, F>, c: string, v: Option<V>) {
    match v
    case None => forall i :: 0 <= i < |s.pointOrder| ==> s.env.lower(s.pointOrder[i]) != c
    case Some(_) => exists i :: FirstOfForm(s.pointOrder, s.env.lower, c, i) && PointNamed(s, s.pointOrder[i], v)
  }

  ghost predicate FieldOfForm<V, F>(s: Sample<V, F>, c: string, v: Option<string>) {
    match v
    case None => forall i :: 0 <= i < |s.fieldOrder| ==> Norm(s.env, s.fieldOrder[i]) != c
    case Some(x) => exists i ::
      FirstOfForm(s.fieldOrder, NormOf(s.env), c, i) && (s.fieldOrder[i], x) in s.fields.Items
  }

  lemma FormPoint<V, F>(s: Sample<V, F>, c: string, v: Option<V>)
    requires Proper(s) && c != "" && PointOfForm(s, c, v)
    ensures v == if c in PointForms(s) then Some(PointForms(s)[c]) else None
  {
    hide ByForm, ByName;
    if v.Some? {
      var i :| FirstOfForm(s.pointOrder, s.env.lower, c, i) && PointNamed(s, s.pointOrder[i], v);
      FormFirst(Names(s), s.env.lower, s.pointOrder, c, i);
      NamedPoint(s, s.pointOrder[i], v);
    } else {
      NotYet(Names(s), s.env.lower, s.pointOrder, c);
    }
  }

  lemma FormField<V, F>(s: Sample<V, F>, c: string, v: Option<string>)
    requires Proper(s) && c != "" && FieldOfForm(s, c, v)
    ensures v == if c in FieldForms(s) then Some(FieldForms(s)[c]) else None
  {
    hide ByForm, ByName;
    if v.Some? {
      var i :| FirstOfForm(s.fieldOrder, NormOf(s.env), c, i) && (s.fieldOrder[i], v.value) in s.fields.Items;
      FormFirst(s.fields, NormOf(s.env), s.fieldOrder, c, i);
    } else {
      NotYet(s.fields, NormOf(s.env), s.fieldOrder, c);
    }
  }

  lemma NormMeans<V, F>(env: Env<V, F>, name: string)
    requires Lawful(env)
    ensures Norm(env, name) == env.lower(env.trim(name))
  {
  }

  /** The order of preference, said of the record: the point spelled like the query if it is a number, the
      point of its normal form if it is one, then the text of the field spelled like it, of the field of
      its normal form, of the point spelled like it, of the point of its normal form. */
  lemma AloneMeans<V, F>(s: Sample<V, F>, q: string, point: Option<V>, formPoint: Option<V>, formField: Option<string>)
    requires Proper(s) && q != "" && PointNamed(s, q, point) && PointOfForm(s, s.env.lower(q), formPoint)
    requires FieldOfForm(s, s.env.lower(q), formField)
    ensures Alone(s, q) ==
              if point.Some? && s.env.parseValue(point.value).Some? then s.env.parseValue(point.value)
              else if formPoint.Some? && s.env.parseValue(formPoint.value).Some? then s.env.parseValue(formPoint.value)
              else if q in s.fields then s.env.parse(s.fields[q])
              else if formField.Some? then s.env.parse(formField.value)
              else if point.Some? then s.env.parse(s.env.text(point.value))
              else if formPoint.Some? then s.env.parse(s.env.text(formPoint.value))
              else None
  {
    assert s.env.lower(q) != "";
    hide ByForm, ByName, Lawful, PointNamed, PointOfForm, FieldOfForm;
    NamedPoint(s, q, point);
    FormPoint(s, s.env.lower(q), formPoint);
    FormField(s, s.env.lower(q), formField);
  }

  // Two inputs.

  const ONE_NAME := ["Temp", "temp"]

  /** Names are compared up to one capital letter, and every text is a number. */
  function PlainEnv(): Env<string, string> {
    Env(s => s, s => if s == "Temp" then "temp" else s, (s: string) => Some(s), (v: string) => Some(v),
        (v: string) => false, (v: string) => v)
  }

  /** Fields "Temp" and "temp" with different values, asked for "temp" and then for "Temp": the second
      answer is the first field's value, not its own. */
  lemma TwoFieldsClash()
    ensures var s := Sample(PlainEnv(), map["Temp" := "1", "temp" := "2"], [], ONE_NAME, []);
            && Proper(s) && Alone(s, "Temp") == Some("1")
            && AskMany(s, NothingKept(), ["temp", "Temp"]).0 == [Some("2"), Some("2")]
  {
  }

  /** The same as points, with native numbers: each keeps its own. */
  lemma TwoPointsDoNot()
    ensures var s := Sample(PlainEnv(), map[], [Point("Temp", "1"), Point("temp", "2")], [], ONE_NAME);
            && Proper(s) && !Settled(s, "temp") && Invisible(s, "temp")
  {
    var s := Sample(PlainEnv(), map[], [Point("Temp", "1"), Point("temp", "2")], [], ONE_NAME);
    NamesOfTwo(s.env, s.points);
    assert "Temp" in Names(s) && s.env.lower("Temp") == "temp";
    hide Invisible;
    NativePointsInvisible(s, "temp");
  }

  lemma NamesOfTwo<V, F>(env: Env<V, F>, points: seq<Point<V>>)
    requires |points| == 2 && env.trim(points[0].fieldName) == points[0].fieldName != ""
    requires env.trim(points[1].fieldName) == points[1].fieldName != ""
    requires points[0].fieldName != points[1].fieldName
    ensures ByName(env, points) == map[points[0].fieldName := points[0].value, points[1].fieldName := points[1].value]
  {
    assert points[..1] == [points[0]] && points[..1][..0] == [];
    assert ByName(env, []) == map[];
    assert ByName(env, points[..1]) == map[points[0].fieldName := points[0].value];
  }
}

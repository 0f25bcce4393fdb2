/** Alarm throttling: when each alarm was last sent, kept in two tables that are pruned now and then,
    against the simple reference of one table that is never pruned. Times are in nanoseconds. */
module AlarmStates {
  import opened Basics

  const SECOND := 1_000_000_000
  const DEFAULT_REPEAT_INTERVAL := 60 * SECOND
  const DEFAULT_TTL := 24 * 3600 * SECOND
  const MAX_TTL := 7 * 24 * 3600 * SECOND
  const PRUNE_EVERY := 512
  const COUNTER_MODULUS := 0x1_0000_0000_0000_0000

  datatype IdKey = IdKey(deviceId: int, thresholdId: int)

  datatype Key = Key(deviceId: int, thresholdId: int, fieldName: string, operator: string, thresholdValue: real)

  /** The two tables and the call counter. */
  datatype Tables = Tables(data: map<Key, int>, byId: map<IdKey, int>, counter: int)

  const EMPTY := Tables(map[], map[], 0)

  function Effective(repeatInterval: int): (r: int)
    ensures r > 0
  {
    if repeatInterval <= 0 then DEFAULT_REPEAT_INTERVAL else repeatInterval
  }

  /** Signed 64-bit wrap-around of Go's Duration arithmetic. */
  function Wrap64(n: int): int {
    (n + 0x8000_0000_0000_0000) % 0x1_0000_0000_0000_0000 - 0x8000_0000_0000_0000
  }

  /** `resolveAlarmStateTTL` */
  function Ttl(repeatInterval: int): (ttl: int)
    ensures 86_400_000_000_000 <= ttl <= 604_800_000_000_000
  {
    var candidate := Wrap64(repeatInterval * 120);
    var ttl := if repeatInterval > 0 && candidate > DEFAULT_TTL then candidate else DEFAULT_TTL;
    if ttl > MAX_TTL then MAX_TTL else ttl
  }

  /** The time to live is that between a day and seven days which is nearest to 120 intervals, as a signed
      64-bit product has them; a day if no interval is set. */
  lemma TtlMeans(repeatInterval: int, product: int)
    requires -0x8000_0000_0000_0000 <= product < 0x8000_0000_0000_0000
    requires (product - 120 * repeatInterval) % 0x1_0000_0000_0000_0000 == 0
    ensures repeatInterval > 0 ==>
              forall k :: 86_400_000_000_000 <= k <= 604_800_000_000_000 ==>
                Distance(Ttl(repeatInterval), product) <= Distance(k, product)
    ensures repeatInterval <= 0 ==> Ttl(repeatInterval) == 86_400_000_000_000
  {
    WrapUnique(120 * repeatInterval, product);
  }

  lemma WrapUnique(n: int, w: int)
    requires -0x8000_0000_0000_0000 <= w < 0x8000_0000_0000_0000 && (w - n) % 0x1_0000_0000_0000_0000 == 0
    ensures Wrap64(n) == w
  {
  }

  /** An entry has outlived `ttl`. */
  predicate Expired(last: int, now: int, ttl: int) {
    now - last > ttl
  }

  function Prune(s: Tables, now: int, ttl: int): Tables {
    s.(data := map k | k in s.data && !Expired(s.data[k], now, ttl) :: s.data[k],
       byId := map k | k in s.byId && !Expired(s.byId[k], now, ttl) :: s.byId[k])
  }

  /** `maybePruneAlarmStates` */
  function Tick(s: Tables, now: int, repeatInterval: int): Tables {
    var s' := s.(counter := (s.counter + 1) % COUNTER_MODULUS);
    if s'.counter % PRUNE_EVERY == 0 then Prune(s', now, Ttl(repeatInterval)) else s'
  }

  /** A call prunes exactly if it is a 512th one, and then forgets exactly the entries that are older than the
      time to live. */
  lemma TickMeans(s: Tables, now: int, repeatInterval: int)
    ensures var s' := Tick(s, now, repeatInterval); var prunes := (s.counter + 1) % 512 == 0;
            && (forall k :: k in s'.data <==>
                  k in s.data && (prunes ==> now - s.data[k] <= Ttl(repeatInterval)))
            && (forall k :: k in s'.byId <==>
                  k in s.byId && (prunes ==> now - s.byId[k] <= Ttl(repeatInterval)))
            && (forall k :: k in s'.data ==> s'.data[k] == s.data[k])
            && (forall k :: k in s'.byId ==> s'.byId[k] == s.byId[k])
  {
    hide Ttl;
    MultipleWraps(s.counter + 1);
  }

  /** The counter wraps at a multiple of 512. */
  lemma MultipleWraps(n: int)
    ensures n % COUNTER_MODULUS % PRUNE_EVERY == 0 <==> n % 512 == 0
  {
    var q := n / COUNTER_MODULUS;
    assert n == COUNTER_MODULUS * q + n % COUNTER_MODULUS;
    assert COUNTER_MODULUS * q == 512 * (0x80_0000_0000_0000 * q);
  }

  /** `alarmStateIDFromKey` */
  predicate HasId(key: Key) {
    key.thresholdId > 0
  }

  function IdOf(key: Key): IdKey {
    IdKey(key.deviceId, key.thresholdId)
  }

  /** Alarms are sent unless the last one is less than an interval old. */
  predicate Due(last: int, now: int, repeatInterval: int) {
    now - last >= Effective(repeatInterval)
  }

  /** `shouldEmitAlarmForIDKey` */
  function CheckId(s: Tables, key: IdKey, now: int, repeatInterval: int): (Tables, bool) {
    if key in s.byId && !Due(s.byId[key], now, repeatInterval) then (s, false)
    else (s.(byId := s.byId[key := now]), true)
  }

  /** `shouldEmitAlarmForKey` */
  function Check(s: Tables, key: Key, now: int, repeatInterval: int): (Tables, bool) {
    if HasId(key) then CheckId(s, IdOf(key), now, repeatInterval)
    else if key in s.data && !Due(s.data[key], now, repeatInterval) then (s, false)
    else (s.(data := s.data[key := now]), true)
  }

  /** `clearAlarmStateForDevice` */
  function ClearDevice(s: Tables, deviceId: int): Tables {
    s.(data := map k | k in s.data && k.deviceId != deviceId :: s.data[k],
       byId := map k | k in s.byId && k.deviceId != deviceId :: s.byId[k])
  }

  /** The process-wide alarm state. */
  class AlarmState {
    var data: map<Key, int>
    var byId: map<IdKey, int>
    var counter: int

    function View(): Tables
      reads this
    {
      Tables(data, byId, counter)
    }

    constructor ()
      ensures View() == EMPTY
    {
      data := map[];
      byId := map[];
      counter := 0;
    }

    method MaybePrune(now: int, repeatInterval: int)
      modifies this
      ensures View() == Tick(old(View()), now, repeatInterval)
    {
      counter := (counter + 1) % COUNTER_MODULUS;
      if counter % PRUNE_EVERY != 0 {
        return;
      }
      var _ := PruneStates(now, Ttl(repeatInterval));
    }

    /** `pruneAlarmStatesLocked` */
    method PruneStates(now: int, ttl: int) returns (removed: int)
      modifies this`data, this`byId
      ensures View() == Prune(old(View()), now, if ttl <= 0 then DEFAULT_TTL else ttl)
      ensures removed == old(|data| + |byId|) - |data| - |byId|
    {
      var limit := if ttl <= 0 then DEFAULT_TTL else ttl;
      var n, m;
      data, n := PruneTable(data, now, limit);
      byId, m := PruneTable(byId, now, limit);
      removed := n + m;
    }

    method ShouldEmitForKey(key: Key, now: int, repeatInterval: int) returns (emit: bool)
      modifies this`data, this`byId
      ensures (View(), emit) == Check(old(View()), key, now, repeatInterval)
    {
      if HasId(key) {
        emit := ShouldEmitForId(IdOf(key), now, repeatInterval);
        return;
      }
      emit := false;
      if key !in data {
        emit := true;
      } else if now - data[key] >= Effective(repeatInterval) {
        emit := true;
      }
      if !emit {
        return;
      }
      data := data[key := now];
    }

    method ShouldEmitForId(key: IdKey, now: int, repeatInterval: int) returns (emit: bool)
      modifies this`byId
      ensures (View(), emit) == CheckId(old(View()), key, now, repeatInterval)
    {
      if key in byId && now - byId[key] < Effective(repeatInterval) {
        return false;
      }
      byId := byId[key := now];
      return true;
    }

    method ClearForDevice(deviceId: int)
      modifies this`data, this`byId
      ensures View() == ClearDevice(old(View()), deviceId)
    {
      data := map k | k in data && k.deviceId != deviceId :: data[k];
      byId := map k | k in byId && k.deviceId != deviceId :: byId[k];
    }
  }

  /** One of the two deleting loops of `pruneAlarmStatesLocked`. */
  method PruneTable<K(==)>(table: map<K, int>, now: int, ttl: int) returns (kept: map<K, int>, removed: int)
    ensures kept == map k | k in table && !Expired(table[k], now, ttl) :: table[k]
    ensures removed == |table| - |kept|
  {
    kept, removed := table, 0;
    var todo := table.Keys;
    while todo != {}
      invariant todo <= kept.Keys
      invariant kept == map k | k in table && (k in todo || !Expired(table[k], now, ttl)) :: table[k]
      invariant removed == |table| - |kept|
      decreases todo
    {
      var k :| k in todo;
      todo := todo - {k};
      if now - table[k] > ttl {
        assert |kept - {k}| == |kept| - 1 by {
          assert (kept - {k}).Keys == kept.Keys - {k};
        }
        kept := kept - {k};
        removed := removed + 1;
      }
    }
  }

  // The reference: one table, never pruned.

  datatype RefKey = ById(id: IdKey) | ByField(key: Key)

  function RefKeyOf(key: Key): RefKey {
    if HasId(key) then ById(IdOf(key)) else ByField(key)
  }

  function DeviceOf(k: RefKey): int {
    match k
    case ById(id) => id.deviceId
    case ByField(key) => key.deviceId
  }

  type Reference = map<RefKey, int>

  /** One call made by some collector goroutine. */
  datatype Event =
    | Checked(key: Key, now: int, interval: int)
    | CheckedId(id: IdKey, now: int, interval: int)
    | Ticked(now: int, interval: int)
    | Cleared(deviceId: int, now: int)

  function Asks(e: Event): (k: RefKey)
    requires e.Checked? || e.CheckedId?
  {
    if e.Checked? then RefKeyOf(e.key) else ById(e.id)
  }

  /** The next tables, and whether an alarm is sent. */
  function Step(s: Tables, e: Event): (Tables, bool) {
    match e
    case Checked(key, now, r) => Check(s, key, now, r)
    case CheckedId(id, now, r) => CheckId(s, id, now, r)
    case Ticked(now, r) => (Tick(s, now, r), false)
    case Cleared(deviceId, _) => (ClearDevice(s, deviceId), false)
  }

  function RefStep(m: Reference, e: Event): (Reference, bool) {
    match e
    case Ticked(_, _) => (m, false)
    case Cleared(deviceId, _) => (map k | k in m && DeviceOf(k) != deviceId :: m[k], false)
    case _ =>
      var k := Asks(e);
      if k in m && !Due(m[k], e.now, e.interval) then (m, false) else (m[k := e.now], true)
  }

  function Run(events: seq<Event>): (Tables, seq<bool>) {
    if events == [] then (EMPTY, [])
    else
      var (s, sent) := Run(events[..|events| - 1]);
      var (s', b) := Step(s, events[|events| - 1]);
      (s', sent + [b])
  }

  function RefRun(events: seq<Event>): (Reference, seq<bool>) {
    if events == [] then (map[], [])
    else
      var (m, sent) := RefRun(events[..|events| - 1]);
      var (m', b) := RefStep(m, events[|events| - 1]);
      (m', sent + [b])
  }

  predicate Monotone(events: seq<Event>) {
    forall i, j :: 0 <= i < j < |events| ==> events[i].now <= events[j].now
  }

  /** Every interval asked for is at most `bound`, and no pruning forgets an entry that could still
      hold back an alarm within `bound`. */
  predicate Covered(events: seq<Event>, bound: int) {
    forall i :: 0 <= i < |events| ==>
      match events[i]
      case Checked(_, _, r) => Effective(r) <= bound
      case CheckedId(_, _, r) => Effective(r) <= bound
      case Ticked(_, r) => bound <= Ttl(r) + 1
      case Cleared(_, _) => true
  }

  predicate InTables(s: Tables, k: RefKey) {
    match k
    case ById(id) => id in s.byId
    case ByField(key) => !HasId(key) && key in s.data
  }

  function LookUp(s: Tables, k: RefKey): int
    requires InTables(s, k)
  {
    match k
    case ById(id) => s.byId[id]
    case ByField(key) => s.data[key]
  }

  /** The tables hold what the reference holds, except entries too old to hold anything back. */
  ghost predicate Simulates(s: Tables, m: Reference, now: int, bound: int) {
    && (forall k :: InTables(s, k) ==> k in m && m[k] == LookUp(s, k))
    && (forall k :: k in m && !InTables(s, k) ==> now - m[k] >= bound)
  }

  function Clock(events: seq<Event>): int {
    if events == [] then 0 else events[|events| - 1].now
  }

  lemma SimulatesCheck(s: Tables, m: Reference, e: Event, bound: int)
    requires Simulates(s, m, e.now, bound) && (e.Checked? || e.CheckedId?) && Effective(e.interval) <= bound
    ensures Step(s, e).1 == RefStep(m, e).1
    ensures Simulates(Step(s, e).0, RefStep(m, e).0, e.now, bound)
  {
    hide Effective;
    var k := Asks(e);
    assert InTables(s, k) ==> m[k] == LookUp(s, k);
    var (s', b) := Step(s, e);
    assert forall k' :: InTables(s', k') <==> InTables(s, k') || (b && k' == k);
    assert forall k' :: InTables(s', k') ==> LookUp(s', k') == if b && k' == k then e.now else LookUp(s, k');
  }

  lemma SimulatesTick(s: Tables, m: Reference, e: Event, bound: int)
    requires Simulates(s, m, e.now, bound) && e.Ticked? && bound <= Ttl(e.interval) + 1
    ensures Simulates(Step(s, e).0, m, e.now, bound)
  {
    hide Ttl;
    var s' := Step(s, e).0;
    assert forall k :: InTables(s', k) ==> InTables(s, k) && LookUp(s', k) == LookUp(s, k);
    assert forall k :: InTables(s, k) && !InTables(s', k) ==> e.now - LookUp(s, k) > Ttl(e.interval);
  }

  lemma SimulatesClear(s: Tables, m: Reference, e: Event, bound: int)
    requires Simulates(s, m, e.now, bound) && e.Cleared?
    ensures Simulates(Step(s, e).0, RefStep(m, e).0, e.now, bound)
  {
    var s' := Step(s, e).0;
    assert forall k :: InTables(s', k) <==> InTables(s, k) && DeviceOf(k) != e.deviceId;
    assert forall k :: InTables(s', k) ==> LookUp(s', k) == LookUp(s, k);
  }

  /** Pruning is invisible: in every run whose intervals stay within what pruning spares, the two
      pruned tables send exactly the alarms that one unpruned table would send. */
  lemma {:induction false} PruningInvisible(events: seq<Event>, bound: int)
    requires Monotone(events) && Covered(events, bound)
    ensures Run(events).1 == RefRun(events).1
    ensures Simulates(Run(events).0, RefRun(events).0, Clock(events), bound)
  {
    if events != [] {
      var init, e := events[..|events| - 1], events[|events| - 1];
      PruningInvisible(init, bound);
      var s, m := Run(init).0, RefRun(init).0;
      hide Step, RefStep, InTables;
      assert Simulates(s, m, e.now, bound) by {
        NothingHiddenAtStart(init);
      }
      match e
      case Checked(_, _, _) => SimulatesCheck(s, m, e, bound);
      case CheckedId(_, _, _) => SimulatesCheck(s, m, e, bound);
      case Ticked(_, _) => SimulatesTick(s, m, e, bound);
      case Cleared(_, _) => SimulatesClear(s, m, e, bound);
    }
  }

  lemma NothingHiddenAtStart(events: seq<Event>)
    ensures events == [] ==> RefRun(events).0 == map[]
  {
  }

  /** Every interval in the run is `r`. */
  predicate Constant(events: seq<Event>, r: int) {
    forall i :: 0 <= i < |events| && !events[i].Cleared? ==> events[i].interval == r
  }

  /** With one fixed interval of up to seven days (and a nanosecond), pruning is invisible. */
  lemma ConstantIntervalInvisible(events: seq<Event>, r: int)
    requires Monotone(events) && Constant(events, r) && r <= 604_800_000_000_001
    ensures Run(events).1 == RefRun(events).1
  {
    hide Run, RefRun;
    PruningInvisible(events, Effective(r));
  }

  /** With intervals that vary but never exceed a day (and a nanosecond), pruning is invisible. */
  lemma VaryingIntervalsInvisible(events: seq<Event>)
    requires Monotone(events)
    requires forall i :: 0 <= i < |events| && !events[i].Cleared? ==> events[i].interval <= 86_400_000_000_001
    ensures Run(events).1 == RefRun(events).1
  {
    hide Run, RefRun;
    PruningInvisible(events, DEFAULT_TTL + 1);
  }

  // Beyond that it is not: a run that sends an alarm too many, for every pair of an interval asked for
  // and an interval pruned for that do not go together.

  const PROBE := Key(1, 1, "", "", 0.0)

  /** An alarm, then `n` ticks just past the time to live. */
  function AlarmThenTicks(n: nat, asked: int, pruned: int): seq<Event> {
    if n == 0 then [Checked(PROBE, 0, asked)]
    else AlarmThenTicks(n - 1, asked, pruned) + [Ticked(Ttl(pruned) + 1, pruned)]
  }

  /** Alarms are asked for with intervals from `asked`, and tables pruned with ones from `pruned`. */
  predicate Uses(events: seq<Event>, asked: set<int>, pruned: set<int>) {
    forall i :: 0 <= i < |events| ==>
      match events[i]
      case Checked(_, _, r) => r in asked
      case CheckedId(_, _, r) => r in asked
      case Ticked(_, r) => r in pruned
      case Cleared(_, _) => true
  }

  lemma {:induction false} TicksShape(n: nat, asked: int, pruned: int)
    ensures var events := AlarmThenTicks(n, asked, pruned);
            && |events| == n + 1 && Uses(events, {asked}, {pruned}) && Monotone(events)
            && forall i :: 0 <= i <= n ==> events[i].now <= Ttl(pruned) + 1
  {
    hide Ttl;
    if n > 0 {
      TicksShape(n - 1, asked, pruned);
    }
  }

  function OneEntry(n: nat): Tables {
    Tables(map[], map[IdOf(PROBE) := 0], n)
  }

  lemma OneMoreTick(n: nat, r: int)
    requires 0 < n <= PRUNE_EVERY
    ensures Tick(OneEntry(n - 1), Ttl(r) + 1, r)
         == if n < PRUNE_EVERY then OneEntry(n) else Tables(map[], map[], n)
  {
    hide Ttl;
    assert n < PRUNE_EVERY ==> n % PRUNE_EVERY != 0;
  }

  lemma {:induction false} TicksRun(n: nat, asked: int, pruned: int)
    requires n <= PRUNE_EVERY
    ensures Run(AlarmThenTicks(n, asked, pruned)).0 == if n < PRUNE_EVERY then OneEntry(n) else Tables(map[], map[], n)
    ensures RefRun(AlarmThenTicks(n, asked, pruned)).0 == map[ById(IdOf(PROBE)) := 0]
  {
    var events := AlarmThenTicks(n, asked, pruned);
    if n == 0 {
      assert events[..0] == [];
    } else {
      TicksRun(n - 1, asked, pruned);
      hide Tick, OneEntry, Ttl;
      OneMoreTick(n, pruned);
      assert events[..|events| - 1] == AlarmThenTicks(n - 1, asked, pruned);
    }
  }

  lemma UncoveredPairVisible(asked: int, pruned: int) returns (events: seq<Event>)
    requires Effective(asked) > Ttl(pruned) + 1
    ensures Monotone(events) && Uses(events, {asked}, {pruned})
    ensures Run(events).1 != RefRun(events).1
  {
    hide Ttl;
    var init := AlarmThenTicks(PRUNE_EVERY, asked, pruned);
    var e := Checked(PROBE, Ttl(pruned) + 1, asked);
    events := init + [e];
    TicksRun(PRUNE_EVERY, asked, pruned);
    TicksShape(PRUNE_EVERY, asked, pruned);
    assert events[..|events| - 1] == init;
    assert Run(events).1[|Run(init).1|] && !RefRun(events).1[|RefRun(init).1|] by {
      hide AlarmThenTicks;
    }
    OneAnswerEach(init);
  }

  /** For every constant interval longer than that there is a run in which pruning shows. */
  lemma LongIntervalVisible(r: int) returns (events: seq<Event>)
    requires r > 604_800_000_000_001
    ensures Monotone(events) && Constant(events, r)
    ensures Run(events).1 != RefRun(events).1
  {
    hide Run, RefRun, Monotone;
    events := UncoveredPairVisible(r, r);
  }

  lemma {:induction false} LongestAsked(asked: set<int>) returns (bound: int)
    ensures forall r :: r in asked ==> Effective(r) <= bound
    ensures bound == 0 || exists r :: r in asked && Effective(r) == bound
  {
    if x :| x in asked {
      var rest := LongestAsked(asked - {x});
      bound := if Effective(x) > rest then Effective(x) else rest;
      assert forall r :: r in asked ==> r == x || r in asked - {x};
    } else {
      bound := 0;
    }
  }

  ghost predicate Invisible(events: seq<Event>) {
    Run(events).1 == RefRun(events).1
  }

  /** Exactly when pruning is invisible: whatever intervals are in use, it is so in every run that uses
      them if and only if no interval asked for exceeds, by more than a nanosecond, the time to live
      that an interval pruned for leads to. */
  lemma InvisibleIff(asked: set<int>, pruned: set<int>)
    ensures (forall events :: Monotone(events) && Uses(events, asked, pruned) ==> Invisible(events)) <==>
            (forall a, p :: a in asked && p in pruned ==> Effective(a) <= Ttl(p) + 1)
  {
    hide Run, RefRun, Monotone, Effective, Ttl;
    if forall a, p :: a in asked && p in pruned ==> Effective(a) <= Ttl(p) + 1 {
      var bound := LongestAsked(asked);
      forall events | Monotone(events) && Uses(events, asked, pruned) ensures Invisible(events) {
        assert Covered(events, bound);
        PruningInvisible(events, bound);
      }
    }
    forall a, p | a in asked && p in pruned && Effective(a) > Ttl(p) + 1
      ensures exists events :: Monotone(events) && Uses(events, asked, pruned) && !Invisible(events)
    {
      var events := UncoveredPairVisible(a, p);
      assert Uses(events, asked, pruned);
      assert !Invisible(events);
    }
  }

  lemma {:induction false} OneAnswerEach(events: seq<Event>)
    ensures |Run(events).1| == |RefRun(events).1| == |events|
  {
    if events != [] {
      OneAnswerEach(events[..|events| - 1]);
    }
  }

  /** The pruning calls of a run. */
  function Ticks(events: seq<Event>): set<int> {
    set i | 0 <= i < |events| && events[i].Ticked?
  }

  /** The counter counts them, modulo its width. */
  lemma {:induction false} CounterCounts(events: seq<Event>)
    ensures Run(events).0.counter == |Ticks(events)| % 0x1_0000_0000_0000_0000
  {
    if events == [] {
      assert Ticks(events) == {};
    } else {
      var n := |events| - 1;
      CounterCounts(events[..n]);
      TicksNext(events);
      hide Ticks, Step;
      CounterStep(Run(events[..n]).0, events[n]);
      NextCount(|Ticks(events[..n])|);
    }
  }

  lemma TicksNext(events: seq<Event>)
    requires events != []
    ensures var n := |events| - 1; |Ticks(events)| == |Ticks(events[..n])| + if events[n].Ticked? then 1 else 0
  {
    var n := |events| - 1;
    var before := Ticks(events[..n]);
    assert n !in before;
    assert Ticks(events) == if events[n].Ticked? then before + {n} else before;
  }

  lemma NextCount(n: int)
    ensures (n % COUNTER_MODULUS + 1) % COUNTER_MODULUS == (n + 1) % COUNTER_MODULUS
  {
  }

  lemma CounterStep(s: Tables, e: Event)
    ensures Step(s, e).0.counter == if e.Ticked? then (s.counter + 1) % COUNTER_MODULUS else s.counter
  {
  }

  // Throttling.

  /** The two questions are about the same alarm: the same device and stored threshold, or, for a threshold
      without an id, the same device, field, operator and value. */
  predicate SameSubject(a: Event, b: Event) {
    match (a, b)
    case (Checked(k, _, _), Checked(l, _, _)) =>
      || (k.deviceId == l.deviceId && k.thresholdId == l.thresholdId > 0)
      || (&& k.deviceId == l.deviceId && k.thresholdId == l.thresholdId && k.fieldName == l.fieldName
          && k.operator == l.operator && k.thresholdValue == l.thresholdValue)
    case (Checked(k, _, _), CheckedId(l, _, _)) => k.deviceId == l.deviceId && k.thresholdId == l.thresholdId > 0
    case (CheckedId(k, _, _), Checked(l, _, _)) => k.deviceId == l.deviceId && k.thresholdId == l.thresholdId > 0
    case (CheckedId(k, _, _), CheckedId(l, _, _)) => k.deviceId == l.deviceId && k.thresholdId == l.thresholdId
    case _ => false
  }

  function DeviceAsked(e: Event): int
    requires e.Checked? || e.CheckedId?
  {
    if e.Checked? then e.key.deviceId else e.id.deviceId
  }

  lemma SubjectMeans(a: Event, b: Event)
    requires (a.Checked? || a.CheckedId?) && (b.Checked? || b.CheckedId?)
    ensures SameSubject(a, b) <==> Asks(a) == Asks(b)
    ensures DeviceAsked(a) == DeviceOf(Asks(a))
  {
  }

  /** Events `i` and `j` ask about the same alarm, and its device is not cleared in between. */
  predicate SameAlarm(events: seq<Event>, i: nat, j: nat)
    requires i < j < |events|
  {
    && SameSubject(events[i], events[j])
    && forall n :: i < n < j && events[n].Cleared? ==> events[n].deviceId != DeviceAsked(events[i])
  }

  /** The alarm at time `before` is at least the interval old: a minute if none is set. */
  predicate LongAgo(before: int, now: int, interval: int) {
    now - before >= if interval > 0 then interval else 60_000_000_000
  }

  lemma {:induction false} LastSentKept(events: seq<Event>, i: nat)
    requires i < |events| && Monotone(events) && (events[i].Checked? || events[i].CheckedId?)
    requires |RefRun(events).1| == |events| && RefRun(events).1[i]
    requires forall n :: i < n < |events| && events[n].Cleared? ==> events[n].deviceId != DeviceOf(Asks(events[i]))
    ensures var m := RefRun(events).0; Asks(events[i]) in m && events[i].now <= m[Asks(events[i])]
  {
    var init := events[..|events| - 1];
    OneAnswerEach(init);
    if i < |init| {
      LastSentKept(init, i);
    }
  }

  /** Every entry of the reference is the time of some alarm, not followed by a clearing. */
  lemma {:induction false} EntryFromAlarm(events: seq<Event>, k: RefKey) returns (i: nat)
    requires k in RefRun(events).0
    ensures i < |events| == |RefRun(events).1| && RefRun(events).1[i]
    ensures (events[i].Checked? || events[i].CheckedId?) && Asks(events[i]) == k
    ensures events[i].now == RefRun(events).0[k]
    ensures forall n :: i < n < |events| && events[n].Cleared? ==> events[n].deviceId != DeviceOf(k)
  {
    OneAnswerEach(events);
    var init, e := events[..|events| - 1], events[|events| - 1];
    if (e.Checked? || e.CheckedId?) && Asks(e) == k && RefRun(events).1[|init|] {
      i := |init|;
    } else {
      OneAnswerEach(init);
      i := EntryFromAlarm(init, k);
      forall n | i < n < |events| && events[n].Cleared? ensures events[n].deviceId != DeviceOf(k) {
        assert n < |init| ==> events[n] == init[n];
      }
    }
  }

  /** The alarm at `i`, if one was sent, does not hold back the one asked for at `j`. */
  predicate FarFrom(events: seq<Event>, sent: seq<bool>, i: nat, j: nat)
    requires i < j < |events| == |sent|
  {
    SameAlarm(events, i, j) && sent[i] ==> LongAgo(events[i].now, events[j].now, events[j].interval)
  }

  /** Which alarms are sent, said without any table: the `j`-th question is answered yes exactly if
      every alarm sent before for the same threshold, with no clearing of its device since, is at
      least the interval of the question old. */
  lemma SentExactly(events: seq<Event>, j: nat, bound: int)
    requires j < |events| && Monotone(events) && Covered(events, bound)
    requires events[j].Checked? || events[j].CheckedId?
    ensures |Run(events).1| == |events|
    ensures Run(events).1[j] <==> forall i :: 0 <= i < j ==> FarFrom(events, Run(events).1, i, j)
  {
    hide Run, Covered, Simulates;
    PruningInvisible(events, bound);
    OneAnswerEach(events);
    var before := events[..j];
    var sent := RefRun(events).1;
    RefRunPrefix(events, j);
    RefRunPrefix(events, j + 1);
    assert events[..j + 1][..j] == before;
    assert sent[j] == RefRun(events[..j + 1]).1[j] == RefStep(RefRun(before).0, events[j]).1;
    var k := Asks(events[j]);
    forall i | 0 <= i < j && SameAlarm(events, i, j) && sent[i]
      ensures k in RefRun(before).0 && events[i].now <= RefRun(before).0[k]
    {
      SubjectMeans(events[i], events[j]);
      assert RefRun(before).1[i] == sent[..j][i];
      LastSentKept(before, i);
    }
    if k in RefRun(before).0 {
      var i := EntryFromAlarm(before, k);
      assert sent[i] == sent[..j][i];
      SubjectMeans(events[i], events[j]);
      assert SameAlarm(events, i, j);
      assert FarFrom(events, sent, i, j) <==> sent[j];
    }
  }

  /** Two alarms for one threshold, with no clearing of its device between them, are at least the
      interval of the later one apart: in every covered run of the pruned tables. */
  lemma AlarmsSpaced(events: seq<Event>, i: nat, j: nat, bound: int)
    requires i < j < |events| && Monotone(events) && Covered(events, bound) && SameAlarm(events, i, j)
    requires |Run(events).1| == |events| && Run(events).1[i] && Run(events).1[j]
    ensures LongAgo(events[i].now, events[j].now, events[j].interval)
  {
    hide Run, RefRun, Covered;
    SentExactly(events, j, bound);
    assert FarFrom(events, Run(events).1, i, j);
  }

  lemma {:induction false} RefRunPrefix(events: seq<Event>, n: nat)
    requires n <= |events|
    ensures |RefRun(events[..n]).1| == n <= |RefRun(events).1|
    ensures RefRun(events).1[..n] == RefRun(events[..n]).1
  {
    hide RefStep;
    OneAnswerEach(events);
    OneAnswerEach(events[..n]);
    if n == |events| {
      assert events[..n] == events;
    } else {
      var init := events[..|events| - 1];
      assert init[..n] == events[..n];
      RefRunPrefix(init, n);
    }
  }
}

/** Moving history from the in-memory database to disk: note the highest row id, copy the rows up to
    it, then delete them from memory. Rows arrive meanwhile, and any step may fail. */
module DataSync {

  datatype Key = Key(deviceId: int, fieldName: string, collectedAt: int)

  datatype Row = Row(key: Key, value: string)

  /** Where a synchronisation is: none running, or about to copy, or about to delete, rows up to `maxId`. */
  datatype Phase = Idle | Copying(maxId: nat) | Deleting(maxId: nat)

  /** The memory table by row id, the disk table by its unique key, and the last row id given out. */
  datatype State = State(mem: map<nat, Row>, disk: map<Key, string>, lastId: nat, phase: Phase)

  function MemKeys(mem: map<nat, Row>): set<Key> {
    set id | id in mem :: mem[id].key
  }

  /** Every history key that either database holds. */
  function Held(s: State): set<Key> {
    MemKeys(s.mem) + s.disk.Keys
  }

  /** `INSERT OR REPLACE`: a row with the same key goes, and the new row gets a new, higher id. */
  function Inserted(s: State, r: Row): State {
    var others := map id | id in s.mem && s.mem[id].key != r.key :: s.mem[id];
    s.(mem := others[s.lastId + 1 := r], lastId := s.lastId + 1)
  }

  /** `MAX(id)`, or 0 for an empty table. */
  ghost predicate IsMaxId(mem: map<nat, Row>, n: nat) {
    && (forall id :: id in mem ==> id <= n)
    && (n != 0 ==> n in mem)
  }

  /** `INSERT OR IGNORE` of the rows with ids up to `n`, in id order. */
  function Copied(mem: map<nat, Row>, disk: map<Key, string>, n: nat): map<Key, string> {
    var before := if n == 0 then disk else Copied(mem, disk, n - 1);
    if n in mem && mem[n].key !in before then before[mem[n].key := mem[n].value] else before
  }

  function Deleted(mem: map<nat, Row>, maxId: nat): map<nat, Row> {
    map id | id in mem && id > maxId :: mem[id]
  }

  class History {
    var mem: map<nat, Row>
    var disk: map<Key, string>
    var lastId: nat
    var phase: Phase

    function View(): State
      reads this
    {
      State(mem, disk, lastId, phase)
    }

    constructor ()
      ensures View() == State(map[], map[], 0, Idle)
    {
      mem, disk, lastId, phase := map[], map[], 0, Idle;
    }

    method Insert(r: Row)
      modifies this
      ensures View() == Step(old(View()), Arrives(r))
    {
      lastId := lastId + 1;
      mem := (map id | id in mem && mem[id].key != r.key :: mem[id])[lastId := r];
    }

    /** `syncDataToDisk` reads the highest id and stops there if there are no rows. */
    method Begin()
      requires phase == Idle && Below(mem, lastId)
      modifies this`phase
      ensures IsMaxId(mem, 0) ==> View() == old(View())
      ensures !IsMaxId(mem, 0) ==> phase.Copying? && Possible(old(View()), Begins(phase.maxId))
      ensures !IsMaxId(mem, 0) ==> View() == Step(old(View()), Begins(phase.maxId))
    {
      var n := lastId;
      while n > 0 && n !in mem
        invariant forall id :: id in mem ==> id <= n
      {
        n := n - 1;
      }
      if n != 0 {
        phase := Copying(n);
      }
    }

    /** `syncDataPointsRowByRow`: one transaction; a failing row rolls everything back. */
    method Copy() returns (ok: bool)
      requires phase.Copying?
      modifies this`disk, this`phase
      ensures View() == Step(old(View()), Copies(ok))
    {
      var before := disk;
      var maxId := phase.maxId;
      var table := disk;
      for n := 0 to maxId + 1
        invariant n > 0 ==> table == Copied(mem, before, n - 1)
        invariant n == 0 ==> table == before
      {
        if n in mem {
          var failed := *;
          if failed {
            phase := Idle;
            return false;
          }
          if mem[n].key !in table {
            table := table[mem[n].key := mem[n].value];
          }
        }
      }
      disk := table;
      phase := Deleting(maxId);
      return true;
    }

    /** The deletion of the copied rows; if it fails they stay, to be copied again. */
    method Delete() returns (ok: bool)
      requires phase.Deleting?
      modifies this`mem, this`phase
      ensures View() == Step(old(View()), Deletes(ok))
    {
      ok := *;
      if ok {
        mem := map id | id in mem && id > phase.maxId :: mem[id];
      }
      phase := Idle;
    }
  }

  predicate Below(mem: map<nat, Row>, n: nat) {
    forall id :: id in mem ==> id <= n
  }

  // Runs.

  datatype Event = Arrives(r: Row) | Begins(maxId: nat) | Copies(ok: bool) | Deletes(ok: bool)

  /** The step is one the code can take. */
  ghost predicate Possible(s: State, e: Event) {
    match e
    case Arrives(_) => true
    case Begins(maxId) => s.phase == Idle && maxId != 0 && IsMaxId(s.mem, maxId)
    case Copies(_) => s.phase.Copying?
    case Deletes(_) => s.phase.Deleting?
  }

  function Step(s: State, e: Event): State {
    match e
    case Arrives(r) => Inserted(s, r)
    case Begins(maxId) => s.(phase := Copying(maxId))
    case Copies(ok) =>
      if !s.phase.Copying? then s
      else if ok then s.(disk := Copied(s.mem, s.disk, s.phase.maxId), phase := Deleting(s.phase.maxId))
      else s.(phase := Idle)
    case Deletes(ok) =>
      if !s.phase.Deleting? then s
      else if ok then s.(mem := Deleted(s.mem, s.phase.maxId), phase := Idle)
      else s.(phase := Idle)
  }

  const EMPTY := State(map[], map[], 0, Idle)

  function Run(events: seq<Event>): State {
    if events == [] then EMPTY else Step(Run(events[..|events| - 1]), events[|events| - 1])
  }

  ghost predicate Legal(events: seq<Event>) {
    forall i :: 0 <= i < |events| ==> Possible(Run(events[..i]), events[i])
  }

  /** The keys of all rows that ever arrived. */
  function Arrived(events: seq<Event>): set<Key> {
    set i | 0 <= i < |events| && events[i].Arrives? :: events[i].r.key
  }

  /** Row ids are increasing, and what is about to be deleted is on disk. */
  ghost predicate Inv(s: State) {
    && Below(s.mem, s.lastId)
    && (s.phase != Idle ==> s.phase.maxId <= s.lastId)
    && (s.phase.Deleting? ==> forall id :: id in s.mem && id <= s.phase.maxId ==> s.mem[id].key in s.disk)
  }

  lemma {:induction false} CopiedHolds(mem: map<nat, Row>, disk: map<Key, string>, n: nat)
    ensures forall k :: k in disk ==> k in Copied(mem, disk, n) && Copied(mem, disk, n)[k] == disk[k]
    ensures forall id :: id in mem && id <= n ==> mem[id].key in Copied(mem, disk, n)
    ensures forall k :: k in Copied(mem, disk, n) ==> k in disk || k in MemKeys(mem)
  {
    if n > 0 {
      CopiedHolds(mem, disk, n - 1);
    }
  }

  lemma StepKeeps(s: State, e: Event)
    requires Inv(s) && Possible(s, e)
    ensures Inv(Step(s, e))
    ensures Held(Step(s, e)) == Held(s) + if e.Arrives? then {e.r.key} else {}
  {
    match e
    case Arrives(r) => InsertKeeps(s, r);
    case Begins(_) =>
    case Copies(ok) => CopiedHolds(s.mem, s.disk, s.phase.maxId);
    case Deletes(ok) => DeleteKeeps(s);
  }

  lemma InsertKeeps(s: State, r: Row)
    requires Inv(s)
    ensures Inv(Inserted(s, r)) && Held(Inserted(s, r)) == Held(s) + {r.key}
  {
    var s' := Inserted(s, r);
    assert s'.mem[s.lastId + 1] == r;
    forall k | k in MemKeys(s.mem) ensures k in MemKeys(s'.mem) {
      var id :| id in s.mem && s.mem[id].key == k;
      assert k != r.key ==> id in s'.mem && s'.mem[id] == s.mem[id];
    }
  }

  lemma DeleteKeeps(s: State)
    requires Inv(s) && s.phase.Deleting?
    ensures MemKeys(Deleted(s.mem, s.phase.maxId)) + s.disk.Keys == Held(s)
  {
    var mem := Deleted(s.mem, s.phase.maxId);
    forall k | k in MemKeys(s.mem) ensures k in MemKeys(mem) || k in s.disk {
      var id :| id in s.mem && s.mem[id].key == k;
      assert id > s.phase.maxId ==> id in mem && mem[id] == s.mem[id];
    }
  }

  lemma ArrivedNext(events: seq<Event>)
    requires events != []
    ensures var n := |events| - 1;
            Arrived(events) == Arrived(events[..n]) + if events[n].Arrives? then {events[n].r.key} else {}
  {
    var init := events[..|events| - 1];
    assert forall i :: 0 <= i < |init| ==> init[i] == events[i];
  }

  /** History is conserved: in every run, with rows arriving at any point of a synchronisation and any
      step failing, memory and disk together hold exactly the keys that arrived. */
  lemma {:induction false} HistoryConserved(events: seq<Event>)
    requires Legal(events)
    ensures Inv(Run(events)) && Held(Run(events)) == Arrived(events)
  {
    if events != [] {
      var init, e := events[..|events| - 1], events[|events| - 1];
      assert forall i :: 0 <= i < |init| ==> init[..i] == events[..i] && init[i] == events[i];
      assert Possible(Run(events[..|events| - 1]), e);
      HistoryConserved(init);
      StepKeeps(Run(init), e);
      ArrivedNext(events);
      hide Held, Inv, Step, Arrived;
    }
  }

  /** What is once on disk is never overwritten by a synchronisation. */
  lemma DiskKept(s: State, e: Event)
    ensures forall k :: k in s.disk ==> k in Step(s, e).disk && Step(s, e).disk[k] == s.disk[k]
  {
    if e.Copies? && e.ok && s.phase.Copying? {
      CopiedHolds(s.mem, s.disk, s.phase.maxId);
    }
  }

  /** Copying the same rows once more, after a failed deletion, leaves the disk as it is. */
  lemma {:induction false} CopyAgainSame(mem: map<nat, Row>, disk: map<Key, string>, n: nat, m: nat)
    requires m <= n
    ensures var once := Copied(mem, disk, n); Copied(mem, once, m) == once
  {
    CopiedHolds(mem, disk, n);
    if m > 0 {
      CopyAgainSame(mem, disk, n, m - 1);
    }
  }

  // Values. The copy ignores a row whose key is on disk already, so a newer value under that key stays
  // in memory only until the deletion. It is lost there, and only there.

  /** The value that arrived last under a key. */
  function Newest(events: seq<Event>, k: Key): (v: string)
    requires k in Arrived(events)
  {
    ArrivedNext(events);
    var e := events[|events| - 1];
    if e.Arrives? && e.r.key == k then e.r.value else Newest(events[..|events| - 1], k)
  }

  ghost predicate MemoryNewest(events: seq<Event>) {
    var mem := Run(events).mem;
    forall id :: id in mem ==> mem[id].key in Arrived(events) && mem[id].value == Newest(events, mem[id].key)
  }

  ghost predicate DiskNewest(events: seq<Event>) {
    var disk := Run(events).disk;
    forall k :: k in disk ==> k in Arrived(events) && disk[k] == Newest(events, k)
  }

  /** The next row to arrive contradicts the row on disk under the same key. */
  predicate Contradicts(s: State, e: Event) {
    e.Arrives? && e.r.key in s.disk && s.disk[e.r.key] != e.r.value
  }

  lemma MemoryStep(s: State, e: Event, id: nat)
    requires id in Step(s, e).mem
    ensures var r := Step(s, e).mem[id];
            (e.Arrives? && r == e.r) || (id in s.mem && s.mem[id] == r && (e.Arrives? ==> r.key != e.r.key))
  {
    hide Copied;
  }

  /** What memory holds under a key is what arrived last under it. */
  lemma {:induction false} MemoryIsNewest(events: seq<Event>)
    ensures MemoryNewest(events)
  {
    if events != [] {
      var init, e := events[..|events| - 1], events[|events| - 1];
      ArrivedNext(events);
      MemoryIsNewest(init);
      hide Arrived, Step;
      forall id | id in Run(events).mem
        ensures var r := Run(events).mem[id]; r.key in Arrived(events) && r.value == Newest(events, r.key)
      {
        MemoryStep(Run(init), e, id);
      }
    }
  }

  lemma {:induction false} CopiedValues(mem: map<nat, Row>, disk: map<Key, string>, n: nat)
    ensures forall k :: k in Copied(mem, disk, n) ==>
              || (k in disk && Copied(mem, disk, n)[k] == disk[k])
              || exists id :: id in mem && id <= n && mem[id] == Row(k, Copied(mem, disk, n)[k])
  {
    if n > 0 {
      CopiedValues(mem, disk, n - 1);
    }
    var before := if n == 0 then disk else Copied(mem, disk, n - 1);
    assert n in mem && mem[n].key !in before ==> mem[n] == Row(mem[n].key, Copied(mem, disk, n)[mem[n].key]);
  }

  /** A synchronisation that goes through, with nothing arriving meanwhile, moves everything: memory is empty,
      and every row is on disk unless the disk had its key before. */
  lemma SyncMovesAll(s: State, n: nat)
    requires Unique(s.mem) && s.phase == Idle && n != 0 && IsMaxId(s.mem, n)
    ensures var s' := Step(Step(Step(s, Begins(n)), Copies(true)), Deletes(true));
            && s'.mem == map[] && s'.phase == Idle
            && (forall id :: id in s.mem ==> s.mem[id].key in s'.disk)
            && (forall id :: id in s.mem && s.mem[id].key !in s.disk ==> s'.disk[s.mem[id].key] == s.mem[id].value)
            && (forall k :: k in s.disk ==> k in s'.disk && s'.disk[k] == s.disk[k])
  {
    CopiedHolds(s.mem, s.disk, n);
    CopiedValues(s.mem, s.disk, n);
    hide Copied;
  }

  lemma DiskNewestStep(events: seq<Event>)
    requires events != [] && DiskNewest(events[..|events| - 1])
    requires !Contradicts(Run(events[..|events| - 1]), events[|events| - 1])
    ensures DiskNewest(events)
  {
    var init, e := events[..|events| - 1], events[|events| - 1];
    var s := Run(init);
    ArrivedNext(events);
    MemoryIsNewest(init);
    if e.Copies? && e.ok && s.phase.Copying? {
      CopiedValues(s.mem, s.disk, s.phase.maxId);
    }
  }

  lemma ContradictedDisk(events: seq<Event>)
    requires events != [] && Contradicts(Run(events[..|events| - 1]), events[|events| - 1])
    ensures !DiskNewest(events)
  {
    ArrivedNext(events);
  }

  ghost predicate NeverContradicts(events: seq<Event>) {
    forall i :: 0 <= i < |events| ==> !Contradicts(Run(events[..i]), events[i])
  }

  /** The disk is up to date at every point of a run exactly if no row of the run contradicts, when it
      arrives, the row then on disk under its key. */
  lemma {:induction false} DiskUpToDateIff(events: seq<Event>)
    ensures (forall n :: 0 <= n <= |events| ==> DiskNewest(events[..n])) <==> NeverContradicts(events)
  {
    hide DiskNewest, Contradicts, Run;
    DiskNewestNone();
    assert events[..0] == [] && events[..|events|] == events;
    if events != [] {
      var n := |events| - 1;
      var init := events[..n];
      assert forall i :: 0 <= i <= n ==> init[..i] == events[..i];
      DiskUpToDateIff(init);
      if NeverContradicts(init) && DiskNewest(init) {
        if Contradicts(Run(init), events[n]) {
          ContradictedDisk(events);
        } else {
          DiskNewestStep(events);
        }
      }
    }
  }

  lemma DiskNewestNone()
    ensures DiskNewest([])
  {
  }

  /** A reader that looks in memory first and then on disk finds `v` under `k`. */
  ghost predicate Reads(s: State, k: Key, v: string) {
    || (exists id :: id in s.mem && s.mem[id] == Row(k, v))
    || (k !in MemKeys(s.mem) && k in s.disk && s.disk[k] == v)
  }

  /** A deletion removes the memory row of `k` while the disk has another value for it. */
  ghost predicate Discards(s: State, e: Event, k: Key) {
    && e == Deletes(true) && s.phase.Deleting? && k in s.disk
    && exists id :: id in s.mem && id <= s.phase.maxId && s.mem[id].key == k && s.mem[id].value != s.disk[k]
  }

  /** Memory holds at most one row of each key. */
  ghost predicate Unique(mem: map<nat, Row>) {
    forall i, j :: i in mem && j in mem && mem[i].key == mem[j].key ==> i == j
  }

  lemma {:induction false} KeysUnique(events: seq<Event>)
    ensures Unique(Run(events).mem)
  {
    if events != [] {
      KeysUnique(events[..|events| - 1]);
      UniqueStep(Run(events[..|events| - 1]), events[|events| - 1]);
    }
  }

  lemma UniqueStep(s: State, e: Event)
    requires Unique(s.mem)
    ensures Unique(Step(s, e).mem)
  {
    hide Copied;
  }

  /** Copying changes nothing for a reader who finds every key. */
  lemma CopyReads(s: State, n: nat, k: Key, v: string)
    requires k in Held(s)
    ensures Reads(s, k, v) <==> Reads(s.(disk := Copied(s.mem, s.disk, n)), k, v)
  {
    CopiedHolds(s.mem, s.disk, n);
  }

  /** A deletion that does not discard `k` changes nothing for a reader of `k`. */
  lemma DeleteReads(s: State, k: Key, v: string)
    requires Inv(s) && Unique(s.mem) && s.phase.Deleting? && !Discards(s, Deletes(true), k)
    ensures Reads(s, k, v) <==> Reads(s.(mem := Deleted(s.mem, s.phase.maxId)), k, v)
  {
    var mem := Deleted(s.mem, s.phase.maxId);
    if k in MemKeys(s.mem) {
      var id :| id in s.mem && s.mem[id].key == k;
      assert id > s.phase.maxId ==> id in mem && mem[id] == s.mem[id];
      assert s.mem[id] == Row(k, s.mem[id].value);
    }
  }

  lemma DiscardLoses(s: State, k: Key, v: string)
    requires Unique(s.mem) && Discards(s, Deletes(true), k) && Reads(s, k, v)
    ensures !Reads(s.(mem := Deleted(s.mem, s.phase.maxId)), k, v)
  {
  }

  lemma ArrivalReads(s: State, r: Row, k: Key, v: string)
    requires Below(s.mem, s.lastId) && k != r.key
    ensures Reads(s, k, v) <==> Reads(Inserted(s, r), k, v)
  {
    var s' := Inserted(s, r);
    assert forall id :: id in s.mem && s.mem[id].key == k ==> id in s'.mem && s'.mem[id] == s.mem[id];
  }

  /** Any other step changes nothing for a reader of `k`. */
  lemma StepReads(s: State, e: Event, k: Key, v: string)
    requires Inv(s) && Unique(s.mem) && Possible(s, e) && k in Held(s)
    requires !(e.Arrives? && e.r.key == k) && !Discards(s, e, k)
    ensures Reads(s, k, v) <==> Reads(Step(s, e), k, v)
  {
    match e
    case Arrives(r) => ArrivalReads(s, r, k, v);
    case Begins(_) =>
    case Copies(ok) => CopyReads(s, s.phase.maxId, k, v);
    case Deletes(ok) =>
      if ok {
        DeleteReads(s, k, v);
      }
  }

  /** Step `i` discards `k`, and nothing arrives under `k` after it. */
  ghost predicate DiscardedAt(events: seq<Event>, k: Key, i: nat)
    requires i < |events|
  {
    && Discards(Run(events[..i]), events[i], k)
    && forall j :: i < j < |events| ==> !(events[j].Arrives? && events[j].r.key == k)
  }

  ghost predicate Lost(events: seq<Event>, k: Key) {
    exists i :: 0 <= i < |events| && DiscardedAt(events, k, i)
  }

  lemma LostNext(events: seq<Event>, k: Key)
    requires events != []
    ensures var n := |events| - 1; var e := events[n];
            Lost(events, k) <==>
              Discards(Run(events[..n]), e, k) || (!(e.Arrives? && e.r.key == k) && Lost(events[..n], k))
  {
    hide Run, Discards;
    var n := |events| - 1;
    var init := events[..n];
    forall i | 0 <= i < n
      ensures DiscardedAt(events, k, i) <==>
              DiscardedAt(init, k, i) && !(events[n].Arrives? && events[n].r.key == k)
    {
      assert init[..i] == events[..i];
      assert forall j :: i < j < n ==> init[j] == events[j];
    }
    assert DiscardedAt(events, k, n) <==> Discards(Run(init), events[n], k);
  }

  lemma LegalPrefix(events: seq<Event>)
    requires Legal(events) && events != []
    ensures var n := |events| - 1; Legal(events[..n]) && Possible(Run(events[..n]), events[n])
  {
    var init := events[..|events| - 1];
    assert forall i :: 0 <= i < |init| ==> init[..i] == events[..i] && init[i] == events[i];
  }

  /** Exactly when a value is lost: at the end of any run, the value that arrived last under a key is not
      what a reader finds if and only if, after that arrival, a deletion removed it from memory while
      the disk had another value under its key. */
  lemma {:induction false} LostIff(events: seq<Event>, k: Key)
    requires Legal(events) && k in Arrived(events)
    ensures !Reads(Run(events), k, Newest(events, k)) <==> Lost(events, k)
  {
    var n := |events| - 1;
    var init, e := events[..n], events[n];
    ArrivedNext(events);
    LegalPrefix(events);
    LostNext(events, k);
    HistoryConserved(init);
    KeysUnique(init);
    hide Legal, Lost, Arrived, Inv, Unique, Held, Possible, Reads, Discards, Step;
    if e.Arrives? && e.r.key == k {
      ArrivalRead(Run(init), e.r);
    } else {
      LostIff(init, k);
      LostStep(init, e, k);
    }
  }

  lemma ArrivalRead(s: State, r: Row)
    ensures Reads(Step(s, Arrives(r)), r.key, r.value) && !Discards(s, Arrives(r), r.key)
  {
    assert Inserted(s, r).mem[s.lastId + 1] == Row(r.key, r.value);
  }

  /** A discarded row is the newest of its key. */
  lemma LostStep(init: seq<Event>, e: Event, k: Key)
    requires k in Arrived(init) && Inv(Run(init)) && Unique(Run(init).mem) && Possible(Run(init), e)
    requires !(e.Arrives? && e.r.key == k) && Held(Run(init)) == Arrived(init)
    ensures var v := Newest(init, k);
            Reads(Step(Run(init), e), k, v) <==> Reads(Run(init), k, v) && !Discards(Run(init), e, k)
  {
    var s, v := Run(init), Newest(init, k);
    MemoryIsNewest(init);
    hide Run, Newest, Arrived, Held;
    if Discards(s, e, k) {
      var id :| id in s.mem && s.mem[id].key == k;
      assert s.mem[id] == Row(k, v);
      DiscardLoses(s, k, v);
    } else {
      StepReads(s, e, k, v);
    }
  }

  /** A reader finds the newest value of every key. */
  ghost predicate ReadsNewest(events: seq<Event>) {
    forall k :: k in Arrived(events) ==> Reads(Run(events), k, Newest(events, k))
  }

  ghost predicate NeverDiscards(events: seq<Event>) {
    forall i, k :: 0 <= i < |events| ==> !Discards(Run(events[..i]), events[i], k)
  }

  lemma {:induction false} LegalTake(events: seq<Event>, n: nat)
    requires Legal(events) && n <= |events|
    ensures Legal(events[..n])
  {
    var init := events[..n];
    assert forall i :: 0 <= i < n ==> init[..i] == events[..i] && init[i] == events[i];
  }

  /** Over a whole run: a reader finds the newest values at every point exactly if no deletion of the run
      removes a row from memory that differs from the disk's row of its key. */
  lemma NewestKeptIff(events: seq<Event>)
    requires Legal(events)
    ensures (forall n :: 0 <= n <= |events| ==> ReadsNewest(events[..n])) <==> NeverDiscards(events)
  {
    if NeverDiscards(events) {
      forall n | 0 <= n <= |events| ensures ReadsNewest(events[..n]) {
        NothingLost(events, n);
      }
    }
    forall i, k | 0 <= i < |events| && Discards(Run(events[..i]), events[i], k)
      ensures !ReadsNewest(events[..i + 1])
    {
      LossSeen(events, i, k);
    }
  }

  lemma NothingLost(events: seq<Event>, n: nat)
    requires Legal(events) && NeverDiscards(events) && n <= |events|
    ensures ReadsNewest(events[..n])
  {
    hide Run, Reads, Newest, Discards, Legal, Arrived;
    LegalTake(events, n);
    var init := events[..n];
    assert forall i :: 0 <= i < n ==> init[..i] == events[..i] && init[i] == events[i];
    forall k | k in Arrived(init) ensures Reads(Run(init), k, Newest(init, k)) {
      LostIff(init, k);
    }
  }

  lemma LossSeen(events: seq<Event>, i: nat, k: Key)
    requires Legal(events) && i < |events| && Discards(Run(events[..i]), events[i], k)
    ensures !ReadsNewest(events[..i + 1])
  {
    hide Run, Reads, Newest, Discards, Legal, Arrived;
    var upto := events[..i + 1];
    assert upto[..i] == events[..i];
    LegalTake(events, i + 1);
    DiscardedArrived(events, i, k);
    assert DiscardedAt(upto, k, i);
    LostIff(upto, k);
  }

  lemma DiscardedArrived(events: seq<Event>, i: nat, k: Key)
    requires Legal(events) && i < |events| && Discards(Run(events[..i]), events[i], k)
    ensures k in Arrived(events[..i + 1])
  {
    hide Run, Newest, Legal, Arrived;
    var upto := events[..i + 1];
    assert upto[..i] == events[..i];
    LegalTake(events, i);
    HistoryConserved(events[..i]);
    ArrivedNext(upto);
  }

  /** A condition on the arrivals alone that rules the loss out: no row contradicts, when it arrives, the
      row then on disk under its key. */
  lemma UncontradictedKept(events: seq<Event>)
    requires Legal(events) && NeverContradicts(events)
    ensures ReadsNewest(events)
  {
    DiskUpToDateIff(events);
    assert events[..|events|] == events;
    assert DiskNewest(events);
    MemoryIsNewest(events);
    HistoryConserved(events);
    hide Newest, Arrived, Legal, Run;
    forall k | k in Arrived(events) ensures Reads(Run(events), k, Newest(events, k)) {
      if k in MemKeys(Run(events).mem) {
        var id :| id in Run(events).mem && Run(events).mem[id].key == k;
        assert Run(events).mem[id] == Row(k, Newest(events, k));
      }
    }
  }

  lemma RunExtended(events: seq<Event>, e: Event)
    requires Legal(events) && Possible(Run(events), e)
    ensures Legal(events + [e]) && Run(events + [e]) == Step(Run(events), e)
  {
    var more := events + [e];
    assert more[..|events|] == events;
    assert forall i :: 0 <= i < |events| ==> more[..i] == events[..i] && more[i] == events[i];
  }

  lemma {:induction false} CopiedOne(id: nat, r: Row, disk: map<Key, string>, n: nat)
    ensures Copied(map[id := r], disk, n) == if id <= n && r.key !in disk then disk[r.key := r.value] else disk
  {
    if n > 0 {
      CopiedOne(id, r, disk, n - 1);
    }
  }

  lemma NewestExtended(events: seq<Event>, e: Event, k: Key)
    requires k in Arrived(events) && !e.Arrives?
    ensures k in Arrived(events + [e]) && Newest(events + [e], k) == Newest(events, k)
  {
    var more := events + [e];
    ArrivedNext(more);
    assert more[..|more| - 1] == events;
  }

  /** One synchronisation that goes through, of a memory that holds one row. */
  lemma RunSynced(events: seq<Event>, id: nat, r: Row)
    requires Legal(events) && Run(events).phase == Idle && Run(events).mem == map[id := r] && id > 0
    requires r.key in Arrived(events)
    ensures var more := events + [Begins(id)] + [Copies(true)] + [Deletes(true)]; var s := Run(events);
            && Legal(more) && r.key in Arrived(more) && Newest(more, r.key) == Newest(events, r.key)
            && Run(more) == State(map[], if r.key in s.disk then s.disk else s.disk[r.key := r.value], s.lastId, Idle)
  {
    hide Legal, Copied, Run, Newest, Arrived;
    var begun := events + [Begins(id)];
    var copied := begun + [Copies(true)];
    RunExtended(events, Begins(id));
    RunExtended(begun, Copies(true));
    RunExtended(copied, Deletes(true));
    CopiedOne(id, r, Run(events).disk, id);
    NewestExtended(events, Begins(id), r.key);
    NewestExtended(begun, Copies(true), r.key);
    NewestExtended(copied, Deletes(true), r.key);
  }

  lemma RunArrival(events: seq<Event>, r: Row)
    requires Legal(events) && Run(events).mem == map[]
    ensures var more := events + [Arrives(r)]; var s := Run(events);
            && Legal(more) && r.key in Arrived(more) && Newest(more, r.key) == r.value
            && Run(more) == State(map[s.lastId + 1 := r], s.disk, s.lastId + 1, s.phase)
  {
    hide Legal;
    RunExtended(events, Arrives(r));
    assert (events + [Arrives(r)])[|events|] == Arrives(r);
  }

  /** A correction that arrives after its row was moved to disk is lost by the next synchronisation. */
  lemma CorrectionLost(k: Key, was: string, now: string) returns (events: seq<Event>)
    requires was != now
    ensures Legal(events) && k in Arrived(events) && Newest(events, k) == now
    ensures Run(events).mem == map[] && Run(events).disk == map[k := was]
    ensures !Reads(Run(events), k, now) && Lost(events, k)
  {
    events := [];
    assert Run(events) == EMPTY;
    hide Legal, Run, Newest, Arrived;
    RunArrival(events, Row(k, was));
    events := events + [Arrives(Row(k, was))];
    RunSynced(events, 1, Row(k, was));
    events := events + [Begins(1)] + [Copies(true)] + [Deletes(true)];
    RunArrival(events, Row(k, now));
    events := events + [Arrives(Row(k, now))];
    RunSynced(events, 2, Row(k, now));
    events := events + [Begins(2)] + [Copies(true)] + [Deletes(true)];
    LostIff(events, k);
  }
}

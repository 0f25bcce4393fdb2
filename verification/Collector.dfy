/** The collection scheduler: the task table, the heap of waiting tasks, the collects in flight,
    the one-slot wake channel and the dispatch loop. Every lock-protected section of the source is
    one method here; the methods may be called in any order. */
module Collectors {
  import opened Basics
  import opened Devices
  import opened DeviceSync
  import opened TaskHeaps
  import opened HeapOrder

  /** Where the dispatch loop is: about to take the lock, waiting for a wake token only, or
      waiting for a token or a timer. */
  datatype LoopState = Ready | Idle | Timed(due: int)

  datatype Action = Unchanged | Added | Updated | Removed

  /** `defaultCollectConcurrency`: the number from 1 to 8 that is nearest to the number of processors. */
  function DefaultConcurrency(procs: int): (n: int)
    ensures 1 <= n <= 8
    ensures forall k :: 1 <= k <= 8 ==> Distance(n, procs) <= Distance(k, procs)
  {
    if procs <= 1 then 1 else if procs > 8 then 8 else procs
  }

  /** Every waiting task is the current one of its device, and every current task is either
      waiting or in flight, not both. A stale task can only be in flight. */
  ghost predicate Linked(tasks: map<int, Task>, waiting: set<Task>, inFlight: set<Task>) {
    && (forall t :: t in waiting ==> t.id in tasks && tasks[t.id] == t)
    && (forall id :: id in tasks ==>
          tasks[id].id == id && (tasks[id] in waiting <==> tasks[id] !in inFlight))
    && waiting !! inFlight
  }

  lemma LinkedTask(tasks: map<int, Task>, waiting: set<Task>, inFlight: set<Task>, id: int)
    requires Linked(tasks, waiting, inFlight) && id in tasks
    ensures tasks[id].id == id && (tasks[id] in waiting <==> tasks[id] !in inFlight)
  {
  }

  lemma LinkedDistinct(tasks: map<int, Task>, waiting: set<Task>, inFlight: set<Task>)
    requires Linked(tasks, waiting, inFlight)
    ensures waiting !! inFlight
    ensures forall i, j :: i in tasks && j in tasks && i != j ==> tasks[i] != tasks[j]
  {
  }

  lemma LinkedAdd(tasks: map<int, Task>, waiting: set<Task>, inFlight: set<Task>, t: Task)
    requires Linked(tasks, waiting, inFlight) && t.id !in tasks && t !in waiting && t !in inFlight
    ensures Linked(tasks[t.id := t], waiting + {t}, inFlight)
  {
  }

  lemma LinkedRemove(tasks: map<int, Task>, waiting: set<Task>, inFlight: set<Task>, id: int)
    requires Linked(tasks, waiting, inFlight)
    ensures id in tasks ==> Linked(tasks - {id}, waiting - {tasks[id]}, inFlight)
    ensures id !in tasks || tasks[id] !in waiting ==> Linked(tasks - {id}, waiting, inFlight)
  {
  }

  lemma LinkedStart(tasks: map<int, Task>, waiting: set<Task>, inFlight: set<Task>, t: Task)
    requires Linked(tasks, waiting, inFlight) && t in waiting
    ensures t.id in tasks && tasks[t.id] == t && t !in inFlight
    ensures Linked(tasks, waiting - {t}, inFlight + {t})
  {
  }

  lemma LinkedFinish(tasks: map<int, Task>, waiting: set<Task>, inFlight: set<Task>, t: Task)
    requires Linked(tasks, waiting, inFlight) && t in inFlight
    ensures t !in waiting
    ensures t.id in tasks && tasks[t.id] == t ==> Linked(tasks, waiting + {t}, inFlight - {t})
    ensures !(t.id in tasks && tasks[t.id] == t) ==> Linked(tasks, waiting, inFlight - {t})
  {
  }

  class Collector {
    var heap: TaskHeap
    var tasks: map<int, Task>
    var active: int
    var limit: int
    var wake: bool
    var loop: LoopState
    // The collect goroutines that have started and not finished, by the task they hold.
    var inFlight: set<Task>
    // The largest limit ever set.
    ghost var peak: int

    /** `isTaskCurrentLocked` */
    predicate Current(t: Task)
      reads this, t
    {
      t.device.id in tasks && tasks[t.device.id] == t
    }

    /** The scheduler invariant, apart from wakeups. */
    ghost predicate Core()
      reads this, heap, heap.contents, heap.items, inFlight
    {
      && heap.Valid()
      && Linked(tasks, heap.contents, inFlight)
      && (forall t :: t in heap.contents ==> t.device.id == t.id)
      && (forall t :: t in inFlight ==> t.device.id == t.id && t.index == -1)
      && active == |inFlight| <= peak
      && 0 < limit <= peak
    }

    /** No lost wakeup: a loop that waits without a pending token has nothing it could start. */
    ghost predicate WakeOk()
      reads this, heap, heap.items
    {
      match loop
      case Idle => wake || heap.items == [] || limit <= active
      case Timed(due) => wake || heap.items == [] || due <= heap.items[0].nextRun
      case Ready => true
    }

    ghost predicate Valid()
      reads this, heap, heap.contents, heap.items, inFlight
    {
      Core() && WakeOk()
    }

    ghost function TableView(): Table
      reads this, tasks.Values
    {
      Views(tasks)
    }

    /** A started collector without tasks. */
    constructor (procs: int)
      ensures Valid() && TableView() == map[] && inFlight == {} && loop == Ready && !wake
      ensures limit == DefaultConcurrency(procs)
      ensures fresh(heap)
    {
      heap := new TaskHeap();
      tasks := map[];
      active := 0;
      limit := DefaultConcurrency(procs);
      wake := false;
      loop := Ready;
      inFlight := {};
      peak := DefaultConcurrency(procs);
    }

    /** `notifyTaskChangedLocked`: a non-blocking send on the one-slot channel. */
    method Notify()
      modifies this`wake
      ensures wake && WakeOk() && (old(Core()) ==> Core())
    {
      wake := true;
    }

    /** `refreshTaskLocked` */
    method Refresh(id: int, d: Device, now: int)
      requires Core() && id in tasks && d.id == id
      modifies heap`items, heap.contents`index, tasks[id]
      ensures Core()
      ensures TableView() == old(TableView())[id := FreshTask(d, now)]
    {
      hide TaskHeap.Valid, Linked;
      LinkedTask(tasks, heap.contents, inFlight, id);
      LinkedDistinct(tasks, heap.contents, inFlight);
      Rebuild(heap, tasks[id], d, now);
      assert forall i :: i in tasks && i != id ==> ViewOf(tasks[i]) == old(ViewOf(tasks[i]));
    }

    /** The adding branch of `upsertTaskLocked`. */
    method AddTask(d: Device, now: int)
      requires Core() && d.id !in tasks
      modifies this`tasks, heap, heap.contents`index
      ensures Core() && fresh(heap.contents - old(heap.contents))
      ensures TableView() == old(TableView())[d.id := FreshTask(d, now)]
      ensures d.id in tasks && tasks == old(tasks)[d.id := tasks[d.id]]
    {
      hide TaskHeap.Valid, Linked, Views;
      var t := new Task(d, now);
      LinkedDistinct(tasks, heap.contents, inFlight);
      LinkedAdd(tasks, heap.contents, inFlight, t);
      tasks := tasks[d.id := t];
      heap.HeapPush(t);
      ViewsKept(old(tasks));
      ViewsAdd(old(tasks), d.id, t);
    }

    /** `upsertTaskLocked` */
    method UpsertTask(d: Device, now: int) returns (action: Action)
      requires Core()
      modifies this`tasks, heap, heap.contents, inFlight
      ensures Core() && fresh(heap.contents - old(heap.contents))
      ensures TableView() == Upsert(old(TableView()), d, now)
      ensures forall id :: id in old(tasks) ==> id in tasks && tasks[id] == old(tasks[id])
      ensures action == Unchanged && old(WakeOk()) ==> WakeOk()
    {
      if d.id !in tasks {
        AddTask(d, now);
        return Added;
      }
      if UpToDate(ViewOf(tasks[d.id]), d) {
        return Unchanged;
      }
      LinkedTask(tasks, heap.contents, inFlight, d.id);
      hide Core;
      Refresh(d.id, d, now);
      return Updated;
    }

    /** `removeTaskLocked` */
    method RemoveTask(id: int)
      requires Core()
      modifies this`tasks, heap, heap.contents`index
      ensures Core() && heap.contents <= old(heap.contents)
      ensures TableView() == old(TableView()) - {id}
      ensures tasks == old(tasks) - {id}
      ensures id !in old(tasks) && old(WakeOk()) ==> WakeOk()
    {
      hide TaskHeap.Valid, Linked, Views;
      LinkedDistinct(tasks, heap.contents, inFlight);
      LinkedRemove(tasks, heap.contents, inFlight, id);
      heap.WaitingIndex();
      if id in tasks && tasks[id].index >= 0 {
        LinkedTask(tasks, heap.contents, inFlight, id);
        heap.RemoveAt(tasks[id]);
      }
      tasks := tasks - {id};
      ViewsKept(old(tasks));
      ViewsRemove(old(tasks), id);
    }

    /** `syncDeviceTaskLocked` */
    method SyncDeviceTask(d: Device, now: int) returns (action: Action)
      requires Core()
      modifies this`tasks, heap, heap.contents, inFlight
      ensures Core() && fresh(heap.contents - old(heap.contents))
      ensures TableView() == SyncOne(old(TableView()), d, now)
      ensures forall id :: id in old(tasks) && (id != d.id || d.enabled == 1) ==>
                id in tasks && tasks[id] == old(tasks[id])
      ensures action == Unchanged && old(WakeOk()) ==> WakeOk()
    {
      hide Core, WakeOk, Upsert, Views;
      if d.enabled == 1 {
        action := UpsertTask(d, now);
      } else {
        action := if d.id in tasks then Removed else Unchanged;
        RemoveTask(d.id);
      }
    }

    /** `pruneMissingTasksLocked`: drops the tasks of devices that are no longer listed. */
    method PruneMissing(seen: set<int>) returns (removed: nat)
      requires Core()
      modifies this`tasks, heap, heap.contents`index
      ensures Core() && heap.contents <= old(heap.contents)
      ensures TableView() == map id | id in old(TableView()) && id in seen :: old(TableView())[id]
      ensures tasks == map id | id in old(tasks) && id in seen :: old(tasks)[id]
      ensures removed == 0 && old(WakeOk()) ==> WakeOk()
    {
      hide Core, WakeOk, Views;
      removed := 0;
      ghost var table := TableView();
      var ids := tasks.Keys;
      ViewsKeys(tasks);
      while ids != {}
        invariant Core() && heap.contents <= old(heap.contents) && ids <= tasks.Keys
        invariant tasks == map id | id in old(tasks) && (id in seen || id in ids) :: old(tasks)[id]
        invariant TableView() == map id | id in table && (id in seen || id in ids) :: table[id]
        invariant removed == 0 && old(WakeOk()) ==> WakeOk()
        decreases ids
      {
        var id := AnyOf(ids);
        ids := ids - {id};
        if id !in seen {
          RemoveTask(id);
          removed := removed + 1;
        }
      }
    }

    /** `SyncDeviceStatus`, given the device list read from the database. */
    method SyncDevices(devices: seq<Option<Device>>, now: int)
      requires Valid()
      modifies this`tasks, this`wake, heap, heap.contents, inFlight
      ensures Valid() && fresh(heap.contents - old(heap.contents))
      ensures TableView() == Sync(old(TableView()), devices, now)
      ensures forall id :: id in old(tasks) && id in SeenIds(devices) && AlwaysEnabled(devices, id) ==>
                id in tasks && tasks[id] == old(tasks[id])
      ensures DistinctIds(devices) ==> MatchesEnabled(old(TableView()), devices, now, TableView())
    {
      TableKeyed();
      ghost var table := TableView();
      hide Core, WakeOk, Views, MatchesEnabled, Keyed, AlwaysEnabled, DistinctIds, SyncListed;
      var changed, seen := SyncListedDevices(devices, now);
      var removed := PruneMissing(seen);
      if changed || removed > 0 {
        Notify();
      }
      if DistinctIds(devices) {
        SyncMatchesEnabled(table, devices, now);
      }
    }

    /** The loop over the listed devices. */
    method SyncListedDevices(devices: seq<Option<Device>>, now: int) returns (changed: bool, seen: set<int>)
      requires Valid()
      modifies this`tasks, heap, heap.contents, inFlight
      ensures Core() && fresh(heap.contents - old(heap.contents))
      ensures TableView() == SyncListed(old(TableView()), devices, now)
      ensures seen == SeenIds(devices) && (!changed ==> WakeOk())
      ensures forall id :: id in old(tasks) && AlwaysEnabled(devices, id) ==>
                id in tasks && tasks[id] == old(tasks[id])
    {
      hide Core, WakeOk, Views;
      changed, seen := false, {};
      var i := 0;
      ghost var table := TableView();
      while i < |devices|
        invariant 0 <= i <= |devices|
        invariant Core() && fresh(heap.contents - old(heap.contents))
        invariant TableView() == SyncListed(table, devices[..i], now)
        invariant seen == SeenIds(devices[..i])
        invariant forall id :: id in old(tasks) && AlwaysEnabled(devices[..i], id) ==>
                    id in tasks && tasks[id] == old(tasks[id])
        invariant !changed ==> WakeOk()
      {
        assert devices[..i + 1][..i] == devices[..i];
        if devices[i].Some? {
          seen := seen + {devices[i].value.id};
          var action := SyncDeviceTask(devices[i].value, now);
          changed := changed || action != Unchanged;
        }
        i := i + 1;
      }
      assert devices[..i] == devices;
    }

    /** Every task is listed under the id of its device. */
    lemma TableKeyed()
      requires Core()
      ensures Keyed(TableView())
    {
    }

    /** No lost wakeup, spelled out: a loop blocked without a token has no waiting task or no
        capacity, and a loop blocked on a timer has no task due before it. */
    lemma NoLostWakeup()
      requires Valid() && !wake
      ensures loop == Idle ==> heap.contents == {} || limit <= active
      ensures loop.Timed? ==> forall t :: t in heap.contents ==> loop.due <= t.nextRun
    {
      if heap.items != [] {
        heap.RootLeast();
      }
    }

    /** The table, the heap and the in-flight set, spelled out: no task is queued twice, a task's
        index is its heap position (-1 in flight), every queued task is current, every current task
        is queued or in flight but not both, and the counter counts the collects in flight. */
    lemma Bookkeeping()
      requires Valid()
      ensures forall i, j :: 0 <= i < j < |heap.items| ==> heap.items[i] != heap.items[j]
      ensures forall i :: 0 <= i < |heap.items| ==> heap.items[i].index == i && Current(heap.items[i])
      ensures forall id :: id in tasks ==> (tasks[id] in heap.items) != (tasks[id] in inFlight)
      ensures forall t :: t in inFlight ==> t.index == -1
      ensures active == |inFlight| <= peak
    {
      hide Ordered;
      assert forall t :: t in heap.items <==> t in heap.contents;
    }

    lemma Counted()
      requires Core()
      ensures active == |inFlight| <= peak && limit <= peak
      ensures forall i :: 0 <= i < |heap.items| ==> heap.items[i] in heap.contents
    {
    }

    /** `peekNextCurrentTaskLocked`. The source's loop would discard a stale head; the invariant
        leaves it none to discard. */
    method PeekNext() returns (t: Task?)
      requires Core()
      ensures t == if heap.items == [] then null else heap.items[0]
    {
      hide Linked;
      if heap.items == [] {
        return null;
      }
      t := heap.items[0];
      LinkedStart(tasks, heap.contents, inFlight, t);
      if !Current(t) {
        assert false;
      }
    }

    /** `popNextCurrentTaskLocked` followed by `tryStartCollectTaskLocked`, which cannot fail
        there: the popped task is current and the capacity was checked under the same lock. */
    method PopAndStart() returns (t: Task)
      requires Core() && heap.items != [] && active < limit
      modifies this`active, this`inFlight, heap, heap.contents`index
      ensures Core() && t == old(heap.items[0]) && old(heap.Least(heap.items[0]))
      ensures t in old(heap.contents) && heap.contents == old(heap.contents) - {t}
      ensures t !in old(inFlight) && inFlight == old(inFlight) + {t}
    {
      hide TaskHeap.Valid, Linked, TaskHeap.Least;
      LinkedDistinct(tasks, heap.contents, inFlight);
      t := heap.HeapPop();
      LinkedStart(tasks, old(heap.contents), inFlight, t);
      if !Current(t) || limit <= active {
        assert false;
      }
      active := active + 1;
      inFlight := inFlight + {t};
    }

    /** One turn of `executeLoop` under the lock: start the earliest task if it is due and there is
        capacity, else decide what to wait for. */
    method LoopTurn(now: int) returns (t: Task?)
      requires Valid() && loop == Ready
      modifies this`active, this`inFlight, this`loop, heap, heap.contents`index
      ensures Valid()
      ensures t != null <==> old(heap.items != [] && heap.items[0].nextRun <= now && active < limit)
      ensures t != null ==>
        && t == old(heap.items[0]) && old(heap.Least(heap.items[0]))
        && t in old(heap.contents) && heap.contents == old(heap.contents) - {t}
        && t !in old(inFlight) && inFlight == old(inFlight) + {t} && 0 < |inFlight| <= limit
        && loop == Ready
      ensures t == null ==>
        && heap.items == old(heap.items) && heap.contents == old(heap.contents) && inFlight == old(inFlight)
        && loop == if heap.items != [] && now < heap.items[0].nextRun then Timed(heap.items[0].nextRun) else Idle
    {
      hide TaskHeap.Valid, Linked, TaskHeap.Least;
      t := PeekNext();
      if t == null {
        loop := Idle;
      } else if now < t.nextRun {
        loop := Timed(t.nextRun);
        t := null;
      } else if limit <= active {
        loop := Idle;
        t := null;
      } else {
        t := PopAndStart();
      }
    }

    /** `waitForStopOrWake` returns because it received the token. */
    method TakeWake()
      requires Valid() && (loop == Idle || loop.Timed?) && wake
      modifies this`wake, this`loop
      ensures Valid() && loop == Ready && !wake
    {
      hide TaskHeap.Valid, Linked;
      wake := false;
      loop := Ready;
    }

    /** `waitForStopOrWake` returns because the timer fired, at its due time or later. */
    method TimerFires(now: int)
      requires Valid() && loop.Timed? && loop.due <= now
      modifies this`loop
      ensures Valid() && loop == Ready
    {
      hide TaskHeap.Valid, Linked;
      loop := Ready;
    }

    /** The end of a collect whose task is still the current one of its device. */
    method EndCurrent(t: Task, now: int)
      requires Core() && t in inFlight && Current(t)
      modifies this`active, this`inFlight, heap, heap.contents`index, t
      ensures Core() && inFlight == old(inFlight) - {t} && active == old(active) - 1
      ensures heap.contents == old(heap.contents) + {t}
      ensures ViewOf(t) == old(ViewOf(t)).(nextRun := now + t.interval)
    {
      hide TaskHeap.Valid, Linked;
      LinkedDistinct(tasks, heap.contents, inFlight);
      LinkedFinish(tasks, heap.contents, inFlight, t);
      inFlight := inFlight - {t};
      active := active - 1;
      Requeue(heap, t, now + t.interval);
    }

    /** The end of a collect whose task was removed or replaced meanwhile. */
    method EndStale(t: Task)
      requires Core() && t in inFlight && !Current(t)
      modifies this`active, this`inFlight
      ensures Core() && inFlight == old(inFlight) - {t} && active == old(active) - 1
    {
      hide TaskHeap.Valid, Linked;
      LinkedFinish(tasks, heap.contents, inFlight, t);
      inFlight := inFlight - {t};
      active := active - 1;
    }

    /** `finishCollectTask`: a collect ends; its task waits again unless it has become stale. The
        source's guard against a negative counter never takes effect. */
    method Finish(t: Task, now: int)
      requires Valid() && t in inFlight
      modifies this`active, this`inFlight, this`wake, heap, heap.contents`index, t
      ensures Valid() && wake
      ensures inFlight == old(inFlight) - {t} && active == old(active) - 1
      ensures heap.contents == old(heap.contents) + if old(Current(t)) then {t} else {}
      ensures ViewOf(t) == if old(Current(t)) then old(ViewOf(t)).(nextRun := now + t.interval)
                           else old(ViewOf(t))
    {
      hide Core, WakeOk;
      if Current(t) {
        EndCurrent(t, now);
      } else {
        EndStale(t);
      }
      Notify();
    }

    /** `SetMaxConcurrentCollects` */
    method SetLimit(n: int, procs: int)
      requires Valid()
      modifies this`limit, this`wake, this`peak
      ensures Valid() && wake && limit == (if n <= 0 then DefaultConcurrency(procs) else n)
      ensures peak == if limit > old(peak) then limit else old(peak)
    {
      hide TaskHeap.Valid, Linked;
      limit := if n <= 0 then DefaultConcurrency(procs) else n;
      peak := if limit > peak then limit else peak;
      Notify();
    }
  }

  /** What can happen to a running collector: a device synchronisation, the end of some collect, a
      change of the limit, a turn of the dispatch loop, the receipt of a wake token, a timer. */
  datatype Event =
    | DevicesListed(devices: seq<Option<Device>>)
    | CollectEnds
    | LimitSet(n: int)
    | LoopRuns
    | TokenReceived
    | TimerExpires

  /** One task start: when, the due time it had, the due times of the tasks left waiting, how many
      collects were then in flight, and the limit. */
  datatype Start = Start(at: int, due: int, others: seq<int>, running: int, limit: int)

  /** The task was due, no waiting task was due before it, and the limit was kept. */
  predicate InOrder(s: Start) {
    && s.due <= s.at && 0 < s.running <= s.limit
    && forall i :: 0 <= i < |s.others| ==> s.due <= s.others[i]
  }

  /** Any run: the events of the script happen one after the other, each some time after the one
      before; an event that is not possible where it stands is skipped, and which of several
      collects ends is arbitrary. The invariant holds after every run, so in every reachable state,
      and every start of a run was due, the earliest of the tasks then waiting, and within the limit. */
  method Run(c: Collector, script: seq<(Event, nat)>, procs: int, begin: int)
    returns (now: int, starts: seq<Start>)
    requires c.Valid()
    modifies c, c.heap, c.heap.contents, c.inFlight
    ensures c.Valid() && begin <= now && |c.inFlight| <= c.peak
    ensures forall i :: 0 <= i < |starts| ==>
              InOrder(starts[i]) && starts[i].at <= now && starts[i].limit <= c.peak
  {
    hide Collector.Core, Collector.WakeOk, Collector.TableView, Sync, InOrder;
    now := begin;
    starts := [];
    var heap := c.heap;
    for i := 0 to |script|
      invariant c.Valid() && c.heap == heap && begin <= now
      invariant fresh((c.heap.contents + c.inFlight) - old(c.heap.contents + c.inFlight))
      invariant forall i :: 0 <= i < |starts| ==>
                  InOrder(starts[i]) && starts[i].at <= now && starts[i].limit <= c.peak
    {
      now := now + script[i].1;
      var started := Happens(c, script[i].0, procs, now);
      starts := starts + started;
    }
    c.Counted();
  }

  /** A turn of the dispatch loop, with what it starts. */
  method Dispatch(c: Collector, now: int) returns (started: seq<Start>)
    requires c.Valid() && c.loop == Ready
    modifies c`active, c`inFlight, c`loop, c.heap, c.heap.contents`index
    ensures c.Valid()
    ensures c.heap.contents + c.inFlight == old(c.heap.contents + c.inFlight)
    ensures forall s :: s in started ==>
              InOrder(s) && s.at == now && s.limit <= c.peak
  {
    hide Collector.Core, Collector.WakeOk;
    started := [];
    var t := c.LoopTurn(now);
    if t != null {
      c.Counted();
      started := [Start(now, t.nextRun, c.heap.Keys(), |c.inFlight|, c.limit)];
    }
  }

  method Happens(c: Collector, event: Event, procs: int, now: int) returns (started: seq<Start>)
    requires c.Valid()
    modifies c, c.heap, c.heap.contents, c.inFlight
    ensures c.Valid() && c.heap == old(c.heap) && old(c.peak) <= c.peak
    ensures fresh((c.heap.contents + c.inFlight) - old(c.heap.contents + c.inFlight))
    ensures forall s :: s in started ==>
              InOrder(s) && s.at == now && s.limit <= c.peak
  {
    hide Collector.Core, Collector.WakeOk, Collector.TableView, Sync;
    started := [];
    match event
    case DevicesListed(devices) =>
      c.SyncDevices(devices, now);
    case CollectEnds =>
      if c.inFlight != {} {
        var t := AnyOf(c.inFlight);
        c.Finish(t, now);
      }
    case LimitSet(n) =>
      c.SetLimit(n, procs);
    case LoopRuns =>
      if c.loop == Ready {
        started := Dispatch(c, now);
      }
    case TokenReceived =>
      if (c.loop == Idle || c.loop.Timed?) && c.wake {
        c.TakeWake();
      }
    case TimerExpires =>
      if c.loop.Timed? && c.loop.due <= now {
        c.TimerFires(now);
      }
  }

  /** Puts a finished task back with a new due time. */
  method Requeue(heap: TaskHeap, t: Task, due: int)
    requires heap.Valid() && t !in heap.contents
    modifies heap, heap.contents`index, t
    ensures heap.Valid() && heap.contents == old(heap.contents) + {t}
    ensures ViewOf(t) == old(ViewOf(t)).(nextRun := due)
  {
    hide Ordered;
    t.nextRun := due;
    assert heap.Keys() == old(heap.Keys());
    heap.HeapPush(t);
  }

  predicate AlwaysEnabled(devices: seq<Option<Device>>, id: int) {
    forall i :: 0 <= i < |devices| && devices[i].Some? && devices[i].value.id == id ==>
      devices[i].value.enabled == 1
  }

  function ViewOf(t: Task): TaskView
    reads t
  {
    TaskView(t.device, t.interval, t.storageInterval, t.nextRun)
  }

  ghost function Views(tasks: map<int, Task>): Table
    reads tasks.Values
  {
    map id | id in tasks :: ViewOf(tasks[id])
  }

  lemma ViewsKeys(tasks: map<int, Task>)
    ensures Views(tasks).Keys == tasks.Keys
  {
  }

  lemma ViewsAdd(tasks: map<int, Task>, id: int, t: Task)
    ensures Views(tasks[id := t]) == Views(tasks)[id := ViewOf(t)]
  {
  }

  lemma ViewsRemove(tasks: map<int, Task>, id: int)
    ensures Views(tasks - {id}) == Views(tasks) - {id}
  {
  }

  /** Heap operations move tasks around without changing what they are. */
  twostate lemma ViewsKept(tasks: map<int, Task>)
    requires forall i :: i in tasks ==> ViewOf(tasks[i]) == old(ViewOf(tasks[i]))
    ensures Views(tasks) == old(Views(tasks))
  {
    assert forall i :: i in Views(tasks) ==> Views(tasks)[i] == old(Views(tasks))[i];
  }

  /** Gives a waiting or in-flight task a new configuration and due time. */
  method Rebuild(heap: TaskHeap, t: Task, d: Device, now: int)
    requires heap.Valid() && (t in heap.contents || t.index == -1)
    modifies heap`items, heap.contents`index, t
    ensures heap.Valid() && ViewOf(t) == FreshTask(d, now)
    ensures t.index == -1 <==> t !in heap.contents
  {
    hide OrderedAround, Ordered, Edge;
    t.device := d;
    t.interval := CollectInterval(d.collectInterval);
    t.storageInterval := StorageInterval(d.storageInterval);
    t.nextRun := now + t.interval;
    if t.index >= 0 {
      ChangeOne(old(heap.Keys()), heap.Keys(), t.index);
      heap.HeapFix(t.index, |heap.items|);
    } else {
      assert heap.Keys() == old(heap.Keys());
    }
  }
}

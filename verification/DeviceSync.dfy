/** What one device synchronisation does to the scheduler's task table, on values: each task is
    its configuration and due time, and the table maps device ids to tasks. */
module DeviceSync {
  import opened Basics
  import opened Devices

  datatype TaskView = TaskView(device: Device, interval: int, storageInterval: int, nextRun: int)

  type Table = map<int, TaskView>

  /** The task of a device whose configuration was (re)read at time `now`. */
  function FreshTask(d: Device, now: int): TaskView {
    var interval := CollectInterval(d.collectInterval);
    TaskView(d, interval, StorageInterval(d.storageInterval), now + interval)
  }

  /** `!shouldRefreshCollectTask` */
  predicate UpToDate(t: TaskView, d: Device) {
    && t.interval == CollectInterval(d.collectInterval)
    && t.storageInterval == StorageInterval(d.storageInterval)
    && SameConfig(t.device, d)
  }

  function Upsert(m: Table, d: Device, now: int): Table {
    if d.id in m && UpToDate(m[d.id], d) then m else m[d.id := FreshTask(d, now)]
  }

  function SyncOne(m: Table, d: Device, now: int): Table {
    if d.enabled == 1 then Upsert(m, d, now) else m - {d.id}
  }

  /** The loop over the listed devices; a nil entry is skipped. */
  function SyncListed(m: Table, devices: seq<Option<Device>>, now: int): Table {
    if devices == [] then m
    else
      var m' := SyncListed(m, devices[..|devices| - 1], now);
      match devices[|devices| - 1]
      case None => m'
      case Some(d) => SyncOne(m', d, now)
  }

  function SeenIds(devices: seq<Option<Device>>): set<int> {
    set i | 0 <= i < |devices| && devices[i].Some? :: devices[i].value.id
  }

  /** `SyncDeviceStatus`: sync the listed devices, then drop the tasks of unlisted ones. */
  function Sync(m: Table, devices: seq<Option<Device>>, now: int): Table {
    var m' := SyncListed(m, devices, now);
    map id | id in m' && id in SeenIds(devices) :: m'[id]
  }

  /** Position `i` holds the last entry for device `id`. */
  predicate LastEntry(devices: seq<Option<Device>>, i: int, id: int) {
    && 0 <= i < |devices| && devices[i].Some? && devices[i].value.id == id
    && forall j :: i < j < |devices| && devices[j].Some? ==> devices[j].value.id != id
  }

  predicate DistinctIds(devices: seq<Option<Device>>) {
    forall i, j :: 0 <= i < j < |devices| && devices[i].Some? && devices[j].Some? ==>
      devices[i].value.id != devices[j].value.id
  }

  /** Every entry for `id` is enabled and agrees with the task. */
  predicate Untouched(t: TaskView, devices: seq<Option<Device>>, id: int) {
    forall i :: 0 <= i < |devices| && devices[i].Some? && devices[i].value.id == id ==>
      devices[i].value.enabled == 1 && UpToDate(t, devices[i].value)
  }

  /** The table and its devices agree on ids. */
  predicate Keyed(m: Table) {
    forall id :: id in m ==> m[id].device.id == id
  }

  /** The last entry for a device decides: its task exists exactly if that entry is enabled, and
      then it carries that entry's configuration. */
  lemma {:induction false} LastEntryWins(m: Table, devices: seq<Option<Device>>, now: int, i: int, id: int)
    requires LastEntry(devices, i, id)
    ensures var m' := SyncListed(m, devices, now);
            && (id in m' <==> devices[i].value.enabled == 1)
            && (id in m' ==> UpToDate(m'[id], devices[i].value))
  {
    if i < |devices| - 1 {
      LastEntryWins(m, devices[..|devices| - 1], now, i, id);
    }
  }

  lemma {:induction false} UntouchedKept(m: Table, devices: seq<Option<Device>>, now: int, id: int)
    requires id in m && Untouched(m[id], devices, id)
    ensures id in SyncListed(m, devices, now) && SyncListed(m, devices, now)[id] == m[id]
  {
    if devices != [] {
      UntouchedKept(m, devices[..|devices| - 1], now, id);
    }
  }

  lemma {:induction false} KeyedKept(m: Table, devices: seq<Option<Device>>, now: int)
    requires Keyed(m)
    ensures Keyed(SyncListed(m, devices, now))
  {
    if devices != [] {
      KeyedKept(m, devices[..|devices| - 1], now);
    }
  }

  lemma {:induction false} LastEntryExists(devices: seq<Option<Device>>, id: int) returns (i: int)
    requires id in SeenIds(devices)
    ensures LastEntry(devices, i, id)
  {
    var n := |devices| - 1;
    if devices[n].Some? && devices[n].value.id == id {
      i := n;
    } else {
      i := LastEntryExists(devices[..n], id);
    }
  }

  /** After a synchronisation the tasks are exactly those of the devices whose last entry is
      enabled, each carries its device's configuration, and tasks that already agreed with every
      entry for their device are kept as they were, due time included. */
  lemma SyncMeetsDevices(m: Table, devices: seq<Option<Device>>, now: int)
    requires Keyed(m)
    ensures var m' := Sync(m, devices, now);
            && Keyed(m')
            && (forall id :: id in m' ==> exists i :: LastEntry(devices, i, id) && devices[i].value.enabled == 1)
            && (forall i, id :: LastEntry(devices, i, id) ==> (id in m' <==> devices[i].value.enabled == 1))
            && (forall i, id :: LastEntry(devices, i, id) && id in m' ==> UpToDate(m'[id], devices[i].value))
            && (forall id :: id in m && id in SeenIds(devices) && Untouched(m[id], devices, id) ==>
                  id in m' && m'[id] == m[id])
  {
    var m' := Sync(m, devices, now);
    KeyedKept(m, devices, now);
    forall i, id | LastEntry(devices, i, id)
      ensures id in m' <==> devices[i].value.enabled == 1
      ensures id in m' ==> UpToDate(m'[id], devices[i].value)
    {
      LastEntryWins(m, devices, now, i, id);
      assert id in SeenIds(devices);
    }
    forall id | id in m' ensures exists i :: LastEntry(devices, i, id) && devices[i].value.enabled == 1 {
      var i := LastEntryExists(devices, id);
      assert LastEntry(devices, i, id);
    }
    forall id | id in m && id in SeenIds(devices) && Untouched(m[id], devices, id)
      ensures id in m' && m'[id] == m[id]
    {
      UntouchedKept(m, devices, now, id);
    }
  }

  lemma {:induction false} NotListedKept(m: Table, devices: seq<Option<Device>>, now: int, id: int)
    requires id !in SeenIds(devices)
    ensures id in SyncListed(m, devices, now) <==> id in m
    ensures id in m ==> SyncListed(m, devices, now)[id] == m[id]
  {
    if devices != [] {
      var init, d := devices[..|devices| - 1], devices[|devices| - 1];
      assert forall i :: 0 <= i < |init| ==> init[i] == devices[i];
      NotListedKept(m, init, now, id);
      assert d.Some? ==> d.value.id in SeenIds(devices);
    }
  }

  /** A new or changed device gets a task that is due one interval from now. */
  lemma {:induction false} SoleEntryRebuilt(m: Table, devices: seq<Option<Device>>, now: int, i: nat)
    requires DistinctIds(devices) && i < |devices| && devices[i].Some? && devices[i].value.enabled == 1
    requires !(devices[i].value.id in m && UpToDate(m[devices[i].value.id], devices[i].value))
    ensures var m' := SyncListed(m, devices, now); var id := devices[i].value.id;
            id in m' && m'[id].nextRun == now + m'[id].interval
  {
    var n := |devices| - 1;
    var init := devices[..n];
    if i < n {
      SoleEntryRebuilt(m, init, now, i);
    } else {
      NotListedKept(m, init, now, devices[i].value.id);
    }
  }

  /** The task runs with every setting of the device, whatever its resource is called and whenever it was
      edited: intervals in milliseconds, 5 seconds and 5 minutes where the device sets none. */
  predicate RunsWith(t: TaskView, d: Device) {
    && t.device.(resourceName := d.resourceName, updatedAt := d.updatedAt) == d
    && t.interval == (if d.collectInterval > 0 then d.collectInterval else 5000)
    && t.storageInterval == (if d.storageInterval > 0 then 1000 * d.storageInterval else 300000)
  }

  /** The comparison decides exactly that. */
  lemma UpToDateMeans(t: TaskView, d: Device)
    requires t.device.id == d.id
    ensures UpToDate(t, d) <==> RunsWith(t, d)
  {
  }

  /** Table `m'` is what the devices, listed once each, ask for: the task ids are exactly the ids of the
      enabled devices, and each task runs with every setting of its device. A task that already did is
      kept, due time included, and every other one is due one interval from now. */
  ghost predicate MatchesEnabled(m: Table, devices: seq<Option<Device>>, now: int, m': Table) {
    && m'.Keys == (set i | 0 <= i < |devices| && devices[i].Some? && devices[i].value.enabled == 1
                   :: devices[i].value.id)
    && forall i :: 0 <= i < |devices| && devices[i].Some? && devices[i].value.enabled == 1 ==>
         var d := devices[i].value;
         && d.id in m' && RunsWith(m'[d.id], d)
         && (d.id in m && RunsWith(m[d.id], d) ==> m'[d.id] == m[d.id])
         && (!(d.id in m && RunsWith(m[d.id], d)) ==> m'[d.id].nextRun == now + m'[d.id].interval)
  }

  /** With one entry per device, as the device table's primary key guarantees. */
  lemma SyncMatchesEnabled(m: Table, devices: seq<Option<Device>>, now: int)
    requires Keyed(m) && DistinctIds(devices)
    ensures MatchesEnabled(m, devices, now, Sync(m, devices, now))
  {
    SyncMeetsDevices(m, devices, now);
    var m' := Sync(m, devices, now);
    hide UpToDate, RunsWith, SyncListed;
    forall i | 0 <= i < |devices| && devices[i].Some?
      ensures LastEntry(devices, i, devices[i].value.id) && devices[i].value.id in SeenIds(devices)
    {
    }
    forall i | 0 <= i < |devices| && devices[i].Some? && devices[i].value.enabled == 1
      ensures var d := devices[i].value;
              && d.id in m' && RunsWith(m'[d.id], d)
              && (d.id in m && RunsWith(m[d.id], d) ==> m'[d.id] == m[d.id])
              && (!(d.id in m && RunsWith(m[d.id], d)) ==> m'[d.id].nextRun == now + m'[d.id].interval)
    {
      var d := devices[i].value;
      UpToDateMeans(m'[d.id], d);
      if d.id in m {
        UpToDateMeans(m[d.id], d);
      }
      if !(d.id in m && UpToDate(m[d.id], d)) {
        SoleEntryRebuilt(m, devices, now, i);
      }
    }
  }
}

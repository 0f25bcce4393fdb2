/** The collection scheduler's priority queue: the repository's `taskHeap` (Less, Swap, Push, Pop
    with the back-index kept in each task) under the sift loops of Go's `container/heap`. */
module TaskHeaps {
  import opened Devices
  import opened HeapOrder

  /** A collection task. Tasks are compared by identity: re-adding a device makes a new task. */
  class Task {
    // The id of every device record the task is ever given.
    ghost const id: int
    var device: Device
    var interval: int
    var storageInterval: int
    var nextRun: int
    var index: int

    constructor (device: Device, now: int)
      ensures this.device == device && id == device.id && index == -1
      ensures interval == CollectInterval(device.collectInterval)
      ensures storageInterval == StorageInterval(device.storageInterval)
      ensures nextRun == now + interval
    {
      id := device.id;
      this.device := device;
      interval := CollectInterval(device.collectInterval);
      storageInterval := StorageInterval(device.storageInterval);
      nextRun := now + CollectInterval(device.collectInterval);
      index := -1;
    }
  }

  class TaskHeap {
    var items: seq<Task>
    ghost var contents: set<Task>

    /** Positions and back-indices are inverse to each other, so no task occurs twice. */
    ghost predicate Indexed()
      reads this, contents
    {
      && (forall i :: 0 <= i < |items| ==> items[i] in contents && items[i].index == i)
      && (forall t :: t in contents ==> 0 <= t.index < |items| && items[t.index] == t)
    }

    /** The due times, in heap positions. */
    function Keys(): (k: seq<int>)
      reads this, items
      ensures |k| == |items|
      ensures forall i :: 0 <= i < |k| ==> k[i] == items[i].nextRun
    {
      seq(|items|, i requires 0 <= i < |items| reads this, items => items[i].nextRun)
    }

    ghost predicate Valid()
      reads this, contents, items
    {
      Indexed() && Ordered(Keys(), |items|)
    }

    constructor ()
      ensures items == [] && contents == {} && Valid()
    {
      items := [];
      contents := {};
    }

    method Swap(i: nat, j: nat)
      requires Indexed() && i < |items| && j < |items|
      modifies this`items, contents`index
      ensures Indexed()
      ensures items == Swapped(old(items), i, j)
      ensures Keys() == Swapped(old(Keys()), i, j)
    {
      var a, b := items[i], items[j];
      items := items[i := b][j := a];
      b.index := i;
      a.index := j;
    }

    /** `heap.up`: restores order among the first `n` positions when only the parent edge of
        `start` may be wrong. */
    method Up(start: nat, n: nat)
      requires Indexed() && start < n <= |items|
      requires OrderedAround(Keys(), n, start) && ChildrenOk(Keys(), n, start)
      modifies this`items, contents`index
      ensures Indexed() && |items| == old(|items|) && Ordered(Keys(), n)
      ensures forall x :: n <= x < |items| ==> items[x] == old(items)[x]
    {
      hide OrderedAround, ChildrenOk, Edge, Ordered;
      var j: nat := start;
      ghost var k := Keys();
      while 0 < j && items[j].nextRun < items[Parent(j)].nextRun
        invariant Indexed() && j < n <= |items| == old(|items|) && Keys() == k
        invariant forall x :: n <= x < |items| ==> items[x] == old(items)[x]
        invariant OrderedAround(k, n, j) && ChildrenOk(k, n, j)
      {
        UpStep(k, n, j);
        k := Swapped(k, Parent(j), j);
        Swap(Parent(j), j);
        j := Parent(j);
      }
      StopAround(k, n, j);
    }

    /** The loop of `heap.down`: sinks the task at `start` through the first `n` positions and
        returns where it stops. */
    method Sink(start: nat, n: nat) returns (i: nat)
      requires Indexed() && start <= n <= |items|
      requires OrderedAround(Keys(), n, start)
      modifies this`items, contents`index
      ensures Indexed() && |items| == old(|items|)
      ensures forall x :: n <= x < |items| ==> items[x] == old(items)[x]
      ensures start <= i && (start < i ==> i < n && Edge(Keys(), i))
      ensures start == i ==> items == old(items)
      ensures OrderedAround(Keys(), n, i) && ChildrenOk(Keys(), n, i)
    {
      hide OrderedAround, ChildrenOk, Edge, SmallerChild;
      i := start;
      ghost var k := Keys();
      while 2 * i + 1 < n
        invariant Indexed() && |items| == old(|items|) && Keys() == k
        invariant forall x :: n <= x < |items| ==> items[x] == old(items)[x]
        invariant OrderedAround(k, n, i)
        invariant start <= i && (start < i ==> i < n && Edge(k, i))
        invariant start == i ==> items == old(items)
      {
        var j := PickChild(i, n);
        if items[i].nextRun <= items[j].nextRun {
          DownStops(k, n, i, j);
          return;
        }
        DownStep(k, n, i, j);
        k := Swapped(k, i, j);
        Swap(i, j);
        i := j;
      }
      LeafChildrenOk(k, n, i);
    }

    /** `heap.down`: the task at `start` is the only one of the first `n` whose edges may be
        wrong. When nothing moved, only the parent edge of `start` is left open. */
    method Down(start: nat, n: nat) returns (moved: bool)
      requires Indexed() && start <= n <= |items|
      requires OrderedAround(Keys(), n, start)
      modifies this`items, contents`index
      ensures Indexed() && |items| == old(|items|)
      ensures forall x :: n <= x < |items| ==> items[x] == old(items)[x]
      ensures moved || start == 0 ==> Ordered(Keys(), n)
      ensures !moved ==> items == old(items) && ChildrenOk(Keys(), n, start)
    {
      var i := Sink(start, n);
      moved := start < i;
      if moved || start == 0 {
        AroundToOrdered(Keys(), n, i);
      }
    }

    method PickChild(i: nat, n: nat) returns (j: nat)
      requires 2 * i + 1 < n <= |items|
      ensures SmallerChild(Keys(), n, i, j)
    {
      j := 2 * i + 1;
      if j + 1 < n && items[j + 1].nextRun < items[j].nextRun {
        j := j + 1;
      }
    }

    /** `taskHeap.Push`: appends without sifting. */
    method Append(t: Task)
      requires Indexed() && t !in contents
      modifies this, t`index
      ensures Indexed() && items == old(items) + [t] && contents == old(contents) + {t}
      ensures Keys() == old(Keys()) + [t.nextRun]
    {
      t.index := |items|;
      items := items + [t];
      contents := contents + {t};
    }

    /** `taskHeap.Pop`: drops the last position. */
    method DropLast() returns (t: Task)
      requires Indexed() && 0 < |items| && Ordered(Keys(), |items| - 1)
      modifies this, contents`index
      ensures t == old(items)[|old(items)| - 1] && t.index == -1 && t in old(contents)
      ensures Valid() && items == old(items)[..|old(items)| - 1] && contents == old(contents) - {t}
    {
      hide Edge, Ordered;
      OrderedTake(Keys(), |items| - 1);
      ghost var k := Keys();
      t := items[|items| - 1];
      t.index := -1;
      items := items[..|items| - 1];
      contents := contents - {t};
      assert Keys() == k[..|items|];
    }

    /** `heap.Push` */
    method HeapPush(t: Task)
      requires Valid() && t !in contents
      modifies this, contents`index, t`index
      ensures Valid() && contents == old(contents) + {t}
    {
      AppendAround(Keys(), t.nextRun);
      Append(t);
      Up(|items| - 1, |items|);
    }

    ghost predicate Least(t: Task)
      reads this, contents, t
    {
      forall u :: u in contents ==> t.nextRun <= u.nextRun
    }

    lemma WaitingIndex()
      requires Valid()
      ensures forall t :: t in contents ==> 0 <= t.index
    {
    }

    lemma RootLeast()
      requires Valid() && 0 < |items|
      ensures Least(items[0])
    {
      forall u | u in contents ensures items[0].nextRun <= u.nextRun {
        RootIsLeast(Keys(), u.index);
      }
    }

    /** `heap.Pop`: takes out a task with the least due time. */
    method HeapPop() returns (t: Task)
      requires Valid() && 0 < |items|
      modifies this, contents`index
      ensures Valid() && t in old(contents) && contents == old(contents) - {t} && t.index == -1
      ensures t == old(items[0]) && old(Least(items[0]))
    {
      hide Indexed, OrderedAround, ChildrenOk, Edge, Ordered, Least;
      RootLeast();
      var n := |items| - 1;
      SwapOutAround(Keys(), 0);
      Swap(0, n);
      var _ := Down(0, n);
      t := DropLast();
    }

    /** `heap.Remove` */
    method HeapRemove(i: nat) returns (t: Task)
      requires Valid() && i < |items|
      modifies this, contents`index
      ensures Valid() && t == old(items[i]) && contents == old(contents) - {t} && t.index == -1
    {
      hide Indexed, OrderedAround, ChildrenOk, Edge, Ordered;
      var n := |items| - 1;
      OrderedPrefix(Keys(), n);
      if n != i {
        SwapOutAround(Keys(), i);
        Swap(i, n);
        HeapFix(i, n);
      }
      t := DropLast();
    }

    /** `heap.Remove` at a waiting task's own index. */
    method RemoveAt(t: Task)
      requires Valid() && t in contents
      modifies this, contents`index
      ensures Valid() && contents == old(contents) - {t} && t.index == -1
    {
      var _ := HeapRemove(t.index);
    }

    /** `heap.Fix` on the first `n` positions: restores order after position `i` changed. */
    method HeapFix(i: nat, n: nat)
      requires Indexed() && i < n <= |items|
      requires OrderedAround(Keys(), n, i)
      modifies this`items, contents`index
      ensures Indexed() && |items| == old(|items|) && Ordered(Keys(), n)
      ensures forall x :: n <= x < |items| ==> items[x] == old(items)[x]
    {
      hide OrderedAround, ChildrenOk, Edge, Ordered;
      var moved := Down(i, n);
      if !moved {
        Up(i, n);
      }
    }
  }
}

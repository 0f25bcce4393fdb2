/** The bounded queues of the northbound adapters: appending one item, putting a batch back in front,
    appending commands. Each works on slices and is proved against a function on sequences. */
module QueueAppend {
  import opened Basics
  import opened Slices
  import opened Subsequences

  const DEFAULT_REALTIME_QUEUE := 200

  function AtLeastOne(limit: int): (n: nat)
    ensures n >= 1
  {
    if limit <= 0 then 1 else limit
  }

  /** The last `n` items, or all of them. */
  function Last<T>(s: seq<T>, n: nat): (r: seq<T>)
    ensures |r| == if |s| < n then |s| else n
  {
    if |s| <= n then s else s[|s| - n..]
  }

  /** A full queue gives up its oldest item. */
  function Appended<T>(queue: seq<T>, item: T, limit: int): (r: seq<T>)
    ensures |r| == if |queue| >= AtLeastOne(limit) then |queue| else |queue| + 1
  {
    (if |queue| >= AtLeastOne(limit) then queue[1..] else queue) + [item]
  }

  /** Items put back in front; what does not fit is cut off at the new end. */
  function Prepended<T>(queue: seq<T>, items: seq<T>, limit: int): seq<T> {
    var kept := Last(queue, AtLeastOne(limit));
    if items == [] then kept else First(items + kept, AtLeastOne(limit))
  }

  function CommandLimit(limit: int): (n: nat)
    ensures n >= 1
  {
    if limit <= 0 then DEFAULT_REALTIME_QUEUE else limit
  }

  function NonNil<T>(items: seq<Option<T>>): (r: seq<Option<T>>)
    ensures forall i :: 0 <= i < |r| ==> r[i].Some?
  {
    if items == [] then []
    else NonNil(items[..|items| - 1]) + if items[|items| - 1].Some? then [items[|items| - 1]] else []
  }

  /** `appendQueueItemWithCap`. In the old array only the slot of a dropped item is nulled and the spare
      capacity, if any, used; a window `other` apart from both is kept. Appending to a clipped queue
      moves it to a new array. */
  method AppendItem<T>(queue: Slice<T>, item: Option<T>, limit: int, ghost other: Slice<T>) returns (r: Slice<T>)
    requires queue.Valid() && other.Valid()
    modifies queue.Frame()
    ensures r.Valid() && r.Tight() && r.Slice? && (queue.Tight() ==> fresh(r.arr))
    ensures r.Items() == Appended(old(queue.Items()), item, limit)
    ensures Apart(queue.Whole(), other) ==> other.Items() == old(other.Items())
  {
    var q := queue;
    if q.Len() >= AtLeastOne(limit) {
      q := DropFirst(q, other);
    }
    q := Append(q, item, other);
    return q.Clip();
  }

  /** Nulls and drops the oldest item. */
  method DropFirst<T>(queue: Slice<T>, ghost other: Slice<T>) returns (r: Slice<T>)
    requires queue.Valid() && queue.Len() > 0 && other.Valid()
    modifies queue.Frame()
    ensures r == queue.Sub(1, queue.Len()) && r.Items() == old(queue.Items())[1..]
    ensures Apart(queue.Whole(), other) ==> other.Items() == old(other.Items())
  {
    queue.arr[queue.off] := None;
    r := queue.Sub(1, queue.Len());
    assert r.Items() == old(queue.Items())[1..];
  }

  /** Nulls and drops the oldest items of a queue that is over the limit. */
  method TrimFront<T>(queue: Slice<T>, limit: nat, ghost other: Slice<T>) returns (r: Slice<T>)
    requires queue.Valid() && other.Valid()
    modifies queue.Frame()
    ensures r.Valid() && r.Items() == Last(old(queue.Items()), limit)
    ensures r == if queue.Len() <= limit then queue else queue.Sub(queue.Len() - limit, queue.Len())
    ensures Apart(queue, other) || queue.Len() <= limit ==> other.Items() == old(other.Items())
  {
    r := queue;
    if r.Len() > limit {
      var overflow := r.Len() - limit;
      r := ClearFront(queue, overflow, other);
    }
  }

  /** Nulls and drops the `n` oldest items. */
  method ClearFront<T>(queue: Slice<T>, n: nat, ghost other: Slice<T>) returns (r: Slice<T>)
    requires queue.Valid() && n <= queue.Len() && other.Valid()
    modifies queue.Frame()
    ensures r == queue.Sub(n, queue.Len()) && r.Items() == old(queue.Items())[n..]
    ensures Apart(queue, other) ==> other.Items() == old(other.Items())
  {
    r := queue.Sub(n, queue.Len());
    var gone := queue.Sub(0, n);
    SubItems(queue, n, queue.Len());
    SubApart(queue, n, other);
    hide Apart, Slice.Sub, Slice.Items;
    Clear(gone, r, other);
  }

  lemma SubApart<T>(s: Slice<T>, n: nat, other: Slice<T>)
    requires s.Valid() && n <= s.Len()
    ensures Apart(s.Sub(0, n), s.Sub(n, s.Len())) && (Apart(s, other) ==> Apart(s.Sub(0, n), other))
    ensures s.Sub(0, n).Frame() == s.Sub(n, s.Len()).Frame() == s.Frame()
  {
  }

  /** `prependQueueWithCap`: the result is a new array whenever there is anything to put back. Items that
      share slots with the queue are put back as the trimming of the queue leaves them; items apart
      from it are untouched. */
  method PrependItems<T>(queue: Slice<T>, items: Slice<T>, limit: int) returns (r: Slice<T>)
    requires queue.Valid() && items.Valid()
    modifies queue.Frame()
    ensures r.Valid() && r.Tight()
    ensures items.Len() > 0 ==> r.Slice? && fresh(r.arr)
    ensures r.Items() == Prepended(old(queue.Items()), items.Items(), limit)
    ensures Apart(queue, items) || queue.Len() <= AtLeastOne(limit) ==> items.Items() == old(items.Items())
  {
    hide AtLeastOne, Last, First, Prepended, Slice.Sub, Slice.Clip;
    ghost var was := queue.Items();
    var q := TrimFront(queue, AtLeastOne(limit), items);
    ghost var front, back := items.Items(), q.Items();
    PrependedMeans(was, front, limit);
    if items.Len() == 0 {
      ClipItems(q);
      r := q.Clip();
    } else {
      r := JoinedFirst(items, q, AtLeastOne(limit));
      assert items.Items() == front;
    }
  }

  lemma PrependedMeans<T>(queue: seq<T>, items: seq<T>, limit: int)
    ensures var n := AtLeastOne(limit);
            Prepended(queue, items, limit) == if |items| == 0 then Last(queue, n) else First(items + Last(queue, n), n)
  {
  }

  /** Merges into a new array and cuts off, nulled, what is over the limit. */
  method JoinedFirst<T>(items: Slice<T>, queue: Slice<T>, limit: nat) returns (r: Slice<T>)
    requires items.Valid() && queue.Valid()
    ensures r.Valid() && r.Tight() && r.Slice? && fresh(r.arr)
    ensures r.Items() == First(items.Items() + queue.Items(), limit)
  {
    var a := Joined(items, queue);
    var n := a.Length;
    r := Slice(a, 0, if n > limit then limit else n, if n > limit then limit else n);
    if n > limit {
      Clear(Slice(a, limit, n - limit, n - limit), r, r);
    }
  }

  /** `append(append(make([]T, 0, …), items...), queue...)` */
  method Joined<T>(items: Slice<T>, queue: Slice<T>) returns (a: array<Option<T>>)
    requires items.Valid() && queue.Valid()
    ensures fresh(a) && a[..] == items.Items() + queue.Items()
  {
    a := new Option<T>[items.Len() + queue.Len()](_ => None);
    CopyInto(a, 0, items);
    CopyInto(a, items.Len(), queue);
    assert a[..] == a[..items.Len()] + a[items.Len()..items.Len() + queue.Len()];
  }

  method CopyInto<T>(a: array<Option<T>>, at: nat, s: Slice<T>)
    requires s.Valid() && at + s.Len() <= a.Length && a !in s.Frame()
    modifies a
    ensures a[..at] == old(a[..at]) && a[at..at + s.Len()] == s.Items()
  {
    if s.Slice? {
      for i := 0 to s.len
        invariant a[..at] == old(a[..at])
        invariant a[at..at + i] == s.arr[s.off..s.off + i]
      {
        a[at + i] := s.arr[s.off + i];
      }
    }
  }

  // Commands.

  lemma {:induction false} NonNilNext<T>(items: seq<Option<T>>, k: nat)
    requires k < |items|
    ensures NonNil(items[..k + 1]) == NonNil(items[..k]) + if items[k].Some? then [items[k]] else []
  {
    assert items[..k + 1][..k] == items[..k];
  }

  /** The counting loop. */
  method CountValid<T>(incoming: seq<Option<T>>) returns (n: nat)
    ensures n == |NonNil(incoming)|
  {
    n := 0;
    for k := 0 to |incoming|
      invariant n == |NonNil(incoming[..k])|
    {
      NonNilNext(incoming, k);
      if incoming[k].Some? {
        n := n + 1;
      }
    }
    assert incoming[..|incoming|] == incoming;
  }

  function Skipped<T>(s: seq<T>, n: nat): seq<T> {
    if |s| <= n then [] else s[n..]
  }

  /** The appending loop: skips nil items and the first `skip` others. */
  method AppendAfter<T>(queue: Slice<T>, incoming: seq<Option<T>>, skip: nat) returns (q: Slice<T>)
    requires queue.Valid()
    modifies queue.Frame()
    ensures q.Valid() && q.Items() == old(queue.Items()) + Skipped(NonNil(incoming), skip)
  {
    hide NonNil;
    q := queue;
    var left := skip;
    ghost var base, seen := queue.Items(), NonNil(incoming[..0]);
    NonNilNone<T>();
    for k := 0 to |incoming|
      invariant q.Valid() && (q.Frame() <= queue.Frame() || fresh(q.Frame()))
      invariant seen == NonNil(incoming[..k]) && left == if |seen| < skip then skip - |seen| else 0
      invariant q.Items() == base + Skipped(seen, skip)
    {
      NonNilNext(incoming, k);
      if incoming[k].Some? {
        if left > 0 {
          left := left - 1;
        } else {
          q := Append(q, incoming[k], Nil);
        }
        SkippedNext(base, seen, incoming[k], skip);
        seen := seen + [incoming[k]];
      }
    }
    assert incoming[..|incoming|] == incoming;
  }

  lemma NonNilNone<T>()
    ensures forall s: seq<Option<T>> :: |s| == 0 ==> NonNil(s) == []
  {
  }

  lemma SkippedNext<T>(base: seq<T>, s: seq<T>, x: T, n: nat)
    ensures base + Skipped(s + [x], n) == if |s| < n then base + Skipped(s, n) else base + Skipped(s, n) + [x]
  {
  }

  lemma LastOfBoth<T>(queue: seq<T>, more: seq<T>, limit: nat, drop: nat, skip: nat)
    requires drop <= |queue| <= limit && skip <= |more|
    requires |queue| + |more| > limit ==> drop + skip == |queue| + |more| - limit && (skip > 0 ==> drop == |queue|)
    requires |queue| + |more| <= limit ==> drop == skip == 0
    ensures queue[drop..] + Skipped(more, skip) == Last(queue + more, limit)
  {
    assert Skipped(more, skip) == more[skip..];
    if skip == 0 {
      assert queue[drop..] + more[0..] == (queue + more)[drop..];
    } else {
      assert more[skip..] == (queue + more)[|queue| + skip..];
    }
  }

  /** Drops existing items, then incoming ones, until the rest fits. */
  method MakeRoom<T>(queue: Slice<T>, incoming: nat, limit: nat) returns (r: Slice<T>, skip: nat, ghost drop: nat)
    requires queue.Valid() && queue.Len() <= limit
    modifies queue.Frame()
    ensures r.Valid() && r.Frame() <= queue.Frame()
    ensures drop <= queue.Len() && r.Items() == old(queue.Items())[drop..] && skip <= incoming
    ensures queue.Len() + incoming > limit ==>
              drop + skip == queue.Len() + incoming - limit && (skip > 0 ==> drop == queue.Len())
    ensures queue.Len() + incoming <= limit ==> drop == skip == 0
  {
    r, skip, drop := queue, 0, 0;
    var excess := queue.Len() + incoming - limit;
    if excess > 0 {
      var dropExisting := if excess > queue.Len() then queue.Len() else excess;
      r := TrimFront(queue, queue.Len() - dropExisting, Nil);
      skip := excess - dropExisting;
      drop := dropExisting;
    }
  }

  /** `appendCommandQueueWithCap`: the last `limit` of the queue and the non-nil incoming commands.
      The overflow branch after the appending loop is never taken. */
  method AppendCommands<T>(queue: Slice<T>, incoming: seq<Option<T>>, limit: int) returns (r: Slice<T>)
    requires queue.Valid()
    modifies queue.Frame()
    ensures r.Valid() && r.Tight()
    ensures r.Items() == Last(old(queue.Items()) + NonNil(incoming), CommandLimit(limit))
  {
    hide NonNil, Last, Skipped, CommandLimit, Slice.Items, Slice.Clip;
    var capLimit := CommandLimit(limit);
    LastAbsorbs(queue.Items(), NonNil(incoming), capLimit);
    var q := TrimFront(queue, capLimit, Nil);
    ghost var kept := q.Items();
    var valid := CountValid(incoming);
    var skip;
    ghost var dropped;
    q, skip, dropped := MakeRoom(q, valid, capLimit);
    q := AppendAfter(q, incoming, skip);
    LastOfBoth(kept, NonNil(incoming), capLimit, dropped, skip);
    if q.Len() > capLimit {
      assert false;
    }
    ClipItems(q);
    r := q.Clip();
  }

  lemma LastAbsorbs<T>(queue: seq<T>, more: seq<T>, limit: nat)
    ensures Last(Last(queue, limit) + more, limit) == Last(queue + more, limit)
  {
  }

  // What the three functions do, said of the items.

  /** Appending puts the item last; a queue with room keeps all of its items, a full one gives up its first
      and keeps the others in order. */
  lemma AppendedMeans<T>(queue: seq<T>, item: T, limit: int)
    ensures var r := Appended(queue, item, limit); var n := if limit > 0 then limit else 1;
            && r != [] && r[|r| - 1] == item
            && (|queue| < n ==> r == queue + [item])
            && (|queue| >= n ==> |r| == |queue| && forall i :: 0 <= i < |queue| - 1 ==> r[i] == queue[i + 1])
  {
  }

  /** Putting items back in front of a queue within its limit keeps the first ones of all, in order: the
      items, then the queue. */
  lemma PrependedKeepsFront<T>(queue: seq<T>, items: seq<T>, limit: int)
    requires |queue| <= if limit > 0 then limit else 1
    ensures var n := if limit > 0 then limit else 1; var all := items + queue;
            Prepended(queue, items, limit) == if |all| <= n then all else all[..n]
  {
    assert items == [] ==> items + queue == queue;
  }

  /** The command queue keeps the last ones of all, 200 unless another limit is set. */
  lemma CommandsKeepLast<T>(queue: seq<Option<T>>, incoming: seq<Option<T>>, limit: int)
    ensures var n := if limit > 0 then limit else 200; var all := queue + NonNil(incoming);
            Last(all, CommandLimit(limit)) == if |all| <= n then all else all[|all| - n..]
  {
    hide NonNil;
  }

  /** What is not nil: exactly the items that are some, each as often as it came in, in the same order. */
  lemma {:induction false} NonNilMeans<T>(items: seq<Option<T>>)
    ensures forall x :: multiset(NonNil(items))[x] == if x.Some? then multiset(items)[x] else 0
    ensures Subsequence(NonNil(items), items)
  {
    if items != [] {
      var init, last := items[..|items| - 1], items[|items| - 1];
      assert items == init + [last];
      assert multiset(items) == multiset(init) + multiset{last};
      NonNilMeans(init);
      SubsequenceMore(NonNil(init), init, last);
      assert NonNil(items) == if last.Some? then NonNil(init) + [last] else NonNil(init);
    } else {
      assert multiset(NonNil(items)) == multiset{} == multiset(items);
    }
  }
}

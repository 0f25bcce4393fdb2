/** The Sagoo adapter's alarm queue. A flush takes a batch that shares its backing array with the
    queue left behind, publishes it outside the lock while senders append, puts it back on failure,
    and clears it afterwards, again outside the lock. */
module SagooQueue {
  import opened Basics
  import opened Slices
  import opened QueueAppend

  const DEFAULT_ALARM_QUEUE := 200

  datatype Phase = Idle | Publishing | Clearing

  predicate AllSome<T>(items: seq<Option<T>>) {
    forall i :: 0 <= i < |items| ==> items[i].Some?
  }

  function Values<T>(items: seq<Option<T>>): (r: seq<T>)
    requires AllSome(items)
    ensures |r| == |items|
    ensures forall i :: 0 <= i < |r| ==> r[i] == items[i].value
  {
    seq(|items|, i requires 0 <= i < |items| => items[i].value)
  }

  function AlarmLimit(alarmCap: int): (n: nat)
    ensures n >= 1
  {
    if alarmCap <= 0 then DEFAULT_ALARM_QUEUE else alarmCap
  }

  /** A queue with room keeps all of its alarms; it holds 200 unless another cap is set. */
  lemma RoomKeepsAll<T>(queue: seq<T>, item: T, alarmCap: int)
    ensures AlarmLimit(alarmCap) == if alarmCap > 0 then alarmCap else 200
    ensures |queue| < AlarmLimit(alarmCap) ==> Appended(queue, item, AlarmLimit(alarmCap)) == queue + [item]
  {
    AppendedMeans(queue, item, AlarmLimit(alarmCap));
    hide Appended;
  }

  /** The alarms on record: every alarm sent, the alarms of batches published to the end, how many of
      the sent alarms have been published at least once, and how many were given up to the cap. */
  datatype Record<T> = Record(sent: seq<T>, completed: seq<T>, delivered: nat, dropped: nat)

  /** Unless the cap forced a drop, the finished batches, the batch being published and the queue are
      together what was sent, and the alarms published so far are the earliest ones. */
  predicate Accounted<T(==)>(r: Record<T>, batch: seq<Option<T>>, pos: nat, queue: seq<Option<T>>) {
    && AllSome(batch) && AllSome(queue) && pos <= |batch|
    && (r.dropped == 0 ==> r.completed + Values(batch) + Values(queue) == r.sent)
    && (r.dropped == 0 ==> |r.completed| + pos <= r.delivered <= |r.sent|)
  }

  lemma AccountSend<T>(r: Record<T>, batch: seq<Option<T>>, pos: nat, queue: seq<Option<T>>, x: T, limit: nat)
    requires Accounted(r, batch, pos, queue)
    ensures Accounted(r.(sent := r.sent + [x], dropped := r.dropped + if |queue| >= AtLeastOne(limit) then 1 else 0),
                      batch, pos, Appended(queue, Some(x), limit))
  {
    if |queue| < AtLeastOne(limit) {
      assert Values(queue + [Some(x)]) == Values(queue) + [x];
    }
  }

  lemma AccountTake<T>(r: Record<T>, queue: seq<Option<T>>, n: nat)
    requires Accounted(r, [], 0, queue) && n <= |queue|
    ensures Accounted(r, queue[..n], 0, queue[n..])
  {
    assert Values(queue[..n]) + Values(queue[n..]) == Values(queue);
  }

  /** Publishing the next alarm of the batch: a first delivery is the next in order. */
  function Delivered<T>(r: Record<T>, pos: nat): Record<T> {
    var i := |r.completed| + pos;
    r.(delivered := if i == r.delivered then i + 1 else r.delivered)
  }

  lemma AccountPublish<T>(r: Record<T>, batch: seq<Option<T>>, pos: nat, queue: seq<Option<T>>)
    requires Accounted(r, batch, pos, queue) && pos < |batch|
    ensures AllSome(batch) && Accounted(Delivered(r, pos), batch, pos + 1, queue) && Delivered(r, pos).sent == r.sent
    ensures r.dropped == 0 ==>
              var i := |r.completed| + pos;
              i <= r.delivered && i < |r.sent| && r.sent[i] == batch[pos].value
  {
  }

  lemma AccountDone<T>(r: Record<T>, batch: seq<Option<T>>, queue: seq<Option<T>>)
    requires Accounted(r, batch, |batch|, queue)
    ensures Accounted(r.(completed := r.completed + Values(batch)), [], 0, queue)
  {
  }

  lemma AccountPutBack<T>(r: Record<T>, batch: seq<Option<T>>, pos: nat, queue: seq<Option<T>>, limit: nat)
    requires Accounted(r, batch, pos, queue) && batch != [] && |queue| <= limit && limit >= 1
    ensures var merged := Prepended(queue, batch, limit);
            Accounted(r.(dropped := r.dropped + |batch| + |queue| - |merged|), [], 0, merged)
  {
    if |batch| + |queue| <= limit {
      assert Values(batch + queue) == Values(batch) + Values(queue);
    }
  }

  class Adapter<T(==)> {
    var queue: Slice<T>
    var batch: Slice<T>
    var pos: nat
    var phase: Phase
    const alarmCap: int
    const alarmBatch: int
    ghost var record: Record<T>

    ghost predicate Shape()
      reads this
    {
      && alarmBatch > 0
      && queue.Valid() && queue.Tight() && queue.Len() <= AlarmLimit(alarmCap)
      && batch.Valid() && Apart(queue, batch)
      && (phase == Idle ==> batch.Nil?)
      && (phase == Publishing ==> 0 < batch.Len() && pos <= batch.Len())
    }

    /** The batch while it is being published; after that it only waits to be cleared. */
    ghost function InFlight(): seq<Option<T>>
      requires Shape()
      reads this, batch.Frame()
    {
      if phase == Publishing then batch.Items() else []
    }

    ghost predicate Valid()
      reads this, queue.Frame(), batch.Frame()
    {
      Shape() && Accounted(record, InFlight(), if phase == Publishing then pos else 0, queue.Items())
    }

    constructor (alarmCap: int, alarmBatch: int)
      requires alarmBatch > 0
      ensures Valid() && record == Record([], [], 0, 0)
    {
      this.alarmCap, this.alarmBatch := alarmCap, alarmBatch;
      queue, batch, pos, phase := Nil, Nil, 0, Idle;
      record := Record([], [], 0, 0);
    }

    /** `SendAlarm`; `needFlush` asks the flusher to run. */
    method SendAlarm(alarm: T) returns (needFlush: bool)
      requires Valid()
      modifies this`queue, this`record, queue.Frame()
      ensures Valid() && queue.Slice? && fresh(queue.arr)
      ensures queue.Items() == Appended(old(queue.Items()), Some(alarm), AlarmLimit(alarmCap))
      ensures old(queue.Len()) < (if alarmCap > 0 then alarmCap else 200) ==>
                queue.Items() == old(queue.Items()) + [Some(alarm)]
      ensures batch.Items() == old(batch.Items())
      ensures record == old(record).(sent := old(record.sent) + [alarm],
                dropped := old(record.dropped) + if old(queue.Len()) >= AlarmLimit(alarmCap) then 1 else 0)
      ensures needFlush == (queue.Len() >= alarmBatch)
    {
      RoomKeepsAll(queue.Items(), Some(alarm), alarmCap);
      hide Accounted, Values, AllSome, Appended, AlarmLimit, Slice.Clip, Slice.Sub, Slice.Items;
      ghost var held, items := batch.Items(), queue.Items();
      AccountSend(record, InFlight(), if phase == Publishing then pos else 0, items, alarm, AlarmLimit(alarmCap));
      var full := queue.Len() >= AlarmLimit(alarmCap);
      var q := AppendItem(queue, Some(alarm), AlarmLimit(alarmCap), batch);
      assert batch.Items() == held && q.Items() == Appended(items, Some(alarm), AlarmLimit(alarmCap));
      ghost var me: object := this;
      assert me !in batch.Frame() && me !in q.Frame();
      queue := q;
      record := record.(sent := record.sent + [alarm], dropped := record.dropped + if full then 1 else 0);
      assert batch.Items() == held && queue.Items() == Appended(items, Some(alarm), AlarmLimit(alarmCap));
      needFlush := queue.Len() >= alarmBatch;
    }

    /** The locked part of `flushAlarmBatch`: splits a batch off the front of the queue, in place. */
    method BeginFlush() returns (some: bool)
      requires Valid() && phase == Idle
      modifies this`queue, this`batch, this`pos, this`phase
      ensures Valid() && some == (old(queue.Len()) > 0)
      ensures !some ==> phase == Idle && queue == old(queue)
      ensures some ==> phase == Publishing && pos == 0
      ensures some ==> batch.Len() == if alarmBatch < old(queue.Len()) then alarmBatch else old(queue.Len())
      ensures some ==> batch.Items() + queue.Items() == old(queue.Items())
      ensures some ==> batch.Frame() == queue.Frame() == old(queue.Frame())
    {
      hide Accounted, Slice.Sub, Slice.Clip, Slice.Items, Apart;
      if queue.Len() == 0 {
        return false;
      }
      var count := if alarmBatch > queue.Len() then queue.Len() else alarmBatch;
      AccountTake(record, queue.Items(), count);
      batch, queue := Split(queue, count);
      pos := 0;
      phase := Publishing;
      return true;
    }

    /** The publishing loop succeeds with the next alarm. Without drops this alarm has been published
        before, or it is the earliest one that has not. */
    method PublishSucceeds() returns (alarm: T)
      requires Valid() && phase == Publishing && pos < batch.Len()
      modifies this`pos, this`record
      ensures Valid() && alarm == batch.Items()[old(pos)].value
      ensures pos == old(pos) + 1 && record == Delivered(old(record), old(pos))
      ensures old(record.dropped) == 0 ==>
                var i := |old(record.completed)| + old(pos);
                i <= old(record.delivered) && i < |record.sent| && record.sent[i] == alarm
    {
      hide Accounted, Apart, Slice.Items, Delivered;
      ghost var me: object := this;
      assert me !in batch.Frame() && me !in queue.Frame();
      AccountPublish(record, batch.Items(), pos, queue.Items());
      alarm := batch.Items()[pos].value;
      record := Delivered(record, pos);
      pos := pos + 1;
    }

    /** The publishing loop reaches the end of the batch. */
    method EndBatch()
      requires Valid() && phase == Publishing && pos == batch.Len()
      modifies this`phase, this`record
      ensures Valid() && phase == Clearing
      ensures record == old(record).(completed := old(record.completed + Values(batch.Items())))
    {
      AccountDone(record, batch.Items(), queue.Items());
      record := record.(completed := record.completed + Values(batch.Items()));
      phase := Clearing;
      hide Accounted, Apart;
    }

    /** A publish fails: under the lock again, the whole batch goes back in front of the queue, so its
        alarms before `pos` will be published again. */
    method PublishFails()
      requires Valid() && phase == Publishing && pos < batch.Len()
      modifies this`queue, this`phase, this`record, queue.Frame()
      ensures Valid() && phase == Clearing && queue.Slice? && fresh(queue.arr)
      ensures queue.Items() == Prepended(old(queue.Items()), old(batch.Items()), AlarmLimit(alarmCap))
      ensures record == old(record).(dropped := old(record.dropped) + batch.Len() + old(queue.Len()) - queue.Len())
    {
      hide Accounted;
      AccountPutBack(record, batch.Items(), pos, queue.Items(), AlarmLimit(alarmCap));
      ghost var both := batch.Len() + queue.Len();
      queue := PrependItems(queue, batch, AlarmLimit(alarmCap));
      record := record.(dropped := record.dropped + both - queue.Len());
      phase := Clearing;
    }

    /** `clear(batch)`, after the lock is released: no queued alarm is nulled. */
    method FinishFlush()
      requires Valid() && phase == Clearing
      modifies this`batch, this`phase, batch.Frame()
      ensures Valid() && phase == Idle
      ensures queue.Items() == old(queue.Items()) && AllSome(queue.Items())
    {
      Clear(batch, queue, queue);
      batch := Nil;
      phase := Idle;
    }
  }

  /** What can happen: a sender calls, or the flusher takes its next step, whose publish may fail. */
  datatype Event<T> = Send(alarm: T) | Flush(publishOk: bool)

  /** Any interleaving of senders with flushes that fail anywhere: the queue never holds a nulled
      alarm and stays within its cap, and unless the cap forced a drop, finished batches, the batch in
      flight and the queue are together, in order, everything sent. */
  method Run<T(==)>(a: Adapter<T>, script: seq<Event<T>>)
    requires a.Valid()
    modifies a, a.queue.Frame(), a.batch.Frame()
    ensures a.Valid()
    ensures AllSome(a.queue.Items()) && a.queue.Len() <= if a.alarmCap > 0 then a.alarmCap else 200
    ensures a.record.dropped == 0 ==>
              && AllSome(a.InFlight())
              && a.record.completed + Values(a.InFlight()) + Values(a.queue.Items()) == a.record.sent
  {
    hide Accounted, Apart, Slice.Items;
    for i := 0 to |script|
      invariant a.Valid()
      invariant fresh(a.queue.Frame() - old(a.queue.Frame() + a.batch.Frame()))
      invariant fresh(a.batch.Frame() - old(a.queue.Frame() + a.batch.Frame()))
    {
      Happens(a, script[i]);
    }
    AccountMeans(a.record, a.InFlight(), if a.phase == Publishing then a.pos else 0, a.queue.Items());
  }

  lemma AccountMeans<T>(r: Record<T>, batch: seq<Option<T>>, pos: nat, queue: seq<Option<T>>)
    requires Accounted(r, batch, pos, queue)
    ensures AllSome(queue) && AllSome(batch)
    ensures r.dropped == 0 ==> r.completed + Values(batch) + Values(queue) == r.sent
  {
  }

  method Happens<T(==)>(a: Adapter<T>, e: Event<T>)
    requires a.Valid()
    modifies a, a.queue.Frame(), a.batch.Frame()
    ensures a.Valid()
    ensures fresh(a.queue.Frame() - old(a.queue.Frame() + a.batch.Frame()))
    ensures fresh(a.batch.Frame() - old(a.queue.Frame() + a.batch.Frame()))
  {
    hide Accounted, Apart, Slice.Items, Appended, Prepended;
    match e
    case Send(alarm) =>
      var _ := a.SendAlarm(alarm);
    case Flush(ok) =>
      match a.phase
      case Idle =>
        var _ := a.BeginFlush();
      case Publishing =>
        if a.pos == a.batch.Len() {
          a.EndBatch();
        } else if ok {
          var _ := a.PublishSucceeds();
        } else {
          a.PublishFails();
        }
      case Clearing =>
        a.FinishFlush();
  }

  /** `s[:n]` and `s[n:]`, the latter clipped: two windows on one array that share no slot. */
  method Split<T>(s: Slice<T>, n: nat) returns (front: Slice<T>, back: Slice<T>)
    requires s.Valid() && n <= s.Len()
    ensures front.Valid() && back.Valid() && back.Tight() && Apart(back, front)
    ensures front.Len() == n && back.Len() == s.Len() - n
    ensures front.Frame() == back.Frame() == s.Frame()
    ensures front.Items() == s.Items()[..n] && back.Items() == s.Items()[n..]
    ensures front.Items() + back.Items() == s.Items()
  {
    front := s.Sub(0, n);
    back := s.Sub(n, s.Len()).Clip();
  }
}

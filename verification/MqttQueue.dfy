/** The MQTT adapter's pending queue: senders append while a flush, which has taken the whole queue,
    publishes its batch item by item and puts back what it could not publish. Readings and alarms have
    one such queue each; the cap is a parameter. */
module MqttQueue {
  import opened QueueAppend
  import opened Subsequences

  /** The queue, the rest of the batch a flush still has to publish, and, for the record, everything
      published, everything sent, and how many items were given up to the cap. */
  datatype State<T> = State(pending: seq<T>, batch: seq<T>, published: seq<T>, sent: seq<T>, dropped: nat)

  function Initial<T>(): State<T> {
    State([], [], [], [], 0)
  }

  /** `Send` */
  function Sent<T>(s: State<T>, x: T, limit: nat): State<T> {
    var lost := if |s.pending| >= AtLeastOne(limit) then 1 else 0;
    s.(pending := Appended(s.pending, x, limit), sent := s.sent + [x], dropped := s.dropped + lost)
  }

  /** A flush takes the queue. */
  function Taken<T>(s: State<T>): State<T> {
    s.(batch := s.pending, pending := [])
  }

  /** The flush publishes the next item of its batch. */
  function PublishedOne<T>(s: State<T>): State<T>
    requires s.batch != []
  {
    s.(batch := s.batch[1..], published := s.published + [s.batch[0]])
  }

  /** A publish fails: the rest of the batch goes back in front of what was sent meanwhile. */
  function PutBack<T>(s: State<T>, limit: nat): State<T> {
    var pending := Prepended(s.pending, s.batch, limit);
    var lost := if |s.batch| + |s.pending| > |pending| then |s.batch| + |s.pending| - |pending| else 0;
    s.(pending := pending, batch := [], dropped := s.dropped + lost)
  }

  class Adapter<T> {
    var pending: seq<T>
    var batch: seq<T>
    const limit: nat
    ghost var published: seq<T>
    ghost var sent: seq<T>
    ghost var dropped: nat

    ghost function View(): State<T>
      reads this
    {
      State(pending, batch, published, sent, dropped)
    }

    constructor (limit: nat)
      ensures View() == Initial() && this.limit == limit
    {
      pending, batch, published, sent, dropped := [], [], [], [], 0;
      this.limit := limit;
    }

    method Send(x: T)
      modifies this
      ensures View() == Sent(old(View()), x, limit)
    {
      dropped := dropped + if |pending| >= AtLeastOne(limit) then 1 else 0;
      if |pending| >= AtLeastOne(limit) {
        pending := pending[1..];
      }
      pending := pending + [x];
      sent := sent + [x];
    }

    /** The locked part of `flushPendingData`; false when there is nothing to do. */
    method BeginFlush() returns (some: bool)
      requires batch == []
      modifies this
      ensures some == (old(pending) != [])
      ensures View() == if some then Taken(old(View())) else old(View())
    {
      if |pending| == 0 {
        return false;
      }
      batch := pending;
      pending := [];
      return true;
    }

    /** One turn of the publishing loop; `ok` is the outcome of the publish. */
    method PublishNext(ok: bool)
      requires batch != []
      modifies this
      ensures View() == if ok then PublishedOne(old(View())) else PutBack(old(View()), limit)
    {
      if ok {
        published := published + [batch[0]];
        batch := batch[1..];
      } else {
        ghost var before := |batch| + |pending|;
        pending := Requeued(pending, batch, limit);
        dropped := dropped + if before > |pending| then before - |pending| else 0;
        batch := [];
      }
    }
  }

  /** `prependQueueWithCap` on values. */
  method Requeued<T>(queue: seq<T>, items: seq<T>, limit: nat) returns (r: seq<T>)
    ensures r == Prepended(queue, items, limit)
  {
    var q := queue;
    if |q| > AtLeastOne(limit) {
      q := q[|q| - AtLeastOne(limit)..];
    }
    if |items| == 0 {
      return q;
    }
    r := items + q;
    if |r| > AtLeastOne(limit) {
      r := r[..AtLeastOne(limit)];
    }
  }

  // Runs.

  datatype Event<T> = Send(x: T) | BeginFlush | Publish(ok: bool)

  /** A step that is not possible in a state leaves it as it is. */
  function Step<T>(s: State<T>, e: Event<T>, limit: nat): State<T> {
    match e
    case Send(x) => Sent(s, x, limit)
    case BeginFlush => if s.batch == [] && s.pending != [] then Taken(s) else s
    case Publish(ok) =>
      if s.batch == [] then s else if ok then PublishedOne(s) else PutBack(s, limit)
  }

  function Run<T>(events: seq<Event<T>>, limit: nat): State<T> {
    if events == [] then Initial()
    else Step(Run(events[..|events| - 1], limit), events[|events| - 1], limit)
  }

  /** What has been or may still be delivered, in order. */
  function Line<T>(s: State<T>): seq<T> {
    s.published + s.batch + s.pending
  }

  ghost predicate Inv<T>(s: State<T>, limit: nat) {
    && |s.pending| <= AtLeastOne(limit) && |s.batch| <= AtLeastOne(limit)
    && Subsequence(Line(s), s.sent)
    && |Line(s)| + s.dropped == |s.sent|
  }

  lemma SentKeeps<T>(s: State<T>, x: T, limit: nat)
    requires Inv(s, limit)
    ensures Inv(Sent(s, x, limit), limit)
  {
    hide Subsequence;
    var s' := Sent(s, x, limit);
    var front := s.published + s.batch;
    if |s.pending| >= AtLeastOne(limit) {
      assert Line(s) == front + s.pending[..1] + s.pending[1..];
      SubsequenceWithout(front, s.pending[..1], s.pending[1..], s.sent);
      SubsequenceMore(front + s.pending[1..], s.sent, x);
      assert Line(s') == front + s.pending[1..] + [x];
    } else {
      SubsequenceMore(Line(s), s.sent, x);
      assert Line(s') == Line(s) + [x];
    }
  }

  lemma PutBackKeeps<T>(s: State<T>, limit: nat)
    requires Inv(s, limit) && s.batch != []
    ensures Inv(PutBack(s, limit), limit)
  {
    hide Subsequence;
    var s' := PutBack(s, limit);
    var n := |s'.pending|;
    var both := s.batch + s.pending;
    assert Line(s) == s.published + both[..n] + both[n..] + [];
    SubsequenceWithout(s.published + both[..n], both[n..], [], s.sent);
    assert Line(s') == s.published + both[..n] + [];
  }

  /** In every run, with any publish failures and any sends in between: what was published, what the
      flush still holds and what is pending form, in this order, a subsequence of what was sent. The
      queue stays within its cap, and every item is accounted for. */
  lemma {:induction false} RunInv<T>(events: seq<Event<T>>, limit: nat)
    ensures Inv(Run(events, limit), limit)
  {
    if events == [] {
      InitialInv<T>(limit);
    } else {
      var init, e := events[..|events| - 1], events[|events| - 1];
      RunInv(init, limit);
      hide Inv, Step;
      StepKeeps(Run(init, limit), e, limit);
    }
  }

  lemma StepKeeps<T>(s: State<T>, e: Event<T>, limit: nat)
    requires Inv(s, limit)
    ensures Inv(Step(s, e, limit), limit)
  {
    hide Subsequence, Appended, Prepended;
    var s' := Step(s, e, limit);
    match e
    case Send(x) => SentKeeps(s, x, limit);
    case BeginFlush => assert Line(s') == Line(s);
    case Publish(ok) =>
      if s.batch != [] && !ok {
        PutBackKeeps(s, limit);
      } else {
        assert Line(s') == Line(s);
      }
  }

  lemma InitialInv<T>(limit: nat)
    ensures Inv<T>(Initial(), limit)
  {
  }

  /** The step finds the queue full, or more to put back than fits. */
  predicate HitsCap<T>(s: State<T>, e: Event<T>, limit: nat) {
    match e
    case Send(_) => |s.pending| >= AtLeastOne(limit)
    case BeginFlush => false
    case Publish(ok) => !ok && s.batch != [] && |s.batch| + |s.pending| > AtLeastOne(limit)
  }

  ghost predicate NeverHitsCap<T>(events: seq<Event<T>>, limit: nat) {
    forall i :: 0 <= i < |events| ==> !HitsCap(Run(events[..i], limit), events[i], limit)
  }

  /** A step drops something exactly when it hits the cap. */
  lemma DropIsHit<T>(s: State<T>, e: Event<T>, limit: nat)
    requires |s.pending| <= AtLeastOne(limit)
    ensures Step(s, e, limit).dropped >= s.dropped
    ensures Step(s, e, limit).dropped == s.dropped <==> !HitsCap(s, e, limit)
  {
    hide Appended;
  }

  lemma {:induction false} DropsAreHits<T>(events: seq<Event<T>>, limit: nat)
    ensures Run(events, limit).dropped == 0 <==> NeverHitsCap(events, limit)
  {
    hide Step, HitsCap, Subsequence;
    if events != [] {
      var n := |events| - 1;
      var before := events[..n];
      DropsAreHits(before, limit);
      RunInv(before, limit);
      DropIsHit(Run(before, limit), events[n], limit);
      assert forall i :: 0 <= i < n ==> before[..i] == events[..i];
    }
  }

  /** Nothing is lost or reordered exactly when no step of the run hits the cap. */
  lemma LosslessIffCapNeverHit<T>(events: seq<Event<T>>, limit: nat)
    ensures var s := Run(events, limit); Line(s) == s.sent <==> NeverHitsCap(events, limit)
  {
    RunInv(events, limit);
    DropsAreHits(events, limit);
    var s := Run(events, limit);
    SubsequenceLength(Line(s), s.sent);
  }
}

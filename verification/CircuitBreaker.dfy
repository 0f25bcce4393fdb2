/** The circuit breaker: three states over sliding windows of result times. Admission and the
    recording of a result are separate steps, so results arrive in any state. */
module Circuits {
  import opened Basics
  import opened Subsequences

  datatype CircuitState = Closed | Open | HalfOpen

  datatype Config = Config(failureThreshold: int, failureWindow: int, successThreshold: int, recoveryTimeout: int)

  /** The breaker's fields as a value. */
  datatype Breaker = Breaker(
    state: CircuitState,
    failures: seq<int>,
    successes: seq<int>,
    lastFailure: int,
    requestCount: int,
    failureCount: int,
    successCount: int
  )

  const FRESH := Breaker(Closed, [], [], 0, 0, 0, 0)

  /** The times strictly after the start of the window that ends at `now`. */
  function Recent(times: seq<int>, now: int, window: int): seq<int> {
    if times == [] then []
    else
      var rest := Recent(times[..|times| - 1], now, window);
      var t := times[|times| - 1];
      if now - window < t then rest + [t] else rest
  }

  /** An open breaker whose recovery time has passed becomes half open, with empty windows. */
  function Recover(b: Breaker, c: Config, now: int): Breaker {
    if b.state == Open && now - b.lastFailure >= c.recoveryTimeout
    then b.(state := HalfOpen, successes := [], failures := [])
    else b
  }

  function RecordSuccess(b: Breaker, c: Config, now: int): Breaker {
    var failures := Recent(b.failures, now, c.failureWindow);
    var successes := Recent(b.successes + [now], now, c.failureWindow);
    var b' := b.(failures := failures, successes := successes, successCount := b.successCount + 1);
    if b.state == HalfOpen && |successes| >= c.successThreshold
    then b'.(state := Closed, failures := [])
    else b'
  }

  function RecordFailure(b: Breaker, c: Config, now: int): Breaker {
    var failures := Recent(b.failures + [now], now, c.failureWindow);
    var successes := Recent(b.successes, now, c.failureWindow);
    var trips := b.state == HalfOpen || (b.state == Closed && |failures| >= c.failureThreshold);
    b.(failures := failures, successes := successes, lastFailure := now,
       failureCount := b.failureCount + 1, state := if trips then Open else b.state)
  }

  class CircuitBreaker {
    var state: CircuitState
    const config: Config
    var failures: seq<int>
    var successes: seq<int>
    var lastFailure: int
    var requestCount: int
    var failureCount: int
    var successCount: int

    function View(): Breaker
      reads this
    {
      Breaker(state, failures, successes, lastFailure, requestCount, failureCount, successCount)
    }

    constructor (config: Config)
      ensures View() == FRESH && this.config == config
    {
      state := Closed;
      this.config := config;
      failures := [];
      successes := [];
      lastFailure := 0;
      requestCount := 0;
      failureCount := 0;
      successCount := 0;
    }

    /** `allowRequest` */
    method AllowRequest(now: int) returns (allowed: bool)
      modifies this
      ensures View() == Recover(old(View()), config, now)
      ensures allowed == (state != Open)
    {
      match state
      case Closed => allowed := true;
      case Open =>
        if now - lastFailure >= config.recoveryTimeout {
          state := HalfOpen;
          successes := [];
          failures := [];
          return true;
        }
        return false;
      case HalfOpen => allowed := true;
    }

    /** `recordResult` */
    method RecordResult(success: bool, now: int)
      modifies this
      ensures View() == if success then RecordSuccess(old(View()), config, now)
                        else RecordFailure(old(View()), config, now)
    {
      hide Recent;
      if success {
        successCount := successCount + 1;
        successes := successes + [now];
        Cleanup(now);
        if state == HalfOpen {
          if |successes| >= config.successThreshold {
            state := Closed;
            failures := [];
          }
        }
      } else {
        failureCount := failureCount + 1;
        lastFailure := now;
        failures := failures + [now];
        Cleanup(now);
        if state == HalfOpen {
          state := Open;
        } else if state == Closed {
          if |failures| >= config.failureThreshold {
            state := Open;
          }
        }
      }
    }

    /** `cleanup` */
    method Cleanup(now: int)
      modifies this`failures, this`successes
      ensures failures == Recent(old(failures), now, config.failureWindow)
      ensures successes == Recent(old(successes), now, config.failureWindow)
    {
      failures := KeepRecent(failures, now - config.failureWindow);
      successes := KeepRecent(successes, now - config.failureWindow);
    }

    /** `State` */
    method State(now: int) returns (s: CircuitState)
      modifies this
      ensures View() == Recover(old(View()), config, now) && s == state
    {
      if state == Open && now - lastFailure >= config.recoveryTimeout {
        state := HalfOpen;
        successes := [];
        failures := [];
      }
      return state;
    }

    /** `Reset` */
    method Reset()
      modifies this
      ensures View() == FRESH.(lastFailure := old(lastFailure))
    {
      state := Closed;
      failures := [];
      successes := [];
      requestCount := 0;
      failureCount := 0;
      successCount := 0;
    }
  }

  /** One of the two filtering loops of `cleanup`. */
  method KeepRecent(times: seq<int>, windowStart: int) returns (kept: seq<int>)
    ensures forall now, window {:trigger Recent(times, now, window)} ::
              now - window == windowStart ==> kept == Recent(times, now, window)
  {
    kept := [];
    for i := 0 to |times|
      invariant forall now, window {:trigger Recent(times[..i], now, window)} ::
                  now - window == windowStart ==> kept == Recent(times[..i], now, window)
    {
      assert times[..i + 1][..i] == times[..i];
      if windowStart < times[i] {
        kept := kept + [times[i]];
      }
    }
    assert times[..|times|] == times;
  }

  // Runs.

  /** A step of some caller, at a time. */
  datatype Event = Admit(now: int) | Record(success: bool, now: int) | Query(now: int) | Clear(now: int)

  /** The breaker together with, for the record, every failure and every success reported since the
      breaker last emptied its list of them. */
  datatype Run = Run(b: Breaker, log: seq<int>, wins: seq<int>, clock: int)

  const START := Run(FRESH, [], [], 0)

  function Apply(b: Breaker, c: Config, e: Event): Breaker {
    match e
    case Admit(now) => Recover(b, c, now)
    case Query(now) => Recover(b, c, now)
    case Record(success, now) => if success then RecordSuccess(b, c, now) else RecordFailure(b, c, now)
    case Clear(_) => FRESH.(lastFailure := b.lastFailure)
  }

  /** The step empties the failure window: recovery, the end of a trial, or a reset. */
  predicate Empties(b: Breaker, c: Config, e: Event) {
    var b' := Apply(b, c, e);
    e.Clear? || (b.state == Open && b'.state == HalfOpen) || (b.state == HalfOpen && b'.state == Closed)
  }

  function Step(r: Run, c: Config, e: Event): Run {
    var log := if Empties(r.b, c, e) then []
               else if e.Record? && !e.success then r.log + [e.now]
               else r.log;
    var wins := if e.Clear? || (r.b.state == Open && Apply(r.b, c, e).state == HalfOpen) then []
                else if e.Record? && e.success then r.wins + [e.now]
                else r.wins;
    Run(Apply(r.b, c, e), log, wins, e.now)
  }

  function After(c: Config, events: seq<Event>): Run {
    if events == [] then START else Step(After(c, events[..|events| - 1]), c, events[|events| - 1])
  }

  /** Times never go back. */
  predicate Monotone(events: seq<Event>, from: int) {
    && (forall i :: 0 <= i < |events| ==> from <= events[i].now)
    && (forall i, j :: 0 <= i < j < |events| ==> events[i].now <= events[j].now)
  }

  predicate Sound(c: Config) {
    c.failureThreshold > 0 && c.successThreshold > 0 && c.failureWindow > 0
  }

  lemma {:induction false} RecentConcat(a: seq<int>, b: seq<int>, now: int, w: int)
    ensures Recent(a + b, now, w) == Recent(a, now, w) + Recent(b, now, w)
  {
    if b == [] {
      assert a + b == a;
    } else {
      assert (a + b)[..|a + b| - 1] == a + b[..|b| - 1];
      RecentConcat(a, b[..|b| - 1], now, w);
    }
  }

  /** What is recent: exactly the times after the start of the window, each as often as it was recorded,
      in the order they were recorded. */
  lemma {:induction false} RecentMeans(times: seq<int>, now: int, w: int)
    ensures forall t :: multiset(Recent(times, now, w))[t] == if now - w < t then multiset(times)[t] else 0
    ensures Subsequence(Recent(times, now, w), times)
  {
    if times != [] {
      var init, last := times[..|times| - 1], times[|times| - 1];
      assert times == init + [last];
      RecentMeans(init, now, w);
      SubsequenceMore(Recent(init, now, w), init, last);
    }
  }

  ghost function Younger(times: seq<int>, from: int): (marks: seq<bool>)
    ensures |marks| == |times|
  {
    seq(|times|, i requires 0 <= i < |times| => from < times[i])
  }

  lemma {:induction false} RecentMarked(times: seq<int>, now: int, w: int)
    ensures |Recent(times, now, w)| == |Marked(Younger(times, now - w))|
  {
    hide Marked;
    var marks := Younger(times, now - w);
    if times == [] {
      assert Marked([]) == {} by {
        NothingMarked();
      }
    } else {
      var n := |times| - 1;
      RecentMarked(times[..n], now, w);
      assert marks[..n] == Younger(times[..n], now - w);
      MarkedNext(marks);
    }
  }

  lemma NothingMarked()
    ensures Marked([]) == {}
  {
  }

  lemma RecentCounted(times: seq<int>, now: int, w: int)
    ensures |Recent(times, now, w)| == |set i | 0 <= i < |times| && now - w < times[i]|
  {
    hide Recent;
    RecentMarked(times, now, w);
    assert Marked(Younger(times, now - w)) == set i | 0 <= i < |times| && now - w < times[i];
  }

  /** What is stored stands for the full record, with one time more. */
  lemma OneMoreCounted(stored: seq<int>, all: seq<int>, now: int, w: int)
    requires Recent(stored, now, w) == Recent(all, now, w)
    ensures var more := all + [now];
            |Recent(stored + [now], now, w)| == |set i | 0 <= i < |more| && now - w < more[i]|
  {
    hide Recent;
    RecentConcat(stored, [now], now, w);
    RecentConcat(all, [now], now, w);
    RecentCounted(all + [now], now, w);
  }

  /** Looking through a later window, an earlier clean-up makes no difference. */
  lemma {:induction false} RecentTwice(a: seq<int>, now: int, later: int, w: int)
    requires now <= later
    ensures Recent(Recent(a, now, w), later, w) == Recent(a, later, w)
  {
    if a != [] {
      var init, t := a[..|a| - 1], a[|a| - 1];
      RecentTwice(init, now, later, w);
      RecentConcat(Recent(init, now, w), [t], later, w);
    }
  }

  /** The stored failures and the full log agree on every window from now on. */
  ghost predicate LogAgrees(r: Run, c: Config) {
    forall now :: r.clock <= now ==>
      Recent(r.b.failures, now, c.failureWindow) == Recent(r.log, now, c.failureWindow)
  }

  /** The stored successes and the full record of them agree on every window from now on. */
  ghost predicate WinsAgree(r: Run, c: Config) {
    forall now :: r.clock <= now ==>
      Recent(r.b.successes, now, c.failureWindow) == Recent(r.wins, now, c.failureWindow)
  }

  predicate StateOk(b: Breaker, c: Config) {
    && (b.state == Closed ==> |b.failures| < c.failureThreshold)
    && (b.state == HalfOpen ==> b.failures == [] && |b.successes| < c.successThreshold)
  }

  lemma RecentShrinks(a: seq<int>, now: int, w: int)
    ensures |Recent(a, now, w)| <= |a|
  {
  }

  lemma StateOkStep(b: Breaker, c: Config, e: Event)
    requires Sound(c) && StateOk(b, c)
    ensures StateOk(Apply(b, c, e), c)
  {
    if e.Record? {
      RecentShrinks(b.failures, e.now, c.failureWindow);
    }
  }

  lemma LogAgreesStep(r: Run, c: Config, e: Event)
    requires LogAgrees(r, c) && r.clock <= e.now
    requires r.b.state == HalfOpen ==> r.b.failures == []
    ensures LogAgrees(Step(r, c, e), c)
  {
    var w := c.failureWindow;
    var r' := Step(r, c, e);
    forall now | e.now <= now ensures Recent(r'.b.failures, now, w) == Recent(r'.log, now, w) {
      if !Empties(r.b, c, e) && e.Record? {
        if e.success {
          RecentTwice(r.b.failures, e.now, now, w);
        } else {
          RecentTwice(r.b.failures + [e.now], e.now, now, w);
          RecentConcat(r.b.failures, [e.now], now, w);
          RecentConcat(r.log, [e.now], now, w);
        }
      }
    }
  }

  lemma WinsAgreeStep(r: Run, c: Config, e: Event)
    requires WinsAgree(r, c) && r.clock <= e.now
    ensures WinsAgree(Step(r, c, e), c)
  {
    var w := c.failureWindow;
    var r' := Step(r, c, e);
    forall now | e.now <= now ensures Recent(r'.b.successes, now, w) == Recent(r'.wins, now, w) {
      if e.Record? {
        if e.success {
          RecentTwice(r.b.successes + [e.now], e.now, now, w);
          RecentConcat(r.b.successes, [e.now], now, w);
          RecentConcat(r.wins, [e.now], now, w);
        } else {
          RecentTwice(r.b.successes, e.now, now, w);
        }
      }
    }
  }

  /** In every reachable state: a closed breaker stores fewer failures than the threshold, a half-open
      one stores no failure and too few successes to close, and the stored times stand for the
      full records since the lists were last emptied. */
  lemma {:induction false} Invariant(c: Config, events: seq<Event>)
    requires Sound(c) && Monotone(events, 0)
    ensures var r := After(c, events);
            && StateOk(r.b, c) && LogAgrees(r, c) && WinsAgree(r, c)
            && r.clock == if events == [] then 0 else events[|events| - 1].now
  {
    if events != [] {
      var init, e := events[..|events| - 1], events[|events| - 1];
      Invariant(c, init);
      var r := After(c, init);
      assert r.clock <= e.now;
      StateOkStep(r.b, c, e);
      LogAgreesStep(r, c, e);
      WinsAgreeStep(r, c, e);
    }
  }

  /** A closed breaker opens exactly when a failure is recorded and enough of the failures since the window
      was last emptied, clean-ups or not, this one included, are younger than the window is long. */
  lemma TripsExactly(c: Config, events: seq<Event>, e: Event)
    requires Sound(c) && Monotone(events + [e], 0) && After(c, events).b.state == Closed
    ensures var r := After(c, events);
            var all := r.log + [e.now];
            Step(r, c, e).b.state == Open <==>
              && e.Record? && !e.success
              && |set i | 0 <= i < |all| && e.now - c.failureWindow < all[i]| >= c.failureThreshold
  {
    hide Step, StateOk, Sound;
    LastStep(c, events, e);
    TripsStep(After(c, events), c, e);
  }

  /** Before any further step the stored times agree with the full records in the window that ends then. */
  lemma LastStep(c: Config, events: seq<Event>, e: Event)
    requires Sound(c) && Monotone(events + [e], 0)
    ensures var r := After(c, events);
            && StateOk(r.b, c)
            && Recent(r.b.failures, e.now, c.failureWindow) == Recent(r.log, e.now, c.failureWindow)
            && Recent(r.b.successes, e.now, c.failureWindow) == Recent(r.wins, e.now, c.failureWindow)
  {
    hide After, StateOk, Sound, Recent;
    assert forall i :: 0 <= i < |events| ==> events[i] == (events + [e])[i];
    assert (events + [e])[|events|] == e;
    Invariant(c, events);
  }

  lemma TripsStep(r: Run, c: Config, e: Event)
    requires r.b.state == Closed && StateOk(r.b, c)
    requires Recent(r.b.failures, e.now, c.failureWindow) == Recent(r.log, e.now, c.failureWindow)
    ensures var all := r.log + [e.now];
            Step(r, c, e).b.state == Open <==>
              && e.Record? && !e.success
              && |set i | 0 <= i < |all| && e.now - c.failureWindow < all[i]| >= c.failureThreshold
  {
    hide Recent;
    OneMoreCounted(r.b.failures, r.log, e.now, c.failureWindow);
  }

  lemma ClosesStep(r: Run, c: Config, e: Event)
    requires r.b.state == HalfOpen && !e.Clear?
    requires Recent(r.b.successes, e.now, c.failureWindow) == Recent(r.wins, e.now, c.failureWindow)
    ensures var all := r.wins + [e.now];
            Step(r, c, e).b.state == Closed <==>
              && e.Record? && e.success
              && |set i | 0 <= i < |all| && e.now - c.failureWindow < all[i]| >= c.successThreshold
    ensures Step(r, c, e).b.state == Open <==> e.Record? && !e.success
  {
    hide Recent;
    OneMoreCounted(r.b.successes, r.wins, e.now, c.failureWindow);
  }

  /** A half-open breaker closes exactly when a success is recorded and enough of the successes since
      it became half open are in the current window; it opens again exactly at a failure. */
  lemma ClosesExactly(c: Config, events: seq<Event>, e: Event)
    requires Sound(c) && Monotone(events + [e], 0) && After(c, events).b.state == HalfOpen && !e.Clear?
    ensures var r := After(c, events);
            var all := r.wins + [e.now];
            && (Step(r, c, e).b.state == Closed <==>
                  && e.Record? && e.success
                  && |set i | 0 <= i < |all| && e.now - c.failureWindow < all[i]| >= c.successThreshold)
            && (Step(r, c, e).b.state == Open <==> e.Record? && !e.success)
  {
    hide Step, StateOk, Sound;
    LastStep(c, events, e);
    ClosesStep(After(c, events), c, e);
  }

  /** The results of one kind since the last reset. */
  function ResultsOf(events: seq<Event>, success: bool): set<int> {
    set i | 0 <= i < |events| && events[i].Record? && events[i].success == success
            && forall j :: i < j < |events| ==> !events[j].Clear?
  }

  /** The counters count the results of each kind since the last reset. */
  lemma {:induction false} CountersCount(c: Config, events: seq<Event>)
    ensures After(c, events).b.failureCount == |ResultsOf(events, false)|
    ensures After(c, events).b.successCount == |ResultsOf(events, true)|
  {
    if events == [] {
      assert ResultsOf(events, false) == {} && ResultsOf(events, true) == {};
    } else {
      var n := |events| - 1;
      CountersCount(c, events[..n]);
      ResultsNext(events, false);
      ResultsNext(events, true);
      hide Recent, ResultsOf;
    }
  }

  lemma ResultsNext(events: seq<Event>, success: bool)
    requires events != []
    ensures var n := |events| - 1; var e := events[n];
            |ResultsOf(events, success)| ==
              if e.Clear? then 0
              else |ResultsOf(events[..n], success)| + if e.Record? && e.success == success then 1 else 0
  {
    var n := |events| - 1;
    var e := events[n];
    if e.Clear? {
      assert ResultsOf(events, success) == {};
    } else {
      ResultsKept(events, success);
      hide ResultsOf;
    }
  }

  lemma ResultsKept(events: seq<Event>, success: bool)
    requires events != [] && !events[|events| - 1].Clear?
    ensures var n := |events| - 1; var e := events[n]; var before := ResultsOf(events[..n], success);
            && n !in before
            && ResultsOf(events, success) == before + if e.Record? && e.success == success then {n} else {}
  {
    var n := |events| - 1;
    var init := events[..n];
    forall i | 0 <= i < n ensures i in ResultsOf(events, success) <==> i in ResultsOf(init, success) {
      assert init[i] == events[i];
      assert forall j :: i < j < n ==> init[j] == events[j];
      assert (forall j :: i < j < |events| ==> !events[j].Clear?) <==> (forall j :: i < j < n ==> !init[j].Clear?);
    }
  }

  /** The time of the last failure of a run. */
  function LastFailureTime(events: seq<Event>): int {
    if events == [] then 0
    else
      var e := events[|events| - 1];
      if e.Record? && !e.success then e.now else LastFailureTime(events[..|events| - 1])
  }

  /** An open breaker lets a request through, or reports itself half open, exactly when the recovery
      time has passed since the last failure of the whole run; nothing but that or a reset ends the
      open state. */
  lemma RecoversExactly(c: Config, events: seq<Event>, e: Event)
    requires After(c, events).b.state == Open && !e.Clear?
    ensures Step(After(c, events), c, e).b.state != Open <==>
              (e.Admit? || e.Query?) && e.now - LastFailureTime(events) >= c.recoveryTimeout
  {
    LastFailureKept(c, events);
  }

  lemma {:induction false} LastFailureKept(c: Config, events: seq<Event>)
    ensures After(c, events).b.lastFailure == LastFailureTime(events)
  {
    hide Recent;
    if events != [] {
      LastFailureKept(c, events[..|events| - 1]);
    }
  }

  /** The result of an admission or of a state query. */
  predicate Rejects(b: Breaker, c: Config, e: Event) {
    (e.Admit? || e.Query?) ==> Apply(b, c, e).state == Open
  }

  function ApplyAll(b: Breaker, c: Config, events: seq<Event>): Breaker {
    if events == [] then b else Apply(ApplyAll(b, c, events[..|events| - 1]), c, events[|events| - 1])
  }

  /** Without a reset, a breaker that opened at `since` rejects every request and reports itself
      open until the recovery time has passed since then, whatever results still arrive. */
  lemma {:induction false} NoEarlyAdmission(c: Config, b: Breaker, since: int, events: seq<Event>)
    requires b.state == Open && since <= b.lastFailure
    requires Monotone(events, since)
    requires forall i :: 0 <= i < |events| ==> !events[i].Clear? && events[i].now < since + c.recoveryTimeout
    ensures var b' := ApplyAll(b, c, events); b'.state == Open && since <= b'.lastFailure
    ensures forall i :: 0 <= i < |events| ==> Rejects(ApplyAll(b, c, events[..i]), c, events[i])
  {
    hide Recent;
    if events != [] {
      var n := |events| - 1;
      var init := events[..n];
      NoEarlyAdmission(c, b, since, init);
      forall i | 0 <= i < |events| ensures Rejects(ApplyAll(b, c, events[..i]), c, events[i]) {
        assert i < n ==> events[..i] == init[..i] && events[i] == init[i];
      }
    }
  }

  lemma {:induction false} AfterIsApplyAll(c: Config, events: seq<Event>)
    ensures After(c, events).b == ApplyAll(FRESH, c, events)
  {
    if events != [] {
      AfterIsApplyAll(c, events[..|events| - 1]);
    }
  }

  lemma {:induction false} ApplyAllConcat(c: Config, b: Breaker, s: seq<Event>, t: seq<Event>)
    ensures ApplyAll(b, c, s + t) == ApplyAll(ApplyAll(b, c, s), c, t)
  {
    if t == [] {
      assert s + t == s;
    } else {
      assert (s + t)[..|s + t| - 1] == s + t[..|t| - 1];
      ApplyAllConcat(c, b, s, t[..|t| - 1]);
    }
  }

  /** The same over whole runs: if step `i` opens the breaker, then no later step within the recovery
      time of that failure admits a request, unless a reset comes between. */
  lemma OpenMeansClosedDoor(c: Config, events: seq<Event>, i: nat, j: nat)
    requires i < j < |events| && Monotone(events, 0)
    requires After(c, events[..i]).b.state != Open && After(c, events[..i + 1]).b.state == Open
    requires forall k :: i < k <= j ==> !events[k].Clear?
    requires events[j].now < events[i].now + c.recoveryTimeout
    ensures Rejects(After(c, events[..j]).b, c, events[j])
  {
    hide After, Apply, ApplyAll, Rejects, Monotone, Recent;
    OpeningTime(c, events, i);
    var since := events[i].now;
    var b := After(c, events[..i + 1]).b;
    var later := events[i + 1..j + 1];
    LaterEvents(c, events, i, j);
    NoEarlyAdmission(c, b, since, later);
    assert later[j - i - 1] == events[j];
    assert events[..j] == events[..i + 1] + later[..j - i - 1];
    AfterIsApplyAll(c, events[..i + 1]);
    AfterIsApplyAll(c, events[..j]);
    ApplyAllConcat(c, FRESH, events[..i + 1], later[..j - i - 1]);
  }

  lemma LaterEvents(c: Config, events: seq<Event>, i: nat, j: nat)
    requires i < j < |events| && Monotone(events, 0)
    requires forall k :: i < k <= j ==> !events[k].Clear?
    requires events[j].now < events[i].now + c.recoveryTimeout
    ensures var later := events[i + 1..j + 1];
            && Monotone(later, events[i].now)
            && forall k :: 0 <= k < |later| ==> !later[k].Clear? && later[k].now < events[i].now + c.recoveryTimeout
  {
    var later := events[i + 1..j + 1];
    forall k | 0 <= k < |later|
      ensures events[i].now <= later[k].now <= events[j].now && !later[k].Clear?
    {
      assert later[k] == events[i + 1 + k];
    }
  }

  /** A breaker opens at the time of its last failure. */
  lemma OpeningTime(c: Config, events: seq<Event>, i: nat)
    requires i < |events|
    requires After(c, events[..i]).b.state != Open && After(c, events[..i + 1]).b.state == Open
    ensures After(c, events[..i + 1]).b.lastFailure == events[i].now
  {
    hide Recent;
    assert events[..i + 1][..i] == events[..i];
  }
}

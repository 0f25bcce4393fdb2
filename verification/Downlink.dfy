/** Downlink requests of the iThings adapter: a request turns into several commands, and its reply is
    due when the last of their results arrives. */
module Downlink {
  import opened Basics
  import opened Slices
  import opened QueueAppend

  datatype RequestState = RequestState(
    requestId: string,
    productId: string,
    deviceName: string,
    topicType: string,
    requestMethod: string,
    actionId: string,
    pending: int,
    success: bool,
    code: int,
    message: string,
    fieldName: string,
    fieldValue: string
  )

  datatype CommandResult = CommandResult(
    requestId: string,
    productKey: string,
    deviceKey: string,
    success: bool,
    code: int,
    message: string,
    fieldName: string,
    fieldValue: string
  )

  type States = map<string, RequestState>

  /** The parts of a downlink message that its handler reads, and the commands built from it. */
  datatype Message<C> = Message(
    requestId: string,
    productId: string,
    deviceName: string,
    topicType: string,
    requestMethod: string,
    actionId: string,
    commands: seq<C>
  )

  function Registered<C>(m: Message<C>): RequestState {
    RequestState(m.requestId, m.productId, m.deviceName, m.topicType, m.requestMethod, m.actionId,
                 |m.commands|, true, 0, "", "", "")
  }

  function OrElse(text: string, otherwise: string): string {
    if text != "" then text else otherwise
  }

  /** The state after one more result; `trim` stands for `strings.TrimSpace`. */
  function Absorb(s: RequestState, r: CommandResult, trim: string -> string): RequestState {
    s.(pending := if s.pending - 1 < 0 then 0 else s.pending - 1,
       success := s.success && r.success,
       code := if r.code != 0 then r.code else s.code,
       message := OrElse(trim(r.message), s.message),
       fieldName := OrElse(trim(r.fieldName), s.fieldName),
       fieldValue := if trim(r.fieldValue) != "" then r.fieldValue else s.fieldValue,
       productId := OrElse(trim(r.productKey), s.productId),
       deviceName := OrElse(trim(r.deviceKey), s.deviceName))
  }

  function Fallback(r: CommandResult, trim: string -> string): RequestState {
    RequestState(r.requestId, trim(r.productKey), trim(r.deviceKey), "property", "control", "",
                 1, r.success, r.code, trim(r.message), trim(r.fieldName), r.fieldValue)
  }

  /** The states left and, when a reply is due, the state it is built from. */
  function Apply(states: States, r: CommandResult, trim: string -> string): (States, Option<RequestState>) {
    if r.requestId !in states then (states, Some(Fallback(r, trim)))
    else
      var s := Absorb(states[r.requestId], r, trim);
      if s.pending > 0 then (states[r.requestId := s], None)
      else (states - {r.requestId}, Some(s))
  }

  class Adapter<C> {
    var commandQueue: Slice<C>
    var requestStates: States
    const commandCap: int
    const trim: string -> string

    constructor (commandCap: int, trim: string -> string)
      ensures commandQueue.Valid() && commandQueue == Nil && requestStates == map[]
      ensures this.commandCap == commandCap && this.trim == trim
    {
      commandQueue := Nil;
      requestStates := map[];
      this.commandCap := commandCap;
      this.trim := trim;
    }

    /** `handleDownlink`, once the commands are built, holding the command lock: enqueue them. Without
        commands the handler ends here. */
    method EnqueueCommands(m: Message<C>) returns (some: bool)
      requires commandQueue.Valid()
      modifies this`commandQueue, commandQueue.Frame()
      ensures commandQueue.Valid() && some == (m.commands != [])
      ensures !some ==> commandQueue == old(commandQueue) && commandQueue.Items() == old(commandQueue.Items())
      ensures some ==>
                commandQueue.Items() == Last(old(commandQueue.Items()) + Present(m.commands), CommandLimit(commandCap))
    {
      hide NonNil, Last, CommandLimit;
      if |m.commands| == 0 {
        return false;
      }
      PresentKept(m.commands);
      commandQueue := AppendCommands(commandQueue, Present(m.commands), commandCap);
      return true;
    }

    /** `handleDownlink`, later, holding the request lock: register the request. A result that comes in
        between finds no request. */
    method RegisterRequest(m: Message<C>)
      modifies this`requestStates
      ensures requestStates == Step(old(requestStates), Arrives(m.requestId, Registered(m)), trim).0
      ensures var s := requestStates[m.requestId];
              && s.pending == |m.commands| && s.success && s.code == 0
              && s.requestId == m.requestId && s.productId == m.productId && s.deviceName == m.deviceName
              && s.topicType == m.topicType && s.requestMethod == m.requestMethod && s.actionId == m.actionId
              && s.message == s.fieldName == s.fieldValue == ""
    {
      requestStates := requestStates[m.requestId := Registered(m)];
    }

    /** `applyCommandResult` */
    method ApplyCommandResult(r: CommandResult) returns (ready: Option<RequestState>)
      modifies this`requestStates
      ensures (requestStates, ready) == Apply(old(requestStates), r, trim)
    {
      if r.requestId !in requestStates {
        return Some(Fallback(r, trim));
      }
      var s := AbsorbResult(requestStates[r.requestId], r, trim);
      if s.pending > 0 {
        requestStates := requestStates[r.requestId := s];
        return None;
      }
      requestStates := requestStates - {r.requestId};
      return Some(s);
    }
  }

  /** The field updates of `applyCommandResult`. */
  method AbsorbResult(s: RequestState, r: CommandResult, trim: string -> string) returns (s': RequestState)
    ensures s' == Absorb(s, r, trim)
  {
    s' := s.(pending := s.pending - 1);
    if s'.pending < 0 {
      s' := s'.(pending := 0);
    }
    if !r.success {
      s' := s'.(success := false);
    }
    if r.code != 0 {
      s' := s'.(code := r.code);
    }
    s' := s'.(message := OrElse(trim(r.message), s.message), fieldName := OrElse(trim(r.fieldName), s.fieldName));
    if trim(r.fieldValue) != "" {
      s' := s'.(fieldValue := r.fieldValue);
    }
    s' := s'.(productId := OrElse(trim(r.productKey), s.productId),
              deviceName := OrElse(trim(r.deviceKey), s.deviceName));
  }

  function Present<C>(commands: seq<C>): (r: seq<Option<C>>)
    ensures |r| == |commands|
  {
    seq(|commands|, i requires 0 <= i < |commands| => Some(commands[i]))
  }

  lemma {:induction false} PresentKept<C>(commands: seq<C>)
    ensures NonNil(Present(commands)) == Present(commands)
  {
    if commands != [] {
      var n := |commands| - 1;
      PresentKept(commands[..n]);
      assert Present(commands)[..n] == Present(commands[..n]);
      assert Present(commands) == Present(commands)[..n] + [Some(commands[n])];
    }
  }

  // Runs.

  /** Something happens to the registered requests: another request arrives, or a result does. */
  datatype Event = Arrives(id: string, state: RequestState) | Answers(result: CommandResult)

  function Step(states: States, e: Event, trim: string -> string): (States, Option<RequestState>) {
    match e
    case Arrives(id, s) => (states[id := s], None)
    case Answers(r) => Apply(states, r, trim)
  }

  function After(states: States, events: seq<Event>, trim: string -> string): States {
    if events == [] then states
    else Step(After(states, events[..|events| - 1], trim), events[|events| - 1], trim).0
  }

  /** The results for request `id`, in order. */
  function ResultsFor(events: seq<Event>, id: string): seq<CommandResult> {
    if events == [] then []
    else
      var e := events[|events| - 1];
      ResultsFor(events[..|events| - 1], id)
      + if e.Answers? && e.result.requestId == id then [e.result] else []
  }

  predicate AllSucceeded(results: seq<CommandResult>) {
    forall i :: 0 <= i < |results| ==> results[i].success
  }

  /** No other request takes over the id. */
  predicate IdKept(events: seq<Event>, id: string) {
    forall i :: 0 <= i < |events| ==> !(events[i].Arrives? && events[i].id == id)
  }

  /** While fewer results than commands have come in, the request waits for the rest, and its success
      is the conjunction of the results so far. */
  lemma {:induction false} WaitsForAll(states: States, id: string, events: seq<Event>, trim: string -> string)
    requires id in states && states[id].success && IdKept(events, id)
    requires |ResultsFor(events, id)| < states[id].pending
    ensures var s' := After(states, events, trim); var rs := ResultsFor(events, id);
            && id in s' && s'[id].pending == states[id].pending - |rs|
            && (s'[id].success <==> AllSucceeded(rs))
  {
    hide Absorb, Fallback;
    if events != [] {
      var init, e := events[..|events| - 1], events[|events| - 1];
      WaitsForAll(states, id, init, trim);
      if e.Answers? && e.result.requestId == id {
        AbsorbCounts(After(states, init, trim)[id], e.result, trim);
        SucceededMore(ResultsFor(init, id), e.result);
      } else {
        assert ResultsFor(events, id) == ResultsFor(init, id);
      }
    }
  }

  lemma AbsorbCounts(s: RequestState, r: CommandResult, trim: string -> string)
    requires s.pending >= 1
    ensures Absorb(s, r, trim).pending == s.pending - 1
    ensures Absorb(s, r, trim).success == (s.success && r.success)
  {
  }

  lemma SucceededMore(rs: seq<CommandResult>, r: CommandResult)
    ensures AllSucceeded(rs + [r]) <==> AllSucceeded(rs) && r.success
  {
    assert forall i :: 0 <= i < |rs| ==> (rs + [r])[i] == rs[i];
    assert (rs + [r])[|rs|] == r;
  }

  /** A registered request of `n` commands becomes ready exactly at the n-th of its results, whatever
      happens to other requests in between, and reports success exactly if all n succeeded. */
  lemma ReadyAtLast(states: States, id: string, events: seq<Event>, r: CommandResult, trim: string -> string)
    requires id in states && states[id].success && IdKept(events, id) && r.requestId == id
    requires |ResultsFor(events, id)| < states[id].pending
    ensures var n := states[id].pending; var rs := ResultsFor(events, id) + [r];
            var (left, ready) := Apply(After(states, events, trim), r, trim);
            && (ready.Some? <==> |rs| == n)
            && (ready.Some? ==> ready.value.success == AllSucceeded(rs) && id !in left)
  {
    hide Absorb;
    WaitsForAll(states, id, events, trim);
    AbsorbCounts(After(states, events, trim)[id], r, trim);
    SucceededMore(ResultsFor(events, id), r);
  }

  lemma {:induction false} AnsweredAtLast(states: States, id: string, events: seq<Event>, trim: string -> string)
    requires id in states && states[id].success && IdKept(events, id)
    requires |ResultsFor(events, id)| >= states[id].pending > 0
    ensures id !in After(states, events, trim)
  {
    hide Absorb, Fallback;
    var init, e := events[..|events| - 1], events[|events| - 1];
    if |ResultsFor(init, id)| >= states[id].pending {
      AnsweredAtLast(states, id, init, trim);
    } else {
      WaitsForAll(states, id, init, trim);
      ReadyAtLast(states, id, init, e.result, trim);
    }
  }

  lemma {:induction false} UnknownKept(states: States, id: string, events: seq<Event>, trim: string -> string)
    requires id !in states && IdKept(events, id)
    ensures id !in After(states, events, trim)
  {
    hide Absorb, Fallback;
    if events != [] {
      UnknownKept(states, id, events[..|events| - 1], trim);
    }
  }

  /** A request's commands are enqueued before it is registered, so results may come before that. When
      all n results have come, some before and the others after the registering, the request has been
      answered and forgotten if and only if none of them came before. */
  lemma AnsweredIffRegisteredFirst<C>(states: States, m: Message<C>, before: seq<Event>, after: seq<Event>,
                                      trim: string -> string)
    requires m.requestId !in states && m.commands != []
    requires IdKept(before, m.requestId) && IdKept(after, m.requestId)
    requires |ResultsFor(before, m.requestId)| + |ResultsFor(after, m.requestId)| == |m.commands|
    ensures var known := Step(After(states, before, trim), Arrives(m.requestId, Registered(m)), trim).0;
            m.requestId !in After(known, after, trim) <==> ResultsFor(before, m.requestId) == []
  {
    var known := Step(After(states, before, trim), Arrives(m.requestId, Registered(m)), trim).0;
    hide After, Absorb, Fallback, ResultsFor;
    UnknownKept(states, m.requestId, before, trim);
    if ResultsFor(before, m.requestId) == [] {
      AnsweredAtLast(known, m.requestId, after, trim);
    } else {
      WaitsForAll(known, m.requestId, after, trim);
    }
  }

  /** Each of the results that came before was answered at once, as that of an unknown request. */
  lemma EarlyResultAnswered(states: States, id: string, before: seq<Event>, r: CommandResult, trim: string -> string)
    requires id !in states && IdKept(before, id) && r.requestId == id
    ensures var reply := Apply(After(states, before, trim), r, trim).1;
            && reply.Some? && reply.value.requestId == r.requestId
            && reply.value.success == r.success && reply.value.code == r.code
            && reply.value.message == trim(r.message) && reply.value.fieldName == trim(r.fieldName)
            && reply.value.fieldValue == r.fieldValue
            && reply.value.productId == trim(r.productKey) && reply.value.deviceName == trim(r.deviceKey)
            && reply.value.topicType == "property" && reply.value.requestMethod == "control"
            && reply.value.actionId == "" && reply.value.pending == 1
  {
    hide After;
    UnknownKept(states, id, before, trim);
  }

  /** A request of one command whose only result comes too early: it stays registered. */
  lemma EarlyResultStrands<C>(command: C, trim: string -> string)
    ensures var m := Message("r", "", "", "property", "control", "", [command]);
            var early := Answers(CommandResult("r", "", "", true, 0, "", "", ""));
            var known := Step(After(map[], [early], trim), Arrives("r", Registered(m)), trim).0;
            known == map["r" := Registered(m)] && known["r"].pending == 1
  {
    var early := Answers(CommandResult("r", "", "", true, 0, "", "", ""));
    assert [early][..0] == [] && After(map[], [], trim) == map[];
  }

  // What the reply says: of each item, what the last result that had any said.

  function Given(value: string, text: string): Option<string> {
    if text != "" then Some(value) else None
  }

  /** What one result says of the code, the message, the field's name and value, the product and the device. */
  function Code(r: CommandResult): Option<int> {
    if r.code != 0 then Some(r.code) else None
  }

  datatype Texts = Texts(message: Option<string>, fieldName: Option<string>, fieldValue: Option<string>,
                         product: Option<string>, device: Option<string>)

  /** Texts count if they are not blank, and are trimmed, except for the value. */
  function Said(r: CommandResult, trim: string -> string): Texts {
    Texts(Given(trim(r.message), trim(r.message)), Given(trim(r.fieldName), trim(r.fieldName)),
          Given(r.fieldValue, trim(r.fieldValue)),
          Given(trim(r.productKey), trim(r.productKey)), Given(trim(r.deviceKey), trim(r.deviceKey)))
  }

  /** `v` is what the last result that says anything of an item says of it, or `initial` if none does. */
  ghost predicate LastGiven<T>(rs: seq<CommandResult>, of: CommandResult -> Option<T>, initial: T, v: T) {
    || (v == initial && forall i :: 0 <= i < |rs| ==> of(rs[i]) == None)
    || exists i :: 0 <= i < |rs| && of(rs[i]) == Some(v) && forall j :: i < j < |rs| ==> of(rs[j]) == None
  }

  lemma LastGivenNext<T>(rs: seq<CommandResult>, of: CommandResult -> Option<T>, initial: T, v: T, r: CommandResult)
    requires LastGiven(rs, of, initial, v)
    ensures LastGiven(rs + [r], of, initial, if of(r).Some? then of(r).value else v)
  {
    var more := rs + [r];
    assert more[|rs|] == r;
    if of(r) == None && !(v == initial && forall i :: 0 <= i < |rs| ==> of(rs[i]) == None) {
      var i :| 0 <= i < |rs| && of(rs[i]) == Some(v) && forall j :: i < j < |rs| ==> of(rs[j]) == None;
      assert of(more[i]) == Some(v) && forall j :: i < j < |more| ==> of(more[j]) == None;
    }
  }

  /** Every item of the reply is the last given one; whom it answers is as it was registered. */
  ghost predicate Reports(s: RequestState, initial: RequestState, rs: seq<CommandResult>, trim: string -> string) {
    && LastGiven(rs, (r: CommandResult) => Code(r), initial.code, s.code)
    && LastGiven(rs, (r: CommandResult) => Said(r, trim).message, initial.message, s.message)
    && LastGiven(rs, (r: CommandResult) => Said(r, trim).fieldName, initial.fieldName, s.fieldName)
    && LastGiven(rs, (r: CommandResult) => Said(r, trim).fieldValue, initial.fieldValue, s.fieldValue)
    && LastGiven(rs, (r: CommandResult) => Said(r, trim).product, initial.productId, s.productId)
    && LastGiven(rs, (r: CommandResult) => Said(r, trim).device, initial.deviceName, s.deviceName)
    && s.requestId == initial.requestId && s.topicType == initial.topicType
    && s.requestMethod == initial.requestMethod && s.actionId == initial.actionId
  }

  lemma ReportsNext(s: RequestState, initial: RequestState, rs: seq<CommandResult>, r: CommandResult,
                    trim: string -> string)
    requires Reports(s, initial, rs, trim)
    ensures Reports(Absorb(s, r, trim), initial, rs + [r], trim)
  {
    hide LastGiven;
    LastGivenNext(rs, (r: CommandResult) => Code(r), initial.code, s.code, r);
    LastGivenNext(rs, (r: CommandResult) => Said(r, trim).message, initial.message, s.message, r);
    LastGivenNext(rs, (r: CommandResult) => Said(r, trim).fieldName, initial.fieldName, s.fieldName, r);
    LastGivenNext(rs, (r: CommandResult) => Said(r, trim).fieldValue, initial.fieldValue, s.fieldValue, r);
    LastGivenNext(rs, (r: CommandResult) => Said(r, trim).product, initial.productId, s.productId, r);
    LastGivenNext(rs, (r: CommandResult) => Said(r, trim).device, initial.deviceName, s.deviceName, r);
  }

  lemma ReportsNothing(s: RequestState, trim: string -> string)
    ensures Reports(s, s, [], trim)
  {
  }

  lemma {:induction false} ReportsSoFar(states: States, id: string, events: seq<Event>, trim: string -> string)
    requires id in states && states[id].success && IdKept(events, id)
    requires |ResultsFor(events, id)| < states[id].pending
    ensures id in After(states, events, trim)
         && Reports(After(states, events, trim)[id], states[id], ResultsFor(events, id), trim)
  {
    hide Absorb, Fallback, Reports;
    WaitsForAll(states, id, events, trim);
    if events == [] {
      ReportsNothing(states[id], trim);
    } else {
      var init, e := events[..|events| - 1], events[|events| - 1];
      WaitsForAll(states, id, init, trim);
      ReportsSoFar(states, id, init, trim);
      if e.Answers? && e.result.requestId == id {
        ReportsNext(After(states, init, trim)[id], states[id], ResultsFor(init, id), e.result, trim);
      } else {
        assert ResultsFor(events, id) == ResultsFor(init, id);
      }
    }
  }

  /** The reply to a request carries the last non-zero code and the last non-blank message, field name, field
      value, product and device among its results, and answers the request as it was registered. */
  lemma ReplyReportsLast(states: States, id: string, events: seq<Event>, r: CommandResult, trim: string -> string)
    requires id in states && states[id].success && IdKept(events, id) && r.requestId == id
    requires |ResultsFor(events, id)| < states[id].pending
    ensures var ready := Apply(After(states, events, trim), r, trim).1;
            ready.Some? ==> Reports(ready.value, states[id], ResultsFor(events, id) + [r], trim)
  {
    hide Absorb, Reports;
    ReportsSoFar(states, id, events, trim);
    ReportsNext(After(states, events, trim)[id], states[id], ResultsFor(events, id), r, trim);
  }
}

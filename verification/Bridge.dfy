/** The request registry between Chromium and ArkTS
    (overlay/components/ohos_system_service/system_service_ohos.cc). Every method of the
    class touches the shared fields in lock-sized pieces; each piece is a function of the
    guarded state, and BridgeRuns.dfy interleaves those pieces in every possible way. */
module Bridge {
  import opened Options

  const INT_MAX := 0x7fff_ffff

  /** A caller's reply callback, as a token of its own, and the sequence it must run on. */
  datatype PendingCall = PendingCall(token: nat, runner: int)

  /** The value a reply carries is opaque to the bridge. */
  datatype Value = Empty | Json(text: string)

  /** The error text of a reply: none, one of the bridge's own, or one ArkTS sent. */
  datatype Error = Blank | WentAway | Unavailable | NotEncoded | Cancelled | Reported | Told(text: string)

  datatype Reply = Reply(ok: bool, error: Error, result: Value)

  function MakeError(e: Error): Reply { Reply(false, e, Empty) }

  // ---- Guarded state ---------------------------------------------------------

  datatype Core = Core(attached: bool, nextId: int, pending: map<int, PendingCall>)

  /** The locked part of SetDispatcher: what is left behind when nobody answers any more. */
  function Attach(c: Core, dispatcher: bool): (Core, map<int, PendingCall>) {
    if dispatcher then (c.(attached := true), map[])
    else (Core(false, c.nextId, map[]), c.pending)
  }

  /** The locked part of Call: an identifier, or 0 when there is no dispatcher. */
  function Register(c: Core, call: PendingCall): (Core, int) {
    if c.attached then (Core(true, c.nextId + 1, c.pending[c.nextId + 1 := call]), c.nextId + 1)
    else (c, 0)
  }

  /** The locked part of Complete: whoever takes the call owes its reply. */
  function Take(c: Core, id: int): (Core, Option<PendingCall>) {
    if id in c.pending then (c.(pending := c.pending - {id}), Some(c.pending[id])) else (c, None)
  }

  // ---- Messages --------------------------------------------------------------

  /** A decoded JSON dictionary, by the keys the bridge looks at. */
  datatype Message = Message(id: Option<int>, ok: Option<bool>, error: Option<string>, result: Option<Value>,
                             service: Option<string>, event: Option<string>, data: Option<Value>)

  datatype Meaning = Answer(id: int, reply: Reply) | Event(service: string, event: string, data: Value) | Dropped

  predicate AnswersCall(m: Option<Message>) { m.Some? && m.value.id.Some? && m.value.id.value > 0 }

  predicate NamesEvent(m: Option<Message>) {
    m.Some? && !AnswersCall(m) && m.value.service.Some? && m.value.event.Some?
  }

  /** The reply says what the message says: it succeeded only if that says so, it has the
      result and the error text given, and a failure without one gets the bridge's own. */
  predicate SaysSo(m: Message, r: Reply) {
    && (r.ok <==> m.ok == Some(true))
    && (m.result.Some? ==> r.result == m.result.value) && (m.result.None? ==> r.result == Empty)
    && (m.error.Some? && m.error.value != "" ==> r.error == Told(m.error.value))
    && (m.error.None? || m.error.value == "" ==> r.error == if r.ok then Blank else Reported)
  }

  /** An answer if it has a positive id; otherwise an event if it names one. A failed answer
      never goes without an error text. */
  function Decode(m: Option<Message>): (r: Meaning)
    ensures r.Answer? <==> m.Some? && m.value.id.Some? && m.value.id.value > 0
    ensures r.Answer? && !r.reply.ok ==> !r.reply.error.Blank?
    ensures r.Answer? ==> m.value.id == Some(r.id) && SaysSo(m.value, r.reply)
    ensures r.Event? ==> m.Some? && m.value.service == Some(r.service) && m.value.event == Some(r.event)
    ensures r.Event? ==> (m.value.data.Some? ==> r.data == m.value.data.value)
                         && (m.value.data.None? ==> r.data == Empty)
    ensures r.Dropped? <==> !AnswersCall(m) && !NamesEvent(m)
  {
    match m
    case None => Dropped
    case Some(m) =>
      if m.id.Some? && m.id.value > 0 then
        var ok := m.ok == Some(true);
        var error := if m.error.Some? && m.error.value != "" then Told(m.error.value) else Blank;
        Answer(m.id.value, Reply(ok, if !ok && error.Blank? then Reported else error,
                                 if m.result.Some? then m.result.value else Empty))
      else if m.service.Some? && m.event.Some? then
        Event(m.service.value, m.event.value, if m.data.Some? then m.data.value else Empty)
      else Dropped
  }

  // ---- The class -------------------------------------------------------------

  /** A task on a sequence: running one reply callback, or one subscriber. */
  datatype Task =
    | RunReply(runner: int, token: nat, reply: Reply)
    | RunSubscriber(runner: int, id: int, event: string, data: Value)

  datatype Subscriber = Subscriber(id: int, service: string, runner: int)

  /** Error tasks for calls nobody answers, one for each identifier in turn. */
  ghost function OrphanTasks(calls: map<int, PendingCall>, ids: seq<int>): seq<Task> {
    if ids == [] then []
    else
      var id := ids[|ids| - 1];
      OrphanTasks(calls, ids[..|ids| - 1])
      + (if id in calls then [RunReply(calls[id].runner, calls[id].token, MakeError(WentAway))] else [])
  }

  ghost function TargetTasks(ss: seq<Subscriber>, service: string, event: string, data: Value): seq<Task> {
    if ss == [] then []
    else
      var s := ss[|ss| - 1];
      TargetTasks(ss[..|ss| - 1], service, event, data)
      + (if s.service == service then [RunSubscriber(s.runner, s.id, event, data)] else [])
  }

  /** The places of the subscribers of a service, in order. */
  ghost predicate Targets(at: seq<nat>, ss: seq<Subscriber>, service: string) {
    && (forall k, l :: 0 <= k < l < |at| ==> at[k] < at[l])
    && (forall k :: 0 <= k < |at| ==> at[k] < |ss| && ss[at[k]].service == service)
    && forall i: nat :: i < |ss| && ss[i].service == service ==> i in at
  }

  ghost predicate TasksAt(tasks: seq<Task>, at: seq<nat>, ss: seq<Subscriber>, event: string, data: Value) {
    && |tasks| == |at|
    && forall k :: 0 <= k < |at| ==>
         at[k] < |ss| && tasks[k] == RunSubscriber(ss[at[k]].runner, ss[at[k]].id, event, data)
  }

  /** One task for each subscriber of the service, on its own sequence, in their order. */
  ghost predicate EachTold(tasks: seq<Task>, ss: seq<Subscriber>, service: string, event: string, data: Value) {
    exists at :: Targets(at, ss, service) && TasksAt(tasks, at, ss, event, data)
  }

  lemma {:induction false} TargetsTold(ss: seq<Subscriber>, service: string, event: string, data: Value)
    ensures EachTold(TargetTasks(ss, service, event, data), ss, service, event, data)
  {
    if ss == [] {
      assert Targets([], ss, service) && TasksAt([], [], ss, event, data);
    } else {
      var n := |ss| - 1;
      var tasks := TargetTasks(ss[..n], service, event, data);
      TargetsTold(ss[..n], service, event, data);
      var at: seq<nat> :| Targets(at, ss[..n], service) && TasksAt(tasks, at, ss[..n], event, data);
      assert ss == ss[..n] + [ss[n]];
      OneTargetMore(tasks, at, ss[..n], ss[n], service, event, data);
    }
  }

  lemma OneTargetMore(tasks: seq<Task>, at: seq<nat>, ss: seq<Subscriber>, s: Subscriber, service: string,
                      event: string, data: Value)
    requires Targets(at, ss, service) && TasksAt(tasks, at, ss, event, data)
    ensures EachTold(tasks + if s.service == service then [RunSubscriber(s.runner, s.id, event, data)] else [],
                     ss + [s], service, event, data)
  {
    if s.service == service {
      TargetAdded(at, ss, s);
      TaskAdded(tasks, at, ss, s, event, data);
    } else {
      hide TasksAt;
      assert tasks + [] == tasks;
      TasksStay(tasks, at, ss, s, event, data);
      assert Targets(at, ss + [s], service);
    }
  }

  lemma TargetAdded(at: seq<nat>, ss: seq<Subscriber>, s: Subscriber)
    requires Targets(at, ss, s.service)
    ensures Targets(at + [|ss|], ss + [s], s.service)
  {
    var now := at + [|ss|];
    assert now[|at|] == |ss|;
    forall i: nat | i < |ss + [s]| && (ss + [s])[i].service == s.service ensures i in now {
      assert i < |ss| ==> (ss + [s])[i] == ss[i] && i in at;
    }
  }

  lemma TaskAdded(tasks: seq<Task>, at: seq<nat>, ss: seq<Subscriber>, s: Subscriber, event: string, data: Value)
    requires TasksAt(tasks, at, ss, event, data)
    ensures TasksAt(tasks + [RunSubscriber(s.runner, s.id, event, data)], at + [|ss|], ss + [s], event, data)
  {
  }

  lemma TasksStay(tasks: seq<Task>, at: seq<nat>, ss: seq<Subscriber>, s: Subscriber, event: string, data: Value)
    requires TasksAt(tasks, at, ss, event, data)
    ensures TasksAt(tasks, at, ss + [s], event, data)
  {
  }

  /** One error task for each call, on its own sequence, in the order of identifiers. */
  ghost predicate EachFailed(tasks: seq<Task>, calls: map<int, PendingCall>) {
    exists order :: Enumerates(order, calls.Keys) && |tasks| == |order|
                    && forall k :: 0 <= k < |order| ==>
                         tasks[k] == RunReply(calls[order[k]].runner, calls[order[k]].token,
                                              Reply(false, WentAway, Empty))
  }

  lemma {:induction false} OrphansFail(calls: map<int, PendingCall>, ids: seq<int>)
    requires forall k :: 0 <= k < |ids| ==> ids[k] in calls
    ensures |OrphanTasks(calls, ids)| == |ids|
    ensures forall k :: 0 <= k < |ids| ==>
      OrphanTasks(calls, ids)[k] == RunReply(calls[ids[k]].runner, calls[ids[k]].token, Reply(false, WentAway, Empty))
  {
    if ids != [] {
      OrphansFail(calls, ids[..|ids| - 1]);
    }
  }

  lemma AllOrphansFail(calls: map<int, PendingCall>)
    ensures EachFailed(OrphanTasks(calls, Ascending(calls.Keys)), calls)
    ensures |OrphanTasks(calls, Ascending(calls.Keys))| == |calls.Keys|
  {
    AscendingElements(calls.Keys);
    OrphansFail(calls, Ascending(calls.Keys));
  }

  class Bridge {
    var attached: bool
    var nextId: int
    var pending: map<int, PendingCall>
    var nextSubscriberId: int
    var subscribers: seq<Subscriber>
    var posted: seq<Task>
    var sent: seq<int>      // requests handed to the dispatcher

    /** Whenever the lock is free, no dispatcher means nothing pending; identifiers are
        handed out once. */
    ghost predicate Valid()
      reads this
    {
      && nextId >= 0 && nextSubscriberId >= 0
      && (!attached ==> pending == map[])
      && (forall id :: id in pending ==> 0 < id <= nextId)
      && (forall i :: 0 <= i < |subscribers| ==> 0 < subscribers[i].id <= nextSubscriberId)
      && (forall i, j :: 0 <= i < j < |subscribers| ==> subscribers[i].id < subscribers[j].id)
    }

    ghost function View(): Core
      reads this
    {
      Core(attached, nextId, pending)
    }

    constructor ()
      ensures Valid() && View() == Core(false, 0, map[]) && posted == [] && subscribers == [] && sent == []
    {
      attached, nextId, pending := false, 0, map[];
      nextSubscriberId, subscribers, posted, sent := 0, [], [], [];
    }

    method PostOrphans(orphaned: map<int, PendingCall>)
      modifies this`posted
      ensures posted == old(posted) + OrphanTasks(orphaned, Ascending(orphaned.Keys))
      ensures old(posted) <= posted && EachFailed(posted[|old(posted)|..], orphaned)
      ensures orphaned == map[] ==> posted == old(posted)
    {
      AscendingElements(orphaned.Keys);
      AllOrphansFail(orphaned);
      hide Ascending, EachFailed;
      var order := Ascending(orphaned.Keys);
      for n := 0 to |order|
        invariant posted == old(posted) + OrphanTasks(orphaned, order[..n])
      {
        assert order[..n + 1][..n] == order[..n];
        var call := orphaned[order[n]];
        posted := posted + [RunReply(call.runner, call.token, MakeError(WentAway))];
      }
      assert order[..|order|] == order;
    }

    method SetDispatcher(dispatcher: bool)
      requires Valid()
      modifies this`attached, this`pending, this`posted
      ensures Valid() && View() == Attach(old(View()), dispatcher).0
      ensures var o := Attach(old(View()), dispatcher).1;
              posted == old(posted) + OrphanTasks(o, Ascending(o.Keys))
      ensures attached == dispatcher && nextId == old(nextId)
      ensures dispatcher ==> pending == old(pending) && posted == old(posted)
      ensures !dispatcher ==>
        pending == map[] && old(posted) <= posted && EachFailed(posted[|old(posted)|..], old(pending))
    {
      hide OrphanTasks, Ascending, EachFailed;
      var orphaned: map<int, PendingCall> := map[];
      attached := dispatcher;
      if !dispatcher {
        orphaned, pending := pending, map[];
      }
      PostOrphans(orphaned);
    }

    /** `encodes` says whether the request can be written as JSON. Exactly one of three
        things happens to the caller's reply: it is posted at once, it is pending and the
        request was sent, or it was pending for a moment and is posted. */
    method Call(call: PendingCall, encodes: bool) returns (id: int)
      requires Valid() && nextId < INT_MAX
      modifies this`nextId, this`pending, this`posted, this`sent
      ensures Valid()
      ensures !old(attached) ==>
        && id == 0 && View() == old(View()) && sent == old(sent)
        && posted == old(posted) + [RunReply(call.runner, call.token, MakeError(Unavailable))]
      ensures old(attached) && encodes ==>
        && id == old(nextId) + 1 && View() == Register(old(View()), call).0
        && attached && nextId == id && pending == old(pending)[id := call]
        && sent == old(sent) + [id] && posted == old(posted)
      ensures old(attached) && !encodes ==>
        && id == 0 && pending == old(pending) && nextId == old(nextId) + 1 && sent == old(sent)
        && posted == old(posted) + [RunReply(call.runner, call.token, MakeError(NotEncoded))]
    {
      id := 0;
      if attached {
        nextId := nextId + 1;
        id := nextId;
        pending := pending[id := call];
      }
      if id == 0 {
        posted := posted + [RunReply(call.runner, call.token, MakeError(Unavailable))];
        return 0;
      }
      if !encodes {
        Complete(id, MakeError(NotEncoded));
        return 0;
      }
      sent := sent + [id];
    }

    method Cancel(id: int)
      requires Valid()
      modifies this`pending, this`posted
      ensures Valid() && View() == if id > 0 then Take(old(View()), id).0 else old(View())
      ensures pending == if id > 0 then old(pending) - {id} else old(pending)
      ensures posted == old(posted)
        + if id in old(pending)
          then [RunReply(old(pending)[id].runner, old(pending)[id].token, MakeError(Cancelled))] else []
    {
      if id > 0 {
        Complete(id, MakeError(Cancelled));
      }
    }

    /** A late or repeated completion finds nothing and posts nothing. */
    method Complete(id: int, reply: Reply)
      requires Valid()
      modifies this`pending, this`posted
      ensures Valid() && View() == Take(old(View()), id).0 && pending == old(pending) - {id}
      ensures posted == old(posted) + (if id in old(pending)
                                       then [RunReply(old(pending)[id].runner, old(pending)[id].token, reply)]
                                       else [])
    {
      if id !in pending {
        return;
      }
      var call := pending[id];
      pending := pending - {id};
      posted := posted + [RunReply(call.runner, call.token, reply)];
    }

    method DeliverMessage(m: Option<Message>)
      requires Valid()
      modifies this`pending, this`posted
      ensures Valid()
      ensures match Decode(m)
              case Answer(id, reply) =>
                && View() == Take(old(View()), id).0
                && posted == old(posted) + (if id in old(pending)
                                            then [RunReply(old(pending)[id].runner, old(pending)[id].token, reply)]
                                            else [])
              case Event(service, event, data) =>
                View() == old(View()) && posted == old(posted) + TargetTasks(subscribers, service, event, data)
              case Dropped => View() == old(View()) && posted == old(posted)
      ensures AnswersCall(m) ==>
        var id := m.value.id.value;
        && pending == old(pending) - {id}
        && (id !in old(pending) ==> posted == old(posted))
        && (id in old(pending) ==>
              exists r :: SaysSo(m.value, r)
                && posted == old(posted) + [RunReply(old(pending)[id].runner, old(pending)[id].token, r)])
      ensures NamesEvent(m) ==>
        var data := if m.value.data.Some? then m.value.data.value else Empty;
        && pending == old(pending) && old(posted) <= posted
        && EachTold(posted[|old(posted)|..], subscribers, m.value.service.value, m.value.event.value, data)
      ensures !AnswersCall(m) && !NamesEvent(m) ==> pending == old(pending) && posted == old(posted)
    {
      hide Decode, EachTold;
      match Decode(m) {
        case Answer(id, reply) => Complete(id, reply);
        case Dropped =>
        case Event(service, event, data) =>
          for i := 0 to |subscribers|
            invariant Valid() && View() == old(View())
            invariant posted == old(posted) + TargetTasks(subscribers[..i], service, event, data)
          {
            assert subscribers[..i + 1][..i] == subscribers[..i];
            if subscribers[i].service == service {
              posted := posted + [RunSubscriber(subscribers[i].runner, subscribers[i].id, event, data)];
            }
          }
          assert subscribers[..|subscribers|] == subscribers;
          TargetsTold(subscribers, service, event, data);
      }
    }

    /** Identifiers of subscribers are never reused. */
    method AddSubscriber(service: string, runner: int) returns (id: int)
      requires Valid() && nextSubscriberId < INT_MAX
      modifies this`nextSubscriberId, this`subscribers
      ensures Valid() && id == nextSubscriberId == old(nextSubscriberId) + 1
      ensures subscribers == old(subscribers) + [Subscriber(id, service, runner)]
    {
      nextSubscriberId := nextSubscriberId + 1;
      id := nextSubscriberId;
      subscribers := subscribers + [Subscriber(id, service, runner)];
    }

    method RemoveSubscriber(id: int)
      requires Valid()
      modifies this`subscribers
      ensures Valid()
      ensures forall s :: s in subscribers <==> s in old(subscribers) && s.id != id
    {
      var i, kept := 0, [];
      while i < |subscribers|
        invariant i <= |subscribers| && subscribers == old(subscribers)
        invariant forall s :: s in kept <==> s in subscribers[..i] && s.id != id
        invariant forall k :: 0 <= k < |kept| ==> 0 < kept[k].id <= nextSubscriberId
        invariant forall j, k :: 0 <= j < k < |kept| ==> kept[j].id < kept[k].id
        invariant forall k :: 0 <= k < |kept| && i < |subscribers| ==> kept[k].id < subscribers[i].id
      {
        assert subscribers[..i + 1] == subscribers[..i] + [subscribers[i]];
        if subscribers[i].id != id {
          kept := kept + [subscribers[i]];
        }
        i := i + 1;
      }
      assert subscribers[..i] == subscribers;
      subscribers := kept;
    }

    /** A posted event looks its subscriber up again: one removed meanwhile is not called. */
    method FindSubscriber(id: int) returns (found: bool)
      requires Valid()
      ensures found <==> exists i :: 0 <= i < |subscribers| && subscribers[i].id == id
    {
      found := false;
      for i := 0 to |subscribers|
        invariant !found && forall k :: 0 <= k < i ==> subscribers[k].id != id
      {
        if subscribers[i].id == id {
          return true;
        }
      }
    }
  }
}

/** Every interleaving of the bridge's lock-sized pieces
    (overlay/components/ohos_system_service/system_service_ohos.cc): calls, answers,
    cancellations, timeouts and dispatcher changes on any number of threads. Between taking
    a call out of the registry and posting its reply a thread owes that reply. */
module BridgeRuns {
  import opened Options
  import opened Bridge

  /** A reply to be posted, or posted: whose it is, what it says, and the identifier it
      answers (0 if the call never had one). */
  datatype Debt = Debt(call: PendingCall, reply: Reply, answers: int)

  /** What a thread does next outside the lock. */
  datatype Todo = Encoding(id: int) | Completing(id: int, reply: Reply)

  datatype Place = Pending(id: int) | Owed(op: nat, id: int) | Posted(at: nat)

  /** `ops` numbers the operations begun so far; a thread inside one is known by its number.
      The last three fields are a history of the calls: no step reads them. */
  datatype System = System(
    core: Core,
    owed: map<(nat, int), Debt>,
    todo: map<nat, Todo>,
    posted: seq<Debt>,
    ops: nat,
    runners: seq<int>,   // by token: the calling sequence
    ids: seq<int>,       // by token: the identifier the call was given, or 0
    place: seq<Place>)   // by token: where its reply callback is

  datatype Event =
    | SetDispatcher(attached: bool)
    | Call(runner: int)
    | Encode(op: nat, succeeds: bool)
    | Complete(id: int, reply: Reply)   // an answer, a cancellation or a timeout arrives
    | TakeCall(op: nat)
    | Post(op: nat, id: int)

  predicate Enabled(s: System, e: Event) {
    match e
    case SetDispatcher(_) => true
    case Call(_) => s.core.nextId < INT_MAX
    case Encode(op, _) => op in s.todo && s.todo[op].Encoding?
    case Complete(_, _) => true
    case TakeCall(op) => op in s.todo && s.todo[op].Completing?
    case Post(op, id) => (op, id) in s.owed
  }

  function Step(s: System, e: Event): System
    requires Enabled(s, e)
  {
    match e
    case SetDispatcher(d) => Detach(s, d)
    case Call(runner) => Begin(s, runner)
    case Encode(op, true) => s.(todo := s.todo - {op})
    case Encode(op, false) => s.(todo := s.todo[op := Completing(s.todo[op].id, MakeError(NotEncoded))])
    case Complete(id, reply) => s.(todo := s.todo[s.ops := Completing(id, reply)], ops := s.ops + 1)
    case TakeCall(op) => Taken(s, op, s.todo[op].id, s.todo[op].reply)
    case Post(op, id) =>
      var d := s.owed[(op, id)];
      s.(owed := s.owed - {(op, id)}, posted := s.posted + [d],
         place := if d.call.token < |s.place| then s.place[d.call.token := Posted(|s.posted|)] else s.place)
  }

  function Detach(s: System, d: bool): System {
    var (core, orphaned) := Attach(s.core, d);
    s.(core := core, ops := s.ops + 1,
       owed := s.owed + (map id | id in orphaned :: (s.ops, id) := Debt(orphaned[id], MakeError(WentAway), id)),
       place := if d then s.place
                else seq(|s.place|, k requires 0 <= k < |s.place| =>
                         if s.place[k].Pending? then Owed(s.ops, s.place[k].id) else s.place[k]))
  }

  function Begin(s: System, runner: int): System {
    var call := PendingCall(|s.place|, runner);
    var (core, id) := Register(s.core, call);
    s.(core := core, ops := s.ops + 1, runners := s.runners + [runner], ids := s.ids + [id],
       place := s.place + [if id == 0 then Owed(s.ops, 0) else Pending(id)],
       owed := if id == 0 then s.owed[(s.ops, 0) := Debt(call, MakeError(Unavailable), 0)] else s.owed,
       todo := if id == 0 then s.todo else s.todo[s.ops := Encoding(id)])
  }

  function Taken(s: System, op: nat, id: int, reply: Reply): System {
    var (core, call) := Take(s.core, id);
    var t := s.(core := core, todo := s.todo - {op});
    match call
    case None => t
    case Some(c) => t.(owed := s.owed[(op, id) := Debt(c, reply, id)],
                       place := if c.token < |s.place| then s.place[c.token := Owed(op, id)] else s.place)
  }

  const START := System(Core(false, 0, map[]), map[], map[], [], 0, [], [], [])

  ghost predicate Run(states: seq<System>, events: seq<Event>) {
    && |states| == |events| + 1 && states[0] == START
    && forall i :: 0 <= i < |events| ==> Enabled(states[i], events[i]) && states[i + 1] == Step(states[i], events[i])
  }

  // ---- Invariant -------------------------------------------------------------

  /** The debt is that of its own call: right sequence, and an answer to its own identifier. */
  predicate Own(s: System, d: Debt) {
    && d.call.token < |s.place| == |s.runners| == |s.ids|
    && d.call.runner == s.runners[d.call.token] && d.answers == s.ids[d.call.token]
  }

  ghost predicate CoreOk(c: Core) {
    && c.nextId >= 0 && (!c.attached ==> c.pending == map[])
    && forall id :: id in c.pending ==> 0 < id <= c.nextId
  }

  ghost predicate PendingPlaced(s: System) {
    forall id :: id in s.core.pending ==>
      Own(s, Debt(s.core.pending[id], MakeError(Blank), id)) && s.place[s.core.pending[id].token] == Pending(id)
  }

  ghost predicate OwedPlaced(s: System) {
    forall op, id :: (op, id) in s.owed ==>
      && op < s.ops && op !in s.todo
      && Own(s, s.owed[(op, id)]) && s.place[s.owed[(op, id)].call.token] == Owed(op, id)
  }

  ghost predicate PostedPlaced(s: System) {
    forall i :: 0 <= i < |s.posted| ==> Own(s, s.posted[i]) && s.place[s.posted[i].call.token] == Posted(i)
  }

  predicate Found(s: System, k: nat)
    requires k < |s.place|
  {
    match s.place[k]
    case Pending(id) => id in s.core.pending && s.core.pending[id].token == k
    case Owed(op, id) => (op, id) in s.owed && s.owed[(op, id)].call.token == k
    case Posted(i) => i < |s.posted| && s.posted[i].call.token == k
  }

  ghost predicate Inv(s: System) {
    && CoreOk(s.core) && |s.place| == |s.runners| == |s.ids| && (forall op :: op in s.todo ==> op < s.ops)
    && PendingPlaced(s) && OwedPlaced(s) && PostedPlaced(s)
    && forall k :: 0 <= k < |s.place| ==> Found(s, k)
  }

  lemma DetachOwed(s: System, d: bool)
    requires Inv(s)
    ensures OwedPlaced(Detach(s, d))
  {
    hide Found, PostedPlaced;
  }

  lemma DetachPosted(s: System, d: bool)
    requires Inv(s)
    ensures PendingPlaced(Detach(s, d)) && PostedPlaced(Detach(s, d)) && CoreOk(Detach(s, d).core)
  {
    hide Found, OwedPlaced;
  }

  lemma InvDetach(s: System, d: bool)
    requires Inv(s)
    ensures Inv(Detach(s, d))
  {
    DetachOwed(s, d);
    DetachPosted(s, d);
    hide OwedPlaced, PostedPlaced;
    var t := Detach(s, d);
    forall k | 0 <= k < |t.place| ensures Found(t, k) {
      assert Found(s, k);
    }
  }

  lemma InvBegin(s: System, runner: int)
    requires Inv(s)
    ensures Inv(Begin(s, runner))
  {
    var t := Begin(s, runner);
    forall k | 0 <= k < |t.place| ensures Found(t, k) {
      if k < |s.place| {
        assert Found(s, k);
      }
    }
  }

  lemma InvTaken(s: System, op: nat)
    requires Inv(s) && Enabled(s, TakeCall(op))
    ensures Inv(Step(s, TakeCall(op)))
  {
    var t := Step(s, TakeCall(op));
    forall k | 0 <= k < |t.place| ensures Found(t, k) {
      assert Found(s, k);
    }
  }

  lemma InvPost(s: System, op: nat, id: int)
    requires Inv(s) && Enabled(s, Post(op, id))
    ensures Inv(Step(s, Post(op, id)))
  {
    var t := Step(s, Post(op, id));
    forall k | 0 <= k < |t.place| ensures Found(t, k) {
      assert Found(s, k);
    }
  }

  lemma InvTodo(s: System, e: Event)
    requires Inv(s) && Enabled(s, e) && (e.Encode? || e.Complete?)
    ensures Inv(Step(s, e))
  {
    var t := Step(s, e);
    forall k | 0 <= k < |t.place| ensures Found(t, k) {
      assert Found(s, k);
    }
  }

  lemma InvStep(s: System, e: Event)
    requires Inv(s) && Enabled(s, e)
    ensures Inv(Step(s, e))
  {
    hide Inv;
    match e
    case SetDispatcher(d) => InvDetach(s, d);
    case Call(runner) => InvBegin(s, runner);
    case Encode(_, _) => InvTodo(s, e);
    case Complete(_, _) => InvTodo(s, e);
    case TakeCall(op) => InvTaken(s, op);
    case Post(op, id) => InvPost(s, op, id);
  }

  lemma RunStep(states: seq<System>, events: seq<Event>, n: nat)
    requires Run(states, events) && n < |events|
    ensures Enabled(states[n], events[n]) && states[n + 1] == Step(states[n], events[n])
  {
  }

  lemma {:induction false} InvRun(states: seq<System>, events: seq<Event>, n: nat)
    requires Run(states, events) && n < |states|
    ensures Inv(states[n])
  {
    assert |states| == |events| + 1;
    hide Run, Inv;
    if n == 0 {
      InvAtStart(states, events);
    } else {
      InvRun(states, events, n - 1);
      InvNext(states, events, n - 1);
    }
  }

  lemma InvAtStart(states: seq<System>, events: seq<Event>)
    requires Run(states, events)
    ensures Inv(states[0])
  {
  }

  lemma InvNext(states: seq<System>, events: seq<Event>, n: nat)
    requires Run(states, events) && n < |events| && Inv(states[n])
    ensures Inv(states[n + 1])
  {
    hide Step, Inv, Enabled;
    var s, e := states[n], events[n];
    RunStep(states, events, n);
    InvStep(s, e);
    assert states[n + 1] == Step(s, e);
  }

  // ---- Theorems over all interleavings ---------------------------------------

  ghost predicate IsPending(s: System, token: nat) {
    exists id :: id in s.core.pending && s.core.pending[id].token == token
  }

  ghost predicate IsOwed(s: System, token: nat) {
    exists op, id :: (op, id) in s.owed && s.owed[(op, id)].call.token == token
  }

  ghost predicate IsPosted(s: System, token: nat) {
    exists i :: 0 <= i < |s.posted| && s.posted[i].call.token == token
  }

  lemma OwedApart(s: System, a: (nat, int), b: (nat, int))
    requires OwedPlaced(s) && a in s.owed && b in s.owed && a != b
    ensures s.owed[a].call.token != s.owed[b].call.token
  {
    var (aop, aid) := a;
    var (bop, bid) := b;
    assert Own(s, s.owed[(aop, aid)]) && Own(s, s.owed[(bop, bid)]);
  }

  /** Every call's reply is in exactly one state: still pending under one identifier, owed by
      one thread once, or posted; and no reply is ever posted twice. */
  lemma ExactlyOnce(states: seq<System>, events: seq<Event>, n: nat)
    requires Run(states, events) && n < |states|
    ensures var s := states[n];
            && (forall k :: 0 <= k < |s.runners| ==>
                  && (IsPending(s, k) || IsOwed(s, k) || IsPosted(s, k))
                  && !(IsPending(s, k) && IsOwed(s, k)) && !(IsPending(s, k) && IsPosted(s, k))
                  && !(IsOwed(s, k) && IsPosted(s, k)))
            && (forall a, b :: a in s.core.pending && b in s.core.pending && a != b ==>
                  s.core.pending[a].token != s.core.pending[b].token)
            && (forall a, b :: a in s.owed && b in s.owed && a != b ==> s.owed[a].call.token != s.owed[b].call.token)
            && (forall i, j :: 0 <= i < j < |s.posted| ==> s.posted[i].call.token != s.posted[j].call.token)
  {
    InvRun(states, events, n);
    var s := states[n];
    forall k | 0 <= k < |s.runners| ensures IsPending(s, k) || IsOwed(s, k) || IsPosted(s, k) {
      assert Found(s, k);
    }
    forall a, b | a in s.owed && b in s.owed && a != b ensures s.owed[a].call.token != s.owed[b].call.token {
      OwedApart(s, a, b);
    }
  }

  /** Once all threads are out of the bridge, each call is either pending or was answered by
      one posted task; without a dispatcher every one was. */
  lemma QuietBridge(states: seq<System>, events: seq<Event>, n: nat, token: nat)
    requires Run(states, events) && n < |states| && states[n].owed == map[] && token < |states[n].runners|
    ensures IsPending(states[n], token) <==> !IsPosted(states[n], token)
    ensures !states[n].core.attached ==> IsPosted(states[n], token)
  {
    ExactlyOnce(states, events, n);
    InvRun(states, events, n);
    var s := states[n];
    assert !IsOwed(s, token);
  }

  /** Whenever the lock is free, no dispatcher means nothing is pending. */
  lemma DetachedIsEmpty(states: seq<System>, events: seq<Event>, n: nat)
    requires Run(states, events) && n < |states| && !states[n].core.attached
    ensures states[n].core.pending == map[]
  {
    InvRun(states, events, n);
  }

  /** A posted reply runs on the sequence of its own call and answers its own identifier: a
      late timeout or a wrong answer never reaches another call. */
  lemma RepliesReachTheirCalls(states: seq<System>, events: seq<Event>, n: nat, i: nat)
    requires Run(states, events) && n < |states| && i < |states[n].posted|
    ensures Own(states[n], states[n].posted[i])
  {
    InvRun(states, events, n);
  }

  // ---- What a reply says -------------------------------------------------------

  /** Event e, in state s, is where a reply to this identifier comes from. */
  predicate Brings(s: System, e: Event, id: int, reply: Reply) {
    match e
    case SetDispatcher(attached) => !attached && id in s.core.pending && reply == Reply(false, WentAway, Empty)
    case Call(_) => !s.core.attached && id == 0 && reply == Reply(false, Unavailable, Empty)
    case Encode(op, succeeds) =>
      !succeeds && op in s.todo && s.todo[op].id == id && reply == Reply(false, NotEncoded, Empty)
    case Complete(i, given) => i == id && reply == given
    case TakeCall(_) => false
    case Post(_, _) => false
  }

  ghost predicate Brought(states: seq<System>, events: seq<Event>, n: nat, id: int, reply: Reply)
    requires n <= |events| <= |states|
  {
    exists k :: 0 <= k < n && Brings(states[k], events[k], id, reply)
  }

  ghost predicate TodoBrought(s: System, states: seq<System>, events: seq<Event>, n: nat)
    requires n <= |events| <= |states|
  {
    forall op :: op in s.todo && s.todo[op].Completing? ==>
      Brought(states, events, n, s.todo[op].id, s.todo[op].reply)
  }

  ghost predicate OwedBrought(s: System, states: seq<System>, events: seq<Event>, n: nat)
    requires n <= |events| <= |states|
  {
    forall a :: a in s.owed ==> Brought(states, events, n, s.owed[a].answers, s.owed[a].reply)
  }

  ghost predicate PostedBrought(s: System, states: seq<System>, events: seq<Event>, n: nat)
    requires n <= |events| <= |states|
  {
    forall i :: 0 <= i < |s.posted| ==> Brought(states, events, n, s.posted[i].answers, s.posted[i].reply)
  }

  /** Whatever is to be taken, owed or posted was brought by an event before n. */
  ghost predicate AllBrought(s: System, states: seq<System>, events: seq<Event>, n: nat)
    requires n <= |events| <= |states|
  {
    TodoBrought(s, states, events, n) && OwedBrought(s, states, events, n) && PostedBrought(s, states, events, n)
  }

  lemma BroughtOn(states: seq<System>, events: seq<Event>, n: nat)
    requires n < |events| <= |states|
    ensures forall id, reply :: Brought(states, events, n, id, reply) ==> Brought(states, events, n + 1, id, reply)
    ensures forall id, reply :: Brings(states[n], events[n], id, reply) ==> Brought(states, events, n + 1, id, reply)
  {
    hide Brings;
    forall id, reply | Brought(states, events, n, id, reply) ensures Brought(states, events, n + 1, id, reply) {
      var k :| 0 <= k < n && Brings(states[k], events[k], id, reply);
    }
  }

  lemma BroughtTodo(states: seq<System>, events: seq<Event>, n: nat)
    requires n < |events| <= |states| && Enabled(states[n], events[n])
    requires AllBrought(states[n], states, events, n)
    ensures TodoBrought(Step(states[n], events[n]), states, events, n + 1)
  {
    BroughtOn(states, events, n);
    hide Brought, OwedBrought, PostedBrought;
    var s, e := states[n], events[n];
    if e.Complete? {
      assert Brings(s, e, e.id, e.reply);
    } else if e.Encode? && !e.succeeds {
      assert Brings(s, e, s.todo[e.op].id, MakeError(NotEncoded));
    }
  }

  lemma BroughtOwed(states: seq<System>, events: seq<Event>, n: nat)
    requires n < |events| <= |states| && Enabled(states[n], events[n])
    requires AllBrought(states[n], states, events, n) && CoreOk(states[n].core)
    ensures OwedBrought(Step(states[n], events[n]), states, events, n + 1)
  {
    BroughtOn(states, events, n);
    hide Brought, PostedBrought;
    var s, e := states[n], events[n];
    var t := Step(s, e);
    match e
    case SetDispatcher(attached) =>
      forall a | a in t.owed && a !in s.owed ensures Brings(s, e, t.owed[a].answers, t.owed[a].reply) {
      }
      DetachKeeps(s, attached);
    case Call(runner) => assert s.core.attached || Brings(s, e, 0, MakeError(Unavailable));
    case Encode(op, succeeds) =>
    case Complete(id, reply) =>
    case TakeCall(op) =>
    case Post(op, id) =>
  }

  /** Detaching leaves no debt there was; it may replace one by its own. */
  lemma DetachKeeps(s: System, attached: bool)
    ensures forall a :: a in s.owed ==>
      var t := Detach(s, attached);
      a in t.owed && (t.owed[a] == s.owed[a]
                      || Brings(s, SetDispatcher(attached), t.owed[a].answers, t.owed[a].reply))
  {
  }

  lemma BroughtPosted(states: seq<System>, events: seq<Event>, n: nat)
    requires n < |events| <= |states| && Enabled(states[n], events[n])
    requires AllBrought(states[n], states, events, n)
    ensures PostedBrought(Step(states[n], events[n]), states, events, n + 1)
  {
    BroughtOn(states, events, n);
    hide Brought, TodoBrought, Brings;
  }

  /** A reply that was posted says what was brought for its own identifier: the answer itself,
      a cancellation or a timeout; or one of the bridge's own errors, where there was reason
      for it. */
  lemma {:induction false} RepliesWereBrought(states: seq<System>, events: seq<Event>, n: nat)
    requires Run(states, events) && n < |states|
    ensures n <= |events| <= |states| && AllBrought(states[n], states, events, n)
  {
    assert |states| == |events| + 1;
    hide Run, AllBrought;
    if n == 0 {
      NothingToBring(states, events);
    } else {
      RepliesWereBrought(states, events, n - 1);
      BroughtNext(states, events, n - 1);
    }
  }

  lemma NothingToBring(states: seq<System>, events: seq<Event>)
    requires Run(states, events)
    ensures AllBrought(states[0], states, events, 0)
  {
  }

  lemma BroughtNext(states: seq<System>, events: seq<Event>, n: nat)
    requires Run(states, events) && n < |events| && AllBrought(states[n], states, events, n)
    ensures AllBrought(states[n + 1], states, events, n + 1)
  {
    RunStep(states, events, n);
    InvRun(states, events, n);
    BroughtTodo(states, events, n);
    BroughtOwed(states, events, n);
    BroughtPosted(states, events, n);
    hide Step, Enabled, TodoBrought, OwedBrought, PostedBrought;
    assert states[n + 1] == Step(states[n], events[n]);
  }

  /** Identifiers given to different calls differ. */
  lemma {:induction false} IdsDiffer(states: seq<System>, events: seq<Event>, n: nat)
    requires Run(states, events) && n < |states|
    ensures var s := states[n];
            && (forall k :: 0 <= k < |s.ids| ==> s.ids[k] <= s.core.nextId)
            && (forall j, k :: 0 <= j < k < |s.ids| && s.ids[j] > 0 ==> s.ids[j] != s.ids[k])
  {
    if n > 0 {
      IdsDiffer(states, events, n - 1);
      InvRun(states, events, n - 1);
      RunStep(states, events, n - 1);
      IdsStep(states[n - 1], events[n - 1]);
    }
  }

  lemma IdsStep(s: System, e: Event)
    requires Inv(s) && Enabled(s, e)
    ensures var t := Step(s, e);
            && s.core.nextId <= t.core.nextId
            && (t.ids == s.ids
                || (exists id :: t.ids == s.ids + [id] && (id == 0 || s.core.nextId < id <= t.core.nextId)))
  {
  }

  ghost predicate Spent(s: System, id: int) { id <= s.core.nextId && id !in s.core.pending }

  /** A call that was taken out, or an identifier that was never pending, stays out: a late
      or repeated answer, cancellation or timeout finds nothing, for ever. */
  lemma {:induction false} SpentForGood(states: seq<System>, events: seq<Event>, m: nat, n: nat, id: int)
    requires Run(states, events) && m <= n < |states| && Spent(states[m], id)
    ensures Spent(states[n], id)
    decreases n - m
  {
    assert |states| == |events| + 1;
    hide Step, Spent, Run, Enabled;
    if m < n {
      SpentForGood(states, events, m, n - 1, id);
      assert Spent(states[n - 1], id);
      SpentNext(states, events, n - 1, id);
    }
  }

  lemma SpentNext(states: seq<System>, events: seq<Event>, n: nat, id: int)
    requires Run(states, events) && n < |events| && n < |states| && Spent(states[n], id)
    ensures n + 1 < |states| && Spent(states[n + 1], id)
  {
    hide Step, Spent, Enabled;
    var s, e := states[n], events[n];
    RunStep(states, events, n);
    SpentStep(s, e, id);
    assert states[n + 1] == Step(s, e);
  }

  lemma SpentStep(s: System, e: Event, id: int)
    requires Enabled(s, e) && Spent(s, id)
    ensures Spent(Step(s, e), id)
  {
  }

  /** ... and then the thread that brings it owes nothing, and no other call is disturbed. */
  lemma LateAnswersDoNothing(states: seq<System>, events: seq<Event>, m: nat, n: nat, op: nat)
    requires Run(states, events) && m <= n < |events| && events[n] == TakeCall(op)
    requires op in states[n].todo && Spent(states[m], states[n].todo[op].id)
    ensures states[n + 1] == states[n].(todo := states[n].todo - {op})
  {
    SpentForGood(states, events, m, n, states[n].todo[op].id);
    RunStep(states, events, n);
  }
}

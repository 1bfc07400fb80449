/** Which native children have exited (overlay/base/process/launch_ohos.cc): exits arrive by
    a platform callback or by polling a pidfd, and the system may give a new child the
    number of an old one. Times are positive; 0 stands for never. */
module ExitRegistry {
  import opened Descriptors
  import opened Options

  datatype Info = Info(signal: Option<int>, signalTime: int, pidfd: Option<int>, exited: bool)

  const NEW_CHILD := Info(None, 0, None, false)

  type Registry = map<int, Info>

  /** What poll says of a pidfd. */
  datatype Polled = Failed | Ready | Quiet

  /** What pidfd_open gives: a descriptor, ESRCH, or another error. */
  datatype PidfdOpen = Descriptor(fd: int) | Gone | Unavailable

  // ---- The locked pieces as functions ------------------------------------------

  /** Polling shows an end through a descriptor that is ready, and gives the descriptor up
      then or when it cannot be polled. What the platform notified stays. */
  predicate PolledTo(c: Info, p: Polled, d: Info) {
    && d.signal == c.signal && d.signalTime == c.signalTime
    && (d.exited <==> c.exited || (c.pidfd.Some? && p.Ready?))
    && d.pidfd == if c.exited || p.Quiet? then c.pidfd else None
  }

  function After(c: Info, p: Polled): (d: Info)
    ensures PolledTo(c, p, d)
  {
    if c.exited || c.pidfd.None? then c
    else
      match p
      case Failed => c.(pidfd := None)
      case Ready => c.(pidfd := None, exited := true)
      case Quiet => c
  }

  /** What polling answers: whether the child has exited, if that can be told. */
  function Answer(c: Info, p: Polled): (b: Option<bool>)
    ensures b.None? <==> !c.exited && (c.pidfd.None? || p.Failed?)
    ensures b.Some? ==> b.value == After(c, p).exited
  {
    if c.exited then Some(true)
    else if c.pidfd.None? || p.Failed? then None
    else Some(p.Ready?)
  }

  function Child(r: Registry, pid: int): Info { if pid in r then r[pid] else NEW_CHILD }

  function Notify(r: Registry, pid: int, signal: int, now: int): Registry {
    r[pid := Info(Some(signal), now, None, true)]
  }

  /** What was stamped before the launch is forgotten; the rest stays. The new child has
      exited if that stayed or its process is gone, and otherwise is watched through the
      descriptor there is. */
  predicate Adopted(c: Info, started: int, got: PidfdOpen, d: Info) {
    var early := c.signalTime >= started;
    && d.signal == (if early then c.signal else None) && d.signalTime == (if early then c.signalTime else 0)
    && (d.exited <==> (early && c.exited) || got.Gone?)
    && (!(early && c.exited) ==> d.pidfd == if got.Descriptor? then Some(got.fd) else None)
  }

  /** An entry whose exit was stamped before the launch is an older child's. */
  function Adopt(c: Info, started: int, got: PidfdOpen): (d: Info)
    ensures Adopted(c, started, got, d)
  {
    var d := if c.signalTime < started then NEW_CHILD else c;
    if d.exited then d
    else d.(pidfd := if got.Descriptor? then Some(got.fd) else None, exited := got.Gone?)
  }

  function PollOthers(r: Registry, pid: int, polls: int -> Polled): Registry {
    map p | p in r :: if p == pid then r[p] else After(r[p], polls(p))
  }

  function Track(r: Registry, pid: int, started: int, got: PidfdOpen, polls: int -> Polled): Registry {
    PollOthers(r, pid, polls)[pid := Adopt(Child(r, pid), started, got)]
  }

  function Ask(r: Registry, pid: int, p: Polled): Registry {
    if pid in r then r[pid := After(r[pid], p)] else r
  }

  // ---- Runs ----------------------------------------------------------------------

  /** `child` numbers the processes that ever ran: which one a notification is about, and
      which one a launch began. No step reads it, for the platform does not tell. */
  datatype Event =
    | Notified(pid: int, signal: int, now: int, child: nat)
    | Tracked(pid: int, started: int, got: PidfdOpen, polls: int -> Polled, child: nat)
    | Asked(pid: int, polled: Polled)

  function Step(r: Registry, e: Event): Registry {
    match e
    case Notified(pid, signal, now, _) => Notify(r, pid, signal, now)
    case Tracked(pid, started, got, polls, _) => Track(r, pid, started, got, polls)
    case Asked(pid, polled) => Ask(r, pid, polled)
  }

  predicate TimeOk(e: Event) { (e.Notified? ==> e.now > 0) && (e.Tracked? ==> e.started > 0) }

  /** The registry after the first n events. */
  ghost function State(events: seq<Event>, n: nat): Registry
    requires n <= |events|
  {
    if n == 0 then map[] else Step(State(events, n - 1), events[n - 1])
  }

  ghost predicate InTime(events: seq<Event>) { forall i :: 0 <= i < |events| ==> TimeOk(events[i]) }

  /** A stamp means an exit, a signal, and an exit no pidfd. */
  ghost predicate InfoOk(c: Info) {
    && (c.signal.Some? <==> c.signalTime > 0) && c.signalTime >= 0
    && (c.signal.Some? ==> c.exited) && (c.exited ==> c.pidfd.None?)
  }

  /** In every reachable state an exited child has no descriptor any more. */
  lemma {:induction false} StateOk(events: seq<Event>, n: nat, pid: int)
    requires n <= |events| && InTime(events)
    ensures InfoOk(Child(State(events, n), pid))
  {
    if n > 0 {
      StateOk(events, n - 1, pid);
      assert TimeOk(events[n - 1]);
    }
  }

  /** How one event changes the entry of one child. */
  lemma StepAt(r: Registry, e: Event, pid: int)
    ensures Child(Step(r, e), pid)
         == match e
            case Notified(p, signal, now, _) => if p == pid then Info(Some(signal), now, None, true) else Child(r, pid)
            case Tracked(p, started, got, polls, _) =>
              if p == pid then Adopt(Child(r, pid), started, got) else After(Child(r, pid), polls(pid))
            case Asked(p, polled) => if p == pid then After(Child(r, pid), polled) else Child(r, pid)
  {
  }

  // ---- Generations -----------------------------------------------------------------

  predicate NotifiedOf(e: Event, pid: int) { e.Notified? && e.pid == pid }
  predicate TrackedOf(e: Event, pid: int) { e.Tracked? && e.pid == pid }

  /** Event i is the last notification for this child among the first n, and no launch of
      that number begun after its stamp has been tracked since. */
  ghost predicate Current(events: seq<Event>, n: nat, pid: int, i: nat)
    requires n <= |events|
  {
    && i < n && NotifiedOf(events[i], pid)
    && forall j :: i < j < n ==>
         !NotifiedOf(events[j], pid) && (TrackedOf(events[j], pid) ==> events[j].started <= events[i].now)
  }

  lemma {:induction false} CurrentIsRecorded(events: seq<Event>, n: nat, pid: int, i: nat)
    requires n <= |events| && InTime(events) && Current(events, n, pid, i)
    ensures Child(State(events, n), pid).signal == Some(events[i].signal)
    ensures Child(State(events, n), pid).signalTime == events[i].now
    decreases n
  {
    StepAt(State(events, n - 1), events[n - 1], pid);
    StateOk(events, n - 1, pid);
    assert TimeOk(events[n - 1]) && TimeOk(events[i]);
    if i < n - 1 {
      CurrentIsRecorded(events, n - 1, pid, i);
      assert !NotifiedOf(events[n - 1], pid);
      assert TrackedOf(events[n - 1], pid) ==> events[n - 1].started <= events[i].now;
    }
  }

  lemma {:induction false} RecordedIsCurrent(events: seq<Event>, n: nat, pid: int) returns (i: nat)
    requires n <= |events| && InTime(events) && Child(State(events, n), pid).signal.Some?
    ensures Current(events, n, pid, i)
    ensures Child(State(events, n), pid).signal == Some(events[i].signal)
    ensures Child(State(events, n), pid).signalTime == events[i].now
  {
    var e := events[n - 1];
    StepAt(State(events, n - 1), e, pid);
    if NotifiedOf(e, pid) {
      i := n - 1;
    } else {
      i := RecordedIsCurrent(events, n - 1, pid);
    }
  }

  /** The signal on record is exactly that of the last notification, unless a launch begun
      after its stamp has been tracked since. */
  lemma SignalIsCurrent(events: seq<Event>, n: nat, pid: int, signal: int)
    requires n <= |events| && InTime(events)
    ensures Child(State(events, n), pid).signal == Some(signal)
        <==> exists i: nat :: Current(events, n, pid, i) && events[i].signal == signal
  {
    hide State, Child;
    if Child(State(events, n), pid).signal == Some(signal) {
      var i := RecordedIsCurrent(events, n, pid);
    }
    if i: nat :| Current(events, n, pid, i) && events[i].signal == signal {
      CurrentIsRecorded(events, n, pid, i);
    }
  }

  /** What an inquiry answers is what the registry shows from then on; so a child counts as
      exited exactly if a notification is current for it or its pidfd showed the end, and
      nothing is answered exactly of a stranger, and of a child not known to have exited that
      cannot be polled. */
  lemma AnswerIsShown(events: seq<Event>, n: nat, m: nat, pid: int, polled: Polled)
    requires m == n + 1 <= |events| && InTime(events) && events[n] == Asked(pid, polled)
    ensures var before, after := Child(State(events, n), pid), Child(State(events, m), pid);
            var answer := Inquiry(State(events, n), pid, polled);
            && (answer == Some(true) <==>
                  (exists i: nat :: Current(events, m, pid, i)) || exists i: nat :: Observed(events, m, pid, i))
            && (answer.Some? ==> answer.value == after.exited)
            && (answer.None? <==>
                  pid !in State(events, n) || (!before.exited && (before.pidfd.None? || polled.Failed?)))
  {
    ExitedIff(events, m, pid);
    hide Current, Observed;
  }

  function Inquiry(r: Registry, pid: int, p: Polled): Option<bool> {
    if pid in r then Answer(r[pid], p) else None
  }

  /** Event i itself shows that the child has exited: pidfd_open finds it gone, or its pidfd
      is ready. */
  ghost predicate Observes(r: Registry, e: Event, pid: int) {
    match e
    case Notified(_, _, _, _) => false
    case Tracked(p, started, got, polls, _) =>
      if p == pid then got.Gone? && Child(r, pid).signalTime < started
      else polls(pid).Ready? && Child(r, pid).pidfd.Some?
    case Asked(p, polled) => p == pid && polled.Ready? && Child(r, pid).pidfd.Some?
  }

  /** The exit of the present child was observed: no launch with its number since. */
  ghost predicate Observed(events: seq<Event>, n: nat, pid: int, i: nat)
    requires n <= |events|
  {
    && i < n && Observes(State(events, i), events[i], pid)
    && forall j :: i < j < n ==> !TrackedOf(events[j], pid)
  }

  lemma {:induction false} ObservedIsRecorded(events: seq<Event>, n: nat, pid: int, i: nat)
    requires n <= |events| && InTime(events) && Observed(events, n, pid, i)
    ensures Child(State(events, n), pid).exited
    decreases n
  {
    StepAt(State(events, n - 1), events[n - 1], pid);
    StateOk(events, n - 1, pid);
    if i < n - 1 {
      ObservedIsRecorded(events, n - 1, pid, i);
      assert !TrackedOf(events[n - 1], pid);
    }
  }

  lemma {:induction false} RecordedIsObserved(events: seq<Event>, n: nat, pid: int) returns (i: nat)
    requires n <= |events| && InTime(events)
    requires Child(State(events, n), pid).exited && Child(State(events, n), pid).signal.None?
    ensures Observed(events, n, pid, i)
  {
    var e := events[n - 1];
    StepAt(State(events, n - 1), e, pid);
    StateOk(events, n - 1, pid);
    assert TimeOk(e);
    if Observes(State(events, n - 1), e, pid) {
      i := n - 1;
    } else {
      i := RecordedIsObserved(events, n - 1, pid);
    }
  }

  /** A child is shown as exited exactly when a notification is current for it or its pidfd
      showed the end. */
  lemma ExitedIff(events: seq<Event>, n: nat, pid: int)
    requires n <= |events| && InTime(events)
    ensures Child(State(events, n), pid).exited
        <==> (exists i: nat :: Current(events, n, pid, i)) || (exists i: nat :: Observed(events, n, pid, i))
  {
    StateOk(events, n, pid);
    hide State, Child, Current, Observed;
    if Child(State(events, n), pid).exited {
      if Child(State(events, n), pid).signal.Some? {
        var i := RecordedIsCurrent(events, n, pid);
      } else {
        var i := RecordedIsObserved(events, n, pid);
      }
    }
    if i: nat :| Current(events, n, pid, i) {
      CurrentIsRecorded(events, n, pid, i);
    }
    if i: nat :| Observed(events, n, pid, i) {
      ObservedIsRecorded(events, n, pid, i);
    }
  }

  ghost predicate LastNotified(events: seq<Event>, n: nat, pid: int, i: nat)
    requires n <= |events|
  {
    i < n && NotifiedOf(events[i], pid) && forall j :: i < j < n ==> !NotifiedOf(events[j], pid)
  }

  ghost predicate LastTracked(events: seq<Event>, n: nat, pid: int, k: nat)
    requires n <= |events|
  {
    k < n && TrackedOf(events[k], pid) && forall j :: k < j < n ==> !TrackedOf(events[j], pid)
  }

  /** One clock: launches of a number begin in the order in which they are tracked, before
      anything notified after their tracking, and before their own children's exits. */
  ghost predicate Clocked(events: seq<Event>) {
    && InTime(events)
    && (forall i, j :: 0 <= i < j < |events| ==> InOrder(events[i], events[j]))
    && forall i, j :: 0 <= i < |events| && 0 <= j < |events| ==> OwnAfterLaunch(events[i], events[j])
  }

  predicate InOrder(e: Event, f: Event) {
    && (e.Tracked? && f.Notified? ==> e.started <= f.now)
    && (e.Tracked? && f.Tracked? && e.pid == f.pid ==> e.started <= f.started)
  }

  predicate OwnAfterLaunch(e: Event, f: Event) {
    e.Tracked? && f.Notified? && e.child == f.child ==> e.started <= f.now
  }

  /** Of the notifications for a number only the stamp of the last counts, against the start
      of the last launch. */
  lemma CurrentIff(events: seq<Event>, n: nat, pid: int, k: nat, i: nat)
    requires n <= |events| && Clocked(events) && LastTracked(events, n, pid, k) && LastNotified(events, n, pid, i)
    ensures Current(events, n, pid, i) <==> events[i].now >= events[k].started
  {
    forall j | i < j < n && TrackedOf(events[j], pid) ensures events[j].started <= events[k].started {
      assert j <= k;
    }
  }

  /** The exit of the child itself, once notified last, is always shown. */
  lemma OwnExitIsShown(events: seq<Event>, n: nat, pid: int, k: nat, i: nat)
    requires n <= |events| && Clocked(events) && LastTracked(events, n, pid, k) && LastNotified(events, n, pid, i)
    requires events[i].child == events[k].child
    ensures Child(State(events, n), pid).exited && Child(State(events, n), pid).signal == Some(events[i].signal)
  {
    CurrentIff(events, n, pid, k, i);
    CurrentIsRecorded(events, n, pid, i);
    StateOk(events, n, pid);
  }

  /** The exit of an older child with the same number, when it is the last one notified, is
      shown for the new child exactly if it is stamped at or after the start of the new
      child's launch. If not, the new child is shown as exited only if its pidfd says so. */
  lemma OlderExitIsShown(events: seq<Event>, n: nat, pid: int, k: nat, i: nat)
    requires n <= |events| && Clocked(events) && LastTracked(events, n, pid, k) && LastNotified(events, n, pid, i)
    requires events[i].child != events[k].child
    ensures Child(State(events, n), pid).signal
         == if events[i].now >= events[k].started then Some(events[i].signal) else None
    ensures Child(State(events, n), pid).exited
        <==> events[i].now >= events[k].started || exists j: nat :: Observed(events, n, pid, j)
  {
    CurrentIff(events, n, pid, k, i);
    ExitedIff(events, n, pid);
    if Current(events, n, pid, i) {
      CurrentIsRecorded(events, n, pid, i);
    }
    if Child(State(events, n), pid).signal.Some? {
      var j := RecordedIsCurrent(events, n, pid);
      assert j == i;
    }
    forall j: nat | Current(events, n, pid, j) ensures j == i {
    }
  }

  /** Without any notification only the pidfd counts. */
  lemma NothingNotified(events: seq<Event>, n: nat, pid: int)
    requires n <= |events| && InTime(events) && forall j :: 0 <= j < n ==> !NotifiedOf(events[j], pid)
    ensures Child(State(events, n), pid).exited <==> exists j: nat :: Observed(events, n, pid, j)
    ensures Child(State(events, n), pid).signal.None?
  {
    ExitedIff(events, n, pid);
    if Child(State(events, n), pid).signal.Some? {
      var j := RecordedIsCurrent(events, n, pid);
      assert false;
    }
  }

  /** A late callback: the old child's exit is notified after the new launch began, and the
      running new child is shown as exited. */
  lemma LateCallbackMisleads()
    ensures exists events: seq<Event>, pid ::
      && |events| == 2 && Clocked(events) && LastNotified(events, 2, pid, 0) && LastTracked(events, 2, pid, 1)
      && events[0].child != events[1].child && Child(State(events, 2), pid).exited
      && forall j: nat :: !Observed(events, 2, pid, j)
  {
    var events := [Notified(7, 9, 6, 0), Tracked(7, 5, Descriptor(3), p => Quiet, 1)];
    assert events[0] == Notified(7, 9, 6, 0) && events[1].Tracked?;
    OlderExitIsShown(events, 2, 7, 1, 0);
    forall j: nat ensures !Observed(events, 2, 7, j) {
    }
    assert Child(State(events, 2), 7).exited;
  }

  /** Until its number is tracked again, a child that has exited stays so, with its signal. */
  lemma {:induction false} ExitedStays(events: seq<Event>, n: nat, m: nat, pid: int)
    requires n <= m <= |events| && Child(State(events, n), pid).exited
    requires forall j :: n <= j < m ==> !TrackedOf(events[j], pid)
    ensures Child(State(events, m), pid).exited
    ensures Child(State(events, n), pid).signal.Some? ==> Child(State(events, m), pid).signal.Some?
    decreases m
  {
    if n < m {
      ExitedStays(events, n, m - 1, pid);
      StepAt(State(events, m - 1), events[m - 1], pid);
      assert !TrackedOf(events[m - 1], pid);
    }
  }

  // ---- The registry ------------------------------------------------------------------

  /** The descriptors the entries hold. */
  ghost function Held(r: Registry): set<int> { set p | p in r && r[p].pidfd.Some? :: r[p].pidfd.value }

  /** Each held by one entry, and none by a child that has exited. */
  ghost predicate HeldOnce(r: Registry) {
    && (forall p, q :: p in r && q in r && r[p].pidfd.Some? && r[p].pidfd == r[q].pidfd ==> p == q)
    && forall p :: p in r && r[p].exited ==> r[p].pidfd.None?
  }

  /** Putting an entry without a descriptor in place of one closes just that descriptor. */
  lemma Releases(r: Registry, pid: int, c: Info)
    requires HeldOnce(r) && c.pidfd.None?
    ensures HeldOnce(r[pid := c])
    ensures Held(r[pid := c]) == Held(r) - (if Child(r, pid).pidfd.Some? then {Child(r, pid).pidfd.value} else {})
  {
    var t := r[pid := c];
    forall fd | fd in Held(r) && Child(r, pid).pidfd != Some(fd) ensures fd in Held(t) {
      var p :| p in r && r[p].pidfd == Some(fd);
      assert t[p].pidfd == Some(fd);
    }
  }

  lemma Acquires(r: Registry, pid: int, c: Info, fd: int)
    requires HeldOnce(r) && Child(r, pid).pidfd.None? && fd !in Held(r) && c.pidfd == Some(fd) && !c.exited
    ensures HeldOnce(r[pid := c]) && Held(r[pid := c]) == Held(r) + {fd}
  {
    var t := r[pid := c];
    assert t[pid].pidfd == Some(fd);
    forall x | x in Held(r) ensures x in Held(t) {
      var p :| p in r && r[p].pidfd == Some(x);
      assert t[p].pidfd == Some(x);
    }
    forall p | p in r && r[p].pidfd.Some? ensures r[p].pidfd.value != fd {
      assert r[p].pidfd.value in Held(r);
    }
  }

  /** What a call of pidfd_open meets. */
  datatype Open = Opens | NoProcess | OtherError

  function Got(open: Open, fd: int): PidfdOpen {
    match open
    case Opens => Descriptor(fd)
    case NoProcess => Gone
    case OtherError => Unavailable
  }

  class Tracker {
    var children: Registry
    const table: FdTable

    /** Every descriptor held is open; a descriptor is closed when the entry that held it
        lets go of it, and FdTable allows that once. */
    ghost predicate Valid()
      reads this, table
    {
      table.Valid() && HeldOnce(children) && Held(children) <= table.open.Keys
    }

    /** The descriptors of the rest of the process. */
    ghost function Others(): set<int>
      reads this, table
    {
      table.open.Keys - Held(children)
    }

    constructor (t: FdTable)
      requires t.Valid()
      ensures Valid() && table == t && children == map[] && Others() == t.open.Keys
    {
      children, table := map[], t;
    }

    /** Overwrites an entry with one that holds nothing, closing what it held. */
    method Drop(pid: int, c: Info)
      requires Valid() && c.pidfd.None?
      modifies this, table
      ensures Valid() && children == old(children)[pid := c] && Others() == old(Others())
    {
      Releases(children, pid, c);
      hide HeldOnce, Held;
      var was := Child(children, pid);
      children := children[pid := c];
      if was.pidfd.Some? {
        HeldIs(old(children), pid);
        table.Close(was.pidfd.value);
      }
    }

    method OnNativeChildProcessExit(pid: int, signal: int, now: int)
      requires Valid()
      modifies this, table
      ensures Valid() && children == Notify(old(children), pid, signal, now) && Others() == old(Others())
      ensures pid in children && children[pid] == Info(Some(signal), now, None, true)
      ensures children - {pid} == old(children) - {pid}
    {
      Drop(pid, Info(Some(signal), now, None, true));
    }

    method PollNativeChildExit(pid: int, polled: Polled) returns (exited: Option<bool>)
      requires Valid() && pid in children
      modifies this, table
      ensures Valid() && Others() == old(Others())
      ensures children == old(children)[pid := After(old(children)[pid], polled)]
      ensures exited == Answer(old(children)[pid], polled)
      ensures pid in children && PolledTo(old(children)[pid], polled, children[pid])
      ensures exited.Some? ==> exited.value == children[pid].exited
      ensures exited.None? <==> !old(children)[pid].exited && (old(children)[pid].pidfd.None? || polled.Failed?)
    {
      var child := children[pid];
      Unchanged(children, pid);
      if child.exited {
        return Some(true);
      }
      if child.pidfd.None? {
        return None;
      }
      if polled.Failed? {
        Drop(pid, child.(pidfd := None));
        return None;
      }
      if polled.Ready? {
        Drop(pid, child.(pidfd := None, exited := true));
      }
      return Some(polled.Ready?);
    }

    /** Polls every other child that is being watched, so that its descriptor is given back
        even if nobody asks about it again. */
    method PollAllOthers(pid: int, polls: int -> Polled)
      requires Valid()
      modifies this, table
      ensures Valid() && children == PollOthers(old(children), pid, polls) && Others() == old(Others())
      ensures children.Keys == old(children).Keys && (pid in children ==> children[pid] == old(children)[pid])
      ensures forall p :: p in children && p != pid ==> PolledTo(old(children)[p], polls(p), children[p])
    {
      PollOthersIs(children, pid, polls);
      hide HeldOnce, Held, After, PolledBut, PollOthers, PolledTo;
      var left := children.Keys - {pid};
      PolledEnds(children, pid, polls, left);
      while exists p :: p in left
        invariant Valid() && Others() == old(Others())
        invariant left <= old(children).Keys - {pid}
        invariant children == PolledBut(old(children), pid, polls, left)
        decreases |left|
      {
        var p :| p in left;
        PolledNext(old(children), pid, polls, left, p);
        left := left - {p};
        if children[p].pidfd.Some? {
          var ignored := PollNativeChildExit(p, polls(p));
        } else {
          NotWatched(children, p, polls(p));
        }
      }
      PolledEnds(old(children), pid, polls, left);
    }

    /** The entry of a new child takes over what pidfd_open gave, or gives it back. */
    method Settle(pid: int, started: int, got: PidfdOpen)
      requires Valid() && (got.Descriptor? ==> got.fd in Others())
      modifies this, table
      ensures Valid() && children == old(children)[pid := Adopt(Child(old(children), pid), started, got)]
      ensures Others() == old(Others()) - (if got.Descriptor? then {got.fd} else {})
      ensures pid in children && Adopted(Child(old(children), pid), started, got, children[pid])
      ensures children - {pid} == old(children) - {pid}
    {
      var child := Child(children, pid);
      if child.signalTime < started {
        child := NEW_CHILD;
      }
      if child.exited {
        ExitedHoldsNothing(children, pid);
        hide HeldOnce, Held;
        Drop(pid, child);
        if got.Descriptor? {
          table.Close(got.fd);
        }
        return;
      }
      hide HeldOnce, Held;
      Drop(pid, child.(pidfd := None, exited := got.Gone?));
      if got.Descriptor? {
        Acquires(children, pid, child.(pidfd := Some(got.fd)), got.fd);
        children := children[pid := child.(pidfd := Some(got.fd))];
      }
    }

    /** The process of a new child. `started` is when its launch began, `open` what
        pidfd_open meets; the descriptor it gives is the lowest free one. */
    method TrackNativeChild(pid: int, started: int, open: Open, polls: int -> Polled)
      requires Valid()
      modifies this, table
      ensures Valid() && Others() == old(Others())
      ensures children == Track(old(children), pid, started, Got(open, LowestFree(old(table.open.Keys), 0)), polls)
      ensures children.Keys == old(children).Keys + {pid}
      ensures exists got: PidfdOpen ::
        && (open.Opens? ==> got == Descriptor(LowestFree(old(table.open.Keys), 0)))
        && (open.NoProcess? ==> got == Gone) && (open.OtherError? ==> got == Unavailable)
        && Adopted(Child(old(children), pid), started, got, children[pid])
      ensures forall p :: p in children && p != pid ==> PolledTo(old(children)[p], polls(p), children[p])
    {
      hide HeldOnce, Held, LowestFree;
      var fd := LowestFree(table.open.Keys, 0);
      if open.Opens? {
        table.Install(fd);
      }
      PollAllOthers(pid, polls);
      Settle(pid, started, Got(open, fd));
    }

    method HasExited(pid: int, polled: Polled) returns (exited: Option<bool>)
      requires Valid()
      modifies this, table
      ensures Valid() && children == Ask(old(children), pid, polled) && Others() == old(Others())
      ensures exited == if pid in old(children) then Answer(old(children)[pid], polled) else None
      ensures children.Keys == old(children).Keys && children - {pid} == old(children) - {pid}
      ensures exited.Some? ==> pid in children && exited.value == children[pid].exited
      ensures exited.None? <==>
        || pid !in old(children)
        || (!old(children)[pid].exited && (old(children)[pid].pidfd.None? || polled.Failed?))
      ensures pid in children ==> PolledTo(old(children)[pid], polled, children[pid])
    {
      if pid !in children {
        return None;
      }
      exited := PollNativeChildExit(pid, polled);
    }

    method ExitSignal(pid: int) returns (signal: Option<int>)
      ensures signal == Child(children, pid).signal
    {
      return if pid in children then children[pid].signal else None;
    }
  }

  lemma PollOthersIs(r: Registry, pid: int, polls: int -> Polled)
    ensures PollOthers(r, pid, polls).Keys == r.Keys
    ensures pid in r ==> PollOthers(r, pid, polls)[pid] == r[pid]
    ensures forall p :: p in r && p != pid ==> PolledTo(r[p], polls(p), PollOthers(r, pid, polls)[p])
  {
  }

  /** Those in `left` are still to be polled. */
  ghost function PolledBut(r: Registry, pid: int, polls: int -> Polled, left: set<int>): Registry {
    map p | p in r :: if p == pid || p in left then r[p] else After(r[p], polls(p))
  }

  lemma PolledEnds(r: Registry, pid: int, polls: int -> Polled, left: set<int>)
    ensures left == r.Keys - {pid} ==> PolledBut(r, pid, polls, left) == r
    ensures (forall p :: p !in left) ==> PolledBut(r, pid, polls, left) == PollOthers(r, pid, polls)
  {
  }

  lemma PolledNext(r: Registry, pid: int, polls: int -> Polled, left: set<int>, p: int)
    requires p in left && p != pid && p in r
    ensures p in PolledBut(r, pid, polls, left) && PolledBut(r, pid, polls, left)[p] == r[p]
    ensures PolledBut(r, pid, polls, left - {p}) == PolledBut(r, pid, polls, left)[p := After(r[p], polls(p))]
  {
  }

  lemma NotWatched(r: Registry, p: int, polled: Polled)
    requires p in r && r[p].pidfd.None?
    ensures r[p := After(r[p], polled)] == r
  {
  }

  lemma ExitedHoldsNothing(r: Registry, pid: int)
    requires HeldOnce(r) && Child(r, pid).exited
    ensures Child(r, pid).pidfd.None?
  {
  }

  lemma HeldIs(r: Registry, pid: int)
    requires Child(r, pid).pidfd.Some?
    ensures Child(r, pid).pidfd.value in Held(r)
  {
  }

  lemma Unchanged(r: Registry, pid: int)
    requires pid in r
    ensures r[pid := r[pid]] == r
  {
  }
}

/** Browser, fork server and kernel of overlay/base/process/fork_server_ohos.cc running
    together. Every process has an incarnation number of its own, so that a pid used twice
    stands for two different processes. A step is one system call or one message of one
    party; the steps interleave freely, so the theorems hold of every run. */
module ForkSystem {
  import opened Options
  import opened ForkModel

  // ---- Kernel ----------------------------------------------------------------

  /** How an incarnation ended: with a status for its parent to collect, or without one. */
  datatype Fate = Exited(status: nat) | Vanished

  datatype Process = Process(parent: int, birth: nat)

  /** Processes by pid, uncollected ones included: a pid is free again only after its parent
      was told of the end. `fate` remembers the end of every incarnation for ever. */
  datatype Kernel = Kernel(procs: map<int, Process>, fate: map<nat, Fate>, births: nat)

  ghost predicate KernelOk(k: Kernel) {
    && (forall p :: p in k.procs ==> k.procs[p].birth < k.births)
    && (forall p, q :: p in k.procs && q in k.procs && k.procs[p].birth == k.procs[q].birth ==> p == q)
    && (forall b :: b in k.fate ==> b < k.births)
  }

  predicate IsChild(k: Kernel, parent: int, pid: int) {
    pid in k.procs && k.procs[pid].parent == parent
  }

  function StatusOf(f: Fate): int {
    match f case Exited(s) => s case Vanished => -1
  }

  function WaitPid(k: Kernel, parent: int, pid: int): WaitAnswer {
    if !IsChild(k, parent, pid) then NoChild
    else
      var b := k.procs[pid].birth;
      if b !in k.fate then StillRunning
      else match k.fate[b] case Exited(s) => Collected(s) case Vanished => NoChild
  }

  /** What waitpid leaves behind: an ended child it reported is gone from the table. */
  function AfterWait(k: Kernel, parent: int, pid: int): Kernel {
    if IsChild(k, parent, pid) && k.procs[pid].birth in k.fate then k.(procs := k.procs - {pid}) else k
  }

  /** Anything else that happens in the system: processes of others come and go, any process
      ends. Only its parent forks and collects a child. */
  ghost predicate KernelMoves(k: Kernel, k': Kernel, parent: int) {
    && EndsKept(k, k')
    && (forall p :: IsChild(k, parent, p) ==> IsChild(k', parent, p) && k'.procs[p] == k.procs[p])
    && (forall p :: IsChild(k', parent, p) ==> IsChild(k, parent, p))
  }

  ghost predicate EndsKept(k: Kernel, k': Kernel) {
    && KernelOk(k') && k.births <= k'.births
    && (forall b :: b in k.fate ==> b in k'.fate && k'.fate[b] == k.fate[b])
  }

  // ---- Whole system ----------------------------------------------------------

  datatype Phase = Idle | Waiting(request: Request)

  /** A reply on its way, with the incarnation of the child it may announce. */
  datatype Mail = Mail(reply: Reply, birth: nat)

  /** A signal the server sent, and which incarnation of the pid was there to receive it. */
  datatype Hit = Hit(pid: int, signal: int, birth: Option<nat>)

  /** `births` records which incarnation each entry of the browser's map stands for, and
      `words` the progress word each incarnation last wrote, and `hits` the signals sent:
      none of these is read by a step. */
  datatype System = System(
    kernel: Kernel,
    self: int,                    // pid of the server
    host: Option<Host>,           // None: no server, or a dead one
    words: map<nat, Word>,
    hits: seq<Hit>,
    open: bool,                   // the browser's socket
    attempted: bool,
    children: map<int, ChildStatus>,
    births: map<int, nat>,
    phase: Phase,
    inbox: bool,                  // the request of the phase has not been received yet
    outbox: Option<Mail>)

  datatype Event =
    | Start(server: int, kernel: Kernel)
    | StartFails
    | World(kernel: Kernel)
    | Report(slot: nat, word: Word)
    | Reap(slot: nat)
    | Ask(request: Request)
    | Respond(answers: Answers, sent: bool)
    | Hangup    // the server's wait ends otherwise than by a request: end of file, or a garbled one
    | Return
    | Lost(kernel: Kernel)
    | ServerDies(kernel: Kernel)

  const HELLO := Request(Hello, 0, 0, 0)
  const GREETING := Reply(0, 0, 0, 0, [])

  ghost predicate Enabled(s: System, e: Event) {
    match e
    case Start(server, k) =>
      !s.attempted && EndsKept(s.kernel, k) && forall p :: !IsChild(k, server, p)
    case StartFails => !s.attempted
    case World(k) => if s.host.Some? then KernelMoves(s.kernel, k, s.self) else EndsKept(s.kernel, k)
    case Report(i, _) =>
      && s.host.Some? && i < |s.host.value.slots|
      && var pid := s.host.value.slots[i].pid;
         pid > 0 && IsChild(s.kernel, s.self, pid) && s.kernel.procs[pid].birth !in s.kernel.fate
    case Reap(i) => s.host.Some? && i < |s.host.value.slots|
    case Ask(q) =>
      && s.open && s.phase.Idle? && !q.operation.Hello?
      && (q.operation.Status? || q.operation.Signal? ==> q.pid in s.children && s.children[q.pid].running)
    case Respond(a, _) =>
      && s.host.Some? && s.inbox && s.phase.Waiting?
      && (a.fork.Forked? ==> a.fork.pid > 0 && a.fork.pid !in s.kernel.procs)
    case Hangup => s.host.Some?
    case Return => s.outbox.Some? && s.phase.Waiting?
    case Lost(k) => s.open && EndsKept(s.kernel, k)
    case ServerDies(k) => s.host.Some? && EndsKept(s.kernel, k)
  }

  /** The server kills and collects the children it still holds. */
  function EndChildren(k: Kernel, slots: seq<Slot>): Kernel {
    var gone := set i | 0 <= i < |slots| && slots[i].pid > 0 :: slots[i].pid;
    Kernel(k.procs - gone,
           (map p | p in gone && p in k.procs :: k.procs[p].birth := Exited(SIGKILL)) + k.fate,
           k.births)
  }

  function ForkInto(k: Kernel, parent: int, r: Reply): Kernel {
    if r.pid > 0 then k.(procs := k.procs[r.pid := Process(parent, k.births)], births := k.births + 1) else k
  }

  /** The system right after a request was served, before its reply leaves: a launched
      child exists, and its progress word starts at zero. */
  function AfterServe(s: System, r: Reply): System {
    s.(kernel := ForkInto(s.kernel, s.self, r),
       words := if r.pid > 0 then s.words[s.kernel.births := 0] else s.words)
  }

  function Hits(k: Kernel, signal: int, killed: Option<int>): seq<Hit> {
    if killed.None? then []
    else [Hit(killed.value, signal, if killed.value in k.procs then Some(k.procs[killed.value].birth) else None)]
  }

  /** The reply leaves, or cannot: then, and after a stop, the server ends its children. */
  function Responded(s: System, r: Served, sent: bool): System
    requires s.phase.Waiting?
  {
    var u := AfterServe(s, r.reply).(inbox := false,
                                     hits := s.hits + Hits(s.kernel, s.phase.request.signal, r.killed),
                                     outbox := if sent then Some(Mail(r.reply, s.kernel.births)) else None);
    if sent && !r.stop then u.(host := Some(Host(r.slots, [])))
    else u.(kernel := EndChildren(u.kernel, r.slots), host := None)
  }

  ghost function Step(s: System, e: Event): System
    requires Enabled(s, e)
  {
    match e
    case Start(server, k) =>
      s.(kernel := k, self := server, host := Some(Host(seq(MAX_CHILDREN, _ => Slot(0, 0)), [])),
         open := true, attempted := true, phase := Waiting(HELLO), inbox := false,
         outbox := Some(Mail(GREETING, 0)))
    case StartFails => s.(attempted := true)
    case World(k) => s.(kernel := k)
    case Report(i, w) =>
      var h := s.host.value;
      s.(host := Some(h.(slots := h.slots[i := h.slots[i].(progress := w)])),
         words := s.words[s.kernel.procs[h.slots[i].pid].birth := w])
    case Reap(i) =>
      var h := s.host.value;
      var pid := h.slots[i].pid;
      if pid <= 0 then s
      else s.(host := Some(ReapSlot(h, i, WaitPid(s.kernel, s.self, pid))),
              kernel := AfterWait(s.kernel, s.self, pid))
    case Ask(q) => s.(phase := Waiting(q), inbox := true)
    case Respond(a, sent) => Responded(s, Serve(s.host.value, s.phase.request, a), sent)
    case Hangup => s.(kernel := EndChildren(s.kernel, s.host.value.slots), host := None, inbox := false)
    case Return =>
      s.(children := Expected(s), births := ExpectedBirths(s), phase := Idle, outbox := None)
    case Lost(k) =>
      s.(kernel := k, host := None, open := false, children := Lose(s.children),
         phase := Idle, inbox := false, outbox := None)
    case ServerDies(k) => s.(kernel := k, host := None, inbox := false)
  }

  /** The browser's map once the reply on its way, if there is one, has arrived. */
  function Expected(s: System): map<int, ChildStatus> {
    if s.outbox.Some? && s.phase.Waiting?
    then Deliver(s.children, s.phase.request.operation, s.outbox.value.reply) else s.children
  }

  function ExpectedBirths(s: System): map<int, nat> {
    if s.outbox.Some? && s.phase.Waiting? && Announces(s.phase.request.operation, s.outbox.value.reply)
    then s.births[s.outbox.value.reply.pid := s.outbox.value.birth] else s.births
  }

  ghost predicate Initial(s: System) {
    && KernelOk(s.kernel) && s.host.None? && !s.open && !s.attempted && s.children == map[] && s.births == map[]
    && s.phase.Idle? && !s.inbox && s.outbox.None? && s.words == map[] && s.hits == []
  }

  /** A run: a sequence of states, each the result of an enabled event in the one before. */
  ghost predicate Run(states: seq<System>, events: seq<Event>) {
    && |states| == |events| + 1 && Initial(states[0])
    && forall i :: 0 <= i < |events| ==> Enabled(states[i], events[i]) && states[i + 1] == Step(states[i], events[i])
  }

  // ---- Invariant -------------------------------------------------------------

  /** The record tells the end and the last progress word of that incarnation. */
  predicate TrueRecord(s: System, r: ExitRecord, b: nat) {
    b in s.kernel.fate && b in s.words && r.status == StatusOf(s.kernel.fate[b]) && r.progress == s.words[b]
  }

  /** What a child that no longer runs is known by: its own end, or the loss of the server. */
  predicate Settled(s: System, c: ChildStatus, b: nat) {
    || (b in s.kernel.fate && b in s.words
        && c == Ended(ExitRecord(0, StatusOf(s.kernel.fate[b]), s.words[b])))
    || (!s.open && c.waitStatus == -1)
  }

  ghost predicate Known(s: System, cs: map<int, ChildStatus>, bs: map<int, nat>) {
    forall p :: p in cs ==>
      && p > 0 && p in bs && bs[p] < s.kernel.births && bs[p] in s.words
      && (!cs[p].running ==> Settled(s, cs[p], bs[p]))
  }

  /** Every held child is the server's, alive or uncollected, and is the incarnation the
      browser knows under that pid. */
  ghost predicate SlotsTrue(s: System, slots: seq<Slot>, bs: map<int, nat>) {
    && |slots| == MAX_CHILDREN
    && (forall i :: 0 <= i < |slots| ==> slots[i].pid >= 0)
    && (forall i :: 0 <= i < |slots| && slots[i].pid > 0 ==>
          var p := slots[i].pid;
          && IsChild(s.kernel, s.self, p) && p in bs && bs[p] == s.kernel.procs[p].birth
          && bs[p] in s.words && s.words[bs[p]] == slots[i].progress)
    && (forall i, j :: 0 <= i < j < |slots| && slots[i].pid > 0 ==> slots[i].pid != slots[j].pid)
  }

  ghost predicate ExitsTrue(s: System, rs: seq<ExitRecord>, bs: map<int, nat>) {
    && (forall k :: 0 <= k < |rs| ==> rs[k].pid > 0 && rs[k].pid in bs && TrueRecord(s, rs[k], bs[rs[k].pid]))
    && (forall j, k :: 0 <= j < k < |rs| ==> rs[j].pid != rs[k].pid)
  }

  /** Conservation: the children the browser counts as running are exactly those in a slot
      and those in a pending exit record, and none is in both. */
  ghost predicate Balanced(h: Host, cs: map<int, ChildStatus>) {
    && (forall p :: p in cs && cs[p].running <==> Holds(h.slots, p) || Listed(h.exited, p))
    && (forall p :: !(Holds(h.slots, p) && Listed(h.exited, p)))
  }

  ghost predicate Conserved(s: System, h: Host, cs: map<int, ChildStatus>, bs: map<int, nat>) {
    && SlotsTrue(s, h.slots, bs) && ExitsTrue(s, h.exited, bs) && Balanced(h, cs)
    && (forall p :: IsChild(s.kernel, s.self, p) ==> Holds(h.slots, p))
    && Occupied(h.slots) + |h.exited| <= MAX_CHILDREN
  }

  ghost predicate Orderly(s: System) {
    && KernelOk(s.kernel)
    && (s.open ==> s.attempted) && (s.host.Some? ==> s.open) && (!s.attempted ==> s.children == map[])
    && (!s.open ==> s.phase.Idle? && forall p :: p in s.children ==> !s.children[p].running)
    && (s.phase.Idle? ==> !s.inbox && s.outbox.None?)
    && (s.inbox ==> s.outbox.None?)
  }

  ghost predicate Inv(s: System) {
    && Orderly(s)
    && Known(s, s.children, s.births)
    && Known(s, Expected(s), ExpectedBirths(s))
    && (s.host.Some? ==> Conserved(s, s.host.value, Expected(s), ExpectedBirths(s)))
  }

  // ---- Preservation ----------------------------------------------------------

  /** Ends are for ever and words of the ended do not change, so what is known stays true. */
  lemma KnownStays(s: System, t: System, cs: map<int, ChildStatus>, bs: map<int, nat>)
    requires Known(s, cs, bs) && EndsKept(s.kernel, t.kernel)
    requires s.open == t.open
    requires forall b :: b in s.words ==> b in t.words && (b in s.kernel.fate ==> t.words[b] == s.words[b])
    ensures Known(t, cs, bs)
  {
    forall p | p in cs && !cs[p].running ensures Settled(t, cs[p], bs[p]) {
      assert Settled(s, cs[p], bs[p]);
    }
  }

  lemma InvStart(s: System, e: Event)
    requires Inv(s) && e.Start? && Enabled(s, e)
    ensures Inv(Step(s, e))
  {
    var t := Step(s, e);
    assert Expected(t) == map[] by {
      assert Deliver(map[], Hello, GREETING) == map[];
    }
    NoneOccupied(t.host.value.slots);
  }

  lemma InvWorld(s: System, e: Event)
    requires Inv(s) && (e.World? || e.ServerDies?) && Enabled(s, e)
    ensures Inv(Step(s, e))
  {
    var t := Step(s, e);
    KnownStays(s, t, s.children, s.births);
    KnownStays(s, t, Expected(s), ExpectedBirths(s));
  }

  lemma InvLost(s: System, e: Event)
    requires Inv(s) && e.Lost? && Enabled(s, e)
    ensures Inv(Step(s, e))
  {
    var t := Step(s, e);
    forall p | p in t.children ensures Settled(t, t.children[p], t.births[p]) {
      if !s.children[p].running {
        assert Settled(s, s.children[p], s.births[p]);
      }
    }
  }

  lemma ExitsStay(s: System, t: System, rs: seq<ExitRecord>, bs: map<int, nat>)
    requires ExitsTrue(s, rs, bs) && EndsKept(s.kernel, t.kernel)
    requires forall b :: b in s.words ==> b in t.words && (b in s.kernel.fate ==> t.words[b] == s.words[b])
    ensures ExitsTrue(t, rs, bs)
  {
    forall k | 0 <= k < |rs| ensures TrueRecord(t, rs[k], bs[rs[k].pid]) {
      assert TrueRecord(s, rs[k], bs[rs[k].pid]);
    }
  }

  lemma ReportSlots(s: System, e: Event, bs: map<int, nat>)
    requires e.Report? && Enabled(s, e) && KernelOk(s.kernel) && SlotsTrue(s, s.host.value.slots, bs)
    ensures var t := Step(s, e); SlotsTrue(t, t.host.value.slots, bs)
  {
    var t := Step(s, e);
    var before, after := s.host.value.slots, t.host.value.slots;
    forall i | 0 <= i < |after| && after[i].pid > 0
      ensures bs[after[i].pid] in t.words && t.words[bs[after[i].pid]] == after[i].progress
    {
      assert before[i].pid == after[i].pid;
    }
  }

  lemma InvReport(s: System, e: Event)
    requires Inv(s) && e.Report? && Enabled(s, e)
    ensures Inv(Step(s, e))
  {
    var t := Step(s, e);
    var h, i := s.host.value, e.slot;
    KnownStays(s, t, s.children, s.births);
    KnownStays(s, t, Expected(s), ExpectedBirths(s));
    ExitsStay(s, t, h.exited, ExpectedBirths(s));
    ReportSlots(s, e, ExpectedBirths(s));
    OccupiedUpdate(h.slots, i, h.slots[i].(progress := e.word));
    SameHolders(h.slots, i, h.slots[i].(progress := e.word));
    assert Balanced(t.host.value, Expected(t));
  }

  lemma SameHolders(slots: seq<Slot>, i: nat, x: Slot)
    requires i < |slots| && slots[i].pid == x.pid
    ensures forall p :: Holds(slots[i := x], p) <==> Holds(slots, p)
  {
    forall p ensures Holds(slots[i := x], p) <==> Holds(slots, p) {
      if Holds(slots, p) {
        var j :| 0 <= j < |slots| && slots[j].pid > 0 && slots[j].pid == p;
        assert slots[i := x][j].pid == p;
      }
    }
  }

  lemma ReleasedHolders(slots: seq<Slot>, i: nat, x: Slot)
    requires i < |slots| && slots[i].pid > 0 && x.pid == 0
    requires forall j, k :: 0 <= j < k < |slots| && slots[j].pid > 0 ==> slots[j].pid != slots[k].pid
    ensures forall p :: Holds(slots[i := x], p) <==> Holds(slots, p) && p != slots[i].pid
  {
    var after := slots[i := x];
    forall p ensures Holds(after, p) <==> Holds(slots, p) && p != slots[i].pid {
      if Holds(slots, p) && p != slots[i].pid {
        var j :| 0 <= j < |slots| && slots[j].pid > 0 && slots[j].pid == p;
        assert after[j].pid == p;
      }
      if Holds(after, p) {
        var j :| 0 <= j < |after| && after[j].pid > 0 && after[j].pid == p;
        assert slots[j].pid == p && j != i;
      }
    }
  }

  lemma LongerList(rs: seq<ExitRecord>, r: ExitRecord)
    ensures forall p :: Listed(rs + [r], p) <==> Listed(rs, p) || p == r.pid
  {
    forall p ensures Listed(rs + [r], p) <==> Listed(rs, p) || p == r.pid {
      assert (rs + [r])[|rs|] == r;
      if Listed(rs, p) {
        var k :| 0 <= k < |rs| && rs[k].pid == p;
        assert (rs + [r])[k].pid == p;
      }
    }
  }

  lemma ReapExits(s: System, t: System, rs: seq<ExitRecord>, r: ExitRecord, bs: map<int, nat>)
    requires ExitsTrue(s, rs, bs) && t.kernel.fate == s.kernel.fate && t.words == s.words
    requires r.pid > 0 && r.pid in bs && TrueRecord(t, r, bs[r.pid]) && !Listed(rs, r.pid)
    ensures ExitsTrue(t, rs + [r], bs)
  {
    forall k | 0 <= k < |rs + [r]| ensures TrueRecord(t, (rs + [r])[k], bs[(rs + [r])[k].pid]) {
      if k < |rs| {
        assert TrueRecord(s, rs[k], bs[rs[k].pid]);
      }
    }
  }

  lemma ReapIs(s: System, e: Event)
    requires e.Reap? && Enabled(s, e)
    ensures s.host.Some? && e.slot < |s.host.value.slots|
    ensures var h := s.host.value;
            var pid := h.slots[e.slot].pid;
            Step(s, e) == if pid <= 0 then s
                          else s.(host := Some(ReapSlot(h, e.slot, WaitPid(s.kernel, s.self, pid))),
                                  kernel := AfterWait(s.kernel, s.self, pid))
  {
    hide ReapSlot, WaitPid, AfterWait;
  }

  lemma ReapSlots(s: System, e: Event, bs: map<int, nat>)
    requires e.Reap? && Enabled(s, e) && KernelOk(s.kernel) && SlotsTrue(s, s.host.value.slots, bs)
    ensures var t := Step(s, e); SlotsTrue(t, t.host.value.slots, bs)
  {
    ReapIs(s, e);
    hide Step, Enabled;
    var before, t := s.host.value.slots, Step(s, e);
    var after := t.host.value.slots;
    forall j | 0 <= j < |after| && after[j].pid > 0 ensures IsChild(t.kernel, t.self, after[j].pid) {
      assert before[j] == after[j];
    }
  }

  lemma ReapBalance(h: Host, i: nat, answer: WaitAnswer, cs: map<int, ChildStatus>)
    requires i < |h.slots| && h.slots[i].pid > 0 && !answer.StillRunning? && Balanced(h, cs)
    requires forall j, k :: 0 <= j < k < |h.slots| && h.slots[j].pid > 0 ==> h.slots[j].pid != h.slots[k].pid
    ensures Balanced(ReapSlot(h, i, answer), cs)
  {
    var h' := ReapSlot(h, i, answer);
    var r := h'.exited[|h.exited|];
    assert Holds(h.slots, h.slots[i].pid);
    ReleasedHolders(h.slots, i, h'.slots[i]);
    LongerList(h.exited, r);
  }

  lemma ReapNoStray(s: System, e: Event)
    requires e.Reap? && Enabled(s, e) && s.host.value.slots[e.slot].pid > 0
    requires !WaitPid(s.kernel, s.self, s.host.value.slots[e.slot].pid).StillRunning?
    requires IsChild(s.kernel, s.self, s.host.value.slots[e.slot].pid)
    requires forall j, k :: 0 <= j < k < |s.host.value.slots| && s.host.value.slots[j].pid > 0 ==>
      s.host.value.slots[j].pid != s.host.value.slots[k].pid
    requires forall p :: IsChild(s.kernel, s.self, p) ==> Holds(s.host.value.slots, p)
    ensures var t := Step(s, e);
            forall p :: IsChild(t.kernel, t.self, p) ==> Holds(t.host.value.slots, p)
  {
    var h, i, t := s.host.value, e.slot, Step(s, e);
    ReleasedHolders(h.slots, i, t.host.value.slots[i]);
    forall p | IsChild(t.kernel, t.self, p) ensures Holds(t.host.value.slots, p) {
      assert IsChild(s.kernel, s.self, p);
    }
  }

  /** Collecting a child moves it from its slot to an exit record that tells its own end. */
  lemma ReapConserved(s: System, e: Event, cs: map<int, ChildStatus>, bs: map<int, nat>)
    requires e.Reap? && Enabled(s, e) && KernelOk(s.kernel) && Conserved(s, s.host.value, cs, bs)
    ensures var t := Step(s, e); Conserved(t, t.host.value, cs, bs)
  {
    var t := Step(s, e);
    var h, i := s.host.value, e.slot;
    var pid := h.slots[i].pid;
    var answer := WaitPid(s.kernel, s.self, pid);
    if pid > 0 && !answer.StillRunning? {
      var h' := t.host.value;
      var r := h'.exited[|h.exited|];
      assert Holds(h.slots, pid);
      assert h'.exited == h.exited + [r];
      ReapExits(s, t, h.exited, r, bs);
      ReapSlots(s, e, bs);
      ReapBalance(h, i, answer, cs);
      ReapNoStray(s, e);
      OccupiedUpdate(h.slots, i, h'.slots[i]);
    }
  }

  lemma InvReap(s: System, e: Event)
    requires Inv(s) && e.Reap? && Enabled(s, e)
    ensures Inv(Step(s, e))
  {
    var t := Step(s, e);
    KnownStays(s, t, s.children, s.births);
    KnownStays(s, t, Expected(s), ExpectedBirths(s));
    hide Known, Conserved, ReapSlot;
    ReapConserved(s, e, Expected(s), ExpectedBirths(s));
  }

  // ---- Serving a request -----------------------------------------------------

  /** What a reply carrying these exits does to one entry of the map. */
  lemma AbsorbAt(c: map<int, ChildStatus>, r: Reply, p: int)
    requires p in c
    requires forall j, k :: 0 <= j < k < |r.exited| ==> r.exited[j].pid != r.exited[k].pid
    ensures forall k :: 0 <= k < |r.exited| && r.exited[k].pid == p ==> Absorb(c, r)[p] == Ended(r.exited[k])
    ensures !Listed(r.exited, p) ==> Absorb(c, r)[p].running == c[p].running
    ensures !Listed(r.exited, p) && !c[p].running ==> Absorb(c, r)[p] == c[p]
  {
    if Listed(r.exited, p) {
      var k :| 0 <= k < |r.exited| && r.exited[k].pid == p;
      ApplyExitsHits(c, r.exited, k);
    } else {
      ApplyExitsMisses(c, r.exited, p);
    }
  }

  ghost function NewBirths(s: System, r: Reply): map<int, nat> {
    if r.pid > 0 then s.births[r.pid := s.kernel.births] else s.births
  }

  lemma OnlyLaunchAnnounces(h: Host, q: Request, a: Answers)
    requires a.fork.Forked? ==> a.fork.pid > 0
    ensures var r := Serve(h, q, a).reply;
            r.pid >= 0 && (r.pid > 0 <==> Announces(q.operation, r)) && (r.pid > 0 ==> a.fork == Forked(r.pid))
  {
  }

  /** Serving changes at most one slot, and only to put a new child into a free one. */
  lemma ServeShape(h: Host, q: Request, a: Answers)
    requires a.fork.Forked? ==> a.fork.pid > 0
    ensures var r := Serve(h, q, a);
            && |r.slots| == |h.slots|
            && (forall i :: 0 <= i < |h.slots| && h.slots[i].pid != 0 ==> r.slots[i] == h.slots[i])
            && (forall i :: 0 <= i < |h.slots| && h.slots[i].pid == 0 && r.slots[i].pid != 0 ==>
                  r.slots[i] == Slot(r.reply.pid, 0) && i == FreeSlot(h.slots) && r.reply.pid > 0)
            && (r.reply.pid > 0 ==>
                  exists i :: 0 <= i < |h.slots| && h.slots[i].pid == 0 && r.slots[i] == Slot(r.reply.pid, 0))
  {
    var i := FreeSlot(h.slots);
    if Serve(h, q, a).reply.pid > 0 {
      assert Serve(h, q, a).slots[i] == Slot(a.fork.pid, 0);
    }
  }

  lemma ServeHolders(h: Host, q: Request, a: Answers)
    requires a.fork.Forked? ==> a.fork.pid > 0
    ensures var r := Serve(h, q, a);
            forall p :: Holds(r.slots, p) <==> Holds(h.slots, p) || (r.reply.pid > 0 && p == r.reply.pid)
  {
    var r := Serve(h, q, a);
    ServeShape(h, q, a);
    forall p ensures Holds(r.slots, p) <==> Holds(h.slots, p) || (r.reply.pid > 0 && p == r.reply.pid) {
      if Holds(h.slots, p) {
        var i :| 0 <= i < |h.slots| && h.slots[i].pid > 0 && h.slots[i].pid == p;
        assert r.slots[i] == h.slots[i];
      }
      if Holds(r.slots, p) {
        var i :| 0 <= i < |r.slots| && r.slots[i].pid > 0 && r.slots[i].pid == p;
        assert h.slots[i].pid != 0 ==> h.slots[i] == r.slots[i];
      }
    }
  }

  lemma ServeDistinct(s: System, a: Answers)
    requires Enabled(s, Respond(a, true)) && SlotsTrue(s, s.host.value.slots, s.births)
    ensures var r := Serve(s.host.value, s.phase.request, a);
            forall i, j :: 0 <= i < j < |r.slots| && r.slots[i].pid > 0 ==> r.slots[i].pid != r.slots[j].pid
  {
    var h := s.host.value;
    var r := Serve(h, s.phase.request, a);
    OnlyLaunchAnnounces(h, s.phase.request, a);
    ServeShape(h, s.phase.request, a);
    hide Serve, FreeSlot;
    forall i | 0 <= i < |r.slots| && r.slots[i].pid > 0 && h.slots[i].pid != 0
      ensures r.slots[i].pid != r.reply.pid && r.slots[i] == h.slots[i]
    {
      assert IsChild(s.kernel, s.self, h.slots[i].pid);
    }
  }

  lemma ServeKernelOk(s: System, a: Answers)
    requires Enabled(s, Respond(a, true)) && KernelOk(s.kernel)
    ensures KernelOk(AfterServe(s, Serve(s.host.value, s.phase.request, a).reply).kernel)
  {
    OnlyLaunchAnnounces(s.host.value, s.phase.request, a);
    hide Serve;
  }

  lemma ServeSlotsTrue(s: System, a: Answers)
    requires Enabled(s, Respond(a, true)) && KernelOk(s.kernel) && SlotsTrue(s, s.host.value.slots, s.births)
    ensures var r := Serve(s.host.value, s.phase.request, a);
            SlotsTrue(AfterServe(s, r.reply), r.slots, NewBirths(s, r.reply))
  {
    hide Serve, FreeSlot;
    var h := s.host.value;
    var r := Serve(h, s.phase.request, a);
    var u := AfterServe(s, r.reply);
    OnlyLaunchAnnounces(h, s.phase.request, a);
    ServeShape(h, s.phase.request, a);
    ServeDistinct(s, a);
    forall i | 0 <= i < |r.slots| && r.slots[i].pid > 0 && h.slots[i].pid != 0
      ensures IsChild(u.kernel, u.self, r.slots[i].pid) && r.slots[i].pid != r.reply.pid
    {
      assert h.slots[i] == r.slots[i];
    }
  }

  lemma ServeNoStray(s: System, a: Answers)
    requires Enabled(s, Respond(a, true))
    requires forall p :: IsChild(s.kernel, s.self, p) ==> Holds(s.host.value.slots, p)
    ensures var r := Serve(s.host.value, s.phase.request, a);
            forall p :: IsChild(AfterServe(s, r.reply).kernel, s.self, p) ==> Holds(r.slots, p)
  {
    OnlyLaunchAnnounces(s.host.value, s.phase.request, a);
    ServeHolders(s.host.value, s.phase.request, a);
    var r := Serve(s.host.value, s.phase.request, a);
    forall p | IsChild(AfterServe(s, r.reply).kernel, s.self, p) ensures Holds(r.slots, p) {
      if !(r.reply.pid > 0 && p == r.reply.pid) {
        assert IsChild(s.kernel, s.self, p);
      }
    }
  }

  /** The delivered map knows every child: the ended by their records, the new one running. */
  lemma DeliverKnown(s: System, a: Answers)
    requires Enabled(s, Respond(a, true)) && KernelOk(s.kernel)
    requires Known(s, s.children, s.births) && ExitsTrue(s, s.host.value.exited, s.births)
    ensures var r := Serve(s.host.value, s.phase.request, a).reply;
            Known(AfterServe(s, r), Deliver(s.children, s.phase.request.operation, r), NewBirths(s, r))
  {
    var h := s.host.value;
    var r := Serve(h, s.phase.request, a).reply;
    var u := AfterServe(s, r);
    var cs, bs := Deliver(s.children, s.phase.request.operation, r), NewBirths(s, r);
    OnlyLaunchAnnounces(h, s.phase.request, a);
    forall p | p in cs
      ensures p > 0 && p in bs && bs[p] < u.kernel.births && bs[p] in u.words
      ensures !cs[p].running ==> Settled(u, cs[p], bs[p])
    {
      if !(r.pid > 0 && p == r.pid) {
        AbsorbAt(s.children, r, p);
        if Listed(r.exited, p) {
          var k :| 0 <= k < |r.exited| && r.exited[k].pid == p;
          assert TrueRecord(s, r.exited[k], bs[p]);
        } else if !cs[p].running {
          assert Settled(s, s.children[p], s.births[p]);
        }
      }
    }
  }

  /** Delivering all pending exits leaves exactly the held children running. */
  lemma DeliverBalance(s: System, a: Answers)
    requires Enabled(s, Respond(a, true))
    requires Balanced(s.host.value, s.children) && ExitsTrue(s, s.host.value.exited, s.births)
    ensures var r := Serve(s.host.value, s.phase.request, a);
            Balanced(Host(r.slots, []), Deliver(s.children, s.phase.request.operation, r.reply))
  {
    var h := s.host.value;
    var r := Serve(h, s.phase.request, a);
    var cs := Deliver(s.children, s.phase.request.operation, r.reply);
    OnlyLaunchAnnounces(h, s.phase.request, a);
    ServeHolders(h, s.phase.request, a);
    forall p ensures p in cs && cs[p].running <==> Holds(r.slots, p) {
      if p in s.children && !(r.reply.pid > 0 && p == r.reply.pid) {
        AbsorbAt(s.children, r.reply, p);
      }
    }
  }

  lemma EndedKernel(k: Kernel, slots: seq<Slot>, parent: int)
    requires KernelOk(k)
    ensures EndsKept(k, EndChildren(k, slots))
    ensures (forall p :: IsChild(k, parent, p) ==> Holds(slots, p)) ==>
              forall p :: !IsChild(EndChildren(k, slots), parent, p)
  {
    forall p | Holds(slots, p) ensures p !in EndChildren(k, slots).procs {
      var i :| 0 <= i < |slots| && slots[i].pid > 0 && slots[i].pid == p;
    }
  }

  lemma InvHangup(s: System)
    requires Inv(s) && Enabled(s, Hangup)
    ensures Inv(Step(s, Hangup))
  {
    var t := Step(s, Hangup);
    EndedKernel(s.kernel, s.host.value.slots, s.self);
    hide Known;
    KnownStays(s, t, s.children, s.births);
    KnownStays(s, t, Expected(s), ExpectedBirths(s));
  }

  lemma ServeConserved(s: System, a: Answers)
    requires Enabled(s, Respond(a, true)) && KernelOk(s.kernel)
    requires Conserved(s, s.host.value, s.children, s.births)
    ensures var r := Serve(s.host.value, s.phase.request, a);
            Conserved(AfterServe(s, r.reply), Host(r.slots, []),
                      Deliver(s.children, s.phase.request.operation, r.reply), NewBirths(s, r.reply))
  {
    ServeSlotsTrue(s, a);
    ServeNoStray(s, a);
    DeliverBalance(s, a);
  }

  lemma ConservedAgain(u: System, t: System, h: Host, cs: map<int, ChildStatus>, bs: map<int, nat>)
    requires Conserved(u, h, cs, bs) && t.kernel == u.kernel && t.words == u.words && t.self == u.self
    ensures Conserved(t, h, cs, bs)
  {
    forall k | 0 <= k < |h.exited| ensures TrueRecord(t, h.exited[k], bs[h.exited[k].pid]) {
      assert TrueRecord(u, h.exited[k], bs[h.exited[k].pid]);
    }
  }

  lemma RespondKernel(s: System, r: Served, sent: bool)
    requires KernelOk(s.kernel) && KernelOk(AfterServe(s, r.reply).kernel) && s.phase.Waiting?
    ensures var t, u := Responded(s, r, sent), AfterServe(s, r.reply);
            EndsKept(s.kernel, u.kernel) && EndsKept(u.kernel, t.kernel) && t.words == u.words
  {
    var u := AfterServe(s, r.reply);
    EndedKernel(u.kernel, r.slots, s.self);
    ForkKeeps(s.kernel, s.self, r.reply);
    KernelKept(u.kernel);
    hide EndsKept, KernelOk, EndChildren, ForkInto;
  }

  lemma KernelKept(k: Kernel)
    requires KernelOk(k)
    ensures EndsKept(k, k)
  {
  }

  lemma ForkKeeps(k: Kernel, parent: int, r: Reply)
    requires KernelOk(ForkInto(k, parent, r))
    ensures EndsKept(k, ForkInto(k, parent, r))
  {
    hide KernelOk;
  }

  lemma RespondExpected(s: System, r: Served, sent: bool)
    requires s.phase.Waiting? && s.outbox.None?
    requires r.reply.pid > 0 <==> Announces(s.phase.request.operation, r.reply)
    ensures var t := Responded(s, r, sent);
            && Expected(t) == (if sent then Deliver(s.children, s.phase.request.operation, r.reply) else s.children)
            && ExpectedBirths(t) == (if sent then NewBirths(s, r.reply) else s.births)
  {
  }

  lemma RespondKnown(s: System, r: Served, sent: bool)
    requires KernelOk(s.kernel) && KernelOk(AfterServe(s, r.reply).kernel) && s.phase.Waiting? && s.outbox.None?
    requires r.reply.pid > 0 <==> Announces(s.phase.request.operation, r.reply)
    requires Known(s, s.children, s.births)
    requires Known(AfterServe(s, r.reply), Deliver(s.children, s.phase.request.operation, r.reply),
                   NewBirths(s, r.reply))
    ensures var t := Responded(s, r, sent);
            && KernelOk(t.kernel) && Known(t, t.children, t.births)
            && Known(t, Expected(t), ExpectedBirths(t))
  {
    var t, u := Responded(s, r, sent), AfterServe(s, r.reply);
    var cs, bs := Deliver(s.children, s.phase.request.operation, r.reply), NewBirths(s, r.reply);
    RespondKernel(s, r, sent);
    RespondExpected(s, r, sent);
    KnownStays(s, t, s.children, s.births);
    if sent {
      KnownStays(u, t, cs, bs);
    }
  }

  lemma RespondConserved(s: System, r: Served, sent: bool)
    requires KernelOk(s.kernel) && KernelOk(AfterServe(s, r.reply).kernel) && s.phase.Waiting? && s.outbox.None?
    requires r.reply.pid > 0 <==> Announces(s.phase.request.operation, r.reply)
    requires Conserved(AfterServe(s, r.reply), Host(r.slots, []),
                       Deliver(s.children, s.phase.request.operation, r.reply), NewBirths(s, r.reply))
    ensures var t := Responded(s, r, sent);
            t.host.Some? ==> Conserved(t, t.host.value, Expected(t), ExpectedBirths(t))
  {
    RespondKernel(s, r, sent);
    RespondExpected(s, r, sent);
    var t := Responded(s, r, sent);
    if t.host.Some? {
      ConservedAgain(AfterServe(s, r.reply), t, Host(r.slots, []),
                     Deliver(s.children, s.phase.request.operation, r.reply), NewBirths(s, r.reply));
    }
  }

  lemma InvRespond(s: System, e: Event)
    requires Inv(s) && e.Respond? && Enabled(s, e)
    ensures Inv(Step(s, e))
  {
    var r := Serve(s.host.value, s.phase.request, e.answers);
    OnlyLaunchAnnounces(s.host.value, s.phase.request, e.answers);
    ServeKernelOk(s, e.answers);
    ServeConserved(s, e.answers);
    DeliverKnown(s, e.answers);
    hide Serve, Known, Conserved, Deliver;
    RespondKnown(s, r, e.sent);
    RespondConserved(s, r, e.sent);
  }

  lemma InvReturn(s: System, e: Event)
    requires Inv(s) && (e.Return? || e.Ask? || e.StartFails?) && Enabled(s, e)
    ensures Inv(Step(s, e))
  {
    var t := Step(s, e);
    assert Known(t, t.children, t.births) by {
      KnownStays(s, t, t.children, t.births);
    }
    if t.host.Some? {
      assert Expected(t) == Expected(s) && ExpectedBirths(t) == ExpectedBirths(s);
      ConservedAgain(s, t, t.host.value, Expected(t), ExpectedBirths(t));
    }
  }

  lemma InvStep(s: System, e: Event)
    requires Inv(s) && Enabled(s, e)
    ensures Inv(Step(s, e))
  {
    hide Step, Inv, Enabled;
    match e
    case Start(_, _) => InvStart(s, e);
    case StartFails => InvReturn(s, e);
    case World(_) => InvWorld(s, e);
    case Report(_, _) => InvReport(s, e);
    case Reap(_) => InvReap(s, e);
    case Ask(_) => InvReturn(s, e);
    case Respond(_, _) => InvRespond(s, e);
    case Hangup => InvHangup(s);
    case Return => InvReturn(s, e);
    case Lost(_) => InvLost(s, e);
    case ServerDies(_) => InvWorld(s, e);
  }
}

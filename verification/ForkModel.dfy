/** The wire data of the phone fork server (overlay/base/process/fork_server_ohos.cc)
    and what one reap, one request and one reply do to it, as functions of values.
    The classes in ForkServer.dfy and ForkClient.dfy update their fields step by step and
    are proved equal to these functions; ForkSystem.dfy runs both against a kernel. */
module ForkModel {
  import opened Options

  const MAX_CHILDREN := 64
  const MAX_FDS := 16
  const MAX_PARAMS := 64 * 1024
  const EAGAIN := 11
  const ESRCH := 3
  const EINVAL := 22
  const SIGKILL := 9
  const SIGTERM := 15
  const TWO32 := 0x1_0000_0000

  /** One shared progress word: stage in the high half, detail in the low half. */
  type Word = w: int | 0 <= w < 0x1_0000_0000_0000_0000

  datatype ExitRecord = ExitRecord(pid: int, status: int, progress: Word)

  datatype Reply = Reply(error: int, pid: int, progressPid: int, progress: Word, exited: seq<ExitRecord>)

  datatype Operation = Hello | Launch | Status | Signal | Stop

  datatype Request = Request(operation: Operation, bytes: nat, pid: int, signal: int)

  datatype Slot = Slot(pid: int, progress: Word)

  /** What waitpid(pid, WNOHANG) answers; NoChild is ECHILD. */
  datatype WaitAnswer = StillRunning | Collected(status: nat) | NoChild

  datatype ForkAnswer = ForkFailed(error: int) | Forked(pid: int)

  /** The answers of the system calls one request may make: parking the received
      descriptors (0 for success), fork, and kill (0 for success). */
  datatype Answers = Answers(park: int, fork: ForkAnswer, kill: int)

  // ---- Server ----------------------------------------------------------------

  datatype Host = Host(slots: seq<Slot>, exited: seq<ExitRecord>)

  /** Number of slots that hold a child. */
  function Occupied(slots: seq<Slot>): (n: nat)
    ensures n <= |slots|
  {
    if slots == [] then 0 else (if slots[0].pid > 0 then 1 else 0) + Occupied(slots[1..])
  }

  /** The children held and the exits not yet reported fit the fixed arrays together. */
  predicate Fits(h: Host) {
    |h.slots| == MAX_CHILDREN && Occupied(h.slots) + |h.exited| <= MAX_CHILDREN
  }

  lemma {:induction false} OccupiedUpdate(slots: seq<Slot>, i: nat, s: Slot)
    requires i < |slots|
    ensures Occupied(slots[i := s]) ==
            Occupied(slots) - (if slots[i].pid > 0 then 1 else 0) + (if s.pid > 0 then 1 else 0)
  {
    if i == 0 {
      assert slots[i := s][1..] == slots[1..];
    } else {
      OccupiedUpdate(slots[1..], i - 1, s);
      assert slots[i := s][1..] == slots[1..][i - 1 := s];
    }
  }

  lemma {:induction false} NoneOccupied(slots: seq<Slot>)
    requires forall i :: 0 <= i < |slots| ==> slots[i].pid == 0
    ensures Occupied(slots) == 0
  {
    if slots != [] {
      NoneOccupied(slots[1..]);
    }
  }

  /** One waitpid of the reaping loop, on slot i. */
  function ReapSlot(h: Host, i: nat, answer: WaitAnswer): Host
    requires i < |h.slots|
  {
    var slot := h.slots[i];
    if slot.pid <= 0 || answer.StillRunning? then h
    else
      Host(h.slots[i := slot.(pid := 0)],
           h.exited + [ExitRecord(slot.pid, if answer.Collected? then answer.status else -1, slot.progress)])
  }

  /** The reaping loop over the first n slots. */
  function ReapFirst(h: Host, answers: seq<WaitAnswer>, n: nat): (r: Host)
    requires n <= |h.slots| <= |answers|
    ensures |r.slots| == |h.slots|
  {
    if n == 0 then h else ReapSlot(ReapFirst(h, answers, n - 1), n - 1, answers[n - 1])
  }

  /** First free slot, or the number of slots when none is free. */
  function FreeSlot(slots: seq<Slot>): (i: nat)
    ensures i <= |slots|
    ensures i < |slots| ==> slots[i].pid == 0
    ensures forall j :: 0 <= j < i ==> slots[j].pid != 0
  {
    if slots == [] || slots[0].pid == 0 then 0 else 1 + FreeSlot(slots[1..])
  }

  /** First slot that holds pid, or the number of slots. */
  function SlotOf(slots: seq<Slot>, pid: int): (i: nat)
    ensures i <= |slots|
    ensures i < |slots| ==> slots[i].pid > 0 && slots[i].pid == pid
    ensures forall j :: 0 <= j < i ==> !(slots[j].pid > 0 && slots[j].pid == pid)
  {
    if slots == [] || (slots[0].pid > 0 && slots[0].pid == pid) then 0 else 1 + SlotOf(slots[1..], pid)
  }

  predicate Holds(slots: seq<Slot>, pid: int) {
    exists i :: 0 <= i < |slots| && slots[i].pid > 0 && slots[i].pid == pid
  }

  datatype Served = Served(slots: seq<Slot>, reply: Reply, stop: bool, killed: Option<int>)

  /** A signal is sent exactly if it may be, and to a child the server holds; the reply tells
      how that went, or which of the two was wrong. */
  ghost predicate SignalServed(before: seq<Slot>, q: Request, a: Answers, reply: Reply, killed: Option<int>) {
    && killed == (if Holds(before, q.pid) && q.signal in {SIGKILL, SIGTERM} then Some(q.pid) else None)
    && reply.error == if !Holds(before, q.pid) then ESRCH
                      else if q.signal !in {SIGKILL, SIGTERM} then EINVAL else a.kill
  }

  /** The reply has the present word of the child asked about, if the server holds it. */
  ghost predicate StatusServed(before: seq<Slot>, q: Request, reply: Reply) {
    && reply.error == 0
    && (!Holds(before, q.pid) ==> reply.progressPid == 0)
    && (Holds(before, q.pid) ==>
          && reply.progressPid == q.pid
          && exists i :: 0 <= i < |before| && before[i] == Slot(q.pid, reply.progress)
                         && forall j :: 0 <= j < i ==> before[j].pid != q.pid)
  }

  ghost predicate HasRoom(slots: seq<Slot>) { exists i :: 0 <= i < |slots| && slots[i].pid == 0 }

  /** A new child comes into the first free slot, with no progress yet, and into the reply,
      exactly if parking worked, there was room, the request has parameters and fork gave a
      child. Otherwise the reply has the first error, and no child moves. */
  ghost predicate LaunchServed(before: seq<Slot>, after: seq<Slot>, q: Request, a: Answers, reply: Reply) {
    && reply.error == (if a.park != 0 then a.park
                       else if !HasRoom(before) then EAGAIN
                       else if q.bytes == 0 then EINVAL
                       else if a.fork.ForkFailed? then a.fork.error else 0)
    && |after| == |before| && (forall i :: 0 <= i < |before| && before[i].pid != 0 ==> after[i] == before[i])
    && (if a.park == 0 && HasRoom(before) && q.bytes > 0 && a.fork.Forked?
        then reply.pid == a.fork.pid
             && exists i :: 0 <= i < |before| && before[i].pid == 0 && after == before[i := Slot(a.fork.pid, 0)]
                            && forall j :: 0 <= j < i ==> before[j].pid != 0
        else reply.pid == 0 && forall i :: 0 <= i < |before| ==> after[i].pid == before[i].pid)
  }

  lemma RoomIsFree(slots: seq<Slot>)
    ensures HasRoom(slots) <==> FreeSlot(slots) < |slots|
  {
  }

  lemma HeldIsFound(slots: seq<Slot>, pid: int)
    ensures Holds(slots, pid) <==> SlotOf(slots, pid) < |slots|
  {
    if SlotOf(slots, pid) < |slots| {
      assert slots[SlotOf(slots, pid)].pid == pid;
    }
  }

  /** What the server does for one request; the reply carries the pending exits. */
  function Serve(h: Host, q: Request, a: Answers): (r: Served)
    ensures r.reply.exited == h.exited && (r.stop <==> q.operation.Stop?)
    ensures !q.operation.Launch? ==> r.slots == h.slots && r.reply.pid == 0
    ensures !q.operation.Signal? ==> r.killed == None
    ensures !q.operation.Status? ==> r.reply.progressPid == 0
    ensures q.operation.Signal? ==> SignalServed(h.slots, q, a, r.reply, r.killed)
    ensures q.operation.Status? ==> StatusServed(h.slots, q, r.reply)
    ensures q.operation.Launch? ==> LaunchServed(h.slots, r.slots, q, a, r.reply)
    ensures q.operation.Stop? ==> r.reply.error == 0
    ensures q.operation.Hello? ==> r.reply.error == EINVAL
  {
    RoomIsFree(h.slots);
    HeldIsFound(h.slots, q.pid);
    var base := Reply(0, 0, 0, 0, h.exited);
    match q.operation
    case Launch =>
      var i := FreeSlot(h.slots);
      if a.park != 0 then Served(h.slots, base.(error := a.park), false, None)
      else if i == |h.slots| || q.bytes == 0 then
        Served(h.slots, base.(error := if i < |h.slots| then EINVAL else EAGAIN), false, None)
      else (match a.fork
            case ForkFailed(e) => Served(h.slots[i := Slot(0, 0)], base.(error := e), false, None)
            case Forked(pid) => Served(h.slots[i := Slot(pid, 0)], base.(pid := pid), false, None))
    case Signal =>
      if !Holds(h.slots, q.pid) then Served(h.slots, base.(error := ESRCH), false, None)
      else if q.signal != SIGKILL && q.signal != SIGTERM then Served(h.slots, base.(error := EINVAL), false, None)
      else Served(h.slots, base.(error := a.kill), false, Some(q.pid))
    case Stop => Served(h.slots, base, true, None)
    case Status =>
      var i := SlotOf(h.slots, q.pid);
      if i < |h.slots| then
        Served(h.slots, base.(progressPid := h.slots[i].pid, progress := h.slots[i].progress), false, None)
      else Served(h.slots, base, false, None)
    case Hello => Served(h.slots, base.(error := EINVAL), false, None)
  }

  // ---- Client ----------------------------------------------------------------

  datatype ChildStatus = ChildStatus(running: bool, waitStatus: int, stage: nat, detail: int)

  const LAUNCHED := ChildStatus(true, -1, 0, 0)

  function Stage(w: Word): nat { w / TWO32 }

  function Detail(w: Word): int {
    var low := w % TWO32;
    if low < 0x8000_0000 then low else low - TWO32
  }

  function WithProgress(s: ChildStatus, w: Word): ChildStatus {
    s.(stage := Stage(w), detail := Detail(w))
  }

  function Pack(stage: nat, detail: int): Word
    requires stage < TWO32 && -0x8000_0000 <= detail < 0x8000_0000
  {
    stage * TWO32 + detail % TWO32
  }

  /** A stage report survives the shared word unchanged, negative details included. */
  lemma PackRoundTrip(stage: nat, detail: int)
    requires stage < TWO32 && -0x8000_0000 <= detail < 0x8000_0000
    ensures Stage(Pack(stage, detail)) == stage && Detail(Pack(stage, detail)) == detail
  {
    var low := detail % TWO32;
    assert low == if detail < 0 then detail + TWO32 else detail;
    assert (stage * TWO32 + low) / TWO32 == stage;
  }

  function Ended(r: ExitRecord): ChildStatus {
    WithProgress(ChildStatus(false, r.status, 0, 0), r.progress)
  }

  /** The exit records of a reply, in order, applied to the map of known children. */
  function ApplyExits(c: map<int, ChildStatus>, rs: seq<ExitRecord>): (d: map<int, ChildStatus>)
    ensures d.Keys == c.Keys
  {
    if rs == [] then c
    else
      var r := rs[|rs| - 1];
      var d := ApplyExits(c, rs[..|rs| - 1]);
      if r.pid in d then d[r.pid := Ended(r)] else d
  }

  lemma {:induction false} ApplyExitsMisses(c: map<int, ChildStatus>, rs: seq<ExitRecord>, p: int)
    requires p in c && forall i :: 0 <= i < |rs| ==> rs[i].pid != p
    ensures ApplyExits(c, rs)[p] == c[p]
  {
    if rs != [] {
      ApplyExitsMisses(c, rs[..|rs| - 1], p);
    }
  }

  lemma {:induction false} ApplyExitsHits(c: map<int, ChildStatus>, rs: seq<ExitRecord>, k: nat)
    requires k < |rs| && rs[k].pid in c
    requires forall i :: k < i < |rs| ==> rs[i].pid != rs[k].pid
    ensures ApplyExits(c, rs)[rs[k].pid] == Ended(rs[k])
  {
    if k < |rs| - 1 {
      ApplyExitsHits(c, rs[..|rs| - 1], k);
    }
  }

  predicate Listed(rs: seq<ExitRecord>, pid: int) {
    exists k :: 0 <= k < |rs| && rs[k].pid == pid
  }

  ghost predicate LastRecord(rs: seq<ExitRecord>, k: nat) {
    k < |rs| && forall i :: k < i < |rs| ==> rs[i].pid != rs[k].pid
  }

  /** Each known child the reply has a record of is as its last record says. Of the others
      only the one the reply has a word of changes, if it runs: its stage and its detail. */
  ghost predicate Absorbed(c: map<int, ChildStatus>, d: map<int, ChildStatus>, r: Reply) {
    && d.Keys == c.Keys
    && (forall k: nat :: LastRecord(r.exited, k) && r.exited[k].pid in c ==>
          var e := r.exited[k];
          d[e.pid] == ChildStatus(false, e.status, Stage(e.progress), Detail(e.progress)))
    && forall p :: p in c && !Listed(r.exited, p) ==>
         d[p] == if p == r.progressPid && c[p].running
                 then c[p].(stage := Stage(r.progress), detail := Detail(r.progress)) else c[p]
  }

  lemma ExitsApplied(c: map<int, ChildStatus>, rs: seq<ExitRecord>)
    ensures forall k: nat :: LastRecord(rs, k) && rs[k].pid in c ==> ApplyExits(c, rs)[rs[k].pid] == Ended(rs[k])
    ensures forall p :: p in c && !Listed(rs, p) ==> ApplyExits(c, rs)[p] == c[p]
  {
    forall k: nat | LastRecord(rs, k) && rs[k].pid in c ensures ApplyExits(c, rs)[rs[k].pid] == Ended(rs[k]) {
      ApplyExitsHits(c, rs, k);
    }
    forall p | p in c && !Listed(rs, p) ensures ApplyExits(c, rs)[p] == c[p] {
      ApplyExitsMisses(c, rs, p);
    }
  }

  /** Everything ReadReply does to the map. */
  function Absorb(c: map<int, ChildStatus>, r: Reply): (d: map<int, ChildStatus>)
    ensures Absorbed(c, d, r)
  {
    ExitsApplied(c, r.exited);
    var d := ApplyExits(c, r.exited);
    if r.progressPid in d && d[r.progressPid].running
    then d[r.progressPid := WithProgress(d[r.progressPid], r.progress)] else d
  }

  predicate Announces(op: Operation, r: Reply) { op == Launch && r.error == 0 && r.pid > 0 }

  /** The map once the whole call has returned: a successful launch adds its child. */
  function Deliver(c: map<int, ChildStatus>, op: Operation, r: Reply): map<int, ChildStatus> {
    var d := Absorb(c, r);
    if Announces(op, r) then d[r.pid := LAUNCHED] else d
  }

  /** A lost server leaves no child running; what was already known stays. */
  function Lose(c: map<int, ChildStatus>): map<int, ChildStatus> {
    map p | p in c :: if c[p].running then c[p].(running := false, waitStatus := -1) else c[p]
  }
}

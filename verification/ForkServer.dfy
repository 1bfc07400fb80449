/** The single-threaded fork server of overlay/base/process/fork_server_ohos.cc: fixed
    arrays for its children and for the exits not yet reported, and its descriptor table.
    Every method is proved to compute the function of the same step in ForkModel. */
module ForkServerProcess {
  import opened Options
  import opened Descriptors
  import opened ForkModel

  /** What one iteration of the server loop meets: the shared progress words as the
      children have left them, the answer of each waitpid, and what arrived. */
  datatype Turn = Turn(words: seq<Word>, waits: seq<WaitAnswer>, arrival: Arrival)

  datatype Arrival =
    | Nothing
    | Hangup
    | Garbled(fdCount: nat)
    | Message(request: Request, fdCount: nat, failing: nat, answers: Answers, sent: bool)

  predicate GoodTurn(t: Turn) {
    && |t.words| == MAX_CHILDREN == |t.waits|
    && (t.arrival.Message? ==>
          && (t.arrival.answers.fork.Forked? ==> t.arrival.answers.fork.pid > 0)
          && (t.arrival.answers.park != 0 <==> t.arrival.failing < t.arrival.fdCount))
  }

  /** The loop as a function: the children and unreported exits, the replies delivered to
      the browser, and whether the loop is still running. */
  datatype Life = Life(host: Host, sent: seq<Reply>, running: bool)

  function Observe(slots: seq<Slot>, words: seq<Word>): (r: seq<Slot>)
    requires |slots| == |words|
    ensures |r| == |slots|
  {
    seq(|slots|, i requires 0 <= i < |slots| => if slots[i].pid > 0 then Slot(slots[i].pid, words[i]) else slots[i])
  }

  function Handle(h: Host, sent: seq<Reply>, a: Arrival): Life {
    match a
    case Nothing => Life(h, sent, true)
    case Hangup => Life(h, sent, false)
    case Garbled(_) => Life(h, sent, false)
    case Message(q, _, _, answers, delivered) =>
      var r := Serve(h, q, answers);
      if delivered then Life(Host(r.slots, []), sent + [r.reply], !r.stop)
      else Life(Host(r.slots, h.exited), sent, false)
  }

  function Iterate(l: Life, t: Turn): (r: Life)
    requires |l.host.slots| == MAX_CHILDREN && GoodTurn(t)
    ensures |r.host.slots| == MAX_CHILDREN
  {
    if !l.running then l
    else
      var h := ReapFirst(Host(Observe(l.host.slots, t.words), l.host.exited), t.waits, MAX_CHILDREN);
      Handle(h, l.sent, t.arrival)
  }

  function Live(l: Life, ts: seq<Turn>): (r: Life)
    requires |l.host.slots| == MAX_CHILDREN && forall i :: 0 <= i < |ts| ==> GoodTurn(ts[i])
    ensures |r.host.slots| == MAX_CHILDREN
  {
    if ts == [] then l else Iterate(Live(l, ts[..|ts| - 1]), ts[|ts| - 1])
  }

  /** The first of these descriptors, up to the one whose duplication failed. */
  function Moved(fds: seq<int>, failing: nat): set<int> {
    set i | 0 <= i < |fds| && i < failing :: fds[i]
  }

  /** Reaping moves children from slots to exit records, one for one. */
  lemma ReapSlotCount(h: Host, i: nat, answer: WaitAnswer)
    requires i < |h.slots|
    ensures var r := ReapSlot(h, i, answer);
            Occupied(r.slots) + |r.exited| == Occupied(h.slots) + |h.exited|
  {
    OccupiedUpdate(h.slots, i, h.slots[i].(pid := 0));
  }

  lemma {:induction false} ReapFirstCount(h: Host, answers: seq<WaitAnswer>, n: nat)
    requires n <= |h.slots| <= |answers|
    ensures var r := ReapFirst(h, answers, n);
            Occupied(r.slots) + |r.exited| == Occupied(h.slots) + |h.exited|
  {
    if n > 0 {
      ReapFirstCount(h, answers, n - 1);
      ReapSlotCount(ReapFirst(h, answers, n - 1), n - 1, answers[n - 1]);
    }
  }

  lemma {:induction false} ObserveCount(slots: seq<Slot>, words: seq<Word>)
    requires |slots| == |words|
    ensures Occupied(Observe(slots, words)) == Occupied(slots)
  {
    if slots != [] {
      ObserveCount(slots[1..], words[1..]);
      assert Observe(slots, words)[1..] == Observe(slots[1..], words[1..]);
    }
  }

  /** Reaping keeps the records there are, and adds to them. */
  lemma {:induction false} ReapFirstAdds(h: Host, answers: seq<WaitAnswer>, n: nat)
    requires n <= |h.slots| <= |answers|
    ensures h.exited <= ReapFirst(h, answers, n).exited
  {
    if n > 0 {
      ReapFirstAdds(h, answers, n - 1);
    }
  }

  class ForkServer {
    const slots: array<Slot>
    const exited: array<ExitRecord>
    var exitedCount: nat
    const table: FdTable
    const socket: int
    const minimumFd: int
    var sent: seq<Reply>   // replies delivered to the browser
    var ended: seq<int>    // children killed and waited for when the loop has ended
    var parked: set<int>   // numbers that received descriptors were moved to

    ghost predicate Shape()
      reads this, slots, exited, table
    {
      && slots.Length == MAX_CHILDREN == exited.Length
      && exitedCount <= exited.Length
      && (forall i :: 0 <= i < slots.Length ==> slots[i].pid >= 0)
      && (forall fd :: fd in parked ==> fd >= minimumFd)
      && table.Valid()
    }

    /** At the head of an iteration the exits of all children still fit the reply. */
    ghost predicate Valid()
      reads this, slots, exited, table
    {
      Shape() && Occupied(slots[..]) + exitedCount <= MAX_CHILDREN
    }

    ghost function View(): Host
      reads this, slots, exited
      requires exitedCount <= exited.Length
    {
      Host(slots[..], exited[..exitedCount])
    }

    constructor (table: FdTable, socket: int, minimumFd: int)
      requires table.Valid() && socket in table.open
      ensures Valid() && fresh(slots) && fresh(exited)
      ensures this.table == table && this.socket == socket && this.minimumFd == minimumFd
      ensures View() == Host(seq(MAX_CHILDREN, _ => Slot(0, 0)), []) && sent == [] && ended == [] && parked == {}
    {
      this.table, this.socket, this.minimumFd := table, socket, minimumFd;
      slots := new Slot[MAX_CHILDREN](_ => Slot(0, 0));
      exited := new ExitRecord[MAX_CHILDREN](_ => ExitRecord(0, -1, 0));
      exitedCount, sent, ended, parked := 0, [], [], {};
      new;
      assert slots[..] == seq(MAX_CHILDREN, _ => Slot(0, 0));
      NoneOccupied(slots[..]);
    }

    /** Children write their own progress words between two iterations. */
    method ObserveProgress(words: seq<Word>)
      requires Valid() && |words| == MAX_CHILDREN
      modifies slots
      ensures Valid() && slots[..] == Observe(old(slots[..]), words)
      ensures forall i :: 0 <= i < slots.Length ==>
        slots[i] == if old(slots[i].pid) > 0 then Slot(old(slots[i].pid), words[i]) else old(slots[i])
    {
      ObserveCount(slots[..], words);
      forall i | 0 <= i < slots.Length {
        slots[i] := if slots[i].pid > 0 then Slot(slots[i].pid, words[i]) else slots[i];
      }
      assert slots[..] == Observe(old(slots[..]), words);
    }

    method ReapServerChildren(answers: seq<WaitAnswer>)
      requires Valid() && |answers| == MAX_CHILDREN
      modifies this`exitedCount, slots, exited
      ensures Valid() && View() == ReapFirst(old(View()), answers, MAX_CHILDREN)
    {
      for i := 0 to slots.Length
        invariant Valid() && View() == ReapFirst(old(View()), answers, i)
      {
        ghost var before := View();
        ReapSlotCount(before, i, answers[i]);
        var child := slots[i];
        if child.pid > 0 {
          if !answers[i].StillRunning? {
            CountOne(slots[..], i);
            exited[exitedCount] :=
              ExitRecord(child.pid, if answers[i].Collected? then answers[i].status else -1, child.progress);
            exitedCount := exitedCount + 1;
            slots[i] := child.(pid := 0);
            assert slots[..] == before.slots[i := child.(pid := 0)];
          }
        }
        assert View() == ReapSlot(before, i, answers[i]);
      }
    }

    method FindFree() returns (k: nat)
      requires Valid()
      ensures k == FreeSlot(slots[..])
    {
      k := 0;
      while k < slots.Length && slots[k].pid != 0
        invariant k <= slots.Length
        invariant FreeSlot(slots[..]) == k + FreeSlot(slots[k..])
      {
        assert slots[k..][1..] == slots[k + 1..];
        k := k + 1;
      }
    }

    method FindChild(pid: int) returns (k: nat)
      requires Valid()
      ensures k == SlotOf(slots[..], pid)
    {
      k := 0;
      while k < slots.Length && !(slots[k].pid > 0 && slots[k].pid == pid)
        invariant k <= slots.Length
        invariant SlotOf(slots[..], pid) == k + SlotOf(slots[k..], pid)
      {
        assert slots[k..][1..] == slots[k + 1..];
        k := k + 1;
      }
    }

    method Owns(pid: int) returns (owned: bool)
      requires Valid()
      ensures owned <==> Holds(slots[..], pid)
    {
      owned := false;
      for i := 0 to slots.Length
        invariant owned <==> Holds(slots[..i], pid)
      {
        assert slots[..i + 1] == slots[..i] + [slots[i]];
        owned := owned || (slots[i].pid > 0 && slots[i].pid == pid);
      }
      assert slots[..slots.Length] == slots[..];
    }

    /** One request, from its descriptors to the reply it is answered with. Whatever the
        request did with its descriptors, the table ends as it was before they arrived. */
    method Answer(q: Request, fds: array<int>, failing: nat, a: Answers)
      returns (reply: Reply, stop: bool, killed: Option<int>)
      requires Valid()
      requires Distinct(fds[..]) && Elements(fds[..]) <= table.open.Keys
      requires a.fork.Forked? ==> a.fork.pid > 0
      requires a.park != 0 <==> failing < fds.Length
      modifies this`parked, slots, table, fds
      ensures Shape()
      ensures Serve(old(View()), q, a) == Served(slots[..], reply, stop, killed)
      ensures reply.exited == old(exited[..exitedCount]) && (stop <==> q.operation.Stop?)
      ensures !q.operation.Launch? ==> slots[..] == old(slots[..]) && reply.pid == 0
      ensures !q.operation.Signal? ==> killed == None
      ensures !q.operation.Status? ==> reply.progressPid == 0
      ensures q.operation.Signal? ==> SignalServed(old(slots[..]), q, a, reply, killed)
      ensures q.operation.Status? ==> StatusServed(old(slots[..]), q, reply)
      ensures q.operation.Launch? ==> LaunchServed(old(slots[..]), slots[..], q, a, reply)
      ensures q.operation.Stop? ==> reply.error == 0
      ensures q.operation.Hello? ==> reply.error == EINVAL
      ensures table.open == old(table.open - Elements(fds[..]))
      ensures parked == old(parked) + if q.operation.Launch? then Moved(fds[..], failing) else {}
    {
      ghost var h := View();
      reply, stop, killed := Reply(0, 0, 0, 0, exited[..exitedCount]), false, None;
      match q.operation {
        case Launch =>
          var k := FindFree();
          var moved := table.ParkReceivedFds(fds, minimumFd, failing);
          parked := parked + Moved(fds[..], failing);
          if !moved {
            reply := reply.(error := a.park);
          } else if k == slots.Length || q.bytes == 0 {
            reply := reply.(error := if k < slots.Length then EINVAL else EAGAIN);
          } else {
            slots[k] := slots[k].(progress := 0);
            match a.fork {
              case ForkFailed(e) => reply := reply.(error := e);
              case Forked(pid) =>
                slots[k] := slots[k].(pid := pid);
                reply := reply.(pid := pid);
            }
            assert slots[..] == h.slots[k := slots[k]];
          }
        case Signal =>
          var owned := Owns(q.pid);
          if !owned {
            reply := reply.(error := ESRCH);
          } else if q.signal != SIGKILL && q.signal != SIGTERM {
            reply := reply.(error := EINVAL);
          } else {
            killed := Some(q.pid);
            if a.kill != 0 {
              reply := reply.(error := a.kill);
            }
          }
        case Stop => stop := true;
        case Status =>
          var k := FindChild(q.pid);
          if k < slots.Length {
            reply := reply.(progressPid := slots[k].pid, progress := slots[k].progress);
          }
        case Hello => reply := reply.(error := EINVAL);
      }
      table.CloseFds(fds);
    }

    /** Descriptors delivered with a message, each at the lowest number then free. */
    method Receive(count: nat) returns (fds: array<int>)
      requires table.Valid()
      modifies table
      ensures fresh(fds) && fds.Length == count && table.Valid()
      ensures Distinct(fds[..]) && Elements(fds[..]) <= table.open.Keys
      ensures table.open - Elements(fds[..]) == old(table.open)
      ensures LowestInTurn(old(table.open.Keys), fds[..])
    {
      hide LowestInTurn, Distinct, FdTable.Valid;
      fds := new int[count](_ => -1);
      NoneReceived(table.open.Keys);
      assert fds[..0] == [];
      for i := 0 to count
        invariant table.Valid() && Distinct(fds[..i]) && Elements(fds[..i]) <= table.open.Keys
        invariant table.open - Elements(fds[..i]) == old(table.open)
        invariant table.open.Keys == old(table.open.Keys) + Elements(fds[..i])
        invariant LowestInTurn(old(table.open.Keys), fds[..i])
      {
        ghost var s, o := fds[..i], table.open;
        var fd := LowestFree(table.open.Keys, 0);
        table.Install(fd);
        fds[i] := fd;
        assert fds[..i + 1] == s + [fd];
        OneReceived(o, table.open, s, fd);
        NextInTurn(old(table.open.Keys), s, fd);
      }
      assert fds[..count] == fds[..];
    }

    /** One iteration of the loop: reap, wait, receive, serve, reply. */
    method Iteration(t: Turn) returns (running: bool)
      requires Valid() && GoodTurn(t)
      modifies this`exitedCount, this`sent, this`parked, slots, exited, table
      ensures Shape() && (running ==> Valid())
      ensures Life(View(), sent, running) == Iterate(Life(old(View()), old(sent), true), t)
      ensures running <==>
        || t.arrival.Nothing?
        || (t.arrival.Message? && t.arrival.sent && !t.arrival.request.operation.Stop?)
      ensures if t.arrival.Message? && t.arrival.sent
              then exitedCount == 0 && |sent| == |old(sent)| + 1 && sent[..|old(sent)|] == old(sent)
                   && old(exited[..exitedCount]) <= sent[|old(sent)|].exited
              else sent == old(sent) && old(exited[..exitedCount]) <= exited[..exitedCount]
      ensures table.open == old(table.open)
    {
      hide Serve, ReapFirst, Observe, SignalServed, StatusServed, LaunchServed, FdTable.Valid, LowestInTurn, Distinct;
      running := true;
      ReapFirstAdds(Host(Observe(slots[..], t.words), exited[..exitedCount]), t.waits, MAX_CHILDREN);
      ObserveProgress(t.words);
      ReapServerChildren(t.waits);
      match t.arrival {
        case Nothing =>
        case Hangup => running := false;
        case Garbled(count) =>
          var fds := Receive(count);
          table.CloseFds(fds);
          running := false;
        case Message(q, count, failing, answers, delivered) =>
          var fds := Receive(count);
          var reply, stop, _ := Answer(q, fds, failing, answers);
          if delivered {
            sent, exitedCount := sent + [reply], 0;
          }
          running := delivered && !stop;
      }
    }

    /** After the loop every child still held is killed and waited for. */
    method EndChildren()
      requires Shape()
      modifies this`ended
      ensures forall pid :: pid in ended <==> pid in old(ended) || Holds(slots[..], pid)
    {
      for j := 0 to slots.Length
        invariant forall pid :: pid in ended <==> pid in old(ended) || Holds(slots[..j], pid)
      {
        assert slots[..j + 1] == slots[..j] + [slots[j]];
        if slots[j].pid > 0 {
          ended := ended + [slots[j].pid];
        }
      }
      assert slots[..slots.Length] == slots[..];
    }

    /** The whole loop over all the turns the server lives through. At the head of every
        iteration the children and the unreported exits fit the fixed arrays, no request
        leaves a descriptor behind, and exactly the children left at the end are killed. */
    method ServerLoop(turns: seq<Turn>)
      requires Valid() && socket in table.open && sent == [] && ended == []
      requires forall i :: 0 <= i < |turns| ==> GoodTurn(turns[i])
      requires !Live(Life(View(), [], true), turns).running
      modifies this, slots, exited, table
      ensures Shape()
      ensures Life(View(), sent, false) == Live(Life(old(View()), [], true), turns)
      ensures forall pid :: pid in ended <==> Holds(slots[..], pid)
      ensures table.open == old(table.open) - {socket}
      ensures forall fd :: fd in parked ==> fd >= minimumFd
    {
      var i, running := 0, true;
      while i < |turns| && running
        invariant i <= |turns| && Shape() && (running ==> Valid()) && ended == []
        invariant Life(View(), sent, running) == Live(Life(old(View()), [], true), turns[..i])
        invariant table.open == old(table.open)
      {
        assert turns[..i + 1][..i] == turns[..i];
        running := Iteration(turns[i]);
        i := i + 1;
      }
      StoppedStays(Life(old(View()), [], true), turns, i);
      EndChildren();
      table.Close(socket);
    }
  }

  const FD_FLOOR := 256
  const NO_CHILDREN := Host(seq(MAX_CHILDREN, _ => Slot(0, 0)), [])

  /** The server process from its start: closing what it inherited gives the minimum to which
      it moves what it receives. No number it ever moves a descriptor to was inherited, or is
      below one that was; and it ends with the inherited descriptors it had to keep, the
      private channel closed. It fails, serving nothing, if the listing does not open. */
  method RunServer(table: FdTable, socket: int, entries: seq<Entry>, opens: bool, turns: seq<Turn>)
      returns (ok: bool, parked: set<int>)
    requires table.Valid() && socket in table.open && forall fd :: fd in table.open ==> 0 <= fd < Descriptors.INT_MAX
    requires LowestFree(table.open.Keys, 0) < Descriptors.INT_MAX && ListedOnce(entries)
    requires forall fd ::
      Descriptors.Listed(entries, |entries|, fd) <==> fd in table.open || fd == LowestFree(table.open.Keys, 0)
    requires forall i :: 0 <= i < |turns| ==> GoodTurn(turns[i])
    requires !Live(Life(NO_CHILDREN, [], true), turns).running
    modifies table
    ensures table.Valid() && ok == opens
    ensures forall p, fd :: p in parked && fd in old(table.open) ==> fd < p
    ensures forall p :: p in parked ==> p >= FD_FLOOR
    ensures ok ==> forall fd ::
      fd in table.open <==> fd in old(table.open) && fd != socket && (fd <= 2 || Cached(entries, fd))
  {
    hide FdTable.Valid, LowestFree, ListedOnce, Descriptors.Listed, Cached, GoodTurn;
    parked := {};
    var minimum;
    ok, minimum := table.CloseInheritedFds(socket, entries, FD_FLOOR, opens);
    if ok {
      var server := new ForkServer(table, socket, minimum);
      server.ServerLoop(turns);
      parked := server.parked;
    }
  }

  /** Whatever the children, the browser and the kernel do, children plus unreported exits
      fit the arrays every time the running loop comes round. */
  lemma {:induction false} LoopHeadFits(l: Life, ts: seq<Turn>)
    requires forall i :: 0 <= i < |ts| ==> GoodTurn(ts[i])
    requires l.running ==> Fits(l.host)
    requires |l.host.slots| == MAX_CHILDREN
    ensures Live(l, ts).running ==> Fits(Live(l, ts).host)
  {
    if ts != [] {
      var before, t := Live(l, ts[..|ts| - 1]), ts[|ts| - 1];
      LoopHeadFits(l, ts[..|ts| - 1]);
      if before.running {
        var seen := Host(Observe(before.host.slots, t.words), before.host.exited);
        ObserveCount(before.host.slots, t.words);
        ReapFirstCount(seen, t.waits, MAX_CHILDREN);
      }
    }
  }

  lemma {:induction false} CountOne(slots: seq<Slot>, i: nat)
    requires i < |slots| && slots[i].pid > 0
    ensures Occupied(slots) >= 1
  {
    if i > 0 {
      CountOne(slots[1..], i - 1);
    }
  }

  lemma {:induction false} StoppedStays(l: Life, ts: seq<Turn>, n: nat)
    requires |l.host.slots| == MAX_CHILDREN && forall i :: 0 <= i < |ts| ==> GoodTurn(ts[i])
    requires n <= |ts| && (n < |ts| ==> !Live(l, ts[..n]).running)
    ensures Live(l, ts) == Live(l, ts[..n])
  {
    if n == |ts| {
      assert ts[..n] == ts;
    } else {
      var shorter := ts[..|ts| - 1];
      assert shorter[..n] == ts[..n];
      StoppedStays(l, shorter, n);
    }
  }
}

/** What every run of browser, fork server and kernel guarantees. */
module ForkTheorems {
  import opened Options
  import opened ForkModel
  import opened ForkSystem

  /** The n-th step of a run. */
  lemma RunStep(states: seq<System>, events: seq<Event>, n: nat)
    requires Run(states, events) && n < |events|
    ensures Enabled(states[n], events[n]) && states[n + 1] == Step(states[n], events[n])
  {
  }

  lemma RunLength(states: seq<System>, events: seq<Event>)
    requires Run(states, events)
    ensures |states| == |events| + 1
  {
  }

  /** The invariant holds after any number of events. */
  lemma {:induction false} InvRun(states: seq<System>, events: seq<Event>, n: nat)
    requires Run(states, events) && n <= |events|
    ensures Inv(states[n])
  {
    assert |states| == |events| + 1;
    hide Run, Inv;
    if n == 0 {
      InvAtStart(states, events);
    } else {
      InvRun(states, events, n - 1);
      InvNext(states, events, n - 1);
    }
  }

  lemma InvAtStart(states: seq<System>, events: seq<Event>)
    requires Run(states, events)
    ensures Inv(states[0])
  {
  }

  lemma InvNext(states: seq<System>, events: seq<Event>, n: nat)
    requires Run(states, events) && n < |events| && Inv(states[n])
    ensures Inv(states[n + 1])
  {
    hide Step, Inv, Enabled;
    var s, e := states[n], events[n];
    RunStep(states, events, n);
    InvStep(s, e);
    assert states[n + 1] == Step(s, e);
  }

  // ---- Theorems over all runs ------------------------------------------------

  /** Between two calls every child the browser counts as running is in exactly one place,
      a slot or an unreported exit record, and there is nothing else in those places. */
  lemma ExitsConserved(states: seq<System>, events: seq<Event>, n: nat, pid: int)
    requires Run(states, events) && n < |states|
    requires states[n].host.Some? && states[n].phase.Idle?
    ensures var s := states[n];
            var held, ended := Holds(s.host.value.slots, pid), Listed(s.host.value.exited, pid);
            && (pid in s.children && s.children[pid].running <==> held || ended)
            && !(held && ended)
  {
    InvRun(states, events, n);
  }

  /** No exit record is a duplicate, and each tells the end and the last progress of the
      child the browser knows under its pid: never of the slot's next occupant. */
  lemma RecordsTellTheirOwn(states: seq<System>, events: seq<Event>, n: nat)
    requires Run(states, events) && n < |states|
    requires states[n].host.Some? && states[n].phase.Idle?
    ensures var s := states[n];
            var rs := s.host.value.exited;
            && (forall k :: 0 <= k < |rs| ==>
                  rs[k].pid in s.births && TrueRecord(s, rs[k], s.births[rs[k].pid]))
            && (forall j, k :: 0 <= j < k < |rs| ==> rs[j].pid != rs[k].pid)
  {
    InvRun(states, events, n);
  }

  /** A child the browser no longer counts as running ended itself, and is shown with its own
      status and progress; otherwise its status is -1 and the server is lost. */
  lemma EndedChildHasOwnStatus(states: seq<System>, events: seq<Event>, n: nat, pid: int)
    requires Run(states, events) && n < |states|
    requires pid in states[n].children && !states[n].children[pid].running
    ensures var s := states[n];
            var c := s.children[pid];
            pid in s.births &&
            var b := s.births[pid];
            || (b in s.kernel.fate && b in s.words && c.waitStatus == StatusOf(s.kernel.fate[b])
                && c.stage == Stage(s.words[b]) && c.detail == Detail(s.words[b]))
            || (!s.open && c.waitStatus == -1)
  {
    InvRun(states, events, n);
    assert Settled(states[n], states[n].children[pid], states[n].births[pid]);
  }

  /** The arrays of the server never overflow. */
  lemma ArraysSuffice(states: seq<System>, events: seq<Event>, n: nat)
    requires Run(states, events) && n < |states| && states[n].host.Some?
    ensures Fits(states[n].host.value)
  {
    InvRun(states, events, n);
  }

  /** A signal reaches a child the server forked and has not collected, and the very
      incarnation the browser asked about: never a process that reuses the pid. It is sent
      exactly if the server still holds that child and the signal is SIGKILL or SIGTERM. */
  lemma SignalHitsTheAskedChild(states: seq<System>, events: seq<Event>, n: nat)
    requires Run(states, events) && n < |events| && events[n].Respond?
    ensures var s := states[n];
            var killed := Serve(s.host.value, s.phase.request, events[n].answers).killed;
            killed.Some? ==>
              && killed.value == s.phase.request.pid
              && IsChild(s.kernel, s.self, killed.value)
              && killed.value in s.births && s.kernel.procs[killed.value].birth == s.births[killed.value]
    ensures var s, hits := states[n], states[n + 1].hits;
            var q := s.phase.request;
            if q.operation.Signal? && q.signal in {SIGKILL, SIGTERM} && Holds(s.host.value.slots, q.pid)
            then q.pid in s.births && hits == s.hits + [Hit(q.pid, q.signal, Some(s.births[q.pid]))]
            else hits == s.hits
  {
    InvRun(states, events, n);
    RunStep(states, events, n);
    SignalHits(states[n], events[n]);
  }

  lemma SignalHits(s: System, e: Event)
    requires Inv(s) && e.Respond? && Enabled(s, e)
    ensures var killed := Serve(s.host.value, s.phase.request, e.answers).killed;
            killed.Some? ==>
              && killed.value == s.phase.request.pid
              && IsChild(s.kernel, s.self, killed.value)
              && killed.value in s.births && s.kernel.procs[killed.value].birth == s.births[killed.value]
    ensures var hits, q := Step(s, e).hits, s.phase.request;
            if q.operation.Signal? && q.signal in {SIGKILL, SIGTERM} && Holds(s.host.value.slots, q.pid)
            then q.pid in s.births && hits == s.hits + [Hit(q.pid, q.signal, Some(s.births[q.pid]))]
            else hits == s.hits
  {
    assert s.host.Some? && s.phase.Waiting? && SlotsTrue(s, s.host.value.slots, s.births);
    RespondHits(s, e);
    hide Inv, Enabled, Step, Serve, SlotsTrue;
    if Holds(s.host.value.slots, s.phase.request.pid) {
      HeldIsKnown(s, s.phase.request.pid);
    }
  }

  lemma RespondHits(s: System, e: Event)
    requires e.Respond? && Enabled(s, e)
    ensures s.host.Some? && s.phase.Waiting?
    ensures var killed := Serve(s.host.value, s.phase.request, e.answers).killed;
            Step(s, e).hits == s.hits + Hits(s.kernel, s.phase.request.signal, killed)
  {
    hide Serve, Hits, EndChildren, ForkInto;
  }

  lemma HeldIsKnown(s: System, pid: int)
    requires s.host.Some? && SlotsTrue(s, s.host.value.slots, s.births) && Holds(s.host.value.slots, pid)
    ensures IsChild(s.kernel, s.self, pid) && pid in s.births && s.births[pid] == s.kernel.procs[pid].birth
    ensures s.births[pid] in s.words
    ensures forall i :: 0 <= i < |s.host.value.slots| && s.host.value.slots[i].pid == pid ==>
      s.host.value.slots[i].progress == s.words[s.births[pid]]
  {
  }

  /** Nothing else sends one. */
  lemma OnlyRequestsHit(states: seq<System>, events: seq<Event>, n: nat)
    requires Run(states, events) && n < |events| && !events[n].Respond?
    ensures states[n + 1].hits == states[n].hits
  {
    RunStep(states, events, n);
  }

  /** The server goes on after a request exactly if its reply could be sent and it was not
      asked to stop. */
  lemma ServingGoesOn(states: seq<System>, events: seq<Event>, n: nat)
    requires Run(states, events) && n < |events| && events[n].Respond?
    ensures states[n + 1].host.Some? <==> events[n].sent && !states[n].phase.request.operation.Stop?
    ensures states[n + 1].outbox.Some? <==> events[n].sent
  {
    InvRun(states, events, n);
    RunStep(states, events, n);
  }

  /** Where a launch can succeed it does: the server holds the new child, an incarnation of
      its own, and the reply on its way announces it. */
  lemma LaunchedIsHeld(states: seq<System>, events: seq<Event>, n: nat, pid: int)
    requires Run(states, events) && n < |events| && events[n].Respond? && events[n].sent
    requires states[n].phase.request.operation.Launch? && states[n].phase.request.bytes > 0
    requires HasRoom(states[n].host.value.slots)
    requires events[n].answers.park == 0 && events[n].answers.fork == Forked(pid)
    ensures var s, t := states[n], states[n + 1];
            && t.host.Some? && Holds(t.host.value.slots, pid)
            && IsChild(t.kernel, t.self, pid) && t.kernel.procs[pid].birth == s.kernel.births
            && t.outbox.Some? && t.outbox.value.birth == s.kernel.births
            && t.outbox.value.reply.pid == pid && Announces(Launch, t.outbox.value.reply)
  {
    RunStep(states, events, n);
    Launching(states[n], events[n], pid);
  }

  lemma Launching(s: System, e: Event, pid: int)
    requires e.Respond? && e.sent && Enabled(s, e) && s.phase.request.operation.Launch? && s.phase.request.bytes > 0
    requires HasRoom(s.host.value.slots) && e.answers.park == 0 && e.answers.fork == Forked(pid)
    ensures var t := Step(s, e);
            && t.host.Some? && Holds(t.host.value.slots, pid)
            && IsChild(t.kernel, t.self, pid) && t.kernel.procs[pid].birth == s.kernel.births
            && t.outbox.Some? && t.outbox.value.birth == s.kernel.births
            && t.outbox.value.reply.pid == pid && Announces(Launch, t.outbox.value.reply)
  {
    hide Serve;
    var h := s.host.value;
    var r := Serve(h, s.phase.request, e.answers);
    assert LaunchServed(h.slots, r.slots, s.phase.request, e.answers, r.reply);
    var i :| 0 <= i < |h.slots| && h.slots[i].pid == 0 && r.slots == h.slots[i := Slot(pid, 0)];
    assert r.slots[i].pid == pid;
  }

  /** One reply may report the end of a pid and announce a new child under the same pid: the
      browser ends with that pid running, and it stands for the new child. */
  lemma ReusedPidRuns(states: seq<System>, events: seq<Event>, n: nat)
    requires Run(states, events) && n < |events| && events[n].Return?
    requires Announces(states[n].phase.request.operation, states[n].outbox.value.reply)
    ensures var s, t := states[n], states[n + 1];
            var pid := s.outbox.value.reply.pid;
            && pid in t.children && t.children[pid].running && pid in t.births && t.births[pid] == s.outbox.value.birth
            && (pid in s.children && s.children[pid].running ==>
                  Listed(s.outbox.value.reply.exited, pid))
  {
    InvRun(states, events, n);
    RunStep(states, events, n);
    Announced(states, events, n);
  }

  /** A reply in flight announces a pid the browser does not know as running, unless the
      same reply reports its end. */
  ghost predicate FairlyAnnounced(s: System) {
    s.outbox.Some? && s.phase.Waiting? && Announces(s.phase.request.operation, s.outbox.value.reply) ==>
      var r := s.outbox.value.reply;
      r.pid in s.children && s.children[r.pid].running ==> Listed(r.exited, r.pid)
  }

  lemma AnnouncedByServe(s: System, a: Answers)
    requires Inv(s) && Enabled(s, Respond(a, true))
    ensures var r := Serve(s.host.value, s.phase.request, a).reply;
            r.pid > 0 && r.pid in s.children && s.children[r.pid].running ==> Listed(r.exited, r.pid)
  {
    var h := s.host.value;
    OnlyLaunchAnnounces(h, s.phase.request, a);
    assert SlotsTrue(s, h.slots, s.births) && Balanced(h, s.children);
    hide Serve, Known, ExitsTrue;
    var r := Serve(h, s.phase.request, a).reply;
    if r.pid > 0 && r.pid in s.children && s.children[r.pid].running {
      assert !Holds(h.slots, r.pid) by {
        assert !IsChild(s.kernel, s.self, r.pid);
      }
    }
  }

  lemma AnnouncedStep(s: System, e: Event)
    requires Inv(s) && Enabled(s, e) && FairlyAnnounced(s)
    ensures FairlyAnnounced(Step(s, e))
  {
    if e.Respond? {
      AnnouncedByServe(s, e.answers);
      hide Serve, Known, Conserved;
      var t := Step(s, e);
      assert t.outbox.Some? ==> t.outbox.value.reply == Serve(s.host.value, s.phase.request, e.answers).reply;
    } else {
      hide Serve, Known, Conserved;
    }
  }

  lemma {:induction false} Announced(states: seq<System>, events: seq<Event>, n: nat)
    requires Run(states, events) && n < |states|
    ensures FairlyAnnounced(states[n])
  {
    assert |states| == |events| + 1;
    hide Run, FairlyAnnounced;
    if n == 0 {
      NoneAnnounced(states, events);
    } else {
      Announced(states, events, n - 1);
      AnnouncedNext(states, events, n - 1);
    }
  }

  lemma NoneAnnounced(states: seq<System>, events: seq<Event>)
    requires Run(states, events)
    ensures FairlyAnnounced(states[0])
  {
  }

  lemma AnnouncedNext(states: seq<System>, events: seq<Event>, n: nat)
    requires Run(states, events) && n + 1 < |states| && FairlyAnnounced(states[n])
    ensures FairlyAnnounced(states[n + 1])
  {
    hide Step, Inv, Enabled, FairlyAnnounced;
    var s, e := states[n], events[n];
    InvRun(states, events, n);
    RunStep(states, events, n);
    AnnouncedStep(s, e);
    assert states[n + 1] == Step(s, e);
  }

  // ---- What the browser knows --------------------------------------------------

  /** Every record on its way is about a child the browser still counts as running. */
  ghost predicate FreshMail(s: System) {
    s.outbox.Some? ==>
      var rs := s.outbox.value.reply.exited;
      forall k :: 0 <= k < |rs| && rs[k].pid in s.children ==> s.children[rs[k].pid].running
  }

  lemma FreshMailStep(s: System, e: Event)
    requires Inv(s) && Enabled(s, e) && FreshMail(s)
    ensures FreshMail(Step(s, e))
  {
    if e.Respond? {
      assert Balanced(s.host.value, s.children);
      hide Serve, Known, Conserved;
    } else {
      hide Serve, Known, Conserved;
    }
  }

  lemma {:induction false} MailIsFresh(states: seq<System>, events: seq<Event>, n: nat)
    requires Run(states, events) && n < |states|
    ensures FreshMail(states[n])
  {
    hide Run, FreshMail;
    RunLength(states, events);
    if n == 0 {
      NoMailYet(states, events);
    } else {
      MailIsFresh(states, events, n - 1);
      FreshMailNext(states, events, n - 1);
    }
  }

  lemma NoMailYet(states: seq<System>, events: seq<Event>)
    requires Run(states, events)
    ensures FreshMail(states[0])
  {
  }

  lemma FreshMailNext(states: seq<System>, events: seq<Event>, n: nat)
    requires Run(states, events) && n < |events| && FreshMail(states[n])
    ensures FreshMail(states[n + 1])
  {
    hide Step, Inv, Enabled, FreshMail;
    var s, e := states[n], events[n];
    InvRun(states, events, n);
    RunStep(states, events, n);
    FreshMailStep(s, e);
    assert states[n + 1] == Step(s, e);
  }

  ghost predicate AnnouncesAgain(s: System, e: Event, pid: int) {
    && e.Return? && s.outbox.Some? && s.phase.Waiting?
    && Announces(s.phase.request.operation, s.outbox.value.reply) && s.outbox.value.reply.pid == pid
  }

  lemma EntryStep(s: System, e: Event, pid: int)
    requires Enabled(s, e) && FreshMail(s) && !AnnouncesAgain(s, e, pid)
    requires pid in s.children && !s.children[pid].running
    ensures pid in Step(s, e).children && Step(s, e).children[pid] == s.children[pid]
  {
    hide Serve, Absorb;
    if e.Return? {
      assert !Listed(s.outbox.value.reply.exited, pid);
    }
  }

  /** What the browser knows of an ended child stays: whatever replies, losses of the server
      or other children come, its entry is the same until its pid is announced again. */
  lemma {:induction false} EntryStays(states: seq<System>, events: seq<Event>, m: nat, n: nat, pid: int)
    requires Run(states, events) && m <= n < |states|
    requires pid in states[m].children && !states[m].children[pid].running
    requires forall k :: m <= k < n ==> !AnnouncesAgain(states[k], events[k], pid)
    ensures pid in states[n].children && states[n].children[pid] == states[m].children[pid]
    decreases n
  {
    hide Run, AnnouncesAgain;
    if m < n {
      RunLength(states, events);
      EntryStays(states, events, m, n - 1, pid);
      EntryNext(states, events, n - 1, pid);
    }
  }

  lemma EntryNext(states: seq<System>, events: seq<Event>, n: nat, pid: int)
    requires Run(states, events) && n < |events| && !AnnouncesAgain(states[n], events[n], pid)
    requires pid in states[n].children && !states[n].children[pid].running
    ensures pid in states[n + 1].children && states[n + 1].children[pid] == states[n].children[pid]
  {
    hide Step, Enabled, FreshMail, AnnouncesAgain;
    var s, e := states[n], events[n];
    MailIsFresh(states, events, n);
    RunStep(states, events, n);
    EntryStep(s, e, pid);
    assert states[n + 1] == Step(s, e);
  }

  /** A reply that arrived in the mail waits there, and the browser's map with it. */
  ghost predicate SameMail(s: System, t: System) {
    t.outbox == s.outbox && t.phase == s.phase && t.children == s.children
  }

  lemma MailStep(s: System, e: Event)
    requires Inv(s) && Enabled(s, e) && s.outbox.Some? && s.phase.Waiting? && !e.Return? && !e.Lost?
    ensures SameMail(s, Step(s, e))
  {
    hide Serve, Known, Conserved;
  }

  lemma MailNext(states: seq<System>, events: seq<Event>, n: nat)
    requires Run(states, events) && n < |events| && states[n].outbox.Some? && states[n].phase.Waiting?
    requires !events[n].Return? && !events[n].Lost?
    ensures SameMail(states[n], states[n + 1])
  {
    hide Step, Inv, Enabled, SameMail;
    var s, e := states[n], events[n];
    InvRun(states, events, n);
    RunStep(states, events, n);
    MailStep(s, e);
    assert states[n + 1] == Step(s, e);
  }

  lemma {:induction false} MailWaits(states: seq<System>, events: seq<Event>, m: nat, n: nat)
    requires Run(states, events) && m <= n < |states| && states[m].outbox.Some? && states[m].phase.Waiting?
    requires forall k :: m <= k < n ==> !events[k].Return? && !events[k].Lost?
    ensures SameMail(states[m], states[n])
    decreases n
  {
    hide Run;
    if m < n {
      RunLength(states, events);
      MailWaits(states, events, m, n - 1);
      MailNext(states, events, n - 1);
    }
  }

  lemma StatusInMail(s: System, e: Event, pid: int)
    requires Inv(s) && e.Respond? && e.sent && Enabled(s, e)
    requires s.phase.request.operation.Status? && s.phase.request.pid == pid && Holds(s.host.value.slots, pid)
    ensures pid in s.births && s.births[pid] in s.words && pid in s.children && s.children[pid].running
    ensures var t := Step(s, e);
            && t.children == s.children && t.phase == s.phase && t.outbox.Some?
            && t.outbox.value.reply.progressPid == pid
            && t.outbox.value.reply.progress == s.words[s.births[pid]]
            && !Listed(t.outbox.value.reply.exited, pid)
  {
    var h := s.host.value;
    assert Conserved(s, h, s.children, s.births) && Balanced(h, s.children);
    HeldIsKnown(s, pid);
    var r := Serve(h, s.phase.request, e.answers);
    assert StatusServed(h.slots, s.phase.request, r.reply);
    hide Serve, Known, Conserved, Orderly, KernelOk, EndChildren, ForkInto;
    var i :| 0 <= i < |h.slots| && h.slots[i] == Slot(pid, r.reply.progress);
  }

  lemma StatusArrives(s: System, e: Event, pid: int, w: Word)
    requires Enabled(s, e) && e.Return? && s.phase.request.operation.Status?
    requires s.outbox.value.reply.progressPid == pid && s.outbox.value.reply.progress == w
    requires pid in s.children && s.children[pid].running && !Listed(s.outbox.value.reply.exited, pid)
    ensures pid in Step(s, e).children
    ensures Step(s, e).children[pid] == s.children[pid].(stage := Stage(w), detail := Detail(w))
  {
    hide Absorb;
  }

  /** Asking for a child the server holds shows the browser the stage and detail that child
      had reported last when the server answered, and that it is running. */
  lemma StatusIsShown(states: seq<System>, events: seq<Event>, m: nat, n: nat, pid: int)
    requires Run(states, events) && m < n < |events|
    requires events[m].Respond? && events[m].sent && events[n].Return?
    requires states[m].phase.request.operation.Status? && states[m].phase.request.pid == pid
    requires Holds(states[m].host.value.slots, pid)
    requires forall k :: m < k < n ==> !events[k].Return? && !events[k].Lost?
    ensures var s, t := states[m], states[n + 1];
            && pid in s.births && s.births[pid] in s.words && pid in s.children
            && pid in t.children && t.children[pid].running
            && t.children[pid].stage == Stage(s.words[s.births[pid]])
            && t.children[pid].detail == Detail(s.words[s.births[pid]])
            && t.children[pid].waitStatus == s.children[pid].waitStatus
  {
    InvRun(states, events, m);
    RunStep(states, events, m);
    RunStep(states, events, n);
    hide Step, Enabled, Inv;
    StatusInMail(states[m], events[m], pid);
    MailWaits(states, events, m + 1, n);
    StatusArrives(states[n], events[n], pid, states[m].words[states[m].births[pid]]);
  }

  ghost predicate Closed(s: System) {
    s.attempted && !s.open && forall p :: p in s.children ==> !s.children[p].running
  }

  lemma ClosedStep(s: System, e: Event)
    requires Inv(s) && Enabled(s, e) && Closed(s)
    ensures Closed(Step(s, e))
  {
    hide Serve, Known, Conserved;
  }

  lemma ClosedNow(s: System)
    requires Inv(s) && s.attempted && !s.open
    ensures Closed(s)
  {
  }

  /** A closed socket leaves no child running, and never opens again once one was tried. */
  lemma {:induction false} ClosedForGood(states: seq<System>, events: seq<Event>, m: nat, n: nat)
    requires Run(states, events) && m <= n < |states|
    requires states[m].attempted && !states[m].open
    ensures Closed(states[n])
    decreases n - m
  {
    hide Step, Inv, Enabled, Closed;
    InvRun(states, events, n);
    if m == n {
      ClosedNow(states[n]);
    } else {
      ClosedForGood(states, events, m, n - 1);
      InvRun(states, events, n - 1);
      RunStep(states, events, n - 1);
      ClosedStep(states[n - 1], events[n - 1]);
    }
  }

  /** No child survives an end of the server's loop: by a stop, by a reply that cannot be
      sent, or by an end of file or a garbled request. */
  lemma NoChildSurvives(states: seq<System>, events: seq<Event>, n: nat)
    requires Run(states, events) && n < |events| && (events[n].Respond? || events[n].Hangup?)
    requires states[n + 1].host.None?
    ensures var t := states[n + 1]; forall p :: !IsChild(t.kernel, t.self, p)
  {
    InvRun(states, events, n);
    var s := states[n];
    RunStep(states, events, n);
    if events[n].Hangup? {
      EndedKernel(s.kernel, s.host.value.slots, s.self);
    } else {
      NoneAfterReply(s, events[n]);
    }
  }

  lemma NoneAfterReply(s: System, e: Event)
    requires Inv(s) && e.Respond? && Enabled(s, e) && Step(s, e).host.None?
    ensures var t := Step(s, e); forall p :: !IsChild(t.kernel, t.self, p)
  {
    var r := Serve(s.host.value, s.phase.request, e.answers);
    assert Conserved(s, s.host.value, s.children, s.births);
    ServeNoStray(s, e.answers);
    ServeKernelOk(s, e.answers);
    EndedKernel(AfterServe(s, r.reply).kernel, r.slots, s.self);
  }

  // ---- The server's loop is a run of single waits ----------------------------

  ghost function ReapSteps(s: System, n: nat): (t: System)
    requires s.host.Some? && n <= |s.host.value.slots|
    ensures t.host.Some? && |t.host.value.slots| == |s.host.value.slots| && t.self == s.self
  {
    if n == 0 then s else Step(ReapSteps(s, n - 1), Reap(n - 1))
  }

  /** What each waitpid of the loop is answered, in order. */
  ghost function ReapAnswers(s: System, n: nat): (r: seq<WaitAnswer>)
    requires s.host.Some? && n <= |s.host.value.slots|
    ensures |r| == n
  {
    if n == 0 then []
    else
      var t := ReapSteps(s, n - 1);
      ReapAnswers(s, n - 1) + [WaitPid(t.kernel, t.self, t.host.value.slots[n - 1].pid)]
  }

  /** The reaping loop of the server process is n single reaping steps of the system. */
  lemma {:induction false} ReapLoopIsSteps(s: System, n: nat, answers: seq<WaitAnswer>)
    requires s.host.Some? && n <= |s.host.value.slots| <= |answers|
    requires answers[..n] == ReapAnswers(s, n)
    ensures ReapSteps(s, n).host == Some(ReapFirst(s.host.value, answers, n))
  {
    hide WaitPid, Step, Enabled, ReapFirst, ReapAnswers, ReapSteps;
    if n == 0 {
      NothingReaped(s, answers);
    } else {
      LastAnswer(s, n, answers);
      ReapLoopIsSteps(s, n - 1, answers);
      NextReap(ReapSteps(s, n - 1), s.host.value, n - 1, answers);
      LastReap(s, n);
    }
  }

  lemma NothingReaped(s: System, answers: seq<WaitAnswer>)
    requires s.host.Some? && |s.host.value.slots| <= |answers|
    ensures ReapSteps(s, 0) == s && ReapFirst(s.host.value, answers, 0) == s.host.value
  {
  }

  lemma LastReap(s: System, n: nat)
    requires s.host.Some? && 0 < n <= |s.host.value.slots|
    ensures ReapSteps(s, n) == Step(ReapSteps(s, n - 1), Reap(n - 1))
  {
    hide Step, Enabled;
  }

  lemma NextReap(t: System, h: Host, i: nat, answers: seq<WaitAnswer>)
    requires t.host.Some? && i < |t.host.value.slots| == |h.slots| <= |answers|
    requires t.host == Some(ReapFirst(h, answers, i))
    requires answers[i] == WaitPid(t.kernel, t.self, t.host.value.slots[i].pid)
    ensures Enabled(t, Reap(i)) && Step(t, Reap(i)).host == Some(ReapFirst(h, answers, i + 1))
  {
    ReapIs(t, Reap(i));
    hide WaitPid, AfterWait, Step, Enabled;
    assert ReapFirst(h, answers, i + 1) == ReapSlot(ReapFirst(h, answers, i), i, answers[i]);
    hide ReapFirst;
  }

  lemma LastAnswer(s: System, n: nat, answers: seq<WaitAnswer>)
    requires s.host.Some? && 0 < n <= |s.host.value.slots| <= |answers|
    requires answers[..n] == ReapAnswers(s, n)
    ensures answers[..n - 1] == ReapAnswers(s, n - 1)
    ensures var t := ReapSteps(s, n - 1); answers[n - 1] == WaitPid(t.kernel, t.self, t.host.value.slots[n - 1].pid)
  {
    hide WaitPid, Step, Enabled, ReapSteps;
    assert answers[..n - 1] == answers[..n][..n - 1];
    assert ReapAnswers(s, n)[..n - 1] == ReapAnswers(s, n - 1);
    assert answers[n - 1] == answers[..n][n - 1];
  }
}

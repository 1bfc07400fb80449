/** The browser's side of the phone fork server
    (overlay/base/process/fork_server_ohos.cc): one socket, one attempt, and the map of
    the children it launched. The class is proved to compute the functions of ForkModel. */
module ForkClientProcess {
  import opened Options
  import opened ForkModel

  /** Outcome of one exchange on the socket: the request could not be sent or no reply
      came in time, or a datagram that is a reply, or one that is not. */
  datatype Exchange = Broken | Received(reply: Reply)

  /** A reply ReadReply accepts. */
  predicate Accepted(x: Exchange) { x.Received? && |x.reply.exited| <= MAX_CHILDREN }

  /** The system calls of a start: socketpair, fork, and the server's first message. */
  datatype StartAnswer = NoSocket | NoServer | Started(socket: nat, server: int, hello: Exchange)

  /** Arguments LaunchOhosForkChild accepts. */
  ghost predicate Launchable(params: string, fds: seq<(int, int)>) {
    && 0 < |params| < MAX_PARAMS && '\0' !in params && |fds| <= MAX_FDS
    && (forall i :: 0 <= i < |fds| ==> fds[i].0 >= 0 && fds[i].1 >= 0)
    && (forall i, j :: 0 <= i < j < |fds| ==> fds[i].1 != fds[j].1)
  }

  class ForkClient {
    var socket: int
    var server: int
    var attempted: bool
    var children: map<int, ChildStatus>

    /** A closed socket implies that no child counts as running. */
    ghost predicate Valid()
      reads this
    {
      && (socket >= 0 <==> server > 0)
      && (socket >= 0 ==> attempted)
      && (socket < 0 ==> forall p :: p in children ==> !children[p].running)
      && (forall p :: p in children ==> p > 0)
    }

    constructor ()
      ensures Valid() && socket < 0 && !attempted && children == map[]
    {
      socket, server, attempted, children := -1, -1, false, map[];
    }

    method LoseServer()
      modifies this
      ensures socket == -1 && server == -1 && attempted == old(attempted)
      ensures children == Lose(old(children)) && children.Keys == old(children).Keys
      ensures forall p :: p in children ==>
        children[p] == if old(children)[p].running then old(children)[p].(running := false, waitStatus := -1)
                       else old(children)[p]
    {
      socket, server := -1, -1;
      var todo := children.Keys;
      while todo != {}
        invariant todo <= children.Keys && children.Keys == old(children).Keys
        invariant socket == -1 && server == -1 && attempted == old(attempted)
        invariant forall p :: p in todo ==> children[p] == old(children)[p]
        invariant forall p :: p in children && p !in todo ==> children[p] == Lose(old(children))[p]
        decreases |todo|
      {
        SomeElement(todo);
        var p :| p in todo;
        if children[p].running {
          children := children[p := children[p].(running := false, waitStatus := -1)];
        }
        todo := todo - {p};
      }
      assert children == Lose(old(children)) by {
        forall p | p in children ensures children[p] == Lose(old(children))[p] {}
      }
    }

    method ReadReply(x: Exchange) returns (ok: bool)
      modifies this`children
      ensures ok <==> Accepted(x)
      ensures children == if ok then Absorb(old(children), x.reply) else old(children)
      ensures ok ==> Absorbed(old(children), children, x.reply)
    {
      if !x.Received? || |x.reply.exited| > MAX_CHILDREN {
        return false;
      }
      var r := x.reply;
      for i := 0 to |r.exited|
        invariant children == ApplyExits(old(children), r.exited[..i])
      {
        assert r.exited[..i + 1][..i] == r.exited[..i];
        var e := r.exited[i];
        if e.pid in children {
          children := children[e.pid := WithProgress(ChildStatus(false, e.status, 0, 0), e.progress)];
        }
      }
      assert r.exited[..|r.exited|] == r.exited;
      if r.progressPid in children && children[r.progressPid].running {
        children := children[r.progressPid := WithProgress(children[r.progressPid], r.progress)];
      }
      return true;
    }

    /** A reply is absorbed before its error is looked at, so error replies still carry
        their exit records; anything but a reply costs the server. */
    method Rpc(x: Exchange) returns (ok: bool)
      requires Valid()
      modifies this
      ensures Valid() && attempted == old(attempted)
      ensures ok <==> old(socket) >= 0 && Accepted(x) && x.reply.error == 0
      ensures old(socket) >= 0 && Accepted(x) ==>
        socket == old(socket) && children == Absorb(old(children), x.reply)
      ensures old(socket) >= 0 && !Accepted(x) ==> socket < 0 && children == Lose(old(children))
      ensures old(socket) < 0 ==> socket < 0 && children == old(children)
    {
      if socket < 0 {
        return false;
      }
      var read := ReadReply(x);
      if !read {
        LoseServer();
        return false;
      }
      return x.reply.error == 0;
    }

    /** Only the first call can ever start a server. */
    method Start(library: string, a: StartAnswer) returns (ok: bool)
      requires Valid() && (a.Started? ==> a.server > 0)
      modifies this
      ensures Valid() && (attempted <==> old(attempted) || (old(socket) < 0 && library != [] && library[0] == '/'))
      ensures old(attempted) && old(socket) < 0 ==> !ok && socket < 0 && children == old(children)
      ensures ok <==> (old(socket) >= 0 ||
                       (!old(attempted) && library != [] && library[0] == '/' && a.Started? && Accepted(a.hello)))
      ensures ok <==> socket >= 0
      ensures ok && old(socket) < 0 ==> children == Absorb(old(children), a.hello.reply)
    {
      if socket >= 0 {
        return true;
      }
      if attempted || library == [] || library[0] != '/' {
        return false;
      }
      attempted := true;
      if !a.Started? {
        return false;
      }
      server, socket := a.server, a.socket;
      var read := ReadReply(a.hello);
      if !read {
        LoseServer();
        return false;
      }
      return true;
    }

    /** `reaped` says whether the stopped server was collected before the deadline. */
    method StopServer(x: Exchange, reaped: bool)
      requires Valid()
      modifies this
      ensures Valid() && socket < 0 && attempted == old(attempted)
      ensures old(socket) >= 0 && Accepted(x) ==> children == Lose(Absorb(old(children), x.reply))
      ensures old(socket) >= 0 && !Accepted(x) ==> children == Lose(old(children))
      ensures old(socket) < 0 ==> children == old(children)
    {
      if socket < 0 {
        return;
      }
      var _ := Rpc(x);
      if server > 0 && reaped {
        server := -1;
      }
      LoseServer();
    }

    method LaunchChild(params: string, fds: seq<(int, int)>, x: Exchange) returns (pid: int)
      requires Valid()
      modifies this
      ensures Valid() && attempted == old(attempted)
      ensures !Launchable(params, fds) ==> pid == -1 && unchanged(this)
      ensures Launchable(params, fds) && old(socket) >= 0 && Accepted(x) ==>
        && children == Deliver(old(children), Launch, x.reply)
        && pid == if Announces(Launch, x.reply) then x.reply.pid else -1
      ensures Launchable(params, fds) && old(socket) >= 0 && !Accepted(x) ==>
        pid == -1 && children == Lose(old(children))
      ensures Launchable(params, fds) && old(socket) < 0 ==> pid == -1 && children == old(children)
      ensures pid > 0 ==> pid in children && children[pid] == ChildStatus(true, -1, 0, 0)
    {
      if params == [] || |params| >= MAX_PARAMS || '\0' in params || |fds| > MAX_FDS {
        return -1;
      }
      for i := 0 to |fds|
        invariant forall k :: 0 <= k < i ==> fds[k].0 >= 0 && fds[k].1 >= 0
        invariant forall j, k :: 0 <= j < k < i ==> fds[j].1 != fds[k].1
      {
        if fds[i].0 < 0 || fds[i].1 < 0 {
          return -1;
        }
        for j := 0 to i
          invariant forall k :: 0 <= k < j ==> fds[i].1 != fds[k].1
        {
          if fds[i].1 == fds[j].1 {
            return -1;
          }
        }
      }
      var ok := Rpc(x);
      if !ok || x.reply.pid <= 0 {
        return -1;
      }
      children := children[x.reply.pid := LAUNCHED];
      return x.reply.pid;
    }

    /** None for a stranger. A running child is asked for over the socket first. */
    method Status(pid: int, x: Exchange) returns (s: Option<ChildStatus>)
      requires Valid()
      modifies this
      ensures Valid() && attempted == old(attempted)
      ensures pid !in old(children) ==> s == None && unchanged(this)
      ensures pid in old(children) && !old(children)[pid].running ==>
        s == Some(old(children)[pid]) && unchanged(this)
      ensures pid in old(children) && old(children)[pid].running ==>
        && children == (if Accepted(x) then Absorb(old(children), x.reply) else Lose(old(children)))
        && s == Some(children[pid])
    {
      if pid !in children {
        return None;
      }
      if children[pid].running {
        var _ := Rpc(x);
      }
      return Some(children[pid]);
    }

    method Signal(pid: int, x: Exchange) returns (r: Option<bool>)
      requires Valid()
      modifies this
      ensures Valid() && attempted == old(attempted)
      ensures pid !in old(children) ==> r == None && unchanged(this)
      ensures pid in old(children) && !old(children)[pid].running ==>
        r == Some(old(children)[pid].waitStatus >= 0) && unchanged(this)
      ensures pid in old(children) && old(children)[pid].running ==>
        && children == (if Accepted(x) then Absorb(old(children), x.reply) else Lose(old(children)))
        && r == Some((Accepted(x) && x.reply.error == 0)
                     || (!children[pid].running && children[pid].waitStatus >= 0))
    {
      if pid !in children {
        return None;
      }
      if !children[pid].running {
        return Some(children[pid].waitStatus >= 0);
      }
      var ok := Rpc(x);
      return Some(ok || (!children[pid].running && children[pid].waitStatus >= 0));
    }
  }
}

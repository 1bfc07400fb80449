/** The fork server's descriptor handling (overlay/base/process/fork_server_ohos.cc):
    closing inherited channels, parking received descriptors above everything inherited,
    and closing what a request brought in. A call closes only a descriptor that is open,
    so a double close or a close of a stranger's descriptor would not verify. */
module Descriptors {
  import opened Options

  const INT_MAX := 0x7fff_ffff

  ghost predicate Distinct<T>(s: seq<T>) {
    forall i, j :: 0 <= i < j < |s| ==> s[i] != s[j]
  }

  /** F_DUPFD_CLOEXEC: the lowest free descriptor at or above the minimum. */
  function LowestFree(open: set<int>, minimum: int): (fd: int)
    ensures fd >= minimum && fd !in open
    ensures forall x :: minimum <= x < fd ==> x in open
    decreases |set x | x in open && x >= minimum|
  {
    if minimum !in open then minimum
    else
      assert (set x | x in open && x >= minimum) == (set x | x in open && x >= minimum + 1) + {minimum};
      LowestFree(open, minimum + 1)
  }

  /** One entry of /proc/self/fd: the number its name denotes, if it denotes one, and
      whether it is one of the loader or trace descriptors that must keep their numbers. */
  datatype Entry = Entry(fd: Option<int>, cached: bool)

  /** The descriptor table of the server process. Each open descriptor refers to its own
      instance, numbered in order of creation: a number may be reused, an instance may not. */
  class FdTable {
    var open: map<int, nat>
    var created: nat
    var closed: seq<nat>

    /** Every instance created so far is either open under exactly one number or was closed
        exactly once. */
    ghost predicate Valid()
      reads this
    {
      && (forall a, b :: a in open && b in open && open[a] == open[b] ==> a == b)
      && (forall a :: a in open ==> open[a] < created && open[a] !in closed)
      && Distinct(closed)
      && (forall n :: n in closed ==> n < created)
      && (forall n: nat :: n < created && n !in closed ==> exists a :: a in open && open[a] == n)
    }

    constructor ()
      ensures Valid() && open == map[] && closed == [] && created == 0
    {
      open, created, closed := map[], 0, [];
    }

    /** A new instance under a free number: a duplicate, or a received descriptor. */
    method Install(fd: int)
      requires Valid() && fd !in open
      modifies this
      ensures Valid() && open == old(open)[fd := old(created)]
      ensures created == old(created) + 1 && closed == old(closed)
    {
      open, created := open[fd := created], created + 1;
      assert open[fd] == old(created);
      forall n: nat | n < created && n !in closed ensures exists a :: a in open && open[a] == n {
        if n < old(created) {
          var a :| a in old(open) && old(open)[a] == n;
          assert open[a] == n;
        }
      }
    }

    method Close(fd: int)
      requires Valid() && fd in open
      modifies this
      ensures Valid() && open == old(open) - {fd}
      ensures created == old(created) && closed == old(closed) + [old(open)[fd]]
    {
      open, closed := open - {fd}, closed + [open[fd]];
      forall n: nat | n < created && n !in closed ensures exists a :: a in open && open[a] == n {
        assert n !in old(closed);
        var a :| a in old(open) && old(open)[a] == n;
        assert n in closed || a != fd;
        assert open[a] == n;
      }
    }

    method CloseFds(fds: array<int>)
      requires Valid() && Distinct(fds[..]) && Elements(fds[..]) <= open.Keys
      modifies this
      ensures Valid() && open == old(open) - Elements(fds[..])
      ensures created == old(created)
    {
      for i := 0 to fds.Length
        invariant Valid() && created == old(created)
        invariant open == old(open) - Elements(fds[..i])
      {
        assert fds[..][i] == fds[i] && fds[i] in fds[..];
        forall k | 0 <= k < i ensures fds[k] != fds[i] {
          assert fds[..][k] == fds[k];
        }
        Close(fds[i]);
        assert fds[..i + 1] == fds[..i] + [fds[i]];
      }
      assert fds[..fds.Length] == fds[..];
    }

    /** Moves each descriptor to the lowest free number at or above the minimum. The
        duplication of number `failing`, if there is one, fails and stops the loop: the
        vector then mixes parked and received numbers, all of them still open. */
    method ParkReceivedFds(fds: array<int>, minimum: int, failing: nat) returns (ok: bool)
      requires Valid() && Distinct(fds[..]) && Elements(fds[..]) <= open.Keys
      modifies this, fds
      ensures Valid() && Distinct(fds[..]) && Elements(fds[..]) <= open.Keys
      ensures open - Elements(fds[..]) == old(open - Elements(fds[..]))
      ensures ok <==> failing >= fds.Length
      ensures forall i :: 0 <= i < fds.Length && i < failing ==> fds[i] >= minimum
      ensures forall i :: failing <= i < fds.Length ==> fds[i] == old(fds[i])
    {
      hide Valid, LowestFree, Distinct;
      var i := 0;
      while i < fds.Length
        invariant 0 <= i <= fds.Length && i <= failing
        invariant Valid() && Distinct(fds[..]) && Elements(fds[..]) <= open.Keys
        invariant forall k :: 0 <= k < i ==> fds[k] >= minimum
        invariant forall k :: i <= k < fds.Length ==> fds[k] == old(fds[k])
        invariant open - Elements(fds[..]) == old(open - Elements(fds[..]))
      {
        if i == failing {
          return false;
        }
        ghost var s, o := fds[..], open;
        assert s[i] == fds[i] && fds[i] in s;
        var parked := LowestFree(open.Keys, minimum);
        Install(parked);
        Close(fds[i]);
        fds[i] := parked;
        assert fds[..] == s[i := parked];
        Replaced(s, i, parked);
        OthersUnmoved(o, open, s, i, parked);
        i := i + 1;
      }
      return true;
    }

    /** One entry of the directory listing: raises the minimum above it, and closes it
        unless it is to be kept. */
    method VisitEntry(e: Entry, keep: int, directory: int, floor: int) returns (minimum: int)
      requires Valid() && (e.fd.Some? && 0 <= e.fd.value < INT_MAX ==> e.fd.value in open)
      modifies this
      ensures Valid() && minimum >= floor
      ensures e.fd.Some? && 0 <= e.fd.value < INT_MAX ==> e.fd.value < minimum
      ensures var gone := e.fd.Some? && 2 < e.fd.value < INT_MAX && e.fd.value != keep
                          && e.fd.value != directory && !e.cached;
              open == if gone then old(open) - {e.fd.value} else old(open)
    {
      minimum := floor;
      if e.fd.Some? {
        var fd := e.fd.value;
        if fd >= 0 && fd < INT_MAX {
          if fd >= minimum {
            minimum := fd + 1;
          }
          if fd > 2 && fd != keep && fd != directory && !e.cached {
            Close(fd);
          }
        }
      }
    }

    /** Keeps the standard streams, the private channel and the cached descriptors, closes
        every other inherited one, and raises the minimum above all of them. The entries
        are a directory listing of the table, in any order, with `.` and `..` among them; the
        directory may not open, and then nothing is touched. */
    method CloseInheritedFds(keep: int, entries: seq<Entry>, floor: int, opens: bool) returns (ok: bool, minimum: int)
      requires Valid() && forall fd :: fd in open ==> 0 <= fd < INT_MAX
      requires LowestFree(open.Keys, 0) < INT_MAX
      requires ListedOnce(entries)
      requires forall fd :: Listed(entries, |entries|, fd) <==> fd in open || fd == LowestFree(open.Keys, 0)
      modifies this
      ensures Valid() && ok == opens
      ensures !ok ==> open == old(open) && minimum == floor
      ensures ok ==> minimum >= floor && forall fd :: fd in old(open) ==> fd < minimum
      ensures ok ==> forall fd :: fd in open <==> fd in old(open) && (fd <= 2 || fd == keep || Cached(entries, fd))
      ensures forall fd :: fd in open ==> fd in old(open) && open[fd] == old(open)[fd]
    {
      NothingListed(entries);
      hide Valid, LowestFree, ListedOnce, Listed, Cached;
      ok, minimum := opens, floor;
      if !opens {
        return;
      }
      var directory := LowestFree(open.Keys, 0);
      Install(directory);
      SweepStarts(old(open), open, entries, keep, directory);
      hide Swept, Below;
      for i := 0 to |entries|
        invariant Valid() && directory in open && minimum >= floor
        invariant Below(entries, i, minimum)
        invariant Swept(old(open), open, entries, i, keep, directory)
      {
        ghost var now := open;
        StillOpen(old(open), open, entries, i, keep, directory);
        ghost var seen := minimum;
        assert entries[i].fd.Some? ==> 0 <= entries[i].fd.value < INT_MAX;
        minimum := VisitEntry(entries[i], keep, directory, minimum);
        SweepGoesOn(old(open), now, open, entries, i, keep, directory);
        NextBelow(entries, i, seen, minimum);
      }
      SweepEnds(old(open), open, entries, keep, directory);
      AllBelow(entries, minimum);
      Close(directory);
    }
  }

  ghost predicate ListedOnce(entries: seq<Entry>) {
    forall i, j :: 0 <= i < j < |entries| && entries[i].fd.Some? ==> entries[i].fd != entries[j].fd
  }

  /** After n entries: what is open was open before, but for the directory, and of what was
      open the protected descriptors and those not listed yet are still. */
  ghost predicate Swept(before: map<int, nat>, now: map<int, nat>, entries: seq<Entry>, n: nat, keep: int,
                        directory: int)
    requires n <= |entries|
  {
    && directory in now
    && (forall fd :: fd in now ==> fd == directory || (fd in before && now[fd] == before[fd]))
    && forall fd :: fd in before ==>
         (fd in now <==> !Listed(entries, n, fd) || fd <= 2 || fd == keep || Cached(entries, fd))
  }

  lemma SweepStarts(before: map<int, nat>, now: map<int, nat>, entries: seq<Entry>, keep: int, directory: int)
    requires directory !in before && directory in now && now - {directory} == before
    ensures Swept(before, now, entries, 0, keep, directory)
  {
    NothingListed(entries);
    hide Listed, Cached;
    forall fd | fd in before ensures fd in now && now[fd] == before[fd] {
      assert fd in now - {directory} && (now - {directory})[fd] == before[fd];
    }
    forall fd | fd in now && fd != directory ensures fd in before {
      assert fd in now - {directory};
    }
  }

  lemma SweepGoesOn(before: map<int, nat>, now: map<int, nat>, next: map<int, nat>, entries: seq<Entry>, n: nat,
                    keep: int, directory: int)
    requires n < |entries| && ListedOnce(entries) && Swept(before, now, entries, n, keep, directory)
    requires directory !in before && forall fd :: fd in before ==> fd < INT_MAX
    requires var e := entries[n];
             var gone := e.fd.Some? && 2 < e.fd.value < INT_MAX && e.fd.value != keep && e.fd.value != directory
                         && !e.cached;
             next == if gone then now - {e.fd.value} else now
    ensures Swept(before, next, entries, n + 1, keep, directory)
  {
    NextEntry(entries, n);
    hide Listed, Cached, ListedOnce;
  }

  lemma StillOpen(before: map<int, nat>, now: map<int, nat>, entries: seq<Entry>, n: nat, keep: int, directory: int)
    requires n < |entries| && ListedOnce(entries) && Swept(before, now, entries, n, keep, directory)
    requires forall fd :: Listed(entries, |entries|, fd) ==> fd in before || fd == directory
    ensures entries[n].fd.Some? ==> entries[n].fd.value in now && entries[n].fd.value in before.Keys + {directory}
  {
    NextEntry(entries, n);
    hide Listed, Cached, ListedOnce;
  }

  ghost predicate Below(entries: seq<Entry>, n: nat, minimum: int)
    requires n <= |entries|
  {
    forall fd :: Listed(entries, n, fd) ==> fd < minimum
  }

  lemma NextBelow(entries: seq<Entry>, n: nat, seen: int, minimum: int)
    requires n < |entries| && ListedOnce(entries) && Below(entries, n, seen) && seen <= minimum
    requires entries[n].fd.Some? ==> entries[n].fd.value < minimum
    ensures Below(entries, n + 1, minimum)
  {
    NextEntry(entries, n);
    hide Listed, ListedOnce;
  }

  lemma AllBelow(entries: seq<Entry>, minimum: int)
    requires Below(entries, |entries|, minimum)
    ensures forall fd :: Listed(entries, |entries|, fd) ==> fd < minimum
  {
  }

  /** All entries visited, and the directory closed. */
  lemma SweepEnds(before: map<int, nat>, now: map<int, nat>, entries: seq<Entry>, keep: int, directory: int)
    requires directory !in before && Swept(before, now, entries, |entries|, keep, directory)
    requires forall fd :: fd in before ==> Listed(entries, |entries|, fd)
    ensures var end := now - {directory};
            && (forall fd :: fd in end <==> fd in before && (fd <= 2 || fd == keep || Cached(entries, fd)))
            && forall fd :: fd in end ==> fd in before && end[fd] == before[fd]
  {
    hide Listed, Cached;
  }

  lemma NothingListed(entries: seq<Entry>)
    ensures forall fd :: !Listed(entries, 0, fd)
    ensures forall minimum :: Below(entries, 0, minimum)
  {
  }

  lemma NextEntry(entries: seq<Entry>, i: nat)
    requires i < |entries| && ListedOnce(entries)
    ensures forall fd :: Listed(entries, i + 1, fd) <==> Listed(entries, i, fd) || entries[i].fd == Some(fd)
    ensures entries[i].fd.Some? ==>
      && Listed(entries, |entries|, entries[i].fd.value) && !Listed(entries, i, entries[i].fd.value)
      && (Cached(entries, entries[i].fd.value) <==> entries[i].cached)
  {
  }

  /** One of the first n entries names this number. */
  ghost predicate Listed(entries: seq<Entry>, n: nat, fd: int)
    requires n <= |entries|
  {
    exists i :: 0 <= i < n && entries[i].fd == Some(fd)
  }

  ghost predicate Cached(entries: seq<Entry>, fd: int) {
    exists i :: 0 <= i < |entries| && entries[i].fd == Some(fd) && entries[i].cached
  }

  /** A descriptor that moves to a number of its own leaves the others of a table alone. */
  lemma OthersUnmoved(o: map<int, nat>, t: map<int, nat>, s: seq<int>, i: nat, x: int)
    requires i < |s| && Elements(s) <= o.Keys && x !in o && t.Keys == o.Keys + {x} - {s[i]}
    requires forall fd :: fd in o && fd != s[i] ==> fd in t && t[fd] == o[fd]
    requires Elements(s[i := x]) == Elements(s) - {s[i]} + {x}
    ensures t - Elements(s[i := x]) == o - Elements(s) && Elements(s[i := x]) <= t.Keys
  {
    hide Elements;
    var e := Elements(s);
    assert s[i] in e by {
      ElementIn(s, i);
    }
    SameRest(o, t, e, e - {s[i]} + {x});
  }

  /** Two tables that agree where these sets of numbers are taken out. */
  lemma SameRest(o: map<int, nat>, t: map<int, nat>, e: set<int>, f: set<int>)
    requires t.Keys - f == o.Keys - e && forall fd :: fd in o && fd !in e ==> fd in t && t[fd] == o[fd]
    ensures t - f == o - e
  {
    var a, b := t - f, o - e;
    assert a.Keys == t.Keys - f && b.Keys == o.Keys - e;
    forall fd | fd in b ensures fd in a && a[fd] == b[fd] {
      assert fd in b.Keys && fd in o && fd !in e && fd in a.Keys;
    }
  }

  lemma ElementIn(s: seq<int>, i: nat)
    requires i < |s|
    ensures s[i] in Elements(s)
  {
  }

  /** Each number is the lowest that was free when its turn came. */
  ghost predicate LowestInTurn(open: set<int>, fds: seq<int>) {
    forall i :: 0 <= i < |fds| ==> fds[i] == LowestFree(open + Elements(fds[..i]), 0)
  }

  lemma NextInTurn(open: set<int>, fds: seq<int>, fd: int)
    requires LowestInTurn(open, fds) && fd == LowestFree(open + Elements(fds), 0)
    ensures LowestInTurn(open, fds + [fd])
  {
    hide LowestFree;
    forall i | 0 <= i <= |fds| ensures (fds + [fd])[..i] == fds[..i] {
    }
    assert fds[..|fds|] == fds;
  }

  lemma NoneReceived(open: set<int>)
    ensures Distinct<int>([]) && LowestInTurn(open, [])
  {
  }

  /** One descriptor more, and it is none of those before. */
  lemma OneReceived(o: map<int, nat>, t: map<int, nat>, s: seq<int>, x: int)
    requires Distinct(s) && Elements(s) <= o.Keys && x !in o && t.Keys == o.Keys + {x}
    requires forall fd :: fd in o ==> fd in t && t[fd] == o[fd]
    ensures Distinct(s + [x]) && Elements(s + [x]) == Elements(s) + {x}
    ensures t - Elements(s + [x]) == o - Elements(s)
  {
    assert x !in s;
    assert Elements(s + [x]) == Elements(s) + {x};
    SameRest(o, t, Elements(s), Elements(s) + {x});
  }

  lemma Replaced(s: seq<int>, i: nat, x: int)
    requires i < |s| && Distinct(s) && x !in s
    ensures Distinct(s[i := x])
    ensures Elements(s[i := x]) == Elements(s) - {s[i]} + {x}
  {
    var t := s[i := x];
    assert t[i] == x;
    forall y ensures y in t <==> y in Elements(s) - {s[i]} + {x} {
      if y in s && y != s[i] {
        var k :| 0 <= k < |s| && s[k] == y;
        assert t[k] == y;
      }
    }
  }
}

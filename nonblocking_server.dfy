/** The epoll echo server with non-blocking client sockets. Its interest-set
    behaviour is that of EpollServer; in addition every accepted client's file
    status flags are updated by `set_nonblocking_mode`. The listener is left
    blocking: the call that would change it is commented out in the source. */
module NonblockingServer {
  import opened Net
  import opened Readiness
  import EpollServer

  type Event = EpollServer.Event
  type WaitResult = EpollServer.WaitResult

  /** Linux's O_NONBLOCK bit (octal 04000). */
  const ONonblock: bv32 := 0x800
  /** The status flags of a freshly accepted socket (O_RDWR). */
  const ORdwr: bv32 := 0x2

  /** `set_nonblocking_mode`'s computation: `flag | O_NONBLOCK`. */
  function SetNonblocking(flags: bv32): (r: bv32)
    ensures r & ONonblock == ONonblock
    ensures r & !ONonblock == flags & !ONonblock
  {
    flags | ONonblock
  }

  /** The flags change exactly when O_NONBLOCK was off. */
  lemma SetNonblockingChangesOnlyBlocking(flags: bv32)
    ensures SetNonblocking(flags) == flags <==> flags & ONonblock == ONonblock
  {
  }

  /** Applying it twice gives the flags of applying it once. */
  lemma SetNonblockingIdempotent(flags: bv32)
    ensures SetNonblocking(SetNonblocking(flags)) == SetNonblocking(flags)
  {
  }

  /** The kernel's file status flags of fd, as `fcntl(fd, F_GETFL)` reads them. */
  function FlagsOf(flags: map<Fd, bv32>, fd: Fd): bv32
  {
    if fd in flags then flags[fd] else ORdwr
  }

  /** `set_nonblocking_mode(fd)`: get, or, set. With fd = -1 both fcntl calls
      fail and nothing changes. */
  function SetNonblockingMode(flags: map<Fd, bv32>, fd: Fd): (r: map<Fd, bv32>)
    ensures fd >= 0 ==> r.Keys == flags.Keys + {fd} && r[fd] == SetNonblocking(FlagsOf(flags, fd))
    ensures forall g :: g != fd ==> FlagsOf(r, g) == FlagsOf(flags, g)
    ensures fd < 0 ==> r == flags
  {
    if fd < 0 then flags else flags[fd := SetNonblocking(FlagsOf(flags, fd))]
  }

  /** The EpollServer state and the status flags of the descriptors. */
  datatype NbServer = NbServer(base: EpollServer.Server, flags: map<Fd, bv32>)

  /** Lines 96-100: the listener registered for EPOLLIN; its flags as given. */
  function Start(listener: Fd, flags: map<Fd, bv32>): (s: NbServer)
    ensures s.base == EpollServer.Start(listener) && s.flags == flags
  {
    NbServer(EpollServer.Start(listener), flags)
  }

  /** Lines 115-142 for one entry: as EpollServer, and an accepted client is
      made non-blocking before its registration. */
  function HandleEvent(s: NbServer, e: Event): (r: NbServer)
    ensures r.base == EpollServer.HandleEvent(s.base, e)
    ensures e.fd == s.base.listener ==> r.flags == SetNonblockingMode(s.flags, e.accepted)
    ensures e.fd != s.base.listener ==> r.flags == s.flags
  {
    if e.fd == s.base.listener then
      var flags := SetNonblockingMode(s.flags, e.accepted);
      NbServer(EpollServer.HandleEvent(s.base, e), flags)
    else
      s.(base := EpollServer.HandleEvent(s.base, e))
  }

  /** Lines 112-143: the wakeup's entries in array order, one action each. */
  function Dispatch(s: NbServer, events: seq<Event>): (r: NbServer)
    ensures r.base.listener == s.base.listener
    ensures |r.base.log| == |s.base.log| + |events| && r.base.log[..|s.base.log|] == s.base.log
    ensures forall i :: 0 <= i < |events| ==>
      r.base.log[|s.base.log| + i] == EpollServer.Response(s.base.listener, events[i])
    decreases |events|
  {
    if events == [] then s
    else HandleEvent(Dispatch(s, events[..|events| - 1]), events[|events| - 1])
  }

  /** Lines 102-144 over a finite run of wakeups; true when a failed
      `epoll_wait` ended it. */
  function Serve(s: NbServer, waits: seq<WaitResult>): (r: (NbServer, bool))
    ensures r.1 <==> EpollServer.WaitFailed in waits
    ensures r.0.base.listener == s.base.listener
    decreases |waits|
  {
    if waits == [] then (s, false)
    else match waits[0]
      case WaitFailed => (s, true)
      case Woke(events) => Serve(Dispatch(s, events), waits[1..])
  }

  /** Each wakeup does to the interest set and the actions exactly what
      EpollServer's does; so do whole runs, including the end on a failed wait. */
  lemma {:induction false} DispatchIsEpollDispatch(s: NbServer, events: seq<Event>)
    ensures Dispatch(s, events).base == EpollServer.Dispatch(s.base, events)
    decreases |events|
  {
    if events != [] {
      DispatchIsEpollDispatch(s, events[..|events| - 1]);
    }
  }

  lemma {:induction false} ServeIsEpollServe(s: NbServer, waits: seq<WaitResult>)
    ensures Serve(s, waits).0.base == EpollServer.Serve(s.base, waits).0
    ensures Serve(s, waits).1 == EpollServer.Serve(s.base, waits).1
    decreases |waits|
  {
    if waits != [] && waits[0].Woke? {
      DispatchIsEpollDispatch(s, waits[0].events);
      ServeIsEpollServe(Dispatch(s, waits[0].events), waits[1..]);
    }
  }

  /** accept never hands back the listening descriptor itself. Only the
      listener's entries call accept. */
  predicate AcceptsFresh(listener: Fd, events: seq<Event>)
  {
    forall j :: 0 <= j < |events| && events[j].fd == listener ==> events[j].accepted != listener
  }

  /** AcceptsFresh for every wakeup of a run. */
  predicate RunAcceptsFresh(listener: Fd, waits: seq<WaitResult>)
  {
    forall k :: 0 <= k < |waits| && waits[k].Woke? ==> AcceptsFresh(listener, waits[k].events)
  }

  /** The flag invariant: every registered client is non-blocking, and the
      listener keeps the flags it had when the loop started. */
  predicate FlagInv(s: NbServer, listenerFlags: bv32)
  {
    FlagsOf(s.flags, s.base.listener) == listenerFlags &&
    forall fd :: fd in s.base.interest && fd != s.base.listener ==>
      FlagsOf(s.flags, fd) & ONonblock == ONonblock
  }

  lemma HandleEventKeepsFlagInv(s: NbServer, e: Event, lf: bv32)
    requires FlagInv(s, lf) && (e.fd == s.base.listener ==> e.accepted != s.base.listener)
    ensures FlagInv(HandleEvent(s, e), lf)
  {
    var r := HandleEvent(s, e);
    forall fd | fd in r.base.interest && fd != r.base.listener
      ensures FlagsOf(r.flags, fd) & ONonblock == ONonblock
    {
      if e.fd == s.base.listener && fd == e.accepted {
      } else {
        assert fd in s.base.interest;
      }
    }
  }

  /** A wakeup keeps the flag invariant: each accepted client is made
      non-blocking, and the listener's flags never change. */
  lemma {:induction false} DispatchKeepsFlagInv(s: NbServer, events: seq<Event>, lf: bv32)
    requires FlagInv(s, lf) && AcceptsFresh(s.base.listener, events)
    ensures FlagInv(Dispatch(s, events), lf)
    decreases |events|
  {
    if events != [] {
      var init := events[..|events| - 1];
      assert AcceptsFresh(s.base.listener, init);
      DispatchKeepsFlagInv(s, init, lf);
      DispatchIsEpollDispatch(s, init);
      HandleEventKeepsFlagInv(Dispatch(s, init), events[|events| - 1], lf);
    }
  }

  /** Over a whole run every registered client is non-blocking and the
      listener's flags never change. */
  lemma {:induction false} ServeKeepsFlagInv(s: NbServer, waits: seq<WaitResult>, lf: bv32)
    requires FlagInv(s, lf) && RunAcceptsFresh(s.base.listener, waits)
    ensures FlagInv(Serve(s, waits).0, lf)
    decreases |waits|
  {
    if waits != [] && waits[0].Woke? {
      DispatchKeepsFlagInv(s, waits[0].events, lf);
      var d := Dispatch(s, waits[0].events);
      assert RunAcceptsFresh(d.base.listener, waits[1..]) by {
        forall k | 0 <= k < |waits[1..]| && waits[1..][k].Woke?
          ensures AcceptsFresh(d.base.listener, waits[1..][k].events)
        {
          assert waits[1..][k] == waits[k + 1];
        }
      }
      ServeKeepsFlagInv(d, waits[1..], lf);
    }
  }

  /** The epoll echo loop with non-blocking clients, as a mutable object. */
  class NonblockingLoop {
    const listener: Fd
    var interest: map<Fd, Mode>
    var log: seq<Action>
    var flags: map<Fd, bv32>

    function State(): NbServer
      reads this
    {
      NbServer(EpollServer.Server(listener, interest, log), flags)
    }

    constructor (servSock: Fd, initialFlags: map<Fd, bv32>)
      ensures State() == Start(servSock, initialFlags)
    {
      listener := servSock;
      interest := map[servSock := Level];
      log := [];
      flags := initialFlags;
    }

    /** `set_nonblocking_mode(fd)` on the kernel's flag table. */
    method SetNonblockingModeOf(fd: Fd)
      modifies this
      ensures flags == SetNonblockingMode(old(flags), fd)
      ensures interest == old(interest) && log == old(log)
    {
      if fd >= 0 {
        var flag := FlagsOf(flags, fd);
        flags := flags[fd := flag | ONonblock];
      }
    }

    /** Lines 115-142 for one entry. */
    method HandleOne(e: Event)
      modifies this
      ensures State() == HandleEvent(old(State()), e)
    {
      if e.fd == listener {
        var clntSock := e.accepted;
        SetNonblockingModeOf(clntSock);
        if clntSock >= 0 && clntSock !in interest {
          interest := interest[clntSock := Level];
        }
        log := log + [Accepted(clntSock)];
      } else {
        var strLen := e.input.n;
        if strLen == 0 {
          interest := interest - {e.fd};
          log := log + [Closed(e.fd)];
        } else {
          log := log + [Echoed(e.fd, strLen, e.input.bytes)];
        }
      }
    }

    /** Lines 102-144. */
    method Run(waits: seq<WaitResult>) returns (failed: bool)
      modifies this
      ensures (State(), failed) == Serve(old(State()), waits)
    {
      var i := 0;
      failed := false;
      while i < |waits|
        invariant 0 <= i <= |waits|
        invariant Serve(old(State()), waits) == Serve(State(), waits[i..])
      {
        assert waits[i..][1..] == waits[i + 1..];
        match waits[i]
        case WaitFailed =>
          failed := true;
          return;
        case Woke(events) =>
          ghost var s1 := State();
          for j := 0 to |events|
            invariant State() == Dispatch(s1, events[..j])
          {
            HandleOne(events[j]);
            assert events[..j + 1][..j] == events[..j];
          }
          assert events[..|events|] == events;
          i := i + 1;
      }
    }
  }
}

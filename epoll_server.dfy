/** The level-triggered epoll echo server: an interest set that starts as the
    listener alone, grows by one registration per accepted connection and
    shrinks by one when a client's read returns 0. The kernel is an oracle:
    each wakeup is given as the array of reported events, each carrying the
    result that `accept` or `read` returns for it. */
module EpollServer {
  import opened Net
  import opened Readiness

  /** Size of the echo buffer. */
  const BufSize: int := 100
  /** Capacity of the `ep_events` array passed to `epoll_wait`. */
  const EpollSize: int := 50

  /** One entry of `ep_events` with the OS's answer for it: the result of
      `accept` if it is the listener's, of `read` otherwise. */
  datatype Event = Event(fd: Fd, accepted: Fd, input: Input)

  /** What one `epoll_wait` returns: -1, or `event_cnt` entries. */
  datatype WaitResult = WaitFailed | Woke(events: seq<Event>)

  /** The loop's state: the listener, the interest set with each fd's trigger
      mode, and the actions taken so far. */
  datatype Server = Server(listener: Fd, interest: map<Fd, Mode>, log: seq<Action>)

  /** The state before the loop: the listener registered for EPOLLIN. */
  function Start(listener: Fd): (s: Server)
    ensures s.interest.Keys == {listener} && s.interest[listener] == Level && s.log == []
    ensures Inv(s)
  {
    Server(listener, map[listener := Level], [])
  }

  /** `epoll_ctl(EPOLL_CTL_ADD)`: fails, leaving the set alone, for a negative
      fd or one already registered (the source ignores the failure). */
  function AddInterest(interest: map<Fd, Mode>, fd: Fd, mode: Mode): (r: map<Fd, Mode>)
    ensures fd >= 0 && fd !in interest ==> r.Keys == interest.Keys + {fd} && r[fd] == mode
    ensures fd < 0 || fd in interest ==> r == interest
    ensures forall g :: g in interest ==> g in r && r[g] == interest[g]
  {
    if fd < 0 || fd in interest then interest else interest[fd := mode]
  }

  /** The loop body for one entry of `ep_events` (lines 113-136). */
  function HandleEvent(s: Server, e: Event): (r: Server)
    ensures r.listener == s.listener && r.log == s.log + [Response(s.listener, e)]
    ensures e.fd == s.listener ==> r.interest == AddInterest(s.interest, e.accepted, Level)
    ensures e.fd != s.listener && e.input.n == 0 ==>
      r.interest.Keys == s.interest.Keys - {e.fd} &&
      forall g :: g in r.interest ==> r.interest[g] == s.interest[g]
    ensures e.fd != s.listener && e.input.n != 0 ==> r.interest == s.interest
  {
    if e.fd == s.listener then
      s.(interest := AddInterest(s.interest, e.accepted, Level), log := s.log + [Accepted(e.accepted)])
    else if e.input.n == 0 then
      s.(interest := s.interest - {e.fd}, log := s.log + [Closed(e.fd)])
    else
      s.(log := s.log + [Echoed(e.fd, e.input.n, e.input.bytes)])
  }

  /** The action the source takes for one event: accept on the listener, close
      on a zero-length read, and otherwise write back `str_len` bytes —
      a negative `str_len` included. */
  function Response(listener: Fd, e: Event): Action
  {
    if e.fd == listener then Accepted(e.accepted)
    else if e.input.n == 0 then Closed(e.fd)
    else Echoed(e.fd, e.input.n, e.input.bytes)
  }

  /** One wakeup: the `event_cnt` entries, handled in array order. */
  function Dispatch(s: Server, events: seq<Event>): (r: Server)
    ensures r.listener == s.listener
    ensures |r.log| == |s.log| + |events| && r.log[..|s.log|] == s.log
    ensures forall i :: 0 <= i < |events| ==> r.log[|s.log| + i] == Response(s.listener, events[i])
    decreases |events|
  {
    if events == [] then s
    else HandleEvent(Dispatch(s, events[..|events| - 1]), events[|events| - 1])
  }

  /** The `while (1)` loop over a finite run of wakeups; the flag says whether
      an `epoll_wait` failure ended it. */
  function Serve(s: Server, waits: seq<WaitResult>): (r: (Server, bool))
    ensures r.1 <==> WaitFailed in waits
    ensures r.0.listener == s.listener
    decreases |waits|
  {
    if waits == [] then (s, false)
    else match waits[0]
      case WaitFailed => (s, true)
      case Woke(events) => Serve(Dispatch(s, events), waits[1..])
  }

  /** The properties the loop keeps: the listener is registered, level-triggered;
      every other registration is a non-negative fd that was accepted; no close
      ever names the listener. */
  predicate Inv(s: Server)
  {
    s.listener in s.interest && s.interest[s.listener] == Level &&
    (forall fd :: fd in s.interest && fd != s.listener ==> fd >= 0 && Accepted(fd) in s.log) &&
    (forall k :: 0 <= k < |s.log| && s.log[k].Closed? ==> s.log[k].fd != s.listener)
  }

  lemma HandleEventKeepsInv(s: Server, e: Event)
    requires Inv(s)
    ensures Inv(HandleEvent(s, e))
  {
    var r := HandleEvent(s, e);
    forall fd | fd in r.interest && fd != r.listener
      ensures fd >= 0 && Accepted(fd) in r.log
    {
      if fd !in s.interest {
        assert r.log[|s.log|] == Accepted(fd);
      } else {
        assert Accepted(fd) in s.log;
        var k :| 0 <= k < |s.log| && s.log[k] == Accepted(fd);
        assert r.log[k] == Accepted(fd);
      }
    }
  }

  lemma {:induction false} DispatchKeepsInv(s: Server, events: seq<Event>)
    requires Inv(s)
    ensures Inv(Dispatch(s, events))
    decreases |events|
  {
    if events != [] {
      DispatchKeepsInv(s, events[..|events| - 1]);
      HandleEventKeepsInv(Dispatch(s, events[..|events| - 1]), events[|events| - 1]);
    }
  }

  /** Over any run, the listener stays registered (level-triggered), only
      accepted fds are registered beside it, and it is never closed. */
  lemma {:induction false} ServeKeepsInv(s: Server, waits: seq<WaitResult>)
    requires Inv(s)
    ensures Inv(Serve(s, waits).0)
    decreases |waits|
  {
    if waits != [] && waits[0].Woke? {
      DispatchKeepsInv(s, waits[0].events);
      ServeKeepsInv(Dispatch(s, waits[0].events), waits[1..]);
    }
  }

  /** An `epoll_wait` failure ends the loop: nothing after it is processed. */
  lemma {:induction false} FailureEndsLoop(s: Server, before: seq<WaitResult>, after: seq<WaitResult>)
    requires WaitFailed !in before
    ensures Serve(s, before + [WaitFailed] + after) == (Serve(s, before).0, true)
    decreases |before|
  {
    if before != [] {
      assert (before + [WaitFailed] + after)[1..] == before[1..] + [WaitFailed] + after;
      FailureEndsLoop(Dispatch(s, before[0].events), before[1..], after);
    }
  }

  /** A read that fails (-1, EAGAIN or EBADF) is not treated as a close: the fd
      stays registered and the write is issued with a negative length. */
  lemma NegativeReadIsEchoed(s: Server, e: Event)
    requires e.fd != s.listener && e.input.n < 0 && ValidInput(e.input, BufSize)
    ensures HandleEvent(s, e).interest == s.interest
    ensures HandleEvent(s, e).log[|s.log|] == Echoed(e.fd, -1, [])
  {
  }

  /** A positive read is written back whole: exactly the `str_len` bytes read. */
  lemma PositiveReadIsEchoed(s: Server, e: Event)
    requires e.fd != s.listener && e.input.n > 0 && ValidInput(e.input, BufSize)
    ensures HandleEvent(s, e).interest == s.interest
    ensures HandleEvent(s, e).log[|s.log|] == Echoed(e.fd, |e.input.bytes|, e.input.bytes)
    ensures 0 < |e.input.bytes| <= BufSize
  {
  }

  /** The echo server's loop, mutating its interest set in place. */
  class EpollLoop {
    const listener: Fd
    var interest: map<Fd, Mode>
    var log: seq<Action>

    function State(): Server
      reads this
    {
      Server(listener, interest, log)
    }

    /** Lines 71-76: create the instance and register the listener. */
    constructor (servSock: Fd)
      ensures State() == Start(servSock)
    {
      listener := servSock;
      interest := map[servSock := Level];
      log := [];
    }

    /** Lines 113-136 for one entry. */
    method HandleOne(e: Event)
      modifies this
      ensures State() == HandleEvent(old(State()), e)
    {
      if e.fd == listener {
        var clntSock := e.accepted;
        if clntSock >= 0 && clntSock !in interest {
          interest := interest[clntSock := Level];
        }
        log := log + [Accepted(clntSock)];
      } else {
        var strLen := e.input.n;
        if strLen == 0 {
          interest := interest - {e.fd};
          log := log + [Closed(e.fd)];
        } else {
          log := log + [Echoed(e.fd, strLen, e.input.bytes)];
        }
      }
    }

    /** Lines 110-137: the `event_cnt` entries in order. */
    method Wakeup(events: seq<Event>)
      modifies this
      ensures State() == Dispatch(old(State()), events)
    {
      for i := 0 to |events|
        invariant State() == Dispatch(old(State()), events[..i])
      {
        HandleOne(events[i]);
        assert events[..i + 1][..i] == events[..i];
      }
      assert events[..|events|] == events;
    }

    /** Lines 92-138: wait, stop on -1, otherwise dispatch. */
    method Run(waits: seq<WaitResult>) returns (failed: bool)
      modifies this
      ensures (State(), failed) == Serve(old(State()), waits)
    {
      var i := 0;
      failed := false;
      while i < |waits|
        invariant 0 <= i <= |waits|
        invariant Serve(old(State()), waits) == Serve(State(), waits[i..])
      {
        assert waits[i..][1..] == waits[i + 1..];
        match waits[i]
        case WaitFailed =>
          failed := true;
          return;
        case Woke(events) =>
          Wakeup(events);
          i := i + 1;
      }
    }
  }
}

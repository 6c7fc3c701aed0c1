/** The edge-triggered demonstration server: the listener registered
    level-triggered, every client edge-triggered, and client events serviced
    without reading, so that buffered input stays unread. Its wake-up counter
    is never initialised: the model takes its starting value as a parameter. */
module EdgeTriggeredServer {
  import opened Net
  import opened Readiness
  import EpollServer

  type Event = EpollServer.Event
  type WaitResult = EpollServer.WaitResult

  /** Listener, interest set with modes, the `wakeup_cnt` variable, actions. */
  datatype EdgeServer = EdgeServer(listener: Fd, interest: map<Fd, Mode>, wakeups: int, log: seq<Action>)

  /** Before the loop: only the listener, level-triggered; `garbage` is
      whatever the uninitialised `wakeup_cnt` holds. */
  function Start(listener: Fd, garbage: int): (s: EdgeServer)
    ensures s.interest.Keys == {listener} && s.interest[listener] == Level
    ensures s.wakeups == garbage && s.log == []
    ensures Inv(s)
  {
    EdgeServer(listener, map[listener := Level], garbage, [])
  }

  /** Lines 77-99 for one entry: accept and register with EPOLLIN | EPOLLET,
      or note the client event and leave its data unread. */
  function HandleEvent(s: EdgeServer, e: Event): (r: EdgeServer)
    ensures r.listener == s.listener && r.wakeups == s.wakeups
    ensures e.fd == s.listener ==>
      r.interest == EpollServer.AddInterest(s.interest, e.accepted, Edge) &&
      r.log == s.log + [Accepted(e.accepted)]
    ensures e.fd != s.listener ==> r.interest == s.interest && r.log == s.log + [Notified(e.fd)]
  {
    if e.fd == s.listener then
      s.(interest := EpollServer.AddInterest(s.interest, e.accepted, Edge), log := s.log + [Accepted(e.accepted)])
    else
      s.(log := s.log + [Notified(e.fd)])
  }

  /** One wakeup's entries in order. */
  function Dispatch(s: EdgeServer, events: seq<Event>): (r: EdgeServer)
    ensures r.listener == s.listener && r.wakeups == s.wakeups
    ensures |r.log| == |s.log| + |events|
    decreases |events|
  {
    if events == [] then s
    else HandleEvent(Dispatch(s, events[..|events| - 1]), events[|events| - 1])
  }

  /** The loop over a finite run of wakeups. `wakeup_cnt++` runs after every
      return of `epoll_wait`, the failing one included. */
  function Serve(s: EdgeServer, waits: seq<WaitResult>): (r: (EdgeServer, bool))
    ensures r.1 <==> EpollServer.WaitFailed in waits
    ensures r.0.listener == s.listener
    decreases |waits|
  {
    if waits == [] then (s, false)
    else
      var s1 := s.(wakeups := s.wakeups + 1);
      match waits[0]
      case WaitFailed => (s1, true)
      case Woke(events) => Serve(Dispatch(s1, events), waits[1..])
  }

  /** What the loop keeps: the listener is registered level-triggered, every
      other registration is an accepted, edge-triggered fd, and no action reads
      or closes a client. */
  predicate Inv(s: EdgeServer)
  {
    s.listener in s.interest && s.interest[s.listener] == Level &&
    (forall fd :: fd in s.interest && fd != s.listener ==> fd >= 0 && s.interest[fd] == Edge) &&
    (forall k :: 0 <= k < |s.log| ==> s.log[k].Accepted? || s.log[k].Notified?)
  }

  lemma {:induction false} DispatchKeepsInv(s: EdgeServer, events: seq<Event>)
    requires Inv(s)
    ensures Inv(Dispatch(s, events))
    ensures s.interest.Keys <= Dispatch(s, events).interest.Keys
    decreases |events|
  {
    if events != [] {
      DispatchKeepsInv(s, events[..|events| - 1]);
    }
  }

  /** Over any run: the invariant holds, no registration is ever removed, and
      the counter has grown by one per `epoll_wait` return. */
  lemma {:induction false} ServeKeepsInv(s: EdgeServer, waits: seq<WaitResult>)
    requires Inv(s)
    ensures Inv(Serve(s, waits).0)
    ensures s.interest.Keys <= Serve(s, waits).0.interest.Keys
    ensures Serve(s, waits).0.wakeups == s.wakeups + Returns(waits)
    decreases |waits|
  {
    if waits != [] {
      var s1 := s.(wakeups := s.wakeups + 1);
      if waits[0].Woke? {
        DispatchKeepsInv(s1, waits[0].events);
        ServeKeepsInv(Dispatch(s1, waits[0].events), waits[1..]);
      }
    }
  }

  /** The number of `epoll_wait` returns the loop sees: up to and including the first failure. */
  function Returns(waits: seq<WaitResult>): (n: nat)
    ensures n <= |waits|
  {
    if waits == [] then 0
    else if waits[0].WaitFailed? then 1
    else 1 + Returns(waits[1..])
  }

  /** The counter that is printed is not determined by the program: two
      different contents of the uninitialised variable give two different
      counts after the same run. */
  lemma WakeupCountDependsOnGarbage(listener: Fd, g1: int, g2: int, waits: seq<WaitResult>)
    requires g1 != g2
    ensures Serve(Start(listener, g1), waits).0.wakeups != Serve(Start(listener, g2), waits).0.wakeups
  {
    ServeKeepsInv(Start(listener, g1), waits);
    ServeKeepsInv(Start(listener, g2), waits);
  }

  /** The demonstration's loop, mutating its interest set and counter in place. */
  class EdgeLoop {
    const listener: Fd
    var interest: map<Fd, Mode>
    var wakeupCnt: int
    var log: seq<Action>

    function State(): EdgeServer
      reads this
    {
      EdgeServer(listener, interest, wakeupCnt, log)
    }

    /** Lines 58-65; `garbage` is the indeterminate initial `wakeup_cnt`. */
    constructor (servSock: Fd, garbage: int)
      ensures State() == Start(servSock, garbage)
    {
      listener := servSock;
      interest := map[servSock := Level];
      wakeupCnt := garbage;
      log := [];
    }

    /** Lines 67-100. */
    method Run(waits: seq<WaitResult>) returns (failed: bool)
      modifies this
      ensures (State(), failed) == Serve(old(State()), waits)
    {
      var i := 0;
      failed := false;
      while i < |waits|
        invariant 0 <= i <= |waits|
        invariant Serve(old(State()), waits) == Serve(State(), waits[i..])
      {
        assert waits[i..][1..] == waits[i + 1..];
        wakeupCnt := wakeupCnt + 1;
        match waits[i]
        case WaitFailed =>
          failed := true;
          return;
        case Woke(events) =>
          ghost var s1 := State();
          for j := 0 to |events|
            invariant State() == Dispatch(s1, events[..j])
          {
            var e := events[j];
            if e.fd == listener {
              var clntSock := e.accepted;
              if clntSock >= 0 && clntSock !in interest {
                interest := interest[clntSock := Edge];
              }
              log := log + [Accepted(clntSock)];
            } else {
              log := log + [Notified(e.fd)];
            }
            assert events[..j + 1][..j] == events[..j];
          }
          assert events[..|events|] == events;
          i := i + 1;
      }
    }
  }
}

/** A test-double readiness multiplexer that encodes the reporting rule stated
    at the head of edge_triggered_server.c: a level-triggered registration
    wakes the waiter as long as it has unread data, an edge-triggered one only
    once per arrival of new data. */
module Readiness {
  import opened Net

  /** EPOLLIN alone (level) or EPOLLIN | EPOLLET (edge). */
  datatype Mode = Level | Edge

  /** Per registered fd its mode; per fd the unread byte count; and the fds
      whose data arrived since they were last reported (what an edge waits for). */
  datatype Mux = Mux(mode: map<Fd, Mode>, pending: map<Fd, nat>, arrived: set<Fd>)

  /** Bytes waiting in fd's receive buffer. */
  function Unread(m: Mux, fd: Fd): nat
  {
    if fd in m.pending then m.pending[fd] else 0
  }

  /** The reporting rule. */
  predicate Reported(m: Mux, fd: Fd)
  {
    fd in m.mode && (if m.mode[fd] == Level then Unread(m, fd) > 0 else fd in m.arrived)
  }

  /** The fds one wait reports. */
  function Ready(m: Mux): (r: set<Fd>)
    ensures forall fd :: fd in r <==> Reported(m, fd)
  {
    set fd | fd in m.mode && Reported(m, fd)
  }

  /** One wait: report the ready fds; the reported ones have consumed their edge.
      A wait never reads, so no fd's unread count changes. */
  function Wait(m: Mux): (r: (set<Fd>, Mux))
    ensures r.0 == Ready(m)
    ensures r.1.mode == m.mode && r.1.pending == m.pending
    ensures forall fd :: fd in r.1.arrived <==> fd in m.arrived && !Reported(m, fd)
  {
    (Ready(m), m.(arrived := m.arrived - Ready(m)))
  }

  /** The peer writes k > 0 bytes to fd. */
  function Arrive(m: Mux, fd: Fd, k: nat): (r: Mux)
    requires k > 0
    ensures r.mode == m.mode && Unread(r, fd) == Unread(m, fd) + k
    ensures forall g :: g != fd ==> Unread(r, g) == Unread(m, g)
    ensures r.arrived == m.arrived + {fd}
  {
    m.(pending := m.pending[fd := Unread(m, fd) + k], arrived := m.arrived + {fd})
  }

  /** `epoll_ctl(ADD)` of fd with the given mode; data already buffered counts as
      an arrival, so a new registration is reported once even in edge mode. */
  function Register(m: Mux, fd: Fd, mode: Mode): (r: Mux)
    ensures r.mode == m.mode[fd := mode] && r.pending == m.pending
    ensures Unread(m, fd) > 0 ==> Reported(r, fd)
  {
    m.(mode := m.mode[fd := mode], arrived := if Unread(m, fd) > 0 then m.arrived + {fd} else m.arrived)
  }

  /** The multiplexer after n waits with neither arrivals nor reads between them. */
  function Waits(m: Mux, n: nat): (r: Mux)
    ensures r.mode == m.mode && r.pending == m.pending
    decreases n
  {
    if n == 0 then m else Waits(Wait(m).1, n - 1)
  }

  /** Level-triggered: a registration with unread data is reported on every wait. */
  lemma {:induction false} LevelReportsEveryWait(m: Mux, fd: Fd, n: nat)
    requires fd in m.mode && m.mode[fd] == Level && Unread(m, fd) > 0
    ensures fd in Wait(Waits(m, n)).0
    decreases n
  {
    if n > 0 {
      LevelReportsEveryWait(Wait(m).1, fd, n - 1);
    }
  }

  /** Edge-triggered: once reported, a registration is not reported again until
      more data arrives, whatever is still unread. */
  lemma {:induction false} EdgeStarvesWithoutArrival(m: Mux, fd: Fd, n: nat)
    requires fd in m.mode && m.mode[fd] == Edge
    ensures fd !in Wait(Waits(Wait(m).1, n)).0
    ensures Unread(Waits(Wait(m).1, n), fd) == Unread(m, fd)
  {
    assert fd !in Wait(m).1.arrived;
    EdgeStarvesFrom(Wait(m).1, fd, n);
  }

  lemma {:induction false} EdgeStarvesFrom(m: Mux, fd: Fd, n: nat)
    requires fd in m.mode && m.mode[fd] == Edge && fd !in m.arrived
    ensures fd !in Wait(Waits(m, n)).0
    decreases n
  {
    if n > 0 {
      EdgeStarvesFrom(Wait(m).1, fd, n - 1);
    }
  }

  /** Edge-triggered: a new arrival re-arms the registration. */
  lemma EdgeReportedAfterArrival(m: Mux, fd: Fd, k: nat)
    requires fd in m.mode && m.mode[fd] == Edge && k > 0
    ensures fd in Wait(Arrive(m, fd, k)).0
  {
  }

  /** The two-writes scenario: the peer writes twice before the servicer reads
      anything, and the servicer then never drains. The first wait reports the
      fd in either mode; the second reports it exactly when it is level-triggered. */
  lemma TwoWritesNoDrain(m: Mux, fd: Fd, a: nat, b: nat)
    requires fd in m.mode && a > 0 && b > 0
    ensures fd in Wait(Arrive(Arrive(m, fd, a), fd, b)).0
    ensures var second := Wait(Wait(Arrive(Arrive(m, fd, a), fd, b)).1).0;
            fd in second <==> m.mode[fd] == Level
  {
    var m2 := Arrive(Arrive(m, fd, a), fd, b);
    assert Unread(m2, fd) > 0;
    if m.mode[fd] == Level {
      LevelReportsEveryWait(m2, fd, 1);
    } else {
      EdgeStarvesWithoutArrival(m2, fd, 0);
    }
  }
}

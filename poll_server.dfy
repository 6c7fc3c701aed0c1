/** The poll echo server: a fixed table of POLL_SIZE `pollfd` slots whose
    slot 0 is the listener and whose other slots hold connected clients,
    -1 marking a free slot. Each `poll` return is given as the number it
    returns, the `revents` of every slot, the result of `accept` and, per
    slot, the result of `read`. */
module PollServer {
  import opened Net

  /** Size of the echo buffer. */
  const BufSize: int := 100
  /** Number of slots in `event_set`. */
  const PollSize: int := 128
  /** POLLRDNORM and POLLERR as Linux defines them. */
  const PollRdnorm: bv16 := 0x40
  const PollErr: bv16 := 0x8

  /** The `fd` and `events` members of a `struct pollfd`; `revents` is part
      of each poll answer instead. */
  datatype PollFd = PollFd(fd: Fd, events: bv16)

  type Table = s: seq<PollFd> | |s| == PollSize witness seq(PollSize, _ => PollFd(-1, 0))

  predicate Free(t: Table, i: int)
    requires 0 <= i < PollSize
  {
    t[i].fd < 0
  }

  /** Lines 93-100: slot 0 listens for POLLRDNORM, every other slot is free.
      The source leaves the `events` of the free slots uninitialised; they are
      0 here, which poll ignores for a negative fd anyway. */
  function InitTable(serv: Fd): (t: Table)
    ensures t[0] == PollFd(serv, PollRdnorm)
    ensures forall i :: 1 <= i < PollSize ==> Free(t, i)
  {
    seq(PollSize, i => if i == 0 then PollFd(serv, PollRdnorm) else PollFd(-1, 0))
  }

  /** The first free slot at index from or above, or PollSize when there is none. */
  function FirstFreeFrom(t: Table, from: int): (i: int)
    requires 1 <= from <= PollSize
    ensures from <= i <= PollSize
    ensures i < PollSize ==> Free(t, i)
    ensures forall j :: from <= j < i ==> !Free(t, j)
    decreases PollSize - from
  {
    if from == PollSize then PollSize
    else if Free(t, from) then from
    else FirstFreeFrom(t, from + 1)
  }

  /** The slot the search of lines 114-123 stops at; PollSize means the table is full. */
  function FirstFree(t: Table): (i: int)
    ensures 1 <= i <= PollSize
    ensures i < PollSize ==> Free(t, i)
    ensures forall j :: 1 <= j < i ==> !Free(t, j)
  {
    FirstFreeFrom(t, 1)
  }

  /** The lowest-index characterisation determines the slot. */
  lemma FirstFreeUnique(t: Table, i: int)
    requires 1 <= i <= PollSize
    requires i < PollSize ==> Free(t, i)
    requires forall j :: 1 <= j < i ==> !Free(t, j)
    ensures i == FirstFree(t)
  {
  }

  /** The answer of one `poll` call plus what the calls made while handling it
      return: `ready` is poll's result, `revents[i]` slot i's returned events,
      `accepted` accept's result, `inputs[i]` the read on slot i. */
  datatype Answer = Answer(ready: int, revents: seq<bv16>, accepted: Fd, inputs: seq<Input>)

  predicate WellSized(a: Answer)
  {
    |a.revents| == PollSize && |a.inputs| == PollSize
  }

  /** Poll itself sets `revents` to 0 for every slot whose fd is negative. */
  predicate PollAnswerFor(t: Table, a: Answer)
    requires WellSized(a)
  {
    forall i :: 0 <= i < PollSize && Free(t, i) ==> a.revents[i] == 0
  }

  predicate Readable(a: Answer, i: int)
    requires WellSized(a) && 0 <= i < PollSize
  {
    a.revents[i] & (PollRdnorm | PollErr) != 0
  }

  /** Lines 132-151 from slot i on with `ready_num` = ready: table, actions, and
      the count left. A read of 0 frees the slot; anything else, -1 included,
      is written back. */
  function ScanFrom(t: Table, a: Answer, i: int, ready: int): (r: (Table, seq<Action>, int))
    requires WellSized(a) && 1 <= i <= PollSize
    ensures r.0[0] == t[0]
    ensures ready <= 0 ==> r == (t, [], ready)
    ensures ready > 0 ==> 0 <= r.2 && r.2 + |r.1| == ready
    decreases PollSize - i
  {
    if i == PollSize || ready <= 0 then (t, [], ready)
    else if Free(t, i) || !Readable(a, i) then ScanFrom(t, a, i + 1, ready)
    else
      var fd := t[i].fd;
      var n := a.inputs[i].n;
      var t1: Table := if n == 0 then t[i := t[i].(fd := -1)] else t;
      var act := if n == 0 then Closed(fd) else Echoed(fd, n, a.inputs[i].bytes);
      var rest := ScanFrom(t1, a, i + 1, ready - 1);
      (rest.0, [act] + rest.1, rest.2)
  }

  /** The scan's result when the actions `done` precede a resumption at slot i. */
  function Resume(t: Table, a: Answer, i: int, ready: int, done: seq<Action>): (r: (Table, seq<Action>, int))
    requires WellSized(a) && 1 <= i <= PollSize
    ensures |r.1| >= |done| && r.1[..|done|] == done
  {
    var sc := ScanFrom(t, a, i, ready);
    (sc.0, done + sc.1, sc.2)
  }

  /** A free or quiet slot is passed over. */
  lemma ResumeSkip(t: Table, a: Answer, i: int, ready: int, done: seq<Action>)
    requires WellSized(a) && 1 <= i < PollSize && ready > 0 && (Free(t, i) || !Readable(a, i))
    ensures Resume(t, a, i, ready, done) == Resume(t, a, i + 1, ready, done)
  {
  }

  /** Past the last slot, or with nothing left to serve, the scan is over. */
  lemma ResumeDone(t: Table, a: Answer, i: int, ready: int, done: seq<Action>)
    requires WellSized(a) && 1 <= i <= PollSize && (i == PollSize || ready <= 0)
    ensures Resume(t, a, i, ready, done) == (t, done, ready)
  {
    assert done + [] == done;
  }

  /** One handled slot of the scan, seen from the loop. */
  lemma ResumeStep(t: Table, a: Answer, i: int, ready: int, done: seq<Action>)
    requires WellSized(a) && 1 <= i < PollSize && ready > 0 && !Free(t, i) && Readable(a, i)
    ensures var n := a.inputs[i].n;
            var t1: Table := if n == 0 then t[i := t[i].(fd := -1)] else t;
            var act := if n == 0 then Closed(t[i].fd) else Echoed(t[i].fd, n, a.inputs[i].bytes);
            Resume(t, a, i, ready, done) == Resume(t1, a, i + 1, ready - 1, done + [act])
  {
    var n := a.inputs[i].n;
    var t1: Table := if n == 0 then t[i := t[i].(fd := -1)] else t;
    var act := if n == 0 then Closed(t[i].fd) else Echoed(t[i].fd, n, a.inputs[i].bytes);
    assert done + ([act] + ScanFrom(t1, a, i + 1, ready - 1).1) == (done + [act]) + ScanFrom(t1, a, i + 1, ready - 1).1;
  }

  /** What one iteration of the `while (1)` loop ends in. */
  datatype Outcome =
    | Served(table: Table, actions: seq<Action>)  // back to poll
    | Full(actions: seq<Action>)                  // error_handling exits the process
    | PollFailed                                  // poll returned < 0: break

  /** Lines 106-151. A connection is accepted when slot 0 reports POLLRDNORM, and
      stored in the lowest free slot; with no free slot the process exits. */
  function Iteration(t: Table, a: Answer): (o: Outcome)
    requires WellSized(a)
    ensures o.PollFailed? <==> a.ready < 0
    ensures o.Full? <==> a.ready >= 0 && a.revents[0] & PollRdnorm != 0 && FirstFree(t) == PollSize
    ensures o.Served? ==> o.table[0] == t[0]
  {
    if a.ready < 0 then PollFailed
    else if a.revents[0] & PollRdnorm != 0 then
      var i := FirstFree(t);
      if i == PollSize then Full([Accepted(a.accepted)])
      else
        var t1: Table := t[i := PollFd(a.accepted, PollRdnorm)];
        if a.ready - 1 <= 0 then Served(t1, [Accepted(a.accepted)])
        else
          var sc := ScanFrom(t1, a, 1, a.ready - 1);
          Served(sc.0, [Accepted(a.accepted)] + sc.1)
    else
      var sc := ScanFrom(t, a, 1, a.ready);
      Served(sc.0, sc.1)
  }

  /** A slot the scan changes was a readable client whose read returned 0;
      it is then free. Every other slot, free ones in particular, is unchanged. */
  lemma {:induction false} ScanOnlyFreesClosed(t: Table, a: Answer, i: int, ready: int, j: int)
    requires WellSized(a) && 1 <= i <= PollSize && 0 <= j < PollSize
    ensures var r := ScanFrom(t, a, i, ready).0;
            r[j] == t[j] ||
            (i <= j && !Free(t, j) && Readable(a, j) && a.inputs[j].n == 0 && r[j] == t[j].(fd := -1))
    decreases PollSize - i
  {
    if i < PollSize && ready > 0 {
      if Free(t, i) || !Readable(a, i) {
        ScanOnlyFreesClosed(t, a, i + 1, ready, j);
      } else {
        var t1: Table := if a.inputs[i].n == 0 then t[i := t[i].(fd := -1)] else t;
        ScanOnlyFreesClosed(t1, a, i + 1, ready - 1, j);
      }
    }
  }

  /** The fds held by the client slots from index i on. */
  function Clients(t: Table, i: int): set<Fd>
    requires 1 <= i <= PollSize
  {
    set j | i <= j < PollSize && !Free(t, j) :: t[j].fd
  }

  /** Emptying slot i, or leaving the table alone, keeps the clients above i. */
  lemma ClientsAbove(t: Table, t1: Table, i: int)
    requires 1 <= i < PollSize
    requires forall j :: 0 <= j < PollSize && j != i ==> t1[j] == t[j]
    ensures Clients(t1, i + 1) <= Clients(t, i)
  {
    forall fd | fd in Clients(t1, i + 1) ensures fd in Clients(t, i) {
      var j :| i + 1 <= j < PollSize && !Free(t1, j) && t1[j].fd == fd;
      assert t1[j] == t[j];
    }
  }

  /** Every action closes or writes back to one of the fds. */
  predicate ClientActions(acts: seq<Action>, fds: set<Fd>)
  {
    forall k :: 0 <= k < |acts| ==> (acts[k].Closed? || acts[k].Echoed?) && acts[k].fd in fds
  }

  /** The scan only closes or writes, and only to fds held by client slots. */
  lemma {:induction false} ScanActionsAreClients(t: Table, a: Answer, i: int, ready: int)
    requires WellSized(a) && 1 <= i <= PollSize
    ensures ClientActions(ScanFrom(t, a, i, ready).1, Clients(t, i))
    decreases PollSize - i
  {
    if i < PollSize && ready > 0 {
      if Free(t, i) || !Readable(a, i) {
        ScanActionsAreClients(t, a, i + 1, ready);
        ClientsAbove(t, t, i);
      } else {
        var t1: Table := if a.inputs[i].n == 0 then t[i := t[i].(fd := -1)] else t;
        ScanActionsAreClients(t1, a, i + 1, ready - 1);
        ClientsAbove(t, t1, i);
        var acts := ScanFrom(t, a, i, ready).1;
        var rest := ScanFrom(t1, a, i + 1, ready - 1).1;
        assert acts == [acts[0]] + rest;
        assert t[i].fd in Clients(t, i);
        forall k | 1 <= k < |acts|
          ensures (acts[k].Closed? || acts[k].Echoed?) && acts[k].fd in Clients(t, i)
        {
          assert acts[k] == rest[k - 1];
        }
      }
    }
  }

  /** Filling a slot that is free and quiet changes nothing else about a scan:
      it is passed over before and after, so the scan reads, frees and counts
      as it would have, and the slot keeps what was stored in it. */
  lemma {:induction false} ScanIgnoresQuietSlot(t: Table, a: Answer, k: int, ready: int, i: int, x: PollFd)
    requires WellSized(a) && 1 <= k <= PollSize && 1 <= i < PollSize
    requires Free(t, i) && !Readable(a, i)
    ensures var sc := ScanFrom(t, a, k, ready);
            ScanFrom(t[i := x], a, k, ready) == (sc.0[i := x], sc.1, sc.2)
    decreases PollSize - k
  {
    var tx: Table := t[i := x];
    if k == PollSize || ready <= 0 {
    } else if Free(t, k) || !Readable(a, k) {
      ScanIgnoresQuietSlot(t, a, k + 1, ready, i, x);
    } else {
      assert k != i && tx[k] == t[k];
      var n := a.inputs[k].n;
      var t1: Table := if n == 0 then t[k := t[k].(fd := -1)] else t;
      var tx1: Table := if n == 0 then tx[k := tx[k].(fd := -1)] else tx;
      assert tx1 == t1[i := x];
      ScanIgnoresQuietSlot(t1, a, k + 1, ready - 1, i, x);
    }
  }

  /** A connection accepted in an iteration is stored in the lowest free slot
      and not read in that same iteration: its slot was free when poll ran, so
      its `revents` is 0. The rest of the iteration is the scan of the table
      as it was before the insert, with one less event to serve; every other
      slot ends as that scan leaves it. */
  lemma AcceptedNotServicedAtOnce(t: Table, a: Answer)
    requires WellSized(a) && PollAnswerFor(t, a) && a.ready >= 1
    requires a.revents[0] & PollRdnorm != 0 && FirstFree(t) < PollSize
    ensures var i := FirstFree(t);
            var sc := ScanFrom(t, a, 1, a.ready - 1);
            Iteration(t, a) == Served(sc.0[i := PollFd(a.accepted, PollRdnorm)], [Accepted(a.accepted)] + sc.1)
  {
    var i := FirstFree(t);
    var x := PollFd(a.accepted, PollRdnorm);
    assert !Readable(a, i);
    ScanIgnoresQuietSlot(t, a, 1, a.ready - 1, i, x);
    if a.ready - 1 <= 0 {
      assert [Accepted(a.accepted)] + [] == [Accepted(a.accepted)];
    }
  }

  /** The server as a mutable object: the fixed `event_set` array and the actions so far. */
  class PollLoop {
    const servSock: Fd
    const eventSet: array<PollFd>
    var log: seq<Action>

    ghost predicate Valid()
      reads this
    {
      eventSet.Length == PollSize
    }

    /** Lines 93-100. */
    constructor (serv: Fd)
      ensures Valid() && eventSet[..] == InitTable(serv) && log == [] && servSock == serv
    {
      servSock := serv;
      log := [];
      var es := new PollFd[PollSize];
      es[0] := PollFd(serv, PollRdnorm);
      var i := 1;
      while i < PollSize
        invariant 1 <= i <= PollSize
        invariant es[0] == PollFd(serv, PollRdnorm)
        invariant forall j :: 1 <= j < i ==> es[j] == PollFd(-1, 0)
      {
        es[i] := PollFd(-1, 0);
        i := i + 1;
      }
      assert es[..] == InitTable(serv);
      eventSet := es;
    }

    /** Lines 114-123 without the store: the lowest free client slot, or
        PollSize when every client slot is taken. */
    method FindFreeSlot() returns (i: int)
      requires Valid()
      ensures 1 <= i <= PollSize
      ensures i < PollSize ==> eventSet[i].fd < 0
      ensures forall j :: 1 <= j < i ==> eventSet[j].fd >= 0
    {
      i := 1;
      while i < PollSize
        invariant 1 <= i <= PollSize
        invariant forall j :: 1 <= j < i ==> eventSet[j].fd >= 0
      {
        if eventSet[i].fd < 0 {
          return;
        }
        i := i + 1;
      }
    }

    /** Lines 132-151. */
    method Scan(a: Answer, readyNum: int) returns (left: int)
      requires Valid() && WellSized(a)
      modifies eventSet, this
      ensures var r := ScanFrom(old(eventSet[..]), a, 1, readyNum);
              eventSet[..] == r.0 && log == old(log) + r.1 && left == r.2
    {
      ghost var total := ScanFrom(eventSet[..], a, 1, readyNum);
      ghost var done: seq<Action> := [];
      left := readyNum;
      var i := 1;
      while i < PollSize && left > 0
        invariant 1 <= i <= PollSize && Valid()
        invariant log == old(log) + done
        invariant total == Resume(eventSet[..], a, i, left, done)
        decreases PollSize - i
      {
        ghost var t: Table := eventSet[..];
        var socketFd := eventSet[i].fd;
        if socketFd < 0 {
          ResumeSkip(t, a, i, left, done);
          i := i + 1;
          continue;
        }
        if a.revents[i] & (PollRdnorm | PollErr) != 0 {
          var act := Service(a, i);
          ResumeStep(t, a, i, left, done);
          log := log + [act];
          done := done + [act];
          left := left - 1;
        } else {
          ResumeSkip(t, a, i, left, done);
        }
        i := i + 1;
      }
      ResumeDone(eventSet[..], a, i, left, done);
    }

    /** Lines 139-147 for client slot i: read, then close and free the slot on
        0, otherwise write back what was read. */
    method Service(a: Answer, i: int) returns (act: Action)
      requires Valid() && WellSized(a) && 1 <= i < PollSize && eventSet[i].fd >= 0
      modifies eventSet
      ensures var n := a.inputs[i].n;
              var fd := old(eventSet[i].fd);
              act == (if n == 0 then Closed(fd) else Echoed(fd, n, a.inputs[i].bytes)) &&
              eventSet[..] == if n == 0 then old(eventSet[..])[i := old(eventSet[i]).(fd := -1)] else old(eventSet[..])
    {
      var socketFd := eventSet[i].fd;
      var strLen := a.inputs[i].n;
      if strLen == 0 {
        eventSet[i] := eventSet[i].(fd := -1);
        act := Closed(socketFd);
      } else {
        act := Echoed(socketFd, strLen, a.inputs[i].bytes);
      }
    }

    /** One pass of lines 104-151; false when the loop ends (poll failed or
        the table was full). */
    method Iterate(a: Answer) returns (more: bool)
      requires Valid() && WellSized(a)
      modifies eventSet, this
      ensures var o := Iteration(old(eventSet[..]), a);
              more == o.Served? &&
              (o.Served? ==> eventSet[..] == o.table && log == old(log) + o.actions) &&
              (o.Full? ==> eventSet[..] == old(eventSet[..]) && log == old(log) + o.actions) &&
              (o.PollFailed? ==> eventSet[..] == old(eventSet[..]) && log == old(log))
    {
      ghost var t0 := eventSet[..];
      var readyNum := a.ready;
      if readyNum < 0 {
        return false;
      }
      if a.revents[0] & PollRdnorm != 0 {
        var clntSock := a.accepted;
        var i := FindFreeSlot();
        FirstFreeUnique(eventSet[..], i);
        log := log + [Accepted(clntSock)];
        if i == PollSize {
          assert eventSet[..] == t0;
          return false;
        }
        eventSet[i] := PollFd(clntSock, PollRdnorm);
        readyNum := readyNum - 1;
        if readyNum <= 0 {
          return true;
        }
      }
      var _ := Scan(a, readyNum);
      more := true;
    }
  }
}

/** The select echo server: a descriptor set `reads` that starts as the
    listener alone and a bound `fd_max` that only grows. Every round copies
    `reads`, lets select reduce the copy to the ready descriptors, and scans
    0..fd_max, re-reading the bound on every pass. */
module SelectServer {
  import opened Net

  /** Size of the echo buffer. */
  const BufSize: int := 100

  /** What one `select` returns, with the answers of the calls made while
      handling it: -1, 0 (timeout), or the ready descriptors together with
      the result of `accept` and of each `read`. */
  datatype Answer =
    | SelectFailed
    | TimedOut
    | Ready(ready: set<Fd>, accepted: Fd, inputs: map<Fd, Input>)

  /** The loop's state: the listener, `reads`, `fd_max`, the actions so far. */
  datatype Sel = Sel(serv: Fd, readSet: set<Fd>, fdMax: int, log: seq<Action>)

  function Max(a: int, b: int): int
  {
    if a < b then b else a
  }

  /** The read result for fd; an fd the answer says nothing about reads -1. */
  function InputOf(inputs: map<Fd, Input>, fd: Fd): Input
  {
    if fd in inputs then inputs[fd] else Input(-1, [])
  }

  /** Lines 74-76: only the listener is monitored and the bound is the listener. */
  function Start(serv: Fd): (s: Sel)
    requires serv >= 0
    ensures s.readSet == {serv} && s.fdMax == serv && s.log == [] && Inv(s)
  {
    Sel(serv, {serv}, serv, [])
  }

  /** `cpy_reads` after select: select clears every bit that is not ready, and
      looks only at descriptors below `fd_max + 1`. */
  function Snapshot(s: Sel, ready: set<Fd>): (cpy: set<Fd>)
    ensures cpy <= s.readSet
    ensures forall fd :: fd in cpy <==> fd in ready && fd in s.readSet && fd <= s.fdMax
  {
    set fd | fd in s.readSet && fd in ready && fd <= s.fdMax
  }

  /** Lines 97-121 for descriptor i. The listener accepts, adds the new fd to
      `reads` and raises `fd_max` to it; a client read of 0 removes the fd from
      `reads` (leaving `fd_max` alone); any other read is written back. */
  function Visit(s: Sel, cpy: set<Fd>, accepted: Fd, inputs: map<Fd, Input>, i: int): (r: Sel)
    ensures r.serv == s.serv
    ensures i !in cpy ==> r == s
    ensures i in cpy && i == s.serv ==>
      r.readSet == (if accepted >= 0 then s.readSet + {accepted} else s.readSet) &&
      r.fdMax == Max(s.fdMax, accepted) && r.log == s.log + [Accepted(accepted)]
    ensures i in cpy && i != s.serv && InputOf(inputs, i).n == 0 ==>
      r.readSet == s.readSet - {i} && r.fdMax == s.fdMax && r.log == s.log + [Closed(i)]
    ensures i in cpy && i != s.serv && InputOf(inputs, i).n != 0 ==>
      r.readSet == s.readSet && r.fdMax == s.fdMax &&
      r.log == s.log + [Echoed(i, InputOf(inputs, i).n, InputOf(inputs, i).bytes)]
  {
    if i !in cpy then s
    else if i == s.serv then
      var rs := if accepted >= 0 then s.readSet + {accepted} else s.readSet;
      s.(readSet := rs, fdMax := if s.fdMax < accepted then accepted else s.fdMax, log := s.log + [Accepted(accepted)])
    else
      var inp := InputOf(inputs, i);
      if inp.n == 0 then s.(readSet := s.readSet - {i}, log := s.log + [Closed(i)])
      else s.(log := s.log + [Echoed(i, inp.n, inp.bytes)])
  }

  /** Lines 95-123 from descriptor i on. The bound is re-read after every
      visit; it can only have grown to the accepted fd. */
  function ScanFrom(s: Sel, cpy: set<Fd>, accepted: Fd, inputs: map<Fd, Input>, i: int): (r: Sel)
    requires 0 <= i
    ensures r.serv == s.serv && r.fdMax >= s.fdMax
    ensures |r.log| >= |s.log| && r.log[..|s.log|] == s.log
    decreases Max(s.fdMax, accepted) + 1 - i
  {
    if i >= s.fdMax + 1 then s
    else ScanFrom(Visit(s, cpy, accepted, inputs, i), cpy, accepted, inputs, i + 1)
  }

  /** One iteration of `while (1)`: the new state, and whether it was the last. */
  function Round(s: Sel, a: Answer): (r: (Sel, bool))
    ensures r.1 <==> a.SelectFailed?
    ensures !a.Ready? ==> r.0 == s
  {
    match a
    case SelectFailed => (s, true)
    case TimedOut => (s, false)
    case Ready(ready, accepted, inputs) => (ScanFrom(s, Snapshot(s, ready), accepted, inputs, 0), false)
  }

  /** The loop over a finite run of select returns; true when a failure ended it. */
  function Serve(s: Sel, answers: seq<Answer>): (r: (Sel, bool))
    ensures r.1 <==> SelectFailed in answers
    decreases |answers|
  {
    if answers == [] then (s, false)
    else
      var r := Round(s, answers[0]);
      if r.1 then r else Serve(r.0, answers[1..])
  }

  /** What the loop keeps: the listener is monitored, and every monitored fd
      is a descriptor no larger than the bound. */
  predicate Inv(s: Sel)
  {
    0 <= s.serv && s.serv in s.readSet &&
    forall fd :: fd in s.readSet ==> 0 <= fd <= s.fdMax
  }

  lemma {:induction false} ScanKeepsInv(s: Sel, cpy: set<Fd>, accepted: Fd, inputs: map<Fd, Input>, i: int)
    requires Inv(s) && 0 <= i
    ensures Inv(ScanFrom(s, cpy, accepted, inputs, i))
    decreases Max(s.fdMax, accepted) + 1 - i
  {
    if i < s.fdMax + 1 {
      ScanKeepsInv(Visit(s, cpy, accepted, inputs, i), cpy, accepted, inputs, i + 1);
    }
  }

  /** Over any run the invariant holds and `fd_max` never decreases, though
      closed descriptors leave `reads`. */
  lemma {:induction false} ServeKeepsInv(s: Sel, answers: seq<Answer>)
    requires Inv(s)
    ensures Inv(Serve(s, answers).0)
    ensures Serve(s, answers).0.fdMax >= s.fdMax
    decreases |answers|
  {
    if answers != [] {
      if answers[0].Ready? {
        var a := answers[0];
        ScanKeepsInv(s, Snapshot(s, a.ready), a.accepted, a.inputs, 0);
        ServeKeepsInv(Round(s, a).0, answers[1..]);
      } else if answers[0].TimedOut? {
        ServeKeepsInv(s, answers[1..]);
      }
    }
  }

  /** The descriptors a run of actions reads from: every action but an accept. */
  function ServedFds(acts: seq<Action>): (r: set<Fd>)
    ensures forall k :: 0 <= k < |acts| && !acts[k].Accepted? ==> acts[k].fd in r
  {
    set k | 0 <= k < |acts| && !acts[k].Accepted? :: acts[k].fd
  }

  lemma ServedFdsAppend(a: seq<Action>, b: seq<Action>)
    ensures ServedFds(a + b) == ServedFds(a) + ServedFds(b)
  {
    var ab := a + b;
    forall fd | fd in ServedFds(ab) ensures fd in ServedFds(a) + ServedFds(b) {
      var k :| 0 <= k < |ab| && !ab[k].Accepted? && ab[k].fd == fd;
      if k >= |a| {
        assert b[k - |a|] == ab[k];
      }
    }
    forall fd | fd in ServedFds(a) + ServedFds(b) ensures fd in ServedFds(ab) {
      if fd in ServedFds(b) {
        var k :| 0 <= k < |b| && !b[k].Accepted? && b[k].fd == fd;
        assert ab[|a| + k] == b[k];
      } else {
        var k :| 0 <= k < |a| && !a[k].Accepted? && a[k].fd == fd;
        assert ab[k] == a[k];
      }
    }
  }

  /** No descriptor is read twice: the reads of a run of actions name
      pairwise different descriptors. */
  predicate DistinctReads(acts: seq<Action>)
  {
    forall j, k :: 0 <= j < k < |acts| && !acts[j].Accepted? && !acts[k].Accepted? ==> acts[j].fd != acts[k].fd
  }

  /** A visit that reads at most descriptor i, before reads of larger descriptors only. */
  lemma DistinctReadsPrepend(step: seq<Action>, rest: seq<Action>, i: int)
    requires |step| <= 1 && (step != [] && !step[0].Accepted? ==> step[0].fd == i)
    requires DistinctReads(rest) && forall fd :: fd in ServedFds(rest) ==> fd > i
    ensures DistinctReads(step + rest)
  {
    var all := step + rest;
    forall j, k | 0 <= j < k < |all| && !all[j].Accepted? && !all[k].Accepted?
      ensures all[j].fd != all[k].fd
    {
      if j < |step| {
        assert all[k] == rest[k - |step|];
        assert all[k].fd in ServedFds(rest);
      } else {
        assert all[j] == rest[j - |step|] && all[k] == rest[k - |step|];
      }
    }
  }

  /** The snapshot's client descriptors at or above i. */
  function Pending(serv: Fd, cpy: set<Fd>, i: int): set<Fd>
  {
    set fd | fd in cpy && fd >= i && fd != serv
  }

  /** One round reads every ready client once — exactly the descriptors of the
      snapshot other than the listener, none of them twice — and never a
      descriptor that was accepted during the round and so was not in the
      snapshot. */
  lemma {:induction false} ScanServesSnapshot(s: Sel, cpy: set<Fd>, accepted: Fd, inputs: map<Fd, Input>, i: int)
    requires 0 <= i && forall fd :: fd in cpy ==> fd <= s.fdMax
    ensures var r := ScanFrom(s, cpy, accepted, inputs, i);
            ServedFds(r.log[|s.log|..]) == Pending(s.serv, cpy, i)
    ensures var r := ScanFrom(s, cpy, accepted, inputs, i);
            DistinctReads(r.log[|s.log|..])
    decreases Max(s.fdMax, accepted) + 1 - i
  {
    var r := ScanFrom(s, cpy, accepted, inputs, i);
    if i >= s.fdMax + 1 {
      assert r.log[|s.log|..] == [];
      assert Pending(s.serv, cpy, i) == {};
    } else {
      var v := Visit(s, cpy, accepted, inputs, i);
      ScanServesSnapshot(v, cpy, accepted, inputs, i + 1);
      var step := v.log[|s.log|..];
      assert v.log == s.log + step;
      assert r.log[..|v.log|] == v.log;
      assert r.log[|s.log|..] == step + r.log[|v.log|..];
      ServedFdsAppend(step, r.log[|v.log|..]);
      assert ServedFds(step) == if i in cpy && i != s.serv then {i} else {} by {
        if i !in cpy {
          assert step == [];
        } else {
          assert step == [v.log[|s.log|]];
          assert ServedFds(step) == if i != s.serv then {step[0].fd} else {};
        }
      }
      assert Pending(s.serv, cpy, i) == (if i in cpy && i != s.serv then {i} else {}) + Pending(s.serv, cpy, i + 1);
      assert |step| <= 1 && (step != [] && !step[0].Accepted? ==> step[0].fd == i) by {
        if i in cpy {
          assert step == [v.log[|s.log|]];
        } else {
          assert step == [];
        }
      }
      DistinctReadsPrepend(step, r.log[|v.log|..], i);
    }
  }

  /** A whole ready round serves precisely the ready clients of the snapshot,
      each of them once. */
  lemma RoundServesReady(s: Sel, ready: set<Fd>, accepted: Fd, inputs: map<Fd, Input>)
    requires Inv(s)
    ensures var r := Round(s, Ready(ready, accepted, inputs)).0;
            ServedFds(r.log[|s.log|..]) == Snapshot(s, ready) - {s.serv}
    ensures var r := Round(s, Ready(ready, accepted, inputs)).0;
            DistinctReads(r.log[|s.log|..])
  {
    var cpy := Snapshot(s, ready);
    ScanServesSnapshot(s, cpy, accepted, inputs, 0);
    assert Pending(s.serv, cpy, 0) == cpy - {s.serv};
  }

  /** The server as a mutable object. */
  class SelectLoop {
    const servSock: Fd
    var readSet: set<Fd>
    var fdMax: int
    var log: seq<Action>

    function State(): Sel
      reads this
    {
      Sel(servSock, readSet, fdMax, log)
    }

    /** Lines 74-80. */
    constructor (serv: Fd)
      requires serv >= 0
      ensures State() == Start(serv)
    {
      servSock := serv;
      readSet := {serv};
      fdMax := serv;
      log := [];
    }

    /** Lines 95-123: the scan over 0..fd_max of the snapshot. */
    method Scan(cpy: set<Fd>, accepted: Fd, inputs: map<Fd, Input>)
      modifies this
      ensures State() == ScanFrom(old(State()), cpy, accepted, inputs, 0)
    {
      var i := 0;
      while i < fdMax + 1
        invariant 0 <= i
        invariant ScanFrom(old(State()), cpy, accepted, inputs, 0) == ScanFrom(State(), cpy, accepted, inputs, i)
        decreases Max(fdMax, accepted) + 1 - i
      {
        if i in cpy {
          if i == servSock {
            var clntSock := accepted;
            if clntSock >= 0 {
              readSet := readSet + {clntSock};
            }
            if fdMax < clntSock {
              fdMax := clntSock;
            }
            log := log + [Accepted(clntSock)];
          } else {
            var strLen := InputOf(inputs, i).n;
            if strLen == 0 {
              readSet := readSet - {i};
              log := log + [Closed(i)];
            } else {
              log := log + [Echoed(i, strLen, InputOf(inputs, i).bytes)];
            }
          }
        }
        i := i + 1;
      }
    }

    /** Lines 82-124 over a finite run of select returns. */
    method Run(answers: seq<Answer>) returns (failed: bool)
      modifies this
      ensures (State(), failed) == Serve(old(State()), answers)
    {
      var k := 0;
      failed := false;
      while k < |answers|
        invariant 0 <= k <= |answers|
        invariant Serve(old(State()), answers) == Serve(State(), answers[k..])
      {
        assert answers[k..][1..] == answers[k + 1..];
        match answers[k] {
          case SelectFailed =>
            failed := true;
            return;
          case TimedOut =>
          case Ready(ready, accepted, inputs) =>
            var cpyReads := Snapshot(State(), ready);
            Scan(cpyReads, accepted, inputs);
        }
        k := k + 1;
      }
    }
  }
}

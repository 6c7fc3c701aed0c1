/** The descriptor hand-off queue of the pre-spawned thread pool server and the
    echo loop its workers run. The mutex and condition variable are modelled
    away: the queue is used sequentially and the wait loop of `pop_fd` becomes
    its precondition `head != tail`. */
module ThreadPool {
  import opened Net

  /** Number of int slots `init_block_queue` allocates, whatever capacity it is given. */
  const QueueSize: int := 100
  /** Size of the worker's echo buffer. */
  const BufSize: int := 30

  /** The index step of `push_fd` and `pop_fd`: increment, and wrap to 0 on
      reaching the capacity. */
  function Advance(i: int, cap: int): (j: int)
    ensures 0 <= i < cap ==> 0 <= j < cap && j == (i + 1) % cap
  {
    if i + 1 >= cap then 0 else i + 1
  }

  /** The queue's data: capacity, the slot array, head and tail. */
  datatype Ring = Ring(cap: int, slots: seq<Fd>, head: int, tail: int)

  /** Indices stay inside the capacity, and the capacity inside the storage. */
  predicate Valid(q: Ring)
  {
    0 < q.cap <= |q.slots| && 0 <= q.head < q.cap && 0 <= q.tail < q.cap
  }

  /** The queue `init_block_queue` builds: QueueSize zeroed slots, head = tail = 0. */
  function Init(cap: int): (q: Ring)
    requires 0 < cap <= QueueSize
    ensures Valid(q) && q.cap == cap && q.head == 0 && q.tail == 0
    ensures |q.slots| == QueueSize && forall k :: 0 <= k < QueueSize ==> q.slots[k] == 0
    ensures Contents(q) == []
  {
    Ring(cap, seq(QueueSize, _ => 0), 0, 0)
  }

  /** Number of pushed and not yet popped descriptors, as head and tail show it. */
  function Count(q: Ring): (n: nat)
    requires Valid(q)
    ensures n < q.cap
    ensures n == (q.tail - q.head) % q.cap
    ensures n == 0 <==> q.head == q.tail
  {
    if q.head <= q.tail then
      ModSmall(q.tail - q.head, q.cap); q.tail - q.head
    else
      ModBelow(q.tail - q.head, q.cap); q.tail + q.cap - q.head
  }

  lemma ModSmall(a: int, m: int)
    requires 0 <= a < m
    ensures a % m == a
  {
  }

  lemma ModBelow(a: int, m: int)
    requires -m <= a < 0
    ensures a % m == a + m
  {
  }

  lemma ModAbove(a: int, m: int)
    requires m <= a < 2 * m
    ensures a % m == a - m
  {
  }

  /** The pending descriptors, oldest first: the slots from head up to tail, circularly. */
  function Contents(q: Ring): (s: seq<Fd>)
    requires Valid(q)
    ensures |s| == Count(q)
  {
    if q.head <= q.tail then q.slots[q.head..q.tail] else q.slots[q.head..q.cap] + q.slots[..q.tail]
  }

  lemma {:induction false} ContentsAt(q: Ring, k: int)
    requires Valid(q) && 0 <= k < Count(q)
    ensures Contents(q)[k] == q.slots[(q.head + k) % q.cap]
  {
    if q.head + k < q.cap {
      ModSmall(q.head + k, q.cap);
    } else {
      ModAbove(q.head + k, q.cap);
    }
  }

  /** `push_fd`: store into slot tail, advance tail. Nothing checks that the queue is full. */
  function Push(q: Ring, fd: Fd): (r: Ring)
    requires Valid(q)
    ensures Valid(r) && r.cap == q.cap && |r.slots| == |q.slots|
    ensures r.head == q.head && r.tail == (q.tail + 1) % q.cap
    ensures r.slots[q.tail] == fd
    ensures forall k :: 0 <= k < |q.slots| && k != q.tail ==> r.slots[k] == q.slots[k]
  {
    q.(slots := q.slots[q.tail := fd], tail := Advance(q.tail, q.cap))
  }

  /** `pop_fd` once its wait loop has seen `head != tail`: take slot head, advance head. */
  function Pop(q: Ring): (res: (Fd, Ring))
    requires Valid(q) && q.head != q.tail
    ensures Valid(res.1) && res.1.cap == q.cap && res.1.slots == q.slots && res.1.tail == q.tail
    ensures res.1.head == (q.head + 1) % q.cap
    ensures res.0 == q.slots[q.head]
  {
    (q.slots[q.head], q.(head := Advance(q.head, q.cap)))
  }

  /** While fewer than cap - 1 descriptors are pending, a push appends to the contents. */
  lemma PushAppends(q: Ring, fd: Fd)
    requires Valid(q) && Count(q) < q.cap - 1
    ensures Contents(Push(q, fd)) == Contents(q) + [fd]
    ensures Count(Push(q, fd)) == Count(q) + 1
  {
    var r := Push(q, fd);
    if q.head <= q.tail {
      if q.tail + 1 < q.cap {
        assert r.slots[q.head..q.tail + 1] == q.slots[q.head..q.tail] + [fd];
      } else {
        assert r.slots[q.head..r.cap] == q.slots[q.head..q.tail] + [fd];
        assert r.slots[..0] == [];
      }
    } else {
      assert r.slots[q.head..q.cap] == q.slots[q.head..q.cap];
      assert r.slots[..q.tail + 1] == q.slots[..q.tail] + [fd];
    }
  }

  /** A pop returns the oldest pending descriptor and removes exactly it. */
  lemma PopTakesOldest(q: Ring)
    requires Valid(q) && q.head != q.tail
    ensures Contents(q) != [] && Pop(q).0 == Contents(q)[0]
    ensures Contents(Pop(q).1) == Contents(q)[1..]
  {
    var r := Pop(q).1;
    if q.head < q.tail {
    } else if q.head + 1 < q.cap {
      assert q.slots[q.head..q.cap][1..] == q.slots[q.head + 1..q.cap];
    } else {
      assert q.slots[q.head..q.cap] == [q.slots[q.head]];
      assert r.slots[0..q.tail] == q.slots[..q.tail];
    }
  }

  /** The unhandled case of `push_fd`: a push made while cap - 1 descriptors are
      pending makes tail catch up with head, so the queue reads as empty and
      every pending descriptor (the new one included) is lost; the following
      push overwrites slot head, which held the oldest of them. */
  lemma PushWhenFullLosesPending(q: Ring, fd: Fd, next: Fd)
    requires Valid(q) && Count(q) == q.cap - 1
    ensures Push(q, fd).head == Push(q, fd).tail
    ensures Contents(Push(q, fd)) == [] && |Contents(q) + [fd]| == q.cap
    ensures Push(Push(q, fd), next).slots[q.head] == next
    ensures q.cap > 1 ==> q.slots[q.head] == Contents(q)[0]
  {
    if q.cap > 1 {
      ContentsAt(q, 0);
      ModSmall(q.head, q.cap);
    }
  }

  /** The corrected push of a bounded queue: it refuses instead of overrunning. */
  function SafePush(q: Ring, fd: Fd): (r: Option<Ring>)
    requires Valid(q)
    ensures r.None? <==> Count(q) == q.cap - 1
    ensures r.Some? ==> Valid(r.value) && Contents(r.value) == Contents(q) + [fd]
  {
    if Count(q) == q.cap - 1 then None else PushAppends(q, fd); Some(Push(q, fd))
  }

  /** One queue call of a sequential trace. */
  datatype Op = PushOp(fd: Fd) | PopOp

  /** Some pop of the trace is made while nothing is pending, where `pop_fd`'s
      wait loop at line 70 would spin forever. */
  predicate PopMeetsEmpty(q: Ring, ops: seq<Op>)
    requires Valid(q)
    decreases |ops|
  {
    ops != [] &&
    match ops[0]
    case PushOp(x) => PopMeetsEmpty(Push(q, x), ops[1..])
    case PopOp => Count(q) == 0 || PopMeetsEmpty(Pop(q).1, ops[1..])
  }

  /** The number of pops in a trace. */
  function Pops(ops: seq<Op>): nat
  {
    if ops == [] then 0 else (if ops[0].PopOp? then 1 else 0) + Pops(ops[1..])
  }

  /** Replays a trace; None when a pop meets an empty queue (it would wait forever
      with no other thread to push). The second component lists the popped fds. */
  function Run(q: Ring, ops: seq<Op>): (res: Option<(Ring, seq<Fd>)>)
    requires Valid(q)
    ensures res.None? <==> PopMeetsEmpty(q, ops)
    ensures res.Some? ==> Valid(res.value.0) && res.value.0.cap == q.cap
    ensures res.Some? ==> |res.value.1| == Pops(ops)
    decreases |ops|
  {
    if ops == [] then Some((q, []))
    else match ops[0]
      case PushOp(x) => Run(Push(q, x), ops[1..])
      case PopOp =>
        if q.head == q.tail then None
        else
          match Run(Pop(q).1, ops[1..])
          case None => None
          case Some(res) => Some((res.0, [Pop(q).0] + res.1))
  }

  /** The descriptors a trace pushes, in order. */
  function Pushed(ops: seq<Op>): seq<Fd>
  {
    if ops == [] then [] else (if ops[0].PushOp? then [ops[0].fd] else []) + Pushed(ops[1..])
  }

  /** No push of the trace is made while cap - 1 descriptors are pending. */
  predicate NoOverflow(q: Ring, ops: seq<Op>)
    requires Valid(q)
    decreases |ops|
  {
    ops == [] ||
    match ops[0]
    case PushOp(x) => Count(q) < q.cap - 1 && NoOverflow(Push(q, x), ops[1..])
    case PopOp => q.head != q.tail ==> NoOverflow(Pop(q).1, ops[1..])
  }

  /** FIFO: without overflow, the popped descriptors followed by those still
      pending are the initially pending ones followed by the pushed ones. */
  lemma {:induction false} RunIsFifo(q: Ring, ops: seq<Op>)
    requires Valid(q) && NoOverflow(q, ops) && Run(q, ops).Some?
    ensures Run(q, ops).value.1 + Contents(Run(q, ops).value.0) == Contents(q) + Pushed(ops)
    decreases |ops|
  {
    if ops != [] {
      var tl := ops[1..];
      if ops[0].PushOp? {
        var x := ops[0].fd;
        RunIsFifo(Push(q, x), tl);
        FifoPushStep(q, x, ops);
      } else {
        RunIsFifo(Pop(q).1, tl);
        FifoPopStep(q, ops);
      }
    }
  }

  lemma FifoPushStep(q: Ring, x: Fd, ops: seq<Op>)
    requires Valid(q) && ops != [] && ops[0] == PushOp(x) && Count(q) < q.cap - 1
    requires Run(q, ops).Some?
    requires Run(Push(q, x), ops[1..]).value.1 + Contents(Run(Push(q, x), ops[1..]).value.0)
             == Contents(Push(q, x)) + Pushed(ops[1..])
    ensures Run(q, ops).value.1 + Contents(Run(q, ops).value.0) == Contents(q) + Pushed(ops)
  {
    assert Pushed(ops) == [x] + Pushed(ops[1..]);
    PushAppends(q, x);
  }

  lemma FifoPopStep(q: Ring, ops: seq<Op>)
    requires Valid(q) && ops != [] && ops[0] == PopOp && q.head != q.tail
    requires Run(q, ops).Some? && Run(Pop(q).1, ops[1..]).Some?
    requires Run(Pop(q).1, ops[1..]).value.1 + Contents(Run(Pop(q).1, ops[1..]).value.0)
             == Contents(Pop(q).1) + Pushed(ops[1..])
    ensures Run(q, ops).value.1 + Contents(Run(q, ops).value.0) == Contents(q) + Pushed(ops)
  {
    var x := Pop(q).0;
    var rest := Run(Pop(q).1, ops[1..]).value;
    assert Run(q, ops).value == (rest.0, [x] + rest.1);
    assert Pushed(ops) == Pushed(ops[1..]);
    PopTakesOldest(q);
    Prepend(x, rest.1, Contents(rest.0), Contents(q), Contents(Pop(q).1), Pushed(ops));
  }

  lemma Prepend<T>(x: T, out: seq<T>, left: seq<T>, whole: seq<T>, tail: seq<T>, later: seq<T>)
    requires whole != [] && whole[0] == x && tail == whole[1..]
    requires out + left == tail + later
    ensures ([x] + out) + left == whole + later
  {
    assert whole == [x] + tail;
    calc {
      ([x] + out) + left;
      [x] + (out + left);
      [x] + (tail + later);
      ([x] + tail) + later;
    }
  }

  /** The tail index after n pushes into a fresh queue of capacity cap. */
  function TailAfter(n: nat, cap: int): int
  {
    if n == 0 then 0 else Advance(TailAfter(n - 1, cap), cap)
  }

  /** Before the first wrap-around, the tail counts the pushes. */
  lemma {:induction false} TailAfterCounts(n: nat, cap: int)
    requires n < cap
    ensures TailAfter(n, cap) == n
  {
    if n > 0 {
      TailAfterCounts(n - 1, cap);
    }
  }

  /** The storage is sized by QueueSize, not by cap: with a capacity above
      QueueSize, the push after QueueSize pushes writes index QueueSize, one past
      the QueueSize slots `calloc` provided. */
  lemma OversizedCapacityOverrunsStorage(cap: int)
    requires cap > QueueSize
    ensures TailAfter(QueueSize, cap) == QueueSize
  {
    TailAfterCounts(QueueSize, cap);
  }

  /** The block_queue struct, updated in place by `push_fd` and `pop_fd`. */
  class BlockQueue {
    var capacity: int
    var fd: array<Fd>
    var head: int
    var tail: int

    ghost predicate Valid()
      reads this
    {
      fd.Length == QueueSize && 0 < capacity <= QueueSize && 0 <= head < capacity && 0 <= tail < capacity
    }

    /** The queue's state as a value. */
    function State(): Ring
      reads this, fd
    {
      Ring(capacity, fd[..], head, tail)
    }

    /** `init_block_queue(queue, cap)`; the allocation is QueueSize slots. */
    constructor (cap: int)
      requires 0 < cap <= QueueSize
      ensures Valid() && fresh(fd) && State() == Init(cap)
    {
      capacity := cap;
      fd := new Fd[QueueSize](_ => 0);
      head := 0;
      tail := 0;
    }

    /** `push_fd(queue, fd)`. */
    method PushFd(x: Fd)
      requires Valid()
      modifies this, fd
      ensures Valid() && fd == old(fd)
      ensures State() == Push(old(State()), x)
    {
      fd[tail] := x;
      tail := tail + 1;
      if tail >= capacity {
        tail := 0;
      }
    }

    /** `pop_fd(queue)`; its wait loop is the precondition `head != tail`. */
    method PopFd() returns (x: Fd)
      requires Valid() && head != tail
      modifies this
      ensures Valid() && fd == old(fd)
      ensures (x, State()) == Pop(old(State()))
    {
      x := fd[head];
      head := head + 1;
      if head >= capacity {
        head := 0;
      }
    }
  }

  /** Number of chunks of exactly BufSize bytes: those whose terminator store
      `buf[str_len] = '\0'` lands one past the end of `buf`. */
  function FullChunks(chunks: seq<seq<byte>>): (n: nat)
    ensures n <= |chunks|
  {
    if chunks == [] then 0
    else FullChunks(chunks[..|chunks| - 1]) + (if |chunks[|chunks| - 1]| == BufSize then 1 else 0)
  }

  /** A single read that fills the buffer overruns it. */
  lemma FullReadOverrunsTerminator(chunk: seq<byte>)
    requires |chunk| == BufSize
    ensures FullChunks([chunk]) == 1
  {
    assert [chunk][..0] == [];
  }

  /** `do_echo(fd)`: read up to BufSize bytes at a time and write back what was
      read until a read returns 0 (`last == 0`) or -1 (`last == -1`), then
      close once. `chunks` are the positive reads in order. The out-of-bounds
      terminator store is not performed; it is counted in `overruns`. */
  method DoEcho(chunks: seq<seq<byte>>, last: int) returns (writes: seq<seq<byte>>, overruns: nat, closes: nat, readError: bool)
    requires forall k :: 0 <= k < |chunks| ==> 0 < |chunks[k]| <= BufSize
    requires last == 0 || last == -1
    ensures writes == chunks
    ensures overruns == FullChunks(chunks)
    ensures closes == 1
    ensures readError <==> last < 0
  {
    var buf := new byte[BufSize];
    writes, overruns, closes := [], 0, 0;
    var i := 0;
    var strLen := if i < |chunks| then |chunks[i]| else last;
    while strLen > 0
      invariant 0 <= i <= |chunks|
      invariant strLen == if i < |chunks| then |chunks[i]| else last
      invariant writes == chunks[..i]
      invariant overruns == FullChunks(chunks[..i])
      decreases |chunks| - i
    {
      forall j | 0 <= j < strLen {
        buf[j] := chunks[i][j];
      }
      if strLen < BufSize {
        buf[strLen] := 0;
      } else {
        overruns := overruns + 1;
      }
      assert buf[..strLen] == chunks[i];
      writes := writes + [buf[..strLen]];
      assert chunks[..i + 1][..i] == chunks[..i];
      i := i + 1;
      strLen := if i < |chunks| then |chunks[i]| else last;
    }
    assert chunks[..i] == chunks;
    readError := strLen < 0;
    closes := closes + 1;
  }
}

/** The calculator server: it serves five clients one after the other. For
    each it reads a count byte, that many 4-byte operands into the `opinfo`
    buffer and an operator byte, computes the result with `calculate`, and
    writes it back as a 4-byte int. `opinfo` and `operator` live across
    clients and are never cleared. Each client is given as the bytes it sends
    before closing; a read returns as many of the requested bytes as remain. */
module OpServer {
  import opened Net
  import Int32
  import OpClient

  /** Size of `opinfo`. */
  const BufSize: int := 1024
  /** Size of one operand. */
  const OpSz: int := 4
  /** Number of clients served before the server closes. */
  const Clients: int := 5
  /** The operator characters. */
  const Plus: byte := 43   // '+'
  const Minus: byte := 45  // '-'
  const Times: byte := 42  // '*'

  function Min(a: int, b: int): int
  {
    if a < b then a else b
  }

  /** `read(fd, &buf[off], n)` on a stream with `stream` left: the bytes it
      copies land at off, the rest of the buffer is untouched. */
  function ReadAt(buf: seq<byte>, off: int, n: nat, stream: seq<byte>): (r: (seq<byte>, seq<byte>))
    requires 0 <= off && off + n <= |buf|
    ensures var k := Min(n, |stream|);
            |r.0| == |buf| && r.0[off..off + k] == stream[..k] &&
            r.0[..off] == buf[..off] && r.0[off + k..] == buf[off + k..] &&
            r.1 == stream[k..]
  {
    var k := Min(n, |stream|);
    (buf[..off] + stream[..k] + buf[off + k..], stream[k..])
  }

  /** Lines 68-71 from operand i on: operand i is read into offset i*4. */
  function FillFrom(buf: seq<byte>, stream: seq<byte>, i: nat, cnt: int): (r: (seq<byte>, seq<byte>))
    requires cnt * OpSz <= |buf|
    ensures |r.0| == |buf|
    decreases cnt - i
  {
    if i >= cnt then (buf, stream)
    else
      var step := ReadAt(buf, i * OpSz, OpSz, stream);
      FillFrom(step.0, step.1, i + 1, cnt)
  }

  /** What the server holds after reading a client's request. */
  datatype Received = Received(opinfo: seq<byte>, opndCnt: int, operator: byte)

  /** Lines 66-72. The count is one byte read into a zeroed int, and is 0 when
      the stream is empty; `operator` keeps its previous value when no byte is
      left for it. */
  function Receive(opinfo: seq<byte>, operator: byte, stream: seq<byte>): (r: Received)
    requires |opinfo| == BufSize
    ensures 0 <= r.opndCnt <= 255 && |r.opinfo| == BufSize
    ensures stream == [] ==> r == Received(opinfo, 0, operator)
  {
    var cnt := if |stream| >= 1 then stream[0] as int else 0;
    var rest := if |stream| >= 1 then stream[1..] else [];
    var filled := FillFrom(opinfo, rest, 0, cnt);
    var op := if |filled.1| >= 1 then filled.1[0] else operator;
    Received(filled.0, cnt, op)
  }

  /** The operand count fits the buffer: 255 operands end at byte 1020. */
  lemma OperandsFitBuffer(cnt: int)
    requires 0 <= cnt <= 255
    ensures cnt * OpSz <= BufSize && BufSize / OpSz == 256
  {
  }

  /** The ints `(int *)opinfo` holds. */
  function OperandsOf(opinfo: seq<byte>): (xs: seq<int>)
    requires |opinfo| == BufSize
    ensures |xs| == BufSize / OpSz
    ensures forall i :: 0 <= i < |xs| ==> xs[i] == Int32.Decode(opinfo[OpSz * i..OpSz * i + OpSz])
  {
    seq(BufSize / OpSz, i requires 0 <= i < BufSize / OpSz => Int32.Decode(opinfo[OpSz * i..OpSz * i + OpSz]))
  }

  /** Reading the operand bytes of a request puts operand j at offset j*4
      and leaves what follows the operands in the stream. */
  lemma {:induction false} FillFromRequest(buf: seq<byte>, operands: seq<int>, tail: seq<byte>, i: nat)
    requires |buf| == BufSize && |operands| <= 255 && OpClient.AllInt32(operands) && i <= |operands|
    requires forall j :: 0 <= j < i ==> buf[OpSz * j..OpSz * j + OpSz] == Int32.Encode(operands[j])
    ensures var b := OpClient.OperandBytes(operands);
            var r := FillFrom(buf, b[OpSz * i..] + tail, i, |operands|);
            r.1 == tail &&
            forall j :: 0 <= j < |operands| ==> r.0[OpSz * j..OpSz * j + OpSz] == Int32.Encode(operands[j])
    decreases |operands| - i
  {
    var b := OpClient.OperandBytes(operands);
    var stream := b[OpSz * i..] + tail;
    if i < |operands| {
      var step := ReadAt(buf, i * OpSz, OpSz, stream);
      assert stream[..OpSz] == b[OpSz * i..OpSz * i + OpSz];
      assert step.1 == b[OpSz * (i + 1)..] + tail;
      forall j | 0 <= j < i + 1
        ensures step.0[OpSz * j..OpSz * j + OpSz] == Int32.Encode(operands[j])
      {
        if j < i {
          assert step.0[OpSz * j..OpSz * j + OpSz] == step.0[..i * OpSz][OpSz * j..OpSz * j + OpSz];
          assert buf[OpSz * j..OpSz * j + OpSz] == buf[..i * OpSz][OpSz * j..OpSz * j + OpSz];
        }
      }
      FillFromRequest(step.0, operands, tail, i + 1);
    } else {
      assert b[OpSz * i..] == [];
    }
  }

  /** Round trip: the server recovers the client's count, operands in order
      and operator from the client's message, whatever its buffer held. */
  lemma ReceiveRequest(opinfo: seq<byte>, previous: byte, operands: seq<int>, operator: byte)
    requires |opinfo| == BufSize && |operands| <= 255 && OpClient.AllInt32(operands)
    ensures var r := Receive(opinfo, previous, OpClient.Request(operands, operator));
            r.opndCnt == |operands| && r.operator == operator &&
            OperandsOf(r.opinfo)[..|operands|] == operands
  {
    var m := OpClient.Request(operands, operator);
    var b := OpClient.OperandBytes(operands);
    assert m[1..] == b[OpSz * 0..] + [operator];
    FillFromRequest(opinfo, operands, [operator], 0);
    var r := Receive(opinfo, previous, m);
    forall j | 0 <= j < |operands| ensures OperandsOf(r.opinfo)[j] == operands[j] {
      Int32.DecodeEncode(operands[j]);
    }
  }

  /** An empty request (count 0) leaves the operands alone: the result is
      computed from whatever an earlier client left at the start of the buffer. */
  lemma EmptyRequestKeepsBuffer(opinfo: seq<byte>, previous: byte, operator: byte)
    requires |opinfo| == BufSize
    ensures var r := Receive(opinfo, previous, [0, operator]);
            r == Received(opinfo, 0, operator)
  {
  }

  function Sum(xs: seq<int>): int
    decreases |xs|
  {
    if xs == [] then 0 else Sum(xs[..|xs| - 1]) + xs[|xs| - 1]
  }

  function Product(xs: seq<int>): int
    decreases |xs|
  {
    if xs == [] then 1 else Product(xs[..|xs| - 1]) * xs[|xs| - 1]
  }

  lemma {:induction false} SumCons(x: int, xs: seq<int>)
    ensures Sum([x] + xs) == x + Sum(xs)
    decreases |xs|
  {
    if xs != [] {
      assert ([x] + xs)[..|xs|] == [x] + xs[..|xs| - 1];
      SumCons(x, xs[..|xs| - 1]);
    }
  }

  lemma {:induction false} ProductCons(x: int, xs: seq<int>)
    ensures Product([x] + xs) == x * Product(xs)
    decreases |xs|
  {
    if xs != [] {
      assert ([x] + xs)[..|xs|] == [x] + xs[..|xs| - 1];
      ProductCons(x, xs[..|xs| - 1]);
    }
  }

  /** `calculate`: `opnds[0]` combined with operands 1 to opnum-1 by the
      operator, or -1 for an unknown operator. */
  function CalcSpec(opnum: int, opnds: seq<int>, operator: byte): int
    requires 1 <= |opnds| && opnum <= |opnds|
  {
    var rest := if opnum <= 1 then [] else opnds[1..opnum];
    if operator == Plus then opnds[0] + Sum(rest)
    else if operator == Minus then opnds[0] - Sum(rest)
    else if operator == Times then opnds[0] * Product(rest)
    else -1
  }

  /** '+' adds all opnum operands; '*' multiplies them; '-' subtracts the
      others from the first. */
  lemma CalcFolds(opnum: int, opnds: seq<int>)
    requires 1 <= opnum <= |opnds|
    ensures CalcSpec(opnum, opnds, Plus) == Sum(opnds[..opnum])
    ensures CalcSpec(opnum, opnds, Times) == Product(opnds[..opnum])
    ensures CalcSpec(opnum, opnds, Minus) == opnds[0] - (Sum(opnds[..opnum]) - opnds[0])
  {
    assert opnds[..opnum] == [opnds[0]] + opnds[1..opnum];
    SumCons(opnds[0], opnds[1..opnum]);
    ProductCons(opnds[0], opnds[1..opnum]);
  }

  /** With one operand (or none, when `opnds[0]` is stale) the three operators
      return `opnds[0]`; any other operator returns -1. */
  lemma CalcDegenerate(opnum: int, opnds: seq<int>, operator: byte)
    requires opnum <= 1 <= |opnds|
    ensures operator in {Plus, Minus, Times} ==> CalcSpec(opnum, opnds, operator) == opnds[0]
    ensures operator !in {Plus, Minus, Times} ==> CalcSpec(opnum, opnds, operator) == -1
  {
  }

  /** Lines 84-107 with mathematical ints. */
  method Calculate(opnum: int, opnds: seq<int>, operator: byte) returns (result: int)
    requires 1 <= |opnds| && opnum <= |opnds|
    ensures result == CalcSpec(opnum, opnds, operator)
  {
    result := opnds[0];
    var i := 1;
    if operator == Plus {
      while i < opnum
        invariant 1 <= i && (i <= opnum || i == 1)
        invariant result == opnds[0] + Sum(opnds[1..i])
      {
        assert opnds[1..i + 1][..i - 1] == opnds[1..i];
        result := result + opnds[i];
        i := i + 1;
      }
    } else if operator == Minus {
      while i < opnum
        invariant 1 <= i && (i <= opnum || i == 1)
        invariant result == opnds[0] - Sum(opnds[1..i])
      {
        assert opnds[1..i + 1][..i - 1] == opnds[1..i];
        result := result - opnds[i];
        i := i + 1;
      }
    } else if operator == Times {
      while i < opnum
        invariant 1 <= i && (i <= opnum || i == 1)
        invariant result == opnds[0] * Product(opnds[1..i])
      {
        assert opnds[1..i + 1][..i - 1] == opnds[1..i];
        result := result * opnds[i];
        i := i + 1;
      }
    } else {
      result := -1;
    }
  }

  /** What the server writes for a request: the result as a 4-byte int,
      wrapped to 32 bits. */
  function Reply(r: Received): (b: seq<byte>)
    requires |r.opinfo| == BufSize && r.opndCnt <= 255
    ensures |b| == 4
    ensures Int32.Decode(b) == Int32.Wrap(CalcSpec(r.opndCnt, OperandsOf(r.opinfo), r.operator))
  {
    var x := Int32.Wrap(CalcSpec(r.opndCnt, OperandsOf(r.opinfo), r.operator));
    Int32.DecodeEncode(x);
    Int32.Encode(x)
  }

  /** End to end: a client asking for the sum of its operands gets the sum
      back (as 32-bit wrap-around gives it), whatever earlier clients left. */
  lemma SumRequestIsAnswered(opinfo: seq<byte>, previous: byte, operands: seq<int>)
    requires |opinfo| == BufSize && 1 <= |operands| <= 255 && OpClient.AllInt32(operands)
    ensures Int32.Decode(Reply(Receive(opinfo, previous, OpClient.Request(operands, Plus)))) == Int32.Wrap(Sum(operands))
  {
    var r := Receive(opinfo, previous, OpClient.Request(operands, Plus));
    ReceiveRequest(opinfo, previous, operands, Plus);
    CalcFolds(|operands|, OperandsOf(r.opinfo));
    Int32.DecodeEncode(Int32.Wrap(CalcSpec(r.opndCnt, OperandsOf(r.opinfo), r.operator)));
  }

  /** One accepted client: its socket and the bytes it sends. */
  datatype Client = Client(sock: Fd, stream: seq<byte>)

  /** Lines 58-78 from client k on: the replies written, and whether a failed
      `accept` made `error_handling` exit. */
  function ServeFrom(opinfo: seq<byte>, operator: byte, clients: seq<Client>, k: nat): (r: (seq<(Fd, seq<byte>)>, bool))
    requires |opinfo| == BufSize && |clients| == Clients && k <= Clients
    ensures |r.0| <= Clients - k
    ensures !r.1 ==> |r.0| == Clients - k
    ensures forall j :: 0 <= j < |r.0| ==> |r.0[j].1| == 4 && r.0[j].0 == clients[k + j].sock
    decreases Clients - k
  {
    if k == Clients then ([], false)
    else if clients[k].sock == -1 then ([], true)
    else
      var rcv := Receive(opinfo, operator, clients[k].stream);
      var rest := ServeFrom(rcv.opinfo, rcv.operator, clients, k + 1);
      ([(clients[k].sock, Reply(rcv))] + rest.0, rest.1)
  }

  /** The outcome of a run whose first replies are `done`. */
  function Continue(done: seq<(Fd, seq<byte>)>, rest: (seq<(Fd, seq<byte>)>, bool)): (seq<(Fd, seq<byte>)>, bool)
  {
    (done + rest.0, rest.1)
  }

  lemma ContinueStep(done: seq<(Fd, seq<byte>)>, reply: (Fd, seq<byte>), rest: (seq<(Fd, seq<byte>)>, bool))
    ensures Continue(done, ([reply] + rest.0, rest.1)) == Continue(done + [reply], rest)
  {
    assert done + ([reply] + rest.0) == (done + [reply]) + rest.0;
  }

  /** Serving an accepted client: its reply, then the remaining clients from
      the state its request left behind. */
  lemma ServeStep(opinfo: seq<byte>, operator: byte, clients: seq<Client>, k: nat)
    requires |opinfo| == BufSize && |clients| == Clients && k < Clients && clients[k].sock != -1
    ensures var rcv := Receive(opinfo, operator, clients[k].stream);
            var rest := ServeFrom(rcv.opinfo, rcv.operator, clients, k + 1);
            ServeFrom(opinfo, operator, clients, k) == ([(clients[k].sock, Reply(rcv))] + rest.0, rest.1)
  {
  }

  /** The server's persistent buffer and operator, updated in place. */
  class CalcServer {
    const opinfo: array<byte>
    var operator: byte

    ghost predicate Valid()
      reads this
    {
      opinfo.Length == BufSize
    }

    /** `garbage` stands for the uninitialised contents of `opinfo` and `operator`. */
    constructor (garbage: seq<byte>, op: byte)
      requires |garbage| == BufSize
      ensures Valid() && opinfo[..] == garbage && operator == op
    {
      opinfo := new byte[BufSize](i requires 0 <= i < BufSize => garbage[i]);
      operator := op;
    }

    /** `read(clnt_sock, &opinfo[off], n)`. */
    method ReadInto(off: int, n: nat, stream: seq<byte>) returns (left: seq<byte>)
      requires Valid() && 0 <= off && off + n <= BufSize
      modifies opinfo
      ensures (opinfo[..], left) == ReadAt(old(opinfo[..]), off, n, stream)
    {
      var k := Min(n, |stream|);
      for j := 0 to k
        invariant opinfo[..off] == old(opinfo[..off]) && opinfo[off + k..] == old(opinfo[off + k..])
        invariant opinfo[off..off + j] == stream[..j]
        invariant opinfo[off + j..off + k] == old(opinfo[off + j..off + k])
      {
        opinfo[off + j] := stream[j];
        assert opinfo[off..off + j + 1] == opinfo[off..off + j] + [stream[j]];
      }
      left := stream[k..];
      assert opinfo[..] == opinfo[..off] + opinfo[off..off + k] + opinfo[off + k..];
    }

    /** Lines 66-72. */
    method ReceiveFrom(stream: seq<byte>) returns (opndCnt: int)
      requires Valid()
      modifies opinfo, this
      ensures Receive(old(opinfo[..]), old(operator), stream) == Received(opinfo[..], opndCnt, operator)
    {
      opndCnt := 0;
      var rest := stream;
      if |rest| >= 1 {
        opndCnt := rest[0] as int;
        rest := rest[1..];
      }
      ghost var total := FillFrom(opinfo[..], rest, 0, opndCnt);
      for i := 0 to opndCnt
        invariant FillFrom(opinfo[..], rest, i, opndCnt) == total
        invariant operator == old(operator)
      {
        rest := ReadInto(i * OpSz, OpSz, rest);
      }
      assert total == (opinfo[..], rest);
      if |rest| >= 1 {
        operator := rest[0];
      }
    }

    /** Lines 66-77 for one accepted client: read the request, compute,
        and reply. */
    method ServeOne(stream: seq<byte>) returns (reply: seq<byte>)
      requires Valid()
      modifies opinfo, this
      ensures var rcv := Receive(old(opinfo[..]), old(operator), stream);
              rcv == Received(opinfo[..], rcv.opndCnt, operator) && reply == Reply(rcv)
    {
      var opndCnt := ReceiveFrom(stream);
      var result := Calculate(opndCnt, OperandsOf(opinfo[..]), operator);
      reply := Int32.Encode(Int32.Wrap(result));
    }

    /** Lines 58-78: five clients, each answered and closed; a failed accept exits. */
    method ServeClients(clients: seq<Client>) returns (replies: seq<(Fd, seq<byte>)>, exited: bool)
      requires Valid() && |clients| == Clients
      modifies opinfo, this
      ensures (replies, exited) == ServeFrom(old(opinfo[..]), old(operator), clients, 0)
    {
      replies := [];
      exited := false;
      var k := 0;
      ghost var total := ServeFrom(opinfo[..], operator, clients, 0);
      assert replies + total.0 == total.0;
      while k < Clients
        invariant 0 <= k <= Clients && Valid()
        invariant total == Continue(replies, ServeFrom(opinfo[..], operator, clients, k))
      {
        var clntSock := clients[k].sock;
        if clntSock == -1 {
          assert replies + [] == replies;
          exited := true;
          return;
        }
        ServeStep(opinfo[..], operator, clients, k);
        var reply := ServeOne(clients[k].stream);
        ContinueStep(replies, (clntSock, reply), ServeFrom(opinfo[..], operator, clients, k + 1));
        replies := replies + [(clntSock, reply)];
        k := k + 1;
      }
      assert replies + [] == replies;
    }
  }
}

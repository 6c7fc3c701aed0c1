/** The fixed echo client: per input line it sends the line, then reads
    until it has received at least as many bytes as it sent, each read landing
    after the bytes already received and bounded by the space left in
    `message`. The server's answers are given as the results of the reads. */
module EchoClientFixed {
  import opened Net

  /** Size of `message`. */
  const BufSize: int := 1024
  const Newline: byte := 10
  const LowerQ: byte := 113  // 'q'
  const UpperQ: byte := 81   // 'Q'

  /** Lines 49-50: the line that ends the session. */
  predicate IsQuit(line: seq<byte>)
  {
    line == [LowerQ, Newline] || line == [UpperQ, Newline]
  }

  /** What the kernel may return to the reads of one echo, with recvLen bytes
      already in the buffer: each read delivers at most BUF_SIZE - recv_len. */
  predicate ValidReads(chunks: seq<Input>, recvLen: int)
    decreases |chunks|
  {
    0 <= recvLen <= BufSize &&
    (chunks != [] ==>
      ValidInput(chunks[0], BufSize - recvLen) &&
      (chunks[0].n >= 0 ==> ValidReads(chunks[1..], recvLen + chunks[0].n)))
  }

  /** How receiving one echo ends: the loop's condition fails with `recv_len`
      bytes received, a read returns -1 (error_handling exits), or the
      given reads run out with the loop still waiting. */
  datatype Echo =
    | Received(recvLen: int, data: seq<byte>)
    | ReadError
    | Waiting(recvLen: int)

  function Prepend(b: seq<byte>, e: Echo): Echo
  {
    if e.Received? then Received(e.recvLen, b + e.data) else e
  }

  lemma PrependTwice(a: seq<byte>, b: seq<byte>, e: Echo)
    ensures Prepend(a, Prepend(b, e)) == Prepend(a + b, e)
  {
    if e.Received? {
      assert a + (b + e.data) == (a + b) + e.data;
    }
  }

  /** Lines 53-63 from `recv_len` = recvLen on: read while fewer than strLen
      bytes have arrived. */
  function Collect(strLen: int, recvLen: int, chunks: seq<Input>): (e: Echo)
    ensures recvLen >= strLen ==> e == Received(recvLen, [])
    ensures e.Received? ==> e.recvLen >= strLen
    ensures e.Waiting? ==> e.recvLen < strLen
    ensures e.ReadError? ==> recvLen < strLen && exists k :: 0 <= k < |chunks| && chunks[k].n == -1
    decreases |chunks|
  {
    if recvLen >= strLen then Received(recvLen, [])
    else if chunks == [] then Waiting(recvLen)
    else if chunks[0].n == -1 then ReadError
    else Prepend(chunks[0].bytes, Collect(strLen, recvLen + chunks[0].n, chunks[1..]))
  }

  /** All bytes the reads deliver, in order. */
  function Stream(chunks: seq<Input>): seq<byte>
    decreases |chunks|
  {
    if chunks == [] then [] else chunks[0].bytes + Stream(chunks[1..])
  }

  /** When the loop ends normally, `recv_len` has reached strLen, has not
      passed the buffer, counts exactly the bytes received, and those bytes
      are the start of what the server sent. */
  lemma {:induction false} CollectBounds(strLen: int, recvLen: int, chunks: seq<Input>)
    requires ValidReads(chunks, recvLen)
    ensures var e := Collect(strLen, recvLen, chunks);
            e.Received? ==>
              strLen <= e.recvLen <= BufSize && |e.data| == e.recvLen - recvLen &&
              |e.data| <= |Stream(chunks)| && e.data == Stream(chunks)[..|e.data|]
    decreases |chunks|
  {
    if recvLen < strLen && chunks != [] && chunks[0].n != -1 {
      var c := chunks[0];
      CollectBounds(strLen, recvLen + c.n, chunks[1..]);
      var rest := Collect(strLen, recvLen + c.n, chunks[1..]);
      if rest.Received? {
        var tail := Stream(chunks[1..]);
        assert Stream(chunks) == c.bytes + tail;
        assert rest.data == tail[..|rest.data|];
        assert (c.bytes + rest.data) == (c.bytes + tail)[..|c.bytes| + |rest.data|];
      }
    }
  }

  /** The guard is `<`, not `!=`: a read that delivers more than the bytes
      still missing ends the loop as well. */
  lemma OvershootEndsLoop(strLen: int, recvLen: int, chunks: seq<Input>)
    requires recvLen < strLen && chunks != [] && chunks[0].n > strLen - recvLen
    ensures Collect(strLen, recvLen, chunks) == Received(recvLen + chunks[0].n, chunks[0].bytes)
  {
    assert chunks[0].bytes + [] == chunks[0].bytes;
  }

  /** End of stream is not an exit: however many reads return 0, the loop is
      still waiting with the same `recv_len`. */
  lemma {:induction false} EndOfStreamNeverEnds(strLen: int, recvLen: int, m: nat)
    requires recvLen < strLen
    ensures Collect(strLen, recvLen, seq(m, _ => Input(0, []))) == Waiting(recvLen)
    decreases m
  {
    if m > 0 {
      var zeros := seq(m, _ => Input(0, []));
      assert zeros[1..] == seq(m - 1, _ => Input(0, []));
      EndOfStreamNeverEnds(strLen, recvLen, m - 1);
    }
  }

  /** Lines 53-64 for one line of strLen bytes already in `message`: receive
      into `message` in place, then terminate it at strLen. */
  method ReceiveEcho(message: array<byte>, strLen: int, chunks: seq<Input>) returns (e: Echo)
    requires message.Length == BufSize && 0 <= strLen < BufSize && ValidReads(chunks, 0)
    modifies message
    ensures e == Collect(strLen, 0, chunks)
    ensures e.Received? ==> strLen <= |e.data| && message[..strLen] == e.data[..strLen] && message[strLen] == 0
  {
    CollectBounds(strLen, 0, chunks);
    var recvLen := 0;
    var k := 0;
    ghost var got: seq<byte> := [];
    while recvLen < strLen
      invariant 0 <= k <= |chunks| && 0 <= recvLen <= BufSize && |got| == recvLen
      invariant ValidReads(chunks[k..], recvLen)
      invariant message[..recvLen] == got
      invariant Collect(strLen, 0, chunks) == Prepend(got, Collect(strLen, recvLen, chunks[k..]))
      decreases |chunks| - k
    {
      if k == |chunks| {
        assert chunks[k..] == [];
        return Waiting(recvLen);
      }
      var c := chunks[k];
      assert chunks[k..][0] == c && chunks[k..][1..] == chunks[k + 1..];
      var recvCnt := c.n;
      if recvCnt == -1 {
        assert Collect(strLen, recvLen, chunks[k..]) == ReadError;
        return ReadError;
      }
      forall j | 0 <= j < recvCnt {
        message[recvLen + j] := c.bytes[j];
      }
      assert message[..recvLen + recvCnt] == got + c.bytes;
      PrependTwice(got, c.bytes, Collect(strLen, recvLen + recvCnt, chunks[k + 1..]));
      got := got + c.bytes;
      recvLen := recvLen + recvCnt;
      k := k + 1;
    }
    assert got + [] == got;
    e := Received(recvLen, message[..recvLen]);
    message[strLen] := 0;
  }

  /** How a session ends: a quit line, the end of the given input, a read
      error, or an echo still waiting for bytes. */
  datatype End = Quit | InputEnded | Failed | Stalled

  /** Lines 44-66: per line, what was sent and what was printed back. */
  function SessionSpec(lines: seq<seq<byte>>, answers: seq<seq<Input>>): (r: (seq<seq<byte>>, seq<seq<byte>>, End))
    requires |answers| == |lines|
    requires forall i :: 0 <= i < |lines| ==> |lines[i]| < BufSize
    ensures |r.0| <= |lines| && forall k :: 0 <= k < |r.0| ==> r.0[k] == lines[k] && !IsQuit(lines[k])
    ensures r.2 == Quit ==> |r.0| < |lines| && IsQuit(lines[|r.0|])
    ensures |r.1| <= |r.0|
    ensures r.2 == InputEnded ==> r.0 == lines && |r.1| == |lines|
    ensures r.2 == Quit ==> |r.1| == |r.0|
    ensures (r.2 == Failed || r.2 == Stalled) ==> |r.0| >= 1 && |r.1| == |r.0| - 1
    decreases |lines|
  {
    if lines == [] then ([], [], InputEnded)
    else if IsQuit(lines[0]) then ([], [], Quit)
    else
      var e := Collect(|lines[0]|, 0, answers[0]);
      if e.ReadError? then ([lines[0]], [], Failed)
      else if e.Waiting? || |e.data| < |lines[0]| then ([lines[0]], [], Stalled)
      else
        var rest := SessionSpec(lines[1..], answers[1..]);
        ([lines[0]] + rest.0, [e.data[..|lines[0]|]] + rest.1, rest.2)
  }

  /** A session that starts with a quit line sends nothing and prints nothing. */
  lemma QuitSendsNothing(lines: seq<seq<byte>>, answers: seq<seq<Input>>)
    requires |answers| == |lines| && forall i :: 0 <= i < |lines| ==> |lines[i]| < BufSize
    requires lines != [] && IsQuit(lines[0])
    ensures SessionSpec(lines, answers) == ([], [], Quit)
  {
  }

  /** With reads the kernel can return, each printed reply is the first
      `str_len` bytes the server sent back for that line. */
  lemma {:induction false} ShownIsEcho(lines: seq<seq<byte>>, answers: seq<seq<Input>>)
    requires |answers| == |lines| && forall i :: 0 <= i < |lines| ==> |lines[i]| < BufSize
    requires forall i :: 0 <= i < |answers| ==> ValidReads(answers[i], 0)
    ensures var r := SessionSpec(lines, answers);
            forall k :: 0 <= k < |r.1| ==>
              |Stream(answers[k])| >= |lines[k]| && r.1[k] == Stream(answers[k])[..|lines[k]|]
    decreases |lines|
  {
    if lines != [] && !IsQuit(lines[0]) {
      var e := Collect(|lines[0]|, 0, answers[0]);
      CollectBounds(|lines[0]|, 0, answers[0]);
      if e.Received? && |e.data| >= |lines[0]| {
        ShownIsEcho(lines[1..], answers[1..]);
        var r := SessionSpec(lines, answers);
        var rest := SessionSpec(lines[1..], answers[1..]);
        forall k | 0 <= k < |r.1|
          ensures |Stream(answers[k])| >= |lines[k]| && r.1[k] == Stream(answers[k])[..|lines[k]|]
        {
          if k > 0 {
            assert r.1[k] == rest.1[k - 1];
          } else {
            assert r.1[0] == e.data[..|lines[0]|];
          }
        }
      }
    }
  }

  /** A session whose first lines produced `sent` and `shown`, continued by r. */
  function Join(sent: seq<seq<byte>>, shown: seq<seq<byte>>, r: (seq<seq<byte>>, seq<seq<byte>>, End)): (seq<seq<byte>>, seq<seq<byte>>, End)
  {
    (sent + r.0, shown + r.1, r.2)
  }

  lemma JoinStep(sent: seq<seq<byte>>, shown: seq<seq<byte>>, line: seq<byte>, out: seq<byte>, r: (seq<seq<byte>>, seq<seq<byte>>, End))
    ensures Join(sent, shown, ([line] + r.0, [out] + r.1, r.2)) == Join(sent + [line], shown + [out], r)
  {
    assert sent + ([line] + r.0) == (sent + [line]) + r.0;
    assert shown + ([out] + r.1) == (shown + [out]) + r.1;
  }

  lemma JoinEnd(sent: seq<seq<byte>>, shown: seq<seq<byte>>, end: End)
    ensures Join(sent, shown, ([], [], end)) == (sent, shown, end)
  {
    assert sent + [] == sent && shown + [] == shown;
  }

  /** Lines 51-64 for one line: copy it into `message`, send it, and receive
      its echo. */
  method EchoLine(message: array<byte>, line: seq<byte>, chunks: seq<Input>) returns (e: Echo, out: seq<byte>)
    requires message.Length == BufSize && |line| < BufSize && ValidReads(chunks, 0)
    modifies message
    ensures e == Collect(|line|, 0, chunks)
    ensures e.Received? ==> |line| <= |e.data| && out == e.data[..|line|]
  {
    forall j | 0 <= j < |line| {
      message[j] := line[j];
    }
    var strLen := |line|;
    e := ReceiveEcho(message, strLen, chunks);
    out := message[..strLen];
  }

  /** The client loop, with `message` reused for every line. */
  method Session(lines: seq<seq<byte>>, answers: seq<seq<Input>>) returns (sent: seq<seq<byte>>, shown: seq<seq<byte>>, end: End)
    requires |answers| == |lines| && forall i :: 0 <= i < |lines| ==> |lines[i]| < BufSize
    requires forall i :: 0 <= i < |answers| ==> ValidReads(answers[i], 0)
    ensures (sent, shown, end) == SessionSpec(lines, answers)
  {
    var message := new byte[BufSize];
    sent, shown := [], [];
    var i := 0;
    assert lines[0..] == lines && answers[0..] == answers;
    ghost var whole := SessionSpec(lines, answers);
    assert [] + whole.0 == whole.0 && [] + whole.1 == whole.1;
    while i < |lines|
      invariant 0 <= i <= |lines|
      invariant SessionSpec(lines, answers) == Join(sent, shown, SessionSpec(lines[i..], answers[i..]))
    {
      var line := lines[i];
      assert lines[i..][0] == line && lines[i..][1..] == lines[i + 1..];
      assert answers[i..][0] == answers[i] && answers[i..][1..] == answers[i + 1..];
      if IsQuit(line) {
        JoinEnd(sent, shown, Quit);
        return sent, shown, Quit;
      }
      var e, out := EchoLine(message, line, answers[i]);
      if e.ReadError? {
        assert shown + [] == shown;
        return sent + [line], shown, Failed;
      }
      if e.Waiting? {
        assert shown + [] == shown;
        return sent + [line], shown, Stalled;
      }
      JoinStep(sent, shown, line, out, SessionSpec(lines[i + 1..], answers[i + 1..]));
      sent, shown := sent + [line], shown + [out];
      i := i + 1;
    }
    JoinEnd(sent, shown, InputEnded);
    end := InputEnded;
  }
}

/** The calculator client's request: a count byte, the operands as 4-byte
    ints, and an operator byte, laid out in the `opmsg` buffer and sent with
    one write. */
module OpClient {
  import opened Net
  import Int32

  /** Size of `opmsg`. */
  const BufSize: int := 1024
  /** Size of the result the client reads back. */
  const RltSize: int := 4
  /** Size of one operand. */
  const OpSz: int := 4

  predicate AllInt32(xs: seq<int>)
  {
    forall i :: 0 <= i < |xs| ==> Int32.IsInt32(xs[i])
  }

  /** The operands' bytes, one after the other. */
  function OperandBytes(xs: seq<int>): (b: seq<byte>)
    requires AllInt32(xs)
    ensures |b| == OpSz * |xs|
    ensures forall i :: 0 <= i < |xs| ==> b[OpSz * i..OpSz * i + OpSz] == Int32.Encode(xs[i])
    decreases |xs|
  {
    if xs == [] then []
    else
      var init := xs[..|xs| - 1];
      var b0 := OperandBytes(init);
      var b := b0 + Int32.Encode(xs[|xs| - 1]);
      assert forall i :: 0 <= i < |init| ==> b[OpSz * i..OpSz * i + OpSz] == b0[OpSz * i..OpSz * i + OpSz];
      b
  }

  /** The message the client sends for the given operands and operator. */
  function Request(operands: seq<int>, operator: byte): (m: seq<byte>)
    requires |operands| <= 255 && AllInt32(operands)
    ensures |m| == |operands| * OpSz + 2
    ensures m[0] as int == |operands|
    ensures forall i :: 0 <= i < |operands| ==> m[i * OpSz + 1..i * OpSz + OpSz + 1] == Int32.Encode(operands[i])
    ensures m[|operands| * OpSz + 1] == operator
  {
    var body := OperandBytes(operands);
    var m := [|operands| as byte] + body + [operator];
    assert forall i :: 0 <= i < |operands| ==> m[i * OpSz + 1..i * OpSz + OpSz + 1] == body[OpSz * i..OpSz * i + OpSz];
    m
  }

  /** Every store of the client lies inside `opmsg` exactly when the count is at
      most 255: the operator byte is the last one written, at count*4+1. */
  lemma RequestFitsBuffer(opndCnt: int)
    requires opndCnt >= 0
    ensures opndCnt * OpSz + 2 <= BufSize <==> opndCnt <= 255
  {
  }

  /** A message with the request's layout is the request. */
  lemma LayoutDeterminesRequest(m: seq<byte>, operands: seq<int>, operator: byte)
    requires |operands| <= 255 && AllInt32(operands)
    requires |m| == |operands| * OpSz + 2 && m[0] as int == |operands|
    requires forall i :: 0 <= i < |operands| ==> m[i * OpSz + 1..i * OpSz + OpSz + 1] == Int32.Encode(operands[i])
    requires m[|operands| * OpSz + 1] == operator
    ensures m == Request(operands, operator)
  {
    var r := Request(operands, operator);
    forall k | 0 <= k < |m| ensures m[k] == r[k] {
      if 1 <= k < |operands| * OpSz + 1 {
        var i := (k - 1) / OpSz;
        assert i * OpSz <= k - 1 < i * OpSz + OpSz;
        assert 0 <= i < |operands|;
        var e := Int32.Encode(operands[i]);
        assert m[i * OpSz + 1..i * OpSz + OpSz + 1] == e;
        assert r[i * OpSz + 1..i * OpSz + OpSz + 1] == e;
        assert m[k] == m[i * OpSz + 1..i * OpSz + OpSz + 1][k - 1 - i * OpSz];
        assert r[k] == r[i * OpSz + 1..i * OpSz + OpSz + 1][k - 1 - i * OpSz];
      }
    }
  }

  /** Lines 43-58: fill `opmsg` in place and send its first count*4+2 bytes.
      The count is `(char)opnd_cnt` at byte 0, operand i at bytes i*4+1 to
      i*4+4, the operator after the last operand. */
  method EncodeRequest(opndCnt: int, operands: seq<int>, operator: byte) returns (sent: seq<byte>)
    requires 0 <= opndCnt <= 255 && |operands| == opndCnt && AllInt32(operands)
    ensures sent == Request(operands, operator)
  {
    var opmsg := new byte[BufSize];
    opmsg[0] := opndCnt as byte;
    for i := 0 to opndCnt
      invariant opmsg[0] as int == opndCnt
      invariant forall j :: 0 <= j < i ==> opmsg[j * OpSz + 1..j * OpSz + OpSz + 1] == Int32.Encode(operands[j])
    {
      var b := Int32.Encode(operands[i]);
      var at := i * OpSz + 1;
      opmsg[at] := b[0];
      opmsg[at + 1] := b[1];
      opmsg[at + 2] := b[2];
      opmsg[at + 3] := b[3];
      assert opmsg[at..at + OpSz] == b;
      assert forall j :: 0 <= j < i ==> j * OpSz + OpSz + 1 <= at;
    }
    opmsg[opndCnt * OpSz + 1] := operator;
    sent := opmsg[..opndCnt * OpSz + 2];
    forall j | 0 <= j < opndCnt
      ensures sent[j * OpSz + 1..j * OpSz + OpSz + 1] == Int32.Encode(operands[j])
    {
      assert sent[j * OpSz + 1..j * OpSz + OpSz + 1] == opmsg[j * OpSz + 1..j * OpSz + OpSz + 1];
    }
    LayoutDeterminesRequest(sent, operands, operator);
  }
}

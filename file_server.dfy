/** The half-close file server: it sends a file in BUF_SIZE chunks with one
    write per `fread`, stops after the first short chunk, then shuts down its
    output side, reads the client's feedback once and closes. The file is given
    as its contents; `fread` returns as many of the requested bytes as remain. */
module FileServer {
  import opened Net

  /** Size of `buf`. */
  const BufSize: int := 30

  /** What the server does on the client socket, in order. */
  datatype Step =
    | Wrote(chunk: seq<byte>)  // write(clnt_sock, buf, read_cnt)
    | ShutdownWrite            // shutdown(clnt_sock, SHUT_WR)
    | Feedback(input: Input)   // read(clnt_sock, buf, BUF_SIZE)
    | CloseClient              // close(clnt_sock)

  /** The chunks `fread` yields for the file: every full BUF_SIZE block, then
      the remainder, which is empty when the length is a multiple of BUF_SIZE. */
  function Chunks(file: seq<byte>): (cs: seq<seq<byte>>)
    ensures |cs| == |file| / BufSize + 1
  {
    var full := |file| / BufSize;
    seq(full, k requires 0 <= k < full => file[BufSize * k..BufSize * k + BufSize]) + [file[BufSize * full..]]
  }

  /** The first k full blocks concatenate to the file's first k*BUF_SIZE bytes. */
  lemma {:induction false} FlattenBlocks(file: seq<byte>, k: nat)
    requires BufSize * k <= |file|
    ensures Flatten(seq(k, j requires 0 <= j < k => file[BufSize * j..BufSize * j + BufSize])) == file[..BufSize * k]
  {
    var blocks := seq(k, j requires 0 <= j < k => file[BufSize * j..BufSize * j + BufSize]);
    if k > 0 {
      var prev := seq(k - 1, j requires 0 <= j < k - 1 => file[BufSize * j..BufSize * j + BufSize]);
      assert blocks[..k - 1] == prev;
      FlattenBlocks(file, k - 1);
      assert file[..BufSize * k] == file[..BufSize * (k - 1)] + file[BufSize * (k - 1)..BufSize * k];
    }
  }

  /** The chunks written concatenate to the file. */
  lemma ChunksConcatenate(file: seq<byte>)
    ensures Flatten(Chunks(file)) == file
  {
    var full := |file| / BufSize;
    var blocks := seq(full, k requires 0 <= k < full => file[BufSize * k..BufSize * k + BufSize]);
    FlattenBlocks(file, full);
    FlattenAppend(blocks, file[BufSize * full..]);
    assert file == file[..BufSize * full] + file[BufSize * full..];
  }

  /** Every chunk but the last is full; the last is short, and empty exactly when
      the length is a multiple of BUF_SIZE. */
  lemma ChunkSizes(file: seq<byte>)
    ensures var cs := Chunks(file);
            (forall k :: 0 <= k < |cs| - 1 ==> |cs[k]| == BufSize) &&
            |cs[|cs| - 1]| < BufSize &&
            (|cs[|cs| - 1]| == 0 <==> |file| % BufSize == 0)
  {
  }

  /** Lines 64-70: fread into `buf`, write what was read, stop on a short read. */
  method SendChunks(file: seq<byte>) returns (writes: seq<seq<byte>>)
    ensures writes == Chunks(file)
  {
    var buf := new byte[BufSize];
    var pos := 0;
    writes := [];
    while true
      invariant 0 <= pos <= |file| && pos == BufSize * |writes|
      invariant forall k :: 0 <= k < |writes| ==> writes[k] == file[BufSize * k..BufSize * k + BufSize]
      decreases |file| - pos
    {
      var readCnt := if |file| - pos < BufSize then |file| - pos else BufSize;
      forall j | 0 <= j < readCnt {
        buf[j] := file[pos + j];
      }
      assert buf[..readCnt] == file[pos..pos + readCnt];
      writes := writes + [buf[..readCnt]];
      if readCnt < BufSize {
        assert |file| / BufSize == |writes| - 1;
        var cs := Chunks(file);
        forall k | 0 <= k < |cs| ensures writes[k] == cs[k] {
        }
        return;
      }
      pos := pos + readCnt;
    }
  }

  /** Lines 62-81 from the accepted connection on: the chunks, then the
      half-close, the one feedback read, and the close. */
  method Serve(file: seq<byte>, feedback: Input) returns (steps: seq<Step>)
    ensures var cs := Chunks(file);
            |steps| == |cs| + 3 &&
            (forall k :: 0 <= k < |cs| ==> steps[k] == Wrote(cs[k])) &&
            steps[|cs|..] == [ShutdownWrite, Feedback(feedback), CloseClient]
  {
    var writes := SendChunks(file);
    steps := [];
    for k := 0 to |writes|
      invariant |steps| == k && forall j :: 0 <= j < k ==> steps[j] == Wrote(writes[j])
    {
      steps := steps + [Wrote(writes[k])];
    }
    steps := steps + [ShutdownWrite, Feedback(feedback), CloseClient];
  }
}

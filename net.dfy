/** Values shared by every program of the model: bytes, descriptors, the
    result of one read call, and the concatenation of written chunks. */
module Net {

  /** One octet on the wire. */
  newtype byte = x: int | 0 <= x < 256

  /** A file descriptor as the C programs hold it: a plain int, -1 for failure. */
  type Fd = int

  /** An optional value. */
  datatype Option<T> = None | Some(value: T)

  /** The outcome of one `read(fd, buf, limit)` call: the count it returned and
      the bytes it placed in the buffer. A positive count delivers that many
      bytes, 0 is end-of-stream, -1 is an error (EAGAIN included). */
  datatype Input = Input(n: int, bytes: seq<byte>)

  /** What a server loop does about one ready descriptor. */
  datatype Action =
    | Accepted(fd: Fd)                           // accept returned fd; registration attempted
    | Closed(fd: Fd)                             // deregistered (where applicable) and closed
    | Echoed(fd: Fd, len: int, bytes: seq<byte>) // write(fd, buf, len) after a read of len
    | Notified(fd: Fd)                           // a client event serviced without reading

  /** What the kernel may return for a read bounded by `limit` bytes. */
  predicate ValidInput(r: Input, limit: nat)
  {
    (r.n > 0 ==> r.n == |r.bytes| <= limit) &&
    (r.n <= 0 ==> r.n >= -1 && r.bytes == [])
  }

  /** The byte stream a sequence of write calls produces. */
  function Flatten(chunks: seq<seq<byte>>): (s: seq<byte>)
    ensures chunks == [] ==> s == []
  {
    if chunks == [] then [] else Flatten(chunks[..|chunks| - 1]) + chunks[|chunks| - 1]
  }

  lemma FlattenAppend(chunks: seq<seq<byte>>, c: seq<byte>)
    ensures Flatten(chunks + [c]) == Flatten(chunks) + c
  {
    assert (chunks + [c])[..|chunks|] == chunks;
  }
}

/** The environment of both programs: what a datagram receive hands back, and
    clock readings. Sockets and clocks themselves are not modelled; a receive is an
    input value and the successive readings of a clock are an input sequence. */
module Net {
  import opened Bytes

  /** The outcome of one `recvfrom`/`receive`: an error, or a datagram as it was sent. */
  datatype Recv = RecvError | Datagram(bytes: seq<byte>)

  function Min(a: int, b: int): int
  {
    if a <= b then a else b
  }

  /** A datagram received into a buffer of `capacity` bytes keeps only what fits;
      the rest of a longer datagram is discarded by the socket. */
  function Truncate(r: Recv, capacity: nat): (t: Recv)
    ensures t.RecvError? == r.RecvError?
    ensures t.Datagram? ==> |t.bytes| == Min(|r.bytes|, capacity)
    ensures t.Datagram? ==> t.bytes == r.bytes[..|t.bytes|]
  {
    match r
    case RecvError => RecvError
    case Datagram(b) => Datagram(b[..Min(|b|, capacity)])
  }

  /** The byte count `recvfrom` returns: -1 on error. */
  function Length(r: Recv): int
  {
    match r
    case RecvError => -1
    case Datagram(b) => |b|
  }

  /** A buffer after a receive has written `data` at its start: the bytes past the
      datagram keep what they held before. */
  function Overlay(buf: seq<byte>, data: seq<byte>): (r: seq<byte>)
    requires |data| <= |buf|
    ensures |r| == |buf|
  {
    data + buf[|data|..]
  }

  /** `recvfrom` (or `DatagramSocket.receive`) into a caller's buffer: the datagram's
      first `buf.Length` bytes are copied to the start of the buffer, the rest of the
      buffer is left as it was, and the byte count (or -1) is returned. */
  method ReceiveInto(buf: array<byte>, r: Recv) returns (n: int)
    modifies buf
    ensures n == Length(Truncate(r, buf.Length))
    ensures r.RecvError? ==> buf[..] == old(buf[..])
    ensures r.Datagram? ==> buf[..] == Overlay(old(buf[..]), Truncate(r, buf.Length).bytes)
  {
    match r
    case RecvError =>
      n := -1;
    case Datagram(d) =>
      n := Min(|d|, buf.Length);
      forall j | 0 <= j < n {
        buf[j] := d[j];
      }
  }

  /** Successive readings of a clock that never goes backwards. */
  ghost predicate Nondecreasing(clock: seq<int>)
  {
    forall i, j :: 0 <= i <= j < |clock| ==> clock[i] <= clock[j]
  }
}

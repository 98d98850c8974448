/** The Android client's `runTest` (MainActivity.kt): it builds the request in a
    little-endian `ByteBuffer`, reads a 16-byte reply as a Sync, and then reads
    `count` packets into one reused 1500-byte array, taking each timestamp from
    the array's first 20 bytes. Kotlin `Int` and `Long` wrap around. */
module Android {
  import opened Wrappers
  import opened Bytes
  import opened Wire
  import opened Net
  import opened Stats
  import Client

  /** The exceptions `runTest` can raise that the model keeps. */
  datatype Exception = BufferOverflow | BufferUnderflow

  /** Stands for `Double.MAX_VALUE`, the starting minimum: above every `Long`. */
  const MIN_START: int := I64_LIMIT

  /** The size of the array every packet is received into. */
  const PACKET_BUFFER: nat := 1500

  /** `buf` with `data` written over it from index `at`. */
  function Splice(buf: seq<byte>, at: nat, data: seq<byte>): (r: seq<byte>)
    requires at + |data| <= |buf|
    ensures |r| == |buf|
  {
    buf[..at] + data + buf[at + |data|..]
  }

  /** A `java.nio.ByteBuffer` in little-endian order over a backing array, with its
      position and limit; relative puts and gets move the position and fail when
      fewer bytes than they need remain before the limit. */
  class ByteBuf {
    const backing: array<byte>
    var pos: int
    var lim: int

    ghost predicate Valid()
      reads this
    {
      0 <= pos <= lim <= backing.Length
    }

    /** `ByteBuffer.allocate(capacity)`: a fresh zero-filled array. */
    constructor Allocate(capacity: nat)
      ensures Valid() && fresh(backing)
      ensures backing[..] == Zeros(capacity) && pos == 0 && lim == capacity
    {
      backing := new byte[capacity](_ => 0);
      pos := 0;
      lim := capacity;
    }

    /** `ByteBuffer.wrap(a, offset, length)`: a view of `a` itself, not a copy. */
    constructor Wrap(a: array<byte>, offset: nat, length: nat)
      requires offset + length <= a.Length
      ensures Valid() && backing == a && pos == offset && lim == offset + length
    {
      backing := a;
      pos := offset;
      lim := offset + length;
    }

    /** `putInt`: four little-endian bytes at the position, or `BufferOverflowException`
        when fewer than four remain (nothing is written then). */
    method PutInt(v: i32) returns (ok: bool)
      requires Valid()
      modifies this, backing
      ensures Valid() && lim == old(lim)
      ensures ok <==> old(lim - pos) >= 4
      ensures ok ==> pos == old(pos) + 4 && backing[..] == Splice(old(backing[..]), old(pos), StoreU32(v % U32_LIMIT))
      ensures !ok ==> pos == old(pos) && backing[..] == old(backing[..])
    {
      if lim - pos < 4 {
        return false;
      }
      var bytes := StoreU32(v % U32_LIMIT);
      forall j | 0 <= j < 4 {
        backing[pos + j] := bytes[j];
      }
      pos := pos + 4;
      ok := true;
    }

    /** `putLong`: eight little-endian bytes at the position, or `BufferOverflowException`. */
    method PutLong(v: i64) returns (ok: bool)
      requires Valid()
      modifies this, backing
      ensures Valid() && lim == old(lim)
      ensures ok <==> old(lim - pos) >= 8
      ensures ok ==> pos == old(pos) + 8 && backing[..] == Splice(old(backing[..]), old(pos), StoreU64(v % U64_LIMIT))
      ensures !ok ==> pos == old(pos) && backing[..] == old(backing[..])
    {
      if lim - pos < 8 {
        return false;
      }
      var bytes := StoreU64(v % U64_LIMIT);
      forall j | 0 <= j < 8 {
        backing[pos + j] := bytes[j];
      }
      pos := pos + 8;
      ok := true;
    }

    /** `getInt` (the `.int` property): four little-endian bytes read as a signed `Int`,
        or `BufferUnderflowException`. */
    method GetInt() returns (r: Option<i32>)
      requires Valid()
      modifies this
      ensures Valid() && lim == old(lim)
      ensures r.Some? <==> old(lim - pos) >= 4
      ensures r.Some? ==> pos == old(pos) + 4 && r.value == Signed32(LoadU32(backing[old(pos)..old(pos) + 4]))
      ensures r.None? ==> pos == old(pos)
    {
      if lim - pos < 4 {
        return None;
      }
      r := Some(Signed32(LoadU32(backing[pos..pos + 4])));
      pos := pos + 4;
    }

    /** `getLong` (the `.long` property): eight little-endian bytes read as a `Long`,
        or `BufferUnderflowException`. */
    method GetLong() returns (r: Option<i64>)
      requires Valid()
      modifies this
      ensures Valid() && lim == old(lim)
      ensures r.Some? <==> old(lim - pos) >= 8
      ensures r.Some? ==> pos == old(pos) + 8 && r.value == Signed64(LoadU64(backing[old(pos)..old(pos) + 8]))
      ensures r.None? ==> pos == old(pos)
    {
      if lim - pos < 8 {
        return None;
      }
      r := Some(Signed64(LoadU64(backing[pos..pos + 8])));
      pos := pos + 8;
    }
  }

  // ---------------------------------------------------------------------
  // The request.

  /** The 24 bytes the five puts lay down: the server's `Request` layout, with
      client_id 0 and every `Int`/`Long` stored as its two's complement bits. */
  function RequestBytes(count: i32, sendTime: i64, payloadSize: i32, tickMs: i32): (s: seq<byte>)
    ensures |s| == REQUEST_SIZE
  {
    EncodeRequest(Request(count % U32_LIMIT, sendTime % U64_LIMIT, 0, payloadSize % U32_LIMIT, tickMs % U32_LIMIT))
  }

  /** Builds the request in `ByteBuffer.allocate(capacity)` and returns its backing
      array. With fewer than 24 bytes of capacity one of the puts overflows; with
      more, the request is followed by zero bytes that are sent too. */
  method BuildRequest(capacity: nat, count: i32, sendTime: i64, payloadSize: i32, tickMs: i32)
    returns (r: Result<seq<byte>, Exception>)
    ensures capacity < REQUEST_SIZE ==> r == Failure(BufferOverflow)
    ensures capacity >= REQUEST_SIZE ==>
      r == Success(RequestBytes(count, sendTime, payloadSize, tickMs) + Zeros(capacity - REQUEST_SIZE))
  {
    var buf := new ByteBuf.Allocate(capacity);
    ghost var w: seq<byte> := [];
    var ok := PutIntAfter(buf, count, w, capacity);
    if !ok { return Failure(BufferOverflow); }
    assert [] + StoreU32(count % U32_LIMIT) == StoreU32(count % U32_LIMIT);
    w := StoreU32(count % U32_LIMIT);
    ok := PutLongAfter(buf, sendTime, w, capacity);
    if !ok { return Failure(BufferOverflow); }
    w := w + StoreU64(sendTime % U64_LIMIT);
    ok := PutIntAfter(buf, 0, w, capacity);
    if !ok { return Failure(BufferOverflow); }
    w := w + StoreU32(0 % U32_LIMIT);
    ok := PutIntAfter(buf, payloadSize, w, capacity);
    if !ok { return Failure(BufferOverflow); }
    w := w + StoreU32(payloadSize % U32_LIMIT);
    ok := PutIntAfter(buf, tickMs, w, capacity);
    if !ok { return Failure(BufferOverflow); }
    w := w + StoreU32(tickMs % U32_LIMIT);
    assert w == RequestBytes(count, sendTime, payloadSize, tickMs);
    r := Success(buf.backing[..]);
  }

  /** A buffer of `capacity` bytes into which `w` has been put so far: the rest of its
      array is still zero. */
  ghost predicate Holds(buf: ByteBuf, w: seq<byte>, capacity: nat)
    reads buf, buf.backing
  {
    && buf.Valid() && buf.lim == capacity && buf.pos == |w| <= capacity
    && buf.backing[..] == w + Zeros(capacity - |w|)
  }

  /** `putInt` on a buffer holding `w`: it then holds `w` and the four bytes. */
  method PutIntAfter(buf: ByteBuf, v: i32, ghost w: seq<byte>, ghost capacity: nat) returns (ok: bool)
    requires Holds(buf, w, capacity)
    modifies buf, buf.backing
    ensures ok <==> |w| + 4 <= capacity
    ensures ok ==> Holds(buf, w + StoreU32(v % U32_LIMIT), capacity)
  {
    ok := buf.PutInt(v);
    if ok {
      SpliceOverZeros(w, StoreU32(v % U32_LIMIT), capacity, |w|);
    }
  }

  /** `putLong` on a buffer holding `w`: it then holds `w` and the eight bytes. */
  method PutLongAfter(buf: ByteBuf, v: i64, ghost w: seq<byte>, ghost capacity: nat) returns (ok: bool)
    requires Holds(buf, w, capacity)
    modifies buf, buf.backing
    ensures ok <==> |w| + 8 <= capacity
    ensures ok ==> Holds(buf, w + StoreU64(v % U64_LIMIT), capacity)
  {
    ok := buf.PutLong(v);
    if ok {
      SpliceOverZeros(w, StoreU64(v % U64_LIMIT), capacity, |w|);
    }
  }

  /** A put into a buffer that is still zero past what was written so far. */
  lemma SpliceOverZeros(w: seq<byte>, d: seq<byte>, c: nat, p: nat)
    requires p == |w| && p + |d| <= c
    ensures Splice(w + Zeros(c - p), p, d) == (w + d) + Zeros(c - (p + |d|))
  {
    var r := Splice(w + Zeros(c - p), p, d);
    assert forall j :: 0 <= j < c ==> r[j] == ((w + d) + Zeros(c - (p + |d|)))[j];
  }

  // ---------------------------------------------------------------------
  // The Sync and the offset.

  /** The 16-byte `syncBuf` after `socket.receive`: the reply's first 16 bytes, and
      zeros after a shorter reply (the receive does not fail on one). */
  function SyncBytes(reply: seq<byte>): (s: seq<byte>)
    ensures |s| == SYNC_SIZE
  {
    Overlay(Zeros(SYNC_SIZE), reply[..Min(|reply|, SYNC_SIZE)])
  }

  /** Receives the reply into `syncBuf` and reads `serverTime` (bytes 0-7) and
      `usedTick` (bytes 12-15) with a wrapping `ByteBuffer`; bytes 8-11 are read and
      dropped. */
  method ReadSync(reply: seq<byte>) returns (serverTime: i64, usedTick: i32)
    ensures serverTime == Signed64(DecodeSync(SyncBytes(reply)).serverTimeNs)
    ensures usedTick == Signed32(DecodeSync(SyncBytes(reply)).tickMs)
  {
    var syncBuf := new byte[SYNC_SIZE](_ => 0);
    var n := ReceiveInto(syncBuf, Datagram(reply));
    assert syncBuf[..] == SyncBytes(reply);
    var sync := new ByteBuf.Wrap(syncBuf, 0, SYNC_SIZE);
    var t := sync.GetLong();
    var id := sync.GetInt();
    var tick := sync.GetInt();
    serverTime := t.value;
    usedTick := tick.value;
  }

  /** `serverTime - (sendTime + (recvTime - sendTime) / 2)` in `Long` arithmetic:
      every step wraps modulo 2^64 and `/` rounds toward zero. */
  function OffsetL(serverTime: i64, sendTime: i64, recvTime: i64): (r: i64)
    ensures (r - (serverTime - sendTime - TruncDiv(WrapI64(recvTime - sendTime), 2))) % U64_LIMIT == 0
  {
    var half := TruncDiv(WrapI64(recvTime - sendTime), 2);
    var mid := WrapI64(sendTime + half);
    var r := WrapI64(serverTime - mid);
    SubtractWrapped(serverTime, sendTime + half, mid, r);
    r
  }

  /** `now - (ts - offset)` in `Long` arithmetic. */
  function LatencyL(now: i64, ts: i64, offset: i64): (r: i64)
    ensures (r - (now - ts + offset)) % U64_LIMIT == 0
    ensures -I64_LIMIT <= now - ts + offset < I64_LIMIT ==> r == now - ts + offset
  {
    var inner := WrapI64(ts - offset);
    var r := WrapI64(now - inner);
    SubtractWrapped(now, ts - offset, inner, r);
    r
  }

  /** Subtracting a value wrapped modulo 2^64 from a wrapped difference stays congruent to the exact difference. */
  lemma SubtractWrapped(a: int, u: int, m: int, r: int)
    requires (u - m) % U64_LIMIT == 0
    requires ((a - m) - r) % U64_LIMIT == 0
    ensures (r - (a - u)) % U64_LIMIT == 0
  {
    var p := (u - m) / U64_LIMIT;
    var q := ((a - m) - r) / U64_LIMIT;
    assert u - m == U64_LIMIT * p;
    assert (a - m) - r == U64_LIMIT * q;
    assert r - (a - u) == 0 + U64_LIMIT * (p - q);
    ModShift(0, p - q, U64_LIMIT);
  }

  // ---------------------------------------------------------------------
  // The measurement loop.

  /** `packetBuf` after the first `k` receives: each writes its datagram (cut to 1500
      bytes) over the start and leaves the rest as it was. */
  function BufferAfter(datagrams: seq<seq<byte>>, k: nat): (b: seq<byte>)
    requires k <= |datagrams|
    ensures |b| == PACKET_BUFFER
  {
    if k == 0 then Zeros(PACKET_BUFFER)
    else Overlay(BufferAfter(datagrams, k - 1), Truncate(Datagram(datagrams[k - 1]), PACKET_BUFFER).bytes)
  }

  /** The `ts` the header view reads: bytes 4-11 of the buffer, as a `Long`. */
  function TimestampRead(b: seq<byte>): i64
    requires |b| >= HEADER_SIZE
  {
    Signed64(LoadU64(b[4..12]))
  }

  /** The header view `ByteBuffer.wrap(packetBuf, 0, 20)`: seq, timestamp, server_id
      and tick are read in turn and only the timestamp is kept. */
  method ReadHeader(packetBuf: array<byte>) returns (ts: i64)
    requires packetBuf.Length >= HEADER_SIZE
    ensures ts == TimestampRead(packetBuf[..])
  {
    var hdr := new ByteBuf.Wrap(packetBuf, 0, HEADER_SIZE);
    var seqNo := hdr.GetInt();
    var t := hdr.GetLong();
    var serverId := hdr.GetInt();
    var tick := hdr.GetInt();
    ts := t.value;
  }

  /** The latencies of the first `n` iterations, `now[i]` being the clock reading of
      iteration `i`. */
  function TraceL(offset: i64, datagrams: seq<seq<byte>>, now: seq<i64>, n: nat): seq<i64>
    requires n <= |datagrams| && n <= |now|
  {
    if n == 0 then []
    else TraceL(offset, datagrams, now, n - 1) + [LatencyL(now[n - 1], TimestampRead(BufferAfter(datagrams, n)), offset)]
  }

  /** The trace grows by the latency of the next iteration. */
  lemma TraceLStep(ls: seq<i64>, offset: i64, datagrams: seq<seq<byte>>, now: seq<i64>, i: nat, l: i64)
    requires i < |datagrams| && i < |now| && ls == TraceL(offset, datagrams, now, i)
    requires l == LatencyL(now[i], TimestampRead(BufferAfter(datagrams, i + 1)), offset)
    ensures ls + [l] == TraceL(offset, datagrams, now, i + 1)
  {
  }

  /** One iteration's receive and header read: the buffer moves on by one datagram and
      the latency is that of the timestamp it now holds. */
  method MeasureOne(packetBuf: array<byte>, offset: i64, datagrams: seq<seq<byte>>, now: seq<i64>, i: nat)
    returns (latency: i64)
    requires i < |datagrams| && i < |now|
    requires packetBuf.Length == PACKET_BUFFER && packetBuf[..] == BufferAfter(datagrams, i)
    modifies packetBuf
    ensures packetBuf[..] == BufferAfter(datagrams, i + 1)
    ensures latency == LatencyL(now[i], TimestampRead(BufferAfter(datagrams, i + 1)), offset)
  {
    var n := ReceiveInto(packetBuf, Datagram(datagrams[i]));
    ghost var b := packetBuf[..];
    assert b == BufferAfter(datagrams, i + 1);
    var t := now[i];
    var ts := ReadHeader(packetBuf);
    assert packetBuf[..] == b;
    latency := LatencyL(t, ts, offset);
  }

  /** One iteration of the loop: receive, read the header, append the latency and
      update the running minimum and maximum. */
  method MeasureStep(packetBuf: array<byte>, offset: i64, datagrams: seq<seq<byte>>, now: seq<i64>, i: nat,
                     latencies: seq<i64>, minLat: int, maxLat: int)
    returns (latencies': seq<i64>, minLat': int, maxLat': int)
    requires i < |datagrams| && i < |now|
    requires packetBuf.Length == PACKET_BUFFER && packetBuf[..] == BufferAfter(datagrams, i)
    requires latencies == TraceL(offset, datagrams, now, i)
    requires RunningBounds(latencies, MIN_START, minLat, maxLat)
    modifies packetBuf
    ensures packetBuf[..] == BufferAfter(datagrams, i + 1)
    ensures latencies' == TraceL(offset, datagrams, now, i + 1)
    ensures RunningBounds(latencies', MIN_START, minLat', maxLat')
  {
    var latency := MeasureOne(packetBuf, offset, datagrams, now, i);
    BoundsStep(latencies, MIN_START, minLat, maxLat, latency);
    TraceLStep(latencies, offset, datagrams, now, i, latency);
    latencies' := latencies + [latency];
    minLat' := if latency < minLat then latency else minLat;
    maxLat' := if latency > maxLat then latency else maxLat;
  }

  /** The `for (i in 0 until count)` loop: every iteration receives into the same
      1500-byte array, reads a header from its first 20 bytes whatever the length
      received, and appends one latency. */
  method MeasureLoopL(count: i32, offset: i64, datagrams: seq<seq<byte>>, now: seq<i64>)
    returns (latencies: seq<i64>, minLat: int, maxLat: int)
    requires count <= |datagrams| && count <= |now|
    ensures latencies == TraceL(offset, datagrams, now, Client.Iterations(count))
    ensures |latencies| == Client.Iterations(count)
    ensures RunningBounds(latencies, MIN_START, minLat, maxLat)
  {
    var packetBuf := new byte[PACKET_BUFFER](_ => 0);
    latencies := [];
    minLat := MIN_START;
    maxLat := 0;
    var i, iterations := 0, Client.Iterations(count);
    while i < iterations
      invariant 0 <= i <= iterations
      invariant packetBuf.Length == PACKET_BUFFER
      invariant packetBuf[..] == BufferAfter(datagrams, i)
      invariant latencies == TraceL(offset, datagrams, now, i)
      invariant |latencies| == i
      invariant RunningBounds(latencies, MIN_START, minLat, maxLat)
    {
      latencies, minLat, maxLat := MeasureStep(packetBuf, offset, datagrams, now, i, latencies, minLat, maxLat);
      i := i + 1;
    }
  }

  // ---------------------------------------------------------------------
  // The whole test.

  /** What `runTest` produces when it completes: the request sent, the latencies and
      the running minimum and maximum. */
  datatype TestRun = TestRun(request: seq<byte>, latencies: seq<i64>, minLat: int, maxLat: int)

  /** `runTest` with a request buffer of `capacity` bytes; `sendTime` and `recvTime`
      are the two `System.nanoTime()` readings around the Sync, `reply` the datagram
      received as the Sync. */
  method RunTestWith(capacity: nat, count: i32, tickMs: i32, payloadSize: i32, sendTime: i64,
                     reply: seq<byte>, recvTime: i64, datagrams: seq<seq<byte>>, now: seq<i64>)
    returns (r: Result<TestRun, Exception>)
    requires count <= |datagrams| && count <= |now|
    ensures capacity < REQUEST_SIZE ==> r == Failure(BufferOverflow)
    ensures capacity >= REQUEST_SIZE ==>
      (&& r.Success?
       && r.value.request == RequestBytes(count, sendTime, payloadSize, tickMs) + Zeros(capacity - REQUEST_SIZE)
       && r.value.latencies == TraceL(OffsetL(Signed64(DecodeSync(SyncBytes(reply)).serverTimeNs), sendTime, recvTime),
                                      datagrams, now, Client.Iterations(count))
       && |r.value.latencies| == Client.Iterations(count)
       && RunningBounds(r.value.latencies, MIN_START, r.value.minLat, r.value.maxLat))
  {
    var req := BuildRequest(capacity, count, sendTime, payloadSize, tickMs);
    if req.Failure? {
      return Failure(req.error);
    }
    var serverTime, usedTick := ReadSync(reply);
    var offset := OffsetL(serverTime, sendTime, recvTime);
    var latencies, minLat, maxLat := MeasureLoopL(count, offset, datagrams, now);
    r := Success(TestRun(req.value, latencies, minLat, maxLat));
  }

  /** `runTest` as written: the request buffer is `ByteBuffer.allocate(20)`, so the
      fifth put overflows and nothing is ever sent. */
  method RunTest(count: i32, tickMs: i32, payloadSize: i32, sendTime: i64,
                 reply: seq<byte>, recvTime: i64, datagrams: seq<seq<byte>>, now: seq<i64>)
    returns (r: Result<TestRun, Exception>)
    requires count <= |datagrams| && count <= |now|
    ensures r == Failure(BufferOverflow)
  {
    r := RunTestWith(20, count, tickMs, payloadSize, sendTime, reply, recvTime, datagrams, now);
  }

  /** `runTest` with the request buffer sized to the 24-byte request: it sends exactly
      the server's request layout and records one latency per iteration. */
  method RunTestCorrected(count: i32, tickMs: i32, payloadSize: i32, sendTime: i64,
                          reply: seq<byte>, recvTime: i64, datagrams: seq<seq<byte>>, now: seq<i64>)
    returns (r: Result<TestRun, Exception>)
    requires count <= |datagrams| && count <= |now|
    ensures r.Success?
    ensures r.value.request == RequestBytes(count, sendTime, payloadSize, tickMs)
    ensures r.value.latencies == TraceL(OffsetL(Signed64(DecodeSync(SyncBytes(reply)).serverTimeNs), sendTime, recvTime),
                                        datagrams, now, Client.Iterations(count))
    ensures |r.value.latencies| == Client.Iterations(count)
    ensures RunningBounds(r.value.latencies, MIN_START, r.value.minLat, r.value.maxLat)
  {
    r := RunTestWith(REQUEST_SIZE, count, tickMs, payloadSize, sendTime, reply, recvTime, datagrams, now);
    assert RequestBytes(count, sendTime, payloadSize, tickMs) + Zeros(0) == RequestBytes(count, sendTime, payloadSize, tickMs);
  }

  // ---------------------------------------------------------------------
  // Properties.

  /** A reply of at least 16 bytes is read as it came; a shorter one is padded with
      zeros instead of failing. */
  lemma SyncBytesOfReply(reply: seq<byte>)
    ensures |reply| >= SYNC_SIZE ==> SyncBytes(reply) == reply[..SYNC_SIZE]
    ensures |reply| < SYNC_SIZE ==> SyncBytes(reply) == reply + Zeros(SYNC_SIZE - |reply|)
  {
  }

  /** A datagram of at least 12 bytes supplies its own timestamp field. */
  lemma FreshTimestamp(datagrams: seq<seq<byte>>, k: nat)
    requires k < |datagrams| && |datagrams[k]| >= 12
    ensures TimestampRead(BufferAfter(datagrams, k + 1)) == Signed64(LoadU64(datagrams[k][4..12]))
  {
    var b := BufferAfter(datagrams, k + 1);
    assert b[4..12] == datagrams[k][4..12];
  }

  /** A datagram of at most 4 bytes leaves the previous packet's timestamp in the
      buffer, and the latency is computed from that stale value. */
  lemma StaleTimestamp(datagrams: seq<seq<byte>>, k: nat)
    requires 0 < k < |datagrams| && |datagrams[k]| <= 4
    ensures TimestampRead(BufferAfter(datagrams, k + 1)) == TimestampRead(BufferAfter(datagrams, k))
  {
    var b, b' := BufferAfter(datagrams, k), BufferAfter(datagrams, k + 1);
    assert b'[4..12] == b[4..12];
  }

  /** When the clocks fit in a non-negative `Long` and did not go backwards, the
      Kotlin offset is the C++ one. */
  lemma OffsetsAgree(serverTime: i64, sendTime: i64, recvTime: i64)
    requires 0 <= sendTime <= recvTime && 0 <= serverTime
    ensures OffsetL(serverTime, sendTime, recvTime) == Client.OffsetNs(serverTime, sendTime, recvTime)
  {
    assert Client.Midpoint(sendTime, recvTime) == sendTime + (recvTime - sendTime) / 2;
  }

  /** The Kotlin latency has the same 64 bits as the C++ one. */
  lemma LatenciesAgree(now: i64, ts: i64, offset: i64)
    ensures LatencyL(now, ts, offset) % U64_LIMIT == Client.LatencyNs(now % U64_LIMIT, ts % U64_LIMIT, offset)
  {
    var x := now - ts + offset;
    var y := now % U64_LIMIT - ts % U64_LIMIT + offset;
    var r := LatencyL(now, ts, offset);
    assert x == y + U64_LIMIT * (now / U64_LIMIT - ts / U64_LIMIT);
    ModShift(y, now / U64_LIMIT - ts / U64_LIMIT, U64_LIMIT);
    var p := (r - x) / U64_LIMIT;
    assert r == x + U64_LIMIT * p;
    ModShift(x, p, U64_LIMIT);
  }
}

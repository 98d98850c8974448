/** The command-line client (src/client.cpp): it sends one burst request, reads a
    16-byte reply as a Sync to estimate the clock offset, then receives `count`
    datagrams and records one latency for each that holds at least a header. */
module Client {
  import opened Wrappers
  import opened Bytes
  import opened Wire
  import opened Net
  import opened Stats

  /** Stands for `std::numeric_limits<double>::max()`, the starting minimum: it is
      above every latency numerator, which is a `uint64_t`. */
  const MIN_START: int := U64_LIMIT

  /** The client's view of one data packet: the header fields and a payload of
      exactly `payload_size` bytes. */
  datatype Packet = Packet(seqNo: u32, timestampNs: u64, serverId: u32, tickMs: u32, payload: seq<byte>)

  /** The outcome of a run: exit status 1 when the first reply is short or fails,
      otherwise the latencies recorded and the running minimum and maximum. */
  datatype Run = Exit(status: int) | Done(latencies: seq<u64>, minLat: int, maxLat: int)

  /** The number of times `for (int i = 0; i < count; ++i)` runs. */
  function Iterations(count: int): (n: nat)
    ensures count >= 0 ==> n == count
    ensures count < 0 ==> n == 0
  {
    if count > 0 then count else 0
  }

  /** The request datagram: `count` is a C `int` stored as `uint32_t`, i.e. modulo 2^32. */
  function ClientRequest(count: i32, sendNs: u64, clientId: u32, payloadSize: u32, tickRequestMs: u32): (s: seq<byte>)
    ensures |s| == REQUEST_SIZE
  {
    EncodeRequest(Request(count % U32_LIMIT, sendNs, clientId, payloadSize, tickRequestMs))
  }

  /** The server reads back every field of the request, and the count as a signed
      32-bit value is the client's `int count`. */
  lemma ClientRequestFields(count: i32, sendNs: u64, clientId: u32, payloadSize: u32, tickRequestMs: u32)
    ensures DecodeRequest(ClientRequest(count, sendNs, clientId, payloadSize, tickRequestMs))
         == Request(count % U32_LIMIT, sendNs, clientId, payloadSize, tickRequestMs)
    ensures Signed32(count % U32_LIMIT) == count
  {
    var r := Request(count % U32_LIMIT, sendNs, clientId, payloadSize, tickRequestMs);
    assert DecodeRequest(EncodeRequest(r)) == r by {
      RequestRoundTrip(r, []);
      assert EncodeRequest(r) + [] == EncodeRequest(r);
    }
    SignedWrap32(count);
  }

  /** The first `recvfrom`, into a 16-byte Sync: anything shorter (or an error) ends
      the run; otherwise the first 16 bytes are taken as a Sync. */
  function FirstReply(r: Recv): (s: Option<Sync>)
    ensures s.None? <==> r.RecvError? || |r.bytes| < SYNC_SIZE
    ensures s.Some? ==> s.value == DecodeSync(r.bytes[..SYNC_SIZE])
  {
    var got := Truncate(r, SYNC_SIZE);
    if Length(got) < SYNC_SIZE then None else Some(DecodeSync(got.bytes))
  }

  /** `send_ns + (recv_ns - send_ns) / 2` in `uint64_t` arithmetic. When the clock did
      not go backwards nothing wraps and it is the midpoint, rounded down. */
  function Midpoint(sendNs: u64, recvNs: u64): (m: u64)
    ensures sendNs <= recvNs ==> m == sendNs + (recvNs - sendNs) / 2
  {
    WrapU64(sendNs + WrapU64(recvNs - sendNs) / 2)
  }

  /** `int64_t(server_time_ns) - int64_t(midpoint)`: the server's time minus the
      midpoint, taken modulo 2^64 as a signed value (exact when it fits). */
  function OffsetNs(serverTimeNs: u64, sendNs: u64, recvNs: u64): (r: i64)
    ensures (r - (serverTimeNs - Midpoint(sendNs, recvNs))) % U64_LIMIT == 0
    ensures -I64_LIMIT <= serverTimeNs - Midpoint(sendNs, recvNs) < I64_LIMIT
            ==> r == serverTimeNs - Midpoint(sendNs, recvNs)
  {
    var m := Midpoint(sendNs, recvNs);
    var d := Signed64(serverTimeNs) - Signed64(m);
    var r := WrapI64(d);
    var k := (if m >= I64_LIMIT then 1 else 0) - (if serverTimeNs >= I64_LIMIT then 1 else 0);
    assert d == serverTimeNs - m + U64_LIMIT * k;
    var q := (d - r) / U64_LIMIT;
    assert d - r == U64_LIMIT * q;
    assert r - (serverTimeNs - m) == 0 + U64_LIMIT * (k - q);
    ModShift(0, k - q, U64_LIMIT);
    r
  }

  /** `now - (timestamp_ns - offset_ns)`: the `int64_t` offset is converted to
      `uint64_t`, so both subtractions wrap modulo 2^64. */
  function LatencyNs(now: u64, timestampNs: u64, offsetNs: i64): (r: u64)
    ensures r == (now - timestampNs + offsetNs) % U64_LIMIT
  {
    var inner := WrapU64(timestampNs - offsetNs);
    assert inner == timestampNs - offsetNs - U64_LIMIT * ((timestampNs - offsetNs) / U64_LIMIT);
    ModShift(now - timestampNs + offsetNs, (timestampNs - offsetNs) / U64_LIMIT, U64_LIMIT);
    WrapU64(now - inner)
  }

  /** The header and payload of one received datagram of `n >= 20` bytes: the
      payload is `payload_size` bytes, of which the first `min(payload_size, n - 20)`
      come from the datagram and the rest stay zero. */
  function DecodePacket(b: seq<byte>, payloadSize: u32): (p: Packet)
    requires |b| >= HEADER_SIZE
    ensures PacketHeader(p.seqNo, p.timestampNs, p.serverId, p.tickMs) == DecodeHeader(b)
    ensures |p.payload| == payloadSize
    ensures forall j :: 0 <= j < payloadSize ==>
      p.payload[j] == if j < |b| - HEADER_SIZE then b[HEADER_SIZE + j] else 0
  {
    var h := DecodeHeader(b);
    var copied := if payloadSize > 0 && |b| > HEADER_SIZE then Min(payloadSize, |b| - HEADER_SIZE) else 0;
    Packet(h.seqNo, h.timestampNs, h.serverId, h.tickMs,
           b[HEADER_SIZE..HEADER_SIZE + copied] + Zeros(payloadSize - copied))
  }

  // ---------------------------------------------------------------------
  // The measurement loop.

  /** A datagram is used when `recvfrom` into the `20 + payload_size` buffer returns
      at least a header's worth of bytes. */
  predicate Accepts(r: Recv, payloadSize: u32)
  {
    Length(Truncate(r, HEADER_SIZE + payloadSize)) >= HEADER_SIZE
  }

  /** The latency recorded for an accepted datagram, `now` being the clock reading
      taken right after it arrived. */
  function LatencyOf(r: Recv, payloadSize: u32, offsetNs: i64, now: u64): u64
    requires Accepts(r, payloadSize)
  {
    LatencyNs(now, DecodeHeader(Truncate(r, HEADER_SIZE + payloadSize).bytes).timestampNs, offsetNs)
  }

  /** The latencies recorded over the first `n` iterations: `recvs[i]` is what the
      `i`-th `recvfrom` returns and `now[i]` the clock reading taken if iteration `i`
      accepts its datagram. */
  function LatencyTrace(payloadSize: u32, offsetNs: i64, recvs: seq<Recv>, now: seq<u64>, n: nat): seq<u64>
    requires n <= |recvs| && n <= |now|
  {
    if n == 0 then []
    else
      LatencyTrace(payloadSize, offsetNs, recvs, now, n - 1)
        + (if Accepts(recvs[n - 1], payloadSize)
           then [LatencyOf(recvs[n - 1], payloadSize, offsetNs, now[n - 1])] else [])
  }

  /** One iteration of the loop: receive into the buffer; a datagram of at least a
      header's length has its latency appended and the running bounds updated. */
  method MeasureStep(buffer: array<byte>, payloadSize: u32, offsetNs: i64, r: Recv, now: u64,
                     latencies: seq<u64>, minLat: int, maxLat: int)
    returns (latencies': seq<u64>, minLat': int, maxLat': int)
    requires buffer.Length == HEADER_SIZE + payloadSize
    requires RunningBounds(latencies, MIN_START, minLat, maxLat)
    modifies buffer
    ensures latencies' == latencies + (if Accepts(r, payloadSize) then [LatencyOf(r, payloadSize, offsetNs, now)] else [])
    ensures RunningBounds(latencies', MIN_START, minLat', maxLat')
  {
    var n := ReceiveInto(buffer, r);
    latencies', minLat', maxLat' := latencies, minLat, maxLat;
    if n >= HEADER_SIZE {
      var got := Truncate(r, buffer.Length);
      assert buffer[..n] == got.bytes;
      var resp := DecodePacket(buffer[..n], payloadSize);
      var latency := LatencyNs(now, resp.timestampNs, offsetNs);
      assert latency == LatencyOf(r, payloadSize, offsetNs, now);
      BoundsStep(latencies, MIN_START, minLat, maxLat, latency);
      latencies' := latencies + [latency];
      if latency < minLat {
        minLat' := latency;
      }
      if latency > maxLat {
        maxLat' := latency;
      }
    }
  }

  /** The `for` loop of `main`: one receive per iteration into the reused buffer;
      a short datagram or an error is skipped, otherwise the packet is decoded, its
      latency appended, and the running minimum and maximum updated. */
  method MeasureLoop(count: i32, payloadSize: u32, offsetNs: i64, recvs: seq<Recv>, now: seq<u64>)
    returns (latencies: seq<u64>, minLat: int, maxLat: int)
    requires count <= |recvs| && count <= |now|
    ensures latencies == LatencyTrace(payloadSize, offsetNs, recvs, now, Iterations(count))
    ensures RunningBounds(latencies, MIN_START, minLat, maxLat)
  {
    var buffer := new byte[HEADER_SIZE + payloadSize];
    latencies := [];
    minLat := MIN_START;
    maxLat := 0;
    var i, iterations := 0, Iterations(count);
    while i < iterations
      invariant 0 <= i <= iterations
      invariant buffer.Length == HEADER_SIZE + payloadSize
      invariant latencies == LatencyTrace(payloadSize, offsetNs, recvs, now, i)
      invariant RunningBounds(latencies, MIN_START, minLat, maxLat)
    {
      latencies, minLat, maxLat := MeasureStep(buffer, payloadSize, offsetNs, recvs[i], now[i], latencies, minLat, maxLat);
      i := i + 1;
    }
  }

  /** The whole client after argument parsing: the request it sends, then either
      exit status 1 or the measurement, with the offset taken from the first reply
      and the clock readings `sendNs` (the request's own timestamp) and `recvNs`. */
  method RunClient(count: i32, clientId: u32, payloadSize: u32, tickRequestMs: u32,
                   sendNs: u64, first: Recv, recvNs: u64, recvs: seq<Recv>, now: seq<u64>)
    returns (request: seq<byte>, run: Run)
    requires count <= |recvs| && count <= |now|
    ensures request == ClientRequest(count, sendNs, clientId, payloadSize, tickRequestMs)
    ensures FirstReply(first).None? <==> run == Exit(1)
    ensures FirstReply(first).Some? ==>
      (&& run.Done?
       && run.latencies == LatencyTrace(payloadSize, OffsetNs(FirstReply(first).value.serverTimeNs, sendNs, recvNs),
                                        recvs, now, Iterations(count))
       && RunningBounds(run.latencies, MIN_START, run.minLat, run.maxLat))
  {
    request := ClientRequest(count, sendNs, clientId, payloadSize, tickRequestMs);
    var sync := FirstReply(first);
    if sync.None? {
      return request, Exit(1);
    }
    var offsetNs := OffsetNs(sync.value.serverTimeNs, sendNs, recvNs);
    var latencies, minLat, maxLat := MeasureLoop(count, payloadSize, offsetNs, recvs, now);
    run := Done(latencies, minLat, maxLat);
  }

  // ---------------------------------------------------------------------
  // Properties.

  /** At most one latency per iteration, and exactly one when every datagram was
      accepted. */
  lemma {:induction false} TraceLength(payloadSize: u32, offsetNs: i64, recvs: seq<Recv>, now: seq<u64>, n: nat)
    requires n <= |recvs| && n <= |now|
    ensures |LatencyTrace(payloadSize, offsetNs, recvs, now, n)| <= n
    ensures (forall i :: 0 <= i < n ==> Accepts(recvs[i], payloadSize))
            ==> |LatencyTrace(payloadSize, offsetNs, recvs, now, n)| == n
  {
    if n > 0 {
      TraceLength(payloadSize, offsetNs, recvs, now, n - 1);
    }
  }

  /** When every datagram is accepted, latency `i` belongs to datagram `i`. */
  lemma {:induction false} TraceAllAccepted(payloadSize: u32, offsetNs: i64, recvs: seq<Recv>, now: seq<u64>, n: nat, i: nat)
    requires n <= |recvs| && n <= |now| && i < n
    requires forall k :: 0 <= k < n ==> Accepts(recvs[k], payloadSize)
    ensures |LatencyTrace(payloadSize, offsetNs, recvs, now, n)| == n
    ensures LatencyTrace(payloadSize, offsetNs, recvs, now, n)[i] == LatencyOf(recvs[i], payloadSize, offsetNs, now[i])
  {
    var prev := LatencyTrace(payloadSize, offsetNs, recvs, now, n - 1);
    var last := LatencyOf(recvs[n - 1], payloadSize, offsetNs, now[n - 1]);
    var trace := LatencyTrace(payloadSize, offsetNs, recvs, now, n);
    assert trace == prev + [last];
    if i < n - 1 {
      TraceAllAccepted(payloadSize, offsetNs, recvs, now, n - 1, i);
    } else if n > 1 {
      TraceAllAccepted(payloadSize, offsetNs, recvs, now, n - 1, 0);
    }
    AppendAt(prev, last, trace, i);
  }

  /** Indexing a sequence grown by one element. */
  lemma AppendAt(prev: seq<u64>, last: u64, trace: seq<u64>, i: nat)
    requires trace == prev + [last] && i <= |prev|
    ensures |trace| == |prev| + 1
    ensures trace[i] == if i < |prev| then prev[i] else last
  {
  }

  /** The midpoint lies between the send and receive readings. */
  lemma MidpointBetween(sendNs: u64, recvNs: u64)
    requires sendNs <= recvNs
    ensures sendNs <= Midpoint(sendNs, recvNs) <= recvNs
  {
  }

  /** With symmetric path delays `d` and a server clock ahead of the client's by
      `theta`, a Sync stamped when the request arrives yields offset `theta`. */
  lemma OffsetIsSkew(sendNs: u64, d: nat, theta: int)
    requires sendNs + 2 * d < U64_LIMIT && 0 <= sendNs + d + theta < U64_LIMIT
    requires -I64_LIMIT <= theta < I64_LIMIT
    ensures OffsetNs(sendNs + d + theta, sendNs, sendNs + 2 * d) == theta
  {
    assert Midpoint(sendNs, sendNs + 2 * d) == sendNs + d;
  }

  /** With the right offset, the latency is the one-way delay: a packet stamped
      `sentNs + theta` on the server clock and received at `now` on the client
      clock has latency `now - sentNs`. */
  lemma LatencyIsDelay(now: u64, sentNs: u64, theta: i64)
    requires sentNs <= now && 0 <= sentNs + theta < U64_LIMIT
    ensures LatencyNs(now, sentNs + theta, theta) == now - sentNs
  {
  }

  /** A packet the session emitted is decoded back to its header and an all-zero
      payload of the requested size. */
  lemma DecodeZeroPayload(h: PacketHeader, payloadSize: u32)
    ensures DecodePacket(EncodeHeader(h) + Zeros(payloadSize), payloadSize)
         == Packet(h.seqNo, h.timestampNs, h.serverId, h.tickMs, Zeros(payloadSize))
  {
    HeaderRoundTrip(h, Zeros(payloadSize));
    var p := DecodePacket(EncodeHeader(h) + Zeros(payloadSize), payloadSize);
    assert p.payload == Zeros(payloadSize);
  }
}

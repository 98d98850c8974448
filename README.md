# Speed-test-gamer: a verified model of the UDP latency protocol

The system measures one-way UDP latency the way a game server sees it. A client sends a
24-byte burst request. The server answers it by starting a session. A session sends
`count` packets: each is a 20-byte packed header (seq, timestamp, server_id, tick)
followed by `payload_size` zero bytes, and the packets are spaced `tick` milliseconds
apart. The client first reads a 16-byte Sync to estimate its clock offset from the
server. It then computes one latency per received packet, `now - (timestamp - offset)`,
and keeps the list of latencies with a running minimum and maximum.

The model covers five parts.

- **Wire format** (`bytes.dfy`, `wire.dfy`): the five packed little-endian records.
  - PacketHeader is 20 bytes, Request 24, SyncRequest 8, SyncResponse 16 and Sync 16.
  - For each of the five records, decoding an encoding gives the record back, and encoding a decoded record gives the same bytes.
  - `uint32_t`/`uint64_t` are byte-level stores and loads.
  - Signed reinterpretation and wrap-around are explicit functions.
- **Server** (`server.dfy`): the receive loop and the session thread.
  - Every datagram is classified by its length alone: an error, a probe of exactly 8 bytes, anything else below 24 bytes, or a burst request.
  - A probe gets two clock readings back as a SyncResponse.
  - A burst request spawns a session, with the server's tick if it is positive and otherwise the client's.
  - The session is a loop over a reused zero-filled buffer and yields a list of `Send`/`Pause` events.
- **Command-line client** (`client.cpp` → `client.dfy`): the whole run after argument parsing.
  - It builds the request and reads the first reply as a Sync; a reply shorter than 16 bytes ends the run with status 1.
  - It computes the offset in `uint64_t`/`int64_t` arithmetic.
  - It then runs `count` receive iterations, in which a datagram shorter than a header is skipped.
- **Android client** (`android.dfy`): `runTest`, over a `ByteBuffer` class with position, limit and overflow/underflow.
  - Every packet is received into one reused 1500-byte array.
  - The timestamp is always read from bytes 4-11 of that array, whatever the datagram's length. A datagram of at most 4 bytes leaves the previous packet's timestamp in place (`Android.StaleTimestamp`), one of 5-11 bytes mixes old and new bytes, and one of 12 or more supplies a fresh timestamp (`Android.FreshTimestamp`).
  - Kotlin `Long` arithmetic wraps, and its `/` rounds toward zero.
- **The exchange between them** (`exchange.dfy`):
  - The server never sends a Sync. The command-line client therefore takes the session's packet 0 as the Sync, and reads its server time from the seq and the low word of the timestamp rather than from a clock. The Android client would do the same, but as written it never sends its request (see "## Findings"); with a 24-byte request buffer it reads packet 0 the same way.
  - Each request the clients build starts a session on the server.
  - A session sends exactly `count` datagrams. The command-line client has consumed one of them as its Sync and then waits for `count` more. Only `count - 1` remain, so its last receive waits for a datagram this session never sends (`Exchange.SessionLeavesTooFew`).

Sockets and clocks are not modelled as such:

- A receive is a `Recv` value: an error, or the datagram as sent.
- The socket truncates a datagram to the buffer size.
- The successive readings of a clock are a sequence of values given as a parameter.

The clock offset comes from a single reply.

- The client does not estimate the offset from probes and keeps no best sample: it takes one reply and uses the midpoint of its own two clock readings.
- No session sends periodic clock samples: a session thread only sends its `count` packets.
- So the first reply to a burst request is data packet 0 (see `Exchange.FirstPacketTakenAsSync`).

## Model

| member | source | states |
|---|---|---|
| Bytes.FromToLE | src/server.cpp:19-26 | decoding a little-endian encoding of `n` bytes gives back any value below 256^n |
| Bytes.ToFromLE | src/server.cpp:19-26 | re-encoding a decoded byte string gives back the same bytes |
| Bytes.StoreU32IsLE | src/server.cpp:19-26 | the four-byte store of a `uint32_t` is its little-endian encoding |
| Bytes.StoreU64IsLE | src/server.cpp:19-26 | the eight-byte store of a `uint64_t` (low word, then high word) is its little-endian encoding |
| Bytes.LoadStoreU32 | src/client.cpp:171 | loading the four bytes stored from a `uint32_t` gives the value back |
| Bytes.LoadStoreU64 | src/client.cpp:171 | loading the eight bytes stored from a `uint64_t` gives the value back |
| Bytes.StoreLoadU32 | src/server.cpp:158 | storing the value loaded from four bytes gives the same bytes |
| Bytes.StoreLoadU64 | src/server.cpp:158 | storing the value loaded from eight bytes gives the same bytes |
| Bytes.Signed32 | android-client/app/src/main/java/ar/com/telecom/speedtestgamer/MainActivity.kt:121-122 | a signed `Int` read from 32 bits has those bits modulo 2^32 |
| Bytes.Signed64 | src/client.cpp:153 | `static_cast<int64_t>` of a `uint64_t` has the same bits modulo 2^64 |
| Bytes.SignedWrap32 | src/client.cpp:128 | a signed `int` stored as `uint32_t` and read back as signed is unchanged |
| Bytes.WrapU64 | src/client.cpp:154 | unsigned 64-bit arithmetic keeps the exact result modulo 2^64 |
| Bytes.WrapI64 | android-client/app/src/main/java/ar/com/telecom/speedtestgamer/MainActivity.kt:123 | a `Long` result is congruent to the exact one modulo 2^64, and equal to it when it fits |
| Bytes.TruncDiv | android-client/app/src/main/java/ar/com/telecom/speedtestgamer/MainActivity.kt:123 | `/` on `Long` rounds toward zero: the remainder has the sign of the dividend and is smaller than the divisor in size |
| Wire.EncodeHeader | src/server.cpp:19-26 | definition: the packed header, seq @0, timestamp_ns @4, server_id @12, tick_ms @16, 20 bytes in all; its inverse is `Wire.HeaderRoundTrip` |
| Wire.DecodeHeader | src/client.cpp:170-176 | definition: the header `memcpy`, reading the same four fields from the first 20 bytes only; see `Wire.HeaderBytesRoundTrip` |
| Wire.EncodeRequest | src/client.cpp:50-58 | definition: the packed request, count @0, client_time_ns @4, client_id @12, payload_size @16, tick_request_ms @20, 24 bytes in all; see `Wire.RequestRoundTrip` |
| Wire.DecodeRequest | src/server.cpp:157-158 | definition: the server's request `memcpy` from the first 24 bytes; see `Wire.RequestBytesRoundTrip` |
| Wire.EncodeSyncRequest | src/server.cpp:36-38 | definition: the 8-byte probe, client_time_ns @0; see `Wire.SyncRequestRoundTrip` |
| Wire.DecodeSyncRequest | src/server.cpp:144-145 | definition: the probe `memcpy` from the first 8 bytes; see `Wire.SyncRequestBytesRoundTrip` |
| Wire.EncodeSyncResponse | src/server.cpp:146-149 | definition: the 16-byte reply, recv_time_ns @0, send_time_ns @8; see `Wire.SyncResponseRoundTrip` |
| Wire.DecodeSyncResponse | src/server.cpp:40-43 | definition: the same layout read back; see `Wire.SyncResponseBytesRoundTrip` |
| Wire.EncodeSync | src/client.cpp:38-42 | definition: the 16-byte Sync, server_time_ns @0, server_id @8, tick_ms @12; see `Wire.SyncRoundTrip` |
| Wire.DecodeSync | src/client.cpp:146-147 | definition: the Sync read from the first 16 bytes of the first reply; see `Wire.SyncBytesRoundTrip` |
| Wire.HeaderRoundTrip | src/server.cpp:172-179 | a header the server packs is read back field for field by the client, whatever bytes follow |
| Wire.HeaderBytesRoundTrip | src/client.cpp:170-176 | any 20 bytes read as a header re-encode to the same 20 bytes |
| Wire.RequestRoundTrip | src/server.cpp:123-131 | the server's 24-byte `memcpy` of a request gives back every field the client packed, whatever follows |
| Wire.RequestBytesRoundTrip | src/client.cpp:50-58 | any 24 bytes read as a request re-encode to the same 24 bytes |
| Wire.SyncRequestRoundTrip | src/server.cpp:36-38 | the 8-byte probe decodes to the timestamp it was built from |
| Wire.SyncRequestBytesRoundTrip | src/server.cpp:144-145 | any 8 bytes read as a probe re-encode to the same 8 bytes |
| Wire.SyncResponseRoundTrip | src/server.cpp:40-43 | the 16-byte SyncResponse decodes to its two timestamps |
| Wire.SyncResponseBytesRoundTrip | src/server.cpp:40-43 | any 16 bytes read as a SyncResponse re-encode to the same bytes |
| Wire.SyncRoundTrip | src/client.cpp:38-42 | the 16-byte Sync decodes to its three fields |
| Wire.SyncBytesRoundTrip | src/client.cpp:146-147 | any 16 bytes read as a Sync re-encode to the same 16 bytes |
| Wire.HeaderReadAsSync | src/client.cpp:146-147 | the first 16 bytes of a header read as a Sync: server_time_ns = seq + 2^32·(low word of timestamp), server_id = high word of timestamp, tick_ms = server_id |
| Net.Truncate | src/client.cpp:163-164 | a received datagram keeps its first `min(length, capacity)` bytes; an error stays an error |
| Net.ReceiveInto | src/client.cpp:163-164 | `recvfrom` returns the byte count (or -1), writes the truncated datagram at the start of the buffer and leaves the rest of the buffer as it was |
| Stats.BoundsStep | src/client.cpp:183-185 | appending a latency and updating `min`/`max` with the two `if`s keeps: min is a recorded latency and at most every one, and max is 0 or a recorded latency and at least every one |
| Server.Classify | src/server.cpp:137-155 | definition: the byte count alone decides: negative is an error, exactly 8 a probe, otherwise below 24 ignored, else a burst request; its consequences are `Server.DroppedExactly` and `Server.SpawnOnlyFromRequests` |
| Server.Step | src/server.cpp:137-171 | definition: one pass of the receive loop on one datagram cut to 1500 bytes: ignore, reply with two clock readings, or spawn a session; see `Server.ProbeAnswered`, `Server.BurstStartsSession` |
| Server.EffectiveTick | src/server.cpp:166 | the session tick is the server's own tick when it is positive, and the requested tick otherwise |
| Server.ProbeAnswered | src/server.cpp:143-151 | an 8-byte datagram gets a 16-byte reply holding the next two clock readings, independent of its contents |
| Server.DroppedExactly | src/server.cpp:137-155 | a datagram is ignored if and only if it is a receive error or is shorter than 24 bytes and not 8 bytes long |
| Server.BurstStartsSession | src/server.cpp:153-171 | a datagram of 24 bytes or more starts a session for the request in its first 24 bytes, with the effective tick, and reads no clock |
| Server.SpawnOnlyFromRequests | src/server.cpp:143-171 | a session starts if and only if the datagram has at least 24 bytes; every reply is 16 bytes |
| Server.ServeSpec | src/server.cpp:133-185 | definition: the loop's actions over an inbox, each probe consuming the next two clock readings; see `Server.ServeActions` |
| Server.Serve | src/server.cpp:133-185 | the receive loop produces, in order, the action for each datagram, each probe using the next two clock readings |
| Server.ServeActions | src/server.cpp:133-158 | one action per datagram; action `i` is one pass of the loop over datagram `i` with the clock readings the earlier probes left |
| Server.ServeLength | src/server.cpp:133-141 | the loop takes exactly one action per datagram, errors included |
| Server.ServeRepliesOrdered | src/server.cpp:147-148 | with a clock that never goes back, every SyncResponse has recv_time_ns <= send_time_ns |
| Server.SessionPacket | src/server.cpp:172-180 | definition: the datagram for seq `i`, the packed header with server_id 1 followed by payload_size zeros; see `Server.SessionPacketShape` |
| Server.SessionUpTo | src/server.cpp:174-183 | definition: the events after the first `n` iterations, each a send followed by a pause unless the tick is 0 or it was the last packet; see `Server.SessionPaced` |
| Server.Session | src/server.cpp:171-184 | definition: all `count` iterations; see `Server.RunSession`, `Server.SessionUnpaced` |
| Server.SessionPacketShape | src/server.cpp:172-180 | each session datagram is 20 + payload_size bytes, decodes to (seq, timestamp, server_id 1, tick), and is zero after the header |
| Server.RunSession | src/server.cpp:171-184 | the session thread's loop over the reused buffer emits exactly the specified sequence of sends and pauses |
| Server.BufferHoldsPacket | src/server.cpp:173-179 | after the header `memcpy` the zero-filled buffer is the header followed by the zero payload |
| Server.SessionUnpaced | src/server.cpp:174-182 | with tick 0 a session is `count` sends with no pause, send `k` carrying seq `k` and clock reading `k` |
| Server.SessionPaced | src/server.cpp:174-182 | with a positive tick, sends and pauses of `tick` alternate: send `k` at position `2k`, and `count - 1` pauses with none after the last send |
| Server.EmptySession | src/server.cpp:174 | a request for 0 packets sends nothing |
| Server.SessionTimestampsOrdered | src/server.cpp:176 | with a clock that never goes back, the timestamps of a session's datagrams never decrease |
| Client.Iterations | src/client.cpp:160 | `for (int i = 0; i < count; ++i)` runs `count` times, and not at all for a negative count |
| Client.ClientRequest | src/client.cpp:127-134 | definition: the request the client packs, with `count` converted to `uint32_t`; see `Client.ClientRequestFields` |
| Client.ClientRequestFields | src/client.cpp:127-134 | the server reads every field of the client's request back; the count is `count` modulo 2^32, which reads back as the signed `count` |
| Client.FirstReply | src/client.cpp:146-151 | the run ends if and only if the first receive fails or returns fewer than 16 bytes; otherwise the Sync is the reply's first 16 bytes |
| Client.Midpoint | src/client.cpp:154 | when the clock did not go back, the midpoint is `send + (recv - send) / 2` without wrap-around |
| Client.OffsetNs | src/client.cpp:152-154 | the offset is server time minus midpoint modulo 2^64, and exactly that difference when it fits in `int64_t` |
| Client.LatencyNs | src/client.cpp:182 | the latency numerator is `now - timestamp + offset` modulo 2^64 |
| Client.DecodePacket | src/client.cpp:170-180 | the packet has the header's four fields and a payload of exactly payload_size bytes: received bytes first, zeros after |
| Client.Accepts | src/client.cpp:163-168 | definition: a receive is used when `recvfrom` into the 20 + payload_size buffer returns at least 20 bytes |
| Client.LatencyOf | src/client.cpp:169-182 | definition: the latency of an accepted datagram, from the header in the bytes received; see `Exchange.SessionPacketMeasured` |
| Client.LatencyTrace | src/client.cpp:160-183 | definition: the latencies of the first `n` iterations, skipping rejected receives; see `Client.TraceLength`, `Client.TraceAllAccepted` |
| Client.MeasureStep | src/client.cpp:161-185 | one iteration appends the latency of the datagram exactly when it has at least 20 bytes, and keeps the running bounds |
| Client.MeasureLoop | src/client.cpp:160-185 | the loop's latencies are the trace of the accepted datagrams in order, with min/max as running bounds |
| Client.RunClient | src/client.cpp:126-204 | the request sent; exit status 1 exactly when the first reply is short; otherwise the latency trace under the computed offset and its bounds |
| Client.TraceLength | src/client.cpp:160-168 | at most one latency per iteration, and exactly `count` when no datagram is skipped |
| Client.TraceAllAccepted | src/client.cpp:160-183 | when no datagram is skipped, latency `i` is that of datagram `i` |
| Client.MidpointBetween | src/client.cpp:154 | the midpoint lies between the send and receive readings |
| Client.OffsetIsSkew | src/client.cpp:152-154 | with symmetric delays and a server clock `theta` ahead, the offset is exactly `theta` |
| Client.LatencyIsDelay | src/client.cpp:182 | with the right offset, the latency is the true one-way delay |
| Client.DecodeZeroPayload | src/client.cpp:170-180 | a session datagram decodes to its header and an all-zero payload of the requested size |
| Android.ByteBuf.Allocate | android-client/app/src/main/java/ar/com/telecom/speedtestgamer/MainActivity.kt:104 | `ByteBuffer.allocate(n)` is a fresh zero array of `n` bytes, position 0 and limit `n` |
| Android.ByteBuf.Wrap | android-client/app/src/main/java/ar/com/telecom/speedtestgamer/MainActivity.kt:133 | `ByteBuffer.wrap(a, off, len)` views `a` itself, position `off` and limit `off + len` |
| Android.ByteBuf.PutInt | android-client/app/src/main/java/ar/com/telecom/speedtestgamer/MainActivity.kt:105 | overflow if and only if fewer than 4 bytes remain (nothing changes then); otherwise the 4 little-endian bytes are written at the position, which moves 4 on |
| Android.ByteBuf.PutLong | android-client/app/src/main/java/ar/com/telecom/speedtestgamer/MainActivity.kt:107 | the same for 8 bytes |
| Android.ByteBuf.GetInt | android-client/app/src/main/java/ar/com/telecom/speedtestgamer/MainActivity.kt:121-122 | underflow if and only if fewer than 4 bytes remain; otherwise the signed value of the 4 bytes at the position |
| Android.ByteBuf.GetLong | android-client/app/src/main/java/ar/com/telecom/speedtestgamer/MainActivity.kt:120 | underflow if and only if fewer than 8 bytes remain; otherwise the signed value of the 8 bytes at the position |
| Android.RequestBytes | android-client/app/src/main/java/ar/com/telecom/speedtestgamer/MainActivity.kt:104-110 | definition: the 24 bytes the five puts write, each `Int`/`Long` as its two's complement bits, client_id 0; see `Exchange.AndroidRequestStartsSession` |
| Android.BuildRequest | android-client/app/src/main/java/ar/com/telecom/speedtestgamer/MainActivity.kt:104-111 | with fewer than 24 bytes of capacity a put overflows; otherwise the array is the 24-byte request, with client_id 0, followed by zeros |
| Android.SyncBytes | android-client/app/src/main/java/ar/com/telecom/speedtestgamer/MainActivity.kt:115-117 | definition: `syncBuf` after the receive, the reply's first 16 bytes over zeros; see `Android.SyncBytesOfReply` |
| Android.ReadSync | android-client/app/src/main/java/ar/com/telecom/speedtestgamer/MainActivity.kt:115-122 | serverTime and usedTick are the Sync fields of the 16-byte receive buffer, read as signed |
| Android.SyncBytesOfReply | android-client/app/src/main/java/ar/com/telecom/speedtestgamer/MainActivity.kt:115-117 | a reply of 16 bytes or more fills `syncBuf`; a shorter one is padded with zeros instead of failing |
| Android.OffsetL | android-client/app/src/main/java/ar/com/telecom/speedtestgamer/MainActivity.kt:123 | the offset is congruent modulo 2^64 to server time minus the truncated midpoint |
| Android.LatencyL | android-client/app/src/main/java/ar/com/telecom/speedtestgamer/MainActivity.kt:138 | the latency numerator is `now - ts + offset` modulo 2^64, and exactly that when it fits in a `Long` |
| Android.BufferAfter | android-client/app/src/main/java/ar/com/telecom/speedtestgamer/MainActivity.kt:128-131 | definition: the 1500-byte array after `k` receives, each writing its datagram over the start and leaving the rest; see `Android.FreshTimestamp`, `Android.StaleTimestamp` |
| Android.TimestampRead | android-client/app/src/main/java/ar/com/telecom/speedtestgamer/MainActivity.kt:133-135 | definition: the `Long` in bytes 4-11 of the array; see `Android.ReadHeader` |
| Android.TraceL | android-client/app/src/main/java/ar/com/telecom/speedtestgamer/MainActivity.kt:129-139 | definition: the latencies of the first `n` iterations, one per iteration; see `Android.MeasureLoopL` |
| Android.ReadHeader | android-client/app/src/main/java/ar/com/telecom/speedtestgamer/MainActivity.kt:133-137 | the header view yields the `Long` in bytes 4-11 of the packet array |
| Android.MeasureOne | android-client/app/src/main/java/ar/com/telecom/speedtestgamer/MainActivity.kt:130-138 | one receive advances the packet array by one datagram, and the latency uses the timestamp the array then holds |
| Android.MeasureStep | android-client/app/src/main/java/ar/com/telecom/speedtestgamer/MainActivity.kt:129-141 | one iteration extends the latency trace by one and keeps the running bounds |
| Android.MeasureLoopL | android-client/app/src/main/java/ar/com/telecom/speedtestgamer/MainActivity.kt:125-151 | exactly `count` latencies, one per iteration whatever was received, with min/max as running bounds |
| Android.RunTestWith | android-client/app/src/main/java/ar/com/telecom/speedtestgamer/MainActivity.kt:98-151 | with a request buffer of fewer than 24 bytes the test fails with an overflow; otherwise it sends the padded request and records the trace under the computed offset |
| Android.RunTest | android-client/app/src/main/java/ar/com/telecom/speedtestgamer/MainActivity.kt:104-110 | as written, `allocate(20)` makes the fifth put overflow, so every run fails before sending |
| Android.RunTestCorrected | android-client/app/src/main/java/ar/com/telecom/speedtestgamer/MainActivity.kt:98-151 | with a 24-byte request buffer the test sends exactly the server's request layout and records `count` latencies |
| Android.FreshTimestamp | android-client/app/src/main/java/ar/com/telecom/speedtestgamer/MainActivity.kt:130-135 | a datagram of at least 12 bytes supplies the timestamp that is read |
| Android.StaleTimestamp | android-client/app/src/main/java/ar/com/telecom/speedtestgamer/MainActivity.kt:130-135 | a datagram of at most 4 bytes leaves the previous timestamp in the array, and it is read again |
| Android.OffsetsAgree | android-client/app/src/main/java/ar/com/telecom/speedtestgamer/MainActivity.kt:123 | for non-negative clocks that did not go back, the Kotlin offset equals the C++ one |
| Android.LatenciesAgree | android-client/app/src/main/java/ar/com/telecom/speedtestgamer/MainActivity.kt:138 | the Kotlin latency has the same 64 bits as the C++ one |
| Exchange.ClientRequestStartsSession | src/client.cpp:127-134 | the command-line client's request starts a session for `count` modulo 2^32 with its other fields unchanged |
| Exchange.CountAsUnsigned | src/client.cpp:128 | a non-negative count is sent as is; a negative one as `count + 2^32` |
| Exchange.AndroidRequestStartsSession | android-client/app/src/main/java/ar/com/telecom/speedtestgamer/MainActivity.kt:104-112 | the Android request, once it is 24 bytes long, starts a session with client_id 0 and its fields read as unsigned |
| Exchange.SyncPrefix | src/client.cpp:147 | only the first 16 bytes of the first reply are read as the Sync |
| Exchange.SessionBeginsWithPacketZero | src/server.cpp:174-180 | a non-empty session begins by sending packet 0 with the first clock reading |
| Exchange.FirstPacketTakenAsSync | src/client.cpp:146-151 | packet 0, read as a Sync by either client: server time = 2^32·(low word of its timestamp), server_id = high word of its timestamp, tick_ms = 1 |
| Exchange.AndroidOffsetFromPacketZero | android-client/app/src/main/java/ar/com/telecom/speedtestgamer/MainActivity.kt:115-123 | the Android offset is computed from that shifted low word, not from a server clock reading |
| Exchange.SessionPacketMeasured | src/client.cpp:163-182 | every session packet is accepted by a client asking for the same payload size, and its latency uses the packet's own timestamp |
| Exchange.SessionPacketTimestampL | android-client/app/src/main/java/ar/com/telecom/speedtestgamer/MainActivity.kt:130-135 | the Android client reads a session packet's timestamp as the signed `Long` of the same bits |
| Exchange.Datagrams | src/server.cpp:180 | definition: the bytes of a session's `sendto` calls, in order |
| Exchange.Packets | src/server.cpp:174-180 | definition: packets 0 to `n - 1`, packet `k` stamped with `clock[k]` |
| Exchange.PacketsAt | src/server.cpp:175-176 | the `k`-th of those packets carries seq `k` and clock reading `k` |
| Exchange.SessionDatagrams | src/server.cpp:174-183 | the datagrams of the first `n` iterations are packets 0 to `n - 1`, in order, with nothing else sent |
| Exchange.SessionSendCount | src/server.cpp:174-180 | a session sends exactly `count` datagrams, the `k`-th being packet `k` stamped with `clock[k]` |
| Exchange.SessionLeavesTooFew | src/client.cpp:160 | for the session its own request starts, the command-line client takes packet 0 as the Sync and is left `count - 1` datagrams for `count` receives |
| Exchange.SessionWithSync | src/client.cpp:146-147 | definition: a session that first sends the Sync the clients read (a clock reading, server_id 1, the tick), then its `count` packets |
| Exchange.SyncSessionFirstReply | src/client.cpp:146-154 | both clients read that session's first datagram as the Sync it was built from, so the offset uses a clock reading |
| Exchange.SyncSessionFeedsLoop | src/client.cpp:160-163 | after the Sync, that session sends exactly the `count` packets the client's loop receives, in order |

## Left out

- Sockets, `sendto`, `bind` and address handling are not modelled. A receive is an input value, and a send is the bytes it would carry.
- A `sendto` failure is not modelled: in the session thread and for the probe reply its result is ignored. The command-line client's exit on a failed request send is left out too.
- Threads are not modelled. A session is a sequence of `Send`/`Pause` events rather than a concurrently running thread, and the interleaving of concurrent sessions on one socket is not modelled.
- `sleep_for` is a `Pause` event; real time is not modelled.
- Clocks (`now_ns`, `System.nanoTime`) are sequences of readings given as parameters.
- Floating point is not modelled. The `/ 1e6` conversion to milliseconds is left out, so latencies and the running min/max are the integer nanosecond numerators. The averages, the `double` sums and all output formatting are left out.
- `Stats.RunningBounds`: the starting minimum `DBL_MAX` / `Double.MAX_VALUE` is stood for by a value above every possible numerator.
- Logging, the console display, the Android UI (series, stats view, coroutine dispatch) and command-line parsing (`atoi`, defaults, the server's tick argument) are not modelled. The server's tick is a parameter.
- Client.MeasureLoop: the `recvfrom` calls at src/client.cpp:147 and 163 have no timeout and block forever when no datagram arrives. The model is given one `Recv` for every iteration, so a receive that never returns is not modelled. Against this server every loss-free run with a positive count ends that way (`Exchange.SessionLeavesTooFew`). With a count of 0 the session sends nothing (`Server.EmptySession`), so the client blocks at the first receive. With a negative count the server sends count + 2^32 packets (`Exchange.CountAsUnsigned`), packet 0 is taken as the Sync, and the loop runs no iterations (`Client.Iterations`), so the run ends normally.
- Client.RunClient: the same; it describes only runs in which every receive returns.
- Android.RunTestCorrected: it assumes a `count`-th datagram that the session never sends. In a real run the last receive waits 3 s (`soTimeout`) and `runTest` ends with `SocketTimeoutException`, which is not modelled.
- Android `soTimeout`: a receive timeout or any exception other than `BufferOverflowException`/`BufferUnderflowException` is not modelled. Every Android receive is assumed to deliver a datagram.
- The Android `DatagramPacket` length after a receive is not used by the source and is not modelled. Only its effect on the array (the first `min(length, 1500)` bytes overwritten) is.
- Signed overflow in the C++ `int64_t` subtraction at src/client.cpp:153-154 is undefined behaviour. It is modelled as two's complement wrap-around, as two's-complement targets behave in practice.
- The uninitialised C++ receive buffer (src/client.cpp:112) is not modelled as garbage. Only the bytes just received are ever read from it.
- The probe's contents are copied but never used (src/server.cpp:144-145), so the model does not decode them.

## Findings

| source | as written | input that shows it | evidently intended | confidence | as-written member | corrected member |
|---|---|---|---|---|---|---|
| android-client/app/src/main/java/ar/com/telecom/speedtestgamer/MainActivity.kt:104 | `ByteBuffer.allocate(20)` for a request of 4+8+4+4+4 = 24 bytes; the fifth `putInt` (tickMs) throws `BufferOverflowException` | any call of `runTest`, e.g. count 10, tickMs 0, payloadSize 0 | `allocate(24)`, the server's 24-byte `Request` layout | high; not executed | Android.RunTest | Android.RunTestCorrected |
| src/server.cpp:171-184 | the session sends only data packets, so the 16-byte first reply both clients read as a Sync (src/client.cpp:147, android-client/app/src/main/java/ar/com/telecom/speedtestgamer/MainActivity.kt:117) is packet 0 | any request with count ≥ 1, packet 0 stamped `ts`: server_time_ns is 2^32·(ts mod 2^32) and server_id is ts div 2^32, not a clock reading and 1 | the session first sends a Sync of a clock reading, the server_id and the tick | medium; not executed | Exchange.FirstPacketTakenAsSync | Exchange.SyncSessionFirstReply |
| src/client.cpp:160 | after packet 0 is taken as the Sync, the loop still waits for `count` datagrams, and the session sends only `count - 1` more | count 1, no loss: the only packet is taken as the Sync, and the loop's one `recvfrom` blocks forever | the Sync followed by `count` packets, one per loop iteration | medium; not executed | Exchange.SessionLeavesTooFew | Exchange.SyncSessionFeedsLoop |

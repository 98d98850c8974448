/** How the three programs meet on the wire: what the server makes of each
    client's request, and what each client makes of the datagrams a session sends.
    The server never sends a Sync, so both clients take the session's first packet
    as one (the Android client once its request buffer holds all 24 bytes). The
    last part models a session that does send a Sync first. */
module Exchange {
  import opened Wrappers
  import opened Bytes
  import opened Wire
  import opened Net
  import Server
  import Client
  import Android

  // ---------------------------------------------------------------------
  // Requests.

  /** The command-line client's request starts a session for its `count` taken modulo
      2^32 (see `CountAsUnsigned`). */
  lemma ClientRequestStartsSession(serverTick: i32, count: i32, sendNs: u64, clientId: u32,
                                   payloadSize: u32, tickRequestMs: u32, clock: seq<u64>)
    ensures Server.ClockReads(Datagram(Client.ClientRequest(count, sendNs, clientId, payloadSize, tickRequestMs))) == 0
    ensures var req := Request(count % U32_LIMIT, sendNs, clientId, payloadSize, tickRequestMs);
      Server.Step(serverTick, Datagram(Client.ClientRequest(count, sendNs, clientId, payloadSize, tickRequestMs)), clock)
      == Server.Spawn(req, Server.EffectiveTick(serverTick, req))
  {
    var req := Request(count % U32_LIMIT, sendNs, clientId, payloadSize, tickRequestMs);
    Server.BurstStartsSession(serverTick, req, [], clock);
    assert EncodeRequest(req) + [] == EncodeRequest(req);
  }

  /** The count a signed 32-bit value becomes in the request's unsigned field. */
  lemma CountAsUnsigned(count: i32)
    ensures count >= 0 ==> count % U32_LIMIT == count
    ensures count < 0 ==> count % U32_LIMIT == count + U32_LIMIT
  {
    if count < 0 {
      DivModUnique(count, U32_LIMIT, -1, count + U32_LIMIT);
    }
  }

  /** The Android request, once the buffer holds all 24 bytes, starts a session with
      client_id 0 and every `Int` and `Long` reinterpreted as unsigned. */
  lemma AndroidRequestStartsSession(serverTick: i32, count: i32, sendTime: i64, payloadSize: i32,
                                    tickMs: i32, clock: seq<u64>)
    ensures Server.ClockReads(Datagram(Android.RequestBytes(count, sendTime, payloadSize, tickMs))) == 0
    ensures var req := Request(count % U32_LIMIT, sendTime % U64_LIMIT, 0, payloadSize % U32_LIMIT, tickMs % U32_LIMIT);
      Server.Step(serverTick, Datagram(Android.RequestBytes(count, sendTime, payloadSize, tickMs)), clock)
      == Server.Spawn(req, Server.EffectiveTick(serverTick, req))
  {
    var req := Request(count % U32_LIMIT, sendTime % U64_LIMIT, 0, payloadSize % U32_LIMIT, tickMs % U32_LIMIT);
    Server.BurstStartsSession(serverTick, req, [], clock);
    assert EncodeRequest(req) + [] == EncodeRequest(req);
  }

  // ---------------------------------------------------------------------
  // The first reply.

  /** Only the first 16 bytes of a datagram are read as a Sync. */
  lemma SyncPrefix(s: seq<byte>)
    requires |s| >= SYNC_SIZE
    ensures DecodeSync(s[..SYNC_SIZE]) == DecodeSync(s)
  {
    assert s[..SYNC_SIZE][0..8] == s[0..8];
    assert s[..SYNC_SIZE][8..12] == s[8..12];
    assert s[..SYNC_SIZE][12..16] == s[12..16];
  }

  /** A session begins with its packet 0, stamped with the first clock reading. */
  lemma SessionBeginsWithPacketZero(req: Request, tick: u32, clock: seq<u64>)
    requires 0 < req.count <= |clock|
    ensures |Server.Session(req, tick, clock)| > 0
    ensures Server.Session(req, tick, clock)[0]
         == Server.Send(Server.SessionPacket(0, clock[0], tick, req.payloadSize))
  {
    if tick == 0 {
      Server.SessionUnpaced(req, clock, req.count);
    } else {
      Server.SessionPaced(req, tick, clock, req.count);
    }
  }

  /** Packet 0 read as the Sync: server_time_ns is the packet's seq (0) and the low
      word of its timestamp, server_id the high word of the timestamp, and tick_ms
      the server_id 1. Both clients read the same three values. */
  lemma FirstPacketTakenAsSync(ts: u64, tick: u32, payloadSize: u32)
    ensures Client.FirstReply(Datagram(Server.SessionPacket(0, ts, tick, payloadSize)))
         == Some(Sync(U32_LIMIT * (ts % U32_LIMIT), ts / U32_LIMIT, Server.SERVER_ID))
    ensures DecodeSync(Android.SyncBytes(Server.SessionPacket(0, ts, tick, payloadSize)))
         == Sync(U32_LIMIT * (ts % U32_LIMIT), ts / U32_LIMIT, Server.SERVER_ID)
  {
    var s := Server.SessionPacket(0, ts, tick, payloadSize);
    HeaderReadAsSync(PacketHeader(0, ts, Server.SERVER_ID, tick), Zeros(payloadSize));
    SyncPrefix(s);
    Android.SyncBytesOfReply(s);
  }

  /** The offset the Android client derives from packet 0: its server time is the low
      word of the packet's timestamp moved to the high word, not a clock reading. */
  lemma AndroidOffsetFromPacketZero(ts: u64, tick: u32, payloadSize: u32, sendTime: i64, recvTime: i64)
    ensures Android.OffsetL(Signed64(DecodeSync(Android.SyncBytes(Server.SessionPacket(0, ts, tick, payloadSize))).serverTimeNs),
                            sendTime, recvTime)
         == Android.OffsetL(Signed64(U32_LIMIT * (ts % U32_LIMIT)), sendTime, recvTime)
  {
    FirstPacketTakenAsSync(ts, tick, payloadSize);
  }

  // ---------------------------------------------------------------------
  // The packets that follow.

  /** Every packet a session sends is accepted by the command-line client when it
      asks for the same payload size, and its latency uses the packet's own timestamp. */
  lemma SessionPacketMeasured(k: u32, ts: u64, tick: u32, payloadSize: u32, offsetNs: i64, now: u64)
    ensures Client.Accepts(Datagram(Server.SessionPacket(k, ts, tick, payloadSize)), payloadSize)
    ensures Client.LatencyOf(Datagram(Server.SessionPacket(k, ts, tick, payloadSize)), payloadSize, offsetNs, now)
         == Client.LatencyNs(now, ts, offsetNs)
  {
    var s := Server.SessionPacket(k, ts, tick, payloadSize);
    Server.SessionPacketShape(k, ts, tick, payloadSize);
    assert Truncate(Datagram(s), HEADER_SIZE + payloadSize) == Datagram(s);
  }

  /** The Android client reads the timestamp of a session packet in its buffer as the
      signed `Long` of the same 64 bits. */
  lemma SessionPacketTimestampL(datagrams: seq<seq<byte>>, k: nat, i: u32, ts: u64, tick: u32, payloadSize: u32)
    requires k < |datagrams| && datagrams[k] == Server.SessionPacket(i, ts, tick, payloadSize)
    ensures Android.TimestampRead(Android.BufferAfter(datagrams, k + 1)) == Signed64(ts)
  {
    Server.SessionPacketShape(i, ts, tick, payloadSize);
    Android.FreshTimestamp(datagrams, k);
  }

  /** The datagrams among a sequence of session events, in the order they are sent. */
  function Datagrams(events: seq<Server.Event>): seq<seq<byte>>
  {
    if events == [] then []
    else
      var last := events[|events| - 1];
      Datagrams(events[..|events| - 1]) + (if last.Send? then [last.bytes] else [])
  }

  lemma {:induction false} DatagramsAppend(a: seq<Server.Event>, b: seq<Server.Event>)
    ensures Datagrams(a + b) == Datagrams(a) + Datagrams(b)
    decreases |b|
  {
    if b == [] {
      assert a + b == a;
    } else {
      assert (a + b)[..|a + b| - 1] == a + b[..|b| - 1];
      DatagramsAppend(a, b[..|b| - 1]);
    }
  }

  /** Packets 0 to `n - 1` of a session, `clock[k]` being the time read for packet `k`. */
  function Packets(req: Request, tick: u32, clock: seq<u64>, n: nat): seq<seq<byte>>
    requires n <= req.count <= |clock|
  {
    if n == 0 then [] else Packets(req, tick, clock, n - 1) + [Server.SessionPacket(n - 1, clock[n - 1], tick, req.payloadSize)]
  }

  /** The `k`-th of those packets is packet `k`. */
  lemma {:induction false} PacketsAt(req: Request, tick: u32, clock: seq<u64>, n: nat)
    requires n <= req.count <= |clock|
    ensures |Packets(req, tick, clock, n)| == n
    ensures forall k :: 0 <= k < n ==> Packets(req, tick, clock, n)[k] == Server.SessionPacket(k, clock[k], tick, req.payloadSize)
  {
    if n > 0 {
      PacketsAt(req, tick, clock, n - 1);
    }
  }

  /** The datagrams a session has sent once its first `n` packets are out. */
  lemma {:induction false} SessionDatagrams(req: Request, tick: u32, clock: seq<u64>, n: nat)
    requires n <= req.count <= |clock|
    ensures Datagrams(Server.SessionUpTo(req, tick, clock, n)) == Packets(req, tick, clock, n)
  {
    if n > 0 {
      SessionDatagrams(req, tick, clock, n - 1);
      SessionDatagramsStep(req, tick, clock, n);
    }
  }

  /** Packet `n - 1` is the datagram the `n`-th step of a session adds. */
  lemma SessionDatagramsStep(req: Request, tick: u32, clock: seq<u64>, n: nat)
    requires 0 < n <= req.count <= |clock|
    ensures Datagrams(Server.SessionUpTo(req, tick, clock, n))
         == Datagrams(Server.SessionUpTo(req, tick, clock, n - 1)) + [Server.SessionPacket(n - 1, clock[n - 1], tick, req.payloadSize)]
  {
    var prev := Server.SessionUpTo(req, tick, clock, n - 1);
    var packet := Server.SessionPacket(n - 1, clock[n - 1], tick, req.payloadSize);
    var pause := Server.PauseAfter(req, tick, n - 1);
    assert Server.SessionUpTo(req, tick, clock, n) == prev + [Server.Send(packet)] + pause;
    DatagramsStep(prev, packet, pause);
  }

  /** One more send, followed by pauses only, adds one datagram. */
  lemma DatagramsStep(prev: seq<Server.Event>, packet: seq<byte>, pause: seq<Server.Event>)
    requires forall e :: e in pause ==> e.Pause?
    ensures Datagrams(prev + [Server.Send(packet)] + pause) == Datagrams(prev) + [packet]
  {
    var send := [Server.Send(packet)];
    DatagramsAppend(prev, send);
    DatagramsAppend(prev + send, pause);
    assert Datagrams(send) == [packet] by {
      assert send[..0] == [];
    }
    NoDatagrams(pause);
  }

  /** Pauses send nothing. */
  lemma {:induction false} NoDatagrams(events: seq<Server.Event>)
    requires forall e :: e in events ==> e.Pause?
    ensures Datagrams(events) == []
  {
    if events != [] {
      var init := events[..|events| - 1];
      assert forall e :: e in init ==> e in events;
      assert events[|events| - 1] in events;
      NoDatagrams(init);
    }
  }

  /** A session sends exactly `count` datagrams, packets 0 to `count - 1` in order. */
  lemma SessionSendCount(req: Request, tick: u32, clock: seq<u64>)
    requires req.count <= |clock|
    ensures |Datagrams(Server.Session(req, tick, clock))| == req.count
    ensures forall k :: 0 <= k < req.count ==>
      Datagrams(Server.Session(req, tick, clock))[k] == Server.SessionPacket(k, clock[k], tick, req.payloadSize)
  {
    SessionDatagrams(req, tick, clock, req.count);
    PacketsAt(req, tick, clock, req.count);
  }

  /** The session a command-line client's request starts leaves it one datagram short:
      the first reply takes packet 0 as the Sync, and only `count - 1` datagrams
      remain for the `count` receives of the loop, so its last `recvfrom` waits for a
      datagram this session never sends. */
  lemma SessionLeavesTooFew(serverTick: i32, count: i32, sendNs: u64, clientId: u32,
                            payloadSize: u32, tickRequestMs: u32, clock: seq<u64>)
    requires 0 < count <= |clock|
    ensures var req := DecodeRequest(Client.ClientRequest(count, sendNs, clientId, payloadSize, tickRequestMs));
      && req.count <= |clock|
      && var ds := Datagrams(Server.Session(req, Server.EffectiveTick(serverTick, req), clock));
      && |ds| > 0
      && Client.FirstReply(Datagram(ds[0])).Some?
      && |ds[1..]| == Client.Iterations(count) - 1
  {
    Client.ClientRequestFields(count, sendNs, clientId, payloadSize, tickRequestMs);
    CountAsUnsigned(count);
    var req := DecodeRequest(Client.ClientRequest(count, sendNs, clientId, payloadSize, tickRequestMs));
    var tick := Server.EffectiveTick(serverTick, req);
    SessionSendCount(req, tick, clock);
    FirstPacketTakenAsSync(clock[0], tick, payloadSize);
  }

  // ---------------------------------------------------------------------
  // A session that sends the Sync the clients wait for.

  /** A session that first sends a Sync of the clock reading `clock[0]`, the server_id
      and the tick, and then its `count` packets stamped with the readings after it. */
  function SessionWithSync(req: Request, tick: u32, clock: seq<u64>): seq<Server.Event>
    requires req.count < |clock|
  {
    [Server.Send(EncodeSync(Sync(clock[0], Server.SERVER_ID, tick)))] + Server.Session(req, tick, clock[1..])
  }

  /** Both clients read the first datagram of such a session as the Sync it was built
      from, so the server time in the offset is a clock reading. */
  lemma SyncSessionFirstReply(req: Request, tick: u32, clock: seq<u64>)
    requires req.count < |clock|
    ensures |Datagrams(SessionWithSync(req, tick, clock))| > 0
    ensures var d := Datagrams(SessionWithSync(req, tick, clock))[0];
      && Client.FirstReply(Datagram(d)) == Some(Sync(clock[0], Server.SERVER_ID, tick))
      && DecodeSync(Android.SyncBytes(d)) == Sync(clock[0], Server.SERVER_ID, tick)
  {
    var sync := EncodeSync(Sync(clock[0], Server.SERVER_ID, tick));
    var first := [Server.Send(sync)];
    DatagramsAppend(first, Server.Session(req, tick, clock[1..]));
    assert Datagrams(first) == [sync] by {
      assert first[..0] == [];
    }
    SyncRoundTrip(Sync(clock[0], Server.SERVER_ID, tick), []);
    assert sync + [] == sync;
    assert sync[..SYNC_SIZE] == sync;
    Android.SyncBytesOfReply(sync);
  }

  /** After the Sync, such a session sends exactly the `count` packets the
      command-line client's loop receives: packet `k` is the `k`-th datagram after
      the Sync. */
  lemma SyncSessionFeedsLoop(serverTick: i32, count: i32, sendNs: u64, clientId: u32,
                             payloadSize: u32, tickRequestMs: u32, clock: seq<u64>)
    requires 0 < count < |clock|
    ensures var req := DecodeRequest(Client.ClientRequest(count, sendNs, clientId, payloadSize, tickRequestMs));
      && req.count < |clock|
      && var tick := Server.EffectiveTick(serverTick, req);
      && var ds := Datagrams(SessionWithSync(req, tick, clock));
      && |ds[1..]| == Client.Iterations(count)
      && forall k :: 0 <= k < Client.Iterations(count) ==>
           ds[1..][k] == Server.SessionPacket(k, clock[k + 1], tick, payloadSize)
  {
    Client.ClientRequestFields(count, sendNs, clientId, payloadSize, tickRequestMs);
    CountAsUnsigned(count);
    var req := DecodeRequest(Client.ClientRequest(count, sendNs, clientId, payloadSize, tickRequestMs));
    var tick := Server.EffectiveTick(serverTick, req);
    var sync := EncodeSync(Sync(clock[0], Server.SERVER_ID, tick));
    var first := [Server.Send(sync)];
    var rest := Server.Session(req, tick, clock[1..]);
    DatagramsAppend(first, rest);
    assert Datagrams(first) == [sync] by {
      assert first[..0] == [];
    }
    SessionSendCount(req, tick, clock[1..]);
    assert Datagrams(SessionWithSync(req, tick, clock))[1..] == Datagrams(rest);
  }
}

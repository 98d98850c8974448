/** The server (src/server.cpp): its receive loop classifies every datagram by
    length alone, answers clock probes, and starts one session per burst request;
    a session sends `count` header-plus-zero-payload datagrams paced by the tick. */
module Server {
  import opened Bytes
  import opened Wire
  import opened Net

  /** The server_id stamped in every header. */
  const SERVER_ID: u32 := 1

  /** The receive loop's buffer size. */
  const RECV_BUFFER: nat := 1500

  /** How the receive loop treats a datagram, decided by the byte count alone. */
  datatype Kind = Error | Probe | Unknown | Burst

  /** What the loop does with one datagram. */
  datatype Action =
    | Ignore
    | Reply(bytes: seq<byte>)             // sendto back to the sender
    | Spawn(req: Request, tick: u32)      // a detached session thread

  /** What a session does, in order. */
  datatype Event = Send(bytes: seq<byte>) | Pause(ms: u32)

  function Classify(n: int): Kind
  {
    if n < 0 then Error
    else if n == SYNC_REQUEST_SIZE then Probe
    else if n < REQUEST_SIZE then Unknown
    else Burst
  }

  /** The tick a session runs with: the server's own setting when it is positive,
      otherwise the one the client asked for. */
  function EffectiveTick(serverTick: i32, req: Request): (t: u32)
    ensures serverTick > 0 ==> t == serverTick
    ensures serverTick <= 0 ==> t == req.tickRequestMs
  {
    if serverTick > 0 then serverTick else req.tickRequestMs
  }

  /** The number of clock readings the loop takes for one datagram: a probe reads
      the clock twice, once for each timestamp of the reply. */
  function ClockReads(r: Recv): nat
  {
    if Classify(Length(Truncate(r, RECV_BUFFER))) == Probe then 2 else 0
  }

  function ClockUsed(inbox: seq<Recv>): nat
  {
    if inbox == [] then 0 else ClockUsed(inbox[..|inbox| - 1]) + ClockReads(inbox[|inbox| - 1])
  }

  /** One pass of the receive loop, given the clock readings from this point on.
      The probe's own bytes are copied out but never used. */
  function Step(serverTick: i32, r: Recv, clock: seq<u64>): Action
    requires ClockReads(r) <= |clock|
  {
    var got := Truncate(r, RECV_BUFFER);
    match Classify(Length(got))
    case Error => Ignore
    case Probe => Reply(EncodeSyncResponse(SyncResponse(clock[0], clock[1])))
    case Unknown => Ignore
    case Burst =>
      var req := DecodeRequest(got.bytes);
      Spawn(req, EffectiveTick(serverTick, req))
  }

  // ---------------------------------------------------------------------
  // Classification of one datagram.

  /** An 8-byte datagram is a probe: it is answered with a 16-byte SyncResponse of
      two clock readings, whatever its bytes, and starts no session. */
  lemma ProbeAnswered(serverTick: i32, d1: seq<byte>, d2: seq<byte>, clock: seq<u64>)
    requires |d1| == SYNC_REQUEST_SIZE && |d2| == SYNC_REQUEST_SIZE && |clock| >= 2
    ensures Step(serverTick, Datagram(d1), clock) == Step(serverTick, Datagram(d2), clock)
    ensures Step(serverTick, Datagram(d1), clock).Reply?
    ensures |Step(serverTick, Datagram(d1), clock).bytes| == SYNC_RESPONSE_SIZE
    ensures DecodeSyncResponse(Step(serverTick, Datagram(d1), clock).bytes)
         == SyncResponse(clock[0], clock[1])
  {
    SyncResponseRoundTrip(SyncResponse(clock[0], clock[1]), []);
    assert EncodeSyncResponse(SyncResponse(clock[0], clock[1])) + []
        == EncodeSyncResponse(SyncResponse(clock[0], clock[1]));
  }

  /** A receive error, and any datagram shorter than a request other than a probe,
      is dropped: no reply, no session. Nothing else is. */
  lemma DroppedExactly(serverTick: i32, r: Recv, clock: seq<u64>)
    requires ClockReads(r) <= |clock|
    ensures Step(serverTick, r, clock).Ignore?
        <==> r.RecvError? || (|r.bytes| != SYNC_REQUEST_SIZE && |r.bytes| < REQUEST_SIZE)
  {
  }

  /** A datagram of at least 24 bytes starts a session with the request in its first
      24 bytes; whatever follows is ignored. Only such datagrams start sessions. */
  lemma BurstStartsSession(serverTick: i32, req: Request, extra: seq<byte>, clock: seq<u64>)
    ensures ClockReads(Datagram(EncodeRequest(req) + extra)) == 0
    ensures Step(serverTick, Datagram(EncodeRequest(req) + extra), clock)
         == Spawn(req, EffectiveTick(serverTick, req))
  {
    var d := EncodeRequest(req) + extra;
    var got := Truncate(Datagram(d), RECV_BUFFER);
    assert got.bytes[..REQUEST_SIZE] == d[..REQUEST_SIZE];
    RequestRoundTrip(req, extra);
    RequestRoundTrip(req, got.bytes[REQUEST_SIZE..]);
    assert got.bytes == EncodeRequest(req) + got.bytes[REQUEST_SIZE..];
  }

  lemma SpawnOnlyFromRequests(serverTick: i32, r: Recv, clock: seq<u64>)
    requires ClockReads(r) <= |clock|
    ensures Step(serverTick, r, clock).Spawn? <==> r.Datagram? && |r.bytes| >= REQUEST_SIZE
    ensures Step(serverTick, r, clock).Reply? ==> |Step(serverTick, r, clock).bytes| == SYNC_RESPONSE_SIZE
  {
  }

  // ---------------------------------------------------------------------
  // The receive loop.

  /** What the receive loop does with each datagram of `inbox`, in arrival order,
      when the successive readings of the clock are `clock`. */
  function ServeSpec(serverTick: i32, inbox: seq<Recv>, clock: seq<u64>): seq<Action>
    requires ClockUsed(inbox) <= |clock|
  {
    if inbox == [] then []
    else
      var before := inbox[..|inbox| - 1];
      ServeSpec(serverTick, before, clock)
        + [Step(serverTick, inbox[|inbox| - 1], clock[ClockUsed(before)..])]
  }

  /** The `while (true)` loop of `main`, run over the datagrams that arrive. The
      clock is read only while answering probes, two readings per probe. */
  method Serve(serverTick: i32, inbox: seq<Recv>, clock: seq<u64>) returns (actions: seq<Action>)
    requires ClockUsed(inbox) <= |clock|
    ensures actions == ServeSpec(serverTick, inbox, clock)
  {
    actions := [];
    var used := 0;
    var i := 0;
    while i < |inbox|
      invariant 0 <= i <= |inbox|
      invariant used == ClockUsed(inbox[..i]) <= ClockUsed(inbox)
      invariant actions == ServeSpec(serverTick, inbox[..i], clock)
    {
      var r := inbox[i];
      assert inbox[..i + 1][..i] == inbox[..i];
      ClockUsedMonotone(inbox, i + 1);
      var a := Step(serverTick, r, clock[used..]);
      actions := actions + [a];
      used := used + ClockReads(r);
      i := i + 1;
    }
    assert inbox[..i] == inbox;
  }

  lemma {:induction false} ClockUsedMonotone(inbox: seq<Recv>, i: nat)
    requires i <= |inbox|
    ensures ClockUsed(inbox[..i]) <= ClockUsed(inbox)
    decreases |inbox| - i
  {
    if i < |inbox| {
      ClockUsedMonotone(inbox, i + 1);
      assert inbox[..i + 1][..i] == inbox[..i];
    } else {
      assert inbox[..i] == inbox;
    }
  }

  /** One action per datagram, in order: action `i` is what one pass of the loop does
      with datagram `i`, given the clock readings left after the earlier probes. */
  lemma {:induction false} ServeActions(serverTick: i32, inbox: seq<Recv>, clock: seq<u64>, i: nat)
    requires ClockUsed(inbox) <= |clock| && i < |inbox|
    ensures |ServeSpec(serverTick, inbox, clock)| == |inbox|
    ensures ClockUsed(inbox[..i]) + ClockReads(inbox[i]) <= |clock|
    ensures ServeSpec(serverTick, inbox, clock)[i]
         == Step(serverTick, inbox[i], clock[ClockUsed(inbox[..i])..])
    decreases |inbox|
  {
    var before := inbox[..|inbox| - 1];
    ClockUsedMonotone(inbox, |inbox| - 1);
    if i < |inbox| - 1 {
      ServeActions(serverTick, before, clock, i);
      assert before[..i] == inbox[..i];
    } else {
      assert before == inbox[..i];
      ServeLength(serverTick, before, clock);
    }
  }

  lemma {:induction false} ServeLength(serverTick: i32, inbox: seq<Recv>, clock: seq<u64>)
    requires ClockUsed(inbox) <= |clock|
    ensures |ServeSpec(serverTick, inbox, clock)| == |inbox|
    decreases |inbox|
  {
    if inbox != [] {
      ClockUsedMonotone(inbox, |inbox| - 1);
      assert inbox[..|inbox| - 1] == inbox[..|inbox| - 1];
      ServeLength(serverTick, inbox[..|inbox| - 1], clock);
    }
  }

  /** A probe reply carries two successive clock readings, so with a clock that never
      goes backwards recv_time_ns <= send_time_ns in every SyncResponse sent. */
  lemma {:induction false} ServeRepliesOrdered(serverTick: i32, inbox: seq<Recv>, clock: seq<u64>, i: nat)
    requires ClockUsed(inbox) <= |clock| && Nondecreasing(clock) && i < |inbox|
    ensures |ServeSpec(serverTick, inbox, clock)| == |inbox|
    ensures var a := ServeSpec(serverTick, inbox, clock)[i];
      a.Reply? ==> |a.bytes| == SYNC_RESPONSE_SIZE &&
                   DecodeSyncResponse(a.bytes).recvTimeNs <= DecodeSyncResponse(a.bytes).sendTimeNs
  {
    ServeActions(serverTick, inbox, clock, i);
    var c := clock[ClockUsed(inbox[..i])..];
    if ClockReads(inbox[i]) == 2 {
      var resp := SyncResponse(c[0], c[1]);
      SyncResponseRoundTrip(resp, []);
      assert EncodeSyncResponse(resp) + [] == EncodeSyncResponse(resp);
      assert c[0] == clock[ClockUsed(inbox[..i])] && c[1] == clock[ClockUsed(inbox[..i]) + 1];
    }
  }

  // ---------------------------------------------------------------------
  // A session.

  /** The datagram a session sends for sequence number `i`: the packed header
      followed by `payloadSize` zero bytes. */
  function SessionPacket(i: u32, timestamp: u64, tick: u32, payloadSize: u32): seq<byte>
  {
    EncodeHeader(PacketHeader(i, timestamp, SERVER_ID, tick)) + Zeros(payloadSize)
  }

  /** Every session datagram is 20 + payload_size bytes long, decodes to the header
      it was built from, and is zero from offset 20 on. */
  lemma SessionPacketShape(i: u32, timestamp: u64, tick: u32, payloadSize: u32)
    ensures var s := SessionPacket(i, timestamp, tick, payloadSize);
      && |s| == HEADER_SIZE + payloadSize
      && DecodeHeader(s) == PacketHeader(i, timestamp, SERVER_ID, tick)
      && forall j :: HEADER_SIZE <= j < |s| ==> s[j] == 0
  {
    HeaderRoundTrip(PacketHeader(i, timestamp, SERVER_ID, tick), Zeros(payloadSize));
  }

  /** The datagram a session sends as its `k`-th packet, `clock[k]` being the time
      read for it. */
  function SessionSend(req: Request, tick: u32, clock: seq<u64>, k: nat): Event
    requires k < req.count <= |clock|
  {
    Send(SessionPacket(k, clock[k], tick, req.payloadSize))
  }

  /** The pause after packet `k`: none when the tick is 0 or `k` is the last packet. */
  function PauseAfter(req: Request, tick: u32, k: nat): seq<Event>
  {
    if tick > 0 && k + 1 < req.count then [Pause(tick)] else []
  }

  /** What a session has done once its first `n` packets are out. */
  function SessionUpTo(req: Request, tick: u32, clock: seq<u64>, n: nat): seq<Event>
    requires n <= req.count <= |clock|
  {
    if n == 0 then []
    else SessionUpTo(req, tick, clock, n - 1) + [SessionSend(req, tick, clock, n - 1)] + PauseAfter(req, tick, n - 1)
  }

  /** Everything a session does. */
  function Session(req: Request, tick: u32, clock: seq<u64>): seq<Event>
    requires req.count <= |clock|
  {
    SessionUpTo(req, tick, clock, req.count)
  }

  /** The session thread's body: one reusable buffer of header size plus payload,
      zero-filled once; every iteration overwrites the header part and sends the
      whole buffer, then pauses unless the tick is 0 or this was the last packet. */
  method RunSession(req: Request, tick: u32, clock: seq<u64>) returns (events: seq<Event>)
    requires req.count <= |clock|
    ensures events == Session(req, tick, clock)
  {
    var hdr := PacketHeader(0, 0, 0, 0);
    var buf := new byte[HEADER_SIZE + req.payloadSize](_ => 0);
    events := [];
    var i: u32 := 0;
    while i < req.count
      invariant i <= req.count
      invariant buf.Length == HEADER_SIZE + req.payloadSize
      invariant forall j :: HEADER_SIZE <= j < buf.Length ==> buf[j] == 0
      invariant events == SessionUpTo(req, tick, clock, i)
    {
      hdr := hdr.(seqNo := i, timestampNs := clock[i], serverId := SERVER_ID, tickMs := tick);
      var bytes := EncodeHeader(hdr);
      forall j | 0 <= j < HEADER_SIZE {
        buf[j] := bytes[j];
      }
      BufferHoldsPacket(buf[..], hdr, req.payloadSize);
      events := events + [Send(buf[..])];
      if tick > 0 && i + 1 < req.count {
        events := events + [Pause(tick)];
      }
      i := i + 1;
    }
  }

  /** The session buffer after the header is copied in: the header's bytes, then the
      zero payload. */
  lemma BufferHoldsPacket(b: seq<byte>, h: PacketHeader, payloadSize: u32)
    requires |b| == HEADER_SIZE + payloadSize
    requires forall j :: 0 <= j < HEADER_SIZE ==> b[j] == EncodeHeader(h)[j]
    requires forall j :: HEADER_SIZE <= j < |b| ==> b[j] == 0
    ensures b == EncodeHeader(h) + Zeros(payloadSize)
  {
  }

  /** With a zero tick a session is exactly `count` sends, the `k`-th carrying seq `k`
      and the clock reading `clock[k]`, with no pause at all. */
  lemma {:induction false} SessionUnpaced(req: Request, clock: seq<u64>, n: nat)
    requires n <= req.count <= |clock|
    ensures |SessionUpTo(req, 0, clock, n)| == n
    ensures forall p :: 0 <= p < n ==> SessionUpTo(req, 0, clock, n)[p] == SessionSend(req, 0, clock, p)
  {
    if n > 0 {
      SessionUnpaced(req, clock, n - 1);
      assert SessionUpTo(req, 0, clock, n) == SessionUpTo(req, 0, clock, n - 1) + [SessionSend(req, 0, clock, n - 1)];
    }
  }

  /** With a positive tick a session alternates: the `k`-th send at position `2k` and
      a pause of `tick` at every odd position, so a full session of `count >= 1`
      packets has `count - 1` pauses and ends with a send. */
  lemma {:induction false} SessionPaced(req: Request, tick: u32, clock: seq<u64>, n: nat)
    requires tick > 0 && n <= req.count <= |clock|
    ensures |SessionUpTo(req, tick, clock, n)| == if 0 < n == req.count then 2 * n - 1 else 2 * n
    ensures forall p :: 0 <= p < |SessionUpTo(req, tick, clock, n)| && p % 2 == 0 ==>
      SessionUpTo(req, tick, clock, n)[p] == SessionSend(req, tick, clock, p / 2)
    ensures forall p :: 0 <= p < |SessionUpTo(req, tick, clock, n)| && p % 2 == 1 ==>
      SessionUpTo(req, tick, clock, n)[p] == Pause(tick)
  {
    if n > 0 {
      SessionPaced(req, tick, clock, n - 1);
      var prev := SessionUpTo(req, tick, clock, n - 1);
      assert |prev| == 2 * (n - 1);
      assert SessionUpTo(req, tick, clock, n) == prev + [SessionSend(req, tick, clock, n - 1)] + PauseAfter(req, tick, n - 1);
    }
  }

  /** An empty request emits nothing. */
  lemma EmptySession(req: Request, tick: u32, clock: seq<u64>)
    requires req.count == 0
    ensures Session(req, tick, clock) == []
  {
  }

  /** Given a clock that never goes backwards, the timestamps a session sends never
      decrease. */
  lemma SessionTimestampsOrdered(req: Request, tick: u32, clock: seq<u64>, p: nat, q: nat)
    requires req.count <= |clock| && Nondecreasing(clock)
    requires p <= q < |Session(req, tick, clock)|
    requires Session(req, tick, clock)[p].Send? && Session(req, tick, clock)[q].Send?
    ensures |Session(req, tick, clock)[p].bytes| >= HEADER_SIZE
    ensures |Session(req, tick, clock)[q].bytes| >= HEADER_SIZE
    ensures DecodeHeader(Session(req, tick, clock)[p].bytes).timestampNs
         <= DecodeHeader(Session(req, tick, clock)[q].bytes).timestampNs
  {
    var S := Session(req, tick, clock);
    var k, l;
    if tick == 0 {
      SessionUnpaced(req, clock, req.count);
      k, l := p, q;
    } else {
      SessionPaced(req, tick, clock, req.count);
      assert p % 2 == 0 && q % 2 == 0;
      k, l := p / 2, q / 2;
    }
    assert S[p] == SessionSend(req, tick, clock, k) && S[q] == SessionSend(req, tick, clock, l);
    SessionPacketShape(k, clock[k], tick, req.payloadSize);
    SessionPacketShape(l, clock[l], tick, req.payloadSize);
  }
}

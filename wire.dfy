/** The packed, little-endian records exchanged over UDP: every field is stored
    at a fixed offset with no padding, so each record has a fixed byte length. */
module Wire {
  import opened Bytes

  const HEADER_SIZE: nat := 20
  const REQUEST_SIZE: nat := 24
  const SYNC_REQUEST_SIZE: nat := 8
  const SYNC_RESPONSE_SIZE: nat := 16
  const SYNC_SIZE: nat := 16

  /** Precedes every payload the server sends: seq @0 (field seqNo), timestamp_ns @4, server_id @12, tick_ms @16. */
  datatype PacketHeader = PacketHeader(seqNo: u32, timestampNs: u64, serverId: u32, tickMs: u32)

  /** The burst request: count @0, client_time_ns @4, client_id @12, payload_size @16, tick_request_ms @20. */
  datatype Request = Request(count: u32, clientTimeNs: u64, clientId: u32, payloadSize: u32, tickRequestMs: u32)

  /** A clock probe: client_time_ns @0. */
  datatype SyncRequest = SyncRequest(clientTimeNs: u64)

  /** The answer to a probe: recv_time_ns @0, send_time_ns @8. */
  datatype SyncResponse = SyncResponse(recvTimeNs: u64, sendTimeNs: u64)

  /** What the client expects as its first reply: server_time_ns @0, server_id @8, tick_ms @12. */
  datatype Sync = Sync(serverTimeNs: u64, serverId: u32, tickMs: u32)

  function EncodeHeader(h: PacketHeader): (s: seq<byte>)
    ensures |s| == HEADER_SIZE
  {
    StoreU32(h.seqNo) + StoreU64(h.timestampNs) + StoreU32(h.serverId) + StoreU32(h.tickMs)
  }

  /** Reads a header from the first 20 bytes of a buffer; later bytes are not looked at. */
  function DecodeHeader(s: seq<byte>): PacketHeader
    requires |s| >= HEADER_SIZE
  {
    PacketHeader(LoadU32(s[0..4]), LoadU64(s[4..12]), LoadU32(s[12..16]), LoadU32(s[16..20]))
  }

  function EncodeRequest(r: Request): (s: seq<byte>)
    ensures |s| == REQUEST_SIZE
  {
    StoreU32(r.count) + StoreU64(r.clientTimeNs) + StoreU32(r.clientId)
      + StoreU32(r.payloadSize) + StoreU32(r.tickRequestMs)
  }

  function DecodeRequest(s: seq<byte>): Request
    requires |s| >= REQUEST_SIZE
  {
    Request(LoadU32(s[0..4]), LoadU64(s[4..12]), LoadU32(s[12..16]),
            LoadU32(s[16..20]), LoadU32(s[20..24]))
  }

  function EncodeSyncRequest(r: SyncRequest): (s: seq<byte>)
    ensures |s| == SYNC_REQUEST_SIZE
  {
    StoreU64(r.clientTimeNs)
  }

  function DecodeSyncRequest(s: seq<byte>): SyncRequest
    requires |s| >= SYNC_REQUEST_SIZE
  {
    SyncRequest(LoadU64(s[0..8]))
  }

  function EncodeSyncResponse(r: SyncResponse): (s: seq<byte>)
    ensures |s| == SYNC_RESPONSE_SIZE
  {
    StoreU64(r.recvTimeNs) + StoreU64(r.sendTimeNs)
  }

  function DecodeSyncResponse(s: seq<byte>): SyncResponse
    requires |s| >= SYNC_RESPONSE_SIZE
  {
    SyncResponse(LoadU64(s[0..8]), LoadU64(s[8..16]))
  }

  function EncodeSync(r: Sync): (s: seq<byte>)
    ensures |s| == SYNC_SIZE
  {
    StoreU64(r.serverTimeNs) + StoreU32(r.serverId) + StoreU32(r.tickMs)
  }

  function DecodeSync(s: seq<byte>): Sync
    requires |s| >= SYNC_SIZE
  {
    Sync(LoadU64(s[0..8]), LoadU32(s[8..12]), LoadU32(s[12..16]))
  }

  // ---------------------------------------------------------------------
  // Round trips: decoding the first bytes of an encoding gives the record back,
  // whatever follows it, and a record's encoding is exactly the bytes it was read from.

  lemma HeaderRoundTrip(h: PacketHeader, rest: seq<byte>)
    ensures DecodeHeader(EncodeHeader(h) + rest) == h
  {
    var s := EncodeHeader(h) + rest;
    assert LoadU32(s[0..4]) == h.seqNo by {
      assert s[0..4] == StoreU32(h.seqNo);
      LoadStoreU32(h.seqNo);
    }
    assert LoadU64(s[4..12]) == h.timestampNs by {
      assert s[4..12] == StoreU64(h.timestampNs);
      LoadStoreU64(h.timestampNs);
    }
    assert LoadU32(s[12..16]) == h.serverId by {
      assert s[12..16] == StoreU32(h.serverId);
      LoadStoreU32(h.serverId);
    }
    assert LoadU32(s[16..20]) == h.tickMs by {
      assert s[16..20] == StoreU32(h.tickMs);
      LoadStoreU32(h.tickMs);
    }
  }

  lemma HeaderBytesRoundTrip(s: seq<byte>)
    requires |s| >= HEADER_SIZE
    ensures EncodeHeader(DecodeHeader(s)) == s[..HEADER_SIZE]
  {
    assert s[..HEADER_SIZE] == s[0..4] + s[4..12] + s[12..16] + s[16..20];
    StoreLoadU32(s[0..4]);
    StoreLoadU64(s[4..12]);
    StoreLoadU32(s[12..16]);
    StoreLoadU32(s[16..20]);
  }

  lemma RequestRoundTrip(r: Request, rest: seq<byte>)
    ensures DecodeRequest(EncodeRequest(r) + rest) == r
  {
    var s := EncodeRequest(r) + rest;
    assert LoadU32(s[0..4]) == r.count by {
      assert s[0..4] == StoreU32(r.count);
      LoadStoreU32(r.count);
    }
    assert LoadU64(s[4..12]) == r.clientTimeNs by {
      assert s[4..12] == StoreU64(r.clientTimeNs);
      LoadStoreU64(r.clientTimeNs);
    }
    assert LoadU32(s[12..16]) == r.clientId by {
      assert s[12..16] == StoreU32(r.clientId);
      LoadStoreU32(r.clientId);
    }
    assert LoadU32(s[16..20]) == r.payloadSize by {
      assert s[16..20] == StoreU32(r.payloadSize);
      LoadStoreU32(r.payloadSize);
    }
    assert LoadU32(s[20..24]) == r.tickRequestMs by {
      assert s[20..24] == StoreU32(r.tickRequestMs);
      LoadStoreU32(r.tickRequestMs);
    }
  }

  lemma RequestBytesRoundTrip(s: seq<byte>)
    requires |s| >= REQUEST_SIZE
    ensures EncodeRequest(DecodeRequest(s)) == s[..REQUEST_SIZE]
  {
    assert s[..REQUEST_SIZE] == s[0..4] + s[4..12] + s[12..16] + s[16..20] + s[20..24];
    StoreLoadU32(s[0..4]);
    StoreLoadU64(s[4..12]);
    StoreLoadU32(s[12..16]);
    StoreLoadU32(s[16..20]);
    StoreLoadU32(s[20..24]);
  }

  lemma SyncRequestRoundTrip(r: SyncRequest, rest: seq<byte>)
    ensures DecodeSyncRequest(EncodeSyncRequest(r) + rest) == r
  {
    assert (EncodeSyncRequest(r) + rest)[0..8] == StoreU64(r.clientTimeNs);
    LoadStoreU64(r.clientTimeNs);
  }

  lemma SyncResponseRoundTrip(r: SyncResponse, rest: seq<byte>)
    ensures DecodeSyncResponse(EncodeSyncResponse(r) + rest) == r
  {
    var s := EncodeSyncResponse(r) + rest;
    assert s[0..8] == StoreU64(r.recvTimeNs);
    assert s[8..16] == StoreU64(r.sendTimeNs);
    LoadStoreU64(r.recvTimeNs);
    LoadStoreU64(r.sendTimeNs);
  }

  lemma SyncResponseBytesRoundTrip(s: seq<byte>)
    requires |s| >= SYNC_RESPONSE_SIZE
    ensures EncodeSyncResponse(DecodeSyncResponse(s)) == s[..SYNC_RESPONSE_SIZE]
  {
    assert s[..SYNC_RESPONSE_SIZE] == s[0..8] + s[8..16];
    StoreLoadU64(s[0..8]);
    StoreLoadU64(s[8..16]);
  }

  lemma SyncRequestBytesRoundTrip(s: seq<byte>)
    requires |s| >= SYNC_REQUEST_SIZE
    ensures EncodeSyncRequest(DecodeSyncRequest(s)) == s[..SYNC_REQUEST_SIZE]
  {
    assert s[..SYNC_REQUEST_SIZE] == s[0..8];
    StoreLoadU64(s[0..8]);
  }

  lemma SyncRoundTrip(r: Sync, rest: seq<byte>)
    ensures DecodeSync(EncodeSync(r) + rest) == r
  {
    var s := EncodeSync(r) + rest;
    assert LoadU64(s[0..8]) == r.serverTimeNs by {
      assert s[0..8] == StoreU64(r.serverTimeNs);
      LoadStoreU64(r.serverTimeNs);
    }
    assert LoadU32(s[8..12]) == r.serverId by {
      assert s[8..12] == StoreU32(r.serverId);
      LoadStoreU32(r.serverId);
    }
    assert LoadU32(s[12..16]) == r.tickMs by {
      assert s[12..16] == StoreU32(r.tickMs);
      LoadStoreU32(r.tickMs);
    }
  }

  lemma SyncBytesRoundTrip(s: seq<byte>)
    requires |s| >= SYNC_SIZE
    ensures EncodeSync(DecodeSync(s)) == s[..SYNC_SIZE]
  {
    assert s[..SYNC_SIZE] == s[0..8] + s[8..12] + s[12..16];
    StoreLoadU64(s[0..8]);
    StoreLoadU32(s[8..12]);
    StoreLoadU32(s[12..16]);
  }

  /** The first 16 bytes of a packet header, read as a Sync: the low word of
      server_time_ns is seq, its high word the low half of timestamp_ns; server_id
      is the high half of timestamp_ns and tick_ms is the header's server_id. */
  lemma HeaderReadAsSync(h: PacketHeader, rest: seq<byte>)
    ensures |EncodeHeader(h) + rest| >= SYNC_SIZE
    ensures DecodeSync(EncodeHeader(h) + rest)
         == Sync(h.seqNo + U32_LIMIT * (h.timestampNs % U32_LIMIT),
                 h.timestampNs / U32_LIMIT,
                 h.serverId)
  {
    var s := EncodeHeader(h) + rest;
    var ts := h.timestampNs;
    var lo, hi := StoreU32(ts % U32_LIMIT), StoreU32(ts / U32_LIMIT);
    HeaderSlices(StoreU32(h.seqNo), lo, hi, StoreU32(h.serverId), StoreU32(h.tickMs), rest);
    TwoWords(h.seqNo, ts % U32_LIMIT);
    LoadStoreU32(ts / U32_LIMIT);
    LoadStoreU32(h.serverId);
  }

  /** Where the parts of a header (with the timestamp split in words) land. */
  lemma HeaderSlices(a: seq<byte>, lo: seq<byte>, hi: seq<byte>, c: seq<byte>, d: seq<byte>, rest: seq<byte>)
    requires |a| == 4 && |lo| == 4 && |hi| == 4 && |c| == 4 && |d| == 4
    ensures (a + (lo + hi) + c + d + rest)[0..8] == a + lo
    ensures (a + (lo + hi) + c + d + rest)[8..12] == hi
    ensures (a + (lo + hi) + c + d + rest)[12..16] == c
  {
  }

  /** Two 32-bit words read together as one 64-bit field. */
  lemma TwoWords(a: u32, b: u32)
    ensures LoadU64(StoreU32(a) + StoreU32(b)) == a + U32_LIMIT * b
  {
    var v := a + U32_LIMIT * b;
    DivModUnique(v, U32_LIMIT, b, a);
    assert StoreU64(v) == StoreU32(a) + StoreU32(b);
    LoadStoreU64(v);
  }
}

// The wire codec: the serializer of src/wire/rgtp_packet.c and the parser of src/wire/rgtp_parser.c,
// on a little-endian host.
module Wire {
  import opened Bits

  const VERSION: Byte := 1
  const HEADER := 4

  datatype Packet =
    | PullRequest(exposureId: seq<Byte>, windowSize: nat, lossRateQ16: nat, pullFlags: nat,
                  versionMin: nat, versionMax: nat)
    | Manifest(exposureId: seq<Byte>, totalSize: nat, chunkCount: nat, chunkSize: nat,
               merkleRoot: seq<Byte>, fecN: Byte, fecK: Byte, flags: nat)
    | ChunkData(exposureId: seq<Byte>, chunkIndex: nat, payload: seq<Byte>)
    | ChunkWithProof(exposureId: seq<Byte>, chunkIndex: nat, proofDepth: Byte, proof: seq<Byte>,
                     payload: seq<Byte>)
    | FecParity(exposureId: seq<Byte>, blockIndex: nat, parityIndex: Byte, fecN: Byte, fecK: Byte,
                parityReserved: Byte, payload: seq<Byte>)
    | Nak(exposureId: seq<Byte>, indices: seq<nat>)
    | RateReport(exposureId: seq<Byte>, rttUs: nat, lossRateQ16: nat, windowSize: nat, reserved: nat,
                 timestampUs: nat)
    | Keepalive(exposureId: seq<Byte>, timestampUs: nat, reserved: nat)

  datatype Error = Truncated | InvalidArg | ChunkIndexOob | NotSupported

  datatype Result = Ok(packet: Packet) | Err(error: Error)

  // ---- big-endian integers

  function U16(v: nat): (b: seq<Byte>)
    ensures |b| == 2
  {
    [v / 0x100 % 0x100, v % 0x100]
  }

  function U32(v: nat): (b: seq<Byte>)
    ensures |b| == 4
  {
    [v / 0x100_0000 % 0x100, v / 0x1_0000 % 0x100, v / 0x100 % 0x100, v % 0x100]
  }

  function U64(v: nat): (b: seq<Byte>)
    ensures |b| == 8
  {
    U32(v / U32_END) + U32(v % U32_END)
  }

  function Read16(b: seq<Byte>): (v: nat)
    requires |b| == 2
    ensures v < U16_END
  {
    b[0] as int * 0x100 + b[1] as int
  }

  function Read32(b: seq<Byte>): (v: nat)
    requires |b| == 4
    ensures v < U32_END
  {
    b[0] as int * 0x100_0000 + b[1] as int * 0x1_0000 + b[2] as int * 0x100 + b[3] as int
  }

  function Read64(b: seq<Byte>): (v: nat)
    requires |b| == 8
    ensures v < U64_END
  {
    Read32(b[..4]) * U32_END + Read32(b[4..])
  }

  // A 32-bit word in memory, as a little-endian host loads it.
  function LoadHost(b: seq<Byte>): (v: nat)
    requires |b| == 4
    ensures v < U32_END
  {
    b[3] as int * 0x100_0000 + b[2] as int * 0x1_0000 + b[1] as int * 0x100 + b[0] as int
  }

  function SwapBytes(v: nat): nat { LoadHost(U32(v)) }

  lemma Read16Of(v: nat)
    requires v < U16_END
    ensures Read16(U16(v)) == v
  {}

  lemma Read32Of(v: nat)
    requires v < U32_END
    ensures Read32(U32(v)) == v
  {
    FourDigits(v);
  }

  lemma Read64Of(v: nat)
    requires v < U64_END
    ensures Read64(U64(v)) == v
  {
    hide U32, Read32;
    Read32Of(v / U32_END);
    Read32Of(v % U32_END);
    assert U64(v)[..4] == U32(v / U32_END) && U64(v)[4..] == U32(v % U32_END);
  }

  // ---- what the packet structs can hold

  ghost predicate WellTyped(p: Packet) {
    && |p.exposureId| == 16
    && match p
       case PullRequest(_, w, l, f, vmin, vmax) =>
         w < U32_END && l < U32_END && f < U32_END && vmin < U16_END && vmax < U16_END
       case Manifest(_, total, count, size, root, _, _, f) =>
         total < U64_END && count < U32_END && size < U32_END && |root| == 32 && f < U16_END
       case ChunkData(_, i, payload) => i < U32_END && |payload| < U16_END
       case ChunkWithProof(_, i, d, proof, payload) =>
         i < U32_END && |proof| == 32 * d as int && |payload| < U16_END
       case FecParity(_, b, _, _, _, _, payload) => b < U32_END && |payload| < U16_END
       case Nak(_, indices) => |indices| < U16_END && forall i :: 0 <= i < |indices| ==> indices[i] < U32_END
       case RateReport(_, r, l, w, res, ts) =>
         r < U32_END && l < U32_END && w < U32_END && res < U32_END && ts < U64_END
       case Keepalive(_, ts, res) => ts < U64_END && res < U32_END
  }

  function Size(p: Packet): nat {
    match p
    case PullRequest(_, _, _, _, _, _) => 36
    case Manifest(_, _, _, _, _, _, _, _) => 72
    case ChunkData(_, _, payload) => 24 + |payload|
    case ChunkWithProof(_, _, d, _, payload) => 25 + 32 * d as int + |payload|
    case FecParity(_, _, _, _, _, _, payload) => 28 + |payload|
    case Nak(_, indices) => 24 + 4 * |indices|
    case RateReport(_, _, _, _, _, _) => 44
    case Keepalive(_, _, _) => 32
  }

  function TypeByte(p: Packet): (t: Byte)
    ensures 1 <= t <= 8
  {
    match p
    case PullRequest(_, _, _, _, _, _) => 1
    case Manifest(_, _, _, _, _, _, _, _) => 2
    case ChunkData(_, _, _) => 3
    case ChunkWithProof(_, _, _, _, _) => 4
    case FecParity(_, _, _, _, _, _, _) => 5
    case Nak(_, _) => 6
    case RateReport(_, _, _, _, _, _) => 7
    case Keepalive(_, _, _) => 8
  }

  // ---- the bytes of a packet

  function IndexBytes(indices: seq<nat>): (b: seq<Byte>)
    ensures |b| == 4 * |indices|
  {
    if indices == [] then [] else IndexBytes(indices[..|indices| - 1]) + U32(indices[|indices| - 1])
  }

  function Body(p: Packet): seq<Byte> {
    match p
    case PullRequest(id, w, l, f, vmin, vmax) => id + U32(w) + U32(l) + U32(f) + U16(vmin) + U16(vmax)
    case Manifest(id, total, count, size, root, n, k, f) =>
      id + U64(total) + U32(count) + U32(size) + root + [n] + [k] + U16(f)
    case ChunkData(id, i, payload) => id + U32(i) + payload
    case ChunkWithProof(id, i, d, proof, payload) => id + U32(i) + [d] + proof + payload
    case FecParity(id, b, i, n, k, r, payload) => id + U32(b) + [i] + [n] + [k] + [r] + payload
    case Nak(id, indices) => id + U16(|indices|) + [0, 0] + IndexBytes(indices)
    case RateReport(id, r, l, w, res, ts) => id + U32(r) + U32(l) + U32(w) + U32(res) + U64(ts)
    case Keepalive(id, ts, res) => id + U64(ts) + U32(res)
  }

  function Encode(p: Packet): seq<Byte> {
    [VERSION, TypeByte(p)] + U16(Size(p)) + Body(p)
  }

  lemma EncodeSize(p: Packet)
    requires WellTyped(p)
    ensures |Encode(p)| == Size(p)
  {
    hide U16, U32, U64;
  }

  // ---- the parser

  function LoadIndices(b: seq<Byte>, n: nat): (s: seq<nat>)
    requires 4 * n <= |b|
    ensures |s| == n
  {
    if n == 0 then [] else LoadIndices(b, n - 1) + [LoadHost(b[4 * n - 4..4 * n])]
  }

  function ParseBody(t: Byte, b: seq<Byte>, chunkCount: nat): Result
    requires 1 <= t <= 8
  {
    if t == 1 then ParsePullRequest(b)
    else if t == 2 then ParseManifest(b)
    else if t == 3 then ParseChunkData(b, chunkCount)
    else if t == 4 then ParseChunkWithProof(b, chunkCount)
    else if t == 5 then ParseFecParity(b)
    else if t == 6 then ParseNak(b)
    else if t == 7 then ParseRateReport(b)
    else ParseKeepalive(b)
  }

  function ParsePullRequest(b: seq<Byte>): Result {
    if |b| < 32 then Err(Truncated)
    else Ok(PullRequest(b[..16], Read32(b[16..20]), Read32(b[20..24]), Read32(b[24..28]),
                        Read16(b[28..30]), Read16(b[30..32])))
  }

  function ParseManifest(b: seq<Byte>): Result {
    if |b| < 68 then Err(Truncated)
    else
      var count, size := Read32(b[24..28]), Read32(b[28..32]);
      if count == 0 || size == 0 then Err(InvalidArg)
      else Ok(Manifest(b[..16], Read64(b[16..24]), count, size, b[32..64], b[64], b[65], Read16(b[66..68])))
  }

  function ParseChunkData(b: seq<Byte>, chunkCount: nat): Result {
    if |b| < 20 then Err(Truncated)
    else
      var index := Read32(b[16..20]);
      if index >= chunkCount then Err(ChunkIndexOob)
      else Ok(ChunkData(b[..16], index, b[20..]))
  }

  function ParseChunkWithProof(b: seq<Byte>, chunkCount: nat): Result {
    if |b| < 21 then Err(Truncated)
    else
      var index := Read32(b[16..20]);
      var proofEnd: nat := 21 + 32 * b[20] as int;
      if index >= chunkCount then Err(ChunkIndexOob)
      else if |b| < proofEnd then Err(Truncated)
      else Ok(ChunkWithProof(b[..16], index, b[20], b[21..proofEnd], b[proofEnd..]))
  }

  function ParseFecParity(b: seq<Byte>): Result {
    if |b| < 24 then Err(Truncated)
    else Ok(FecParity(b[..16], Read32(b[16..20]), b[20], b[21], b[22], b[23], b[24..]))
  }

  function ParseNak(b: seq<Byte>): Result {
    if |b| < 20 then Err(Truncated)
    else
      var count := Read16(b[16..18]);
      if |b| < 20 + 4 * count then Err(Truncated)
      else Ok(Nak(b[..16], LoadIndices(b[20..], count)))
  }

  function ParseRateReport(b: seq<Byte>): Result {
    if |b| < 40 then Err(Truncated)
    else Ok(RateReport(b[..16], Read32(b[16..20]), Read32(b[20..24]), Read32(b[24..28]),
                       Read32(b[28..32]), Read64(b[32..40])))
  }

  function ParseKeepalive(b: seq<Byte>): Result {
    if |b| < 28 then Err(Truncated)
    else Ok(Keepalive(b[..16], Read64(b[16..24]), Read32(b[24..28])))
  }

  // rgtp_parse_packet
  function Parse(buf: seq<Byte>, chunkCount: nat): Result {
    if |buf| < HEADER then Err(Truncated)
    else
      var length := Read16(buf[2..4]);
      if buf[0] > VERSION then Err(NotSupported)
      else if length > |buf| then Err(Truncated)
      else if length < HEADER then Err(InvalidArg)
      else if !(1 <= buf[1] <= 8) then Err(InvalidArg)
      else ParseBody(buf[1], buf[HEADER..length], chunkCount)
  }

  // Everything the parser reads lies inside the declared length.
  lemma ParseLocal(buf: seq<Byte>, tail: seq<Byte>, chunkCount: nat)
    requires |buf| >= HEADER && Read16(buf[2..4]) <= |buf|
    ensures Parse(buf + tail, chunkCount) == Parse(buf, chunkCount)
  {
    hide Read16, ParseBody;
    var w := buf + tail;
    assert w[2..4] == buf[2..4];
    var length := Read16(buf[2..4]);
    if length >= HEADER { assert w[HEADER..length] == buf[HEADER..length]; }
  }

  // ---- round trips

  // What the parser checks beyond the shape of the packet.
  ghost predicate Acceptable(p: Packet, chunkCount: nat) {
    match p
    case Manifest(_, _, count, size, _, _, _, _) => count != 0 && size != 0
    case ChunkData(_, i, _) => i < chunkCount
    case ChunkWithProof(_, i, _, _, _) => i < chunkCount
    case _ => true
  }

  // The parser hands out NAK indices as they lie in the buffer, so the host sees them byte-swapped.
  function HostView(p: Packet): Packet {
    if p.Nak? then p.(indices := SwapAll(p.indices)) else p
  }

  function SwapAll(s: seq<nat>): seq<nat> {
    seq(|s|, i requires 0 <= i < |s| => SwapBytes(s[i]))
  }

  function Refusal(p: Packet): Error {
    if p.Manifest? then InvalidArg else ChunkIndexOob
  }

  lemma {:induction false} LoadIndexBytes(indices: seq<nat>, tail: seq<Byte>)
    ensures LoadIndices(IndexBytes(indices) + tail, |indices|) == SwapAll(indices)
  {
    hide U32, LoadHost;
    var n := |indices|;
    if n > 0 {
      var init, last := indices[..n - 1], U32(indices[n - 1]);
      var b := IndexBytes(indices) + tail;
      assert b == IndexBytes(init) + (last + tail);
      LoadIndexBytes(init, last + tail);
      assert b[4 * n - 4..4 * n] == last;
      assert SwapAll(indices) == SwapAll(init) + [SwapBytes(indices[n - 1])];
    }
  }

  lemma BodyPullRequest(p: Packet)
    requires WellTyped(p) && p.PullRequest?
    ensures ParsePullRequest(Body(p)) == Ok(p)
  {
    hide U16, U32, Read16, Read32;
    var b := Body(p);
    assert b[..16] == p.exposureId;
    assert b[16..20] == U32(p.windowSize) && b[20..24] == U32(p.lossRateQ16) && b[24..28] == U32(p.pullFlags);
    assert b[28..30] == U16(p.versionMin) && b[30..32] == U16(p.versionMax);
    Read32Of(p.windowSize);
    Read32Of(p.lossRateQ16);
    Read32Of(p.pullFlags);
    Read16Of(p.versionMin);
    Read16Of(p.versionMax);
  }

  lemma BodyManifest(p: Packet)
    requires WellTyped(p) && p.Manifest?
    ensures ParseManifest(Body(p)) == if Acceptable(p, 0) then Ok(p) else Err(InvalidArg)
  {
    hide U16, U32, U64, Read16, Read32, Read64;
    var b := Body(p);
    assert b[..16] == p.exposureId && b[16..24] == U64(p.totalSize);
    assert b[24..28] == U32(p.chunkCount) && b[28..32] == U32(p.chunkSize);
    assert b[32..64] == p.merkleRoot && b[66..68] == U16(p.flags);
    Read64Of(p.totalSize);
    Read32Of(p.chunkCount);
    Read32Of(p.chunkSize);
    Read16Of(p.flags);
  }

  lemma BodyChunkData(p: Packet, chunkCount: nat)
    requires WellTyped(p) && p.ChunkData?
    ensures ParseChunkData(Body(p), chunkCount) == if Acceptable(p, chunkCount) then Ok(p) else Err(ChunkIndexOob)
  {
    hide U32, Read32;
    var b := Body(p);
    assert b[..16] == p.exposureId && b[16..20] == U32(p.chunkIndex) && b[20..] == p.payload;
    Read32Of(p.chunkIndex);
  }

  lemma BodyChunkWithProof(p: Packet, chunkCount: nat)
    requires WellTyped(p) && p.ChunkWithProof?
    ensures ParseChunkWithProof(Body(p), chunkCount)
            == if Acceptable(p, chunkCount) then Ok(p) else Err(ChunkIndexOob)
  {
    hide U32, Read32;
    var b := Body(p);
    var e := 21 + 32 * p.proofDepth as int;
    assert b[..16] == p.exposureId && b[16..20] == U32(p.chunkIndex) && b[20] == p.proofDepth;
    assert b[21..e] == p.proof && b[e..] == p.payload;
    Read32Of(p.chunkIndex);
  }

  lemma BodyFecParity(p: Packet)
    requires WellTyped(p) && p.FecParity?
    ensures ParseFecParity(Body(p)) == Ok(p)
  {
    hide U32, Read32;
    var b := Body(p);
    assert b[..16] == p.exposureId && b[16..20] == U32(p.blockIndex) && b[24..] == p.payload;
    Read32Of(p.blockIndex);
  }

  lemma BodyNak(p: Packet)
    requires WellTyped(p) && p.Nak?
    ensures ParseNak(Body(p)) == Ok(HostView(p))
  {
    hide U16, Read16, SwapAll, LoadIndices, IndexBytes;
    var b := Body(p);
    assert b[..16] == p.exposureId && b[16..18] == U16(|p.indices|) && b[20..] == IndexBytes(p.indices);
    Read16Of(|p.indices|);
    LoadIndexBytes(p.indices, []);
    assert IndexBytes(p.indices) + [] == IndexBytes(p.indices);
  }

  lemma BodyRateReport(p: Packet)
    requires WellTyped(p) && p.RateReport?
    ensures ParseRateReport(Body(p)) == Ok(p)
  {
    hide U32, U64, Read32, Read64;
    var b := Body(p);
    assert b[..16] == p.exposureId && b[16..20] == U32(p.rttUs) && b[20..24] == U32(p.lossRateQ16);
    assert b[24..28] == U32(p.windowSize) && b[28..32] == U32(p.reserved) && b[32..40] == U64(p.timestampUs);
    Read32Of(p.rttUs);
    Read32Of(p.lossRateQ16);
    Read32Of(p.windowSize);
    Read32Of(p.reserved);
    Read64Of(p.timestampUs);
  }

  lemma BodyKeepalive(p: Packet)
    requires WellTyped(p) && p.Keepalive?
    ensures ParseKeepalive(Body(p)) == Ok(p)
  {
    hide U32, U64, Read32, Read64;
    var b := Body(p);
    assert b[..16] == p.exposureId && b[16..24] == U64(p.timestampUs) && b[24..28] == U32(p.reserved);
    Read64Of(p.timestampUs);
    Read32Of(p.reserved);
  }

  lemma BodyRoundTrip(p: Packet, chunkCount: nat)
    requires WellTyped(p)
    ensures ParseBody(TypeByte(p), Body(p), chunkCount)
            == if Acceptable(p, chunkCount) then Ok(HostView(p)) else Err(Refusal(p))
  {
    hide Body, ParsePullRequest, ParseManifest, ParseChunkData, ParseChunkWithProof, ParseFecParity, ParseNak;
    hide ParseRateReport, ParseKeepalive, SwapAll;
    match p
    case PullRequest(_, _, _, _, _, _) => BodyPullRequest(p);
    case Manifest(_, _, _, _, _, _, _, _) => BodyManifest(p);
    case ChunkData(_, _, _) => BodyChunkData(p, chunkCount);
    case ChunkWithProof(_, _, _, _, _) => BodyChunkWithProof(p, chunkCount);
    case FecParity(_, _, _, _, _, _, _) => BodyFecParity(p);
    case Nak(_, _) => BodyNak(p);
    case RateReport(_, _, _, _, _, _) => BodyRateReport(p);
    case Keepalive(_, _, _) => BodyKeepalive(p);
  }

  // Parsing the bytes of any packet that fits its length field, with anything after them: the packet
  // as the host sees it when the parser's checks hold, and otherwise the error those checks give.
  lemma ParseEncode(p: Packet, tail: seq<Byte>, chunkCount: nat)
    requires WellTyped(p) && Size(p) < U16_END
    ensures Parse(Encode(p) + tail, chunkCount)
            == if Acceptable(p, chunkCount) then Ok(HostView(p)) else Err(Refusal(p))
  {
    hide U16, Read16, Body, ParseBody, Acceptable, HostView, Size;
    var buf := Encode(p);
    EncodeSize(p);
    EncodeHeader(p);
    assert buf[2..4] == U16(Size(p)) && buf[HEADER..] == Body(p);
    assert buf[HEADER..Size(p)] == buf[HEADER..];
    Read16Of(Size(p));
    BodyRoundTrip(p, chunkCount);
    ParseLocal(buf, tail, chunkCount);
  }

  lemma EncodeHeader(p: Packet)
    ensures Encode(p) == [VERSION, TypeByte(p)] + U16(Size(p)) + Body(p)
    ensures HEADER <= Size(p)
  {}

  // The round trip returns the packet itself, except that a NAK comes back exactly when every index
  // reads the same in both byte orders.
  lemma RoundTripExactly(p: Packet, tail: seq<Byte>, chunkCount: nat)
    requires WellTyped(p) && Size(p) < U16_END
    ensures Parse(Encode(p) + tail, chunkCount) == Ok(p) <==>
            && Acceptable(p, chunkCount)
            && (p.Nak? ==> forall i :: 0 <= i < |p.indices| ==> SwapBytes(p.indices[i]) == p.indices[i])
  {
    hide SwapBytes, Parse, Encode, Acceptable, Refusal;
    ParseEncode(p, tail, chunkCount);
    if p.Nak? {
      assert SwapAll(p.indices) == p.indices <==>
             forall i :: 0 <= i < |p.indices| ==> SwapBytes(p.indices[i]) == p.indices[i] by {
        if SwapAll(p.indices) == p.indices {
          forall i | 0 <= i < |p.indices| ensures SwapBytes(p.indices[i]) == p.indices[i] {
            assert SwapAll(p.indices)[i] == p.indices[i];
          }
        }
      }
    }
  }

  // Index 1 does not.
  lemma NakRoundTripFails(id: seq<Byte>, chunkCount: nat)
    requires |id| == 16
    ensures Parse(Encode(Nak(id, [1])), chunkCount) == Ok(Nak(id, [0x100_0000]))
  {
    var p := Nak(id, [1]);
    SwapOne();
    hide *;
    assert Encode(p) + [] == Encode(p);
    NakTyped(id);
    ParseEncode(p, [], chunkCount);
  }

  lemma SwapOne()
    ensures SwapAll([1]) == [0x100_0000]
  {}

  lemma NakTyped(id: seq<Byte>)
    requires |id| == 16
    ensures WellTyped(Nak(id, [1])) && Size(Nak(id, [1])) < U16_END
    ensures forall c: nat :: Acceptable(Nak(id, [1]), c)
    ensures HostView(Nak(id, [1])) == Nak(id, SwapAll([1]))
  {}

  // Whatever the parser accepts is a well-typed packet no longer than the buffer that passes the
  // parser's own checks, so it can be serialized and parsed again with the same result.
  lemma ParseTyped(buf: seq<Byte>, chunkCount: nat)
    requires Parse(buf, chunkCount).Ok?
    ensures var p := Parse(buf, chunkCount).packet;
            WellTyped(p) && Size(p) <= Read16(buf[2..4]) <= |buf| && Acceptable(p, chunkCount)
  {
    hide Read16, Read32, Read64, LoadHost;
    var b := buf[HEADER..Read16(buf[2..4])];
    if buf[1] == 6 { LoadTyped(b[20..], Read16(b[16..18])); }
  }

  lemma {:induction false} LoadTyped(b: seq<Byte>, n: nat)
    requires 4 * n <= |b|
    ensures forall i :: 0 <= i < n ==> LoadIndices(b, n)[i] < U32_END
  {
    hide LoadHost;
    if n > 0 { LoadTyped(b, n - 1); }
  }

  lemma Reparse(buf: seq<Byte>, chunkCount: nat)
    requires Parse(buf, chunkCount).Ok?
    ensures var p := Parse(buf, chunkCount).packet;
            Parse(Encode(p), chunkCount) == Ok(HostView(p))
  {
    hide *;
    var p := Parse(buf, chunkCount).packet;
    ParseTyped(buf, chunkCount);
    ParseEncode(p, [], chunkCount);
    assert Encode(p) + [] == Encode(p);
  }

  // ---- what the parser does with any buffer

  // Big-endian numbers at an offset.
  function At16(buf: seq<Byte>, o: nat): nat
    requires o + 2 <= |buf|
  {
    0x100 * buf[o] as int + buf[o + 1] as int
  }

  function At32(buf: seq<Byte>, o: nat): nat
    requires o + 4 <= |buf|
  {
    0x1_0000 * At16(buf, o) + At16(buf, o + 2)
  }

  function At64(buf: seq<Byte>, o: nat): nat
    requires o + 8 <= |buf|
  {
    0x1_0000_0000 * At32(buf, o) + At32(buf, o + 4)
  }

  // The header names a version and type the parser knows and a length inside the buffer.
  predicate HeaderFine(buf: seq<Byte>) {
    |buf| >= 4 && buf[0] <= 1 && 4 <= At16(buf, 2) <= |buf| && 1 <= buf[1] <= 8
  }

  // The length of each packet type without its payload, proof and index list.
  function FixedSize(t: Byte): nat
    requires 1 <= t <= 8
  {
    [36, 72, 24, 25, 28, 24, 44, 32][t - 1]
  }

  predicate FieldsPresent(buf: seq<Byte>) {
    HeaderFine(buf) && FixedSize(buf[1]) <= At16(buf, 2)
  }

  // The proof hashes, 32 bytes each, and the NAK indices, 4 bytes each, lie inside the declared length.
  predicate ListPresent(buf: seq<Byte>)
    requires FieldsPresent(buf)
  {
    && (buf[1] == 4 ==> 25 + 32 * buf[24] as int <= At16(buf, 2))
    && (buf[1] == 6 ==> 24 + 4 * At16(buf, 20) <= At16(buf, 2))
  }

  predicate IndexFine(buf: seq<Byte>, chunkCount: nat)
    requires FieldsPresent(buf)
  {
    buf[1] == 3 || buf[1] == 4 ==> At32(buf, 20) < chunkCount
  }

  // A manifest names neither zero chunks nor chunks of size zero.
  predicate CountsFine(buf: seq<Byte>)
    requires FieldsPresent(buf)
  {
    buf[1] == 2 ==> At32(buf, 28) > 0 && At32(buf, 32) > 0
  }

  lemma Read16At(buf: seq<Byte>, o: nat)
    requires o + 2 <= |buf|
    ensures Read16(buf[o..o + 2]) == At16(buf, o)
  {}

  lemma Read32At(buf: seq<Byte>, o: nat)
    requires o + 4 <= |buf|
    ensures Read32(buf[o..o + 4]) == At32(buf, o)
  {}

  lemma Read64At(buf: seq<Byte>, o: nat)
    requires o + 8 <= |buf|
    ensures Read64(buf[o..o + 8]) == At64(buf, o)
  {
    hide Read32, At32;
    var b := buf[o..o + 8];
    assert b[..4] == buf[o..o + 4] && b[4..] == buf[o + 4..o + 8];
    Read32At(buf, o);
    Read32At(buf, o + 4);
  }

  lemma BodySlice(buf: seq<Byte>, length: nat, i: nat, j: nat)
    requires HEADER <= length <= |buf| && i <= j <= length - HEADER
    ensures buf[HEADER..length][i..j] == buf[HEADER + i..HEADER + j]
  {}

  // Acceptance and every refusal, for all buffers.
  lemma ParseStatus(buf: seq<Byte>, chunkCount: nat)
    ensures Parse(buf, chunkCount).Ok? <==>
            FieldsPresent(buf) && ListPresent(buf) && IndexFine(buf, chunkCount) && CountsFine(buf)
    ensures Parse(buf, chunkCount) == Err(NotSupported) <==> |buf| >= 4 && buf[0] > 1
    ensures Parse(buf, chunkCount) == Err(ChunkIndexOob) <==> FieldsPresent(buf) && !IndexFine(buf, chunkCount)
    ensures Parse(buf, chunkCount) == Err(InvalidArg) <==>
            && |buf| >= 4 && buf[0] <= 1 && At16(buf, 2) <= |buf|
            && (At16(buf, 2) < 4 || !(1 <= buf[1] <= 8) || (FieldsPresent(buf) && !CountsFine(buf)))
    ensures Parse(buf, chunkCount) == Err(Truncated) <==>
            |buf| < 4 ||
            (buf[0] <= 1 &&
             (At16(buf, 2) > |buf| ||
              (HeaderFine(buf) && (!FieldsPresent(buf) || (IndexFine(buf, chunkCount) && !ListPresent(buf))))))
  {
    if |buf| >= 4 {
      Read16At(buf, 2);
      if HeaderFine(buf) {
        StatusOfBody(buf, chunkCount);
        hide ParseBody, FieldsPresent, ListPresent, IndexFine, CountsFine, Read16;
      }
    }
  }

  lemma StatusOfBody(buf: seq<Byte>, chunkCount: nat)
    requires HeaderFine(buf)
    ensures var r := ParseBody(buf[1], buf[HEADER..At16(buf, 2)], chunkCount);
            r.Ok? || r.error ==
              if !FieldsPresent(buf) then Truncated
              else if !IndexFine(buf, chunkCount) then ChunkIndexOob
              else if !CountsFine(buf) then InvalidArg
              else Truncated
    ensures ParseBody(buf[1], buf[HEADER..At16(buf, 2)], chunkCount).Ok? <==>
            FieldsPresent(buf) && ListPresent(buf) && IndexFine(buf, chunkCount) && CountsFine(buf)
  {
    hide Read16, Read32, Read64, At32, LoadIndices;
    var length := At16(buf, 2);
    if FieldsPresent(buf) {
      if buf[1] == 2 {
        BodySlice(buf, length, 24, 28);
        BodySlice(buf, length, 28, 32);
        Read32At(buf, 28);
        Read32At(buf, 32);
      } else if buf[1] == 3 || buf[1] == 4 {
        BodySlice(buf, length, 16, 20);
        Read32At(buf, 20);
      } else if buf[1] == 6 {
        BodySlice(buf, length, 16, 18);
        Read16At(buf, 20);
      }
    }
  }

  // The fields of a packet at their documented places in the buffer. A payload reaches to the declared
  // length; the other types ignore what follows their last field.
  ghost predicate LaidOut(buf: seq<Byte>, p: Packet)
    requires FieldsPresent(buf) && ListPresent(buf)
  {
    var end := At16(buf, 2);
    && buf[1] == TypeByte(p) && p.exposureId == buf[4..20]
    && match p
       case PullRequest(_, w, l, f, vmin, vmax) =>
         && w == At32(buf, 20) && l == At32(buf, 24) && f == At32(buf, 28)
         && vmin == At16(buf, 32) && vmax == At16(buf, 34)
       case Manifest(_, total, count, size, root, n, k, f) =>
         && total == At64(buf, 20) && count == At32(buf, 28) && size == At32(buf, 32)
         && root == buf[36..68] && n == buf[68] && k == buf[69] && f == At16(buf, 70)
       case ChunkData(_, i, payload) => i == At32(buf, 20) && payload == buf[24..end]
       case ChunkWithProof(_, i, d, proof, payload) =>
         && i == At32(buf, 20) && d == buf[24]
         && proof == buf[25..25 + 32 * d as int] && payload == buf[25 + 32 * d as int..end]
       case FecParity(_, b, i, n, k, r, payload) =>
         && b == At32(buf, 20) && i == buf[24] && n == buf[25] && k == buf[26] && r == buf[27]
         && payload == buf[28..end]
       case Nak(_, indices) =>
         && |indices| == At16(buf, 20)
         && forall i :: 0 <= i < |indices| ==> indices[i] == SwapBytes(At32(buf, 24 + 4 * i))
       case RateReport(_, r, l, w, res, ts) =>
         r == At32(buf, 20) && l == At32(buf, 24) && w == At32(buf, 28) && res == At32(buf, 32) && ts == At64(buf, 36)
       case Keepalive(_, ts, res) => ts == At64(buf, 20) && res == At32(buf, 28)
  }

  lemma HeaderRead(buf: seq<Byte>, chunkCount: nat)
    requires Parse(buf, chunkCount).Ok?
    ensures HeaderFine(buf) && Parse(buf, chunkCount) == ParseBody(buf[1], buf[HEADER..At16(buf, 2)], chunkCount)
    ensures FieldsPresent(buf) && ListPresent(buf)
  {
    ParseStatus(buf, chunkCount);
    Read16At(buf, 2);
    hide ParseBody, Read16, ListPresent;
  }

  // What an accepted buffer is read as.
  lemma ParseLayout(buf: seq<Byte>, chunkCount: nat)
    requires Parse(buf, chunkCount).Ok?
    ensures FieldsPresent(buf) && ListPresent(buf) && LaidOut(buf, Parse(buf, chunkCount).packet)
  {
    HeaderRead(buf, chunkCount);
    var length := At16(buf, 2);
    LayoutOfBody(buf, chunkCount);
    hide ParseBody, LaidOut, Parse, ListPresent;
  }

  lemma LayoutOfBody(buf: seq<Byte>, chunkCount: nat)
    requires FieldsPresent(buf) && ListPresent(buf)
    requires ParseBody(buf[1], buf[HEADER..At16(buf, 2)], chunkCount).Ok?
    ensures LaidOut(buf, ParseBody(buf[1], buf[HEADER..At16(buf, 2)], chunkCount).packet)
  {
    hide Read16, Read32, Read64, At32, At64, LoadIndices, SwapBytes;
    var n := At16(buf, 2);
    BodySlice(buf, n, 0, 16);
    if buf[1] == 1 {
      Field32(buf, n, 16);
      Field32(buf, n, 20);
      Field32(buf, n, 24);
      Field16(buf, n, 28);
      Field16(buf, n, 30);
    } else if buf[1] == 2 {
      Field64(buf, n, 16);
      Field32(buf, n, 24);
      Field32(buf, n, 28);
      BodySlice(buf, n, 32, 64);
      Field16(buf, n, 66);
    } else if buf[1] == 3 || buf[1] == 5 {
      Field32(buf, n, 16);
    } else if buf[1] == 4 {
      Field32(buf, n, 16);
      BodySlice(buf, n, 21, 21 + 32 * buf[24] as int);
    } else if buf[1] == 6 {
      Field16(buf, n, 16);
      assert buf[HEADER..n][20..] == buf[24..n];
      IndicesAt(buf, n, At16(buf, 20));
    } else if buf[1] == 7 {
      Field32(buf, n, 16);
      Field32(buf, n, 20);
      Field32(buf, n, 24);
      Field32(buf, n, 28);
      Field64(buf, n, 32);
    } else {
      Field64(buf, n, 16);
      Field32(buf, n, 24);
    }
  }

  // A field of the body, read at its offset in the buffer.
  lemma Field16(buf: seq<Byte>, n: nat, o: nat)
    requires HEADER + o + 2 <= n <= |buf|
    ensures Read16(buf[HEADER..n][o..o + 2]) == At16(buf, 4 + o)
  {
    BodySlice(buf, n, o, o + 2);
    Read16At(buf, 4 + o);
  }

  lemma Field32(buf: seq<Byte>, n: nat, o: nat)
    requires HEADER + o + 4 <= n <= |buf|
    ensures Read32(buf[HEADER..n][o..o + 4]) == At32(buf, 4 + o)
  {
    BodySlice(buf, n, o, o + 4);
    Read32At(buf, 4 + o);
  }

  lemma Field64(buf: seq<Byte>, n: nat, o: nat)
    requires HEADER + o + 8 <= n <= |buf|
    ensures Read64(buf[HEADER..n][o..o + 8]) == At64(buf, 4 + o)
  {
    BodySlice(buf, n, o, o + 8);
    Read64At(buf, 4 + o);
  }

  lemma {:induction false} IndicesAt(buf: seq<Byte>, n: nat, count: nat)
    requires 24 + 4 * count <= n <= |buf|
    ensures forall i :: 0 <= i < count ==> LoadIndices(buf[24..n], count)[i] == SwapBytes(At32(buf, 24 + 4 * i))
  {
    hide At32, SwapBytes, LoadHost;
    if count > 0 {
      IndicesAt(buf, n, count - 1);
      var o := 24 + 4 * (count - 1);
      assert buf[24..n][4 * count - 4..4 * count] == buf[o..o + 4];
      LoadIsSwapped(buf, o);
    }
  }

  lemma LoadIsSwapped(buf: seq<Byte>, o: nat)
    requires o + 4 <= |buf|
    ensures LoadHost(buf[o..o + 4]) == SwapBytes(At32(buf, o))
  {
    Read32At(buf, o);
    U32OfRead(buf[o..o + 4]);
  }

  lemma U32OfRead(b: seq<Byte>)
    requires |b| == 4
    ensures U32(Read32(b)) == b
  {
    var v, x, y := Read32(b), b[0] as int * 0x100 + b[1] as int, b[2] as int * 0x100 + b[3] as int;
    assert v == 0x1_0000 * x + y;
    hide Read32;
    DivModUnique(v, 0x1_0000, x, y);
    DivModUnique(v, 0x100, 0x100 * x + b[2] as int, b[3]);
    DivModUnique(v, 0x100_0000, b[0], 0x1_0000 * b[1] as int + y);
  }

  lemma U16OfRead(b: seq<Byte>)
    requires |b| == 2
    ensures U16(Read16(b)) == b
  {}

  lemma U64OfRead(b: seq<Byte>)
    requires |b| == 8
    ensures U64(Read64(b)) == b
  {
    hide Read32, U32;
    U32OfRead(b[..4]);
    U32OfRead(b[4..]);
    var v := Read64(b);
    DivModUnique(v, U32_END, Read32(b[..4]), Read32(b[4..]));
  }

  // Serializing what was parsed gives back the bytes parsed: all of the body for the types with a
  // payload, the beginning of it for the others.
  lemma ParseInverse(buf: seq<Byte>, chunkCount: nat)
    requires Parse(buf, chunkCount).Ok? && !Parse(buf, chunkCount).packet.Nak?
    ensures HeaderFine(buf)
    ensures var p, body := Parse(buf, chunkCount).packet, buf[HEADER..At16(buf, 2)];
            Body(p) <= body && (p.ChunkData? || p.ChunkWithProof? || p.FecParity? ==> Body(p) == body)
  {
    HeaderRead(buf, chunkCount);
    InverseOfBody(buf[1], buf[HEADER..At16(buf, 2)], chunkCount);
    hide ParseBody, Body, Parse;
  }

  lemma InverseOfBody(t: Byte, b: seq<Byte>, chunkCount: nat)
    requires 1 <= t <= 8 && t != 6 && ParseBody(t, b, chunkCount).Ok?
    ensures var p := ParseBody(t, b, chunkCount).packet;
            !p.Nak? && Body(p) <= b && (p.ChunkData? || p.ChunkWithProof? || p.FecParity? ==> Body(p) == b)
  {
    hide Body;
    if t == 1 { InversePullRequest(b); }
    else if t == 2 { InverseManifest(b); }
    else if t == 3 { InverseChunkData(b, chunkCount); }
    else if t == 4 { InverseChunkWithProof(b, chunkCount); }
    else if t == 5 { InverseFecParity(b); }
    else if t == 7 { InverseRateReport(b); }
    else { InverseKeepalive(b); }
  }

  lemma InversePullRequest(b: seq<Byte>)
    requires ParsePullRequest(b).Ok?
    ensures Body(ParsePullRequest(b).packet) <= b
  {
    hide Read16, Read32, Read64, U16, U32, U64;
    U32OfRead(b[16..20]);
    U32OfRead(b[20..24]);
    U32OfRead(b[24..28]);
    U16OfRead(b[28..30]);
    U16OfRead(b[30..32]);
    assert b[..32] == b[..16] + b[16..20] + b[20..24] + b[24..28] + b[28..30] + b[30..32];
  }

  lemma InverseManifest(b: seq<Byte>)
    requires ParseManifest(b).Ok?
    ensures Body(ParseManifest(b).packet) <= b
  {
    hide Read16, Read32, Read64, U16, U32, U64;
    U64OfRead(b[16..24]);
    U32OfRead(b[24..28]);
    U32OfRead(b[28..32]);
    U16OfRead(b[66..68]);
    assert b[..68] == b[..16] + b[16..24] + b[24..28] + b[28..32] + b[32..64] + [b[64]] + [b[65]] + b[66..68];
  }

  lemma InverseChunkData(b: seq<Byte>, chunkCount: nat)
    requires ParseChunkData(b, chunkCount).Ok?
    ensures Body(ParseChunkData(b, chunkCount).packet) == b
  {
    hide Read16, Read32, Read64, U16, U32, U64;
    U32OfRead(b[16..20]);
    assert b == b[..16] + b[16..20] + b[20..];
  }

  lemma InverseChunkWithProof(b: seq<Byte>, chunkCount: nat)
    requires ParseChunkWithProof(b, chunkCount).Ok?
    ensures Body(ParseChunkWithProof(b, chunkCount).packet) == b
  {
    hide Read16, Read32, Read64, U16, U32, U64;
    U32OfRead(b[16..20]);
    var e := 21 + 32 * b[20] as int;
    assert b == b[..16] + b[16..20] + [b[20]] + b[21..e] + b[e..];
  }

  lemma InverseFecParity(b: seq<Byte>)
    requires ParseFecParity(b).Ok?
    ensures Body(ParseFecParity(b).packet) == b
  {
    hide Read16, Read32, Read64, U16, U32, U64;
    U32OfRead(b[16..20]);
    assert b == b[..16] + b[16..20] + [b[20]] + [b[21]] + [b[22]] + [b[23]] + b[24..];
  }

  lemma InverseRateReport(b: seq<Byte>)
    requires ParseRateReport(b).Ok?
    ensures Body(ParseRateReport(b).packet) <= b
  {
    hide Read16, Read32, Read64, U16, U32, U64;
    U32OfRead(b[16..20]);
    U32OfRead(b[20..24]);
    U32OfRead(b[24..28]);
    U32OfRead(b[28..32]);
    U64OfRead(b[32..40]);
    assert b[..40] == b[..16] + b[16..20] + b[20..24] + b[24..28] + b[28..32] + b[32..40];
  }

  lemma InverseKeepalive(b: seq<Byte>)
    requires ParseKeepalive(b).Ok?
    ensures Body(ParseKeepalive(b).packet) <= b
  {
    hide Read16, Read32, Read64, U16, U32, U64;
    U64OfRead(b[16..24]);
    U32OfRead(b[24..28]);
    assert b[..28] == b[..16] + b[16..24] + b[24..28];
  }
}

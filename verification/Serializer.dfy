// The serializer of src/wire/rgtp_packet.c, which writes a packet into a caller's buffer in place.
module Serializer {
  import opened Bits
  import opened Wire

  // ---- writes at an offset; each one extends what has been written so far

  method Copy(buf: array<Byte>, at: nat, bytes: seq<Byte>)
    requires at + |bytes| <= buf.Length
    modifies buf
    ensures buf[..at + |bytes|] == old(buf[..at]) + bytes
    ensures forall j :: at + |bytes| <= j < buf.Length ==> buf[j] == old(buf[j])
  {
    for i := 0 to |bytes|
      invariant buf[..at] == old(buf[..at])
      invariant forall j :: 0 <= j < i ==> buf[at + j] == bytes[j]
      invariant forall j :: at + i <= j < buf.Length ==> buf[j] == old(buf[j])
    {
      buf[at + i] := bytes[i];
    }
    assert buf[at..at + |bytes|] == bytes;
    assert buf[..at + |bytes|] == buf[..at] + buf[at..at + |bytes|];
  }

  method WriteU16(buf: array<Byte>, at: nat, v: nat)
    requires at + 2 <= buf.Length && v < U16_END
    modifies buf
    ensures buf[..at + 2] == old(buf[..at]) + U16(v)
    ensures forall j :: at + 2 <= j < buf.Length ==> buf[j] == old(buf[j])
  {
    buf[at] := v / 0x100;
    buf[at + 1] := v % 0x100;
    assert v / 0x100 % 0x100 == v / 0x100;
    Extended(old(buf[..]), buf[..], at, U16(v));
  }

  method WriteU32(buf: array<Byte>, at: nat, v: nat)
    requires at + 4 <= buf.Length && v < U32_END
    modifies buf
    ensures buf[..at + 4] == old(buf[..at]) + U32(v)
    ensures forall j :: at + 4 <= j < buf.Length ==> buf[j] == old(buf[j])
  {
    buf[at] := v / 0x100_0000 % 0x100;
    buf[at + 1] := v / 0x1_0000 % 0x100;
    buf[at + 2] := v / 0x100 % 0x100;
    buf[at + 3] := v % 0x100;
    Extended(old(buf[..]), buf[..], at, U32(v));
  }

  method WriteU64(buf: array<Byte>, at: nat, v: nat)
    requires at + 8 <= buf.Length && v < U64_END
    modifies buf
    ensures buf[..at + 8] == old(buf[..at]) + U64(v)
    ensures forall j :: at + 8 <= j < buf.Length ==> buf[j] == old(buf[j])
  {
    EightBytes(v);
    hide U64;
    buf[at] := v / 0x100_0000_0000_0000 % 0x100;
    buf[at + 1] := v / 0x1_0000_0000_0000 % 0x100;
    buf[at + 2] := v / 0x100_0000_0000 % 0x100;
    buf[at + 3] := v / 0x1_0000_0000 % 0x100;
    buf[at + 4] := v / 0x100_0000 % 0x100;
    buf[at + 5] := v / 0x1_0000 % 0x100;
    buf[at + 6] := v / 0x100 % 0x100;
    buf[at + 7] := v % 0x100;
    Extended(old(buf[..]), buf[..], at, U64(v));
  }

  lemma EightBytes(v: nat)
    requires v < U64_END
    ensures U64(v) == [v / 0x100_0000_0000_0000 % 0x100, v / 0x1_0000_0000_0000 % 0x100,
                       v / 0x100_0000_0000 % 0x100, v / 0x1_0000_0000 % 0x100,
                       v / 0x100_0000 % 0x100, v / 0x1_0000 % 0x100, v / 0x100 % 0x100, v % 0x100]
  {
    var h, l := v / U32_END, v % U32_END;
    assert U64(v) == U32(h) + U32(l);
    HighDigits(v, h);
    LowDigits(v, h, l);
  }

  lemma HighDigits(v: nat, h: nat)
    requires h == v / U32_END
    ensures h / 0x100_0000 == v / 0x100_0000_0000_0000 && h / 0x1_0000 == v / 0x1_0000_0000_0000
    ensures h / 0x100 == v / 0x100_0000_0000
  {}

  lemma LowDigits(v: nat, h: nat, l: nat)
    requires v == U32_END * h + l && l < U32_END
    ensures v / 0x100_0000 % 0x100 == l / 0x100_0000 % 0x100
    ensures v / 0x1_0000 % 0x100 == l / 0x1_0000 % 0x100
    ensures v / 0x100 % 0x100 == l / 0x100 % 0x100
    ensures v % 0x100 == l % 0x100
  {
    Digit(v, h, l, 0x100_0000);
    Digit(v, 0x100 * h, l, 0x1_0000);
    Digit(v, 0x1_0000 * h, l, 0x100);
    Digit(v, 0x100_0000 * h, l, 1);
  }

  // Adding a multiple of d * 256 does not change the digit at d.
  lemma Digit(v: nat, h: nat, l: nat, d: nat)
    requires d > 0 && v == d * (0x100 * h) + l
    ensures v / d % 0x100 == l / d % 0x100
  {
    var m, q, r := 0x100 * h, l / d, l % d;
    Distribute(d, m, q);
    DivModUnique(v, d, m + q, r);
    DivModUnique(m + q, 0x100, h + q / 0x100, q % 0x100);
  }

  lemma Extended(before: seq<Byte>, after: seq<Byte>, at: nat, bytes: seq<Byte>)
    requires |before| == |after| && at + |bytes| <= |after|
    requires forall j :: 0 <= j < |after| ==>
               after[j] == if at <= j < at + |bytes| then bytes[j - at] else before[j]
    ensures after[..at + |bytes|] == before[..at] + bytes
  {}

  method WriteByte(buf: array<Byte>, at: nat, v: Byte)
    requires at < buf.Length
    modifies buf
    ensures buf[..at + 1] == old(buf[..at]) + [v]
    ensures forall j :: at + 1 <= j < buf.Length ==> buf[j] == old(buf[j])
  {
    buf[at] := v;
  }

  // write_header and the exposure id that every body starts with
  method WriteHeader(buf: array<Byte>, p: Packet)
    requires WellTyped(p) && 20 <= buf.Length && Size(p) < U16_END
    modifies buf
    ensures buf[..20] == [VERSION, TypeByte(p)] + U16(Size(p)) + p.exposureId
    ensures forall j :: 20 <= j < buf.Length ==> buf[j] == old(buf[j])
  {
    hide U16, Size, TypeByte;
    WriteByte(buf, 0, VERSION);
    WriteByte(buf, 1, TypeByte(p));
    WriteU16(buf, 2, Size(p));
    Copy(buf, 4, p.exposureId);
    assert buf[..20] == [VERSION, TypeByte(p)] + U16(Size(p)) + p.exposureId;
  }

  // ---- concatenation written field by field

  lemma Flat2(h: seq<Byte>, a: seq<Byte>, b: seq<Byte>)
    ensures h + (a + b) == h + a + b
  {}

  lemma Flat3(h: seq<Byte>, a: seq<Byte>, b: seq<Byte>, c: seq<Byte>)
    ensures h + (a + b + c) == h + a + b + c
  {
    Flat2(h, a, b);
    Flat2(h, a + b, c);
  }

  lemma Flat4(h: seq<Byte>, a: seq<Byte>, b: seq<Byte>, c: seq<Byte>, d: seq<Byte>)
    ensures h + (a + b + c + d) == h + a + b + c + d
  {
    Flat3(h, a, b, c);
    Flat2(h, a + b + c, d);
  }

  lemma Flat5(h: seq<Byte>, a: seq<Byte>, b: seq<Byte>, c: seq<Byte>, d: seq<Byte>, e: seq<Byte>)
    ensures h + (a + b + c + d + e) == h + a + b + c + d + e
  {
    Flat4(h, a, b, c, d);
    Flat2(h, a + b + c + d, e);
  }

  lemma Flat6(h: seq<Byte>, a: seq<Byte>, b: seq<Byte>, c: seq<Byte>, d: seq<Byte>, e: seq<Byte>, f: seq<Byte>)
    ensures h + (a + b + c + d + e + f) == h + a + b + c + d + e + f
  {
    Flat5(h, a, b, c, d, e);
    Flat2(h, a + b + c + d + e, f);
  }

  lemma Flat7(h: seq<Byte>, a: seq<Byte>, b: seq<Byte>, c: seq<Byte>, d: seq<Byte>, e: seq<Byte>, f: seq<Byte>,
              g: seq<Byte>)
    ensures h + (a + b + c + d + e + f + g) == h + a + b + c + d + e + f + g
  {
    Flat6(h, a, b, c, d, e, f);
    Flat2(h, a + b + c + d + e + f, g);
  }

  // ---- the eight packet types

  method WritePullRequest(buf: array<Byte>, p: Packet)
    requires WellTyped(p) && p.PullRequest? && Size(p) <= buf.Length
    modifies buf
    ensures buf[..Size(p)] == Encode(p)
    ensures forall j :: Size(p) <= j < buf.Length ==> buf[j] == old(buf[j])
  {
    hide U16, U32;
    WriteHeader(buf, p);
    WriteU32(buf, 20, p.windowSize);
    WriteU32(buf, 24, p.lossRateQ16);
    WriteU32(buf, 28, p.pullFlags);
    WriteU16(buf, 32, p.versionMin);
    WriteU16(buf, 34, p.versionMax);
    Flat6([VERSION, TypeByte(p)] + U16(36), p.exposureId, U32(p.windowSize), U32(p.lossRateQ16), U32(p.pullFlags),
          U16(p.versionMin), U16(p.versionMax));
  }

  method WriteManifest(buf: array<Byte>, p: Packet)
    requires WellTyped(p) && p.Manifest? && Size(p) <= buf.Length
    modifies buf
    ensures buf[..Size(p)] == Encode(p)
    ensures forall j :: Size(p) <= j < buf.Length ==> buf[j] == old(buf[j])
  {
    hide U16, U32, U64;
    WriteHeader(buf, p);
    WriteU64(buf, 20, p.totalSize);
    WriteU32(buf, 28, p.chunkCount);
    WriteU32(buf, 32, p.chunkSize);
    Copy(buf, 36, p.merkleRoot);
    WriteByte(buf, 68, p.fecN);
    WriteByte(buf, 69, p.fecK);
    WriteU16(buf, 70, p.flags);
    var h := [VERSION, TypeByte(p)] + U16(72);
    Flat7(h, p.exposureId, U64(p.totalSize), U32(p.chunkCount), U32(p.chunkSize), p.merkleRoot, [p.fecN], [p.fecK]);
    Flat2(h,
          p.exposureId + U64(p.totalSize) + U32(p.chunkCount) + U32(p.chunkSize) + p.merkleRoot + [p.fecN] + [p.fecK],
          U16(p.flags));
  }

  method WriteChunkData(buf: array<Byte>, p: Packet)
    requires WellTyped(p) && p.ChunkData? && Size(p) <= buf.Length && Size(p) < U16_END
    modifies buf
    ensures buf[..Size(p)] == Encode(p)
    ensures forall j :: Size(p) <= j < buf.Length ==> buf[j] == old(buf[j])
  {
    hide U16, U32;
    WriteHeader(buf, p);
    WriteU32(buf, 20, p.chunkIndex);
    Copy(buf, 24, p.payload);
    Flat3([VERSION, TypeByte(p)] + U16(Size(p)), p.exposureId, U32(p.chunkIndex), p.payload);
  }

  method WriteChunkWithProof(buf: array<Byte>, p: Packet)
    requires WellTyped(p) && p.ChunkWithProof? && Size(p) <= buf.Length && Size(p) < U16_END
    modifies buf
    ensures buf[..Size(p)] == Encode(p)
    ensures forall j :: Size(p) <= j < buf.Length ==> buf[j] == old(buf[j])
  {
    hide U16, U32;
    WriteHeader(buf, p);
    WriteU32(buf, 20, p.chunkIndex);
    WriteByte(buf, 24, p.proofDepth);
    Copy(buf, 25, p.proof);
    Copy(buf, 25 + |p.proof|, p.payload);
    Flat5([VERSION, TypeByte(p)] + U16(Size(p)), p.exposureId, U32(p.chunkIndex), [p.proofDepth], p.proof, p.payload);
  }

  method WriteFecParity(buf: array<Byte>, p: Packet)
    requires WellTyped(p) && p.FecParity? && Size(p) <= buf.Length && Size(p) < U16_END
    modifies buf
    ensures buf[..Size(p)] == Encode(p)
    ensures forall j :: Size(p) <= j < buf.Length ==> buf[j] == old(buf[j])
  {
    hide U16, U32;
    WriteHeader(buf, p);
    WriteU32(buf, 20, p.blockIndex);
    WriteByte(buf, 24, p.parityIndex);
    WriteByte(buf, 25, p.fecN);
    WriteByte(buf, 26, p.fecK);
    WriteByte(buf, 27, p.parityReserved);
    Copy(buf, 28, p.payload);
    Flat7([VERSION, TypeByte(p)] + U16(Size(p)), p.exposureId, U32(p.blockIndex), [p.parityIndex], [p.fecN], [p.fecK],
          [p.parityReserved], p.payload);
  }

  // Lines 180-182.
  method WriteIndices(buf: array<Byte>, at: nat, indices: seq<nat>)
    requires at + 4 * |indices| <= buf.Length && forall i :: 0 <= i < |indices| ==> indices[i] < U32_END
    modifies buf
    ensures buf[..at + 4 * |indices|] == old(buf[..at]) + IndexBytes(indices)
    ensures forall j :: at + 4 * |indices| <= j < buf.Length ==> buf[j] == old(buf[j])
  {
    hide U32;
    ghost var before := buf[..at];
    for i := 0 to |indices|
      invariant buf[..at + 4 * i] == before + IndexBytes(indices[..i])
      invariant forall j :: at + 4 * |indices| <= j < buf.Length ==> buf[j] == old(buf[j])
    {
      WriteU32(buf, at + 4 * i, indices[i]);
      assert indices[..i + 1][..i] == indices[..i];
      Flat2(before, IndexBytes(indices[..i]), U32(indices[i]));
    }
    assert indices[..|indices|] == indices;
  }

  method WriteNak(buf: array<Byte>, p: Packet)
    requires WellTyped(p) && p.Nak? && Size(p) <= buf.Length && Size(p) < U16_END
    modifies buf
    ensures buf[..Size(p)] == Encode(p)
    ensures forall j :: Size(p) <= j < buf.Length ==> buf[j] == old(buf[j])
  {
    hide U16, U32, IndexBytes;
    WriteHeader(buf, p);
    WriteU16(buf, 20, |p.indices|);
    ghost var count := buf[..22];
    WriteByte(buf, 22, 0);
    WriteByte(buf, 23, 0);
    assert buf[..24] == count + [0, 0];
    WriteIndices(buf, 24, p.indices);
    Flat4([VERSION, TypeByte(p)] + U16(Size(p)), p.exposureId, U16(|p.indices|), [0, 0], IndexBytes(p.indices));
  }

  method WriteRateReport(buf: array<Byte>, p: Packet)
    requires WellTyped(p) && p.RateReport? && Size(p) <= buf.Length
    modifies buf
    ensures buf[..Size(p)] == Encode(p)
    ensures forall j :: Size(p) <= j < buf.Length ==> buf[j] == old(buf[j])
  {
    hide U16, U32, U64;
    WriteHeader(buf, p);
    WriteU32(buf, 20, p.rttUs);
    WriteU32(buf, 24, p.lossRateQ16);
    WriteU32(buf, 28, p.windowSize);
    WriteU32(buf, 32, p.reserved);
    WriteU64(buf, 36, p.timestampUs);
    Flat6([VERSION, TypeByte(p)] + U16(44), p.exposureId, U32(p.rttUs), U32(p.lossRateQ16), U32(p.windowSize),
          U32(p.reserved), U64(p.timestampUs));
  }

  method WriteKeepalive(buf: array<Byte>, p: Packet)
    requires WellTyped(p) && p.Keepalive? && Size(p) <= buf.Length
    modifies buf
    ensures buf[..Size(p)] == Encode(p)
    ensures forall j :: Size(p) <= j < buf.Length ==> buf[j] == old(buf[j])
  {
    hide U16, U32, U64;
    WriteHeader(buf, p);
    WriteU64(buf, 20, p.timestampUs);
    WriteU32(buf, 28, p.reserved);
    Flat3([VERSION, TypeByte(p)] + U16(32), p.exposureId, U64(p.timestampUs), U32(p.reserved));
  }

  // rgtp_serialize_packet: refuses a packet that exceeds the buffer or the length field.
  method Serialize(p: Packet, buf: array<Byte>) returns (ok: bool, len: nat)
    requires WellTyped(p)
    modifies buf
    ensures ok <==> Size(p) <= buf.Length && Size(p) < U16_END
    ensures ok ==> len == Size(p) && buf[..len] == Encode(p)
    ensures ok ==> forall j :: len <= j < buf.Length ==> buf[j] == old(buf[j])
    ensures !ok ==> len == 0 && buf[..] == old(buf[..])
  {
    hide WellTyped, Encode;
    if buf.Length < Size(p) || Size(p) >= U16_END {
      return false, 0;
    }
    match p {
      case PullRequest(_, _, _, _, _, _) => WritePullRequest(buf, p);
      case Manifest(_, _, _, _, _, _, _, _) => WriteManifest(buf, p);
      case ChunkData(_, _, _) => WriteChunkData(buf, p);
      case ChunkWithProof(_, _, _, _, _) => WriteChunkWithProof(buf, p);
      case FecParity(_, _, _, _, _, _, _) => WriteFecParity(buf, p);
      case Nak(_, _) => WriteNak(buf, p);
      case RateReport(_, _, _, _, _, _) => WriteRateReport(buf, p);
      case Keepalive(_, _, _) => WriteKeepalive(buf, p);
    }
    return true, Size(p);
  }
}

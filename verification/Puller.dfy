// The puller of src/transport/rgtp_puller.c. Receive is the meaning of one rgtp_pull_next; the class
// keeps the state the way the source does and is proved against it.
module Puller {
  import opened Bits
  import opened Wrappers
  import opened Wire
  import opened Crypto
  import Merkle
  import Replay

  type Digest = s: seq<Byte> | |s| == 32 witness seq(32, _ => 0)

  const U32_MAX := 0xffff_ffff
  const START_BUFFER := 256

  datatype Surface = Surface(
    exposureId: seq<Byte>, chunkCount: nat, merkleRoot: Digest, window: Replay.Window, received: seq<bool>,
    chunksReceived: nat, bytesReceived: nat, malformed: nat, authFailures: nat)

  datatype PullError = Timeout | BadPacket(error: Error) | Invalid | Short | AuthFail | MerkleFail

  datatype Outcome = Delivered(index: nat, plaintext: seq<Byte>) | Refused(reason: PullError)

  ghost predicate Valid(s: Surface) {
    |s.window.bits| == Replay.WIDTH && |s.received| == s.chunkCount
  }

  // ---- rgtp_pull_start: the answer to the pull request, which must be a manifest of the exposure

  function Start(exposureId: seq<Byte>, datagram: seq<Byte>): (r: Option<Surface>)
    ensures r.Some? ==> Valid(r.value) && r.value.chunkCount > 0
  {
    if datagram == [] then None
    else
      var d := if |datagram| > START_BUFFER then datagram[..START_BUFFER] else datagram;
      var r := Parse(d, U32_MAX);
      if r.Err? || !r.packet.Manifest? || r.packet.exposureId != exposureId then None
      else
        ParseTyped(d, U32_MAX);
        var m := r.packet;
        if BitmapBytes(m.chunkCount) == 0 then None
        else Some(Surface(exposureId, m.chunkCount, m.merkleRoot, Replay.INITIAL, seq(m.chunkCount, _ => false),
                          0, 0, 0, 0))
  }

  // The size of the receive bitmap in 32-bit arithmetic, which wraps to 0 for the seven largest counts.
  function BitmapBytes(chunkCount: nat): nat { (chunkCount + 7) % U32_END / 8 }

  // ---- rgtp_pull_next

  // The sibling hashes packed into a proof field.
  function Digests(proof: seq<Byte>): seq<Digest>
    requires |proof| % 32 == 0
  {
    seq(|proof| / 32, i requires 0 <= i < |proof| / 32 => proof[32 * i..32 * i + 32])
  }

  // A proof of positive depth must climb to the root; without one nothing is checked.
  predicate ProofHolds(h: Merkle.Hasher<Digest>, p: Packet, plaintext: seq<Byte>, root: Digest)
    requires p.ChunkWithProof? ==> |p.proof| == 32 * p.proofDepth as int
  {
    p.ChunkWithProof? && p.proofDepth > 0 ==>
      Merkle.Climb(h, h.leaf(plaintext), Digests(p.proof), p.chunkIndex) == root
  }

  function Receive(a: Aead, h: Merkle.Hasher<Digest>, s: Surface, datagram: seq<Byte>, bufSize: nat)
    : (r: (Surface, Outcome))
    requires Valid(s)
    ensures Valid(r.0)
  {
    if datagram == [] then (s, Refused(Timeout))
    else
      var parsed := Parse(datagram, s.chunkCount);
      if parsed.Err? then (s.(malformed := s.malformed + 1), Refused(BadPacket(parsed.error)))
      else
        ParseTyped(datagram, s.chunkCount);
        var p := parsed.packet;
        if !p.ChunkData? && !p.ChunkWithProof? then (s, Refused(Invalid))
        else if p.exposureId != s.exposureId then (s, Refused(Invalid))
        else Admit(a, h, s, p, bufSize)
  }

  // From the anti-replay check on.
  function Admit(a: Aead, h: Merkle.Hasher<Digest>, s: Surface, p: Packet, bufSize: nat): (r: (Surface, Outcome))
    requires Valid(s) && (p.ChunkData? || p.ChunkWithProof?) && p.chunkIndex < s.chunkCount
    requires p.ChunkWithProof? ==> |p.proof| == 32 * p.proofDepth as int
    ensures Valid(r.0)
  {
    var (w, verdict) := Replay.Check(s.window, p.chunkIndex);
    var s1 := s.(window := w);
    if !verdict.Accept? then (s1, Refused(Invalid))
    else if |p.payload| < TAG then (s1, Refused(Short))
    else
      var plain := Decrypt(a, p.chunkIndex, p.payload);
      if plain.None? then (s1.(authFailures := s.authFailures + 1), Refused(AuthFail))
      else if !ProofHolds(h, p, plain.value, s.merkleRoot) then (s1, Refused(MerkleFail))
      else if |plain.value| > bufSize then (s1, Refused(Invalid))
      else (Record(s1, p.chunkIndex, |plain.value|), Delivered(p.chunkIndex, plain.value))
  }

  // Lines 284-288: only the first delivery of an index is counted.
  function Record(s: Surface, i: nat, size: nat): (s': Surface)
    requires Valid(s) && i < s.chunkCount
    ensures Valid(s')
  {
    if s.received[i] then s
    else s.(received := s.received[i := true], chunksReceived := s.chunksReceived + 1,
            bytesReceived := s.bytesReceived + size)
  }

  // ---- the class

  function BitOf(bitmap: seq<Byte>, i: nat): bool
    requires i / 8 < |bitmap|
  {
    Bit(bitmap[i / 8], i % 8)
  }

  function Unpacked(bitmap: seq<Byte>, n: nat): (bits: seq<bool>)
    requires (n + 7) / 8 <= |bitmap|
    ensures |bits| == n
  {
    seq(n, i requires 0 <= i < n => BitOf(bitmap, i))
  }

  class PullSurface {
    const exposureId: seq<Byte>
    const chunkCount: nat
    const merkleRoot: Digest
    const replay: Replay.ReplayWindow
    const recvBitmap: array<Byte>
    var chunksReceived: nat
    var bytesReceived: nat
    var malformed: nat
    var authFailures: nat

    ghost predicate Ready()
      reads this, replay, replay.bitmap, recvBitmap
    {
      replay.Ready() && recvBitmap.Length == (chunkCount + 7) / 8
    }

    ghost function Value(): (s: Surface)
      requires Ready()
      reads this, replay, replay.bitmap, recvBitmap
      ensures Valid(s)
    {
      Surface(exposureId, chunkCount, merkleRoot, replay.Value(),
              Unpacked(recvBitmap[..], chunkCount),
              chunksReceived, bytesReceived, malformed, authFailures)
    }

    constructor (exposureId: seq<Byte>, chunkCount: nat, merkleRoot: Digest)
      requires chunkCount + 7 < U32_END
      ensures Ready() && fresh(replay) && fresh(replay.bitmap) && fresh(recvBitmap)
      ensures Value() == Surface(exposureId, chunkCount, merkleRoot, Replay.INITIAL, seq(chunkCount, _ => false),
                                 0, 0, 0, 0)
    {
      this.exposureId := exposureId;
      this.chunkCount := chunkCount;
      this.merkleRoot := merkleRoot;
      replay := new Replay.ReplayWindow();
      recvBitmap := new Byte[BitmapBytes(chunkCount)](_ => 0);
      chunksReceived, bytesReceived, malformed, authFailures := 0, 0, 0, 0;
      new;
      forall i: nat | i < chunkCount ensures !BitOf(recvBitmap[..], i) { ZeroBits(i % 8); }
      assert Value().received == seq(chunkCount, _ => false);
    }

    // bitmap_test_bit
    method TestBit(i: nat) returns (b: bool)
      requires Ready() && i < chunkCount
      ensures b == Value().received[i]
    {
      return Bit(recvBitmap[i / 8], i % 8);
    }

    // bitmap_set_bit: bm[i / 8] |= 1 << (i % 8)
    method SetBit(i: nat)
      requires Ready() && i < chunkCount
      modifies recvBitmap
      ensures Ready() && Value() == old(Value()).(received := old(Value()).received[i := true])
    {
      SetBitIs(recvBitmap[..], i);
      ghost var before := recvBitmap[..];
      hide Bit, Or;
      recvBitmap[i / 8] := Or(recvBitmap[i / 8], Pow2(i % 8));
      assert recvBitmap[..] == before[i / 8 := Or(before[i / 8], Pow2(i % 8))];
      assert Value().received == old(Value()).received[i := true];
    }

    // rgtp_pull_next, for one received datagram; an empty one stands for a timeout
    method PullNext(a: Aead, h: Merkle.Hasher<Digest>, datagram: seq<Byte>, bufSize: nat) returns (o: Outcome)
      requires Ready()
      modifies this, replay, replay.bitmap, recvBitmap
      ensures Ready() && (Value(), o) == Receive(a, h, old(Value()), datagram, bufSize)
    {
      hide Parse, Replay.Check, BitOf, ProofHolds;
      if datagram == [] {
        return Refused(Timeout);
      }
      var parsed := Parse(datagram, chunkCount);
      ghost var bitmap, bits := recvBitmap[..], replay.bitmap[..];
      if parsed.Err? {
        malformed := malformed + 1;
        assert recvBitmap[..] == bitmap && replay.bitmap[..] == bits;
        return Refused(BadPacket(parsed.error));
      }
      ParseTyped(datagram, chunkCount);
      var p := parsed.packet;
      if !p.ChunkData? && !p.ChunkWithProof? {
        return Refused(Invalid);
      }
      if p.exposureId != exposureId {
        return Refused(Invalid);
      }
      o := AdmitPacket(a, h, p, bufSize);
    }

    // Lines 237-288.
    method AdmitPacket(a: Aead, h: Merkle.Hasher<Digest>, p: Packet, bufSize: nat) returns (o: Outcome)
      requires Ready() && (p.ChunkData? || p.ChunkWithProof?) && p.chunkIndex < chunkCount
      requires p.ChunkWithProof? ==> |p.proof| == 32 * p.proofDepth as int
      modifies this, replay, replay.bitmap, recvBitmap
      ensures Ready() && (Value(), o) == Admit(a, h, old(Value()), p, bufSize)
    {
      hide Replay.Check, BitOf, Merkle.Climb;
      var i := p.chunkIndex;
      ghost var bitmap := recvBitmap[..];
      var verdict := replay.CheckAndSet(i);
      assert recvBitmap[..] == bitmap;
      if !verdict.Accept? {
        return Refused(Invalid);
      }
      if |p.payload| < TAG {
        return Refused(Short);
      }
      var plain := Decrypt(a, i, p.payload);
      if plain.None? {
        authFailures := authFailures + 1;
        return Refused(AuthFail);
      }
      if p.ChunkWithProof? && p.proofDepth > 0 {
        var proof := Digests(p.proof);
        assert proof[..p.proofDepth] == proof;
        var status := Merkle.Verify(h, plain.value, proof, p.proofDepth, i, merkleRoot);
        if !status.Ok? {
          return Refused(MerkleFail);
        }
      }
      if |plain.value| > bufSize {
        return Refused(Invalid);
      }
      var seen := TestBit(i);
      if !seen {
        SetBit(i);
        chunksReceived := chunksReceived + 1;
        bytesReceived := bytesReceived + |plain.value|;
      }
      return Delivered(i, plain.value);
    }
  }

  // rgtp_surface_alloc_puller: a bitmap of no bytes cannot be allocated.
  method AllocPuller(exposureId: seq<Byte>, chunkCount: nat, merkleRoot: Digest) returns (s: PullSurface?)
    requires 0 < chunkCount < U32_END
    ensures s == null <==> chunkCount + 7 >= U32_END
    ensures s != null ==>
      && fresh(s) && fresh(s.replay) && fresh(s.replay.bitmap) && fresh(s.recvBitmap) && s.Ready()
      && s.Value() == Surface(exposureId, chunkCount, merkleRoot, Replay.INITIAL, seq(chunkCount, _ => false),
                              0, 0, 0, 0)
  {
    if BitmapBytes(chunkCount) == 0 {
      return null;
    }
    s := new PullSurface(exposureId, chunkCount, merkleRoot);
  }

  // rgtp_pull_start, from the datagram received as the answer to the pull request
  method PullStart(exposureId: seq<Byte>, datagram: seq<Byte>) returns (s: PullSurface?)
    ensures s == null <==> Start(exposureId, datagram).None?
    ensures s != null ==> s.Ready() && s.Value() == Start(exposureId, datagram).value
    ensures s != null ==> s.exposureId == exposureId && s.chunkCount > 0 && Books(s.Value(), [])
  {
    hide Parse, Books;
    if datagram == [] {
      return null;
    }
    var d := if |datagram| > START_BUFFER then datagram[..START_BUFFER] else datagram;
    var r := Parse(d, U32_MAX);
    if r.Err? || !r.packet.Manifest? || r.packet.exposureId != exposureId {
      return null;
    }
    ParseTyped(d, U32_MAX);
    s := AllocPuller(exposureId, r.packet.chunkCount, r.packet.merkleRoot);
    if s != null {
      StartBooks(exposureId, datagram);
    }
  }

  lemma SetBitIs(bitmap: seq<Byte>, i: nat)
    requires i / 8 < |bitmap|
    ensures Or(bitmap[i / 8], Pow2(i % 8)) < 256
    ensures var b' := bitmap[i / 8 := Or(bitmap[i / 8], Pow2(i % 8))];
            forall j: nat :: j / 8 < |bitmap| ==> (BitOf(b', j) <==> i == j || BitOf(bitmap, j))
  {
    hide Bit, Or;
    assert Pow2(8) == 256;
    PowMonotone(i % 8 + 1, 8);
    OrBound(bitmap[i / 8], Pow2(i % 8), 8);
    var b' := bitmap[i / 8 := Or(bitmap[i / 8], Pow2(i % 8))];
    forall j: nat | j / 8 < |bitmap| ensures BitOf(b', j) <==> i == j || BitOf(bitmap, j) {
      if j / 8 == i / 8 {
        BitOr(bitmap[i / 8], Pow2(i % 8), j % 8);
        PowBits(i % 8, j % 8);
      }
    }
  }

  // ---- bookkeeping over runs

  datatype Delivery = Delivery(index: nat, plaintext: seq<Byte>)

  function Logged(o: Outcome): seq<Delivery> {
    if o.Delivered? then [Delivery(o.index, o.plaintext)] else []
  }

  datatype Input = Input(datagram: seq<Byte>, bufSize: nat)

  // The surface after the inputs, and the deliveries they made, in order.
  function Run(a: Aead, h: Merkle.Hasher<Digest>, s: Surface, inputs: seq<Input>): (r: (Surface, seq<Delivery>))
    requires Valid(s)
    ensures Valid(r.0)
  {
    if inputs == [] then (s, [])
    else
      var k := |inputs| - 1;
      var r := Run(a, h, s, inputs[..k]);
      var q := Receive(a, h, r.0, inputs[k].datagram, inputs[k].bufSize);
      (q.0, r.1 + Logged(q.1))
  }

  function Count(bits: seq<bool>): nat {
    if bits == [] then 0 else Count(bits[..|bits| - 1]) + if bits[|bits| - 1] then 1 else 0
  }

  predicate Has(log: seq<Delivery>, i: nat) {
    exists j :: 0 <= j < |log| && log[j].index == i
  }

  // Total size of the deliveries that were the first of their index.
  function FirstBytes(log: seq<Delivery>): nat {
    if log == [] then 0
    else
      var k := |log| - 1;
      FirstBytes(log[..k]) + if Has(log[..k], log[k].index) then 0 else |log[k].plaintext|
  }

  ghost predicate Books(s: Surface, log: seq<Delivery>)
    requires Valid(s)
  {
    && (forall j :: 0 <= j < |log| ==> log[j].index < s.chunkCount)
    && (forall i :: 0 <= i < s.chunkCount ==> (s.received[i] <==> Has(log, i)))
    && s.chunksReceived == Count(s.received)
    && s.bytesReceived == FirstBytes(log)
  }

  lemma {:induction false} CountSet(bits: seq<bool>, i: nat)
    requires i < |bits|
    ensures Count(bits[i := true]) == Count(bits) + if bits[i] then 0 else 1
  {
    var k := |bits| - 1;
    var b' := bits[i := true];
    if i == k {
      assert b'[..k] == bits[..k];
    } else {
      CountSet(bits[..k], i);
      assert b'[..k] == bits[..k][i := true];
    }
  }

  lemma {:induction false} CountNone(n: nat)
    ensures Count(seq(n, _ => false)) == 0
  {
    var bits := seq(n, _ => false);
    if n > 0 {
      CountNone(n - 1);
      assert bits[..n - 1] == seq(n - 1, _ => false);
    }
  }

  lemma {:induction false} CountBound(bits: seq<bool>)
    ensures Count(bits) <= |bits|
    ensures Count(bits) == |bits| ==> forall i :: 0 <= i < |bits| ==> bits[i]
  {
    if bits != [] {
      var k := |bits| - 1;
      CountBound(bits[..k]);
      if Count(bits) == |bits| {
        forall i | 0 <= i < |bits| ensures bits[i] {
          if i < k { assert bits[..k][i]; }
        }
      }
    }
  }

  lemma HasMore(log: seq<Delivery>, d: Delivery, i: nat)
    ensures Has(log + [d], i) <==> Has(log, i) || d.index == i
  {
    var more := log + [d];
    if Has(log, i) {
      var j :| 0 <= j < |log| && log[j].index == i;
      assert more[j] == log[j];
    }
    if d.index == i { assert more[|log|].index == i; }
  }

  // Recording a delivery keeps the books, whether or not it is the first of its index.
  lemma RecordKeepsBooks(s: Surface, log: seq<Delivery>, d: Delivery)
    requires Valid(s) && Books(s, log) && d.index < s.chunkCount
    ensures Books(Record(s, d.index, |d.plaintext|), log + [d])
  {
    hide Has;
    var s' := Record(s, d.index, |d.plaintext|);
    var more := log + [d];
    CountSet(s.received, d.index);
    assert s.received[d.index] ==> s.received[d.index := true] == s.received;
    assert more[..|log|] == log;
    forall i | 0 <= i < s.chunkCount ensures s'.received[i] <==> Has(more, i) { HasMore(log, d, i); }
  }

  // What one datagram can do to a surface: change the window and counters, and record a delivery.
  lemma ReceiveShape(a: Aead, h: Merkle.Hasher<Digest>, s: Surface, datagram: seq<Byte>, bufSize: nat)
    requires Valid(s)
    ensures var (s', o) := Receive(a, h, s, datagram, bufSize);
            var s1 := s.(window := s'.window, malformed := s'.malformed, authFailures := s'.authFailures);
            && Valid(s1)
            && (o.Refused? ==> s' == s1)
            && (o.Delivered? ==> o.index < s.chunkCount && s' == Record(s1, o.index, |o.plaintext|))
  {
    hide Parse, ProofHolds, Replay.Check;
    if datagram != [] && Parse(datagram, s.chunkCount).Ok? {
      ParseTyped(datagram, s.chunkCount);
    }
  }

  lemma ReceiveKeepsBooks(a: Aead, h: Merkle.Hasher<Digest>, s: Surface, log: seq<Delivery>, d: seq<Byte>, bufSize: nat)
    requires Valid(s) && Books(s, log)
    ensures var r := Receive(a, h, s, d, bufSize);
            && r.0.chunkCount == s.chunkCount && r.0.exposureId == s.exposureId && r.0.merkleRoot == s.merkleRoot
            && Books(r.0, log + Logged(r.1))
  {
    hide Receive, Record, Books;
    ReceiveShape(a, h, s, d, bufSize);
    var r := Receive(a, h, s, d, bufSize);
    var s1 := s.(window := r.0.window, malformed := r.0.malformed, authFailures := r.0.authFailures);
    BooksIgnoreWindow(s, s1, log);
    if r.1.Delivered? {
      RecordKeepsBooks(s1, log, Delivery(r.1.index, r.1.plaintext));
      RecordShape(s1, r.1.index, |r.1.plaintext|);
    } else {
      assert log + [] == log;
    }
  }

  // In every run, on any datagrams and whatever the replay verdicts, the bitmap marks exactly the
  // indices delivered, chunksReceived counts its set bits and bytesReceived sums the first deliveries.
  lemma {:induction false} Bookkeeping(a: Aead, h: Merkle.Hasher<Digest>, s: Surface, inputs: seq<Input>)
    requires Valid(s) && Books(s, [])
    ensures var r := Run(a, h, s, inputs);
            r.0.chunkCount == s.chunkCount && r.0.exposureId == s.exposureId && r.0.merkleRoot == s.merkleRoot
            && Books(r.0, r.1)
  {
    hide Receive, Books, Logged;
    if inputs != [] {
      var k := |inputs| - 1;
      Bookkeeping(a, h, s, inputs[..k]);
      var r := Run(a, h, s, inputs[..k]);
      ReceiveKeepsBooks(a, h, r.0, r.1, inputs[k].datagram, inputs[k].bufSize);
    }
  }

  lemma RecordShape(s: Surface, i: nat, size: nat)
    requires Valid(s) && i < s.chunkCount
    ensures var s' := Record(s, i, size);
            s'.chunkCount == s.chunkCount && s'.exposureId == s.exposureId && s'.merkleRoot == s.merkleRoot
  {}

  lemma BooksIgnoreWindow(s: Surface, s1: Surface, log: seq<Delivery>)
    requires Valid(s) && Valid(s1) && Books(s, log)
    requires s1 == s.(window := s1.window, malformed := s1.malformed, authFailures := s1.authFailures)
    ensures Books(s1, log)
  {}

  // A surface just started has empty books.
  lemma StartBooks(exposureId: seq<Byte>, datagram: seq<Byte>)
    requires Start(exposureId, datagram).Some?
    ensures Books(Start(exposureId, datagram).value, [])
    ensures Start(exposureId, datagram).value.exposureId == exposureId
  {
    hide Parse;
    CountNone(Start(exposureId, datagram).value.chunkCount);
  }

  // ---- when a datagram is delivered

  // Sibling hash j of a proof field.
  function HashAt(proof: seq<Byte>, j: nat): Digest
    requires 32 * j + 32 <= |proof|
  {
    proof[32 * j..32 * j + 32]
  }

  // x climbs to the root along the given hashes of a proof field.
  ghost predicate ClimbsTo(h: Merkle.Hasher<Digest>, x: seq<Byte>, proof: seq<Byte>, depth: nat, i: nat, root: Digest) {
    exists hashes: seq<Digest> ::
      && |hashes| == depth && 32 * depth == |proof|
      && (forall j :: 0 <= j < depth ==> hashes[j] == HashAt(proof, j))
      && Merkle.Climb(h, h.leaf(x), hashes, i) == root
  }

  // A chunk packet of this exposure, which is what reaches the anti-replay check.
  ghost predicate Reaches(s: Surface, d: seq<Byte>) {
    && Parse(d, s.chunkCount).Ok?
    && var p := Parse(d, s.chunkCount).packet;
       (p.ChunkData? || p.ChunkWithProof?) && p.exposureId == s.exposureId
  }

  // A proof of positive depth comes with the packet and does not lead from x to the root.
  ghost predicate ProofFails(h: Merkle.Hasher<Digest>, s: Surface, p: Packet, x: seq<Byte>) {
    p.ChunkWithProof? && p.proofDepth > 0 && !ClimbsTo(h, x, p.proof, p.proofDepth, p.chunkIndex, s.merkleRoot)
  }

  lemma ProofFailsIs(h: Merkle.Hasher<Digest>, s: Surface, p: Packet, x: seq<Byte>)
    requires p.ChunkWithProof? ==> |p.proof| == 32 * p.proofDepth as int
    ensures ProofFails(h, s, p, x) <==> !ProofHolds(h, p, x, s.merkleRoot)
  {
    hide Merkle.Climb;
    if p.ChunkWithProof? && p.proofDepth > 0 {
      var hashes := Digests(p.proof);
      assert forall j :: 0 <= j < p.proofDepth as int ==> hashes[j] == HashAt(p.proof, j);
      if ClimbsTo(h, x, p.proof, p.proofDepth, p.chunkIndex, s.merkleRoot) {
        var other: seq<Digest> :|
          && |other| == p.proofDepth as int
          && (forall j :: 0 <= j < p.proofDepth as int ==> other[j] == HashAt(p.proof, j))
          && Merkle.Climb(h, h.leaf(x), other, p.chunkIndex) == s.merkleRoot;
        assert other == hashes;
      }
    }
  }

  lemma ReachesIs(a: Aead, h: Merkle.Hasher<Digest>, s: Surface, d: seq<Byte>, bufSize: nat)
    requires Valid(s) && Reaches(s, d)
    ensures var p := Parse(d, s.chunkCount).packet;
            && p.chunkIndex < s.chunkCount && (p.ChunkWithProof? ==> |p.proof| == 32 * p.proofDepth as int)
            && Receive(a, h, s, d, bufSize) == Admit(a, h, s, p, bufSize)
  {
    ParseTyped(d, s.chunkCount);
    ParseStatus(d, s.chunkCount);
    hide Parse, Admit;
  }

  // Delivery, exactly: a chunk packet of this exposure, with an index the window accepts, a ciphertext
  // longer than its tag that opens under the nonce of the index, a proof that leads to the root if there
  // is one, and a plaintext the buffer can take.
  lemma DeliversExactly(a: Aead, h: Merkle.Hasher<Digest>, s: Surface, d: seq<Byte>, bufSize: nat, i: nat, x: seq<Byte>)
    requires Valid(s)
    ensures Receive(a, h, s, d, bufSize).1 == Delivered(i, x) <==>
            && Reaches(s, d)
            && var p := Parse(d, s.chunkCount).packet;
               && p.chunkIndex == i && Replay.Check(s.window, i).1.Accept?
               && |p.payload| > 16 && a.open(Nonce(i), p.payload) == Some(x)
               && !ProofFails(h, s, p, x) && |x| <= bufSize
  {
    if Reaches(s, d) {
      ReachesIs(a, h, s, d, bufSize);
      ProofFailsIs(h, s, Parse(d, s.chunkCount).packet, x);
      hide Parse, ProofHolds, ProofFails, Replay.Check, Receive;
    } else {
      NotReached(a, h, s, d, bufSize);
      hide Reaches, Receive;
    }
  }

  lemma NotReached(a: Aead, h: Merkle.Hasher<Digest>, s: Surface, d: seq<Byte>, bufSize: nat)
    requires Valid(s) && !Reaches(s, d)
    ensures var (s', o) := Receive(a, h, s, d, bufSize);
            && o.Refused?
            && s' == if d != [] && Parse(d, s.chunkCount).Err? then s.(malformed := s.malformed + 1) else s
  {
    hide Parse, Admit;
  }

  // What one datagram does to the window and the counters, and the reason of a failed proof.
  lemma ReceiveCounts(a: Aead, h: Merkle.Hasher<Digest>, s: Surface, d: seq<Byte>, bufSize: nat)
    requires Valid(s)
    ensures var (s', o) := Receive(a, h, s, d, bufSize);
            && s'.malformed == s.malformed + (if d != [] && Parse(d, s.chunkCount).Err? then 1 else 0)
            && s'.authFailures == s.authFailures + (if o == Refused(AuthFail) then 1 else 0)
            && s'.window == if Reaches(s, d) then Replay.Check(s.window, Parse(d, s.chunkCount).packet.chunkIndex).0
                            else s.window
    ensures Receive(a, h, s, d, bufSize).1 == Refused(MerkleFail) <==>
            && Reaches(s, d)
            && var p := Parse(d, s.chunkCount).packet;
               && Replay.Check(s.window, p.chunkIndex).1.Accept? && |p.payload| > 16
               && a.open(Nonce(p.chunkIndex), p.payload).Some?
               && ProofFails(h, s, p, a.open(Nonce(p.chunkIndex), p.payload).value)
  {
    if Reaches(s, d) {
      ReachesIs(a, h, s, d, bufSize);
      ParseNotEmpty(d, s.chunkCount);
      var p := Parse(d, s.chunkCount).packet;
      if a.open(Nonce(p.chunkIndex), p.payload).Some? {
        ProofFailsIs(h, s, p, a.open(Nonce(p.chunkIndex), p.payload).value);
      }
      hide Parse, ProofHolds, ProofFails, Replay.Check, Receive;
    } else {
      hide Parse, Admit, Replay.Check;
    }
  }

  // The reasons that come before the proof: too short for a tag, or not authentic. A bare tag counts as
  // an authentication failure.
  lemma CipherRefusals(a: Aead, h: Merkle.Hasher<Digest>, s: Surface, d: seq<Byte>, bufSize: nat)
    requires Valid(s)
    ensures Receive(a, h, s, d, bufSize).1 == Refused(Short) <==>
            && Reaches(s, d)
            && var p := Parse(d, s.chunkCount).packet;
               Replay.Check(s.window, p.chunkIndex).1.Accept? && |p.payload| < 16
    ensures Receive(a, h, s, d, bufSize).1 == Refused(AuthFail) <==>
            && Reaches(s, d)
            && var p := Parse(d, s.chunkCount).packet;
               && Replay.Check(s.window, p.chunkIndex).1.Accept? && |p.payload| >= 16
               && (|p.payload| == 16 || a.open(Nonce(p.chunkIndex), p.payload).None?)
  {
    if Reaches(s, d) {
      ReachesIs(a, h, s, d, bufSize);
      hide Parse, ProofHolds, Replay.Check, Receive;
    } else {
      hide Parse, Admit, Replay.Check;
    }
  }

  lemma ParseNotEmpty(d: seq<Byte>, chunkCount: nat)
    requires Parse(d, chunkCount).Ok?
    ensures d != []
  {}

  // A delivery with a proof, against the root of a tree over the plaintexts: it is the chunk at that
  // index, or a coincidence of the hashes is returned. Nothing is assumed about the AEAD.
  lemma ProvenDelivery(a: Aead, h: Merkle.Hasher<Digest>, s: Surface, d: seq<Byte>, bufSize: nat,
                       plain: seq<seq<Byte>>, depth: nat)
    returns (w: Option<Merkle.Coincidence<Digest>>)
    requires Valid(s) && |plain| <= Pow2(depth) && s.merkleRoot == Merkle.Node(h, plain, depth, 1)
    requires Receive(a, h, s, d, bufSize).1.Delivered?
    requires Parse(d, s.chunkCount).Ok? && Parse(d, s.chunkCount).packet.ChunkWithProof?
    requires Parse(d, s.chunkCount).packet.proofDepth > 0
    ensures w.Some? ==> Merkle.Real(h, w.value)
    ensures w.None? ==>
              var o := Receive(a, h, s, d, bufSize).1;
              && Parse(d, s.chunkCount).packet.proofDepth as int == depth
              && o.index % Pow2(depth) < |plain| && plain[o.index % Pow2(depth)] == o.plaintext
              && (o.index < |plain| ==> plain[o.index] == o.plaintext)
  {
    var o, p := Receive(a, h, s, d, bufSize).1, Parse(d, s.chunkCount).packet;
    DeliversExactly(a, h, s, d, bufSize, o.index, o.plaintext);
    assert ClimbsTo(h, o.plaintext, p.proof, p.proofDepth, o.index, s.merkleRoot);
    hide Receive, Parse, Merkle.Climb, Merkle.Node;
    var hashes: seq<Digest> :|
      |hashes| == p.proofDepth as int && Merkle.Climb(h, h.leaf(o.plaintext), hashes, o.index) == s.merkleRoot;
    w := Merkle.AcceptedOrCoincidence(h, plain, depth, o.plaintext, hashes, o.index);
    if w.None? && o.index < Pow2(depth) {
      DivModUnique(o.index, Pow2(depth), 0, o.index);
    }
  }

  // ---- when a pull starts

  // The answer to the pull request, as far as the receive buffer of 256 bytes reaches.
  function Heard(d: seq<Byte>): seq<Byte> {
    if |d| > 256 then d[..256] else d
  }

  // A pull starts exactly on a manifest of the exposure asked for, with its chunk count and root.
  lemma StartExactly(exposureId: seq<Byte>, d: seq<Byte>)
    ensures Start(exposureId, d).Some? <==>
            && Parse(Heard(d), U32_MAX).Ok?
            && var m := Parse(Heard(d), U32_MAX).packet;
               m.Manifest? && m.exposureId == exposureId && m.chunkCount + 7 < U32_END
    ensures Start(exposureId, d).Some? ==>
              var s, m := Start(exposureId, d).value, Parse(Heard(d), U32_MAX).packet;
              && s.exposureId == exposureId && s.chunkCount == m.chunkCount && s.merkleRoot == m.merkleRoot
              && s.window == Replay.INITIAL && Books(s, [])
  {
    if Parse(Heard(d), U32_MAX).Ok? {
      ParseTyped(Heard(d), U32_MAX);
      ParseNotEmpty(Heard(d), U32_MAX);
    }
    hide Parse, Books;
    if Start(exposureId, d).Some? { StartBooks(exposureId, d); }
  }
}

// The exposer: rgtp_expose and the serving part of rgtp_poll (src/transport/rgtp_exposer.c), and the
// sliding chunk store of rgtp_expose_append_chunk (src/transport/rgtp_streaming.c).
module Exposer {
  import opened Bits
  import opened Wrappers
  import opened Wire
  import opened Crypto
  import opened Puller
  import Merkle
  import RateLimit
  import Serializer

  const DEFAULT_CHUNK_SIZE := 1200
  const SEND_BUFFER := 65635

  // ---- splitting

  // The data in chunks of the given size, the last one possibly shorter.
  function Split(data: seq<Byte>, size: nat): (chunks: seq<seq<Byte>>)
    requires size > 0 && data != []
    ensures |chunks| > 0
    decreases |data|
  {
    if |data| <= size then [data] else [data[..size]] + Split(data[size..], size)
  }

  function Concat(chunks: seq<seq<Byte>>): seq<Byte> {
    if chunks == [] then [] else chunks[0] + Concat(chunks[1..])
  }

  lemma {:induction false} ConcatSplit(data: seq<Byte>, size: nat)
    requires size > 0 && data != []
    ensures Concat(Split(data, size)) == data
    decreases |data|
  {
    var chunks := Split(data, size);
    if |data| <= size {
      assert chunks[1..] == [];
      assert Concat(chunks) == data + Concat([]);
    } else {
      ConcatSplit(data[size..], size);
      assert chunks[1..] == Split(data[size..], size);
      assert data[..size] + data[size..] == data;
    }
  }

  // The number of chunks is the size divided by the chunk size, rounded up.
  lemma {:induction false} SplitCount(data: seq<Byte>, size: nat)
    requires size > 0 && data != []
    ensures |Split(data, size)| == (|data| + size - 1) / size
    decreases |data|
  {
    var n := |data|;
    if n <= size {
      DivModUnique(n + size - 1, size, 1, n - 1);
    } else {
      SplitCount(data[size..], size);
      var q, r := (n - 1) / size, (n - 1) % size;
      assert size * (q + 1) == size * q + size;
      DivModUnique(n + size - 1, size, q + 1, r);
    }
  }

  // The end of the chunk that starts at the given offset.
  function ChunkEnd(n: nat, start: nat, size: nat): nat {
    if start + size > n then n else start + size
  }

  // Chunk i is the slice the source computes from i * size.
  lemma {:induction false} SplitAt(data: seq<Byte>, size: nat, i: nat)
    requires size > 0 && data != [] && i < |Split(data, size)|
    ensures i * size < |data|
    ensures Split(data, size)[i] == data[i * size..ChunkEnd(|data|, i * size, size)]
    decreases |data|
  {
    var n := |data|;
    if n <= size {
      assert data[0..n] == data;
    } else if i > 0 {
      var rest := data[size..];
      SplitAt(rest, size, i - 1);
      PrevMultiple(i, size);
      var lo := (i - 1) * size;
      var hi := ChunkEnd(|rest|, lo, size);
      assert rest[lo..hi] == data[lo + size..hi + size];
    }
  }

  lemma PrevMultiple(i: nat, size: nat)
    requires i > 0
    ensures i * size == (i - 1) * size + size
  {}

  // ---- what the exposer sends

  datatype View = View(
    exposureId: seq<Byte>, totalSize: nat, chunkSize: nat, root: Digest, fecN: Byte, fecK: Byte,
    chunks: seq<Option<seq<Byte>>>, proofs: Option<seq<seq<Digest>>>, proofDepth: nat)

  ghost predicate ValidView(v: View) {
    && |v.exposureId| == 16 && v.totalSize < U64_END && v.chunkSize < U32_END && |v.chunks| < U32_END
    && (forall i :: 0 <= i < |v.chunks| && v.chunks[i].Some? ==> |v.chunks[i].value| < U16_END)
    && v.proofDepth < 256
    && (v.proofs.Some? ==> forall i :: 0 <= i < |v.proofs.value| ==> |v.proofs.value[i]| == v.proofDepth)
  }

  function Flatten(proof: seq<Digest>): (b: seq<Byte>)
    ensures |b| == 32 * |proof|
  {
    if proof == [] then [] else proof[0] + Flatten(proof[1..])
  }

  lemma {:induction false} DigestsFlatten(proof: seq<Digest>)
    ensures Digests(Flatten(proof)) == proof
  {
    if proof != [] {
      var b, rest := Flatten(proof), Flatten(proof[1..]);
      DigestsFlatten(proof[1..]);
      assert b == proof[0] + rest;
      assert b[0..32] == proof[0];
      forall i | 1 <= i < |proof| ensures b[32 * i..32 * i + 32] == proof[i] {
        var j := i - 1;
        assert b[32 * i..32 * i + 32] == rest[32 * j..32 * j + 32];
        assert rest[32 * j..32 * j + 32] == Digests(rest)[j];
        assert proof[1..][j] == proof[i];
      }
    }
  }

  function ManifestPacket(v: View): Packet {
    Manifest(v.exposureId, v.totalSize, |v.chunks|, v.chunkSize, v.root, v.fecN, v.fecK, 0)
  }

  function ChunkPacket(v: View, i: nat, wantProof: bool): Packet
    requires i < |v.chunks| && v.chunks[i].Some? && v.proofDepth < 256
  {
    if wantProof && v.proofs.Some? && i < |v.proofs.value| then
      ChunkWithProof(v.exposureId, i, v.proofDepth, Flatten(v.proofs.value[i]), v.chunks[i].value)
    else ChunkData(v.exposureId, i, v.chunks[i].value)
  }

  lemma PacketsTyped(v: View, i: nat, wantProof: bool)
    requires ValidView(v)
    ensures WellTyped(ManifestPacket(v))
    ensures i < |v.chunks| && v.chunks[i].Some? ==> WellTyped(ChunkPacket(v, i, wantProof))
  {}

  // The datagrams of the chunks below n, in order: evicted chunks and packets too long for the
  // length field are left out.
  function ChunkDatagrams(v: View, n: nat, wantProof: bool): seq<seq<Byte>>
    requires n <= |v.chunks| && v.proofDepth < 256
  {
    if n == 0 then []
    else
      var i := n - 1;
      ChunkDatagrams(v, i, wantProof) + ChunkDatagram(v, i, wantProof)
  }

  // The datagram for chunk i, unless it is evicted or does not fit.
  function ChunkDatagram(v: View, i: nat, wantProof: bool): seq<seq<Byte>>
    requires i < |v.chunks| && v.proofDepth < 256
  {
    if v.chunks[i].Some? && Size(ChunkPacket(v, i, wantProof)) < U16_END
    then [Encode(ChunkPacket(v, i, wantProof))] else []
  }

  lemma DatagramsNext(v: View, i: nat, wantProof: bool)
    requires i < |v.chunks| && v.proofDepth < 256
    ensures ChunkDatagrams(v, i + 1, wantProof) == ChunkDatagrams(v, i, wantProof) + ChunkDatagram(v, i, wantProof)
  {}

  // The response to an admitted pull request.
  function Answer(v: View, windowSize: nat, flags: nat): seq<seq<Byte>>
    requires v.proofDepth < 256
  {
    var w := if windowSize == 0 then 1 else windowSize;
    var n := if w > |v.chunks| then |v.chunks| else w;
    [Encode(ManifestPacket(v))] + ChunkDatagrams(v, n, flags % 2 == 1)
  }

  // ---- what an answer says, read by the parser

  // Chunk i goes out with its proof when one is asked for and the exposure holds one.
  predicate Proven(v: View, i: nat, flags: nat) {
    flags % 2 == 1 && v.proofs.Some? && i < |v.proofs.value|
  }

  // Chunk i is live and its packet fits the 16-bit length field.
  predicate Sendable(v: View, i: nat, flags: nat) {
    && i < |v.chunks| && v.chunks[i].Some?
    && |v.chunks[i].value| + (if Proven(v, i, flags) then 25 + 32 * v.proofDepth else 24) <= 65535
  }

  // The packet tells the puller everything the exposure holds for chunk i.
  ghost predicate Presents(v: View, i: nat, flags: nat, p: Packet)
    requires i < |v.chunks| && v.chunks[i].Some?
  {
    && p.exposureId == v.exposureId
    && (if Proven(v, i, flags)
        then p.ChunkWithProof? && p.proofDepth as int == v.proofDepth && |p.proof| == 32 * v.proofDepth
             && Digests(p.proof) == v.proofs.value[i]
        else p.ChunkData?)
    && p.chunkIndex == i && p.payload == v.chunks[i].value
  }

  lemma ChunkDatagramParsed(v: View, i: nat, flags: nat)
    requires ValidView(v) && i < |v.chunks|
    ensures ChunkDatagram(v, i, flags % 2 == 1) != [] <==> Sendable(v, i, flags)
    ensures Sendable(v, i, flags) ==>
              var ds := ChunkDatagram(v, i, flags % 2 == 1);
              && |ds| == 1 && Parse(ds[0], |v.chunks|).Ok?
              && Presents(v, i, flags, Parse(ds[0], |v.chunks|).packet)
  {
    hide Parse, Encode, WellTyped, Flatten, Digests;
    if v.chunks[i].Some? {
      var p := ChunkPacket(v, i, flags % 2 == 1);
      PacketsTyped(v, i, flags % 2 == 1);
      if Size(p) < U16_END {
        ParseEncode(p, [], |v.chunks|);
        assert Encode(p) + [] == Encode(p);
        if Proven(v, i, flags) { DigestsFlatten(v.proofs.value[i]); }
      }
    }
  }

  // idx lists, in increasing order, exactly the sendable chunks below n.
  ghost predicate Lists(v: View, flags: nat, n: nat, idx: seq<nat>) {
    && (forall j, k :: 0 <= j < k < |idx| ==> idx[j] < idx[k])
    && (forall i: nat :: i in idx <==> i < n && Sendable(v, i, flags))
  }

  // The datagrams ds are, one by one, the chunks idx.
  ghost predicate Conveys(v: View, flags: nat, ds: seq<seq<Byte>>, idx: seq<nat>) {
    && |ds| == |idx|
    && forall j :: 0 <= j < |ds| ==>
         && idx[j] < |v.chunks| && v.chunks[idx[j]].Some? && Parse(ds[j], |v.chunks|).Ok?
         && Presents(v, idx[j], flags, Parse(ds[j], |v.chunks|).packet)
  }

  lemma {:induction false} ChunkDatagramsParsed(v: View, n: nat, flags: nat) returns (idx: seq<nat>)
    requires ValidView(v) && n <= |v.chunks|
    ensures Lists(v, flags, n, idx) && Conveys(v, flags, ChunkDatagrams(v, n, flags % 2 == 1), idx)
  {
    hide *;
    ViewDepth(v);
    if n == 0 {
      idx := [];
      NoneParsed(v, flags);
    } else {
      idx := ChunkDatagramsParsed(v, n - 1, flags);
      DatagramsNext(v, n - 1, flags % 2 == 1);
      idx := NextParsed(v, n - 1, flags, ChunkDatagrams(v, n - 1, flags % 2 == 1), idx);
    }
  }

  lemma ViewDepth(v: View)
    requires ValidView(v)
    ensures v.proofDepth < 256
  {}

  lemma NoneParsed(v: View, flags: nat)
    requires ValidView(v)
    ensures Lists(v, flags, 0, []) && Conveys(v, flags, ChunkDatagrams(v, 0, flags % 2 == 1), [])
  {
    hide Parse, Presents, Sendable;
  }

  lemma NextParsed(v: View, m: nat, flags: nat, ds: seq<seq<Byte>>, idx: seq<nat>) returns (more: seq<nat>)
    requires ValidView(v) && m < |v.chunks| && Lists(v, flags, m, idx) && Conveys(v, flags, ds, idx)
    ensures Lists(v, flags, m + 1, more)
    ensures Conveys(v, flags, ds + ChunkDatagram(v, m, flags % 2 == 1), more)
  {
    hide Parse, ChunkDatagram, Presents, Sendable;
    ChunkDatagramParsed(v, m, flags);
    if Sendable(v, m, flags) {
      SendableLive(v, m, flags);
      ListsNext(v, flags, m, idx);
      more := idx + [m];
    } else {
      assert ds + ChunkDatagram(v, m, flags % 2 == 1) == ds;
      more := idx;
    }
  }

  lemma SendableLive(v: View, i: nat, flags: nat)
    requires Sendable(v, i, flags)
    ensures i < |v.chunks| && v.chunks[i].Some?
  {}

  lemma ListsNext(v: View, flags: nat, m: nat, idx: seq<nat>)
    requires Lists(v, flags, m, idx) && Sendable(v, m, flags)
    ensures Lists(v, flags, m + 1, idx + [m])
  {
    hide Sendable;
    forall j | 0 <= j < |idx| ensures idx[j] < m { assert idx[j] in idx; }
  }

  // The chunks an answer reaches: at least one, at most all.
  function Reach(v: View, windowSize: nat): nat { Min(Max(windowSize, 1), |v.chunks|) }

  lemma AnswerIs(v: View, windowSize: nat, flags: nat)
    requires v.proofDepth < 256
    ensures Answer(v, windowSize, flags)
            == [Encode(ManifestPacket(v))] + ChunkDatagrams(v, Reach(v, windowSize), flags % 2 == 1)
  {
    hide Encode, ChunkDatagrams, ManifestPacket;
  }

  // An answer is the manifest with everything it should name, followed by exactly the sendable chunks
  // below the window, in order, each with its index, its ciphertext and the proof it should have.
  lemma AnswerExactly(v: View, windowSize: nat, flags: nat) returns (idx: seq<nat>)
    requires ValidView(v) && |v.chunks| > 0 && v.chunkSize > 0
    ensures var ds := Answer(v, windowSize, flags);
            && |ds| > 0
            && Parse(ds[0], |v.chunks|)
               == Ok(Manifest(v.exposureId, v.totalSize, |v.chunks|, v.chunkSize, v.root, v.fecN, v.fecK, 0))
            && Lists(v, flags, Min(Max(windowSize, 1), |v.chunks|), idx)
            && Conveys(v, flags, ds[1..], idx)
  {
    AnswerIs(v, windowSize, flags);
    ManifestParsed(v, |v.chunks|);
    hide Parse, Encode, ChunkDatagrams, Lists, Conveys, ValidView, Answer;
    var chunks := ChunkDatagrams(v, Reach(v, windowSize), flags % 2 == 1);
    idx := ChunkDatagramsParsed(v, Reach(v, windowSize), flags);
    assert ([Encode(ManifestPacket(v))] + chunks)[1..] == chunks;
  }

  lemma ManifestParsed(v: View, count: nat)
    requires ValidView(v)
    ensures Parse(Encode(ManifestPacket(v)), count)
            == if |v.chunks| > 0 && v.chunkSize > 0 then Ok(ManifestPacket(v)) else Err(InvalidArg)
  {
    hide Parse, Encode, Size, WellTyped;
    var d := Encode(ManifestPacket(v));
    PacketsTyped(v, 0, false);
    ManifestFits(v);
    ParseEncode(ManifestPacket(v), [], count);
    assert d + [] == d;
  }

  // The number of bytes in a sequence of datagrams.
  function Bytes(ds: seq<seq<Byte>>): nat {
    if ds == [] then 0 else Bytes(ds[..|ds| - 1]) + |ds[|ds| - 1]|
  }

  lemma BytesJoin(ds: seq<seq<Byte>>, one: seq<seq<Byte>>)
    requires |one| <= 1
    ensures Bytes(ds + one) == Bytes(ds) + Bytes(one)
  {
    if one == [] {
      assert ds + one == ds;
    } else {
      assert (ds + one)[..|ds|] == ds && one[..0] == [];
    }
  }

  // ---- the sliding store

  datatype Store = Store(chunks: seq<Option<seq<Byte>>>, windowBase: nat)

  // rgtp_expose_append_chunk on the store; None is an error return
  function AppendStep(a: Aead, st: Store, plaintext: seq<Byte>, window: nat): Option<Store>
    requires st.windowBase <= |st.chunks|
  {
    var sealed := Encrypt(a, |st.chunks|, plaintext);
    if sealed.None? then None
    else
      var grown := st.chunks + [sealed];
      if window > 0 && |grown| > window
      then Some(Store(grown[st.windowBase := None], st.windowBase + 1))
      else Some(Store(grown, st.windowBase))
  }

  // Slot i is live exactly from the base on, and holds the i-th plaintext under nonce i.
  ghost predicate Holds(a: Aead, st: Store, plain: seq<seq<Byte>>) {
    && |st.chunks| == |plain| && st.windowBase <= |plain|
    && (forall i :: 0 <= i < |plain| ==> 0 < |plain[i]| <= MAX_PLAINTEXT)
    && (forall i :: 0 <= i < |plain| ==>
          st.chunks[i] == if i >= st.windowBase then Some(a.seal(Nonce(i), plain[i])) else None)
  }

  lemma AppendHolds(a: Aead, st: Store, plain: seq<seq<Byte>>, p: seq<Byte>, window: nat)
    requires Holds(a, st, plain) && AppendStep(a, st, p, window).Some?
    ensures Holds(a, AppendStep(a, st, p, window).value, plain + [p])
  {}

  // The store after appending every plaintext of ps with one window size.
  function AppendAll(a: Aead, st: Store, ps: seq<seq<Byte>>, window: nat): (r: Option<Store>)
    requires st.windowBase <= |st.chunks|
    ensures r.Some? ==> r.value.windowBase <= |r.value.chunks|
  {
    if ps == [] then Some(st)
    else
      var r := AppendAll(a, st, ps[..|ps| - 1], window);
      if r.None? then None else AppendStep(a, r.value, ps[|ps| - 1], window)
  }

  function LiveCount(chunks: seq<Option<seq<Byte>>>): nat {
    if chunks == [] then 0
    else LiveCount(chunks[..|chunks| - 1]) + if chunks[|chunks| - 1].Some? then 1 else 0
  }

  lemma {:induction false} LiveCountIs(chunks: seq<Option<seq<Byte>>>, base: nat)
    requires forall i :: 0 <= i < |chunks| ==> (chunks[i].Some? <==> i >= base)
    ensures LiveCount(chunks) == Max(0, |chunks| - base)
  {
    if chunks != [] { LiveCountIs(chunks[..|chunks| - 1], base); }
  }

  lemma {:induction false} AppendAllHolds(a: Aead, st: Store, plain: seq<seq<Byte>>, ps: seq<seq<Byte>>, window: nat)
    requires Holds(a, st, plain) && AppendAll(a, st, ps, window).Some?
    ensures Holds(a, AppendAll(a, st, ps, window).value, plain + ps)
  {
    HoldsSize(a, st, plain);
    hide Holds, AppendStep;
    if ps == [] {
      assert plain + ps == plain;
    } else {
      var k := |ps| - 1;
      AppendAllHolds(a, st, plain, ps[..k], window);
      AppendHolds(a, AppendAll(a, st, ps[..k], window).value, plain + ps[..k], ps[k], window);
      assert plain + ps == plain + ps[..k] + [ps[k]];
    }
  }

  // Each append moves the base by one exactly when the count exceeds the window.
  lemma {:induction false} AppendAllBase(a: Aead, st: Store, ps: seq<seq<Byte>>, window: nat)
    requires window > 0 && st.windowBase == 0 && AppendAll(a, st, ps, window).Some?
    ensures var st' := AppendAll(a, st, ps, window).value;
            && |st'.chunks| == |st.chunks| + |ps|
            && st'.windowBase == Max(0, Min(|ps|, |st.chunks| + |ps| - window))
  {
    if ps != [] {
      AppendAllBase(a, st, ps[..|ps| - 1], window);
    }
  }

  // After any run of successful appends with window W > 0 to a store of C0 chunks, every slot from the
  // base on holds its plaintext and max(C0, min(count, W)) slots are live.
  lemma SlidingStore(a: Aead, st: Store, plain: seq<seq<Byte>>, ps: seq<seq<Byte>>, window: nat)
    requires window > 0 && st.windowBase == 0 && Holds(a, st, plain)
    requires AppendAll(a, st, ps, window).Some?
    ensures var st' := AppendAll(a, st, ps, window).value;
            && Holds(a, st', plain + ps)
            && LiveCount(st'.chunks) == Max(|plain|, Min(|plain| + |ps|, window))
  {
    hide AppendAll, Holds, LiveCount;
    AppendAllHolds(a, st, plain, ps, window);
    AppendAllBase(a, st, ps, window);
    HoldsSize(a, st, plain);
    HoldsLive(a, AppendAll(a, st, ps, window).value, plain + ps);
  }

  lemma HoldsSize(a: Aead, st: Store, plain: seq<seq<Byte>>)
    requires Holds(a, st, plain)
    ensures |st.chunks| == |plain| && st.windowBase <= |st.chunks|
  {}

  lemma HoldsLive(a: Aead, st: Store, plain: seq<seq<Byte>>)
    requires Holds(a, st, plain)
    ensures LiveCount(st.chunks) == |plain| - st.windowBase
  {
    LiveCountIs(st.chunks, st.windowBase);
  }

  // A live slot decrypts to its own plaintext, and no two live slots share a nonce.
  lemma LiveSlots(a: Aead, st: Store, plain: seq<seq<Byte>>, i: nat)
    requires Correct(a) && Holds(a, st, plain) && |plain| <= U32_END
    requires st.windowBase <= i < |plain|
    ensures st.chunks[i].Some? && Decrypt(a, i, st.chunks[i].value) == Some(plain[i])
    ensures forall j :: 0 <= j < |plain| && j != i ==> Nonce(j) != Nonce(i)
  {
    DecryptEncrypt(a, i, plain[i]);
    forall j | 0 <= j < |plain| && j != i ensures Nonce(j) != Nonce(i) {
      if Nonce(j) == Nonce(i) { NonceInjective(j, i); }
    }
  }

  // The window bounds the live chunks exactly when the exposure did not start above it.
  lemma WindowBoundExactly(a: Aead, st: Store, plain: seq<seq<Byte>>, ps: seq<seq<Byte>>, window: nat)
    requires window > 0 && st.windowBase == 0 && Holds(a, st, plain)
    requires AppendAll(a, st, ps, window).Some?
    ensures LiveCount(AppendAll(a, st, ps, window).value.chunks) <= window <==> |plain| <= window
  {
    hide AppendAll, LiveCount, Holds;
    SlidingStore(a, st, plain, ps, window);
  }

  // Appending succeeds exactly for plaintexts the cipher takes, and with a window of 0 evicts nothing.
  lemma {:induction false} AppendAllSucceeds(a: Aead, st: Store, ps: seq<seq<Byte>>, window: nat)
    requires st.windowBase <= |st.chunks|
    ensures AppendAll(a, st, ps, window).Some? <==> forall i :: 0 <= i < |ps| ==> 0 < |ps[i]| <= 65507
    ensures window == 0 && AppendAll(a, st, ps, window).Some? ==>
              var st' := AppendAll(a, st, ps, window).value;
              st'.windowBase == st.windowBase && st.chunks <= st'.chunks && |st'.chunks| == |st.chunks| + |ps|
  {
    if ps != [] {
      var k := |ps| - 1;
      AppendAllSucceeds(a, st, ps[..k], window);
      assert (forall i :: 0 <= i < |ps| ==> 0 < |ps[i]| <= 65507) <==>
             (forall i :: 0 <= i < k ==> 0 < |ps[..k][i]| <= 65507) && 0 < |ps[k]| <= 65507 by {
        assert forall i :: 0 <= i < k ==> ps[..k][i] == ps[i];
      }
    }
  }

  // An append with window 1 to an exposure of three chunks leaves three live.
  lemma WindowBoundFails(a: Aead, st: Store, plain: seq<seq<Byte>>, p: seq<Byte>)
    requires st.windowBase == 0 && Holds(a, st, plain) && |plain| == 3 && 0 < |p| <= MAX_PLAINTEXT
    ensures AppendAll(a, st, [p], 1).Some? && LiveCount(AppendAll(a, st, [p], 1).value.chunks) == 3
  {
    assert [p][..0] == [] && AppendAll(a, st, [], 1) == Some(st);
    hide LiveCount;
    SlidingStore(a, st, plain, [p], 1);
  }

  // ---- the class

  datatype ExposeStatus = Exposed | BadArgument | EncryptFailed | NoMem

  class ExposeSurface {
    const exposureId: seq<Byte>
    var totalSize: nat
    const chunkSize: nat
    const fecN: Byte
    const fecK: Byte
    var chunks: seq<Option<seq<Byte>>>
    var windowBase: nat
    const root: Digest
    const proofs: Option<seq<seq<Digest>>>
    const proofDepth: nat
    const limiter: RateLimit.Limiter
    var bytesSent: nat
    var chunksSent: nat
    var malformed: nat

    ghost function TheView(): View
      reads this
    {
      View(exposureId, totalSize, chunkSize, root, fecN, fecK, chunks, proofs, proofDepth)
    }

    ghost function TheStore(): Store
      reads this
    {
      Store(chunks, windowBase)
    }

    ghost predicate Ready()
      reads this, limiter, limiter.entries
    {
      ValidView(TheView()) && limiter.Valid() && windowBase <= |chunks|
    }

    constructor (exposureId: seq<Byte>, totalSize: nat, chunkSize: nat, fecN: Byte, fecK: Byte,
                 chunks: seq<Option<seq<Byte>>>, root: Digest, proofs: Option<seq<seq<Digest>>>, proofDepth: nat)
      requires ValidView(View(exposureId, totalSize, chunkSize, root, fecN, fecK, chunks, proofs, proofDepth))
      ensures Ready() && fresh(limiter) && fresh(limiter.entries)
      ensures TheView() == View(exposureId, totalSize, chunkSize, root, fecN, fecK, chunks, proofs, proofDepth)
      ensures windowBase == 0 && bytesSent == 0 && chunksSent == 0 && malformed == 0
    {
      this.exposureId, this.totalSize, this.chunkSize := exposureId, totalSize, chunkSize;
      this.fecN, this.fecK, this.chunks, this.windowBase := fecN, fecK, chunks, 0;
      this.root, this.proofs, this.proofDepth := root, proofs, proofDepth;
      limiter := new RateLimit.Limiter();
      bytesSent, chunksSent, malformed := 0, 0, 0;
    }

    // rgtp_expose_append_chunk, on a surface without precomputed proofs
    method AppendChunk(a: Aead, plaintext: seq<Byte>, window: nat) returns (ok: bool)
      requires Ready() && Correct(a) && proofs.None?
      requires |chunks| + 1 < U32_END && totalSize + |plaintext| < U64_END
      modifies this`chunks, this`totalSize, this`windowBase
      ensures Ready() && TheView() == old(TheView()).(totalSize := totalSize, chunks := chunks)
      ensures var r := AppendStep(a, old(TheStore()), plaintext, window);
              && ok == r.Some?
              && TheStore() == (if ok then r.value else old(TheStore()))
              && totalSize == old(totalSize) + if ok then |plaintext| else 0
    {
      var index := |chunks|;
      var sealed := Encrypt(a, index, plaintext);
      if sealed.None? {
        return false;
      }
      DecryptEncrypt(a, index, plaintext);
      chunks := chunks + [sealed];
      totalSize := totalSize + |plaintext|;
      if window > 0 && |chunks| > window {
        chunks := chunks[windowBase := None];
        windowBase := windowBase + 1;
      }
      return true;
    }

    // The serving loop, lines 316-352.
    method ServeChunks(n: nat, wantProof: bool, sendBuf: array<Byte>) returns (sent: seq<seq<Byte>>)
      requires Ready() && n <= |chunks| && sendBuf.Length == SEND_BUFFER
      modifies this`bytesSent, this`chunksSent, sendBuf
      ensures Ready() && TheView() == old(TheView()) && sent == ChunkDatagrams(TheView(), n, wantProof)
      ensures chunksSent == old(chunksSent) + |sent| && bytesSent == old(bytesSent) + Bytes(sent)
    {
      ghost var v := TheView();
      assert Bytes([]) == 0 && ChunkDatagrams(v, 0, wantProof) == [];
      hide Bytes, ChunkDatagram, ChunkDatagrams, ValidView;
      sent := [];
      for i := 0 to n
        invariant Ready() && TheView() == v && sent == ChunkDatagrams(v, i, wantProof)
        invariant chunksSent == old(chunksSent) + |sent| && bytesSent == old(bytesSent) + Bytes(sent)
      {
        var one := ServeChunk(i, wantProof, sendBuf);
        BytesJoin(sent, one);
        DatagramsNext(v, i, wantProof);
        sent := sent + one;
      }
    }

    // Lines 322-351: at most one datagram.
    method ServeChunk(i: nat, wantProof: bool, sendBuf: array<Byte>) returns (sent: seq<seq<Byte>>)
      requires Ready() && i < |chunks| && sendBuf.Length == SEND_BUFFER
      modifies this`bytesSent, this`chunksSent, sendBuf
      ensures Ready() && TheView() == old(TheView()) && sent == ChunkDatagram(TheView(), i, wantProof)
      ensures |sent| <= 1 && chunksSent == old(chunksSent) + |sent| && bytesSent == old(bytesSent) + Bytes(sent)
    {
      hide Encode, Size, WellTyped;
      sent := [];
      if chunks[i].Some? {
        var p := if wantProof && proofs.Some? && i < |proofs.value|
                 then ChunkWithProof(exposureId, i, proofDepth, Flatten(proofs.value[i]), chunks[i].value)
                 else ChunkData(exposureId, i, chunks[i].value);
        assert p == ChunkPacket(TheView(), i, wantProof);
        PacketsTyped(TheView(), i, wantProof);
        var ok, len := Serializer.Serialize(p, sendBuf);
        if ok {
          sent := [sendBuf[..len]];
          bytesSent := bytesSent + len;
          chunksSent := chunksSent + 1;
        }
      }
    }

    // rgtp_poll for one received datagram; the result is what it sends back
    method Poll(datagram: seq<Byte>, sourceIp: nat, now: nat) returns (sent: seq<seq<Byte>>)
      requires Ready() && 0 < now < RateLimit.CLOCK_END
      modifies this`bytesSent, this`chunksSent, this`malformed, limiter, limiter.entries
      ensures Ready() && TheView() == old(TheView()) && TheStore() == old(TheStore())
      ensures sent == [] || (IsRequest(datagram, TheView()) &&
                sent == Answer(TheView(), Parse(datagram, |chunks|).packet.windowSize,
                               Parse(datagram, |chunks|).packet.pullFlags))
      ensures IsRequest(datagram, TheView()) ==>
        exists ok :: RateLimit.CheckStep(old(limiter.buckets), limiter.buckets,
                                         RateLimit.Key(exposureId, sourceIp), now, ok)
                     && (sent != [] <==> ok)
      ensures !IsRequest(datagram, TheView()) ==> limiter.buckets == old(limiter.buckets)
      ensures malformed == old(malformed) + if datagram != [] && Parse(datagram, |chunks|).Err? then 1 else 0
      ensures chunksSent == old(chunksSent) + if sent == [] then 0 else |sent[1..]|
      ensures bytesSent == old(bytesSent) + if sent == [] then 0 else Bytes(sent[1..])
    {
      hide Parse, Encode, WellTyped, ChunkDatagrams, RateLimit.CheckStep, Size;
      if datagram == [] {
        return [];
      }
      var parsed := Parse(datagram, |chunks|);
      if parsed.Err? {
        malformed := malformed + 1;
        return [];
      }
      var request := parsed.packet;
      if !request.PullRequest? || request.exposureId != exposureId {
        return [];
      }
      var ok := limiter.Check(RateLimit.Key(exposureId, sourceIp), now);
      if !ok {
        return [];
      }
      var sendBuf := new Byte[SEND_BUFFER];
      var m := Manifest(exposureId, totalSize, |chunks|, chunkSize, root, fecN, fecK, 0);
      PacketsTyped(TheView(), 0, false);
      ManifestFits(TheView());
      var serialized, len := Serializer.Serialize(m, sendBuf);
      sent := [sendBuf[..len]];
      var w := if request.windowSize == 0 then 1 else request.windowSize;
      var n := if w > |chunks| then |chunks| else w;
      var more := ServeChunks(n, request.pullFlags % 2 == 1, sendBuf);
      assert (sent + more)[1..] == more;
      sent := sent + more;
    }
  }

  lemma ManifestFits(v: View)
    ensures Size(ManifestPacket(v)) == 72
  {}

  // A pull request for this exposure.
  predicate IsRequest(datagram: seq<Byte>, v: View) {
    && datagram != []
    && var r := Parse(datagram, |v.chunks|);
       r.Ok? && r.packet.PullRequest? && r.packet.exposureId == v.exposureId
  }

  lemma RequestExactly(datagram: seq<Byte>, v: View)
    ensures IsRequest(datagram, v) <==>
            && Parse(datagram, |v.chunks|).Ok? && Parse(datagram, |v.chunks|).packet.PullRequest?
            && Parse(datagram, |v.chunks|).packet.exposureId == v.exposureId
  {
    if Parse(datagram, |v.chunks|).Ok? { ParseNotEmpty(datagram, |v.chunks|); }
    hide Parse;
  }

  // ---- rgtp_expose

  // v serves exactly the given plaintexts.
  ghost predicate ServesAll(a: Aead, h: Merkle.Hasher<Digest>, v: View, plain: seq<seq<Byte>>) {
    && Holds(a, Store(v.chunks, 0), plain)
    && |plain| <= Pow2(v.proofDepth)
    && v.root == Merkle.Node(h, plain, v.proofDepth, 1)
    && (v.proofs.Some? ==> Merkle.Proves(h, plain, v.proofDepth, v.proofs.value))
  }

  // Lines 153-171: slice and seal every chunk.
  method SealChunks(a: Aead, data: seq<Byte>, size: nat, count: nat) returns (ok: bool, chunks: seq<Option<seq<Byte>>>)
    requires size > 0 && data != [] && count == |Split(data, size)|
    ensures ok <==> forall i :: 0 <= i < count ==> |Split(data, size)[i]| <= MAX_PLAINTEXT
    ensures ok ==> Holds(a, Store(chunks, 0), Split(data, size))
  {
    hide Split;
    ghost var plain := Split(data, size);
    chunks := [];
    for i := 0 to count
      invariant |chunks| == i
      invariant forall j :: 0 <= j < i ==> 0 < |plain[j]| <= MAX_PLAINTEXT
      invariant forall j :: 0 <= j < i ==> chunks[j] == Some(a.seal(Nonce(j), plain[j]))
    {
      SplitAt(data, size, i);
      var start := i * size;
      var end := if start + size > |data| then |data| else start + size;
      var sealed := Encrypt(a, i, data[start..end]);
      if sealed.None? {
        assert |plain[i]| > MAX_PLAINTEXT;
        return false, [];
      }
      chunks := chunks + [sealed];
    }
    return true, chunks;
  }

  // rgtp_expose, with the random exposure id and the key given; size zero selects the default
  method Expose(a: Aead, h: Merkle.Hasher<Digest>, exposureId: seq<Byte>, data: seq<Byte>, configSize: nat,
                withProofs: bool, fecEnabled: bool, fecN: Byte, fecK: Byte)
    returns (status: ExposeStatus, s: ExposeSurface?)
    requires Correct(a) && |exposureId| == 16 && |data| < U64_END && configSize < U32_END
    requires data != [] ==> |Split(data, EffectiveSize(configSize))| <= Merkle.MAX_CHUNKS
    ensures data == [] <==> status.BadArgument?
    ensures status.Exposed? <==> s != null
    ensures status.NoMem? <==>
      data != [] && withProofs && Fits(Split(data, EffectiveSize(configSize)))
      && |Split(data, EffectiveSize(configSize))| == 1
    ensures status.EncryptFailed? <==> data != [] && !Fits(Split(data, EffectiveSize(configSize)))
    ensures s != null ==>
      && fresh(s) && fresh(s.limiter) && fresh(s.limiter.entries) && s.Ready()
      && s.exposureId == exposureId && s.totalSize == |data| && s.windowBase == 0
      && s.chunkSize == (if configSize == 0 then 1200 else configSize) && s.proofs.Some? == withProofs
      && (if fecEnabled && 0 < fecK < fecN then s.fecN == fecN && s.fecK == fecK else s.fecN == s.fecK == 0)
      && s.bytesSent == s.chunksSent == s.malformed == 0
      && ServesAll(a, h, s.TheView(), Split(data, EffectiveSize(configSize)))
  {
    hide Split, Holds, Merkle.Node, Merkle.Proves;
    if data == [] {
      return BadArgument, null;
    }
    var size := if configSize == 0 then DEFAULT_CHUNK_SIZE else configSize;
    var count := (|data| + size - 1) / size;
    SplitCount(data, size);
    ghost var plain := Split(data, size);
    var ok, chunks := SealChunks(a, data, size, count);
    if !ok {
      return EncryptFailed, null;
    }
    HoldsSize(a, Store(chunks, 0), plain);
    var pt := Slices(data, size, count);
    var built, root, proofs, depth := Merkle.Build(h, pt, withProofs);
    if !built.Ok? {
      return NoMem, null;
    }
    var n: Byte, k: Byte := 0, 0;
    if fecEnabled && fecK > 0 && fecN > fecK {
      n, k := fecN, fecK;
    }
    BuiltView(a, h, View(exposureId, |data|, size, root, n, k, chunks,
                         if withProofs then Some(proofs) else None, depth), plain);
    s := new ExposeSurface(exposureId, |data|, size, n, k, chunks, root,
                           if withProofs then Some(proofs) else None, depth);
    return Exposed, s;
  }

  function EffectiveSize(configSize: nat): (size: nat)
    ensures size > 0
  {
    if configSize == 0 then DEFAULT_CHUNK_SIZE else configSize
  }

  ghost predicate Fits(plain: seq<seq<Byte>>) {
    forall i :: 0 <= i < |plain| ==> |plain[i]| <= MAX_PLAINTEXT
  }

  // Lines 185-192: the plaintext slices handed to the Merkle tree.
  method Slices(data: seq<Byte>, size: nat, count: nat) returns (pt: seq<seq<Byte>>)
    requires size > 0 && data != [] && count == |Split(data, size)|
    ensures pt == Split(data, size)
  {
    hide Split;
    pt := [];
    for i := 0 to count
      invariant pt == Split(data, size)[..i]
    {
      SplitAt(data, size, i);
      var start := i * size;
      var end := if start + size > |data| then |data| else start + size;
      pt := pt + [data[start..end]];
    }
  }

  // The view assembled from a successful build meets the limits of the wire format.
  lemma BuiltView(a: Aead, h: Merkle.Hasher<Digest>, v: View, plain: seq<seq<Byte>>)
    requires Correct(a) && Holds(a, Store(v.chunks, 0), plain)
    requires |v.exposureId| == 16 && v.totalSize < U64_END && v.chunkSize < U32_END
    requires 0 < |plain| <= Merkle.MAX_CHUNKS && (v.proofDepth > 0 ==> Pow2(v.proofDepth - 1) < |plain|)
    requires |plain| <= Pow2(v.proofDepth) && v.root == Merkle.Node(h, plain, v.proofDepth, 1)
    requires v.proofs.Some? ==> Merkle.Proves(h, plain, v.proofDepth, v.proofs.value)
    ensures ValidView(v) && ServesAll(a, h, v, plain)
  {
    hide Merkle.Node, Merkle.Path;
    PowLarge();
    if v.proofDepth > 26 { PowMonotone(26, v.proofDepth - 1); }
    forall i | 0 <= i < |plain| ensures |v.chunks[i].value| < U16_END {
      DecryptEncrypt(a, i, plain[i]);
    }
  }
}

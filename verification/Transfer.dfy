// One exposer, one puller and a network that drops, duplicates, reorders and injects datagrams.
// Every step is a step of the code: Polled sends what ExposeSurface.Poll answers, Appended is
// ExposeSurface.AppendChunk, Arrived is PullSurface.PullNext. Dropping a datagram is never letting it
// arrive.
module Transfer {
  import opened Bits
  import opened Wrappers
  import opened Wire
  import opened Crypto
  import opened Puller
  import opened Exposer
  import Merkle
  import Replay

  // The exposer with every plaintext it ever held, what is on the network, and the puller with what it
  // has delivered.
  datatype System = System(
    view: View, base: nat, plain: seq<seq<Byte>>, sent: set<seq<Byte>>, puller: Surface, log: seq<Delivery>)

  datatype Event =
    | Polled(windowSize: nat, flags: nat)
    | Appended(chunk: seq<Byte>, window: nat)
    | Arrived(datagram: seq<Byte>, bufSize: nat)

  // Injected bytes never authenticate, whatever chunk count they are parsed against.
  ghost predicate NonAuthenticating(a: Aead, d: seq<Byte>) {
    forall count: nat ::
      var r := Parse(d, count);
      r.Ok? && (r.packet.ChunkData? || r.packet.ChunkWithProof?) ==>
        Decrypt(a, r.packet.chunkIndex, r.packet.payload).None?
  }

  // Only what was sent or cannot authenticate arrives; an append stays within the limits of AppendChunk.
  ghost predicate Allowed(a: Aead, s: System, e: Event) {
    match e
    case Polled(_, _) => true
    case Appended(p, _) =>
      s.view.proofs.None? && |s.view.chunks| + 1 < U32_END && s.view.totalSize + |p| < U64_END
    case Arrived(d, _) => d in s.sent || NonAuthenticating(a, d)
  }

  ghost predicate WellFormed(s: System) {
    Puller.Valid(s.puller) && s.view.proofDepth < 256 && s.base <= |s.view.chunks|
  }

  ghost function Apply(a: Aead, h: Merkle.Hasher<Digest>, s: System, e: Event): (s': System)
    requires WellFormed(s)
    ensures WellFormed(s')
  {
    match e
    case Polled(w, f) => s.(sent := s.sent + set d | d in Answer(s.view, w, f))
    case Appended(p, w) =>
      var r := AppendStep(a, Store(s.view.chunks, s.base), p, w);
      if r.None? then s
      else s.(view := s.view.(chunks := r.value.chunks, totalSize := s.view.totalSize + |p|),
              base := r.value.windowBase, plain := s.plain + [p])
    case Arrived(d, size) =>
      var r := Receive(a, h, s.puller, d, size);
      s.(puller := r.0, log := s.log + Logged(r.1))
  }

  ghost function Execute(a: Aead, h: Merkle.Hasher<Digest>, s: System, es: seq<Event>): (s': System)
    requires WellFormed(s)
    ensures WellFormed(s')
  {
    if es == [] then s else Apply(a, h, Execute(a, h, s, es[..|es| - 1]), es[|es| - 1])
  }

  ghost predicate AllowedRun(a: Aead, h: Merkle.Hasher<Digest>, s: System, es: seq<Event>)
    requires WellFormed(s)
  {
    if es == [] then true
    else
      var k := |es| - 1;
      AllowedRun(a, h, s, es[..k]) && Allowed(a, Execute(a, h, s, es[..k]), es[k])
  }

  // ---- the exposer's datagrams

  ghost predicate IsChunkDatagram(v: View, d: seq<Byte>, i: nat, wantProof: bool) {
    && v.proofDepth < 256 && i < |v.chunks| && v.chunks[i].Some?
    && Size(ChunkPacket(v, i, wantProof)) < U16_END
    && d == Encode(ChunkPacket(v, i, wantProof))
  }

  // A manifest, or a packet that carries a plaintext sealed under its own index.
  ghost predicate Carries(a: Aead, plain: seq<seq<Byte>>, p: Packet) {
    p.Manifest? ||
    ((p.ChunkData? || p.ChunkWithProof?) && p.chunkIndex < |plain|
     && p.payload == a.seal(Nonce(p.chunkIndex), plain[p.chunkIndex]))
  }

  ghost predicate Encodes(p: Packet, d: seq<Byte>) {
    WellTyped(p) && Size(p) < U16_END && d == Encode(p)
  }

  // What an exposer of the given plaintexts may have sent, now or before later appends and evictions.
  ghost predicate Genuine(a: Aead, plain: seq<seq<Byte>>, d: seq<Byte>) {
    exists p: Packet :: Encodes(p, d) && Carries(a, plain, p)
  }

  lemma GenuineGrows(a: Aead, plain: seq<seq<Byte>>, p: seq<Byte>, d: seq<Byte>)
    requires Genuine(a, plain, d)
    ensures Genuine(a, plain + [p], d)
  {
    hide Encodes;
    var q: Packet :| Encodes(q, d) && Carries(a, plain, q);
    assert Carries(a, plain + [p], q);
  }

  lemma {:induction false} ChunkDatagramsGenuine(a: Aead, v: View, base: nat, plain: seq<seq<Byte>>,
                                                 n: nat, wantProof: bool)
    requires ValidView(v) && Holds(a, Store(v.chunks, base), plain) && n <= |v.chunks|
    ensures forall d :: d in ChunkDatagrams(v, n, wantProof) ==> Genuine(a, plain, d)
  {
    hide Encode, Size, WellTyped;
    if n > 0 {
      ChunkDatagramsGenuine(a, v, base, plain, n - 1, wantProof);
      PacketsTyped(v, n - 1, wantProof);
      forall d | d in ChunkDatagrams(v, n, wantProof) ensures Genuine(a, plain, d) {
        if d !in ChunkDatagrams(v, n - 1, wantProof) {
          var p := ChunkPacket(v, n - 1, wantProof);
          assert Encodes(p, d) && Carries(a, plain, p);
        }
      }
    }
  }

  lemma AnswerGenuine(a: Aead, v: View, base: nat, plain: seq<seq<Byte>>, windowSize: nat, flags: nat)
    requires ValidView(v) && Holds(a, Store(v.chunks, base), plain)
    ensures forall d :: d in Answer(v, windowSize, flags) ==> Genuine(a, plain, d)
  {
    hide Encode, ChunkDatagrams, WellTyped, Size, Holds;
    var w := if windowSize == 0 then 1 else windowSize;
    var n := if w > |v.chunks| then |v.chunks| else w;
    ChunkDatagramsGenuine(a, v, base, plain, n, flags % 2 == 1);
    PacketsTyped(v, 0, false);
    ManifestFits(v);
    var m := ManifestPacket(v);
    assert Encodes(m, Encode(m)) && Carries(a, plain, m);
  }

  // A chunk datagram parses back to the packet it was made from.
  lemma ParseChunkDatagram(v: View, d: seq<Byte>, i: nat, wantProof: bool, count: nat)
    requires ValidView(v) && IsChunkDatagram(v, d, i, wantProof)
    ensures Parse(d, count) == if i < count then Ok(ChunkPacket(v, i, wantProof)) else Err(ChunkIndexOob)
    ensures WellTyped(ChunkPacket(v, i, wantProof))
  {
    hide Parse, Encode, Size, WellTyped, Flatten;
    var p := ChunkPacket(v, i, wantProof);
    PacketsTyped(v, i, wantProof);
    ParseEncode(p, [], count);
    assert d + [] == d;
  }

  ghost predicate Sealable(plain: seq<seq<Byte>>) {
    forall i :: 0 <= i < |plain| ==> 0 < |plain[i]| <= MAX_PLAINTEXT
  }

  // Whatever a genuine datagram delivers is the plaintext of that index.
  lemma GenuineDelivers(a: Aead, h: Merkle.Hasher<Digest>, plain: seq<seq<Byte>>, s: Surface,
                        d: seq<Byte>, bufSize: nat)
    requires Correct(a) && Sealable(plain) && Puller.Valid(s) && Genuine(a, plain, d)
    ensures var o := Receive(a, h, s, d, bufSize).1;
            o.Delivered? ==> o.index < |plain| && o.plaintext == plain[o.index]
  {
    hide Parse, Encode, Size, WellTyped, ProofHolds, Replay.Check;
    var p: Packet :| Encodes(p, d) && Carries(a, plain, p);
    ParseEncode(p, [], s.chunkCount);
    assert d + [] == d;
    if !p.Manifest? {
      DecryptEncrypt(a, p.chunkIndex, plain[p.chunkIndex]);
    }
  }

  lemma InjectedNeverDelivers(a: Aead, h: Merkle.Hasher<Digest>, s: Surface, d: seq<Byte>, bufSize: nat)
    requires Puller.Valid(s) && NonAuthenticating(a, d)
    ensures Receive(a, h, s, d, bufSize).1.Refused?
  {
    hide Parse, ProofHolds, Replay.Check, Decrypt;
    if d != [] && Parse(d, s.chunkCount).Ok? {
      ParseTyped(d, s.chunkCount);
    }
  }

  // ---- safety

  ghost predicate Sound(log: seq<Delivery>, plain: seq<seq<Byte>>) {
    forall j :: 0 <= j < |log| ==> log[j].index < |plain| && log[j].plaintext == plain[log[j].index]
  }

  ghost predicate Invariant(a: Aead, s: System) {
    && Puller.Valid(s.puller) && ValidView(s.view)
    && Holds(a, Store(s.view.chunks, s.base), s.plain)
    && (forall d :: d in s.sent ==> Genuine(a, s.plain, d))
    && Sound(s.log, s.plain)
    && Books(s.puller, s.log)
  }

  lemma InvariantShape(a: Aead, s: System)
    requires Invariant(a, s)
    ensures WellFormed(s) && Sealable(s.plain)
  {}

  lemma AppendKeeps(a: Aead, h: Merkle.Hasher<Digest>, s: System, p: seq<Byte>, window: nat)
    requires Correct(a) && Invariant(a, s) && Allowed(a, s, Appended(p, window))
    ensures WellFormed(s) && Invariant(a, Apply(a, h, s, Appended(p, window)))
  {
    InvariantShape(a, s);
    var st := Store(s.view.chunks, s.base);
    if AppendStep(a, st, p, window).Some? {
      AppendHolds(a, st, s.plain, p, window);
      DecryptEncrypt(a, |st.chunks|, p);
      forall d | d in s.sent ensures Genuine(a, s.plain + [p], d) { GenuineGrows(a, s.plain, p, d); }
      hide Holds, Genuine, Books;
      assert Sound(s.log, s.plain + [p]);
    }
  }

  lemma ArrivalSound(a: Aead, h: Merkle.Hasher<Digest>, s: System, d: seq<Byte>, size: nat)
    requires Correct(a) && Invariant(a, s) && Allowed(a, s, Arrived(d, size))
    ensures Sound(s.log + Logged(Receive(a, h, s.puller, d, size).1), s.plain)
  {
    InvariantShape(a, s);
    hide Receive, Genuine, Holds, NonAuthenticating, Books, ValidView, Sealable;
    if d in s.sent {
      GenuineDelivers(a, h, s.plain, s.puller, d, size);
    } else {
      InjectedNeverDelivers(a, h, s.puller, d, size);
    }
  }

  lemma ArrivalKeeps(a: Aead, h: Merkle.Hasher<Digest>, s: System, d: seq<Byte>, size: nat)
    requires Correct(a) && Invariant(a, s) && Allowed(a, s, Arrived(d, size))
    ensures WellFormed(s) && Invariant(a, Apply(a, h, s, Arrived(d, size)))
    ensures Apply(a, h, s, Arrived(d, size)).puller.chunkCount == s.puller.chunkCount
  {
    InvariantShape(a, s);
    ArrivalSound(a, h, s, d, size);
    hide Receive, Genuine, Holds, NonAuthenticating, Books, ValidView, Sealable, Logged, Sound, Allowed, Correct;
    ReceiveKeepsBooks(a, h, s.puller, s.log, d, size);
  }

  lemma ApplyKeeps(a: Aead, h: Merkle.Hasher<Digest>, s: System, e: Event)
    requires Correct(a) && Invariant(a, s) && Allowed(a, s, e)
    ensures WellFormed(s) && Invariant(a, Apply(a, h, s, e))
    ensures Apply(a, h, s, e).puller.chunkCount == s.puller.chunkCount && s.plain <= Apply(a, h, s, e).plain
  {
    InvariantShape(a, s);
    match e
    case Polled(w, f) =>
      hide Genuine, Answer, Holds, Books, ValidView;
      AnswerGenuine(a, s.view, s.base, s.plain, w, f);
    case Appended(p, w) =>
      hide Invariant;
      AppendKeeps(a, h, s, p, w);
    case Arrived(d, size) =>
      hide Invariant, Receive;
      ArrivalKeeps(a, h, s, d, size);
  }

  lemma {:induction false} RunKeeps(a: Aead, h: Merkle.Hasher<Digest>, s: System, es: seq<Event>)
    requires Correct(a) && WellFormed(s) && Invariant(a, s) && AllowedRun(a, h, s, es)
    ensures Invariant(a, Execute(a, h, s, es))
    ensures Execute(a, h, s, es).puller.chunkCount == s.puller.chunkCount && s.plain <= Execute(a, h, s, es).plain
  {
    hide Invariant, Apply, Allowed;
    if es != [] {
      var k := |es| - 1;
      RunKeeps(a, h, s, es[..k]);
      ApplyKeeps(a, h, Execute(a, h, s, es[..k]), es[k]);
    }
  }

  // A system whose exposer holds the plaintexts and whose puller has just started.
  ghost function Begin(v: View, base: nat, plain: seq<seq<Byte>>, puller: Surface): System {
    System(v, base, plain, {}, puller, [])
  }

  lemma BeginInvariant(a: Aead, v: View, base: nat, plain: seq<seq<Byte>>, exposureId: seq<Byte>, manifest: seq<Byte>)
    requires ValidView(v) && Holds(a, Store(v.chunks, base), plain) && Start(exposureId, manifest).Some?
    ensures var s := Begin(v, base, plain, Start(exposureId, manifest).value); WellFormed(s) && Invariant(a, s)
  {
    hide Start, Books;
    StartBooks(exposureId, manifest);
  }

  // In every run, from any manifest the puller started with and whatever is appended meanwhile, every
  // plaintext delivered for index i is chunk i of the exposure, and the receive bookkeeping is exact.
  lemma TransferSafety(a: Aead, h: Merkle.Hasher<Digest>, v: View, plain: seq<seq<Byte>>, base: nat,
                       exposureId: seq<Byte>, manifest: seq<Byte>, es: seq<Event>)
    requires Correct(a) && ValidView(v) && Holds(a, Store(v.chunks, base), plain)
    requires Start(exposureId, manifest).Some? && base <= |v.chunks|
    requires AllowedRun(a, h, Begin(v, base, plain, Start(exposureId, manifest).value), es)
    ensures var s := Execute(a, h, Begin(v, base, plain, Start(exposureId, manifest).value), es);
            && Sound(s.log, s.plain) && plain <= s.plain && Sealable(s.plain) && Books(s.puller, s.log)
            && s.puller.chunkCount == Start(exposureId, manifest).value.chunkCount
  {
    hide Start, Holds, Execute, AllowedRun, Genuine, Books, ValidView;
    var s := Begin(v, base, plain, Start(exposureId, manifest).value);
    BeginInvariant(a, v, base, plain, exposureId, manifest);
    RunKeeps(a, h, s, es);
    InvariantShape(a, Execute(a, h, s, es));
  }

  // ---- completion

  // The bytes first delivered for index i.
  function FirstOf(log: seq<Delivery>, i: nat): seq<Byte> {
    if log == [] then [] else if log[0].index == i then log[0].plaintext else FirstOf(log[1..], i)
  }

  function Assemble(log: seq<Delivery>, n: nat): seq<Byte> {
    if n == 0 then [] else Assemble(log, n - 1) + FirstOf(log, n - 1)
  }

  lemma {:induction false} FirstOfSound(log: seq<Delivery>, plain: seq<seq<Byte>>, i: nat)
    requires Sound(log, plain) && Has(log, i)
    ensures i < |plain| && FirstOf(log, i) == plain[i]
  {
    if log[0].index != i {
      var j :| 0 <= j < |log| && log[j].index == i;
      assert log[1..][j - 1] == log[j];
      assert Sound(log[1..], plain);
      FirstOfSound(log[1..], plain, i);
    }
  }

  lemma {:induction false} ConcatLast(chunks: seq<seq<Byte>>, n: nat)
    requires 0 < n <= |chunks|
    ensures Concat(chunks[..n]) == Concat(chunks[..n - 1]) + chunks[n - 1]
  {
    if n == 1 {
      assert chunks[..1] == [chunks[0]] && chunks[..1][1..] == [];
      assert Concat(chunks[..1]) == chunks[0] + Concat([]);
    } else {
      ConcatLast(chunks[1..], n - 1);
      assert chunks[..n][1..] == chunks[1..][..n - 1];
      assert chunks[..n - 1][1..] == chunks[1..][..n - 2];
    }
  }

  lemma {:induction false} AssembleIs(log: seq<Delivery>, plain: seq<seq<Byte>>, n: nat)
    requires Sound(log, plain) && forall i :: 0 <= i < n ==> Has(log, i)
    ensures n <= |plain| && Assemble(log, n) == Concat(plain[..n])
  {
    hide Has, Sound;
    if n == 0 {
      assert plain[..0] == [];
    } else {
      AssembleIs(log, plain, n - 1);
      FirstOfSound(log, plain, n - 1);
      ConcatLast(plain, n);
    }
  }

  // Once progress is 1, the chunks assembled by index are the first chunkCount chunks of the exposure,
  // and exactly the data it began with when the manifest the puller started with named its chunk count.
  lemma Completion(s: System, data: seq<Byte>, size: nat)
    requires Puller.Valid(s.puller) && Sound(s.log, s.plain) && Books(s.puller, s.log) && Sealable(s.plain)
    requires size > 0 && data != [] && Split(data, size) <= s.plain
    requires s.puller.chunksReceived == s.puller.chunkCount
    ensures s.puller.chunkCount <= |s.plain|
    ensures Assemble(s.log, s.puller.chunkCount) == Concat(s.plain[..s.puller.chunkCount])
    ensures Assemble(s.log, s.puller.chunkCount) == data <==> s.puller.chunkCount == |Split(data, size)|
  {
    hide Split, Has, Sound, Concat, Assemble;
    var n, k := s.puller.chunkCount, |Split(data, size)|;
    CountBound(s.puller.received);
    AssembleIs(s.log, s.plain, n);
    ConcatSplit(data, size);
    assert s.plain[..k] == Split(data, size);
    if n < k {
      assert s.plain[..k][..n] == s.plain[..n];
      ConcatShorter(s.plain[..k], n);
    } else if n > k {
      assert s.plain[..n][..k] == s.plain[..k];
      ConcatShorter(s.plain[..n], k);
    }
  }

  lemma {:induction false} ConcatShorter(plain: seq<seq<Byte>>, n: nat)
    requires n < |plain| && forall i :: 0 <= i < |plain| ==> |plain[i]| > 0
    ensures |Concat(plain[..n])| < |Concat(plain)|
    decreases |plain| - n
  {
    hide Concat;
    ConcatLast(plain, n + 1);
    if n + 1 < |plain| {
      ConcatShorter(plain, n + 1);
    } else {
      assert plain[..n + 1] == plain;
    }
  }

  // ---- honest datagrams are accepted

  // Starting from the exposer's manifest gives the true chunk count and root, unless the bitmap size wraps.
  lemma StartGenuine(v: View)
    requires ValidView(v) && |v.chunks| > 0 && v.chunkSize > 0
    ensures var r := Start(v.exposureId, Encode(ManifestPacket(v)));
            && (r.Some? <==> |v.chunks| + 7 < U32_END)
            && (r.Some? ==> r.value.chunkCount == |v.chunks| && r.value.merkleRoot == v.root
                            && r.value.exposureId == v.exposureId && r.value.window == Replay.INITIAL)
  {
    hide Parse, Encode, Size, WellTyped;
    ManifestParsed(v, U32_MAX);
    PacketsTyped(v, 0, false);
    ManifestFits(v);
    EncodeSize(ManifestPacket(v));
  }

  // A chunk the exposer sends, with or without its proof, is delivered whenever the replay window
  // accepts its index and the caller's buffer is large enough.
  lemma HonestDelivery(a: Aead, h: Merkle.Hasher<Digest>, v: View, plain: seq<seq<Byte>>, s: Surface,
                       d: seq<Byte>, i: nat, wantProof: bool, bufSize: nat)
    requires Correct(a) && ValidView(v) && ServesAll(a, h, v, plain)
    requires Puller.Valid(s) && s.chunkCount == |v.chunks| && s.exposureId == v.exposureId && s.merkleRoot == v.root
    requires IsChunkDatagram(v, d, i, wantProof)
    requires Replay.Check(s.window, i).1.Accept? && |plain[i]| <= bufSize
    ensures Receive(a, h, s, d, bufSize).1 == Delivered(i, plain[i])
  {
    hide Parse, Encode, Size, Flatten, Merkle.Climb, Merkle.Node, Replay.Check, Merkle.Proves;
    ParseChunkDatagram(v, d, i, wantProof, s.chunkCount);
    DecryptEncrypt(a, i, plain[i]);
    var p := ChunkPacket(v, i, wantProof);
    EncodeSize(p);
    if p.ChunkWithProof? {
      Merkle.Completeness(h, plain, v.proofDepth, v.proofs.value, i);
      DigestsFlatten(v.proofs.value[i]);
    }
    assert d != [] by { SizePositive(p); }
  }

  lemma SizePositive(p: Packet)
    ensures Size(p) > 0
  {}

  // ---- from the exposed data to the assembled data

  // Let a puller start from the manifest of the exposed data and anything allowed happen: at progress 1
  // the chunks assembled by index are the data.
  lemma EndToEnd(a: Aead, h: Merkle.Hasher<Digest>, v: View, data: seq<Byte>, size: nat, p: Surface, es: seq<Event>)
    requires Correct(a) && ValidView(v) && v.chunkSize > 0 && size > 0 && data != []
    requires ServesAll(a, h, v, Split(data, size))
    requires Start(v.exposureId, Encode(ManifestPacket(v))) == Some(p)
    requires AllowedRun(a, h, Begin(v, 0, Split(data, size), p), es)
    ensures var s := Execute(a, h, Begin(v, 0, Split(data, size), p), es);
            && Sound(s.log, s.plain) && Split(data, size) <= s.plain
            && (s.puller.chunksReceived == s.puller.chunkCount ==> Assemble(s.log, s.puller.chunkCount) == data)
  {
    HoldsSize(a, Store(v.chunks, 0), Split(data, size));
    SplitAt(data, size, 0);
    hide *;
    StartGenuine(v);
    TransferSafety(a, h, v, Split(data, size), 0, v.exposureId, Encode(ManifestPacket(v)), es);
    var s := Execute(a, h, Begin(v, 0, Split(data, size), p), es);
    if s.puller.chunksReceived == s.puller.chunkCount {
      Completion(s, data, size);
    }
  }

  // The same of the code: expose the data and start a puller from the manifest.
  method ExposeAndStart(a: Aead, h: Merkle.Hasher<Digest>, exposureId: seq<Byte>, data: seq<Byte>, configSize: nat,
                        withProofs: bool, fecEnabled: bool, fecN: Byte, fecK: Byte)
    returns (status: ExposeStatus, s: ExposeSurface?, p: PullSurface?)
    requires Correct(a) && |exposureId| == 16 && |data| < U64_END && configSize < U32_END
    requires data != [] ==> |Split(data, EffectiveSize(configSize))| <= Merkle.MAX_CHUNKS
    ensures status.Exposed? <==> s != null && p != null
    ensures data == [] <==> status.BadArgument?
    ensures status.Exposed? ==>
      && s.Ready() && p.Ready()
      && var begin := Begin(s.TheView(), 0, Split(data, EffectiveSize(configSize)), p.Value());
         && WellFormed(begin)
         && forall es :: AllowedRun(a, h, begin, es) ==>
              var end := Execute(a, h, begin, es);
              end.puller.chunksReceived == end.puller.chunkCount ==>
                Assemble(end.log, end.puller.chunkCount) == data
  {
    hide Split, ServesAll, Start, Encode, Execute, AllowedRun, Assemble, ValidView;
    status, s := Expose(a, h, exposureId, data, configSize, withProofs, fecEnabled, fecN, fecK);
    if !status.Exposed? {
      return status, null, null;
    }
    ghost var size := EffectiveSize(configSize);
    ServedShape(a, h, s.TheView(), data, size);
    StartGenuine(s.TheView());
    p := PullStart(exposureId, Encode(Manifest(s.exposureId, s.totalSize, |s.chunks|, s.chunkSize, s.root,
                                               s.fecN, s.fecK, 0)));
    ghost var begin := Begin(s.TheView(), 0, Split(data, size), p.Value());
    forall es | AllowedRun(a, h, begin, es)
      ensures var end := Execute(a, h, begin, es);
              end.puller.chunksReceived == end.puller.chunkCount ==> Assemble(end.log, end.puller.chunkCount) == data
    {
      EndToEnd(a, h, s.TheView(), data, size, p.Value(), es);
    }
  }

  lemma ServedShape(a: Aead, h: Merkle.Hasher<Digest>, v: View, data: seq<Byte>, size: nat)
    requires size > 0 && data != [] && ValidView(v) && ServesAll(a, h, v, Split(data, size))
    ensures |v.chunks| == |Split(data, size)| > 0 && v.proofDepth < 256
  {
    hide Merkle.Node, Merkle.Proves;
  }

  // ---- an undisturbed answer stops at chunk 256

  function Inputs(ds: seq<seq<Byte>>, bufSize: nat): seq<Input> {
    if ds == [] then [] else Inputs(ds[..|ds| - 1], bufSize) + [Input(ds[|ds| - 1], bufSize)]
  }

  function Deliveries(plain: seq<seq<Byte>>, n: nat): seq<Delivery>
    requires n <= |plain|
  {
    seq(n, i requires 0 <= i < n => Delivery(i, plain[i]))
  }

  // A chunk datagram of the exposure moves the window by the check of its index, and nothing is
  // delivered when the check refuses it.
  lemma ChunkVerdict(a: Aead, h: Merkle.Hasher<Digest>, v: View, s: Surface, d: seq<Byte>, i: nat, wantProof: bool,
                     bufSize: nat)
    requires ValidView(v) && Puller.Valid(s) && s.chunkCount == |v.chunks| && s.exposureId == v.exposureId
    requires IsChunkDatagram(v, d, i, wantProof)
    ensures Receive(a, h, s, d, bufSize).0.window == Replay.Check(s.window, i).0
    ensures !Replay.Check(s.window, i).1.Accept? ==> Receive(a, h, s, d, bufSize).1.Refused?
  {
    hide Parse, Encode, Size, WellTyped, ProofHolds, Flatten, Decrypt, Replay.Check;
    ParseChunkDatagram(v, d, i, wantProof, s.chunkCount);
    EncodeSize(ChunkPacket(v, i, wantProof));
    SizePositive(ChunkPacket(v, i, wantProof));
  }

  // The chunks below n are live, and their packets and plaintexts fit where they have to.
  ghost predicate Fitting(v: View, plain: seq<seq<Byte>>, n: nat, wantProof: bool, bufSize: nat)
    requires v.proofDepth < 256
  {
    && n <= |v.chunks| == |plain|
    && forall i :: 0 <= i < n ==>
         v.chunks[i].Some? && Size(ChunkPacket(v, i, wantProof)) < U16_END && |plain[i]| <= bufSize
  }

  lemma DatagramsLast(v: View, plain: seq<seq<Byte>>, m: nat, wantProof: bool, bufSize: nat)
    requires v.proofDepth < 256 && Fitting(v, plain, m + 1, wantProof, bufSize)
    ensures Fitting(v, plain, m, wantProof, bufSize) && |plain[m]| <= bufSize
    ensures var d := Encode(ChunkPacket(v, m, wantProof));
            && IsChunkDatagram(v, d, m, wantProof)
            && ChunkDatagrams(v, m + 1, wantProof) == ChunkDatagrams(v, m, wantProof) + [d]
  {
    hide Size, ChunkPacket, Encode;
  }

  // The puller belongs to the exposure.
  ghost predicate Joined(s: Surface, v: View) {
    Puller.Valid(s) && s.chunkCount == |v.chunks| && s.exposureId == v.exposureId && s.merkleRoot == v.root
  }

  lemma InOrderStep(a: Aead, h: Merkle.Hasher<Digest>, v: View, plain: seq<seq<Byte>>, t: Surface,
                    d: seq<Byte>, m: nat, wantProof: bool, bufSize: nat)
    requires Correct(a) && ValidView(v) && ServesAll(a, h, v, plain) && m < |plain| == |v.chunks|
    requires Joined(t, v) && Replay.AfterCount(t.window, m)
    requires IsChunkDatagram(v, d, m, wantProof) && |plain[m]| <= bufSize
    ensures var r := Receive(a, h, t, d, bufSize);
            && Joined(r.0, v) && Replay.AfterCount(r.0.window, m + 1)
            && (m < Replay.WIDTH ==> r.1 == Delivered(m, plain[m])) && (m >= Replay.WIDTH ==> r.1.Refused?)
  {
    hide Receive, ValidView, ServesAll, IsChunkDatagram, Replay.AfterCount, Replay.Check, Correct;
    Replay.CountStep(t.window, m);
    ChunkVerdict(a, h, v, t, d, m, wantProof, bufSize);
    ReceiveShape(a, h, t, d, bufSize);
    if m < Replay.WIDTH {
      HonestDelivery(a, h, v, plain, t, d, m, wantProof, bufSize);
    }
  }

  lemma {:induction false} InOrderServed(a: Aead, h: Merkle.Hasher<Digest>, v: View, plain: seq<seq<Byte>>, s: Surface,
                                         n: nat, wantProof: bool, bufSize: nat)
    requires Correct(a) && ValidView(v) && ServesAll(a, h, v, plain) && Fitting(v, plain, n, wantProof, bufSize)
    requires Joined(s, v) && s.window == Replay.INITIAL
    ensures var r := Puller.Run(a, h, s, Inputs(ChunkDatagrams(v, n, wantProof), bufSize));
            && r.1 == Deliveries(plain, Min(n, Replay.WIDTH))
            && Joined(r.0, v) && Replay.AfterCount(r.0.window, n)
  {
    if n > 0 {
      var m := n - 1;
      DatagramsLast(v, plain, m, wantProof, bufSize);
      assert |plain| == |v.chunks| && n <= |plain|;
      var ds, d := ChunkDatagrams(v, m, wantProof), Encode(ChunkPacket(v, m, wantProof));
      hide *;
      InOrderServed(a, h, v, plain, s, m, wantProof, bufSize);
      InputsLast(a, h, s, ds, d, bufSize);
      var t := Puller.Run(a, h, s, Inputs(ds, bufSize)).0;
      InOrderStep(a, h, v, plain, t, d, m, wantProof, bufSize);
      DeliveriesLast(plain, m, Receive(a, h, t, d, bufSize).1);
    }
  }

  // A fresh puller receives, in the order they are sent, the chunks of an answer: it delivers the first
  // 256 and refuses the rest.
  lemma InOrderStops(a: Aead, h: Merkle.Hasher<Digest>, v: View, plain: seq<seq<Byte>>, s: Surface,
                     windowSize: nat, flags: nat, bufSize: nat)
    requires Correct(a) && ValidView(v) && ServesAll(a, h, v, plain) && |plain| == |v.chunks|
    requires forall i :: 0 <= i < Min(Max(windowSize, 1), |plain|) ==>
               Sendable(v, i, flags) && |plain[i]| <= bufSize
    requires Joined(s, v) && s.window == Replay.INITIAL
    ensures Puller.Run(a, h, s, Inputs(Answer(v, windowSize, flags)[1..], bufSize)).1
            == Deliveries(plain, Min(Min(Max(windowSize, 1), |plain|), 256))
  {
    var n, wantProof := Reach(v, windowSize), flags % 2 == 1;
    forall i | 0 <= i < n ensures Size(ChunkPacket(v, i, wantProof)) < U16_END {
      assert Sendable(v, i, flags);
    }
    assert Fitting(v, plain, n, wantProof, bufSize);
    AnswerIs(v, windowSize, flags);
    hide ServesAll, Answer, ChunkDatagrams, Encode, Puller.Run, Inputs, Fitting, Size;
    InOrderServed(a, h, v, plain, s, n, wantProof, bufSize);
    assert ([Encode(ManifestPacket(v))] + ChunkDatagrams(v, n, wantProof))[1..] == ChunkDatagrams(v, n, wantProof);
  }

  lemma InputsLast(a: Aead, h: Merkle.Hasher<Digest>, s: Surface, ds: seq<seq<Byte>>, d: seq<Byte>, bufSize: nat)
    requires Puller.Valid(s)
    ensures var r := Puller.Run(a, h, s, Inputs(ds, bufSize));
            var q := Receive(a, h, r.0, d, bufSize);
            Puller.Run(a, h, s, Inputs(ds + [d], bufSize)) == (q.0, r.1 + Logged(q.1))
  {
    hide Receive;
    assert (ds + [d])[..|ds|] == ds;
    var xs := Inputs(ds, bufSize);
    assert (xs + [Input(d, bufSize)])[..|xs|] == xs;
  }

  lemma DeliveriesLast(plain: seq<seq<Byte>>, m: nat, o: Outcome)
    requires m < |plain| && if m < Replay.WIDTH then o == Delivered(m, plain[m]) else o.Refused?
    ensures Deliveries(plain, Min(m, Replay.WIDTH)) + Logged(o) == Deliveries(plain, Min(m + 1, Replay.WIDTH))
  {}
}

# Red Giant Transport Protocol: a Dafny model

RGTP exposes a block of data as encrypted chunks, lets a puller fetch them over UDP, protects them
with Reed-Solomon parity, authenticates them with an AEAD and a Merkle tree, and paces the exchange
with a rate limiter and a congestion window. This project models those cores and proves what they
guarantee.

| file | models |
|---|---|
| `Bits.dfy`, `Field.dfy`, `GF256.dfy` | GF(2^8) modulo 0x11D: a shift-and-reduce reference and the log/antilog tables |
| `Poly.dfy`, `RSEncode.dfy` | the systematic encoder: generator polynomial, shift register, distance of the code |
| `Gauss.dfy`, `RSDecode.dfy` | in-place elimination and the erasure decoder |
| `Region.dfy` | the scalar, SSE4.2, AVX2 and NEON region multiply kernels |
| `Merkle.dfy` | tree build, proofs, verification |
| `RateLimit.dfy` | the 256-slot probing table of token buckets |
| `Wire.dfy`, `Serializer.dfy` | the packet parser and serializer |
| `Crypto.dfy`, `Replay.dfy`, `Puller.dfy`, `Exposer.dfy`, `Transfer.dfy` | nonce, anti-replay window, both endpoints, and the system they form with a network |
| `Reorder.dfy`, `Flow.dfy` | the reorder buffer and the congestion control |

Objects the source updates in place are classes or arrays whose methods are proved against a function
on values; the theorems are then about that function. Hash functions and the AEAD are parameters:
nothing is assumed about the hashes except in `Merkle.Soundness` (`Merkle.Ideal`), and the AEAD is assumed
only to open what it sealed (`Crypto.Correct`). The key is shared out of band, the random exposure id
and the clock are arguments, and a received datagram is an argument of the step that receives it.

## Where the code and its promises differ

- The decoder does not invert the encoder. The encoder is systematic, while the decoder takes each
  symbol for a value of the data polynomial; `tests/property/prop_fec.c` promises the round trip.
  `RSDecode.RoundTripFails` gives blocks that are not recovered for any k > 1, and
  `RSDecode.RoundTripExactly` and `RSDecode.EncodeEraseDecode` the exact condition.
- A number can pass the anti-replay window twice, because a slide by less than 256 does not move the
  bits; `tests/property/prop_replay.c` promises otherwise. `Replay.AcceptedTwice` gives the numbers
  5, 256, 5. `Replay.ReplaySafeExactly` gives the exact condition, on the numbers alone: the window
  stays safe exactly when every number that slides it by less than 256 lies at least 256 above all
  numbers before it.
- The bits left behind also refuse numbers that were never seen, under the same condition
  (`Replay.AnswersExactly`). Numbers presented in order are accepted up to 255 and all others called
  duplicates (`Replay.InOrderStops`). The exposer sends chunks in index order, so an undisturbed answer
  of more than 256 chunks delivers the first 256 and no other (`Transfer.InOrderStops`).
- A NAK does not come back from the wire unchanged on a little-endian host, because the parser does
  not swap the indices; `tests/property/prop_wire.c` promises it does. `Wire.NakRoundTripFails` gives
  index 1, and `Wire.RoundTripExactly` the exact condition.
- The window of the sliding store is described as the maximum number of chunks kept, but one append
  evicts at most one chunk. `Exposer.WindowBoundFails` appends to three chunks with a window of 1, and
  `Exposer.WindowBoundExactly` shows that the bound holds exactly when the exposure did not start above
  it.
- With Merkle proofs enabled, exposing data that fits in one chunk ends in NOMEM: the proof of a
  one-leaf tree is empty, and the allocator answers a request for no bytes with NULL
  (`Merkle.Build`, `Exposer.Expose`).
- The delay baseline is described as the minimum observed RTT, but it is the least smoothed estimate
  (`Flow.BaselineIsMinimum`). The samples 100 and 50 leave it at 93 (`Flow.BaselineMissesMinimum`). It
  is the least sample at every point of a run exactly when every sample that undercuts all earlier ones
  finds the estimate at most one above itself (`Flow.BaselineExactly`).
- Under a constant sample the estimate settles on it exactly when it does not start below it; from
  below it stops up to 7 microseconds short, because the average truncates
  (`Flow.ConstantSampleSettles`).

## Model

| member | source | states |
|---|---|---|
| `Field.MulAssoc` | src/fec/rgtp_gf256.c:60-65 | shift-and-reduce multiplication modulo 0x11D is associative |
| `Field.MulComm` | src/fec/rgtp_gf256.c:60-65 | it is commutative |
| `Field.MulAddRight` | src/fec/rgtp_gf256.c:60-65 | it distributes over exclusive or |
| `Field.NoZeroDivisors` | src/fec/rgtp_gf256.c:60-65 | a product is zero exactly when a factor is |
| `Field.AlphaOrder` | src/fec/rgtp_gf256.c:36-44 | no power of 2 with exponent 1..254 is 1, so 0x11D is primitive |
| `Field.AlphaCovers` | src/fec/rgtp_gf256.c:36-44 | every nonzero byte is a power of 2 |
| `GF256.Tables.constructor` | src/fec/rgtp_gf256.c:26-56 | the antilog table holds the powers of 2 with exponents 0..511, log 0 is 0, and the tables are mutually inverse on the nonzero bytes |
| `GF256.Tables.Mul` | src/fec/rgtp_gf256.c:60-65 | the table product is the field product for all bytes |
| `GF256.Tables.Div` | src/fec/rgtp_gf256.c:67-73 | the quotient times the nonzero divisor gives the dividend |
| `GF256.Tables.Inv` | src/fec/rgtp_gf256.c:75-79 | a nonzero byte times its inverse is 1 |
| `GF256.Tables.Pow` | src/fec/rgtp_gf256.c:81-88 | nonnegative exponents give the repeated product, negative ones its inverse, and a negative power of 0 is 0 |
| `Poly.RootBound` | src/fec/rgtp_rs_decode.c:42-44 | a polynomial with at most as many coefficients as distinct roots is zero, so the missing-pivot exit is never taken |
| `Poly.AgreeEqual` | src/fec/rgtp_rs_decode.c:134-145 | two polynomials with k coefficients that agree at k distinct points are equal |
| `Poly.FromRootsZeros` | src/fec/rgtp_rs_encode.c:19-22 | the product of the (x + root) vanishes exactly at the roots |
| `RSEncode.BuildGenerator` | src/fec/rgtp_rs_encode.c:23-36 | the in-place loop leaves the coefficients of the product of (x + alpha^i) for i < t |
| `RSEncode.MultiplyInPlace` | src/fec/rgtp_rs_encode.c:31-34 | one round multiplies the polynomial by (x + root) |
| `RSEncode.FeedInPlace` | src/fec/rgtp_rs_encode.c:67-72 | one register step is the value-level shift with feedback |
| `RSEncode.FeedLaw` | src/fec/rgtp_rs_encode.c:67-72 | one step multiplies the register by x, adds d x^t and a multiple of g |
| `RSEncode.DivisionLaw` | src/fec/rgtp_rs_encode.c:57-73 | data(x) x^t plus the register equals the feedback polynomial times g, so the register is the remainder |
| `RSEncode.RegisterIsParity` | src/fec/rgtp_rs_encode.c:57-76 | register followed by data vanishes at alpha^0..alpha^(t-1) |
| `RSEncode.RunRegister` | src/fec/rgtp_rs_encode.c:63-73 | the register loop feeds the block from its last symbol to its first |
| `RSEncode.Encode` | src/fec/rgtp_rs_encode.c:40-78 | accepts exactly 0 < k < n, then the parity is the remainder block and parity followed by data is a codeword; nothing else is written |
| `RSEncode.ParityUnique` | src/fec/rgtp_rs_encode.c:57-76 | no other parity block completes the data to a codeword |
| `RSEncode.MinimumWeight` | src/fec/rgtp_rs_encode.c:23-78 | a codeword with at most t nonzero symbols is zero |
| `RSEncode.Orthogonal` | src/fec/rgtp_rs_encode.c:19-36 | a codeword is orthogonal to the evaluations of every polynomial with at most t coefficients |
| `RSEncode.Distance` | src/fec/rgtp_rs_encode.c:23-78 | two different codewords differ in at least t + 1 positions |
| `RSEncode.ErasuresDetermine` | src/fec/rgtp_rs_encode.c:23-78 | any t erased positions leave the codeword determined |
| `Gauss.SwapKeeps` | src/fec/rgtp_rs_decode.c:47-53 | swapping rows keeps the kernel of the augmented matrix |
| `Gauss.ScaleKeeps` | src/fec/rgtp_rs_decode.c:55-59 | scaling by a nonzero factor keeps it |
| `Gauss.AddKeeps` | src/fec/rgtp_rs_decode.c:61-68 | adding a multiple of another row keeps it |
| `Gauss.SwapRows` | src/fec/rgtp_rs_decode.c:46-53 | the loop swaps the two rows and nothing else |
| `Gauss.ScaleRow` | src/fec/rgtp_rs_decode.c:55-59 | the partial loop scales the whole row by a nonzero factor and makes the pivot 1 |
| `Gauss.EliminateRow` | src/fec/rgtp_rs_decode.c:63-67 | the partial loop adds a multiple of the pivot row and clears the column |
| `Gauss.EliminateColumn` | src/fec/rgtp_rs_decode.c:61-68 | clears the column in all other rows and keeps the kernel |
| `Gauss.ReduceColumn` | src/fec/rgtp_rs_decode.c:46-68 | one round extends the reduced columns by one and keeps the kernel |
| `Gauss.FindPivot` | src/fec/rgtp_rs_decode.c:37-41 | the first nonzero entry at or below the diagonal, or k |
| `Gauss.NoPivotSingular` | src/fec/rgtp_rs_decode.c:42-44 | without a pivot there is a nonzero null vector |
| `Gauss.ReducedSolved` | src/fec/rgtp_rs_decode.c:70-71 | with the identity on the left the last column is the only solution and the matrix is regular |
| `Gauss.Eliminate` | src/fec/rgtp_rs_decode.c:34-71 | fails exactly for a singular matrix; otherwise leaves the identity and the unique solution; always keeps the solution set |
| `RSDecode.KeptEnough` | src/fec/rgtp_rs_decode.c:88-117 | an erasure list of length e, with repetitions or entries out of range, leaves at least n - e positions |
| `RSDecode.MarkErased` | src/fec/rgtp_rs_decode.c:92-103 | the mask marks exactly the listed positions below n |
| `RSDecode.SurvivorsExactly` | src/fec/rgtp_rs_decode.c:105-114 | the positions used are the only increasing list of k surviving positions that leaves out none before its last entry |
| `RSDecode.CollectGood` | src/fec/rgtp_rs_decode.c:108-114 | collects the first k positions that survive, in increasing order with none left out, when at most n - k are listed as lost |
| `RSDecode.BuildSystem` | src/fec/rgtp_rs_decode.c:131-140 | the matrix is the augmented Vandermonde matrix of the positions |
| `RSDecode.SolveSystem` | src/fec/rgtp_rs_decode.c:131-150 | for distinct positions the system is always solved, by the polynomial through the received values |
| `RSDecode.InterpolantUnique` | src/fec/rgtp_rs_decode.c:119-140 | that polynomial is unique |
| `RSDecode.SolvesInterpolates` | src/fec/rgtp_rs_decode.c:119-140 | the solutions of the system are the polynomials through the received values |
| `RSDecode.VandermondeRegular` | src/fec/rgtp_rs_decode.c:119-144 | the matrix of distinct positions is never singular |
| `RSDecode.Decode` | src/fec/rgtp_rs_decode.c:75-151 | every status exactly, and on success the polynomial through the received values at the first k surviving positions; never fails within n - k erasures |
| `RSDecode.Recovery` | src/fec/rgtp_rs_decode.c:75-151 | if the surviving symbols are values of a polynomial with k coefficients, the answer is that polynomial |
| `RSDecode.RoundTripExactly` | src/fec/rgtp_rs_decode.c:122-149 | after encoding, the data comes back exactly when each symbol used is the data polynomial's value there |
| `RSDecode.RoundTripFails` | tests/property/prop_fec.c:5-8 | without any erasure the block 1, 0, ..., 0 is not recovered, for every 2 <= k < n <= 255 and any parity |
| `RSDecode.Erase` | tests/property/prop_fec.c:87-105 | zeroes exactly the symbols at the lost positions |
| `RSDecode.EncodeEraseDecode` | tests/property/prop_fec.c:55-128 | encodes any block, zeroes the lost symbols and decodes: the answer is the polynomial through the surviving symbols, and the block comes back exactly under a condition on data and lost positions alone |
| `Region.NibbleProduct` | src/fec/rgtp_rs_simd.c:78-84 | c times a byte is the sum of c times its nibbles |
| `Region.LaneShiftIsHighNibble` | src/fec/rgtp_rs_simd.c:99-100 | the 16-bit lane shift, masked, leaves the high nibbles in spite of bits crossing bytes |
| `Region.NibbleTables` | src/fec/rgtp_rs_simd.c:85-89 | the two tables hold the products of c with the low and high nibbles |
| `Region.LookupProduct` | src/fec/rgtp_rs_simd.c:99-102 | the two lookups, added, give c times every byte |
| `Region.Shortcut` | src/fec/rgtp_rs_simd.c:72-76 | the branches for c = 0 and c = 1 do what the general case would |
| `Region.Scalar` | src/fec/rgtp_rs_simd.c:42-60 | dst[i] becomes dst[i] XOR c src[i] below len, the rest is untouched |
| `Region.Sse42` | src/fec/rgtp_rs_simd.c:67-109 | the same, with 16-byte blocks and a tail |
| `Region.Avx2` | src/fec/rgtp_rs_simd.c:117-165 | the same, with 32-byte blocks, 16-byte blocks and a tail |
| `Region.Neon` | src/fec/rgtp_rs_simd.c:173-207 | the same, with byte shifts and table lookups |
| `Merkle.NextPow2` | src/merkle/rgtp_merkle.c:31-41 | the least power of two at least n, for every n up to 2^31; 0 above |
| `Merkle.SmearStep` | src/merkle/rgtp_merkle.c:35-39 | m or-ed with m shifted by w doubles a leading run of w ones |
| `Merkle.SmearAll` | src/merkle/rgtp_merkle.c:34-40 | the five shifts fill all bits below the highest one |
| `Merkle.Log2` | src/merkle/rgtp_merkle.c:44-49 | the exponent of a power of two |
| `Merkle.FillTree` | src/merkle/rgtp_merkle.c:76-95 | every position of the flat tree holds its node hash |
| `Merkle.CollectProof` | src/merkle/rgtp_merkle.c:119-127 | the walk collects the sibling path |
| `Merkle.Build` | src/merkle/rgtp_merkle.c:53-135 | every status, the least padding and its depth, the root of the padded tree, and a climbing path for every chunk; a single chunk with proofs ends in NOMEM |
| `Merkle.Verify` | src/merkle/rgtp_merkle.c:139-178 | accepts exactly when the leaf climbs to the root |
| `Merkle.ClimbPath` | src/merkle/rgtp_merkle.c:119-127 | climbing from any node along its siblings reaches the root |
| `Merkle.Completeness` | src/merkle/rgtp_merkle.c:104-130 | every precomputed proof climbs to the root for its own chunk and index |
| `Merkle.ClimbInverse` | src/merkle/rgtp_merkle.c:154-170 | what climbs to a node is the leaf reached by descending from it along the index bits, or the lemma returns a coincidence of the hashes |
| `Merkle.AcceptedOrCoincidence` | src/merkle/rgtp_merkle.c:139-178 | with nothing assumed, an accepted proof has the depth of the tree and its data is the chunk at the index modulo the padded count, or an explicit coincidence of leaf, inner or padding hashes is returned |
| `Merkle.BuildThenVerify` | src/merkle/rgtp_merkle.c:53-178 | building with proofs over two or more chunks and then verifying any chunk succeeds |
| `Merkle.Soundness` | src/merkle/rgtp_merkle.c:139-178 | with ideal hashes only the first case is left |
| `Merkle.Collision` | src/merkle/rgtp_merkle_hash.c:67-101 | two different leaves accepted at one index and depth exhibit an inner-hash collision |
| `Merkle.AcceptedCollision` | src/merkle/rgtp_merkle.c:139-178 | two different chunks accepted at one index and depth give a collision of one of the hashes |
| `RateLimit.Limiter.constructor` | src/transport/rgtp_ratelimit.c:40-43 | the cleared table is the empty map |
| `RateLimit.Limiter.Probe` | src/transport/rgtp_ratelimit.c:57-92 | finds the key, or an empty slot with the key absent, or a least recently refilled entry of a full table |
| `RateLimit.Limiter.Check` | src/transport/rgtp_ratelimit.c:45-124 | keeps keys unique with no gap before them, and acts on the map as lookup, insert, or replacement when all 256 slots are used |
| `RateLimit.FullMap` | src/transport/rgtp_ratelimit.c:94-106 | the map has 256 keys exactly when every slot is used |
| `RateLimit.Absent` | src/transport/rgtp_ratelimit.c:64-92 | a probe that meets only other keys before an empty slot, or in the whole table, proves the key absent |
| `RateLimit.RunBounds` | src/transport/rgtp_ratelimit.c:108-123 | tokens stay in [0, 1000] and refill times never run ahead of the clock |
| `RateLimit.Conservation` | src/transport/rgtp_ratelimit.c:108-123 | while a key stays in the table, tokens spent plus tokens left never exceed tokens held plus tokens earned |
| `RateLimit.Balance` | src/transport/rgtp_ratelimit.c:108-123 | while a key stays in the table the account balances exactly: tokens held plus earned are spent, left, or lost to the cap of 1000 |
| `RateLimit.RefusalEarned` | src/transport/rgtp_ratelimit.c:70-76 | a key is refused after its insertion only when 1000 of its requests were accepted since |
| `RateLimit.ResidentCheck` | src/transport/rgtp_ratelimit.c:108-123 | a resident request passes exactly when tokens held and earned since the last check make up one, and the refill time becomes the time of the check |
| `RateLimit.EvictsOldest` | src/transport/rgtp_ratelimit.c:94-106 | a key leaves only for a new, accepted one, only from a full table, and only if no other was refilled before it |
| `RateLimit.TokenBound` | src/transport/rgtp_ratelimit.c:45-124 | in any window of any run a key is accepted at most 1000 times per insertion, 1000 times more if present when the window opens, plus elapsed/1000 |
| `RateLimit.ResidentBound` | src/transport/rgtp_ratelimit.c:54-55 | a key that stays in the table is accepted at most 1000 + elapsed/1000 times in any window, wherever it opens |
| `RateLimit.SpentInWindow` | src/transport/rgtp_ratelimit.c:108-123 | acceptances are paid for by the tokens available when the window opens, by insertions and by elapsed time |
| `RateLimit.SpacedNeverLimited` | src/transport/rgtp_ratelimit.c:45-124 | a source whose requests are at least 1000 microseconds apart is never refused, whatever other sources do and however often it is evicted |
| `Wire.ParseEncode` | src/wire/rgtp_parser.c:206-279 | parsing the bytes of any packet gives the packet as the host sees it, or the error of the failed field check |
| `Wire.RoundTripExactly` | tests/property/prop_wire.c:5-7 | the same packet comes back exactly when the field checks hold and a NAK's indices equal their byte swaps |
| `Wire.NakRoundTripFails` | src/wire/rgtp_parser.c:171-173 | a NAK for chunk 1 comes back as a NAK for chunk 2^24 |
| `Wire.ParseLocal` | src/wire/rgtp_parser.c:229-254 | nothing beyond the declared length influences the result |
| `Wire.ParseStatus` | src/wire/rgtp_parser.c:206-279 | for every buffer, acceptance and each of the four errors exactly, in terms of the bytes at their offsets |
| `Wire.ParseLayout` | src/wire/rgtp_parser.c:57-202 | every field of an accepted packet is the big-endian number or the bytes at its documented offset, and a payload reaches to the declared length |
| `Wire.ParseInverse` | src/wire/rgtp_parser.c:57-202 | the body of an accepted packet other than a NAK is what the buffer holds: all of it for packets with a payload, its beginning for the others |
| `Wire.ParseTyped` | src/wire/rgtp_parser.c:57-202 | whatever is accepted is well typed, fits in the declared length and passes the field checks |
| `Wire.Reparse` | src/wire/rgtp_parser.c:206-279 | an accepted packet, serialized and parsed again, gives the same packet up to the host view of a NAK |
| `Wire.BodyRoundTrip` | src/wire/rgtp_parser.c:57-202 | the same for the body of each packet type |
| `Serializer.Serialize` | src/wire/rgtp_packet.c:225-254 | succeeds exactly when the packet fits buffer and length field, writes exactly its bytes, and leaves the rest alone |
| `Serializer.WriteU16` | src/wire/rgtp_packet.c:19-23 | two bytes in big-endian order |
| `Serializer.WriteU32` | src/wire/rgtp_packet.c:25-31 | four bytes in big-endian order |
| `Serializer.WriteHeader` | src/wire/rgtp_packet.c:47-52 | version, type, total length, and the exposure id every packet starts with |
| `Serializer.WritePullRequest` | src/wire/rgtp_packet.c:56-74 | leaves exactly the bytes `Wire.Encode` gives the packet, and nothing changed beyond them |
| `Serializer.WriteManifest` | src/wire/rgtp_packet.c:76-96 | leaves exactly the bytes `Wire.Encode` gives the packet, and nothing changed beyond them |
| `Serializer.WriteChunkData` | src/wire/rgtp_packet.c:98-115 | leaves exactly the bytes `Wire.Encode` gives the packet, and nothing changed beyond them |
| `Serializer.WriteChunkWithProof` | src/wire/rgtp_packet.c:117-140 | leaves exactly the bytes `Wire.Encode` gives the packet, and nothing changed beyond them |
| `Serializer.WriteFecParity` | src/wire/rgtp_packet.c:142-164 | leaves exactly the bytes `Wire.Encode` gives the packet, and nothing changed beyond them |
| `Serializer.WriteNak` | src/wire/rgtp_packet.c:166-185 | leaves exactly the bytes `Wire.Encode` gives the packet, with big-endian indices, and nothing changed beyond them |
| `Serializer.WriteRateReport` | src/wire/rgtp_packet.c:187-205 | leaves exactly the bytes `Wire.Encode` gives the packet, and nothing changed beyond them |
| `Serializer.WriteKeepalive` | src/wire/rgtp_packet.c:207-221 | leaves exactly the bytes `Wire.Encode` gives the packet, and nothing changed beyond them |
| `Serializer.WriteIndices` | src/wire/rgtp_packet.c:180-182 | writes the indices in big-endian order one after another |
| `Serializer.WriteU64` | src/wire/rgtp_packet.c:33-43 | eight bytes in big-endian order |
| `Crypto.NonceInjective` | src/crypto/rgtp_crypto.c:39-55 | different 32-bit indices have different nonces |
| `Crypto.NonceLayout` | src/crypto/rgtp_crypto.c:39-55 | the nonce is the index in little-endian order followed by eight zero bytes |
| `Crypto.DecryptEncrypt` | src/crypto/rgtp_crypto.c:59-179 | decrypting at the same index undoes encryption |
| `Replay.ReplayWindow.CheckAndSet` | src/transport/rgtp_replay.c:49-86 | the bitmap and base become those of the value-level check, with its verdict |
| `Replay.ReplayWindow.constructor` | src/transport/rgtp_replay.c:43-47 | an empty window at base 0 |
| `Replay.RunMonotone` | src/transport/rgtp_replay.c:12 | the base never decreases along a run |
| `Replay.NeverBelowBase` | src/transport/rgtp_replay.c:52-55 | a number the base has passed is never accepted again |
| `Replay.StretchAtMostOnce` | src/transport/rgtp_replay.c:78-85 | no number is accepted twice while the base is constant |
| `Replay.SameBaseRejects` | src/transport/rgtp_replay.c:78-85 | a rejected number stays rejected while the base is constant |
| `Replay.AcceptedTwice` | src/transport/rgtp_replay.c:69-75 | 5, 256, 5 are all accepted from a fresh window |
| `Replay.ReplaySafeExactly` | tests/property/prop_replay.c:5-11 | from an empty window, accepted numbers stay rejected at every point of a run exactly when each number that slides the window partially lies 256 or more above all before it |
| `Replay.AnswersExactly` | src/transport/rgtp_replay.c:5-10 | the window rejects exactly what is below the base or accepted, at every point of a run, under that condition and no weaker one |
| `Replay.FreshSafeExactly` | tests/property/prop_replay.c:5-11 | both for the initial window: safe exactly when the numbers are clear, and then no number is accepted twice |
| `Replay.SlideForgets` | src/transport/rgtp_replay.c:69-75 | a partial slide that leaves an accepted number inside makes the window accept some accepted number again |
| `Replay.SlideShifts` | src/transport/rgtp_replay.c:69-75 | after a partial slide by a, a number takes over the answer of the number a below it, unless that bit was cleared |
| `Replay.RunBase` | src/transport/rgtp_replay.c:60-76 | the base is a function of the numbers alone |
| `Replay.InOrderStops` | src/transport/rgtp_replay.c:60-85 | presented in order, exactly the numbers below 256 are accepted and all others called duplicates |
| `Replay.FaithfulRun` | src/transport/rgtp_replay.c:49-86 | while the numbers are clear, the bits are exactly the accepted numbers inside the window |
| `Replay.FaithfulStep` | src/transport/rgtp_replay.c:49-86 | a faithful window accepts exactly the unseen numbers at or above the base, and a slide that leaves nothing accepted inside keeps it faithful |
| `Replay.AtMostOnce` | src/transport/rgtp_replay.c:49-86 | a run of clear numbers accepts none of them twice |
| `Puller.AllocPuller` | src/transport/rgtp_surface.c:279-318 | a fresh surface with nothing received, or none exactly when the 32-bit bitmap size wraps to zero |
| `Puller.PullStart` | src/transport/rgtp_puller.c:121-153 | a surface of this exposure with a nonzero chunk count and nothing received, exactly when the answer is a manifest of it whose bitmap size does not wrap |
| `Puller.StartExactly` | src/transport/rgtp_puller.c:121-153 | a pull starts exactly when the first 256 bytes of the answer parse to a manifest of the exposure asked for whose bitmap size does not wrap, with its count and root |
| `Puller.PullSurface.SetBit` | src/transport/rgtp_puller.c:61-64 | sets bit i of the packed bitmap and no other |
| `Puller.PullSurface.TestBit` | src/transport/rgtp_puller.c:65-68 | reads bit i of the packed bitmap |
| `Puller.PullSurface.PullNext` | src/transport/rgtp_puller.c:194-288 | one datagram changes bitmap, window and counters and yields the outcome as Receive defines, check by check in the same order |
| `Puller.PullSurface.AdmitPacket` | src/transport/rgtp_puller.c:237-288 | the same from the anti-replay check on |
| `Puller.DeliversExactly` | src/transport/rgtp_puller.c:198-288 | a datagram delivers index i and plaintext x exactly when it is a chunk packet of this exposure that the window accepts, opens under nonce i to x, leads to the root if it carries a proof, and fits the buffer |
| `Puller.ReceiveCounts` | src/transport/rgtp_puller.c:198-273 | the counters and the window after any datagram, and exactly when the answer is MERKLE_FAIL |
| `Puller.CipherRefusals` | src/transport/rgtp_puller.c:244-262 | exactly when the answer is TRUNCATED for a missing tag or AUTH_FAIL |
| `Puller.ProvenDelivery` | src/transport/rgtp_puller.c:264-273 | whatever is delivered with a proof against the root of a tree is the chunk at that index, or a coincidence of the hashes is returned, with nothing assumed about the AEAD |
| `Puller.Bookkeeping` | src/transport/rgtp_puller.c:283-288 | on any datagrams, the bitmap marks the delivered indices, chunksReceived counts them, bytesReceived sums first deliveries |
| `Puller.RecordKeepsBooks` | src/transport/rgtp_puller.c:283-288 | recording a delivery keeps bitmap, count and byte total in step with the deliveries |
| `Puller.ReceiveKeepsBooks` | src/transport/rgtp_puller.c:198-288 | the same for any received datagram |
| `Puller.ReceiveShape` | src/transport/rgtp_puller.c:198-288 | a refused datagram changes only window and error counters; a delivery is below the chunk count |
| `Exposer.ConcatSplit` | src/transport/rgtp_exposer.c:133-171 | the chunks concatenate to the data |
| `Exposer.SplitCount` | src/transport/rgtp_exposer.c:133-135 | the chunk count is the size over the chunk size, rounded up |
| `Exposer.SplitAt` | src/transport/rgtp_exposer.c:155-168 | chunk i is the slice at i times the chunk size |
| `Exposer.SealChunks` | src/transport/rgtp_exposer.c:152-171 | seals chunk i of the data under nonce i, and fails exactly when some chunk is oversized |
| `Exposer.Slices` | src/transport/rgtp_exposer.c:185-192 | the slices handed to the Merkle tree are the chunks that were sealed |
| `Exposer.DigestsFlatten` | src/transport/rgtp_puller.c:264-268 | a proof packed into bytes is read back as the same hashes |
| `Exposer.Expose` | src/transport/rgtp_exposer.c:116-217 | each status exactly; on success the surface serves the split data with its Merkle root and proofs, and has the configured sizes and FEC parameters |
| `Exposer.ExposeSurface.ServeChunks` | src/transport/rgtp_exposer.c:316-352 | sends the live chunks below n in order, with proofs when wanted, and counts datagrams and bytes |
| `Exposer.ExposeSurface.ServeChunk` | src/transport/rgtp_exposer.c:322-351 | sends at most one datagram, none for an evicted or oversized chunk, with the proof when one is wanted and there is one |
| `Exposer.ExposeSurface.Poll` | src/transport/rgtp_exposer.c:248-355 | answers exactly the pull requests for this exposure that the limiter admits, with the manifest and the window; counts malformed packets, chunks and bytes; changes nothing else |
| `Exposer.AnswerExactly` | src/transport/rgtp_exposer.c:288-352 | read by the parser, an answer is the manifest with all its fields, then exactly the live chunks below min(max(window, 1), count) that fit, in order, with their index and ciphertext, and with their proof exactly when asked for and held |
| `Exposer.RequestExactly` | src/transport/rgtp_exposer.c:256-272 | what is answered is a pull request that names this exposure |
| `Exposer.ExposeSurface.AppendChunk` | src/transport/rgtp_streaming.c:47-116 | appends under the next nonce and evicts at most one chunk; an error changes nothing |
| `Exposer.AppendAllBase` | src/transport/rgtp_streaming.c:102-113 | the base after any number of appends, in closed form |
| `Exposer.AppendAllSucceeds` | src/transport/rgtp_streaming.c:84-113 | appending succeeds exactly for plaintexts of 1 to 65507 bytes, and with window 0 evicts nothing |
| `Exposer.AppendAllHolds` | src/transport/rgtp_streaming.c:84-113 | appends keep every live slot sealed under its own index |
| `Exposer.SlidingStore` | src/transport/rgtp_streaming.c:47-116 | after any appends to an exposure of C0 chunks, slot i is live iff base <= i and then holds plaintext i, and max(C0, min(count, W)) slots are live |
| `Exposer.LiveSlots` | src/transport/rgtp_streaming.c:84-97 | a live slot opens to its plaintext and shares its nonce with no other slot |
| `Exposer.WindowBoundExactly` | src/transport/rgtp_streaming.c:102-113 | at most W chunks are live exactly when the exposure started with at most W |
| `Exposer.WindowBoundFails` | src/transport/rgtp_streaming.c:102-113 | an append with window 1 to three chunks leaves three live |
| `Transfer.TransferSafety` | src/transport/rgtp_puller.c:198-288 | in every run with drops, duplicates, reordering, non-authenticating injections, appends and evictions, what is delivered for index i is chunk i, and the chunk count stays that of the manifest |
| `Transfer.RunKeeps` | src/transport/rgtp_puller.c:198-288 | the system invariant holds along every run, and the exposed plaintexts only grow |
| `Transfer.AppendKeeps` | src/transport/rgtp_streaming.c:84-113 | an append, with or without eviction, keeps the invariant: what was sent before still carries its chunk |
| `Transfer.ArrivalKeeps` | src/transport/rgtp_puller.c:198-288 | so does the arrival of any sent or non-authenticating datagram |
| `Transfer.InjectedNeverDelivers` | src/transport/rgtp_puller.c:244-262 | bytes that do not authenticate are never delivered |
| `Transfer.AnswerGenuine` | src/transport/rgtp_exposer.c:288-352 | everything a poll sends is a manifest or carries a plaintext sealed under its own index |
| `Transfer.ParseChunkDatagram` | src/transport/rgtp_puller.c:198-230 | the puller reads back the chunk packet the exposer sent, or rejects its index |
| `Transfer.Completion` | src/transport/rgtp_surface.c:149-155 | with every chunk counted, the assembled chunks are the first chunkCount ones, and the original data exactly when the manifest named its chunk count |
| `Transfer.EndToEnd` | src/transport/rgtp_puller.c:129-288 | from exposed data and its manifest, after any allowed run with every chunk counted, the chunks assembled by index are the data |
| `Transfer.ExposeAndStart` | src/transport/rgtp_exposer.c:116-217 | exposing and starting a puller succeeds exactly when exposing does, and then the end-to-end statement holds for every run |
| `Transfer.InOrderStops` | src/transport/rgtp_exposer.c:309-352 | of the chunks of an answer, arriving in the order sent, a fresh puller delivers the first 256 and no other |
| `Transfer.HonestDelivery` | src/transport/rgtp_puller.c:237-288 | a chunk the exposer sends is delivered whenever the window accepts it and the buffer is large enough |
| `Transfer.StartGenuine` | src/transport/rgtp_puller.c:129-153 | starting from the exposer's manifest gives the true count and root, and fails exactly when the bitmap size wraps |
| `Transfer.GenuineDelivers` | src/transport/rgtp_exposer.c:316-352 | whatever an exposer datagram delivers is the chunk at its index |
| `Reorder.Init` | src/transport/rgtp_streaming.c:180-201 | an empty buffer, or NOMEM when the capacity wraps to zero |
| `Reorder.InsertRepresents` | src/transport/rgtp_streaming.c:231-239 | storing at index modulo capacity represents insertion into the map |
| `Reorder.DequeueRepresents` | src/transport/rgtp_streaming.c:275-280 | clearing the slot and advancing represents removal of the next index |
| `Reorder.ReorderBuffer.InsertChunk` | src/transport/rgtp_streaming.c:220-241 | inserts into the map; accepts exactly indices from next to next + max that carry bytes or are pending |
| `Reorder.ReorderBuffer.DequeueChunk` | src/transport/rgtp_streaming.c:253-283 | delivers the next index with its bytes, or reports why not and changes nothing |
| `Reorder.DeliveredInOrder` | src/transport/rgtp_streaming.c:165-170 | over any interleaving the k-th chunk delivered is index k with the bytes of its first accepted insert |
| `Reorder.TakeExactly` | src/transport/rgtp_streaming.c:253-283 | a take delivers exactly when the next index is pending and fits the buffer, and otherwise changes nothing |
| `Reorder.Drains` | src/transport/rgtp_streaming.c:253-283 | if the next m chunks are pending and fit, m takes deliver them all in order |
| `Flow.FlowControl.AddSample` | src/transport/rgtp_flow.c:51-88 | the fields become those of the value-level update |
| `Flow.FlowControl.constructor` | src/transport/rgtp_flow.c:35-49 | the initial state, with 64 for a window of 0 |
| `Flow.FlowControl.Congested` | src/transport/rgtp_flow.c:99-108 | the window is halved but stays at least 1 |
| `Flow.FlowControl.Acked` | src/transport/rgtp_flow.c:110-118 | the window grows by one up to its maximum |
| `Flow.FlowControl.AddLoss` | src/transport/rgtp_flow.c:90-97 | the clamped moving average of the loss |
| `Flow.FlowControl.AdaptFec` | src/transport/rgtp_flow.c:120-130 | the three-way overhead rule with its limits |
| `Flow.RunBounded` | src/transport/rgtp_flow.c:35-130 | in every run the window stays in [1, max(initial, 65536)] and gains at most one per five samples; loss in [0,1], overhead in [0,0.5] |
| `Flow.EstimateBetween` | src/transport/rgtp_flow.c:55-63 | the estimate lies between the least and greatest sample |
| `Flow.BaselineIsMinimum` | src/transport/rgtp_flow.c:65-69 | the baseline is the least of the estimates so far |
| `Flow.BaselineMissesMinimum` | src/transport/rgtp_flow.c:65-69 | the samples 100 and 50 leave a baseline of 93 |
| `Flow.BaselineExactly` | src/transport/rgtp_flow.c:65-69 | the baseline is the least sample at every point of a run exactly when each sample below all earlier ones finds the estimate at most one above it |
| `Flow.LeastIs` | src/transport/rgtp_flow.c:53 | the least sample is a sample and none is below it; samples of 0 do not count |
| `Flow.Converges` | src/transport/rgtp_flow.c:60-63 | each repeated sample brings the estimate at least one closer to a limit fixed from the start, until it is reached |
| `Flow.ConstantSampleSettles` | src/transport/rgtp_flow.c:60-63 | under a constant sample s the estimate settles in [s - 7, s], after at most as many samples as its distance from the limit, and on s itself exactly when it did not start below |
| `Flow.SteadyGrowth` | src/transport/rgtp_flow.c:78-84 | a constant delay grows the window by exactly one per five samples up to 65536 |
| `Flow.NearGrows` | src/transport/rgtp_flow.c:78-83 | while the estimate stays within 1.1 times the baseline the window grows by one per five samples of the streak |
| `Flow.BetweenHolds` | src/transport/rgtp_flow.c:84-86 | between 1.1 and 2 times the baseline the window stands still and the streak is lost |
| `Flow.LossApproaches` | src/transport/rgtp_flow.c:90-97 | n equal loss samples leave (7/8)^n of the distance to the sample |
| `Flow.OverheadFollowsLoss` | src/transport/rgtp_flow.c:120-130 | n adaptations add 0.1 each above 5% loss, take off 0.05 each below 1%, within [0, 0.5], and change nothing in between |
| `Flow.CongestionHalves` | src/transport/rgtp_flow.c:73-77 | n equal samples at or above an estimate that exceeds twice the baseline divide the window by 2^n, down to 1, and reset the streak |

## Left out

- RSEncode.Encode: n - k is at most 127, the size of the source's parity buffers; larger requests overrun them.
- Merkle.Build: at most 2^26 chunks, beyond which the source's 32-bit tree offsets wrap.
- RSDecode.EncodeEraseDecode: n - k is at most 127, as for the encoder.
- Exposer.Expose: at most 2^26 chunks, as for the tree.
- Transfer.Completion: progress is exact; the source divides two floats, so above 2^24 chunks it can read 1.0 one chunk early.
- Transfer.ExposeAndStart: at most 2^26 chunks, as for the tree.
- Transfer.TransferSafety: appends only to exposures without precomputed proofs, as for AppendChunk.
- Merkle.Verify: hashes are compared as values; the constant-time byte loop is not modelled.
- RateLimit.Limiter.Check: the clock is above 0, which marks an empty slot, and below 2^64 - 1; token counts are exact instead of doubles.
- GF256.Tables.Pow: the exponent keeps the 32-bit product in range; outside it the C code is undefined.
- Exposer.ExposeSurface.Poll: pull-pressure accounting is not modelled.
- Puller.PullSurface.PullNext: latency ring, rate reports and the flow update are not part of the surface; the counters do not wrap.
- Exposer.ExposeSurface.AppendChunk: only surfaces without precomputed proofs, because the source does not grow the proof array.
- Reorder.ReorderBuffer.DequeueChunk: the delivery cursor stays below its 32-bit wrap.
- Flow.FlowControl.AddSample: float expressions are exact, and the sample counter does not wrap.
- Flow.FlowControl.AddLoss: exact reals instead of floats.
- Flow.FlowControl.AdaptFec: exact reals instead of floats.
- Replay.ReplayWindow.CheckAndSet: the four 64-bit words are one array of 256 bits.
- Wire.ParseEncode: a little-endian host; on a big-endian one the NAK indices need no swap.
- NULL pointer arguments and allocation failures other than those of empty requests.
- Liveness of a transfer beyond `Transfer.HonestDelivery` and `Transfer.InOrderStops`: the exposer always serves the window from index 0 and the puller sends one request.
- FEC inside a transfer: `rgtp_expose` only records its parameters.
- `rgtp_compute_chunk_range`, `rgtp_flow_record_pull`, statistics and surface destruction: short and local.
- The priority and jitter queues, NAT traversal, sockets and I/O back ends, CCSDS framing, the legacy `rgtp_core.c`, bindings, middleware, observability and packaging.
- AEAD, hash, random number and zeroization back ends: foreign libraries.

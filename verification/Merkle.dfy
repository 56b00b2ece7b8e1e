// The Merkle tree of src/merkle/rgtp_merkle.c: build, precomputed proofs, verification.
module Merkle {
  import opened Bits
  import opened Wrappers

  // The two hash functions and the padding hash, with nothing assumed about them.
  datatype Hasher<!H> = Hasher(leaf: seq<Byte> -> H, node: (H, H) -> H, zero: H)

  datatype Status = Ok | InvalidArg | NoMem | MerkleFail

  // ---- next_pow2 and log2_u32

  function ShiftRight(m: nat, s: nat): nat {
    if s == 0 then m else ShiftRight(m / 2, s - 1)
  }

  lemma {:induction false} BitShift(m: nat, s: nat, i: nat)
    ensures Bit(ShiftRight(m, s), i) <==> Bit(m, i + s)
  {
    if s > 0 { BitShift(m / 2, s - 1, i); }
  }

  // The bits of m up to t, and only those, are set; of them, the top w for certain.
  ghost predicate Run(m: nat, t: nat, w: nat) {
    && (forall i: nat :: i > t ==> !Bit(m, i))
    && (forall i: nat :: i <= t && t - i < w ==> Bit(m, i))
  }

  // m |= m >> w doubles the run of ones.
  lemma SmearStep(m: nat, t: nat, w: nat)
    requires Run(m, t, w)
    ensures Run(Or(m, ShiftRight(m, w)), t, 2 * w)
  {
    hide Or, ShiftRight, Bit;
    var m' := Or(m, ShiftRight(m, w));
    forall i: nat ensures i > t ==> !Bit(m', i)
                  ensures i <= t && t - i < 2 * w ==> Bit(m', i)
    {
      BitOr(m, ShiftRight(m, w), i);
      BitShift(m, w, i);
      assert i + w > t ==> !Bit(m, i + w);
      assert i + w <= t && t - (i + w) < w ==> Bit(m, i + w);
    }
  }

  lemma {:induction false} NoBits(m: nat)
    requires forall i: nat :: !Bit(m, i)
    ensures m == 0
  {
    if m > 0 {
      assert !Bit(m, 0);
      forall i: nat ensures !Bit(m / 2, i) { assert !Bit(m, i + 1); }
      NoBits(m / 2);
    }
  }

  lemma {:induction false} AllBits(m: nat, t: nat)
    requires forall i: nat :: Bit(m, i) <==> i <= t
    ensures m == Pow2(t + 1) - 1
  {
    assert Bit(m, 0);
    forall i: nat ensures Bit(m / 2, i) <==> i + 1 <= t { assert Bit(m, i + 1) <==> i + 1 <= t; }
    if t == 0 {
      NoBits(m / 2);
    } else {
      AllBits(m / 2, t - 1);
    }
  }

  lemma {:induction false} TopBitOf(m: nat) returns (t: nat)
    requires m > 0
    ensures Pow2(t) <= m < Pow2(t + 1) && Run(m, t, 1)
  {
    if m == 1 {
      t := 0;
      forall i: nat | i > 0 ensures !Bit(m, i) { ZeroBits(i - 1); }
    } else {
      t := TopBitOf(m / 2);
      t := t + 1;
      forall i: nat | i > t ensures !Bit(m, i) { assert !Bit(m / 2, i - 1); }
      assert Bit(m / 2, t - 1);
    }
  }

  // r is the least power of two that is at least n.
  ghost predicate LeastPowerAbove(r: nat, n: nat) {
    exists d: nat :: r == Pow2(d) && n <= r && (d > 0 ==> Pow2(d - 1) < n)
  }

  // next_pow2, on 32-bit words: above 2^31 the final addition wraps to zero.
  method NextPow2(n: nat) returns (r: nat)
    requires n < U32_END
    ensures n == 0 ==> r == 1
    ensures 0 < n <= 0x8000_0000 ==> LeastPowerAbove(r, n)
    ensures n > 0x8000_0000 ==> r == 0
  {
    hide Or, ShiftRight, LeastPowerAbove;
    if n == 0 { return 1; }
    var m := n - 1;
    m := Or(m, ShiftRight(m, 1));
    m := Or(m, ShiftRight(m, 2));
    m := Or(m, ShiftRight(m, 4));
    m := Or(m, ShiftRight(m, 8));
    m := Or(m, ShiftRight(m, 16));
    SmearAll(n - 1);
    return (m + 1) % U32_END;
  }

  function Smear(m0: nat): nat {
    var m1 := Or(m0, ShiftRight(m0, 1));
    var m2 := Or(m1, ShiftRight(m1, 2));
    var m3 := Or(m2, ShiftRight(m2, 4));
    var m4 := Or(m3, ShiftRight(m3, 8));
    Or(m4, ShiftRight(m4, 16))
  }

  lemma SmearRun(m: nat, t: nat)
    requires Run(m, t, 1)
    ensures Run(Smear(m), t, 32)
  {
    hide Or, ShiftRight, Run;
    var m1 := Or(m, ShiftRight(m, 1));
    var m2 := Or(m1, ShiftRight(m1, 2));
    var m3 := Or(m2, ShiftRight(m2, 4));
    var m4 := Or(m3, ShiftRight(m3, 8));
    SmearStep(m, t, 1);
    SmearStep(m1, t, 2);
    SmearStep(m2, t, 4);
    SmearStep(m3, t, 8);
    SmearStep(m4, t, 16);
  }

  lemma SmearAll(m: nat)
    requires m < U32_END
    ensures m < 0x8000_0000 ==> LeastPowerAbove(Smear(m) + 1, m + 1) && Smear(m) + 1 <= 0x8000_0000
    ensures m >= 0x8000_0000 ==> Smear(m) + 1 == U32_END
  {
    hide Smear, Bit;
    PowLarge();
    if m == 0 {
      SmearZero();
    } else {
      var t := TopBitOf(m);
      if t >= 32 { PowMonotone(32, t); }
      SmearRun(m, t);
      AllBits(Smear(m), t);
      if m >= 0x8000_0000 {
        if t < 31 { PowMonotone(t + 1, 31); }
      } else {
        PowMonotone(t + 1, 31);
      }
    }
  }

  lemma SmearZero()
    ensures Smear(0) == 0
  {}

  // log2_u32
  method Log2(n: nat, ghost d: nat) returns (r: nat)
    requires n == Pow2(d)
    ensures r == d
  {
    var m := n;
    r := 0;
    while m > 1
      invariant r <= d && m == Pow2(d - r)
    {
      m := m / 2;
      r := r + 1;
    }
  }

  // ---- the tree

  function Leaf<H>(h: Hasher<H>, chunks: seq<seq<Byte>>, j: nat): H {
    if j < |chunks| then h.leaf(chunks[j]) else h.zero
  }

  // The hash at position i of the 1-indexed tree over Pow2(depth) leaves.
  function Node<H>(h: Hasher<H>, chunks: seq<seq<Byte>>, depth: nat, i: nat): H
    requires 1 <= i < 2 * Pow2(depth)
    decreases 2 * Pow2(depth) - i
  {
    if i >= Pow2(depth) then Leaf(h, chunks, i - Pow2(depth))
    else h.node(Node(h, chunks, depth, 2 * i), Node(h, chunks, depth, 2 * i + 1))
  }

  function Sibling(i: nat): nat
    requires i > 1
  {
    if i % 2 == 0 then i + 1 else i - 1
  }

  // The siblings met on the way from position i, which lies `levels` below the root, to the root.
  function Path<H>(h: Hasher<H>, chunks: seq<seq<Byte>>, depth: nat, i: nat, levels: nat): (p: seq<H>)
    requires levels <= depth && Pow2(levels) <= i < 2 * Pow2(levels)
    ensures |p| == levels
  {
    if levels == 0 then []
    else
      PowMonotone(levels, depth);
      assert Pow2(levels) == 2 * Pow2(levels - 1);
      [Node(h, chunks, depth, Sibling(i))] + Path(h, chunks, depth, i / 2, levels - 1)
  }

  // Folding the siblings into a hash, the index choosing the side at each level.
  function Climb<H>(h: Hasher<H>, x: H, proof: seq<H>, idx: nat): H {
    if proof == [] then x
    else Climb(h, if idx % 2 == 0 then h.node(x, proof[0]) else h.node(proof[0], x), proof[1..], idx / 2)
  }

  // ---- completeness

  // Climbing from any node along its own siblings reaches the root.
  lemma {:induction false} ClimbPath<H>(h: Hasher<H>, chunks: seq<seq<Byte>>, depth: nat, levels: nat, idx: nat)
    requires levels <= depth && idx < Pow2(levels)
    ensures Pow2(levels) + idx < 2 * Pow2(depth)
    ensures Climb(h, Node(h, chunks, depth, Pow2(levels) + idx),
                  Path(h, chunks, depth, Pow2(levels) + idx, levels), idx)
            == Node(h, chunks, depth, 1)
  {
    PowMonotone(levels, depth);
    if levels > 0 {
      var i := Pow2(levels) + idx;
      ParentOf(levels, idx);
      hide *;
      PathStep(h, chunks, depth, i, levels);
      NodeUp(h, chunks, depth, i);
      ClimbPath(h, chunks, depth, levels - 1, idx / 2);
      ClimbStep(h, Node(h, chunks, depth, i), Node(h, chunks, depth, Sibling(i)),
                Path(h, chunks, depth, i / 2, levels - 1), idx);
    }
  }

  lemma ParentOf(levels: nat, idx: nat)
    requires levels > 0 && idx < Pow2(levels)
    ensures Pow2(levels) == 2 * Pow2(levels - 1) && idx / 2 < Pow2(levels - 1)
    ensures (Pow2(levels) + idx) / 2 == Pow2(levels - 1) + idx / 2
    ensures (Pow2(levels) + idx) % 2 == idx % 2
  {}

  lemma PathStep<H>(h: Hasher<H>, chunks: seq<seq<Byte>>, depth: nat, i: nat, levels: nat)
    requires 0 < levels <= depth && Pow2(levels) <= i < 2 * Pow2(levels)
    ensures 1 < i < 2 * Pow2(depth) && Sibling(i) < 2 * Pow2(depth)
    ensures Pow2(levels - 1) <= i / 2 < 2 * Pow2(levels - 1)
    ensures Path(h, chunks, depth, i, levels)
            == [Node(h, chunks, depth, Sibling(i))] + Path(h, chunks, depth, i / 2, levels - 1)
  {
    PowMonotone(levels, depth);
    assert Pow2(levels) == 2 * Pow2(levels - 1);
    assert Pow2(depth) == 2 * Pow2(depth - 1);
  }

  lemma ClimbStep<H>(h: Hasher<H>, x: H, s: H, rest: seq<H>, idx: nat)
    ensures Climb(h, x, [s] + rest, idx)
            == Climb(h, if idx % 2 == 0 then h.node(x, s) else h.node(s, x), rest, idx / 2)
  {
    assert ([s] + rest)[1..] == rest;
  }

  // The parent of an inner position combines the node with its sibling, left before right.
  lemma NodeUp<H>(h: Hasher<H>, chunks: seq<seq<Byte>>, depth: nat, i: nat)
    requires 2 <= i < 2 * Pow2(depth)
    ensures Sibling(i) < 2 * Pow2(depth)
    ensures var x, s := Node(h, chunks, depth, i), Node(h, chunks, depth, Sibling(i));
            Node(h, chunks, depth, i / 2) == if i % 2 == 0 then h.node(x, s) else h.node(s, x)
  {
    assert depth > 0;
    assert Pow2(depth) == 2 * Pow2(depth - 1);
  }

  // ---- soundness

  // No two inputs collide, leaves and inner nodes never share a hash, and none is the padding hash.
  ghost predicate Ideal<H(!new)>(h: Hasher<H>) {
    && (forall a: seq<Byte>, b: seq<Byte> :: h.leaf(a) == h.leaf(b) ==> a == b)
    && (forall a: H, b: H, c: H, d: H :: h.node(a, b) == h.node(c, d) ==> a == c && b == d)
    && (forall a: seq<Byte>, b: H, c: H :: h.leaf(a) != h.node(b, c))
    && (forall a: seq<Byte> :: h.leaf(a) != h.zero)
    && (forall a: H, b: H :: h.node(a, b) != h.zero)
  }

  // The last sibling is combined on the side given by the top bit of the index.
  lemma {:induction false} ClimbLast<H>(h: Hasher<H>, x: H, init: seq<H>, s: H, idx: nat)
    ensures Climb(h, x, init + [s], idx) ==
            var y := Climb(h, x, init, idx);
            if Bit(idx, |init|) then h.node(s, y) else h.node(y, s)
  {
    var proof := init + [s];
    if init == [] {
      assert proof[1..] == [];
    } else {
      var x' := if idx % 2 == 0 then h.node(x, init[0]) else h.node(init[0], x);
      assert proof[1..] == init[1..] + [s];
      ClimbLast(h, x', init[1..], s, idx / 2);
    }
  }

  // The position reached from node i by following the low `levels` bits of idx downwards.
  function Descend(i: nat, levels: nat, idx: nat): nat
    decreases levels
  {
    if levels == 0 then i else Descend(2 * i + (if Bit(idx, levels - 1) then 1 else 0), levels - 1, idx)
  }

  // Two different inputs of the hashes with one output, or an input whose output is the padding hash.
  datatype Coincidence<H> =
    | LeafLeaf(u: seq<Byte>, v: seq<Byte>)
    | NodeNode(a: H, b: H, c: H, d: H)
    | LeafNode(u: seq<Byte>, a: H, b: H)
    | LeafZero(u: seq<Byte>)
    | NodeZero(a: H, b: H)

  ghost predicate Real<H>(h: Hasher<H>, w: Coincidence<H>) {
    match w
    case LeafLeaf(u, v) => u != v && h.leaf(u) == h.leaf(v)
    case NodeNode(a, b, c, d) => (a, b) != (c, d) && h.node(a, b) == h.node(c, d)
    case LeafNode(u, a, b) => h.leaf(u) == h.node(a, b)
    case LeafZero(u) => h.leaf(u) == h.zero
    case NodeZero(a, b) => h.node(a, b) == h.zero
  }

  // Whatever climbs to a node is the leaf below it that the index points to, or shows a coincidence.
  lemma {:induction false} ClimbInverse<H>(h: Hasher<H>, chunks: seq<seq<Byte>>, depth: nat,
                                           data: seq<Byte>, proof: seq<H>, idx: nat, i: nat)
    returns (w: Option<Coincidence<H>>)
    requires 1 <= i < 2 * Pow2(depth)
    requires Climb(h, h.leaf(data), proof, idx) == Node(h, chunks, depth, i)
    ensures w.Some? ==> Real(h, w.value)
    ensures w.None? ==> var f := Descend(i, |proof|, idx);
                        Pow2(depth) <= f < Pow2(depth) + |chunks| && chunks[f - Pow2(depth)] == data
    decreases |proof|
  {
    hide Bit;
    if proof == [] {
      w := LeafCase(h, chunks, depth, data, i);
    } else {
      var init, s := proof[..|proof| - 1], proof[|proof| - 1];
      assert proof == init + [s];
      ClimbLast(h, h.leaf(data), init, s, idx);
      var y, right := Climb(h, h.leaf(data), init, idx), Bit(idx, |init|);
      w := NodeCase(h, chunks, depth, if right then s else y, if right then y else s, i);
      if w.None? {
        w := ClimbInverse(h, chunks, depth, data, init, idx, 2 * i + if right then 1 else 0);
      }
    }
  }

  lemma LeafCase<H>(h: Hasher<H>, chunks: seq<seq<Byte>>, depth: nat, data: seq<Byte>, i: nat)
    returns (w: Option<Coincidence<H>>)
    requires 1 <= i < 2 * Pow2(depth) && h.leaf(data) == Node(h, chunks, depth, i)
    ensures w.Some? ==> Real(h, w.value)
    ensures w.None? ==> Pow2(depth) <= i < Pow2(depth) + |chunks| && chunks[i - Pow2(depth)] == data
  {
    var j := i - Pow2(depth);
    w := if j < 0 then Some(LeafNode(data, Node(h, chunks, depth, 2 * i), Node(h, chunks, depth, 2 * i + 1)))
         else if j >= |chunks| then Some(LeafZero(data))
         else if data != chunks[j] then Some(LeafLeaf(data, chunks[j]))
         else None;
  }

  lemma NodeCase<H>(h: Hasher<H>, chunks: seq<seq<Byte>>, depth: nat, a: H, b: H, i: nat)
    returns (w: Option<Coincidence<H>>)
    requires 1 <= i < 2 * Pow2(depth) && h.node(a, b) == Node(h, chunks, depth, i)
    ensures w.Some? ==> Real(h, w.value)
    ensures w.None? ==> i < Pow2(depth) && a == Node(h, chunks, depth, 2 * i) && b == Node(h, chunks, depth, 2 * i + 1)
  {
    var j := i - Pow2(depth);
    if j >= 0 {
      w := if j < |chunks| then Some(LeafNode(chunks[j], a, b)) else Some(NodeZero(a, b));
    } else {
      var c, d := Node(h, chunks, depth, 2 * i), Node(h, chunks, depth, 2 * i + 1);
      w := if (a, b) != (c, d) then Some(NodeNode(a, b, c, d)) else None;
    }
  }

  // The low bits of a number.
  lemma {:induction false} BitMod(idx: nat, n: nat)
    ensures idx % Pow2(n + 1) == idx % Pow2(n) + if Bit(idx, n) then Pow2(n) else 0
  {
    ModHalf(idx, Pow2(n));
    if n > 0 {
      BitMod(idx / 2, n - 1);
      ModHalf(idx, Pow2(n - 1));
    }
  }

  lemma ModHalf(x: nat, m: nat)
    requires m > 0
    ensures x % (2 * m) == 2 * (x / 2 % m) + x % 2
  {
    var q, r := x / 2 / m, x / 2 % m;
    assert x == 2 * (m * q + r) + x % 2;
    assert x == (2 * m) * q + (2 * r + x % 2);
    DivModUnique(x, 2 * m, q, 2 * r + x % 2);
  }

  lemma DoubledPlus(i: int, b: int, p: int)
    ensures (2 * i + b) * p == i * (2 * p) + b * p
  {}

  // Following the index from node i ends at i * 2^levels plus the low bits of the index.
  lemma {:induction false} DescendIs(i: nat, levels: nat, idx: nat)
    ensures Descend(i, levels, idx) == i * Pow2(levels) + idx % Pow2(levels)
    decreases levels
  {
    hide Bit;
    if levels > 0 {
      var b := if Bit(idx, levels - 1) then 1 else 0;
      DescendIs(2 * i + b, levels - 1, idx);
      BitMod(idx, levels - 1);
      DoubledPlus(i, b, Pow2(levels - 1));
    }
  }

  lemma DepthForced(a: nat, b: nat, r: nat)
    requires r < Pow2(a) && Pow2(b) <= Pow2(a) + r < 2 * Pow2(b)
    ensures a == b
  {
    if a < b { PowMonotone(a + 1, b); }
    if a > b { PowMonotone(b + 1, a); }
  }

  // Soundness without any assumption: whatever the verifier accepts against a built root has the true
  // depth and is the chunk at that index (the verifier reads only the low bits of the index), or the
  // proof exhibits a coincidence of the hashes.
  lemma AcceptedOrCoincidence<H>(h: Hasher<H>, chunks: seq<seq<Byte>>, depth: nat,
                                 data: seq<Byte>, proof: seq<H>, idx: nat)
    returns (w: Option<Coincidence<H>>)
    requires |chunks| <= Pow2(depth)
    requires Climb(h, h.leaf(data), proof, idx) == Node(h, chunks, depth, 1)
    ensures w.Some? ==> Real(h, w.value)
    ensures w.None? ==> |proof| == depth && idx % Pow2(depth) < |chunks| && chunks[idx % Pow2(depth)] == data
  {
    w := ClimbInverse(h, chunks, depth, data, proof, idx, 1);
    hide *;
    if w.None? {
      DescendIs(1, |proof|, idx);
      DepthForced(|proof|, depth, idx % Pow2(|proof|));
    }
  }

  // So with ideal hashes, which show none, only the chunk itself is accepted.
  lemma Soundness<H(!new)>(h: Hasher<H>, chunks: seq<seq<Byte>>, depth: nat, data: seq<Byte>, proof: seq<H>, idx: nat)
    requires Ideal(h) && |chunks| <= Pow2(depth)
    requires Climb(h, h.leaf(data), proof, idx) == Node(h, chunks, depth, 1)
    ensures |proof| == depth
    ensures idx % Pow2(depth) < |chunks| && chunks[idx % Pow2(depth)] == data
    ensures idx < |chunks| ==> chunks[idx] == data
  {
    var w := AcceptedOrCoincidence(h, chunks, depth, data, proof, idx);
    assert w.None?;
    hide *;
    if idx < Pow2(depth) { DivModUnique(idx, Pow2(depth), 0, idx); }
  }

  // Without any assumption: two different hashes that climb to the same root at the same index and
  // depth exhibit a collision of the inner hash.
  lemma {:induction false} Collision<H>(h: Hasher<H>, x: H, y: H, p: seq<H>, q: seq<H>, idx: nat)
    returns (a: H, b: H, c: H, d: H)
    requires |p| == |q| && x != y
    requires Climb(h, x, p, idx) == Climb(h, y, q, idx)
    ensures (a, b) != (c, d) && h.node(a, b) == h.node(c, d)
  {
    assert p != [];
    if idx % 2 == 0 {
      a, b, c, d := x, p[0], y, q[0];
    } else {
      a, b, c, d := p[0], x, q[0], y;
    }
    if h.node(a, b) != h.node(c, d) {
      a, b, c, d := Collision(h, h.node(a, b), h.node(c, d), p[1..], q[1..], idx / 2);
    }
  }

  // Two different chunks accepted at the same index and depth give a collision of one of the hashes.
  lemma AcceptedCollision<H(!new)>(h: Hasher<H>, u: seq<Byte>, v: seq<Byte>, p: seq<H>, q: seq<H>, idx: nat)
    requires |p| == |q| && u != v
    requires Climb(h, h.leaf(u), p, idx) == Climb(h, h.leaf(v), q, idx)
    ensures h.leaf(u) == h.leaf(v)
            || exists a: H, b: H, c: H, d: H :: (a, b) != (c, d) && h.node(a, b) == h.node(c, d)
  {
    if h.leaf(u) != h.leaf(v) {
      var a, b, c, d := Collision(h, h.leaf(u), h.leaf(v), p, q, idx);
    }
  }

  // ---- the code

  const MAX_CHUNKS := 0x400_0000

  // The outcome of a successful build: tree positions are the hashes, proofs the sibling paths.
  ghost predicate Proves<H(!new)>(h: Hasher<H>, chunks: seq<seq<Byte>>, depth: nat, proofs: seq<seq<H>>) {
    && |chunks| <= Pow2(depth)
    && |proofs| == |chunks|
    && forall i :: 0 <= i < |chunks| ==> proofs[i] == Path(h, chunks, depth, Pow2(depth) + i, depth)
  }

  ghost predicate TreeFrom<H>(h: Hasher<H>, chunks: seq<seq<Byte>>, depth: nat, tree: array<H>, from: nat)
    reads tree
  {
    && tree.Length == 2 * Pow2(depth)
    && (forall i :: 1 <= from <= i < tree.Length ==> tree[i] == Node(h, chunks, depth, i))
  }

  // Lines 77-95: leaves, padding, then inner nodes from the bottom up.
  method FillTree<H>(h: Hasher<H>, chunks: seq<seq<Byte>>, tree: array<H>, padded: nat, ghost depth: nat)
    requires padded == Pow2(depth) && tree.Length == 2 * padded && |chunks| <= padded
    modifies tree
    ensures TreeFrom(h, chunks, depth, tree, 1)
  {
    for i := 0 to padded
      invariant forall j :: 0 <= j < i ==> tree[padded + j] == Leaf(h, chunks, j)
    {
      if i < |chunks| {
        tree[padded + i] := h.leaf(chunks[i]);
      } else {
        tree[padded + i] := h.zero;
      }
    }
    assert forall i :: padded <= i < 2 * padded ==> tree[i] == tree[padded + (i - padded)];
    var i := padded - 1;
    while i >= 1
      invariant 0 <= i < padded
      invariant TreeFrom(h, chunks, depth, tree, i + 1)
    {
      tree[i] := h.node(tree[2 * i], tree[2 * i + 1]);
      i := i - 1;
    }
  }

  // Lines 120-127: the siblings from leaf i to the root.
  method CollectProof<H>(h: Hasher<H>, chunks: seq<seq<Byte>>, tree: array<H>, padded: nat, depth: nat, i: nat)
    returns (proof: seq<H>)
    requires padded == Pow2(depth) && i < padded && TreeFrom(h, chunks, depth, tree, 1)
    ensures proof == Path(h, chunks, depth, padded + i, depth)
  {
    hide Node, Path, Climb;
    proof := [];
    var n := padded + i;
    ghost var whole := Path(h, chunks, depth, n, depth);
    for d := 0 to depth
      invariant Pow2(depth - d) <= n < 2 * Pow2(depth - d)
      invariant whole == proof + Path(h, chunks, depth, n, depth - d)
    {
      PathStep(h, chunks, depth, n, depth - d);
      PowMonotone(depth - d, depth);
      var sibling := if n % 2 == 0 then n + 1 else n - 1;
      proof := proof + [tree[sibling]];
      n := n / 2;
    }
    PathTop(h, chunks, depth, n);
  }

  lemma PathTop<H>(h: Hasher<H>, chunks: seq<seq<Byte>>, depth: nat, i: nat)
    requires Pow2(0) <= i < 2 * Pow2(0)
    ensures Path(h, chunks, depth, i, 0) == []
  {}

  // rgtp_merkle_build. With proofs requested and a single chunk the empty proof cannot be allocated.
  method Build<H(!new)>(h: Hasher<H>, chunks: seq<seq<Byte>>, withProofs: bool)
    returns (status: Status, root: H, proofs: seq<seq<H>>, depth: nat)
    requires |chunks| <= MAX_CHUNKS
    ensures status == if |chunks| == 0 then InvalidArg else if withProofs && |chunks| == 1 then NoMem else Ok
    ensures |chunks| > 0 ==>
      && |chunks| <= Pow2(depth) && (depth > 0 ==> Pow2(depth - 1) < |chunks|)
      && root == Node(h, chunks, depth, 1)
    ensures status.Ok? && withProofs ==> Proves(h, chunks, depth, proofs)
    ensures !(status.Ok? && withProofs) ==> proofs == []
  {
    hide Node, Path;
    root, proofs, depth := h.zero, [], 0;
    if |chunks| == 0 {
      return InvalidArg, root, proofs, depth;
    }
    var padded := NextPow2(|chunks|);
    ghost var d: nat :| padded == Pow2(d) && |chunks| <= padded && (d > 0 ==> Pow2(d - 1) < |chunks|);
    depth := Log2(padded, d);
    var tree := new H[2 * padded](_ => h.zero);
    FillTree(h, chunks, tree, padded, depth);
    root := tree[1];
    if !withProofs {
      return Ok, root, proofs, depth;
    }
    if depth == 0 {
      assert |chunks| == 1;
      return NoMem, root, proofs, depth;
    }
    assert |chunks| > 1 by { PowMonotone(0, depth - 1); }
    for i := 0 to |chunks|
      invariant |proofs| == i && TreeFrom(h, chunks, depth, tree, 1)
      invariant forall j :: 0 <= j < i ==> proofs[j] == Path(h, chunks, depth, Pow2(depth) + j, depth)
    {
      var proof := CollectProof(h, chunks, tree, padded, depth, i);
      proofs := proofs + [proof];
    }
    return Ok, root, proofs, depth;
  }

  // rgtp_merkle_verify
  method Verify<H(==)>(h: Hasher<H>, data: seq<Byte>, proof: seq<H>, depth: nat, index: nat, root: H)
    returns (status: Status)
    requires depth <= |proof|
    ensures status == if Climb(h, h.leaf(data), proof[..depth], index) == root then Ok else MerkleFail
  {
    var x := h.leaf(data);
    var idx := index;
    for d := 0 to depth
      invariant Climb(h, x, proof[d..depth], idx) == Climb(h, h.leaf(data), proof[..depth], index)
    {
      assert proof[d..depth] == [proof[d]] + proof[d + 1..depth];
      ClimbStep(h, x, proof[d], proof[d + 1..depth], idx);
      if idx % 2 == 0 {
        x := h.node(x, proof[d]);
      } else {
        x := h.node(proof[d], x);
      }
      idx := idx / 2;
    }
    return if x == root then Ok else MerkleFail;
  }

  // Completeness: every precomputed proof is accepted for its own chunk and index.
  lemma Completeness<H(!new)>(h: Hasher<H>, chunks: seq<seq<Byte>>, depth: nat, proofs: seq<seq<H>>, i: nat)
    requires Proves(h, chunks, depth, proofs) && i < |chunks|
    ensures |proofs[i]| == depth
    ensures Climb(h, h.leaf(chunks[i]), proofs[i], i) == Node(h, chunks, depth, 1)
  {
    ClimbPath(h, chunks, depth, depth, i);
  }

  // Build every proof and run the verifier on it.
  method BuildThenVerify<H(==, !new)>(h: Hasher<H>, chunks: seq<seq<Byte>>, i: nat) returns (status: Status)
    requires 2 <= |chunks| <= MAX_CHUNKS && i < |chunks|
    ensures status.Ok?
  {
    var built, root, proofs, depth := Build(h, chunks, true);
    Completeness(h, chunks, depth, proofs, i);
    assert proofs[i][..depth] == proofs[i];
    status := Verify(h, chunks[i], proofs[i], depth, i, root);
  }
}

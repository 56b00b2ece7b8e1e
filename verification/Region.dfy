// The region-multiply kernels of src/fec/rgtp_rs_simd.c: dst[i] ^= c * src[i].
// Vector registers are sequences of 16 or 32 bytes; src and dst may be the same buffer.
module Region {
  import opened Bits
  import opened Field
  import opened GF256

  // ---- the nibble split

  // Bits that do not overlap: exclusive or is addition.
  lemma {:induction false} XorDisjoint(a: nat, b: nat, k: nat)
    requires a < Pow2(k)
    ensures Xor(a, Pow2(k) * b) == a + Pow2(k) * b
  {
    if k == 0 {
      assert a == 0;
      XorZero(b);
    } else {
      var p := Pow2(k - 1);
      assert Pow2(k) == 2 * p;
      XorDisjoint(a / 2, b, k - 1);
      hide *;
      DoubleProduct(p, b);
      XorJoin(a / 2, p * b, a % 2, 0);
    }
  }

  lemma DoubleProduct(p: nat, b: nat)
    ensures (2 * p) * b == 2 * (p * b)
  {}

  // c * x == c * low nibble + c * high nibble
  lemma NibbleProduct(c: Byte, x: Byte)
    ensures Mul(c, x) == Add(Mul(c, x % 16), Mul(c, 16 * (x / 16)))
  {
    hide Mul, Xor;
    assert Pow2(4) == 16;
    XorDisjoint(x % 16, x / 16, 4);
    assert Add(x % 16, 16 * (x / 16)) == x;
    MulAddRight(c, x % 16, 16 * (x / 16));
  }

  // ---- vector operations

  type Vector = seq<Byte>

  // _mm_and_si128 with 0x0F in every byte
  function MaskLow(v: Vector): Vector {
    seq(|v|, i requires 0 <= i < |v| => v[i] % 16)
  }

  // The two bytes of a 16-bit little-endian lane after shifting the lane right by 4.
  function LaneLow(a: Byte, b: Byte): Byte { (a as int + 256 * b as int) / 16 % 256 }

  function LaneHigh(a: Byte, b: Byte): Byte { (a as int + 256 * b as int) / 16 / 256 }

  // _mm_srli_epi16 by 4: bits cross between the two bytes of a lane
  function ShiftLanes(v: Vector): (r: Vector)
    requires |v| % 2 == 0
    ensures |r| == |v|
  {
    seq(|v|, i requires 0 <= i < |v| =>
      if i % 2 == 0 then LaneLow(v[i], v[i + 1]) else LaneHigh(v[i - 1], v[i]))
  }

  // vshrq_n_u8 by 4
  function ShiftBytes(v: Vector): Vector {
    seq(|v|, i requires 0 <= i < |v| => v[i] / 16)
  }

  // _mm_shuffle_epi8: an index with its top bit set gives zero
  function Shuffle(table: Vector, index: Vector): (r: Vector)
    requires |table| == 16
    ensures |r| == |index|
  {
    seq(|index|, i requires 0 <= i < |index| => if index[i] >= 128 then 0 else table[index[i] % 16])
  }

  // vqtbl1q_u8: an index outside the table gives zero
  function TableLookup(table: Vector, index: Vector): (r: Vector)
    requires |table| == 16
    ensures |r| == |index|
  {
    seq(|index|, i requires 0 <= i < |index| => if index[i] >= 16 then 0 else table[index[i]])
  }

  function XorVector(a: Vector, b: Vector): (r: Vector)
    requires |a| == |b|
    ensures |r| == |a|
  {
    seq(|a|, i requires 0 <= i < |a| => Add(a[i], b[i]))
  }

  // After masking, the lane shift leaves exactly the high nibbles.
  lemma LaneShiftIsHighNibble(v: Vector)
    requires |v| % 2 == 0
    ensures MaskLow(ShiftLanes(v)) == ShiftBytes(v)
  {
    hide LaneLow, LaneHigh;
    forall i | 0 <= i < |v| ensures ShiftLanes(v)[i] % 16 == v[i] / 16 {
      if i % 2 == 0 { LaneNibbles(v[i], v[i + 1]); } else { LaneNibbles(v[i - 1], v[i]); }
    }
  }

  lemma LaneNibbles(a: Byte, b: Byte)
    ensures LaneLow(a, b) % 16 == a / 16 && LaneHigh(a, b) % 16 == b / 16
  {
    assert (a as int + 256 * b as int) / 16 == a / 16 + 16 * b as int;
    assert (a / 16 + 16 * b as int) / 256 == b / 16;
  }

  // ---- the kernels

  ghost predicate IsTables(c: Byte, lo: Vector, hi: Vector) {
    && |lo| == |hi| == 16
    && (forall i :: 0 <= i < 16 ==> lo[i] == Mul(c, i))
    && (forall i :: 0 <= i < 16 ==> hi[i] == Mul(c, 16 * i))
  }

  // dst has been updated below i and nothing else has changed.
  ghost predicate Progress(c: Byte, src: array<Byte>, dst: array<Byte>, src0: Vector, dst0: Vector, i: int)
    reads src, dst
  {
    && |src0| == src.Length && |dst0| == dst.Length && 0 <= i <= |src0| && i <= |dst0|
    && (forall j :: 0 <= j < i ==> dst[j] == Add(dst0[j], Mul(c, src0[j])))
    && (forall j :: i <= j < |dst0| ==> dst[j] == dst0[j])
    && (forall j :: i <= j < |src0| ==> src[j] == src0[j])
  }

  // What every kernel must leave in dst.
  ghost predicate Multiplied(c: Byte, src0: Vector, dst0: Vector, dst: Vector, len: nat) {
    && |dst| == |dst0| && len <= |src0| && len <= |dst|
    && (forall j :: 0 <= j < len ==> dst[j] == Add(dst0[j], Mul(c, src0[j])))
    && (forall j :: len <= j < |dst| ==> dst[j] == dst0[j])
  }

  method NibbleTables(gf: Tables, c: Byte) returns (lo: Vector, hi: Vector)
    requires gf.Ready()
    ensures IsTables(c, lo, hi)
  {
    hide Mul;
    lo, hi := [], [];
    for i := 0 to 16
      invariant |lo| == |hi| == i
      invariant forall j :: 0 <= j < i ==> lo[j] == Mul(c, j)
      invariant forall j :: 0 <= j < i ==> hi[j] == Mul(c, 16 * j)
    {
      lo := lo + [gf.Mul(c, i)];
      hi := hi + [gf.Mul(c, 16 * i)];
    }
  }

  method StoreBlock(dst: array<Byte>, at: nat, block: Vector)
    requires at + |block| <= dst.Length
    modifies dst
    ensures forall j :: 0 <= j < dst.Length ==>
              dst[j] == if at <= j < at + |block| then block[j - at] else old(dst[j])
  {
    for i := 0 to |block|
      invariant forall j :: 0 <= j < dst.Length ==>
        dst[j] == if at <= j < at + i then block[j - at] else old(dst[j])
    {
      dst[at + i] := block[i];
    }
  }

  // The lookups give c * v, byte by byte.
  lemma LookupProduct(c: Byte, lo: Vector, hi: Vector, v: Vector)
    requires IsTables(c, lo, hi)
    ensures forall i :: 0 <= i < |v| ==>
      XorVector(Shuffle(lo, MaskLow(v)), Shuffle(hi, ShiftBytes(v)))[i] == Mul(c, v[i])
    ensures TableLookup(lo, MaskLow(v)) == Shuffle(lo, MaskLow(v))
    ensures TableLookup(hi, ShiftBytes(v)) == Shuffle(hi, ShiftBytes(v))
  {
    hide Mul, Add;
    forall i | 0 <= i < |v|
      ensures XorVector(Shuffle(lo, MaskLow(v)), Shuffle(hi, ShiftBytes(v)))[i] == Mul(c, v[i])
    {
      NibbleProduct(c, v[i]);
    }
  }

  // One x86 block of width 16 or 32; a 32-byte register holds the tables twice, so both halves
  // shuffle alike.
  method X86Block(c: Byte, lo: Vector, hi: Vector, src: array<Byte>, dst: array<Byte>,
                  i: nat, width: nat, ghost src0: Vector, ghost dst0: Vector)
    requires IsTables(c, lo, hi) && width % 2 == 0
    requires Progress(c, src, dst, src0, dst0, i) && i + width <= src.Length && i + width <= dst.Length
    modifies dst
    ensures Progress(c, src, dst, src0, dst0, i + width)
  {
    hide Mul, Add, XorVector;
    var v, d := src[i..i + width], dst[i..i + width];
    var low := MaskLow(v);
    var high := MaskLow(ShiftLanes(v));
    LaneShiftIsHighNibble(v);
    LookupProduct(c, lo, hi, v);
    var res := XorVector(Shuffle(lo, low), Shuffle(hi, high));
    BlockResult(c, v, d, res);
    StoreBlock(dst, i, XorVector(d, res));
  }

  lemma BlockResult(c: Byte, v: Vector, d: Vector, res: Vector)
    requires |v| == |d| == |res| && forall i :: 0 <= i < |v| ==> res[i] == Mul(c, v[i])
    ensures forall i :: 0 <= i < |v| ==> XorVector(d, res)[i] == Add(d[i], Mul(c, v[i]))
  {}

  method NeonBlock(c: Byte, lo: Vector, hi: Vector, src: array<Byte>, dst: array<Byte>,
                   i: nat, ghost src0: Vector, ghost dst0: Vector)
    requires IsTables(c, lo, hi)
    requires Progress(c, src, dst, src0, dst0, i) && i + 16 <= src.Length && i + 16 <= dst.Length
    modifies dst
    ensures Progress(c, src, dst, src0, dst0, i + 16)
  {
    hide Mul, Add, XorVector;
    var v, d := src[i..i + 16], dst[i..i + 16];
    var low := MaskLow(v);
    var high := MaskLow(ShiftBytes(v));
    assert high == ShiftBytes(v);
    LookupProduct(c, lo, hi, v);
    var res := XorVector(TableLookup(lo, low), TableLookup(hi, high));
    BlockResult(c, v, d, res);
    StoreBlock(dst, i, XorVector(d, res));
  }

  // The scalar loop, which is also the tail of every vector kernel.
  method ScalarFrom(gf: Tables, c: Byte, src: array<Byte>, dst: array<Byte>, start: nat, len: nat,
                    ghost src0: Vector, ghost dst0: Vector)
    requires gf.Ready() && dst != gf.exp && dst != gf.log
    requires start <= len <= src.Length && len <= dst.Length
    requires Progress(c, src, dst, src0, dst0, start)
    modifies dst
    ensures gf.Ready() && Multiplied(c, src0, dst0, dst[..], len)
  {
    hide Mul, Add;
    for i := start to len
      invariant gf.Ready() && Progress(c, src, dst, src0, dst0, i)
    {
      dst[i] := Add(dst[i], gf.Mul(c, src[i]));
    }
  }

  // The shortcuts for c == 0 and c == 1.
  method Shortcut(c: Byte, src: array<Byte>, dst: array<Byte>, len: nat) returns (done: bool)
    requires len <= src.Length && len <= dst.Length
    modifies dst
    ensures done <==> c <= 1
    ensures done ==> Multiplied(c, old(src[..]), old(dst[..]), dst[..], len)
    ensures !done ==> dst[..] == old(dst[..])
  {
    hide Mul, Add;
    ghost var src0, dst0 := src[..], dst[..];
    if c == 0 {
      forall j | 0 <= j < len ensures dst0[j] == Add(dst0[j], Mul(0, src0[j])) {
        MulZero(src0[j]);
        AddLaws(dst0[j], 0, 0);
      }
      return true;
    }
    if c == 1 {
      for i := 0 to len
        invariant Progress(c, src, dst, src0, dst0, i)
      {
        MulOne(src[i]);
        dst[i] := Add(dst[i], src[i]);
      }
      return true;
    }
    return false;
  }

  // rgtp_gf_mul_region_scalar
  method Scalar(gf: Tables, c: Byte, src: array<Byte>, dst: array<Byte>, len: nat)
    requires gf.Ready() && dst != gf.exp && dst != gf.log
    requires len <= src.Length && len <= dst.Length
    modifies dst
    ensures gf.Ready() && Multiplied(c, old(src[..]), old(dst[..]), dst[..], len)
  {
    hide Multiplied;
    var done := Shortcut(c, src, dst, len);
    if !done {
      ScalarFrom(gf, c, src, dst, 0, len, old(src[..]), old(dst[..]));
    }
  }

  method X86Blocks(gf: Tables, c: Byte, lo: Vector, hi: Vector, src: array<Byte>, dst: array<Byte>,
                   start: nat, len: nat, width: nat, ghost src0: Vector, ghost dst0: Vector) returns (i: nat)
    requires gf.Ready() && dst != gf.exp && dst != gf.log
    requires IsTables(c, lo, hi) && width > 0 && width % 2 == 0
    requires start <= len <= src.Length && len <= dst.Length && Progress(c, src, dst, src0, dst0, start)
    modifies dst
    ensures gf.Ready() && start <= i <= len && Progress(c, src, dst, src0, dst0, i)
  {
    hide Progress, IsTables;
    i := start;
    while i + width <= len
      invariant start <= i <= len
      invariant gf.Ready() && Progress(c, src, dst, src0, dst0, i)
    {
      X86Block(c, lo, hi, src, dst, i, width, src0, dst0);
      i := i + width;
    }
  }

  // rgtp_gf_mul_region_sse42
  method Sse42(gf: Tables, c: Byte, src: array<Byte>, dst: array<Byte>, len: nat)
    requires gf.Ready() && dst != gf.exp && dst != gf.log
    requires len <= src.Length && len <= dst.Length
    modifies dst
    ensures gf.Ready() && Multiplied(c, old(src[..]), old(dst[..]), dst[..], len)
  {
    hide Multiplied, IsTables;
    ghost var src0, dst0 := src[..], dst[..];
    var done := Shortcut(c, src, dst, len);
    if !done {
      var lo, hi := NibbleTables(gf, c);
      var i := X86Blocks(gf, c, lo, hi, src, dst, 0, len, 16, src0, dst0);
      ScalarFrom(gf, c, src, dst, i, len, src0, dst0);
    }
  }

  // rgtp_gf_mul_region_avx2: 32-byte blocks, then 16-byte blocks, then single bytes
  method Avx2(gf: Tables, c: Byte, src: array<Byte>, dst: array<Byte>, len: nat)
    requires gf.Ready() && dst != gf.exp && dst != gf.log
    requires len <= src.Length && len <= dst.Length
    modifies dst
    ensures gf.Ready() && Multiplied(c, old(src[..]), old(dst[..]), dst[..], len)
  {
    hide Multiplied, IsTables;
    ghost var src0, dst0 := src[..], dst[..];
    var done := Shortcut(c, src, dst, len);
    if !done {
      var lo, hi := NibbleTables(gf, c);
      var i := X86Blocks(gf, c, lo, hi, src, dst, 0, len, 32, src0, dst0);
      i := X86Blocks(gf, c, lo, hi, src, dst, i, len, 16, src0, dst0);
      ScalarFrom(gf, c, src, dst, i, len, src0, dst0);
    }
  }

  // rgtp_gf_mul_region_neon
  method Neon(gf: Tables, c: Byte, src: array<Byte>, dst: array<Byte>, len: nat)
    requires gf.Ready() && dst != gf.exp && dst != gf.log
    requires len <= src.Length && len <= dst.Length
    modifies dst
    ensures gf.Ready() && Multiplied(c, old(src[..]), old(dst[..]), dst[..], len)
  {
    hide Multiplied, IsTables;
    ghost var src0, dst0 := src[..], dst[..];
    var done := Shortcut(c, src, dst, len);
    if !done {
      var lo, hi := NibbleTables(gf, c);
      var i := 0;
      while i + 16 <= len
        invariant 0 <= i <= len
        invariant gf.Ready() && Progress(c, src, dst, src0, dst0, i)
      {
        NeonBlock(c, lo, hi, src, dst, i, src0, dst0);
        i := i + 16;
      }
      ScalarFrom(gf, c, src, dst, i, len, src0, dst0);
    }
  }
}

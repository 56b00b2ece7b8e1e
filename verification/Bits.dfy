// Bytes as integers, bitwise exclusive or, and the group laws it obeys.
module Bits {

  type Byte = x: int | 0 <= x < 256

  // The values of C's fixed-width unsigned integers lie below these.
  const U16_END := 0x1_0000
  const U32_END := 0x1_0000_0000
  const U64_END := 0x1_0000_0000_0000_0000

  function Max(a: int, b: int): int { if a > b then a else b }

  function Min(a: int, b: int): int { if a < b then a else b }

  // ---- division

  lemma Distribute(d: nat, a: nat, b: nat)
    ensures d * (a + b) == d * a + d * b
  {}

  lemma SmallMultiple(m: int, d: int)
    requires m > 0
    ensures d >= 1 ==> m * d >= m
    ensures d <= -1 ==> m * d <= -m
  {}

  lemma DivModUnique(a: nat, m: nat, q: nat, r: nat)
    requires m > 0 && a == m * q + r && r < m
    ensures a / m == q && a % m == r
  {
    var d := a / m - q;
    assert m * d == r - a % m;
    if d >= 1 || d <= -1 { SmallMultiple(m, d); }
  }

  // A 32-bit number from its four bytes.
  lemma FourDigits(i: nat)
    requires i < U32_END
    ensures i == i % 0x100 + 0x100 * (i / 0x100 % 0x100) + 0x1_0000 * (i / 0x1_0000 % 0x100)
                 + 0x100_0000 * (i / 0x100_0000 % 0x100)
  {
    assert i / 0x1_0000 == i / 0x100 / 0x100 && i / 0x100_0000 == i / 0x1_0000 / 0x100;
    assert i / 0x100_0000 < 0x100;
  }

  // ---- bitwise exclusive or

  function Xor(a: nat, b: nat): nat {
    if a == 0 && b == 0 then 0
    else (a + b) % 2 + 2 * Xor(a / 2, b / 2)
  }

  function Pow2(k: nat): (p: nat)
    ensures p > 0
  {
    if k == 0 then 1 else 2 * Pow2(k - 1)
  }

  lemma {:induction false} PowMonotone(a: nat, b: nat)
    requires a <= b
    ensures Pow2(a) <= Pow2(b)
  {
    if a < b { PowMonotone(a, b - 1); }
  }

  lemma PowLarge()
    ensures Pow2(0) == 1 && Pow2(26) == 0x400_0000 && Pow2(31) == 0x8000_0000 && Pow2(32) == U32_END
  {
    assert Pow2(8) == 0x100;
    assert Pow2(16) == 0x1_0000;
    assert Pow2(24) == 0x100_0000;
    assert Pow2(31) == 0x8000_0000;
  }

  lemma {:induction false} XorBound(a: nat, b: nat, k: nat)
    requires a < Pow2(k) && b < Pow2(k)
    ensures Xor(a, b) < Pow2(k)
  {
    if k > 0 { XorBound(a / 2, b / 2, k - 1); }
  }

  lemma XorStep(a: nat, b: nat)
    ensures Xor(a, b) == (a + b) % 2 + 2 * Xor(a / 2, b / 2)
  {}

  lemma HalfOf(r: nat, q: nat)
    requires r < 2
    ensures (r + 2 * q) % 2 == r && (r + 2 * q) / 2 == q
  {}

  lemma XorHalf(a: nat, b: nat)
    ensures Xor(a, b) % 2 == (a + b) % 2
    ensures Xor(a, b) / 2 == Xor(a / 2, b / 2)
  {
    hide *;
    XorStep(a, b);
    HalfOf((a + b) % 2, Xor(a / 2, b / 2));
  }

  lemma {:induction false} XorComm(a: nat, b: nat)
    ensures Xor(a, b) == Xor(b, a)
  {
    if a != 0 || b != 0 { XorComm(a / 2, b / 2); }
  }

  lemma ParityAssoc(x: nat, y: nat, a: nat, b: nat, c: nat)
    requires x % 2 == (a + b) % 2 && y % 2 == (b + c) % 2
    ensures (x + c) % 2 == (a + y) % 2
  {}

  lemma {:induction false} XorAssoc(a: nat, b: nat, c: nat)
    ensures Xor(Xor(a, b), c) == Xor(a, Xor(b, c))
    decreases a + b + c
  {
    hide *;
    if a + b + c > 0 {
      calc {
        Xor(Xor(a, b), c);
        { XorStep(Xor(a, b), c); XorHalf(a, b); }
        (Xor(a, b) + c) % 2 + 2 * Xor(Xor(a / 2, b / 2), c / 2);
        { XorAssoc(a / 2, b / 2, c / 2);
          XorHalf(a, b); XorHalf(b, c); ParityAssoc(Xor(a, b), Xor(b, c), a, b, c); }
        (a + Xor(b, c)) % 2 + 2 * Xor(a / 2, Xor(b / 2, c / 2));
        { XorStep(a, Xor(b, c)); XorHalf(b, c); }
        Xor(a, Xor(b, c));
      }
    } else {
      XorZero(0);
    }
  }

  lemma {:induction false} XorSelf(a: nat)
    ensures Xor(a, a) == 0
  {
    if a != 0 { XorSelf(a / 2); }
  }

  lemma {:induction false} XorZero(a: nat)
    ensures Xor(a, 0) == a && Xor(0, a) == a
  {
    if a != 0 { XorZero(a / 2); }
  }

  lemma SubEven(a: nat, p: nat)
    requires 2 * p <= a
    ensures (a - 2 * p) / 2 == a / 2 - p
  {}

  // Bit k, set in a alone, is carried over to the exclusive or.
  lemma {:induction false} OneTopBit(a: nat, b: nat, k: nat)
    requires Pow2(k) <= a < 2 * Pow2(k) && b < Pow2(k)
    ensures Xor(a, b) == Pow2(k) + Xor(a - Pow2(k), b)
  {
    if k == 0 {
      assert a == 1 && b == 0;
    } else {
      var p := Pow2(k - 1);
      assert p <= a / 2 < 2 * p && b / 2 < p;
      hide *;
      OneTopBit(a / 2, b / 2, k - 1);
      XorStep(a, b);
      XorStep(a - 2 * p, b);
      SubEven(a, p);
      HalfOf((a + b) % 2, (a + b) / 2 - p);
    }
  }

  // Bit k, set in both, is cleared by the exclusive or.
  lemma TopBit(a: nat, b: nat, k: nat)
    requires Pow2(k) <= a < 2 * Pow2(k) && Pow2(k) <= b < 2 * Pow2(k)
    ensures Xor(a, b) == Xor(a - Pow2(k), b - Pow2(k))
  {
    hide Xor;
    var p := Pow2(k);
    var x, y := a - p, b - p;
    OneTopBit(p, x, k);
    OneTopBit(p, y, k);
    XorZero(x);
    XorZero(y);
    calc {
      Xor(a, b);
      Xor(Xor(p, x), Xor(p, y));
      { XorComm(p, x); XorAssoc(x, p, Xor(p, y)); XorAssoc(p, p, y); XorSelf(p); }
      Xor(x, y);
    }
  }

  lemma {:induction false} XorTwice(a: nat, b: nat)
    ensures Xor(2 * a, 2 * b) == 2 * Xor(a, b)
  {
    hide *;
    XorStep(2 * a, 2 * b);
    HalfOf(0, a);
    HalfOf(0, b);
    HalfOf(0, a + b);
  }

  lemma {:induction false} XorTop(a: nat, b: nat, k: nat)
    requires a < 2 * Pow2(k) && b < 2 * Pow2(k)
    ensures Xor(a, b) >= Pow2(k) <==> (a >= Pow2(k)) != (b >= Pow2(k))
  {
    XorStep(a, b);
    if k > 0 {
      XorTop(a / 2, b / 2, k - 1);
    }
  }

  // Addition, and subtraction.
  function Add(a: Byte, b: Byte): Byte {
    assert Pow2(8) == 256;
    XorBound(a, b, 8);
    Xor(a, b)
  }

  // ---- the additive group

  lemma AddLaws(a: Byte, b: Byte, c: Byte)
    ensures Add(a, b) == Add(b, a)
    ensures Add(Add(a, b), c) == Add(a, Add(b, c))
    ensures Add(a, 0) == a && Add(0, a) == a && Add(a, a) == 0
  {
    hide Xor;
    XorComm(a, b);
    XorAssoc(a, b, c);
    XorZero(a);
    XorSelf(a);
  }

  // (a + b) + (c + d) == (a + c) + (b + d)
  lemma AddSwap(a: Byte, b: Byte, c: Byte, d: Byte)
    ensures Add(Add(a, b), Add(c, d)) == Add(Add(a, c), Add(b, d))
  {
    hide *;
    calc {
      Add(Add(a, b), Add(c, d));
      { AddLaws(a, b, Add(c, d)); }
      Add(a, Add(b, Add(c, d)));
      { AddLaws(b, c, d); AddLaws(c, b, d); }
      Add(a, Add(c, Add(b, d)));
      { AddLaws(a, c, Add(b, d)); }
      Add(Add(a, c), Add(b, d));
    }
  }

  lemma AddCancel(a: Byte, b: Byte)
    ensures Add(a, Add(a, b)) == b
    ensures Add(a, b) == 0 <==> a == b
  {
    hide *;
    AddLaws(a, a, b);
    AddLaws(b, 0, 0);
    AddLaws(a, 0, 0);
  }

  // ---- evaluating exclusive or on literals

  function Append(x: nat, b: bool): nat { 2 * x + if b then 1 else 0 }

  lemma ParityJoin(x: nat, y: nat, r: nat, s: nat)
    requires r < 2 && s < 2
    ensures (2 * x + r + (2 * y + s)) % 2 == if r == s then 0 else 1
  {
    if r == 1 && s == 1 { HalfOf(0, x + y + 1); } else { HalfOf(r + s, x + y); }
  }

  lemma XorJoin(x: nat, y: nat, r: nat, s: nat)
    requires r < 2 && s < 2
    ensures Xor(2 * x + r, 2 * y + s) == 2 * Xor(x, y) + if r == s then 0 else 1
  {
    hide *;
    XorStep(2 * x + r, 2 * y + s);
    HalfOf(r, x);
    HalfOf(s, y);
    ParityJoin(x, y, r, s);
  }

  lemma XorAppend(x: nat, y: nat, b: bool, c: bool)
    ensures Xor(Append(x, b), Append(y, c)) == Append(Xor(x, y), b != c)
  {
    hide Xor;
    XorJoin(x, y, if b then 1 else 0, if c then 1 else 0);
  }

  function ByteOf(b7: bool, b6: bool, b5: bool, b4: bool, b3: bool, b2: bool, b1: bool, b0: bool): nat {
    Append(Append(Append(Append(Append(Append(Append(Append(0, b7), b6), b5), b4), b3), b2), b1), b0)
  }

  lemma AddByte(a7: bool, a6: bool, a5: bool, a4: bool, a3: bool, a2: bool, a1: bool, a0: bool,
                b7: bool, b6: bool, b5: bool, b4: bool, b3: bool, b2: bool, b1: bool, b0: bool)
    ensures ByteOf(a7, a6, a5, a4, a3, a2, a1, a0) < 256 && ByteOf(b7, b6, b5, b4, b3, b2, b1, b0) < 256
    ensures Add(ByteOf(a7, a6, a5, a4, a3, a2, a1, a0), ByteOf(b7, b6, b5, b4, b3, b2, b1, b0))
            == ByteOf(a7 != b7, a6 != b6, a5 != b5, a4 != b4, a3 != b3, a2 != b2, a1 != b1, a0 != b0)
  {
    BitsBound(a7, a6, a5, a4, a3, a2, a1, a0);
    BitsBound(b7, b6, b5, b4, b3, b2, b1, b0);
    hide Xor, Append;
    var x7, y7 := Append(0, a7), Append(0, b7);
    var x6, y6 := Append(x7, a6), Append(y7, b6);
    var x5, y5 := Append(x6, a5), Append(y6, b5);
    var x4, y4 := Append(x5, a4), Append(y5, b4);
    var x3, y3 := Append(x4, a3), Append(y4, b3);
    var x2, y2 := Append(x3, a2), Append(y3, b2);
    var x1, y1 := Append(x2, a1), Append(y2, b1);
    XorZero(0);
    XorAppend(0, 0, a7, b7);
    XorAppend(x7, y7, a6, b6);
    XorAppend(x6, y6, a5, b5);
    XorAppend(x5, y5, a4, b4);
    XorAppend(x4, y4, a3, b3);
    XorAppend(x3, y3, a2, b2);
    XorAppend(x2, y2, a1, b1);
    XorAppend(x1, y1, a0, b0);
  }

  lemma BitsBound(b7: bool, b6: bool, b5: bool, b4: bool, b3: bool, b2: bool, b1: bool, b0: bool)
    ensures ByteOf(b7, b6, b5, b4, b3, b2, b1, b0) < 256
  {}

  // ---- single bits and bitwise or

  function Or(a: nat, b: nat): nat {
    if a == 0 && b == 0 then 0
    else (if a % 2 == 1 || b % 2 == 1 then 1 else 0) + 2 * Or(a / 2, b / 2)
  }

  predicate Bit(m: nat, i: nat) {
    if i == 0 then m % 2 == 1 else Bit(m / 2, i - 1)
  }

  lemma {:induction false} BitOr(a: nat, b: nat, i: nat)
    ensures Bit(Or(a, b), i) <==> Bit(a, i) || Bit(b, i)
  {
    var low := if a % 2 == 1 || b % 2 == 1 then 1 else 0;
    assert Or(a, b) == low + 2 * Or(a / 2, b / 2);
    HalfOf(low, Or(a / 2, b / 2));
    if i > 0 { BitOr(a / 2, b / 2, i - 1); }
  }

  lemma {:induction false} ZeroBits(i: nat)
    ensures !Bit(0, i)
  {
    if i > 0 { ZeroBits(i - 1); }
  }

  lemma {:induction false} PowBits(i: nat, j: nat)
    ensures Bit(Pow2(i), j) <==> i == j
  {
    if i == 0 {
      if j > 0 { ZeroBits(j - 1); }
    } else if j > 0 {
      PowBits(i - 1, j - 1);
    }
  }

  lemma {:induction false} OrBound(a: nat, b: nat, k: nat)
    requires a < Pow2(k) && b < Pow2(k)
    ensures Or(a, b) < Pow2(k)
  {
    if k > 0 { OrBound(a / 2, b / 2, k - 1); }
  }
}

// Arithmetic of GF(2^8) modulo x^8 + x^4 + x^3 + x^2 + 1 (0x11D) on integers: addition is
// exclusive or, multiplication is shift-and-reduce. This is the reference that the
// table-driven code of module GF256 is proved against.
module Field {
  import opened Bits

  // ---- the field operations

  // Multiplication by x, the element 2: shift left, then reduce when bit 8 appears.
  function Double(a: Byte): Byte {
    if a < 128 then 2 * a else ReduceBound(a); Xor(2 * a, 0x11d)
  }

  lemma ReduceBound(a: nat)
    requires 128 <= a < 256
    ensures Xor(2 * a, 0x11d) < 256
    ensures Xor(2 * a, 0x11d) == Xor(2 * a - 256, 0x1d)
  {
    TopBit(2 * a, 0x11d, 8);
    assert Pow2(8) == 256;
    XorBound(2 * a - 256, 0x1d, 8);
  }

  function Mul(a: Byte, b: Byte): Byte
    decreases b
  {
    if b == 0 then 0
    else Add(if b % 2 == 1 then a else 0, Mul(Double(a), b / 2))
  }

  // ---- multiplication is linear in each argument

  function Carry(a: Byte): Byte { if a < 128 then 0 else 0x1d }

  function Shift(a: Byte): Byte { if a < 128 then 2 * a else 2 * a - 256 }

  lemma DoubleSplit(a: Byte)
    ensures Double(a) == Add(Shift(a), Carry(a))
  {
    hide Xor;
    if a < 128 { XorZero(2 * a); } else { ReduceBound(a); }
  }

  lemma ShiftLinear(a: Byte, b: Byte)
    ensures Shift(Add(a, b)) == Add(Shift(a), Shift(b))
    ensures Carry(Add(a, b)) == Add(Carry(a), Carry(b))
  {
    hide Xor;
    assert Pow2(7) == 128;
    assert Pow2(8) == 256;
    XorTop(a, b, 7);
    XorTwice(a, b);
    XorZero(0x1d);
    XorSelf(0x1d);
    XorZero(0);
    if a >= 128 && b >= 128 {
      TopBit(2 * a, 2 * b, 8);
    } else if a >= 128 {
      OneTopBit(2 * a, 2 * b, 8);
    } else if b >= 128 {
      OneTopBit(2 * b, 2 * a, 8);
      XorComm(2 * a, 2 * b);
      XorComm(2 * a, 2 * b - 256);
    }
  }

  lemma DoubleLinear(a: Byte, b: Byte)
    ensures Double(Add(a, b)) == Add(Double(a), Double(b))
  {
    hide *;
    calc {
      Double(Add(a, b));
      { DoubleSplit(Add(a, b)); }
      Add(Shift(Add(a, b)), Carry(Add(a, b)));
      { ShiftLinear(a, b); }
      Add(Add(Shift(a), Shift(b)), Add(Carry(a), Carry(b)));
      { AddSwap(Shift(a), Shift(b), Carry(a), Carry(b)); }
      Add(Add(Shift(a), Carry(a)), Add(Shift(b), Carry(b)));
      { DoubleSplit(a); DoubleSplit(b); }
      Add(Double(a), Double(b));
    }
  }

  // The contribution of bit 0 of b to a * b.
  function Low(a: Byte, b: Byte): Byte { if b % 2 == 1 then a else 0 }

  lemma MulStep(a: Byte, b: Byte)
    ensures Mul(a, b) == Add(Low(a, b), Mul(Double(a), b / 2))
    ensures Mul(a, 0) == 0
  {
    hide Add, Double;
    AddLaws(0, 0, 0);
  }

  lemma {:induction false} MulAddLeft(a: Byte, b: Byte, c: Byte)
    ensures Mul(Add(a, b), c) == Add(Mul(a, c), Mul(b, c))
    decreases c
  {
    hide *;
    if c == 0 {
      MulStep(a, 0); MulStep(b, 0); MulStep(Add(a, b), 0); AddLaws(0, 0, 0);
    } else {
      var da, db := Double(a), Double(b);
      calc {
        Mul(Add(a, b), c);
        { MulStep(Add(a, b), c); DoubleLinear(a, b); }
        Add(Low(Add(a, b), c), Mul(Add(da, db), c / 2));
        { MulAddLeft(da, db, c / 2); LowLinear(a, b, c); }
        Add(Add(Low(a, c), Low(b, c)), Add(Mul(da, c / 2), Mul(db, c / 2)));
        { AddSwap(Low(a, c), Low(b, c), Mul(da, c / 2), Mul(db, c / 2)); }
        Add(Add(Low(a, c), Mul(da, c / 2)), Add(Low(b, c), Mul(db, c / 2)));
        { MulStep(a, c); MulStep(b, c); }
        Add(Mul(a, c), Mul(b, c));
      }
    }
  }

  lemma LowLinear(a: Byte, b: Byte, c: Byte)
    ensures Low(Add(a, b), c) == Add(Low(a, c), Low(b, c))
  {
    hide Add;
    AddLaws(0, 0, 0);
  }

  lemma {:induction false} MulDouble(a: Byte, b: Byte)
    ensures Mul(Double(a), b) == Double(Mul(a, b))
    decreases b
  {
    hide *;
    if b == 0 {
      MulStep(a, 0); MulStep(Double(a), 0); DoubleSmall();
    } else {
      var d := Double(a);
      calc {
        Mul(d, b);
        { MulStep(d, b); MulDouble(d, b / 2); }
        Add(Low(d, b), Double(Mul(d, b / 2)));
        { LowDouble(a, b); }
        Add(Double(Low(a, b)), Double(Mul(d, b / 2)));
        { DoubleLinear(Low(a, b), Mul(d, b / 2)); }
        Double(Add(Low(a, b), Mul(d, b / 2)));
        { MulStep(a, b); }
        Double(Mul(a, b));
      }
    }
  }

  lemma DoubleSmall()
    ensures forall b: Byte :: b < 128 ==> Double(b) == 2 * b
  {}

  lemma LowDouble(a: Byte, b: Byte)
    ensures Low(Double(a), b) == Double(Low(a, b))
  {}

  lemma {:induction false} MulComm(a: Byte, b: Byte)
    ensures Mul(a, b) == Mul(b, a)
    decreases b
  {
    hide *;
    if b == 0 {
      MulZero(a);
    } else {
      var lo, hi := b % 2, b / 2;
      DoubleSmall();
      LowBit(b);
      calc {
        Mul(b, a);
        Mul(Add(lo, Double(hi)), a);
        { MulAddLeft(lo, Double(hi), a); MulDouble(hi, a); }
        Add(Mul(lo, a), Double(Mul(hi, a)));
        { MulComm(a, hi); MulDouble(a, hi); MulLow(a, b); }
        Add(Low(a, b), Mul(Double(a), hi));
        { MulStep(a, b); }
        Mul(a, b);
      }
    }
  }

  // A byte is its lowest bit plus twice its upper half.
  lemma LowBit(b: Byte)
    ensures b == Add(b % 2, 2 * (b / 2))
  {
    XorStep(b % 2, 2 * (b / 2));
    XorZero(b / 2);
  }

  lemma MulLow(a: Byte, b: Byte)
    ensures Mul(b % 2, a) == Low(a, b)
  {
    if b % 2 == 1 { MulOne(a); } else { MulZero(a); }
  }

  lemma {:induction false} MulZero(b: Byte)
    ensures Mul(0, b) == 0 && Mul(b, 0) == 0
    decreases b
  {
    if b != 0 { MulZero(b / 2); XorZero(0); }
  }

  lemma {:induction false} MulOne(b: Byte)
    ensures Mul(1, b) == b
    decreases b
  {
    hide *;
    MulStep(1, b);
    if b != 0 {
      MulOne(b / 2);
      MulDouble(1, b / 2);
      DoubleSmall();
      LowBit(b);
      LowOne(b);
    }
  }

  lemma LowOne(b: Byte)
    ensures Low(1, b) == b % 2
  {}

  lemma MulAddRight(a: Byte, b: Byte, c: Byte)
    ensures Mul(a, Add(b, c)) == Add(Mul(a, b), Mul(a, c))
  {
    hide *;
    MulAddLeft(b, c, a);
    MulComm(a, Add(b, c)); MulComm(a, b); MulComm(a, c);
  }

  lemma {:induction false} MulAssoc(a: Byte, b: Byte, c: Byte)
    ensures Mul(Mul(a, b), c) == Mul(a, Mul(b, c))
    decreases c
  {
    hide *;
    if c == 0 {
      MulStep(Mul(a, b), 0); MulStep(a, 0); MulStep(b, 0);
    } else {
      var h := c / 2;
      calc {
        Mul(Mul(a, b), c);
        { MulStep(Mul(a, b), c); }
        Add(Low(Mul(a, b), c), Mul(Double(Mul(a, b)), h));
        { MulComm(a, b); MulDouble(b, a); MulComm(a, Double(b)); }
        Add(Low(Mul(a, b), c), Mul(Mul(a, Double(b)), h));
        { MulAssoc(a, Double(b), h); LowMul(a, b, c); }
        Add(Mul(a, Low(b, c)), Mul(a, Mul(Double(b), h)));
        { MulAddRight(a, Low(b, c), Mul(Double(b), h)); }
        Mul(a, Add(Low(b, c), Mul(Double(b), h)));
        { MulStep(b, c); }
        Mul(a, Mul(b, c));
      }
    }
  }

  lemma LowMul(a: Byte, b: Byte, c: Byte)
    ensures Low(Mul(a, b), c) == Mul(a, Low(b, c))
  {
    MulZero(a);
  }

  // ---- powers of the generator 2

  function Alpha(i: nat): Byte {
    if i == 0 then 1 else Double(Alpha(i - 1))
  }

  lemma {:induction false} AlphaAdd(i: nat, j: nat)
    ensures Mul(Alpha(i), Alpha(j)) == Alpha(i + j)
  {
    hide Mul, Double;
    if j == 0 {
      MulOne(Alpha(i));
      MulComm(Alpha(i), 1);
    } else {
      AlphaAdd(i, j - 1);
      MulComm(Alpha(i), Alpha(j - 1));
      MulDouble(Alpha(j - 1), Alpha(i));
      MulComm(Alpha(i), Alpha(j));
    }
  }

  lemma DoubleZero(a: Byte)
    ensures Double(a) == 0 <==> a == 0
  {
    hide Xor;
    if a >= 128 {
      ReduceBound(a);
      XorHalf(2 * a - 256, 0x1d);
    }
  }

  lemma {:induction false} AlphaNonZero(i: nat)
    ensures Alpha(i) != 0
  {
    hide Double;
    if i > 0 {
      AlphaNonZero(i - 1);
      DoubleZero(Alpha(i - 1));
    }
  }

  lemma {:induction false} AlphaCancel(i: nat, j: nat, k: nat)
    requires Alpha(i + k) == Alpha(j + k)
    ensures Alpha(i) == Alpha(j)
  {
    hide Double, Add;
    if k > 0 {
      var a, b := Alpha(i + k - 1), Alpha(j + k - 1);
      DoubleLinear(a, b);
      AddCancel(Double(a), Double(b));
      DoubleZero(Add(a, b));
      AddCancel(a, b);
      AlphaCancel(i, j, k - 1);
    }
  }

  lemma Sums()
    ensures Add(0xd0, 0x1d) == 0xcd && Add(0x9a, 0x1d) == 0x87 && Add(0x0e, 0x1d) == 0x13
    ensures Add(128, 16) == 0x90 && Add(0x90, 8) == 0x98 && Add(0x13, 0x1d) == 0x0e
    ensures Add(0x0e, 0x40) == 0x4e && Add(64, 8) == 0x48 && Add(4, 2) == 6
    ensures Add(0x48, 6) == 0x4e && Add(0xcd, 64) == 0x8d && Add(16, 4) == 0x14
    ensures Add(0x8d, 0x14) == 0x99
  {
    hide Add;
    var T, F := true, false;
    AddByte(T, T, F, T, F, F, F, F, F, F, F, T, T, T, F, T);
    AddByte(T, F, F, T, T, F, T, F, F, F, F, T, T, T, F, T);
    AddByte(F, F, F, F, T, T, T, F, F, F, F, T, T, T, F, T);
    AddByte(T, F, F, F, F, F, F, F, F, F, F, T, F, F, F, F);
    AddByte(T, F, F, T, F, F, F, F, F, F, F, F, T, F, F, F);
    AddByte(F, F, F, T, F, F, T, T, F, F, F, T, T, T, F, T);
    AddByte(F, F, F, F, T, T, T, F, F, T, F, F, F, F, F, F);
    AddByte(F, T, F, F, F, F, F, F, F, F, F, F, T, F, F, F);
    AddByte(F, F, F, F, F, T, F, F, F, F, F, F, F, F, T, F);
    AddByte(F, T, F, F, T, F, F, F, F, F, F, F, F, T, T, F);
    AddByte(T, T, F, F, T, T, F, T, F, T, F, F, F, F, F, F);
    AddByte(F, F, F, T, F, F, F, F, F, F, F, F, F, T, F, F);
    AddByte(T, F, F, F, T, T, F, T, F, F, F, T, F, T, F, F);
  }

  lemma AlphaSmall()
    ensures Alpha(1) == 2 && Alpha(2) == 4 && Alpha(3) == 8 && Alpha(4) == 16
    ensures Alpha(6) == 64 && Alpha(7) == 128 && Alpha(8) == 0x1d && Alpha(11) == 0xe8
  {
    hide Double;
    DoubleSmall();
    DoubleSplit(128);
    AddLaws(0x1d, 0, 0);
    assert Alpha(4) == 16;
    assert Alpha(7) == 128;
  }

  lemma AlphaMiddle()
    ensures Alpha(12) == 0xcd && Alpha(14) == 0x13 && Alpha(15) == 0x26 && Alpha(17) == 0x98
  {
    hide Double, Add;
    Sums();
    AlphaSmall();
    DoubleSmall();
    DoubleSplit(0xe8);
    DoubleSplit(0xcd);
    DoubleSplit(0x87);
    assert Alpha(14) == 0x13;
  }

  lemma Square(a: Byte, b: Byte)
    ensures Mul(Add(a, b), Add(a, b)) == Add(Mul(a, a), Mul(b, b))
  {
    hide *;
    var ab := Mul(a, b);
    calc {
      Mul(Add(a, b), Add(a, b));
      { MulAddLeft(a, b, Add(a, b)); }
      Add(Mul(a, Add(a, b)), Mul(b, Add(a, b)));
      { MulAddRight(a, a, b); MulAddRight(b, a, b); MulComm(a, b); }
      Add(Add(Mul(a, a), ab), Add(ab, Mul(b, b)));
      { AddLaws(ab, Mul(b, b), 0); AddSwap(Mul(a, a), ab, Mul(b, b), ab); }
      Add(Add(Mul(a, a), Mul(b, b)), Add(ab, ab));
      { AddLaws(ab, 0, 0); AddLaws(Add(Mul(a, a), Mul(b, b)), 0, 0); }
      Add(Mul(a, a), Mul(b, b));
    }
  }

  // Squaring moves Alpha(i) + Alpha(j) to Alpha(2i) + Alpha(2j).
  lemma AlphaSquare(i: nat, j: nat)
    ensures Mul(Add(Alpha(i), Alpha(j)), Add(Alpha(i), Alpha(j))) == Add(Alpha(2 * i), Alpha(2 * j))
  {
    hide *;
    Square(Alpha(i), Alpha(j));
    AlphaAdd(i, i);
    AlphaAdd(j, j);
  }

  // y = Alpha(17) satisfies y^4 = y + 1.
  lemma Quartic()
    ensures Alpha(34) == 0x4e && Alpha(68) == 0x99 && Alpha(17) == 0x98
  {
    hide *;
    AlphaSmall();
    AlphaMiddle();
    Sums();
    assert Alpha(34) == 0x4e by {
      AlphaAdd(17, 17);
      Square(0x90, 8);
      AlphaSquare(7, 4);
      AlphaAdd(3, 3);
    }
    assert Alpha(68) == 0x99 by {
      AlphaAdd(34, 34);
      Square(0x48, 6);
      AlphaSquare(6, 3);
      AlphaSquare(2, 1);
    }
  }

  // Alpha(255) == 1: y^16 == (y + 1)^4 == y^4 + 1 == y for y = Alpha(17).
  lemma AlphaFull()
    ensures Alpha(255) == 1
  {
    hide *;
    Quartic();
    var y := Alpha(17);
    AlphaZero();
    assert Add(y, 1) == 0x99 by { AddOne(); }
    calc {
      Alpha(136);
      { AlphaAdd(68, 68); AlphaSquare(17, 0); }
      Add(Alpha(34), 1);
    }
    calc {
      Alpha(272);
      { AlphaAdd(136, 136); AlphaSquare(34, 0); }
      Add(Alpha(68), 1);
      { AddLaws(y, 1, 1); AddLaws(1, 0, 0); AddLaws(y, 0, 0); }
      Alpha(17);
    }
    AlphaCancel(255, 0, 17);
  }

  lemma AlphaZero()
    ensures Alpha(0) == 1
  {}

  lemma AddOne()
    ensures Add(0x98, 1) == 0x99
  {
    hide Add;
    AddByte(true, false, false, true, true, false, false, false,
            false, false, false, false, false, false, false, true);
  }

  lemma AlphaPeriod(i: nat)
    ensures Alpha(i + 255) == Alpha(i)
  {
    hide *;
    AlphaFull();
    AlphaAdd(i, 255);
    MulOne(Alpha(i));
    MulComm(Alpha(i), 1);
  }

  lemma {:induction false} AlphaPeriods(i: nat, n: nat)
    ensures Alpha(255 * n + i) == Alpha(i)
  {
    hide *;
    if n > 0 {
      AlphaPeriods(i, n - 1);
      AlphaPeriod(255 * (n - 1) + i);
      assert 255 * (n - 1) + i + 255 == 255 * n + i;
    }
  }

  lemma {:induction false} AlphaRepeat(d: nat, k: nat)
    requires Alpha(d) == 1
    ensures Alpha(k * d) == 1
  {
    hide *;
    if k == 0 {
      AlphaZero();
    } else {
      AlphaRepeat(d, k - 1);
      AlphaAdd((k - 1) * d, d);
      MulOne(1);
      assert (k - 1) * d + d == k * d;
    }
  }

  lemma Rearrange(c: nat, k: nat, p: nat, q: nat, r: nat, m: nat)
    requires c * p == 255 && k * r == p * m + 1
    ensures c * k * (p * q + r) == 255 * (k * q + m) + c
  {
    calc {
      c * k * (p * q + r);
      c * k * (p * q) + c * k * r;
      { assert c * k * (p * q) == (c * p) * (k * q); assert c * k * r == c * (k * r); }
      255 * (k * q) + c * (p * m + 1);
      { assert c * (p * m + 1) == (c * p) * m + c; }
      255 * (k * q) + 255 * m + c;
    }
  }

  // When Alpha(d) == 1 and k inverts d modulo the factor p of 255, Alpha(255 / p) == 1.
  lemma OrderFactor(d: nat, p: nat, c: nat, k: nat)
    requires c * p == 255 && p > 0
    requires (k * (d % p)) % p == 1
    requires Alpha(d) == 1
    ensures Alpha(c) == 1
  {
    hide *;
    var q, r := d / p, d % p;
    var m := (k * r) / p;
    AlphaRepeat(d, c * k);
    assert d == p * q + r;
    assert k * r == p * m + 1;
    Rearrange(c, k, p, q, r, m);
    AlphaPeriods(c, k * q + m);
  }

  lemma AlphaFactors()
    ensures Alpha(15) != 1 && Alpha(51) != 1 && Alpha(85) != 1
  {
    hide *;
    AlphaMiddle();
    Quartic();
    var y := Alpha(17);
    if Alpha(51) == 1 {
      AlphaAdd(51, 17);
      MulOne(y);
    }
    if Alpha(85) == 1 {
      AlphaAdd(17, 68);
      AddOne();
      MulAddRight(y, y, 1);
      AlphaAdd(17, 17);
      MulOne(y);
      MulComm(y, 1);
      SumD6();
    }
  }

  lemma SumD6()
    ensures Add(0x4e, 0x98) == 0xd6
  {
    hide Add;
    AddByte(false, true, false, false, true, true, true, false,
            true, false, false, true, true, false, false, false);
  }

  function Inverse17(r: nat): nat
    requires 0 < r < 17
    ensures (Inverse17(r) * r) % 17 == 1
  {
    [1, 9, 6, 13, 7, 3, 5, 15, 2, 12, 14, 10, 4, 11, 8, 16][r - 1]
  }

  // 2 generates the multiplicative group: its powers 1..254 all differ from 1.
  lemma AlphaOrder(d: nat)
    requires 0 < d < 255
    ensures Alpha(d) != 1
  {
    hide Alpha;
    if Alpha(d) == 1 {
      AlphaFactors();
      if d % 3 != 0 {
        OrderFactor(d, 3, 85, d % 3);
      }
      if d % 5 != 0 {
        OrderFactor(d, 5, 51, if d % 5 == 1 then 1 else if d % 5 == 2 then 3 else if d % 5 == 3 then 2 else 4);
      }
      if d % 17 != 0 {
        OrderFactor(d, 17, 15, Inverse17(d % 17));
      }
    }
  }

  // ---- discrete logarithms

  lemma AlphaInjective(i: nat, j: nat)
    requires i < j < 255
    ensures Alpha(i) != Alpha(j)
  {
    hide *;
    if Alpha(i) == Alpha(j) {
      AlphaCancel(0, j - i, i);
      AlphaOrder(j - i);
      AlphaZero();
    }
  }

  // The first n powers of 2, and the numbers 1..n.
  ghost function Powers(n: nat): set<int> {
    if n == 0 then {} else Powers(n - 1) + {Alpha(n - 1)}
  }

  ghost function UpTo(n: nat): set<int> {
    if n == 0 then {} else UpTo(n - 1) + {n}
  }

  lemma {:induction false} PowersIndex(n: nat, x: int) returns (i: nat)
    requires x in Powers(n)
    ensures i < n && Alpha(i) == x
  {
    hide Alpha;
    if x in Powers(n - 1) {
      i := PowersIndex(n - 1, x);
    } else {
      i := n - 1;
    }
  }

  lemma {:induction false} UpToMembers(n: nat, x: int)
    ensures x in UpTo(n) <==> 1 <= x <= n
  {
    if n > 0 { UpToMembers(n - 1, x); }
  }

  lemma {:induction false} PowersSize(n: nat)
    requires n <= 255
    ensures |Powers(n)| == n
  {
    hide Alpha;
    if n > 0 {
      PowersSize(n - 1);
      if Alpha(n - 1) in Powers(n - 1) {
        var i := PowersIndex(n - 1, Alpha(n - 1));
        AlphaInjective(i, n - 1);
      }
    }
  }

  lemma {:induction false} UpToSize(n: nat)
    ensures |UpTo(n)| == n
  {
    if n > 0 {
      UpToSize(n - 1);
      UpToMembers(n - 1, n);
    }
  }

  lemma {:induction false} SubsetSize(s: set<int>, t: set<int>)
    requires s <= t
    ensures |s| <= |t|
  {
    assert t == s + (t - s);
  }

  // Every nonzero byte is a power of 2: the 255 powers are distinct, nonzero, and there are
  // only 255 nonzero bytes.
  lemma AlphaCovers(x: Byte)
    requires x != 0
    ensures exists i: nat :: i < 255 && Alpha(i) == x
  {
    hide *;
    if x in Powers(255) {
      var i := PowersIndex(255, x);
    } else {
      forall y | y in Powers(255) ensures y in UpTo(255) - {x} {
        var i := PowersIndex(255, y);
        AlphaNonZero(i);
        UpToMembers(255, y);
      }
      UpToMembers(255, x);
      UpToSize(255);
      PowersSize(255);
      SubsetSize(Powers(255), UpTo(255) - {x});
    }
  }

  ghost function Log(x: Byte): (i: nat)
    requires x != 0
    ensures i < 255 && Alpha(i) == x
  {
    AlphaCovers(x);
    var i: nat :| i < 255 && Alpha(i) == x;
    i
  }

  lemma NoZeroDivisors(a: Byte, b: Byte)
    ensures Mul(a, b) == 0 <==> a == 0 || b == 0
  {
    hide *;
    if a == 0 || b == 0 {
      MulZero(a);
      MulZero(b);
    } else {
      AlphaAdd(Log(a), Log(b));
      AlphaNonZero(Log(a) + Log(b));
    }
  }

  function Power(a: Byte, n: nat): Byte {
    if n == 0 then 1 else Mul(a, Power(a, n - 1))
  }

  lemma {:induction false} AlphaPower(i: nat, n: nat)
    ensures Power(Alpha(i), n) == Alpha(i * n)
  {
    hide Mul, Alpha;
    if n == 0 {
      AlphaZero();
    } else {
      AlphaPower(i, n - 1);
      AlphaAdd(i, i * (n - 1));
      assert i + i * (n - 1) == i * n;
    }
  }
}

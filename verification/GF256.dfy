// The log/antilog tables of src/fec/rgtp_gf256.c and the operations that look things up in them.
module GF256 {
  import opened Bits
  import opened Field

  // Largest exponent magnitude for which gf_log[a] * p stays inside a 32-bit int.
  const MAX_EXPONENT := 8454660

  // The remainder of C, which has the sign of the dividend.
  function CRemainder(a: int, m: int): int
    requires m > 0
  {
    if a >= 0 then a % m else -((-a) % m)
  }

  class Tables {
    const exp: array<Byte>
    const log: array<Byte>

    ghost predicate Ready()
      reads exp, log
    {
      && exp.Length == 512 && log.Length == 256
      && (forall i :: 0 <= i < 512 ==> exp[i] == Alpha(i))
      && (forall x :: 0 < x < 256 ==> log[x] < 255 && Alpha(log[x]) == x)
      && log[0] == 0
    }

    // gf256_init
    constructor ()
      ensures Ready() && fresh(exp) && fresh(log)
      ensures forall i :: 0 <= i < 255 ==> exp[i] != 0 && log[exp[i]] == i
      ensures forall x :: 0 < x < 256 ==> exp[log[x]] == x
    {
      hide Alpha;
      exp := new Byte[512];
      log := new Byte[256];
      new;
      var x: int := 1;
      AlphaZero();
      for i := 0 to 255
        invariant x == Alpha(i)
        invariant forall j :: 0 <= j < i ==> exp[j] == Alpha(j)
        invariant forall j :: 0 <= j < i ==> log[Alpha(j)] == j
      {
        exp[i] := x;
        forall j | 0 <= j < i ensures Alpha(j) != Alpha(i) { AlphaInjective(j, i); }
        log[x] := i;
        AlphaStep(i);
        x := 2 * x;
        if x >= 256 {
          x := Xor(x, 0x11d);
        }
      }
      exp[255] := exp[0];
      AlphaFull();
      for i := 256 to 512
        invariant forall j :: 0 <= j < i ==> exp[j] == Alpha(j)
        invariant forall j :: 0 <= j < 255 ==> log[Alpha(j)] == j
      {
        AlphaPeriod(i - 255);
        exp[i] := exp[i - 255];
      }
      forall j | 0 <= j < 255 ensures Alpha(j) != 0 { AlphaNonZero(j); }
      log[0] := 0;
      forall x | 0 < x < 256 ensures log[x] < 255 && Alpha(log[x]) == x {
        assert Alpha(Log(x)) == x;
      }
    }

    // gf_mul
    function Mul(a: Byte, b: Byte): (r: Byte)
      requires Ready()
      reads exp, log
      ensures r == Field.Mul(a, b)
    {
      hide Field.Mul, Alpha;
      if a == 0 || b == 0 then
        NoZeroDivisors(a, b);
        0
      else
        AlphaAdd(log[a], log[b]);
        var e: int := log[a] as int + log[b];
        exp[e]
    }

    // gf_div; the caller must ensure b != 0
    function Div(a: Byte, b: Byte): (r: Byte)
      requires Ready() && b != 0
      reads exp, log
      ensures Field.Mul(r, b) == a
    {
      hide Field.Mul, Alpha;
      if a == 0 then
        NoZeroDivisors(0, b);
        0
      else
        var e: int := log[a] as int - log[b] + 255;
        Quotient(log[a], log[b], e % 255);
        exp[e % 255]
    }

    // gf_inv; the caller must ensure a != 0
    function Inv(a: Byte): (r: Byte)
      requires Ready() && a != 0
      reads exp, log
      ensures Field.Mul(a, r) == 1 && r != 0
    {
      hide Field.Mul, Alpha;
      AlphaAdd(log[a], 255 - log[a]);
      AlphaFull();
      AlphaNonZero(255 - log[a]);
      exp[255 - log[a]]
    }

    // gf_pow
    function Pow(a: Byte, p: int): (r: Byte)
      requires Ready()
      requires -MAX_EXPONENT <= p <= MAX_EXPONENT
      reads exp, log
      ensures p >= 0 ==> r == Power(a, p)
      ensures p < 0 && a != 0 ==> Field.Mul(r, Power(a, -p)) == 1
      ensures p < 0 && a == 0 ==> r == 0
    {
      hide Field.Mul, Alpha;
      if p == 0 then 1
      else if a == 0 then
        PowerZero(p);
        0
      else
        var e := CRemainder(log[a] * p, 255);
        var e' := if e < 0 then e + 255 else e;
        PowReduced(log[a], p, e');
        exp[e']
    }
  }

  lemma AlphaStep(i: nat)
    ensures Alpha(i + 1) == Double(Alpha(i))
  {}

  lemma PowerZero(p: int)
    ensures p > 0 ==> Power(0, p) == 0
  {
    if p > 0 { MulZero(Power(0, p - 1)); }
  }

  lemma Wrap(x: nat)
    requires x < 510
    ensures x % 255 == if x < 255 then x else x - 255
  {}

  lemma Quotient(i: nat, j: nat, e: nat)
    requires i < 255 && j < 255 && e == (i - j + 255) % 255
    ensures Field.Mul(Alpha(e), Alpha(j)) == Alpha(i)
  {
    hide *;
    Wrap(i - j + 255);
    AlphaAdd(e, j);
    AlphaPeriod(i);
  }

  lemma AlphaMod(i: nat)
    ensures Alpha(i % 255) == Alpha(i)
  {
    hide *;
    AlphaPeriods(i % 255, i / 255);
  }

  lemma PowReduced(i: nat, p: int, e: nat)
    requires e == (i * p) % 255
    ensures p >= 0 ==> Alpha(e) == Power(Alpha(i), p)
    ensures p < 0 ==> Field.Mul(Alpha(e), Power(Alpha(i), -p)) == 1
  {
    hide *;
    if p >= 0 {
      AlphaMod(i * p);
      AlphaPower(i, p);
    } else {
      var n := i * -p;
      assert n == -(i * p);
      AlphaPower(i, -p);
      AlphaAdd(e, n);
      var q := (e + n) / 255;
      assert (i * p) == 255 * ((i * p) / 255) + e;
      assert (e + n) == 255 * -((i * p) / 255);
      AlphaPeriods(0, -((i * p) / 255));
      AlphaZero();
    }
  }
}

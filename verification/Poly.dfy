// Polynomials over GF(2^8) as coefficient sequences, lowest degree first.
module Poly {
  import opened Bits
  import opened Field

  type Polynomial = seq<Byte>

  function Eval(p: Polynomial, x: Byte): Byte {
    if p == [] then 0 else Add(p[0], Mul(x, Eval(p[1..], x)))
  }

  function Sum(p: Polynomial, q: Polynomial): (s: Polynomial)
    requires |p| == |q|
  {
    seq(|p|, i requires 0 <= i < |p| => Add(p[i], q[i]))
  }

  function Scale(c: Byte, p: Polynomial): Polynomial {
    seq(|p|, i requires 0 <= i < |p| => Mul(c, p[i]))
  }

  predicate IsZero(p: Polynomial) {
    forall i :: 0 <= i < |p| ==> p[i] == 0
  }

  lemma EvalStep(a: Byte, p: Polynomial, x: Byte)
    ensures Eval([a] + p, x) == Add(a, Mul(x, Eval(p, x)))
  {
    assert ([a] + p)[1..] == p;
  }

  lemma EvalSplit(p: Polynomial, x: Byte)
    requires p != []
    ensures Eval(p, x) == Add(p[0], Mul(x, Eval(p[1..], x)))
  {}

  lemma {:induction false} EvalZero(p: Polynomial, x: Byte)
    requires IsZero(p)
    ensures Eval(p, x) == 0
  {
    hide Add, Mul;
    if p != [] {
      EvalZero(p[1..], x);
      MulZero(x);
      AddLaws(0, 0, 0);
    }
  }

  lemma {:induction false} EvalSum(p: Polynomial, q: Polynomial, x: Byte)
    requires |p| == |q|
    ensures Eval(Sum(p, q), x) == Add(Eval(p, x), Eval(q, x))
  {
    hide Add, Mul;
    if p == [] {
      AddLaws(0, 0, 0);
    } else {
      var p', q' := p[1..], q[1..];
      assert Sum(p, q)[1..] == Sum(p', q');
      EvalSum(p', q', x);
      MulAddRight(x, Eval(p', x), Eval(q', x));
      AddSwap(p[0], q[0], Mul(x, Eval(p', x)), Mul(x, Eval(q', x)));
    }
  }

  lemma {:induction false} EvalScale(c: Byte, p: Polynomial, x: Byte)
    ensures Eval(Scale(c, p), x) == Mul(c, Eval(p, x))
  {
    hide Add, Mul;
    if p == [] {
      MulZero(c);
    } else {
      var p' := p[1..];
      assert Scale(c, p)[1..] == Scale(c, p');
      EvalScale(c, p', x);
      MulSwap(x, c, Eval(p', x));
      MulAddRight(c, p[0], Mul(x, Eval(p', x)));
    }
  }

  // x * (c * e) == c * (x * e)
  lemma MulSwap(x: Byte, c: Byte, e: Byte)
    ensures Mul(x, Mul(c, e)) == Mul(c, Mul(x, e))
  {
    hide *;
    MulAssoc(x, c, e);
    MulAssoc(c, x, e);
    MulComm(x, c);
  }

  lemma {:induction false} EvalConcat(p: Polynomial, q: Polynomial, x: Byte)
    ensures Eval(p + q, x) == Add(Eval(p, x), Mul(Power(x, |p|), Eval(q, x)))
  {
    hide Add, Mul;
    var e := Eval(q, x);
    if p == [] {
      assert p + q == q;
      MulOne(e);
      AddLaws(e, 0, 0);
    } else {
      var p' := p[1..];
      assert p + q == [p[0]] + (p' + q);
      assert p == [p[0]] + p';
      var pe, w := Eval(p', x), Mul(Power(x, |p'|), e);
      calc {
        Eval(p + q, x);
        { EvalStep(p[0], p' + q, x); EvalConcat(p', q, x); }
        Add(p[0], Mul(x, Add(pe, w)));
        { MulAddRight(x, pe, w); AddLaws(p[0], Mul(x, pe), Mul(x, w)); }
        Add(Add(p[0], Mul(x, pe)), Mul(x, w));
        { MulAssoc(x, Power(x, |p'|), e); EvalStep(p[0], p', x); }
        Add(Eval(p, x), Mul(Power(x, |p|), e));
      }
    }
  }

  // ---- division by x + r, and the bound on the number of roots

  // The quotient of p by (x + r); the remainder is Eval(p, r).
  function Divide(p: Polynomial, r: Byte): (q: Polynomial)
    ensures |q| == if p == [] then 0 else |p| - 1
  {
    if |p| <= 1 then [] else [Eval(p[1..], r)] + Divide(p[1..], r)
  }

  lemma {:induction false} DivideLaw(p: Polynomial, r: Byte, y: Byte)
    requires p != []
    ensures Eval(p, y) == Add(Mul(Add(y, r), Eval(Divide(p, r), y)), Eval(p, r))
  {
    hide Add, Mul;
    var a, t := p[0], p[1..];
    if t == [] {
      MulZero(Add(y, r));
      MulZero(y);
      MulZero(r);
      AddLaws(a, 0, 0);
      AddLaws(0, a, 0);
    } else {
      DivideLaw(t, r, y);
      var q := Eval(Divide(t, r), y);
      EvalStep(Eval(t, r), Divide(t, r), y);
      DivideAlgebra(a, y, r, q, Eval(t, r), Eval(t, y));
    }
  }

  // The induction step of DivideLaw as an identity of the field.
  lemma DivideAlgebra(a: Byte, y: Byte, r: Byte, q: Byte, tr: Byte, ty: Byte)
    requires ty == Add(Mul(Add(y, r), q), tr)
    ensures Add(a, Mul(y, ty)) == Add(Mul(Add(y, r), Add(tr, Mul(y, q))), Add(a, Mul(r, tr)))
  {
    hide *;
    var s := Add(y, r);
    var u, v, w := Mul(y, tr), Mul(r, tr), Mul(y, Mul(s, q));
    calc {
      Add(Mul(s, Add(tr, Mul(y, q))), Add(a, v));
      { MulAddRight(s, tr, Mul(y, q)); MulAddLeft(y, r, tr); MulSwap(s, y, q); }
      Add(Add(Add(u, v), w), Add(a, v));
      { AddLaws(u, v, w); AddLaws(v, w, 0); AddLaws(u, w, v); }
      Add(Add(Add(u, w), v), Add(a, v));
      { AddSwap(Add(u, w), v, a, v); AddLaws(v, 0, 0); AddLaws(Add(Add(u, w), a), 0, 0); }
      Add(Add(u, w), a);
      { AddLaws(u, w, 0); MulAddRight(y, Mul(s, q), tr); AddLaws(a, Mul(y, ty), 0); }
      Add(a, Mul(y, ty));
    }
  }

  lemma {:induction false} DivideZero(p: Polynomial, r: Byte)
    requires p != [] && Eval(p, r) == 0 && IsZero(Divide(p, r))
    ensures IsZero(p)
  {
    hide Add, Mul;
    var a, t := p[0], p[1..];
    if t != [] {
      var d := Divide(p, r);
      assert d[0] == Eval(t, r) && d[1..] == Divide(t, r);
      DivideZero(t, r);
    }
    MulZero(r);
    AddLaws(a, 0, 0);
    assert p == [a] + t;
  }

  predicate Distinct(s: seq<Byte>) {
    forall i, j :: 0 <= i < j < |s| ==> s[i] != s[j]
  }

  predicate VanishesOn(p: Polynomial, s: seq<Byte>) {
    forall i :: 0 <= i < |s| ==> Eval(p, s[i]) == 0
  }

  // A polynomial with at most as many coefficients as it has distinct roots is zero.
  lemma {:induction false} RootBound(p: Polynomial, roots: seq<Byte>)
    requires |p| <= |roots| && Distinct(roots) && VanishesOn(p, roots)
    ensures IsZero(p)
    decreases |p|
  {
    hide Eval, Add, Mul;
    if p != [] {
      var r, rest := roots[0], roots[1..];
      var q := Divide(p, r);
      forall i | 0 <= i < |rest| ensures Eval(q, rest[i]) == 0 {
        var y := roots[i + 1];
        DivideLaw(p, r, y);
        var m := Mul(Add(y, r), Eval(q, y));
        AddLaws(m, 0, 0);
        NoZeroDivisors(Add(y, r), Eval(q, y));
        AddCancel(y, r);
      }
      RootBound(q, rest);
      DivideZero(p, r);
    }
  }

  // Two polynomials with k coefficients that agree at k distinct points are equal.
  lemma AgreeEqual(p: Polynomial, q: Polynomial, points: seq<Byte>)
    requires |p| == |q| <= |points| && Distinct(points)
    requires forall i :: 0 <= i < |points| ==> Eval(p, points[i]) == Eval(q, points[i])
    ensures p == q
  {
    hide Eval, Add, Mul;
    var d := Sum(p, q);
    forall i | 0 <= i < |points| ensures Eval(d, points[i]) == 0 {
      EvalSum(p, q, points[i]);
      AddCancel(Eval(p, points[i]), Eval(q, points[i]));
    }
    RootBound(d, points);
    forall i | 0 <= i < |p| ensures p[i] == q[i] {
      assert d[i] == 0;
      AddCancel(p[i], q[i]);
    }
  }

  // ---- multiplication by x + r

  function TimesRoot(g: Polynomial, r: Byte): Polynomial {
    Sum([0] + g, Scale(r, g) + [0])
  }

  lemma EvalTimesRoot(g: Polynomial, r: Byte, y: Byte)
    ensures Eval(TimesRoot(g, r), y) == Mul(Add(y, r), Eval(g, y))
  {
    hide *;
    hide Eval;
    var e := Eval(g, y);
    calc {
      Eval(TimesRoot(g, r), y);
      { TimesRootIs(g, r); EvalSum([0] + g, Scale(r, g) + [0], y); }
      Add(Eval([0] + g, y), Eval(Scale(r, g) + [0], y));
      { EvalStep(0, g, y); AddLaws(Mul(y, e), 0, 0); }
      Add(Mul(y, e), Eval(Scale(r, g) + [0], y));
      { EvalTrailingZero(Scale(r, g), y); EvalScale(r, g, y); }
      Add(Mul(y, e), Mul(r, e));
      { MulAddLeft(y, r, e); }
      Mul(Add(y, r), e);
    }
  }

  lemma TimesRootIs(g: Polynomial, r: Byte)
    ensures |[0] + g| == |Scale(r, g) + [0]|
    ensures TimesRoot(g, r) == Sum([0] + g, Scale(r, g) + [0])
  {}

  lemma EvalTrailingZero(p: Polynomial, y: Byte)
    ensures Eval(p + [0], y) == Eval(p, y)
  {
    hide Add, Mul;
    EvalConcat(p, [0], y);
    EvalZero([0], y);
    MulZero(Power(y, |p|));
    AddLaws(Eval(p, y), 0, 0);
  }

  // The monic polynomial with the given roots.
  function FromRoots(roots: seq<Byte>): (g: Polynomial)
    ensures |g| == |roots| + 1
  {
    if roots == [] then [1] else TimesRoot(FromRoots(roots[..|roots| - 1]), roots[|roots| - 1])
  }

  lemma {:induction false} FromRootsMonic(roots: seq<Byte>)
    ensures FromRoots(roots)[|roots|] == 1
  {
    hide Add, Mul;
    if roots != [] {
      var rs, r := roots[..|roots| - 1], roots[|roots| - 1];
      FromRootsMonic(rs);
      AddLaws(1, 0, 0);
    }
  }

  // It vanishes exactly at its roots.
  lemma {:induction false} FromRootsZeros(roots: seq<Byte>, y: Byte)
    ensures Eval(FromRoots(roots), y) == 0 <==> y in roots
  {
    hide Eval, Add, Mul;
    if roots == [] {
      EvalOne(y);
    } else {
      var rs, r := roots[..|roots| - 1], roots[|roots| - 1];
      FromRootsZeros(rs, y);
      EvalTimesRoot(FromRoots(rs), r, y);
      NoZeroDivisors(Add(y, r), Eval(FromRoots(rs), y));
      AddCancel(y, r);
      assert roots == rs + [r];
    }
  }

  lemma EvalOne(y: Byte)
    ensures Eval([1], y) == 1
  {
    hide Add, Mul;
    EvalSplit([1], y);
    MulZero(y);
    AddLaws(1, 0, 0);
  }
}

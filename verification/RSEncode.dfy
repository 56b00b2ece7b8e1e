// The systematic encoder of src/fec/rgtp_rs_encode.c: generator polynomial and shift register.
module RSEncode {
  import opened Bits
  import opened Field
  import opened Poly
  import opened GF256

  const MAX_N := 255
  const MAX_T := 127

  datatype Status = Ok | InvalidArg | FecFail

  // alpha^0, ..., alpha^(t-1)
  function Roots(t: nat): (rs: seq<Byte>)
    ensures |rs| == t
  {
    seq(t, i requires 0 <= i < t => Alpha(i))
  }

  // A word of coefficients, parity first and data after it, belongs to the code
  // when its polynomial vanishes at every root of the generator.
  predicate IsCodeword(w: Polynomial, t: nat) {
    VanishesOn(w, Roots(t))
  }

  lemma RootsDistinct(t: nat)
    requires t <= 255
    ensures Distinct(Roots(t))
  {
    hide Alpha;
    forall i, j | 0 <= i < j < t ensures Alpha(i) != Alpha(j) { AlphaInjective(i, j); }
  }

  lemma PowerOfTwo(i: nat)
    ensures Power(2, i) == Alpha(i)
  {
    hide *;
    AlphaSmall();
    AlphaPower(1, i);
  }

  // ---- the generator polynomial

  // memset of the first m entries
  method Clear(a: array<Byte>, m: nat)
    requires m <= a.Length
    modifies a
    ensures forall j :: 0 <= j < a.Length ==> a[j] == if j < m then 0 else old(a[j])
  {
    for j := 0 to m
      invariant forall i :: 0 <= i < a.Length ==> a[i] == if i < j then 0 else old(a[i])
    {
      a[j] := 0;
    }
  }

  // build_generator
  method BuildGenerator(gf: Tables, t: nat, g: array<Byte>)
    requires gf.Ready() && t <= MAX_T && t + 1 <= g.Length
    requires g != gf.exp && g != gf.log
    modifies g
    ensures gf.Ready()
    ensures g[..t + 1] == FromRoots(Roots(t))
    ensures forall j :: t < j < g.Length ==> g[j] == old(g[j])
  {
    hide Alpha, FromRoots, TimesRoot;
    Clear(g, t + 1);
    g[0] := 1;
    NoRoots();
    for i := 0 to t
      invariant gf.Ready()
      invariant g[..i + 1] == FromRoots(Roots(i))
      invariant forall m :: i < m <= t ==> g[m] == 0
      invariant forall m :: t < m < g.Length ==> g[m] == old(g[m])
    {
      PowerOfTwo(i);
      var root := gf.Pow(2, i);
      MultiplyInPlace(gf, i, g, root);
      OneMoreRoot(i);
    }
  }

  // Lines 31-34: multiply g, of degree i, by (x + root) in place, from the top coefficient down.
  method MultiplyInPlace(gf: Tables, i: nat, g: array<Byte>, root: Byte)
    requires gf.Ready() && i + 1 < g.Length && g[i + 1] == 0
    requires g != gf.exp && g != gf.log
    modifies g
    ensures gf.Ready()
    ensures g[..i + 2] == TimesRoot(old(g[..i + 1]), root)
    ensures forall m :: i + 1 < m < g.Length ==> g[m] == old(g[m])
  {
    hide Field.Mul, Add;
    ghost var G := g[..i + 1];
    var j := i;
    while j >= 0
      invariant -1 <= j <= i
      invariant gf.Ready()
      invariant forall m :: 0 <= m <= j ==> g[m] == G[m]
      invariant g[j + 1] == if j < i then Field.Mul(root, G[j + 1]) else 0
      invariant forall m :: j + 2 <= m <= i + 1 ==> g[m] == TimesRoot(G, root)[m]
      invariant forall m :: i + 1 < m < g.Length ==> g[m] == old(g[m])
    {
      AddLaws(g[j + 1], g[j], 0);
      AddLaws(g[j], 0, 0);
      g[j + 1] := Add(g[j + 1], g[j]);
      MulComm(g[j], root);
      g[j] := gf.Mul(g[j], root);
      j := j - 1;
    }
    AddLaws(g[0], 0, 0);
    assert g[..i + 2] == TimesRoot(G, root);
  }

  lemma NoRoots()
    ensures FromRoots(Roots(0)) == [1]
  {}

  lemma OneMoreRoot(i: nat)
    ensures FromRoots(Roots(i + 1)) == TimesRoot(FromRoots(Roots(i)), Alpha(i))
  {
    hide Alpha;
    assert Roots(i + 1)[..i] == Roots(i);
  }

  // ---- the shift register

  // The register after one more data symbol d.
  function Feed(reg: Polynomial, g: Polynomial, d: Byte): (r: Polynomial)
    requires |reg| > 0 && |g| == |reg| + 1
    ensures |r| == |reg|
  {
    var t := |reg|;
    Sum([0] + reg[..t - 1], Scale(Add(d, reg[t - 1]), g[..t]))
  }

  // The register after the whole block, which is fed from its last symbol to its first.
  function Register(data: Polynomial, g: Polynomial): (r: Polynomial)
    requires |g| > 1
    ensures |r| == |g| - 1
  {
    if data == [] then seq(|g| - 1, _ => 0) else Feed(Register(data[1..], g), g, data[0])
  }

  // The feedback values, which are the coefficients of the quotient.
  function Quotient(data: Polynomial, g: Polynomial): (q: Polynomial)
    requires |g| > 1
    ensures |q| == |data|
  {
    if data == [] then []
    else [Add(data[0], Register(data[1..], g)[|g| - 2])] + Quotient(data[1..], g)
  }

  // One step multiplies the register by x, adds d x^t, and subtracts a multiple of g.
  lemma FeedLaw(reg: Polynomial, g: Polynomial, d: Byte, y: Byte)
    requires |reg| > 0 && |g| == |reg| + 1 && g[|reg|] == 1
    ensures Eval(Feed(reg, g, d), y) ==
            Add(Add(Mul(y, Eval(reg, y)), Mul(Power(y, |reg|), d)),
                Mul(Add(d, reg[|reg| - 1]), Eval(g, y)))
  {
    hide Eval, Add, Field.Mul, Power;
    var t := |reg|;
    var top, lowReg, lowG := reg[t - 1], [0] + reg[..t - 1], g[..t];
    var f, yt := Add(d, top), Power(y, t);
    var el, eg := Eval(lowReg, y), Eval(lowG, y);
    EvalSum(lowReg, Scale(f, lowG), y);
    EvalScale(f, lowG, y);
    // y * reg == lowReg + top y^t and g == lowG + y^t
    assert [0] + reg == lowReg + [top];
    EvalConcat(lowReg, [top], y);
    EvalSingle(top, y);
    EvalStep(0, reg, y);
    AddLaws(Mul(y, Eval(reg, y)), 0, 0);
    AddLaws(0, Mul(y, Eval(reg, y)), 0);
    assert g == lowG + [1];
    EvalConcat(lowG, [1], y);
    EvalSingle(1, y);
    MulComm(yt, 1);
    MulOne(yt);
    FeedAlgebra(el, eg, yt, top, d);
  }

  lemma EvalSingle(a: Byte, y: Byte)
    ensures Eval([a], y) == a
  {
    hide Add, Field.Mul;
    EvalSplit([a], y);
    MulZero(y);
    AddLaws(a, 0, 0);
  }

  lemma FeedAlgebra(el: Byte, eg: Byte, yt: Byte, top: Byte, d: Byte)
    ensures Add(el, Mul(Add(d, top), eg)) ==
            Add(Add(Add(el, Mul(yt, top)), Mul(yt, d)), Mul(Add(d, top), Add(eg, yt)))
  {
    hide *;
    var f := Add(d, top);
    var a, b := Mul(f, eg), Mul(f, yt);
    calc {
      Add(Add(Add(el, Mul(yt, top)), Mul(yt, d)), Mul(f, Add(eg, yt)));
      { AddLaws(el, Mul(yt, top), Mul(yt, d)); MulAddRight(f, eg, yt); }
      Add(Add(el, Add(Mul(yt, top), Mul(yt, d))), Add(a, b));
      { MulAddRight(yt, top, d); AddLaws(top, d, 0); MulComm(yt, f); }
      Add(Add(el, b), Add(a, b));
      { AddSwap(el, b, a, b); AddLaws(b, 0, 0); AddLaws(Add(el, a), 0, 0); }
      Add(el, a);
    }
  }

  // Division with remainder: data(x) x^t + register(x) == quotient(x) g(x).
  lemma {:induction false} DivisionLaw(data: Polynomial, g: Polynomial, y: Byte)
    requires |g| > 1 && g[|g| - 1] == 1
    ensures Add(Eval(Register(data, g), y), Mul(Power(y, |g| - 1), Eval(data, y)))
            == Mul(Eval(Quotient(data, g), y), Eval(g, y))
  {
    hide Eval, Add, Field.Mul, Power, Feed;
    var t := |g| - 1;
    var yt, eg := Power(y, t), Eval(g, y);
    if data == [] {
      EvalZero(Register(data, g), y);
      EvalZero(data, y);
      EvalZero(Quotient(data, g), y);
      MulZero(yt);
      MulZero(eg);
      AddLaws(0, 0, 0);
    } else {
      var d, rest := data[0], data[1..];
      var reg := Register(rest, g);
      var f := Add(d, reg[t - 1]);
      DivisionLaw(rest, g, y);
      FeedLaw(reg, g, d, y);
      EvalSplit(data, y);
      EvalStep(f, Quotient(rest, g), y);
      var q := Eval(Quotient(rest, g), y);
      StepAlgebra(y, yt, Mul(f, eg), d, Eval(reg, y), Eval(rest, y));
      MulAssoc(y, q, eg);
      AddLaws(Mul(f, eg), Mul(Mul(y, q), eg), 0);
      MulAddLeft(f, Mul(y, q), eg);
    }
  }

  lemma Cancel(a: Byte, b: Byte, c: Byte, w: Byte)
    ensures Add(Add(Add(a, b), c), Add(b, w)) == Add(Add(a, w), c)
  {
    hide *;
    calc {
      Add(Add(Add(a, b), c), Add(b, w));
      { AddLaws(Add(a, b), c, 0); AddLaws(c, Add(a, b), Add(b, w)); }
      Add(c, Add(Add(a, b), Add(b, w)));
      { AddLaws(a, b, Add(b, w)); AddCancel(b, w); }
      Add(c, Add(a, w));
      { AddLaws(c, Add(a, w), 0); }
      Add(Add(a, w), c);
    }
  }

  lemma StepAlgebra(y: Byte, yt: Byte, c: Byte, d: Byte, r: Byte, e: Byte)
    ensures Add(Add(Add(Mul(y, r), Mul(yt, d)), c), Mul(yt, Add(d, Mul(y, e))))
            == Add(Mul(y, Add(r, Mul(yt, e))), c)
  {
    hide *;
    MulAddRight(yt, d, Mul(y, e));
    MulSwap(yt, y, e);
    Cancel(Mul(y, r), Mul(yt, d), c, Mul(y, Mul(yt, e)));
    MulAddRight(y, r, Mul(yt, e));
  }

  lemma RegisterIsParity(data: Polynomial, t: nat)
    requires t > 0
    ensures IsCodeword(Register(data, FromRoots(Roots(t))) + data, t)
  {
    hide Eval, Add, Field.Mul, FromRoots, Register;
    var rs := Roots(t);
    var g := FromRoots(rs);
    FromRootsMonic(rs);
    forall i | 0 <= i < t ensures Eval(Register(data, g) + data, rs[i]) == 0 {
      FromRootsZeros(rs, rs[i]);
      DivisionLaw(data, g, rs[i]);
      EvalConcat(Register(data, g), data, rs[i]);
      MulZero(Eval(Quotient(data, g), rs[i]));
    }
  }

  // ---- the encoder

  // The parity block of the data; RegisterIsParity and ParityUnique say which one it is.
  function Parity(data: Polynomial, t: nat): (p: Polynomial)
    requires t > 0
    ensures |p| == t
  {
    Register(data, FromRoots(Roots(t)))
  }

  // rgtp_rs_encode
  method Encode(gf: Tables, k: Byte, n: Byte, data: seq<Byte>, parityOut: array<Byte>) returns (status: Status)
    requires gf.Ready() && parityOut != gf.exp && parityOut != gf.log
    requires |data| >= k && parityOut.Length as int >= n as int - k
    requires n as int - k <= MAX_T
    modifies parityOut
    ensures gf.Ready()
    ensures status == if k == 0 || n == 0 || k >= n then InvalidArg else Ok
    ensures status.Ok? ==> parityOut[..n - k] == Parity(data[..k], n - k)
    ensures status.Ok? ==> IsCodeword(parityOut[..n - k] + data[..k], n - k)
    ensures forall j :: 0 <= j < parityOut.Length && (status.Ok? ==> n as int - k <= j)
              ==> parityOut[j] == old(parityOut[j])
  {
    hide Alpha, FromRoots, Feed, Field.Mul, Add, Eval;
    if k == 0 || n == 0 || k >= n || n > MAX_N {
      return InvalidArg;
    }
    var t: int := n - k;
    var g := new Byte[MAX_T + 1];
    BuildGenerator(gf, t, g);
    ghost var G := g[..t + 1];
    var reg := new Byte[MAX_T];
    Clear(reg, t);
    RunRegister(gf, t, g, reg, data[..k]);
    RegisterIsParity(data[..k], t);
    for j := 0 to t
      invariant gf.Ready() && reg[..t] == Register(data[..k], G)
      invariant forall m :: 0 <= m < j ==> parityOut[m] == reg[m]
      invariant forall m :: j <= m < parityOut.Length ==> parityOut[m] == old(parityOut[m])
    {
      parityOut[j] := reg[j];
    }
    assert parityOut[..t] == reg[..t];
    return Ok;
  }

  // The register loop, lines 66-73: feeds the block from its last symbol to its first.
  method RunRegister(gf: Tables, t: nat, g: array<Byte>, reg: array<Byte>, data: seq<Byte>)
    requires gf.Ready() && 0 < t <= reg.Length && t + 1 <= g.Length
    requires reg != g && reg != gf.exp && reg != gf.log
    requires forall j :: 0 <= j < t ==> reg[j] == 0
    modifies reg
    ensures gf.Ready() && g[..] == old(g[..])
    ensures reg[..t] == Register(data, g[..t + 1])
  {
    hide Feed;
    assert reg[..t] == Register(data[|data|..], g[..t + 1]);
    var i := |data| - 1;
    while i >= 0
      invariant -1 <= i < |data|
      invariant gf.Ready() && g[..] == old(g[..])
      invariant reg[..t] == Register(data[i + 1..], g[..t + 1])
    {
      FeedInPlace(gf, t, g, reg, data[i]);
      assert data[i..][1..] == data[i + 1..];
      i := i - 1;
    }
    assert data[0..] == data;
  }

  // The body of the register loop, lines 67-72.
  method FeedInPlace(gf: Tables, t: nat, g: array<Byte>, reg: array<Byte>, d: Byte)
    requires gf.Ready() && 0 < t <= reg.Length && t + 1 <= g.Length
    requires reg != g && reg != gf.exp && reg != gf.log
    modifies reg
    ensures gf.Ready() && g[..] == old(g[..])
    ensures reg[..t] == Feed(old(reg[..t]), g[..t + 1], d)
  {
    hide Add, Field.Mul;
    ghost var R, G := reg[..t], g[..t + 1];
    var feedback := Add(d, reg[t - 1]);
    var j := t - 1;
    while j > 0
      invariant 0 <= j < t
      invariant gf.Ready() && g[..] == old(g[..])
      invariant forall m :: 0 <= m <= j ==> reg[m] == R[m]
      invariant forall m :: j < m < t ==> reg[m] == Feed(R, G, d)[m]
    {
      reg[j] := Add(reg[j - 1], gf.Mul(feedback, g[j]));
      j := j - 1;
    }
    reg[0] := gf.Mul(feedback, g[0]);
    AddLaws(reg[0], 0, 0);
    assert reg[..t] == Feed(R, G, d);
  }

  // The parity block is the only one that completes the data to a codeword.
  lemma ParityUnique(p: Polynomial, q: Polynomial, data: Polynomial, t: nat)
    requires |p| == |q| == t <= 255
    requires IsCodeword(p + data, t) && IsCodeword(q + data, t)
    ensures p == q
  {
    hide Eval, Add, Field.Mul, Alpha;
    RootsDistinct(t);
    forall i | 0 <= i < t ensures Eval(p, Roots(t)[i]) == Eval(q, Roots(t)[i]) {
      var y := Roots(t)[i];
      var w := Mul(Power(y, t), Eval(data, y));
      EvalConcat(p, data, y);
      EvalConcat(q, data, y);
      AddCancel(Eval(p, y), w);
      AddCancel(Eval(q, y), w);
    }
    AgreeEqual(p, q, Roots(t));
  }

  // ---- the distance of the code

  // sum over i of d[i] * f(alpha^(o + i))
  function Weighted(d: Polynomial, f: Polynomial, o: nat): Byte {
    if d == [] then 0 else Add(Mul(d[0], Eval(f, Alpha(o))), Weighted(d[1..], f, o + 1))
  }

  // d[i] * alpha^(o + i)
  function Twist(d: Polynomial, o: nat): (r: Polynomial)
    ensures |r| == |d|
  {
    if d == [] then [] else [Mul(d[0], Alpha(o))] + Twist(d[1..], o + 1)
  }

  // Twisting moves evaluation from x to alpha x.
  lemma {:induction false} TwistEval(d: Polynomial, o: nat, x: Byte)
    ensures Eval(Twist(d, o), x) == Mul(Alpha(o), Eval(d, Double(x)))
  {
    hide Add, Field.Mul, Double;
    var A := Alpha(o);
    if d == [] {
      MulZero(A);
    } else {
      var d0, rest := d[0], d[1..];
      var e := Eval(rest, Double(x));
      calc {
        Eval(Twist(d, o), x);
        { EvalStep(Mul(d0, A), Twist(rest, o + 1), x); TwistEval(rest, o + 1, x); }
        Add(Mul(d0, A), Mul(x, Mul(Double(A), e)));
        { MulDouble(A, e); MulDouble(Mul(A, e), x); MulComm(x, Double(Mul(A, e)));
          MulComm(Mul(A, e), x); MulDouble(x, Mul(A, e)); }
        Add(Mul(d0, A), Mul(Double(x), Mul(A, e)));
        { MulSwap(Double(x), A, e); MulComm(d0, A); }
        Add(Mul(A, d0), Mul(A, Mul(Double(x), e)));
        { MulAddRight(A, d0, Mul(Double(x), e)); EvalSplit(d, Double(x)); }
        Mul(A, Eval(d, Double(x)));
      }
    }
  }

  lemma {:induction false} WeightedSplit(d: Polynomial, a: Byte, g: Polynomial, o: nat)
    ensures Weighted(d, [a] + g, o) == Add(Mul(a, Eval(d, 1)), Weighted(Twist(d, o), g, o))
  {
    hide Add, Field.Mul, Alpha;
    if d == [] {
      MulZero(a);
      AddLaws(0, 0, 0);
    } else {
      var d0, rest, A := d[0], d[1..], Alpha(o);
      var eg, e1, w := Eval(g, A), Eval(rest, 1), Weighted(Twist(rest, o + 1), g, o + 1);
      assert Twist(d, o)[1..] == Twist(rest, o + 1);
      calc {
        Weighted(d, [a] + g, o);
        { EvalStep(a, g, A); WeightedSplit(rest, a, g, o + 1); }
        Add(Mul(d0, Add(a, Mul(A, eg))), Add(Mul(a, e1), w));
        { MulAddRight(d0, a, Mul(A, eg)); MulAssoc(d0, A, eg); MulComm(d0, a); }
        Add(Add(Mul(a, d0), Mul(Mul(d0, A), eg)), Add(Mul(a, e1), w));
        { AddSwap(Mul(a, d0), Mul(Mul(d0, A), eg), Mul(a, e1), w); }
        Add(Add(Mul(a, d0), Mul(a, e1)), Add(Mul(Mul(d0, A), eg), w));
        { MulAddRight(a, d0, e1); MulOne(e1); EvalSplit(d, 1); }
        Add(Mul(a, Eval(d, 1)), Weighted(Twist(d, o), g, o));
      }
    }
  }

  // A codeword is orthogonal to the values of every polynomial with at most t coefficients.
  lemma {:induction false} Orthogonal(d: Polynomial, f: Polynomial, t: nat)
    requires IsCodeword(d, t) && |f| <= t
    ensures Weighted(d, f, 0) == 0
    decreases |f|
  {
    hide Eval, Add, Field.Mul, Double;
    if f == [] {
      WeightedEmpty(d, 0);
    } else {
      var a, g := f[0], f[1..];
      assert f == [a] + g;
      WeightedSplit(d, a, g, 0);
      assert Roots(t)[0] == 1;
      MulZero(a);
      var rs := Roots(t - 1);
      forall i | 0 <= i < |rs| ensures Eval(Twist(d, 0), rs[i]) == 0 {
        TwistEval(d, 0, Alpha(i));
        assert Roots(t)[i + 1] == Double(Alpha(i));
        MulZero(Alpha(0));
      }
      Orthogonal(Twist(d, 0), g, t - 1);
      AddLaws(0, 0, 0);
    }
  }

  lemma {:induction false} WeightedEmpty(d: Polynomial, o: nat)
    ensures Weighted(d, [], o) == 0
  {
    hide Add, Field.Mul;
    if d != [] {
      WeightedEmpty(d[1..], o + 1);
      MulZero(d[0]);
      AddLaws(0, 0, 0);
    }
  }

  // When only position m contributes, the weighted sum is that one term.
  lemma {:induction false} WeightedSparse(d: Polynomial, f: Polynomial, o: nat, m: int)
    requires m < |d|
    requires forall i :: 0 <= i < |d| && i != m ==> Mul(d[i], Eval(f, Alpha(o + i))) == 0
    ensures Weighted(d, f, o) == if m < 0 then 0 else Mul(d[m], Eval(f, Alpha(o + m)))
  {
    hide Add, Field.Mul, Alpha, Eval;
    if d != [] {
      var rest := d[1..];
      forall i | 0 <= i < |rest| && i != m - 1 ensures Mul(rest[i], Eval(f, Alpha(o + 1 + i))) == 0 {
        assert rest[i] == d[i + 1] && o + 1 + i == o + (i + 1);
      }
      WeightedSparse(rest, f, o + 1, m - 1);
      var head := Mul(d[0], Eval(f, Alpha(o)));
      assert o + 0 == o;
      AddLaws(head, 0, 0);
      AddLaws(Weighted(rest, f, o + 1), 0, 0);
    }
  }

  function Difference(a: seq<Byte>, b: seq<Byte>): set<nat>
    requires |a| == |b|
  {
    set i: nat | i < |a| && a[i] != b[i]
  }

  // The powers of alpha at the positions of s, in some order.
  lemma Locators(s: set<nat>) returns (rs: seq<Byte>)
    requires forall i :: i in s ==> i < 255
    ensures |rs| == |s|
    ensures forall i :: 0 <= i < 255 ==> (Alpha(i) in rs <==> i in s)
    decreases s
  {
    hide Alpha;
    if s != {} {
      var m :| m in s;
      var rest := Locators(s - {m});
      rs := rest + [Alpha(m)];
      forall i | 0 <= i < 255 ensures Alpha(i) in rs <==> i in s {
        if i < m { AlphaInjective(i, m); }
        if m < i { AlphaInjective(m, i); }
      }
    } else {
      rs := [];
    }
  }

  // A nonzero codeword has more than t nonzero symbols.
  lemma MinimumWeight(d: Polynomial, t: nat, support: set<nat>)
    requires |d| <= 255 && IsCodeword(d, t)
    requires |support| <= t
    requires forall i :: i in support ==> i < |d|
    requires forall i :: 0 <= i < |d| && i !in support ==> d[i] == 0
    ensures IsZero(d)
  {
    hide Eval, Add, Field.Mul, Alpha, IsCodeword;
    forall m | 0 <= m < |d| ensures d[m] == 0 {
      if m in support {
        var others := support - {m};
        var rs := Locators(others);
        var f := FromRoots(rs);
        forall i | 0 <= i < |d| && i != m ensures Mul(d[i], Eval(f, Alpha(0 + i))) == 0 {
          FromRootsZeros(rs, Alpha(i));
          NoZeroDivisors(d[i], Eval(f, Alpha(i)));
        }
        WeightedSparse(d, f, 0, m);
        Orthogonal(d, f, t);
        FromRootsZeros(rs, Alpha(m));
        NoZeroDivisors(d[m], Eval(f, Alpha(m)));
      }
    }
  }

  // Two different codewords of length at most 255 differ in at least t + 1 positions.
  lemma Distance(a: seq<Byte>, b: seq<Byte>, t: nat)
    requires |a| == |b| <= 255 && IsCodeword(a, t) && IsCodeword(b, t)
    requires a != b
    ensures |Difference(a, b)| >= t + 1
  {
    hide Eval, Add, Field.Mul, Alpha;
    if |Difference(a, b)| <= t {
      ErasuresDetermine(a, b, t, Difference(a, b));
    }
  }

  // Any t erased positions leave a codeword, and with it the data, uniquely determined.
  lemma ErasuresDetermine(a: seq<Byte>, b: seq<Byte>, t: nat, erased: set<nat>)
    requires |a| == |b| <= 255 && IsCodeword(a, t) && IsCodeword(b, t)
    requires |erased| <= t
    requires forall i :: 0 <= i < |a| && i !in erased ==> a[i] == b[i]
    ensures a == b
  {
    hide Eval, Add, Field.Mul, Alpha;
    var d := Sum(a, b);
    forall i | 0 <= i < t ensures Eval(d, Roots(t)[i]) == 0 {
      EvalSum(a, b, Roots(t)[i]);
      AddLaws(0, 0, 0);
    }
    var support := Difference(a, b);
    assert support <= erased;
    assert erased == support + (erased - support);
    forall i | 0 <= i < |d| && i !in support ensures d[i] == 0 { AddLaws(a[i], 0, 0); }
    MinimumWeight(d, t, support);
    forall i | 0 <= i < |a| ensures a[i] == b[i] {
      assert d[i] == 0;
      AddCancel(a[i], b[i]);
    }
  }
}

// The erasure decoder of src/fec/rgtp_rs_decode.c, lines 75-151.
module RSDecode {
  import opened Bits
  import opened Wrappers
  import opened Field
  import opened Poly
  import opened GF256
  import opened Gauss
  import opened RSEncode

  // ---- the positions the decoder uses

  // The positions below n that are not lost, in increasing order.
  function Kept(lost: seq<Byte>, n: nat): seq<Byte>
    requires n <= 255
    ensures forall i :: 0 <= i < |Kept(lost, n)| ==> Kept(lost, n)[i] < n && Kept(lost, n)[i] !in lost
  {
    if n == 0 then [] else Kept(lost, n - 1) + if (n - 1) as Byte in lost then [] else [n - 1]
  }

  lemma {:induction false} KeptIncreasing(lost: seq<Byte>, n: nat)
    requires n <= 255
    ensures forall i, j :: 0 <= i < j < |Kept(lost, n)| ==> Kept(lost, n)[i] < Kept(lost, n)[j]
  {
    if n > 0 { KeptIncreasing(lost, n - 1); }
  }

  lemma {:induction false} KeptOneMore(lost: seq<Byte>, x: Byte, n: nat)
    requires n <= 255
    ensures |Kept(lost, n)| <= |Kept(lost + [x], n)| + if x < n then 1 else 0
  {
    if n > 0 { KeptOneMore(lost, x, n - 1); }
  }

  // Every entry of the erasure list costs at most one position, whether repeated or out of range.
  lemma {:induction false} KeptEnough(lost: seq<Byte>, n: nat)
    requires n <= 255
    ensures |Kept(lost, n)| >= n - |lost|
  {
    if lost == [] {
      KeptAll(n);
    } else {
      var rest := lost[..|lost| - 1];
      KeptEnough(rest, n);
      KeptOneMore(rest, lost[|lost| - 1], n);
      assert lost == rest + [lost[|lost| - 1]];
    }
  }

  lemma {:induction false} KeptAll(n: nat)
    requires n <= 255
    ensures |Kept([], n)| == n && forall i :: 0 <= i < n ==> Kept([], n)[i] == i
  {
    if n > 0 { KeptAll(n - 1); }
  }

  lemma {:induction false} KeptPrefix(lost: seq<Byte>, i: nat, n: nat)
    requires i <= n <= 255
    ensures Kept(lost, i) <= Kept(lost, n)
  {
    if i < n { KeptPrefix(lost, i, n - 1); }
  }

  // s lists the first k positions below n that are not lost, in increasing order.
  ghost predicate FirstSurviving(s: seq<Byte>, lost: seq<Byte>, n: nat, k: nat) {
    && |s| == k
    && (forall i, j :: 0 <= i < j < k ==> s[i] < s[j])
    && (forall i :: 0 <= i < k ==> s[i] < n && s[i] !in lost)
    && (forall p: Byte, i :: 0 <= i < k && p < s[i] && p !in lost ==> p in s)
  }

  lemma {:induction false} KeptComplete(lost: seq<Byte>, n: nat, p: Byte)
    requires p < n <= 255 && p !in lost
    ensures p in Kept(lost, n)
  {
    if p < n - 1 { KeptComplete(lost, n - 1, p); }
  }

  // What comes before an entry and survives is listed before it.
  lemma KeptBefore(lost: seq<Byte>, n: nat, i: nat, p: Byte) returns (j: nat)
    requires n <= 255 && i < |Kept(lost, n)| && p < Kept(lost, n)[i] && p !in lost
    ensures j < i && Kept(lost, n)[j] == p
  {
    KeptIncreasing(lost, n);
    KeptComplete(lost, n, p);
    hide Kept;
    var all := Kept(lost, n);
    j :| 0 <= j < |all| && all[j] == p;
  }

  lemma PrefixSurviving(lost: seq<Byte>, n: nat, k: nat)
    requires n <= 255 && k <= |Kept(lost, n)|
    ensures FirstSurviving(Kept(lost, n)[..k], lost, n, k)
  {
    KeptIncreasing(lost, n);
    hide Kept;
    var s := Kept(lost, n)[..k];
    forall p: Byte, i | 0 <= i < k && p < s[i] && p !in lost ensures p in s {
      var j := KeptBefore(lost, n, i, p);
      assert s[j] == p;
    }
  }

  // There is only one such list.
  lemma {:induction false} SurvivingUnique(s: seq<Byte>, t: seq<Byte>, lost: seq<Byte>, n: nat, k: nat, i: nat)
    requires FirstSurviving(s, lost, n, k) && FirstSurviving(t, lost, n, k) && i <= k
    ensures s[..i] == t[..i]
  {
    if i > 0 {
      var m := i - 1;
      SurvivingUnique(s, t, lost, n, k, m);
      NotBelow(s, t, lost, n, k, m);
      NotBelow(t, s, lost, n, k, m);
      assert s[..i] == s[..m] + [s[m]] && t[..i] == t[..m] + [t[m]];
    }
  }

  lemma NotBelow(s: seq<Byte>, t: seq<Byte>, lost: seq<Byte>, n: nat, k: nat, m: nat)
    requires FirstSurviving(s, lost, n, k) && FirstSurviving(t, lost, n, k) && m < k && s[..m] == t[..m]
    ensures s[m] >= t[m]
  {
    forall i | 0 <= i < m ensures s[i] == t[i] { assert s[..m][i] == t[..m][i]; }
    if s[m] < t[m] {
      var j :| 0 <= j < k && t[j] == s[m];
      assert false;
    }
  }

  // The positions the decoder uses.
  function Survivors(lost: seq<Byte>, n: nat, k: nat): (s: seq<Byte>)
    requires n <= 255 && k + |lost| <= n
    ensures |s| == k && forall i :: 0 <= i < k ==> s[i] < n && s[i] !in lost
    ensures FirstSurviving(s, lost, n, k)
  {
    KeptEnough(lost, n);
    PrefixSurviving(lost, n, k);
    Kept(lost, n)[..k]
  }

  // They are the first k that survive, and no other list is.
  lemma SurvivorsExactly(s: seq<Byte>, lost: seq<Byte>, n: nat, k: nat)
    requires n <= 255 && k + |lost| <= n
    ensures s == Survivors(lost, n, k) <==> FirstSurviving(s, lost, n, k)
  {
    hide Survivors;
    if FirstSurviving(s, lost, n, k) {
      var t := Survivors(lost, n, k);
      SurvivingUnique(s, t, lost, n, k, k);
      assert s[..k] == s && t[..k] == t;
    }
  }

  function Points(positions: seq<Byte>): (xs: seq<Byte>)
    ensures |xs| == |positions|
  {
    seq(|positions|, i requires 0 <= i < |positions| => Alpha(positions[i]))
  }

  lemma SurvivorPointsDistinct(lost: seq<Byte>, n: nat, k: nat)
    requires n <= 255 && k + |lost| <= n
    ensures Distinct(Points(Survivors(lost, n, k)))
  {
    hide Alpha;
    KeptIncreasing(lost, n);
    KeptEnough(lost, n);
    var s := Survivors(lost, n, k);
    forall i, j | 0 <= i < j < k ensures Alpha(s[i]) != Alpha(s[j]) {
      AlphaInjective(s[i], s[j]);
    }
  }

  // ---- the linear system

  // c takes the received values at the given positions.
  ghost predicate Interpolates(c: Polynomial, received: seq<Byte>, positions: seq<Byte>)
    requires forall i :: 0 <= i < |positions| ==> positions[i] < |received|
  {
    forall i :: 0 <= i < |positions| ==> Eval(c, Alpha(positions[i])) == received[positions[i]]
  }

  // Row i holds the powers of alpha^positions[i], followed by the received value.
  ghost predicate Vandermonde(m: seq<Row>, k: nat, received: seq<Byte>, positions: seq<Byte>)
    requires Shape(m, k) && |positions| == k
    requires forall i :: 0 <= i < k ==> positions[i] < |received|
  {
    && (forall i, j :: 0 <= i < k && 0 <= j < k ==> m[i][j] == Power(Alpha(positions[i]), j))
    && (forall i :: 0 <= i < k ==> m[i][k] == received[positions[i]])
  }

  lemma {:induction false} PowersDot(row: Row, v: Row, a: Byte, n: nat)
    requires n <= |row| && n <= |v|
    requires forall j :: 0 <= j < n ==> row[j] == Power(a, j)
    ensures Dot(row, v, n) == Eval(v[..n], a)
  {
    hide Add, Field.Mul, Power;
    if n > 0 {
      PowersDot(row, v, a, n - 1);
      assert v[..n] == v[..n - 1] + [v[n - 1]];
      EvalConcat(v[..n - 1], [v[n - 1]], a);
      EvalSingle(v[n - 1], a);
    }
  }

  lemma RowDot(m: seq<Row>, k: nat, received: seq<Byte>, positions: seq<Byte>, x: Row, last: Byte, i: nat)
    requires Shape(m, k) && |positions| == k && |x| == k && i < k
    requires forall i :: 0 <= i < k ==> positions[i] < |received|
    requires Vandermonde(m, k, received, positions)
    ensures Dot(m[i], x + [last], k + 1) ==
            Add(Eval(x, Alpha(positions[i])), Mul(received[positions[i]], last))
  {
    hide Add, Field.Mul, Power, Dot, Eval;
    var v := x + [last];
    PowersDot(m[i], v, Alpha(positions[i]), k);
    assert v[..k] == x;
    DotNext(m[i], v, k);
  }

  // The solutions of the system are the polynomials through the received values.
  lemma SolvesInterpolates(m: seq<Row>, k: nat, received: seq<Byte>, positions: seq<Byte>, x: Row)
    requires Shape(m, k) && |positions| == k && |x| == k
    requires forall i :: 0 <= i < k ==> positions[i] < |received|
    requires Vandermonde(m, k, received, positions)
    ensures Solves(m, k, x) <==> Interpolates(x, received, positions)
  {
    hide Add, Field.Mul, Dot, Eval, Alpha, Vandermonde;
    forall i | 0 <= i < k
      ensures Dot(m[i], x + [1], k + 1) == 0 <==> Eval(x, Alpha(positions[i])) == received[positions[i]]
    {
      var r := received[positions[i]];
      RowDot(m, k, received, positions, x, 1, i);
      MulComm(r, 1);
      MulOne(r);
      AddCancel(Eval(x, Alpha(positions[i])), r);
    }
  }

  // A null vector would be a polynomial with too many roots.
  lemma VandermondeRegular(m: seq<Row>, k: nat, received: seq<Byte>, positions: seq<Byte>)
    requires Shape(m, k) && |positions| == k && Distinct(Points(positions))
    requires forall i :: 0 <= i < k ==> positions[i] < |received|
    requires Vandermonde(m, k, received, positions)
    ensures !Singular(m, k)
  {
    hide Add, Field.Mul, Dot, Eval, Alpha, Vandermonde;
    forall x: Row | |x| == k && Kernel(m, k, x + [0]) ensures IsZero(x) {
      forall i | 0 <= i < k ensures Eval(x, Points(positions)[i]) == 0 {
        var e := Eval(x, Alpha(positions[i]));
        RowDot(m, k, received, positions, x, 0, i);
        MulZero(received[positions[i]]);
        AddLaws(e, 0, 0);
        assert Dot(m[i], x + [0], k + 1) == 0;
      }
      RootBound(x, Points(positions));
    }
  }

  // ---- the decoder

  // Lines 110-114: collect up to k positions that are not marked.
  method CollectGood(erased: array<bool>, n: nat, k: nat, ghost lost: seq<Byte>) returns (good: seq<Byte>)
    requires n <= erased.Length && n <= 255 && k + |lost| <= n
    requires forall p: Byte :: p < n ==> (erased[p] <==> p in lost)
    ensures good == Survivors(lost, n, k)
  {
    good := [];
    var i := 0;
    while i < n && |good| < k
      invariant 0 <= i <= n && |good| <= k
      invariant good == Kept(lost, i)
    {
      var p: Byte := i;
      if !erased[p] {
        good := good + [p];
      }
      i := i + 1;
    }
    KeptEnough(lost, n);
    KeptPrefix(lost, i, n);
  }

  // Lines 95-103: mark the listed positions that lie inside the codeword.
  method MarkErased(n: nat, lost: seq<Byte>) returns (erased: array<bool>)
    requires n <= 255
    ensures fresh(erased) && erased.Length == 255
    ensures forall p: Byte :: p < n ==> (erased[p] <==> p in lost)
  {
    erased := new bool[255](_ => false);
    for i := 0 to |lost|
      invariant forall p: Byte :: p < n ==> (erased[p] <==> p in lost[..i])
    {
      assert lost[..i + 1] == lost[..i] + [lost[i]];
      if lost[i] < n {
        erased[lost[i]] := true;
      }
    }
    assert lost[..|lost|] == lost;
  }

  // Lines 134-140.
  method BuildSystem(gf: Tables, k: nat, received: seq<Byte>, good: seq<Byte>, mat: array2<Byte>)
    requires gf.Ready() && k <= mat.Length0 && k < mat.Length1 && k <= 255 && |good| == k
    requires forall i :: 0 <= i < k ==> good[i] < |received|
    modifies mat
    ensures gf.Ready() && Vandermonde(Rows(mat, k), k, received, good)
  {
    hide Power, Alpha;
    for row := 0 to k
      invariant gf.Ready()
      invariant forall i, j :: 0 <= i < row && 0 <= j < k ==> mat[i, j] == Power(Alpha(good[i]), j)
      invariant forall i :: 0 <= i < row ==> mat[i, k] == received[good[i]]
    {
      var pos := good[row];
      for col := 0 to k
        invariant gf.Ready()
        invariant forall i, j :: 0 <= i < row && 0 <= j < k ==> mat[i, j] == Power(Alpha(good[i]), j)
        invariant forall i :: 0 <= i < row ==> mat[i, k] == received[good[i]]
        invariant forall j :: 0 <= j < col ==> mat[row, j] == Power(Alpha(pos), j)
      {
        PositionPower(pos, col);
        var e: int := pos as int * col;
        mat[row, col] := gf.Pow(2, e);
      }
      mat[row, k] := received[pos];
    }
  }

  lemma PositionPower(pos: Byte, col: nat)
    requires col <= 255
    ensures 0 <= pos as int * col <= 65025
    ensures Power(2, pos as int * col) == Power(Alpha(pos), col)
  {
    hide *;
    PowerOfTwo(pos as int * col);
    AlphaPower(pos, col);
  }

  // Lines 131-150: the system for distinct positions always has a solution.
  method SolveSystem(gf: Tables, k: nat, received: seq<Byte>, good: seq<Byte>, dataOut: array<Byte>)
    returns (ok: bool)
    requires gf.Ready() && dataOut != gf.exp && dataOut != gf.log
    requires k < 255 && |good| == k <= dataOut.Length && Distinct(Points(good))
    requires forall i :: 0 <= i < k ==> good[i] < |received|
    modifies dataOut
    ensures gf.Ready() && ok
    ensures Interpolates(dataOut[..k], received, good)
    ensures forall j :: k <= j < dataOut.Length ==> dataOut[j] == old(dataOut[j])
  {
    hide Interpolates, Eval, Singular, Solves, Rows, Points, Vandermonde;
    var mat := new Byte[MAX_N, MAX_N + 1]((_, _) => 0);
    BuildSystem(gf, k, received, good, mat);
    ghost var m := Rows(mat, k);
    VandermondeRegular(m, k, received, good);
    ok := Eliminate(gf, mat, k);
    ghost var x := LastColumn(Rows(mat, k), k);
    SolvesInterpolates(m, k, received, good, x);
    for col := 0 to k
      invariant gf.Ready() && LastColumn(Rows(mat, k), k) == x
      invariant forall j :: 0 <= j < col ==> dataOut[j] == x[j]
      invariant forall j :: col <= j < dataOut.Length ==> dataOut[j] == old(dataOut[j])
    {
      dataOut[col] := mat[col, k];
    }
    assert dataOut[..k] == x;
  }

  // rgtp_rs_decode. A null erasure list with a positive count passes the count check and marks nothing.
  method Decode(gf: Tables, k: Byte, n: Byte, received: seq<Byte>,
                erasurePos: Option<seq<Byte>>, erasureCount: Byte, dataOut: array<Byte>)
    returns (status: Status)
    requires gf.Ready() && dataOut != gf.exp && dataOut != gf.log
    requires |received| >= n && dataOut.Length >= k
    requires erasurePos.Some? ==> |erasurePos.value| >= erasureCount
    modifies dataOut
    ensures gf.Ready()
    ensures status ==
      if k == 0 || n == 0 || k >= n then InvalidArg
      else if erasureCount as int > n as int - k then FecFail
      else Ok
    ensures status.Ok? ==> Interpolates(dataOut[..k], received, Survivors(Listed(erasurePos, erasureCount), n, k))
    ensures forall j :: 0 <= j < dataOut.Length && (status.Ok? ==> k <= j) ==> dataOut[j] == old(dataOut[j])
  {
    hide Interpolates, Survivors, Points, Distinct;
    if k == 0 || n == 0 || k >= n || n > MAX_N {
      return InvalidArg;
    }
    if erasureCount as int > n as int - k {
      return FecFail;
    }
    ghost var lost := Listed(erasurePos, erasureCount);
    var erased := MarkErased(n, if erasurePos.Some? then erasurePos.value[..erasureCount] else []);
    var good := CollectGood(erased, n, k, lost);
    if |good| < k {
      assert false;
      return FecFail;
    }
    SurvivorPointsDistinct(lost, n, k);
    var ok := SolveSystem(gf, k, received, good, dataOut);
    return if ok then Ok else FecFail;
  }

  function Listed(erasurePos: Option<seq<Byte>>, erasureCount: Byte): (lost: seq<Byte>)
    requires erasurePos.Some? ==> |erasurePos.value| >= erasureCount
    ensures |lost| <= erasureCount
  {
    if erasurePos.Some? then erasurePos.value[..erasureCount] else []
  }

  // ---- what the decoder recovers

  // Two polynomials through the same k survivors are equal.
  lemma InterpolantUnique(c: Polynomial, d: Polynomial, received: seq<Byte>, lost: seq<Byte>, n: nat, k: nat)
    requires n <= 255 && k + |lost| <= n <= |received| && |c| == |d| == k
    requires Interpolates(c, received, Survivors(lost, n, k))
    requires Interpolates(d, received, Survivors(lost, n, k))
    ensures c == d
  {
    hide Eval, Alpha, Survivors;
    var s := Survivors(lost, n, k);
    SurvivorPointsDistinct(lost, n, k);
    forall i | 0 <= i < k ensures Eval(c, Points(s)[i]) == Eval(d, Points(s)[i]) {}
    AgreeEqual(c, d, Points(s));
  }

  // Recovery: when every symbol that is not lost is the value of one polynomial with k coefficients,
  // whatever the lost symbols hold, the decoder's answer is that polynomial.
  lemma Recovery(c: Polynomial, out: Polynomial, received: seq<Byte>, lost: seq<Byte>, n: nat, k: nat)
    requires n <= 255 && k + |lost| <= n <= |received| && |c| == |out| == k
    requires forall p: Byte :: p < n && p !in lost ==> received[p] == Eval(c, Alpha(p))
    requires Interpolates(out, received, Survivors(lost, n, k))
    ensures out == c
  {
    hide Eval, Alpha, Survivors;
    InterpolantUnique(c, out, received, lost, n, k);
  }

  // The decoder does not invert the encoder: sent the codeword data followed by parity, it returns
  // the data exactly when each symbol it uses is the value of the data polynomial there.
  lemma RoundTripExactly(data: Polynomial, parity: Polynomial, out: Polynomial, lost: seq<Byte>, n: nat, k: nat)
    requires n <= 255 && k + |lost| <= n && |data| == |out| == k && |parity| == n - k
    requires Interpolates(out, data + parity, Survivors(lost, n, k))
    ensures out == data <==>
            forall i :: 0 <= i < k ==>
              var p := Survivors(lost, n, k)[i]; (data + parity)[p] == Eval(data, Alpha(p))
  {
    hide Eval, Alpha, Survivors;
    if Interpolates(data, data + parity, Survivors(lost, n, k)) {
      InterpolantUnique(data, out, data + parity, lost, n, k);
    }
  }

  // For instance the block 1, 0, ..., 0 is never returned when nothing is lost and k > 1.
  lemma RoundTripFails(parity: Polynomial, out: Polynomial, n: nat, k: nat)
    requires 2 <= k < n <= 255 && |out| == k && |parity| == n - k
    requires Interpolates(out, [1] + seq(k - 1, _ => 0) + parity, Survivors([], n, k))
    ensures out != [1] + seq(k - 1, _ => 0)
  {
    hide Eval, Alpha;
    var data: Polynomial := [1] + seq(k - 1, _ => 0);
    KeptAll(n);
    assert Survivors([], n, k)[1] == 1;
    RoundTripExactly(data, parity, out, [], n, k);
    EvalStep(1, seq(k - 1, _ => 0), Alpha(1));
    EvalZero(seq(k - 1, _ => 0), Alpha(1));
    MulZero(Alpha(1));
    AddLaws(1, 0, 0);
    assert (data + parity)[1] == 0;
  }

  // Zero the symbols at the lost positions, lines 91-105 of tests/property/prop_fec.c.
  method Erase(word: seq<Byte>, lost: seq<Byte>) returns (received: seq<Byte>)
    ensures |received| == |word|
    ensures forall p: Byte :: p < |word| ==> received[p] == if p in lost then 0 else word[p]
  {
    received := word;
    for i := 0 to |lost|
      invariant |received| == |word|
      invariant forall p: Byte :: p < |word| ==> received[p] == if p in lost[..i] then 0 else word[p]
    {
      if lost[i] < |received| {
        received := received[lost[i] := 0];
      }
    }
    assert lost[..|lost|] == lost;
  }

  // Encode, erase and decode as the property test does, with the exact condition under which the
  // original block comes back.
  method EncodeEraseDecode(gf: Tables, k: Byte, n: Byte, data: seq<Byte>, lost: seq<Byte>)
    returns (recovered: seq<Byte>)
    requires gf.Ready() && 1 <= k < n && n as int - k <= MAX_T
    requires |data| == k && |lost| <= n - k
    ensures |recovered| == k
    ensures Interpolates(recovered, data + Parity(data, n - k), Survivors(lost, n, k))
    ensures recovered == data <==>
            forall i :: 0 <= i < k ==>
              var p := Survivors(lost, n, k)[i]; (data + Parity(data, n - k))[p] == Eval(data, Alpha(p))
  {
    hide Eval, Alpha, Survivors, IsCodeword, Parity;
    var t: int := n - k;
    var parityOut := new Byte[t];
    var status := Encode(gf, k, n, data, parityOut);
    assert data[..k] == data && parityOut[..t] == parityOut[..];
    var received := Erase(data + parityOut[..], lost);
    var dataOut := new Byte[k];
    var count: Byte := |lost|;
    assert lost[..count] == lost;
    status := Decode(gf, k, n, received, Some(lost), count, dataOut);
    recovered := dataOut[..];
    assert dataOut[..k] == recovered;
    RoundTripExactly(data, Parity(data, t), recovered, lost, n, k);
  }
}

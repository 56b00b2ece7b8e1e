// The in-place Gauss-Jordan elimination of src/fec/rgtp_rs_decode.c, lines 34-71.
module Gauss {
  import opened Bits
  import opened Field
  import opened GF256

  type Row = seq<Byte>

  // ---- what elimination preserves

  // row[0] * v[0] + ... + row[n-1] * v[n-1]
  function Dot(row: Row, v: Row, n: nat): Byte
    requires n <= |row| && n <= |v|
  {
    if n == 0 then 0 else Add(Dot(row, v, n - 1), Mul(row[n - 1], v[n - 1]))
  }

  ghost predicate Shape(m: seq<Row>, k: nat) {
    |m| == k && forall i :: 0 <= i < k ==> |m[i]| == k + 1
  }

  // Every row is orthogonal to v.
  ghost predicate Kernel(m: seq<Row>, k: nat, v: Row)
    requires Shape(m, k)
  {
    |v| == k + 1 && forall i :: 0 <= i < k ==> Dot(m[i], v, k + 1) == 0
  }

  // x solves A x = b, where row i of m is row i of A followed by b[i]. Subtraction is addition.
  ghost predicate Solves(m: seq<Row>, k: nat, x: Row)
    requires Shape(m, k)
  {
    |x| == k && Kernel(m, k, x + [1])
  }

  // A has a nonzero null vector.
  ghost predicate Singular(m: seq<Row>, k: nat)
    requires Shape(m, k)
  {
    exists x: Row :: |x| == k && (exists i :: 0 <= i < k && x[i] != 0) && Kernel(m, k, x + [0])
  }

  ghost predicate SameKernel(a: seq<Row>, b: seq<Row>, k: nat)
    requires Shape(a, k) && Shape(b, k)
  {
    forall v: Row :: Kernel(a, k, v) <==> Kernel(b, k, v)
  }

  function Swapped(m: seq<Row>, i: nat, j: nat): seq<Row>
    requires i < |m| && j < |m|
  {
    m[i := m[j]][j := m[i]]
  }

  function Times(c: Byte, row: Row): (r: Row)
    ensures |r| == |row|
  {
    seq(|row|, j requires 0 <= j < |row| => Mul(row[j], c))
  }

  function Plus(row: Row, f: Byte, other: Row): (r: Row)
    requires |row| == |other|
    ensures |r| == |row|
  {
    seq(|row|, j requires 0 <= j < |row| => Add(row[j], Mul(f, other[j])))
  }

  lemma {:induction false} DotTimes(c: Byte, row: Row, v: Row, n: nat)
    requires n <= |row| && n <= |v|
    ensures Dot(Times(c, row), v, n) == Mul(c, Dot(row, v, n))
  {
    hide Add, Mul;
    if n == 0 {
      MulZero(c);
    } else {
      var r, w := row[n - 1], v[n - 1];
      DotTimes(c, row, v, n - 1);
      MulComm(r, c);
      MulAssoc(c, r, w);
      MulAddRight(c, Dot(row, v, n - 1), Mul(r, w));
    }
  }

  lemma {:induction false} DotPlus(row: Row, f: Byte, other: Row, v: Row, n: nat)
    requires |row| == |other| && n <= |row| && n <= |v|
    ensures Dot(Plus(row, f, other), v, n) == Add(Dot(row, v, n), Mul(f, Dot(other, v, n)))
  {
    hide Add, Mul;
    if n == 0 {
      MulZero(f);
      AddLaws(0, 0, 0);
    } else {
      var r, o, w := row[n - 1], other[n - 1], v[n - 1];
      var dr, d := Dot(row, v, n - 1), Dot(other, v, n - 1);
      DotPlus(row, f, other, v, n - 1);
      MulAddLeft(r, Mul(f, o), w);
      MulAssoc(f, o, w);
      AddSwap(dr, Mul(f, d), Mul(r, w), Mul(f, Mul(o, w)));
      MulAddRight(f, d, Mul(o, w));
    }
  }

  // A row that is zero on 0..n except at p contributes only that term.
  lemma {:induction false} DotSparse(row: Row, v: Row, n: nat, p: nat)
    requires n <= |row| && n <= |v|
    requires forall j :: 0 <= j < n && j != p ==> Mul(row[j], v[j]) == 0
    ensures Dot(row, v, n) == if p < n then Mul(row[p], v[p]) else 0
  {
    hide Add, Mul;
    if n > 0 {
      DotSparse(row, v, n - 1, p);
      var x := Mul(row[n - 1], v[n - 1]);
      AddLaws(x, 0, 0);
      AddLaws(Dot(row, v, n - 1), 0, 0);
    }
  }

  lemma SwapKeeps(m: seq<Row>, k: nat, i: nat, j: nat)
    requires Shape(m, k) && i < k && j < k
    ensures Shape(Swapped(m, i, j), k) && SameKernel(m, Swapped(m, i, j), k)
  {
    hide Dot;
    var s := Swapped(m, i, j);
    forall v: Row | |v| == k + 1 ensures Kernel(m, k, v) <==> Kernel(s, k, v) {
      assert forall r :: 0 <= r < k ==> m[r] == s[if r == i then j else if r == j then i else r];
    }
  }

  lemma ReplaceKeeps(m: seq<Row>, k: nat, i: nat, r: Row, v: Row)
    requires Shape(m, k) && i < k && |r| == |v| == k + 1
    requires (forall q :: 0 <= q < k && q != i ==> Dot(m[q], v, k + 1) == 0)
               ==> (Dot(m[i], v, k + 1) == 0 <==> Dot(r, v, k + 1) == 0)
    ensures Kernel(m, k, v) <==> Kernel(m[i := r], k, v)
  {
    hide Dot;
    var s := m[i := r];
    assert s[i] == r;
    assert forall q :: 0 <= q < k && q != i ==> s[q] == m[q];
    if Kernel(s, k, v) {
      forall q | 0 <= q < k ensures Dot(m[q], v, k + 1) == 0 {
        assert Dot(s[q], v, k + 1) == 0;
      }
    }
  }

  lemma ScaleKeeps(m: seq<Row>, k: nat, i: nat, c: Byte)
    requires Shape(m, k) && i < k && c != 0
    ensures Shape(m[i := Times(c, m[i])], k) && SameKernel(m, m[i := Times(c, m[i])], k)
  {
    hide Dot, Mul, Times;
    forall v: Row | |v| == k + 1 ensures Kernel(m, k, v) <==> Kernel(m[i := Times(c, m[i])], k, v) {
      DotTimes(c, m[i], v, k + 1);
      NoZeroDivisors(c, Dot(m[i], v, k + 1));
      ReplaceKeeps(m, k, i, Times(c, m[i]), v);
    }
  }

  lemma AddKeeps(m: seq<Row>, k: nat, i: nat, f: Byte, p: nat)
    requires Shape(m, k) && i < k && p < k && i != p
    ensures Shape(m[i := Plus(m[i], f, m[p])], k) && SameKernel(m, m[i := Plus(m[i], f, m[p])], k)
  {
    hide Dot, Mul, Add, Plus;
    forall v: Row | |v| == k + 1 ensures Kernel(m, k, v) <==> Kernel(m[i := Plus(m[i], f, m[p])], k, v) {
      DotPlus(m[i], f, m[p], v, k + 1);
      MulZero(f);
      AddLaws(Dot(m[i], v, k + 1), 0, 0);
      ReplaceKeeps(m, k, i, Plus(m[i], f, m[p]), v);
    }
  }

  // ---- the state of the elimination

  // The first c columns are columns of the identity.
  ghost predicate Reduced(m: seq<Row>, k: nat, c: nat)
    requires Shape(m, k) && c <= k
  {
    forall i, j :: 0 <= i < k && 0 <= j < c ==> m[i][j] == if i == j then 1 else 0
  }

  // No pivot for column c: a null vector can be read off.
  lemma NoPivotSingular(m: seq<Row>, k: nat, c: nat)
    requires Shape(m, k) && c < k && Reduced(m, k, c)
    requires forall i :: c <= i < k ==> m[i][c] == 0
    ensures Singular(m, k)
  {
    hide Dot, Mul, Add;
    var x: Row := seq(k, j requires 0 <= j < k => if j < c then m[j][c] else if j == c then 1 else 0);
    var v := x + [0];
    forall i | 0 <= i < k ensures Dot(m[i], v, k + 1) == 0 {
      NullRow(m[i], v, k, c, i);
    }
    assert x[c] != 0;
  }

  lemma NullRow(row: Row, v: Row, k: nat, c: nat, i: nat)
    requires |row| == |v| == k + 1 && c < k && i < k
    requires forall j :: 0 <= j < c ==> row[j] == if i == j then 1 else 0
    requires c <= i ==> row[c] == 0
    requires v[c] == 1 && (forall j :: c < j <= k ==> v[j] == 0)
    requires i < c ==> v[i] == row[c]
    ensures Dot(row, v, k + 1) == 0
  {
    hide Mul, Add, Dot;
    forall j | 0 <= j < c && j != i ensures Mul(row[j], v[j]) == 0 { MulZero(v[j]); }
    DotSparse(row, v, c, i);
    DotNext(row, v, c);
    MulOne(row[c]);
    MulComm(row[c], 1);
    AddLaws(row[c], 0, 0);
    DotTail(row, v, c + 1, k + 1);
  }

  lemma DotNext(row: Row, v: Row, n: nat)
    requires n < |row| && n < |v|
    ensures Dot(row, v, n + 1) == Add(Dot(row, v, n), Mul(row[n], v[n]))
  {}

  lemma {:induction false} DotTail(row: Row, v: Row, m: nat, n: nat)
    requires m <= n <= |row| && n <= |v|
    requires forall j :: m <= j < n ==> v[j] == 0
    ensures Dot(row, v, n) == Dot(row, v, m)
  {
    hide Mul, Add;
    if m < n {
      DotTail(row, v, m, n - 1);
      MulZero(row[n - 1]);
      AddLaws(Dot(row, v, n - 1), 0, 0);
    }
  }

  function LastColumn(m: seq<Row>, k: nat): (x: Row)
    requires |m| == k && forall i :: 0 <= i < k ==> |m[i]| == k + 1
    ensures |x| == k
  {
    seq(k, i requires 0 <= i < k => m[i][k])
  }

  // Against an identity block, row i sees v[i] + b[i] v[k].
  lemma ReducedDot(m: seq<Row>, k: nat, v: Row, i: nat)
    requires Shape(m, k) && Reduced(m, k, k) && |v| == k + 1 && i < k
    ensures Dot(m[i], v, k + 1) == Add(v[i], Mul(m[i][k], v[k]))
  {
    hide Mul, Add, Dot;
    forall j | 0 <= j < k && j != i ensures Mul(m[i][j], v[j]) == 0 { MulZero(v[j]); }
    DotSparse(m[i], v, k, i);
    DotNext(m[i], v, k);
    MulOne(v[i]);
  }

  // With the identity on the left, the last column is the one solution and the matrix is regular.
  lemma ReducedSolved(m: seq<Row>, k: nat)
    requires Shape(m, k) && Reduced(m, k, k)
    ensures forall x: Row :: Solves(m, k, x) <==> x == LastColumn(m, k)
    ensures !Singular(m, k)
  {
    hide Mul, Add, Dot;
    forall x: Row ensures Solves(m, k, x) <==> x == LastColumn(m, k) {
      if |x| == k {
        var v := x + [1];
        forall i | 0 <= i < k ensures Dot(m[i], v, k + 1) == 0 <==> x[i] == m[i][k] {
          ReducedDot(m, k, v, i);
          MulOne(m[i][k]);
          MulComm(m[i][k], 1);
          AddCancel(x[i], m[i][k]);
        }
        assert (forall i :: 0 <= i < k ==> x[i] == m[i][k]) <==> x == LastColumn(m, k);
      }
    }
    forall x: Row | |x| == k && Kernel(m, k, x + [0]) ensures forall i :: 0 <= i < k ==> x[i] == 0 {
      var v := x + [0];
      forall i | 0 <= i < k ensures x[i] == 0 {
        ReducedDot(m, k, v, i);
        MulZero(m[i][k]);
        AddLaws(x[i], 0, 0);
        assert Dot(m[i], v, k + 1) == 0;
      }
    }
  }

  lemma SameKernelTransfers(a: seq<Row>, b: seq<Row>, k: nat)
    requires Shape(a, k) && Shape(b, k) && SameKernel(a, b, k)
    ensures Singular(a, k) <==> Singular(b, k)
    ensures forall x: Row :: Solves(a, k, x) <==> Solves(b, k, x)
  {
    hide Kernel;
  }

  // ---- the elimination itself

  ghost function RowOf(mat: array2<Byte>, k: nat, i: nat): (r: Row)
    requires i < mat.Length0 && k < mat.Length1
    reads mat
    ensures |r| == k + 1
  {
    seq(k + 1, j requires 0 <= j <= k reads mat => mat[i, j])
  }

  // The k by k+1 augmented matrix held in the upper left corner of mat.
  ghost function Rows(mat: array2<Byte>, k: nat): (m: seq<Row>)
    requires k <= mat.Length0 && k < mat.Length1
    reads mat
    ensures Shape(m, k)
    ensures forall i, j :: 0 <= i < k && 0 <= j <= k ==> m[i][j] == mat[i, j]
  {
    seq(k, i requires 0 <= i < k reads mat => RowOf(mat, k, i))
  }

  // Lines 48-52.
  method SwapRows(mat: array2<Byte>, k: nat, a: nat, b: nat)
    requires k <= mat.Length0 && k < mat.Length1 && a < b < k
    modifies mat
    ensures Rows(mat, k) == Swapped(old(Rows(mat, k)), a, b)
  {
    ghost var m := Rows(mat, k);
    for j := 0 to k + 1
      invariant forall r, c :: 0 <= r < k && 0 <= c <= k ==>
        mat[r, c] == if c < j && r == a then m[b][c] else if c < j && r == b then m[a][c] else m[r][c]
    {
      mat[a, j], mat[b, j] := mat[b, j], mat[a, j];
    }
    SameRows(Rows(mat, k), Swapped(m, a, b), k);
  }

  lemma SameRows(a: seq<Row>, b: seq<Row>, k: nat)
    requires Shape(a, k) && Shape(b, k)
    requires forall i, j :: 0 <= i < k && 0 <= j <= k ==> a[i][j] == b[i][j]
    ensures a == b
  {
    forall i | 0 <= i < k ensures a[i] == b[i] {}
  }

  // Lines 56-59: scale row col, whose entries left of col are zero.
  method ScaleRow(gf: Tables, mat: array2<Byte>, k: nat, col: nat)
    requires gf.Ready() && k <= mat.Length0 && k < mat.Length1 && col < k
    requires mat[col, col] != 0 && forall j :: 0 <= j < col ==> mat[col, j] == 0
    modifies mat
    ensures gf.Ready() && mat[col, col] == 1
    ensures exists c: Byte :: c != 0 && Rows(mat, k) == old(Rows(mat, k))[col := Times(c, old(Rows(mat, k))[col])]
  {
    hide Mul, Rows;
    ghost var m := Rows(mat, k);
    var inv := gf.Inv(mat[col, col]);
    for j := col to k + 1
      invariant gf.Ready()
      invariant forall r, c :: 0 <= r < k && 0 <= c <= k ==>
        mat[r, c] == if r == col && col <= c < j then Mul(m[r][c], inv) else m[r][c]
    {
      mat[col, j] := gf.Mul(mat[col, j], inv);
    }
    MulZero(inv);
    SameRows(Rows(mat, k), m[col := Times(inv, m[col])], k);
  }

  // Lines 63-67: clear column col of one row, using the scaled row col.
  method EliminateRow(gf: Tables, mat: array2<Byte>, k: nat, col: nat, row: nat)
    requires gf.Ready() && k <= mat.Length0 && k < mat.Length1 && col < k && row < k && row != col
    requires mat[col, col] == 1 && forall j :: 0 <= j < col ==> mat[col, j] == 0
    modifies mat
    ensures gf.Ready() && mat[row, col] == 0
    ensures Rows(mat, k) ==
            old(Rows(mat, k))[row := Plus(old(Rows(mat, k))[row], old(mat[row, col]), old(Rows(mat, k))[col])]
  {
    hide Mul, Add, Rows;
    ghost var m := Rows(mat, k);
    var factor := mat[row, col];
    MulZero(factor);
    if factor != 0 {
      for j := col to k + 1
        invariant gf.Ready()
        invariant forall r, c :: 0 <= r < k && 0 <= c <= k ==>
          mat[r, c] == if r == row && col <= c < j then Add(m[r][c], Mul(factor, m[col][c])) else m[r][c]
      {
        mat[row, j] := Add(mat[row, j], gf.Mul(factor, mat[col, j]));
      }
      MulOne(factor);
      MulComm(factor, 1);
      AddLaws(factor, 0, 0);
    }
    forall c | 0 <= c <= k ensures Add(m[row][c], 0) == m[row][c] { AddLaws(m[row][c], 0, 0); }
    forall c | 0 <= c <= k ensures Mul(0, m[col][c]) == 0 { MulZero(m[col][c]); }
    SameRows(Rows(mat, k), m[row := Plus(m[row], factor, m[col])], k);
  }

  lemma Reflexive(m: seq<Row>, k: nat)
    requires Shape(m, k)
    ensures SameKernel(m, m, k)
  {}

  lemma Chain(a: seq<Row>, b: seq<Row>, c: seq<Row>, k: nat)
    requires Shape(a, k) && Shape(b, k) && Shape(c, k) && SameKernel(a, b, k) && SameKernel(b, c, k)
    ensures SameKernel(a, c, k)
  {
    hide Kernel;
  }

  lemma SwapReduced(m: seq<Row>, k: nat, c: nat, p: nat)
    requires Shape(m, k) && c <= p < k && Reduced(m, k, c)
    ensures Shape(Swapped(m, c, p), k) && Reduced(Swapped(m, c, p), k, c)
  {}

  lemma ScaleReduced(m: seq<Row>, k: nat, c: nat, s: Byte)
    requires Shape(m, k) && c < k && Reduced(m, k, c)
    ensures Shape(m[c := Times(s, m[c])], k) && Reduced(m[c := Times(s, m[c])], k, c)
  {
    hide Mul;
    MulZero(s);
  }

  lemma PlusReduced(m: seq<Row>, k: nat, c: nat, i: nat, f: Byte)
    requires Shape(m, k) && c < k && i < k && Reduced(m, k, c)
    ensures Shape(m[i := Plus(m[i], f, m[c])], k) && Reduced(m[i := Plus(m[i], f, m[c])], k, c)
  {
    hide Mul, Add;
    MulZero(f);
    AddLaws(0, 0, 0);
    AddLaws(1, 0, 0);
  }

  // Lines 62-68.
  method EliminateColumn(gf: Tables, mat: array2<Byte>, k: nat, col: nat)
    requires gf.Ready() && k <= mat.Length0 && k < mat.Length1 && col < k
    requires mat[col, col] == 1 && Reduced(Rows(mat, k), k, col)
    modifies mat
    ensures gf.Ready() && Reduced(Rows(mat, k), k, col + 1)
    ensures SameKernel(old(Rows(mat, k)), Rows(mat, k), k)
  {
    hide Mul, Add, Rows, SameKernel, Plus;
    ghost var m0 := Rows(mat, k);
    Reflexive(m0, k);
    for row := 0 to k
      invariant gf.Ready() && Reduced(Rows(mat, k), k, col) && SameKernel(m0, Rows(mat, k), k)
      invariant forall i :: 0 <= i < row ==> mat[i, col] == if i == col then 1 else 0
      invariant mat[col, col] == 1
    {
      if row != col {
        ghost var m := Rows(mat, k);
        assert forall j :: 0 <= j < col ==> m[col][j] == 0;
        PlusReduced(m, k, col, row, mat[row, col]);
        AddKeeps(m, k, row, mat[row, col], col);
        EliminateRow(gf, mat, k, col, row);
        assert forall i :: 0 <= i < k && i != row ==> Rows(mat, k)[i][col] == m[i][col];
        Chain(m0, m, Rows(mat, k), k);
      }
    }
  }

  // Lines 39-41: the first row at or below col with a nonzero entry, or k.
  method FindPivot(mat: array2<Byte>, k: nat, col: nat) returns (p: nat)
    requires k <= mat.Length0 && k < mat.Length1 && col < k
    ensures col <= p <= k
    ensures p < k ==> mat[p, col] != 0
    ensures forall i :: col <= i < p ==> mat[i, col] == 0
  {
    p := col;
    while p < k && mat[p, col] == 0
      invariant col <= p <= k
      invariant forall i :: col <= i < p ==> mat[i, col] == 0
    {
      p := p + 1;
    }
  }

  // Lines 46-68: one column, given its pivot row.
  method ReduceColumn(gf: Tables, mat: array2<Byte>, k: nat, col: nat, p: nat)
    requires gf.Ready() && k <= mat.Length0 && k < mat.Length1 && col <= p < k
    requires mat[p, col] != 0 && Reduced(Rows(mat, k), k, col)
    modifies mat
    ensures gf.Ready() && Reduced(Rows(mat, k), k, col + 1)
    ensures SameKernel(old(Rows(mat, k)), Rows(mat, k), k)
  {
    hide Mul, Add, Rows, SameKernel, Times;
    ghost var m0 := Rows(mat, k);
    Reflexive(m0, k);
    if p != col {
      SwapReduced(m0, k, col, p);
      SwapKeeps(m0, k, col, p);
      SwapRows(mat, k, col, p);
    }
    ghost var m1 := Rows(mat, k);
    assert m1[col][col] == m0[p][col];
    ScaleRow(gf, mat, k, col);
    ghost var c: Byte :| c != 0 && Rows(mat, k) == m1[col := Times(c, m1[col])];
    ScaleReduced(m1, k, col, c);
    ScaleKeeps(m1, k, col, c);
    ghost var m2 := Rows(mat, k);
    Chain(m0, m1, m2, k);
    EliminateColumn(gf, mat, k, col);
    Chain(m0, m2, Rows(mat, k), k);
  }

  // gauss_elim: false is RGTP_ERR_FEC_FAIL.
  method Eliminate(gf: Tables, mat: array2<Byte>, k: nat) returns (ok: bool)
    requires gf.Ready() && k <= mat.Length0 && k < mat.Length1
    modifies mat
    ensures gf.Ready()
    ensures !ok <==> Singular(old(Rows(mat, k)), k)
    ensures ok ==> Reduced(Rows(mat, k), k, k)
    ensures ok ==> forall x: Row :: Solves(old(Rows(mat, k)), k, x) <==> x == LastColumn(Rows(mat, k), k)
    ensures SameKernel(old(Rows(mat, k)), Rows(mat, k), k)
  {
    hide Rows, SameKernel, Singular, Solves;
    ghost var m0 := Rows(mat, k);
    Reflexive(m0, k);
    for col := 0 to k
      invariant gf.Ready() && Reduced(Rows(mat, k), k, col) && SameKernel(m0, Rows(mat, k), k)
    {
      ghost var m := Rows(mat, k);
      var p := FindPivot(mat, k, col);
      if p == k {
        NoPivotSingular(m, k, col);
        SameKernelTransfers(m0, m, k);
        return false;
      }
      ReduceColumn(gf, mat, k, col, p);
      Chain(m0, m, Rows(mat, k), k);
    }
    ReducedSolved(Rows(mat, k), k);
    SameKernelTransfers(m0, Rows(mat, k), k);
    return true;
  }
}

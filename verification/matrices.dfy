/** Dense complex matrices as sequences of rows, with the operations numpy supplies to the model. */
module Matrices {
  import opened Complexes

  type Vector = seq<Complex>
  type Matrix = seq<seq<Complex>>

  function Min(a: nat, b: nat): nat { if a < b then a else b }

  predicate IsMatrix(m: Matrix, rows: nat, cols: nat)
  {
    |m| == rows && forall i :: 0 <= i < |m| ==> |m[i]| == cols
  }

  /** `np.eye(n)` */
  function Identity(n: nat): (r: Matrix)
    ensures IsMatrix(r, n, n)
    ensures forall i, j :: 0 <= i < n && 0 <= j < n ==> r[i][j] == if i == j then One else Zero
  {
    seq(n, i => seq(n, j => if i == j then One else Zero))
  }

  /** `np.zeros((rows, cols))` */
  function Zeros(rows: nat, cols: nat): (r: Matrix)
    ensures IsMatrix(r, rows, cols)
    ensures forall i, j :: 0 <= i < rows && 0 <= j < cols ==> r[i][j] == Zero
  {
    seq(rows, i => seq(cols, j => Zero))
  }

  /** Sum over k of u[k] * v[k]. */
  function Dot(u: Vector, v: Vector): Complex
    requires |u| == |v|
  {
    if |u| == 0 then Zero else Add(Mul(u[0], v[0]), Dot(u[1..], v[1..]))
  }

  /** Sum over k of |v[k]|^2, the squared Euclidean norm. */
  function VecNormSq(v: Vector): real
  {
    if |v| == 0 then 0.0 else NormSq(v[0]) + VecNormSq(v[1..])
  }

  function ConjVec(v: Vector): (r: Vector)
    ensures |r| == |v| && forall k :: 0 <= k < |v| ==> r[k] == Conj(v[k])
  {
    seq(|v|, k requires 0 <= k < |v| => Conj(v[k]))
  }

  function Column(m: Matrix, j: nat): (r: Vector)
    requires forall i :: 0 <= i < |m| ==> j < |m[i]|
    ensures |r| == |m| && forall i :: 0 <= i < |m| ==> r[i] == m[i][j]
  {
    seq(|m|, i requires 0 <= i < |m| => m[i][j])
  }

  /** The matrix product of a (with |b| columns) and b (with p columns). */
  function MatMul(a: Matrix, b: Matrix, p: nat): (r: Matrix)
    requires forall i :: 0 <= i < |a| ==> |a[i]| == |b|
    requires IsMatrix(b, |b|, p)
    ensures IsMatrix(r, |a|, p)
    ensures forall i, j :: 0 <= i < |a| && 0 <= j < p ==> r[i][j] == Dot(a[i], Column(b, j))
  {
    seq(|a|, i requires 0 <= i < |a| => seq(p, j requires 0 <= j < p => Dot(a[i], Column(b, j))))
  }

  function MatAdd(a: Matrix, b: Matrix): (r: Matrix)
    requires |a| == |b| && forall i :: 0 <= i < |a| ==> |a[i]| == |b[i]|
    ensures |r| == |a| && forall i :: 0 <= i < |a| ==> |r[i]| == |a[i]|
    ensures forall i, j :: 0 <= i < |a| && 0 <= j < |a[i]| ==> r[i][j] == Add(a[i][j], b[i][j])
  {
    seq(|a|, i requires 0 <= i < |a| => seq(|a[i]|, j requires 0 <= j < |a[i]| => Add(a[i][j], b[i][j])))
  }

  function MatSub(a: Matrix, b: Matrix): (r: Matrix)
    requires |a| == |b| && forall i :: 0 <= i < |a| ==> |a[i]| == |b[i]|
    ensures |r| == |a| && forall i :: 0 <= i < |a| ==> |r[i]| == |a[i]|
    ensures forall i, j :: 0 <= i < |a| && 0 <= j < |a[i]| ==> r[i][j] == Sub(a[i][j], b[i][j])
  {
    seq(|a|, i requires 0 <= i < |a| => seq(|a[i]|, j requires 0 <= j < |a[i]| => Sub(a[i][j], b[i][j])))
  }

  /** c * m, entry by entry. */
  function Scale(c: Complex, m: Matrix): (r: Matrix)
    ensures |r| == |m| && forall i :: 0 <= i < |m| ==> |r[i]| == |m[i]|
    ensures forall i, j :: 0 <= i < |m| && 0 <= j < |m[i]| ==> r[i][j] == Mul(c, m[i][j])
  {
    seq(|m|, i requires 0 <= i < |m| => seq(|m[i]|, j requires 0 <= j < |m[i]| => Mul(c, m[i][j])))
  }

  /** m / d, entry by entry (numpy's division of a matrix by a scalar). */
  function DivBy(m: Matrix, d: Complex): (r: Matrix)
    requires d != Zero
    ensures |r| == |m| && forall i :: 0 <= i < |m| ==> |r[i]| == |m[i]|
    ensures forall i, j :: 0 <= i < |m| && 0 <= j < |m[i]| ==> r[i][j] == Div(m[i][j], d)
  {
    seq(|m|, i requires 0 <= i < |m| => seq(|m[i]|, j requires 0 <= j < |m[i]| => Div(m[i][j], d)))
  }

  /** A vector as an n x 1 column matrix (the shape of the eigenvectors `get_ABCD` takes). */
  function ColumnMatrix(v: Vector): (r: Matrix)
    ensures IsMatrix(r, |v|, 1)
    ensures forall i :: 0 <= i < |v| ==> r[i][0] == v[i]
  {
    seq(|v|, i requires 0 <= i < |v| => [v[i]])
  }

  /** `m.H` for a matrix with the given number of columns. */
  function ConjTranspose(m: Matrix, cols: nat): (r: Matrix)
    requires IsMatrix(m, |m|, cols)
    ensures IsMatrix(r, cols, |m|)
    ensures forall i, j :: 0 <= i < cols && 0 <= j < |m| ==> r[i][j] == Conj(m[j][i])
  {
    seq(cols, i requires 0 <= i < cols => seq(|m|, j requires 0 <= j < |m| => Conj(m[j][i])))
  }

  /** `np.hstack((a, b))` */
  function HStack(a: Matrix, b: Matrix): (r: Matrix)
    requires |a| == |b|
    ensures |r| == |a| && forall i :: 0 <= i < |a| ==> r[i] == a[i] + b[i]
  {
    seq(|a|, i requires 0 <= i < |a| => a[i] + b[i])
  }

  /** `np.vstack((a, b))` */
  function VStack(a: Matrix, b: Matrix): (r: Matrix)
    ensures r == a + b
  {
    a + b
  }

  /** Matrices of the same shape with the same entries are equal. */
  lemma EqualEntries(a: Matrix, b: Matrix, rows: nat, cols: nat)
    requires IsMatrix(a, rows, cols) && IsMatrix(b, rows, cols)
    requires forall i, j :: 0 <= i < rows && 0 <= j < cols ==> a[i][j] == b[i][j]
    ensures a == b
  {
    forall i | 0 <= i < rows
      ensures a[i] == b[i]
    {
    }
  }

  /** A 1 x 1 matrix is determined by its only entry. */
  lemma OneByOne(m: Matrix)
    requires IsMatrix(m, 1, 1)
    ensures m == [[m[0][0]]]
  {
    assert m[0] == [m[0][0]];
  }

  lemma DotSingle(a: Complex, b: Complex)
    ensures Dot([a], [b]) == Mul(a, b)
  {
    assert [a][1..] == [] && [b][1..] == [];
  }

  lemma {:induction false} DotUnit(u: Vector, j: nat)
    requires j < |u|
    ensures Dot(u, seq(|u|, k => if k == j then One else Zero)) == u[j]
  {
    var e := seq(|u|, k => if k == j then One else Zero);
    if j == 0 {
      DotZeroRight(u[1..]);
      assert e[1..] == seq(|u| - 1, k => Zero);
    } else {
      assert e[1..] == seq(|u| - 1, k => if k == j - 1 then One else Zero);
      DotUnit(u[1..], j - 1);
    }
  }

  lemma {:induction false} DotUnitLeft(v: Vector, i: nat)
    requires i < |v|
    ensures Dot(seq(|v|, k => if i == k then One else Zero), v) == v[i]
  {
    var e := seq(|v|, k => if i == k then One else Zero);
    if i == 0 {
      DotZeroLeft(v[1..]);
      assert e[1..] == seq(|v| - 1, k => Zero);
    } else {
      assert e[1..] == seq(|v| - 1, k => if i - 1 == k then One else Zero);
      DotUnitLeft(v[1..], i - 1);
    }
  }

  lemma {:induction false} DotZeroRight(u: Vector)
    ensures Dot(u, seq(|u|, k => Zero)) == Zero
  {
    if |u| > 0 {
      assert seq(|u|, k => Zero)[1..] == seq(|u| - 1, k => Zero);
      DotZeroRight(u[1..]);
    }
  }

  lemma {:induction false} DotZeroLeft(v: Vector)
    ensures Dot(seq(|v|, k => Zero), v) == Zero
  {
    if |v| > 0 {
      assert seq(|v|, k => Zero)[1..] == seq(|v| - 1, k => Zero);
      DotZeroLeft(v[1..]);
    }
  }

  /** m * I == m */
  lemma MatMulIdentityRight(m: Matrix, n: nat)
    requires IsMatrix(m, |m|, n)
    ensures MatMul(m, Identity(n), n) == m
  {
    var r := MatMul(m, Identity(n), n);
    forall i | 0 <= i < |m|
      ensures r[i] == m[i]
    {
      forall j | 0 <= j < n
        ensures r[i][j] == m[i][j]
      {
        assert Column(Identity(n), j) == seq(n, k => if k == j then One else Zero);
        DotUnit(m[i], j);
      }
    }
  }

  /** I * m == m */
  lemma MatMulIdentityLeft(m: Matrix, p: nat)
    requires IsMatrix(m, |m|, p)
    ensures MatMul(Identity(|m|), m, p) == m
  {
    var n := |m|;
    var r := MatMul(Identity(n), m, p);
    forall i | 0 <= i < n
      ensures r[i] == m[i]
    {
      forall j | 0 <= j < p
        ensures r[i][j] == m[i][j]
      {
        assert Identity(n)[i] == seq(n, k => if i == k then One else Zero);
        DotUnitLeft(Column(m, j), i);
      }
    }
  }

  /** Scaling one side of a dot product scales the result. */
  lemma {:induction false} DotScaleLeft(c: Complex, cu: Vector, u: Vector, v: Vector)
    requires |cu| == |u| == |v|
    requires forall k :: 0 <= k < |u| ==> cu[k] == Mul(c, u[k])
    ensures Dot(cu, v) == Mul(c, Dot(u, v))
  {
    if |u| > 0 {
      DotScaleLeft(c, cu[1..], u[1..], v[1..]);
      MulAssoc(c, u[0], v[0]);
    }
  }

  /** The product of the conjugated vector with the vector itself is its squared norm. */
  lemma {:induction false} DotConjSelf(v: Vector)
    ensures Dot(ConjVec(v), v) == FromReal(VecNormSq(v))
  {
    if |v| > 0 {
      assert ConjVec(v)[1..] == ConjVec(v[1..]);
      DotConjSelf(v[1..]);
      MulConjSelf(v[0]);
    }
  }
}

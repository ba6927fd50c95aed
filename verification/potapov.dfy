/**
 * The Blaschke-Potapov product of Potapov_Code/Potapov.py and the state-space (A, B, C, D)
 * realization assembled from it. Eigenvectors, which `Potapov_prod` and `get_ABCD` take as n x 1 matrices,
 * are vectors here; the complex square root is a parameter supplied by the caller.
 */
module Potapov {
  import opened Results
  import opened Complexes
  import opened Matrices

  /** P = vec * vec.H, the rank-one matrix built from an eigenvector. */
  function Projector(vec: Vector): (r: Matrix)
    ensures IsMatrix(r, |vec|, |vec|)
    ensures forall i, j :: 0 <= i < |vec| && 0 <= j < |vec| ==> r[i][j] == Mul(vec[i], Conj(vec[j]))
  {
    var col := ColumnMatrix(vec);
    var r := MatMul(col, ConjTranspose(col, 1), |vec|);
    ProjectorEntries(vec, r);
    r
  }

  lemma ProjectorEntries(vec: Vector, r: Matrix)
    requires r == MatMul(ColumnMatrix(vec), ConjTranspose(ColumnMatrix(vec), 1), |vec|)
    ensures forall i, j :: 0 <= i < |vec| && 0 <= j < |vec| ==> r[i][j] == Mul(vec[i], Conj(vec[j]))
  {
    var col := ColumnMatrix(vec);
    var row := ConjTranspose(col, 1);
    forall i, j | 0 <= i < |vec| && 0 <= j < |vec|
      ensures r[i][j] == Mul(vec[i], Conj(vec[j]))
    {
      assert col[i] == [vec[i]];
      assert Column(row, j) == [Conj(vec[j])];
      assert r[i][j] == Dot([vec[i]], [Conj(vec[j])]);
      DotSingle(vec[i], Conj(vec[j]));
    }
  }

  /** The factor I - P + P * (z + conj(pole)) / (z - pole), undefined at the pole itself. */
  function Factor(z: Complex, pole: Complex, vec: Vector): (r: Matrix)
    requires z != pole
    ensures IsMatrix(r, |vec|, |vec|)
  {
    var n := |vec|;
    var P := Projector(vec);
    MatAdd(MatSub(Identity(n), P), DivBy(Scale(Add(z, Conj(pole)), P), Sub(z, pole)))
  }

  /**
   * The pairs prod uses: it peels the last eigenvector together with the last eigenvalue, so
   * for lists of unequal length it consumes the last Min(|vecs|, |vals|) of each. Each of
   * those eigenvectors must have the dimension of U and no eigenvalue may equal z.
   */
  predicate ProdDefined(z: Complex, n: nat, vecs: seq<Vector>, vals: seq<Complex>)
  {
    var m := Min(|vecs|, |vals|);
    (forall k :: |vecs| - m <= k < |vecs| ==> |vecs[k]| == n) &&
    (forall k :: |vals| - m <= k < |vals| ==> vals[k] != z)
  }

  /** `prod(z, U, eigenvectors, eigenvalues)`: U times the factors of the pairs, in list order. */
  function Prod(z: Complex, U: Matrix, vecs: seq<Vector>, vals: seq<Complex>): (r: Matrix)
    requires IsMatrix(U, |U|, |U|)
    requires ProdDefined(z, |U|, vecs, vals)
    ensures IsMatrix(r, |U|, |U|)
    ensures vecs == [] || vals == [] ==> r == U
    decreases |vecs|
  {
    if vecs == [] || vals == [] then U
    else
      MatMul(Prod(z, U, vecs[..|vecs| - 1], vals[..|vals| - 1]),
             Factor(z, vals[|vals| - 1], vecs[|vecs| - 1]), |U|)
  }

  /** The pairs Potapov_prod uses: zip pairs them from the start. */
  predicate ZipDefined(z: Complex, n: nat, poles: seq<Complex>, vecs: seq<Vector>)
  {
    forall k :: 0 <= k < |poles| && k < |vecs| ==> |vecs[k]| == n && poles[k] != z
  }

  /** The value Potapov_prod computes: prod seeded with the identity on the zipped pairs. */
  function Evaluate(z: Complex, poles: seq<Complex>, vecs: seq<Vector>, n: nat): (r: Matrix)
    requires ZipDefined(z, n, poles, vecs)
    ensures IsMatrix(r, n, n)
  {
    var m := Min(|poles|, |vecs|);
    Prod(z, Identity(n), vecs[..m], poles[..m])
  }

  /**
   * `Potapov_prod(z, poles, vecs, N)`: R starts as the N x N identity and is multiplied on the
   * right by one factor per zipped pair. It computes prod seeded with the identity on the
   * first Min(|poles|, |vecs|) pairs, and the identity when either list is empty.
   */
  method PotapovProd(z: Complex, poles: seq<Complex>, vecs: seq<Vector>, n: nat) returns (R: Matrix)
    requires ZipDefined(z, n, poles, vecs)
    ensures IsMatrix(R, n, n)
    ensures R == Prod(z, Identity(n), vecs[..Min(|poles|, |vecs|)], poles[..Min(|poles|, |vecs|)])
    ensures R == Evaluate(z, poles, vecs, n)
    ensures poles == [] || vecs == [] ==> R == Identity(n)
  {
    R := Identity(n);
    var k := 0;
    while k < |poles| && k < |vecs|
      invariant 0 <= k <= Min(|poles|, |vecs|)
      invariant IsMatrix(R, n, n)
      invariant R == Prod(z, Identity(n), vecs[..k], poles[..k])
    {
      ZipStep(z, n, poles, vecs, k);
      R := MatMul(R, Factor(z, poles[k], vecs[k]), n);
      k := k + 1;
    }
  }

  /** The zipped prefixes are where prod is defined, and one more pair multiplies by its factor. */
  lemma ZipStep(z: Complex, n: nat, poles: seq<Complex>, vecs: seq<Vector>, k: nat)
    requires ZipDefined(z, n, poles, vecs) && k < Min(|poles|, |vecs|)
    ensures ProdDefined(z, n, vecs[..k], poles[..k]) && ProdDefined(z, n, vecs[..k + 1], poles[..k + 1])
    ensures |vecs[k]| == n && poles[k] != z
    ensures Prod(z, Identity(n), vecs[..k + 1], poles[..k + 1]) ==
      MatMul(Prod(z, Identity(n), vecs[..k], poles[..k]), Factor(z, poles[k], vecs[k]), n)
  {
    assert vecs[..k + 1][..k] == vecs[..k] && vecs[..k + 1][k] == vecs[k];
    assert poles[..k + 1][..k] == poles[..k] && poles[..k + 1][k] == poles[k];
    ProdStep(z, Identity(n), vecs[..k + 1], poles[..k + 1]);
  }

  /** `finite_transfer_function(U, eigenvectors, eigenvalues)`: z maps to prod(z, U, ...). */
  function FiniteTransferFunction(U: Matrix, vecs: seq<Vector>, vals: seq<Complex>): (f: Complex --> Matrix)
    requires IsMatrix(U, |U|, |U|)
    ensures forall z :: ProdDefined(z, |U|, vecs, vals) ==> f.requires(z) && f(z) == Prod(z, U, vecs, vals)
  {
    z requires ProdDefined(z, |U|, vecs, vals) => Prod(z, U, vecs, vals)
  }

  /**
   * For lists of unequal length prod pairs the lists from the end: extra leading entries of the
   * longer list are ignored (while Potapov_prod ignores extra trailing ones).
   */
  lemma {:induction false} ProdIgnoresLeadingExtras(z: Complex, U: Matrix, extra: seq<Vector>, extraVals: seq<Complex>,
                                                    vecs: seq<Vector>, vals: seq<Complex>)
    requires IsMatrix(U, |U|, |U|)
    requires |vecs| == |vals| && (extra == [] || extraVals == [])
    requires ProdDefined(z, |U|, vecs, vals)
    ensures ProdDefined(z, |U|, extra + vecs, extraVals + vals)
    ensures Prod(z, U, extra + vecs, extraVals + vals) == Prod(z, U, vecs, vals)
    decreases |vecs|
  {
    var vs, ls := extra + vecs, extraVals + vals;
    ExtrasDefined(z, |U|, extra, extraVals, vecs, vals);
    if vecs == [] {
      assert vs == extra && ls == extraVals;
    } else {
      var k := |vecs| - 1;
      PrefixDefined(z, |U|, vecs, vals);
      ProdIgnoresLeadingExtras(z, U, extra, extraVals, vecs[..k], vals[..k]);
      ExtrasStep(z, U, extra, extraVals, vecs, vals);
    }
  }

  /** The inductive step: equal products of the prefixes stay equal after the factor of the last pair. */
  lemma ExtrasStep(z: Complex, U: Matrix, extra: seq<Vector>, extraVals: seq<Complex>,
                   vecs: seq<Vector>, vals: seq<Complex>)
    requires IsMatrix(U, |U|, |U|)
    requires |vecs| == |vals| > 0 && (extra == [] || extraVals == [])
    requires ProdDefined(z, |U|, vecs, vals) && ProdDefined(z, |U|, extra + vecs, extraVals + vals)
    requires ProdDefined(z, |U|, vecs[..|vecs| - 1], vals[..|vals| - 1])
    requires ProdDefined(z, |U|, extra + vecs[..|vecs| - 1], extraVals + vals[..|vals| - 1])
    requires Prod(z, U, extra + vecs[..|vecs| - 1], extraVals + vals[..|vals| - 1]) ==
             Prod(z, U, vecs[..|vecs| - 1], vals[..|vals| - 1])
    ensures Prod(z, U, extra + vecs, extraVals + vals) == Prod(z, U, vecs, vals)
  {
    DropLastOfConcat(extra, vecs);
    DropLastOfConcat(extraVals, vals);
    ProdStep(z, U, extra + vecs, extraVals + vals);
    ProdStep(z, U, vecs, vals);
  }

  /** Dropping the last element of a + b, for a non-empty b, drops the last element of b. */
  lemma DropLastOfConcat<T>(a: seq<T>, b: seq<T>)
    requires |b| > 0
    ensures (a + b)[..|a + b| - 1] == a + b[..|b| - 1]
    ensures (a + b)[|a + b| - 1] == b[|b| - 1]
  {
  }

  /** Where prod is defined on equal-length lists, it is defined on their prefixes without the last pair. */
  lemma PrefixDefined(z: Complex, n: nat, vecs: seq<Vector>, vals: seq<Complex>)
    requires |vecs| == |vals| > 0 && ProdDefined(z, n, vecs, vals)
    ensures ProdDefined(z, n, vecs[..|vecs| - 1], vals[..|vals| - 1])
  {
  }

  lemma ExtrasDefined(z: Complex, n: nat, extra: seq<Vector>, extraVals: seq<Complex>,
                      vecs: seq<Vector>, vals: seq<Complex>)
    requires |vecs| == |vals| && (extra == [] || extraVals == [])
    requires ProdDefined(z, n, vecs, vals)
    ensures ProdDefined(z, n, extra + vecs, extraVals + vals)
  {
  }

  /** One unfolding of Prod, stated so that it can be used on any pair of lists. */
  lemma ProdStep(z: Complex, U: Matrix, vecs: seq<Vector>, vals: seq<Complex>)
    requires IsMatrix(U, |U|, |U|)
    requires ProdDefined(z, |U|, vecs, vals)
    requires vecs != [] && vals != []
    ensures Prod(z, U, vecs, vals) ==
      MatMul(Prod(z, U, vecs[..|vecs| - 1], vals[..|vals| - 1]),
             Factor(z, vals[|vals| - 1], vecs[|vecs| - 1]), |U|)
  {
  }

  /** The scalar Blaschke factor (z + conj(p)) / (z - p). */
  function Blaschke(z: Complex, p: Complex): Complex
    requires z != p
  {
    Div(Add(z, Conj(p)), Sub(z, p))
  }

  /** The product of the scalar factors of all poles, multiplied in list order. */
  function BlaschkeProduct(z: Complex, poles: seq<Complex>): Complex
    requires forall k :: 0 <= k < |poles| ==> poles[k] != z
  {
    if poles == [] then One
    else Mul(BlaschkeProduct(z, poles[..|poles| - 1]), Blaschke(z, poles[|poles| - 1]))
  }

  /** In dimension one a unit eigenvector v gives the 1 x 1 matrix of the scalar Blaschke factor. */
  lemma ScalarFactor(z: Complex, p: Complex, v: Complex)
    requires z != p
    requires NormSq(v) == 1.0
    ensures Factor(z, p, [v]) == [[Blaschke(z, p)]]
  {
    var P := Projector([v]);
    MulConjSelf(v);
    assert P[0][0] == One;
    var c := Add(z, Conj(p));
    var d := Sub(z, p);
    MulOneRight(c);
    var S := Scale(c, P);
    assert S[0][0] == c;
    var Q := DivBy(S, d);
    assert Q[0][0] == Blaschke(z, p);
    var M := MatSub(Identity(1), P);
    assert M[0][0] == Zero;
    var F := MatAdd(M, Q);
    assert |F| == 1 && |F[0]| == 1;
    OneByOne(F);
  }

  /** All eigenvectors one-dimensional of unit norm. */
  predicate UnitScalars(vecs: seq<Vector>)
  {
    forall k :: 0 <= k < |vecs| ==> |vecs[k]| == 1 && NormSq(vecs[k][0]) == 1.0
  }

  /** In dimension one the product is U times the product of the scalar Blaschke factors. */
  lemma {:induction false} ScalarProd(z: Complex, u: Complex, vecs: seq<Vector>, poles: seq<Complex>)
    requires |vecs| == |poles| && UnitScalars(vecs)
    requires forall k :: 0 <= k < |poles| ==> poles[k] != z
    ensures ProdDefined(z, 1, vecs, poles)
    ensures Prod(z, [[u]], vecs, poles) == [[Mul(u, BlaschkeProduct(z, poles))]]
  {
    if poles == [] {
      MulOneRight(u);
    } else {
      var n := |poles|;
      var p := poles[n - 1];
      ScalarProd(z, u, vecs[..n - 1], poles[..n - 1]);
      var b := BlaschkeProduct(z, poles[..n - 1]);
      var f := Blaschke(z, p);
      assert vecs[n - 1] == [vecs[n - 1][0]];
      ScalarFactor(z, p, vecs[n - 1][0]);
      var R := MatMul([[Mul(u, b)]], [[f]], 1);
      assert Column([[f]], 0) == [f];
      DotSingle(Mul(u, b), f);
      assert R[0][0] == Mul(Mul(u, b), f);
      OneByOne(R);
      MulAssoc(u, b, f);
    }
  }

  /** A single pole with a unit eigenvector, evaluated at z = 0, gives conj(p) / (-p). */
  lemma ScalarProdAtZero(p: Complex, v: Complex)
    requires p != Zero
    requires NormSq(v) == 1.0
    ensures Prod(Zero, Identity(1), [[v]], [p]) == [[Div(Conj(p), Neg(p))]]
  {
    assert Identity(1)[0][0] == One;
    OneByOne(Identity(1));
    ScalarProd(Zero, One, [[v]], [p]);
    assert [p][..0] == [];
    var f := Blaschke(Zero, p);
    assert BlaschkeProduct(Zero, [p]) == Mul(One, f);
    MulOneRight(f);
    assert Add(Zero, Conj(p)) == Conj(p) && Sub(Zero, p) == Neg(p);
  }

  /** The pole p = -1 + 2j with eigenvector [1] gives conj(p) / (-p) = 0.6 - 0.8j at z = 0. */
  lemma ConcreteScalarPole()
    ensures Prod(Zero, Identity(1), [[One]], [Complex(-1.0, 2.0)]) == [[Complex(0.6, -0.8)]]
  {
    var p := Complex(-1.0, 2.0);
    ScalarProdAtZero(p, One);
    DivUnique(Conj(p), Neg(p), Complex(0.6, -0.8));
  }

  /**
   * On the imaginary axis each scalar Blaschke factor has modulus one: |z + conj(p)| equals
   * |z - p| when Re(z) == 0.
   */
  lemma BlaschkeAllPass(z: Complex, p: Complex)
    requires z.re == 0.0 && z != p
    ensures NormSq(Blaschke(z, p)) == 1.0
  {
    var a, d := Add(z, Conj(p)), Sub(z, p);
    assert NormSq(a) == NormSq(d);
    NormSqMul(a, Inv(d));
    NormSqInv(d);
  }

  /** Hence so does the whole scalar product. */
  lemma {:induction false} BlaschkeProductAllPass(z: Complex, poles: seq<Complex>)
    requires z.re == 0.0
    requires forall k :: 0 <= k < |poles| ==> poles[k] != z
    ensures NormSq(BlaschkeProduct(z, poles)) == 1.0
  {
    if poles != [] {
      var n := |poles|;
      BlaschkeProductAllPass(z, poles[..n - 1]);
      BlaschkeAllPass(z, poles[n - 1]);
      NormSqMul(BlaschkeProduct(z, poles[..n - 1]), Blaschke(z, poles[n - 1]));
    }
  }

  /**
   * `get_Potapov(T, poles, found_vecs)` with the transfer function left abstract: t0 stands for
   * T(0), and z maps to T(0) * Potapov_prod(0, ...).H * Potapov_prod(z, ...).
   */
  function GetPotapov(t0: Matrix, poles: seq<Complex>, vecs: seq<Vector>): (f: Complex --> Matrix)
    requires IsMatrix(t0, |t0|, |t0|)
    requires ZipDefined(Zero, |t0|, poles, vecs)
    ensures forall z :: ZipDefined(z, |t0|, poles, vecs) ==> f.requires(z) && IsMatrix(f(z), |t0|, |t0|)
  {
    var n := |t0|;
    var scale := MatMul(t0, ConjTranspose(Evaluate(Zero, poles, vecs, n), n), n);
    z requires ZipDefined(z, n, poles, vecs) => MatMul(scale, Evaluate(z, poles, vecs, n), n)
  }

  /**
   * In dimension one with unit eigenvectors and poles off zero, the reconstruction matches the
   * transfer function at z = 0, as get_Potapov's documentation promises.
   */
  lemma ScalarReconstructionAtZero(t: Complex, poles: seq<Complex>, vecs: seq<Vector>)
    requires |vecs| == |poles| && UnitScalars(vecs)
    requires forall k :: 0 <= k < |poles| ==> poles[k] != Zero
    ensures ZipDefined(Zero, 1, poles, vecs)
    ensures GetPotapov([[t]], poles, vecs)(Zero) == [[t]]
  {
    var m := |poles|;
    assert vecs[..m] == vecs && poles[..m] == poles;
    assert Identity(1)[0][0] == One;
    OneByOne(Identity(1));
    ScalarProd(Zero, One, vecs, poles);
    var b := BlaschkeProduct(Zero, poles);
    MulOneRight(b);
    var P0 := Evaluate(Zero, poles, vecs, 1);
    assert P0 == [[b]];
    BlaschkeProductAllPass(Zero, poles);
    var H := ConjTranspose(P0, 1);
    assert H[0][0] == Conj(b);
    OneByOne(H);
    var S := MatMul([[t]], H, 1);
    assert Column(H, 0) == [Conj(b)];
    DotSingle(t, Conj(b));
    OneByOne(S);
    var R := MatMul(S, P0, 1);
    assert Column(P0, 0) == [b];
    DotSingle(Mul(t, Conj(b)), b);
    OneByOne(R);
    MulAssoc(t, Conj(b), b);
    MulConjSelf(b);
    MulOneRight(t);
  }

  /** The four matrices [A, B, C, D] of a state-space model x' = A x + B u, y = C x + D u. */
  datatype StateSpace = StateSpace(A: Matrix, B: Matrix, C: Matrix, D: Matrix)

  /** k states, n inputs and n outputs. */
  predicate HasShape(r: StateSpace, k: nat, n: nat)
  {
    IsMatrix(r.A, k, k) && IsMatrix(r.B, k, n) && IsMatrix(r.C, n, k) && IsMatrix(r.D, n, n)
  }

  /** q = sqrt(-(val + conj(val))), with the square root supplied by the caller. */
  function Gain(val: Complex, sqrt: Complex -> Complex): Complex
  {
    sqrt(Neg(Add(val, Conj(val))))
  }

  /**
   * `get_ABCD(val, vec)`: A = val * vec.H * vec, B = -q * vec.H, C = q * vec, D = I, so A is
   * val times the squared norm of vec.
   */
  function GetABCD(val: Complex, vec: Vector, sqrt: Complex -> Complex): (r: StateSpace)
    ensures HasShape(r, 1, |vec|)
    ensures r.A[0][0] == Mul(val, FromReal(VecNormSq(vec)))
    ensures forall l :: 0 <= l < |vec| ==> r.B[0][l] == Neg(Mul(Gain(val, sqrt), Conj(vec[l])))
    ensures forall l :: 0 <= l < |vec| ==> r.C[l][0] == Mul(Gain(val, sqrt), vec[l])
    ensures r.D == Identity(|vec|)
  {
    var q := Gain(val, sqrt);
    var row := [ConjVec(vec)];
    DotConjSelf(vec);
    var r := StateSpace([[Mul(val, Dot(ConjVec(vec), vec))]], Scale(Neg(q), row), Scale(q, ColumnMatrix(vec)),
                        Identity(|vec|));
    assert forall l :: 0 <= l < |vec| ==> r.B[0][l] == Mul(Neg(q), Conj(vec[l]));
    GainEntries(q, vec);
    r
  }

  lemma GainEntries(q: Complex, vec: Vector)
    ensures forall l :: 0 <= l < |vec| ==> Mul(Neg(q), Conj(vec[l])) == Neg(Mul(q, Conj(vec[l])))
  {
    forall l | 0 <= l < |vec|
      ensures Mul(Neg(q), Conj(vec[l])) == Neg(Mul(q, Conj(vec[l])))
    {
      MulNegRight(q, Conj(vec[l]));
    }
  }

  /** With a unit eigenvector the single state evolves with the pole itself: A == [[val]]. */
  lemma SinglePoleEigenvalue(val: Complex, vec: Vector, sqrt: Complex -> Complex)
    requires VecNormSq(vec) == 1.0
    ensures GetABCD(val, vec, sqrt).A == [[val]]
  {
    var r := GetABCD(val, vec, sqrt);
    OneByOne(r.A);
  }

  /** D + C (z - A)^(-1) B, the transfer function of a realization with a single state. */
  function Transfer1(r: StateSpace, z: Complex, n: nat): (t: Matrix)
    requires HasShape(r, 1, n) && z != r.A[0][0]
    ensures IsMatrix(t, n, n)
  {
    MatAdd(r.D, DivBy(MatMul(r.C, r.B, n), Sub(z, r.A[0][0])))
  }

  /** The scalar identity behind SinglePoleRealization, for one entry. */
  lemma RealizationEntry(val: Complex, z: Complex, q: Complex, x: Complex, y: Complex, e: Complex)
    requires z != val
    requires Mul(q, q) == Neg(Add(val, Conj(val)))
    ensures Add(e, Div(Mul(Mul(q, x), Neg(Mul(q, Conj(y)))), Sub(z, val))) ==
      Add(Sub(e, Mul(x, Conj(y))), Div(Mul(Add(z, Conj(val)), Mul(x, Conj(y))), Sub(z, val)))
  {
    var d := Sub(z, val);
    var w := Mul(x, Conj(y));
    var k := Inv(d);
    MulInv(d);
    MulNegRight(Mul(q, x), Mul(q, Conj(y)));
    MulSwapMiddle(q, x, q, Conj(y));
    assert Mul(Mul(q, x), Neg(Mul(q, Conj(y)))) == Mul(Add(val, Conj(val)), w);
    CrossMultiplied(val, z, w, k);
    MulOneRight(w);
  }

  /** (val + conj val) w k == (z + conj val) w k - w (z - val) k, a polynomial identity. */
  lemma CrossMultiplied(val: Complex, z: Complex, w: Complex, k: Complex)
    ensures Mul(Mul(Add(val, Conj(val)), w), k) ==
      Add(Mul(Mul(Add(z, Conj(val)), w), k), Neg(Mul(w, Mul(Sub(z, val), k))))
  {
    var u := Mul(w, k);
    MulAssoc(Add(val, Conj(val)), w, k);
    MulAssoc(Add(z, Conj(val)), w, k);
    MulSwapLeft(w, Sub(z, val), k);
    assert Mul(Add(val, Conj(val)), u) == Add(Mul(Add(z, Conj(val)), u), Neg(Mul(Sub(z, val), u)));
  }

  /**
   * A unit eigenvector and a gain with q * q == -(val + conj(val)) make get_ABCD a realization
   * of the Potapov factor: D + C (z - A)^(-1) B equals the factor at every z off the pole.
   */
  lemma SinglePoleRealization(val: Complex, vec: Vector, sqrt: Complex -> Complex, z: Complex)
    requires VecNormSq(vec) == 1.0
    requires Mul(Gain(val, sqrt), Gain(val, sqrt)) == Neg(Add(val, Conj(val)))
    requires z != val
    ensures z != GetABCD(val, vec, sqrt).A[0][0]
    ensures Transfer1(GetABCD(val, vec, sqrt), z, |vec|) == Factor(z, val, vec)
  {
    SinglePoleEigenvalue(val, vec, sqrt);
    RealizesFactor(GetABCD(val, vec, sqrt), val, vec, Gain(val, sqrt), z);
  }

  /** The same statement for any single-state realization with get_ABCD's entries. */
  lemma RealizesFactor(r: StateSpace, val: Complex, vec: Vector, q: Complex, z: Complex)
    requires HasShape(r, 1, |vec|) && r.A[0][0] == val && r.D == Identity(|vec|)
    requires forall l :: 0 <= l < |vec| ==> r.B[0][l] == Neg(Mul(q, Conj(vec[l])))
    requires forall l :: 0 <= l < |vec| ==> r.C[l][0] == Mul(q, vec[l])
    requires Mul(q, q) == Neg(Add(val, Conj(val)))
    requires z != val
    ensures Transfer1(r, z, |vec|) == Factor(z, val, vec)
  {
    var n := |vec|;
    var T := Transfer1(r, z, n);
    var F := Factor(z, val, vec);
    forall i, j | 0 <= i < n && 0 <= j < n
      ensures T[i][j] == F[i][j]
    {
      Transfer1Entry(r, z, n, i, j);
      FactorEntry(z, val, vec, i, j);
      RealizationEntry(val, z, q, vec[i], vec[j], Identity(n)[i][j]);
    }
    EqualEntries(T, F, n, n);
  }

  lemma Transfer1Entry(r: StateSpace, z: Complex, n: nat, i: nat, j: nat)
    requires HasShape(r, 1, n) && z != r.A[0][0]
    requires i < n && j < n
    ensures Transfer1(r, z, n)[i][j] == Add(r.D[i][j], Div(Mul(r.C[i][0], r.B[0][j]), Sub(z, r.A[0][0])))
  {
    var CB := MatMul(r.C, r.B, n);
    assert r.C[i] == [r.C[i][0]];
    assert Column(r.B, j) == [r.B[0][j]];
    DotSingle(r.C[i][0], r.B[0][j]);
  }

  lemma FactorEntry(z: Complex, pole: Complex, vec: Vector, i: nat, j: nat)
    requires z != pole
    requires i < |vec| && j < |vec|
    ensures var w := Mul(vec[i], Conj(vec[j]));
      Factor(z, pole, vec)[i][j] ==
        Add(Sub(Identity(|vec|)[i][j], w), Div(Mul(Add(z, Conj(pole)), w), Sub(z, pole)))
  {
  }

  /**
   * The block composition get_Potapov_ABCD applies to the realization of the tail (k states)
   * and that of the head (one state): A = [[A1, 0], [B2 * C1, A2]], B = [[B1], [B2 * D1]],
   * C = [D2 * C1, C2] and D = D2 * D1.
   */
  function Assemble(tail: StateSpace, head: StateSpace, k: nat, n: nat): (r: StateSpace)
    requires HasShape(tail, k, n) && HasShape(head, 1, n)
    ensures HasShape(r, k + 1, n)
  {
    var O := Zeros(k, 1);
    var A := VStack(HStack(tail.A, O), HStack(MatMul(head.B, tail.C, k), head.A));
    var B := VStack(tail.B, MatMul(head.B, tail.D, n));
    var C := HStack(MatMul(head.D, tail.C, k), head.C);
    StateSpace(A, B, C, MatMul(head.D, tail.D, n))
  }

  lemma AssembleRowsA(tail: StateSpace, head: StateSpace, k: nat, n: nat)
    requires HasShape(tail, k, n) && HasShape(head, 1, n)
    ensures var r := Assemble(tail, head, k, n);
      (forall i :: 0 <= i < k ==> r.A[i] == tail.A[i] + [Zero]) &&
      r.A[k] == MatMul(head.B, tail.C, k)[0] + head.A[0]
  {
    var O := Zeros(k, 1);
    forall i | 0 <= i < k
      ensures O[i] == [Zero]
    {
      assert |O[i]| == 1 && O[i][0] == Zero;
    }
  }

  lemma AssembleRowsB(tail: StateSpace, head: StateSpace, k: nat, n: nat)
    requires HasShape(tail, k, n) && HasShape(head, 1, n) && tail.D == Identity(n)
    ensures var r := Assemble(tail, head, k, n);
      (forall i :: 0 <= i < k ==> r.B[i] == tail.B[i]) && r.B[k] == head.B[0]
  {
    MatMulIdentityRight(head.B, n);
  }

  lemma AssembleRowsCD(tail: StateSpace, head: StateSpace, k: nat, n: nat)
    requires HasShape(tail, k, n) && HasShape(head, 1, n)
    requires tail.D == Identity(n) && head.D == Identity(n)
    ensures var r := Assemble(tail, head, k, n);
      (forall l :: 0 <= l < n ==> r.C[l] == tail.C[l] + head.C[l]) && r.D == Identity(n)
  {
    MatMulIdentityLeft(tail.C, k);
    MatMulIdentityLeft(Identity(n), n);
  }

  /** Pair k - 1 - j of the lists owns state j of a cascade of k states. */
  predicate PairsFit(poles: seq<Complex>, vecs: seq<Vector>, k: nat, n: nat)
  {
    k <= |poles| && k <= |vecs| && forall i :: 0 <= i < k ==> |vecs[i]| == n
  }

  /** The diagonal of A holds the pole of state j times the squared norm of its eigenvector. */
  predicate CascadeDiagonal(r: StateSpace, poles: seq<Complex>, vecs: seq<Vector>, k: nat, n: nat)
    requires HasShape(r, k, n) && PairsFit(poles, vecs, k, n)
  {
    forall j :: 0 <= j < k ==> r.A[j][j] == Mul(poles[k - 1 - j], FromReal(VecNormSq(vecs[k - 1 - j])))
  }

  /** A is lower triangular, and below the diagonal A[i][j] = B[i] * C[:, j]. */
  predicate CascadeTriangle(r: StateSpace, k: nat, n: nat)
    requires HasShape(r, k, n)
  {
    (forall i, j :: 0 <= i < j < k ==> r.A[i][j] == Zero) &&
    (forall i, j :: 0 <= j < i < k ==> r.A[i][j] == Dot(r.B[i], Column(r.C, j)))
  }

  /** Row j of B is -q * vec.H for the pair of state j. */
  predicate CascadeB(r: StateSpace, poles: seq<Complex>, vecs: seq<Vector>, sqrt: Complex -> Complex, k: nat, n: nat)
    requires HasShape(r, k, n) && PairsFit(poles, vecs, k, n)
  {
    forall j, l :: 0 <= j < k && 0 <= l < n ==>
      r.B[j][l] == Neg(Mul(Gain(poles[k - 1 - j], sqrt), Conj(vecs[k - 1 - j][l])))
  }

  /** Column j of C is q * vec for the pair of state j. */
  predicate CascadeC(r: StateSpace, poles: seq<Complex>, vecs: seq<Vector>, sqrt: Complex -> Complex, k: nat, n: nat)
    requires HasShape(r, k, n) && PairsFit(poles, vecs, k, n)
  {
    forall l, j :: 0 <= l < n && 0 <= j < k ==>
      r.C[l][j] == Mul(Gain(poles[k - 1 - j], sqrt), vecs[k - 1 - j][l])
  }

  /** Every entry of the cascade realization of the first k pairs. */
  predicate IsCascade(r: StateSpace, poles: seq<Complex>, vecs: seq<Vector>, sqrt: Complex -> Complex, k: nat, n: nat)
  {
    HasShape(r, k, n) && PairsFit(poles, vecs, k, n) &&
    CascadeDiagonal(r, poles, vecs, k, n) && CascadeTriangle(r, k, n) &&
    CascadeB(r, poles, vecs, sqrt, k, n) && CascadeC(r, poles, vecs, sqrt, k, n) &&
    r.D == Identity(n)
  }

  lemma StepDiagonal(r: StateSpace, tail: StateSpace, poles: seq<Complex>, vecs: seq<Vector>, k: nat, n: nat)
    requires k >= 1 && PairsFit(poles, vecs, k + 1, n)
    requires HasShape(r, k + 1, n) && HasShape(tail, k, n)
    requires CascadeDiagonal(tail, poles[1..], vecs[1..], k, n)
    requires forall i :: 0 <= i < k ==> r.A[i] == tail.A[i] + [Zero]
    requires r.A[k][k] == Mul(poles[0], FromReal(VecNormSq(vecs[0])))
    ensures CascadeDiagonal(r, poles, vecs, k + 1, n)
  {
    forall j | 0 <= j < k + 1
      ensures r.A[j][j] == Mul(poles[k - j], FromReal(VecNormSq(vecs[k - j])))
    {
      if j < k {
        assert r.A[j][j] == tail.A[j][j];
        assert poles[1..][k - 1 - j] == poles[k - j] && vecs[1..][k - 1 - j] == vecs[k - j];
      }
    }
  }

  lemma StepTriangle(r: StateSpace, tail: StateSpace, k: nat, n: nat)
    requires k >= 1 && HasShape(r, k + 1, n) && HasShape(tail, k, n) && CascadeTriangle(tail, k, n)
    requires forall i :: 0 <= i < k ==> r.A[i] == tail.A[i] + [Zero]
    requires forall j :: 0 <= j < k ==> r.A[k][j] == Dot(r.B[k], Column(tail.C, j))
    requires forall i :: 0 <= i < k ==> r.B[i] == tail.B[i]
    requires forall l, j :: 0 <= l < n && 0 <= j < k ==> r.C[l][j] == tail.C[l][j]
    ensures CascadeTriangle(r, k + 1, n)
  {
    forall i, j | 0 <= i < j < k + 1
      ensures r.A[i][j] == Zero
    {
      assert r.A[i][j] == (tail.A[i] + [Zero])[j];
    }
    forall i, j | 0 <= j < i < k + 1
      ensures r.A[i][j] == Dot(r.B[i], Column(r.C, j))
    {
      assert Column(r.C, j) == Column(tail.C, j);
      if i < k {
        assert r.A[i][j] == tail.A[i][j];
      }
    }
  }

  /** The last row of the assembled A is B2 times the columns of C1. */
  lemma AssembleLastRow(tail: StateSpace, head: StateSpace, k: nat, n: nat)
    requires HasShape(tail, k, n) && HasShape(head, 1, n) && tail.D == Identity(n)
    ensures var r := Assemble(tail, head, k, n);
      (forall j :: 0 <= j < k ==> r.A[k][j] == Dot(r.B[k], Column(tail.C, j))) &&
      r.A[k][k] == head.A[0][0]
  {
    AssembleRowsA(tail, head, k, n);
    AssembleRowsB(tail, head, k, n);
    var r := Assemble(tail, head, k, n);
    var M := MatMul(head.B, tail.C, k);
    forall j | 0 <= j < k
      ensures r.A[k][j] == Dot(r.B[k], Column(tail.C, j))
    {
      assert r.A[k][j] == M[0][j];
    }
  }

  /** The columns of the assembled C: those of C1 followed by that of C2. */
  lemma AssembleColumns(tail: StateSpace, head: StateSpace, k: nat, n: nat)
    requires HasShape(tail, k, n) && HasShape(head, 1, n)
    requires tail.D == Identity(n) && head.D == Identity(n)
    ensures var r := Assemble(tail, head, k, n);
      (forall l, j :: 0 <= l < n && 0 <= j < k ==> r.C[l][j] == tail.C[l][j]) &&
      (forall l :: 0 <= l < n ==> r.C[l] == tail.C[l] + [head.C[l][0]])
  {
    AssembleRowsCD(tail, head, k, n);
    var r := Assemble(tail, head, k, n);
    forall l | 0 <= l < n
      ensures r.C[l] == tail.C[l] + [head.C[l][0]]
    {
      assert head.C[l] == [head.C[l][0]];
    }
  }

  /** Row facts of an assembled B, stated over an abstract realization. */
  lemma StepB(r: StateSpace, tail: StateSpace, poles: seq<Complex>, vecs: seq<Vector>,
              sqrt: Complex -> Complex, k: nat, n: nat)
    requires k >= 1 && PairsFit(poles, vecs, k + 1, n)
    requires HasShape(r, k + 1, n) && HasShape(tail, k, n)
    requires CascadeB(tail, poles[1..], vecs[1..], sqrt, k, n)
    requires forall i :: 0 <= i < k ==> r.B[i] == tail.B[i]
    requires forall l :: 0 <= l < n ==> r.B[k][l] == Neg(Mul(Gain(poles[0], sqrt), Conj(vecs[0][l])))
    ensures CascadeB(r, poles, vecs, sqrt, k + 1, n)
  {
    forall j, l | 0 <= j < k + 1 && 0 <= l < n
      ensures r.B[j][l] == Neg(Mul(Gain(poles[k - j], sqrt), Conj(vecs[k - j][l])))
    {
      if j < k {
        assert poles[1..][k - 1 - j] == poles[k - j] && vecs[1..][k - 1 - j] == vecs[k - j];
      }
    }
  }

  lemma StepC(r: StateSpace, tail: StateSpace, poles: seq<Complex>, vecs: seq<Vector>,
              sqrt: Complex -> Complex, k: nat, n: nat)
    requires k >= 1 && PairsFit(poles, vecs, k + 1, n)
    requires HasShape(r, k + 1, n) && HasShape(tail, k, n)
    requires CascadeC(tail, poles[1..], vecs[1..], sqrt, k, n)
    requires forall l :: 0 <= l < n ==> r.C[l] == tail.C[l] + [Mul(Gain(poles[0], sqrt), vecs[0][l])]
    ensures CascadeC(r, poles, vecs, sqrt, k + 1, n)
  {
    forall l, j | 0 <= l < n && 0 <= j < k + 1
      ensures r.C[l][j] == Mul(Gain(poles[k - j], sqrt), vecs[k - j][l])
    {
      if j < k {
        assert r.C[l][j] == tail.C[l][j];
        assert poles[1..][k - 1 - j] == poles[k - j] && vecs[1..][k - 1 - j] == vecs[k - j];
      }
    }
  }

  /** The realization of the first pair alone is a cascade of one state. */
  lemma SinglePoleCascade(poles: seq<Complex>, vecs: seq<Vector>, sqrt: Complex -> Complex)
    requires 1 <= |poles| && 1 <= |vecs|
    ensures IsCascade(GetABCD(poles[0], vecs[0], sqrt), poles, vecs, sqrt, 1, |vecs[0]|)
  {
  }

  /** Adding the head pair to a cascade of the tail pairs gives a cascade of one more state. */
  lemma CascadeStep(tail: StateSpace, head: StateSpace, poles: seq<Complex>, vecs: seq<Vector>,
                    sqrt: Complex -> Complex, k: nat, n: nat)
    requires k >= 1 && PairsFit(poles, vecs, k + 1, n)
    requires IsCascade(tail, poles[1..], vecs[1..], sqrt, k, n)
    requires IsCascade(head, poles, vecs, sqrt, 1, n)
    ensures IsCascade(Assemble(tail, head, k, n), poles, vecs, sqrt, k + 1, n)
  {
    AssembleRowsA(tail, head, k, n);
    AssembleRowsB(tail, head, k, n);
    AssembleRowsCD(tail, head, k, n);
    AssembleLastRow(tail, head, k, n);
    AssembleColumns(tail, head, k, n);
    CascadeExtend(Assemble(tail, head, k, n), tail, poles, vecs, sqrt, k, n);
  }

  /** The entry facts of a cascade extended by one state, over an abstract realization. */
  lemma CascadeExtend(r: StateSpace, tail: StateSpace, poles: seq<Complex>, vecs: seq<Vector>,
                      sqrt: Complex -> Complex, k: nat, n: nat)
    requires k >= 1 && PairsFit(poles, vecs, k + 1, n)
    requires HasShape(r, k + 1, n) && IsCascade(tail, poles[1..], vecs[1..], sqrt, k, n)
    requires forall i :: 0 <= i < k ==> r.A[i] == tail.A[i] + [Zero]
    requires forall j :: 0 <= j < k ==> r.A[k][j] == Dot(r.B[k], Column(tail.C, j))
    requires r.A[k][k] == Mul(poles[0], FromReal(VecNormSq(vecs[0])))
    requires forall i :: 0 <= i < k ==> r.B[i] == tail.B[i]
    requires forall l :: 0 <= l < n ==> r.B[k][l] == Neg(Mul(Gain(poles[0], sqrt), Conj(vecs[0][l])))
    requires forall l, j :: 0 <= l < n && 0 <= j < k ==> r.C[l][j] == tail.C[l][j]
    requires forall l :: 0 <= l < n ==> r.C[l] == tail.C[l] + [Mul(Gain(poles[0], sqrt), vecs[0][l])]
    requires r.D == Identity(n)
    ensures IsCascade(r, poles, vecs, sqrt, k + 1, n)
  {
    StepDiagonal(r, tail, poles, vecs, k, n);
    StepTriangle(r, tail, k, n);
    StepB(r, tail, poles, vecs, sqrt, k, n);
    StepC(r, tail, poles, vecs, sqrt, k, n);
  }

  /** The pairs get_Potapov_ABCD uses share one dimension. */
  predicate SameDimension(poles: seq<Complex>, vecs: seq<Vector>)
  {
    forall i :: 0 <= i < Min(|poles|, |vecs|) ==> |vecs[i]| == |vecs[0]|
  }

  /**
   * `get_Potapov_ABCD(poles, vecs)` without a reference transfer function: nothing when either
   * list is empty; otherwise a realization with k = Min(|poles|, |vecs|) states whose state j
   * carries pair k - 1 - j: A k x k lower triangular with diagonal poles[k-1-j] * |vecs[k-1-j]|^2,
   * B k x N, C N x k, and D the N x N identity.
   */
  function GetPotapovABCD(poles: seq<Complex>, vecs: seq<Vector>, sqrt: Complex -> Complex): (r: Option<StateSpace>)
    requires SameDimension(poles, vecs)
    ensures r.None? <==> Min(|poles|, |vecs|) == 0
    ensures r.Some? ==> HasShape(r.value, Min(|poles|, |vecs|), |vecs[0]|)
    decreases |poles|
  {
    var k := Min(|poles|, |vecs|);
    if k < 1 then None
    else if k == 1 then Some(GetABCD(poles[0], vecs[0], sqrt))
    else
      RestFits(poles, vecs);
      var tail := GetPotapovABCD(poles[1..], vecs[1..], sqrt);
      Some(Assemble(tail.value, GetABCD(poles[0], vecs[0], sqrt), k - 1, |vecs[0]|))
  }

  /**
   * The realization is the cascade of the first k = Min(|poles|, |vecs|) pairs, state j carrying
   * pair k - 1 - j: A lower triangular with diagonal poles[k-1-j] * |vecs[k-1-j]|^2, B row j
   * -q * vecs[k-1-j].H, C column j q * vecs[k-1-j], and D the identity.
   */
  lemma {:induction false} GetPotapovABCDCascade(poles: seq<Complex>, vecs: seq<Vector>, sqrt: Complex -> Complex)
    requires SameDimension(poles, vecs) && Min(|poles|, |vecs|) >= 1
    ensures IsCascade(GetPotapovABCD(poles, vecs, sqrt).value, poles, vecs, sqrt, Min(|poles|, |vecs|), |vecs[0]|)
    decreases |poles|
  {
    if Min(|poles|, |vecs|) == 1 {
      SinglePoleCascade(poles, vecs, sqrt);
    } else {
      RestFits(poles, vecs);
      GetPotapovABCDCascade(poles[1..], vecs[1..], sqrt);
      AssembledCascade(poles, vecs, sqrt, GetPotapovABCD(poles[1..], vecs[1..], sqrt).value);
    }
  }

  /** Dropping the first pair leaves one pair fewer, all of the same dimension. */
  lemma RestFits(poles: seq<Complex>, vecs: seq<Vector>)
    requires SameDimension(poles, vecs) && Min(|poles|, |vecs|) >= 2
    ensures SameDimension(poles[1..], vecs[1..])
    ensures Min(|poles[1..]|, |vecs[1..]|) == Min(|poles|, |vecs|) - 1 && |vecs[1..][0]| == |vecs[0]|
  {
    forall i | 0 <= i < Min(|poles[1..]|, |vecs[1..]|) ensures |vecs[1..][i]| == |vecs[1..][0]| {
      assert vecs[1..][i] == vecs[i + 1];
    }
  }

  /** A cascade of all pairs but the first, assembled with the first pair's realization, is a cascade of all of them. */
  lemma AssembledCascade(poles: seq<Complex>, vecs: seq<Vector>, sqrt: Complex -> Complex, tail: StateSpace)
    requires SameDimension(poles, vecs) && Min(|poles|, |vecs|) >= 2
    requires IsCascade(tail, poles[1..], vecs[1..], sqrt, Min(|poles|, |vecs|) - 1, |vecs[0]|)
    ensures HasShape(GetABCD(poles[0], vecs[0], sqrt), 1, |vecs[0]|)
    ensures IsCascade(Assemble(tail, GetABCD(poles[0], vecs[0], sqrt), Min(|poles|, |vecs|) - 1, |vecs[0]|),
                      poles, vecs, sqrt, Min(|poles|, |vecs|), |vecs[0]|)
  {
    var k, n := Min(|poles|, |vecs|), |vecs[0]|;
    SinglePoleCascade(poles, vecs, sqrt);
    CascadeStep(tail, GetABCD(poles[0], vecs[0], sqrt), poles, vecs, sqrt, k - 1, n);
  }
}

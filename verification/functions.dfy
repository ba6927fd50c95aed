/**
 * The exact parts of Potapov_Code/functions.py: the symmetric Padé approximant of e^z, the
 * weighted overlap of two spatial modes, the normalized overlap matrix and the validation and
 * branch of the nonlinear interaction term. `exp`, `sqrt` and the frequency extractor `func`
 * are supplied by the caller.
 */
module Functions {
  import opened Results
  import opened Complexes
  import opened Matrices

  // ---------------------------------------------------------------- factorial

  /** 1 * 2 * ... * n; the empty product 1 when n <= 0. */
  function Fact(n: int): (r: nat)
    ensures r >= 1
    decreases n
  {
    if n <= 0 then 1 else
      var f := Fact(n - 1);
      ProductAtLeastOne(n, f);
      n * f
  }

  lemma ProductAtLeastOne(a: int, b: int)
    requires a >= 1 && b >= 1
    ensures a * b >= 1 && a * b >= b
  {
  }

  /** `factorial(n)`: multiplies an accumulator by 1, 2, ..., n in turn. */
  method Factorial(n: int) returns (end: nat)
    ensures end == Fact(n)
    ensures n >= 1 ==> end == n * Fact(n - 1)
    ensures n <= 0 ==> end == 1
  {
    end := 1;
    var k := 1;
    while k <= n
      invariant 1 <= k && (k <= n + 1 || k == 1)
      invariant end == Fact(k - 1)
    {
      end := k * end;
      k := k + 1;
    }
  }

  // ---------------------------------------------------------------- Padé coefficients

  /** a * b / (c * d * e) over the reals, for positive integer factors. */
  function Ratio(a: nat, b: nat, c: nat, d: nat, e: nat): real
    requires c >= 1 && d >= 1 && e >= 1
  {
    ProductAtLeastOne(c, d);
    ProductAtLeastOne(c * d, e);
    (a * b) as real / (c * d * e) as real
  }

  /** (2n - k)! n! / ((2n)! k! (n - k)!), the coefficient of z^k in the Padé numerator. */
  function PadeCoeff(n: nat, k: nat): real
    requires k <= n
  {
    Ratio(Fact(2 * n - k), Fact(n), Fact(2 * n), Fact(k), Fact(n - k))
  }

  /** The list `pade_approx(n)` returns: entry n - k holds PadeCoeff(n, k); empty when n < 0. */
  function PadeCoeffs(n: int): seq<real>
  {
    if n < 0 then [] else seq(n + 1, i requires 0 <= i < n + 1 => PadeCoeff(n, n - i))
  }

  /** `pade_approx(n)`: fills `output[n - k]` for k = 0 .. n. */
  method PadeApprox(n: int) returns (output: seq<real>)
    ensures output == PadeCoeffs(n)
  {
    var size := if n + 1 < 0 then 0 else n + 1;
    var a := new real[size](_ => 0.0);
    var k := 0;
    while k < n + 1
      invariant 0 <= k && (n >= 0 ==> k <= n + 1)
      invariant n < 0 ==> k == 0
      invariant forall i :: 0 <= i < size && n - k < i ==> a[i] == PadeCoeff(n, n - i)
    {
      var f1 := Factorial(2 * n - k);
      var f2 := Factorial(n);
      var f3 := Factorial(2 * n);
      var f4 := Factorial(k);
      var f5 := Factorial(n - k);
      a[n - k] := Ratio(f1, f2, f3, f4, f5);
      k := k + 1;
    }
    output := a[..];
  }

  lemma PadeCoeffsLength(n: int)
    ensures |PadeCoeffs(n)| == if n < 0 then 0 else n + 1
  {
  }

  /** The constant term of the numerator is 1. */
  lemma PadeConstantTerm(n: nat)
    ensures PadeCoeffs(n)[n] == 1.0
  {
    var c, e := Fact(2 * n), Fact(n);
    assert PadeCoeffs(n)[n] == PadeCoeff(n, 0);
    assert Fact(0) == 1;
    assert PadeCoeff(n, 0) == Ratio(c, e, c, 1, e);
    RatioCancels(c, e);
  }

  lemma RatioCancels(c: nat, e: nat)
    requires c >= 1 && e >= 1
    ensures Ratio(c, e, c, 1, e) == 1.0
  {
    ProductAtLeastOne(c, e);
    assert c * 1 * e == c * e;
    var x := (c * e) as real;
    assert x >= 1.0;
    assert x / x == 1.0;
  }

  /** Every coefficient is positive. */
  lemma PadeCoeffsPositive(n: int)
    ensures forall i :: 0 <= i < |PadeCoeffs(n)| ==> PadeCoeffs(n)[i] > 0.0
  {
    forall i | 0 <= i < |PadeCoeffs(n)|
      ensures PadeCoeffs(n)[i] > 0.0
    {
      assert n >= 0;
      var k := n - i;
      assert PadeCoeffs(n)[i] == PadeCoeff(n, k);
      RatioPositive(Fact(2 * n - k), Fact(n), Fact(2 * n), Fact(k), Fact(n - k));
    }
  }

  lemma QuotientPositive(x: real, y: real)
    requires x > 0.0 && y > 0.0
    ensures x / y > 0.0
  {
  }

  lemma RatioPositive(a: nat, b: nat, c: nat, d: nat, e: nat)
    requires a >= 1 && b >= 1 && c >= 1 && d >= 1 && e >= 1
    ensures Ratio(a, b, c, d, e) > 0.0
  {
    ProductAtLeastOne(a, b);
    ProductAtLeastOne(c, d);
    ProductAtLeastOne(c * d, e);
    QuotientPositive((a * b) as real, (c * d * e) as real);
  }

  /** Orders 1 and 2: 1 + z/2 and 1 + z/2 + z^2/12. */
  lemma PadeCoeffsSmallOrders()
    ensures PadeCoeffs(1) == [0.5, 1.0]
    ensures PadeCoeffs(2) == [1.0 / 12.0, 0.5, 1.0]
  {
    assert Fact(1) == 1 && Fact(2) == 2 && Fact(3) == 6 && Fact(4) == 24;
    assert PadeCoeff(1, 1) == 0.5;
    assert PadeCoeff(2, 2) == 1.0 / 12.0;
    assert PadeCoeff(2, 1) == 0.5;
    PadeConstantTerm(1);
    PadeConstantTerm(2);
  }

  // ---------------------------------------------------------------- Q and Pade

  /** The first m terms coeffs[i] * z^(n - i) of the numerator sum. */
  function PartialSum(coeffs: seq<real>, z: Complex, n: nat, m: nat): Complex
    requires m <= |coeffs| && m <= n + 1
  {
    if m == 0 then Zero
    else Add(PartialSum(coeffs, z, n, m - 1), Mul(FromReal(coeffs[m - 1]), Pow(z, n - (m - 1))))
  }

  /** The value `Q(z, n)` computes: the sum of all n + 1 terms, and 0 when n < 0. */
  function QValue(z: Complex, n: int): Complex
  {
    if n < 0 then Zero else PartialSum(PadeCoeffs(n), z, n, n + 1)
  }

  /** `Q(z, n)`: accumulates coeffs[i] * z^(n - i) over i = 0 .. n. */
  method Q(z: Complex, n: int) returns (sum: Complex)
    ensures sum == QValue(z, n)
  {
    var coeffs := PadeApprox(n);
    sum := Zero;
    var i := 0;
    while i < n + 1
      invariant 0 <= i && (n >= 0 ==> i <= n + 1)
      invariant n < 0 ==> i == 0 && sum == Zero
      invariant n >= 0 ==> sum == PartialSum(coeffs, z, n, i)
    {
      sum := Add(sum, Mul(FromReal(coeffs[i]), Pow(z, n - i)));
      i := i + 1;
    }
  }

  /** `Pade(n, z) = Q(z, n) / Q(-z, n)`; Python raises ZeroDivisionError when the divisor is 0. */
  function Pade(n: int, z: Complex): (r: Result<Complex>)
    ensures r.Err? <==> QValue(Neg(z), n) == Zero
    ensures r.Ok? ==> Mul(r.value, QValue(Neg(z), n)) == QValue(z, n)
  {
    var d := QValue(Neg(z), n);
    if d == Zero then Err(ZeroDivision)
    else
      DivMulCancel(QValue(z, n), d);
      Ok(Div(QValue(z, n), d))
  }

  /** A positive power of a complex number with zero parts has zero parts. */
  lemma {:induction false} PowOfZero(z: Complex, k: nat)
    requires z.re == 0.0 && z.im == 0.0 && k >= 1
    ensures Pow(z, k).re == 0.0 && Pow(z, k).im == 0.0
  {
    var p := Pow(z, k - 1);
    assert Pow(z, k) == Mul(p, z);
  }

  lemma MulZeroParts(c: Complex, t: Complex)
    requires t.re == 0.0 && t.im == 0.0
    ensures Mul(c, t).re == 0.0 && Mul(c, t).im == 0.0
  {
  }

  /** When every positive power up to n has zero parts, so has the sum of the first n terms. */
  lemma {:induction false} PartialSumAtZero(coeffs: seq<real>, z: Complex, n: nat, m: nat)
    requires m <= |coeffs| && m <= n
    requires forall j :: 1 <= j <= n ==> Pow(z, j).re == 0.0 && Pow(z, j).im == 0.0
    ensures PartialSum(coeffs, z, n, m).re == 0.0 && PartialSum(coeffs, z, n, m).im == 0.0
  {
    if m > 0 {
      PartialSumAtZero(coeffs, z, n, m - 1);
      MulZeroParts(FromReal(coeffs[m - 1]), Pow(z, n - (m - 1)));
    }
  }

  /** Q(0, n) == 1 for every order n >= 0. */
  lemma QAtZero(n: nat)
    ensures QValue(Zero, n) == One
  {
    forall j | 1 <= j <= n
      ensures Pow(Zero, j).re == 0.0 && Pow(Zero, j).im == 0.0
    {
      PowOfZero(Zero, j);
    }
    QConstantTerm(Zero, n);
  }

  /** Q(z, n) is the first n terms plus the constant one. */
  lemma QLastTerm(z: Complex, n: nat)
    ensures var c := PadeCoeffs(n);
      QValue(z, n) == Add(PartialSum(c, z, n, n), Mul(FromReal(c[n]), Pow(z, 0)))
  {
  }

  lemma ConstantTermIsOne(c: real, p: Complex, t: Complex)
    requires c == 1.0 && p == One && t == Mul(FromReal(c), p)
    ensures t == One
  {
  }

  /** If the positive powers of z vanish, Q(z, n) is its constant coefficient, 1. */
  lemma QConstantTerm(z: Complex, n: nat)
    requires forall j :: 1 <= j <= n ==> Pow(z, j).re == 0.0 && Pow(z, j).im == 0.0
    ensures QValue(z, n) == One
  {
    var c := PadeCoeffs(n);
    var s, t := PartialSum(c, z, n, n), Mul(FromReal(c[n]), Pow(z, 0));
    QLastTerm(z, n);
    PartialSumAtZero(c, z, n, n);
    PadeConstantTerm(n);
    assert Pow(z, 0) == One;
    ConstantTermIsOne(c[n], Pow(z, 0), t);
  }

  /** Pade(n, 0) == 1: the approximant agrees with e^0. */
  lemma PadeAtZero(n: nat)
    ensures Pade(n, Zero) == Ok(One)
  {
    QAtZero(n);
    assert Neg(Zero) == Zero;
    DivUnique(One, One, One);
  }

  /** Pade(n, z) * Pade(n, -z) == 1, like e^z * e^-z, whenever both quotients exist. */
  lemma PadeReciprocal(n: int, z: Complex)
    requires QValue(z, n) != Zero && QValue(Neg(z), n) != Zero
    ensures Pade(n, z).Ok? && Pade(n, Neg(z)).Ok?
    ensures Mul(Pade(n, z).value, Pade(n, Neg(z)).value) == One
  {
    var a, b := QValue(z, n), QValue(Neg(z), n);
    assert Neg(Neg(z)) == z;
    assert Pade(n, z).value == Mul(a, Inv(b));
    assert Pade(n, Neg(z)).value == Mul(b, Inv(a));
    MulComm(b, Inv(a));
    MulSwapMiddle(a, Inv(b), Inv(a), b);
    MulInv(a);
    MulInv(b);
    MulComm(Inv(b), b);
    MulOneRight(One);
  }

  // ---------------------------------------------------------------- mode overlaps

  /** `abs(x) < eps` for a real x. */
  predicate Negligible(x: real, eps: real)
  {
    AbsBelow(FromReal(x), eps)
  }

  /** The default frequency extractor `lambda z: z.imag`. */
  function Imag(z: Complex): real
  {
    z.im
  }

  /** The default cutoff 1e-7 of `inner_product_of_two_modes`. */
  const DefaultEps: real := 0.0000001

  /** The number of triples `zip(delays, v1, v2)` yields. */
  function ZipLength(delays: seq<real>, v1: Vector, v2: Vector): nat
  {
    Min(Min(|delays|, |v1|), |v2|)
  }

  /** The equal-frequency sum of v1[i] * conj(v2[i]) * delays[i] over the first m triples. */
  function WeightedOverlap(v1: Vector, v2: Vector, delays: seq<real>, m: nat): Complex
    requires m <= ZipLength(delays, v1, v2)
  {
    if m == 0 then Zero
    else Add(WeightedOverlap(v1, v2, delays, m - 1),
             Mul(Mul(v1[m - 1], Conj(v2[m - 1])), FromReal(delays[m - 1])))
  }

  /** One term of the unequal-frequency branch: e1 * conj(e2) * 1j * (exp(-1j * delay * f) - 1) / f. */
  function PhaseTerm(e1: Complex, e2: Complex, delay: real, f: real, exp: Complex -> Complex): Complex
    requires f != 0.0
  {
    var phase := exp(Mul(Neg(J), FromReal(delay * f)));
    Div(Mul(Mul(Mul(e1, Conj(e2)), J), Sub(phase, One)), FromReal(f))
  }

  function PhaseOverlap(v1: Vector, v2: Vector, delays: seq<real>, f: real, exp: Complex -> Complex, m: nat): Complex
    requires m <= ZipLength(delays, v1, v2) && f != 0.0
  {
    if m == 0 then Zero
    else Add(PhaseOverlap(v1, v2, delays, f, exp, m - 1), PhaseTerm(v1[m - 1], v2[m - 1], delays[m - 1], f, exp))
  }

  /**
   * What `inner_product_of_two_modes` returns: `s[0,0]` of the empty sum 0j raises when the zip
   * is empty; with f = func(root1 - root2), |f| < eps selects the weighted overlap; otherwise
   * the phase overlap, which numpy turns into NaN when f is 0.
   */
  function InnerProduct(root1: Complex, root2: Complex, v1: Vector, v2: Vector, delays: seq<real>,
                        eps: real, func: Complex -> real, exp: Complex -> Complex): Result<Complex>
  {
    var m := ZipLength(delays, v1, v2);
    var f := func(Sub(root1, root2));
    if m == 0 then Err(NotSubscriptable)
    else if Negligible(f, eps) then Ok(WeightedOverlap(v1, v2, delays, m))
    else if f == 0.0 then Err(Undefined)
    else Ok(PhaseOverlap(v1, v2, delays, f, exp, m))
  }

  /** `inner_product_of_two_modes`: accumulates one term per triple of the zip. */
  method InnerProductOfTwoModes(root1: Complex, root2: Complex, v1: Vector, v2: Vector, delays: seq<real>,
                                eps: real, func: Complex -> real, exp: Complex -> Complex)
    returns (r: Result<Complex>)
    ensures r == InnerProduct(root1, root2, v1, v2, delays, eps, func, exp)
  {
    var m := ZipLength(delays, v1, v2);
    var s := Zero;
    var nan := false;
    var i := 0;
    while i < m
      invariant 0 <= i <= m
      invariant var f := func(Sub(root1, root2));
        if Negligible(f, eps) then !nan && s == WeightedOverlap(v1, v2, delays, i)
        else if f == 0.0 then nan == (i > 0)
        else !nan && s == PhaseOverlap(v1, v2, delays, f, exp, i)
    {
      var f := func(Sub(root1, root2));
      if Negligible(f, eps) {
        s := Add(s, Mul(Mul(v1[i], Conj(v2[i])), FromReal(delays[i])));
      } else if f == 0.0 {
        nan := true;
      } else {
        s := Add(s, PhaseTerm(v1[i], v2[i], delays[i], f, exp));
      }
      i := i + 1;
    }
    if m == 0 {
      r := Err(NotSubscriptable);
    } else if nan {
      r := Err(Undefined);
    } else {
      r := Ok(s);
    }
  }

  /** Σ |v[i]|^2 * delays[i] over the first m entries. */
  function WeightedNormSq(v: Vector, delays: seq<real>, m: nat): real
    requires m <= |v| && m <= |delays|
  {
    if m == 0 then 0.0 else WeightedNormSq(v, delays, m - 1) + NormSq(v[m - 1]) * delays[m - 1]
  }

  /** A mode overlapped with itself in the equal-frequency branch is the real Σ |v[i]|^2 * delays[i]. */
  lemma {:induction false} WeightedSelfOverlap(v: Vector, delays: seq<real>, m: nat)
    requires m <= |v| && m <= |delays|
    ensures WeightedOverlap(v, v, delays, m) == FromReal(WeightedNormSq(v, delays, m))
  {
    if m > 0 {
      WeightedSelfOverlap(v, delays, m - 1);
      MulConjSelf(v[m - 1]);
    }
  }

  /** With non-negative delays the weighted squared norm is non-negative. */
  lemma {:induction false} WeightedNormSqNonnegative(v: Vector, delays: seq<real>, m: nat)
    requires m <= |v| && m <= |delays|
    requires forall i :: 0 <= i < m ==> delays[i] >= 0.0
    ensures WeightedNormSq(v, delays, m) >= 0.0
  {
    if m > 0 {
      WeightedNormSqNonnegative(v, delays, m - 1);
      NormSqZero(v[m - 1]);
      var p := NonnegativeProduct(NormSq(v[m - 1]), delays[m - 1]);
      assert WeightedNormSq(v, delays, m) == WeightedNormSq(v, delays, m - 1) + p;
    }
  }

  lemma NonnegativeProduct(x: real, y: real) returns (p: real)
    requires x >= 0.0 && y >= 0.0
    ensures p == x * y && p >= 0.0
  {
    if x == 0.0 || y == 0.0 {
      p := x * y;
    } else {
      p := PositiveProduct(x, y);
    }
  }

  /**
   * The self-overlap of a mode, when func(0) is below eps: the equal-frequency branch, whose
   * value is real and, for non-negative delays, non-negative.
   */
  lemma SelfInnerProduct(root: Complex, v: Vector, delays: seq<real>, eps: real,
                         func: Complex -> real, exp: Complex -> Complex)
    requires Negligible(func(Zero), eps) && ZipLength(delays, v, v) > 0
    ensures var m := ZipLength(delays, v, v);
      InnerProduct(root, root, v, v, delays, eps, func, exp) == Ok(FromReal(WeightedNormSq(v, delays, m)))
    ensures (forall i :: 0 <= i < |delays| ==> delays[i] >= 0.0) ==>
      var r := InnerProduct(root, root, v, v, delays, eps, func, exp);
      IsReal(r.value) && r.value.re >= 0.0
  {
    var m := ZipLength(delays, v, v);
    assert Sub(root, root) == Zero;
    WeightedSelfOverlap(v, delays, m);
    if forall i :: 0 <= i < |delays| ==> delays[i] >= 0.0 {
      WeightedNormSqNonnegative(v, delays, m);
    }
  }

  /** `_norm_of_mode`: the square root of the mode's overlap with itself at roots 0 and 0. */
  function NormOfMode(mode: Vector, delays: seq<real>, exp: Complex -> Complex, sqrt: Complex -> Complex): Result<Complex>
  {
    match InnerProduct(Zero, Zero, mode, mode, delays, DefaultEps, Imag, exp)
    case Ok(v) => Ok(sqrt(v))
    case Err(e) => Err(e)
  }

  /**
   * `_norm_of_mode` always takes the equal-frequency branch: it fails only on an empty zip and
   * is otherwise sqrt(Σ |mode[i]|^2 * delays[i]), whatever exp is.
   */
  lemma NormOfModeIsWeightedNorm(mode: Vector, delays: seq<real>, exp: Complex -> Complex, sqrt: Complex -> Complex)
    ensures var m := ZipLength(delays, mode, mode);
      NormOfMode(mode, delays, exp, sqrt) ==
        if m == 0 then Err(NotSubscriptable) else Ok(sqrt(FromReal(WeightedNormSq(mode, delays, m))))
  {
    if ZipLength(delays, mode, mode) > 0 {
      assert Negligible(Imag(Zero), DefaultEps);
      SelfInnerProduct(Zero, mode, delays, DefaultEps, Imag, exp);
    }
  }

  // ---------------------------------------------------------------- normalized overlap matrix

  /** With the default cutoff and extractor, the overlap fails only on an empty zip. */
  lemma DefaultOverlapDefined(root1: Complex, root2: Complex, v1: Vector, v2: Vector, delays: seq<real>,
                              exp: Complex -> Complex)
    requires ZipLength(delays, v1, v2) > 0
    ensures InnerProduct(root1, root2, v1, v2, delays, DefaultEps, Imag, exp).Ok?
  {
  }

  /** `norms[i]`: the self-overlap of mode i with the caller's cutoff and extractor. */
  function SelfOverlap(roots: seq<Complex>, modes: seq<Vector>, delays: seq<real>, eps: real,
                       func: Complex -> real, exp: Complex -> Complex, i: nat): Result<Complex>
    requires i < |roots| && i < |modes|
  {
    InnerProduct(roots[i], roots[i], modes[i], modes[i], delays, eps, func, exp)
  }

  /**
   * `ip / np.sqrt(ni * nj)`; None stands for the NaN or inf numpy produces from a NaN operand or
   * a zero divisor.
   */
  function Normalize(ip: Result<Complex>, ni: Result<Complex>, nj: Result<Complex>, sqrt: Complex -> Complex): Option<Complex>
  {
    if ip.Err? || ni.Err? || nj.Err? then None
    else
      var d := sqrt(Mul(ni.value, nj.value));
      if d == Zero then None else Some(Div(ip.value, d))
  }

  /** Entry (i, j): the overlap with the default cutoff and extractor, normalized by norms i and j. */
  function EntryAt(roots: seq<Complex>, modes: seq<Vector>, delays: seq<real>, eps: real,
                   func: Complex -> real, exp: Complex -> Complex, sqrt: Complex -> Complex, i: nat, j: nat)
    : Option<Complex>
    requires i < |roots| && j < |roots| && i < |modes| && j < |modes|
  {
    Normalize(InnerProduct(roots[i], roots[j], modes[i], modes[j], delays, DefaultEps, Imag, exp),
              SelfOverlap(roots, modes, delays, eps, func, exp, i),
              SelfOverlap(roots, modes, delays, eps, func, exp, j), sqrt)
  }

  /** Every one of the first k modes has a non-empty zip with the delays. */
  predicate NormsDefined(modes: seq<Vector>, delays: seq<real>, k: nat)
    requires k <= |modes|
  {
    forall i :: 0 <= i < k ==> ZipLength(delays, modes[i], modes[i]) > 0
  }

  /**
   * What `make_normalized_inner_product_matrix` returns: an error when some norm's zip is empty
   * (raised while computing `norms`) or when there are fewer modes than roots (IndexError in the
   * second loop); otherwise the dim x dim matrix of normalized overlaps, dim = |roots|.
   */
  function NormalizedMatrix(roots: seq<Complex>, modes: seq<Vector>, delays: seq<real>, eps: real,
                            func: Complex -> real, exp: Complex -> Complex, sqrt: Complex -> Complex)
    : (r: Result<seq<seq<Option<Complex>>>>)
    ensures r.Ok? <==> |modes| >= |roots| && NormsDefined(modes, delays, |roots|)
    ensures r.Ok? ==> |r.value| == |roots| && forall i :: 0 <= i < |roots| ==> |r.value[i]| == |roots|
  {
    var dim := |roots|;
    var k := Min(dim, |modes|);
    if !NormsDefined(modes, delays, k) then Err(NotSubscriptable)
    else if |modes| < dim then Err(IndexOutOfRange)
    else
      Ok(seq(dim, i requires 0 <= i < dim =>
           seq(dim, j requires 0 <= j < dim => EntryAt(roots, modes, delays, eps, func, exp, sqrt, i, j))))
  }

  /** The entries of a successful result. */
  lemma NormalizedMatrixEntries(roots: seq<Complex>, modes: seq<Vector>, delays: seq<real>, eps: real,
                                func: Complex -> real, exp: Complex -> Complex, sqrt: Complex -> Complex)
    requires NormalizedMatrix(roots, modes, delays, eps, func, exp, sqrt).Ok?
    ensures var m := NormalizedMatrix(roots, modes, delays, eps, func, exp, sqrt).value;
      forall i, j :: 0 <= i < |roots| && 0 <= j < |roots| ==>
        m[i][j] == EntryAt(roots, modes, delays, eps, func, exp, sqrt, i, j)
  {
  }

  lemma EntryFromParts(roots: seq<Complex>, modes: seq<Vector>, delays: seq<real>, eps: real,
                        func: Complex -> real, exp: Complex -> Complex, sqrt: Complex -> Complex, i: nat, j: nat,
                        ip: Result<Complex>, ni: Result<Complex>, nj: Result<Complex>)
    requires i < |roots| && j < |roots| && i < |modes| && j < |modes|
    requires ip == InnerProduct(roots[i], roots[j], modes[i], modes[j], delays, DefaultEps, Imag, exp)
    requires ni == SelfOverlap(roots, modes, delays, eps, func, exp, i)
    requires nj == SelfOverlap(roots, modes, delays, eps, func, exp, j)
    ensures Normalize(ip, ni, nj, sqrt) == EntryAt(roots, modes, delays, eps, func, exp, sqrt, i, j)
  {
  }

  /** A successful result is the dim x dim matrix whose entries are given by EntryAt. */
  lemma MatrixFromEntries(roots: seq<Complex>, modes: seq<Vector>, delays: seq<real>, eps: real,
                          func: Complex -> real, exp: Complex -> Complex, sqrt: Complex -> Complex,
                          rows: seq<seq<Option<Complex>>>)
    requires |modes| >= |roots| && NormsDefined(modes, delays, |roots|)
    requires |rows| == |roots| && forall a :: 0 <= a < |rows| ==> |rows[a]| == |roots|
    requires forall a, b :: 0 <= a < |roots| && 0 <= b < |roots| ==>
      rows[a][b] == EntryAt(roots, modes, delays, eps, func, exp, sqrt, a, b)
    ensures NormalizedMatrix(roots, modes, delays, eps, func, exp, sqrt) == Ok(rows)
  {
    var r := NormalizedMatrix(roots, modes, delays, eps, func, exp, sqrt);
    assert r.Ok?;
    var m := r.value;
    NormalizedMatrixEntries(roots, modes, delays, eps, func, exp, sqrt);
    forall a | 0 <= a < |roots|
      ensures m[a] == rows[a]
    {
      assert forall b :: 0 <= b < |roots| ==> m[a][b] == rows[a][b];
    }
    assert m == rows;
  }

  /** The rows of a square array, as a sequence of sequences. */
  function Rows<T>(grid: array2<T>): (r: seq<seq<T>>)
    reads grid
    ensures |r| == grid.Length0 && forall a :: 0 <= a < |r| ==> |r[a]| == grid.Length1
    ensures forall a, b :: 0 <= a < grid.Length0 && 0 <= b < grid.Length1 ==> r[a][b] == grid[a, b]
  {
    seq(grid.Length0, a requires 0 <= a < grid.Length0 reads grid =>
      seq(grid.Length1, b requires 0 <= b < grid.Length1 reads grid => grid[a, b]))
  }

  /**
   * Row i of the second loop of `make_normalized_inner_product_matrix`; `complete` is false when
   * some index reaches past the modes, where Python raises IndexError.
   */
  method FillRow(roots: seq<Complex>, modes: seq<Vector>, delays: seq<real>, eps: real,
                 func: Complex -> real, exp: Complex -> Complex, sqrt: Complex -> Complex,
                 norms: array<Result<Complex>>, grid: array2<Option<Complex>>, i: nat)
    returns (complete: bool)
    requires grid.Length0 == grid.Length1 == |roots| == norms.Length && i < |roots|
    requires forall l :: 0 <= l < Min(|roots|, |modes|) ==> norms[l] == SelfOverlap(roots, modes, delays, eps, func, exp, l)
    modifies grid
    ensures complete <==> |modes| >= |roots|
    ensures forall a, b :: 0 <= a < grid.Length0 && 0 <= b < grid.Length1 && a != i ==> grid[a, b] == old(grid[a, b])
    ensures complete ==> forall b :: 0 <= b < |roots| ==>
      grid[i, b] == EntryAt(roots, modes, delays, eps, func, exp, sqrt, i, b)
  {
    var dim := |roots|;
    for j := 0 to dim
      modifies grid
      invariant j > 0 ==> i < |modes| && j <= |modes|
      invariant forall a, b :: 0 <= a < dim && 0 <= b < dim && a != i ==> grid[a, b] == old(grid[a, b])
      invariant forall b :: 0 <= b < j ==> grid[i, b] == EntryAt(roots, modes, delays, eps, func, exp, sqrt, i, b)
    {
      if i >= |modes| || j >= |modes| {
        return false;
      }
      var ip := InnerProductOfTwoModes(roots[i], roots[j], modes[i], modes[j], delays, DefaultEps, Imag, exp);
      var e := Normalize(ip, norms[i], norms[j], sqrt);
      EntryFromParts(roots, modes, delays, eps, func, exp, sqrt, i, j, ip, norms[i], norms[j]);
      grid[i, j] := e;
    }
    return |modes| >= dim;
  }

  /**
   * `make_normalized_inner_product_matrix`: fills `norms` in one loop, then every entry of the
   * dim x dim `inner_prods` in two nested loops.
   */
  method MakeNormalizedInnerProductMatrix(roots: seq<Complex>, modes: seq<Vector>, delays: seq<real>, eps: real,
                                          func: Complex -> real, exp: Complex -> Complex, sqrt: Complex -> Complex)
    returns (r: Result<seq<seq<Option<Complex>>>>)
    ensures r == NormalizedMatrix(roots, modes, delays, eps, func, exp, sqrt)
  {
    var dim := |roots|;
    var k := Min(dim, |modes|);
    var norms := new Result<Complex>[dim];
    for i := 0 to k
      modifies norms
      invariant NormsDefined(modes, delays, i)
      invariant forall l :: 0 <= l < i ==> norms[l] == SelfOverlap(roots, modes, delays, eps, func, exp, l)
    {
      var n := InnerProductOfTwoModes(roots[i], roots[i], modes[i], modes[i], delays, eps, func, exp);
      if n == Err(NotSubscriptable) {
        return Err(NotSubscriptable);
      }
      norms[i] := n;
    }
    var grid := new Option<Complex>[dim, dim];
    for i := 0 to dim
      modifies grid
      invariant i > 0 ==> dim <= |modes|
      invariant forall a, b :: 0 <= a < i && 0 <= b < dim ==>
        grid[a, b] == EntryAt(roots, modes, delays, eps, func, exp, sqrt, a, b)
    {
      var complete := FillRow(roots, modes, delays, eps, func, exp, sqrt, norms, grid, i);
      if !complete {
        return Err(IndexOutOfRange);
      }
    }
    var rows := Rows(grid);
    MatrixFromEntries(roots, modes, delays, eps, func, exp, sqrt, rows);
    r := Ok(rows);
  }

  /** The diagonal entry is w / sqrt(w * w), which is 1 when the square root returns w. */
  lemma NormalizeSelf(w: Complex, sqrt: Complex -> Complex)
    requires w != Zero && sqrt(Mul(w, w)) == w
    ensures Normalize(Ok(w), Ok(w), Ok(w), sqrt) == Some(One)
  {
    MulOneRight(w);
    DivUnique(w, w, One);
  }

  /**
   * With an extractor that vanishes at 0, each diagonal entry is 1 whenever the mode's
   * self-overlap w is nonzero and the supplied square root gives sqrt(w * w) == w.
   */
  lemma NormalizedDiagonal(roots: seq<Complex>, modes: seq<Vector>, delays: seq<real>, eps: real,
                           func: Complex -> real, exp: Complex -> Complex, sqrt: Complex -> Complex, i: nat)
    requires NormalizedMatrix(roots, modes, delays, eps, func, exp, sqrt).Ok?
    requires i < |roots| && Negligible(func(Zero), eps)
    requires var m := ZipLength(delays, modes[i], modes[i]);
      var w := FromReal(WeightedNormSq(modes[i], delays, m));
      w != Zero && sqrt(Mul(w, w)) == w
    ensures NormalizedMatrix(roots, modes, delays, eps, func, exp, sqrt).value[i][i] == Some(One)
  {
    NormalizedMatrixEntries(roots, modes, delays, eps, func, exp, sqrt);
    var m := ZipLength(delays, modes[i], modes[i]);
    var w := FromReal(WeightedNormSq(modes[i], delays, m));
    SelfInnerProduct(roots[i], modes[i], delays, eps, func, exp);
    assert Negligible(Imag(Zero), DefaultEps);
    SelfInnerProduct(roots[i], modes[i], delays, DefaultEps, Imag, exp);
    NormalizeSelf(w, sqrt);
  }

  // ---------------------------------------------------------------- nonlinear interaction

  /** `delay_indices`: an int, a list or tuple of ints, or a value of any other type. */
  datatype IndexArg = IndexScalar(index: int) | IndexList(indices: seq<int>) | IndexOther

  /** `start_nonlin`: an int or float, a list or tuple, or a value of any other type. */
  datatype StartArg = StartScalar(start: real) | StartList(starts: seq<real>) | StartOther

  /** `indices_of_refraction`: None, an int or float, a list or tuple, or a value of any other type. */
  datatype RefractionArg = RefractionNone | RefractionScalar(n: real) | RefractionList(ns: seq<real>) | RefractionOther

  /** `[x] * count` */
  function Broadcast<T>(x: T, count: nat): (r: seq<T>)
    ensures |r| == count && forall k :: 0 <= k < count ==> r[k] == x
  {
    seq(count, _ => x)
  }

  /** `delay_indices` after broadcasting a scalar to M copies. */
  function DelayIndices(arg: IndexArg, M: nat): Result<seq<int>>
  {
    match arg
    case IndexScalar(i) => Ok(Broadcast(i, M))
    case IndexList(s) => Ok(s)
    case IndexOther => Err(BadArgumentType)
  }

  /** `start_nonlin` after broadcasting a scalar to M copies. */
  function StartLocations(arg: StartArg, M: nat): Result<seq<real>>
  {
    match arg
    case StartScalar(x) => Ok(Broadcast(x, M))
    case StartList(s) => Ok(s)
    case StartOther => Err(BadArgumentType)
  }

  /** `indices_of_refraction` after defaulting to 1.0 and broadcasting a scalar to M copies. */
  function RefractiveIndices(arg: RefractionArg, M: nat): Result<seq<real>>
  {
    match arg
    case RefractionNone => Ok(Broadcast(1.0, M))
    case RefractionScalar(x) => Ok(Broadcast(x, M))
    case RefractionList(s) => Ok(s)
    case RefractionOther => Err(BadArgumentType)
  }

  /** Python accepts an index i into a sequence of length n when -n <= i < n. */
  predicate PyIndexValid(n: nat, i: int)
  {
    -(n as int) <= i < n
  }

  /** The position a valid Python index denotes; a negative index counts from the end. */
  function PyPosition(n: nat, i: int): (p: nat)
    requires PyIndexValid(n, i)
    ensures p < n
  {
    if i >= 0 then i else n + i
  }

  /** `s[i]`, or None where Python raises IndexError. */
  function PyLookup<T>(s: seq<T>, i: int): (r: Option<T>)
    ensures r.Some? <==> PyIndexValid(|s|, i)
    ensures r.Some? ==> r.value == s[PyPosition(|s|, i)]
  {
    if PyIndexValid(|s|, i) then Some(s[PyPosition(|s|, i)]) else None
  }

  /**
   * The check loop over `zip(delay_indices, start_nonlin)`: the error raised for the first pair
   * whose start is negative, whose delay index is out of range, or whose region runs past the
   * end of its delay line; None when every pair passes.
   */
  function RegionError(indices: seq<int>, starts: seq<real>, length: real, delays: seq<real>): (r: Option<Error>)
    ensures r.Some? ==> r.value == NegativeStart || r.value == IndexOutOfRange || r.value == RegionExceedsDelay
    decreases |indices|
  {
    if |indices| == 0 || |starts| == 0 then None
    else if starts[0] < 0.0 then Some(NegativeStart)
    else match PyLookup(delays, indices[0])
      case None => Some(IndexOutOfRange)
      case Some(d) =>
        if length + starts[0] > d then Some(RegionExceedsDelay)
        else RegionError(indices[1..], starts[1..], length, delays)
  }

  /** Every zipped pair starts at or after 0 and ends within its delay line. */
  predicate RegionsValid(indices: seq<int>, starts: seq<real>, length: real, delays: seq<real>)
  {
    forall k :: 0 <= k < Min(|indices|, |starts|) ==>
      starts[k] >= 0.0 && PyIndexValid(|delays|, indices[k]) &&
      length + starts[k] <= delays[PyPosition(|delays|, indices[k])]
  }

  /** The check loop passes exactly when every region is valid. */
  lemma {:induction false} RegionErrorIffInvalid(indices: seq<int>, starts: seq<real>, length: real, delays: seq<real>)
    ensures RegionError(indices, starts, length, delays).None? <==> RegionsValid(indices, starts, length, delays)
    decreases |indices|
  {
    if |indices| > 0 && |starts| > 0 {
      RegionErrorIffInvalid(indices[1..], starts[1..], length, delays);
      if RegionsValid(indices, starts, length, delays) {
        assert RegionsValid(indices[1..], starts[1..], length, delays) by {
          forall k | 0 <= k < Min(|indices[1..]|, |starts[1..]|)
            ensures starts[1..][k] >= 0.0 && PyIndexValid(|delays|, indices[1..][k]) &&
                    length + starts[1..][k] <= delays[PyPosition(|delays|, indices[1..][k])]
          {
            assert indices[1..][k] == indices[k + 1] && starts[1..][k] == starts[k + 1];
          }
        }
      }
      if RegionError(indices, starts, length, delays).None? {
        forall k | 0 <= k < Min(|indices|, |starts|)
          ensures starts[k] >= 0.0 && PyIndexValid(|delays|, indices[k]) &&
                  length + starts[k] <= delays[PyPosition(|delays|, indices[k])]
        {
          if k > 0 {
            assert indices[1..][k - 1] == indices[k] && starts[1..][k - 1] == starts[k];
          }
        }
      }
    }
  }

  /** `[m_vec[delay_index, 0] for m_vec, delay_index in zip(modes, delay_indices)]` */
  function NodeValues(modes: seq<Vector>, indices: seq<int>): Result<seq<Complex>>
    decreases |modes|
  {
    if |modes| == 0 || |indices| == 0 then Ok([])
    else match PyLookup(modes[0], indices[0])
      case None => Err(IndexOutOfRange)
      case Some(m) =>
        match NodeValues(modes[1..], indices[1..])
        case Err(e) => Err(e)
        case Ok(rest) => Ok([m] + rest)
  }

  /** `sum(n * omega * sign for n, omega, sign in zip(indices_of_refraction, natural_freqs, plus_or_minus_arr))` */
  function DeltaK(ns: seq<real>, freqs: seq<Complex>, signs: seq<int>): Complex
    decreases |ns|
  {
    if |ns| == 0 || |freqs| == 0 || |signs| == 0 then Zero
    else Add(ModeMismatch(ns[0], freqs[0], signs[0]), DeltaK(ns[1..], freqs[1..], signs[1..]))
  }

  /** Every sign negated. */
  function Negated(signs: seq<int>): (r: seq<int>)
    ensures |r| == |signs| && forall k :: 0 <= k < |signs| ==> r[k] == -signs[k]
  {
    seq(|signs|, k requires 0 <= k < |signs| => -signs[k])
  }

  /** One mode's contribution to delta_k: n * omega * sign. */
  function ModeMismatch(n: real, omega: Complex, sign: int): Complex
  {
    Mul(Mul(FromReal(n), omega), FromInt(sign))
  }

  lemma ModeMismatchNegated(n: real, omega: Complex, sign: int, flipped: int)
    requires flipped == -sign
    ensures ModeMismatch(n, omega, flipped) == Neg(ModeMismatch(n, omega, sign))
  {
  }

  lemma NegAdd(x: Complex, y: Complex, negX: Complex, negY: Complex)
    requires negX == Neg(x) && negY == Neg(y)
    ensures Add(negX, negY) == Neg(Add(x, y))
  {
  }

  /** Exchanging creation and annihilation in every mode negates the phase mismatch. */
  lemma {:induction false} DeltaKNegated(ns: seq<real>, freqs: seq<Complex>, signs: seq<int>)
    ensures DeltaK(ns, freqs, Negated(signs)) == Neg(DeltaK(ns, freqs, signs))
    decreases |ns|
  {
    var flipped := Negated(signs);
    if |ns| > 0 && |freqs| > 0 && |signs| > 0 {
      assert flipped[1..] == Negated(signs[1..]);
      DeltaKNegated(ns[1..], freqs[1..], signs[1..]);
      ModeMismatchNegated(ns[0], freqs[0], signs[0], flipped[0]);
      NegAdd(ModeMismatch(ns[0], freqs[0], signs[0]), DeltaK(ns[1..], freqs[1..], signs[1..]),
             ModeMismatch(ns[0], freqs[0], flipped[0]), DeltaK(ns[1..], freqs[1..], flipped[1..]));
    }
  }

  /** `pick_conj(m, sign)`: m for a creation operator, conj(m) for an annihilation, else raise. */
  function PickConj(m: Complex, sign: int): (r: Result<Complex>)
    ensures r.Ok? <==> sign == 1 || sign == -1
  {
    if sign == 1 then Ok(m)
    else if sign == -1 then Ok(Conj(m))
    else Err(BadSign)
  }

  /** `np.prod` of `pick_conj(m * exp(-1j * delta_k * start_loc), sign)` over the zipped triples; 1 when empty. */
  function PhaseProduct(values: seq<Complex>, signs: seq<int>, starts: seq<real>, dk: Complex,
                        exp: Complex -> Complex): Result<Complex>
    decreases |values|
  {
    if |values| == 0 || |signs| == 0 || |starts| == 0 then Ok(One)
    else
      var factor := PickConj(Mul(values[0], exp(Mul(Mul(Neg(J), dk), FromReal(starts[0])))), signs[0]);
      match factor
      case Err(e) => Err(e)
      case Ok(f) =>
        match PhaseProduct(values[1..], signs[1..], starts[1..], dk, exp)
        case Err(e) => Err(e)
        case Ok(p) => Ok(Mul(f, p))
  }

  /** The number of triples zip(a, b, c) yields. */
  function Zip3<A, B, C>(a: seq<A>, b: seq<B>, c: seq<C>): nat
  {
    Min(Min(|a|, |b|), |c|)
  }

  /** The product raises exactly when some zipped sign is neither 1 nor -1. */
  lemma {:induction false} PhaseProductIffSigns(values: seq<Complex>, signs: seq<int>, starts: seq<real>, dk: Complex,
                                                exp: Complex -> Complex)
    ensures PhaseProduct(values, signs, starts, dk, exp).Ok? <==>
      forall k :: 0 <= k < Zip3(values, signs, starts) ==> signs[k] == 1 || signs[k] == -1
    ensures PhaseProduct(values, signs, starts, dk, exp).Err? ==> PhaseProduct(values, signs, starts, dk, exp).error == BadSign
    decreases |values|
  {
    if |values| > 0 && |signs| > 0 && |starts| > 0 {
      PhaseProductIffSigns(values[1..], signs[1..], starts[1..], dk, exp);
      assert forall k :: 0 <= k < Zip3(values[1..], signs[1..], starts[1..]) ==> signs[1..][k] == signs[k + 1];
    }
  }

  /** The value returned once the inputs are valid: the |delta_k| < eps branch or the phase-matched integral. */
  function InteractionBranch(c: Complex, dk: Complex, length: real, eps: real, exp: Complex -> Complex): Result<Complex>
  {
    if AbsBelow(dk, eps) then Ok(Mul(c, FromReal(length)))
    else if dk == Zero then Err(Undefined)
    else Ok(Div(Mul(Mul(J, c), Sub(exp(Mul(Mul(Neg(J), dk), FromReal(length))), One)), dk))
  }

  /**
   * `make_nonlinear_interaction`: the checks in the order `make_nonlinear_interaction` makes them, then the
   * node values, delta_k, the phase product and the branch on |delta_k| < eps.
   */
  function MakeNonlinearInteraction(freqs: seq<Complex>, modes: seq<Vector>, delays: seq<real>,
                                    delayIndices: IndexArg, startNonlin: StartArg, length: real,
                                    signs: seq<int>, refraction: RefractionArg, eps: real,
                                    exp: Complex -> Complex): Result<Complex>
  {
    var M := |freqs|;
    Interaction(freqs, modes, delays, DelayIndices(delayIndices, M), StartLocations(startNonlin, M), length,
                signs, RefractiveIndices(refraction, M), eps, exp)
  }

  /** The checks and the computation on the broadcast arguments, each still an error if its type was wrong. */
  function Interaction(freqs: seq<Complex>, modes: seq<Vector>, delays: seq<real>,
                       indicesArg: Result<seq<int>>, startsArg: Result<seq<real>>, length: real,
                       signs: seq<int>, nsArg: Result<seq<real>>, eps: real,
                       exp: Complex -> Complex): Result<Complex>
  {
    if |modes| != |freqs| then Err(ModeCountMismatch)
    else match indicesArg
      case Err(e) => Err(e)
      case Ok(indices) =>
        match startsArg
        case Err(e) => Err(e)
        case Ok(starts) =>
          if length < 0.0 then Err(NegativeLength)
          else match RegionError(indices, starts, length, delays)
            case Some(e) => Err(e)
            case None =>
              match nsArg
              case Err(e) => Err(e)
              case Ok(ns) =>
                match NodeValues(modes, indices)
                case Err(e) => Err(e)
                case Ok(values) =>
                  var dk := DeltaK(ns, freqs, signs);
                  match PhaseProduct(values, signs, starts, dk, exp)
                  case Err(e) => Err(e)
                  case Ok(c) => InteractionBranch(c, dk, length, eps, exp)
  }

  /** The node values exist exactly when every zipped delay index is in range for its mode. */
  lemma {:induction false} NodeValuesIffInRange(modes: seq<Vector>, indices: seq<int>)
    ensures NodeValues(modes, indices).Ok? <==>
      forall k :: 0 <= k < Min(|modes|, |indices|) ==> PyIndexValid(|modes[k]|, indices[k])
    ensures NodeValues(modes, indices).Ok? ==>
      var values := NodeValues(modes, indices).value;
      |values| == Min(|modes|, |indices|) &&
      forall k :: 0 <= k < |values| ==> values[k] == modes[k][PyPosition(|modes[k]|, indices[k])]
    ensures NodeValues(modes, indices).Err? ==> NodeValues(modes, indices).error == IndexOutOfRange
    decreases |modes|
  {
    if |modes| > 0 && |indices| > 0 {
      NodeValuesIffInRange(modes[1..], indices[1..]);
      assert forall k :: 0 <= k < Min(|modes[1..]|, |indices[1..]|) ==>
        modes[1..][k] == modes[k + 1] && indices[1..][k] == indices[k + 1];
    }
  }

  /** The arguments pass every check `make_nonlinear_interaction` makes before any arithmetic is done. */
  predicate InteractionArgumentsValid(freqs: seq<Complex>, modes: seq<Vector>, delays: seq<real>,
                                      delayIndices: IndexArg, startNonlin: StartArg, length: real,
                                      signs: seq<int>, refraction: RefractionArg)
  {
    var M := |freqs|;
    |modes| == M && !delayIndices.IndexOther? && !startNonlin.StartOther? && !refraction.RefractionOther? &&
    length >= 0.0 &&
    RegionsValid(DelayIndices(delayIndices, M).value, StartLocations(startNonlin, M).value, length, delays) &&
    (forall k :: 0 <= k < Min(M, |DelayIndices(delayIndices, M).value|) ==>
       PyIndexValid(|modes[k]|, DelayIndices(delayIndices, M).value[k])) &&
    (forall k :: 0 <= k < Min(Min(M, |DelayIndices(delayIndices, M).value|), Min(|signs|, |StartLocations(startNonlin, M).value|)) ==>
       signs[k] == 1 || signs[k] == -1)
  }

  /**
   * The interaction is computed exactly when every check passes; the only other outcome for valid
   * arguments is the undefined quotient of the non-degenerate branch when delta_k is exactly zero.
   */
  lemma InteractionValidation(freqs: seq<Complex>, modes: seq<Vector>, delays: seq<real>,
                              delayIndices: IndexArg, startNonlin: StartArg, length: real,
                              signs: seq<int>, refraction: RefractionArg, eps: real, exp: Complex -> Complex)
    ensures var r := MakeNonlinearInteraction(freqs, modes, delays, delayIndices, startNonlin, length, signs, refraction, eps, exp);
      (r.Ok? || r == Err(Undefined)) <==>
      InteractionArgumentsValid(freqs, modes, delays, delayIndices, startNonlin, length, signs, refraction)
  {
    var M := |freqs|;
    if |modes| == M && !delayIndices.IndexOther? && !startNonlin.StartOther? && length >= 0.0 {
      InteractionValidOnLists(freqs, modes, delays, DelayIndices(delayIndices, M).value,
                              StartLocations(startNonlin, M).value, length, signs,
                              RefractiveIndices(refraction, M), eps, exp);
    }
  }

  /** The same equivalence once the delay indices and start locations are lists. */
  lemma InteractionValidOnLists(freqs: seq<Complex>, modes: seq<Vector>, delays: seq<real>,
                                indices: seq<int>, starts: seq<real>, length: real,
                                signs: seq<int>, nsArg: Result<seq<real>>, eps: real, exp: Complex -> Complex)
    requires |modes| == |freqs| && length >= 0.0
    requires nsArg.Err? ==> nsArg.error == BadArgumentType
    ensures var r := Interaction(freqs, modes, delays, Ok(indices), Ok(starts), length, signs, nsArg, eps, exp);
      (r.Ok? || r == Err(Undefined)) <==>
      RegionsValid(indices, starts, length, delays) && nsArg.Ok? &&
      (forall k :: 0 <= k < Min(|freqs|, |indices|) ==> PyIndexValid(|modes[k]|, indices[k])) &&
      (forall k :: 0 <= k < Min(Min(|freqs|, |indices|), Min(|signs|, |starts|)) ==> signs[k] == 1 || signs[k] == -1)
  {
    RegionErrorIffInvalid(indices, starts, length, delays);
    NodeValuesIffInRange(modes, indices);
    if RegionsValid(indices, starts, length, delays) && nsArg.Ok? && NodeValues(modes, indices).Ok? {
      var values := NodeValues(modes, indices).value;
      PhaseProductIffSigns(values, signs, starts, DeltaK(nsArg.value, freqs, signs), exp);
    }
  }

  /**
   * The mode-count error is raised exactly when the counts differ, and the length error exactly
   * when the counts agree, both arguments have a valid type and the length is negative.
   */
  lemma InteractionErrorKinds(freqs: seq<Complex>, modes: seq<Vector>, delays: seq<real>,
                              delayIndices: IndexArg, startNonlin: StartArg, length: real,
                              signs: seq<int>, refraction: RefractionArg, eps: real, exp: Complex -> Complex)
    ensures var r := MakeNonlinearInteraction(freqs, modes, delays, delayIndices, startNonlin, length, signs, refraction, eps, exp);
      r == Err(ModeCountMismatch) <==> |modes| != |freqs|
    ensures var r := MakeNonlinearInteraction(freqs, modes, delays, delayIndices, startNonlin, length, signs, refraction, eps, exp);
      r == Err(NegativeLength) <==>
        |modes| == |freqs| && !delayIndices.IndexOther? && !startNonlin.StartOther? && length < 0.0
  {
    var M := |freqs|;
    if |modes| == M && !delayIndices.IndexOther? && !startNonlin.StartOther? && length >= 0.0 {
      InteractionLaterErrors(freqs, modes, delays, DelayIndices(delayIndices, M).value,
                             StartLocations(startNonlin, M).value, length, signs,
                             RefractiveIndices(refraction, M), eps, exp);
    }
  }

  /** Past the count and length checks, neither of those two errors can come up. */
  lemma InteractionLaterErrors(freqs: seq<Complex>, modes: seq<Vector>, delays: seq<real>,
                               indices: seq<int>, starts: seq<real>, length: real,
                               signs: seq<int>, nsArg: Result<seq<real>>, eps: real, exp: Complex -> Complex)
    requires |modes| == |freqs| && length >= 0.0
    requires nsArg.Err? ==> nsArg.error == BadArgumentType
    ensures var r := Interaction(freqs, modes, delays, Ok(indices), Ok(starts), length, signs, nsArg, eps, exp);
      r != Err(ModeCountMismatch) && r != Err(NegativeLength)
  {
    NodeValuesIffInRange(modes, indices);
    if RegionError(indices, starts, length, delays).None? && nsArg.Ok? && NodeValues(modes, indices).Ok? {
      var values := NodeValues(modes, indices).value;
      PhaseProductIffSigns(values, signs, starts, DeltaK(nsArg.value, freqs, signs), exp);
    }
  }

  /**
   * A scalar delay index, start location or refractive index behaves as the list of M copies of it,
   * and a missing refractive index as M copies of 1.0.
   */
  lemma ScalarArgumentsBroadcast(freqs: seq<Complex>, modes: seq<Vector>, delays: seq<real>,
                                 index: int, start: real, length: real, signs: seq<int>, n: real,
                                 eps: real, exp: Complex -> Complex)
    ensures var M := |freqs|;
      MakeNonlinearInteraction(freqs, modes, delays, IndexScalar(index), StartScalar(start), length, signs,
                               RefractionScalar(n), eps, exp) ==
      MakeNonlinearInteraction(freqs, modes, delays, IndexList(Broadcast(index, M)), StartList(Broadcast(start, M)),
                               length, signs, RefractionList(Broadcast(n, M)), eps, exp)
    ensures MakeNonlinearInteraction(freqs, modes, delays, IndexScalar(index), StartScalar(start), length, signs,
                                     RefractionNone, eps, exp) ==
            MakeNonlinearInteraction(freqs, modes, delays, IndexScalar(index), StartScalar(start), length, signs,
                                     RefractionScalar(1.0), eps, exp)
  {
    var M := |freqs|;
    assert DelayIndices(IndexScalar(index), M) == DelayIndices(IndexList(Broadcast(index, M)), M);
    assert StartLocations(StartScalar(start), M) == StartLocations(StartList(Broadcast(start, M)), M);
    assert RefractiveIndices(RefractionScalar(n), M) == RefractiveIndices(RefractionList(Broadcast(n, M)), M);
    assert RefractiveIndices(RefractionNone, M) == RefractiveIndices(RefractionScalar(1.0), M);
  }

  /** With |delta_k| < eps the value is const * length; outside the tolerance it is the integral of the phase over the region. */
  lemma BranchValues(c: Complex, dk: Complex, length: real, eps: real, exp: Complex -> Complex)
    ensures AbsBelow(dk, eps) ==> InteractionBranch(c, dk, length, eps, exp) == Ok(Mul(c, FromReal(length)))
    ensures !AbsBelow(dk, eps) && dk != Zero ==>
      var r := InteractionBranch(c, dk, length, eps, exp);
      r.Ok? && Mul(r.value, dk) == Mul(Mul(J, c), Sub(exp(Mul(Mul(Neg(J), dk), FromReal(length))), One))
    ensures !AbsBelow(dk, eps) && dk == Zero ==> InteractionBranch(c, dk, length, eps, exp) == Err(Undefined)
  {
    if !AbsBelow(dk, eps) && dk != Zero {
      DivMulCancel(Mul(Mul(J, c), Sub(exp(Mul(Mul(Neg(J), dk), FromReal(length))), One)), dk);
    }
  }

  /** Valid arguments reach the branch on delta_k with the node values and the phase product defined. */
  lemma InteractionReachesBranch(freqs: seq<Complex>, modes: seq<Vector>, delays: seq<real>,
                                 delayIndices: IndexArg, startNonlin: StartArg, length: real,
                                 signs: seq<int>, refraction: RefractionArg, eps: real, exp: Complex -> Complex)
    requires InteractionArgumentsValid(freqs, modes, delays, delayIndices, startNonlin, length, signs, refraction)
    ensures var M := |freqs|;
      var indices := DelayIndices(delayIndices, M).value;
      var dk := DeltaK(RefractiveIndices(refraction, M).value, freqs, signs);
      NodeValues(modes, indices).Ok? &&
      PhaseProduct(NodeValues(modes, indices).value, signs, StartLocations(startNonlin, M).value, dk, exp).Ok? &&
      MakeNonlinearInteraction(freqs, modes, delays, delayIndices, startNonlin, length, signs, refraction, eps, exp) ==
        InteractionBranch(PhaseProduct(NodeValues(modes, indices).value, signs, StartLocations(startNonlin, M).value, dk, exp).value,
                          dk, length, eps, exp)
  {
    var M := |freqs|;
    var indices := DelayIndices(delayIndices, M).value;
    var starts := StartLocations(startNonlin, M).value;
    RegionErrorIffInvalid(indices, starts, length, delays);
    NodeValuesIffInRange(modes, indices);
    PhaseProductIffSigns(NodeValues(modes, indices).value, signs, starts,
                         DeltaK(RefractiveIndices(refraction, M).value, freqs, signs), exp);
  }

  /** With every sign a creation and every start at 0, the phase product is the product of the node values. */
  lemma {:induction false} PhaseProductAtOrigin(values: seq<Complex>, signs: seq<int>, starts: seq<real>, dk: Complex,
                                                exp: Complex -> Complex)
    requires exp(Zero) == One
    requires forall k :: 0 <= k < |signs| ==> signs[k] == 1
    requires forall k :: 0 <= k < |starts| ==> starts[k] == 0.0
    ensures PhaseProduct(values, signs, starts, dk, exp) == Ok(NodeProduct(values[..Zip3(values, signs, starts)]))
    decreases |values|
  {
    var m := Zip3(values, signs, starts);
    if m > 0 {
      var e := Mul(Mul(Neg(J), dk), FromReal(starts[0]));
      assert e == Zero;
      MulOneRight(values[0]);
      PhaseProductAtOrigin(values[1..], signs[1..], starts[1..], dk, exp);
      assert values[1..][..m - 1] == values[..m][1..];
    }
  }

  /** The product of a sequence of complex numbers; 1 when empty. */
  function NodeProduct(values: seq<Complex>): Complex
    decreases |values|
  {
    if |values| == 0 then One else Mul(values[0], NodeProduct(values[1..]))
  }
}

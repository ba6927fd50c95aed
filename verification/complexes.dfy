/** Exact complex numbers: pairs of reals with the field operations the modelled code uses. */
module Complexes {

  datatype Complex = Complex(re: real, im: real)

  const Zero: Complex := Complex(0.0, 0.0)
  const One: Complex := Complex(1.0, 0.0)
  /** The imaginary unit, Python's `1j`. */
  const J: Complex := Complex(0.0, 1.0)

  function FromReal(x: real): Complex { Complex(x, 0.0) }
  function FromInt(n: int): Complex { Complex(n as real, 0.0) }

  function Add(a: Complex, b: Complex): Complex { Complex(a.re + b.re, a.im + b.im) }
  function Sub(a: Complex, b: Complex): Complex { Complex(a.re - b.re, a.im - b.im) }
  function Neg(a: Complex): Complex { Complex(-a.re, -a.im) }
  function Mul(a: Complex, b: Complex): Complex {
    Complex(a.re * b.re - a.im * b.im, a.re * b.im + a.im * b.re)
  }
  function Conj(a: Complex): Complex { Complex(a.re, -a.im) }

  /** |a|^2; comparisons with a tolerance are stated on it to avoid a square root. */
  function NormSq(a: Complex): real { a.re * a.re + a.im * a.im }

  function Inv(a: Complex): Complex
    requires a != Zero
  {
    NormSqZero(a);
    Complex(a.re / NormSq(a), -a.im / NormSq(a))
  }

  function Div(a: Complex, b: Complex): Complex
    requires b != Zero
  {
    Mul(a, Inv(b))
  }

  predicate IsReal(a: Complex) { a.im == 0.0 }

  /** `abs(a) < eps` */
  predicate AbsBelow(a: Complex, eps: real) { eps > 0.0 && NormSq(a) < eps * eps }

  /** `abs(a) > eps` */
  predicate AbsAbove(a: Complex, eps: real) { eps < 0.0 || NormSq(a) > eps * eps }

  /** z^k for a natural exponent (Python's `pow(z, k)`). */
  function Pow(z: Complex, k: nat): Complex
  {
    if k == 0 then One else Mul(Pow(z, k - 1), z)
  }

  /** The product of two positive reals, named so that the solver keeps the fact about it. */
  lemma PositiveProduct(x: real, y: real) returns (p: real)
    requires x > 0.0 && y > 0.0
    ensures p == x * y && p > 0.0
  {
    p := x * y;
  }

  lemma Square(x: real) returns (p: real)
    ensures p == x * x && p >= 0.0
    ensures x != 0.0 ==> p > 0.0
  {
    if x > 0.0 {
      p := PositiveProduct(x, x);
    } else if x < 0.0 {
      p := PositiveProduct(-x, -x);
    } else {
      p := x * x;
    }
  }

  lemma NormSqZero(a: Complex)
    ensures NormSq(a) >= 0.0
    ensures NormSq(a) == 0.0 <==> a == Zero
  {
    var p := Square(a.re);
    var q := Square(a.im);
    assert NormSq(a) == p + q;
  }

  lemma MulInv(a: Complex)
    requires a != Zero
    ensures Mul(a, Inv(a)) == One
  {
    NormSqZero(a);
    var n := NormSq(a);
    calc {
      Mul(a, Inv(a)).re;
      a.re * (a.re / n) - a.im * (-a.im / n);
      (a.re * a.re + a.im * a.im) / n;
      1.0;
    }
    calc {
      Mul(a, Inv(a)).im;
      a.re * (-a.im / n) + a.im * (a.re / n);
      0.0;
    }
  }

  lemma MulComm(a: Complex, b: Complex)
    ensures Mul(a, b) == Mul(b, a)
  {
  }

  lemma MulAssoc(a: Complex, b: Complex, c: Complex)
    ensures Mul(Mul(a, b), c) == Mul(a, Mul(b, c))
  {
    var l, r := Mul(Mul(a, b), c), Mul(a, Mul(b, c));
    assert l.re == a.re * b.re * c.re - a.im * b.im * c.re - a.re * b.im * c.im - a.im * b.re * c.im;
    assert r.re == a.re * b.re * c.re - a.im * b.im * c.re - a.re * b.im * c.im - a.im * b.re * c.im;
    assert l.im == a.re * b.re * c.im - a.im * b.im * c.im + a.re * b.im * c.re + a.im * b.re * c.re;
    assert r.im == a.re * b.re * c.im - a.im * b.im * c.im + a.re * b.im * c.re + a.im * b.re * c.re;
  }

  lemma MulOneRight(a: Complex)
    ensures Mul(a, One) == a && Mul(One, a) == a
  {
  }

  lemma MulConjSelf(a: Complex)
    ensures Mul(a, Conj(a)) == FromReal(NormSq(a))
    ensures Mul(Conj(a), a) == FromReal(NormSq(a))
  {
  }

  lemma ConjMul(a: Complex, b: Complex)
    ensures Conj(Mul(a, b)) == Mul(Conj(a), Conj(b))
  {
  }

  /** Dividing a by b and multiplying back by b gives a. */
  lemma DivMulCancel(a: Complex, b: Complex)
    requires b != Zero
    ensures Mul(Div(a, b), b) == a
  {
    MulInv(b);
    MulAssoc(a, Inv(b), b);
    MulComm(Inv(b), b);
    MulOneRight(a);
  }

  /** The quotient is the unique solution of x * b == a. */
  lemma DivUnique(a: Complex, b: Complex, x: Complex)
    requires b != Zero
    requires Mul(x, b) == a
    ensures Div(a, b) == x
  {
    MulInv(b);
    calc {
      Div(a, b);
      Mul(Mul(x, b), Inv(b));
      { MulAssoc(x, b, Inv(b)); }
      Mul(x, Mul(b, Inv(b)));
      { MulOneRight(x); }
      x;
    }
  }

  /** |a * b|^2 == |a|^2 * |b|^2 */
  lemma NormSqMul(a: Complex, b: Complex)
    ensures NormSq(Mul(a, b)) == NormSq(a) * NormSq(b)
  {
  }

  /** |1 / a|^2 * |a|^2 == 1 */
  lemma NormSqInv(a: Complex)
    requires a != Zero
    ensures NormSq(Inv(a)) * NormSq(a) == 1.0
  {
    MulInv(a);
    NormSqMul(a, Inv(a));
  }

  lemma MulNegRight(a: Complex, b: Complex)
    ensures Mul(a, Neg(b)) == Neg(Mul(a, b))
    ensures Mul(Neg(a), b) == Neg(Mul(a, b))
  {
  }

  /** (a * b) * (c * d) == (a * c) * (b * d) */
  lemma MulSwapMiddle(a: Complex, b: Complex, c: Complex, d: Complex)
    ensures Mul(Mul(a, b), Mul(c, d)) == Mul(Mul(a, c), Mul(b, d))
  {
    MulAssoc(a, b, Mul(c, d));
    MulSwapLeft(b, c, d);
    MulAssoc(a, c, Mul(b, d));
  }

  /** a * (b * c) == b * (a * c) */
  lemma MulSwapLeft(a: Complex, b: Complex, c: Complex)
    ensures Mul(a, Mul(b, c)) == Mul(b, Mul(a, c))
  {
    MulAssoc(a, b, c);
    MulComm(a, b);
    MulAssoc(b, a, c);
  }
}

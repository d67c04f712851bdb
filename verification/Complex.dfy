/** Complex numbers over the reals, and the ring laws the transforms rely on. */
module Complex {

  datatype Cx = Cx(re: real, im: real)

  const ZERO := Cx(0.0, 0.0)
  const ONE := Cx(1.0, 0.0)
  const MINUS_ONE := Cx(-1.0, 0.0)
  const I := Cx(0.0, 1.0)
  const MINUS_I := Cx(0.0, -1.0)

  function Add(a: Cx, b: Cx): Cx {
    Cx(a.re + b.re, a.im + b.im)
  }

  function Sub(a: Cx, b: Cx): Cx {
    Cx(a.re - b.re, a.im - b.im)
  }

  function Mul(a: Cx, b: Cx): Cx {
    Cx(a.re * b.re - a.im * b.im, a.re * b.im + a.im * b.re)
  }

  function Conj(a: Cx): Cx {
    Cx(a.re, -a.im)
  }

  function Scale(r: real, a: Cx): Cx {
    Cx(r * a.re, r * a.im)
  }

  lemma MulAssoc(a: Cx, b: Cx, c: Cx)
    ensures Mul(Mul(a, b), c) == Mul(a, Mul(b, c))
  {
  }

  lemma MulComm(a: Cx, b: Cx)
    ensures Mul(a, b) == Mul(b, a)
  {
  }

  lemma MulAdd(a: Cx, b: Cx, c: Cx)
    ensures Mul(a, Add(b, c)) == Add(Mul(a, b), Mul(a, c))
  {
  }

  lemma MulSub(a: Cx, b: Cx, c: Cx)
    ensures Mul(a, Sub(b, c)) == Sub(Mul(a, b), Mul(a, c))
  {
  }

  /** The complex numbers have no zero divisors. */
  lemma NoZeroDivisors(a: Cx, b: Cx)
    requires Mul(a, b) == ZERO
    ensures a == ZERO || b == ZERO
  {
    if a != ZERO {
      var m := ConjMul(a, b);
      ScaleZero(m, b);
    }
  }

  /** Multiplying by the conjugate divides a nonzero factor out, up to a positive scale. */
  lemma ConjMul(a: Cx, b: Cx) returns (m: real)
    requires a != ZERO
    ensures m > 0.0
    ensures Scale(m, b) == Mul(Conj(a), Mul(a, b))
  {
    m := Norm(a);
    NormPositive(a);
    NormScale(a, b);
  }

  function Times(p: real, q: real): real {
    p * q
  }

  function Square(r: real): real {
    Times(r, r)
  }

  function Norm(a: Cx): real {
    Square(a.re) + Square(a.im)
  }

  lemma NormPositive(a: Cx)
    requires a != ZERO
    ensures Norm(a) > 0.0
  {
    SquareSign(a.re);
    SquareSign(a.im);
    assert a == Cx(a.re, a.im);
  }

  lemma NormScale(a: Cx, b: Cx)
    ensures Scale(Norm(a), b) == Mul(Conj(a), Mul(a, b))
  {
  }

  lemma SquareSign(r: real)
    ensures Square(r) >= 0.0
    ensures r != 0.0 ==> Square(r) > 0.0
  {
    if r < 0.0 {
      PositiveTimes(-r, -r);
    } else if r > 0.0 {
      PositiveTimes(r, r);
    }
  }

  lemma PositiveTimes(p: real, q: real)
    requires p > 0.0 && q > 0.0
    ensures Times(p, q) > 0.0
  {
  }

  lemma ScaleZero(m: real, b: Cx)
    requires m > 0.0 && Scale(m, b) == ZERO
    ensures b == ZERO
  {
    assert m * b.re == 0.0 && m * b.im == 0.0;
    assert b == Cx(b.re, b.im);
  }
}

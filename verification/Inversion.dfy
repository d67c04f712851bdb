/** The inverse transform: running the transform with the conjugate root and dividing by the number of
    samples undoes it. */
module Inversion {
  import opened Complex
  import opened Fourier

  ghost predicate IsPowerOfTwo(n: nat) {
    n == 1 || (n > 0 && n % 2 == 0 && IsPowerOfTwo(n / 2))
  }

  lemma HalfOfPower(n: nat) returns (h: nat)
    requires IsPowerOfTwo(n) && n > 1
    ensures n == 2 * h && h > 0 && IsPowerOfTwo(h)
  {
    h := n / 2;
  }

  /** All m elements of the transform of v, taken at the multiples of s. */
  function Spectrum(v: seq<Cx>, w: int -> Cx, s: int, m: nat): (r: seq<Cx>)
    ensures |r| == m
  {
    seq(m, k => Dft(v, w, s * k))
  }

  lemma {:induction false} RootPower(w: int -> Cx, g: nat, e: int, k: nat)
    requires IsRoot(w, g) && w(e) == ONE
    ensures w(e * k) == ONE
  {
    hide PowerLaws, IsRoot, Mul;
    QuarterTurns(w, g);
    if k > 0 {
      RootPower(w, g, e, k - 1);
      assert e * k == e * (k - 1) + e;
      RootAdd(w, g, e * (k - 1), e);
      TimesOne(ONE);
    }
  }

  /** w is primitive: none of its first m - 1 steps of size c makes a whole number of turns. */
  lemma {:induction false} Primitive(w: int -> Cx, g: nat, c: nat, m: nat, d: nat)
    requires IsRoot(w, g) && IsPowerOfTwo(m) && c * m == 4 * g && 0 < d < m
    ensures w(c * d) != ONE
    decreases m
  {
    hide PowerLaws, IsRoot, IsPowerOfTwo, Mul;
    var h := HalfOfPower(m);
    var t := d / 2;
    if d == 2 * t {
      assert (2 * c) * h == 4 * g && (2 * c) * t == c * d by { Doubling(c, h, t); }
      Primitive(w, g, 2 * c, h, t);
    } else if w(c * d) == ONE {
      // An odd number of half turns would then be a whole number of turns.
      RootPower(w, g, c * d, h);
      OddTurns(c, d, h, t, g);
      RootPeriod(w, g, 2 * g, t);
      QuarterTurns(w, g);
      assert false;
    }
  }

  lemma Doubling(c: nat, h: nat, t: nat)
    ensures (2 * c) * h == c * (2 * h) && (2 * c) * t == c * (2 * t)
  {
  }

  lemma OddTurns(c: nat, d: nat, h: nat, t: nat, g: nat)
    requires d == 2 * t + 1 && c * (2 * h) == 4 * g
    ensures (c * d) * h == 2 * g + t * (4 * g)
  {
    assert c * h == 2 * g;
    assert (c * d) * h == (c * h) * (2 * t + 1);
    assert (c * h) * (2 * t + 1) == t * (2 * (c * h)) + c * h;
  }

  function Ones(m: nat): (r: seq<Cx>)
    ensures |r| == m
  {
    seq(m, _ => ONE)
  }

  lemma OnesMore(k: nat)
    ensures Ones(k + 1) == Ones(k) + [ONE]
  {
  }

  /** A geometric sum telescopes. */
  lemma {:induction false} Geometric(w: int -> Cx, g: nat, m: nat, e: int)
    requires IsRoot(w, g)
    ensures Mul(Sub(w(e), ONE), Dft(Ones(m), w, e)) == Sub(w(e * m), ONE)
  {
    hide PowerLaws, IsRoot, Mul, Add, Sub, Dft, Ones;
    QuarterTurns(w, g);
    if m == 0 {
      assert e * 0 == 0 && Ones(0) == [];
      DftOfNothing(w, e);
      TelescopeBase(w(e));
    } else {
      var k := m - 1;
      var f := e * k;
      Geometric(w, g, k, e);
      OnesMore(k);
      assert k * e == f && e * m == e + f by { NextMultiple(e, k); }
      DftOneMore(Ones(k), ONE, w, e, f);
      RootAdd(w, g, e, f);
      Telescope(w(e), Dft(Ones(k), w, e), w(f));
    }
  }

  lemma NextMultiple(e: int, k: int)
    ensures k * e == e * k && e * (k + 1) == e + e * k
  {
  }

  lemma TelescopeBase(r: Cx)
    ensures Mul(Sub(r, ONE), ZERO) == Sub(ONE, ONE)
  {
  }

  lemma Telescope(r: Cx, x: Cx, y: Cx)
    requires Mul(Sub(r, ONE), x) == Sub(y, ONE)
    ensures Mul(Sub(r, ONE), Add(x, Mul(ONE, y))) == Sub(Mul(r, y), ONE)
  {
    hide Mul;
    TimesOne(y);
    MulAdd(Sub(r, ONE), x, y);
    MulComm(Sub(r, ONE), y);
    MulSub(y, r, ONE);
    TimesOne(y);
    MulComm(y, r);
  }

  /** Orthogonality: over a full period the powers of a root other than one add up to nothing. */
  lemma Orthogonal(w: int -> Cx, g: nat, s: nat, m: nat, d: int)
    requires IsRoot(w, g) && IsPowerOfTwo(m) && s * m == 4 * g && -(m as int) < d < m
    ensures Dft(Ones(m), w, s * d) == if d == 0 then Cx(m as real, 0.0) else ZERO
  {
    hide PowerLaws, IsRoot, IsPowerOfTwo, Mul, Add, Dft, Ones;
    if d == 0 {
      assert s * d == 0;
      SumOfOnes(w, g, m);
    } else {
      Geometric(w, g, m, s * d);
      assert (s * d) * m == d * (4 * g) by { TurnCount(s, d, m, g); }
      FullTurns(w, g, d);
      NotOne(w, g, s, m, d);
      NoZeroDivisors(Sub(w(s * d), ONE), Dft(Ones(m), w, s * d));
    }
  }

  lemma TurnCount(s: int, d: int, m: int, g: int)
    requires s * m == 4 * g
    ensures (s * d) * m == d * (4 * g)
  {
  }

  lemma NotOne(w: int -> Cx, g: nat, s: nat, m: nat, d: int)
    requires IsRoot(w, g) && IsPowerOfTwo(m) && s * m == 4 * g && -(m as int) < d < m && d != 0
    ensures Sub(w(s * d), ONE) != ZERO
  {
    hide PowerLaws, IsRoot, IsPowerOfTwo;
    if d > 0 {
      Primitive(w, g, s, m, d);
    } else {
      Primitive(w, g, s, m, -d);
      assert s * d == -(s * (-d));
      Inverse(w, g, s * (-d));
    }
    assert w(s * d) == Cx(w(s * d).re, w(s * d).im);
  }

  lemma {:induction false} SumOfOnes(w: int -> Cx, g: nat, m: nat)
    requires IsRoot(w, g)
    ensures Dft(Ones(m), w, 0) == Cx(m as real, 0.0)
  {
    hide PowerLaws, IsRoot, Mul, Dft, Ones;
    if m == 0 {
      assert Ones(0) == [];
      DftOfNothing(w, 0);
    } else {
      SumOfOnes(w, g, m - 1);
      OnesMore(m - 1);
      DftOneMore(Ones(m - 1), ONE, w, 0, 0);
      QuarterTurns(w, g);
      TimesOne(ONE);
    }
  }

  lemma FullTurns(w: int -> Cx, g: nat, d: int)
    requires IsRoot(w, g)
    ensures w(d * (4 * g)) == ONE
  {
    hide PowerLaws, IsRoot, Mul;
    QuarterTurns(w, g);
    if d >= 0 {
      RootPeriod(w, g, 0, d);
    } else {
      RootPeriod(w, g, d * (4 * g), -d);
      assert d * (4 * g) + (-d) * (4 * g) == 0;
    }
  }

  /** The inverse of w^e is w^-e, which is also its conjugate. */
  lemma Inverse(w: int -> Cx, g: nat, e: int)
    requires IsRoot(w, g)
    ensures w(-e) == Conj(w(e))
    ensures w(-e) == ONE <==> w(e) == ONE
  {
    hide Mul;
    RootAdd(w, g, e, -e);
    QuarterTurns(w, g);
    assert PowerLaws(w, e, 0);
    InverseIsConj(w(e), w(-e));
  }

  lemma InverseIsConj(a: Cx, b: Cx)
    requires Mul(a, b) == ONE && Mul(a, Conj(a)) == ONE
    ensures b == Conj(a)
    ensures b == ONE <==> a == ONE
  {
    // conj(a) == conj(a) (a b) == (a conj(a)) b == b
    assert b == Conj(a) by {
      hide Mul, Conj;
      MulAssoc(Conj(a), a, b);
      MulComm(a, Conj(a));
      TimesOne(b);
      TimesOne(Conj(a));
    }
    hide Mul;
    assert a == Cx(a.re, a.im);
  }

  function AddSeq(a: seq<Cx>, b: seq<Cx>): (r: seq<Cx>)
    requires |a| == |b|
    ensures |r| == |a|
  {
    seq(|a|, k requires 0 <= k < |a| => Add(a[k], b[k]))
  }

  /** c times the geometric progression with exponent p. */
  function Progression(c: Cx, w: int -> Cx, p: int, m: nat): (r: seq<Cx>)
    ensures |r| == m
  {
    seq(m, k => Mul(c, w(p * k)))
  }

  lemma {:induction false} DftOfSum(a: seq<Cx>, b: seq<Cx>, w: int -> Cx, e: int)
    requires |a| == |b|
    ensures Dft(AddSeq(a, b), w, e) == Add(Dft(a, w, e), Dft(b, w, e))
  {
    hide Mul, Add, Dft;
    if |a| == 0 {
      assert AddSeq(a, b) == a == b == [];
      DftOfNothing(w, e);
      AddZero(ZERO);
    } else {
      var m := |a| - 1;
      var a', b', x, y := a[..m], b[..m], a[m], b[m];
      DftOfSum(a', b', w, e);
      assert a == a' + [x] && b == b' + [y];
      assert AddSeq(a, b) == AddSeq(a', b') + [Add(x, y)];
      DftOneMore(a', x, w, e, m * e);
      DftOneMore(b', y, w, e, m * e);
      DftOneMore(AddSeq(a', b'), Add(x, y), w, e, m * e);
      SumStep(Dft(a', w, e), Dft(b', w, e), x, y, w(m * e));
    }
  }

  lemma SumStep(x: Cx, y: Cx, a: Cx, b: Cx, r: Cx)
    ensures Add(Add(x, y), Mul(Add(a, b), r)) == Add(Add(x, Mul(a, r)), Add(y, Mul(b, r)))
  {
    hide Mul;
    MulComm(Add(a, b), r);
    MulComm(a, r);
    MulComm(b, r);
    MulAdd(r, a, b);
  }

  /** A progression meets the transform in a geometric sum. */
  lemma {:induction false} DftOfProgression(c: Cx, w: int -> Cx, g: nat, p: int, m: nat, e: int)
    requires IsRoot(w, g)
    ensures Dft(Progression(c, w, p, m), w, e) == Mul(c, Dft(Ones(m), w, p + e))
  {
    hide PowerLaws, IsRoot, Mul, Add, Progression, Ones, Dft;
    if m == 0 {
      assert Progression(c, w, p, 0) == Ones(0) == [];
      DftOfNothing(w, e);
      DftOfNothing(w, p + e);
      TimesZero(c);
    } else {
      var k := m - 1;
      var x, y := p * k, k * e;
      DftOfProgression(c, w, g, p, k, e);
      ProgressionMore(c, w, p, k);
      OnesMore(k);
      assert k * (p + e) == x + y by { Distribute(k, p, e); }
      DftOneMore(Progression(c, w, p, k), Mul(c, w(x)), w, e, y);
      DftOneMore(Ones(k), ONE, w, p + e, x + y);
      RootAdd(w, g, x, y);
      ProgressionStep(c, Dft(Ones(k), w, p + e), w(x), w(y));
    }
  }

  lemma ProgressionMore(c: Cx, w: int -> Cx, p: int, k: nat)
    ensures Progression(c, w, p, k + 1) == Progression(c, w, p, k) + [Mul(c, w(p * k))]
  {
    hide Mul;
  }

  lemma Distribute(k: int, p: int, e: int)
    ensures k * (p + e) == p * k + k * e
  {
  }

  lemma ProgressionStep(c: Cx, x: Cx, p: Cx, q: Cx)
    ensures Add(Mul(c, x), Mul(Mul(c, p), q)) == Mul(c, Add(x, Mul(ONE, Mul(p, q))))
  {
    hide Mul, Add;
    TimesOne(Mul(p, q));
    MulAdd(c, x, Mul(p, q));
    MulAssoc(c, p, q);
  }

  /** One more sample adds a progression to the spectrum. */
  lemma SpectrumStep(u: seq<Cx>, a: Cx, w: int -> Cx, s: int, m: nat)
    ensures Spectrum(u + [a], w, s, m) == AddSeq(Spectrum(u, w, s, m), Progression(a, w, s * |u|, m))
  {
    hide Mul, Add, Dft;
    forall k | 0 <= k < m
      ensures Spectrum(u + [a], w, s, m)[k]
           == AddSeq(Spectrum(u, w, s, m), Progression(a, w, s * |u|, m))[k]
    {
      SpectrumIndex(s, |u|, k);
      DftOneMore(u, a, w, s * k, (s * |u|) * k);
    }
  }

  lemma SpectrumIndex(s: int, l: int, k: int)
    ensures (s * l) * k == l * (s * k)
  {
  }

  /** A step of s or of -s makes a full turn in m steps. */
  predicate FullTurn(s: int, m: nat, g: nat) {
    (s >= 0 && s * m == 4 * g) || (s < 0 && -s * m == 4 * g)
  }

  /** The spectrum of a prefix of v, transformed the other way: m v[j] once sample j is in, nothing before. For
      positive s this is back after forth, for negative s forth after back. */
  lemma {:induction false} InversionPrefix(u: seq<Cx>, w: int -> Cx, g: nat, s: int, m: nat, j: nat)
    requires IsRoot(w, g) && IsPowerOfTwo(m) && FullTurn(s, m, g) && |u| <= m && j < m
    ensures Dft(Spectrum(u, w, s, m), w, -(s * j)) == if j < |u| then Scale(m as real, u[j]) else ZERO
    decreases |u|
  {
    hide PowerLaws, IsRoot, IsPowerOfTwo, Mul, Add, Dft, Scale, Spectrum, Progression, AddSeq, FullTurn;
    if |u| == 0 {
      SpectrumOfNothing(w, s, m, -(s * j));
      assert u == [];
    } else {
      var k := |u| - 1;
      var u', a := u[..k], u[k];
      InversionPrefix(u', w, g, s, m, j);
      assert u == u' + [a];
      SpectrumStep(u', a, w, s, m);
      DftOfSum(Spectrum(u', w, s, m), Progression(a, w, s * k, m), w, -(s * j));
      DftOfProgression(a, w, g, s * k, m, -(s * j));
      assert s * k + -(s * j) == s * (k - j) by { Difference(s, k, j); }
      OrthogonalEitherWay(w, g, s, m, k - j);
      InversionAdd(m as real, a, if j < k then Scale(m as real, u[j]) else ZERO);
    }
  }

  lemma OrthogonalEitherWay(w: int -> Cx, g: nat, s: int, m: nat, d: int)
    requires IsRoot(w, g) && IsPowerOfTwo(m) && FullTurn(s, m, g) && -(m as int) < d < m
    ensures Dft(Ones(m), w, s * d) == if d == 0 then Cx(m as real, 0.0) else ZERO
  {
    hide PowerLaws, IsRoot, IsPowerOfTwo, Dft, Ones;
    if s >= 0 {
      Orthogonal(w, g, s, m, d);
    } else {
      Orthogonal(w, g, -s, m, -d);
      assert -s * -d == s * d;
    }
  }

  lemma Difference(s: int, k: int, j: int)
    ensures s * k + -(s * j) == s * (k - j)
  {
  }

  lemma InversionAdd(m: real, a: Cx, x: Cx)
    ensures Add(x, Mul(a, ZERO)) == x
    ensures Add(ZERO, Mul(a, Cx(m, 0.0))) == Scale(m, a)
  {
  }

  lemma {:induction false} SpectrumOfNothing(w: int -> Cx, s: int, m: nat, e: int)
    ensures Dft(Spectrum([], w, s, m), w, e) == ZERO
  {
    hide Mul, Add;
    if m > 0 {
      SpectrumOfNothing(w, s, m - 1, e);
      assert Spectrum([], w, s, m) == Spectrum([], w, s, m - 1) + [ZERO];
      DftOneMore(Spectrum([], w, s, m - 1), ZERO, w, e, (m - 1) * e);
      TimesZero(w((m - 1) * e));
      AddZero(ZERO);
    }
  }

  /** Element j of the inverse transform. */
  function InverseDft(v: seq<Cx>, w: int -> Cx, s: int, j: int): Cx
    requires |v| > 0
  {
    Scale(1.0 / |v| as real, Dft(v, w, -(s * j)))
  }

  /** The inverse transform undoes the transform, sample by sample. */
  lemma InverseTransform(v: seq<Cx>, w: int -> Cx, g: nat, s: nat, j: nat)
    requires IsRoot(w, g) && IsPowerOfTwo(|v|) && s * |v| == 4 * g && j < |v|
    ensures InverseDft(Spectrum(v, w, s, |v|), w, s, j) == v[j]
  {
    hide PowerLaws, IsRoot, IsPowerOfTwo, Mul, Add, Dft, Spectrum, Scale;
    InversionPrefix(v, w, g, s, |v|, j);
    ScaleBack(|v|, v[j]);
  }

  lemma ScaleBack(m: nat, a: Cx)
    requires m > 0
    ensures Scale(1.0 / m as real, Scale(m as real, a)) == a
  {
    var i := 1.0 / m as real;
    assert i * m as real == 1.0;
    assert i * (m as real * a.re) == (i * m as real) * a.re;
    assert i * (m as real * a.im) == (i * m as real) * a.im;
  }

  function ScaleAll(c: real, v: seq<Cx>): (r: seq<Cx>)
    ensures |r| == |v|
  {
    seq(|v|, j requires 0 <= j < |v| => Scale(c, v[j]))
  }

  lemma {:induction false} DftOfScaled(c: real, v: seq<Cx>, w: int -> Cx, e: int)
    ensures Dft(ScaleAll(c, v), w, e) == Scale(c, Dft(v, w, e))
  {
    hide Mul, Add, Dft, Scale;
    if |v| == 0 {
      assert ScaleAll(c, v) == v == [];
      DftOfNothing(w, e);
      ScaleZero(c);
    } else {
      var j := |v| - 1;
      DftOfScaled(c, v[..j], w, e);
      assert v == v[..j] + [v[j]] && ScaleAll(c, v) == ScaleAll(c, v[..j]) + [Scale(c, v[j])];
      DftOneMore(v[..j], v[j], w, e, j * e);
      DftOneMore(ScaleAll(c, v[..j]), Scale(c, v[j]), w, e, j * e);
      ScaleStep(c, Dft(v[..j], w, e), v[j], w(j * e));
    }
  }

  lemma ScaleZero(c: real)
    ensures Scale(c, ZERO) == ZERO
  {
  }

  lemma ScaleStep(c: real, x: Cx, a: Cx, r: Cx)
    ensures Add(Scale(c, x), Mul(Scale(c, a), r)) == Scale(c, Add(x, Mul(a, r)))
  {
  }

  /** The other way round: transforming the inverse transform gives the spectrum back. */
  lemma TransformOfInverse(v: seq<Cx>, u: seq<Cx>, w: int -> Cx, g: nat, s: nat, k: nat)
    requires IsRoot(w, g) && IsPowerOfTwo(|v|) && s * |v| == 4 * g && k < |v| == |u|
    requires forall j | 0 <= j < |v| :: u[j] == InverseDft(v, w, s, j)
    ensures Dft(u, w, s * k) == v[k]
  {
    hide PowerLaws, IsRoot, IsPowerOfTwo, Mul, Add, Dft, Scale;
    var m, t := |v|, -(s as int);
    var back := Spectrum(v, w, t, m);
    forall j | 0 <= j < m
      ensures u[j] == ScaleAll(1.0 / m as real, back)[j]
    {
      Opposite(s, j);
    }
    assert u == ScaleAll(1.0 / m as real, back);
    DftOfScaled(1.0 / m as real, back, w, s * k);
    Backwards(s, m, g);
    InversionPrefix(v, w, g, t, m, k);
    Opposite(s, k);
    ScaleBack(m, v[k]);
  }

  lemma Opposite(s: nat, j: nat)
    ensures -(s as int) * j == -(s * j) && -(-(s as int) * j) == s * j
  {
  }

  lemma Backwards(s: nat, m: nat, g: nat)
    requires s * m == 4 * g
    ensures FullTurn(-(s as int), m, g)
  {
  }
}

/** How the transform of a real signal is read off a complex transform of half the size, and back. */
module RealTransform {
  import opened Complex
  import opened Fourier
  import opened Inversion

  function RealSignal(r: seq<real>): (v: seq<Cx>)
    ensures |v| == |r|
  {
    seq(|r|, j requires 0 <= j < |r| => Cx(r[j], 0.0))
  }

  /** Consecutive samples as the two parts of one complex number. */
  function Paired(r: seq<real>, m: nat): (v: seq<Cx>)
    requires |r| == 2 * m
    ensures |v| == m
  {
    seq(m, j requires 0 <= j < m => Cx(r[2 * j], r[2 * j + 1]))
  }

  ghost predicate AllReal(v: seq<Cx>) {
    forall j | 0 <= j < |v| :: v[j].im == 0.0
  }

  /** A real signal has a conjugate-symmetric transform. */
  lemma {:induction false} ConjugateSymmetry(v: seq<Cx>, w: int -> Cx, g: nat, e: int)
    requires IsRoot(w, g) && AllReal(v)
    ensures Dft(v, w, -e) == Conj(Dft(v, w, e))
  {
    hide PowerLaws, IsRoot, Mul, Add, Dft, Conj;
    if |v| == 0 {
      assert v == [];
      DftOfNothing(w, e);
      DftOfNothing(w, -e);
      ConjZero();
    } else {
      var j := |v| - 1;
      var u, a := v[..j], v[j];
      assert v == u + [a];
      ConjugateSymmetry(u, w, g, e);
      assert j * -e == -(j * e);
      DftOneMore(u, a, w, e, j * e);
      DftOneMore(u, a, w, -e, -(j * e));
      Inverse(w, g, j * e);
      ConjStep(Dft(u, w, e), a, w(j * e));
    }
  }

  lemma ConjZero()
    ensures Conj(ZERO) == ZERO
  {
  }

  lemma ConjStep(x: Cx, a: Cx, r: Cx)
    requires a.im == 0.0
    ensures Add(Conj(x), Mul(a, Conj(r))) == Conj(Add(x, Mul(a, r)))
  {
  }

  lemma PairedMore(u: seq<real>, p: real, q: real, m: nat)
    requires |u| == 2 * m
    ensures Paired(u + [p, q], m + 1) == Paired(u, m) + [Cx(p, q)]
    ensures Evens(RealSignal(u + [p, q]), m + 1) == Evens(RealSignal(u), m) + [Cx(p, 0.0)]
    ensures Odds(RealSignal(u + [p, q]), m + 1) == Odds(RealSignal(u), m) + [Cx(q, 0.0)]
  {
  }

  /** The paired signal transforms to the even part plus i times the odd part. */
  lemma {:induction false} PairedTransform(r: seq<real>, m: nat, w: int -> Cx, e: int)
    requires |r| == 2 * m
    ensures Dft(Paired(r, m), w, e)
         == Add(Dft(Evens(RealSignal(r), m), w, e), Mul(I, Dft(Odds(RealSignal(r), m), w, e)))
  {
    hide *;
    if m == 0 {
      assert Paired(r, 0) == Evens(RealSignal(r), 0) == Odds(RealSignal(r), 0) == [];
      DftOfNothing(w, e);
      TimesZero(I);
      AddZero(ZERO);
    } else {
      var k := m - 1;
      var u, p, q := r[..2 * k], r[2 * k], r[2 * k + 1];
      assert r == u + [p, q];
      PairedTransform(u, k, w, e);
      PairedMore(u, p, q, k);
      DftOneMore(Paired(u, k), Cx(p, q), w, e, k * e);
      DftOneMore(Evens(RealSignal(u), k), Cx(p, 0.0), w, e, k * e);
      DftOneMore(Odds(RealSignal(u), k), Cx(q, 0.0), w, e, k * e);
      PairStep(Dft(Evens(RealSignal(u), k), w, e), Dft(Odds(RealSignal(u), k), w, e), p, q, w(k * e));
    }
  }

  lemma PairStep(x: Cx, y: Cx, p: real, q: real, r: Cx)
    ensures Add(Add(x, Mul(I, y)), Mul(Cx(p, q), r))
         == Add(Add(x, Mul(Cx(p, 0.0), r)), Mul(I, Add(y, Mul(Cx(q, 0.0), r))))
  {
  }

  /** Elements k and 2 g - k of the half-size transform z and of the full transform x of 4 g samples, from one
      even part and one odd part. */
  lemma RealPair(r: seq<real>, w: int -> Cx, g: nat, k: int) returns (even: Cx, odd: Cx)
    requires IsRoot(w, g) && |r| == 4 * g
    ensures Dft(Paired(r, 2 * g), w, 2 * k) == Add(even, Mul(I, odd))
    ensures Dft(Paired(r, 2 * g), w, 2 * (2 * g - k)) == Add(Conj(even), Mul(I, Conj(odd)))
    ensures Dft(RealSignal(r), w, k) == Add(even, Mul(w(k), odd))
    ensures Dft(RealSignal(r), w, 2 * g - k) == Conj(Sub(even, Mul(w(k), odd)))
  {
    hide *;
    var v, k' := RealSignal(r), 2 * g - k;
    var a, b := Evens(v, 2 * g), Odds(v, 2 * g);
    even, odd := Dft(a, w, 2 * k), Dft(b, w, 2 * k);
    PairedTransform(r, 2 * g, w, 2 * k);
    PairedTransform(r, 2 * g, w, 2 * k');
    Decimate(v, 2 * g, w, g, k);
    Decimate(v, 2 * g, w, g, k');
    HalvesAreReal(r, 2 * g);
    MirroredHalf(a, w, g, k);
    MirroredHalf(b, w, g, k);
    RootTurns(w, g, -k);
    Inverse(w, g, k);
    ConjMirror(even, odd, w(k));
  }

  lemma HalvesAreReal(r: seq<real>, m: nat)
    requires |r| == 2 * m
    ensures AllReal(Evens(RealSignal(r), m)) && AllReal(Odds(RealSignal(r), m)) && AllReal(RealSignal(r))
  {
  }

  lemma MirroredHalf(v: seq<Cx>, w: int -> Cx, g: nat, k: int)
    requires IsRoot(w, g) && AllReal(v)
    ensures Dft(v, w, 2 * (2 * g - k)) == Conj(Dft(v, w, 2 * k))
  {
    hide *;
    DftTurns(v, w, g, -(2 * k));
    ConjugateSymmetry(v, w, g, 2 * k);
  }

  lemma ConjMirror(even: Cx, odd: Cx, r: Cx)
    ensures Add(Conj(even), Mul(Mul(Conj(r), MINUS_ONE), Conj(odd))) == Conj(Sub(even, Mul(r, odd)))
  {
  }

  /** The even and odd parts behind two mirrored elements of the half-size transform. */
  function EvenPart(a: Cx, b: Cx): Cx {
    Cx(0.5 * (a.re + b.re), 0.5 * (a.im - b.im))
  }

  function OddPart(a: Cx, b: Cx): Cx {
    Cx(0.5 * (a.im + b.im), -0.5 * (a.re - b.re))
  }

  lemma PartsOfPair(even: Cx, odd: Cx)
    ensures EvenPart(Add(even, Mul(I, odd)), Add(Conj(even), Mul(I, Conj(odd)))) == even
    ensures OddPart(Add(even, Mul(I, odd)), Add(Conj(even), Mul(I, Conj(odd)))) == odd
  {
    hide Mul;
    MulI(odd);
    MulI(Conj(odd));
  }

  /** The transform of a real signal of 2 m samples in 2 m cells: element 0, element m, then elements
      1, 2, ... as pairs. */
  ghost predicate IsPacked(y: seq<real>, r: seq<real>, m: nat, w: int -> Cx) {
    && m > 0 && |y| == |r| == 2 * m
    && y[0] == Dft(RealSignal(r), w, 0).re
    && y[1] == Dft(RealSignal(r), w, m).re
    && forall k | 1 <= k < m :: Cx(y[2 * k], y[2 * k + 1]) == Dft(RealSignal(r), w, k)
  }

  /** Elements 0 and 2 g of the real transform, from element 0 of the half-size transform. Both are real, so
      packing loses nothing. */
  lemma EndElements(r: seq<real>, w: int -> Cx, g: nat)
    requires IsRoot(w, g) && |r| == 4 * g
    ensures
      var z := Dft(Paired(r, 2 * g), w, 0);
      Dft(RealSignal(r), w, 0) == Cx(z.re + z.im, 0.0) && Dft(RealSignal(r), w, 2 * g) == Cx(z.re - z.im, 0.0)
  {
    hide PowerLaws, IsRoot, Mul, Dft, RealSignal, Paired;
    QuarterTurns(w, g);
    DftTurns(Paired(r, 2 * g), w, g, 0);
    var even, odd := RealPair(r, w, g, 0);
    TimesOne(odd);
    MulI(odd);
    MulI(Conj(odd));
  }

  /** Element g of the real transform is the conjugate of its counterpart. */
  lemma MiddleElement(r: seq<real>, w: int -> Cx, g: nat)
    requires IsRoot(w, g) && |r| == 4 * g
    ensures Dft(RealSignal(r), w, g) == Conj(Dft(Paired(r, 2 * g), w, 2 * g))
  {
    hide PowerLaws, IsRoot, Mul, Dft, RealSignal, Paired;
    QuarterTurns(w, g);
    var even, odd := RealPair(r, w, g, g);
    MulI(odd);
    MulI(Conj(odd));
    MulMinusI(odd);
  }

  /** One step of the post-pass: what it stores at k and at 2 g - k. */
  lemma UnpackStep(r: seq<real>, w: int -> Cx, g: nat, k: int)
    requires IsRoot(w, g) && |r| == 4 * g
    ensures
      var a, b := Dft(Paired(r, 2 * g), w, 2 * k), Dft(Paired(r, 2 * g), w, 2 * (2 * g - k));
      var even, t := EvenPart(a, b), Mul(w(k), OddPart(a, b));
      Dft(RealSignal(r), w, k) == Add(even, t) && Dft(RealSignal(r), w, 2 * g - k) == Conj(Sub(even, t))
  {
    hide *;
    var even, odd := RealPair(r, w, g, k);
    PartsOfPair(even, odd);
  }

  /** One step of the pre-pass, the inverse of `UnpackStep`. */
  lemma PackStep(r: seq<real>, w: int -> Cx, g: nat, k: int)
    requires IsRoot(w, g) && |r| == 4 * g
    ensures
      var a, b := Dft(RealSignal(r), w, k), Dft(RealSignal(r), w, 2 * g - k);
      var even, odd := EvenPart(a, b), Mul(Conj(w(k)), Cx(0.5 * (a.re - b.re), 0.5 * (a.im + b.im)));
      && Dft(Paired(r, 2 * g), w, 2 * k) == Cx(even.re - odd.im, odd.re + even.im)
      && Dft(Paired(r, 2 * g), w, 2 * (2 * g - k)) == Cx(even.re + odd.im, odd.re - even.im)
  {
    hide IsRoot, Mul, Dft, RealSignal, Paired;
    var even, odd := RealPair(r, w, g, k);
    MulI(odd);
    MulI(Conj(odd));
    TurnBackAndForth(w, g, k, odd);
  }

  lemma TurnBackAndForth(w: int -> Cx, g: nat, k: int, a: Cx)
    requires IsRoot(w, g)
    ensures Mul(Conj(w(k)), Mul(w(k), a)) == a
  {
    hide Mul, Conj;
    assert PowerLaws(w, k, 0);
    MulAssoc(Conj(w(k)), w(k), a);
    MulComm(Conj(w(k)), w(k));
    TimesOne(a);
  }
}

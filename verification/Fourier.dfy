/** The discrete Fourier transform as a plain sum over powers of a root of unity.
    This is the reference every fast routine in `EspFft` is measured against. */
module Fourier {
  import opened Complex

  /** The laws of the powers w(k) == exp(-2 pi i k / n) at exponents a and b. */
  ghost predicate PowerLaws(w: int -> Cx, a: int, b: int) {
    && w(a + b) == Mul(w(a), w(b))
    && Mul(w(a), Conj(w(a))) == ONE
  }

  /** `w` gives the powers of the root of unity that makes a quarter turn clockwise at g: the primitive
      n-th root with n == 4 g. */
  ghost predicate IsRoot(w: int -> Cx, g: nat) {
    && g > 0
    && w(g) == MINUS_I
    && forall a, b :: PowerLaws(w, a, b)
  }

  lemma RootAdd(w: int -> Cx, g: nat, a: int, b: int)
    requires IsRoot(w, g)
    ensures w(a + b) == Mul(w(a), w(b))
  {
    assert PowerLaws(w, a, b);
  }

  lemma RootSize(w: int -> Cx, g: nat)
    requires IsRoot(w, g)
    ensures g > 0
  {
  }

  lemma QuarterTurns(w: int -> Cx, g: nat)
    requires IsRoot(w, g)
    ensures g > 0
    ensures w(0) == ONE && w(g) == MINUS_I && w(2 * g) == MINUS_ONE && w(3 * g) == I && w(4 * g) == ONE
  {
    hide PowerLaws, Mul;
    RootAdd(w, g, g, g);
    RootAdd(w, g, 2 * g, g);
    RootAdd(w, g, 2 * g, 2 * g);
    RootAdd(w, g, 0, g);
    UnitTurn(w(0));
    Turns();
  }

  lemma Turns()
    ensures Mul(MINUS_I, MINUS_I) == MINUS_ONE
    ensures Mul(MINUS_ONE, MINUS_I) == I
    ensures Mul(MINUS_ONE, MINUS_ONE) == ONE
  {
  }

  lemma UnitTurn(a: Cx)
    requires Mul(a, MINUS_I) == MINUS_I
    ensures a == ONE
  {
    hide Mul;
    MulComm(a, MINUS_I);
    MulMinusI(a);
    assert a == Cx(a.re, a.im);
  }

  lemma TimesOne(a: Cx)
    ensures Mul(a, ONE) == a && Mul(ONE, a) == a && Mul(MINUS_ONE, a) == Cx(-a.re, -a.im)
  {
  }

  lemma TimesZero(a: Cx)
    ensures Mul(a, ZERO) == ZERO && Mul(ZERO, a) == ZERO
  {
  }

  lemma MulI(a: Cx)
    ensures Mul(I, a) == Cx(-a.im, a.re)
  {
  }

  lemma MulMinusI(a: Cx)
    ensures Mul(MINUS_I, a) == Cx(a.im, -a.re)
  {
  }

  /** Factors a quarter, a half and three quarters of a turn on. */
  lemma RootTurns(w: int -> Cx, g: nat, e: int)
    requires IsRoot(w, g)
    ensures w(e + g) == Mul(w(e), MINUS_I)
    ensures w(e + 2 * g) == Mul(w(e), MINUS_ONE)
    ensures w(e + 3 * g) == Mul(w(e), I)
    ensures w(e + 4 * g) == w(e)
  {
    hide *;
    QuarterTurns(w, g);
    RootAdd(w, g, e, g);
    RootAdd(w, g, e, 2 * g);
    RootAdd(w, g, e, 3 * g);
    RootAdd(w, g, e, 4 * g);
    TimesOne(w(e));
  }

  lemma {:induction false} RootPeriod(w: int -> Cx, g: nat, m: int, k: nat)
    requires IsRoot(w, g)
    ensures w(m + k * (4 * g)) == w(m)
  {
    hide *;
    if k > 0 {
      RootPeriod(w, g, m, k - 1);
      assert k * (4 * g) == (k - 1) * (4 * g) + 4 * g;
      RootTurns(w, g, m + (k - 1) * (4 * g));
    }
  }

  /** The element at index e of the transform of v: the sum of v[j] w^(j e). */
  function Dft(v: seq<Cx>, w: int -> Cx, e: int): Cx {
    if |v| == 0 then ZERO
    else Add(Dft(v[..|v| - 1], w, e), Mul(v[|v| - 1], w((|v| - 1) * e)))
  }

  lemma DftOfNothing(w: int -> Cx, e: int)
    ensures Dft([], w, e) == ZERO
  {
  }

  lemma DftOneMore(u: seq<Cx>, a: Cx, w: int -> Cx, e: int, f: int)
    requires f == |u| * e
    ensures Dft(u + [a], w, e) == Add(Dft(u, w, e), Mul(a, w(f)))
  {
    assert (u + [a])[..|u|] == u;
  }

  lemma DftTwoMore(u: seq<Cx>, a: Cx, b: Cx, w: int -> Cx, e: int, f: int)
    requires f == |u| * e
    ensures Dft(u + [a, b], w, e) == Add(Add(Dft(u, w, e), Mul(a, w(f))), Mul(b, w(e + f)))
  {
    hide Mul, Add;
    DftOneMore(u, a, w, e, f);
    DftOneMore(u + [a], b, w, e, e + f);
    assert u + [a, b] == u + [a] + [b];
  }

  /** The h samples of v at even positions, and those at odd positions. */
  function Evens(v: seq<Cx>, h: nat): (r: seq<Cx>)
    requires |v| == 2 * h
    ensures |r| == h
  {
    seq(h, j requires 0 <= j < h => v[2 * j])
  }

  function Odds(v: seq<Cx>, h: nat): (r: seq<Cx>)
    requires |v| == 2 * h
    ensures |r| == h
  {
    seq(h, j requires 0 <= j < h => v[2 * j + 1])
  }

  lemma HalvesMore(u: seq<Cx>, a: Cx, b: Cx, h: nat)
    requires |u| == 2 * h
    ensures Evens(u + [a, b], h + 1) == Evens(u, h) + [a]
    ensures Odds(u + [a, b], h + 1) == Odds(u, h) + [b]
  {
  }

  /** Decimation in time: a transform splits into those of its even and odd halves. */
  lemma {:induction false} Decimate(v: seq<Cx>, h: nat, w: int -> Cx, g: nat, e: int)
    requires IsRoot(w, g) && |v| == 2 * h
    ensures Dft(v, w, e) == Add(Dft(Evens(v, h), w, 2 * e), Mul(w(e), Dft(Odds(v, h), w, 2 * e)))
  {
    hide PowerLaws, IsRoot, Mul, Add, Dft, Evens, Odds;
    if h == 0 {
      assert v == Evens(v, 0) == Odds(v, 0) == [];
      DftOfNothing(w, e);
      DftOfNothing(w, 2 * e);
      TimesZero(w(e));
      AddZero(ZERO);
    } else {
      var u, a, b := v[..2 * h - 2], v[2 * h - 2], v[2 * h - 1];
      assert v == u + [a, b];
      Decimate(u, h - 1, w, g, e);
      HalvesMore(u, a, b, h - 1);
      DecimateMore(Evens(u, h - 1), Odds(u, h - 1), u, a, b, h - 1, w, g, e);
    }
  }

  lemma AddZero(a: Cx)
    ensures Add(ZERO, a) == a && Add(a, ZERO) == a
  {
  }

  lemma DecimateMore(even: seq<Cx>, odd: seq<Cx>, u: seq<Cx>, a: Cx, b: Cx, h: nat, w: int -> Cx, g: nat, e: int)
    requires IsRoot(w, g) && |even| == |odd| == h && |u| == 2 * h
    requires Dft(u, w, e) == Add(Dft(even, w, 2 * e), Mul(w(e), Dft(odd, w, 2 * e)))
    ensures Dft(u + [a, b], w, e)
         == Add(Dft(even + [a], w, 2 * e), Mul(w(e), Dft(odd + [b], w, 2 * e)))
  {
    hide *;
    var f := |u| * e;
    TwiceIndex(|u|, h, e);
    DftTwoMore(u, a, b, w, e, f);
    DftOneMore(even, a, w, 2 * e, f);
    DftOneMore(odd, b, w, 2 * e, f);
    RootAdd(w, g, e, f);
    DecimateStep(Dft(even, w, 2 * e), Dft(odd, w, 2 * e), a, b, w(e), w(f));
  }

  lemma TwiceIndex(k: int, h: int, e: int)
    requires k == 2 * h
    ensures k * e == h * (2 * e)
  {
  }

  lemma DecimateStep(x: Cx, y: Cx, a: Cx, b: Cx, r: Cx, s: Cx)
    ensures Add(Add(Add(x, Mul(r, y)), Mul(a, s)), Mul(b, Mul(r, s)))
         == Add(Add(x, Mul(a, s)), Mul(r, Add(y, Mul(b, s))))
  {
    hide Mul;
    MulAdd(r, y, Mul(b, s));
    MulAssoc(r, b, s);
    MulAssoc(b, r, s);
    MulComm(r, b);
  }

  /** The transform is periodic in its index. */
  lemma {:induction false} DftPeriod(v: seq<Cx>, w: int -> Cx, g: nat, e: int, k: nat)
    requires IsRoot(w, g)
    ensures Dft(v, w, e + k * (4 * g)) == Dft(v, w, e)
  {
    hide PowerLaws, IsRoot, Mul, Add, Dft;
    if |v| == 0 {
      assert v == [];
      DftOfNothing(w, e);
      DftOfNothing(w, e + k * (4 * g));
    } else {
      var j := |v| - 1;
      var u, a := v[..j], v[j];
      assert v == u + [a];
      DftPeriod(u, w, g, e, k);
      PeriodIndex(j, e, k, g);
      RootPeriod(w, g, j * e, j * k);
      DftOneMore(u, a, w, e, j * e);
      DftOneMore(u, a, w, e + k * (4 * g), j * e + (j * k) * (4 * g));
    }
  }

  lemma PeriodIndex(j: int, e: int, k: int, g: int)
    ensures j * (e + k * (4 * g)) == j * e + (j * k) * (4 * g)
  {
  }

  lemma DftTurns(v: seq<Cx>, w: int -> Cx, g: nat, e: int)
    requires IsRoot(w, g)
    ensures Dft(v, w, e + 4 * g) == Dft(v, w, e + 8 * g) == Dft(v, w, e + 12 * g) == Dft(v, w, e)
  {
    hide *;
    DftPeriod(v, w, g, e, 1);
    DftPeriod(v, w, g, e, 2);
    DftPeriod(v, w, g, e, 3);
  }

  /** The two outputs half a turn apart, from one pair of half transforms. */
  lemma Radix2(v: seq<Cx>, h: nat, w: int -> Cx, g: nat, e: int)
    requires IsRoot(w, g) && |v| == 2 * h
    ensures
      var u, x := Dft(Evens(v, h), w, 2 * e), Mul(w(e), Dft(Odds(v, h), w, 2 * e));
      Dft(v, w, e) == Add(u, x) && Dft(v, w, e + 2 * g) == Sub(u, x)
  {
    hide *;
    Decimate(v, h, w, g, e);
    Decimate(v, h, w, g, e + 2 * g);
    DftTurns(Evens(v, h), w, g, 2 * e);
    DftTurns(Odds(v, h), w, g, 2 * e);
    RootTurns(w, g, e);
    HalfTurnFactor(Dft(Evens(v, h), w, 2 * e), w(e), Dft(Odds(v, h), w, 2 * e));
  }

  lemma HalfTurnFactor(u: Cx, r: Cx, z: Cx)
    ensures Add(u, Mul(Mul(r, MINUS_ONE), z)) == Sub(u, Mul(r, z))
  {
    hide Mul;
    TurnFactor(r, z);
  }

  /** One step of the split-radix recursion, before the outputs are told apart. */
  lemma DecimateTwice(v: seq<Cx>, q: nat, w: int -> Cx, g: nat, e: int)
    requires IsRoot(w, g) && |v| == 4 * q
    ensures
      var odd := Odds(v, 2 * q);
      Dft(v, w, e) == Add(Dft(Evens(v, 2 * q), w, 2 * e),
                          Add(Mul(w(e), Dft(Evens(odd, q), w, 4 * e)), Mul(w(3 * e), Dft(Odds(odd, q), w, 4 * e))))
  {
    hide *;
    Decimate(v, 2 * q, w, g, e);
    TurnedHalf(Odds(v, 2 * q), q, w, g, e);
  }

  lemma TurnedHalf(u: seq<Cx>, q: nat, w: int -> Cx, g: nat, e: int)
    requires IsRoot(w, g) && |u| == 2 * q
    ensures Mul(w(e), Dft(u, w, 2 * e))
         == Add(Mul(w(e), Dft(Evens(u, q), w, 4 * e)), Mul(w(3 * e), Dft(Odds(u, q), w, 4 * e)))
  {
    hide *;
    Decimate(u, q, w, g, 2 * e);
    RootAdd(w, g, e, 2 * e);
    Turned(w(e), w(2 * e), Dft(Evens(u, q), w, 4 * e), Dft(Odds(u, q), w, 4 * e));
  }

  lemma Turned(r: Cx, s: Cx, x: Cx, y: Cx)
    ensures Mul(r, Add(x, Mul(s, y))) == Add(Mul(r, x), Mul(Mul(r, s), y))
  {
    hide *;
    MulAdd(r, x, Mul(s, y));
    MulAssoc(r, s, y);
  }

  /** The four outputs a quarter turn apart, from one pair of odd sub-transforms. */
  lemma SplitRadix(v: seq<Cx>, q: nat, w: int -> Cx, g: nat, e: int)
    requires IsRoot(w, g) && |v| == 4 * q
    ensures
      var even, odd := Evens(v, 2 * q), Odds(v, 2 * q);
      var u, u' := Dft(even, w, 2 * e), Dft(even, w, 2 * (e + g));
      var x, x' := Mul(w(e), Dft(Evens(odd, q), w, 4 * e)), Mul(w(3 * e), Dft(Odds(odd, q), w, 4 * e));
      && Dft(v, w, e) == Add(u, Add(x, x'))
      && Dft(v, w, e + g) == Sub(u', Mul(I, Sub(x, x')))
      && Dft(v, w, e + 2 * g) == Sub(u, Add(x, x'))
      && Dft(v, w, e + 3 * g) == Add(u', Mul(I, Sub(x, x')))
  {
    hide *;
    var even, odd := Evens(v, 2 * q), Odds(v, 2 * q);
    var z, z' := Evens(odd, q), Odds(odd, q);
    DecimateTwice(v, q, w, g, e);
    DecimateTwice(v, q, w, g, e + g);
    DecimateTwice(v, q, w, g, e + 2 * g);
    DecimateTwice(v, q, w, g, e + 3 * g);
    DftTurns(even, w, g, 2 * e);
    DftTurns(even, w, g, 2 * (e + g));
    DftTurns(z, w, g, 4 * e);
    DftTurns(z', w, g, 4 * e);
    RootTurns(w, g, e);
    ThirdTurns(w, g, e);
    TurnFactors(Dft(even, w, 2 * e), w(e), Dft(z, w, 4 * e), w(3 * e), Dft(z', w, 4 * e));
    TurnFactors(Dft(even, w, 2 * (e + g)), w(e), Dft(z, w, 4 * e), w(3 * e), Dft(z', w, 4 * e));
  }

  lemma ThirdTurns(w: int -> Cx, g: nat, e: int)
    requires IsRoot(w, g)
    ensures w(3 * (e + g)) == Mul(w(3 * e), I)
    ensures w(3 * (e + 2 * g)) == Mul(w(3 * e), MINUS_ONE)
    ensures w(3 * (e + 3 * g)) == Mul(w(3 * e), MINUS_I)
  {
    hide *;
    RootTurns(w, g, 3 * e);
    RootPeriod(w, g, 3 * e + 2 * g, 1);
    RootPeriod(w, g, 3 * e + g, 2);
  }

  lemma TurnFactors(u: Cx, r: Cx, z: Cx, r': Cx, z': Cx)
    ensures Add(u, Add(Mul(Mul(r, MINUS_ONE), z), Mul(Mul(r', MINUS_ONE), z')))
         == Sub(u, Add(Mul(r, z), Mul(r', z')))
    ensures Add(u, Add(Mul(Mul(r, MINUS_I), z), Mul(Mul(r', I), z')))
         == Sub(u, Mul(I, Sub(Mul(r, z), Mul(r', z'))))
    ensures Add(u, Add(Mul(Mul(r, I), z), Mul(Mul(r', MINUS_I), z')))
         == Add(u, Mul(I, Sub(Mul(r, z), Mul(r', z'))))
  {
    hide Mul;
    TurnFactor(r, z);
    TurnFactor(r', z');
    MulI(Sub(Mul(r, z), Mul(r', z')));
  }

  lemma TurnFactor(r: Cx, z: Cx)
    ensures Mul(Mul(r, MINUS_ONE), z) == Cx(-Mul(r, z).re, -Mul(r, z).im)
    ensures Mul(Mul(r, MINUS_I), z) == Cx(Mul(r, z).im, -Mul(r, z).re)
    ensures Mul(Mul(r, I), z) == Cx(-Mul(r, z).im, Mul(r, z).re)
  {
    hide Mul;
    MulComm(r, MINUS_ONE);
    MulComm(r, MINUS_I);
    MulComm(r, I);
    MulAssoc(MINUS_ONE, r, z);
    MulAssoc(MINUS_I, r, z);
    MulAssoc(I, r, z);
    TimesOne(Mul(r, z));
    MulMinusI(Mul(r, z));
    MulI(Mul(r, z));
  }

  lemma DftOne(a: Cx, w: int -> Cx, g: nat, e: int)
    requires IsRoot(w, g)
    ensures Dft([a], w, e) == a
  {
    hide *;
    QuarterTurns(w, g);
    DftOfNothing(w, e);
    DftOneMore([], a, w, e, 0);
    assert [] + [a] == [a];
    UnitTerm(a);
  }

  lemma UnitTerm(a: Cx)
    ensures Add(ZERO, Mul(a, ONE)) == a
  {
  }

  lemma DftTwo(a: Cx, b: Cx, w: int -> Cx, g: nat, e: int)
    requires IsRoot(w, g)
    ensures Dft([a, b], w, e) == Add(a, Mul(w(e), b))
  {
    hide *;
    DftOne(a, w, g, e);
    DftOneMore([a], b, w, e, e);
    assert [a, b] == [a] + [b];
    MulComm(b, w(e));
  }

  lemma DftTwoTurns(a: Cx, b: Cx, w: int -> Cx, g: nat)
    requires IsRoot(w, g)
    ensures Dft([a, b], w, 0) == Add(a, b)
    ensures Dft([a, b], w, 2 * g) == Sub(a, b)
  {
    hide PowerLaws, IsRoot, Mul, Dft;
    DftTwo(a, b, w, g, 0);
    DftTwo(a, b, w, g, 2 * g);
    QuarterTurns(w, g);
    TimesOne(b);
  }

  /** The transform of four samples, at the four quarter turns. */
  lemma DftFour(v: seq<Cx>, w: int -> Cx, g: nat)
    requires IsRoot(w, g) && |v| == 4
    ensures
      var even, odd := Add(v[0], v[2]), Add(v[1], v[3]);
      var even', odd' := Sub(v[0], v[2]), Mul(MINUS_I, Sub(v[1], v[3]));
      && Dft(v, w, 0) == Add(even, odd) && Dft(v, w, g) == Add(even', odd')
      && Dft(v, w, 2 * g) == Sub(even, odd) && Dft(v, w, 3 * g) == Sub(even', odd')
  {
    hide PowerLaws, IsRoot, Mul, Dft, Add, Sub;
    SplitRadix(v, 1, w, g, 0);
    QuarterTurns(w, g);
    assert Evens(v, 2) == [v[0], v[2]];
    assert Evens(Odds(v, 2), 1) == [v[1]] && Odds(Odds(v, 2), 1) == [v[3]];
    DftTwoTurns(v[0], v[2], w, g);
    DftOne(v[1], w, g, 0);
    DftOne(v[3], w, g, 0);
    TimesOne(v[1]);
    TimesOne(v[3]);
    QuarterSwap(Sub(v[0], v[2]), Sub(v[1], v[3]));
  }

  lemma QuarterSwap(u: Cx, x: Cx)
    ensures Sub(u, Mul(I, x)) == Add(u, Mul(MINUS_I, x))
    ensures Add(u, Mul(I, x)) == Sub(u, Mul(MINUS_I, x))
  {
    hide Mul;
    MulI(x);
    MulMinusI(x);
  }

  /** The transform of eight samples, at the eighth turns: four come straight from the even samples
      and pairwise sums, four from pairwise differences turned by w(h) and w(3 h). */
  lemma DftEight(v: seq<Cx>, w: int -> Cx, h: nat)
    requires IsRoot(w, 2 * h) && |v| == 8
    ensures
      var x, x' := Add(v[1], v[5]), Add(v[3], v[7]);
      var y, y' := Mul(w(h), Sub(v[1], v[5])), Mul(w(3 * h), Sub(v[3], v[7]));
      var p, q := Add(Add(v[0], v[4]), Add(v[2], v[6])), Sub(Add(v[0], v[4]), Add(v[2], v[6]));
      var r, s := Sub(v[0], v[4]), Mul(MINUS_I, Sub(v[2], v[6]));
      && Dft(v, w, 0) == Add(p, Add(x, x')) && Dft(v, w, 4 * h) == Sub(p, Add(x, x'))
      && Dft(v, w, 2 * h) == Add(q, Mul(MINUS_I, Sub(x, x')))
      && Dft(v, w, 6 * h) == Sub(q, Mul(MINUS_I, Sub(x, x')))
      && Dft(v, w, h) == Add(Add(r, s), Add(y, y')) && Dft(v, w, 5 * h) == Sub(Add(r, s), Add(y, y'))
      && Dft(v, w, 3 * h) == Add(Sub(r, s), Mul(MINUS_I, Sub(y, y')))
      && Dft(v, w, 7 * h) == Sub(Sub(r, s), Mul(MINUS_I, Sub(y, y')))
  {
    hide *;
    SplitRadix(v, 2, w, 2 * h, 0);
    SplitRadix(v, 2, w, 2 * h, h);
    var e := [v[0], v[2], v[4], v[6]];
    EightParts(v);
    DftFour(e, w, 2 * h);
    DftTwoTurns(v[1], v[5], w, 2 * h);
    DftTwoTurns(v[3], v[7], w, 2 * h);
    QuarterTurns(w, 2 * h);
    TimesOne(Add(v[1], v[5]));
    TimesOne(Add(v[3], v[7]));
    QuarterSwap(Sub(Add(v[0], v[4]), Add(v[2], v[6])), Sub(Add(v[1], v[5]), Add(v[3], v[7])));
    QuarterSwap(Sub(Sub(v[0], v[4]), Mul(MINUS_I, Sub(v[2], v[6]))),
                Sub(Mul(w(h), Sub(v[1], v[5])), Mul(w(3 * h), Sub(v[3], v[7]))));
  }

  lemma EightParts(v: seq<Cx>)
    requires |v| == 8
    ensures Evens(v, 4) == [v[0], v[2], v[4], v[6]]
    ensures Evens(Odds(v, 4), 2) == [v[1], v[5]] && Odds(Odds(v, 4), 2) == [v[3], v[7]]
  {
  }

  /** Factors w(h) and w(3 h), an eighth and three eighths of a turn, cost two multiplications by sin(pi / 4). */
  lemma EighthTurns(w: int -> Cx, h: nat, s: real, y: Cx, z: Cx)
    requires IsRoot(w, 2 * h) && w(h) == Cx(s, -s)
    ensures Mul(w(h), y) == Cx((y.re + y.im) * s, (y.im - y.re) * s)
    ensures Mul(w(3 * h), z) == Cx(s * (z.im - z.re), -(z.re + z.im) * s)
  {
    assert w(3 * h) == Cx(-s, -s) by {
      hide *;
      RootTurns(w, 2 * h, h);
      MulComm(w(h), MINUS_I);
      MulMinusI(w(h));
    }
    hide IsRoot;
  }
}

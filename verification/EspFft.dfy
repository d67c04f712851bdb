/** The fast transforms of ESP32_fft.cpp over exact arithmetic: arrays of interleaved real and
    imaginary parts, pointer offsets and strides as in the original, outputs written in place. */
module EspFft {
  import opened Complex
  import opened Fourier
  import opened Inversion
  import opened RealTransform
  import opened FftViews

  datatype Kind = Real | Complex

  datatype Direction = Forward | Backward

  /** Multiplication by -i: a swap and a sign. */
  function TurnQuarter(a: Cx): (r: Cx)
    ensures r == Mul(MINUS_I, a)
  {
    Cx(a.im, -a.re)
  }

  /** Multiplication by i. */
  function TurnBack(a: Cx): (r: Cx)
    ensures r == Mul(I, a)
  {
    Cx(-a.im, a.re)
  }

  /** Multiplication by c - i s, for the table entry (c, s). */
  function Twiddle(c: real, s: real, z: Cx): (r: Cx)
    ensures r == Mul(Cx(c, -s), z)
  {
    Cx(c * z.re + s * z.im, -s * z.re + c * z.im)
  }

  /** Multiplication by c + i s: the inverse of `Twiddle`. */
  function UnTwiddle(c: real, s: real, z: Cx): (r: Cx)
    ensures r == Mul(Conj(Cx(c, -s)), z)
  {
    Cx(c * z.re - s * z.im, s * z.re + c * z.im)
  }

  method Put(y: array<real>, i: nat, a: Cx)
    requires i + 1 < y.Length
    modifies y
    ensures y[i] == a.re && y[i + 1] == a.im
    ensures forall j | 0 <= j < y.Length && j != i && j != i + 1 :: y[j] == old(y[j])
  {
    y[i] := a.re;
    y[i + 1] := a.im;
  }

  ghost function Powers(cos: int -> real, sin: int -> real): int -> Cx {
    k => Cx(cos(k), -sin(k))
  }

  /** The constant sin(pi / 4) is right, if the table has eighth turns at all. */
  ghost predicate EighthTurn(w: int -> Cx, g: nat, h: int, sinPi4: real) {
    g == 2 * h ==> w(h) == Cx(sinPi4, -sinPi4)
  }

  class EspFft {
    const size: nat
    const kind: Kind
    const direction: Direction
    const input: array<real>
    const output: array<real>
    const twiddleFactors: array<real>
    const sinPi4: real

    /** A quarter of the size, and the powers w(k) == exp(-2 pi i k / size); the table holds their
        conjugates, (cos, sin). */
    ghost const g: nat
    ghost const w: int -> Cx

    ghost predicate Valid()
      reads twiddleFactors
    {
      && size == 4 * g
      && IsPowerOfTwo(size)
      && IsRoot(w, g)
      && twiddleFactors.Length == 2 * size
      && (forall k | 0 <= k < size :: At(twiddleFactors, 0, k) == Conj(w(k)))
      && (forall h :: EighthTurn(w, g, h, sinPi4))
    }

    /** The buffers are apart and large enough for the kind of transform. */
    ghost predicate Buffers() {
      && input != output && input != twiddleFactors && output != twiddleFactors
      && input.Length == output.Length == if kind == Real then size else 2 * size
    }

    /** Fill the table from the cosine and sine of 2 pi k / size. The real cosine and sine make the powers of
        a root of unity; that, and the value of the constant sin(pi / 4), is what is asked of them here. */
    constructor (size: nat, ghost g: nat, kind: Kind, direction: Direction, input: array<real>, output: array<real>,
                 cos: int -> real, sin: int -> real, sinPi4: real)
      requires IsPowerOfTwo(size) && size == 4 * g && IsRoot(Powers(cos, sin), g)
      requires forall h :: EighthTurn(Powers(cos, sin), g, h, sinPi4)
      requires input != output && input.Length == output.Length == if kind == Real then size else 2 * size
      ensures Valid() && Buffers()
      ensures this.size == size && this.kind == kind && this.direction == direction
      ensures this.input == input && this.output == output && this.g == g && w == Powers(cos, sin)
    {
      this.size, this.g, this.kind, this.direction := size, g, kind, direction;
      this.input, this.output, this.sinPi4 := input, output, sinPi4;
      this.w := Powers(cos, sin);
      this.twiddleFactors := new real[2 * size];
      new;
      hide IsRoot, IsPowerOfTwo;
      var m := 0;
      for k := 0 to size
        invariant m == 2 * k
        invariant forall j | 0 <= j < k :: At(twiddleFactors, 0, j) == Conj(w(j))
      {
        twiddleFactors[m] := cos(k);
        twiddleFactors[m + 1] := sin(k);
        m := m + 2;
      }
    }

    lemma TableEntry(m: nat)
      requires Valid() && m < size
      ensures twiddleFactors.Length == 2 * size
      ensures Cx(twiddleFactors[2 * m], -twiddleFactors[2 * m + 1]) == w(m)
    {
      hide IsRoot, IsPowerOfTwo;
      assert At(twiddleFactors, 0, m) == Conj(w(m));
    }

    /** The unrolled transform of four samples; each pair of scalar variables of the original is one
        complex variable here. */
    method Fft4(input: array<real>, xo: nat, strideIn: nat, output: array<real>, yo: nat, strideOut: nat)
      requires Valid()
      requires input != output && twiddleFactors != output
      requires xo + 3 * strideIn + 1 < input.Length && strideOut == 2 && yo + 8 <= output.Length
      modifies output
      ensures Valid()
      ensures forall i | 0 <= i < output.Length && !(yo <= i < yo + 8) :: output[i] == old(output[i])
      ensures forall k | 0 <= k < 4 :: At(output, yo, k) == Dft(Strided(input[..], xo, strideIn, 4), w, g * k)
    {
      hide IsRoot, IsPowerOfTwo, Mul, Dft, Strided, Add, Sub;
      var a0, a1 := Cx(input[xo], input[xo + 1]), Cx(input[xo + strideIn], input[xo + strideIn + 1]);
      var a2 := Cx(input[xo + 2 * strideIn], input[xo + 2 * strideIn + 1]);
      var a3 := Cx(input[xo + 3 * strideIn], input[xo + 3 * strideIn + 1]);
      ghost var v := Strided(input[..], xo, strideIn, 4);
      FourSamples(input[..], xo, strideIn);
      assert v[0] == a0 && v[1] == a1 && v[2] == a2 && v[3] == a3;
      DftFour(v, w, g);

      var t1, t2 := Add(a0, a2), Add(a1, a3);
      Put(output, yo, Add(t1, t2));
      Put(output, yo + 2 * strideOut, Sub(t1, t2));
      t1, t2 := Sub(a0, a2), TurnQuarter(Sub(a1, a3));
      Put(output, yo + strideOut, Add(t1, t2));
      Put(output, yo + 3 * strideOut, Sub(t1, t2));
      FourOutputs(output, yo, v, w, g);
    }

    /** Multiply by w(h), an eighth of a turn: (1 - i) / sqrt 2. */
    method TurnEighth(b: Cx, ghost h: nat) returns (r: Cx)
      requires Valid() && g == 2 * h
      ensures r == Mul(w(h), b)
    {
      hide IsPowerOfTwo, Mul;
      assert EighthTurn(w, g, h, sinPi4);
      EighthTurns(w, h, sinPi4, b, ZERO);
      var t := b.re + b.im;
      r := Cx(t * sinPi4, (b.im - b.re) * sinPi4);
    }

    /** Multiply by w(3 h), three eighths of a turn: (-1 - i) / sqrt 2. */
    method TurnThreeEighths(b: Cx, ghost h: nat) returns (r: Cx)
      requires Valid() && g == 2 * h
      ensures r == Mul(w(3 * h), b)
    {
      hide IsPowerOfTwo, Mul;
      assert EighthTurn(w, g, h, sinPi4);
      EighthTurns(w, h, sinPi4, ZERO, b);
      var t := sinPi4 * (b.im - b.re);
      r := Cx(t, -(b.re + b.im) * sinPi4);
    }

    /** The unrolled transform of eight samples; each pair of scalar variables of the original is one
        complex variable here. */
    method Fft8(input: array<real>, xo: nat, strideIn: nat, output: array<real>, yo: nat, strideOut: nat, ghost h: nat)
      requires Valid() && g == 2 * h
      requires input != output && twiddleFactors != output
      requires xo + 7 * strideIn + 1 < input.Length && strideOut == 2 && yo + 16 <= output.Length
      modifies output
      ensures Valid()
      ensures forall i | 0 <= i < output.Length && !(yo <= i < yo + 16) :: output[i] == old(output[i])
      ensures forall k | 0 <= k < 8 :: At(output, yo, k) == Dft(Strided(input[..], xo, strideIn, 8), w, h * k)
    {
      hide IsRoot, IsPowerOfTwo, Mul, Dft, Strided, Add, Sub;
      var a0, a1 := Cx(input[xo], input[xo + 1]), Cx(input[xo + strideIn], input[xo + strideIn + 1]);
      var a2 := Cx(input[xo + 2 * strideIn], input[xo + 2 * strideIn + 1]);
      var a3 := Cx(input[xo + 3 * strideIn], input[xo + 3 * strideIn + 1]);
      var a4 := Cx(input[xo + 4 * strideIn], input[xo + 4 * strideIn + 1]);
      var a5 := Cx(input[xo + 5 * strideIn], input[xo + 5 * strideIn + 1]);
      var a6 := Cx(input[xo + 6 * strideIn], input[xo + 6 * strideIn + 1]);
      var a7 := Cx(input[xo + 7 * strideIn], input[xo + 7 * strideIn + 1]);
      ghost var v := Strided(input[..], xo, strideIn, 8);
      EightSamples(input[..], xo, strideIn);
      assert v[0] == a0 && v[1] == a1 && v[2] == a2 && v[3] == a3;
      assert v[4] == a4 && v[5] == a5 && v[6] == a6 && v[7] == a7;
      DftEight(v, w, h);

      // Stage 1
      var b0, b1, b2, b3 := Add(a0, a4), Add(a1, a5), Add(a2, a6), Add(a3, a7);
      var b4, b6 := Sub(a0, a4), TurnQuarter(Sub(a2, a6));
      var b5 := TurnEighth(Sub(a1, a5), h);
      var b7 := TurnThreeEighths(Sub(a3, a7), h);

      // Stage 2
      a0, a1, a2, a3 := Add(b0, b2), Add(b1, b3), Sub(b0, b2), TurnQuarter(Sub(b1, b3));
      a4, a5, a6, a7 := Add(b4, b6), Add(b5, b7), Sub(b4, b6), TurnQuarter(Sub(b5, b7));

      // Stage 3
      Put(output, yo, Add(a0, a1));
      Put(output, yo + 4 * strideOut, Sub(a0, a1));
      Put(output, yo + 2 * strideOut, Add(a2, a3));
      Put(output, yo + 6 * strideOut, Sub(a2, a3));
      Put(output, yo + strideOut, Add(a4, a5));
      Put(output, yo + 5 * strideOut, Sub(a4, a5));
      Put(output, yo + 3 * strideOut, Add(a6, a7));
      Put(output, yo + 7 * strideOut, Sub(a6, a7));
      EightOutputs(output, yo, v, w, h);
    }

    /** The split-radix transform of n strided samples, written to y from offset yo. */
    method SplitRadixFft(x: array<real>, xo: nat, y: array<real>, yo: nat, n: nat, stride: nat, twStride: nat,
                         ghost s: nat)
      requires Valid()
      requires x != y && y != twiddleFactors
      requires IsPowerOfTwo(n) && n >= 4 && TableStep(size, n, twStride, s)
      requires Covers(x.Length, xo, stride, n) && yo + 2 * n <= y.Length
      modifies y
      ensures Valid()
      ensures forall i | 0 <= i < y.Length && !(yo <= i < yo + 2 * n) :: y[i] == old(y[i])
      ensures forall o, j | o + 2 * j + 1 < yo || yo + 2 * n <= o + 2 * j :: At(y, o, j) == old(At(y, o, j))
      ensures forall k | 0 <= k < n :: At(y, yo, k) == Dft(Strided(x[..], xo, stride, n), w, s * k)
      decreases n, 1
    {
      hide IsRoot, IsPowerOfTwo, Mul, Dft, Strided, Evens, Odds;
      if n == 8 {
        Fft8(x, xo, stride, y, yo, 2, s);
        return;
      } else if n == 4 {
        Fft4(x, xo, stride, y, yo, 2);
        return;
      }
      ghost var q := QuarterOfPower(n);
      ghost var v := Strided(x[..], xo, stride, n);
      SplitRadixParts(x, xo, y, yo, n, stride, twStride, s, q, v);
      SplitRadixStitch(y, yo, n, twStride, s, q, v);
      AllDone(y, yo, q, v, w, s);
    }

    /** The three recursive calls, on the even samples and on every fourth sample from the first and third. */
    method SplitRadixParts(x: array<real>, xo: nat, y: array<real>, yo: nat, n: nat, stride: nat, twStride: nat,
                           ghost s: nat, ghost q: nat, ghost v: seq<Cx>)
      requires Valid()
      requires x != y && y != twiddleFactors
      requires n == 4 * q && n / 2 == 2 * q && n / 4 == q && n != 4 && n != 8
      requires IsPowerOfTwo(q) && IsPowerOfTwo(2 * q) && TableStep(size, n, twStride, s)
      requires Covers(x.Length, xo, stride, n) && yo + 2 * n <= y.Length
      requires v == Strided(x[..], xo, stride, n)
      modifies y
      ensures Valid()
      ensures forall i | 0 <= i < y.Length && !(yo <= i < yo + 2 * n) :: y[i] == old(y[i])
      ensures forall j | 0 <= j < q :: QuarterTodo(y, yo, q, j, v, w, s)
      decreases n, 0
    {
      hide IsRoot, Mul, Dft, Strided, Evens, Odds, Covers, TableStep, At;
      ghost var xs := x[..];
      assert q >= 4 by { SmallPowers(q); }
      hide IsPowerOfTwo;
      SubTransforms(size, x.Length, xo, stride, q, twStride, s);
      SplitRadixViews(xs, xo, stride, q);
      ghost var even, odd, odd' := Evens(v, 2 * q), Evens(Odds(v, 2 * q), q), Odds(Odds(v, 2 * q), q);
      SplitRadixFft(x, xo, y, yo, n / 2, 2 * stride, 2 * twStride, 2 * s);
      assert forall i | 0 <= i < 2 * q :: At(y, yo, i) == Dft(even, w, (2 * s) * i) by {
        assert x[..] == xs;
      }
      SplitRadixFft(x, xo + stride, y, yo + n, n / 4, 4 * stride, 4 * twStride, 4 * s);
      assert forall i | 0 <= i < q :: At(y, yo + n, i) == Dft(odd, w, (4 * s) * i) by {
        assert x[..] == xs;
      }
      SplitRadixFft(x, xo + 3 * stride, y, yo + n + n / 2, n / 4, 4 * stride, 4 * twStride, 4 * s);
      assert forall i | 0 <= i < q :: At(y, yo + n + n / 2, i) == Dft(odd', w, (4 * s) * i) by {
        assert x[..] == xs;
      }
      forall j | 0 <= j < q
        ensures QuarterTodo(y, yo, q, j, v, w, s)
      {
        Shifted(y, yo, n, 2 * q, j);
        Shifted(y, yo, n + n / 2, 3 * q, j);
      }
    }

    /** The loop that stitches the three sub-transforms together. */
    method SplitRadixStitch(y: array<real>, yo: nat, n: nat, twStride: nat, ghost s: nat, ghost q: nat,
                            ghost v: seq<Cx>)
      requires Valid() && y != twiddleFactors
      requires n == 4 * q && n / 2 == 2 * q && n / 4 == q > 0 && TableStep(size, n, twStride, s)
      requires yo + 2 * n <= y.Length && |v| == n
      requires forall j | 0 <= j < q :: QuarterTodo(y, yo, q, j, v, w, s)
      modifies y
      ensures Valid()
      ensures forall i | 0 <= i < y.Length && !(yo <= i < yo + 2 * n) :: y[i] == old(y[i])
      ensures forall j | 0 <= j < q :: QuarterDone(y, yo, q, j, v, w, s)
    {
      hide IsRoot, IsPowerOfTwo, Mul, Dft, Evens, Odds, At;
      StitchIteration(y, yo, n, twStride, s, q, 0, v);
      forall j | 1 <= j < q
        ensures QuarterTodo(y, yo, q, j, v, w, s)
      {
        assert old(QuarterTodo(y, yo, q, j, v, w, s));
      }
      var k := 1;
      while k < n / 4
        invariant 1 <= k <= q
        invariant forall i | 0 <= i < y.Length && !(yo <= i < yo + 2 * n) :: y[i] == old(y[i])
        invariant forall j | 0 <= j < k :: QuarterDone(y, yo, q, j, v, w, s)
        invariant forall j | k <= j < q :: QuarterTodo(y, yo, q, j, v, w, s)
      {
        label Before:
        StitchIteration(y, yo, n, twStride, s, q, k, v);
        forall j | 0 <= j < k
          ensures QuarterDone(y, yo, q, j, v, w, s)
        {
          assert old@Before(QuarterDone(y, yo, q, j, v, w, s));
        }
        forall j | k < j < q
          ensures QuarterTodo(y, yo, q, j, v, w, s)
        {
          assert old@Before(QuarterTodo(y, yo, q, j, v, w, s));
        }
        k := k + 1;
      }
    }

    /** Iteration k; the first one multiplies by nothing, since both twiddle factors are one. */
    method StitchIteration(y: array<real>, yo: nat, n: nat, twStride: nat, ghost s: nat, ghost q: nat, k: nat,
                           ghost v: seq<Cx>)
      requires Valid() && y != twiddleFactors
      requires n == 4 * q && n / 2 == 2 * q && k < q && TableStep(size, n, twStride, s)
      requires yo + 2 * n <= y.Length && |v| == n
      requires QuarterTodo(y, yo, q, k, v, w, s)
      modifies y
      ensures Valid()
      ensures QuarterDone(y, yo, q, k, v, w, s)
      ensures forall j | j != k && j != k + q && j != k + 2 * q && j != k + 3 * q ::
        At(y, yo, j) == old(At(y, yo, j))
      ensures forall i | 0 <= i < y.Length && !(yo <= i < yo + 2 * n) :: y[i] == old(y[i])
    {
      hide IsRoot, IsPowerOfTwo, Mul, Dft, Add, Sub, Evens, Odds, At;
      QuarterStep(g, q, s);
      StitchStep(v, w, g, q, s, k);
      var c1, s1, c2, s2 := StitchFactors(twStride, s, q, k);
      SplitRadixButterfly(y, yo, n, k, c1, s1, c2, s2, q);
    }

    /** The two twiddle factors of iteration k. */
    method StitchFactors(twStride: nat, ghost s: nat, ghost q: nat, k: nat)
      returns (c1: real, s1: real, c2: real, s2: real)
      requires Valid() && k < q && TableStep(size, 4 * q, twStride, s)
      ensures Cx(c1, -s1) == w(s * k) && Cx(c2, -s2) == w(3 * (s * k))
    {
      hide IsRoot, IsPowerOfTwo, Mul, At;
      RootSize(w, g);
      PositiveStep(g, 4 * q, s);
      if k == 0 {
        QuarterStep(g, q, s);
        StitchFirstStep(w, g, q, s, k);
        return 1.0, 0.0, 1.0, 0.0;
      }
      TableIndex(size, q, s, twStride, k);
      TableEntry(s * k);
      TableEntry(3 * (s * k));
      c1 := twiddleFactors[k * twStride];
      s1 := twiddleFactors[k * twStride + 1];
      c2 := twiddleFactors[3 * k * twStride];
      s2 := twiddleFactors[3 * k * twStride + 1];
    }

    /** The arithmetic of one iteration, with twiddle factors (c1, s1) and (c2, s2). */
    static method SplitRadixButterfly(y: array<real>, yo: nat, n: nat, k: nat, c1: real, s1: real, c2: real, s2: real,
                                      ghost q: nat)
      requires n == 4 * q && n / 2 == 2 * q && k < q && yo + 2 * n <= y.Length
      modifies y
      ensures
        var x, x' := Mul(Cx(c1, -s1), old(At(y, yo, k + 2 * q))), Mul(Cx(c2, -s2), old(At(y, yo, k + 3 * q)));
        && At(y, yo, k) == Add(old(At(y, yo, k)), Add(x, x'))
        && At(y, yo, k + q) == Sub(old(At(y, yo, k + q)), Mul(I, Sub(x, x')))
        && At(y, yo, k + 2 * q) == Sub(old(At(y, yo, k)), Add(x, x'))
        && At(y, yo, k + 3 * q) == Add(old(At(y, yo, k + q)), Mul(I, Sub(x, x')))
      ensures forall j | j != k && j != k + q && j != k + 2 * q && j != k + 3 * q ::
        At(y, yo, j) == old(At(y, yo, j))
      ensures forall i | 0 <= i < y.Length && !(yo <= i < yo + 2 * n) :: y[i] == old(y[i])
    {
      hide Mul, Add, Sub;
      var u1 := Cx(y[yo + 2 * k], y[yo + 2 * k + 1]);
      var u2 := Cx(y[yo + 2 * k + n / 2], y[yo + 2 * k + n / 2 + 1]);
      var x1 := Twiddle(c1, s1, Cx(y[yo + n + 2 * k], y[yo + n + 2 * k + 1]));
      var x2 := Twiddle(c2, s2, Cx(y[yo + n / 2 + n + 2 * k], y[yo + n / 2 + n + 2 * k + 1]));

      var t := Add(x1, x2);
      Put(y, yo + 2 * k, Add(u1, t));
      Put(y, yo + 2 * k + n, Sub(u1, t));
      t := TurnBack(Sub(x1, x2));
      Put(y, yo + 2 * k + n / 2, Sub(u2, t));
      Put(y, yo + 2 * k + n + n / 2, Add(u2, t));
    }

    /** The radix-2 transform of n strided samples, written to y from offset yo. */
    method FftPrimitive(x: array<real>, xo: nat, y: array<real>, yo: nat, n: nat, stride: nat, twStride: nat,
                        ghost s: nat)
      requires Valid()
      requires x != y && y != twiddleFactors
      requires IsPowerOfTwo(n) && n >= 8 && TableStep(size, n, twStride, s)
      requires Covers(x.Length, xo, stride, n) && yo + 2 * n <= y.Length
      modifies y
      ensures Valid()
      ensures forall i | 0 <= i < y.Length && !(yo <= i < yo + 2 * n) :: y[i] == old(y[i])
      ensures forall o, j | o + 2 * j + 1 < yo || yo + 2 * n <= o + 2 * j :: At(y, o, j) == old(At(y, o, j))
      ensures forall k | 0 <= k < n :: At(y, yo, k) == Dft(Strided(x[..], xo, stride, n), w, s * k)
      decreases n, 1
    {
      hide IsRoot, IsPowerOfTwo, Mul, Dft, Strided, Evens, Odds;
      if n == 8 {
        Fft8(x, xo, stride, y, yo, 2, s);
        return;
      }
      ghost var q := QuarterOfPower(n);
      ghost var v := Strided(x[..], xo, stride, n);
      FftHalves(x, xo, y, yo, n, stride, twStride, s, q, v);
      Radix2Stitch(y, yo, n, twStride, s, 2 * q, v);
      AllHalvesDone(y, yo, 2 * q, v, w, s);
    }

    /** The two recursive calls of the radix-2 transform. */
    method FftHalves(x: array<real>, xo: nat, y: array<real>, yo: nat, n: nat, stride: nat, twStride: nat,
                     ghost s: nat, ghost q: nat, ghost v: seq<Cx>)
      requires Valid()
      requires x != y && y != twiddleFactors
      requires n == 4 * q && n / 2 == 2 * q && n > 8 && IsPowerOfTwo(q) && IsPowerOfTwo(2 * q)
      requires Covers(x.Length, xo, stride, n) && TableStep(size, n, twStride, s) && yo + 2 * n <= y.Length
      requires v == Strided(x[..], xo, stride, n)
      modifies y
      ensures Valid()
      ensures forall i | 0 <= i < y.Length && !(yo <= i < yo + 2 * n) :: y[i] == old(y[i])
      ensures forall j | 0 <= j < 2 * q :: HalfTodo(y, yo, 2 * q, j, v, w, s)
      decreases n, 0
    {
      hide IsRoot, Mul, Dft, Strided, Evens, Odds, Covers, TableStep, At;
      ghost var xs, h := x[..], 2 * q;
      assert q >= 4 by { SmallPowers(q); }
      hide IsPowerOfTwo;
      SubTransforms(size, x.Length, xo, stride, q, twStride, s);
      StridedHalves(xs, xo, stride, h);
      FftPrimitive(x, xo, y, yo, n / 2, 2 * stride, 2 * twStride, 2 * s);
      assert forall i | 0 <= i < h :: At(y, yo, i) == Dft(Evens(v, h), w, (2 * s) * i) by {
        assert x[..] == xs;
      }
      FftPrimitive(x, xo + stride, y, yo + n, n / 2, 2 * stride, 2 * twStride, 2 * s);
      assert forall i | 0 <= i < h :: At(y, yo + n, i) == Dft(Odds(v, h), w, (2 * s) * i) by {
        assert x[..] == xs;
      }
      forall j | 0 <= j < h
        ensures HalfTodo(y, yo, h, j, v, w, s)
      {
        Shifted(y, yo, n, h, j);
      }
    }

    /** The loop that stitches the two halves together. */
    method Radix2Stitch(y: array<real>, yo: nat, n: nat, twStride: nat, ghost s: nat, ghost h: nat, ghost v: seq<Cx>)
      requires Valid() && y != twiddleFactors
      requires n == 2 * h && n / 2 == h && TableStep(size, n, twStride, s)
      requires yo + 2 * n <= y.Length && |v| == n
      requires forall j | 0 <= j < h :: HalfTodo(y, yo, h, j, v, w, s)
      modifies y
      ensures Valid()
      ensures forall i | 0 <= i < y.Length && !(yo <= i < yo + 2 * n) :: y[i] == old(y[i])
      ensures forall j | 0 <= j < h :: HalfDone(y, yo, h, j, v, w, s)
    {
      hide IsRoot, IsPowerOfTwo, Mul, Dft, Evens, Odds, At;
      var k := 0;
      while k < n / 2
        invariant 0 <= k <= h
        invariant forall i | 0 <= i < y.Length && !(yo <= i < yo + 2 * n) :: y[i] == old(y[i])
        invariant forall j | 0 <= j < k :: HalfDone(y, yo, h, j, v, w, s)
        invariant forall j | k <= j < h :: HalfTodo(y, yo, h, j, v, w, s)
      {
        label Before:
        Radix2Iteration(y, yo, n, twStride, s, h, k, v);
        forall j | 0 <= j < k
          ensures HalfDone(y, yo, h, j, v, w, s)
        {
          assert old@Before(HalfDone(y, yo, h, j, v, w, s));
        }
        forall j | k < j < h
          ensures HalfTodo(y, yo, h, j, v, w, s)
        {
          assert old@Before(HalfTodo(y, yo, h, j, v, w, s));
        }
        k := k + 1;
      }
    }

    method Radix2Iteration(y: array<real>, yo: nat, n: nat, twStride: nat, ghost s: nat, ghost h: nat, k: nat,
                           ghost v: seq<Cx>)
      requires Valid() && y != twiddleFactors
      requires n == 2 * h && TableStep(size, n, twStride, s) && k < h
      requires yo + 2 * n <= y.Length && |v| == n
      requires HalfTodo(y, yo, h, k, v, w, s)
      modifies y
      ensures Valid()
      ensures HalfDone(y, yo, h, k, v, w, s)
      ensures forall j | j != k && j != k + h :: At(y, yo, j) == old(At(y, yo, j))
      ensures forall i | 0 <= i < y.Length && !(yo <= i < yo + 2 * n) :: y[i] == old(y[i])
    {
      hide IsRoot, IsPowerOfTwo, Mul, Dft, Add, Sub, Evens, Odds;
      RootSize(w, g);
      PositiveStep(g, n, s);
      HalfTableIndex(size, h, s, twStride, k);
      Radix2Step(v, w, g, h, s, k);
      var z := Cx(y[yo + n + 2 * k], y[yo + n + 2 * k + 1]);
      assert z == At(y, yo, k + h);
      hide At;
      var x := TwiddleTimes(twStride, s, k, z);
      Radix2Butterfly(y, yo, n, k, x, h);
    }

    /** Multiply by the k-th twiddle factor; the first one is one, and costs nothing. */
    method TwiddleTimes(twStride: nat, ghost s: nat, k: nat, z: Cx) returns (x: Cx)
      requires Valid() && twStride == 2 * s && 0 <= s * k < size
      ensures x == Mul(w(s * k), z)
    {
      hide IsRoot, IsPowerOfTwo, Mul, At;
      ghost var m := s * k;
      if k == 0 {
        assert m == 0;
        x := z;
        QuarterTurns(w, g);
        TimesOne(z);
      } else {
        var i := k * twStride;
        assert i == 2 * m by { TableCell(s, twStride, k); }
        TableEntry(m);
        x := Twiddle(twiddleFactors[i], twiddleFactors[i + 1], z);
      }
    }

    /** Replace the pair (u, z) at k and k + h by (u + x, u - x). */
    static method Radix2Butterfly(y: array<real>, yo: nat, n: nat, k: nat, x: Cx, ghost h: nat)
      requires n == 2 * h && k < h && yo + 2 * n <= y.Length
      modifies y
      ensures At(y, yo, k) == Add(old(At(y, yo, k)), x)
      ensures At(y, yo, k + h) == Sub(old(At(y, yo, k)), x)
      ensures forall j | j != k && j != k + h :: At(y, yo, j) == old(At(y, yo, j))
      ensures forall i | 0 <= i < y.Length && !(yo <= i < yo + 2 * n) :: y[i] == old(y[i])
    {
      hide Add, Sub;
      var u := Cx(y[yo + 2 * k], y[yo + 2 * k + 1]);
      Put(y, yo + 2 * k, Add(u, x));
      Put(y, yo + n + 2 * k, Sub(u, x));
    }

    /** The inverse transform: a forward transform, mirrored and scaled by 1 / n. Its output is interleaved
        with stride 2, so that is the only stride the two loops over y suit. */
    method IfftPrimitive(x: array<real>, y: array<real>, n: nat, stride: nat, twStride: nat, ghost s: nat)
      requires Valid()
      requires x != y && y != twiddleFactors && stride == 2
      requires IsPowerOfTwo(n) && n >= 4 && TableStep(size, n, twStride, s)
      requires Covers(x.Length, 0, stride, n) && 2 * n <= y.Length
      modifies y
      ensures Valid()
      ensures forall j | 0 <= j < n :: At(y, 0, j) == InverseDft(Strided(x[..], 0, stride, n), w, s, j)
    {
      hide IsRoot, IsPowerOfTwo, Mul, Dft, Strided, At, InverseDft;
      ghost var v := Strided(x[..], 0, stride, n);
      ghost var q := QuarterOfPower(n);
      SplitRadixFft(x, 0, y, 0, n, stride, twStride, s);
      label Forward:
      Reverse(y, n, stride, 2 * q);
      forall j | 0 <= j < n
        ensures At(y, 0, j) == Dft(v, w, -(s * j))
      {
        Mirror(v, w, g, n, s, j);
        assert old@Forward(At(y, 0, if j == 0 then 0 else n - j)) == Dft(v, w, s * if j == 0 then 0 else n - j);
        assert s * 0 == 0;
      }
      Normalise(y, n, stride, s, v);
    }

    /** Reverse all coefficients but the first. */
    static method Reverse(y: array<real>, n: nat, stride: nat, ghost h: nat)
      requires stride == 2 && n == 2 * h && h > 0 && 2 * n <= y.Length
      modifies y
      ensures At(y, 0, 0) == old(At(y, 0, 0))
      ensures forall j | 1 <= j < n :: At(y, 0, j) == old(At(y, 0, n - j))
    {
      hide At;
      var ns := n * stride;
      assert ns == 4 * h && ns / 2 == 2 * h;
      var ks := stride;
      ghost var i := 1;
      while ks < ns / 2
        invariant ks == 2 * i && 1 <= i <= h
        invariant At(y, 0, 0) == old(At(y, 0, 0))
        invariant forall j | 1 <= j < i || n - i < j < n :: At(y, 0, j) == old(At(y, 0, n - j))
        invariant forall j | i <= j <= n - i :: At(y, 0, j) == old(At(y, 0, j))
      {
        SwapPairs(y, ks, ns - ks, i, n - i);
        ks, i := ks + stride, i + 1;
      }
    }

    /** Exchange the complex numbers in cells a, a + 1 and b, b + 1. */
    static method SwapPairs(y: array<real>, a: nat, b: nat, ghost j: nat, ghost k: nat)
      requires a == 2 * j && b == 2 * k && j < k && b + 1 < y.Length
      modifies y
      ensures At(y, 0, j) == old(At(y, 0, k)) && At(y, 0, k) == old(At(y, 0, j))
      ensures forall i | i != j && i != k :: At(y, 0, i) == old(At(y, 0, i))
    {
      var t := y[a];
      y[a] := y[b];
      y[b] := t;
      t := y[a + 1];
      y[a + 1] := y[b + 1];
      y[b + 1] := t;
    }

    /** Scale every coefficient by 1 / n. */
    method Normalise(y: array<real>, n: nat, stride: nat, ghost s: nat, ghost v: seq<Cx>)
      requires stride == 2 && n > 0 && |v| == n && 2 * n <= y.Length
      requires forall j | 0 <= j < n :: At(y, 0, j) == Dft(v, w, -(s * j))
      modifies y
      ensures forall j | 0 <= j < n :: At(y, 0, j) == InverseDft(v, w, s, j)
    {
      hide Dft, At, Scale;
      var norm := 1.0 / n as real;
      var ns := n * stride;
      var ks := 0;
      ghost var i := 0;
      while ks < ns
        invariant ks == 2 * i && 0 <= i <= n
        invariant forall j | 0 <= j < i :: At(y, 0, j) == Scale(norm, Dft(v, w, -(s * j)))
        invariant forall j | i <= j < n :: At(y, 0, j) == Dft(v, w, -(s * j))
      {
        ScalePair(y, ks, norm, i);
        ks, i := ks + stride, i + 1;
      }
    }

    /** Scale the complex number in cells a and a + 1. */
    static method ScalePair(y: array<real>, a: nat, norm: real, ghost j: nat)
      requires a == 2 * j && a + 1 < y.Length
      modifies y
      ensures At(y, 0, j) == Scale(norm, old(At(y, 0, j)))
      ensures forall i | i != j :: At(y, 0, i) == old(At(y, 0, i))
    {
      y[a] := y[a] * norm;
      y[a + 1] := y[a + 1] * norm;
    }

    /** Forward complex transform of the whole input. */
    method Fft()
      requires Valid() && Buffers() && kind == Complex
      modifies output
      ensures Valid()
      ensures Strided(output[..], 0, 2, size) == Spectrum(Strided(input[..], 0, 2, size), w, 1, size)
    {
      hide IsRoot, IsPowerOfTwo, Dft, Strided, Spectrum, At;
      RootSize(w, g);
      SplitRadixFft(input, 0, output, 0, size, 2, 2, 1);
      WholeSpectrum(output, Strided(input[..], 0, 2, size), w, size);
    }

    /** Inverse complex transform: the spectrum of v comes out as v, and whatever comes in is the spectrum of what
        comes out. */
    method Ifft()
      requires Valid() && Buffers() && kind == Complex
      modifies output
      ensures Valid()
      ensures forall j | 0 <= j < size :: At(output, 0, j) == InverseDft(Strided(input[..], 0, 2, size), w, 1, j)
      ensures forall v: seq<Cx> | |v| == size && Strided(input[..], 0, 2, size) == Spectrum(v, w, 1, size) ::
        Strided(output[..], 0, 2, size) == v
      ensures Spectrum(Strided(output[..], 0, 2, size), w, 1, size) == Strided(input[..], 0, 2, size)
    {
      hide IsRoot, IsPowerOfTwo, Dft, Strided, InverseDft, Spectrum, At;
      RootSize(w, g);
      IfftPrimitive(input, output, size, 2, 2, 1);
      InvertedSpectrum(output, Strided(input[..], 0, 2, size), w, g, 1, size);
      forall v: seq<Cx> | |v| == size && Strided(input[..], 0, 2, size) == Spectrum(v, w, 1, size)
        ensures Strided(output[..], 0, 2, size) == v
      {
        forall j | 0 <= j < size
          ensures Strided(output[..], 0, 2, size)[j] == v[j]
        {
          StridedPair(output, size, j);
          InverseTransform(v, w, g, 1, j);
        }
      }
    }

    /** Transform of a real signal, packed into as many cells as the signal has. */
    method Rfft()
      requires Valid() && Buffers() && kind == Real && size >= 8
      modifies output
      ensures Valid()
      ensures IsPacked(output[..], input[..], 2 * g, w)
    {
      hide IsRoot, IsPowerOfTwo, Dft, Strided, Paired, RealSignal, IsPacked, At;
      var x, y, n := input, output, size;
      ghost var q := QuarterOfPower(n);
      SplitRadixFft(x, 0, y, 0, n / 2, 2, 4, 2);
      PairedView(x[..], 2 * g);
      RecoverPositive(y, n, x[..]);
    }

    /** The post-pass of `Rfft`: from the transform of the paired signal to the packed real transform. */
    method RecoverPositive(y: array<real>, n: nat, ghost r: seq<real>)
      requires Valid() && y != twiddleFactors && n == size == |r| == y.Length
      requires forall k | 0 <= k < 2 * g :: At(y, 0, k) == Dft(Paired(r, 2 * g), w, 2 * k)
      modifies y
      ensures Valid()
      ensures IsPacked(y[..], r, 2 * g, w)
    {
      hide IsRoot, IsPowerOfTwo, Dft, Paired, RealSignal, IsPacked, At;
      RootSize(w, g);
      ghost var m := 2 * g;
      ghost var before, after := (j: int) => Dft(Paired(r, m), w, 2 * j), (j: int) => Dft(RealSignal(r), w, j);
      assert forall j | 0 <= j < m :: At(y, 0, j) == before(j);
      assert At(y, 0, 0) == before(0) && At(y, 0, g) == before(g);
      RecoverEnds(y, n, r);
      ghost var ends := At(y, 0, 0);

      var k := 2;
      ghost var j := 1;
      while k < n / 2
        invariant k == 2 * j && 1 <= j <= g
        invariant At(y, 0, 0) == ends && At(y, 0, g) == after(g)
        invariant forall i | 1 <= i < j :: At(y, 0, i) == after(i)
        invariant forall i | m - j < i < m :: At(y, 0, i) == after(i)
        invariant forall i | j <= i <= m - j && i != g :: At(y, 0, i) == before(i)
      {
        assert At(y, 0, j) == before(j) && At(y, 0, m - j) == before(m - j);
        RecoverStep(y, n, k, j, r);
        k, j := k + 2, j + 1;
      }
      assert forall i | 1 <= i < m :: At(y, 0, i) == after(i);
      Packed(y, r, m, w);
    }

    /** Elements 0, n/2 and n/4, which are not part of a mirrored pair. */
    method RecoverEnds(y: array<real>, n: nat, ghost r: seq<real>)
      requires Valid() && y != twiddleFactors && n == size == |r| == y.Length
      requires At(y, 0, 0) == Dft(Paired(r, 2 * g), w, 2 * 0) && At(y, 0, g) == Dft(Paired(r, 2 * g), w, 2 * g)
      modifies y
      ensures Valid()
      ensures At(y, 0, 0) == Cx(Dft(RealSignal(r), w, 0).re, Dft(RealSignal(r), w, 2 * g).re)
      ensures At(y, 0, g) == Dft(RealSignal(r), w, g)
      ensures forall i | i != 0 && i != g :: At(y, 0, i) == old(At(y, 0, i))
    {
      hide IsRoot, IsPowerOfTwo, Dft, Paired, RealSignal;
      RootSize(w, g);
      EndElements(r, w, g);
      MiddleElement(r, w, g);
      assert n / 2 == 2 * g;
      var t := y[0];
      y[0] := t + y[1];
      y[1] := t - y[1];
      y[n / 2 + 1] := -y[n / 2 + 1];
    }

    /** One pass of the loop of `RecoverPositive`. */
    method RecoverStep(y: array<real>, n: nat, k: nat, ghost j: nat, ghost r: seq<real>)
      requires Valid() && y != twiddleFactors && n == size == |r| == y.Length && k == 2 * j && 0 < j < g
      requires At(y, 0, j) == Dft(Paired(r, 2 * g), w, 2 * j)
      requires At(y, 0, 2 * g - j) == Dft(Paired(r, 2 * g), w, 2 * (2 * g - j))
      modifies y
      ensures Valid()
      ensures At(y, 0, j) == Dft(RealSignal(r), w, j)
      ensures At(y, 0, 2 * g - j) == Dft(RealSignal(r), w, 2 * g - j)
      ensures forall i | i != j && i != 2 * g - j :: At(y, 0, i) == old(At(y, 0, i))
    {
      hide IsRoot, IsPowerOfTwo, Dft, Paired, RealSignal, Mul, Add, Sub, Conj, EvenPart, OddPart, At;
      TableEntry(j);
      UnpackStep(r, w, g, j);
      UnpackPair(y, n, k, twiddleFactors[k], twiddleFactors[k + 1], j, 2 * g);
    }

    /** The arithmetic of one pass, on the mirrored elements at cells k and n - k. */
    static method UnpackPair(y: array<real>, n: nat, k: nat, c: real, s: real, ghost j: nat, ghost m: nat)
      requires n == 2 * m == y.Length && k == 2 * j && 0 < 2 * j < m
      modifies y
      ensures
        var a, b := old(At(y, 0, j)), old(At(y, 0, m - j));
        var even, t := EvenPart(a, b), Mul(Cx(c, -s), OddPart(a, b));
        At(y, 0, j) == Add(even, t) && At(y, 0, m - j) == Conj(Sub(even, t))
      ensures forall i | i != j && i != m - j :: At(y, 0, i) == old(At(y, 0, i))
    {
      hide Mul;
      var xe := Cx(0.5 * (y[k] + y[n - k]), 0.5 * (y[k + 1] - y[n - k + 1]));
      var xo := Cx(0.5 * (y[k + 1] + y[n - k + 1]), -0.5 * (y[k] - y[n - k]));
      var t := Twiddle(c, s, xo);
      Put(y, k, Cx(xe.re + t.re, xe.im + t.im));
      Put(y, n - k, Cx(xe.re - t.re, -(xe.im - t.im)));
    }

    /** Inverse transform of a packed real spectrum. It destroys the input, as in the original. The packed
        transform of any real signal r comes out as r, and whatever comes in is the packed transform of what comes
        out. */
    method Irfft()
      requires Valid() && Buffers() && kind == Real && size >= 8
      modifies input, output
      ensures Valid()
      ensures forall r: seq<real> | |r| == size && IsPacked(old(input[..]), r, 2 * g, w) :: output[..] == r
      ensures IsPacked(old(input[..]), output[..], 2 * g, w)
    {
      hide IsRoot, Dft, Strided, InverseDft, Spectrum, Paired, RealSignal, IsPacked, IsPowerOfTwo, At;
      var x, y, n := input, output, size;
      ghost var p, m := x[..], 2 * g;
      ghost var q := QuarterOfPower(n);
      PreparePairs(x, n);
      ghost var v := Strided(x[..], 0, 2, m);
      IfftPrimitive(x, y, n / 2, 2, 4, 2);
      InvertedPacked(x, y, p, w, g);
      forall r: seq<real> | |r| == size && IsPacked(p, r, m, w)
        ensures output[..] == r
      {
        PreparedSpectrum(x, p, r, w, g);
        forall j | 0 <= j < m
          ensures At(y, 0, j) == Paired(r, m)[j]
        {
          InverseTransform(Paired(r, m), w, g, 2, j);
        }
        SamePairs(y, r, m);
      }
    }

    /** The pre-pass of `Irfft`: what it leaves in the input is `Restored`. */
    method PreparePairs(x: array<real>, n: nat)
      requires Valid() && x != twiddleFactors && n == size == x.Length
      modifies x
      ensures Valid()
      ensures forall j | 0 <= j < 2 * g :: At(x, 0, j) == Restored(old(x[..]), w, 2 * g, j)
    {
      hide IsRoot, IsPowerOfTwo, At, Restored, Pair;
      RootSize(w, g);
      ghost var p, m := x[..], 2 * g;
      ghost var before, after := (j: int) => Pair(p, j), (j: int) => Restored(p, w, m, j);
      forall j | 0 <= j < m
        ensures At(x, 0, j) == before(j)
      {
        PairAt(x, j);
      }
      PrepareEnds(x, n, p);
      var k := 2;
      ghost var j := 1;
      while k < n / 2
        invariant k == 2 * j && 1 <= j <= g
        invariant At(x, 0, 0) == after(0) && At(x, 0, g) == after(g)
        invariant forall i | 1 <= i < j :: At(x, 0, i) == after(i)
        invariant forall i | m - j < i < m :: At(x, 0, i) == after(i)
        invariant forall i | j <= i <= m - j && i != g :: At(x, 0, i) == before(i)
      {
        assert At(x, 0, j) == before(j) && At(x, 0, m - j) == before(m - j);
        PrepareStep(x, n, k, j, p);
        k, j := k + 2, j + 1;
      }
      assert forall i | 0 <= i < m :: At(x, 0, i) == after(i);
    }

    method PrepareEnds(x: array<real>, n: nat, ghost p: seq<real>)
      requires Valid() && x != twiddleFactors && n == size == x.Length && |p| == n
      requires At(x, 0, 0) == Pair(p, 0) && At(x, 0, g) == Pair(p, g)
      modifies x
      ensures Valid()
      ensures At(x, 0, 0) == Restored(p, w, 2 * g, 0) && At(x, 0, g) == Restored(p, w, 2 * g, g)
      ensures forall i | i != 0 && i != g :: At(x, 0, i) == old(At(x, 0, i))
    {
      hide IsRoot, IsPowerOfTwo, Pair, EvenPart, TurnedBack;
      RootSize(w, g);
      assert n / 2 == 2 * g;
      var t := x[0];
      x[0] := 0.5 * (t + x[1]);
      x[1] := 0.5 * (t - x[1]);
      x[n / 2 + 1] := -x[n / 2 + 1];
    }

    /** One pass of the loop of `PreparePairs`. */
    method PrepareStep(x: array<real>, n: nat, k: nat, ghost j: nat, ghost p: seq<real>)
      requires Valid() && x != twiddleFactors && n == size == x.Length && |p| == n && k == 2 * j && 0 < j < g
      requires At(x, 0, j) == Pair(p, j) && At(x, 0, 2 * g - j) == Pair(p, 2 * g - j)
      modifies x
      ensures Valid()
      ensures At(x, 0, j) == Restored(p, w, 2 * g, j) && At(x, 0, 2 * g - j) == Restored(p, w, 2 * g, 2 * g - j)
      ensures forall i | i != j && i != 2 * g - j :: At(x, 0, i) == old(At(x, 0, i))
    {
      hide IsRoot, IsPowerOfTwo, Mul, EvenPart, At, Pair, Restored, TurnedBack, Conj;
      TableEntry(j);
      RestoredMirror(p, w, 2 * g, j, At(x, 0, j), At(x, 0, 2 * g - j), w(j));
      RestorePair(x, n, k, twiddleFactors[k], twiddleFactors[k + 1], j, 2 * g);
    }

    /** The arithmetic of one pass, on the mirrored elements at cells k and n - k. */
    static method RestorePair(x: array<real>, n: nat, k: nat, c: real, s: real, ghost j: nat, ghost m: nat)
      requires n == 2 * m == x.Length && k == 2 * j && 0 < 2 * j < m
      modifies x
      ensures
        var a, b := old(At(x, 0, j)), old(At(x, 0, m - j));
        var even := EvenPart(a, b);
        var odd := Mul(Conj(Cx(c, -s)), Cx(0.5 * (a.re - b.re), 0.5 * (a.im + b.im)));
        && At(x, 0, j) == Cx(even.re - odd.im, odd.re + even.im)
        && At(x, 0, m - j) == Cx(even.re + odd.im, odd.re - even.im)
      ensures forall i | i != j && i != m - j :: At(x, 0, i) == old(At(x, 0, i))
    {
      hide Mul;
      var xer, tr := 0.5 * (x[k] + x[n - k]), 0.5 * (x[k] - x[n - k]);
      var xei, ti := 0.5 * (x[k + 1] - x[n - k + 1]), 0.5 * (x[k + 1] + x[n - k + 1]);
      var odd := UnTwiddle(c, s, Cx(tr, ti));
      Put(x, k, Cx(xer - odd.im, odd.re + xei));
      Put(x, n - k, Cx(xer + odd.im, odd.re - xei));
    }

    /** The entry point: forward transforms are the plain sum, backward ones undo them. */
    method Execute()
      requires Valid() && Buffers() && (kind == Real ==> size >= 8)
      modifies input, output
      ensures Valid() && (kind == Complex || direction == Forward ==> input[..] == old(input[..]))
      ensures kind == Complex && direction == Forward ==>
        Strided(output[..], 0, 2, size) == Spectrum(Strided(old(input[..]), 0, 2, size), w, 1, size)
      ensures kind == Complex && direction == Backward ==>
        forall v: seq<Cx> | |v| == size && Strided(old(input[..]), 0, 2, size) == Spectrum(v, w, 1, size) ::
          Strided(output[..], 0, 2, size) == v
      ensures kind == Complex && direction == Backward ==>
        Spectrum(Strided(output[..], 0, 2, size), w, 1, size) == Strided(old(input[..]), 0, 2, size)
      ensures kind == Real && direction == Forward ==> IsPacked(output[..], old(input[..]), 2 * g, w)
      ensures kind == Real && direction == Backward ==>
        (forall r: seq<real> | |r| == size && IsPacked(old(input[..]), r, 2 * g, w) :: output[..] == r)
        && IsPacked(old(input[..]), output[..], 2 * g, w)
    {
      hide IsRoot, IsPowerOfTwo, Dft, Strided, Spectrum, IsPacked, At;
      if kind == Real {
        if direction == Forward {
          Rfft();
        } else {
          Irfft();
        }
      } else {
        if direction == Forward {
          Fft();
        } else {
          Ifft();
        }
      }
    }

    /** complexToMagnitude: the output is compacted in place, each cell after the first taking the magnitude of its
        complex number. The largest of them beyond the one known before is found at its first occurrence. */
    method ComplexToMagnitude(magnitude: (real, real) -> real, maxBefore: real) returns (maxMag: real, peak: nat)
      requires Valid() && Buffers()
      modifies output
      ensures forall k | 1 <= k < 2 * g :: output[k] == magnitude(old(output[2 * k]), old(output[2 * k + 1]))
      ensures forall k | 0 <= k < output.Length && (k == 0 || k >= 2 * g) :: output[k] == old(output[k])
      ensures maxMag >= maxBefore && forall k | 1 <= k < 2 * g :: output[k] <= maxMag
      ensures if peak == 0 then maxMag == maxBefore
              else peak < 2 * g && output[peak] == maxMag > maxBefore && forall k | 1 <= k < peak :: output[k] < maxMag
    {
      hide IsRoot, At;
      RootSize(w, g);
      maxMag, peak := maxBefore, 0;
      var k := 1;
      while k < size / 2
        invariant 1 <= k <= 2 * g
        invariant forall j | 1 <= j < k :: output[j] == magnitude(old(output[2 * j]), old(output[2 * j + 1]))
        invariant forall j | 0 <= j < output.Length && (j == 0 || j >= k) :: output[j] == old(output[j])
        invariant maxMag >= maxBefore && forall j | 1 <= j < k :: output[j] <= maxMag
        invariant if peak == 0 then maxMag == maxBefore
                  else peak < k && output[peak] == maxMag > maxBefore && forall j | 1 <= j < peak :: output[j] < maxMag
      {
        var mag := magnitude(output[2 * k], output[2 * k + 1]);
        if mag > maxMag {
          maxMag, peak := mag, k;
        }
        output[k] := mag;
        k := k + 1;
      }
    }
  }
}

/** Arrays of interleaved real and imaginary parts seen as sequences of complex numbers, and the index
    arithmetic of the fast transforms. */
module FftViews {
  import opened Complex
  import opened Fourier
  import opened Inversion
  import opened RealTransform

  /** The complex number stored in the pair of cells j of the buffer that starts at offset o. */
  ghost function At(y: array<real>, o: int, j: int): Cx
    reads y
  {
    if 0 <= o + 2 * j < y.Length - 1 then Cx(y[o + 2 * j], y[o + 2 * j + 1]) else ZERO
  }

  ghost function Sample(x: seq<real>, i: int): Cx {
    if 0 <= i < |x| - 1 then Cx(x[i], x[i + 1]) else ZERO
  }

  /** The n complex samples that start at `off` and lie `stride` cells apart. */
  ghost function Strided(x: seq<real>, off: int, stride: int, n: nat): (v: seq<Cx>)
    ensures |v| == n
  {
    seq(n, j => Sample(x, off + j * stride))
  }

  lemma StridedHalves(x: seq<real>, off: int, stride: int, h: nat)
    ensures Evens(Strided(x, off, stride, 2 * h), h) == Strided(x, off, 2 * stride, h)
    ensures Odds(Strided(x, off, stride, 2 * h), h) == Strided(x, off + stride, 2 * stride, h)
  {
    var v := Strided(x, off, stride, 2 * h);
    forall j | 0 <= j < h
      ensures Evens(v, h)[j] == Strided(x, off, 2 * stride, h)[j]
      ensures Odds(v, h)[j] == Strided(x, off + stride, 2 * stride, h)[j]
    {
      StrideIndex(off, j, stride);
    }
  }

  lemma StrideIndex(off: int, j: int, stride: int)
    ensures off + (2 * j) * stride == off + j * (2 * stride)
    ensures off + (2 * j + 1) * stride == off + stride + j * (2 * stride)
  {
  }

  /** Offsets and strides of the three sub-transforms of a split-radix call on 4 q samples. */
  lemma SplitRadixViews(x: seq<real>, off: int, stride: int, q: nat)
    ensures
      var v := Strided(x, off, stride, 4 * q);
      && Evens(v, 2 * q) == Strided(x, off, 2 * stride, 2 * q)
      && Evens(Odds(v, 2 * q), q) == Strided(x, off + stride, 4 * stride, q)
      && Odds(Odds(v, 2 * q), q) == Strided(x, off + 3 * stride, 4 * stride, q)
  {
    hide *;
    StridedHalves(x, off, stride, 2 * q);
    StridedHalves(x, off + stride, 2 * stride, q);
  }

  lemma FourSamples(x: seq<real>, off: int, stride: int)
    ensures
      var v := Strided(x, off, stride, 4);
      && v[0] == Sample(x, off) && v[1] == Sample(x, off + stride)
      && v[2] == Sample(x, off + 2 * stride) && v[3] == Sample(x, off + 3 * stride)
  {
  }

  lemma EightSamples(x: seq<real>, off: int, stride: int)
    ensures
      var v := Strided(x, off, stride, 8);
      && v[0] == Sample(x, off) && v[1] == Sample(x, off + stride)
      && v[2] == Sample(x, off + 2 * stride) && v[3] == Sample(x, off + 3 * stride)
      && v[4] == Sample(x, off + 4 * stride) && v[5] == Sample(x, off + 5 * stride)
      && v[6] == Sample(x, off + 6 * stride) && v[7] == Sample(x, off + 7 * stride)
  {
  }

  lemma FourOutputs(y: array<real>, yo: nat, v: seq<Cx>, w: int -> Cx, g: nat)
    requires At(y, yo, 0) == Dft(v, w, 0) && At(y, yo, 1) == Dft(v, w, g)
    requires At(y, yo, 2) == Dft(v, w, 2 * g) && At(y, yo, 3) == Dft(v, w, 3 * g)
    ensures forall k | 0 <= k < 4 :: At(y, yo, k) == Dft(v, w, g * k)
  {
    hide *;
    forall k | 0 <= k < 4
      ensures At(y, yo, k) == Dft(v, w, g * k)
    {
      assert k == 0 || k == 1 || k == 2 || k == 3;
    }
  }

  lemma EightOutputs(y: array<real>, yo: nat, v: seq<Cx>, w: int -> Cx, h: nat)
    requires At(y, yo, 0) == Dft(v, w, 0) && At(y, yo, 1) == Dft(v, w, h)
    requires At(y, yo, 2) == Dft(v, w, 2 * h) && At(y, yo, 3) == Dft(v, w, 3 * h)
    requires At(y, yo, 4) == Dft(v, w, 4 * h) && At(y, yo, 5) == Dft(v, w, 5 * h)
    requires At(y, yo, 6) == Dft(v, w, 6 * h) && At(y, yo, 7) == Dft(v, w, 7 * h)
    ensures forall k | 0 <= k < 8 :: At(y, yo, k) == Dft(v, w, h * k)
  {
    hide *;
    forall k | 0 <= k < 8
      ensures At(y, yo, k) == Dft(v, w, h * k)
    {
      assert k == 0 || k == 1 || k == 2 || k == 3 || k == 4 || k == 5 || k == 6 || k == 7;
    }
  }

  /** The n samples from `off`, `stride` apart, lie inside an input of the given length. */
  ghost predicate Covers(length: nat, off: int, stride: nat, n: nat) {
    off + (n - 1) * stride + 1 < length
  }

  /** A step of twStride cells in the table, s exponents, is one step of an n-point transform. */
  ghost predicate TableStep(size: nat, n: nat, twStride: nat, s: nat) {
    twStride == 2 * s && n * s == size
  }

  /** The recursive calls keep inside the input and in step with the table. */
  lemma SubTransforms(size: nat, length: nat, off: int, stride: nat, q: nat, twStride: nat, s: nat)
    requires q > 0 && Covers(length, off, stride, 4 * q) && TableStep(size, 4 * q, twStride, s)
    ensures Covers(length, off, 2 * stride, 2 * q) && Covers(length, off + stride, 2 * stride, 2 * q)
    ensures Covers(length, off + stride, 4 * stride, q) && Covers(length, off + 3 * stride, 4 * stride, q)
    ensures TableStep(size, 2 * q, 2 * twStride, 2 * s) && TableStep(size, q, 4 * twStride, 4 * s)
  {
    StrideProducts(q, stride);
    TableProducts(q, s);
  }

  lemma StrideProducts(q: nat, stride: nat)
    ensures (4 * q - 1) * stride == 4 * (q * stride) - stride
    ensures (2 * q - 1) * (2 * stride) == 4 * (q * stride) - 2 * stride
    ensures (q - 1) * (4 * stride) == 4 * (q * stride) - 4 * stride
  {
  }

  lemma TableProducts(q: nat, s: nat)
    ensures (4 * q) * s == 4 * (s * q)
    ensures (2 * q) * (2 * s) == 4 * (s * q) && q * (4 * s) == 4 * (s * q)
  {
  }

  lemma QuarterOfPower(n: nat) returns (q: nat)
    requires IsPowerOfTwo(n) && n >= 4
    ensures n == 4 * q && q > 0 && n / 2 == 2 * q && n / 4 == q
    ensures IsPowerOfTwo(q) && IsPowerOfTwo(2 * q)
  {
    var h := HalfOfPower(n);
    q := HalfOfPower(h);
  }

  lemma SmallPowers(q: nat)
    requires IsPowerOfTwo(q) && q != 1 && q != 2
    ensures q >= 4
  {
    var h := HalfOfPower(q);
    assert h != 1;
  }

  /** The buffer seen from an even offset d further on. */
  lemma Shifted(y: array<real>, yo: int, d: int, half: int, j: int)
    requires d == 2 * half
    ensures At(y, yo + d, j) == At(y, yo, j + half)
  {
  }

  /** The four outputs of iteration j of the split-radix loop hold their final values. */
  ghost predicate QuarterDone(y: array<real>, yo: int, q: nat, j: int, v: seq<Cx>, w: int -> Cx, s: int)
    reads y
  {
    && At(y, yo, j) == Dft(v, w, s * j)
    && At(y, yo, j + q) == Dft(v, w, s * (j + q))
    && At(y, yo, j + 2 * q) == Dft(v, w, s * (j + 2 * q))
    && At(y, yo, j + 3 * q) == Dft(v, w, s * (j + 3 * q))
  }

  /** The four outputs of iteration j still hold the values of the sub-transforms. */
  ghost predicate QuarterTodo(y: array<real>, yo: int, q: nat, j: int, v: seq<Cx>, w: int -> Cx, s: int)
    requires |v| == 4 * q
    reads y
  {
    && At(y, yo, j) == Dft(Evens(v, 2 * q), w, (2 * s) * j)
    && At(y, yo, j + q) == Dft(Evens(v, 2 * q), w, (2 * s) * (j + q))
    && At(y, yo, j + 2 * q) == Dft(Evens(Odds(v, 2 * q), q), w, (4 * s) * j)
    && At(y, yo, j + 3 * q) == Dft(Odds(Odds(v, 2 * q), q), w, (4 * s) * j)
  }

  /** Once every iteration is done, so is every output. */
  lemma AllDone(y: array<real>, yo: int, q: nat, v: seq<Cx>, w: int -> Cx, s: int)
    requires forall j | 0 <= j < q :: QuarterDone(y, yo, q, j, v, w, s)
    ensures forall k | 0 <= k < 4 * q :: At(y, yo, k) == Dft(v, w, s * k)
  {
    hide At, Dft;
    forall k | 0 <= k < 4 * q
      ensures At(y, yo, k) == Dft(v, w, s * k)
    {
      var j := if k < q then k else if k < 2 * q then k - q else if k < 3 * q then k - 2 * q else k - 3 * q;
      assert QuarterDone(y, yo, q, j, v, w, s);
    }
  }

  /** Twiddle factors k and 3 k of a transform of 4 q points sit inside the table. */
  lemma TableIndex(size: nat, q: nat, s: nat, twStride: nat, k: nat)
    requires s > 0 && twStride == 2 * s && (4 * q) * s == size && k < q
    ensures k * twStride == 2 * (s * k) && 3 * k * twStride == 2 * (3 * (s * k))
    ensures 0 <= s * k <= 3 * (s * k) < size
  {
    TableProducts(q, s);
    MulStep(s, k, q);
    TableCell(s, twStride, k);
  }

  lemma HalfTableIndex(size: nat, h: nat, s: nat, twStride: nat, k: nat)
    requires s > 0 && twStride == 2 * s && (2 * h) * s == size && k < h
    ensures k * twStride == 2 * (s * k) && 0 <= s * k < size
  {
    assert (2 * h) * s == 2 * (s * h);
    MulStep(s, k, h);
    TableCell(s, twStride, k);
  }

  lemma TableCell(s: nat, twStride: nat, k: nat)
    requires twStride == 2 * s
    ensures k * twStride == 2 * (s * k) && 3 * k * twStride == 2 * (3 * (s * k))
  {
  }

  lemma MulStep(s: nat, k: nat, q: nat)
    requires k < q
    ensures 0 <= s * k && s * k + s <= s * q
  {
    Products(s, q, k);
    Nonnegative(s, k);
    Nonnegative(s, q - k - 1);
  }

  lemma Products(s: int, q: int, k: int)
    ensures s * (q - k - 1) == s * q - s * k - s
  {
  }

  lemma Nonnegative(a: nat, b: nat)
    ensures a * b >= 0
  {
  }

  /** A step of a positive number of points through a nonempty table is positive. */
  lemma PositiveStep(g: nat, n: nat, s: nat)
    requires g > 0 && n * s == 4 * g
    ensures s > 0
  {
  }

  lemma QuarterStep(g: nat, q: nat, s: nat)
    requires (4 * q) * s == 4 * g
    ensures s * q == g
  {
    TableProducts(q, s);
  }

  /** What iteration k of the stitching loop computes from the three sub-transforms. */
  lemma StitchStep(v: seq<Cx>, w: int -> Cx, g: nat, q: nat, s: nat, k: nat)
    requires IsRoot(w, g) && |v| == 4 * q && g == s * q
    ensures
      var even, odd := Evens(v, 2 * q), Odds(v, 2 * q);
      var u, u' := Dft(even, w, (2 * s) * k), Dft(even, w, (2 * s) * (k + q));
      var x, x' := Mul(w(s * k), Dft(Evens(odd, q), w, (4 * s) * k)),
                   Mul(w(3 * (s * k)), Dft(Odds(odd, q), w, (4 * s) * k));
      && Dft(v, w, s * k) == Add(u, Add(x, x'))
      && Dft(v, w, s * (k + q)) == Sub(u', Mul(I, Sub(x, x')))
      && Dft(v, w, s * (k + 2 * q)) == Sub(u, Add(x, x'))
      && Dft(v, w, s * (k + 3 * q)) == Add(u', Mul(I, Sub(x, x')))
  {
    hide *;
    StitchIndex(q, s, k);
    SplitRadix(v, q, w, g, s * k);
  }

  /** The first iteration, where both twiddle factors are one. */
  lemma StitchFirstStep(w: int -> Cx, g: nat, q: nat, s: nat, k: nat)
    requires IsRoot(w, g) && g == s * q && k == 0
    ensures w(s * k) == w(3 * (s * k)) == Cx(1.0, -0.0)
  {
    hide Mul;
    QuarterTurns(w, g);
    assert s * k == 0;
  }

  lemma StitchIndex(q: nat, s: nat, k: nat)
    ensures (2 * s) * k == 2 * (s * k) && (4 * s) * k == 4 * (s * k)
    ensures (2 * s) * (k + q) == 2 * (s * k + s * q)
    ensures s * (k + q) == s * k + s * q && s * (k + 2 * q) == s * k + 2 * (s * q)
    ensures s * (k + 3 * q) == s * k + 3 * (s * q)
  {
  }

  /** The two outputs of iteration j of the radix-2 loop: final, and before it. */
  ghost predicate HalfDone(y: array<real>, yo: int, h: nat, j: int, v: seq<Cx>, w: int -> Cx, s: int)
    reads y
  {
    At(y, yo, j) == Dft(v, w, s * j) && At(y, yo, j + h) == Dft(v, w, s * (j + h))
  }

  ghost predicate HalfTodo(y: array<real>, yo: int, h: nat, j: int, v: seq<Cx>, w: int -> Cx, s: int)
    requires |v| == 2 * h
    reads y
  {
    && At(y, yo, j) == Dft(Evens(v, h), w, (2 * s) * j)
    && At(y, yo, j + h) == Dft(Odds(v, h), w, (2 * s) * j)
  }

  lemma AllHalvesDone(y: array<real>, yo: int, h: nat, v: seq<Cx>, w: int -> Cx, s: int)
    requires forall j | 0 <= j < h :: HalfDone(y, yo, h, j, v, w, s)
    ensures forall k | 0 <= k < 2 * h :: At(y, yo, k) == Dft(v, w, s * k)
  {
    hide At, Dft;
    forall k | 0 <= k < 2 * h
      ensures At(y, yo, k) == Dft(v, w, s * k)
    {
      assert HalfDone(y, yo, h, if k < h then k else k - h, v, w, s);
    }
  }

  /** What iteration k of the radix-2 loop computes from the two halves. */
  lemma Radix2Step(v: seq<Cx>, w: int -> Cx, g: nat, h: nat, s: nat, k: nat)
    requires IsRoot(w, g) && |v| == 2 * h && (2 * h) * s == 4 * g
    ensures
      var u, x := Dft(Evens(v, h), w, (2 * s) * k), Mul(w(s * k), Dft(Odds(v, h), w, (2 * s) * k));
      Dft(v, w, s * k) == Add(u, x) && Dft(v, w, s * (k + h)) == Sub(u, x)
  {
    hide *;
    HalfIndex(s, k, h, g);
    Radix2(v, h, w, g, s * k);
  }

  lemma HalfIndex(s: nat, k: nat, h: nat, g: nat)
    requires (2 * h) * s == 4 * g
    ensures (2 * s) * k == 2 * (s * k) && s * (k + h) == s * k + 2 * g
  {
    assert (2 * h) * s == 2 * (s * h);
  }

  /** The transform at n - j is the transform at -j. */
  lemma Mirror(v: seq<Cx>, w: int -> Cx, g: nat, n: nat, s: nat, j: int)
    requires IsRoot(w, g) && n * s == 4 * g
    ensures Dft(v, w, s * (n - j)) == Dft(v, w, -(s * j))
  {
    hide *;
    MirrorIndex(n, s, j);
    DftTurns(v, w, g, -(s * j));
  }

  lemma MirrorIndex(n: int, s: int, j: int)
    ensures s * (n - j) == -(s * j) + n * s
  {
  }

  ghost function Pair(p: seq<real>, j: int): Cx {
    Sample(p, 2 * j)
  }

  lemma PairAt(x: array<real>, j: int)
    requires 0 <= 2 * j < x.Length - 1
    ensures At(x, 0, j) == Pair(x[..], j)
  {
  }

  /** Element j of the half-size transform behind the packed spectrum p of 2 m cells. */
  ghost function Restored(p: seq<real>, w: int -> Cx, m: nat, j: int): Cx {
    if j == 0 then Cx(0.5 * (Pair(p, 0).re + Pair(p, 0).im), 0.5 * (Pair(p, 0).re - Pair(p, 0).im))
    else if 2 * j == m then Conj(Pair(p, j))
    else if 2 * j < m then
      var even, odd := EvenPart(Pair(p, j), Pair(p, m - j)), TurnedBack(w, j, Pair(p, j), Pair(p, m - j));
      Cx(even.re - odd.im, odd.re + even.im)
    else
      var even, odd := EvenPart(Pair(p, m - j), Pair(p, j)), TurnedBack(w, m - j, Pair(p, m - j), Pair(p, j));
      Cx(even.re + odd.im, odd.re - even.im)
  }

  ghost function TurnedBack(w: int -> Cx, k: int, a: Cx, b: Cx): Cx {
    Mul(Conj(w(k)), Cx(0.5 * (a.re - b.re), 0.5 * (a.im + b.im)))
  }

  /** The two mirrored elements of one pass of the pre-pass. */
  lemma RestoredMirror(p: seq<real>, w: int -> Cx, m: nat, j: int, a: Cx, b: Cx, r: Cx)
    requires 0 < 2 * j < m && a == Pair(p, j) && b == Pair(p, m - j) && r == w(j)
    ensures
      var even, odd := EvenPart(a, b), Mul(Conj(r), Cx(0.5 * (a.re - b.re), 0.5 * (a.im + b.im)));
      && Restored(p, w, m, j) == Cx(even.re - odd.im, odd.re + even.im)
      && Restored(p, w, m, m - j) == Cx(even.re + odd.im, odd.re - even.im)
  {
    hide Mul, EvenPart, Conj, Pair;
    assert m - (m - j) == j;
  }

  /** The pre-pass undoes the post-pass. */
  lemma RestoredTransform(p: seq<real>, r: seq<real>, w: int -> Cx, g: nat, j: nat)
    requires IsRoot(w, g) && |r| == 4 * g && IsPacked(p, r, 2 * g, w) && j < 2 * g
    ensures Restored(p, w, 2 * g, j) == Dft(Paired(r, 2 * g), w, 2 * j)
  {
    hide IsRoot, PowerLaws, Mul, Dft, RealSignal, Paired;
    var m := 2 * g;
    if j == 0 {
      EndElements(r, w, g);
    } else if j == g {
      MiddleElement(r, w, g);
      assert Pair(p, j) == Dft(RealSignal(r), w, j);
    } else {
      var k := if j < g then j else m - j;
      assert Pair(p, k) == Dft(RealSignal(r), w, k) && Pair(p, m - k) == Dft(RealSignal(r), w, m - k);
      PackStep(r, w, g, k);
    }
  }

  lemma PreparedSpectrum(x: array<real>, p: seq<real>, r: seq<real>, w: int -> Cx, g: nat)
    requires IsRoot(w, g) && |r| == |p| == 4 * g == x.Length && IsPacked(p, r, 2 * g, w)
    requires forall j | 0 <= j < 2 * g :: At(x, 0, j) == Restored(p, w, 2 * g, j)
    ensures Strided(x[..], 0, 2, 2 * g) == Spectrum(Paired(r, 2 * g), w, 2, 2 * g)
  {
    hide IsRoot, PowerLaws, Dft, RealSignal, Paired, Restored, IsPacked;
    forall j | 0 <= j < 2 * g
      ensures Strided(x[..], 0, 2, 2 * g)[j] == Spectrum(Paired(r, 2 * g), w, 2, 2 * g)[j]
    {
      StridedPair(x, 2 * g, j);
      assert At(x, 0, j) == Restored(p, w, 2 * g, j);
      RestoredTransform(p, r, w, g, j);
    }
  }

  /** The other way round: if the half-size transform of r is `Restored`, then p is the packed transform of r. */
  lemma UnpackRestored(p: seq<real>, r: seq<real>, w: int -> Cx, g: nat, k: nat)
    requires IsRoot(w, g) && |r| == |p| == 4 * g && 1 <= k < g
    requires Dft(Paired(r, 2 * g), w, 2 * k) == Restored(p, w, 2 * g, k)
    requires Dft(Paired(r, 2 * g), w, 2 * (2 * g - k)) == Restored(p, w, 2 * g, 2 * g - k)
    ensures Dft(RealSignal(r), w, k) == Pair(p, k) && Dft(RealSignal(r), w, 2 * g - k) == Pair(p, 2 * g - k)
  {
    hide IsRoot, PowerLaws, Mul, Dft, RealSignal, Paired, Restored, Pair, Conj;
    var a, b := Pair(p, k), Pair(p, 2 * g - k);
    RestoredMirror(p, w, 2 * g, k, a, b, w(k));
    UnpackStep(r, w, g, k);
    var d := Cx(0.5 * (a.re - b.re), 0.5 * (a.im + b.im));
    PartsRestored(EvenPart(a, b), Mul(Conj(w(k)), d));
    TurnForthAndBack(w, g, k, d);
    SumAndDifference(a, b);
  }

  lemma PartsRestored(even: Cx, odd: Cx)
    ensures
      var a, b := Cx(even.re - odd.im, odd.re + even.im), Cx(even.re + odd.im, odd.re - even.im);
      EvenPart(a, b) == even && OddPart(a, b) == odd
  {
  }

  lemma SumAndDifference(a: Cx, b: Cx)
    ensures
      var even, d := EvenPart(a, b), Cx(0.5 * (a.re - b.re), 0.5 * (a.im + b.im));
      Add(even, d) == a && Conj(Sub(even, d)) == b
  {
  }

  lemma TurnForthAndBack(w: int -> Cx, g: nat, k: int, a: Cx)
    requires IsRoot(w, g)
    ensures Mul(w(k), Mul(Conj(w(k)), a)) == a
  {
    hide Mul, Conj;
    assert PowerLaws(w, k, 0);
    MulAssoc(w(k), Conj(w(k)), a);
    TimesOne(a);
  }

  /** So every packed spectrum is that of a signal: the one that the inverse transform makes of it. */
  lemma PackedByRestored(p: seq<real>, r: seq<real>, w: int -> Cx, g: nat)
    requires IsRoot(w, g) && g >= 1 && |r| == |p| == 4 * g
    requires forall j | 0 <= j < 2 * g :: Dft(Paired(r, 2 * g), w, 2 * j) == Restored(p, w, 2 * g, j)
    ensures IsPacked(p, r, 2 * g, w)
  {
    hide IsRoot, PowerLaws, Mul, Dft, RealSignal, Paired, EvenPart, TurnedBack;
    var m := 2 * g;
    assert Dft(Paired(r, m), w, 2 * 0) == Restored(p, w, m, 0);
    EndElements(r, w, g);
    forall k | 1 <= k < m
      ensures Dft(RealSignal(r), w, k) == Pair(p, k)
    {
      if k == g {
        MiddleElement(r, w, g);
        assert Dft(Paired(r, m), w, 2 * g) == Restored(p, w, m, g);
      } else {
        var l := if k < g then k else m - k;
        assert Dft(Paired(r, m), w, 2 * l) == Restored(p, w, m, l)
               && Dft(Paired(r, m), w, 2 * (m - l)) == Restored(p, w, m, m - l);
        UnpackRestored(p, r, w, g, l);
      }
    }
  }

  lemma StridedPair(y: array<real>, n: nat, j: nat)
    requires 2 * n <= y.Length && j < n
    ensures Strided(y[..], 0, 2, n)[j] == At(y, 0, j)
  {
  }

  lemma PairedView(x: seq<real>, m: nat)
    requires |x| == 2 * m
    ensures Strided(x, 0, 2, m) == Paired(x, m)
  {
  }

  lemma SamePairs(y: array<real>, r: seq<real>, m: nat)
    requires |r| == y.Length == 2 * m
    requires forall j | 0 <= j < m :: At(y, 0, j) == Paired(r, m)[j]
    ensures y[..] == r
  {
    forall i | 0 <= i < 2 * m
      ensures y[i] == r[i]
    {
      assert At(y, 0, i / 2) == Paired(r, m)[i / 2];
    }
  }

  lemma WholeSpectrum(y: array<real>, v: seq<Cx>, w: int -> Cx, n: nat)
    requires 2 * n <= y.Length && |v| == n
    requires forall k | 0 <= k < n :: At(y, 0, k) == Dft(v, w, 1 * k)
    ensures Strided(y[..], 0, 2, n) == Spectrum(v, w, 1, n)
  {
    hide Dft;
    forall k | 0 <= k < n
      ensures Strided(y[..], 0, 2, n)[k] == Spectrum(v, w, 1, n)[k]
    {
      StridedPair(y, n, k);
    }
  }

  lemma Packed(y: array<real>, r: seq<real>, m: nat, w: int -> Cx)
    requires 0 < 2 * m == y.Length == |r|
    requires At(y, 0, 0) == Cx(Dft(RealSignal(r), w, 0).re, Dft(RealSignal(r), w, m).re)
    requires forall j | 1 <= j < m :: At(y, 0, j) == Dft(RealSignal(r), w, j)
    ensures IsPacked(y[..], r, m, w)
  {
    hide Dft, RealSignal;
    forall j | 1 <= j < m
      ensures Cx(y[..][2 * j], y[..][2 * j + 1]) == Dft(RealSignal(r), w, j)
    {
      assert At(y, 0, j) == Dft(RealSignal(r), w, j);
    }
  }

  lemma InvertedSpectrum(y: array<real>, v: seq<Cx>, w: int -> Cx, g: nat, s: nat, n: nat)
    requires IsRoot(w, g) && IsPowerOfTwo(n) && s * n == 4 * g && |v| == n > 0 && 2 * n <= y.Length
    requires forall j | 0 <= j < n :: At(y, 0, j) == InverseDft(v, w, s, j)
    ensures Spectrum(Strided(y[..], 0, 2, n), w, s, n) == v
  {
    hide IsRoot, IsPowerOfTwo, Dft, InverseDft, At, Strided;
    var u := Strided(y[..], 0, 2, n);
    forall j | 0 <= j < n
      ensures u[j] == InverseDft(v, w, s, j)
    {
      StridedPair(y, n, j);
    }
    forall k | 0 <= k < n
      ensures Spectrum(u, w, s, n)[k] == v[k]
    {
      TransformOfInverse(v, u, w, g, s, k);
    }
  }

  lemma InvertedPacked(x: array<real>, y: array<real>, p: seq<real>, w: int -> Cx, g: nat)
    requires IsRoot(w, g) && IsPowerOfTwo(2 * g) && g >= 1 && |p| == 4 * g == x.Length == y.Length
    requires forall j | 0 <= j < 2 * g :: At(x, 0, j) == Restored(p, w, 2 * g, j)
    requires forall j | 0 <= j < 2 * g :: At(y, 0, j) == InverseDft(Strided(x[..], 0, 2, 2 * g), w, 2, j)
    ensures IsPacked(p, y[..], 2 * g, w)
  {
    hide IsRoot, IsPowerOfTwo, Dft, InverseDft, At, Strided, Paired, Restored, IsPacked;
    var m := 2 * g;
    InvertedSpectrum(y, Strided(x[..], 0, 2, m), w, g, 2, m);
    PairedView(y[..], m);
    forall j | 0 <= j < m
      ensures Dft(Paired(y[..], m), w, 2 * j) == Restored(p, w, m, j)
    {
      StridedPair(x, m, j);
      assert Spectrum(Paired(y[..], m), w, 2, m)[j] == Strided(x[..], 0, 2, m)[j];
    }
    PackedByRestored(p, y[..], w, g);
  }
}

/** Pulses at the zero crossings of an audio signal (CAudio3Process.cpp). Double precision is taken as exact. */
module ZeroCross {
  const AHEAD := 25_000
  const SPACING := 2666
  const MAX_LEVEL := 1000

  datatype Pulse = Pulse(time: nat, level: nat)

  function Truncated(x: real): nat
    requires x >= 0.0
  {
    x.Floor
  }

  /** get_zero_cross_time, for a time span from 0 and a value that rises through zero. */
  function CrossTime(value0: int, span: nat, value1: int): (t: nat)
    requires value0 <= 0 < value1 && span > 0
    ensures t < span
  {
    if value0 == 0 then 0
    else
      var slope := (value1 as real - value0 as real) / (span as real);
      CrossBounds(value0, span, value1);
      Truncated(0.0 - value0 as real / slope)
  }

  /** The crossing lies within the sample interval. */
  lemma CrossBounds(value0: int, span: nat, value1: int)
    requires value0 < 0 < value1 && span > 0
    ensures
      var slope := (value1 as real - value0 as real) / (span as real);
      slope > 0.0 && 0.0 <= 0.0 - value0 as real / slope < span as real
  {
    var a, b, s := 0.0 - value0 as real, value1 as real, span as real;
    var slope := (b + a) / s;
    Positive(a + b, s);
    assert a / slope * slope == a;
    assert slope * s == a + b;
    Smaller(a / slope, s, slope);
    Positive(a, slope);
    assert value0 as real / slope == 0.0 - a / slope;
  }

  lemma Positive(x: real, y: real)
    requires x > 0.0 && y > 0.0
    ensures x / y > 0.0
  {
  }

  lemma Smaller(x: real, y: real, k: real)
    requires k > 0.0 && x * k < y * k
    ensures x < y
  {
  }

  /** It is the point where the straight line between the samples passes zero, rounded down: in whole numbers,
      without the division. */
  lemma CrossOnLine(value0: int, span: nat, value1: int)
    requires value0 <= 0 < value1 && span > 0
    ensures
      var t := CrossTime(value0, span, value1);
      t * (value1 - value0) <= -value0 * span < (t + 1) * (value1 - value0)
  {
    hide Product;
    if value0 < 0 {
      var a, c, s := (-value0) as real, (value1 - value0) as real, span as real;
      var slope := (value1 as real - value0 as real) / s;
      CrossBounds(value0, span, value1);
      var x := 0.0 - value0 as real / slope;
      var t := CrossTime(value0, span, value1);
      Solves(a, slope, s, c);
      assert t as real <= x < t as real + 1.0;
      ScaleBoth(x, slope, s, a, c);
      LineBounds(x, c, t as real);
      Whole(t, value1 - value0, -value0, span);
    }
  }

  lemma Solves(a: real, slope: real, s: real, c: real)
    requires s > 0.0 && slope == c / s && slope > 0.0
    ensures slope * s == c && (0.0 - (0.0 - a) / slope) * slope == a
  {
    Divided(c, s);
    var q := (0.0 - a) / slope;
    Divided(0.0 - a, slope);
    assert (0.0 - q) * slope == 0.0 - q * slope;
  }

  lemma Divided(x: real, y: real)
    requires y > 0.0
    ensures x / y * y == x
  {
  }

  function Product(x: real, y: real): real {
    x * y
  }

  lemma LineBounds(x: real, c: real, t: real)
    requires c > 0.0 && t <= x < t + 1.0
    ensures Product(t, c) <= Product(x, c) < Product(t + 1.0, c)
  {
    hide Product;
    if t < x {
      InOrder(t, x, c);
    }
    InOrder(x, t + 1.0, c);
  }

  lemma InOrder(x: real, y: real, c: real)
    requires c > 0.0 && x < y
    ensures Product(x, c) < Product(y, c)
  {
    assert (y - x) * c > 0.0;
  }

  lemma ScaleBoth(x: real, slope: real, s: real, a: real, c: real)
    requires slope * s == c && x * slope == a
    ensures Product(x, c) == Product(a, s)
  {
    assert x * (slope * s) == (x * slope) * s;
  }

  lemma Whole(t: nat, c: int, a: int, s: nat)
    requires Product(t as real, c as real) <= Product(a as real, s as real) < Product(t as real + 1.0, c as real)
    ensures t * c <= a * s < (t + 1) * c
  {
    assert (t * c) as real == t as real * c as real;
    assert (a * s) as real == a as real * s as real;
    assert ((t + 1) * c) as real == (t + 1) as real * c as real;
  }

  /** get_output_level. */
  function OutputLevel(maxSample: int, minSample: int, zeroPoint: int): (level: nat)
    ensures level <= MAX_LEVEL
    ensures level == MAX_LEVEL <==> maxSample - zeroPoint >= 125 || zeroPoint - minSample >= 125
    ensures level < MAX_LEVEL ==> maxSample - zeroPoint <= level / 8 && zeroPoint - minSample <= level / 8
  {
    var above := if maxSample - zeroPoint > 0 then maxSample - zeroPoint else 0;
    var ret := if zeroPoint - minSample > 0 && zeroPoint - minSample > above then zeroPoint - minSample else above;
    if ret * 2 * 4 > MAX_LEVEL then MAX_LEVEL else ret * 2 * 4
  }

  /** Any two pulses are more than 2666 us apart, in order, and no level is too high. */
  predicate Spaced(ps: seq<Pulse>) {
    && (forall i | 0 < i < |ps| :: ps[i].time > ps[i - 1].time + SPACING)
    && (forall i | 0 <= i < |ps| :: ps[i].level <= MAX_LEVEL)
  }

  lemma {:induction false} SpacedApart(ps: seq<Pulse>, i: nat, j: nat)
    requires Spaced(ps) && i < j < |ps|
    ensures ps[j].time > ps[i].time + SPACING
  {
    if i < j - 1 {
      SpacedApart(ps, i, j - 1);
    }
  }

  /** How many samples are not above the zero point. */
  function Below(samples: seq<nat>): nat {
    if samples == [] then 0
    else Below(samples[..|samples| - 1]) + if samples[|samples| - 1] < 128 then 1 else 0
  }

  lemma {:induction false} BelowIs(samples: seq<nat>)
    ensures Below(samples) == |set i | 0 <= i < |samples| && samples[i] < 128|
  {
    if samples != [] {
      var n := |samples| - 1;
      BelowIs(samples[..n]);
      var some := set i | 0 <= i < n && samples[..n][i] < 128;
      assert (set i | 0 <= i < n + 1 && samples[i] < 128) == some + if samples[n] < 128 then {n} else {};
    }
  }

  /** The least and the greatest sample, or the bounds of 16 bits. */
  predicate IsRange(samples: seq<nat>, min: int, max: int) {
    && (forall x | 0 <= x < |samples| :: min <= samples[x] <= max)
    && (if samples == [] then min == 32767 && max == -32768 else min in samples && max in samples)
  }

  lemma LevelIs(samples: seq<nat>, min: int, max: int)
    requires IsRange(samples, min, max) && forall i | 0 <= i < |samples| :: samples[i] < 256
    ensures OutputLevel(max, min, 127) < 50 <==> forall x | 0 <= x < |samples| :: 127 - 6 <= samples[x] <= 127 + 6
    ensures forall x | 0 <= x < |samples| ::
              var level, d := OutputLevel(max, min, 127), samples[x] as int - 127;
              level == 1000 || (level >= 8 * d && level >= -8 * d)
    ensures OutputLevel(max, min, 127) >= 50 ==>
              exists x | 0 <= x < |samples| ::
                var level, d := OutputLevel(max, min, 127), samples[x] as int - 127;
                level <= 8 * d || level <= -8 * d
  {
    if samples != [] {
      var i :| 0 <= i < |samples| && samples[i] == min;
      var j :| 0 <= j < |samples| && samples[j] == max;
      var level := OutputLevel(max, min, 127);
      assert level < 50 || level <= 8 * (max - 127) || level <= 8 * (127 - min);
    }
  }

  /** The values of the samples as seen from the zero point, after the two before them. */
  function Signal(value1: int, value0: int, samples: seq<nat>): (v: seq<int>)
    ensures |v| == |samples| + 2 && v[0] == value1 && v[1] == value0
    ensures forall x | 0 <= x < |samples| :: v[x + 2] == 127 - samples[x] as int
  {
    [value1, value0] + seq(|samples|, i requires 0 <= i < |samples| => 127 - samples[i] as int)
  }

  predicate IsCapture(t: seq<nat>) {
    t != [] && forall i, j | 0 <= i < j < |t| :: t[i] < t[j]
  }

  /** Sample number x crosses zero, upwards; a low-frequency signal must not have gone down before. */
  predicate Crosses(v: seq<int>, low: bool, x: nat)
    requires x + 2 < |v|
  {
    v[x + 1] <= 0 < v[x + 2] && (low ==> v[x + 1] >= v[x])
  }

  function CrossedAt(v: seq<int>, t: seq<nat>, low: bool, x: nat): nat
    requires IsCapture(t) && |v| == |t| + 1 && x + 1 < |t| && Crosses(v, low, x)
  {
    t[x] + CrossTime(v[x + 1], t[x + 1] - t[x], v[x + 2]) + AHEAD
  }

  /** This pulse lies at one of the first n samples. */
  ghost predicate IsCrossing(time: nat, v: seq<int>, t: seq<nat>, low: bool, n: nat)
    requires IsCapture(t) && |v| == |t| + 1 && n < |t|
  {
    exists x: nat | x < n && Crosses(v, low, x) :: time == CrossedAt(v, t, low, x)
  }

  /** A pulse lies here or little before. */
  ghost predicate Covered(ps: seq<Pulse>, time: nat) {
    exists i | 0 <= i < |ps| :: ps[i].time <= time <= ps[i].time + SPACING
  }

  /** The pulses that the first n samples have caused. */
  ghost predicate Caused(was: seq<Pulse>, ps: seq<Pulse>, v: seq<int>, t: seq<nat>, low: bool, n: nat)
    requires IsCapture(t) && |v| == |t| + 1 && n < |t|
  {
    && was <= ps
    && (forall i | |was| <= i < |ps| :: IsCrossing(ps[i].time, v, t, low, n))
    && forall x: nat | x < n && Crosses(v, low, x) :: Covered(ps, CrossedAt(v, t, low, x))
  }

  lemma NothingCaused(ps: seq<Pulse>, v: seq<int>, t: seq<nat>, low: bool)
    requires IsCapture(t) && |v| == |t| + 1
    ensures Caused(ps, ps, v, t, low, 0)
  {
  }

  /** What one sample adds. */
  ghost predicate Step(before: seq<Pulse>, ps: seq<Pulse>, v: seq<int>, t: seq<nat>, low: bool, level: nat, x: nat)
    requires IsCapture(t) && |v| == |t| + 1 && x + 1 < |t|
  {
    if !Crosses(v, low, x) then ps == before
    else
      var at := CrossedAt(v, t, low, x);
      (ps == before || ps == before + [Pulse(at, level)]) && Covered(ps, at)
  }

  lemma StepCaused(before: seq<Pulse>, ps: seq<Pulse>, last: nat, v: seq<int>, t: seq<nat>, low: bool, level: nat,
                   x: nat)
    requires IsCapture(t) && |v| == |t| + 1 && x + 1 < |t|
    requires last == if before == [] then 0 else before[|before| - 1].time
    requires
      if !(v[x + 2] > 0 && v[x + 1] <= 0 && (!low || v[x + 1] >= v[x])) then ps == before
      else
        var at := t[x] + CrossTime(v[x + 1], t[x + 1] - t[x], v[x + 2]) + AHEAD;
        last <= at && ps == before + if at - last > SPACING then [Pulse(at, level)] else []
    ensures Step(before, ps, v, t, low, level, x)
  {
    hide CrossTime;
    if Crosses(v, low, x) {
      var n := |ps| - 1;
      assert ps[n].time <= CrossedAt(v, t, low, x) <= ps[n].time + SPACING;
    }
  }

  lemma CausedNext(was: seq<Pulse>, before: seq<Pulse>, ps: seq<Pulse>, v: seq<int>, t: seq<nat>, low: bool,
                   level: nat, n: nat)
    requires IsCapture(t) && |v| == |t| + 1 && n + 1 < |t|
    requires Caused(was, before, v, t, low, n) && Step(before, ps, v, t, low, level, n)
    ensures Caused(was, ps, v, t, low, n + 1)
    ensures (forall p | p in before[|was|..] :: p.level == level) ==> forall p | p in ps[|was|..] :: p.level == level
  {
    hide CrossTime, Crosses, CrossedAt, IsCapture;
    forall i | |was| <= i < |ps|
      ensures IsCrossing(ps[i].time, v, t, low, n + 1)
    {
      if i < |before| {
        assert IsCrossing(before[i].time, v, t, low, n);
      }
    }
    forall x: nat | x < n + 1 && Crosses(v, low, x)
      ensures Covered(ps, CrossedAt(v, t, low, x))
    {
      if x < n {
        var i :| 0 <= i < |before| && before[i].time <= CrossedAt(v, t, low, x) <= before[i].time + SPACING;
        assert ps[i] == before[i];
      }
    }
  }

  /** The pulses that a capture has caused, after these last two values at this time. */
  ghost predicate CausedBy(was: seq<Pulse>, ps: seq<Pulse>, value1: int, value0: int, last: nat, samples: seq<nat>,
                           times: seq<nat>)
    requires |samples| == |times|
  {
    && IsCapture([last] + times)
    && Caused(was, ps, Signal(value1, value0, samples), [last] + times, LowFrequency(samples), |samples|)
  }

  predicate LowFrequency(samples: seq<nat>) {
    |samples| - 2 * Below(samples) > 50 || 2 * Below(samples) - |samples| > 50
  }

  /** In terms of the samples, these pulses are the crossings, 25 ms later, without those that come at most 2666 us
      after a pulse: every new pulse is a crossing, and every crossing has a pulse at it or at most so long before it.
      A sample crosses if it lies below the zero point and the one before does not, which on a low-frequency signal
      must not lie above the one before that. */
  lemma CausedIs(was: seq<Pulse>, ps: seq<Pulse>, value1: int, value0: int, last: nat, samples: seq<nat>,
                 times: seq<nat>)
    requires |samples| == |times| && CausedBy(was, ps, value1, value0, last, samples, times)
    ensures was <= ps && forall i, j | 0 <= i < j <= |times| :: ([last] + times)[i] < ([last] + times)[j]
    ensures
      var v, t := Signal(value1, value0, samples), [last] + times;
      var below := |set i | 0 <= i < |samples| && samples[i] < 128|;
      var low := |samples| - 2 * below > 50 || 2 * below - |samples| > 50;
      && (forall p | p in ps[|was|..] ::
            exists x {:trigger samples[x]} | 0 <= x < |samples| && samples[x] < 127 ::
              && v[x + 1] <= 0 && (low ==> v[x + 1] >= v[x])
              && p.time == t[x] + CrossTime(v[x + 1], t[x + 1] - t[x], v[x + 2]) + 25_000)
      && (forall x {:trigger samples[x]} | 0 <= x < |samples| && samples[x] < 127 ::
            v[x + 1] <= 0 && (low ==> v[x + 1] >= v[x]) ==>
              exists i | 0 <= i < |ps| ::
                0 <= t[x] + CrossTime(v[x + 1], t[x + 1] - t[x], v[x + 2]) + 25_000 - ps[i].time <= 2666)
  {
    hide CrossTime, Signal, Crosses, CrossedAt, IsCrossing, Covered;
    var v, t, low := Signal(value1, value0, samples), [last] + times, LowFrequency(samples);
    BelowIs(samples);
    forall p | p in ps[|was|..]
      ensures exists x {:trigger samples[x]} | 0 <= x < |samples| && samples[x] < 127 ::
                && v[x + 1] <= 0 && (low ==> v[x + 1] >= v[x])
                && p.time == t[x] + CrossTime(v[x + 1], t[x + 1] - t[x], v[x + 2]) + 25_000
    {
      CrossingIn(samples, p.time, v, t, low);
    }
    forall x {:trigger samples[x]} | 0 <= x < |samples| && samples[x] < 127
      ensures v[x + 1] <= 0 && (low ==> v[x + 1] >= v[x]) ==>
                exists i | 0 <= i < |ps| ::
                  0 <= t[x] + CrossTime(v[x + 1], t[x + 1] - t[x], v[x + 2]) + 25_000 - ps[i].time <= 2666
    {
      CrossingIs(v, t, low, x);
      if Crosses(v, low, x) {
        CoveredBy(ps, CrossedAt(v, t, low, x));
      }
    }
  }

  lemma CoveredBy(ps: seq<Pulse>, time: nat)
    requires Covered(ps, time)
    ensures exists i | 0 <= i < |ps| :: 0 <= time - ps[i].time <= 2666
  {
  }

  lemma CrossingIn(samples: seq<nat>, time: nat, v: seq<int>, t: seq<nat>, low: bool)
    requires IsCapture(t) && |v| == |t| + 1 == |samples| + 2 && IsCrossing(time, v, t, low, |samples|)
    requires forall x | 0 <= x < |samples| :: v[x + 2] == 127 - samples[x] as int
    ensures exists x {:trigger samples[x]} | 0 <= x < |samples| && samples[x] < 127 ::
              && v[x + 1] <= 0 && (low ==> v[x + 1] >= v[x]) && t[x] < t[x + 1]
              && time == t[x] + CrossTime(v[x + 1], t[x + 1] - t[x], v[x + 2]) + 25_000
  {
    hide CrossTime, Crosses, CrossedAt;
    var x: nat :| x < |samples| && Crosses(v, low, x) && time == CrossedAt(v, t, low, x);
    CrossingIs(v, t, low, x);
    assert samples[x] < 127;
  }

  lemma CrossingIs(v: seq<int>, t: seq<nat>, low: bool, x: nat)
    requires IsCapture(t) && |v| == |t| + 1 && x + 1 < |t|
    ensures t[x] < t[x + 1] && (Crosses(v, low, x) <==> v[x + 1] <= 0 < v[x + 2] && (low ==> v[x + 1] >= v[x]))
    ensures Crosses(v, low, x) ==>
              CrossedAt(v, t, low, x) == t[x] + CrossTime(v[x + 1], t[x + 1] - t[x], v[x + 2]) + 25_000
  {
  }

  lemma IsCapturedAfter(last: nat, times: seq<nat>)
    requires times != [] ==> times[0] > last
    requires forall i, j | 0 <= i < j < |times| :: times[i] < times[j]
    ensures IsCapture([last] + times)
  {
  }

  class Audio3Process {
    var lastValue0: int
    var lastValue1: int
    var lastSampleTime: nat
    var lastPulse: nat
    ghost var pulses: seq<Pulse>

    /** The last pulse lies at most as far ahead as the last sample. */
    ghost predicate Valid()
      reads this
    {
      && Spaced(pulses) && lastPulse <= lastSampleTime + AHEAD
      && lastPulse == (if pulses == [] then 0 else pulses[|pulses| - 1].time)
    }

    constructor ()
      ensures Valid() && pulses == [] && lastSampleTime == 0
    {
      lastValue0, lastValue1, lastSampleTime, lastPulse, pulses := 0, 0, 0, 0, [];
    }

    /** process_sample. The unsigned difference of pulse times never underflows, because a crossing never comes
        before an earlier one. */
    method ProcessSample(time: nat, value: int, lowFrequency: bool, outputLevel: nat)
      requires Valid() && time > lastSampleTime && outputLevel <= MAX_LEVEL
      modifies this
      ensures Valid() && lastSampleTime == time && lastValue0 == value && lastValue1 == old(lastValue0)
      ensures
        var crosses := value > 0 && old(lastValue0) <= 0 && (!lowFrequency || old(lastValue0) >= old(lastValue1));
        if !crosses then pulses == old(pulses)
        else
          var at := old(lastSampleTime) + CrossTime(old(lastValue0), time - old(lastSampleTime), value) + AHEAD;
          && old(lastPulse) <= at < time + AHEAD
          && pulses == old(pulses) + if at - old(lastPulse) > SPACING then [Pulse(at, outputLevel)] else []
    {
      if value > 0 && lastValue0 <= 0 && (!lowFrequency || lastValue0 >= lastValue1) {
        var crossTime := lastSampleTime + CrossTime(lastValue0, time - lastSampleTime, value);
        var pulseTime := crossTime + AHEAD;
        assert pulseTime >= lastPulse;
        if pulseTime - lastPulse > SPACING {
          pulses := pulses + [Pulse(pulseTime, outputLevel)];
          lastPulse := pulseTime;
        }
      }
      lastValue1 := lastValue0;
      lastValue0 := value;
      lastSampleTime := time;
    }

    /** process_samples: a capture of samples taken at increasing times, after those of the captures before. The
        16-bit offset of a sample is no limit for captures of the 16 ms that are used. A signal within 6 of the zero
        point is ignored; any other causes pulses, in the sense of CausedIs. The level of all is 8 times the largest
        deviation, up to 1000. */
    method ProcessSamples(samples: seq<nat>, times: seq<nat>)
      requires Valid() && |samples| == |times| && (forall i | 0 <= i < |samples| :: samples[i] < 256)
      requires times != [] ==> times[0] > lastSampleTime
      requires forall i, j | 0 <= i < j < |times| :: times[i] < times[j]
      modifies this
      ensures Valid() && old(pulses) <= pulses
      ensures (forall x | 0 <= x < |samples| :: 127 - 6 <= samples[x] <= 127 + 6) ==> unchanged(this)
      ensures (exists x | 0 <= x < |samples| :: samples[x] < 127 - 6 || samples[x] > 127 + 6) ==>
                && CausedBy(old(pulses), pulses, old(lastValue1), old(lastValue0), old(lastSampleTime), samples, times)
                && lastValue0 == 127 - samples[|samples| - 1] as int
                && lastValue1 == (if |samples| == 1 then old(lastValue0) else 127 - samples[|samples| - 2] as int)
                && lastSampleTime == times[|times| - 1]
      ensures forall p, x | p in pulses[|old(pulses)|..] && 0 <= x < |samples| ::
                var d := samples[x] as int - 127;
                p.level == 1000 || (p.level >= 8 * d && p.level >= -8 * d)
      ensures forall p | p in pulses[|old(pulses)|..] ::
                exists x | 0 <= x < |samples| ::
                  var d := samples[x] as int - 127;
                  p.level <= 8 * d || p.level <= -8 * d
    {
      hide *;
      var lowFrequency, outputLevel := Measure(samples);
      if outputLevel < 50 {
        return;
      }
      IsCapturedAfter(lastSampleTime, times);
      ProcessAll(samples, times, lowFrequency, outputLevel);
    }

    /** The first loop over the samples, and what is made of it. */
    method Measure(samples: seq<nat>) returns (lowFrequency: bool, outputLevel: nat)
      requires forall i | 0 <= i < |samples| :: samples[i] < 256
      ensures lowFrequency == LowFrequency(samples)
      ensures outputLevel < 50 <==> forall x | 0 <= x < |samples| :: 127 - 6 <= samples[x] <= 127 + 6
      ensures forall x | 0 <= x < |samples| ::
                var d := samples[x] as int - 127;
                outputLevel == 1000 || (outputLevel >= 8 * d && outputLevel >= -8 * d)
      ensures outputLevel >= 50 ==>
                exists x | 0 <= x < |samples| ::
                  var d := samples[x] as int - 127;
                  outputLevel <= 8 * d || outputLevel <= -8 * d
      ensures outputLevel <= MAX_LEVEL
    {
      hide OutputLevel;
      var min: int, max: int, above: int, below: int := 32767, -32768, 0, 0;
      for x := 0 to |samples|
        invariant above + below == x && below == Below(samples[..x])
        invariant IsRange(samples[..x], min, max)
      {
        assert samples[..x + 1][..x] == samples[..x];
        if samples[x] > max {
          max := samples[x];
        }
        if samples[x] < min {
          min := samples[x];
        }
        if samples[x] < 128 {
          below := below + 1;
        } else {
          above := above + 1;
        }
      }
      assert samples[..|samples|] == samples;
      var zeroPoint := 127;
      lowFrequency := above - below > 50 || below - above > 50;
      outputLevel := OutputLevel(max, min, zeroPoint);
      LevelIs(samples, min, max);
    }

    /** The loop over the samples. */
    method ProcessAll(samples: seq<nat>, times: seq<nat>, lowFrequency: bool, outputLevel: nat)
      requires Valid() && |samples| == |times| > 0 && outputLevel <= MAX_LEVEL && IsCapture([lastSampleTime] + times)
      requires lowFrequency == LowFrequency(samples)
      modifies this
      ensures Valid() && old(pulses) <= pulses
      ensures CausedBy(old(pulses), pulses, old(lastValue1), old(lastValue0), old(lastSampleTime), samples, times)
      ensures forall p | p in pulses[|old(pulses)|..] :: p.level == outputLevel
      ensures lastValue0 == 127 - samples[|samples| - 1] as int
      ensures lastValue1 == if |samples| == 1 then old(lastValue0) else 127 - samples[|samples| - 2] as int
      ensures lastSampleTime == times[|times| - 1]
    {
      hide CrossTime, Caused, Crosses, CrossedAt, Spaced, LowFrequency, Signal;
      ghost var v, t := Signal(lastValue1, lastValue0, samples), [lastSampleTime] + times;
      NothingCaused(pulses, v, t, lowFrequency);
      var zeroPoint := 127;
      for x := 0 to |samples|
        invariant Valid() && lastValue1 == v[x] && lastValue0 == v[x + 1] && lastSampleTime == t[x]
        invariant old(pulses) <= pulses && forall p | p in pulses[|old(pulses)|..] :: p.level == outputLevel
        invariant Caused(old(pulses), pulses, v, t, lowFrequency, x)
      {
        ghost var before, last := pulses, lastPulse;
        var sample: int := samples[x];
        assert t[x] < t[x + 1] == times[x] && v[x + 2] == zeroPoint - sample;
        ProcessSample(times[x], zeroPoint - sample, lowFrequency, outputLevel);
        StepCaused(before, pulses, last, v, t, lowFrequency, outputLevel, x);
        CausedNext(old(pulses), before, pulses, v, t, lowFrequency, outputLevel, x);
      }
    }
  }
}

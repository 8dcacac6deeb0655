/** The fade arithmetic of wasapi_renderer.cpp over the reals: the smooth step, rounding to
    the nearest integer with ties to even, and the samples they produce. */
module Gain {
  import opened Words

  function Clamp(x: real, lo: real, hi: real): real {
    if x < lo then lo else if hi < x then hi else x
  }

  /** std::lrint in the default rounding mode. */
  function Lrint(x: real): int {
    var f := x.Floor;
    var d := x - f as real;
    if d < 0.5 then f else if d > 0.5 then f + 1 else if f % 2 == 0 then f else f + 1
  }

  function SmoothStep(x: real): real {
    var y := Clamp(x, 0.0, 1.0);
    Cubic(y)
  }

  function AbsReal(x: real): real { if x < 0.0 then -x else x }

  /** A sample times a gain. */
  function Scale(s: real, gain: real): real { s * gain }

  // --- Rounding ---------------------------------------------------------------------------

  lemma LrintNear(x: real)
    ensures AbsReal(Lrint(x) as real - x) <= 0.5
  {
  }

  /** A tie goes to the even neighbour. */
  lemma LrintTies(n: int)
    ensures Lrint(n as real + 0.5) == if n % 2 == 0 then n else n + 1
  {
    assert (n as real + 0.5).Floor == n;
  }

  lemma LrintOfInt(n: int)
    ensures Lrint(n as real) == n
  {
  }

  lemma LrintMonotone(x: real, y: real)
    requires x <= y
    ensures Lrint(x) <= Lrint(y)
  {
    assert x.Floor <= y.Floor;
  }

  /** Rounding adds at most one to a difference. */
  lemma LrintDifference(x: real, y: real)
    ensures (Abs(Lrint(x) - Lrint(y)) as real) <= AbsReal(x - y) + 1.0
  {
    LrintNear(x);
    LrintNear(y);
    hide Lrint;
  }

  // --- The smooth step --------------------------------------------------------------------

  lemma ProductNonNegative(a: real, b: real)
    requires a >= 0.0 && b >= 0.0
    ensures a * b >= 0.0
  {
  }

  lemma SquareNonNegative(a: real)
    ensures a * a >= 0.0
  {
    if a >= 0.0 {
      ProductNonNegative(a, a);
    } else {
      ProductNonNegative(-a, -a);
      assert (-a) * (-a) == a * a;
    }
  }

  /** The slope of a chord of the step, about the middle of the interval. */
  function Slope(x: real, y: real): real {
    1.5 - 2.0 * ((x - 0.5) * (x - 0.5) + (x - 0.5) * (y - 0.5) + (y - 0.5) * (y - 0.5))
  }

  function Cubic(y: real): real { y * y * (3.0 - 2.0 * y) }

  lemma ChordSlope(x: real, y: real)
    ensures Cubic(y) - Cubic(x) == (y - x) * Slope(x, y)
  {
  }

  lemma SlopeBounds(u: real, v: real)
    requires -0.5 <= u <= 0.5 && -0.5 <= v <= 0.5
    ensures 0.0 <= Slope(u + 0.5, v + 0.5) <= 1.5
  {
    SquareAtMostQuarter(u);
    SquareAtMostQuarter(v);
    SquareNonNegative(u - v);
    SquareNonNegative(u + v);
    assert (u - v) * (u - v) == u * u - 2.0 * (u * v) + v * v;
    assert (u + v) * (u + v) == u * u + 2.0 * (u * v) + v * v;
    assert Slope(u + 0.5, v + 0.5) == 1.5 - 2.0 * (u * u + u * v + v * v);
  }

  lemma SquareAtMostQuarter(u: real)
    requires -0.5 <= u <= 0.5
    ensures 0.0 <= u * u <= 0.25
  {
    SquareNonNegative(u);
    ProductNonNegative(0.5 - u, 0.5 + u);
    assert (0.5 - u) * (0.5 + u) == 0.25 - u * u;
  }

  /** The smooth step is monotone and 3/2-Lipschitz on [0, 1]. */
  lemma SmoothStepSlope(x: real, y: real)
    requires 0.0 <= x <= y <= 1.0
    ensures 0.0 <= SmoothStep(y) - SmoothStep(x) <= 1.5 * (y - x)
  {
    ChordSlope(x, y);
    SlopeBounds(x - 0.5, y - 0.5);
    hide Cubic, Slope;
    ChordBetween(Cubic(y) - Cubic(x), y - x, Slope(x, y));
  }

  lemma ChordBetween(rise: real, run: real, slope: real)
    requires run >= 0.0 && 0.0 <= slope <= 1.5 && rise == run * slope
    ensures 0.0 <= rise <= 1.5 * run
  {
    ProductBetween(run, slope, 1.5);
  }

  lemma ProductBetween(a: real, b: real, c: real)
    requires 0.0 <= a && 0.0 <= b <= c
    ensures 0.0 <= a * b <= a * c
  {
    ProductNonNegative(a, b);
    ProductNonNegative(a, c - b);
    assert a * (c - b) == a * c - a * b;
  }

  lemma SmoothStepRange(x: real)
    ensures SmoothStep(0.0) == 0.0 && SmoothStep(1.0) == 1.0
    ensures 0.0 <= SmoothStep(x) <= 1.0
  {
    assert Cubic(0.0) == 0.0 && Cubic(1.0) == 1.0;
    hide Cubic;
    var y := Clamp(x, 0.0, 1.0);
    SmoothStepSlope(0.0, y);
    SmoothStepSlope(y, 1.0);
  }

  function Flat(x: real): real { 3.0 * (x * x) }

  /** It is the same read backwards from its end, halfway in the middle, and lies flat at both
      ends: near them it is below three times the square of the distance. */
  lemma SmoothStepShape(x: real)
    requires 0.0 <= x <= 1.0
    ensures SmoothStep(1.0 - x) == 1.0 - SmoothStep(x)
    ensures SmoothStep(0.25) == 0.15625 && SmoothStep(0.5) == 0.5
    ensures 0.0 <= SmoothStep(x) <= Flat(x)
    ensures 0.0 <= 1.0 - SmoothStep(x) <= Flat(1.0 - x)
  {
    CubicIsSymmetric(x);
    CubicIsFlat(x);
    CubicIsFlat(1.0 - x);
    assert Cubic(0.25) == 0.15625 && Cubic(0.5) == 0.5;
    hide Cubic;
    SmoothStepRange(x);
  }

  lemma CubicIsSymmetric(x: real)
    ensures Cubic(1.0 - x) == 1.0 - Cubic(x)
  {
    var u := x * x;
    assert (1.0 - x) * (1.0 - x) == 1.0 - 2.0 * x + u;
    assert (1.0 - 2.0 * x + u) * (1.0 + 2.0 * x) == 1.0 - 4.0 * u + u + 2.0 * (u * x);
    assert Cubic(x) == 3.0 * u - 2.0 * (u * x);
  }

  lemma CubicIsFlat(x: real)
    requires 0.0 <= x
    ensures Cubic(x) <= Flat(x)
  {
    SquareNonNegative(x);
    ProductNonNegative(x * x, x);
    assert Cubic(x) == 3.0 * (x * x) - 2.0 * (x * x * x);
  }

  lemma SmoothStepMonotone(x: real, y: real)
    requires x <= y
    ensures SmoothStep(x) <= SmoothStep(y)
  {
    var u, v := Clamp(x, 0.0, 1.0), Clamp(y, 0.0, 1.0);
    assert SmoothStep(x) == SmoothStep(u) && SmoothStep(y) == SmoothStep(v);
    SmoothStepSlope(u, v);
  }

  // --- Fractions of a fade ------------------------------------------------------------------

  /** (double)k / (double)n */
  function Part(k: nat, n: nat): real
    requires n >= 1
  {
    k as real / n as real
  }

  lemma PartRange(k: nat, n: nat)
    requires n >= 1 && k <= n
    ensures 0.0 <= Part(k, n) <= 1.0
    ensures Part(n, n) == 1.0
    ensures Part(0, n) == 0.0
  {
    QuotientMonotone(k as real, n as real, n as real);
    QuotientMonotone(0.0, k as real, n as real);
  }

  lemma QuotientMonotone(a: real, b: real, c: real)
    requires a <= b && c > 0.0
    ensures a / c <= b / c
  {
    assert b / c - a / c == (b - a) / c;
  }

  lemma PartStep(k: nat, n: nat)
    requires n >= 1
    ensures Part(k + 1, n) - Part(k, n) == 1.0 / n as real > 0.0
  {
  }

  // --- Going from one sample to another -----------------------------------------------------

  /** Place `k` of `n` on the way from `a` to `b`. */
  function Blend(a: i16, b: i16, k: nat, n: nat): int
    requires n >= 1
  {
    Lrint(a as real + Scale(b as real - a as real, SmoothStep(Part(k, n))))
  }

  /** The largest step between consecutive frames of a fade over `n` places. */
  function StepBound(change: int, n: nat): real
    requires n >= 1
  {
    1.5 * (Abs(change) as real) / n as real + 1.0
  }

  /** `x` and `y` are at most one step of a fade from `a` to `b` over `n` places apart. */
  predicate StepApart(x: int, y: int, a: int, b: int, n: nat)
    requires n >= 1
  {
    (Abs(y - x) as real) <= StepBound(b - a, n)
  }

  /** Three times the change times the square of `k / n`, and half a unit of rounding. */
  function FlatBound(change: int, k: nat, n: nat): real
    requires n >= 1
  {
    Scale(Abs(change) as real, Flat(Part(k, n))) + 0.5
  }

  lemma BlendEnds(a: i16, b: i16, n: nat)
    requires n >= 1
    ensures Blend(a, b, 0, n) == a && Blend(a, b, n, n) == b
  {
    PartRange(0, n);
    SmoothStepRange(0.0);
    ScaledOrderAny(b as real - a as real, 0.0, 1.0);
    LrintOfInt(a);
    LrintOfInt(b);
    hide Lrint, Scale, SmoothStep, Part;
    assert a as real + (b as real - a as real) == b as real;
  }

  lemma ScaledOrderAny(d: real, less: real, more: real)
    requires 0.0 <= less <= more
    ensures d >= 0.0 ==> Scale(d, less) <= Scale(d, more)
    ensures d <= 0.0 ==> Scale(d, more) <= Scale(d, less)
    ensures Scale(d, 1.0) == d && Scale(d, 0.0) == 0.0
  {
    ScaledOrder(d, more, less);
  }

  /** One step of the way never turns back and is never longer than the bound. */
  lemma BlendSteps(a: i16, b: i16, k: nat, n: nat)
    requires k < n
    ensures a <= b ==> Blend(a, b, k, n) <= Blend(a, b, k + 1, n)
    ensures b <= a ==> Blend(a, b, k + 1, n) <= Blend(a, b, k, n)
    ensures (Abs(Blend(a, b, k + 1, n) - Blend(a, b, k, n)) as real) <= StepBound(b - a, n)
  {
    hide Lrint, SmoothStep, Part, Scale, StepBound;
    PartRange(k, n);
    PartRange(k + 1, n);
    PartStep(k, n);
    SmoothStepSlope(Part(k, n), Part(k + 1, n));
    SmoothStepRange(Part(k, n));
    MovedSamples(a, b, SmoothStep(Part(k, n)), SmoothStep(Part(k + 1, n)), 1.5 * (1.0 / n as real));
    StepBoundIs(b - a, n);
  }

  lemma StepBoundIs(change: int, n: nat)
    requires n >= 1
    ensures Scale(Abs(change) as real, 1.5 * (1.0 / n as real)) + 1.0 == StepBound(change, n) >= 1.0
  {
    SlackIs(Abs(change) as real, n as real);
  }

  lemma MovedSamples(a: i16, b: i16, s: real, t: real, slack: real)
    requires 0.0 <= s <= t && t - s <= slack
    ensures var d := b as real - a as real;
            var y, z := Lrint(a as real + Scale(d, s)), Lrint(a as real + Scale(d, t));
            && (a <= b ==> y <= z) && (b <= a ==> z <= y)
            && (Abs(z - y) as real) <= Scale(Abs(b - a) as real, slack) + 1.0
  {
    hide Lrint, Scale;
    var d := b as real - a as real;
    ScaledDistance(d, t, s, slack);
    ScaledOrderAny(d, s, t);
    var x, w := a as real + Scale(d, s), a as real + Scale(d, t);
    LrintDifference(w, x);
    assert AbsReal(d) == Abs(b - a) as real;
    if x <= w { LrintMonotone(x, w); }
    if w <= x { LrintMonotone(w, x); }
  }

  /** The way leaves `a` and reaches `b` gently: the first and last places are off by less
      than three times the change times the square of their distance to the end. */
  lemma BlendIsFlat(a: i16, b: i16, k: nat, n: nat)
    requires n >= 1 && k <= n
    ensures (Abs(Blend(a, b, k, n) - a) as real) <= FlatBound(b - a, k, n)
    ensures (Abs(Blend(a, b, k, n) - b) as real) <= FlatBound(b - a, n - k, n)
    ensures 2 * k == n ==> Abs(2 * Blend(a, b, k, n) - (a + b)) <= 1
  {
    hide Lrint, SmoothStep, Part, Scale, Flat;
    var p := Part(k, n);
    PartRange(k, n);
    PartRest(k, n);
    SmoothStepShape(p);
    NearEnds(a, b, SmoothStep(p), Flat(p), Flat(1.0 - p));
  }

  lemma NearEnds(a: i16, b: i16, t: real, fromA: real, fromB: real)
    requires 0.0 <= t <= fromA && 0.0 <= 1.0 - t <= fromB
    ensures var y := Lrint(a as real + Scale(b as real - a as real, t));
            && (Abs(y - a) as real) <= Scale(Abs(b - a) as real, fromA) + 0.5
            && (Abs(y - b) as real) <= Scale(Abs(b - a) as real, fromB) + 0.5
            && (t == 0.5 ==> Abs(2 * y - (a + b)) <= 1)
  {
    hide Lrint, Scale;
    var d := b as real - a as real;
    FlatScale(d, t, fromA);
    FlatScale(d, 1.0 - t, fromB);
    ScaleRest(d, t);
    LrintNear(a as real + Scale(d, t));
    assert AbsReal(d) == Abs(b - a) as real;
  }

  lemma ScaleRest(d: real, t: real)
    ensures Scale(d, 1.0 - t) == d - Scale(d, t)
    ensures Scale(d, 0.5) == d / 2.0
  {
  }

  lemma PartRest(k: nat, n: nat)
    requires n >= 1 && k <= n
    ensures Part(n - k, n) == 1.0 - Part(k, n)
    ensures 2 * k == n ==> Part(k, n) == 0.5
  {
    QuotientRest(k as real, n as real);
  }

  lemma QuotientRest(a: real, c: real)
    requires c > 0.0
    ensures (c - a) / c == 1.0 - a / c
    ensures 2.0 * a == c ==> a / c == 0.5
  {
    assert c / c == 1.0;
    assert (c - a) / c == c / c - a / c;
  }

  lemma FlatScale(d: real, gain: real, bound: real)
    requires 0.0 <= gain <= bound
    ensures AbsReal(Scale(d, gain)) <= Scale(AbsReal(d), bound)
  {
    ProductBetween(AbsReal(d), gain, bound);
    if d < 0.0 {
      assert (-d) * gain == -(d * gain);
    }
  }

  // --- Fading out an underrun ---------------------------------------------------------------

  /** The gain of fill frame `frame` of a fade of `fade` frames. */
  function FadeOutGain(frame: nat, fade: nat): real
    requires fade >= 1
  {
    1.0 - SmoothStep(Part(frame + 1, fade))
  }

  /** The sample of fill frame `frame` when the sound stopped at `start`. */
  function FillSample(start: i16, frame: nat, fade: nat): int
    requires fade >= 1
  {
    if frame < fade then Lrint(Scale(start as real, FadeOutGain(frame, fade))) else 0
  }

  /** The sample before fill frame `frame`: the last one played, for the first. */
  function BeforeFill(start: i16, frame: nat, fade: nat): int
    requires fade >= 1
  {
    if frame == 0 then start else FillSample(start, frame - 1, fade)
  }

  lemma GainStep(frame: nat, fade: nat)
    requires 1 <= frame < fade
    ensures 0.0 <= FadeOutGain(frame - 1, fade) - FadeOutGain(frame, fade) <= 1.5 * (1.0 / fade as real)
    ensures 0.0 <= FadeOutGain(frame, fade) && FadeOutGain(frame - 1, fade) <= 1.0
  {
    PartRange(frame, fade);
    PartRange(frame + 1, fade);
    PartStep(frame, fade);
    SmoothStepSlope(Part(frame, fade), Part(frame + 1, fade));
    SmoothStepRange(Part(frame, fade));
    SmoothStepRange(Part(frame + 1, fade));
  }

  lemma FirstGain(fade: nat)
    requires fade >= 1
    ensures 0.0 <= FadeOutGain(0, fade) <= 1.0
    ensures 1.0 - FadeOutGain(0, fade) <= 1.5 * (1.0 / fade as real)
    ensures FadeOutGain(fade - 1, fade) == 0.0
  {
    PartRange(0, fade);
    PartRange(1, fade);
    PartRange(fade, fade);
    PartStep(0, fade);
    SmoothStepSlope(Part(0, fade), Part(1, fade));
    SmoothStepRange(Part(1, fade));
  }

  /** Scaling by two gains that differ little gives samples that differ little; the smaller
      gain never gives the larger magnitude, and neither changes the sign. */
  lemma ScaledSamples(start: i16, larger: real, smaller: real, slack: real)
    requires 0.0 <= smaller <= larger && larger - smaller <= slack
    ensures var a, b := Lrint(Scale(start as real, larger)), Lrint(Scale(start as real, smaller));
            && Abs(b) <= Abs(a)
            && (start >= 0 ==> 0 <= b <= a) && (start <= 0 ==> a <= b <= 0)
            && (Abs(b - a) as real) <= Scale(Abs(start) as real, slack) + 1.0
  {
    ScaledDistance(start as real, larger, smaller, slack);
    ScaledOrder(start as real, larger, smaller);
    hide Lrint, Scale;
    RoundedPair(Scale(start as real, larger), Scale(start as real, smaller));
  }

  lemma RoundedPair(x: real, y: real)
    requires 0.0 <= y <= x || x <= y <= 0.0
    ensures var a, b := Lrint(x), Lrint(y);
            && (0.0 <= y <= x ==> 0 <= b <= a) && (x <= y <= 0.0 ==> a <= b <= 0)
            && (Abs(b - a) as real) <= AbsReal(y - x) + 1.0
  {
    LrintOfInt(0);
    LrintDifference(y, x);
    hide Lrint;
    if 0.0 <= y <= x {
      LrintMonotone(0.0, y);
      LrintMonotone(y, x);
    }
    if x <= y <= 0.0 {
      LrintMonotone(y, 0.0);
      LrintMonotone(x, y);
    }
  }

  lemma ScaledDistance(s: real, larger: real, smaller: real, slack: real)
    requires 0.0 <= smaller <= larger && larger - smaller <= slack
    ensures AbsReal(Scale(s, smaller) - Scale(s, larger)) <= Scale(AbsReal(s), slack)
  {
    var d := larger - smaller;
    assert Scale(s, smaller) - Scale(s, larger) == -(s * d);
    ProductBetween(AbsReal(s), d, slack);
    if s < 0.0 {
      assert (-s) * d == -(s * d);
    }
  }

  lemma ScaledOrder(s: real, larger: real, smaller: real)
    requires 0.0 <= smaller <= larger
    ensures s >= 0.0 ==> 0.0 <= Scale(s, smaller) <= Scale(s, larger)
    ensures s <= 0.0 ==> Scale(s, larger) <= Scale(s, smaller) <= 0.0
    ensures Scale(s, 1.0) == s && Scale(s, 0.0) == 0.0
  {
    if s >= 0.0 {
      ProductBetween(s, smaller, larger);
    } else {
      ProductBetween(-s, smaller, larger);
      assert (-s) * smaller == -(s * smaller) && (-s) * larger == -(s * larger);
    }
  }

  lemma SlackIs(a: real, f: real)
    requires f > 0.0 && a >= 0.0
    ensures a * (1.5 * (1.0 / f)) == 1.5 * a / f >= 0.0
  {
    QuotientMonotone(0.0, a, f);
  }

  /** The underrun fade, frame by frame and across the seam with what was last played: the
      magnitude never grows, consecutive frames differ by at most 1.5 |start| / F + 1, and
      the fade ends at exactly zero. */
  lemma UnderrunSlew(start: i16, frame: nat, fade: nat)
    requires fade >= 1
    ensures var before, now := BeforeFill(start, frame, fade), FillSample(start, frame, fade);
            && Abs(now) <= Abs(before) <= Abs(start)
            && (Abs(now - before) as real) <= StepBound(start, fade)
            && (frame >= fade - 1 ==> now == 0)
    decreases frame
  {
    var slack := 1.5 * (1.0 / fade as real);
    StepBoundIs(start, fade);
    FirstGain(fade);
    ScaledOrder(start as real, 1.0, 0.0);
    LrintOfInt(0);
    LrintOfInt(start);
    hide Lrint, FadeOutGain, StepBound, Scale;
    if frame == 0 {
      ScaledSamples(start, 1.0, FadeOutGain(0, fade), slack);
    } else {
      UnderrunSlew(start, frame - 1, fade);
      if frame < fade {
        GainStep(frame, fade);
        ScaledSamples(start, FadeOutGain(frame - 1, fade), FadeOutGain(frame, fade), slack);
      }
    }
  }

  /** A filled sample is a 16-bit sample. */
  lemma FillFits(start: i16, frame: nat, fade: nat)
    requires fade >= 1
    ensures -0x8000 <= FillSample(start, frame, fade) < 0x8000
  {
    if frame < fade {
      GainRange(frame, fade);
      UnitGain(start, FadeOutGain(frame, fade));
    }
  }

  lemma GainRange(frame: nat, fade: nat)
    requires frame < fade
    ensures 0.0 <= FadeOutGain(frame, fade) <= 1.0
  {
    PartRange(frame + 1, fade);
    SmoothStepRange(Part(frame + 1, fade));
  }

  lemma UnitGain(sample: i16, gain: real)
    requires 0.0 <= gain <= 1.0
    ensures var y := Lrint(Scale(sample as real, gain));
            && Abs(y) <= Abs(sample)
            && (sample >= 0 ==> 0 <= y <= sample) && (sample <= 0 ==> sample <= y <= 0)
            && (gain == 1.0 ==> y == sample)
  {
    ScaledOrder(sample as real, 1.0, gain);
    LrintOfInt(sample);
    hide Lrint, Scale;
    ScaledSamples(sample, 1.0, gain, 1.0);
  }

  // --- Fading in and crossfading ------------------------------------------------------------

  /** A sample of frame `frame` of a fade-in over `fade` frames. */
  function FadeInSample(sample: i16, frame: nat, fade: nat): int {
    if frame < fade then Lrint(Scale(sample as real, SmoothStep(Part(frame + 1, fade)))) else sample
  }

  /** Fading in never enlarges a sample, flips its sign or leaves the 16-bit range, and the
      last frame of the fade is played as it is. */
  lemma FadeInShrinks(sample: i16, frame: nat, fade: nat)
    ensures var y := FadeInSample(sample, frame, fade);
            && Abs(y) <= Abs(sample)
            && (sample >= 0 ==> y >= 0) && (sample <= 0 ==> y <= 0)
            && -0x8000 <= y < 0x8000
            && (frame + 1 >= fade ==> y == sample)
  {
    if frame < fade {
      PartRange(frame + 1, fade);
      SmoothStepRange(Part(frame + 1, fade));
      hide Lrint, Scale;
      UnitGain(sample, SmoothStep(Part(frame + 1, fade)));
    }
  }

  /** The crossfaded sample of frame `frame`, from `a` before the splice to `b` after it. */
  function Crossfade(a: i16, b: i16, frame: nat, fade: nat): int {
    Lrint(a as real + Scale(b as real - a as real, SmoothStep(Part(frame + 1, fade + 1))))
  }

  /** A crossfaded sample lies between its two source samples. */
  lemma CrossfadeBetween(a: i16, b: i16, frame: nat, fade: nat)
    requires frame < fade
    ensures Min(a, b) <= Crossfade(a, b, frame, fade) <= Max(a, b)
  {
    var t := SmoothStep(Part(frame + 1, fade + 1));
    PartRange(frame + 1, fade + 1);
    SmoothStepRange(Part(frame + 1, fade + 1));
    ScaledOrder(b as real - a as real, 1.0, t);
    LrintOfInt(a);
    LrintOfInt(b);
    hide Lrint, SmoothStep, Part, Scale;
    var x := a as real + Scale(b as real - a as real, t);
    if a <= b {
      LrintMonotone(a as real, x);
      LrintMonotone(x, b as real);
    } else {
      LrintMonotone(b as real, x);
      LrintMonotone(x, a as real);
    }
  }

  // --- The shape of the fades ---------------------------------------------------------------

  /** A fade-in starts next to silence and reaches the sound step by step: frame `frame` is
      place frame + 1 of the way from 0 to the sample. */
  lemma FadeInRises(sample: i16, frame: nat, fade: nat)
    requires frame < fade
    ensures var y := FadeInSample(sample, frame, fade);
            && (Abs(y) as real) <= FlatBound(sample, frame + 1, fade)
            && (Abs(y - sample) as real) <= FlatBound(sample, fade - frame - 1, fade)
            && (frame == 0 ==> (Abs(y) as real) <= StepBound(sample, fade))
            && (frame + 1 < fade ==>
                  && Abs(y) <= Abs(FadeInSample(sample, frame + 1, fade))
                  && (Abs(FadeInSample(sample, frame + 1, fade) - y) as real) <= StepBound(sample, fade))
  {
    hide Blend, FadeInSample, FlatBound, StepBound;
    FadeInIsBlend(sample, frame, fade);
    BlendIsFlat(0, sample, frame + 1, fade);
    BlendSteps(0, sample, frame, fade);
    BlendEnds(0, sample, fade);
    FadeInShrinks(sample, frame, fade);
    if frame + 1 < fade {
      FadeInIsBlend(sample, frame + 1, fade);
      FadeInShrinks(sample, frame + 1, fade);
      BlendSteps(0, sample, frame + 1, fade);
    }
  }

  lemma FadeInIsBlend(sample: i16, frame: nat, fade: nat)
    requires frame < fade
    ensures FadeInSample(sample, frame, fade) == Blend(0, sample, frame + 1, fade)
  {
  }

  /** An underrun fade leaves the last sound and reaches silence as gently. */
  lemma FadeOutIsFlat(start: i16, frame: nat, fade: nat)
    requires frame < fade
    ensures var y := FillSample(start, frame, fade);
            && (Abs(y - start) as real) <= FlatBound(start, frame + 1, fade)
            && (Abs(y) as real) <= FlatBound(start, fade - frame - 1, fade)
            && (2 * (frame + 1) == fade ==> Abs(2 * y - start) <= 1)
  {
    hide Blend, FillSample, FlatBound;
    FillIsBlend(start, frame, fade);
    BlendIsFlat(start, 0, frame + 1, fade);
    SameChange(start, frame + 1, fade);
    SameChange(start, fade - frame - 1, fade);
  }

  lemma SameChange(start: i16, k: nat, n: nat)
    requires n >= 1
    ensures FlatBound(0 - start, k, n) == FlatBound(start, k, n)
  {
  }

  lemma FillIsBlend(start: i16, frame: nat, fade: nat)
    requires frame < fade
    ensures FillSample(start, frame, fade) == Blend(start, 0, frame + 1, fade)
  {
    var s, t := start as real, SmoothStep(Part(frame + 1, fade));
    assert s * (1.0 - t) == s + (0.0 - s) * t;
  }

  /** The sample before crossfade frame `frame` for fixed sources: the earlier source itself,
      for the first. */
  function BeforeCrossfade(a: i16, b: i16, frame: nat, fade: nat): int {
    if frame == 0 then a else Crossfade(a, b, frame - 1, fade)
  }

  /** The crossfade leads from `a` to `b`: it leaves `a` and reaches `b` within one step of
      the bound, and between frames it moves towards `b` by at most that step. */
  lemma CrossfadeSeam(a: i16, b: i16, frame: nat, fade: nat)
    requires frame < fade
    ensures var before, y := BeforeCrossfade(a, b, frame, fade), Crossfade(a, b, frame, fade);
            && (a <= b ==> before <= y) && (b <= a ==> y <= before)
            && StepApart(before, y, a, b, fade + 1)
            && (frame + 1 == fade ==> StepApart(y, b, a, b, fade + 1))
  {
    hide Blend, Crossfade, StepBound;
    BlendSteps(a, b, frame, fade + 1);
    BlendSteps(a, b, fade, fade + 1);
    BlendEnds(a, b, fade + 1);
    CrossfadeIsBlend(a, b, frame, fade);
    CrossfadeIsBlend(a, b, if frame == 0 then 0 else frame - 1, fade);
  }

  lemma CrossfadeIsBlend(a: i16, b: i16, frame: nat, fade: nat)
    ensures Crossfade(a, b, frame, fade) == Blend(a, b, frame + 1, fade + 1)
  {
  }

  /** And it does so gently, passing the middle in the middle. */
  lemma CrossfadeIsFlat(a: i16, b: i16, frame: nat, fade: nat)
    requires frame < fade
    ensures var y := Crossfade(a, b, frame, fade);
            && (Abs(y - a) as real) <= FlatBound(b - a, frame + 1, fade + 1)
            && (Abs(y - b) as real) <= FlatBound(b - a, fade - frame, fade + 1)
            && (2 * (frame + 1) == fade + 1 ==> Abs(2 * y - (a + b)) <= 1)
  {
    hide Blend, Crossfade, FlatBound;
    CrossfadeIsBlend(a, b, frame, fade);
    BlendIsFlat(a, b, frame + 1, fade + 1);
  }
}

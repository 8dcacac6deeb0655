/** The latency control of wasapi_renderer.cpp: the target speed, the ramped speed, and how
    many frames a callback takes from the ring for the frames it plays. */
module CatchUp {
  import opened Words
  import opened Gain

  /** std::ceil */
  function Ceil(x: real): int { -((-x).Floor) }

  // --- Speed ------------------------------------------------------------------------------

  /** Milliseconds of audio held by `buffered` samples at `rate` samples a second. */
  function CachedMs(buffered: nat, rate: nat): real
    requires rate >= 1
  {
    buffered as real / rate as real * 1000.0
  }

  function Exponent(x: real, protect: real, baseline: real): real
    requires baseline > 0.0
  {
    x * x * x * protect / baseline
  }

  /** The speed aimed at: exp(x^3 * protect / baseline) for a backlog x baselines above the
      protected latency, within 1 and the maximum. */
  function TargetSpeed(exp: real -> real, buffered: nat, rate: nat, baseline: u32, protect: u32, maxSpeed: real): real
    requires rate >= 1
  {
    if baseline == 0 then Clamp(1.0, 1.0, maxSpeed)
    else
      var x := (CachedMs(buffered, rate) - protect as real) / baseline as real;
      Clamp(if x > 0.0 then exp(Exponent(x, protect as real, baseline as real)) else 1.0, 1.0, maxSpeed)
  }

  /** The speed climbs by at most 0.02 a callback and falls at once. */
  function NextSpeed(current: real, target: real): real {
    if target > current
    then if target < current + 0.02 then target else current + 0.02
    else target
  }

  function MaxSpeed(permille: u32): real { permille as real / 1000.0 }

  lemma SpeedStaysInRange(exp: real -> real, current: real, buffered: nat, rate: nat,
                          baseline: u32, protect: u32, maxSpeed: real)
    requires rate >= 1 && current >= 1.0 && maxSpeed >= 1.0
    ensures var next := NextSpeed(current, TargetSpeed(exp, buffered, rate, baseline, protect, maxSpeed));
            1.0 <= next <= maxSpeed && next <= current + 0.02
  {
  }

  /** The new speed is the greatest that is neither above the target nor more than 0.02 above
      the speed before, so a lower target is followed at once. */
  lemma SpeedFollowsTarget(current: real, target: real)
    ensures var next := NextSpeed(current, target);
            && next <= target && next <= current + 0.02
            && (next == target || next == current + 0.02)
    ensures target <= current ==> NextSpeed(current, target) == target
  {
  }

  /** With a constant target, the speed after `n` callbacks. */
  function Ramp(current: real, target: real, n: nat): real {
    if n == 0 then current else NextSpeed(Ramp(current, target, n - 1), target)
  }

  /** A raised target is reached along a straight line of slope 0.02, and then held. */
  lemma {:induction false} RampIsStraight(current: real, target: real, n: nat)
    requires current <= target
    ensures Ramp(current, target, n)
            == if current + 0.02 * n as real < target then current + 0.02 * n as real else target
    decreases n
  {
    if n > 0 { RampIsStraight(current, target, n - 1); }
  }

  /** With a monotone exponential and exp(0) = 1, a larger backlog never lowers the target,
      and a backlog within the protected latency is played at normal speed. */
  lemma TargetGrowsWithBacklog(exp: real -> real, less: nat, more: nat, rate: nat,
                               baseline: u32, protect: u32, maxSpeed: real)
    requires forall x, y :: x <= y ==> exp(x) <= exp(y)
    requires exp(0.0) == 1.0 && rate >= 1 && maxSpeed >= 1.0 && less <= more
    ensures TargetSpeed(exp, less, rate, baseline, protect, maxSpeed)
            <= TargetSpeed(exp, more, rate, baseline, protect, maxSpeed)
    ensures CachedMs(less, rate) <= protect as real ==>
              TargetSpeed(exp, less, rate, baseline, protect, maxSpeed) == 1.0
  {
    if baseline > 0 {
      var p, b := protect as real, baseline as real;
      var x, y := (CachedMs(less, rate) - p) / b, (CachedMs(more, rate) - p) / b;
      QuotientMonotone(less as real, more as real, rate as real);
      QuotientMonotone(CachedMs(less, rate) - p, CachedMs(more, rate) - p, b);
      if CachedMs(less, rate) <= p {
        QuotientMonotone(CachedMs(less, rate) - p, 0.0, b);
      }
      hide Exponent, CachedMs;
      if x > 0.0 {
        ExponentMonotone(x, y, p, b);
      } else if y > 0.0 {
        ExponentMonotone(0.0, y, p, b);
      }
    }
  }

  /** `buffered` samples are `k` baselines above the protected latency. */
  predicate BacklogIs(buffered: nat, rate: nat, baseline: u32, protect: u32, k: real) {
    (buffered * 1000) as real == rate as real * (protect as real + k * baseline as real)
  }

  /** The exact target `k` baselines above the protected latency: exp(e), within the limits,
      where e is k cubed times the protected latency over the baseline. */
  lemma TargetAtBacklog(exp: real -> real, buffered: nat, rate: nat, baseline: u32, protect: u32,
                        maxSpeed: real, k: real, e: real)
    requires rate >= 1 && baseline >= 1 && k > 0.0 && BacklogIs(buffered, rate, baseline, protect, k)
    requires e * baseline as real == k * k * k * protect as real
    ensures TargetSpeed(exp, buffered, rate, baseline, protect, maxSpeed) == Clamp(exp(e), 1.0, maxSpeed)
  {
    hide Clamp, CachedMs, Exponent;
    MillisecondsAbove(buffered, rate, baseline as real, protect as real, k);
    ExponentIs(k, protect as real, baseline as real, e);
  }

  lemma ExponentIs(k: real, p: real, b: real, e: real)
    requires b > 0.0 && e * b == k * k * k * p
    ensures Exponent(k, p, b) == e
  {
    QuotientCancels(b, e);
  }

  lemma MillisecondsAbove(buffered: nat, rate: nat, b: real, p: real, k: real)
    requires rate >= 1 && b > 0.0 && (buffered * 1000) as real == rate as real * (p + k * b)
    ensures (CachedMs(buffered, rate) - p) / b == k
  {
    var n, r := buffered as real, rate as real;
    assert n * 1000.0 == r * (p + k * b);
    assert n / r * 1000.0 == (n * 1000.0) / r;
    QuotientCancels(r, p + k * b);
    QuotientCancels(b, k);
    assert k * b == b * k;
  }

  lemma QuotientCancels(c: real, x: real)
    requires c > 0.0
    ensures (c * x) / c == x
  {
  }

  /** How many baselines above the protected latency a backlog is. */
  function Above(buffered: nat, rate: nat, baseline: u32, protect: u32): real
    requires rate >= 1 && baseline >= 1
  {
    (CachedMs(buffered, rate) - protect as real) / baseline as real
  }

  /** Every backlog is some number of baselines above the protected latency, or below it. */
  lemma BacklogIsSome(buffered: nat, rate: nat, baseline: u32, protect: u32)
    requires rate >= 1 && baseline >= 1
    ensures BacklogIs(buffered, rate, baseline, protect, Above(buffered, rate, baseline, protect))
  {
    var n, r, b, p := buffered as real, rate as real, baseline as real, protect as real;
    var ms := CachedMs(buffered, rate);
    QuotientUndone(n, r);
    QuotientUndone(ms - p, b);
    assert r * ms == (r * (n / r)) * 1000.0;
  }

  lemma QuotientUndone(x: real, c: real)
    requires c > 0.0
    ensures (x / c) * c == x && c * (x / c) == x
  {
  }

  /** With a strictly growing exponential, any backlog above the protected latency raises the
      target above normal speed, and none within it does. */
  lemma TargetRaisedIff(exp: real -> real, buffered: nat, rate: nat, baseline: u32, protect: u32, maxSpeed: real)
    requires forall x, y :: x < y ==> exp(x) < exp(y)
    requires exp(0.0) == 1.0 && rate >= 1 && maxSpeed > 1.0
    ensures TargetSpeed(exp, buffered, rate, baseline, protect, maxSpeed) > 1.0
            <==> baseline >= 1 && protect >= 1 && buffered * 1000 > rate * protect
  {
    if baseline >= 1 {
      var k := Above(buffered, rate, baseline, protect);
      BacklogIsSome(buffered, rate, baseline, protect);
      AboveIsPositive(buffered, rate, baseline, protect, k);
      hide Above, BacklogIs;
      if k > 0.0 {
        var e := Exponent(k, protect as real, baseline as real);
        ExponentSign(k, protect as real, baseline as real);
        TargetAtBacklog(exp, buffered, rate, baseline, protect, maxSpeed, k, e);
      }
    }
  }

  lemma AboveIsPositive(buffered: nat, rate: nat, baseline: u32, protect: u32, k: real)
    requires rate >= 1 && baseline >= 1 && BacklogIs(buffered, rate, baseline, protect, k)
    ensures k > 0.0 <==> buffered * 1000 > rate * protect
    ensures Above(buffered, rate, baseline, protect) == k
  {
    MillisecondsAbove(buffered, rate, baseline as real, protect as real, k);
    var r, b := rate as real, baseline as real;
    assert r * (protect as real + k * b) == r * protect as real + r * b * k;
    assert (rate * protect) as real == r * protect as real;
    ProductSign(r, b);
    ProductSign(r * b, k);
  }

  lemma ProductSign(a: real, k: real)
    requires a > 0.0
    ensures a * k > 0.0 <==> k > 0.0
  {
  }

  lemma QuotientSign(x: real, b: real)
    requires b > 0.0
    ensures (x / b >= 0.0 <==> x >= 0.0) && (x / b > 0.0 <==> x > 0.0)
  {
  }

  lemma ExponentSign(k: real, p: real, b: real)
    requires k > 0.0 && p >= 0.0 && b > 0.0
    ensures Exponent(k, p, b) >= 0.0 && (Exponent(k, p, b) > 0.0 <==> p > 0.0)
    ensures Exponent(k, p, b) * b == k * k * k * p
  {
    CubePositive(k);
    ShareSign(k * k * k, p, b);
    QuotientUndone(k * k * k * p, b);
  }

  lemma CubePositive(k: real)
    requires k > 0.0
    ensures k * k * k > 0.0
  {
  }

  lemma ShareSign(cube: real, p: real, b: real)
    requires cube > 0.0 && p >= 0.0 && b > 0.0
    ensures cube * p / b >= 0.0 && (cube * p / b > 0.0 <==> p > 0.0)
  {
    ProductSign(cube, p);
    QuotientSign(cube * p, b);
  }

  /** A backlog of at least `k` baselines above the protected latency aims at 1 + g or the
      limit, if k cubed times the protected latency is g baselines or more; for an exponential
      that lies above its tangent at 0, as the real one does. */
  lemma TargetReaches(exp: real -> real, buffered: nat, rate: nat, baseline: u32, protect: u32,
                      maxSpeed: real, k: real, g: real)
    requires forall y :: exp(y) >= 1.0 + y
    requires rate >= 1 && baseline >= 1 && k > 0.0 && g > 0.0 && maxSpeed >= 1.0
    requires (buffered * 1000) as real >= rate as real * (protect as real + k * baseline as real)
    requires k * k * k * protect as real >= g * baseline as real
    ensures TargetSpeed(exp, buffered, rate, baseline, protect, maxSpeed) >= if 1.0 + g < maxSpeed then 1.0 + g else maxSpeed
  {
    var p, b, x := protect as real, baseline as real, Above(buffered, rate, baseline, protect);
    BacklogIsSome(buffered, rate, baseline, protect);
    FartherAbove(buffered, rate as real, b, p, k, x);
    hide Above, BacklogIs;
    ExponentMonotone(k, x, p, b);
    ExponentSign(x, p, b);
    ExponentSign(k, p, b);
    ExponentReaches(Exponent(k, p, b), b, g);
    TargetAtBacklog(exp, buffered, rate, baseline, protect, maxSpeed, x, Exponent(x, p, b));
  }

  lemma FartherAbove(buffered: nat, r: real, b: real, p: real, k: real, x: real)
    requires r > 0.0 && b > 0.0 && (buffered * 1000) as real == r * (p + x * b)
    requires (buffered * 1000) as real >= r * (p + k * b)
    ensures x >= k
  {
    if x < k {
      ProductLess(b, x, k);
      ProductLess(r, p + x * b, p + k * b);
    }
  }

  lemma ProductLess(c: real, x: real, y: real)
    requires c > 0.0 && x < y
    ensures c * x < c * y
  {
    ProductSign(c, y - x);
    assert c * (y - x) == c * y - c * x;
  }

  lemma ExponentReaches(e: real, b: real, g: real)
    requires b > 0.0 && e * b >= g * b
    ensures e >= g
  {
    if e < g {
      ProductLess(b, e, g);
    }
  }

  lemma ExponentMonotone(x: real, y: real, p: real, b: real)
    requires 0.0 <= x <= y && p >= 0.0 && b > 0.0
    ensures Exponent(x, p, b) <= Exponent(y, p, b)
    ensures Exponent(0.0, p, b) == 0.0
  {
    CubeMonotone(x, y);
    ProductBetween(p, x * x * x, y * y * y);
    QuotientMonotone(x * x * x * p, y * y * y * p, b);
  }

  lemma CubeMonotone(x: real, y: real)
    requires 0.0 <= x <= y
    ensures 0.0 <= x * x * x <= y * y * y
  {
    ProductsOrdered(x, y, x, y);
    ProductsOrdered(x * x, y * y, x, y);
  }

  lemma ProductsOrdered(a: real, b: real, c: real, d: real)
    requires 0.0 <= a <= b && 0.0 <= c <= d
    ensures 0.0 <= a * c <= b * d
  {
    ProductBetween(a, c, d);
    ProductBetween(d, a, b);
    assert a * d == d * a && b * d == d * b;
  }

  // --- Frames -----------------------------------------------------------------------------

  /** Frames taken from the ring to play `request` frames, with `available` buffered. */
  function ConsumedFrames(request: nat, available: nat, speed: real): nat {
    if speed <= 1.001 || available <= request then Min(request, available)
    else TargetFrames(request, available, speed)
  }

  /** targetInputFrames, clamped between the request and what is available. */
  function TargetFrames(request: nat, available: nat, speed: real): nat {
    var target := Ceil(request as real * speed);
    if target < request then request else if available < target then available else target
  }

  /** Frames beyond the request are taken exactly when the speed is above 1.001 and they are
      there: then the request times the speed, rounded up to a whole frame, or all there is. */
  lemma ConsumedIs(request: nat, available: nat, speed: real)
    requires request >= 1 && speed >= 1.0
    ensures var c := ConsumedFrames(request, available, speed);
            && (c > request <==> speed > 1.001 && available > request)
            && (c <= request ==> c == Min(request, available))
            && (c > request ==>
                  && c <= available && (c as real) < request as real * speed + 1.0
                  && (c as real >= request as real * speed || c == available))
  {
    if speed > 1.001 && available > request {
      CompressingConsumesMore(request, available, speed, speed);
    }
  }

  /** While the speed is above 1.001 and more than one request is buffered, a callback takes
      strictly more frames than it plays, but no more than the maximum speed accounts for. */
  lemma CompressingConsumesMore(request: nat, available: nat, speed: real, maxSpeed: real)
    requires request >= 1 && 1.001 < speed <= maxSpeed && available > request
    ensures request < ConsumedFrames(request, available, speed) <= available
    ensures ConsumedFrames(request, available, speed) <= Ceil(request as real * maxSpeed)
  {
    var r := request as real;
    ProductNonNegative(r, speed - 1.001);
    ProductNonNegative(r, maxSpeed - speed);
    assert r * (speed - 1.001) == r * speed - r * 1.001;
    assert r * (maxSpeed - speed) == r * maxSpeed - r * speed;
    CeilMonotone(r * speed, r * maxSpeed);
    assert r * speed > r;
    CeilAbove(r * speed, request);
    hide Ceil;
  }

  lemma CeilMonotone(x: real, y: real)
    requires x <= y
    ensures Ceil(x) <= Ceil(y)
  {
  }

  lemma CeilAbove(x: real, n: int)
    requires x > n as real
    ensures Ceil(x) >= n + 1
  {
  }

  /** One callback: frames asked for, and frames the producer adds before and after the
      renderer looks at the ring. */
  datatype Callback = Callback(request: nat, target: real, early: nat, late: nat)

  /** The backlog in frames and the speed between callbacks. */
  datatype Player = Player(backlog: nat, speed: real)

  function AfterCallback(p: Player, c: Callback): Player {
    var speed := NextSpeed(p.speed, c.target);
    var available := p.backlog + c.early;
    Player(available - ConsumedFrames(c.request, available, speed) + c.late, speed)
  }

  function AfterCallbacks(p: Player, cs: seq<Callback>): Player {
    if cs == [] then p else AfterCallback(AfterCallbacks(p, cs[..|cs| - 1]), cs[|cs| - 1])
  }

  lemma CallbacksAppend(p: Player, cs: seq<Callback>, c: Callback)
    ensures AfterCallbacks(p, cs + [c]) == AfterCallback(AfterCallbacks(p, cs), c)
  {
    assert (cs + [c])[..|cs|] == cs;
  }

  /** The speed is above 1.001, more than a request is buffered, and the producer adds no
      more than one request. */
  predicate CatchingUp(p: Player, c: Callback) {
    && c.request >= 1
    && NextSpeed(p.speed, c.target) > 1.001
    && p.backlog + c.early > c.request
    && c.early + c.late <= c.request
  }

  predicate AllCatchingUp(p: Player, cs: seq<Callback>) {
    forall i :: 0 <= i < |cs| ==> CatchingUp(AfterCallbacks(p, cs[..i]), cs[i])
  }

  /** As long as that holds the backlog strictly falls, so it cannot hold for more callbacks
      than there were frames of backlog. */
  lemma {:induction false} CatchUpTerminates(p: Player, cs: seq<Callback>)
    requires AllCatchingUp(p, cs)
    ensures AfterCallbacks(p, cs).backlog + |cs| <= p.backlog
    decreases |cs|
  {
    if cs != [] {
      var init, c := cs[..|cs| - 1], cs[|cs| - 1];
      assert AllCatchingUp(p, init) by {
        forall i | 0 <= i < |init| ensures CatchingUp(AfterCallbacks(p, init[..i]), init[i]) {
          assert init[..i] == cs[..i];
        }
      }
      CatchUpTerminates(p, init);
      var q := AfterCallbacks(p, init);
      var speed := NextSpeed(q.speed, c.target);
      CompressingConsumesMore(c.request, q.backlog + c.early, speed, speed);
    }
  }

  // --- Whole runs of callbacks ----------------------------------------------------------------

  /** A producer that keeps to one request a callback never raises the backlog above what it
      was, or one request. */
  lemma BacklogIsHeld(p: Player, c: Callback)
    requires c.early + c.late <= c.request
    ensures AfterCallback(p, c).backlog <= Max(p.backlog, c.request)
  {
  }

  /** From a backlog of `bound` frames on the callback catches up. */
  predicate CatchesUpFrom(p: Player, c: Callback, bound: nat) {
    && 1 <= c.request < bound && c.early + c.late <= c.request
    && (p.backlog >= bound ==> NextSpeed(p.speed, c.target) > 1.001)
  }

  /** Then a backlog above the bound is worked off within as many callbacks as it has frames
      too many, and stays below the bound from there on. */
  lemma {:induction false} BacklogComesDown(p: Player, cs: seq<Callback>, bound: nat)
    requires forall i :: 0 <= i < |cs| ==> CatchesUpFrom(AfterCallbacks(p, cs[..i]), cs[i], bound)
    ensures AfterCallbacks(p, cs).backlog < bound || AfterCallbacks(p, cs).backlog + |cs| <= p.backlog
    decreases |cs|
  {
    if cs != [] {
      var init, c := cs[..|cs| - 1], cs[|cs| - 1];
      forall i | 0 <= i < |init| ensures CatchesUpFrom(AfterCallbacks(p, init[..i]), init[i], bound) {
        assert init[..i] == cs[..i];
      }
      BacklogComesDown(p, init, bound);
      var q := AfterCallbacks(p, init);
      assert CatchesUpFrom(q, c, bound);
      hide AfterCallbacks;
      if q.backlog >= bound {
        CompressingConsumesMore(c.request, q.backlog + c.early, NextSpeed(q.speed, c.target), NextSpeed(q.speed, c.target));
      } else {
        BacklogIsHeld(q, c);
      }
    }
  }

  /** A backlog high enough starts the catching up in the very next callback. */
  lemma CatchUpStarts(current: real, target: real, maxSpeed: real)
    requires current >= 1.0 && maxSpeed > 1.001
    requires target >= if 1.002 < maxSpeed then 1.002 else maxSpeed
    ensures NextSpeed(current, target) > 1.001
  {
  }
}

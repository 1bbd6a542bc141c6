/**
 The arithmetic of the cycle-counter clock: scaled division, the piecewise-linear estimate, and the
 calibration step that replaces one time sample by the next.
 */
module ClockSample {
  import opened Machine

  const K_SCALE := 30
  const MIN_NS_BETWEEN_SAMPLES := 2_097_152_000

  // ----- Overflow tests -----

  /** The test "multiply in 64 bits, divide back, compare" detects exactly the products that wrap. */
  lemma DivideBackTest(x: nat, m: nat)
    requires 0 < m <= TWO_64
    ensures (x * m) % TWO_64 / m == x <==> x * m < TWO_64
  {
    var p := x * m;
    var r := p % TWO_64;
    if p < TWO_64 {
      assert r == p;
      NatDivision(p, m);
      DivModUnique(p, m, x, 0);
    } else {
      assert r <= p - TWO_64;
      NatDivision(r, m);
      BelowProduct(r, x, m, r / m);
    }
  }

  lemma BelowProduct(r: nat, x: nat, m: nat, q: int)
    requires r + m <= x * m && m * q <= r && m > 0
    ensures q < x
  {
    if q >= x {
      ProductBound(x, m, q, m);
    }
  }

  // ----- Scaled division -----

  /** The largest shift up to s for which a does not overflow. */
  function ShiftUpTo(a: uint64, s: nat): (k: nat)
    ensures k <= s && a * Pow2(k) < TWO_64
    ensures forall j :: k < j <= s ==> a * Pow2(j) >= TWO_64
  {
    if a * Pow2(s) < TWO_64 then s
    else ShiftUpTo(a, s - 1)
  }

  function SafeShift(a: uint64): (k: nat)
    ensures k <= K_SCALE
  {
    ShiftUpTo(a, K_SCALE)
  }

  /** Unsigned division in which a zero divisor gives zero. */
  function QuotientOrZero(x: uint64, y: nat): (q: uint64)
    ensures q == if y == 0 then 0 else x / y
  {
    if y == 0 then 0
    else
      NatDivision(x, y);
      x / y
  }

  function ShiftRight(x: nat, k: nat): (r: nat)
    ensures r == x / Pow2(k) && r <= x
  {
    NatDivision(x, Pow2(k));
    x / Pow2(k)
  }

  /** (a << kScale) / b with the divisor pre-shifted when the dividend would overflow. */
  function DivideAndScale(a: uint64, b: uint64): uint64 {
    QuotientOrZero(ScaledUp(a), ShiftRight(b, K_SCALE - SafeShift(a)))
  }

  function ScaledUp(a: uint64): (x: uint64)
    ensures x == a * Pow2(SafeShift(a))
  {
    hide Pow2;
    assert 0 <= a * Pow2(SafeShift(a));
    a * Pow2(SafeShift(a))
  }

  method SafeDivideAndScale(a: uint64, b: uint64) returns (quotient: uint64)
    ensures quotient == DivideAndScale(a, b)
  {
    hide ShiftRight, QuotientOrZero, Pow2;
    var safeShift: nat := K_SCALE;
    ShiftTest(a, safeShift);
    while ShiftRight(Wrap64(a * Pow2(safeShift)), safeShift) != a
      invariant 0 <= safeShift <= K_SCALE
      invariant SafeShift(a) == ShiftUpTo(a, safeShift)
      decreases safeShift
    {
      ShiftTest(a, safeShift);
      safeShift := safeShift - 1;
    }
    ShiftTest(a, safeShift);
    var scaledB := ShiftRight(b, K_SCALE - safeShift);
    quotient := 0;
    if scaledB != 0 {
      quotient := QuotientOrZero(Wrap64(a * Pow2(safeShift)), scaledB);
    }
  }

  lemma ShiftTest(a: uint64, s: nat)
    requires s <= K_SCALE
    ensures ShiftRight(Wrap64(a * Pow2(s)), s) == a <==> a * Pow2(s) < TWO_64
    ensures s == 0 ==> a * Pow2(s) < TWO_64
    ensures a * Pow2(s) < TWO_64 ==> Wrap64(a * Pow2(s)) == a * Pow2(s)
    ensures a * Pow2(s) >= TWO_64 ==> s > 0 && ShiftUpTo(a, s) == ShiftUpTo(a, s - 1)
    ensures a * Pow2(s) < TWO_64 ==> ShiftUpTo(a, s) == s
    ensures 0 <= a * Pow2(s)
  {
    Pow2Values();
    Pow2Monotone(s, 64);
    DivideBackTest(a, Pow2(s));
  }

  // ----- How good scaled division is -----

  /**
   With b' the pre-shifted divisor, the result q of SafeDivideAndScale(a, b) brackets the true
   quotient: floor(a * 2^30 / b) <= q <= (a * 2^30 / b) * (b' + 1) / b'. Without a pre-shift it is
   exact.
   */
  lemma DivideAndScaleBounds(a: uint64, b: uint64)
    requires ShiftRight(b, K_SCALE - SafeShift(a)) != 0
    ensures b > 0
    ensures a * Pow2(K_SCALE) / b <= DivideAndScale(a, b)
    ensures var c := ShiftRight(b, K_SCALE - SafeShift(a));
      DivideAndScale(a, b) * c * b <= a * Pow2(K_SCALE) * (c + 1)
    ensures SafeShift(a) == K_SCALE ==> DivideAndScale(a, b) == a * Pow2(K_SCALE) / b
  {
    hide Pow2, SafeShift;
    var s := SafeShift(a);
    var c := ShiftRight(b, K_SCALE - s);
    BoundsForShift(a, b, s, c, DivideAndScale(a, b));
  }

  /** The shift is the largest up to 30 that does not overflow, and a divisor it reduces to nothing gives zero. */
  lemma SafeShiftIsLargest(a: uint64, b: uint64)
    ensures SafeShift(a) <= 30 && a * Pow2(SafeShift(a)) < TWO_64
    ensures SafeShift(a) < 30 ==> a * Pow2(SafeShift(a) + 1) >= TWO_64
    ensures b < Pow2(30 - SafeShift(a)) ==> DivideAndScale(a, b) == 0
  {
    hide Pow2;
    if b < Pow2(30 - SafeShift(a)) {
      DivModUnique(b, Pow2(30 - SafeShift(a)), 0, b);
    }
  }

  lemma BoundsForShift(a: nat, b: nat, s: nat, c: nat, q: nat)
    requires s <= K_SCALE
    requires c == b / Pow2(K_SCALE - s) && c != 0
    requires q == a * Pow2(s) / c
    ensures b > 0
    ensures a * Pow2(K_SCALE) / b <= q
    ensures q * c * b <= a * Pow2(K_SCALE) * (c + 1)
    ensures s == K_SCALE ==> q == a * Pow2(K_SCALE) / b
  {
    Pow2Sum(s, K_SCALE - s);
    FullShiftIsExact(b, s);
    hide Pow2;
    BoundsForPowers(a, b, Pow2(s), Pow2(K_SCALE - s), c, q);
  }

  lemma BoundsForPowers(a: nat, b: nat, p: nat, d: nat, c: nat, q: nat)
    requires d > 0 && c == b / d && c != 0 && q == a * p / c
    ensures b > 0 && 0 <= a * (p * d)
    ensures a * (p * d) / b <= q
    ensures q * c * b <= a * (p * d) * (c + 1)
  {
    NatDivision(b, d);
    ProductBound(a, p, a, p);
    ScaledQuotientBounds(a * p, d, b, c, q);
    MulAssociates(a, p, d);
  }

  /** At the full shift the divisor is not shifted at all. */
  lemma FullShiftIsExact(b: nat, s: nat)
    requires s <= K_SCALE
    ensures s == K_SCALE ==> b / Pow2(K_SCALE - s) == b
  {
    Pow2Zero();
    DivideByOne(b);
    hide Pow2;
  }

  lemma MulAssociates(x: int, y: int, z: int)
    ensures x * y * z == x * (y * z)
  {
  }

  lemma ScaledQuotientBounds(x: nat, d: nat, b: nat, c: nat, q: nat)
    requires d > 0 && c > 0
    requires d * c <= b < d * c + d
    requires q == x / c
    ensures b > 0
    ensures x * d / b <= q
    ensures q * c * b <= x * d * (c + 1)
  {
    NatDivision(x, c);
    MulAtLeast(d, c);
    NatDivision(x * d, b);
    FloorBelow(x, d, b, c, q, x * d / b);
    UpperBound(x, d, b, c, q);
  }

  lemma FloorBelow(x: nat, d: nat, b: nat, c: nat, q: nat, t: int)
    requires d > 0 && c > 0 && d * c <= b
    requires b * t <= x * d
    requires x < c * q + c
    ensures t <= q
  {
    assert d * (x + 1) == x * d + d;
    assert d * c * (q + 1) == d * (c * q + c);
    ProductBound(d, x + 1, d, c * q + c);
    if t > q {
      ProductBound(d * c, q + 1, b, t);
    }
  }

  lemma UpperBound(x: nat, d: nat, b: nat, c: nat, q: nat)
    requires b < d * c + d
    requires c * q <= x
    ensures q * c * b <= x * d * (c + 1)
  {
    ProductBound(q * c, b, x, d * c + d);
    assert x * (d * c + d) == x * d * (c + 1);
  }

  // ----- Samples -----

  /** One sample of the time base and the slope that extrapolates from it. */
  datatype Sample = Sample(
    rawNs: uint64,            // kernel time
    baseNs: uint64,           // estimated time
    baseCycles: uint64,       // cycle counter reading
    nsscaledPerCycle: uint64, // slope, in units of 2^-30 ns per cycle
    minCyclesPerSample: uint64)

  const ZERO_SAMPLE := Sample(0, 0, 0, 0, 0)

  /**
   What one slow-path call reads from outside: the counter, the kernel clock, and the value the
   machine yields for a shift by a negative count, which the language leaves undefined.
   */
  datatype Reading = Reading(nowCycles: uint64, nowNs: uint64, undefinedShift: uint64)

  /** base_ns + ((delta_cycles * nsscaled_per_cycle) >> kScale), in 64-bit arithmetic. */
  function Interpolated(sample: Sample, deltaCycles: uint64): uint64 {
    Wrap64(sample.baseNs + ShiftRight(Wrap64(deltaCycles * sample.nsscaledPerCycle), K_SCALE))
  }

  function DeltaCycles(sample: Sample, nowCycles: uint64): uint64 {
    Wrap64(nowCycles - sample.baseCycles)
  }

  /** No recent sample, or a clock went backwards. */
  predicate MustRestart(sample: Sample, r: Reading) {
    || sample.rawNs == 0
    || Wrap64(sample.rawNs + 5_000_000_000) < r.nowNs
    || r.nowNs < sample.rawNs
    || r.nowCycles < sample.baseCycles
  }

  /** Enough time has passed to measure the cycle time. */
  predicate CanCalibrate(sample: Sample, r: Reading) {
    && Wrap64(sample.rawNs + 500_000_000) < r.nowNs
    && Wrap64(sample.baseCycles + 50) < r.nowCycles
  }

  /** The cycle count shifted right by s, times the slope, without wrapping. */
  function ShiftedProduct(delta: nat, slope: nat, s: nat): nat {
    ShiftRight(delta, s) * slope
  }

  /** The first shift from s on for which the shifted product does not wrap. */
  function ShiftFrom(deltaCycles: uint64, slope: uint64, s: nat): (k: nat)
    requires s <= 63
    ensures s <= k <= 63 && ShiftedProduct(deltaCycles, slope, k) < TWO_64
    ensures forall j :: s <= j < k ==> ShiftedProduct(deltaCycles, slope, j) >= TWO_64
    decreases 63 - s
  {
    TopBit(deltaCycles, slope);
    if s == 63 || ShiftedProduct(deltaCycles, slope, s) < TWO_64 then s
    else ShiftFrom(deltaCycles, slope, s + 1)
  }

  lemma TopBit(x: uint64, slope: uint64)
    ensures 0 <= ShiftRight(x, 63) <= 1
    ensures ShiftedProduct(x, slope, 63) < TWO_64
  {
    Pow2Values();
  }

  /** The time estimate at deltaCycles after the sample, shifting first as far as needed not to wrap. */
  function Extrapolated(sample: Sample, r: Reading): uint64
    requires sample.nsscaledPerCycle != 0
  {
    var delta := DeltaCycles(sample, r.nowCycles);
    var s := ShiftFrom(delta, sample.nsscaledPerCycle, 0);
    var scaled := ShiftedProduct(delta, sample.nsscaledPerCycle, s);
    Wrap64(sample.baseNs + if s <= K_SCALE then ShiftRight(scaled, K_SCALE - s) else r.undefinedShift)
  }

  /** The kernel time minus the estimate, read as a signed number. */
  function DiffNs(nowNs: uint64, estimate: uint64): int64 {
    DecodeTwosComp(Wrap64(nowNs - estimate))
  }

  /** The slope that would correct fifteen sixteenths of the error by the next sample. */
  function CorrectingSlope(sample: Sample, r: Reading, diffNs: int64): uint64 {
    var measured := DivideAndScale(Wrap64(r.nowNs - sample.rawNs), DeltaCycles(sample, r.nowCycles));
    var assumedCycles := DivideAndScale(MIN_NS_BETWEEN_SAMPLES, measured);
    DivideAndScale(Wrap64(MIN_NS_BETWEEN_SAMPLES + diffNs - TruncDiv(diffNs, 16)), assumedCycles)
  }

  /** Two's-complement negation, which leaves INT64_MIN unchanged. */
  function WrappingNegate(x: int64): int64 {
    DecodeTwosComp(Wrap64(0 - x))
  }

  predicate SlopeAccepted(slope: uint64, diffNs: int64) {
    slope != 0 && diffNs < 100_000_000 && WrappingNegate(diffNs) < 100_000_000
  }

  function BaseEstimate(sample: Sample, r: Reading): uint64 {
    if sample.nsscaledPerCycle != 0 then Extrapolated(sample, r) else r.nowNs
  }

  /** The sample that follows a calibration attempt. */
  function Calibrated(sample: Sample, r: Reading): Sample {
    var estimate := BaseEstimate(sample, r);
    var diff := DiffNs(r.nowNs, estimate);
    var slope := CorrectingSlope(sample, r, diff);
    if SlopeAccepted(slope, diff) then
      Sample(r.nowNs, estimate, r.nowCycles, slope, DivideAndScale(MIN_NS_BETWEEN_SAMPLES, slope))
    else
      Sample(r.nowNs, r.nowNs, r.nowCycles, 0, 0)
  }

  /** The sample that replaces the given one when the slow path takes the reading r. */
  function NextSample(sample: Sample, r: Reading): Sample {
    if MustRestart(sample, r) then Sample(r.nowNs, r.nowNs, r.nowCycles, 0, 0)
    else if CanCalibrate(sample, r) then Calibrated(sample, r)
    else sample
  }

  /** The time reported by the slow path when it updates. */
  function Estimate(sample: Sample, r: Reading): uint64 {
    if MustRestart(sample, r) || !CanCalibrate(sample, r) then r.nowNs
    else Calibrated(sample, r).baseNs
  }

  // ----- What every reachable sample satisfies -----

  /** The slope and the sampling interval cannot overflow the fast path's product. */
  predicate SlopeIsSafe(sample: Sample) {
    sample.nsscaledPerCycle * sample.minCyclesPerSample <= MIN_NS_BETWEEN_SAMPLES * Pow2(K_SCALE)
  }

  /** The estimate is within 100 ms of the kernel time it was taken with. */
  predicate BaseIsClose(sample: Sample) {
    var diff := DiffNs(sample.rawNs, sample.baseNs);
    -100_000_000 < diff < 100_000_000 || diff == INT64_MIN
  }

  predicate Reachable(sample: Sample) {
    SlopeIsSafe(sample) && BaseIsClose(sample)
  }

  lemma ZeroSampleReachable()
    ensures Reachable(ZERO_SAMPLE)
  {
  }

  /** The guard on the error accepts exactly errors below 100 ms -- and the one whose negation wraps. */
  lemma AcceptedError(slope: uint64, diffNs: int64)
    ensures SlopeAccepted(slope, diffNs) <==>
      slope != 0 && (-100_000_000 < diffNs < 100_000_000 || diffNs == INT64_MIN)
  {
    NegationWraps(diffNs);
    hide WrappingNegate;
  }

  lemma NegationWraps(x: int64)
    ensures WrappingNegate(x) == if x == INT64_MIN then x else -x
  {
    WrapOfNegative(x);
    hide Wrap64;
  }

  lemma WrapOfNegative(x: int64)
    ensures Wrap64(0 - x) == if x <= 0 then 0 - x else TWO_64 - x
  {
  }

  lemma IntervalTimesSlope(slope: uint64)
    ensures DivideAndScale(MIN_NS_BETWEEN_SAMPLES, slope) * slope <= MIN_NS_BETWEEN_SAMPLES * Pow2(K_SCALE)
    ensures slope != 0 ==>
      DivideAndScale(MIN_NS_BETWEEN_SAMPLES, slope) == MIN_NS_BETWEEN_SAMPLES * Pow2(K_SCALE) / slope
  {
    Pow2Values();
    assert SafeShift(MIN_NS_BETWEEN_SAMPLES) == K_SCALE;
    Pow2Zero();
    hide Pow2;
    if slope != 0 {
      NatDivision(MIN_NS_BETWEEN_SAMPLES * Pow2(K_SCALE), slope);
    }
  }

  /** Every update keeps the sample reachable, whatever the clocks say. */
  lemma NextSampleReachable(sample: Sample, r: Reading)
    requires Reachable(sample)
    ensures Reachable(NextSample(sample, r))
  {
    hide Pow2;
    if !MustRestart(sample, r) && CanCalibrate(sample, r) {
      var estimate := BaseEstimate(sample, r);
      var diff := DiffNs(r.nowNs, estimate);
      var slope := CorrectingSlope(sample, r, diff);
      hide CorrectingSlope, BaseEstimate, DivideAndScale;
      AcceptedError(slope, diff);
      IntervalTimesSlope(slope);
    }
  }

  /** The result is the sample's line at deltaCycles, no product wrapped, and the line is still short. */
  predicate IsExactInterpolation(sample: Sample, deltaCycles: uint64, result: uint64) {
    && 0 <= deltaCycles * sample.nsscaledPerCycle < TWO_64
    && 0 <= deltaCycles * sample.nsscaledPerCycle / Pow2(K_SCALE) < MIN_NS_BETWEEN_SAMPLES
    && result == Wrap64(sample.baseNs + deltaCycles * sample.nsscaledPerCycle / Pow2(K_SCALE))
  }

  /** On the fast path the product never wraps and the estimate advances by less than an interval. */
  lemma FastPathIsExact(sample: Sample, deltaCycles: uint64)
    requires Reachable(sample) && deltaCycles < sample.minCyclesPerSample
    ensures IsExactInterpolation(sample, deltaCycles, Interpolated(sample, deltaCycles))
  {
    hide Pow2, BaseIsClose, ShiftRight;
    ProductBelow(deltaCycles, sample.minCyclesPerSample, sample.nsscaledPerCycle, MIN_NS_BETWEEN_SAMPLES * Pow2(K_SCALE));
    ScaledOffset(deltaCycles * sample.nsscaledPerCycle);
  }

  lemma ProductBelow(x: nat, y: nat, slope: nat, bound: int)
    requires x < y && slope * y <= bound && bound > 0
    ensures 0 <= x * slope < bound
  {
  }

  lemma ScaledOffset(p: nat)
    requires p < MIN_NS_BETWEEN_SAMPLES * Pow2(K_SCALE)
    ensures p < TWO_64
    ensures ShiftRight(Wrap64(p), K_SCALE) == p / Pow2(K_SCALE)
    ensures 0 <= p / Pow2(K_SCALE) < MIN_NS_BETWEEN_SAMPLES
  {
    Pow2Values();
    hide Pow2;
  }

  // ----- Where one line segment ends the next begins -----

  /** Rounding up of x / y. */
  function CeilDiv(x: nat, y: nat): nat
    requires y > 0
  {
    (x + y - 1) / y
  }

  /** The old line's advance over delta cycles, computed exactly and rounded down once. */
  function ExactAdvance(delta: nat, slope: nat): nat {
    ShiftRight(delta * slope, K_SCALE)
  }

  /** The advance as computed after shifting the cycle count right by s first. */
  function ShiftedAdvance(delta: nat, slope: nat, s: nat): nat
    requires s <= K_SCALE
  {
    ShiftRight(ShiftedProduct(delta, slope, s), K_SCALE - s)
  }

  /** Shifting first loses at most the slope over the dropped cycles, rounded up. */
  lemma ShiftedAdvanceError(delta: nat, slope: nat, s: nat)
    requires s <= K_SCALE
    ensures ExactAdvance(delta, slope) - CeilDiv(Pow2(s) * slope, Pow2(K_SCALE))
      <= ShiftedAdvance(delta, slope, s) <= ExactAdvance(delta, slope)
    ensures s == 0 ==> ShiftedAdvance(delta, slope, s) == ExactAdvance(delta, slope)
  {
    Pow2Sum(s, K_SCALE - s);
    Pow2Zero();
    hide Pow2;
    ShiftedQuotient(delta, slope, Pow2(s), Pow2(K_SCALE - s));
    if s == 0 {
      DivideByOne(delta);
    }
  }

  lemma DivideByOne(x: nat)
    ensures x / 1 == x
  {
  }

  lemma ShiftedQuotient(delta: nat, slope: nat, p: nat, c: nat)
    requires p > 0 && c > 0
    ensures p * c > 0
    ensures delta / p * slope / c <= delta * slope / (p * c) <= delta / p * slope / c + CeilDiv(p * slope, p * c)
  {
    NatDivision(delta, p);
    var d, r := delta / p, delta % p;
    SplitProduct(delta, p, d, r, slope);
    CommonFactor(d * slope, c, p);
    ProductBound(r, slope, p, slope);
    AdvanceGap(p * (d * slope), r * slope, p * slope, p * c);
  }

  lemma SplitProduct(delta: nat, p: nat, d: nat, r: nat, slope: nat)
    requires delta == p * d + r
    ensures delta * slope == p * (d * slope) + r * slope
    ensures 0 <= d * slope && 0 <= r * slope && 0 <= p * (d * slope)
  {
  }

  /** A common factor of dividend and divisor cancels. */
  lemma CommonFactor(x: nat, c: nat, p: nat)
    requires c > 0 && p > 0
    ensures p * c > 0 && p * x / (p * c) == x / c
  {
    NatDivision(x, c);
    MulAtLeast(p, c);
    var q, r := x / c, x % c;
    assert p * x == p * c * q + p * r;
    ProductBound(p, r, p, c - 1);
    assert p * (c - 1) == p * c - p;
    DivModUnique(p * x, p * c, q, p * r);
  }

  lemma AdvanceGap(x: nat, e: nat, bound: nat, m: nat)
    requires m > 0 && e <= bound
    ensures x / m <= (x + e) / m <= x / m + (bound + m - 1) / m
  {
    NatDivision(x, m);
    NatDivision(x + e, m);
    NatDivision(bound + m - 1, m);
    GapOfQuotients(x, e, bound, m, x / m, (x + e) / m, (bound + m - 1) / m);
  }

  lemma GapOfQuotients(x: nat, e: nat, bound: nat, m: nat, a: int, b: int, c: int)
    requires m > 0 && e <= bound
    requires m * a <= x < m * a + m
    requires m * b <= x + e < m * b + m
    requires bound <= m * c
    ensures a <= b <= a + c
  {
    assert m * (a + c) == m * a + m * c;
    if a > b {
      MultipleStep(m, b, a);
    } else if b > a + c {
      MultipleStep(m, a + c, b);
    }
  }

  lemma MultipleStep(m: nat, a: int, b: int)
    requires b > a
    ensures m * b >= m * a + m
  {
    MulAtLeast(m, b - a);
  }

  /** The shift count that extrapolating from the sample needs. */
  function NeededShift(sample: Sample, nowCycles: uint64): nat {
    ShiftFrom(DeltaCycles(sample, nowCycles), sample.nsscaledPerCycle, 0)
  }

  lemma ShiftRightStep(x: nat, j: nat, k: nat)
    requires j <= k
    ensures ShiftRight(x, k) <= ShiftRight(x, j)
  {
    Pow2Monotone(j, k);
    hide Pow2;
    SmallerQuotient(x, Pow2(j), Pow2(k));
  }

  lemma SmallerQuotient(x: nat, m: nat, n: nat)
    requires 0 < m <= n
    ensures x / n <= x / m
  {
    NatDivision(x, m);
    NatDivision(x, n);
    if x / n > x / m {
      ProductBound(m, x / n, n, x / n);
      MultipleStep(m, x / m, x / n);
    }
  }

  /**
   Where a new slope accepted on top of an old one starts: on the old line as the fast path computes
   it if the product fits 64 bits. Provided the shift loop stops by 30, which is when
   (delta >> 30) * slope fits, it starts at the shifted advance, and this is on the exact line if and
   only if what the shift drops is rounded away anyway.
   */
  lemma SegmentsMeet(sample: Sample, r: Reading)
    requires !MustRestart(sample, r) && CanCalibrate(sample, r)
    requires sample.nsscaledPerCycle != 0 && NextSample(sample, r).nsscaledPerCycle != 0
    ensures var delta, slope := DeltaCycles(sample, r.nowCycles), sample.nsscaledPerCycle;
      var s := NeededShift(sample, r.nowCycles);
      var exact := Wrap64(sample.baseNs + ExactAdvance(delta, slope));
      && (s == 0 <==> delta * slope < TWO_64)
      && (s == 0 ==> NextSample(sample, r).baseNs == Interpolated(sample, delta))
      && (s <= K_SCALE <==> ShiftedProduct(delta, slope, K_SCALE) < TWO_64)
      && (s <= K_SCALE ==>
            NextSample(sample, r).baseNs == Wrap64(sample.baseNs + ShiftedAdvance(delta, slope, s)))
      && (s <= K_SCALE ==>
            (NextSample(sample, r).baseNs == exact <==> LossIsRoundedAway(delta, slope, s)))
  {
    hide NextSample, ShiftedAdvance, ExactAdvance, LossIsRoundedAway, DeltaCycles, ShiftFrom, ShiftedProduct;
    hide Interpolated, MustRestart, CanCalibrate, Extrapolated, Pow2, Wrap64;
    var delta, slope := DeltaCycles(sample, r.nowCycles), sample.nsscaledPerCycle;
    var s := NeededShift(sample, r.nowCycles);
    NeededShiftFacts(delta, slope, s);
    AcceptedBase(sample, r);
    InterpolatedUnwrapped(sample, delta);
    UnfoldExtrapolated(sample, r);
    if s <= K_SCALE {
      WrappedAdvances(sample.baseNs, delta, slope, s);
    }
  }

  /** The two advances are too close for wrapping to make them meet. */
  lemma WrappedAdvances(base: uint64, delta: nat, slope: uint64, s: nat)
    requires s <= K_SCALE
    ensures Wrap64(base + ShiftedAdvance(delta, slope, s)) == Wrap64(base + ExactAdvance(delta, slope))
        <==> LossIsRoundedAway(delta, slope, s)
  {
    AdvancesAreClose(delta, slope, s);
    ShiftedAdvanceIsExact(delta, slope, s);
    hide ShiftedAdvance, ExactAdvance, LossIsRoundedAway;
    CloseWraps(base, ShiftedAdvance(delta, slope, s), ExactAdvance(delta, slope));
  }

  lemma AdvancesAreClose(delta: nat, slope: uint64, s: nat)
    requires s <= K_SCALE
    ensures ShiftedAdvance(delta, slope, s) <= ExactAdvance(delta, slope) <= ShiftedAdvance(delta, slope, s) + slope
  {
    Pow2Monotone(s, K_SCALE);
    hide Pow2, ShiftedAdvance, ExactAdvance, CeilDiv;
    ShiftedAdvanceError(delta, slope, s);
    LossBelowSlope(Pow2(s), Pow2(K_SCALE), slope);
  }

  lemma CloseWraps(base: uint64, a: nat, e: nat)
    requires a <= e < a + TWO_64
    ensures Wrap64(base + a) == Wrap64(base + e) <==> a == e
  {
  }

  lemma LossBelowSlope(p: nat, m: nat, slope: nat)
    requires 0 < p <= m
    ensures CeilDiv(p * slope, m) <= slope
  {
    ProductBound(p, slope, m, slope);
    NatDivision(p * slope + m - 1, m);
    var c := CeilDiv(p * slope, m);
    if c > slope {
      MultipleStep(m, slope, c);
    }
  }

  /** What the shift drops, in units of 2^-30 ns, still fits into the part that is rounded away. */
  predicate LossIsRoundedAway(delta: nat, slope: nat, s: nat)
    requires s <= K_SCALE
  {
    ShiftedProduct(delta, slope, s) % Pow2(K_SCALE - s) * Pow2(s) + delta % Pow2(s) * slope < Pow2(K_SCALE)
  }

  /** Shifting first gives the exact advance if and only if its loss is rounded away. */
  lemma ShiftedAdvanceIsExact(delta: nat, slope: nat, s: nat)
    requires s <= K_SCALE
    ensures ShiftedAdvance(delta, slope, s) == ExactAdvance(delta, slope) <==> LossIsRoundedAway(delta, slope, s)
  {
    Pow2Sum(s, K_SCALE - s);
    hide Pow2;
    QuotientWithLoss(delta, slope, Pow2(s), Pow2(K_SCALE - s));
  }

  lemma QuotientWithLoss(delta: nat, slope: nat, p: nat, c: nat)
    requires p > 0 && c > 0
    ensures p * c > 0
    ensures delta / p * slope / c == delta * slope / (p * c)
        <==> delta / p * slope % c * p + delta % p * slope < p * c
  {
    NatDivision(delta, p);
    var d, r := delta / p, delta % p;
    SplitProduct(delta, p, d, r, slope);
    NatDivision(d * slope, c);
    var q, t := d * slope / c, d * slope % c;
    MulAtLeast(p, c);
    Regroup(p, c, q, t);
    RoundedQuotient(delta * slope, p * c, q, t * p + r * slope);
  }

  lemma Regroup(p: nat, c: nat, q: nat, t: nat)
    ensures p * (c * q + t) == p * c * q + t * p
    ensures 0 <= t * p
  {
  }

  lemma RoundedQuotient(a: nat, m: nat, q: nat, rest: nat)
    requires m > 0 && a == m * q + rest
    ensures q == a / m <==> rest < m
  {
    NatDivision(a, m);
    if rest < m {
      DivModUnique(a, m, q, rest);
    }
  }

  // ----- The guards leave no gap -----

  /** The estimate is within 100 ms of the kernel time it was taken with, without exception. */
  predicate Trusted(sample: Sample) {
    -100_000_000 < DiffNs(sample.rawNs, sample.baseNs) < 100_000_000
  }

  /** The reading replaces a slope by another. */
  predicate ReplacesSlope(sample: Sample, r: Reading) {
    && !MustRestart(sample, r) && CanCalibrate(sample, r)
    && sample.nsscaledPerCycle != 0 && NextSample(sample, r).nsscaledPerCycle != 0
  }

  /** The two cases in which the guards tell nothing: the error that negation keeps, and an undefined shift. */
  predicate GuardsFail(sample: Sample, r: Reading) {
    && ReplacesSlope(sample, r)
    && (DiffNs(r.nowNs, Extrapolated(sample, r)) == INT64_MIN || NeededShift(sample, r.nowCycles) > K_SCALE)
  }

  /** A shift in the loop's defined range means an advance of more than eleven seconds. */
  lemma NeededShiftIsLong(delta: uint64, slope: uint64)
    requires 0 < ShiftFrom(delta, slope, 0) <= K_SCALE
    ensures 11_000_000_000 <= ShiftedAdvance(delta, slope, ShiftFrom(delta, slope, 0)) < TWO_64
  {
    var s := ShiftFrom(delta, slope, 0);
    assert ShiftedProduct(delta, slope, s - 1) >= TWO_64;
    hide ShiftFrom, Pow2, ShiftRight, ShiftedAdvance;
    LongAdvance(delta, slope, s);
  }

  lemma LongAdvance(delta: nat, slope: uint64, s: nat)
    requires 0 < s <= K_SCALE
    requires ShiftRight(delta, s - 1) * slope >= TWO_64 > ShiftRight(delta, s) * slope
    ensures 11_000_000_000 <= ShiftedAdvance(delta, slope, s) < TWO_64
  {
    hide Pow2, ShiftRight, ShiftedAdvance;
    var x, y := ShiftRight(delta, s), ShiftRight(delta, s - 1);
    HalvedOnce(delta, s);
    DoubledProduct(x, y, slope);
    ScalePower(K_SCALE - s);
    AdvanceAsQuotient(delta, slope, s);
    LongQuotient(x * slope, Pow2(K_SCALE - s));
  }

  lemma DoubledProduct(x: nat, y: nat, slope: uint64)
    requires y <= 2 * x + 1 && y * slope >= TWO_64
    ensures 3 * (x * slope) >= TWO_64
  {
    ProductBound(y, slope, 2 * x + 1, slope);
    TripledProduct(x, slope);
  }

  lemma AdvanceAsQuotient(delta: nat, slope: nat, s: nat)
    requires s <= K_SCALE
    ensures ShiftedAdvance(delta, slope, s) == ShiftRight(delta, s) * slope / Pow2(K_SCALE - s)
  {
    hide Pow2;
  }

  lemma ScalePower(k: nat)
    requires k < K_SCALE
    ensures 0 < Pow2(k) <= 0x2000_0000
  {
    Pow2Monotone(k, 29);
    assert Pow2(30) == 2 * Pow2(29);
    Pow2Values();
  }

  lemma HalvedOnce(delta: nat, s: nat)
    requires s > 0
    ensures ShiftRight(delta, s - 1) <= 2 * ShiftRight(delta, s) + 1
  {
    var p := Pow2(s - 1);
    assert Pow2(s) == 2 * p;
    hide Pow2;
    NatDivision(delta, p);
    NatDivision(delta, 2 * p);
    HalvedQuotient(delta, p, delta / p, delta / (2 * p));
  }

  lemma HalvedQuotient(x: nat, p: nat, a: nat, b: nat)
    requires p > 0 && p * a <= x && x < 2 * p * b + 2 * p
    ensures a <= 2 * b + 1
  {
    assert p * (2 * b + 1) == 2 * p * b + p;
    if a > 2 * b + 1 {
      MultipleStep(p, 2 * b + 1, a);
    }
  }

  lemma TripledProduct(x: nat, slope: uint64)
    requires (2 * x + 1) * slope >= TWO_64
    ensures 3 * (x * slope) >= TWO_64
  {
    assert (2 * x + 1) * slope == 2 * (x * slope) + slope;
    if x > 0 {
      MulAtLeast(slope, x);
    }
  }

  lemma LongQuotient(product: nat, c: nat)
    requires 3 * product >= TWO_64 && product < TWO_64 && 0 < c <= 0x2000_0000
    ensures 11_000_000_000 <= product / c < TWO_64
  {
    NatDivision(product, c);
    if product / c < 11_000_000_000 {
      ProductBound(c, product / c, 0x2000_0000, 10_999_999_999);
    }
  }

  /** What the guards allow: the error of an advance that long is never accepted. */
  lemma LongAdvanceRejected(rawNs: uint64, baseNs: uint64, nowNs: uint64, advance: nat)
    requires -100_000_000 < DiffNs(rawNs, baseNs) < 100_000_000
    requires rawNs + 500_000_000 < nowNs <= rawNs + 5_000_000_000
    requires 11_000_000_000 <= advance < TWO_64
    ensures !(-100_000_000 < DiffNs(nowNs, Wrap64(baseNs + advance)) < 100_000_000)
  {
  }

  /** The restart test bounds the time since the sample, also where its sums wrap. */
  lemma ElapsedIsBounded(sample: Sample, r: Reading)
    requires !MustRestart(sample, r) && CanCalibrate(sample, r)
    ensures sample.rawNs + 500_000_000 < r.nowNs <= sample.rawNs + 5_000_000_000
  {
  }

  /**
   Piecewise continuity: on a trusted sample, whenever the guards let a new slope replace an old one,
   the elapsed product fits 64 bits and the new line starts on the old one as the fast path computes
   it. The sample that results is trusted again.
   */
  lemma AcceptedSegmentsMeet(sample: Sample, r: Reading)
    requires Trusted(sample) && !GuardsFail(sample, r)
    ensures ReplacesSlope(sample, r) ==>
      var delta := DeltaCycles(sample, r.nowCycles);
      && delta * sample.nsscaledPerCycle < TWO_64
      && NextSample(sample, r).baseNs == Interpolated(sample, delta)
      && NextSample(sample, r).baseCycles == r.nowCycles
      && Interpolated(NextSample(sample, r), DeltaCycles(NextSample(sample, r), r.nowCycles)) == Interpolated(sample, delta)
    ensures Trusted(NextSample(sample, r))
  {
    if ReplacesSlope(sample, r) {
      AcceptedErrorOf(sample, r);
      AcceptedBase(sample, r);
      ReplacedSlopeMeets(sample, r);
      LineStarts(NextSample(sample, r));
    } else {
      UnslopedIsTrusted(sample, r);
    }
  }

  /** A line passes through the point where it starts. */
  lemma LineStarts(sample: Sample)
    ensures Interpolated(sample, DeltaCycles(sample, sample.baseCycles)) == sample.baseNs
  {
    ScaleValues();
    hide Pow2;
    assert DeltaCycles(sample, sample.baseCycles) == 0;
  }

  lemma ReplacedSlopeMeets(sample: Sample, r: Reading)
    requires Trusted(sample) && ReplacesSlope(sample, r) && !GuardsFail(sample, r)
    ensures var delta := DeltaCycles(sample, r.nowCycles);
      && delta * sample.nsscaledPerCycle < TWO_64
      && NextSample(sample, r).baseNs == Interpolated(sample, delta)
  {
    SegmentsMeet(sample, r);
    if NeededShift(sample, r.nowCycles) > 0 {
      NoShiftAccepted(sample, r);
    }
  }

  /** The guards accept no error after a shift. */
  lemma NoShiftAccepted(sample: Sample, r: Reading)
    requires Trusted(sample) && ReplacesSlope(sample, r) && !GuardsFail(sample, r)
    ensures NeededShift(sample, r.nowCycles) == 0
  {
    hide NextSample, MustRestart, CanCalibrate, DiffNs, ShiftedAdvance, ShiftFrom, Extrapolated, DeltaCycles, Wrap64;
    var delta, slope := DeltaCycles(sample, r.nowCycles), sample.nsscaledPerCycle;
    var s := NeededShift(sample, r.nowCycles);
    AcceptedErrorOf(sample, r);
    ElapsedIsBounded(sample, r);
    UnfoldExtrapolated(sample, r);
    if s > 0 {
      NeededShiftIsLong(delta, slope);
      LongAdvanceRejected(sample.rawNs, sample.baseNs, r.nowNs, ShiftedAdvance(delta, slope, s));
    }
  }

  lemma AcceptedErrorOf(sample: Sample, r: Reading)
    requires ReplacesSlope(sample, r)
    ensures NextSample(sample, r).rawNs == r.nowNs && NextSample(sample, r).baseCycles == r.nowCycles
    ensures var diff := DiffNs(r.nowNs, Extrapolated(sample, r));
      -100_000_000 < diff < 100_000_000 || diff == INT64_MIN
  {
    var diff := DiffNs(r.nowNs, Extrapolated(sample, r));
    AcceptedError(CorrectingSlope(sample, r, diff), diff);
    hide DiffNs, CorrectingSlope, DivideAndScale, Extrapolated, SlopeAccepted;
  }

  /** A sample that starts without an old slope starts at the kernel time. */
  lemma UnslopedIsTrusted(sample: Sample, r: Reading)
    requires Trusted(sample) && !ReplacesSlope(sample, r)
    ensures Trusted(NextSample(sample, r))
  {
    hide CorrectingSlope, DivideAndScale, Extrapolated;
    assert DiffNs(r.nowNs, r.nowNs) == 0;
  }

  // ----- What one update does -----

  /** The clock is read for the first time, too late, or goes backwards; near 2^64 ns the test wraps. */
  predicate Restarts(sample: Sample, r: Reading) {
    || sample.rawNs == 0 || sample.rawNs + 5_000_000_000 >= TWO_64
    || !(sample.rawNs <= r.nowNs <= sample.rawNs + 5_000_000_000)
    || r.nowCycles < sample.baseCycles
  }

  /** Between half a second and five seconds have passed, and more than 50 cycles or the counter's end. */
  predicate Calibrates(sample: Sample, r: Reading) {
    && 0 < sample.rawNs
    && sample.rawNs + 500_000_000 < r.nowNs <= sample.rawNs + 5_000_000_000 < TWO_64
    && sample.baseCycles <= r.nowCycles
    && (sample.baseCycles + 50 < r.nowCycles || sample.baseCycles + 50 >= TWO_64)
  }

  /** The guards' wrapping sums decide just that. */
  lemma GuardsAreExact(sample: Sample, r: Reading)
    ensures MustRestart(sample, r) <==> Restarts(sample, r)
    ensures !MustRestart(sample, r) && CanCalibrate(sample, r) <==> Calibrates(sample, r)
  {
  }

  /**
   What an update stores and answers. A restart and a rejected slope give up the slope and answer the
   kernel time; while it is too early the sample stays and the kernel time is answered; and an accepted
   slope is stored with the interval it allows, and the new base is answered.
   */
  lemma UpdateLaw(sample: Sample, r: Reading)
    ensures var next := NextSample(sample, r);
      if Restarts(sample, r) then
        next == Sample(r.nowNs, r.nowNs, r.nowCycles, 0, 0) && Estimate(sample, r) == r.nowNs
      else if !Calibrates(sample, r) then
        next == sample && Estimate(sample, r) == r.nowNs
      else if next.nsscaledPerCycle == 0 then
        next == Sample(r.nowNs, r.nowNs, r.nowCycles, 0, 0) && Estimate(sample, r) == r.nowNs
      else
        && next.rawNs == r.nowNs && next.baseCycles == r.nowCycles
        && next.minCyclesPerSample == 2_097_152_000 * 0x4000_0000 / next.nsscaledPerCycle
        && Estimate(sample, r) == next.baseNs
        && (sample.nsscaledPerCycle == 0 ==> next.baseNs == r.nowNs)
        && (-100_000_000 < DiffNs(r.nowNs, next.baseNs) < 100_000_000 || DiffNs(r.nowNs, next.baseNs) == INT64_MIN)
  {
    GuardsAreExact(sample, r);
    hide Restarts, Calibrates, MustRestart, CanCalibrate, DiffNs, CorrectingSlope, DivideAndScale, Extrapolated;
    if Calibrates(sample, r) {
      var estimate := BaseEstimate(sample, r);
      var diff := DiffNs(r.nowNs, estimate);
      var slope := CorrectingSlope(sample, r, diff);
      AcceptedError(slope, diff);
      FullShiftDivision(MIN_NS_BETWEEN_SAMPLES, slope);
    }
  }

  /** The kernel time that passed since the sample, and the cycles. */
  function ElapsedNs(sample: Sample, r: Reading): nat
    requires Calibrates(sample, r)
  {
    r.nowNs - sample.rawNs
  }

  function ElapsedCycles(sample: Sample, r: Reading): nat
    requires Calibrates(sample, r)
  {
    r.nowCycles - sample.baseCycles
  }

  /** x / y, or zero. */
  function Ratio(x: nat, y: nat): nat {
    if y == 0 then 0 else x / y
  }

  /** The nanoseconds that the next line is to cover: one interval and fifteen sixteenths of the error. */
  function Target(diffNs: int): int {
    2_097_152_000 + diffNs - TruncDiv(diffNs, 16)
  }

  lemma TargetRange(diffNs: int)
    requires -100_000_000 < diffNs < 100_000_000
    ensures 2_000_000_000 < Target(diffNs) < 0x1_0000_0000
    ensures diffNs >= 0 ==> Target(diffNs) >= 2_097_152_000
    ensures diffNs > 0 ==> Target(diffNs) > 2_097_152_000
    ensures diffNs < 0 ==> Target(diffNs) < 2_097_152_000
  {
  }

  /** For errors that are accepted no division is scaled down and nothing wraps. */
  lemma CorrectingSlopeIs(sample: Sample, r: Reading, diffNs: int64)
    requires Calibrates(sample, r) && -100_000_000 < diffNs < 100_000_000
    ensures var measured := Ratio(ElapsedNs(sample, r) * 0x4000_0000, ElapsedCycles(sample, r));
      var assumed := Ratio(2_097_152_000 * 0x4000_0000, measured);
      0 <= Target(diffNs) * 0x4000_0000 && CorrectingSlope(sample, r, diffNs) == Ratio(Target(diffNs) * 0x4000_0000, assumed)
  {
    hide DivideAndScale, CorrectingSlope, Target, Calibrates;
    TargetRange(diffNs);
    SlopeInputs(sample, r, diffNs);
    var e, delta := ElapsedNs(sample, r), ElapsedCycles(sample, r);
    hide ElapsedNs, ElapsedCycles;
    ThreeDivisions(e, delta, Target(diffNs));
  }

  lemma SlopeInputs(sample: Sample, r: Reading, diffNs: int64)
    requires Calibrates(sample, r) && -100_000_000 < diffNs < 100_000_000
    ensures ElapsedNs(sample, r) <= 5_000_000_000 && ElapsedCycles(sample, r) < TWO_64
    ensures 0 <= Target(diffNs) < TWO_64
    ensures CorrectingSlope(sample, r, diffNs) ==
      DivideAndScale(Target(diffNs),
        DivideAndScale(MIN_NS_BETWEEN_SAMPLES, DivideAndScale(ElapsedNs(sample, r), ElapsedCycles(sample, r))))
  {
    hide DivideAndScale;
    TargetRange(diffNs);
    assert Wrap64(Target(diffNs)) == Target(diffNs);
  }

  lemma ThreeDivisions(e: nat, delta: uint64, t: nat)
    requires e <= 5_000_000_000 && t < 0x1_0000_0000
    ensures DivideAndScale(t, DivideAndScale(MIN_NS_BETWEEN_SAMPLES, DivideAndScale(e, delta)))
      == Ratio(t * 0x4000_0000, Ratio(2_097_152_000 * 0x4000_0000, Ratio(e * 0x4000_0000, delta)))
  {
    hide DivideAndScale;
    FullShiftDivision(e, delta);
    var measured := DivideAndScale(e, delta);
    FullShiftDivision(MIN_NS_BETWEEN_SAMPLES, measured);
    FullShiftDivision(t, DivideAndScale(MIN_NS_BETWEEN_SAMPLES, measured));
  }

  predicate SteeringBounds(e: nat, delta: nat, m: nat, t: nat, k: nat, measured: nat, assumed: nat, slope: nat) {
    && m * delta < e * (assumed + 1)
    && assumed * e * k < m * delta * k + assumed * delta
    && assumed * slope <= t * k < assumed * slope + assumed
    && t * measured < (slope + 1) * m
    && slope * m * assumed <= t * (measured * (assumed + 1))
  }

  /** What three truncating divisions in a row leave, for a common scale k. */
  lemma Steering(e: nat, delta: nat, m: nat, t: nat, k: nat, measured: nat, assumed: nat, slope: nat)
    requires k > 0 && m > 0 && delta > 0 && measured > 0 && assumed > 0
    requires measured == e * k / delta && assumed == m * k / measured && slope == t * k / assumed
    ensures SteeringBounds(e, delta, m, t, k, measured, assumed, slope)
  {
    Divided(e * k, delta, measured);
    Divided(m * k, measured, assumed);
    Divided(t * k, assumed, slope);
    IntervalBelow(e, delta, m, k, measured, assumed);
    IntervalAbove(e, delta, m, k, measured, assumed);
    SlopeBelow(m, t, k, measured, assumed, slope);
    SlopeAbove(m, t, k, measured, assumed, slope);
  }

  lemma Divided(x: nat, y: nat, q: nat)
    requires y > 0 && q == x / y
    ensures y * q <= x < y * q + y
  {
    NatDivision(x, y);
  }

  lemma IntervalBelow(e: nat, delta: nat, m: nat, k: nat, measured: nat, assumed: nat)
    requires k > 0 && delta > 0
    requires delta * measured <= e * k && m * k < measured * assumed + measured
    ensures m * delta < e * (assumed + 1)
  {
    MultipleBelow(delta, m * k, measured * assumed + measured);
    ProductBound(delta * measured, assumed + 1, e * k, assumed + 1);
    IntervalTerms(e, delta, m, k, measured, assumed);
    if m * delta >= e * (assumed + 1) {
      ProductBound(k, e * (assumed + 1), k, m * delta);
    }
  }

  lemma IntervalTerms(e: nat, delta: nat, m: nat, k: nat, measured: nat, assumed: nat)
    ensures delta * measured * (assumed + 1) == delta * (measured * assumed + measured)
    ensures e * k * (assumed + 1) == k * (e * (assumed + 1))
    ensures delta * (m * k) == k * (m * delta)
    ensures 0 <= e * (assumed + 1)
  {
    MulAssociates(delta, measured, assumed + 1);
    assert measured * (assumed + 1) == measured * assumed + measured;
  }

  lemma IntervalAbove(e: nat, delta: nat, m: nat, k: nat, measured: nat, assumed: nat)
    requires assumed > 0
    requires e * k < delta * measured + delta && measured * assumed <= m * k
    ensures assumed * e * k < m * delta * k + assumed * delta
  {
    assert assumed * e * k == assumed * (e * k);
    MultipleBelow(assumed, e * k, delta * measured + delta);
    assert assumed * (delta * measured + delta) == delta * (measured * assumed) + assumed * delta;
    ProductBound(delta, measured * assumed, delta, m * k);
    assert delta * (m * k) == m * delta * k;
  }

  lemma MultipleBelow(c: nat, x: nat, y: nat)
    requires c > 0 && x < y
    ensures c * x < c * y
  {
    MultipleStep(c, x, y);
  }

  lemma SlopeBelow(m: nat, t: nat, k: nat, measured: nat, assumed: nat, slope: nat)
    requires assumed > 0 && m > 0 && k > 0
    requires measured * assumed <= m * k && t * k < assumed * slope + assumed
    ensures t * measured < (slope + 1) * m
  {
    ProductBound(t, measured * assumed, t, m * k);
    assert t * (measured * assumed) == assumed * (t * measured) && t * (m * k) == m * (t * k);
    MultipleBelow(m, t * k, assumed * slope + assumed);
    assert m * (assumed * slope + assumed) == assumed * ((slope + 1) * m);
    if t * measured >= (slope + 1) * m {
      ProductBound(assumed, (slope + 1) * m, assumed, t * measured);
    }
  }

  lemma SlopeAbove(m: nat, t: nat, k: nat, measured: nat, assumed: nat, slope: nat)
    requires assumed * slope <= t * k && m * k < measured * assumed + measured
    ensures slope * m * assumed <= t * (measured * (assumed + 1))
  {
    ProductBound(m, assumed * slope, m, t * k);
    assert m * (assumed * slope) == slope * m * assumed && m * (t * k) == t * (m * k);
    ProductBound(t, m * k, t, measured * assumed + measured);
    assert measured * assumed + measured == measured * (assumed + 1);
  }

  /** The reading makes an accepted slope replace the sample's, on an error within 100 ms. */
  predicate Steers(sample: Sample, r: Reading) {
    && Calibrates(sample, r) && NextSample(sample, r).nsscaledPerCycle != 0
    && -100_000_000 < DiffNs(r.nowNs, NextSample(sample, r).baseNs) < 100_000_000
  }

  lemma SteeringSlope(sample: Sample, r: Reading)
    requires Steers(sample, r)
    ensures var next := NextSample(sample, r);
      var measured := Ratio(ElapsedNs(sample, r) * 0x4000_0000, ElapsedCycles(sample, r));
      var assumed := Ratio(2_097_152_000 * 0x4000_0000, measured);
      var target := Target(DiffNs(r.nowNs, next.baseNs));
      && 0 <= target && next.nsscaledPerCycle == Ratio(target * 0x4000_0000, assumed)
      && next.baseCycles == r.nowCycles
  {
    GuardsAreExact(sample, r);
    var estimate := BaseEstimate(sample, r);
    var diff := DiffNs(r.nowNs, estimate);
    hide Restarts, Calibrates, MustRestart, CanCalibrate, DiffNs, CorrectingSlope, DivideAndScale, BaseEstimate, Target;
    assert NextSample(sample, r) == Calibrated(sample, r);
    assert NextSample(sample, r).baseNs == estimate && NextSample(sample, r).nsscaledPerCycle == CorrectingSlope(sample, r, diff);
    CorrectingSlopeIs(sample, r, diff);
  }

  /**
   Where the new line leads. There is a number of cycles, within rounding the sampling interval at the
   rate measured since the sample, after which the new line is at the kernel time that will then have
   passed, less a sixteenth of the error, and short of it by at most one unit of the slope.
   */
  lemma LineMeetsTarget(sample: Sample, r: Reading) returns (assumed: nat, short: nat)
    requires Steers(sample, r)
    ensures var e, delta := ElapsedNs(sample, r), ElapsedCycles(sample, r);
      && 0 < assumed <= 2_097_152_000 * 0x4000_0000
      && 2_097_152_000 * delta < e * (assumed + 1)
      && assumed * e * 0x4000_0000 < 2_097_152_000 * delta * 0x4000_0000 + assumed * delta
    ensures short * 0x4000_0000 < assumed + 0x4000_0000
    ensures var next := NextSample(sample, r); var diffNs := DiffNs(r.nowNs, next.baseNs);
      Wrap64(Interpolated(next, DeltaCycles(next, Wrap64(r.nowCycles + assumed))) + short)
      == Wrap64(r.nowNs + 2_097_152_000 - TruncDiv(diffNs, 16))
  {
    hide Steers, NextSample, Calibrates, DiffNs, Target, Interpolated, DeltaCycles, Wrap64, TruncDiv;
    var next := NextSample(sample, r);
    var measured, target;
    measured, assumed, target := SteeringFacts(sample, r);
    short := LineFallsShort(next, assumed, target);
    TargetTime(r.nowNs, next.baseNs);
  }

  /** The three quotients of an accepted step, and what truncation leaves of them. */
  lemma SteeringFacts(sample: Sample, r: Reading) returns (measured: nat, assumed: nat, target: nat)
    requires Steers(sample, r)
    ensures Calibrates(sample, r)
    ensures var e, delta := ElapsedNs(sample, r), ElapsedCycles(sample, r);
      var next := NextSample(sample, r);
      && next.baseCycles == r.nowCycles && target == Target(DiffNs(r.nowNs, next.baseNs)) < 0x1_0000_0000
      && measured == Ratio(e * 0x4000_0000, delta) > 0
      && assumed == 2_097_152_000 * 0x4000_0000 / measured && 0 < assumed <= 2_097_152_000 * 0x4000_0000
      && SteeringBounds(e, delta, 2_097_152_000, target, 0x4000_0000, measured, assumed, next.nsscaledPerCycle)
  {
    var next := NextSample(sample, r);
    var e, delta := ElapsedNs(sample, r), ElapsedCycles(sample, r);
    SteeringSlope(sample, r);
    TargetRange(DiffNs(r.nowNs, next.baseNs));
    target := Target(DiffNs(r.nowNs, next.baseNs));
    hide NextSample, DiffNs, Target, ElapsedNs, ElapsedCycles, SteeringBounds;
    measured := Ratio(e * 0x4000_0000, delta);
    assumed := Ratio(2_097_152_000 * 0x4000_0000, measured);
    RatioFacts(2_097_152_000 * 0x4000_0000, measured);
    SlopePositive(target, assumed, measured, e, delta);
    hide Ratio;
    Steering(e, delta, 2_097_152_000, target, 0x4000_0000, measured, assumed, next.nsscaledPerCycle);
  }

  lemma RatioFacts(x: nat, y: nat)
    ensures Ratio(x, y) <= x && (Ratio(x, y) > 0 ==> y > 0 && Ratio(x, y) == x / y)
  {
    if y > 0 {
      NatDivision(x, y);
    }
  }

  /** A line whose slope was divided out of a target is short of it by the remainder, rounded. */
  lemma LineFallsShort(line: Sample, assumed: uint64, target: nat) returns (short: nat)
    requires target < 0x1_0000_0000
    requires assumed * line.nsscaledPerCycle <= target * 0x4000_0000 < assumed * line.nsscaledPerCycle + assumed
    ensures short * 0x4000_0000 < assumed + 0x4000_0000
    ensures Wrap64(Interpolated(line, DeltaCycles(line, Wrap64(line.baseCycles + assumed))) + short)
      == Wrap64(line.baseNs + target)
  {
    hide DeltaCycles, Interpolated, Wrap64;
    ProductBound(assumed, line.nsscaledPerCycle, assumed, line.nsscaledPerCycle);
    CyclesAhead(line, assumed);
    LineAt(line, assumed);
    short := TargetOf(line.baseNs, assumed * line.nsscaledPerCycle, target, assumed);
  }

  lemma TargetOf(baseNs: uint64, p: nat, target: nat, assumed: nat) returns (short: nat)
    requires p <= target * 0x4000_0000 < p + assumed
    ensures short * 0x4000_0000 < assumed + 0x4000_0000
    ensures Wrap64(Wrap64(baseNs + p / 0x4000_0000) + short) == Wrap64(baseNs + target)
  {
    hide Wrap64;
    short := Remaining(p, target, assumed);
    WrapPlus(baseNs + p / 0x4000_0000, short);
  }

  lemma Remaining(p: nat, target: nat, assumed: nat) returns (short: nat)
    requires p <= target * 0x4000_0000 < p + assumed
    ensures short * 0x4000_0000 < assumed + 0x4000_0000
    ensures p / 0x4000_0000 + short == target
  {
    short := target - p / 0x4000_0000;
  }

  lemma LineAt(line: Sample, delta: uint64)
    requires 0 <= delta * line.nsscaledPerCycle < TWO_64
    ensures Interpolated(line, delta) == Wrap64(line.baseNs + delta * line.nsscaledPerCycle / 0x4000_0000)
  {
    ScaleValues();
    hide Pow2;
    WrapSmall(delta * line.nsscaledPerCycle);
  }

  lemma CyclesAhead(line: Sample, cycles: uint64)
    ensures DeltaCycles(line, Wrap64(line.baseCycles + cycles)) == cycles
  {
  }

  lemma WrapPlus(x: int, y: int)
    ensures Wrap64(Wrap64(x) + y) == Wrap64(x + y)
  {
  }

  lemma TargetTime(nowNs: uint64, baseNs: uint64)
    ensures var diffNs := DiffNs(nowNs, baseNs);
      Wrap64(baseNs + Target(diffNs)) == Wrap64(nowNs + 2_097_152_000 - TruncDiv(diffNs, 16))
  {
    var diffNs := DiffNs(nowNs, baseNs);
    var c := TruncDiv(diffNs, 16);
    hide TruncDiv;
    ErrorWraps(nowNs, baseNs);
    hide DiffNs;
    WrapPlus(baseNs + diffNs, 2_097_152_000 - c);
    WrapPlus(nowNs, 2_097_152_000 - c);
  }

  lemma ErrorWraps(nowNs: uint64, baseNs: uint64)
    ensures Wrap64(baseNs + DiffNs(nowNs, baseNs)) == Wrap64(nowNs)
  {
  }

  /**
   The new slope is the rate measured since the sample, changed in the proportion of the target to the
   interval, within rounding. So it does not fall while the estimate is behind the kernel's time, and
   does not rise while it is ahead, by more than rounding the interval to whole cycles hides.
   */
  lemma SlopeFollowsError(sample: Sample, r: Reading) returns (assumed: nat)
    requires Steers(sample, r)
    ensures var measured := Ratio(ElapsedNs(sample, r) * 0x4000_0000, ElapsedCycles(sample, r));
      var next := NextSample(sample, r);
      var diffNs := DiffNs(r.nowNs, next.baseNs);
      var target := 2_097_152_000 + diffNs - TruncDiv(diffNs, 16);
      var slope := next.nsscaledPerCycle;
      && measured > 0 && assumed == 2_097_152_000 * 0x4000_0000 / measured > 0
      && target * measured < (slope + 1) * 2_097_152_000
      && slope * 2_097_152_000 * assumed <= target * (measured * (assumed + 1))
      && (diffNs >= 0 ==> slope >= measured)
      && (diffNs < 0 && target <= (2_097_152_000 - target) * assumed ==> slope <= measured)
  {
    hide Steers, NextSample, Calibrates, DiffNs, TruncDiv, Ratio;
    var measured, target;
    measured, assumed, target := SteeringFacts(sample, r);
    SlopeDirection(target, measured, assumed, NextSample(sample, r).nsscaledPerCycle);
    TargetSign(DiffNs(r.nowNs, NextSample(sample, r).baseNs));
  }

  lemma TargetSign(diffNs: int)
    ensures Target(diffNs) == 2_097_152_000 + diffNs - TruncDiv(diffNs, 16)
    ensures diffNs >= 0 ==> Target(diffNs) >= 2_097_152_000
  {
  }

  lemma SlopePositive(target: nat, assumed: nat, measured: nat, e: nat, delta: nat)
    requires measured == Ratio(e * 0x4000_0000, delta) && assumed == Ratio(2_097_152_000 * 0x4000_0000, measured)
    ensures Ratio(target * 0x4000_0000, assumed) > 0 ==>
      && measured > 0 && delta > 0 && assumed > 0
      && measured == e * 0x4000_0000 / delta && assumed == 2_097_152_000 * 0x4000_0000 / measured
      && Ratio(target * 0x4000_0000, assumed) == target * 0x4000_0000 / assumed
  {
  }

  lemma SlopeDirection(target: nat, measured: nat, assumed: nat, slope: nat)
    requires assumed > 0
    requires target * measured < (slope + 1) * 2_097_152_000
    requires slope * 2_097_152_000 * assumed <= target * (measured * (assumed + 1))
    ensures target >= 2_097_152_000 ==> slope >= measured
    ensures target <= (2_097_152_000 - target) * assumed ==> slope <= measured
  {
    if target >= 2_097_152_000 {
      ProductBound(2_097_152_000, measured, target, measured);
    }
    if target <= (2_097_152_000 - target) * assumed {
      DirectionBelow(2_097_152_000, target, measured, assumed, slope);
    }
  }

  lemma DirectionBelow(m: nat, target: nat, measured: nat, assumed: nat, slope: nat)
    requires assumed > 0 && m > 0
    requires slope * m * assumed <= target * (measured * (assumed + 1))
    requires target <= (m - target) * assumed
    ensures slope <= measured
  {
    assert target * (assumed + 1) <= m * assumed;
    ProductBound(measured, target * (assumed + 1), measured, m * assumed);
    assert target * (measured * (assumed + 1)) == measured * (target * (assumed + 1));
    assert slope * m * assumed == slope * (m * assumed);
    MulAtLeast(m, assumed);
    if slope > measured {
      MultipleBelow(m * assumed, measured, slope);
    }
  }

  /** The error of the old line, or none where there is no old slope. */
  function LineError(sample: Sample, r: Reading): int64 {
    if sample.nsscaledPerCycle == 0 then 0 else DiffNs(r.nowNs, Extrapolated(sample, r))
  }

  /**
   When a measurement ends without a slope: on an error of 100 ms or more, or when the three divisions
   leave nothing, because no time passed per cycle, or more than an interval did, or just one scaled
   nanosecond did and the line was ahead.
   */
  lemma SlopeIsGivenUp(sample: Sample, r: Reading)
    requires Calibrates(sample, r)
    ensures var error, slope := LineError(sample, r), NextSample(sample, r).nsscaledPerCycle;
      var measured := Ratio(ElapsedNs(sample, r) * 0x4000_0000, ElapsedCycles(sample, r));
      && (error != INT64_MIN && !(-100_000_000 < error < 100_000_000) ==> slope == 0)
      && (-100_000_000 < error < 100_000_000 ==>
            (slope == 0 <==>
              || measured == 0 || measured > 2_097_152_000 * 0x4000_0000
              || (2_097_152_000 + error - TruncDiv(error, 16)) * 0x4000_0000 < 2_097_152_000 * 0x4000_0000 / measured))
  {
    GuardsAreExact(sample, r);
    var estimate := BaseEstimate(sample, r);
    var error := DiffNs(r.nowNs, estimate);
    assert error == LineError(sample, r) by {
      hide Extrapolated;
      assert DiffNs(r.nowNs, r.nowNs) == 0;
    }
    hide Restarts, Calibrates, MustRestart, CanCalibrate, DiffNs, CorrectingSlope, DivideAndScale, BaseEstimate, Target;
    hide LineError, TruncDiv;
    AcceptedError(CorrectingSlope(sample, r, error), error);
    assert NextSample(sample, r) == Calibrated(sample, r);
    if -100_000_000 < error < 100_000_000 {
      CorrectingSlopeIs(sample, r, error);
      TargetSign(error);
      TargetRange(error);
      ThreeRatios(Target(error), Ratio(ElapsedNs(sample, r) * 0x4000_0000, ElapsedCycles(sample, r)));
    }
  }

  lemma ThreeRatios(target: nat, measured: nat)
    ensures Ratio(target * 0x4000_0000, Ratio(2_097_152_000 * 0x4000_0000, measured)) == 0 <==>
      || measured == 0 || measured > 2_097_152_000 * 0x4000_0000
      || target * 0x4000_0000 < 2_097_152_000 * 0x4000_0000 / measured
  {
    ZeroQuotient(2_097_152_000 * 0x4000_0000, measured);
    ZeroQuotient(target * 0x4000_0000, Ratio(2_097_152_000 * 0x4000_0000, measured));
  }

  lemma ZeroQuotient(x: nat, y: nat)
    ensures Ratio(x, y) == 0 <==> y == 0 || x < y
  {
    if y > 0 {
      NatDivision(x, y);
      if x < y {
        DivModUnique(x, y, 0, x);
      }
    }
  }

  /** One second after a sample of 1 ns per cycle, an estimate that is 10 ms behind. */
  const LATE_SAMPLE := Sample(1_000_000_000_000, 1_000_000_000_000, 0, 0x4000_0000, 2_097_152_000)
  const LATE_READING := Reading(1_000_000_000, 1_001_010_000_000, 0)

  /** The slope rises to the measured 1.01 ns per cycle, and beyond it by what makes up for the error. */
  lemma SteeringExample()
    ensures Extrapolated(LATE_SAMPLE, LATE_READING) == 1_001_000_000_000
    ensures NextSample(LATE_SAMPLE, LATE_READING)
      == Sample(1_001_010_000_000, 1_001_000_000_000, 1_000_000_000, 1_089_327_242, 2_067_147_250)
  {
    LateEstimate();
    LateSlope();
    LateInterval();
    hide Extrapolated, CorrectingSlope, DivideAndScale, DiffNs, SlopeAccepted;
    LateCalibrates();
  }

  lemma LateCalibrates()
    ensures !MustRestart(LATE_SAMPLE, LATE_READING) && CanCalibrate(LATE_SAMPLE, LATE_READING)
    ensures DiffNs(1_001_010_000_000, 1_001_000_000_000) == 10_000_000
    ensures SlopeAccepted(1_089_327_242, 10_000_000)
  {
    AcceptedError(1_089_327_242, 10_000_000);
  }

  lemma LateEstimate()
    ensures Extrapolated(LATE_SAMPLE, LATE_READING) == 1_001_000_000_000
  {
    ScaleValues();
    hide Pow2, ShiftFrom;
    NeededShiftFacts(1_000_000_000, 0x4000_0000, ShiftFrom(1_000_000_000, 0x4000_0000, 0));
    assert ShiftedProduct(1_000_000_000, 0x4000_0000, 0) == 1_000_000_000 * 0x4000_0000;
  }

  lemma LateSlope()
    ensures CorrectingSlope(LATE_SAMPLE, LATE_READING, 10_000_000) == 1_089_327_242
  {
    hide DivideAndScale;
    LateRatios();
    assert TruncDiv(10_000_000, 16) == 625_000;
    hide TruncDiv;
  }

  lemma LateRatios()
    ensures DivideAndScale(1_010_000_000, 1_000_000_000) == 1_084_479_242
    ensures DivideAndScale(2_097_152_000, 1_084_479_242) == 2_076_388_119
    ensures DivideAndScale(2_106_527_000, 2_076_388_119) == 1_089_327_242
  {
    hide DivideAndScale;
    FullShiftDivision(1_010_000_000, 1_000_000_000);
    FullShiftDivision(2_097_152_000, 1_084_479_242);
    FullShiftDivision(2_106_527_000, 2_076_388_119);
  }

  lemma LateInterval()
    ensures DivideAndScale(2_097_152_000, 1_089_327_242) == 2_067_147_250
  {
    hide DivideAndScale;
    FullShiftDivision(2_097_152_000, 1_089_327_242);
  }

  // ----- A segment that the guards let miss -----

  /** A trusted sample with a slope of 4 ns per cycle. */
  const FAST_SAMPLE := Sample(1, 1, 0, 0x1_0000_0000, 524_288_000)

  /** Four seconds later, with the counter far ahead. */
  function FarReading(late: nat): Reading
    requires late <= 1
  {
    Reading(0x2000_0000_4000_0000 + late, 0x1_0000_0001, 0)
  }

  lemma ScaleValues()
    ensures Pow2(0) == 1 && Pow2(1) == 2
    ensures Pow2(29) == 0x2000_0000 && Pow2(30) == 0x4000_0000
  {
    Pow2Values();
    assert Pow2(30) == 2 * Pow2(29);
  }

  lemma FullShiftDivision(a: uint64, b: uint64)
    requires a < 0x4_0000_0000
    ensures DivideAndScale(a, b) == if b == 0 then 0 else a * 0x4000_0000 / b
  {
    ScaleValues();
    assert SafeShift(a) == 30;
    hide Pow2;
    assert ShiftRight(b, 0) == b / 1;
  }

  lemma UnshiftedDivision(a: uint64, b: uint64)
    requires a >= TWO_63 && b >= 0x4000_0000
    ensures DivideAndScale(a, b) == a / (b / 0x4000_0000)
  {
    ScaleValues();
    var k := SafeShift(a);
    if k > 0 {
      Pow2Monotone(1, k);
      ProductBound(TWO_63, 2, a, Pow2(k));
    }
    hide Pow2, ShiftUpTo;
    assert ScaledUp(a) == a * 1;
    assert ShiftRight(b, 30) == b / 0x4000_0000 >= 1;
  }

  lemma FarShift(late: nat)
    requires late <= 1
    ensures var delta := FarReading(late).nowCycles;
      && ShiftFrom(delta, 0x1_0000_0000, 0) == 30
      && ShiftedAdvance(delta, 0x1_0000_0000, 30) == 0x8000_0001_0000_0000
      && ExactAdvance(delta, 0x1_0000_0000) == 0x8000_0001_0000_0000 + 4 * late
  {
    var delta := FarReading(late).nowCycles;
    var k := ShiftFrom(delta, 0x1_0000_0000, 0);
    ScaleValues();
    hide Pow2, ShiftFrom;
    assert ShiftedProduct(delta, 0x1_0000_0000, 30) < TWO_64;
    assert ShiftedProduct(delta, 0x1_0000_0000, 29) >= TWO_64;
    if k < 30 {
      ShiftRightStep(delta, k, 29);
    }
  }

  /**
   The error is the one whose negation wraps, and the new slope is accepted. The product does not fit
   64 bits in either case. With the earlier reading the new segment starts on the exact line, with
   the later one 4 ns below it.
   */
  lemma FarSegment(late: nat)
    requires late <= 1
    ensures var sample, r := FAST_SAMPLE, FarReading(late);
      var delta, slope := DeltaCycles(sample, r.nowCycles), sample.nsscaledPerCycle;
      && Reachable(sample) && Trusted(sample) && ReplacesSlope(sample, r) && GuardsFail(sample, r)
      && DiffNs(r.nowNs, Extrapolated(sample, r)) == INT64_MIN
      && delta * slope >= TWO_64
      && NextSample(sample, r).baseNs + 4 * late == Wrap64(sample.baseNs + ExactAdvance(delta, slope))
  {
    hide Pow2, ShiftFrom, ExactAdvance, ShiftedAdvance, Extrapolated, NextSample, ReplacesSlope, DeltaCycles, DiffNs;
    hide Reachable, Trusted;
    FastSampleIsTrusted();
    FarEstimate(late);
    FarReplaces(late);
    assert GuardsFail(FAST_SAMPLE, FarReading(late));
    FarShift(late);
    hide GuardsFail, NeededShift;
  }

  lemma FastSampleIsTrusted()
    ensures Reachable(FAST_SAMPLE) && Trusted(FAST_SAMPLE)
  {
    ScaleValues();
    hide Pow2;
  }

  lemma FarEstimate(late: nat)
    requires late <= 1
    ensures DeltaCycles(FAST_SAMPLE, FarReading(late).nowCycles) == FarReading(late).nowCycles
    ensures Extrapolated(FAST_SAMPLE, FarReading(late)) == 0x8000_0001_0000_0001
    ensures DiffNs(FarReading(late).nowNs, 0x8000_0001_0000_0001) == INT64_MIN
  {
    hide ShiftFrom, Pow2, ShiftedAdvance, ExactAdvance, Extrapolated, ShiftRight, ShiftedProduct;
    FarShift(late);
    UnfoldExtrapolated(FAST_SAMPLE, FarReading(late));
  }

  lemma FarReplaces(late: nat)
    requires late <= 1
    ensures ReplacesSlope(FAST_SAMPLE, FarReading(late))
    ensures NextSample(FAST_SAMPLE, FarReading(late)).baseNs == 0x8000_0001_0000_0001
  {
    hide ShiftFrom, Pow2, CorrectingSlope, Extrapolated, DivideAndScale, DiffNs, DeltaCycles;
    FarEstimate(late);
    FarSlope(late);
    assert SlopeAccepted(CorrectingSlope(FAST_SAMPLE, FarReading(late), INT64_MIN), INT64_MIN);
  }

  /** The correcting slope is not zero, so the error decides. */
  lemma FarSlope(late: nat)
    requires late <= 1
    ensures CorrectingSlope(FAST_SAMPLE, FarReading(late), INT64_MIN) != 0
  {
    hide DivideAndScale;
    var delta := FarReading(late).nowCycles;
    FullShiftDivision(0x1_0000_0000, delta);
    DivModUnique(0x4000_0000_0000_0000, delta, 1, 0x4000_0000_0000_0000 - delta);
    FullShiftDivision(MIN_NS_BETWEEN_SAMPLES, 1);
    UnshiftedDivision(0x8800_0000_7d00_0000, 0x1f40_0000_0000_0000);
    assert TruncDiv(INT64_MIN, 16) == -0x800_0000_0000_0000;
  }

  /** With the counter twice as far ahead the loop shifts 31 times, and the shift back is undefined. */
  const FARTHER_READING := Reading(0x4000_0000_0000_0000, 0x1_0000_0001, 0x1_0000_0000)

  lemma FartherShift()
    ensures ShiftFrom(0x4000_0000_0000_0000, 0x1_0000_0000, 0) > K_SCALE
    ensures ExactAdvance(0x4000_0000_0000_0000, 0x1_0000_0000) == TWO_64
  {
    ScaleValues();
    hide Pow2, ShiftFrom;
    NeededShiftFacts(0x4000_0000_0000_0000, 0x1_0000_0000, ShiftFrom(0x4000_0000_0000_0000, 0x1_0000_0000, 0));
    assert ShiftedProduct(0x4000_0000_0000_0000, 0x1_0000_0000, 30) == TWO_64;
  }

  lemma FartherSlope()
    ensures CorrectingSlope(FAST_SAMPLE, FARTHER_READING, 0) == 1
  {
    hide DivideAndScale;
    FullShiftDivision(0x1_0000_0000, 0x4000_0000_0000_0000);
    FullShiftDivision(MIN_NS_BETWEEN_SAMPLES, 1);
    FullShiftDivision(MIN_NS_BETWEEN_SAMPLES, 0x1f40_0000_0000_0000);
  }

  /**
   If the undefined shift happens to yield the time elapsed, the error is zero and the new slope is
   accepted, although the old line is 2^64 ns ahead.
   */
  lemma FartherSegment()
    ensures var sample, r := FAST_SAMPLE, FARTHER_READING;
      && Trusted(sample) && ReplacesSlope(sample, r) && GuardsFail(sample, r)
      && NeededShift(sample, r.nowCycles) > K_SCALE
      && NextSample(sample, r).baseNs == r.nowNs
      && ExactAdvance(DeltaCycles(sample, r.nowCycles), sample.nsscaledPerCycle) == TWO_64
  {
    FastSampleIsTrusted();
    FartherEstimate();
    FartherReplaces();
    FartherShift();
    hide Pow2, ShiftFrom, ExactAdvance, Extrapolated, NextSample, ReplacesSlope, DiffNs, Trusted;
  }

  lemma FartherEstimate()
    ensures DeltaCycles(FAST_SAMPLE, FARTHER_READING.nowCycles) == 0x4000_0000_0000_0000
    ensures Extrapolated(FAST_SAMPLE, FARTHER_READING) == 0x1_0000_0001
    ensures DiffNs(0x1_0000_0001, 0x1_0000_0001) == 0
  {
    hide ShiftFrom, Pow2, ShiftedProduct, ExactAdvance, ShiftRight;
    FartherShift();
  }

  lemma FartherReplaces()
    ensures ReplacesSlope(FAST_SAMPLE, FARTHER_READING)
    ensures NextSample(FAST_SAMPLE, FARTHER_READING).baseNs == 0x1_0000_0001
  {
    hide ShiftFrom, Pow2, CorrectingSlope, Extrapolated, DivideAndScale, DiffNs, DeltaCycles;
    FartherEstimate();
    FartherSlope();
    assert SlopeAccepted(CorrectingSlope(FAST_SAMPLE, FARTHER_READING, 0), 0);
  }

  lemma InterpolatedUnwrapped(sample: Sample, delta: uint64)
    ensures delta * sample.nsscaledPerCycle < TWO_64 ==>
      Interpolated(sample, delta) == Wrap64(sample.baseNs + ShiftedAdvance(delta, sample.nsscaledPerCycle, 0))
  {
    ZeroShiftProduct(delta, sample.nsscaledPerCycle);
    hide ShiftRight, ShiftedProduct, Wrap64;
    if delta * sample.nsscaledPerCycle < TWO_64 {
      WrapSmall(delta * sample.nsscaledPerCycle);
    }
  }

  lemma ZeroShiftProduct(delta: nat, slope: nat)
    ensures ShiftedProduct(delta, slope, 0) == delta * slope
  {
    ShiftByZero(delta);
    hide ShiftRight;
  }

  lemma WrapSmall(p: nat)
    requires p < TWO_64
    ensures Wrap64(p) == p
  {
  }

  lemma UnfoldExtrapolated(sample: Sample, r: Reading)
    requires sample.nsscaledPerCycle != 0
    ensures var s := NeededShift(sample, r.nowCycles);
      s <= K_SCALE ==>
        Extrapolated(sample, r)
        == Wrap64(sample.baseNs + ShiftedAdvance(DeltaCycles(sample, r.nowCycles), sample.nsscaledPerCycle, s))
  {
    hide ShiftRight, ShiftedProduct, DeltaCycles;
  }

  lemma AcceptedBase(sample: Sample, r: Reading)
    requires !MustRestart(sample, r) && CanCalibrate(sample, r)
    requires sample.nsscaledPerCycle != 0 && NextSample(sample, r).nsscaledPerCycle != 0
    ensures NextSample(sample, r).baseNs == Extrapolated(sample, r)
  {
    hide DiffNs, CorrectingSlope, DivideAndScale, Extrapolated;
  }

  lemma ShiftByZero(x: nat)
    ensures ShiftRight(x, 0) == x
  {
  }

  lemma NeededShiftFacts(delta: uint64, slope: uint64, s: nat)
    requires s == ShiftFrom(delta, slope, 0)
    ensures s == 0 <==> delta * slope < TWO_64
    ensures s <= K_SCALE <==> ShiftedProduct(delta, slope, K_SCALE) < TWO_64
  {
    ShiftByZero(delta);
    hide ShiftRight;
    if s <= K_SCALE {
      ShiftRightStep(delta, s, K_SCALE);
      ProductBound(ShiftRight(delta, K_SCALE), slope, ShiftRight(delta, s), slope);
    }
  }

  /** A product below 2^94 leaves the shift loop within its defined range. */
  lemma ShiftStaysDefined(delta: uint64, slope: uint64)
    requires delta * slope < Pow2(94)
    ensures ShiftFrom(delta, slope, 0) <= K_SCALE
  {
    NeededShiftFacts(delta, slope, ShiftFrom(delta, slope, 0));
    Pow2Values();
    Pow2Sum(30, 64);
    hide Pow2, ShiftFrom;
    NatDivision(delta, Pow2(30));
    var d := ShiftRight(delta, 30);
    ProductBound(Pow2(30) * d, slope, delta, slope);
    MulAssociates(Pow2(30), d, slope);
  }

  // ----- The clock object under its lock -----

  /** The variables protected by the sequence lock, with one writer at a time. */
  class CycleClock {
    var seqWord: nat
    var rawNs: uint64
    var baseNs: uint64
    var baseCycles: uint64
    var nsscaledPerCycle: uint64
    var minCyclesPerSample: uint64

    function LastSample(): Sample
      reads this
    {
      Sample(rawNs, baseNs, baseCycles, nsscaledPerCycle, minCyclesPerSample)
    }

    constructor ()
      ensures seqWord == 0 && LastSample() == ZERO_SAMPLE
    {
      seqWord := 0;
      rawNs, baseNs, baseCycles, nsscaledPerCycle, minCyclesPerSample := 0, 0, 0, 0, 0;
    }

    method SeqAcquire() returns (lockValue: nat)
      modifies this`seqWord
      ensures seqWord == old(seqWord) + 1 && lockValue == old(seqWord) + 2
    {
      var x := seqWord;
      seqWord := seqWord + 1;
      lockValue := x + 2;
    }

    method SeqRelease(x: nat)
      modifies this`seqWord
      ensures seqWord == x
    {
      seqWord := x;
    }

    method SlowPath(r: Reading) returns (estimate: uint64)
      modifies this
      ensures var sample := old(LastSample()); var delta := DeltaCycles(sample, r.nowCycles);
        if delta < sample.minCyclesPerSample then
          estimate == Interpolated(sample, delta) && LastSample() == sample && seqWord == old(seqWord)
        else
          estimate == Estimate(sample, r) && LastSample() == NextSample(sample, r) && seqWord == old(seqWord) + 2
    {
      var sample := LastSample();
      var deltaCycles := Wrap64(r.nowCycles - sample.baseCycles);
      if deltaCycles < sample.minCyclesPerSample {
        estimate := Wrap64(sample.baseNs + ShiftRight(Wrap64(deltaCycles * sample.nsscaledPerCycle), K_SCALE));
      } else {
        estimate := UpdateLastSample(r, deltaCycles, sample);
      }
    }

    method UpdateLastSample(r: Reading, deltaCycles: uint64, sample: Sample) returns (estimate: uint64)
      requires sample == LastSample() && deltaCycles == DeltaCycles(sample, r.nowCycles)
      modifies this
      ensures LastSample() == NextSample(sample, r) && estimate == Estimate(sample, r)
      ensures seqWord == old(seqWord) + 2
    {
      hide Pow2, ShiftRight, DivideAndScale, Extrapolated, TruncDiv;
      estimate := r.nowNs;
      var lockValue := SeqAcquire();
      if MustRestart(sample, r) {
        rawNs := r.nowNs;
        baseNs := estimate;
        baseCycles := r.nowCycles;
        nsscaledPerCycle := 0;
        minCyclesPerSample := 0;
      } else if CanCalibrate(sample, r) {
        if sample.nsscaledPerCycle != 0 {
          estimate := Extrapolate(r, deltaCycles, sample);
        }
        var measured := SafeDivideAndScale(Wrap64(r.nowNs - sample.rawNs), deltaCycles);
        var assumedNextSampleDeltaCycles := SafeDivideAndScale(MIN_NS_BETWEEN_SAMPLES, measured);
        var diffNs := DecodeTwosComp(Wrap64(r.nowNs - estimate));
        var ns := Wrap64(MIN_NS_BETWEEN_SAMPLES + diffNs - TruncDiv(diffNs, 16));
        var newSlope := SafeDivideAndScale(ns, assumedNextSampleDeltaCycles);
        if newSlope != 0 && diffNs < 100_000_000 && WrappingNegate(diffNs) < 100_000_000 {
          nsscaledPerCycle := newSlope;
          minCyclesPerSample := SafeDivideAndScale(MIN_NS_BETWEEN_SAMPLES, newSlope);
        } else {
          nsscaledPerCycle := 0;
          minCyclesPerSample := 0;
          estimate := r.nowNs;
        }
        rawNs := r.nowNs;
        baseNs := estimate;
        baseCycles := r.nowCycles;
      }
      SeqRelease(lockValue);
    }

    /** The retry loop that shifts the cycle count until its product with the slope does not wrap. */
    static method Extrapolate(r: Reading, deltaCycles: uint64, sample: Sample) returns (estimate: uint64)
      requires sample.nsscaledPerCycle != 0 && deltaCycles == DeltaCycles(sample, r.nowCycles)
      ensures estimate == Extrapolated(sample, r)
    {
      hide Pow2, ShiftRight, ShiftFrom, ShiftedProduct, Wrap64;
      var slope := sample.nsscaledPerCycle;
      var s := -1;
      var scaledNs;
      while true
        invariant -1 <= s < 63
        invariant ShiftFrom(deltaCycles, slope, 0) == ShiftFrom(deltaCycles, slope, s + 1)
        decreases 63 - s
      {
        s := s + 1;
        scaledNs := Wrap64(ShiftedProduct(deltaCycles, slope, s));
        ShiftFromTest(deltaCycles, slope, s);
        if scaledNs / slope == ShiftRight(deltaCycles, s) {
          break;
        }
      }
      estimate := Wrap64(sample.baseNs + if s <= K_SCALE then ShiftRight(scaledNs, K_SCALE - s) else r.undefinedShift);
    }
  }

  lemma ShiftFromTest(delta: uint64, slope: uint64, s: nat)
    requires slope != 0 && s <= 63
    ensures var x := ShiftRight(delta, s); var p := ShiftedProduct(delta, slope, s);
      && (Wrap64(p) / slope == x <==> p < TWO_64)
      && (p < TWO_64 ==> Wrap64(p) == p && ShiftFrom(delta, slope, s) == s)
      && (p >= TWO_64 ==> s < 63 && ShiftFrom(delta, slope, s) == ShiftFrom(delta, slope, s + 1))
  {
    TopBit(delta, slope);
    hide ShiftRight;
    DivideBackTest(ShiftRight(delta, s), slope);
  }
}

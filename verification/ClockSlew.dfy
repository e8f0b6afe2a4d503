/** Slewing the system clock, over exact reals. */
module ClockSlew {

  const MIN_OFFSET_CORRECTION: real := 0.000000001
  const MIN_SLEW_TIMEOUT: real := 1.0
  const MAX_SLEW_TIMEOUT: real := 10000.0
  const MAX_FREQ: real := 500.0               // in ppm
  const MAX_ADJTIME_SLEWRATE: real := 5000.0  // in ppm
  const MIN_FASTSLEW_OFFSET: real := 1.0
  const ADJTIME_UPDATE_INTERVAL: real := 1.0
  const MILLION: real := 1000000.0            // ppm

  function Abs(x: real): (r: real)
    ensures r >= 0.0
  {
    if x < 0.0 then -x else x
  }

  /** What a change of the frequency may miss by taking effect late. */
  function Late(change: real, delay: real): real {
    Abs(change * delay)
  }

  /** The code takes the absolute value as an integer, which drops the fraction. */
  function AbsTruncated(x: real): (r: real)
    ensures r <= Abs(x) < r + 1.0 && r == r.Floor as real
  {
    Abs(x).Floor as real
  }

  function Clamp(x: real, limit: real): (r: real)
    requires limit >= 0.0
    ensures -limit <= r <= limit
    ensures -limit <= x <= limit ==> r == x
  {
    if x > limit then limit else if x < -limit then -limit else x
  }

  /** How long the next slew should take. */
  function Estimate(offset: real, rate: real): (d: real)
    ensures d >= MIN_SLEW_TIMEOUT
    ensures Abs(offset) < MIN_OFFSET_CORRECTION ==> d == MAX_SLEW_TIMEOUT
  {
    if Abs(offset) < MIN_OFFSET_CORRECTION then MAX_SLEW_TIMEOUT else
    var d := rate / Abs(offset);
    if d < MIN_SLEW_TIMEOUT then MIN_SLEW_TIMEOUT else d
  }

  /** How long the clock slews before the next update. */
  function Interval(offset: real, slewFreq: real): (d: real)
    ensures MIN_SLEW_TIMEOUT <= d <= MAX_SLEW_TIMEOUT
  {
    if Abs(offset) < MIN_OFFSET_CORRECTION || offset * slewFreq <= 0.0 then MAX_SLEW_TIMEOUT else
    var d := offset / slewFreq;
    if d < MIN_SLEW_TIMEOUT then MIN_SLEW_TIMEOUT else if d > MAX_SLEW_TIMEOUT then MAX_SLEW_TIMEOUT else d
  }

  /** The slewing frequency relative to the real one. */
  function Relative(total: real, base: real): real
    requires total < MILLION
  {
    (total - base) / (MILLION - total)
  }

  /** What is left of an offset after slewing it for some time. */
  function Left(offset: real, slewFreq: real, time: real): real {
    offset - slewFreq * time
  }

  /** The frequency that makes up for a correction rate. */
  function Target(base: real, corrFreq: real, maxFreq: real): (f: real)
    requires maxFreq >= 0.0
    ensures -maxFreq <= f <= maxFreq
  {
    Clamp(base + corrFreq * (MILLION - base), maxFreq)
  }

  // ---------- what a slew should be ----------

  /** The time for an offset: the suggested one, in which the offset makes up the rate, but a second at least. */
  predicate Planned(offset: real, rate: real, d: real) {
    if Abs(offset) < MIN_OFFSET_CORRECTION then d == MAX_SLEW_TIMEOUT else
    d >= MIN_SLEW_TIMEOUT && d * Abs(offset) >= rate && (d == MIN_SLEW_TIMEOUT || d * Abs(offset) == rate)
  }

  /** A rate at which an offset is gone after this time, or the greatest one that is allowed. */
  predicate Corrects(offset: real, d: real, limit: real, c: real) {
    && -limit <= c <= limit
    && (-limit * d <= offset <= limit * d ==> c * d == offset)
    && (offset > limit * d ==> c == limit) && (offset < -limit * d ==> c == -limit)
  }

  /** The frequency that makes up for a rate, or the nearest one that is allowed. */
  predicate MakesUp(base: real, c: real, limit: real, f: real) {
    Nearest(f, base + c * (MILLION - base), limit)
  }

  predicate Nearest(x: real, wanted: real, limit: real) {
    && -limit <= x <= limit && (-limit <= wanted <= limit ==> x == wanted)
    && (wanted > limit ==> x == limit) && (wanted < -limit ==> x == -limit)
  }

  /** The offset is gone after this time, if a time between a second and the greatest one is enough. */
  predicate Lasts(offset: real, s: real, t: real) {
    if Abs(offset) < MIN_OFFSET_CORRECTION || offset * s <= 0.0 then t == MAX_SLEW_TIMEOUT else
    && MIN_SLEW_TIMEOUT <= t <= MAX_SLEW_TIMEOUT && (MIN_SLEW_TIMEOUT < t < MAX_SLEW_TIMEOUT ==> s * t == offset)
    && (t == MIN_SLEW_TIMEOUT ==> Abs(offset) <= Abs(s) * MIN_SLEW_TIMEOUT)
    && (t == MAX_SLEW_TIMEOUT ==> Abs(s) * MAX_SLEW_TIMEOUT <= Abs(offset))
  }

  lemma EstimateIsPlanned(offset: real, rate: real)
    ensures Planned(offset, rate, Estimate(offset, rate))
  {
    if Abs(offset) >= MIN_OFFSET_CORRECTION {
      QuotientTimes(rate, Abs(offset));
      if rate / Abs(offset) < MIN_SLEW_TIMEOUT {
        ProductOrder(rate / Abs(offset), MIN_SLEW_TIMEOUT, Abs(offset));
      }
    }
  }

  lemma RateCorrects(offset: real, d: real, limit: real)
    requires d >= MIN_SLEW_TIMEOUT && limit >= 0.0
    ensures Corrects(offset, d, limit, Clamp(offset / d, limit))
  {
    var q := offset / d;
    QuotientTimes(offset, d);
    Negated(limit, d);
    if q > limit {
      Steeper(limit, q, d);
    } else if q < -limit {
      Steeper(q, -limit, d);
    } else {
      ProductOrder(q, limit, d);
      ProductOrder(-limit, q, d);
    }
  }

  lemma Steeper(a: real, b: real, d: real)
    requires a < b && d > 0.0
    ensures a * d < b * d
  {
    Positive(b - a, d);
  }

  lemma IntervalLasts(offset: real, s: real)
    ensures Lasts(offset, s, Interval(offset, s))
  {
    if Abs(offset) >= MIN_OFFSET_CORRECTION && offset * s > 0.0 {
      var t := offset / s;
      QuotientTimes(offset, s);
      SameSign(offset, s);
      assert Abs(offset) == t * Abs(s) by {
        if s < 0.0 {
          Negated(s, t);
        }
      }
      if t < MIN_SLEW_TIMEOUT {
        ProductOrder(t, MIN_SLEW_TIMEOUT, Abs(s));
      } else if t > MAX_SLEW_TIMEOUT {
        ProductOrder(MAX_SLEW_TIMEOUT, t, Abs(s));
      }
    }
  }

  lemma SameSign(a: real, b: real)
    requires a * b > 0.0
    ensures (a > 0.0 && b > 0.0) || (a < 0.0 && b < 0.0)
  {
    if a <= 0.0 && b >= 0.0 {
      ProductOrder(a, 0.0, b);
    } else if a >= 0.0 && b <= 0.0 {
      ProductOrder(b, 0.0, a);
    }
  }

  // ---------- real arithmetic ----------

  lemma QuotientTimes(a: real, b: real)
    requires b != 0.0
    ensures (a / b) * b == a
  {
  }

  lemma ProductOrder(a: real, b: real, c: real)
    requires a <= b && c >= 0.0
    ensures a * c <= b * c
  {
  }

  lemma Positive(a: real, b: real)
    requires a > 0.0 && b > 0.0
    ensures a * b > 0.0
  {
  }

  lemma Negated(a: real, b: real)
    ensures (-a) * b == -(a * b)
  {
  }

  lemma Scaled(k: real, a: real, b: real)
    ensures (k * a) * b == k * (a * b)
  {
  }

  /** A factor may be divided out. */
  lemma Cancel(a: real, b: real, c: real)
    requires a * c <= b * c && c > 0.0
    ensures a <= b
  {
    if a > b {
      Positive(a - b, c);
    }
  }

  lemma CancelSign(a: real, c: real)
    requires c > 0.0
    ensures a * c >= 0.0 ==> a >= 0.0
    ensures a * c <= 0.0 ==> a <= 0.0
  {
    if a > 0.0 {
      Positive(a, c);
    } else if a < 0.0 {
      Positive(-a, c);
    }
  }

  // ---------- one slew ----------

  /** Clamping what is in range plus a step shortens the step. */
  lemma ClampedStep(base: real, step: real, limit: real)
    requires limit >= 0.0 && -limit <= base <= limit
    ensures
      var x := Clamp(base + step, limit) - base;
      (step >= 0.0 ==> 0.0 <= x <= step) && (step <= 0.0 ==> step <= x <= 0.0)
  {
  }

  /** A rate that covers the offset in time d, clamped. */
  lemma ClampedRate(offset: real, d: real, q: real, limit: real)
    requires q * d == offset && d >= 1.0 && limit >= 0.0
    ensures
      var c := Clamp(q, limit);
      (offset >= 0.0 ==> 0.0 <= c && c * d <= offset) && (offset <= 0.0 ==> c <= 0.0 && offset <= c * d)
  {
    CancelSign(q, d);
    if q >= 0.0 {
      ProductOrder(Clamp(q, limit), q, d);
    } else {
      ProductOrder(q, Clamp(q, limit), d);
    }
  }

  /** Speeding up by x of d, a fraction of at most c <= 1/2, gives a relative speed s of at most 2c. */
  lemma Faster(d: real, c: real, x: real, s: real)
    requires d > 0.0 && 0.0 <= c <= 0.5 && 0.0 <= x <= c * d && s * (d - x) == x
    ensures 0.0 <= s <= 2.0 * c
  {
    ProductOrder(c, 0.5, d);
    var e := d - x;
    assert 0.5 * d <= e;
    HalfSpeed(e, d, c, x, s);
  }

  lemma HalfSpeed(e: real, d: real, c: real, x: real, s: real)
    requires d > 0.0 && s * e == x && 0.5 * d <= e && 0.0 <= x <= c * d
    ensures 0.0 <= s <= 2.0 * c
  {
    CancelSign(s, e);
    ProductOrder(0.5 * d, e, s);
    Scaled(0.5, s, d);
    Scaled(0.5, d, s);
    Cancel(0.5 * s, c, d);
  }

  /** Slowing down is less steep. */
  lemma Slower(d: real, c: real, x: real, s: real)
    requires d > 0.0 && c <= 0.0 && c * d <= x <= 0.0 && s * (d - x) == x
    ensures c <= s <= 0.0
  {
    var e := d - x;
    CancelSign(s, e);
    ProductOrder(d, e, -s);
    Negated(s, d);
    Negated(s, e);
    Cancel(c, s, d);
  }

  /**
   * The slew goes in the direction of the offset, and in the time d at most twice as far. Here c
   * is the clamped rate, x the change of the real frequency and s that change as a relative speed.
   */
  lemma SlewInDirection(offset: real, d: real, q: real, c: real, full: real, x: real, s: real, maxCorr: real)
    requires q * d == offset && d >= 1.0 && full > 0.0 && 0.0 <= maxCorr <= 0.5 && c == Clamp(q, maxCorr)
    requires (c * full >= 0.0 ==> 0.0 <= x <= c * full) && (c * full <= 0.0 ==> c * full <= x <= 0.0)
    requires s * (full - x) == x
    ensures offset >= 0.0 ==> 0.0 <= s && s * d <= 2.0 * offset
    ensures offset <= 0.0 ==> s <= 0.0 && 2.0 * offset <= s * d
  {
    hide Clamp;
    ClampedRate(offset, d, q, maxCorr);
    if offset >= 0.0 {
      Forward(offset, d, c, full, x, s);
    }
    if offset <= 0.0 {
      Backward(offset, d, c, full, x, s);
    }
  }

  lemma Forward(offset: real, d: real, c: real, full: real, x: real, s: real)
    requires 0.0 <= c <= 0.5 && c * d <= offset && full > 0.0 && d >= 1.0
    requires c * full >= 0.0 ==> 0.0 <= x <= c * full
    requires s * (full - x) == x
    ensures 0.0 <= s && s * d <= 2.0 * offset
  {
    ProductOrder(0.0, c, full);
    Faster(full, c, x, s);
    ProductOrder(s, 2.0 * c, d);
    Scaled(2.0, c, d);
  }

  lemma Backward(offset: real, d: real, c: real, full: real, x: real, s: real)
    requires c <= 0.0 && offset <= c * d && full > 0.0 && d >= 1.0 && offset <= 0.0
    requires c * full <= 0.0 ==> c * full <= x <= 0.0
    requires s * (full - x) == x
    ensures s <= 0.0 && 2.0 * offset <= s * d
  {
    ProductOrder(c, 0.0, full);
    Slower(full, c, x, s);
    ProductOrder(c, s, d);
  }

  /** In the interval, such a slew does not overshoot by more than the offset was. */
  lemma NotIncreased(offset: real, s: real, d: real)
    requires d >= MIN_SLEW_TIMEOUT && (Abs(offset) < MIN_OFFSET_CORRECTION ==> d == MAX_SLEW_TIMEOUT)
    requires offset >= 0.0 ==> 0.0 <= s && s * d <= 2.0 * offset
    requires offset <= 0.0 ==> s <= 0.0 && 2.0 * offset <= s * d
    ensures Abs(Left(offset, s, Interval(offset, s))) <= Abs(offset)
  {
    hide Interval;
    var t := Interval(offset, s);
    if offset >= 0.0 {
      Travels(offset, s, d);
    } else {
      IntervalEven(offset, s);
      Negated(s, d);
      Travels(-offset, -s, d);
      Negated(s, t);
    }
  }

  lemma IntervalEven(offset: real, s: real)
    ensures Interval(-offset, -s) == Interval(offset, s)
  {
    assert (-offset) * (-s) == offset * s;
    if s != 0.0 {
      assert (-offset) / (-s) == offset / s;
    }
  }

  lemma Travels(offset: real, s: real, d: real)
    requires d >= MIN_SLEW_TIMEOUT && (Abs(offset) < MIN_OFFSET_CORRECTION ==> d == MAX_SLEW_TIMEOUT)
    requires offset >= 0.0 && 0.0 <= s && s * d <= 2.0 * offset
    ensures 0.0 <= s * Interval(offset, s) <= 2.0 * offset
  {
    hide Interval;
    if Abs(offset) < MIN_OFFSET_CORRECTION {
      SmallOffset(offset, s);
    } else if s > 0.0 {
      IntervalFits(offset, s);
    }
    TravelsAtMost(s, Interval(offset, s), d, offset);
  }

  /** A slew that goes in the direction of the offset, and slowly enough, brings it closer to zero. */
  lemma StrictlyCloser(offset: real, s: real)
    requires Abs(offset) >= MIN_OFFSET_CORRECTION && offset * s > 0.0 && Abs(s) < 2.0 * Abs(offset)
    ensures Abs(Left(offset, s, Interval(offset, s))) < Abs(offset)
  {
    hide Interval;
    var t := Interval(offset, s);
    SameSign(offset, s);
    if offset > 0.0 {
      IntervalFits(offset, s);
      Positive(s, t);
      PartWay(offset, s, t);
    } else {
      IntervalEven(offset, s);
      IntervalFits(-offset, -s);
      Positive(-s, t);
      PartWay(-offset, -s, t);
      Negated(s, t);
    }
    Closer(offset, s * t);
  }

  lemma Closer(offset: real, way: real)
    requires if offset > 0.0 then 0.0 < way < 2.0 * offset else 2.0 * offset < way < 0.0
    ensures Abs(offset - way) < Abs(offset)
  {
  }

  lemma PartWay(offset: real, s: real, t: real)
    requires 0.0 < s < 2.0 * offset && 0.0 < s * t && (t == 1.0 || s * t <= offset)
    ensures 0.0 < s * t < 2.0 * offset
  {
    if t == 1.0 {
      assert s * 1.0 == s;
    }
  }

  /** Where neither limit of the frequency is met, an offset is slewed, in its direction. */
  lemma Progress(offset: real, d: real, base: real, c: real, f: real, s: real, maxFreq: real, maxCorr: real)
    requires Abs(offset) >= MIN_OFFSET_CORRECTION && d >= MIN_SLEW_TIMEOUT && 0.0 < maxCorr <= 0.5
    requires 0.0 <= maxFreq < MILLION && -maxFreq < base < maxFreq
    requires Corrects(offset, d, maxCorr, c) && MakesUp(base, c, maxFreq, f) && s * (MILLION - f) == f - base
    ensures offset * s > 0.0
    ensures maxCorr < 0.5 ==> Abs(Left(offset, s, Interval(offset, s))) < Abs(offset)
  {
    hide Interval, Left, Corrects, MakesUp;
    var full, x := MILLION - base, f - base;
    RateAhead(offset, d, maxCorr, c);
    StepAhead(base, c, maxFreq, f);
    SpeedAhead(full, x, f, s);
    if offset > 0.0 {
      Positive(offset, s);
      if maxCorr < 0.5 {
        FasterStrictly(full, c, x, s);
        StrictlyCloser(offset, s);
      }
    } else {
      Slower(full, c, x, s);
      Opposite(offset, s);
      StrictlyCloser(offset, s);
    }
  }

  /** The frequency moves in the direction of the rate, and not too far. */
  lemma StepAhead(base: real, c: real, limit: real, f: real)
    requires 0.0 <= limit < MILLION && -limit < base < limit && MakesUp(base, c, limit, f)
    ensures f < MILLION
    ensures c > 0.0 ==> 0.0 < f - base <= c * (MILLION - base)
    ensures c < 0.0 ==> c * (MILLION - base) <= f - base < 0.0
  {
    var full := MILLION - base;
    if c > 0.0 {
      Positive(c, full);
    } else if c < 0.0 {
      Positive(-c, full);
      Negated(c, full);
    }
    NearestStep(base, c * full, limit, f);
  }

  lemma NearestStep(base: real, step: real, limit: real, f: real)
    requires -limit < base < limit && Nearest(f, base + step, limit)
    ensures step > 0.0 ==> 0.0 < f - base <= step
    ensures step < 0.0 ==> step <= f - base < 0.0
  {
  }

  lemma SpeedAhead(full: real, x: real, f: real, s: real)
    requires f < MILLION && full - x == MILLION - f && s * (MILLION - f) == x
    ensures s * (full - x) == x && (x > 0.0 ==> s > 0.0) && (x < 0.0 ==> s < 0.0)
  {
    SignOf(s, MILLION - f);
  }

  lemma Opposite(a: real, b: real)
    requires a < 0.0 && b < 0.0
    ensures a * b > 0.0
  {
    Positive(-a, -b);
    Negated(a, -b);
    Commutes(a, -b);
    Negated(b, a);
    Commutes(b, a);
  }

  lemma RateAhead(offset: real, d: real, limit: real, c: real)
    requires offset != 0.0 && d >= MIN_SLEW_TIMEOUT && limit > 0.0 && Corrects(offset, d, limit, c)
    ensures c <= limit && if offset > 0.0 then 0.0 < c <= offset else offset <= c < 0.0
  {
    Negated(limit, d);
    Positive(limit, d);
    Shorter(limit, d);
    if offset > 0.0 {
      RateForward(offset, d, limit, c);
    } else {
      Negated(c, d);
      RateForward(-offset, d, limit, -c);
    }
  }

  lemma RateForward(offset: real, d: real, limit: real, c: real)
    requires offset > 0.0 && d >= MIN_SLEW_TIMEOUT && limit > 0.0 && limit <= limit * d
    requires if offset <= limit * d then c * d == offset else c == limit
    ensures 0.0 < c <= offset
  {
    if offset <= limit * d {
      SignOf(c, d);
      Shorter(c, d);
    }
  }

  lemma Shorter(a: real, d: real)
    requires a > 0.0 && d >= MIN_SLEW_TIMEOUT
    ensures a <= a * d
  {
    ProductOrder(MIN_SLEW_TIMEOUT, d, a);
    Commutes(a, d);
  }

  lemma FasterStrictly(d: real, c: real, x: real, s: real)
    requires d > 0.0 && 0.0 < c < 0.5 && 0.0 < x <= c * d && s * (d - x) == x
    ensures 0.0 < s < 2.0 * c
  {
    MoreThanHalf(d, c, x);
    HalfSpeedStrictly(d - x, d, c, x, s);
  }

  lemma MoreThanHalf(d: real, c: real, x: real)
    requires d > 0.0 && c < 0.5 && x <= c * d
    ensures 0.5 * d < d - x
  {
    Steeper(c, 0.5, d);
  }

  lemma HalfSpeedStrictly(e: real, d: real, c: real, x: real, s: real)
    requires d > 0.0 && s * e == x && 0.5 * d < e && 0.0 < x <= c * d
    ensures 0.0 < s < 2.0 * c
  {
    SignOf(s, e);
    Steeper(0.5 * d, e, s);
    Commutes(e, s);
    Scaled(0.5, d, s);
    Commutes(d, s);
    if s >= 2.0 * c {
      ProductOrder(2.0 * c, s, d);
      Scaled(2.0, c, d);
    }
  }

  /** A factor has the sign of the product, if the other one is positive. */
  lemma SignOf(a: real, c: real)
    requires c > 0.0
    ensures a * c > 0.0 ==> a > 0.0
    ensures a * c < 0.0 ==> a < 0.0
  {
    CancelSign(a, c);
    if a == 0.0 {
      Zero(c);
    }
  }

  /** A time of 1, or the estimated one, or one that ends before the offset. */
  lemma TravelsAtMost(s: real, t: real, d: real, offset: real)
    requires 0.0 <= s && 1.0 <= t && 1.0 <= d && 0.0 <= offset && s * d <= 2.0 * offset
    requires s == 0.0 || t == d || t == 1.0 || s * t <= offset
    ensures 0.0 <= s * t <= 2.0 * offset
  {
    ProductOrder(0.0, s, t);
    if t == 1.0 {
      ShortTrip(s, d, 2.0 * offset);
    }
  }

  lemma ShortTrip(s: real, d: real, bound: real)
    requires 0.0 <= s && 1.0 <= d && s * d <= bound
    ensures s * 1.0 <= bound
  {
    ProductOrder(1.0, d, s);
    Commutes(s, d);
  }

  lemma Commutes(a: real, b: real)
    ensures a * b == b * a
  {
  }

  lemma SmallOffset(offset: real, s: real)
    requires Abs(offset) < MIN_OFFSET_CORRECTION
    ensures Interval(offset, s) == MAX_SLEW_TIMEOUT
  {
  }

  lemma IntervalFits(offset: real, s: real)
    requires offset >= MIN_OFFSET_CORRECTION && s > 0.0
    ensures Interval(offset, s) == MIN_SLEW_TIMEOUT || s * Interval(offset, s) <= offset
  {
    var q := offset / s;
    Positive(offset, s);
    QuotientTimes(offset, s);
    if Interval(offset, s) != MIN_SLEW_TIMEOUT {
      ProductOrder(Interval(offset, s), q, s);
    }
  }

  // ---------- the driver ----------

  class Clock {
    const maxFreq: real
    const maxCorrFreq: real
    const maxFreqChangeDelay: real
    const fastslewMinOffset: real
    const fastslewMaxRate: real
    const hasDriver: bool  // whether the system can slew on its own

    var baseFreq: real
    var offsetRegister: real
    var slewFreq: real
    var slewStart: real
    var slewError: real
    var correctionRate: real
    var fastslewActive: bool

    var remaining: real  // what the system still has to slew
    var requested: real  // the frequency last set
    var interval: real   // the time until the next update

    /** What the parameters have to satisfy. */
    predicate Parameters() {
      0.0 <= maxFreq < MILLION && 0.0 <= maxCorrFreq
    }

    /** The system has something left only of a fast slew. */
    predicate Valid()
      reads this
    {
      Parameters() && (!(hasDriver && fastslewActive) ==> remaining == 0.0)
    }

    /** The correction of raw time at a moment, if the fast slew has so much left. */
    function Correction(raw: real): real
      reads this
    {
      slewFreq * (raw - slewStart) + (if hasDriver && fastslewActive then remaining else 0.0) - offsetRegister
    }

    constructor (maxFreq: real, maxCorrFreq: real, maxFreqChangeDelay: real, fastslewMinOffset: real,
        fastslewMaxRate: real, hasDriver: bool, baseFreq: real, start: real)
      requires 0.0 <= maxFreq < MILLION && 0.0 <= maxCorrFreq
      ensures Valid() && forall raw: real :: Correction(raw) == 0.0
      ensures this.maxFreq == maxFreq && this.maxCorrFreq == maxCorrFreq && this.baseFreq == baseFreq
      ensures this.fastslewMinOffset == fastslewMinOffset && this.fastslewMaxRate == fastslewMaxRate
      ensures this.hasDriver == hasDriver && correctionRate == 0.0 && remaining == 0.0 && !fastslewActive
    {
      this.maxFreq, this.maxCorrFreq, this.maxFreqChangeDelay := maxFreq, maxCorrFreq, maxFreqChangeDelay;
      this.fastslewMinOffset, this.fastslewMaxRate, this.hasDriver := fastslewMinOffset, fastslewMaxRate, hasDriver;
      this.baseFreq, offsetRegister, slewFreq, slewStart := baseFreq, 0.0, 0.0, start;
      slewError, correctionRate, fastslewActive := 0.0, 0.0, false;
      remaining, requested, interval := 0.0, baseFreq, MAX_SLEW_TIMEOUT;
      new;
      forall raw: real
        ensures Correction(raw) == 0.0
      {
        Zero(raw - slewStart);
      }
    }

    /**
     * Asks the system to slew an offset on top of what it has left. This is the ideal driver: the
     * replacement of adjtime in the same file sets the time at once and never has anything left.
     */
    method AccrueDriver(offset: real)
      modifies this`remaining
      ensures remaining == old(remaining) - offset
    {
      var oldAdjustment := remaining;
      remaining := -offset;
      if oldAdjustment != 0.0 {
        remaining := -offset + oldAdjustment;
      }
    }

    method StartFastslew()
      modifies this`remaining, this`offsetRegister, this`fastslewActive
      ensures hasDriver ==> offsetRegister == 0.0 && fastslewActive && remaining == old(remaining - offsetRegister)
      ensures !hasDriver ==> unchanged(this)
    {
      if !hasDriver {
        return;
      }
      AccrueDriver(offsetRegister);
      offsetRegister, fastslewActive := 0.0, true;
    }

    /** Takes back what the system has not slewed. The flag stays. */
    method StopFastslew()
      modifies this`remaining, this`offsetRegister
      ensures hasDriver && fastslewActive ==> remaining == 0.0 && offsetRegister == old(offsetRegister - remaining)
      ensures !(hasDriver && fastslewActive) ==> unchanged(this)
    {
      if !hasDriver || !fastslewActive {
        return;
      }
      var corr := remaining;
      AccrueDriver(corr);
      offsetRegister := offsetRegister - corr;
    }

    /** What has not been corrected goes back to the offset register. */
    method EndSlew(now: real)
      modifies this`offsetRegister, this`remaining
      ensures offsetRegister == -old(Correction(now))
      ensures remaining == if hasDriver && fastslewActive then 0.0 else old(remaining)
    {
      var duration := now - slewStart;
      offsetRegister := offsetRegister - slewFreq * duration;
      StopFastslew();
    }

    /** Whether a fast slew that starts inherits something that is not part of the correction. */
    predicate Inherits(started: bool)
      reads this
    {
      started && !fastslewActive
    }

    /**
     * Ends the current slew and starts the next. The correction is continuous in every valid
     * state, and no other operation of the clock leaves these. Only where the system was asked to
     * slew behind the clock's back can a fast slew inherit a rest, and then this is the jump.
     */
    method UpdateSlew(now: real) returns (started: bool, ghost duration: real, ghost corrFreq: real)
      requires Parameters()
      modifies this
      ensures AsPlanned(-old(Correction(now)), started, duration, corrFreq) && Progresses(started)
      ensures slewError == Late(old(slewFreq) - slewFreq, maxFreqChangeDelay)
      ensures baseFreq == old(baseFreq) && correctionRate == old(correctionRate) && slewStart == now
      ensures old(Valid()) ==> Valid() && Correction(now) == old(Correction(now))
      ensures Correction(now) == old(Correction(now)) + if old(Inherits(started)) then old(remaining) else 0.0
      ensures if started then fastslewActive && offsetRegister == 0.0 else offsetRegister == -old(Correction(now))
      ensures !started ==>
        && fastslewActive == old(fastslewActive)
        && remaining == if hasDriver && fastslewActive then 0.0 else old(remaining)
      ensures -maxFreq <= requested <= maxFreq && MIN_SLEW_TIMEOUT <= interval <= MAX_SLEW_TIMEOUT
      ensures Tame() ==> Abs(AtNextUpdate()) <= Abs(offsetRegister)
    {
      hide Abs, Estimate, Interval, Clamp, Relative, AbsTruncated, AtNextUpdate, Left, Target, Planned, Corrects,
        MakesUp, Lasts, Late;
      EndSlew(now);
      EstimateIsPlanned(offsetRegister, correctionRate);
      var time := Estimate(offsetRegister, correctionRate);
      RateCorrects(offsetRegister, time, maxCorrFreq);
      var rate := Clamp(offsetRegister / time, maxCorrFreq);
      duration, corrFreq := time, rate;
      started := hasDriver && Abs(rate) >= fastslewMaxRate && AbsTruncated(offsetRegister) > fastslewMinOffset;
      if started {
        StartFastslew();
        NothingToSlew(maxCorrFreq);
        rate, time := 0.0, MAX_SLEW_TIMEOUT;
      }
      SetSlew(rate, time);
      slewStart := now;
      Zero(slewFreq);
      assert slewFreq * (now - slewStart) == 0.0;
    }

    /**
     * From an offset, the update plans a time and a rate for it. If the system does not take the
     * offset over, the frequency makes up for this rate, and the slew lasts until the offset is gone.
     */
    predicate AsPlanned(offset: real, started: bool, duration: real, corrFreq: real)
      reads this
    {
      && Planned(offset, correctionRate, duration) && Corrects(offset, duration, maxCorrFreq, corrFreq)
      && (started <==> hasDriver && Abs(corrFreq) >= fastslewMaxRate && AbsTruncated(offset) > fastslewMinOffset)
      && MakesUp(baseFreq, if started then 0.0 else corrFreq, maxFreq, requested)
      && slewFreq * (MILLION - requested) == requested - baseFreq
      && Lasts(offsetRegister, slewFreq, interval)
    }

    /** An offset is slewed, unless a limit of the frequency is met, and is smaller at the next update. */
    predicate Progresses(started: bool)
      reads this
    {
      !started && -maxFreq < baseFreq < maxFreq && 0.0 < maxCorrFreq <= 0.5
        && Abs(offsetRegister) >= MIN_OFFSET_CORRECTION ==>
        && offsetRegister * slewFreq > 0.0
        && (maxCorrFreq < 0.5 ==> Abs(AtNextUpdate()) < Abs(offsetRegister))
    }

    /** The conditions under which slewing does not make an offset larger. */
    predicate Tame()
      reads this
    {
      -maxFreq <= baseFreq <= maxFreq && maxCorrFreq <= 0.5
    }

    /** What is left of the offset when the scheduled update comes, if nothing changes until then. */
    function AtNextUpdate(): real
      reads this`offsetRegister, this`slewFreq, this`interval
    {
      Left(offsetRegister, slewFreq, interval)
    }

    method SetSlew(corrFreq: real, ghost duration: real)
      requires Parameters() && duration >= MIN_SLEW_TIMEOUT
      requires Abs(offsetRegister) < MIN_OFFSET_CORRECTION ==> duration == MAX_SLEW_TIMEOUT
      requires corrFreq == Clamp(offsetRegister / duration, maxCorrFreq)
      requires Corrects(offsetRegister, duration, maxCorrFreq, corrFreq)
      modifies this`slewFreq, this`slewError, this`requested, this`interval
      ensures -maxFreq <= requested <= maxFreq && MakesUp(baseFreq, corrFreq, maxFreq, requested)
      ensures slewFreq * (MILLION - requested) == requested - baseFreq
      ensures slewError == Late(old(slewFreq) - slewFreq, maxFreqChangeDelay)
      ensures MIN_SLEW_TIMEOUT <= interval <= MAX_SLEW_TIMEOUT && Lasts(offsetRegister, slewFreq, interval)
      ensures Tame() ==> Abs(AtNextUpdate()) <= Abs(offsetRegister)
      ensures Progresses(false)
    {
      hide Abs, Interval, Clamp, Relative, Left, Target, Corrects, MakesUp, Lasts, Late;
      requested := Target(baseFreq, corrFreq, maxFreq);
      var oldSlewFreq := slewFreq;
      slewFreq := Relative(requested, baseFreq);
      slewError := Late(oldSlewFreq - slewFreq, maxFreqChangeDelay);
      interval := Interval(offsetRegister, slewFreq);
      TargetMakesUp(baseFreq, corrFreq, maxFreq);
      RelativeTimes(requested, baseFreq);
      IntervalLasts(offsetRegister, slewFreq);
      if Abs(offsetRegister) >= MIN_OFFSET_CORRECTION && -maxFreq < baseFreq < maxFreq && 0.0 < maxCorrFreq <= 0.5 {
        Progress(offsetRegister, duration, baseFreq, corrFreq, requested, slewFreq, maxFreq, maxCorrFreq);
      }
      if Tame() {
        SlewHelpsInCode(offsetRegister, duration, baseFreq, corrFreq, requested, maxFreq, maxCorrFreq);
      }
    }

    /** A new base frequency does not make the time jump. */
    method SetFrequency(freq: real, now: real) returns (started: bool, ghost duration: real, ghost corrFreq: real)
      requires Parameters()
      modifies this
      ensures AsPlanned(-old(Correction(now)), started, duration, corrFreq) && Progresses(started)
      ensures baseFreq == freq && slewStart == now
      ensures old(Valid()) ==> Valid() && Correction(now) == old(Correction(now))
      ensures Correction(now) == old(Correction(now)) + if old(Inherits(started)) then old(remaining) else 0.0
    {
      hide Abs, Estimate, Interval, Clamp, Relative, AbsTruncated, AtNextUpdate, Left, Target, Tame, AsPlanned,
        Progresses;
      baseFreq := freq;
      started, duration, corrFreq := UpdateSlew(now);
    }

    /** What the system may slew between two updates of its own. */
    function FastError(): real
      reads this
    {
      if hasDriver && fastslewActive && remaining != 0.0 then 0.005 else 0.0
    }

    /** The correction at a moment. Once the system is done, its slew is over. */
    method OffsetConvert(raw: real) returns (corr: real, err: real)
      modifies this`fastslewActive
      ensures corr == old(Correction(raw)) && forall t: real :: Correction(t) == old(Correction(t))
      ensures hasDriver && old(fastslewActive) && remaining == 0.0 ==> !fastslewActive
      ensures Abs(raw - slewStart) <= maxFreqChangeDelay ==> err == slewError + old(FastError())
      ensures Abs(raw - slewStart) > maxFreqChangeDelay ==> err == old(FastError())
      ensures old(Valid()) ==> Valid()
    {
      var duration := raw - slewStart;
      var fastslewCorr, fastslewErr := 0.0, 0.0;
      if hasDriver && fastslewActive {
        fastslewCorr := remaining;
        fastslewErr := if remaining != 0.0 then MAX_ADJTIME_SLEWRATE / MILLION / ADJTIME_UPDATE_INTERVAL else 0.0;
        if fastslewCorr == 0.0 && fastslewErr == 0.0 {
          fastslewActive := false;
        }
      }
      corr := slewFreq * duration + fastslewCorr - offsetRegister;
      err := fastslewErr;
      if Abs(duration) <= maxFreqChangeDelay {
        err := err + slewError;
      }
    }

    /** The system slews, which brings what it has left closer to zero. */
    method SystemSlews(rest: real)
      requires Abs(rest) <= Abs(remaining)
      modifies this`remaining
      ensures remaining == rest && (old(Valid()) ==> Valid())
    {
      remaining := rest;
    }

    /**
     * The local clock asks for an offset. The registered driver hands it to the system directly:
     * the offset register and the flag of the fast slew do not take part.
     */
    method AccrueOffset(offset: real)
      modifies this`remaining
      ensures remaining == old(remaining) - offset
      ensures old(Valid()) ==> (Valid() <==> (hasDriver && fastslewActive) || offset == 0.0)
    {
      AccrueDriver(offset);
    }

    /** A known step of the clock moves the corrections along with it. */
    method HandleStep(doffset: real)
      modifies this`slewStart
      ensures forall raw: real :: Correction(raw - doffset) == old(Correction(raw))
      ensures old(Valid()) ==> Valid()
    {
      slewStart := slewStart - doffset;
      forall raw: real
        ensures Correction(raw - doffset) == old(Correction(raw))
      {
        assert (raw - doffset) - slewStart == raw - old(slewStart);
      }
    }

    /** What the fast slew contributes to the correction. */
    function FastPart(): real
      reads this
    {
      if hasDriver && fastslewActive then remaining else 0.0
    }

    /**
     * After a step by an unknown amount, the offset is forgotten, but for the fast slew. The update
     * reads the clock again, so the slew that still runs counts from the step on.
     */
    method HandleUnknownStep(raw: real, now: real)
      returns (started: bool, ghost duration: real, ghost corrFreq: real)
      requires Parameters()
      modifies this
      ensures AsPlanned(-old(FastPart() + slewFreq * (now - raw)), started, duration, corrFreq) && Progresses(started)
      ensures slewStart == now && -maxFreq <= requested <= maxFreq
      ensures old(Valid()) ==> Valid() && Correction(now) == old(FastPart() + slewFreq * (now - raw))
      ensures Correction(now)
           == old(FastPart() + slewFreq * (now - raw)) + if old(Inherits(started)) then old(remaining) else 0.0
    {
      hide Abs, Estimate, Interval, Clamp, Relative, AbsTruncated, AtNextUpdate, Left, Target, Tame, AsPlanned,
        Progresses;
      slewStart, offsetRegister := raw, 0.0;
      assert Correction(now) == old(FastPart() + slewFreq * (now - raw));
      assert old(Valid()) ==> Valid();
      started, duration, corrFreq := UpdateSlew(now);
    }
  }

  /**
   * With the registered limits and the ideal driver, a run of such calls makes the correction jump
   * from -2 to -8: the system is asked for 7 seconds and slews one of them, and then the clock's
   * own offset has grown to a fast slew: at a base frequency out of range the clock loses a
   * hundredth of a second each second.
   */
  method InheritedRest() returns (before: real, after: real)
    ensures before == -2.0 && after == -8.0
  {
    hide Abs, Clamp, Estimate, Interval, Relative, AbsTruncated, Left, Target, Lasts;
    ExampleValues();
    var fastslewMaxRate := MAX_ADJTIME_SLEWRATE / MILLION;
    var clock := new Clock(MAX_FREQ, 0.08, 0.01, MIN_FASTSLEW_OFFSET, fastslewMaxRate, true, 10495.0, 0.0);
    assert -clock.Correction(0.0) == 0.0;
    var started;
    ghost var duration, corrFreq;
    started, duration, corrFreq := clock.UpdateSlew(0.0);
    assert !started && clock.offsetRegister == 0.0 && clock.slewFreq == -0.01;
    clock.AccrueOffset(7.0);
    var err;
    clock.SystemSlews(-6.0);
    before, err := clock.OffsetConvert(200.0);
    assert clock.slewFreq * (200.0 - clock.slewStart) == -2.0;
    assert -clock.Correction(200.0) == 2.0;
    started, duration, corrFreq := clock.UpdateSlew(200.0);
    assert started;
    after, err := clock.OffsetConvert(200.0);
  }

  lemma ExampleValues()
    ensures AbsTruncated(0.0) == 0.0 && AbsTruncated(2.0) == 2.0 && Abs(0.08) == 0.08 && Abs(0.0) == 0.0
    ensures Abs(-7.0) == 7.0 && Abs(-6.0) == 6.0 && Abs(2.0) == 2.0
  {
  }

  lemma TargetStep(base: real, c: real, maxFreq: real)
    requires 0.0 <= maxFreq && -maxFreq <= base <= maxFreq
    ensures
      var step, x := c * (MILLION - base), Target(base, c, maxFreq) - base;
      (step >= 0.0 ==> 0.0 <= x <= step) && (step <= 0.0 ==> step <= x <= 0.0)
  {
    ClampedStep(base, c * (MILLION - base), maxFreq);
  }

  /** Here q is the rate wanted, c the rate clamped, step the change of frequency wanted, and x the real one. */
  lemma SlewHelps(offset: real, d: real, q: real, c: real, base: real, full: real, step: real, x: real, s: real,
      maxFreq: real, maxCorr: real)
    requires d >= MIN_SLEW_TIMEOUT && (Abs(offset) < MIN_OFFSET_CORRECTION ==> d == MAX_SLEW_TIMEOUT)
    requires 0.0 <= maxFreq && -maxFreq <= base <= maxFreq && 0.0 <= maxCorr <= 0.5 && full > 0.0
    requires q * d == offset && c == Clamp(q, maxCorr)
    requires step == c * full && full == MILLION - base && x == Target(base, c, maxFreq) - base
    requires s * (full - x) == x
    ensures Abs(Left(offset, s, Interval(offset, s))) <= Abs(offset)
  {
    hide Abs, Interval, Clamp, Relative, Left, Target;
    TargetStep(base, c, maxFreq);
    SlewInDirection(offset, d, q, c, full, x, s, maxCorr);
    NotIncreased(offset, s, d);
  }

  /** The same in the terms of the code. */
  lemma SlewHelpsInCode(offset: real, d: real, base: real, c: real, total: real, maxFreq: real, maxCorr: real)
    requires d >= MIN_SLEW_TIMEOUT && (Abs(offset) < MIN_OFFSET_CORRECTION ==> d == MAX_SLEW_TIMEOUT)
    requires 0.0 <= maxFreq < MILLION && -maxFreq <= base <= maxFreq && 0.0 <= maxCorr <= 0.5
    requires c == Clamp(offset / d, maxCorr) && total == Target(base, c, maxFreq)
    ensures Abs(Left(offset, Relative(total, base), Interval(offset, Relative(total, base)))) <= Abs(offset)
  {
    hide Abs, Interval, Clamp, Relative, Left, Target;
    RelativeTimes(total, base);
    QuotientTimes(offset, d);
    assert MILLION - total == (MILLION - base) - (total - base);
    SlewHelps(offset, d, offset / d, c, base, MILLION - base, c * (MILLION - base), total - base,
      Relative(total, base), maxFreq, maxCorr);
  }

  lemma Zero(x: real)
    ensures x * 0.0 == 0.0 && 0.0 * x == 0.0
  {
  }

  lemma NothingToSlew(limit: real)
    requires limit >= 0.0
    ensures Abs(0.0) < MIN_OFFSET_CORRECTION && Clamp(0.0 / MAX_SLEW_TIMEOUT, limit) == 0.0
    ensures Corrects(0.0, MAX_SLEW_TIMEOUT, limit, 0.0)
  {
  }

  lemma TargetMakesUp(base: real, c: real, limit: real)
    requires limit >= 0.0
    ensures MakesUp(base, c, limit, Target(base, c, limit))
  {
  }

  lemma RelativeTimes(total: real, base: real)
    requires total < MILLION
    ensures Relative(total, base) * (MILLION - total) == total - base
  {
    QuotientTimes(total - base, MILLION - total);
  }
}

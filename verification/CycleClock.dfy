/** Converting CPU cycles to nanoseconds (fio4emu/gettime.c): constants are derived once from the
    measured cycles per millisecond, then every reading is one multiplication and shift in 64 bits. */
module CycleClock {
  import opened Bits

  const ULLONG_MAX: nat := TWO_64 - 1
  const MILLION: nat := 1000000
  const HOUR_MSECS: nat := 3600000   // MAX_CLOCK_SEC * 1000

  /** clock_shift, clock_mult, max_cycles_shift, max_cycles_mask, nsecs_for_max_cycles */
  datatype Clock = Clock(shift: nat, mult: nat, maxShift: nat, mask: nat, period: nat)

  predicate Measurable(cpm: nat) {
    cpm > 0 && HOUR_MSECS * cpm <= ULLONG_MAX
  }

  /** The largest multiplier that cannot overflow within the hour. */
  function MaxMult(cpm: nat): nat
    requires Measurable(cpm)
  {
    ULLONG_MAX / (HOUR_MSECS * cpm)
  }

  /** What the conversion relies on: constants that fit together, with room for the masked product. */
  ghost predicate Sound(cpm: nat, c: Clock) {
    var p, s := Pow2(c.maxShift), Pow2(c.shift);
    && cpm > 0
    && c.mask == p - 1
    && Times(p, c.mult) <= ULLONG_MAX
    && c.period == Quotient(Times(p, c.mult), s)
    && Times(c.mult, cpm) <= s * MILLION < Times(c.mult, cpm) + cpm
  }

  /** What a calibration yields besides: the period is the largest power of two within the hour, and the
      shift the largest for which the unrounded multiplier 2^shift * 10^6 / cpm stays within MaxMult. */
  ghost predicate Calibrated(cpm: nat, c: Clock) {
    && Measurable(cpm)
    && Sound(cpm, c)
    && 21 <= c.shift <= 22
    && Pow2(c.shift) * MILLION <= Times(MaxMult(cpm), cpm) < Pow2(c.shift + 1) * MILLION
    && c.mult <= MaxMult(cpm)
    && Pow2(c.maxShift) <= HOUR_MSECS * cpm < Pow2(c.maxShift + 1)
  }

  // ----- arithmetic -----

  function Times(a: nat, b: nat): nat {
    a * b
  }

  function Quotient(x: nat, d: nat): nat
    requires d > 0
  {
    x / d
  }

  lemma DivBounds(x: nat, d: nat)
    requires d > 0
    ensures (x / d) * d <= x < (x / d) * d + d
  {}

  lemma DivMono(x: nat, y: nat, d: nat)
    requires x <= y && d > 0
    ensures x / d <= y / d
  {
    DivBounds(x, d);
    DivBounds(y, d);
    Gap(d, x / d, y / d);
  }

  lemma MulMono2(a: nat, b: nat, c: nat, d: nat)
    requires a <= b && c <= d
    ensures a * c <= b * d
  {
    MulMono(a, c, d);
    MulMono(d, a, b);
  }

  // ----- calibration -----

  lemma Halve(x: nat, half: nat, p: nat)
    requires 2 * half <= x <= 2 * half + 1
    ensures Times(half, 2 * p) <= Times(x, p) && Times(x + 1, p) <= Times(half + 1, 2 * p)
  {
    MulMono(p, 2 * half, x);
    MulMono(p, x + 1, 2 * (half + 1));
    Swap(2, half, p);
    Swap(2, half + 1, p);
  }

  /** The shift loops: how often a number can be halved before it is one. */
  method FloorLog(n: nat) returns (k: nat)
    ensures n >= 1 ==> Pow2(k) <= n < Pow2(k + 1)
    ensures n == 0 ==> k == 0
  {
    k := 0;
    var tmp := n;
    while tmp > 1
      invariant Times(tmp, Pow2(k)) <= n < Times(tmp + 1, Pow2(k))
      invariant n >= 1 ==> tmp >= 1
      invariant n == 0 ==> k == 0
    {
      Halve(tmp, tmp / 2, Pow2(k));
      tmp := tmp / 2;
      k := k + 1;
    }
  }

  /** max_mult * cycles_per_msec lies between half and all of what an hour allows. */
  lemma MaxMultRange(cpm: nat)
    requires Measurable(cpm)
    ensures MaxMult(cpm) >= 1
    ensures ULLONG_MAX < 2 * HOUR_MSECS * Times(MaxMult(cpm), cpm) && HOUR_MSECS * Times(MaxMult(cpm), cpm) <= ULLONG_MAX
  {
    var m, ticks := MaxMult(cpm), HOUR_MSECS * cpm;
    DivBounds(ULLONG_MAX, ticks);
    assert m == 0 ==> m * ticks == 0;
    MulMono(ticks, 1, m);
    assert m * ticks == HOUR_MSECS * (m * cpm);
  }

  lemma {:induction false} SmallPowers()
    ensures Pow2(21) == 2_097_152 && Pow2(22) == 4_194_304 && Pow2(23) == 8_388_608
  {
    assert Pow2(8) == 256;
    Pow2Add(8, 8);
    Pow2Add(16, 5);
    Pow2Add(16, 6);
    Pow2Add(16, 7);
  }

  lemma ShiftRange(n: nat, k: nat)
    requires Pow2(k) <= n < Pow2(k + 1) && 2_097_152 <= n < 8_388_608
    ensures 21 <= k <= 22
  {
    SmallPowers();
    if k < 21 { Pow2Mono(k + 1, 21); }
    if k > 22 { Pow2Mono(23, k); }
  }

  /** The shift found from tmp = max_mult * cycles_per_msec / 1000000. */
  lemma ShiftFits(cpm: nat, y: nat, shift: nat)
    requires Measurable(cpm) && y == Times(MaxMult(cpm), cpm)
    requires Pow2(shift) <= y / MILLION < Pow2(shift + 1)
    ensures 21 <= shift <= 22
    ensures Pow2(shift) * MILLION <= y < Pow2(shift + 1) * MILLION
    ensures Pow2(shift) * MILLION < TWO_64
  {
    MaxMultRange(cpm);
    ShiftRange(y / MILLION, shift);
  }

  /** A multiplier rounded down from z / cpm keeps its products within the limits of z. */
  lemma MultFits(cpm: nat, z: nat, limit: nat, mult: nat, ticks: nat, p: nat)
    requires cpm > 0 && z <= Times(limit, cpm) && mult == Quotient(z, cpm)
    requires p <= ticks && Times(limit, ticks) <= ULLONG_MAX
    ensures mult <= limit && Times(p, mult) <= ULLONG_MAX
    ensures Times(mult, cpm) <= z < Times(mult, cpm) + cpm
  {
    DivBounds(z, cpm);
    if mult > limit { Gap(cpm, limit, mult); }
    MulMono2(p, ticks, mult, limit);
  }

  /** The multiplier limit: max_mult hours of ticks fit in 64 bits. */
  lemma LimitFits(cpm: nat)
    requires Measurable(cpm)
    ensures Times(MaxMult(cpm), HOUR_MSECS * cpm) <= ULLONG_MAX
  {
    DivBounds(ULLONG_MAX, HOUR_MSECS * cpm);
  }

  /** max_mult and tmp, as calibrate_cpu_clock computes them. */
  method Limits(cpm: nat) returns (maxMult: nat, tmp: nat)
    requires Measurable(cpm)
    ensures maxMult == MaxMult(cpm) && tmp == Times(maxMult, cpm) / MILLION && tmp >= 1
  {
    var maxTicks := U64(U64(3600 * cpm) * 1000);
    assert maxTicks == HOUR_MSECS * cpm;
    maxMult := Quotient(ULLONG_MAX, maxTicks);
    tmp := U64(Times(maxMult, cpm)) / MILLION;
    MaxMultRange(cpm);
  }

  /** The constants computed by calibrate_cpu_clock, every product reduced to 64 bits as in C. */
  method Calibrate(cpm: nat) returns (c: Clock)
    requires Measurable(cpm)
    ensures Calibrated(cpm, c)
  {
    var maxMult, tmp := Limits(cpm);
    var shift := FloorLog(tmp);
    ShiftFits(cpm, Times(maxMult, cpm), shift);
    var mult := Quotient(U64(U64(Pow2(shift)) * MILLION), cpm);
    var maxShift := FloorLog(U64(HOUR_MSECS * cpm));
    LimitFits(cpm);
    MultFits(cpm, Pow2(shift) * MILLION, maxMult, mult, HOUR_MSECS * cpm, Pow2(maxShift));
    var period := Quotient(U64(Times(Pow2(maxShift), mult)), Pow2(shift));
    var mask := LowMask(maxShift);
    c := Clock(shift, mult, maxShift, mask, period);
  }

  /** The loop that builds the mask. */
  method LowMask(n: nat) returns (mask: nat)
    ensures mask == Pow2(n) - 1
  {
    mask := 0;
    for bit := 0 to n
      invariant mask == Pow2(bit) - 1
    {
      OrNextBit(bit);
      mask := Or(mask, Pow2(bit));
    }
  }

  // ----- conversion -----

  lemma Expand(q: int, a: int, r: int, m: int)
    ensures (q * a + r) * m == q * (a * m) + r * m
  {}

  /** Rounding q periods and a rest down separately loses less than one unit each. */
  lemma RoundedParts(q: nat, p: nat, r: nat, m: nat, s: nat, x: nat, y: nat)
    requires x * s <= p * m <= x * s + s
    requires y * s <= r * m <= y * s + s
    ensures (q * x + y) * s <= (q * p + r) * m <= (q * x + y) * s + (q + 1) * s
  {
    Expand(q, p, r, m);
    Expand(q, x, y, s);
    Expand(q, 1, 1, s);
    MulMono(q, x * s, p * m);
    MulMono(q, p * m, x * s + s);
    MulSub(q, x * s + s, s);
  }

  /** The nanoseconds for `t` cycles with p cycles per period, multiplier m and scale s,
      without any limit on the width. */
  function Convert(p: nat, m: nat, s: nat, t: nat): nat
    requires p > 0 && s > 0
  {
    Times(Quotient(t, p), Quotient(Times(p, m), s)) + Quotient(Times(t % p, m), s)
  }

  /** What the two roundings can lose: the result scaled back is at most t * m, and short of it
      by less than one unit per period and one for the rest. */
  lemma Scaled(p: nat, m: nat, s: nat, t: nat)
    requires p > 0 && s > 0
    ensures Convert(p, m, s, t) * s <= t * m <= Convert(p, m, s, t) * s + (t / p + 1) * s
  {
    var x, y := Quotient(Times(p, m), s), Quotient(Times(t % p, m), s);
    DivBounds(Times(p, m), s);
    DivBounds(Times(t % p, m), s);
    RoundedParts(t / p, p, t % p, m, s, x, y);
    assert t == (t / p) * p + t % p;
  }

  /** The conversion never runs ahead of true elapsed time. */
  lemma NotAhead(p: nat, m: nat, s: nat, t: nat, cpm: nat)
    requires p > 0 && s > 0 && m * cpm <= s * MILLION
    ensures Convert(p, m, s, t) * cpm <= t * MILLION
  {
    var n := Convert(p, m, s, t);
    Scaled(p, m, s, t);
    Cancel(n, s, t, m, cpm);
  }

  lemma Swap(a: int, b: int, c: int)
    ensures a * (b * c) == c * (b * a) == b * (a * c)
  {}

  lemma Cancel(n: nat, s: nat, t: nat, m: nat, cpm: nat)
    requires s > 0 && n * s <= t * m && m * cpm <= s * MILLION
    ensures n * cpm <= t * MILLION
  {
    MulMono(cpm, n * s, t * m);
    MulMono(t, m * cpm, s * MILLION);
    Swap(s, n, cpm);
    Swap(t, m, cpm);
    Swap(s, t, MILLION);
    Gap(s, t * MILLION, n * cpm);
  }

  lemma LagBound(p: nat, m: nat, s: nat, t: nat, cpm: nat)
    requires p > 0 && s > 0 && s * MILLION <= m * cpm + cpm
    ensures t * MILLION * s <= (Convert(p, m, s, t) + t / p + 1) * cpm * s + t * cpm
  {
    var n, k := Convert(p, m, s, t), t / p + 1;
    Scaled(p, m, s, t);
    Lag(n, k, s, t, m, cpm);
  }

  lemma Lag(n: nat, k: nat, s: nat, t: nat, m: nat, cpm: nat)
    requires s > 0 && t * m <= n * s + k * s && s * MILLION <= m * cpm + cpm
    ensures t * MILLION * s <= (n + k) * cpm * s + t * cpm
  {
    MulMono(t, s * MILLION, m * cpm + cpm);
    MulMono(cpm, t * m, n * s + k * s);
    assert t * MILLION * s == t * (s * MILLION);
    assert t * (m * cpm + cpm) == cpm * (t * m) + t * cpm;
    assert cpm * (n * s + k * s) == (n + k) * cpm * s;
  }

  lemma ConvertMonotone(p: nat, m: nat, s: nat, t: nat, u: nat)
    requires p > 0 && s > 0 && t <= u
    ensures Convert(p, m, s, t) <= Convert(p, m, s, u)
  {
    var q, r, q', r' := t / p, t % p, u / p, u % p;
    var period := Quotient(Times(p, m), s);
    DivMono(t, u, p);
    if q == q' {
      assert r <= r' by { assert t == q * p + r && u == q' * p + r'; }
      ProductDivMono(r, r', m, s);
    } else {
      ProductDivMono(r, p, m, s);
      Gap(period, q, q');
    }
  }

  lemma ProductDivMono(a: nat, b: nat, m: nat, s: nat)
    requires s > 0 && a <= b
    ensures Quotient(Times(a, m), s) <= Quotient(Times(b, m), s)
  {
    MulMono(m, a, b);
    DivMono(Times(a, m), Times(b, m), s);
  }

  // ----- the calibrated clock -----

  function Ns(c: Clock, t: nat): nat {
    Convert(Pow2(c.maxShift), c.mult, Pow2(c.shift), t)
  }

  /** For every calibration and every two cycle counts: time does not go backwards, also across period
      boundaries; it never exceeds true elapsed time t * 10^6 / cpm; and it lags behind by at most
      t / 2^shift ns (less than one part in two million of the cycles), one ns per completed period, and one. */
  lemma ClockIsSound(cpm: nat, c: Clock, t: nat, u: nat)
    requires Sound(cpm, c)
    ensures t <= u ==> Ns(c, t) <= Ns(c, u)
    ensures Ns(c, t) * cpm <= t * MILLION
    ensures t * MILLION * Pow2(c.shift) <= (Ns(c, t) + t / Pow2(c.maxShift) + 1) * cpm * Pow2(c.shift) + t * cpm
  {
    var p, s := Pow2(c.maxShift), Pow2(c.shift);
    if t <= u { ConvertMonotone(p, c.mult, s, t, u); }
    NotAhead(p, c.mult, s, t, cpm);
    LagBound(p, c.mult, s, t, cpm);
  }

  /** The masked product stays within 64 bits. */
  lemma MaskedProductFits(p: nat, m: nat, t: nat)
    requires p > 0 && Times(p, m) <= ULLONG_MAX
    ensures Times(t % p, m) < TWO_64
  {
    var r := t % p;
    MulMono(m, r, p);
    assert Times(r, m) <= Times(p, m);
  }

  /** The result stays within 64 bits as long as the true time does. */
  lemma ResultFits(p: nat, m: nat, s: nat, t: nat, cpm: nat)
    requires p > 0 && s > 0 && m * cpm <= s * MILLION
    requires t * MILLION < TWO_64 * cpm
    ensures Convert(p, m, s, t) < TWO_64
  {
    var n := Convert(p, m, s, t);
    NotAhead(p, m, s, t, cpm);
    Below(n, cpm, t * MILLION);
  }

  lemma Below(n: nat, cpm: nat, x: nat)
    requires n * cpm <= x < TWO_64 * cpm
    ensures n < TWO_64
  {
    Gap(cpm, TWO_64, n);
  }

  /** Reading the clock: the CS_CPUCLOCK branch, every result reduced to 64 bits as in C. As long as the true
      time since `start` fits in 64 bits nothing overflows and the reading is Ns. */
  method GetTime(cpm: nat, c: Clock, now: nat, start: nat) returns (sec: nat, nsec: nat)
    requires Sound(cpm, c) && now < TWO_64 && start < TWO_64
    ensures nsec < 1_000_000_000
    ensures var t := U64(now - start);
      t * MILLION < TWO_64 * cpm ==> sec * 1_000_000_000 + nsec == Ns(c, t)
  {
    var t := U64(now - start);
    ghost var p := Pow2(c.maxShift);
    AndMask(t, c.maxShift);
    MaskedProductFits(p, c.mult, t);
    if t * MILLION < TWO_64 * cpm {
      ResultFits(p, c.mult, Pow2(c.shift), t, cpm);
    }
    var multiples := Quotient(t, Pow2(c.maxShift));
    var nsecs := U64(Times(multiples, c.period));
    nsecs := U64(nsecs + Quotient(U64(Times(And(t, c.mask), c.mult)), Pow2(c.shift)));
    sec := nsecs / 1_000_000_000;
    nsec := nsecs % 1_000_000_000;
  }

  // ----- when the promise about the shift holds -----

  /** The multiplier that a given shift would produce. */
  function MultFor(cpm: nat, shift: nat): nat
    requires cpm > 0
  {
    Quotient(Pow2(shift) * MILLION, cpm)
  }

  /** The promise: no larger shift has a multiplier within MaxMult. */
  ghost predicate LargestShift(cpm: nat, shift: nat)
    requires Measurable(cpm)
  {
    && MultFor(cpm, shift) <= MaxMult(cpm)
    && forall k :: k > shift ==> MultFor(cpm, k) > MaxMult(cpm)
  }

  /** 2^shift for the shift that the calibration picks, in terms of the measured speed alone. */
  function Scale(cpm: nat): nat
    requires Measurable(cpm)
  {
    if Times(MaxMult(cpm), cpm) >= 4_194_304 * MILLION then 4_194_304 else 2_097_152
  }

  lemma {:induction false} ShiftIsScale(cpm: nat, c: Clock)
    requires Calibrated(cpm, c)
    ensures Pow2(c.shift) == Scale(cpm) && Pow2(c.shift + 1) == 2 * Scale(cpm)
    ensures c.mult == MultFor(cpm, c.shift)
  {
    SmallPowers();
    DivExact(Pow2(c.shift) * MILLION, cpm, c.mult);
  }

  lemma DivExact(x: nat, d: nat, q: nat)
    requires d > 0 && Times(q, d) <= x < Times(q, d) + d
    ensures Quotient(x, d) == q
  {
    DivAtLeast(x, d, q);
    DivAtLeast(x, d, q + 1);
    Gap(d, q, q + 1);
  }

  lemma DivAtLeast(x: nat, d: nat, k: nat)
    requires d > 0
    ensures Quotient(x, d) >= k <==> Times(k, d) <= x
  {
    DivBounds(x, d);
    Gap(d, Quotient(x, d), k);
  }

  /** The exact condition: the shift is the largest one allowed if and only if rounding down cannot bring
      the next multiplier back to MaxMult. */
  lemma {:induction false} LargestShiftExactlyWhen(cpm: nat, c: Clock)
    requires Calibrated(cpm, c)
    ensures LargestShift(cpm, c.shift) <==> Times(MaxMult(cpm) + 1, cpm) <= 2 * Scale(cpm) * MILLION
  {
    ShiftIsScale(cpm, c);
    DivAtLeast(Pow2(c.shift + 1) * MILLION, cpm, MaxMult(cpm) + 1);
    if Times(MaxMult(cpm) + 1, cpm) <= 2 * Scale(cpm) * MILLION {
      forall k | k > c.shift ensures MultFor(cpm, k) > MaxMult(cpm) {
        Pow2Mono(c.shift + 1, k);
        DivMono(Pow2(c.shift + 1) * MILLION, Pow2(k) * MILLION, cpm);
      }
    } else {
      assert MultFor(cpm, c.shift + 1) <= MaxMult(cpm);
    }
  }

  // ----- when the clock advances -----

  /** Of any two 64-bit cycle counts at least one period apart the later one reads later. */
  ghost predicate Advances(c: Clock) {
    forall t: nat, u: nat :: t + Pow2(c.maxShift) <= u < TWO_64 ==> Ns(c, t) < Ns(c, u)
  }

  /** The speeds that leave a multiplier above zero: those measured below half the representable range, and
      the single one above it at which the division is exact. */
  predicate Usable(cpm: nat) {
    2 * HOUR_MSECS * cpm <= ULLONG_MAX || cpm == 4_194_304 * MILLION
  }

  lemma {:induction false} MultPositive(cpm: nat, c: Clock)
    requires Calibrated(cpm, c)
    ensures c.mult > 0 <==> Usable(cpm)
  {
    var m := MaxMult(cpm);
    ShiftIsScale(cpm, c);
    DivAtLeast(Scale(cpm) * MILLION, cpm, 1);
    DivAtLeast(ULLONG_MAX, HOUR_MSECS * cpm, 2);
    MaxMultRange(cpm);
    if m >= 2 { MulMono(cpm, 2, m); }
  }

  /** With a multiplier above zero every completed period adds at least a nanosecond. */
  lemma {:induction false} PeriodsCount(cpm: nat, c: Clock, t: nat, u: nat)
    requires Calibrated(cpm, c) && c.mult > 0
    ensures Ns(c, t) >= Quotient(t, Pow2(c.maxShift))
    ensures t + Pow2(c.maxShift) <= u ==> Ns(c, t) < Ns(c, u)
  {
    var p, s := Pow2(c.maxShift), Pow2(c.shift);
    PeriodWorth(p, s, c.mult, cpm);
    MulMono(Quotient(t, p), 1, Quotient(Times(p, c.mult), s));
    if t + p <= u {
      NextPeriod(p, c.mult, s, t);
      ConvertMonotone(p, c.mult, s, t + p, u);
    }
  }

  lemma NextPeriod(p: nat, m: nat, s: nat, t: nat)
    requires p > 0 && s > 0
    ensures Convert(p, m, s, t + p) == Convert(p, m, s, t) + Quotient(Times(p, m), s)
  {
    var q, r, period := t / p, t % p, Quotient(Times(p, m), s);
    assert t + p == p * (q + 1) + r;
    DivMod(t + p, p, q + 1, r);
    assert (q + 1) * period == q * period + period;
  }

  lemma PeriodWorth(p: nat, s: nat, m: nat, cpm: nat)
    requires m > 0 && s > 0 && HOUR_MSECS * cpm < 2 * p && s * MILLION < Times(m, cpm) + cpm
    ensures Quotient(Times(p, m), s) >= 1
  {
    var y, z := Times(m, cpm), Times(p, m);
    assert cpm <= y by { MulMono(cpm, 1, m); }
    assert HOUR_MSECS * y <= 2 * z by {
      MulMono(m, HOUR_MSECS * cpm, 2 * p);
      Swap(m, HOUR_MSECS, cpm);
    }
    DivAtLeast(z, s, 1);
  }

  /** The exact condition: the calibrated clock advances if and only if the speed is usable; otherwise every
      reading is zero. */
  lemma {:induction false} ClockAdvancesExactlyWhen(cpm: nat, c: Clock)
    requires Calibrated(cpm, c)
    ensures Advances(c) <==> Usable(cpm)
    ensures Usable(cpm) ==> forall t: nat :: Ns(c, t) >= Quotient(t, Pow2(c.maxShift))
    ensures !Usable(cpm) ==> forall t: nat :: Ns(c, t) == 0
  {
    MultPositive(cpm, c);
    if Usable(cpm) {
      forall t: nat, u: nat
        ensures Ns(c, t) >= Quotient(t, Pow2(c.maxShift))
        ensures t + Pow2(c.maxShift) <= u ==> Ns(c, t) < Ns(c, u)
      {
        PeriodsCount(cpm, c, t, u);
      }
    } else {
      forall t: nat ensures Ns(c, t) == 0 { ZeroMult(Pow2(c.maxShift), Pow2(c.shift), t); }
      assert !(Ns(c, 0) < Ns(c, Pow2(c.maxShift)));
    }
  }

  lemma ZeroMult(p: nat, s: nat, t: nat)
    requires p > 0 && s > 0
    ensures Convert(p, 0, s, t) == 0
  {
    DivAtLeast(0, s, 1);
  }

  /** A speed at which the promise fails: shift 22 would be allowed, but shift 21 is taken and rounds the
      multiplier down to zero. */
  lemma {:induction false} ShiftTooSmall(c: Clock)
    requires Calibrated(3_000_000_000_000, c)
    ensures c.shift == 21 && c.mult == 0
    ensures MultFor(3_000_000_000_000, 22) == 1 == MaxMult(3_000_000_000_000)
    ensures !LargestShift(3_000_000_000_000, c.shift)
    ensures forall t :: Ns(c, t) == 0
  {
    SmallPowers();
    ClockAdvancesExactlyWhen(3_000_000_000_000, c);
    assert MaxMult(3_000_000_000_000) == 1;
    assert MultFor(3_000_000_000_000, 22) == 1;
  }

  /** Up to 900 THz the shift is 22, as promised, and the clock advances. */
  lemma {:induction false} KeptAtRealSpeeds(cpm: nat, c: Clock)
    requires Calibrated(cpm, c) && cpm <= 900_000_000_000
    ensures c.shift == 22 && LargestShift(cpm, c.shift) && Advances(c)
  {
    SmallPowers();
    MaxMultRange(cpm);
    DivBounds(ULLONG_MAX, HOUR_MSECS * cpm);
    Swap(MaxMult(cpm), HOUR_MSECS, cpm);
    assert Times(MaxMult(cpm) + 1, cpm) == Times(MaxMult(cpm), cpm) + cpm;
    LargestShiftExactlyWhen(cpm, c);
    ClockAdvancesExactlyWhen(cpm, c);
  }
}

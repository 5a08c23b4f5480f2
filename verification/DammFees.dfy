/** The DAMM v2 total fee in every base-fee mode (`src/quote/damm_v2.rs`). */
module DammFees {
  import opened Numbers
  import FeeSchedules
  import RateLimiter
  import TimedFees

  /** The fee fields of a pool. `frequency` and `reduction` mean different things in different modes. */
  datatype Fees = Fees(
    cliff: u64,
    mode: nat,
    periods: u16,
    frequency: u64,
    reduction: u64,
    dynamic: bool,
    control: u32,
    binStep: u16,
    volatility: u128,
    initPrice: u128,
    version: nat)

  /** What a fee depends on besides: the clock, the activation point, the direction, the amount and the price. */
  datatype Swap = Swap(point: u64, activation: u64, aToB: bool, amount: u64, price: u128)

  /** The low and the high half of `frequency`. */
  function Low(f: Fees): u32 {
    f.frequency % Q32
  }

  function High(f: Fees): u32 {
    f.frequency / Q32
  }

  function MaxFee(f: Fees): u64 {
    if f.version == 0 then 500_000_000 else 990_000_000
  }

  function SchedulerOf(f: Fees, exponential: bool): TimedFees.Scheduler {
    TimedFees.Scheduler(f.cliff, f.periods, f.frequency, f.reduction, exponential)
  }

  /** The limiter charges more than the cliff only on swaps from B to A, for a while after activation. */
  predicate LimiterApplies(f: Fees, s: Swap) {
    !(f.reduction == 0 && Low(f) == 0 && High(f) == 0 && f.periods == 0)
    && !s.aToB && s.point >= s.activation && s.point <= s.activation + Low(f)
  }

  /** Steps the price has risen above the initial one, each of so many basis points of it; all of them once expired. */
  function PriceSteps(f: Fees, s: Swap): Option<u64> {
    var end :- ToU64(s.activation + High(f));
    if s.point > end || s.point < s.activation then Some(f.periods)
    else if s.price <= f.initPrice then Some(0)
    else if f.initPrice == 0 || Low(f) == 0 then None
    else
      var passed := (s.price - f.initPrice) * 10_000 / f.initPrice / Low(f);
      MulNonneg(s.price - f.initPrice, 10_000);
      FloorIff((s.price - f.initPrice) * 10_000, f.initPrice, 0);
      FloorIff((s.price - f.initPrice) * 10_000 / f.initPrice, Low(f), 0);
      Some(Min(passed, f.periods))
  }

  function BaseFee(f: Fees, s: Swap): Option<u64> {
    if f.mode == 0 || f.mode == 1 then TimedFees.DammBaseFee(SchedulerOf(f, f.mode == 1), s.point, s.activation)
    else if f.mode == 2 then
      if LimiterApplies(f, s) then RateLimiter.RateFor(RateLimiter.Limiter(f.cliff, f.reduction, f.periods, High(f)), s.amount)
      else Some(f.cliff)
    else if f.mode == 3 || f.mode == 4 then
      var steps :- PriceSteps(f, s);
      TimedFees.DammScheduled(SchedulerOf(f, f.mode == 4), steps)
    else None
  }

  /** The fee for a volatility that crossed so much, saturating at u64; `None` where 256 bits overflow. */
  function FeeOfCrossed(crossed: nat, control: u32): Option<u64> {
    MulNonneg(crossed, crossed);
    MulNonneg(crossed * crossed, control);
    var v := crossed * crossed * control;
    if v + 99_999_999_999 >= Q256 then None else Some(Min((v + 99_999_999_999) / 100_000_000_000, U64_MAX))
  }

  /** The volatility fee; the product with the bin step saturates at 128 bits. */
  function VariableFee(f: Fees): Option<u64> {
    if !f.dynamic then Some(0)
    else
      MulNonneg(f.volatility, f.binStep);
      FeeOfCrossed(Min(f.volatility * f.binStep, Q128 - 1), f.control)
  }

  function TotalFee(f: Fees, s: Swap): (r: Option<u64>)
    ensures r.Some? ==> r.value < 1_000_000_000
  {
    var base :- BaseFee(f, s);
    var variable :- VariableFee(f);
    Some(Min(Min(base + variable, U64_MAX), MaxFee(f)))
  }

  // ── by the pool's own fields ────────────────────────────────────────────

  /** The cliff after `n` periods: less `n` reductions, or with that part taken off `n` times over, as the program rounds
      it. */
  ghost predicate Scheduled(f: Fees, exponential: bool, n: u16, fee: nat) {
    if exponential then
      && FeeSchedules.FeeInPeriod(f.cliff, f.reduction, n) == Some(fee)
      && if f.reduction == 0 then fee == f.cliff else FeeSchedules.NearDecayed(fee, f.cliff, f.reduction, n)
    else fee == f.cliff - n * f.reduction
  }

  /** Periods of `frequency` since activation, up to all of them, which also count before it. */
  ghost predicate TimePeriods(f: Fees, s: Swap, n: u16) {
    if s.point < s.activation then n == f.periods
    else n <= f.periods && GreatestUpTo(n, s.point - s.activation, f.frequency, f.periods)
  }

  /** Rises of `step` basis points of the initial price, up to all periods, which also count outside the schedule's time. */
  ghost predicate PricePeriods(f: Fees, s: Swap, n: u16) {
    var step, duration := f.frequency % Q32, f.frequency / Q32;
    s.activation + duration < Q64 &&
    if s.point < s.activation || s.activation + duration < s.point then n == f.periods
    else if s.price <= f.initPrice then n == 0
    else 0 < step && GreatestUpTo(n, (s.price - f.initPrice) * 10_000, f.initPrice * step, f.periods)
  }

  /** `n` is the greatest number of `d`s that fit into `a`, or `most` if more do. */
  ghost predicate GreatestUpTo(n: nat, a: int, d: nat, most: nat) {
    0 < d && n <= most && forall k: nat | k <= most :: k <= n <==> k * d <= a
  }

  /** The base fee: a time schedule, a limiter that prices swaps from B to A by their size for a while, or a schedule that
      follows the price. */
  ghost predicate IsBase(f: Fees, s: Swap, fee: nat) {
    if f.mode <= 1 then
      if f.frequency == 0 then fee == f.cliff
      else exists n: u16 :: TimePeriods(f, s, n) && Scheduled(f, f.mode == 1, n, fee)
    else if f.mode == 2 then
      if !s.aToB && s.activation <= s.point <= s.activation + f.frequency % Q32
        && (f.reduction != 0 || f.frequency != 0 || f.periods != 0)
      then RateLimiter.IsRate(RateLimiter.Limiter(f.cliff, f.reduction, f.periods, f.frequency / Q32), s.amount, fee)
      else fee == f.cliff
    else f.mode <= 4 && exists n: u16 :: PricePeriods(f, s, n) && Scheduled(f, f.mode == 4, n, fee)
  }

  /** `rate` per 10⁹ pays the base fee and, with a dynamic fee, `control·(volatility·binStep)²/10¹¹` on top of it. */
  predicate CoversFees(f: Fees, base: nat, rate: nat) {
    base <= rate && (f.dynamic ==> Crossed(f) * Crossed(f) * f.control <= (rate - base) * 100_000_000_000)
  }

  /** The volatility times the bin step, kept to 128 bits. */
  function Crossed(f: Fees): int {
    if f.volatility * f.binStep < Q128 then f.volatility * f.binStep else Q128 - 1
  }

  /** A rate of at most 50 %, or 99 % in later versions: below that the least that pays both fees. */
  ghost predicate LeastRate(f: Fees, base: nat, rate: nat) {
    var cap := if f.version == 0 then 500_000_000 else 990_000_000;
    rate <= cap && forall x: nat | x < cap :: rate <= x <==> CoversFees(f, base, x)
  }

  lemma FloorUpTo(a: nat, d: nat, most: nat)
    requires 0 < d
    ensures 0 <= a / d && GreatestUpTo(Min(a / d, most), a, d, most)
  {
    FloorIff(a, d, 0);
    forall k: nat | k <= most ensures k <= Min(a / d, most) <==> k * d <= a {
      FloorIff(a, d, k);
    }
  }

  lemma QuotientOfQuotient(a: nat, d: nat, e: nat)
    requires 0 < d && 0 < e
    ensures 0 < d * e && a / d / e == a / (d * e)
  {
    MulPos(d, e);
    var q := a / (d * e);
    FloorIff(a, d * e, q);
    FloorIff(a, d * e, q + 1);
    FloorIff(a, d, q * e);
    FloorIff(a, d, (q + 1) * e);
    FloorIff(a / d, e, q);
    FloorIff(a / d, e, q + 1);
    assert q * e * d == q * (d * e) && (q + 1) * e * d == (q + 1) * (d * e);
  }

  lemma ScheduledIff(f: Fees, exponential: bool, period: u64, fee: u64)
    ensures TimedFees.DammScheduled(SchedulerOf(f, exponential), period) == Some(fee)
      <==> Scheduled(f, exponential, Min(period, f.periods), fee)
  {
    hide FeeSchedules.FeeInPeriod, FeeSchedules.ExponentialFee, FeeSchedules.NearDecayed;
    var n := Min(period, f.periods);
    MulNonneg(f.reduction, n);
    if exponential && FeeSchedules.FeeInPeriod(f.cliff, f.reduction, n).Some? {
      TimedFees.DammReduction(f.cliff, f.reduction, n);
      FeeSchedules.SchedulesAgree(f.cliff, f.reduction, n);
      if f.reduction != 0 {
        FeeSchedules.ExponentialIsNear(f.cliff, f.reduction, n);
      }
    }
  }

  lemma UpToIsUnique(n: nat, m: nat, a: int, d: nat, most: nat)
    requires GreatestUpTo(n, a, d, most) && GreatestUpTo(m, a, d, most)
    ensures n == m
  {
    assert n * d <= a && m * d <= a;
  }

  lemma TimeBase(f: Fees, s: Swap, fee: u64)
    requires f.mode <= 1
    ensures BaseFee(f, s) == Some(fee) <==> IsBase(f, s, fee)
  {
    hide TimedFees.DammScheduled, Scheduled, TimedFees.Elapsed, GreatestUpTo;
    if f.frequency != 0 {
      var period := if s.point < s.activation then f.periods else TimedFees.Elapsed(s.point, s.activation, f.frequency);
      var n: u16 := Min(period, f.periods);
      ScheduledIff(f, f.mode == 1, period, fee);
      if s.activation <= s.point {
        ElapsedIs(s.point, s.activation, f.frequency);
        FloorUpTo(s.point - s.activation, f.frequency, f.periods);
      }
      assert TimePeriods(f, s, n);
      if IsBase(f, s, fee) {
        var m: u16 :| TimePeriods(f, s, m) && Scheduled(f, f.mode == 1, m, fee);
        if s.activation <= s.point {
          UpToIsUnique(n, m, s.point - s.activation, f.frequency, f.periods);
        }
      }
    }
  }

  lemma ElapsedIs(point: u64, activation: u64, frequency: u64)
    requires activation <= point && 0 < frequency
    ensures TimedFees.Elapsed(point, activation, frequency) == (point - activation) / frequency
  {
  }

  lemma LimiterBase(f: Fees, s: Swap, fee: u64)
    requires f.mode == 2
    ensures BaseFee(f, s) == Some(fee) <==> IsBase(f, s, fee)
  {
    hide RateLimiter.RateFor, RateLimiter.IsRate;
    HalvesOfZero(f);
    if LimiterApplies(f, s) {
      RateLimiter.RateIsExact(RateLimiter.Limiter(f.cliff, f.reduction, f.periods, High(f)), s.amount, fee);
    }
  }

  lemma HalvesOfZero(f: Fees)
    ensures Low(f) == 0 && High(f) == 0 <==> f.frequency == 0
  {
  }

  lemma PriceBase(f: Fees, s: Swap, fee: u64)
    requires 3 <= f.mode <= 4
    ensures BaseFee(f, s) == Some(fee) <==> IsBase(f, s, fee)
  {
    hide TimedFees.DammScheduled, Scheduled, PriceSteps, PricePeriods;
    if PriceSteps(f, s).Some? {
      var n := PriceSteps(f, s).value;
      PriceStepsIff(f, s, Min(n, f.periods));
      ScheduledIff(f, f.mode == 4, n, fee);
      if IsBase(f, s, fee) {
        var m: u16 :| PricePeriods(f, s, m) && Scheduled(f, f.mode == 4, m, fee);
        PriceStepsIff(f, s, m);
      }
    } else if IsBase(f, s, fee) {
      var m: u16 :| PricePeriods(f, s, m) && Scheduled(f, f.mode == 4, m, fee);
      PriceStepsIff(f, s, m);
    }
  }

  lemma PriceStepsIff(f: Fees, s: Swap, n: u16)
    ensures PriceSteps(f, s) == Some(n) <==> PricePeriods(f, s, n)
    ensures PriceSteps(f, s).Some? ==> PriceSteps(f, s).value <= f.periods
  {
    hide GreatestUpTo;
    if s.activation <= s.point <= s.activation + High(f) && 0 < f.initPrice < s.price && 0 < Low(f) {
      var rise: nat := (s.price - f.initPrice) * 10_000;
      QuotientOfQuotient(rise, f.initPrice, Low(f));
      FloorUpTo(rise, f.initPrice * Low(f), f.periods);
      if GreatestUpTo(n, rise, f.initPrice * Low(f), f.periods) {
        UpToIsUnique(n, Min(rise / (f.initPrice * Low(f)), f.periods), rise, f.initPrice * Low(f), f.periods);
      }
    } else {
      NoStepFits(n, (s.price - f.initPrice) * 10_000, f.initPrice * Low(f), f.periods);
    }
  }

  lemma NoStepFits(n: nat, a: int, d: nat, most: nat)
    ensures d == 0 ==> !GreatestUpTo(n, a, d, most)
  {
  }

  lemma BaseIff(f: Fees, s: Swap, fee: u64)
    ensures BaseFee(f, s) == Some(fee) <==> IsBase(f, s, fee)
  {
    hide TimedFees.DammScheduled, Scheduled, PriceSteps, PricePeriods, RateLimiter.RateFor, RateLimiter.IsRate;
    if f.mode <= 1 { TimeBase(f, s, fee); } else if f.mode == 2 { LimiterBase(f, s, fee); }
    else if f.mode <= 4 { PriceBase(f, s, fee); }
  }

  lemma CrossedIs(f: Fees)
    ensures 0 <= Crossed(f) == Min(f.volatility * f.binStep, Q128 - 1)
  {
    MulNonneg(f.volatility, f.binStep);
  }

  lemma VariableOf(f: Fees)
    requires f.dynamic
    ensures 0 <= Crossed(f) && VariableFee(f) == FeeOfCrossed(Crossed(f), f.control)
  {
    hide Crossed, FeeOfCrossed;
    CrossedIs(f);
  }

  lemma VariableIsLeast(f: Fees, base: nat, x: nat)
    requires VariableFee(f).Some? && x < 990_000_000
    ensures base + VariableFee(f).value <= x <==> CoversFees(f, base, x)
  {
    if f.dynamic {
      hide Crossed, VariableFee;
      VariableOf(f);
      MulNonneg(Crossed(f), Crossed(f));
      MulNonneg(Crossed(f) * Crossed(f), f.control);
      PaddedIff(Crossed(f) * Crossed(f) * f.control, 100_000_000_000, x - base);
    }
  }

  /** The volatility fee fits 256 bits. */
  predicate VariableFits(f: Fees) {
    f.dynamic ==> Crossed(f) * Crossed(f) * f.control + 99_999_999_999 < Q256
  }

  lemma VariableExists(f: Fees)
    ensures VariableFee(f).Some? <==> VariableFits(f)
  {
    if f.dynamic {
      hide Crossed, VariableFee;
      VariableOf(f);
    }
  }

  lemma TotalIsLeast(f: Fees, s: Swap)
    requires TotalFee(f, s).Some?
    ensures LeastRate(f, BaseFee(f, s).value, TotalFee(f, s).value)
  {
    hide BaseFee, VariableFee, CoversFees;
    var base: nat := BaseFee(f, s).value;
    forall x: nat | x < MaxFee(f) ensures TotalFee(f, s).value <= x <==> CoversFees(f, base, x) {
      VariableIsLeast(f, base, x);
    }
  }

  lemma LeastRateIsUnique(f: Fees, base: nat, r: nat, q: nat)
    requires LeastRate(f, base, r) && LeastRate(f, base, q)
    ensures r == q
  {
    hide CoversFees;
    assert r < 990_000_000 && r < MaxFee(f) ==> CoversFees(f, base, r);
    assert q < 990_000_000 && q < MaxFee(f) ==> CoversFees(f, base, q);
  }

  /** The total fee is the least that pays the base fee of the pool's own mode and its volatility, up to the version's cap,
      and exists exactly when both parts do. */
  lemma TotalIsExact(f: Fees, s: Swap, rate: u64)
    ensures TotalFee(f, s) == Some(rate)
      <==> VariableFits(f) && exists base: u64 :: IsBase(f, s, base) && LeastRate(f, base, rate)
  {
    hide BaseFee, VariableFee, IsBase, LeastRate, VariableFits;
    VariableExists(f);
    if TotalFee(f, s).Some? {
      BaseIff(f, s, BaseFee(f, s).value);
      TotalIsLeast(f, s);
    }
    if VariableFits(f) && exists base: u64 :: IsBase(f, s, base) && LeastRate(f, base, rate) {
      var base: u64 :| IsBase(f, s, base) && LeastRate(f, base, rate);
      BaseIff(f, s, base);
      TotalIsLeast(f, s);
      LeastRateIsUnique(f, base, rate, TotalFee(f, s).value);
    }
  }
}

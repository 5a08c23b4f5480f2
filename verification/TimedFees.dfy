/** The time-based base fees of DAMM v2 and DBC: how they move with time, and where they are the same fee
    (`src/quote/damm_v2.rs`, `src/quote/dbc.rs`). */
module TimedFees {
  import opened Numbers
  import opened FeeSchedules
  import opened DbcCurve

  /** A scheduler's parameters, which both programs store. */
  datatype Scheduler = Scheduler(cliff: u64, periods: u16, frequency: u64, reduction: u64, exponential: bool)

  /** DAMM v2: the fee after `period` periods, which stop counting at `periods`. */
  function DammScheduled(s: Scheduler, period: u64): Option<u64> {
    var n := Min(period, s.periods);
    if s.exponential then FeeInPeriod(s.cliff, s.reduction, n)
    else
      MulNonneg(s.reduction, n);
      var cut :- ToU64(s.reduction * n);
      ToU64(s.cliff - cut)
  }

  /** DAMM v2: before activation the scheduler counts as run out. */
  function DammBaseFee(s: Scheduler, point: u64, activation: u64): Option<u64> {
    if s.frequency == 0 then Some(s.cliff)
    else DammScheduled(s, if point < activation then s.periods else Elapsed(point, activation, s.frequency))
  }

  function Elapsed(point: u64, activation: u64, frequency: u64): u64
    requires activation <= point && 0 < frequency
  {
    FloorIff(point - activation, frequency, 0);
    FloorIff(point - activation, frequency, point - activation + 1);
    MulMono(1, frequency, point - activation + 1);
    (point - activation) / frequency
  }

  /** Periods the scheduler counts: all of them before activation, then one per whole interval up to their number. */
  function Counted(s: Scheduler, point: u64, activation: u64): nat
    requires s.frequency != 0
  {
    if point < activation then s.periods else Min((point - activation) / s.frequency, s.periods)
  }

  /** Every DAMM v2 base fee is the cliff less a fixed amount a period, or decayed by a fixed part a period; a linear one is
      refused exactly where it would fall below zero. */
  lemma DammFeeIsScheduled(s: Scheduler, point: u64, activation: u64)
    ensures s.frequency == 0 ==> DammBaseFee(s, point, activation) == Some(s.cliff)
    ensures s.frequency != 0 && !s.exponential ==>
      var cut := Counted(s, point, activation) * s.reduction;
      DammBaseFee(s, point, activation) == if cut <= s.cliff then Some(s.cliff - cut) else None
    ensures s.frequency != 0 && s.exponential && DammBaseFee(s, point, activation).Some? ==>
      var fee, n := DammBaseFee(s, point, activation).value, Counted(s, point, activation);
      if s.reduction == 0 then fee == s.cliff else NearDecayed(fee, s.cliff, s.reduction, n)
  {
    hide FeeInPeriod, ExponentialFee, NearDecayed;
    if s.frequency != 0 {
      if activation <= point {
        FloorIff(point - activation, s.frequency, 0);
      }
      var n := Counted(s, point, activation);
      MulNonneg(s.reduction, n);
      if s.exponential && DammBaseFee(s, point, activation).Some? {
        DammReduction(s.cliff, s.reduction, n);
        SchedulesAgree(s.cliff, s.reduction, n);
        if s.reduction != 0 {
          ExponentialIsNear(s.cliff, s.reduction, n);
        }
      }
    }
  }

  /** A DBC pool with these parameters. */
  predicate Configured(pool: Pool, s: Scheduler) {
    pool.config.(cliff := s.cliff, firstFactor := s.periods, secondFactor := s.frequency, thirdFactor := s.reduction,
                 baseFeeMode := if s.exponential then 1 else 0) == pool.config
  }

  /** Later periods never have a higher fee, linear or exponential. */
  lemma DammScheduleNeverRises(s: Scheduler, n: u64, m: u64)
    requires n <= m && (s.exponential ==> s.cliff <= 1_000_000_000)
    requires DammScheduled(s, n).Some? && DammScheduled(s, m).Some?
    ensures DammScheduled(s, m).value <= DammScheduled(s, n).value
  {
    hide FeeInPeriod;
    var a, b := Min(n, s.periods), Min(m, s.periods);
    if s.exponential {
      DammReduction(s.cliff, s.reduction, a);
      DammReduction(s.cliff, s.reduction, b);
      if s.reduction != 0 {
        ScheduledFeeNeverRises(s.cliff, s.reduction, a, b);
      }
    } else {
      MulMono(a, b, s.reduction);
    }
  }

  /** DAMM v2 quotes no reduction above 100 %, and charges the cliff for none. */
  lemma DammReduction(cliff: u64, reduction: u64, period: u16)
    requires FeeInPeriod(cliff, reduction, period).Some?
    ensures reduction <= BASIS_POINT_MAX && (reduction == 0 ==> FeeInPeriod(cliff, reduction, period) == Some(cliff))
  {
    hide DammPow;
    BaseRange(reduction);
  }

  /** A DAMM v2 scheduler never raises the fee once it is active, and charges no less than it did before activation. */
  lemma DammFeeNeverRises(s: Scheduler, activation: u64, p: u64, q: u64)
    requires (s.exponential ==> s.cliff <= 1_000_000_000)
    requires DammBaseFee(s, p, activation).Some? && DammBaseFee(s, q, activation).Some?
    requires q < activation || activation <= p <= q
    ensures DammBaseFee(s, q, activation).value <= DammBaseFee(s, p, activation).value
  {
    hide DammScheduled;
    if s.frequency != 0 {
      if q < activation {
        ScheduleEnds(s, if p < activation then s.periods else Elapsed(p, activation, s.frequency));
      } else {
        FloorMono(p - activation, q - activation, s.frequency);
        DammScheduleNeverRises(s, Elapsed(p, activation, s.frequency), Elapsed(q, activation, s.frequency));
      }
    }
  }

  /** The fee at the last period is the lowest. */
  lemma ScheduleEnds(s: Scheduler, period: u64)
    requires (s.exponential ==> s.cliff <= 1_000_000_000)
    requires DammScheduled(s, period).Some? && DammScheduled(s, s.periods).Some?
    ensures DammScheduled(s, s.periods).value <= DammScheduled(s, period).value
  {
    DammScheduleNeverRises(s, Min(period, s.periods), s.periods);
  }

  lemma ScheduledFeesAgree(s: Scheduler, period: u64)
    requires DammScheduled(s, period).Some?
    ensures ScheduledFee(s.cliff, s.reduction, s.exponential, Min(period, s.periods)) == DammScheduled(s, period)
            <==> !s.exponential || s.reduction != 0 || s.periods == 0 || period == 0
  {
    hide FeeInPeriod, ExponentialFee;
    var n := Min(period, s.periods);
    assert n * s.reduction == s.reduction * n;
    if s.exponential {
      SchedulesAgree(s.cliff, s.reduction, n);
    }
  }

  /** From activation on, wherever DAMM v2 quotes, a DBC pool with the same parameters charges the same base fee,
      exactly unless the schedule is exponential with no reduction and a period has passed. */
  lemma ProgramsAgree(s: Scheduler, pool: Pool, point: u64, buy: bool)
    requires Configured(pool, s) && pool.activationPoint <= point && DammBaseFee(s, point, pool.activationPoint).Some?
    ensures BaseFeeNumerator(pool, point, buy) == DammBaseFee(s, point, pool.activationPoint)
            <==> (s.frequency == 0 || !s.exponential || s.reduction != 0 || s.periods == 0
                  || point - pool.activationPoint < s.frequency)
  {
    hide DammScheduled, ScheduledFee;
    if s.frequency != 0 {
      var elapsed := point - pool.activationPoint;
      FloorIff(elapsed, s.frequency, 1);
      ScheduledFeesAgree(s, Elapsed(point, pool.activationPoint, s.frequency));
    }
  }

  lemma DbcScheduleNeverRises(cliff: u64, reduction: u64, exponential: bool, n: u16, m: u16)
    requires n <= m && (exponential ==> cliff <= 1_000_000_000)
    requires ScheduledFee(cliff, reduction, exponential, n).Some? && ScheduledFee(cliff, reduction, exponential, m).Some?
    ensures ScheduledFee(cliff, reduction, exponential, m).value <= ScheduledFee(cliff, reduction, exponential, n).value
  {
    hide ExponentialFee;
    if !exponential {
      MulMono(n, m, reduction);
    } else {
      DbcFeeExists(cliff, reduction, n);
      DbcFeeExists(cliff, reduction, m);
      if 1 <= reduction <= BASIS_POINT_MAX {
        ScheduledFeeNeverRises(cliff, reduction, n, m);
      }
    }
  }

  /** A DBC pool's total fee never rises as time passes, while its volatility does not change. */
  lemma DbcFeeNeverRises(pool: Pool, p: u64, q: u64, buy: bool)
    requires p <= q && (pool.config.baseFeeMode == 1 ==> pool.config.cliff <= 1_000_000_000)
    requires FeeNumerator(pool, p, buy).Some? && FeeNumerator(pool, q, buy).Some?
    ensures FeeNumerator(pool, q, buy).value <= FeeNumerator(pool, p, buy).value
  {
    hide ScheduledFee, VariableFeeNumerator;
    var c := pool.config;
    if c.baseFeeMode <= 1 && c.secondFactor != 0 {
      var a, b := Max(p - pool.activationPoint, 0), Max(q - pool.activationPoint, 0);
      FloorMono(a, b, c.secondFactor);
      FloorIff(a, c.secondFactor, 0);
      var n, m := Min(a / c.secondFactor, c.firstFactor), Min(b / c.secondFactor, c.firstFactor);
      DbcScheduleNeverRises(c.cliff, c.thirdFactor, c.baseFeeMode == 1, n, m);
    }
  }
}

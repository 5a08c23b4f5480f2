/** A Raydium swap that pays the saturated rate past a fee period that would charge less. */
module ClmmSaturated {
  import opened Numbers
  import opened ClmmStep
  import opened LimitOrders
  import opened StepFees
  import opened ClmmWalk
  import opened ClmmPeriods

  const PRICE_AT_MINUS_10: u128 := 18_437_523_468_038_803_493
  const PRICE_AT_1: u128 := 18_447_666_387_855_957_090
  const PRICE_AT_2: u128 := 18_448_588_748_116_922_877
  const PRICE_AT_3: u128 := 18_449_511_154_494_742_992

  /** Raydium's own prices of the ticks the swap meets. */
  ghost predicate RaydiumPrices(table: Table) {
    && Increasing(table)
    && table.price(-10) == PRICE_AT_MINUS_10 && table.price(0) == Q64
    && table.price(1) == PRICE_AT_1 && table.price(2) == PRICE_AT_2 && table.price(3) == PRICE_AT_3
  }

  const START: u128 := 18_449_049_951_305_832_934

  /** A pool whose price was pushed up from tick 0 to tick 2 five seconds ago, inside its ten-second filter period: the
      reference is still tick 0 and two ticks saturate the volatility. */
  ghost predicate JustPushed(pool: Pool) {
    && RaydiumPrices(pool.table) && pool.layout.RaydiumTicks?
    && pool.sqrtPrice == START && pool.liquidity == Q64
    && pool.tickCurrent == 2 && pool.tickSpacing == 1 && pool.feePpm == 2_500 && pool.feeOn == 0
    && pool.dynamicFee == Some(Volatility(10, 20, 5_000, 100_000, 20_000, 0, 0, 20_000, 1_000, 0))
    && pool.adaptiveFee.None? && pool.now == 1_005
  }

  /** One initialised tick below, known on both sides, and no orders. */
  predicate TickBelow(data: TickData) {
    data.ticks == [Tick(-10, 0)] && data.coveredLo == -60 && data.coveredHi == 59 && data.orders == map[]
  }

  const INPUT: u64 := 11_559_751_907_797_650
  const OUTPUT: u64 := 11_526_483_267_029_441

  function Back(): Move {
    Move(START, PRICE_AT_MINUS_10, Q64, 2_504, true, 2)
  }

  lemma StartFee(pool: Pool)
    requires JustPushed(pool)
    ensures InitialFee(pool) == Some(FeeState(RaydiumFee, 1, pool.dynamicFee.value, 2))
  {
    assert 2 / 1 == 2;
  }

  lemma Rates(v: Volatility)
    requires v.control == 100_000 && v.maxAccumulator == 20_000 && v.indexReference == 0 && v.volatilityReference == 0
    ensures AccumulatorAt(v, 0) == 0 && AccumulatorAt(v, 2) == 20_000
    ensures TotalRate(v.control, 20_000, 1, 2_500) == 2_504 && TotalRate(v.control, 0, 1, 2_500) == 2_500
  {
    assert 100_000 * 20_000 * 20_000 == 4 * RATE_DIVISOR;
  }

  /** The whole way down to the tick, for exactly the input. */
  lemma BackStep(p: u128, t: u128, liquidity: u128)
    requires p == START && t == PRICE_AT_MINUS_10 && liquidity == Q64
    ensures SwapStep(p, t, liquidity, INPUT, 2_504, true, true) == Some(Step(t, INPUT, OUTPUT))
  {
    hide DeltasTo, NextSqrtPrice, Cost, Yield;
    DeltasExact(p, t, liquidity, true);
    CostIff(p, t, liquidity, true, 11_530_806_289_020_524);
    CostIff(p, t, liquidity, true, 11_530_806_289_020_523);
    YieldIff(p, t, liquidity, true, OUTPUT);
    YieldIff(p, t, liquidity, true, OUTPUT + 1);
  }

  /** The swap's fixed inputs and its start. */
  lemma Start(pool: Pool, data: TickData)
    requires JustPushed(pool) && TickBelow(data) && InitialFee(pool).Some?
    ensures var env, w := EnvOf(pool, data, true, None), StartOf(pool, data, true, INPUT, InitialFee(pool).value);
      && env.fee == FeeEnv(pool.table, 2_500, true) && env.layout.RaydiumTicks? && env.feeOnInput && env.orders == map[]
      && w == Walk(INPUT, pool.sqrtPrice, 2, Q64, Q64, 0, 0, 0, InitialFee(pool).value, [], [])
      && Back().to == pool.table.price(-10)
      && GoalOf(env, 0) == Goal(-10, Back().to, Back().to, Some(0)) && NextTick(env, 0) == Some(Tick(-10, 0))
  {
    hide InitialFee;
    assert data.ticks[1..] == [];
    assert CountAtOrBelow(data.ticks[1..], 2) == 0;
    assert CountAtOrBelow(data.ticks, 2) == 1;
  }

  /** The one inner iteration: the move, the tick crossed, nothing left. */
  lemma BackSubStep(env: Env, goal: Goal, w: Walk, v: Volatility)
    requires env.fee.base == 2_500 && env.fee.aToB && env.layout.RaydiumTicks? && env.feeOnInput && env.orders == map[]
    requires goal == Goal(-10, Back().to, Back().to, Some(0))
    requires w == Walk(INPUT, Back().from, 2, Q64, Q64, 0, 0, 0, FeeState(RaydiumFee, 1, v, 2), [], [])
    requires v.control == 100_000 && v.maxAccumulator == 20_000 && v.indexReference == 0 && v.volatilityReference == 0
    ensures var n := SubStep(env, goal, w);
      n.Walked? && n.w.remaining == 0 && n.w.sqrtP == Back().to && n.w.log == [Back()] && n.w.out == OUTPUT
  {
    hide SwapStep, TotalRate, AccumulatorAt, Advanced, Stepped, MatchLimitOrders;
    Rates(v);
    BackStep(w.sqrtP, goal.target, w.liq);
    NoOrdersToFill(0, goal.price);
  }

  lemma NoOrdersToFill(remaining: u128, p: u128)
    ensures MatchLimitOrders(0, remaining, p, 2_504, true, true) == Some(Fill(0, 0, 0))
  {
  }

  lemma BackWalk(env: Env, w: Walk, n: nat)
    requires Usable(env) && 1 < n && NextTick(env, 0).Some? && w.idx == 0 && w.remaining != 0 && w.sqrtP != env.limit
    requires InBounds(env, w, GoalOf(env, 0)) && SubStep(env, GoalOf(env, 0), w.(liqNext := w.liq)).Walked?
    requires SubStep(env, GoalOf(env, 0), w.(liqNext := w.liq)).w.remaining == 0
    ensures Outer(env, w, n).Walked? && Outer(env, w, n).w.log == SubStep(env, GoalOf(env, 0), w.(liqNext := w.liq)).w.log
    ensures Outer(env, w, n).w.remaining == 0
      && Outer(env, w, n).w.out == SubStep(env, GoalOf(env, 0), w.(liqNext := w.liq)).w.out
  {
    hide SubStep, GoalOf, InBounds;
  }

  lemma PoolIsConsistent(pool: Pool, data: TickData)
    requires JustPushed(pool) && TickBelow(data)
    ensures WellFormed(pool) && Acceptable(pool, INPUT) && Consistent(pool, data, true)
  {
    hide Increasing, RaydiumReference;
    StartFee(pool);
  }

  lemma PeriodsCovered(table: Table)
    requires RaydiumPrices(table)
    ensures Covers(FeeEnv(table, 2_500, true), 1, Back(), 0)
  {
    hide Increasing;
  }

  lemma BackIsLogged(pool: Pool, data: TickData)
    requires JustPushed(pool) && TickBelow(data) && Increasing(pool.table) && InitialFee(pool).Some?
    ensures var r := Outer(EnvOf(pool, data, true, None), StartOf(pool, data, true, INPUT, InitialFee(pool).value),
      MAX_TICK_STEPS);
      r.Walked? && r.w.log == [Back()] && r.w.remaining == 0 && r.w.out == OUTPUT
  {
    StartFee(pool);
    Start(pool, data);
    var env, w := EnvOf(pool, data, true, None), StartOf(pool, data, true, INPUT, InitialFee(pool).value);
    hide SubStep, Outer, Inner, GoalOf, InitialFee, EnvOf, StartOf, Increasing, RaydiumPrices;
    BackSubStep(env, GoalOf(env, 0), w, InitialFee(pool).value.v);
    BackWalk(env, w, MAX_TICK_STEPS);
  }

  /** The exception is real: on a consistent Raydium pool, a quoted swap back toward the reference pays the saturated rate
      past a period that would charge less on its own. */
  lemma SaturatedSwapOvercharges(pool: Pool, data: TickData)
    requires JustPushed(pool) && TickBelow(data)
    ensures WellFormed(pool) && Acceptable(pool, INPUT) && InitialFee(pool).Some? && Consistent(pool, data, true)
    ensures RAYDIUM_MIN_SQRT_PRICE < Back().to < Back().from < RAYDIUM_MAX_SQRT_PRICE
    ensures SwapExactIn(pool, data, true, INPUT, None).Some?
    ensures var fs, env := InitialFee(pool).value, EnvOf(pool, data, true, None);
      var r := Outer(env, StartOf(pool, data, true, INPUT, fs), MAX_TICK_STEPS);
      && r.Walked? && Back() in r.w.log
      && Covers(env.fee, fs.unit, Back(), 0) && RateAt(env.fee, fs, 0) == 2_500 < Back().rate
  {
    PoolIsConsistent(pool, data);
    StartFee(pool);
    BackIsLogged(pool, data);
    PeriodsCovered(pool.table);
    Rates(pool.dynamicFee.value);
    hide Outer, TotalRate, AccumulatorAt, InitialFee, Consistent, Increasing, Covers, RaydiumPrices;
  }

  /** Increasing tables with those prices exist. */
  lemma RaydiumPricesExist() returns (table: Table)
    ensures RaydiumPrices(table)
  {
    table := Table(t => if t < 0 then PRICE_AT_MINUS_10 + Clamp(t + 10, MIN_TICK, 9) else if t <= 0 then Q64
                        else if t == 1 then PRICE_AT_1 else if t == 2 then PRICE_AT_2 else PRICE_AT_3 + Clamp(t - 3, 0, MAX_TICK),
                   p => if p < Q64 then p - PRICE_AT_MINUS_10 - 10 else if p < PRICE_AT_1 then 0
                        else if p < PRICE_AT_2 then 1 else if p < PRICE_AT_3 then 2 else p - PRICE_AT_3 + 3);
  }

  /** Such a pool exists. */
  lemma JustPushedExists() returns (pool: Pool, data: TickData)
    ensures JustPushed(pool) && TickBelow(data)
  {
    var table := RaydiumPricesExist();
    var v := Volatility(10, 20, 5_000, 100_000, 20_000, 0, 0, 20_000, 1_000, 0);
    pool := Pool(RaydiumTicks, table, START, Q64, 2, 1, 2_500, 0, Some(v), None, 1_005);
    data := TickData([Tick(-10, 0)], -60, 59, map[]);
  }
}

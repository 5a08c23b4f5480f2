/** Why a walk across ticks is refused: after a book of exact trades, one of the program's own limits. */
module ClmmRefusal {
  import opened Numbers
  import opened ClmmStep
  import opened LimitOrders
  import opened StepFees
  import opened ClmmWalk
  import opened ClmmPeriods
  import opened ClmmLog
  import opened ClmmLedger

  // ── where the walk gives up ─────────────────────────────────────────────

  /** From `v` the walk cannot go on: the goal is behind it, no move is possible, or nothing can happen on the goal's tick. */
  ghost predicate Stuck(env: Env, start: Walk, v: Walk)
    requires env.fee.base < FEE_DENOMINATOR
  {
    var goal := GoalOf(env, v.idx);
    || !InBounds(env, v, goal)
    || (OnTheWay(env, goal, v.fee, v.sqrtP) && MovePrice(env, v, PlanStep(env.fee, v.fee, goal.target, v.liq)).Refused?)
    || (v.sqrtP == goal.price && ChargedWhereItIs(env, start.fee, v.book, v.fee.index, v.sqrtP)
        && Arrive(env, v, goal, PlanStep(env.fee, v.fee, goal.target, v.liq).rate).Refused?)
  }

  lemma SubStepStuck(env: Env, start: Walk, w: Walk) returns (v: Walk)
    requires OnTheWay(env, GoalOf(env, w.idx), w.fee, w.sqrtP) && Booked(env, start, w) && Heading(env, start, w)
    requires Usable(env) && SubStep(env, GoalOf(env, w.idx), w).Refused?
    ensures Booked(env, start, v) && Heading(env, start, v) && Stuck(env, start, v)
  {
    hide PlanStep, MovePrice, Arrive, Advanced, GoalOf, Booked, Heading, RateAt, OnTheWay, InBounds, ChargedWhereItIs;
    var goal := GoalOf(env, w.idx);
    var plan := PlanStep(env.fee, w.fee, goal.target, w.liq);
    v := w;
    if MovePrice(env, w, plan).Walked? {
      MoveIsBooked(env, start, w);
      v := MovePrice(env, w, plan).w;
      MoveKeepsLiquidity(env, w, plan);
    }
  }

  lemma MoveKeepsLiquidity(env: Env, w: Walk, plan: Plan)
    requires plan.rate < FEE_DENOMINATOR && MovePrice(env, w, plan).Walked?
    ensures MovePrice(env, w, plan).w.liq == w.liq
  {
  }

  lemma {:induction false} InnerStuck(env: Env, start: Walk, w: Walk) returns (v: Walk)
    requires OnTheWay(env, GoalOf(env, w.idx), w.fee, w.sqrtP) && Booked(env, start, w) && Heading(env, start, w)
    requires Usable(env) && Inner(env, GoalOf(env, w.idx), w).Refused?
    ensures Booked(env, start, v) && Heading(env, start, v) && Stuck(env, start, v)
    decreases Gap(env, GoalOf(env, w.idx), w.fee)
  {
    hide SubStep, OnTheWay, FairLog, Placed, Booked, GoalOf, Heading, Stuck, Arrivals, Crossings;
    var goal := GoalOf(env, w.idx);
    if SubStep(env, goal, w).Refused? {
      v := SubStepStuck(env, start, w);
    } else {
      SubStepIsBooked(env, start, w);
      SubStepIsSound(env, goal, w);
      GapShrinks(env, goal, w);
      v := InnerStuck(env, start, SubStep(env, goal, w).w);
    }
  }

  lemma {:induction false} OuterStuck(env: Env, start: Walk, w: Walk, n: nat) returns (v: Walk)
    requires Usable(env) && 0 < w.sqrtP && (Stopped(env, w) || (Placed(env, w) && Heading(env, start, w)))
    requires Booked(env, start, w) && Outer(env, w, n).Refused?
    ensures Booked(env, start, v) && Heading(env, start, v) && Stuck(env, start, v)
    decreases n
  {
    hide OuterStep, FairLog, Within, TickInPeriod, GoalOf, Heading, Follows, TotalUsed, TotalGot, Stuck;
    if OuterStep(env, w).Refused? {
      v := PassStuck(env, start, w);
    } else {
      PassIsSound(env, w);
      PassIsBooked(env, start, w);
      v := OuterStuck(env, start, OuterStep(env, w).w.(idx := w.idx + if env.fee.aToB then -1 else 1), n - 1);
    }
  }

  lemma PassStuck(env: Env, start: Walk, w: Walk) returns (v: Walk)
    requires Usable(env) && Placed(env, w) && Booked(env, start, w) && Heading(env, start, w) && OuterStep(env, w).Refused?
    ensures Booked(env, start, v) && Heading(env, start, v) && Stuck(env, start, v)
  {
    hide Inner, OnTheWay, FairLog, PlanStep, Within, TickInPeriod, GoalOf, Arrivals, Crossings, Follows;
    v := w;
    if InBounds(env, w, GoalOf(env, w.idx)) {
      GoalIsAhead(env, w);
      v := InnerStuck(env, start, w.(liqNext := w.liq));
    }
  }

  /** A walk that ends with input left is at the price limit or has met as many ticks as it may. */
  lemma {:induction false} EndsEarly(env: Env, start: Walk, w: Walk, n: nat)
    requires Usable(env) && 0 < w.sqrtP && (Stopped(env, w) || (Placed(env, w) && Heading(env, start, w)))
    requires Booked(env, start, w) && Outer(env, w, n).Walked?
    ensures var r := Outer(env, w, n).w;
      r.remaining == 0 || r.sqrtP == env.limit || Arrivals(r.book) == Arrivals(w.book) + n
    decreases n
  {
    hide OuterStep, FairLog, Within, TickInPeriod, GoalOf, Heading, Follows, TotalUsed, TotalGot, Arrivals;
    if n != 0 && !Stopped(env, w) {
      PassIsSound(env, w);
      PassIsBooked(env, start, w);
      var r := OuterStep(env, w).w;
      if NextTick(env, w.idx).Some? {
        EndsEarly(env, start, r.(idx := w.idx + if env.fee.aToB then -1 else 1), n - 1);
        if !Stopped(env, r) { PassMeetsOne(env, start, w); }
      }
    }
  }

  /** A pass that does not stop met one tick. */
  lemma PassMeetsOne(env: Env, start: Walk, w: Walk)
    requires Usable(env) && Placed(env, w) && Booked(env, start, w) && Heading(env, start, w)
    requires OuterStep(env, w).Walked? && !Stopped(env, OuterStep(env, w).w)
    ensures Arrivals(OuterStep(env, w).w.book) == Arrivals(w.book) + 1
  {
    hide Inner, OnTheWay, FairLog, PlanStep, Within, TickInPeriod, GoalOf, Arrivals, Crossings, Follows;
    var v := w.(liqNext := w.liq);
    GoalIsAhead(env, w);
    GoalShape(env, w.idx);
    InnerIsBooked(env, start, v);
    InnerEnds(env, GoalOf(env, w.idx), v);
  }

  // ── by the pool's own data ──────────────────────────────────────────────

  /** Whether the `n`-th tick is in the range a swap may use. */
  predicate InReach(data: TickData, aToB: bool, bound: Option<int>, n: int) {
    0 <= n < |data.ticks|
    && if aToB then LastKnown(data, aToB, bound) <= data.ticks[n].index else data.ticks[n].index <= LastKnown(data, aToB, bound)
  }

  /** The tick a swap heads for: the next one, or the end of the known range. */
  function TickAhead(data: TickData, aToB: bool, bound: Option<int>, n: int): int {
    Clamp(if InReach(data, aToB, bound, n) then data.ticks[n].index else LastKnown(data, aToB, bound) + if aToB then 0 else 1,
          -443_636, 443_636)
  }

  /** Where a move for period `i` is bound: that tick, the limit, or where its rate must stop. */
  function Bounded(pool: Pool, aToB: bool, liquidity: int, t: int, i: int): u128 {
    var target := Nearer(PriceAt(pool, t), Limit(pool.layout, aToB), aToB);
    var stop := if liquidity == 0 then None else StopAt(pool, aToB, i);
    if stop.None? then target else Nearer(target, PriceAt(pool, stop.value), aToB)
  }

  /** No move: from `p` no step exists, or its output overflows. */
  ghost predicate NoMove(pool: Pool, aToB: bool, left: u128, out: nat, liquidity: nat, p: u128, t: int) {
    exists i: int, rate: u32 ::
      && ChargedRate(pool, i, rate)
      && (StaticPool(pool) || PriceAt(pool, i * PeriodUnit(pool)) <= p <= PriceAt(pool, (i + 1) * PeriodUnit(pool)))
      && 0 < liquidity && p != Bounded(pool, aToB, liquidity, t, i)
      && (|| !HasStep(p, Bounded(pool, aToB, liquidity, t, i), liquidity, left, rate, aToB, ChargesInput(pool, aToB))
          || exists e: Entry :: Overflows(pool, aToB, left, out, liquidity, p, rate, e))
  }

  /** An exact move whose output takes the total beyond 128 bits. */
  ghost predicate Overflows(pool: Pool, aToB: bool, left: u128, out: nat, liquidity: nat, p: u128, rate: u32, e: Entry) {
    && e.Traded? && e.move.from == p && e.move.liquidity == liquidity && e.move.rate == rate && e.left == left
    && ExactMove(aToB, ChargesInput(pool, aToB), e) && Q128 <= out + e.got
  }

  /** No arrival: the orders have no fill, its output overflows, or the net takes the liquidity out of 128 bits. */
  ghost predicate NoArrival(pool: Pool, data: TickData, aToB: bool, left: u128, out: nat, liquidity: int, p: u128, n: int,
      before: seq<Entry>)
    requires 0 <= n < |data.ticks|
  {
    var t := Clamp(data.ticks[n].index, -443_636, 443_636);
    var resting := if t in data.orders then data.orders[t] else 0;
    exists i: int, rate: u32 ::
      && ChargedRate(pool, i, rate) && FilledIn(pool, before, i, p)
      && (|| NoFill(pool, aToB, left, p, resting, rate)
          || (exists e: Entry :: e.Filled? && e.left == left && e.rate == rate && Q128 <= out + e.got
                && ExactArrival(pool.layout, p, resting, aToB, ChargesInput(pool, aToB), e))
          || !(0 <= (if aToB then liquidity - data.ticks[n].net else liquidity + data.ticks[n].net) < Q128))
  }

  ghost predicate NoFill(pool: Pool, aToB: bool, left: u128, p: u128, resting: u64, rate: u32) {
    && resting != 0 && rate < FEE_DENOMINATOR
    && if pool.layout.FusionTicks? then !exists fullIn: nat :: HasFullPrice(fullIn, resting, p, rate, aToB)
       else left != 0 && !exists price: nat :: HasMatch(left, p, price, rate, aToB, ChargesInput(pool, aToB))
  }

  /** After `book` the swap can go no farther: its price or tick is past the next one, it cannot move, it has input left at
      the end of the known range, or it cannot trade on the tick it is at. */
  ghost predicate NoFarther(pool: Pool, data: TickData, aToB: bool, amountIn: u64, bound: Option<int>, book: seq<Entry>) {
    var n, p := Met(pool, data, aToB, Arrivals(book)), PriceAfter(pool.sqrtPrice, book);
    var t, tick := TickAhead(data, aToB, bound, n), TickAfter(pool.tickCurrent, aToB, book);
    var nets := NetsMet(pool, data, aToB, Arrivals(book));
    var liquidity := if aToB then pool.liquidity - nets else pool.liquidity + nets;
    && TotalUsed(book) <= amountIn
    && (|| (if aToB then tick < t || p < PriceAt(pool, t) else t <= tick || PriceAt(pool, t) < p)
        || (0 <= liquidity && NoMove(pool, aToB, amountIn - TotalUsed(book), TotalGot(book), liquidity, p, t))
        || (p == PriceAt(pool, t) &&
              if InReach(data, aToB, bound, n) then
                NoArrival(pool, data, aToB, amountIn - TotalUsed(book), TotalGot(book), liquidity, p, n, book)
              else TotalUsed(book) < amountIn))
  }

  lemma MoveRefused(env: Env, start: Walk, pool: Pool, data: TickData, bound: Option<int>, v: Walk)
    requires pool.tickSpacing > 0 && InitialFee(pool).Some? && Usable(env) && Schedule(v.fee) == Schedule(start.fee)
    requires env == EnvOf(pool, data, env.fee.aToB, bound) && start.fee == InitialFee(pool).value
    requires OnTheWay(env, GoalOf(env, v.idx), v.fee, v.sqrtP)
    requires MovePrice(env, v, PlanStep(env.fee, v.fee, GoalOf(env, v.idx).target, v.liq)).Refused?
    ensures NoMove(pool, env.fee.aToB, v.remaining, v.out, v.liq, v.sqrtP, TickAhead(data, env.fee.aToB, bound, v.idx))
  {
    hide PlanStep, SwapStep, GoalOf, ExactMove, HasStep, InitialFee, RateAt, ChargedRate, StopAt, TickAhead, Bounded, PeriodUnit;
    var goal, aToB := GoalOf(env, v.idx), env.fee.aToB;
    var plan, t := PlanStep(env.fee, v.fee, goal.target, v.liq), TickAhead(data, aToB, bound, v.idx);
    PlanIsAhead(env, goal, v.fee, v.liq, v.sqrtP);
    PlanRate(env.fee, v.fee, goal.target, v.liq);
    PeriodIsRaw(env, start, pool, data, bound, v);
    StepExistsIff(v.sqrtP, plan.bounded, v.liq, v.remaining, plan.rate, aToB, env.feeOnInput);
    if SwapStep(v.sqrtP, plan.bounded, v.liq, v.remaining, plan.rate, aToB, env.feeOnInput).Some? {
      var s := SwapStep(v.sqrtP, plan.bounded, v.liq, v.remaining, plan.rate, aToB, env.feeOnInput).value;
      var move := Move(v.sqrtP, s.next, v.liq, plan.rate, plan.skipped, v.fee.index);
      var e := Traded(move, v.remaining, s.used, s.got);
      SwapStepIsSound(v.sqrtP, plan.bounded, v.liq, v.remaining, plan.rate, aToB, env.feeOnInput);
      StepIsExactMove(v, plan, aToB, env.feeOnInput, e);
      assert Overflows(pool, aToB, v.remaining, v.out, v.liq, v.sqrtP, plan.rate, e);
    }
  }

  /** The period a walk is in, by the pool's fields. */
  lemma PeriodIsRaw(env: Env, start: Walk, pool: Pool, data: TickData, bound: Option<int>, v: Walk)
    requires pool.tickSpacing > 0 && InitialFee(pool).Some? && Usable(env) && Schedule(v.fee) == Schedule(start.fee)
    requires env == EnvOf(pool, data, env.fee.aToB, bound) && start.fee == InitialFee(pool).value
    requires OnTheWay(env, GoalOf(env, v.idx), v.fee, v.sqrtP)
    ensures ChargedRate(pool, v.fee.index, RateAt(env.fee, v.fee, v.fee.index))
    ensures StaticPool(pool)
      || PriceAt(pool, v.fee.index * PeriodUnit(pool)) <= v.sqrtP <= PriceAt(pool, (v.fee.index + 1) * PeriodUnit(pool))
    ensures PlanStep(env.fee, v.fee, GoalOf(env, v.idx).target, v.liq).bounded
      == Bounded(pool, env.fee.aToB, v.liq, TickAhead(data, env.fee.aToB, bound, v.idx), v.fee.index)
    ensures env.feeOnInput == ChargesInput(pool, env.fee.aToB)
  {
    hide PlanStep, InitialFee, RateAt, ChargedRate, StopAt, StopTick, Increasing, GoalOf;
    RateIsCharged(pool, env.fee, v.fee.index);
    SameRates(env.fee, v.fee, start.fee, v.fee.index);
    FeeUnit(pool);
    StaticIs(pool);
    PlanStops(env, v.fee, GoalOf(env, v.idx).target, v.liq);
    StopIsStopAt(pool, env.fee.aToB, v.fee.index);
    GoalIsRaw(env, pool, data, bound, v.idx);
  }

  lemma StaticIs(pool: Pool)
    requires pool.tickSpacing > 0 && InitialFee(pool).Some?
    ensures InitialFee(pool).value.venue.StaticFee? <==> StaticPool(pool)
  {
  }

  lemma GoalIsRaw(env: Env, pool: Pool, data: TickData, bound: Option<int>, n: int)
    requires env == EnvOf(pool, data, env.fee.aToB, bound)
    ensures var goal, t := GoalOf(env, n), TickAhead(data, env.fee.aToB, bound, n);
      && goal.tick == t && goal.price == PriceAt(pool, t)
      && goal.target == Nearer(PriceAt(pool, t), Limit(pool.layout, env.fee.aToB), env.fee.aToB)
      && (goal.net.Some? <==> InReach(data, env.fee.aToB, bound, n)) && (goal.net.Some? ==> goal.net.value == data.ticks[n].net)
      && env.limit == Limit(pool.layout, env.fee.aToB)
  {
  }

  lemma ArrivalRefused(env: Env, start: Walk, pool: Pool, data: TickData, bound: Option<int>, v: Walk, rate: u32)
    requires pool.tickSpacing > 0 && InitialFee(pool).Some? && Usable(env) && Schedule(v.fee) == Schedule(start.fee)
    requires env == EnvOf(pool, data, env.fee.aToB, bound) && start.fee == InitialFee(pool).value
    requires v.sqrtP == GoalOf(env, v.idx).price && ChargedWhereItIs(env, start.fee, v.book, v.fee.index, v.sqrtP)
    requires rate < FEE_DENOMINATOR && rate == RateAt(env.fee, v.fee, v.fee.index) && GoalOf(env, v.idx).net.Some?
    requires 0 <= v.idx < |data.ticks| && Arrive(env, v, GoalOf(env, v.idx), rate).Refused?
    ensures NoArrival(pool, data, env.fee.aToB, v.remaining, v.out, v.liq, v.sqrtP, v.idx, v.book)
  {
    hide FillAt, GoalOf, ExactArrival, RateAt, ChargedRate, InitialFee, PeriodUnit, NoFill;
    var goal, aToB := GoalOf(env, v.idx), env.fee.aToB;
    GoalIsRaw(env, pool, data, bound, v.idx);
    ChargedRaw(env, start, pool, data, bound, v);
    var resting := OrdersAt(env, goal.tick);
    if FillAt(env, v, goal, rate).None? {
      FillRefused(env, pool, v, goal, rate);
    } else {
      var f := FillAt(env, v, goal, rate).value;
      var e := Filled(goal.tick, rate, v.fee.index, v.remaining, f.used, f.got, f.filled, f.filled == resting);
      FillIsExactArrival(env, v, goal, rate, e);
      ExactArrivalSpends(env.layout, goal.price, Resting(env.orders, goal.tick), aToB, env.feeOnInput, e);
    }
  }

  lemma ExactArrivalSpends(layout: Layout, p: u128, unfilled: u64, aToB: bool, feeOnInput: bool, e: Entry)
    requires e.Filled? && ExactArrival(layout, p, unfilled, aToB, feeOnInput, e)
    ensures e.used <= e.left && (!e.crossed ==> e.used == e.left)
  {
    hide ExactMatch, ExactFusion;
  }

  lemma ChargedRaw(env: Env, start: Walk, pool: Pool, data: TickData, bound: Option<int>, v: Walk)
    requires pool.tickSpacing > 0 && InitialFee(pool).Some? && Usable(env) && Schedule(v.fee) == Schedule(start.fee)
    requires env == EnvOf(pool, data, env.fee.aToB, bound) && start.fee == InitialFee(pool).value
    requires ChargedWhereItIs(env, start.fee, v.book, v.fee.index, v.sqrtP)
    ensures ChargedRate(pool, v.fee.index, RateAt(env.fee, v.fee, v.fee.index)) && FilledIn(pool, v.book, v.fee.index, v.sqrtP)
    ensures env.feeOnInput == ChargesInput(pool, env.fee.aToB)
  {
    hide InitialFee, RateAt, ChargedRate;
    RateIsCharged(pool, env.fee, v.fee.index);
    SameRates(env.fee, v.fee, start.fee, v.fee.index);
    FeeUnit(pool);
    StaticIs(pool);
  }

  lemma FillRefused(env: Env, pool: Pool, v: Walk, goal: Goal, rate: u32)
    requires rate < FEE_DENOMINATOR && FillAt(env, v, goal, rate).None?
    requires env.layout == pool.layout && env.feeOnInput == ChargesInput(pool, env.fee.aToB)
    ensures NoFill(pool, env.fee.aToB, v.remaining, goal.price, OrdersAt(env, goal.tick), rate)
  {
    hide MatchLimitOrders, FillFusionOrders, HasMatch, HasFullPrice;
    var resting := OrdersAt(env, goal.tick);
    if env.layout.FusionTicks? {
      FusionExistsIff(resting, v.remaining, goal.price, rate, env.fee.aToB);
    } else {
      MatchExistsIff(resting, v.remaining, goal.price, rate, env.fee.aToB, env.feeOnInput);
    }
  }

  lemma StuckIsNoFarther(pool: Pool, data: TickData, aToB: bool, amountIn: u64, bound: Option<int>, v: Walk)
    requires Acceptable(pool, amountIn) && InitialFee(pool).Some? && Increasing(pool.table)
    requires var env, start := EnvOf(pool, data, aToB, bound), StartOf(pool, data, aToB, amountIn, InitialFee(pool).value);
      Booked(env, start, v) && Heading(env, start, v) && Stuck(env, start, v)
    ensures NoFarther(pool, data, aToB, amountIn, bound, v.book)
  {
    hide PlanStep, MovePrice, Arrive, GoalOf, OnTheWay, ChargedWhereItIs, InitialFee, NoMove, NoArrival, TickAhead,
      LiquidityAfter, NetsMet, TotalUsed, TotalGot, Arrivals, Crossings, PriceAfter, TickAfter, Follows, CountAtOrBelow, InReach;
    var env, start := EnvOf(pool, data, aToB, bound), StartOf(pool, data, aToB, amountIn, InitialFee(pool).value);
    var goal := GoalOf(env, v.idx);
    var plan := PlanStep(env.fee, v.fee, goal.target, v.liq);
    LiquidityIsNets(pool, data, aToB, env, start.idx, Arrivals(v.book));
    GoalIsRaw(env, pool, data, bound, v.idx);
    PlanRate(env.fee, v.fee, goal.target, v.liq);
    if !InBounds(env, v, goal) {
    } else if OnTheWay(env, goal, v.fee, v.sqrtP) && MovePrice(env, v, plan).Refused? {
      MoveRefused(env, start, pool, data, bound, v);
    } else if goal.net.Some? {
      UsableIsTick(data, aToB, bound, v.idx);
      ArrivalRefused(env, start, pool, data, bound, v, plan.rate);
    } else {
      EdgeRefused(env, v, goal, plan.rate);
    }
  }

  lemma UsableIsTick(data: TickData, aToB: bool, bound: Option<int>, n: int)
    requires InReach(data, aToB, bound, n)
    ensures 0 <= n < |data.ticks|
  {
  }

  lemma EdgeRefused(env: Env, v: Walk, goal: Goal, rate: u32)
    requires rate < FEE_DENOMINATOR && goal.net.None? && Arrive(env, v, goal, rate).Refused?
    ensures v.remaining != 0
  {
  }

  // ── every refusal ───────────────────────────────────────────────────────

  /** Nothing to swap, no price, a static fee of 100 %, no tick spacing, or an Orca pool before it opens. */
  predicate NotOpen(pool: Pool, amountIn: u64) {
    || amountIn == 0 || pool.sqrtPrice == 0 || pool.feePpm >= 1_000_000 || pool.tickSpacing <= 0
    || (pool.dynamicFee.None? && pool.adaptiveFee.Some? && pool.now < pool.adaptiveFee.value.tradeEnable)
  }

  /** Input is left at the price limit or behind 512 ticks, or the output does not fit 64 bits. */
  predicate NoQuote(pool: Pool, aToB: bool, amountIn: u64, book: seq<Entry>) {
    || (TotalUsed(book) < amountIn && (PriceAfter(pool.sqrtPrice, book) == Limit(pool.layout, aToB) || Arrivals(book) == 512))
    || Q64 <= TotalGot(book)
  }

  /** A swap of a pool on its tick table is refused only before it starts, or for one of those reasons after a book of exact
      trades. */
  lemma RefusedForAReason(pool: Pool, data: TickData, aToB: bool, amountIn: u64, bound: Option<int>) returns (book: seq<Entry>)
    requires OnTable(pool, data, aToB) && SwapExactIn(pool, data, aToB, amountIn, bound).None?
    ensures NotOpen(pool, amountIn) || NoFarther(pool, data, aToB, amountIn, bound, book) || NoQuote(pool, aToB, amountIn, book)
    ensures forall k | 0 <= k < |book| :: Posted(pool, data, aToB, amountIn, bound, book[..k], book[k])
  {
    hide Outer, Placed, Posted, Follows, FairLog, OnTable, Stuck, NoFarther, TotalUsed, TotalGot, Arrivals, Crossings, PriceAfter,
      TickAfter;
    book := [];
    if !NotOpen(pool, amountIn) {
      TableIsConsistent(pool, data, aToB);
      StartIsPlaced(pool, data, aToB, amountIn, bound);
      var env, start := EnvOf(pool, data, aToB, bound), StartOf(pool, data, aToB, amountIn, InitialFee(pool).value);
      NothingBooked(env, start);
      if Outer(env, start, MAX_TICK_STEPS).Refused? {
        var v := OuterStuck(env, start, start, MAX_TICK_STEPS);
        StuckIsNoFarther(pool, data, aToB, amountIn, bound, v);
        book := v.book;
      } else {
        OuterIsBooked(env, start, start, MAX_TICK_STEPS);
        EndsEarly(env, start, start, MAX_TICK_STEPS);
        GoalIsRaw(env, pool, data, bound, start.idx);
        book := Outer(env, start, MAX_TICK_STEPS).w.book;
      }
      forall k | 0 <= k < |book| ensures Posted(pool, data, aToB, amountIn, bound, book[..k], book[k]) {
        FollowsIsPosted(pool, data, aToB, amountIn, bound, book[..k], book[k]);
      }
    }
  }

  lemma NothingBooked(env: Env, start: Walk)
    requires start.book == [] && start.log == [] && start.out == 0 && start.crossed == 0
    ensures Booked(env, start, start) && Heading(env, start, start) && Arrivals(start.book) == 0
  {
  }
}

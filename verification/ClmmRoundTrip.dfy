/** Swapping back what a swap delivered never returns more than was put in, across ticks and under any fee. */
module ClmmRoundTrip {
  import opened Numbers
  import opened ClmmStep
  import opened StepFees
  import opened ClmmWalk
  import opened ClmmPeriods
  import opened ClmmArea
  import opened ClmmSplit

  // ── spans and paths as areas ────────────────────────────────────────────

  lemma FractionFalls(k: real, x: real, y: real)
    requires 0.0 < k && 0.0 < x < y
    ensures k / y < k / x
  {
    assert k / y * y == k && k / x * x == k;
    RealStrict(x, y, k / x);
    RealCancelStrict(k / y, k / x, y);
  }

  lemma LevelRises(aToB: bool, inSide: bool, p: u128, t: u128)
    requires 0 < p && 0 < t && p != t && Ahead(p, t, aToB)
    ensures Level(aToB, inSide, p) < Level(aToB, inSide, t)
  {
    var k, x, y := Q64 as real, Min(p, t) as real, Max(p, t) as real;
    FractionFalls(k, x, y);
    RealQuotientRises(x, y, k);
  }

  lemma RealQuotientRises(x: real, y: real, k: real)
    requires 0.0 < k && x < y
    ensures x / k < y / k
  {
  }

  /** Both tokens of a span are there or neither is. */
  lemma SpanSigns(aToB: bool, liquidity: nat, p: u128, t: u128)
    requires 0 < p && 0 < t && Ahead(p, t, aToB)
    ensures 0.0 <= Span(aToB, true, liquidity, p, t) && 0.0 <= Span(aToB, false, liquidity, p, t)
    ensures Span(aToB, true, liquidity, p, t) == 0.0 <==> Span(aToB, false, liquidity, p, t) == 0.0
  {
    if p == t || liquidity == 0 {
      EmptySpan(aToB, true, liquidity, p, t);
      EmptySpan(aToB, false, liquidity, p, t);
    } else {
      hide Level;
      LevelRises(aToB, true, p, t);
      LevelRises(aToB, false, p, t);
      RealStrict(0.0, Level(aToB, true, t) - Level(aToB, true, p), liquidity as real);
      RealStrict(0.0, Level(aToB, false, t) - Level(aToB, false, p), liquidity as real);
    }
  }

  /** One way a token is the input, the other way it is the output, over the same span. */
  lemma SpanMirrors(aToB: bool, inSide: bool, liquidity: nat, p: u128, t: u128)
    requires 0 < p && 0 < t
    ensures Span(!aToB, inSide, liquidity, t, p) == Span(aToB, !inSide, liquidity, p, t)
  {
    assert Level(!aToB, inSide, p) == -Level(aToB, !inSide, p) && Level(!aToB, inSide, t) == -Level(aToB, !inSide, t);
  }

  lemma {:induction false} PathSigns(env: Env, idx: int, liquidity: nat, p: u128, end: u128)
    requires Usable(env) && 0 < p && 0 < end && Ahead(p, end, env.fee.aToB)
    ensures 0.0 <= PathArea(env, true, idx, liquidity, p, end) && 0.0 <= PathArea(env, false, idx, liquidity, p, end)
    ensures PathArea(env, true, idx, liquidity, p, end) == 0.0 <==> PathArea(env, false, idx, liquidity, p, end) == 0.0
    decreases if env.fee.aToB then idx + 1 else |env.ticks| - idx
  {
    hide Span;
    var aToB := env.fee.aToB;
    SpanSigns(aToB, liquidity, p, end);
    if 0 <= idx < |env.ticks| {
      var tp := TickPrice(env, idx);
      var beyond := if aToB then liquidity - env.ticks[idx].net else liquidity + env.ticks[idx].net;
      if Ahead(p, tp, aToB) && Ahead(tp, end, aToB) && 0 <= beyond {
        SpanSigns(aToB, liquidity, p, tp);
        PathSigns(env, if aToB then idx - 1 else idx + 1, beyond, tp, end);
      }
    }
  }

  /** Up to a price before the next tick, the path is one span. */
  lemma PathStarts(env: Env, inSide: bool, idx: int, liquidity: nat, p: u128, m: u128, end: u128)
    requires Usable(env) && 0 < p && 0 < m && 0 < end && Ahead(p, m, env.fee.aToB) && Ahead(m, end, env.fee.aToB)
    requires 0 <= idx < |env.ticks| ==> Ahead(m, TickPrice(env, idx), env.fee.aToB)
    ensures PathArea(env, inSide, idx, liquidity, p, end)
         == Span(env.fee.aToB, inSide, liquidity, p, m) + PathArea(env, inSide, idx, liquidity, m, end)
  {
    hide Span;
    SpanAdds(env.fee.aToB, inSide, liquidity, p, m, end);
    if 0 <= idx < |env.ticks| {
      SpanAdds(env.fee.aToB, inSide, liquidity, p, m, TickPrice(env, idx));
    }
  }

  /** A path that goes farther holds at least as much. */
  lemma {:induction false} PathFarther(env: Env, inSide: bool, idx: int, liquidity: nat, p: u128, m: u128, end: u128)
    requires Usable(env) && 0 < p && 0 < m && 0 < end && Ahead(p, m, env.fee.aToB) && Ahead(m, end, env.fee.aToB)
    ensures PathArea(env, inSide, idx, liquidity, p, m) <= PathArea(env, inSide, idx, liquidity, p, end)
    decreases if env.fee.aToB then idx + 1 else |env.ticks| - idx
  {
    hide Span;
    var aToB := env.fee.aToB;
    SpanAdds(aToB, inSide, liquidity, p, m, end);
    SpanSigns(aToB, liquidity, m, end);
    if 0 <= idx < |env.ticks| {
      var tp := TickPrice(env, idx);
      var beyond := if aToB then liquidity - env.ticks[idx].net else liquidity + env.ticks[idx].net;
      var next := if aToB then idx - 1 else idx + 1;
      if Ahead(p, tp, aToB) && Ahead(tp, end, aToB) && 0 <= beyond {
        if Ahead(tp, m, aToB) {
          PathFarther(env, inSide, next, beyond, tp, m, end);
        } else {
          SpanAdds(aToB, inSide, liquidity, p, m, tp);
          SpanSigns(aToB, liquidity, m, tp);
          PathSigns(env, next, beyond, tp, end);
        }
      }
    }
  }

  // ── the way back ────────────────────────────────────────────────────────

  /** The same ticks and prices, walked the other way. */
  ghost predicate Opposite(env: Env, back: Env) {
    back.ticks == env.ticks && back.fee.table == env.fee.table && back.fee.aToB == !env.fee.aToB
  }

  /** The tick behind the one a walk is heading for: the first one it meets on the way back. */
  function Behind(env: Env, idx: int): int {
    if env.fee.aToB then idx + 1 else idx - 1
  }

  predicate BehindIsPast(env: Env, idx: int, p: u128) {
    0 <= Behind(env, idx) < |env.ticks| ==> Ahead(TickPrice(env, Behind(env, idx)), p, env.fee.aToB)
  }

  /** Back over the span of a pass that crossed nothing. */
  lemma BackOverSpan(env: Env, back: Env, inSide: bool, idx: int, liquidity: nat, p: u128, m: u128, end: u128)
    requires Usable(env) && Usable(back) && Opposite(env, back) && BehindIsPast(env, idx, p)
    requires 0 < p && 0 < m && 0 < end && Ahead(p, m, env.fee.aToB) && Ahead(end, p, env.fee.aToB)
    ensures PathArea(back, inSide, Behind(env, idx), liquidity, m, end)
         == Span(env.fee.aToB, !inSide, liquidity, p, m) + PathArea(back, inSide, Behind(env, idx), liquidity, p, end)
  {
    hide Span, PathArea;
    PathStarts(back, inSide, Behind(env, idx), liquidity, m, p, end);
    SpanMirrors(env.fee.aToB, inSide, liquidity, p, m);
  }

  /** Back over a tick: its liquidity is restored. */
  lemma BackOverTick(env: Env, back: Env, inSide: bool, idx: int, liquidity: nat, beyond: nat, end: u128)
    requires Usable(env) && Usable(back) && Opposite(env, back) && 0 <= idx < |env.ticks| && 0 < end
    requires beyond == if env.fee.aToB then liquidity - env.ticks[idx].net else liquidity + env.ticks[idx].net
    requires Ahead(end, TickPrice(env, idx), env.fee.aToB)
    ensures 0 < TickPrice(env, idx)
    ensures PathArea(back, inSide, idx, beyond, TickPrice(env, idx), end)
         == PathArea(back, inSide, Behind(env, idx), liquidity, TickPrice(env, idx), end)
  {
    hide Span;
    var tp := TickPrice(env, idx);
    EmptySpan(back.fee.aToB, inSide, beyond, tp, tp);
  }

  // ── what a pass crosses ─────────────────────────────────────────────────

  /** One more tick crossed if the price ended on the goal's tick. */
  predicate Crosses(goal: Goal, w: Walk, to: Walk) {
    to.idx == w.idx && to.crossed == w.crossed + if to.sqrtP == goal.price && goal.net.Some? then 1 else 0
  }

  lemma MoveKeepsPlace(env: Env, w: Walk, plan: Plan)
    requires plan.rate < FEE_DENOMINATOR && MovePrice(env, w, plan).Walked?
    ensures MovePrice(env, w, plan).w.idx == w.idx && MovePrice(env, w, plan).w.crossed == w.crossed
  {
    hide SwapStep;
  }

  lemma ArriveCrosses(env: Env, goal: Goal, w: Walk, rate: u32)
    requires rate < FEE_DENOMINATOR && NoOrders(env) && Arrive(env, w, goal, rate).Walked? && w.sqrtP == goal.price
    ensures Crosses(goal, w, Arrive(env, w, goal, rate).w)
  {
  }

  lemma SubStepCrosses(env: Env, goal: Goal, w: Walk)
    requires Usable(env) && NoOrders(env) && SubStep(env, goal, w).Walked?
    ensures Crosses(goal, w, SubStep(env, goal, w).w)
  {
    hide PlanStep, MovePrice, Arrive, Advanced, NoOrders;
    var plan := PlanStep(env.fee, w.fee, goal.target, w.liq);
    MoveKeepsPlace(env, w, plan);
    var m := MovePrice(env, w, plan).w;
    if m.sqrtP == goal.price {
      ArriveCrosses(env, goal, m, plan.rate);
      ArriveIsSound(env, goal, m, plan.rate);
    }
  }

  lemma {:induction false} InnerCrosses(env: Env, goal: Goal, w: Walk)
    requires OnTheWay(env, goal, w.fee, w.sqrtP) && NoOrders(env) && Inner(env, goal, w).Walked?
    ensures Crosses(goal, w, Inner(env, goal, w).w)
    decreases Gap(env, goal, w.fee)
  {
    hide SubStep, OnTheWay, FairLog, Placed, NoOrders;
    InnerPreconditions(env, goal, w);
    SubStepCrosses(env, goal, w);
    SubStepIsSound(env, goal, w);
    var n := SubStep(env, goal, w).w;
    if !Done(goal, n) {
      GapShrinks(env, goal, w);
      GoalNotPassed(env, goal, n);
      InnerCrosses(env, goal, n);
    }
  }

  /** A pass: no liquidity is changed short of its tick; on it, with the tick listed, its net is crossed. */
  lemma PassCrosses(env: Env, w: Walk)
    requires Usable(env) && Placed(env, w) && NoOrders(env) && OuterStep(env, w).Walked?
    ensures var r, goal := OuterStep(env, w).w, GoalOf(env, w.idx);
      && 0 < w.sqrtP && 0 < r.sqrtP && Ahead(w.sqrtP, r.sqrtP, env.fee.aToB) && Ahead(r.sqrtP, goal.target, env.fee.aToB)
      && Crosses(goal, w, r) && (r.sqrtP == goal.price || Stopped(env, r))
      && r.liq == if r.crossed == w.crossed then w.liq
                  else if env.fee.aToB then w.liq - env.ticks[w.idx].net else w.liq + env.ticks[w.idx].net
  {
    hide Inner, Span, Covered, FairLog, PlanStep, Within, TickInPeriod, NoOrders;
    GoalIsAhead(env, w);
    PassCovered(env, w);
    InnerCrosses(env, GoalOf(env, w.idx), w.(liqNext := w.liq));
  }

  // ── the whole way ───────────────────────────────────────────────────────

  /** A path that crosses its first tick. */
  lemma PathCrosses(env: Env, inSide: bool, idx: int, liquidity: nat, beyond: nat, p: u128, end: u128)
    requires Usable(env) && 0 <= idx < |env.ticks| && 0 < p && 0 < end
    requires beyond == if env.fee.aToB then liquidity - env.ticks[idx].net else liquidity + env.ticks[idx].net
    requires Ahead(p, TickPrice(env, idx), env.fee.aToB) && Ahead(TickPrice(env, idx), end, env.fee.aToB)
    ensures 0 < TickPrice(env, idx)
    ensures PathArea(env, inSide, idx, liquidity, p, end)
         == Span(env.fee.aToB, inSide, liquidity, p, TickPrice(env, idx))
            + PathArea(env, inSide, if env.fee.aToB then idx - 1 else idx + 1, beyond, TickPrice(env, idx), end)
  {
    hide Span;
  }

  /** Back over one pass that crossed its tick. */
  lemma BackOverPass(env: Env, back: Env, inSide: bool, w: Walk, r: Walk, end: u128, q: u128)
    requires Usable(env) && Usable(back) && Opposite(env, back) && BehindIsPast(env, w.idx, w.sqrtP)
    requires 0 <= w.idx < |env.ticks| && 0 < w.sqrtP && 0 < end && 0 < q && r.sqrtP == TickPrice(env, w.idx)
    requires r.liq == if env.fee.aToB then w.liq - env.ticks[w.idx].net else w.liq + env.ticks[w.idx].net
    requires Ahead(q, w.sqrtP, env.fee.aToB) && Ahead(w.sqrtP, r.sqrtP, env.fee.aToB) && Ahead(r.sqrtP, end, env.fee.aToB)
    ensures 0 < r.sqrtP
    ensures var next := if env.fee.aToB then w.idx - 1 else w.idx + 1;
      PathArea(env, !inSide, next, r.liq, r.sqrtP, end) + PathArea(back, inSide, w.idx, r.liq, r.sqrtP, q)
      == PathArea(env, !inSide, w.idx, w.liq, w.sqrtP, end) + PathArea(back, inSide, Behind(env, w.idx), w.liq, w.sqrtP, q)
  {
    hide PathArea, Span;
    PathCrosses(env, !inSide, w.idx, w.liq, r.liq, w.sqrtP, end);
    BackOverTick(env, back, inSide, w.idx, w.liq, r.liq, q);
    BackOverSpan(env, back, inSide, w.idx, w.liq, w.sqrtP, r.sqrtP, q);
  }

  /** From where a run ended, the way back to where it began holds the run's own areas with the tokens exchanged; from
      there on it is the way back from the start. */
  lemma {:induction false} WayBack(env: Env, back: Env, inSide: bool, w: Walk, n: nat, x: int, q: u128)
    requires Usable(env) && Usable(back) && Opposite(env, back) && NoOrders(env)
    requires 0 < w.sqrtP && (Stopped(env, w) || Placed(env, w)) && BehindIsPast(env, w.idx, w.sqrtP)
    requires Outer(env, w, n).Walked? && 0 < q && Ahead(q, w.sqrtP, env.fee.aToB)
    requires Origin(env.fee.aToB, x, Outer(env, w, n).w.crossed) == Origin(env.fee.aToB, w.idx, w.crossed)
    ensures var end := Outer(env, w, n).w;
      && 0 < end.sqrtP && Ahead(w.sqrtP, end.sqrtP, env.fee.aToB)
      && PathArea(back, inSide, Behind(env, x), end.liq, end.sqrtP, q)
         == PathArea(env, !inSide, w.idx, w.liq, w.sqrtP, end.sqrtP)
            + PathArea(back, inSide, Behind(env, w.idx), w.liq, w.sqrtP, q)
    decreases n
  {
    hide Outer, OuterStep, PathArea, Span, FairLog, Placed, GoalOf, NoOrders;
    if n == 0 || Stopped(env, w) {
      RunEnds(env, w, n);
      StandingStill(env, !inSide, w.idx, w.liq, w.sqrtP);
    } else {
      RunUnfolds(env, w, n);
      PassCrosses(env, w);
      GoalIsTick(env, w);
      var r := OuterStep(env, w).w;
      if r.crossed == w.crossed {
        if NextTick(env, w.idx).Some? {
          RunEnds(env, NextPass(env, w), n - 1);
        }
        PassIsPath(env, w, r);
        BackOverSpan(env, back, inSide, w.idx, w.liq, w.sqrtP, r.sqrtP, q);
      } else {
        NextIsPlaced(env, w);
        OuterIsSound(env, NextPass(env, w), n - 1);
        WayBack(env, back, inSide, NextPass(env, w), n - 1, x, q);
        BackOverPass(env, back, inSide, w, r, Outer(env, w, n).w.sqrtP, q);
      }
    }
  }

  /** The goal is a tick to cross exactly when the next tick is listed. */
  lemma GoalIsTick(env: Env, w: Walk)
    ensures GoalOf(env, w.idx).net.Some? <==> NextTick(env, w.idx).Some?
    ensures NextTick(env, w.idx).Some? ==> 0 <= w.idx < |env.ticks| && GoalOf(env, w.idx).price == TickPrice(env, w.idx)
  {
  }

  // ── there and back ──────────────────────────────────────────────────────

  /** Initialised ticks at or below the pool's tick are priced at or below its price, the others at or above it. */
  ghost predicate PricedAmongTicks(pool: Pool, data: TickData) {
    forall i | 0 <= i < |data.ticks| ::
      var price := pool.table.price(Clamp(data.ticks[i].index, MIN_TICK, MAX_TICK));
      if i < CountAtOrBelow(data.ticks, pool.tickCurrent) then price <= pool.sqrtPrice else pool.sqrtPrice <= price
  }

  /** A pool where the swap left off; its fee, its fee state and its clock may be any. */
  ghost predicate LeftAt(pool: Pool, data: TickData, aToB: bool, w: Walk, after: Pool) {
    && after.table == pool.table && after.sqrtPrice == w.sqrtP && after.liquidity == w.liq
    && Passed(aToB, CountAtOrBelow(data.ticks, pool.tickCurrent), CountAtOrBelow(data.ticks, after.tickCurrent), w.crossed)
  }

  predicate OrderFree(data: TickData) {
    forall t | t in data.orders :: data.orders[t] == 0
  }

  lemma CoveredBounds(feeOnInput: bool, floor: nat, used: nat, areaIn: real, got: nat, areaOut: real)
    requires Covered(feeOnInput, floor, used, areaIn, got, areaOut) && 0.0 <= areaOut && floor <= FEE_DENOMINATOR
    ensures areaIn <= used as real && got as real <= areaOut
  {
    var d, k := FEE_DENOMINATOR as real, (FEE_DENOMINATOR - floor) as real;
    RealMono(k, d, used as real);
    RealMono(k, d, areaOut);
    if feeOnInput { RealCancel(areaIn, used as real, d); } else { RealCancel(got as real, areaOut, d); }
  }

  /** Whatever fees either swap is charged, with no limit orders: swapping back any part of what a swap delivered returns
      at most what was put in. */
  lemma RoundTripNeverGains(pool: Pool, data: TickData, aToB: bool, amountIn: u64, bound: Option<int>, after: Pool, part: u64,
      bound': Option<int>)
    requires WellFormed(pool) && SwapExactIn(pool, data, aToB, amountIn, bound).Some? && OrderFree(data)
    requires Consistent(pool, data, aToB) && PricedAmongTicks(pool, data)
    requires LeftAt(pool, data, aToB, RunOf(pool, data, aToB, amountIn, bound).w, after)
    requires WellFormed(after) && SwapExactIn(after, data, !aToB, part, bound').Some? && Consistent(after, data, !aToB)
    requires part <= SwapExactIn(pool, data, aToB, amountIn, bound).value.amountOut
    ensures SwapExactIn(after, data, !aToB, part, bound').value.amountOut <= amountIn
  {
    hide Outer, Covered, PathArea, FairLog, Placed, CountAtOrBelow;
    var env, back := EnvOf(pool, data, aToB, bound), EnvOf(after, data, !aToB, bound');
    var fs, fs' := InitialFee(pool).value, InitialFee(after).value;
    var w, w' := StartOf(pool, data, aToB, amountIn, fs), StartOf(after, data, !aToB, part, fs');
    var out, end := SwapExactIn(pool, data, aToB, amountIn, bound).value, RunOf(pool, data, aToB, amountIn, bound).w;
    var home := SwapExactIn(after, data, !aToB, part, bound').value;
    WalkIsCovered(pool, data, aToB, amountIn, bound);
    WalkIsCovered(after, data, !aToB, part, bound');
    StartIsPlaced(pool, data, aToB, amountIn, bound);
    PathSigns(env, w.idx, w.liq, w.sqrtP, end.sqrtP);
    PathSigns(back, w'.idx, w'.liq, w'.sqrtP, home.endSqrtPrice);
    CoveredBounds(env.feeOnInput, FeeFloor(env.fee, fs), amountIn, PathArea(env, true, w.idx, w.liq, w.sqrtP, end.sqrtP),
                  out.amountOut, PathArea(env, false, w.idx, w.liq, w.sqrtP, end.sqrtP));
    CoveredBounds(back.feeOnInput, FeeFloor(back.fee, fs'), part,
                  PathArea(back, true, w'.idx, w'.liq, w'.sqrtP, home.endSqrtPrice), home.amountOut,
                  PathArea(back, false, w'.idx, w'.liq, w'.sqrtP, home.endSqrtPrice));
    var x := if aToB then w'.idx - 1 else w'.idx + 1;
    if Ahead(home.endSqrtPrice, w.sqrtP, !aToB) {
      WayBack(env, back, false, w, MAX_TICK_STEPS, x, w.sqrtP);
      PathFarther(back, false, w'.idx, w'.liq, w'.sqrtP, home.endSqrtPrice, w.sqrtP);
      StandingStill(back, false, Behind(env, w.idx), w.liq, w.sqrtP);
    } else {
      WayBack(env, back, true, w, MAX_TICK_STEPS, x, home.endSqrtPrice);
      WayBack(env, back, false, w, MAX_TICK_STEPS, x, home.endSqrtPrice);
      PathSigns(back, Behind(env, w.idx), w.liq, w.sqrtP, home.endSqrtPrice);
    }
  }
}

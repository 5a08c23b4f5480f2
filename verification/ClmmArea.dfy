/** The walk against the exact area under the pool's piecewise liquidity. */
module ClmmArea {
  import opened Numbers
  import opened ClmmStep
  import opened StepFees
  import opened ClmmWalk
  import opened ClmmPeriods

  /** Amount of a token one unit of liquidity has exchanged once the price is at `p`: the input
      token's or the output token's exact antiderivative, rising in the swap direction. */
  ghost function Level(aToB: bool, inSide: bool, p: u128): real
    requires p > 0
  {
    if aToB then (if inSide then Q64 as real / p as real else -(p as real / Q64 as real))
    else (if inSide then p as real / Q64 as real else -(Q64 as real / p as real))
  }

  ghost function Span(aToB: bool, inSide: bool, liquidity: nat, p: u128, t: u128): real
    requires p > 0 && t > 0
  {
    liquidity as real * (Level(aToB, inSide, t) - Level(aToB, inSide, p))
  }

  /** Exact area from `p` to `end`: the starting liquidity up to the next initialised tick between them,
      then the liquidity adjusted by that tick's net, and so on. Knows nothing of amounts, fees or rounding. */
  ghost function PathArea(env: Env, inSide: bool, idx: int, liquidity: nat, p: u128, end: u128): real
    requires Usable(env) && p > 0 && end > 0
    decreases if env.fee.aToB then idx + 1 else |env.ticks| - idx
  {
    var aToB := env.fee.aToB;
    if !(0 <= idx < |env.ticks|) then Span(aToB, inSide, liquidity, p, end)
    else
      var tp := env.fee.table.price(Clamp(env.ticks[idx].index, MIN_TICK, MAX_TICK));
      var beyond := if aToB then liquidity - env.ticks[idx].net else liquidity + env.ticks[idx].net;
      if Ahead(p, tp, aToB) && Ahead(tp, end, aToB) && 0 <= beyond then
        Span(aToB, inSide, liquidity, p, tp) + PathArea(env, inSide, if aToB then idx - 1 else idx + 1, beyond, tp, end)
      else Span(aToB, inSide, liquidity, p, end)
  }

  // ── one step against the area ───────────────────────────────────────────

  /** A token-0 amount against `liquidity·2⁶⁴·(1/lo − 1/hi)`, by cross-multiplication. */
  lemma Token0Span(lo: nat, hi: nat, liquidity: nat, q: int)
    requires 0 < lo && 0 < hi
    ensures var span := liquidity as real * (Q64 as real / lo as real - Q64 as real / hi as real);
      && (liquidity * Q64 * (hi - lo) <= q * (lo * hi) ==> span <= q as real)
      && (q * (lo * hi) <= liquidity * Q64 * (hi - lo) ==> q as real <= span)
  {
  }

  /** A token-1 amount against `liquidity·(hi − lo)/2⁶⁴`. */
  lemma Token1Span(lo: nat, hi: nat, liquidity: nat, q: int)
    ensures var span := liquidity as real * (hi as real / Q64 as real - lo as real / Q64 as real);
      && (liquidity * (hi - lo) <= q * Q64 ==> span <= q as real)
      && (q * Q64 <= liquidity * (hi - lo) ==> q as real <= span)
  {
  }

  lemma SpanShape(p: u128, t: u128, liquidity: u128, aToB: bool)
    requires 0 < p && 0 < t
    ensures var k, l := Q64 as real, liquidity as real;
      && Span(aToB, true, liquidity, p, t) == (if aToB then l * (k / t as real - k / p as real) else l * (t as real / k - p as real / k))
      && Span(aToB, false, liquidity, p, t) == (if aToB then l * (p as real / k - t as real / k) else l * (k / p as real - k / t as real))
  {
  }

  lemma CostCoversSpan(p: u128, t: u128, liquidity: u128, aToB: bool)
    requires 0 < p && 0 < t && Ahead(p, t, aToB)
    ensures Span(aToB, true, liquidity, p, t) <= Cost(p, t, liquidity, aToB) as real
    ensures Yield(p, t, liquidity, aToB) as real <= Span(aToB, false, liquidity, p, t)
  {
    hide Cost, Yield, Span;
    var c, y := Cost(p, t, liquidity, aToB), Yield(p, t, liquidity, aToB);
    CostIff(p, t, liquidity, aToB, c);
    YieldIff(p, t, liquidity, aToB, y);
    SpanShape(p, t, liquidity, aToB);
    if aToB {
      Token0Span(t, p, liquidity, c);
      Token1Span(t, p, liquidity, y);
    } else {
      Token1Span(p, t, liquidity, c);
      Token0Span(p, t, liquidity, y);
    }
  }

  // ── accounting ──────────────────────────────────────────────────────────

  /** The least rate any step of the swap charges. */
  function FeeFloor(env: FeeEnv, fs: FeeState): nat {
    if fs.venue.StaticFee? then env.base else Min(env.base, MAX_DYNAMIC_RATE)
  }

  /** `used` input and `got` output against exact areas, with at least `floor`/10⁶ of the fee side kept by the pool. */
  ghost predicate Covered(feeOnInput: bool, floor: nat, used: nat, areaIn: real, got: nat, areaOut: real) {
    var d := FEE_DENOMINATOR as real;
    if feeOnInput then d * areaIn <= used as real * (FEE_DENOMINATOR - floor) as real && got as real <= areaOut
    else areaIn <= used as real && d * got as real <= areaOut * (FEE_DENOMINATOR - floor) as real
  }

  lemma CoveredAdds(feeOnInput: bool, floor: nat, u1: nat, in1: real, g1: nat, out1: real, u2: nat, in2: real, g2: nat,
      out2: real)
    requires Covered(feeOnInput, floor, u1, in1, g1, out1) && Covered(feeOnInput, floor, u2, in2, g2, out2)
    ensures Covered(feeOnInput, floor, u1 + u2, in1 + in2, g1 + g2, out1 + out2)
  {
  }

  /** A sound step is covered by the exact span it crossed. */
  lemma StepCovered(p: u128, target: u128, liquidity: u128, remaining: u128, rate: u32, floor: nat, aToB: bool,
      feeOnInput: bool, s: Step)
    requires 0 < p && rate < FEE_DENOMINATOR && floor <= rate && Ahead(p, target, aToB)
    requires SoundStep(p, target, liquidity, remaining, rate, aToB, feeOnInput, s)
    ensures Covered(feeOnInput, floor, s.used, Span(aToB, true, liquidity, p, s.next), s.got,
      Span(aToB, false, liquidity, p, s.next))
  {
    hide Cost, Yield, Span;
    CostCoversSpan(p, s.next, liquidity, aToB);
    var c, y, d := Cost(p, s.next, liquidity, aToB), Yield(p, s.next, liquidity, aToB), FEE_DENOMINATOR;
    if feeOnInput {
      MulMono(d - rate, d - floor, s.used);
      ProductAsReal(s.used, d - floor);
    } else {
      FloorIff(y * (d - rate), d, s.got);
      MulMono(d - rate, d - floor, y);
      ProductAsReal(y, d - floor);
      RealMono(y as real, Span(aToB, false, liquidity, p, s.next), (d - floor) as real);
    }
  }

  /** No limit orders rest on any tick. */
  predicate NoOrders(env: Env) {
    forall t | t in env.orders :: env.orders[t] == 0
  }

  ghost predicate CoveredWalk(env: Env, floor: nat, w: Walk, to: Walk, areaIn: real, areaOut: real) {
    to.remaining <= w.remaining && w.out <= to.out
    && Covered(env.feeOnInput, floor, w.remaining - to.remaining, areaIn, to.out - w.out, areaOut)
  }

  /** The liquidity beyond the goal, once the price is on it. */
  function LiqBeyond(env: Env, goal: Goal, w: Walk, to: Walk): int {
    if to.sqrtP == goal.price && goal.net.Some? then
      if env.fee.aToB then w.liq - goal.net.value else w.liq + goal.net.value
    else w.liqNext
  }

  /** Constant liquidity between two ticks, and the exact span it covers. */
  ghost predicate CoveredSpan(env: Env, goal: Goal, floor: nat, w: Walk, to: Walk) {
    && 0 < w.sqrtP && 0 < to.sqrtP
    && to.liq == w.liq && to.liqNext == LiqBeyond(env, goal, w, to)
    && CoveredWalk(env, floor, w, to, Span(env.fee.aToB, true, w.liq, w.sqrtP, to.sqrtP),
      Span(env.fee.aToB, false, w.liq, w.sqrtP, to.sqrtP))
  }

  lemma NothingCovered(feeOnInput: bool, floor: nat)
    ensures Covered(feeOnInput, floor, 0, 0.0, 0, 0.0)
  {
  }

  lemma EmptySpan(aToB: bool, inSide: bool, liquidity: nat, p: u128, t: u128)
    requires 0 < p && 0 < t && (p == t || liquidity == 0)
    ensures Span(aToB, inSide, liquidity, p, t) == 0.0
  {
  }

  lemma PlanRateFloor(env: FeeEnv, fs: FeeState, target: u128, liquidity: u128)
    requires env.base < FEE_DENOMINATOR
    ensures FeeFloor(env, fs) <= PlanStep(env, fs, target, liquidity).rate
  {
  }

  lemma StepUsesRemaining(env: Env, goal: Goal, w: Walk)
    requires OnTheWay(env, goal, w.fee, w.sqrtP)
    requires MovePrice(env, w, PlanStep(env.fee, w.fee, goal.target, w.liq)).Walked?
    ensures var m := MovePrice(env, w, PlanStep(env.fee, w.fee, goal.target, w.liq)).w;
      0 < m.sqrtP && m.liq == w.liq && m.liqNext == w.liqNext && m.remaining <= w.remaining && w.out <= m.out
  {
    hide TotalRate, PlanStep, FairLog;
    MovePriceIsSound(env, goal, w);
    MoveStops(env, w, PlanStep(env.fee, w.fee, goal.target, w.liq));
  }

  lemma MoveCovered(env: Env, goal: Goal, w: Walk)
    requires OnTheWay(env, goal, w.fee, w.sqrtP)
    requires MovePrice(env, w, PlanStep(env.fee, w.fee, goal.target, w.liq)).Walked?
    ensures var m := MovePrice(env, w, PlanStep(env.fee, w.fee, goal.target, w.liq)).w;
      && 0 < m.sqrtP && m.liq == w.liq && m.liqNext == w.liqNext
      && CoveredWalk(env, FeeFloor(env.fee, w.fee), w, m, Span(env.fee.aToB, true, w.liq, w.sqrtP, m.sqrtP),
        Span(env.fee.aToB, false, w.liq, w.sqrtP, m.sqrtP))
  {
    hide TotalRate, Span, Covered, SwapStep, OnTheWay, PlanStep, FeeFloor, SoundStep;
    InnerPreconditions(env, goal, w);
    PositivePrice(env, goal, w);
    var plan := PlanStep(env.fee, w.fee, goal.target, w.liq);
    PlanIsAhead(env, goal, w.fee, w.liq, w.sqrtP);
    PlanRateFloor(env.fee, w.fee, goal.target, w.liq);
    StepUsesRemaining(env, goal, w);
    var floor := FeeFloor(env.fee, w.fee);
    if w.sqrtP != plan.bounded && w.liq != 0 {
      SwapStepIsSound(w.sqrtP, plan.bounded, w.liq, w.remaining, plan.rate, env.fee.aToB, env.feeOnInput);
      StepCovered(w.sqrtP, plan.bounded, w.liq, w.remaining, plan.rate, floor, env.fee.aToB, env.feeOnInput,
                  SwapStep(w.sqrtP, plan.bounded, w.liq, w.remaining, plan.rate, env.fee.aToB, env.feeOnInput).value);
    } else {
      var m := MovePrice(env, w, plan).w;
      NothingCovered(env.feeOnInput, floor);
      EmptySpan(env.fee.aToB, true, w.liq, w.sqrtP, m.sqrtP);
      EmptySpan(env.fee.aToB, false, w.liq, w.sqrtP, m.sqrtP);
    }
  }

  lemma PositivePrice(env: Env, goal: Goal, w: Walk)
    requires OnTheWay(env, goal, w.fee, w.sqrtP)
    ensures 0 < w.sqrtP
  {
  }

  lemma ArriveFree(env: Env, goal: Goal, w: Walk, rate: u32)
    requires rate < FEE_DENOMINATOR && NoOrders(env) && Arrive(env, w, goal, rate).Walked?
    ensures var a := Arrive(env, w, goal, rate).w;
      && a.remaining == w.remaining && a.out == w.out && a.liq == w.liq && a.sqrtP == w.sqrtP
      && a.liqNext == if goal.net.Some? then (if env.fee.aToB then w.liq - goal.net.value else w.liq + goal.net.value) else w.liqNext
  {
  }

  lemma SubStepCovered(env: Env, goal: Goal, w: Walk)
    requires OnTheWay(env, goal, w.fee, w.sqrtP) && NoOrders(env) && SubStep(env, goal, w).Walked?
    ensures CoveredSpan(env, goal, FeeFloor(env.fee, w.fee), w, SubStep(env, goal, w).w)
  {
    hide TotalRate, Span, Covered, PlanStep, MovePrice, Arrive, OnTheWay, Advanced;
    InnerPreconditions(env, goal, w);
    PositivePrice(env, goal, w);
    MoveCovered(env, goal, w);
    var plan := PlanStep(env.fee, w.fee, goal.target, w.liq);
    var m := MovePrice(env, w, plan).w;
    if m.sqrtP == goal.price {
      ArriveFree(env, goal, m, plan.rate);
    }
  }

  lemma SpanAdds(aToB: bool, inSide: bool, liquidity: nat, a: u128, b: u128, c: u128)
    requires 0 < a && 0 < b && 0 < c
    ensures Span(aToB, inSide, liquidity, a, b) + Span(aToB, inSide, liquidity, b, c) == Span(aToB, inSide, liquidity, a, c)
  {
  }

  lemma {:induction false} InnerCovered(env: Env, goal: Goal, w: Walk)
    requires OnTheWay(env, goal, w.fee, w.sqrtP) && NoOrders(env) && Inner(env, goal, w).Walked?
    ensures CoveredSpan(env, goal, FeeFloor(env.fee, w.fee), w, Inner(env, goal, w).w)
    decreases Gap(env, goal, w.fee)
  {
    hide SubStep, OnTheWay, Span, Covered, FairLog, Placed;
    InnerPreconditions(env, goal, w);
    SubStepCovered(env, goal, w);
    SubStepIsSound(env, goal, w);
    var n := SubStep(env, goal, w).w;
    if !Done(goal, n) {
      GapShrinks(env, goal, w);
      InnerCovered(env, goal, n);
      SameUnit(env, w, n);
      var r := Inner(env, goal, n).w;
      GoalNotPassed(env, goal, n);
      SpanAdds(env.fee.aToB, true, w.liq, w.sqrtP, n.sqrtP, r.sqrtP);
      SpanAdds(env.fee.aToB, false, w.liq, w.sqrtP, n.sqrtP, r.sqrtP);
      CoveredAdds(env.feeOnInput, FeeFloor(env.fee, w.fee),
                  w.remaining - n.remaining, Span(env.fee.aToB, true, w.liq, w.sqrtP, n.sqrtP), n.out - w.out,
                    Span(env.fee.aToB, false, w.liq, w.sqrtP, n.sqrtP),
                  n.remaining - r.remaining, Span(env.fee.aToB, true, w.liq, n.sqrtP, r.sqrtP), r.out - n.out,
                    Span(env.fee.aToB, false, w.liq, n.sqrtP, r.sqrtP));
    }
  }

  lemma GoalNotPassed(env: Env, goal: Goal, w: Walk)
    requires OnTheWay(env, goal, w.fee, w.sqrtP) && !Done(goal, w)
    ensures w.sqrtP != goal.price
  {
  }

  // ── the whole walk ──────────────────────────────────────────────────────

  /** Up to the next tick, or short of it, the area is one span. */
  lemma PathWithinSpan(env: Env, inSide: bool, idx: int, liquidity: nat, p: u128, end: u128)
    requires Usable(env) && 0 < p && 0 < end && Ahead(p, end, env.fee.aToB)
    requires 0 <= idx < |env.ticks| ==> Ahead(end, TickPrice(env, idx), env.fee.aToB)
    ensures PathArea(env, inSide, idx, liquidity, p, end) == Span(env.fee.aToB, inSide, liquidity, p, end)
    decreases if env.fee.aToB then idx + 1 else |env.ticks| - idx
  {
    hide Span;
    if 0 <= idx < |env.ticks| && TickPrice(env, idx) == end {
      var beyond := if env.fee.aToB then liquidity - env.ticks[idx].net else liquidity + env.ticks[idx].net;
      if 0 <= beyond {
        StandingStill(env, inSide, if env.fee.aToB then idx - 1 else idx + 1, beyond, end);
      }
    }
  }

  lemma StandingStill(env: Env, inSide: bool, idx: int, liquidity: nat, p: u128)
    requires Usable(env) && 0 < p
    ensures PathArea(env, inSide, idx, liquidity, p, p) == 0.0
    decreases if env.fee.aToB then idx + 1 else |env.ticks| - idx
  {
    hide Span;
    EmptySpan(env.fee.aToB, inSide, liquidity, p, p);
    if 0 <= idx < |env.ticks| && TickPrice(env, idx) == p {
      var beyond := if env.fee.aToB then liquidity - env.ticks[idx].net else liquidity + env.ticks[idx].net;
      if 0 <= beyond {
        StandingStill(env, inSide, if env.fee.aToB then idx - 1 else idx + 1, beyond, p);
      }
    }
  }

  ghost predicate CoveredPath(env: Env, floor: nat, w: Walk, to: Walk)
    requires Usable(env)
  {
    && 0 < w.sqrtP && 0 < to.sqrtP
    && CoveredWalk(env, floor, w, to, PathArea(env, true, w.idx, w.liq, w.sqrtP, to.sqrtP),
      PathArea(env, false, w.idx, w.liq, w.sqrtP, to.sqrtP))
  }

  /** The tick a pass did not reach, in the list or beyond the edge, is not before where it ended. */
  lemma NextTickNotPassed(env: Env, idx: int, end: u128)
    requires Usable(env) && Ahead(end, GoalOf(env, idx).target, env.fee.aToB)
    requires 0 <= idx < |env.ticks|
    ensures Ahead(end, TickPrice(env, idx), env.fee.aToB)
  {
  }

  lemma PassCovered(env: Env, w: Walk)
    requires Usable(env) && Placed(env, w) && NoOrders(env)
    requires OuterStep(env, w).Walked?
    ensures CoveredSpan(env, GoalOf(env, w.idx), FeeFloor(env.fee, w.fee), w.(liqNext := w.liq),
      OuterStep(env, w).w.(liq := w.liq))
    ensures var to := OuterStep(env, w).w;
      && to.liq == to.liqNext && Ahead(w.sqrtP, to.sqrtP, env.fee.aToB)
        && Ahead(to.sqrtP, GoalOf(env, w.idx).target, env.fee.aToB)
      && (to.sqrtP == GoalOf(env, w.idx).price || Stopped(env, to))
  {
    hide Inner, Span, Covered, FairLog, PlanStep, Within, TickInPeriod;
    GoalIsAhead(env, w);
    InnerCovered(env, GoalOf(env, w.idx), w.(liqNext := w.liq));
    InnerIsSound(env, GoalOf(env, w.idx), w.(liqNext := w.liq));
    InnerEnds(env, GoalOf(env, w.idx), w.(liqNext := w.liq));
  }

  lemma {:induction false} OuterCovered(env: Env, w: Walk, n: nat)
    requires Usable(env) && NoOrders(env)
    requires 0 < w.sqrtP && (Stopped(env, w) || Placed(env, w))
    requires Outer(env, w, n).Walked?
    ensures CoveredPath(env, FeeFloor(env.fee, w.fee), w, Outer(env, w, n).w)
    decreases n
  {
    hide OuterStep, Covered, Span, PathArea, FairLog, Within, TickInPeriod, GoalOf;
    var floor := FeeFloor(env.fee, w.fee);
    if n == 0 || Stopped(env, w) {
      NothingCovered(env.feeOnInput, floor);
      StandingStill(env, true, w.idx, w.liq, w.sqrtP);
      StandingStill(env, false, w.idx, w.liq, w.sqrtP);
    } else {
      PassCovered(env, w);
      PassIsSound(env, w);
      var m := OuterStep(env, w).w;
      SameUnit(env, w, m);
      var next := m.(idx := w.idx + if env.fee.aToB then -1 else 1);
      if NextTick(env, w.idx).None? || Stopped(env, m) {
        PassIsPath(env, w, m);
      } else {
        OuterCovered(env, next, n - 1);
        OuterIsSound(env, next, n - 1);
        CrossThenPath(env, floor, w, m, Outer(env, next, n - 1).w);
      }
    }
  }

  /** A pass that crossed its tick, then the path beyond it. */
  lemma CrossThenPath(env: Env, floor: nat, w: Walk, m: Walk, to: Walk)
    requires Usable(env) && NextTick(env, w.idx).Some? && m.sqrtP == GoalOf(env, w.idx).price
    requires CoveredSpan(env, GoalOf(env, w.idx), floor, w.(liqNext := w.liq), m.(liq := w.liq)) && m.liq == m.liqNext
    requires CoveredPath(env, floor, m.(idx := w.idx + if env.fee.aToB then -1 else 1), to)
    requires Ahead(w.sqrtP, m.sqrtP, env.fee.aToB) && Ahead(m.sqrtP, to.sqrtP, env.fee.aToB)
    ensures CoveredPath(env, floor, w, to)
  {
    hide Covered, Span;
    var idx := w.idx + if env.fee.aToB then -1 else 1;
    var aToB, p, tp, end := env.fee.aToB, w.sqrtP, m.sqrtP, to.sqrtP;
    assert tp == TickPrice(env, w.idx);
    CoveredAdds(env.feeOnInput, floor,
                w.remaining - m.remaining, Span(aToB, true, w.liq, p, tp), m.out - w.out, Span(aToB, false, w.liq, p, tp),
                m.remaining - to.remaining, PathArea(env, true, idx, m.liq, tp, end), to.out - m.out,
                  PathArea(env, false, idx, m.liq, tp, end));
  }

  lemma PassIsPath(env: Env, w: Walk, m: Walk)
    requires Usable(env) && 0 < w.sqrtP && 0 < m.sqrtP
    requires Ahead(w.sqrtP, m.sqrtP, env.fee.aToB) && Ahead(m.sqrtP, GoalOf(env, w.idx).target, env.fee.aToB)
    ensures PathArea(env, true, w.idx, w.liq, w.sqrtP, m.sqrtP) == Span(env.fee.aToB, true, w.liq, w.sqrtP, m.sqrtP)
    ensures PathArea(env, false, w.idx, w.liq, w.sqrtP, m.sqrtP) == Span(env.fee.aToB, false, w.liq, w.sqrtP, m.sqrtP)
  {
    if 0 <= w.idx < |env.ticks| {
      NextTickNotPassed(env, w.idx, m.sqrtP);
    }
    PathWithinSpan(env, true, w.idx, w.liq, w.sqrtP, m.sqrtP);
    PathWithinSpan(env, false, w.idx, w.liq, w.sqrtP, m.sqrtP);
  }

  /** A swap without limit orders, under any fee: the output is at most the exact area of the piecewise
      liquidity between start and end price, the input at least the exact area in the other token, and the
      fee side is short of its area by at least the fee floor (the exact rate, for a static fee). */
  lemma WalkIsCovered(pool: Pool, data: TickData, aToB: bool, amountIn: u64, bound: Option<int>)
    requires WellFormed(pool) && SwapExactIn(pool, data, aToB, amountIn, bound).Some?
    requires Consistent(pool, data, aToB) && (forall t | t in data.orders :: data.orders[t] == 0)
    ensures var q := SwapExactIn(pool, data, aToB, amountIn, bound).value;
      var env := EnvOf(pool, data, aToB, bound);
      var idx := StartOf(pool, data, aToB, amountIn, InitialFee(pool).value).idx;
      && 0 < q.endSqrtPrice && Ahead(pool.sqrtPrice, q.endSqrtPrice, aToB)
      && Covered(env.feeOnInput, FeeFloor(env.fee, InitialFee(pool).value),
                 amountIn, PathArea(env, true, idx, pool.liquidity, pool.sqrtPrice, q.endSqrtPrice),
                 q.amountOut, PathArea(env, false, idx, pool.liquidity, pool.sqrtPrice, q.endSqrtPrice))
  {
    hide Outer, Covered, PathArea, FairLog;
    InitialFeeIsFramed(pool);
    StartIsPlaced(pool, data, aToB, amountIn, bound);
    var fs, env := InitialFee(pool).value, EnvOf(pool, data, aToB, bound);
    var start := StartOf(pool, data, aToB, amountIn, fs);
    OuterCovered(env, start, MAX_TICK_STEPS);
    OuterIsSound(env, start, MAX_TICK_STEPS);
  }
}

/** The moves of a walk, one by one: the liquidity each used and the fee it was charged. */
module ClmmLog {
  import opened Numbers
  import opened ClmmStep
  import opened StepFees
  import opened ClmmWalk
  import opened ClmmPeriods

  // ── the log grows move by move ──────────────────────────────────────────

  /** A move made between two places of a walk, with the liquidity and no earlier fee period than it had at the first. */
  predicate Leg(env: Env, m: Move, w: Walk, r: Walk) {
    && m.liquidity == w.liq && Beyond(env.fee.aToB, w.fee.index, m.index)
    && Ahead(w.sqrtP, m.from, env.fee.aToB) && Ahead(m.from, m.to, env.fee.aToB) && Ahead(m.to, r.sqrtP, env.fee.aToB)
  }

  /** From `w` to `r` the log only gained such moves. */
  ghost predicate Extends(env: Env, w: Walk, r: Walk) {
    && |w.log| <= |r.log| && r.log[..|w.log|] == w.log
    && forall k | |w.log| <= k < |r.log| :: Leg(env, r.log[k], w, r)
  }

  lemma ExtendsTransitive(env: Env, w: Walk, n: Walk, r: Walk)
    requires Extends(env, w, n) && Extends(env, n, r) && n.liq == w.liq && Beyond(env.fee.aToB, w.fee.index, n.fee.index)
    requires Ahead(w.sqrtP, n.sqrtP, env.fee.aToB) && Ahead(n.sqrtP, r.sqrtP, env.fee.aToB)
    ensures Extends(env, w, r)
  {
    assert r.log[..|w.log|] == r.log[..|n.log|][..|w.log|];
    forall k | |w.log| <= k < |r.log| ensures Leg(env, r.log[k], w, r) {
      if k < |n.log| {
        assert r.log[k] == r.log[..|n.log|][k];
      }
    }
  }

  lemma MoveExtends(env: Env, goal: Goal, w: Walk)
    requires OnTheWay(env, goal, w.fee, w.sqrtP)
    ensures var plan := PlanStep(env.fee, w.fee, goal.target, w.liq);
      MovePrice(env, w, plan).Walked? ==>
        var m := MovePrice(env, w, plan).w;
        Extends(env, w, m) && m.liq == w.liq && m.idx == w.idx && m.liqNext == w.liqNext
  {
    hide TotalRate, PlanStep, OnTheWay, SwapStep;
    InnerPreconditions(env, goal, w);
    var plan := PlanStep(env.fee, w.fee, goal.target, w.liq);
    PlanIsAhead(env, goal, w.fee, w.liq, w.sqrtP);
    MovePriceIsSound(env, goal, w);
  }

  lemma ArriveKeeps(env: Env, goal: Goal, w: Walk, rate: u32)
    requires rate < FEE_DENOMINATOR && Arrive(env, w, goal, rate).Walked?
    ensures var a := Arrive(env, w, goal, rate).w;
      && a.log == w.log && a.liq == w.liq && a.idx == w.idx && a.sqrtP == w.sqrtP && a.fee == w.fee
      && (a.remaining != 0 ==> goal.net.Some? && AddNet(w.liq, goal.net.value, env.fee.aToB) == Some(a.liqNext))
  {
    hide FillAt;
  }

  /** One inner iteration: at most one move, and with input left a fee period further along or, on the goal's tick, its
      liquidity crossed. */
  lemma SubStepExtends(env: Env, goal: Goal, w: Walk)
    requires OnTheWay(env, goal, w.fee, w.sqrtP) && SubStep(env, goal, w).Walked?
    ensures var n := SubStep(env, goal, w).w;
      && Extends(env, w, n) && n.liq == w.liq && n.idx == w.idx && (w.fee.venue.StaticFee? ==> n.fee == w.fee)
      && (!Done(goal, n) ==> Beyond(env.fee.aToB, w.fee.index, n.fee.index))
      && (n.remaining != 0 && n.sqrtP == goal.price ==>
            goal.net.Some? && AddNet(w.liq, goal.net.value, env.fee.aToB) == Some(n.liqNext))
  {
    hide TotalRate, PlanStep, MovePrice, Arrive;
    var plan := PlanStep(env.fee, w.fee, goal.target, w.liq);
    MoveExtends(env, goal, w);
    MovePriceIsSound(env, goal, w);
    var m := MovePrice(env, w, plan).w;
    if m.sqrtP == goal.price {
      ArriveKeeps(env, goal, m, plan.rate);
    }
    if !Done(goal, SubStep(env, goal, w).w) {
      var k := StopsAtEdge(env, goal, w.fee, w.liq, w.sqrtP,
          (if m.sqrtP == goal.price then Arrive(env, m, goal, plan.rate).w else m).tick);
    }
  }

  lemma {:induction false} InnerExtends(env: Env, goal: Goal, w: Walk)
    requires OnTheWay(env, goal, w.fee, w.sqrtP) && Inner(env, goal, w).Walked?
    ensures var r := Inner(env, goal, w).w;
      && Extends(env, w, r) && r.liq == w.liq && r.idx == w.idx && (w.fee.venue.StaticFee? ==> r.fee == w.fee)
      && (r.remaining != 0 && r.sqrtP == goal.price ==>
            goal.net.Some? && AddNet(w.liq, goal.net.value, env.fee.aToB) == Some(r.liqNext))
    decreases Gap(env, goal, w.fee)
  {
    hide SubStep, OnTheWay, Extends, FairLog, Placed;
    InnerPreconditions(env, goal, w);
    SubStepExtends(env, goal, w);
    SubStepIsSound(env, goal, w);
    var n := SubStep(env, goal, w).w;
    if !Done(goal, n) {
      GapShrinks(env, goal, w);
      InnerExtends(env, goal, n);
      InnerIsSound(env, goal, n);
      ExtendsTransitive(env, w, n, Inner(env, goal, n).w);
    }
  }

  /** The fee period on the far side of a crossed tick is no earlier. */
  lemma CrossedIsBeyond(env: Env, goal: Goal, fs: FeeState, p: u128, r: Walk)
    requires OnTheWay(env, goal, fs, p) && !fs.venue.StaticFee? && Placed(env, r) && SameFeeParameters(fs, r.fee)
    requires r.sqrtP == goal.price
    ensures Beyond(env.fee.aToB, fs.index, r.fee.index)
  {
    var i, unit := r.fee.index, fs.unit;
    if env.fee.aToB {
      if fs.index < i {
        MulMono(fs.index + 1, i, unit);
        TickOrder(env.fee.table, goal.tick, Clamp(i * unit, MIN_TICK, MAX_TICK));
      }
    } else {
      if i < fs.index {
        MulMono(i + 1, fs.index, unit);
        TickOrder(env.fee.table, Clamp((i + 1) * unit, MIN_TICK, MAX_TICK), goal.tick);
      }
    }
  }

  // ── across ticks ────────────────────────────────────────────────────────

  /** The `k`-th tick a walk from `idx` crosses. */
  function Crossing(env: Env, idx: int, k: nat): int {
    if env.fee.aToB then idx - k else idx + k
  }

  /** A liquidity after crossing `k` ticks from `idx`. */
  function LiquidityAfter(env: Env, idx: int, liquidity: int, k: nat): int {
    if k == 0 || !(0 <= Crossing(env, idx, k - 1) < |env.ticks|) then liquidity
    else
      var net := env.ticks[Crossing(env, idx, k - 1)].net;
      LiquidityAfter(env, idx, liquidity, k - 1) + if env.fee.aToB then -net else net
  }

  /** Price `p` lies past the first `k` ticks from `idx`. */
  ghost predicate PastTicks(env: Env, idx: int, k: nat, p: u128) {
    forall j | 0 <= j < k :: 0 <= Crossing(env, idx, j) < |env.ticks|
        && Ahead(TickPrice(env, Crossing(env, idx, j)), p, env.fee.aToB)
  }

  /** Price `p` is not past tick `k` from `idx`, if the walk may use it. */
  predicate BeforeTick(env: Env, idx: int, k: nat, p: u128) {
    NextTick(env, Crossing(env, idx, k)).Some? ==> Ahead(p, TickPrice(env, Crossing(env, idx, k)), env.fee.aToB)
  }

  /** The move lies between tick `k - 1` and tick `k` from `idx` and used the liquidity after crossing `k` of them. */
  ghost predicate Between(env: Env, idx: int, liquidity: int, m: Move, k: nat) {
    m.liquidity == LiquidityAfter(env, idx, liquidity, k) && PastTicks(env, idx, k, m.from) && BeforeTick(env, idx, k, m.to)
  }

  /** Where a walk that started at `start` stands after crossing `k` ticks, and the moves that brought it there. */
  ghost predicate Tracked(env: Env, start: Walk, w: Walk, k: nat) {
    && w.idx == Crossing(env, start.idx, k) && w.liq == LiquidityAfter(env, start.idx, start.liq, k)
    && PastTicks(env, start.idx, k, w.sqrtP)
    && (w.remaining != 0 && !Stopped(env, w) ==> Beyond(env.fee.aToB, start.fee.index, w.fee.index))
    && TrackedLog(env, start, w.log)
  }

  ghost predicate TrackedLog(env: Env, start: Walk, log: seq<Move>) {
    forall m | m in log ::
      Ahead(m.from, m.to, env.fee.aToB) && Beyond(env.fee.aToB, start.fee.index, m.index)
      && exists k :: Between(env, start.idx, start.liq, m, k)
  }

  lemma PastFarther(env: Env, idx: int, k: nat, p: u128, q: u128)
    requires PastTicks(env, idx, k, p) && Ahead(p, q, env.fee.aToB)
    ensures PastTicks(env, idx, k, q)
  {
  }

  /** The moves of one pass are tracked. */
  lemma PassIsTracked(env: Env, start: Walk, w: Walk, k: nat, r: Walk)
    requires Tracked(env, start, w, k) && w.remaining != 0 && !Stopped(env, w)
    requires Extends(env, w, r) && Ahead(r.sqrtP, GoalOf(env, w.idx).target, env.fee.aToB)
    ensures TrackedLog(env, start, r.log)
  {
    hide LiquidityAfter;
    forall m | m in r.log
      ensures Ahead(m.from, m.to, env.fee.aToB) && Beyond(env.fee.aToB, start.fee.index, m.index)
      ensures exists k :: Between(env, start.idx, start.liq, m, k)
    {
      var i :| 0 <= i < |r.log| && r.log[i] == m;
      if i < |w.log| {
        assert m == r.log[..|w.log|][i];
      } else {
        assert Leg(env, r.log[i], w, r);
        PastFarther(env, start.idx, k, w.sqrtP, m.from);
        assert Between(env, start.idx, start.liq, m, k);
      }
    }
  }

  /** One pass: its moves, and with input left the next tick crossed. */
  lemma PassExtends(env: Env, w: Walk)
    requires Usable(env) && Placed(env, w) && OuterStep(env, w).Walked?
    ensures var r := OuterStep(env, w).w;
      && Extends(env, w, r) && Ahead(r.sqrtP, GoalOf(env, w.idx).target, env.fee.aToB) && Ahead(w.sqrtP, r.sqrtP, env.fee.aToB)
      && (!Stopped(env, r) ==>
            && NextTick(env, w.idx).Some? && r.sqrtP == TickPrice(env, w.idx)
            && r.liq == w.liq + (if env.fee.aToB then -env.ticks[w.idx].net else env.ticks[w.idx].net)
            && Beyond(env.fee.aToB, w.fee.index, r.fee.index))
  {
    hide Inner, FairLog, PlanStep, Within, TickInPeriod, TotalRate;
    var goal, v := GoalOf(env, w.idx), w.(liqNext := w.liq);
    GoalIsAhead(env, w);
    InnerExtends(env, goal, v);
    InnerIsSound(env, goal, v);
    InnerEnds(env, goal, v);
    var r := Inner(env, goal, v).w;
    if !Stopped(env, r) && !w.fee.venue.StaticFee? {
      CrossedIsBeyond(env, goal, w.fee, w.sqrtP, r.(liq := r.liqNext));
    }
  }

  /** Crossing one more tick. */
  lemma CrossedOneMore(env: Env, start: Walk, w: Walk, k: nat, r: Walk)
    requires Tracked(env, start, w, k) && NextTick(env, w.idx).Some?
    requires Ahead(w.sqrtP, r.sqrtP, env.fee.aToB) && r.sqrtP == TickPrice(env, w.idx)
    requires r.liq == w.liq + (if env.fee.aToB then -env.ticks[w.idx].net else env.ticks[w.idx].net)
    requires r.idx == w.idx + (if env.fee.aToB then -1 else 1) && TrackedLog(env, start, r.log)
    requires !Stopped(env, w) && Beyond(env.fee.aToB, w.fee.index, r.fee.index)
    ensures Tracked(env, start, r, k + 1)
  {
    PastFarther(env, start.idx, k, w.sqrtP, r.sqrtP);
  }

  lemma {:induction false} OuterIsTracked(env: Env, start: Walk, w: Walk, k: nat, n: nat)
    requires Usable(env) && 0 < w.sqrtP && (Stopped(env, w) || Placed(env, w)) && Tracked(env, start, w, k)
    requires Outer(env, w, n).Walked?
    ensures TrackedLog(env, start, Outer(env, w, n).w.log)
    decreases n
  {
    hide OuterStep, FairLog, Within, TickInPeriod, TrackedLog, Extends, PastTicks, LiquidityAfter, GoalOf;
    if n != 0 && !Stopped(env, w) {
      PassIsSound(env, w);
      PassExtends(env, w);
      var r := OuterStep(env, w).w;
      PassIsTracked(env, start, w, k, r);
      if NextTick(env, w.idx).Some? {
        var next := r.(idx := w.idx + if env.fee.aToB then -1 else 1);
        if !Stopped(env, r) {
          CrossedOneMore(env, start, w, k, next);
          OuterIsTracked(env, start, next, k + 1, n - 1);
        }
      }
    }
  }

  lemma StartIsTracked(env: Env, w: Walk)
    requires w.log == []
    ensures Tracked(env, w, w, 0)
  {
  }

  /** Over any swap of a consistent pool, every move used the starting liquidity adjusted by the nets of exactly the ticks
      the price had crossed before it: some number of ticks lie behind the move, and the next usable one ahead of it. */
  lemma EveryMoveUsesItsLiquidity(pool: Pool, data: TickData, aToB: bool, amountIn: u64, bound: Option<int>)
    requires WellFormed(pool) && Acceptable(pool, amountIn) && InitialFee(pool).Some? && Consistent(pool, data, aToB)
    ensures var env := EnvOf(pool, data, aToB, bound);
      var start := StartOf(pool, data, aToB, amountIn, InitialFee(pool).value);
      match Outer(env, start, MAX_TICK_STEPS)
      case Refused(_) => true
      case Walked(w) => forall m | m in w.log :: exists k :: Between(env, start.idx, pool.liquidity, m, k)
  {
    hide Outer, Placed;
    StartIsPlaced(pool, data, aToB, amountIn, bound);
    var env, start := EnvOf(pool, data, aToB, bound), StartOf(pool, data, aToB, amountIn, InitialFee(pool).value);
    StartIsTracked(env, start);
    if Outer(env, start, MAX_TICK_STEPS).Walked? {
      OuterIsTracked(env, start, start, 0, MAX_TICK_STEPS);
    }
  }

  /** Only a Raydium pool that starts saturated, short of a reference that does not saturate by itself, can overcharge. */
  predicate NeverOvercharges(fs: FeeState, aToB: bool) {
    fs.venue.RaydiumFee? ==> NeverDesaturates(fs.v, aToB, fs.index)
  }

  /** Over any swap of a consistent pool, static, dynamic or adaptive, with or without limit orders: neither the
      subtraction of what a step used nor the guard after a partial order fill ever refuses, and every move is charged
      fairly. Unless a Raydium pool starts saturated and short of its reference, that is exactly what each fee period
      charges. */
  lemma EveryMovePaysItsPeriods(pool: Pool, data: TickData, aToB: bool, amountIn: u64, bound: Option<int>)
    requires WellFormed(pool) && Acceptable(pool, amountIn) && InitialFee(pool).Some? && Consistent(pool, data, aToB)
    ensures var fs, env := InitialFee(pool).value, EnvOf(pool, data, aToB, bound);
      match Outer(env, StartOf(pool, data, aToB, amountIn, fs), MAX_TICK_STEPS)
      case Refused(why) => !Defensive(why)
      case Walked(w) =>
        && FairLog(env.fee, Schedule(fs), w.log)
        && (NeverOvercharges(fs, aToB) ==>
              forall m, g | m in w.log && m.liquidity != 0 && Covers(env.fee, fs.unit, m, g) :: m.rate == RateAt(env.fee, fs, g))
  {
    hide Outer, Placed, Within, Covers, TotalRate, Edge, RateAt, FairMove, NeverOvercharges, InitialFee;
    InitialFeeIsFramed(pool);
    StartIsPlaced(pool, data, aToB, amountIn, bound);
    var fs, env := InitialFee(pool).value, EnvOf(pool, data, aToB, bound);
    var start := StartOf(pool, data, aToB, amountIn, fs);
    OuterIsSound(env, start, MAX_TICK_STEPS);
    var r := Outer(env, start, MAX_TICK_STEPS);
    if r.Walked? && NeverOvercharges(fs, aToB) {
      StartIsTracked(env, start);
      OuterIsTracked(env, start, start, 0, MAX_TICK_STEPS);
      forall m, g | m in r.w.log && m.liquidity != 0 && Covers(env.fee, fs.unit, m, g)
        ensures m.rate == RateAt(env.fee, fs, g)
      {
        assert FairMove(env.fee, Schedule(fs), m);
        MovePaysPeriod(env, start, r.w.log, m, g);
      }
    }
  }

  lemma MovePaysPeriod(env: Env, start: Walk, log: seq<Move>, m: Move, g: int)
    requires Increasing(env.fee.table) && TrackedLog(env, start, log) && FairMove(env.fee, Schedule(start.fee), m) && m in log
    requires NeverOvercharges(start.fee, env.fee.aToB) && m.liquidity != 0 && Covers(env.fee, start.fee.unit, m, g)
    ensures m.rate == RateAt(env.fee, start.fee, g)
  {
    hide Within, Covers, TotalRate, Edge;
    if start.fee.venue.RaydiumFee? {
      NeverOverSaturated(env.fee, Schedule(start.fee), m, g, start.fee.index);
    }
  }
}

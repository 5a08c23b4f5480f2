/** The fee period follows the price: every move of a walk is charged what its fee
    periods charge on their own, and the walk's defensive guards never fire. */
module ClmmPeriods {
  import opened Numbers
  import opened ClmmStep
  import opened LimitOrders
  import opened StepFees
  import opened ClmmWalk

  // ── fee schedules ───────────────────────────────────────────────────────

  /** The part of the fee state a swap never changes. */
  function Schedule(fs: FeeState): FeeState {
    fs.(index := 0, v := fs.v.(accumulator := 0))
  }

  /** Orca's core bounds sit where the accumulator saturates. */
  predicate CoreSaturates(fs: FeeState) {
    fs.venue.OrcaFee? ==>
      && (fs.venue.coreLower.Some? ==> fs.venue.coreLower.value.index == fs.v.indexReference - StepsToCap(fs.v))
      && (fs.venue.coreUpper.Some? ==> fs.venue.coreUpper.value.index == fs.v.indexReference + StepsToCap(fs.v))
  }

  lemma SaturatedAt(v: Volatility, i: int)
    requires Abs(v.indexReference - i) >= StepsToCap(v)
    ensures AccumulatorAt(v, i) == v.maxAccumulator
  {
  }

  lemma RateMonotone(control: u32, a: u32, b: u32, unit: nat, base: u32)
    requires a <= b
    ensures TotalRate(control, a, unit, base) <= TotalRate(control, b, unit, base)
  {
    var x, y := a * unit, b * unit;
    MulMono(a, b, unit);
    ScaledSquareMono(control, x, y);
    CeilMono(control * x * x, control * y * y, RATE_DIVISOR);
  }

  lemma ScaledSquareMono(c: nat, x: nat, y: nat)
    requires x <= y
    ensures 0 <= c * x * x <= c * y * y
  {
  }

  // ── where the price is ──────────────────────────────────────────────────

  lemma EdgeMono(env: FeeEnv, unit: pos, i: int, j: int)
    requires Increasing(env.table) && i <= j
    ensures Edge(env, unit, i) <= Edge(env, unit, j)
  {
  }

  /** A period whose lower edge is strictly below the upper edge of another is not above it. */
  lemma EdgeBelow(env: FeeEnv, unit: pos, i: int, j: int)
    requires Increasing(env.table) && Edge(env, unit, i) < Edge(env, unit, j)
    ensures i < j
  {
  }

  ghost predicate FeeReady(env: FeeEnv, fs: FeeState) {
    Increasing(env.table) && env.base < FEE_DENOMINATOR && CoreAtEdges(env.table, fs.venue, fs.unit) && CoreSaturates(fs)
  }

  /** The price is inside its fee period. */
  predicate Within(env: FeeEnv, unit: pos, i: int, p: u128) {
    Edge(env, unit, i) <= p <= Edge(env, unit, i + 1)
  }

  /** The goal's tick is not behind the fee period. */
  predicate PeriodBefore(env: Env, unit: pos, i: int, tick: int) {
    if env.fee.aToB then tick < (i + 1) * unit && i * unit <= MAX_TICK
    else i * unit < tick && MIN_TICK <= (i + 1) * unit
  }

  /** On the way to `goal`: the price has not passed it, and a dynamic fee's period holds the price and lies before it. */
  ghost predicate OnTheWay(env: Env, goal: Goal, fs: FeeState, p: u128) {
    && FeeReady(env.fee, fs) && IsGoal(env, goal) && 0 < env.limit
    && 0 < p && Ahead(p, goal.target, env.fee.aToB)
    && (!fs.venue.StaticFee? ==> Within(env.fee, fs.unit, fs.index, p) && PeriodBefore(env, fs.unit, fs.index, goal.tick))
  }

  lemma PlanIsAhead(env: Env, goal: Goal, fs: FeeState, liquidity: u128, p: u128)
    requires OnTheWay(env, goal, fs, p)
    ensures var b := PlanStep(env.fee, fs, goal.target, liquidity).bounded;
      0 < b && Ahead(p, b, env.fee.aToB) && Ahead(b, goal.target, env.fee.aToB)
  {
    if BelowCore(fs) {
      EdgeMono(env.fee, fs.unit, fs.index + 1, fs.venue.coreLower.value.index);
    } else if AboveCore(fs) {
      EdgeMono(env.fee, fs.unit, fs.venue.coreUpper.value.index + 1, fs.index);
    }
  }

  /** The core edge a skipped step stops at: the price lands on it, and the fee resumes just behind it. */
  lemma CoreEdge(env: Env, goal: Goal, fs: FeeState, p: u128, tick: int, k: int)
    requires OnTheWay(env, goal, fs, p) && !fs.venue.StaticFee?
    requires if env.fee.aToB then AboveCore(fs) && k == fs.venue.coreUpper.value.index + 1
             else BelowCore(fs) && k == fs.venue.coreLower.value.index
    requires Edge(env.fee, fs.unit, k) != goal.price
    ensures LandedIndex(env.fee, Stepped(fs), Edge(env.fee, fs.unit, k), goal.price, goal.tick, tick)
         == if env.fee.aToB then k else k - 1
  {
    MultipleOf(k, fs.unit);
  }

  /** A move that stops short of the goal stops at the edge `k` of a fee period, and the fee moves past it. */
  lemma StopsAtEdge(env: Env, goal: Goal, fs: FeeState, liquidity: u128, p: u128, tick: int) returns (k: int)
    requires OnTheWay(env, goal, fs, p)
    requires PlanStep(env.fee, fs, goal.target, liquidity).bounded != goal.target
    ensures var plan := PlanStep(env.fee, fs, goal.target, liquidity);
      var next := Advanced(env.fee, Stepped(fs), plan.skipped, plan.bounded, goal.price, goal.tick, tick);
      && plan.bounded == Edge(env.fee, fs.unit, k)
      && Schedule(next) == Schedule(fs)
      && next.index == (if env.fee.aToB then k - 1 else k)
    ensures if env.fee.aToB then k <= fs.index && goal.tick < k * fs.unit else fs.index < k && k * fs.unit < goal.tick
  {
    var plan := PlanStep(env.fee, fs, goal.target, liquidity);
    if BelowCore(fs) {
      k := fs.venue.coreLower.value.index;
      CoreEdge(env, goal, fs, p, tick, k);
    } else if AboveCore(fs) {
      k := fs.venue.coreUpper.value.index + 1;
      CoreEdge(env, goal, fs, p, tick, k);
    } else {
      k := if env.fee.aToB then fs.index else fs.index + 1;
    }
    EdgeOrder(env.fee, fs.unit, k, goal.tick);
  }

  lemma SameParameters(a: FeeState, b: FeeState)
    requires Schedule(a) == Schedule(b)
    ensures a.unit == b.unit && a.venue == b.venue && StepsToCap(a.v) == StepsToCap(b.v)
    ensures a.v.indexReference == b.v.indexReference
  {
  }

  /** A move that stops short of the goal hands the price to the next fee period. */
  lemma PeriodFollows(env: Env, goal: Goal, fs: FeeState, liquidity: u128, p: u128, tick: int)
    requires OnTheWay(env, goal, fs, p)
    requires PlanStep(env.fee, fs, goal.target, liquidity).bounded != goal.target
    ensures var plan := PlanStep(env.fee, fs, goal.target, liquidity);
      var next := Advanced(env.fee, Stepped(fs), plan.skipped, plan.bounded, goal.price, goal.tick, tick);
      Schedule(next) == Schedule(fs) && OnTheWay(env, goal, next, plan.bounded)
  {
    hide TotalRate, PlanStep, Advanced, Stepped;
    var k := StopsAtEdge(env, goal, fs, liquidity, p, tick);
    PlanIsAhead(env, goal, fs, liquidity, p);
    var plan := PlanStep(env.fee, fs, goal.target, liquidity);
    SameParameters(Advanced(env.fee, Stepped(fs), plan.skipped, plan.bounded, goal.price, goal.tick, tick), fs);
    if !fs.venue.StaticFee? {
      PeriodAt(env, fs.unit, fs.index, goal.tick, k);
    }
    EdgeMono(env.fee, fs.unit, k - 1, k);
    EdgeMono(env.fee, fs.unit, k, k + 1);
  }

  lemma PeriodAt(env: Env, unit: pos, i: int, tick: int, k: int)
    requires PeriodBefore(env, unit, i, tick)
    requires if env.fee.aToB then k <= i && tick < k * unit else i < k && k * unit < tick
    ensures PeriodBefore(env, unit, if env.fee.aToB then k - 1 else k, tick)
  {
  }

  lemma MultipleOf(k: int, unit: pos)
    ensures k * unit % unit == 0 && k * unit / unit == k
  {
    FloorIff(k * unit, unit, k);
    FloorIff(k * unit, unit, k + 1);
    MulStrict(k, k + 1, unit);
    assert k * unit == k * unit / unit * unit + k * unit % unit;
  }

  // ── what a move is charged ──────────────────────────────────────────────

  /** Fee period `g` has prices strictly inside the move. */
  predicate Covers(env: FeeEnv, unit: pos, m: Move, g: int) {
    Max(Min(m.from, m.to), Edge(env, unit, g)) < Min(Max(m.from, m.to), Edge(env, unit, g + 1))
  }

  /** A Raydium move that started saturated and covers a period nearer the reference, which is not. */
  predicate OverSaturated(fs: FeeState, m: Move, g: int) {
    m.skipped && fs.venue.RaydiumFee? && AccumulatorAt(fs.v, g) < fs.v.maxAccumulator
  }

  /** What a move is charged: a re-priced move stays inside one period and pays that period's rate; a skipped one pays
      what each period it covers would have charged on its own, and on Raydium starts saturated. The one exception
      is a Raydium move that covers an unsaturated period, which may charge that period more. */
  ghost predicate FairMove(env: FeeEnv, fs: FeeState, m: Move) {
    m.liquidity != 0 ==>
      && (forall g | Covers(env, fs.unit, m, g) ::
            RateAt(env, fs, g) <= m.rate && (m.rate == RateAt(env, fs, g) || OverSaturated(fs, m, g)))
      && (!fs.venue.StaticFee? ==> Within(env, fs.unit, m.index, m.from))
      && (m.skipped && fs.venue.RaydiumFee? ==> AccumulatorAt(fs.v, m.index) == fs.v.maxAccumulator)
      && (!m.skipped ==>
            && m.rate == RateAt(env, fs, m.index)
            && Edge(env, fs.unit, m.index) <= Min(m.from, m.to) && Max(m.from, m.to) <= Edge(env, fs.unit, m.index + 1))
  }

  /** Period `j` is at or beyond period `i` in the swap direction. */
  predicate Beyond(aToB: bool, i: int, j: int) {
    if aToB then j <= i else i <= j
  }

  /** From period `i` on, distance only grows: the reference is behind, or saturates the accumulator by itself. */
  predicate KeepsDistance(v: Volatility, aToB: bool, i: int) {
    v.maxAccumulator <= v.volatilityReference || Beyond(aToB, v.indexReference, i)
  }

  /** Saturated volatility stays saturated in every period ahead exactly when distance only grows. */
  lemma StaysSaturated(v: Volatility, aToB: bool, i: int)
    requires AccumulatorAt(v, i) == v.maxAccumulator
    ensures (forall g | Beyond(aToB, i, g) :: AccumulatorAt(v, g) == v.maxAccumulator) <==> KeepsDistance(v, aToB, i)
  {
    if !KeepsDistance(v, aToB, i) {
      assert AccumulatorAt(v, v.indexReference) == v.volatilityReference;
    } else {
      forall g | Beyond(aToB, i, g) ensures AccumulatorAt(v, g) == v.maxAccumulator {
        if v.volatilityReference < v.maxAccumulator {
          MulMono(Abs(v.indexReference - i), Abs(v.indexReference - g), VOLATILITY_SCALE);
        }
      }
    }
  }

  /** From period `i` on, saturated volatility stays saturated: `i` is not saturated yet, or distance only grows. */
  predicate NeverDesaturates(v: Volatility, aToB: bool, i: int) {
    AccumulatorAt(v, i) < v.maxAccumulator || KeepsDistance(v, aToB, i)
  }

  /** A period reached unsaturated and left saturated has been walked away from the reference. */
  lemma SaturatesAway(v: Volatility, aToB: bool, i: int, j: int)
    requires NeverDesaturates(v, aToB, i) && Beyond(aToB, i, j) && AccumulatorAt(v, j) == v.maxAccumulator
    ensures KeepsDistance(v, aToB, j)
  {
  }

  /** No swap that starts in period `i` ever leaves a saturated period for one ahead that is not, exactly then. */
  lemma NeverDesaturatesIff(v: Volatility, aToB: bool, i: int)
    ensures (forall j, g | Beyond(aToB, i, j) && Beyond(aToB, j, g) && AccumulatorAt(v, j) == v.maxAccumulator ::
               AccumulatorAt(v, g) == v.maxAccumulator)
            <==> NeverDesaturates(v, aToB, i)
  {
    if NeverDesaturates(v, aToB, i) {
      forall j, g | Beyond(aToB, i, j) && Beyond(aToB, j, g) && AccumulatorAt(v, j) == v.maxAccumulator
        ensures AccumulatorAt(v, g) == v.maxAccumulator
      {
        SaturatesAway(v, aToB, i, j);
        StaysSaturated(v, aToB, j);
      }
    } else {
      StaysSaturated(v, aToB, i);
      assert Beyond(aToB, i, i);
    }
  }

  /** From there on no move covers a period it overcharges. */
  lemma NeverOverSaturated(env: FeeEnv, fs: FeeState, m: Move, g: int, i: int)
    requires Increasing(env.table) && FairMove(env, fs, m) && m.liquidity != 0 && Covers(env, fs.unit, m, g)
    requires Ahead(m.from, m.to, env.aToB) && NeverDesaturates(fs.v, env.aToB, i) && Beyond(env.aToB, i, m.index)
    ensures !OverSaturated(fs, m, g)
  {
    if OverSaturated(fs, m, g) {
      if env.aToB { EdgeBelow(env, fs.unit, g, m.index + 1); } else { EdgeBelow(env, fs.unit, m.index, g + 1); }
      SaturatesAway(fs.v, env.aToB, i, m.index);
      StaysSaturated(fs.v, env.aToB, m.index);
      assert Beyond(env.aToB, m.index, g);
    }
  }

  lemma MoveIsFair(env: Env, goal: Goal, fs: FeeState, m: Move)
    requires OnTheWay(env, goal, fs, m.from) && m.index == fs.index
    requires var plan := PlanStep(env.fee, fs, goal.target, m.liquidity);
      m.rate == plan.rate && m.skipped == plan.skipped && Ahead(m.from, m.to, env.fee.aToB)
        && Ahead(m.to, plan.bounded, env.fee.aToB)
    ensures FairMove(env.fee, fs, m)
  {
    hide TotalRate, AccumulatorAt, OverSaturated, Covers;
    if m.liquidity != 0 && !fs.venue.StaticFee? {
      forall g | Covers(env.fee, fs.unit, m, g)
        ensures RateAt(env.fee, fs, g) <= m.rate && (m.rate == RateAt(env.fee, fs, g) || OverSaturated(fs, m, g))
      {
        CoveredRate(env, goal, fs, m, g);
      }
    }
  }

  lemma NoControl(a: u32, b: u32, unit: nat, base: u32)
    ensures TotalRate(0, a, unit, base) == TotalRate(0, b, unit, base)
  {
  }

  /** Outside the core, every period the move covers is outside it on the same side. */
  lemma CoveredIsOutsideCore(env: Env, goal: Goal, fs: FeeState, m: Move, g: int)
    requires OnTheWay(env, goal, fs, m.from) && (BelowCore(fs) || AboveCore(fs))
    requires var core := if BelowCore(fs)
                         then (if env.fee.aToB then goal.target else Min(goal.target, fs.venue.coreLower.value.price))
                         else (if env.fee.aToB then Max(goal.target, fs.venue.coreUpper.value.price) else goal.target);
      Ahead(m.from, m.to, env.fee.aToB) && Ahead(m.to, core, env.fee.aToB)
    requires Covers(env.fee, fs.unit, m, g)
    ensures AccumulatorAt(fs.v, g) == AccumulatorAt(fs.v, fs.index) == fs.v.maxAccumulator
  {
    var unit := fs.unit;
    if BelowCore(fs) {
      EdgeBelow(env.fee, unit, g, if env.fee.aToB then fs.index + 1 else fs.venue.coreLower.value.index);
    } else {
      EdgeBelow(env.fee, unit, if env.fee.aToB then fs.venue.coreUpper.value.index + 1 else fs.index, g + 1);
    }
    SaturatedAt(fs.v, g);
    SaturatedAt(fs.v, fs.index);
  }

  lemma CoveredRate(env: Env, goal: Goal, fs: FeeState, m: Move, g: int)
    requires OnTheWay(env, goal, fs, m.from) && m.index == fs.index && m.liquidity != 0 && !fs.venue.StaticFee?
    requires var plan := PlanStep(env.fee, fs, goal.target, m.liquidity);
      m.rate == plan.rate && m.skipped == plan.skipped && Ahead(m.from, m.to, env.fee.aToB)
        && Ahead(m.to, plan.bounded, env.fee.aToB)
    requires Covers(env.fee, fs.unit, m, g)
    ensures RateAt(env.fee, fs, g) <= m.rate && (m.rate == RateAt(env.fee, fs, g) || OverSaturated(fs, m, g))
  {
    hide TotalRate;
    if NothingToReprice(fs, m.liquidity) {
      if fs.venue.RaydiumFee? {
        RateMonotone(fs.v.control, AccumulatorAt(fs.v, g), AccumulatorAt(fs.v, fs.index), fs.unit, env.fee.base);
      } else {
        NoControl(AccumulatorAt(fs.v, g), AccumulatorAt(fs.v, fs.index), fs.unit, env.fee.base);
      }
    } else if BelowCore(fs) || AboveCore(fs) {
      CoveredIsOutsideCore(env, goal, fs, m, g);
    } else {
      EdgeBelow(env.fee, fs.unit, g, fs.index + 1);
      EdgeBelow(env.fee, fs.unit, fs.index, g + 1);
    }
  }

  // ── one inner iteration ─────────────────────────────────────────────────

  /** Guards that could only fire if the arithmetic were wrong. */
  predicate Defensive(why: Refusal) {
    why == Overspent || why == OrdersLeft
  }

  ghost predicate FairLog(env: FeeEnv, fs: FeeState, log: seq<Move>) {
    forall m | m in log :: FairMove(env, fs, m)
  }

  ghost predicate Forward(env: Env, from: Walk, to: Walk) {
    && to.remaining <= from.remaining && from.out <= to.out
    && 0 < to.sqrtP && Ahead(from.sqrtP, to.sqrtP, env.fee.aToB)
    && Schedule(to.fee) == Schedule(from.fee)
    && (FairLog(env.fee, Schedule(from.fee), from.log) ==> FairLog(env.fee, Schedule(from.fee), to.log))
  }

  lemma FairForSchedule(env: FeeEnv, fs: FeeState, m: Move)
    requires FairMove(env, fs, m)
    ensures FairMove(env, Schedule(fs), m)
  {
    hide TotalRate;
    assert forall g :: RateAt(env, fs, g) == RateAt(env, Schedule(fs), g);
  }

  lemma MovePriceIsSound(env: Env, goal: Goal, w: Walk)
    requires OnTheWay(env, goal, w.fee, w.sqrtP)
    ensures var plan := PlanStep(env.fee, w.fee, goal.target, w.liq);
      match MovePrice(env, w, plan)
      case Refused(why) => !Defensive(why)
      case Walked(m) =>
        && Forward(env, w, m) && m.fee == w.fee && Ahead(m.sqrtP, plan.bounded, env.fee.aToB)
        && (m.remaining == 0 || m.sqrtP == plan.bounded)
  {
    hide TotalRate, PlanStep, SwapStep, Within, PeriodBefore, FairMove, Cost;
    var plan := PlanStep(env.fee, w.fee, goal.target, w.liq);
    PlanIsAhead(env, goal, w.fee, w.liq, w.sqrtP);
    if w.sqrtP != plan.bounded {
      var to := plan.bounded;
      if w.liq != 0 {
        var s := SwapStep(w.sqrtP, plan.bounded, w.liq, w.remaining, plan.rate, env.fee.aToB, env.feeOnInput);
        if s.None? { return; }
        SwapStepIsSound(w.sqrtP, plan.bounded, w.liq, w.remaining, plan.rate, env.fee.aToB, env.feeOnInput);
        to := s.value.next;
      }
      var move := Move(w.sqrtP, to, w.liq, plan.rate, plan.skipped, w.fee.index);
      MoveIsFair(env, goal, w.fee, move);
      FairForSchedule(env.fee, w.fee, move);
    }
  }

  lemma ArriveIsSound(env: Env, goal: Goal, w: Walk, rate: u32)
    requires rate < FEE_DENOMINATOR
    ensures match Arrive(env, w, goal, rate)
      case Refused(why) => !Defensive(why)
      case Walked(a) =>
        && a.remaining <= w.remaining && w.out <= a.out && a.sqrtP == w.sqrtP && a.fee == w.fee && a.log == w.log
          && a.idx == w.idx
        && (a.remaining != 0 ==> goal.net.Some? && a.tick == if env.fee.aToB then goal.tick - 1 else goal.tick)
  {
    var f := FillAt(env, w, goal, rate);
    if goal.net.Some? && f.Some? {
      if env.layout.FusionTicks? {
        FusionIsSound(OrdersAt(env, goal.tick), w.remaining, goal.price, rate, env.fee.aToB);
      } else {
        MatchIsSound(OrdersAt(env, goal.tick), w.remaining, goal.price, rate, env.fee.aToB, env.feeOnInput);
      }
    }
  }

  // ── reaching the goal ───────────────────────────────────────────────────

  /** The current tick lies in the fee period, seen from the swap's side. */
  predicate TickInPeriod(env: Env, unit: pos, i: int, tick: int) {
    if env.fee.aToB then tick < (i + 1) * unit && i * unit <= MAX_TICK
    else i * unit <= tick && MIN_TICK <= (i + 1) * unit
  }

  /** Initialised ticks are legal and lie on fee-period edges. */
  predicate TicksOnEdges(ticks: seq<Tick>, fs: FeeState) {
    !fs.venue.StaticFee? ==>
      forall i | 0 <= i < |ticks| :: MIN_TICK <= ticks[i].index <= MAX_TICK && ticks[i].index % fs.unit == 0
  }

  /** Between two passes of the outer loop. */
  ghost predicate Placed(env: Env, w: Walk) {
    && FeeReady(env.fee, w.fee) && 0 < env.limit && TicksOnEdges(env.ticks, w.fee)
    && 0 < w.sqrtP && Ahead(w.sqrtP, env.limit, env.fee.aToB)
    && (!w.fee.venue.StaticFee? ==>
          Within(env.fee, w.fee.unit, w.fee.index, w.sqrtP) && TickInPeriod(env, w.fee.unit, w.fee.index, w.tick))
  }

  lemma GoalIsAhead(env: Env, w: Walk)
    requires Placed(env, w) && InBounds(env, w, GoalOf(env, w.idx))
    ensures OnTheWay(env, GoalOf(env, w.idx), w.fee, w.sqrtP)
  {
  }

  /** The fee period on the far side of the goal's tick. */
  lemma PeriodBeyondGoal(env: Env, goal: Goal, fs: FeeState, liquidity: u128, p: u128, tick: int, k: int)
    requires OnTheWay(env, goal, fs, p) && !fs.venue.StaticFee? && goal.tick == k * fs.unit
    requires goal.target == goal.price == PlanStep(env.fee, fs, goal.target, liquidity).bounded
    ensures Advanced(env.fee, Stepped(fs), PlanStep(env.fee, fs, goal.target, liquidity).skipped, goal.price, goal.price,
      goal.tick, tick).index
         == if env.fee.aToB then k - 1 else k
  {
    hide TotalRate;
    var plan := PlanStep(env.fee, fs, goal.target, liquidity);
    MultipleOf(k, fs.unit);
    if env.fee.aToB {
      MulCancelStrict(k, fs.index + 1, fs.unit);
      if !plan.skipped && k < fs.index {
        MulStrict(k, fs.index, fs.unit);
        TickOrder(env.fee.table, goal.tick, Clamp(fs.index * fs.unit, MIN_TICK, MAX_TICK));
      }
    } else {
      MulCancelStrict(fs.index, k, fs.unit);
      if !plan.skipped && fs.index + 1 < k {
        MulStrict(fs.index + 1, k, fs.unit);
        TickOrder(env.fee.table, goal.tick, Clamp((fs.index + 1) * fs.unit, MIN_TICK, MAX_TICK));
      }
    }
  }

  lemma MulCancelStrict(x: int, y: int, z: pos)
    requires x * z < y * z
    ensures x < y
  {
  }

  lemma ReadyTogether(env: FeeEnv, a: FeeState, b: FeeState)
    requires Schedule(a) == Schedule(b) && FeeReady(env, a)
    ensures FeeReady(env, b) && Increasing(env.table)
  {
    hide Increasing;
    SameParameters(a, b);
  }

  lemma PlacedAtGoal(env: Env, goal: Goal, fs: FeeState, p: u128, w: Walk)
    requires OnTheWay(env, goal, fs, p) && TicksOnEdges(env.ticks, fs) && Schedule(w.fee) == Schedule(fs)
    requires w.sqrtP == goal.price && Ahead(goal.price, env.limit, env.fee.aToB)
    requires w.tick == if env.fee.aToB then goal.tick - 1 else goal.tick
    requires !fs.venue.StaticFee? ==> w.fee.index * fs.unit == if env.fee.aToB then goal.tick - fs.unit else goal.tick
    ensures Placed(env, w)
  {
    hide TotalRate, FairLog, RateAt, FeeReady, Increasing;
    SameParameters(w.fee, fs);
    ReadyTogether(env.fee, fs, w.fee);
    if !fs.venue.StaticFee? {
      var i := w.fee.index;
      assert (i + 1) * fs.unit == i * fs.unit + fs.unit;
      var k := if env.fee.aToB then i + 1 else i;
      assert Edge(env.fee, fs.unit, k) == goal.price;
      EdgeMono(env.fee, fs.unit, i, i + 1);
    }
  }

  // ── the loops ───────────────────────────────────────────────────────────

  /** What an inner iteration leaves: still on the way, or stopped, or beyond the goal's tick. */
  ghost predicate InnerResult(env: Env, goal: Goal, w: Walk, r: Outcome) {
    match r
    case Refused(why) => !Defensive(why)
    case Walked(to) =>
      && Forward(env, w, to) && Ahead(to.sqrtP, goal.target, env.fee.aToB)
      && (Done(goal, to) && goal.net.Some? && GoalOnEdge(goal, w.fee) && !Stopped(env, to) && TicksOnEdges(env.ticks, w.fee) ==>
            Placed(env, to.(liq := to.liqNext)))
  }

  predicate GoalOnEdge(goal: Goal, fs: FeeState) {
    !fs.venue.StaticFee? ==> goal.tick % fs.unit == 0
  }

  lemma SubStepIsSound(env: Env, goal: Goal, w: Walk)
    requires OnTheWay(env, goal, w.fee, w.sqrtP)
    ensures InnerResult(env, goal, w, SubStep(env, goal, w))
    ensures SubStep(env, goal, w).Walked? && !Done(goal, SubStep(env, goal, w).w) ==>
            OnTheWay(env, goal, SubStep(env, goal, w).w.fee, SubStep(env, goal, w).w.sqrtP)
  {
    hide TotalRate, PlanStep, MovePrice, Arrive, Advanced, FairLog, Placed;
    var plan := PlanStep(env.fee, w.fee, goal.target, w.liq);
    MovePriceIsSound(env, goal, w);
    PlanIsAhead(env, goal, w.fee, w.liq, w.sqrtP);
    var moved := MovePrice(env, w, plan);
    if moved.Walked? {
      var arrived := if moved.w.sqrtP == goal.price then Arrive(env, moved.w, goal, plan.rate) else moved;
      if moved.w.sqrtP == goal.price {
        ArriveIsSound(env, goal, moved.w, plan.rate);
      }
      if arrived.Walked? {
        AfterSubStep(env, goal, w, plan, arrived.w);
      }
    }
  }

  lemma AdvancedKeepsSchedule(env: FeeEnv, fs: FeeState, skipped: bool, sqrtP: u128, tickPrice: u128, nextTick: int, tick: int)
    ensures Schedule(Advanced(env, Stepped(fs), skipped, sqrtP, tickPrice, nextTick, tick)) == Schedule(fs)
  {
  }

  lemma AfterSubStep(env: Env, goal: Goal, w: Walk, plan: Plan, a: Walk)
    requires OnTheWay(env, goal, w.fee, w.sqrtP) && plan == PlanStep(env.fee, w.fee, goal.target, w.liq)
    requires Forward(env, w, a) && a.fee == w.fee && Ahead(a.sqrtP, plan.bounded, env.fee.aToB)
    requires a.remaining == 0 || a.sqrtP == plan.bounded
    requires a.sqrtP == goal.price && a.remaining != 0 ==>
             goal.net.Some? && a.tick == if env.fee.aToB then goal.tick - 1 else goal.tick
    ensures var to := a.(fee := Advanced(env.fee, Stepped(w.fee), plan.skipped, a.sqrtP, goal.price, goal.tick, a.tick));
      && InnerResult(env, goal, w, Walked(to))
      && (!Done(goal, to) ==> OnTheWay(env, goal, to.fee, to.sqrtP))
  {
    hide TotalRate, PlanStep, Advanced, Stepped, FairLog, Schedule, Placed, Within, PeriodBefore;
    PlanIsAhead(env, goal, w.fee, w.liq, w.sqrtP);
    AdvancedKeepsSchedule(env.fee, w.fee, plan.skipped, a.sqrtP, goal.price, goal.tick, a.tick);
    var to := a.(fee := Advanced(env.fee, Stepped(w.fee), plan.skipped, a.sqrtP, goal.price, goal.tick, a.tick));
    if a.remaining != 0 {
      if plan.bounded != goal.target {
        PeriodFollows(env, goal, w.fee, w.liq, w.sqrtP, a.tick);
      } else if goal.net.Some? && GoalOnEdge(goal, w.fee) && TicksOnEdges(env.ticks, w.fee) && a.sqrtP != env.limit {
        if !w.fee.venue.StaticFee? {
          DivBounds(goal.tick, w.fee.unit);
          PeriodBeyondGoal(env, goal, w.fee, w.liq, w.sqrtP, a.tick, goal.tick / w.fee.unit);
        }
        PlacedAtGoal(env, goal, w.fee, w.sqrtP, to.(liq := to.liqNext));
      }
    }
  }

  lemma ForwardTransitive(env: Env, a: Walk, b: Walk, c: Walk)
    requires Forward(env, a, b) && Forward(env, b, c)
    ensures Forward(env, a, c)
  {
  }

  lemma {:induction false} InnerIsSound(env: Env, goal: Goal, w: Walk)
    requires OnTheWay(env, goal, w.fee, w.sqrtP)
    ensures InnerResult(env, goal, w, Inner(env, goal, w))
    decreases Gap(env, goal, w.fee)
  {
    hide SubStep, OnTheWay, FairLog, Placed, Forward;
    InnerPreconditions(env, goal, w);
    SubStepIsSound(env, goal, w);
    var next := SubStep(env, goal, w);
    if next.Walked? && !Done(goal, next.w) {
      GapShrinks(env, goal, w);
      InnerPreconditions(env, goal, next.w);
      InnerIsSound(env, goal, next.w);
      var r := Inner(env, goal, next.w);
      if r.Walked? {
        ForwardTransitive(env, w, next.w, r.w);
        SameUnit(env, w, next.w);
      }
    }
  }

  lemma InnerPreconditions(env: Env, goal: Goal, w: Walk)
    requires OnTheWay(env, goal, w.fee, w.sqrtP)
    ensures Usable(env) && IsGoal(env, goal)
  {
  }

  lemma SameUnit(env: Env, a: Walk, b: Walk)
    requires Forward(env, a, b)
    ensures a.fee.unit == b.fee.unit && a.fee.venue == b.fee.venue
  {
  }

  lemma PassIsSound(env: Env, w: Walk)
    requires Usable(env) && Placed(env, w)
    ensures match OuterStep(env, w)
      case Refused(why) => !Defensive(why)
      case Walked(to) =>
        Forward(env, w, to) && (NextTick(env, w.idx).Some? ==> Stopped(env, to) || Placed(env, to))
  {
    hide FairLog, Inner, Within, PlanStep, TickInPeriod;
    var goal := GoalOf(env, w.idx);
    if InBounds(env, w, goal) {
      GoalIsAhead(env, w);
      InnerIsSound(env, goal, w.(liqNext := w.liq));
      var r := Inner(env, goal, w.(liqNext := w.liq));
      if r.Walked? && goal.net.Some? {
        InnerEnds(env, goal, w.(liqNext := w.liq));
      }
    }
  }

  lemma {:induction false} InnerEnds(env: Env, goal: Goal, w: Walk)
    requires Usable(env) && IsGoal(env, goal)
    ensures Inner(env, goal, w).Walked? ==> Done(goal, Inner(env, goal, w).w)
    decreases Gap(env, goal, w.fee)
  {
    hide SubStep, Done;
    var next := SubStep(env, goal, w);
    if next.Walked? && !Done(goal, next.w) {
      GapShrinks(env, goal, w);
      SubStepKeepsParameters(env, goal, w);
      InnerEnds(env, goal, next.w);
    }
  }

  lemma SubStepKeepsParameters(env: Env, goal: Goal, w: Walk)
    requires Usable(env) && SubStep(env, goal, w).Walked?
    ensures SubStep(env, goal, w).w.fee.venue == w.fee.venue && SubStep(env, goal, w).w.fee.unit == w.fee.unit
  {
    hide SwapStep, FillAt;
  }

  /** A run from a placed state only ever refuses for want of ticks, liquidity or range, and charges every move fairly. */
  lemma {:induction false} OuterIsSound(env: Env, w: Walk, n: nat)
    requires Usable(env)
    requires 0 < w.sqrtP && (Stopped(env, w) || Placed(env, w))
    ensures match Outer(env, w, n)
      case Refused(why) => !Defensive(why)
      case Walked(to) => Forward(env, w, to)
    decreases n
  {
    hide OuterStep, FairLog, Within;
    if n != 0 && !Stopped(env, w) {
      PassIsSound(env, w);
      var r := OuterStep(env, w);
      if r.Walked? && NextTick(env, w.idx).Some? {
        SameUnit(env, w, r.w);
        OuterIsSound(env, r.w.(idx := w.idx + if env.fee.aToB then -1 else 1), n - 1);
      }
    }
  }

  // ── the whole swap ──────────────────────────────────────────────────────

  predicate StaticPool(pool: Pool) {
    pool.dynamicFee.None? && pool.adaptiveFee.None?
  }

  /** Where the fee moves: the pool's tick is a tick of its table, and so is some tick of Orca's reference group. */
  ghost predicate WellFormed(pool: Pool) {
    && Increasing(pool.table)
    && (!StaticPool(pool) ==> MIN_TICK <= pool.tickCurrent <= MAX_TICK)
    && (pool.adaptiveFee.Some? ==>
          var a := pool.adaptiveFee.value;
          a.v.indexReference * a.group <= MAX_TICK && MIN_TICK < (a.v.indexReference + 1) * a.group)
  }

  lemma InitialFeeIsFramed(pool: Pool)
    requires WellFormed(pool) && pool.tickSpacing > 0 && InitialFee(pool).Some?
    ensures var fs := InitialFee(pool).value; CoreAtEdges(pool.table, fs.venue, fs.unit)
  {
    hide Increasing, StepsToCap, CoreAtEdges, NewOrca;
    var fs := InitialFee(pool).value;
    if pool.dynamicFee.None? && pool.adaptiveFee.Some? {
      var a := pool.adaptiveFee.value;
      DivBounds(pool.tickCurrent, a.group);
      Distribute(pool.tickCurrent / a.group, 1, a.group);
      OrcaIsFramed(a.v, a.group, pool.tickCurrent, pool.now, pool.table);
    } else {
      NoCoreIsFramed(pool.table, fs.venue, fs.unit);
    }
  }

  lemma NoCoreIsFramed(table: Table, venue: Venue, unit: pos)
    requires !venue.OrcaFee?
    ensures CoreAtEdges(table, venue, unit)
  {
  }

  /** Orca's core range, around a reference group or the current one that holds a tick of the table. */
  lemma OrcaIsFramed(v: Volatility, group: pos, tick: int, now: u64, table: Table)
    requires var r := OrcaReference(v, tick / group, now).indexReference;
      r * group <= MAX_TICK && MIN_TICK < (r + 1) * group
    ensures CoreAtEdges(table, NewOrca(v, group, tick, now, table).venue, group)
    ensures NewOrca(v, group, tick, now, table).unit == group
  {
    hide StepsToCap, OrcaReference;
    var v' := OrcaReference(v, tick / group, now);
    CoreHoldsReference(v'.indexReference, StepsToCap(v'), group);
  }

  lemma CoreHoldsReference(reference: int, steps: nat, unit: pos)
    ensures (reference - steps) * unit <= reference * unit
    ensures (reference + 1) * unit <= (reference + steps + 1) * unit == (reference + steps) * unit + unit
  {
    MulMono(reference - steps, reference, unit);
    MulMono(reference + 1, reference + steps + 1, unit);
  }

  /** The pool's price lies inside the program's limits; where the fee moves, it also agrees with the pool's tick, and
      initialised ticks lie on fee-period edges. */
  ghost predicate Consistent(pool: Pool, data: TickData, aToB: bool)
    requires pool.tickSpacing > 0
  {
    && 0 < pool.sqrtPrice && Ahead(pool.sqrtPrice, PriceLimit(pool.layout, aToB), aToB)
    && (!StaticPool(pool) ==>
          pool.table.price(pool.tickCurrent) <= pool.sqrtPrice
            <= pool.table.price(Clamp(pool.tickCurrent + 1, MIN_TICK, MAX_TICK)))
    && (InitialFee(pool).Some? ==> TicksOnEdges(data.ticks, InitialFee(pool).value))
  }

  /** A price between its tick and the next lies in its tick's fee period. */
  lemma TickIsWithin(env: FeeEnv, unit: pos, t: int, p: u128)
    requires Increasing(env.table) && MIN_TICK <= t <= MAX_TICK
    requires env.table.price(t) <= p <= env.table.price(Clamp(t + 1, MIN_TICK, MAX_TICK))
    ensures Within(env, unit, t / unit, p) && t / unit * unit <= t < (t / unit + 1) * unit
  {
    hide Increasing;
    var i := t / unit;
    DivBounds(t, unit);
    assert (i + 1) * unit == i * unit + unit;
    TickOrder(env.table, t, Clamp(i * unit, MIN_TICK, MAX_TICK));
    TickOrder(env.table, Clamp((i + 1) * unit, MIN_TICK, MAX_TICK), Clamp(t + 1, MIN_TICK, MAX_TICK));
  }

  lemma InitialCoreSaturates(pool: Pool)
    requires pool.tickSpacing > 0 && InitialFee(pool).Some?
    ensures var fs := InitialFee(pool).value;
      CoreSaturates(fs) && (StaticPool(pool) <==> fs.venue.StaticFee?)
          && (!fs.venue.StaticFee? ==> fs.index == pool.tickCurrent / fs.unit)
  {
    hide StepsToCap, RaydiumReference, OrcaReference;
  }

  lemma StartIsPlaced(pool: Pool, data: TickData, aToB: bool, amountIn: u64, bound: Option<int>)
    requires WellFormed(pool) && Acceptable(pool, amountIn) && InitialFee(pool).Some? && Consistent(pool, data, aToB)
    ensures Placed(EnvOf(pool, data, aToB, bound), StartOf(pool, data, aToB, amountIn, InitialFee(pool).value))
  {
    hide TotalRate, Increasing, CoreSaturates, CoreAtEdges, InitialFee, Within, CountAtOrBelow;
    InitialFeeIsFramed(pool);
    InitialCoreSaturates(pool);
    var fs := InitialFee(pool).value;
    if !fs.venue.StaticFee? {
      TickIsWithin(EnvOf(pool, data, aToB, bound).fee, fs.unit, pool.tickCurrent, pool.sqrtPrice);
    }
  }
}

/** The exact-input walk across initialised ticks (`src/quote/clmm.rs`). */
module ClmmWalk {
  import opened Numbers
  import opened ClmmStep
  import opened LimitOrders
  import opened StepFees

  const RAYDIUM_MIN_SQRT_PRICE: u128 := 4_295_048_016
  const RAYDIUM_MAX_SQRT_PRICE: u128 := 79_226_673_521_066_979_257_578_248_091
  const ORCA_MAX_SQRT_PRICE: u128 := 79_226_673_515_401_279_992_447_579_055
  const MAX_TICK_STEPS: nat := 512

  datatype Layout = RaydiumTicks | OrcaTicks | FusionTicks

  /** Orca's oracle: its volatility state, tick group size and opening time. */
  datatype Adaptive = Adaptive(v: Volatility, group: pos, tradeEnable: u64)

  datatype Pool = Pool(
    layout: Layout,
    table: Table,
    sqrtPrice: u128,
    liquidity: u128,
    tickCurrent: int,
    tickSpacing: int,
    feePpm: u32,
    feeOn: nat,
    dynamicFee: Option<Volatility>,
    adaptiveFee: Option<Adaptive>,
    now: u64)

  datatype Tick = Tick(index: int, net: int)

  /** Initialised ticks ascending, the range they are known for, and unfilled orders by tick. */
  datatype TickData = TickData(ticks: seq<Tick>, coveredLo: int, coveredHi: int, orders: map<int, u64>)

  /** What stays fixed during one walk. */
  datatype Env = Env(
    fee: FeeEnv,
    layout: Layout,
    feeOnInput: bool,
    limit: u128,
    ticks: seq<Tick>,
    edgeLo: int,
    edgeHi: int,
    orders: map<int, u64>)

  /** One price move of the walk, with the fee period it was charged for. */
  datatype Move = Move(from: u128, to: u128, liquidity: u128, rate: u32, skipped: bool, index: int)

  /** What the walk trades, in order: a price move with the input left before it, the input it used and the output it
      got, or the fill of the orders resting on a tick. */
  datatype Entry =
    | Traded(move: Move, left: u128, used: u128, got: u128)
    | Filled(tick: int, rate: u32, index: int, left: u128, used: u128, got: u128, filled: u128, crossed: bool)

  /** The loop's variables; `log` lists the moves the source counts in `steps`, `book` the moves and the fills. */
  datatype Walk = Walk(
    remaining: u128,
    sqrtP: u128,
    tick: int,
    liq: u128,
    liqNext: u128,
    out: u128,
    crossed: nat,
    idx: int,
    fee: FeeState,
    log: seq<Move>,
    book: seq<Entry>)

  /** Where an outer iteration is heading. */
  datatype Goal = Goal(tick: int, price: u128, target: u128, net: Option<int>)

  /** The places the source gives up (`None`). */
  datatype Refusal = NoStep | Overspent | OutOverflow | NoFill | OrdersLeft | NetOverflow | PastEdge | StepBounds

  datatype Outcome = Walked(w: Walk) | Refused(why: Refusal) {
    predicate IsFailure() {
      Refused?
    }

    function PropagateFailure(): Outcome
      requires Refused?
    {
      this
    }

    function Extract(): Walk
      requires Walked?
    {
      w
    }
  }

  datatype WalkResult = WalkResult(amountOut: u64, crossed: nat, endSqrtPrice: u128, steps: nat)

  ghost predicate Usable(env: Env) {
    Increasing(env.fee.table) && env.fee.base < FEE_DENOMINATOR
  }

  // ── one outer iteration's goal ──────────────────────────────────────────

  function NextTick(env: Env, idx: int): Option<Tick> {
    if 0 <= idx < |env.ticks| && (if env.fee.aToB then env.ticks[idx].index >= env.edgeLo else env.ticks[idx].index <= env.edgeHi)
    then Some(env.ticks[idx]) else None
  }

  function TickPrice(env: Env, i: nat): u128
    requires i < |env.ticks|
  {
    env.fee.table.price(Clamp(env.ticks[i].index, MIN_TICK, MAX_TICK))
  }

  predicate IsGoal(env: Env, goal: Goal) {
    MIN_TICK <= goal.tick <= MAX_TICK && goal.price == env.fee.table.price(goal.tick)
    && goal.target == Nearer(goal.price, env.limit, env.fee.aToB)
  }

  /** The next initialised tick, or the edge of what the walk may use. */
  function GoalOf(env: Env, idx: int): (goal: Goal)
    ensures IsGoal(env, goal)
  {
    var next := NextTick(env, idx);
    var edge := if env.fee.aToB then env.edgeLo else env.edgeHi + 1;
    var tick := Clamp(if next.Some? then next.value.index else edge, MIN_TICK, MAX_TICK);
    var price := env.fee.table.price(tick);
    Goal(tick, price, Nearer(price, env.limit, env.fee.aToB), if next.Some? then Some(next.value.net) else None)
  }

  /** The program's `require!` on the step bounds. */
  predicate InBounds(env: Env, w: Walk, goal: Goal) {
    if env.fee.aToB then goal.tick <= w.tick && goal.price <= w.sqrtP else w.tick < goal.tick && w.sqrtP <= goal.price
  }

  // ── one inner iteration ─────────────────────────────────────────────────

  /** Move the price toward the planned bound; a range without liquidity is jumped for free. */
  function MovePrice(env: Env, w: Walk, plan: Plan): Outcome
    requires plan.rate < FEE_DENOMINATOR
  {
    if w.sqrtP == plan.bounded then Walked(w)
    else if w.liq == 0 then Walked(Record(w, plan, w, plan.bounded, 0, 0))
    else
      var s := SwapStep(w.sqrtP, plan.bounded, w.liq, w.remaining, plan.rate, env.fee.aToB, env.feeOnInput);
      if s.None? then Refused(NoStep)
      else
        var paid :- Pay(w, s.value.used, s.value.got);
        Walked(Record(w, plan, paid, s.value.next, s.value.used, s.value.got))
  }

  /** The walk `paid` has become after a move from `w` to `to`. */
  function Record(w: Walk, plan: Plan, paid: Walk, to: u128, used: u128, got: u128): Walk {
    var move := Move(w.sqrtP, to, w.liq, plan.rate, plan.skipped, w.fee.index);
    paid.(sqrtP := to, log := w.log + [move], book := w.book + [Traded(move, w.remaining, used, got)])
  }

  function Pay(w: Walk, used: u128, got: u128): Outcome {
    if used > w.remaining then Refused(Overspent)
    else if w.out + got >= Q128 then Refused(OutOverflow)
    else Walked(w.(remaining := w.remaining - used, out := w.out + got))
  }

  function OrdersAt(env: Env, tick: int): u64 {
    if tick in env.orders then env.orders[tick] else 0
  }

  /** Fill what rests on the tick; Fusion crosses its ticks whatever is left. */
  function FillAt(env: Env, w: Walk, goal: Goal, rate: u32): Option<Fill>
    requires rate < FEE_DENOMINATOR
  {
    var unfilled := OrdersAt(env, goal.tick);
    if env.layout.FusionTicks? then
      var f :- FillFusionOrders(unfilled, w.remaining, goal.price, rate, env.fee.aToB);
      Some(f.(filled := unfilled))
    else MatchLimitOrders(unfilled, w.remaining, goal.price, rate, env.fee.aToB, env.feeOnInput)
  }

  function AddNet(liq: u128, net: int, aToB: bool): Option<u128> {
    ToU128(if aToB then liq - net else liq + net)
  }

  /** The price is on the goal's tick: fill its orders, then cross its liquidity. */
  function Arrive(env: Env, w: Walk, goal: Goal, rate: u32): Outcome
    requires rate < FEE_DENOMINATOR
  {
    if goal.net.None? then
      if w.remaining != 0 then Refused(PastEdge) else Walked(w)
    else
      var f := FillAt(env, w, goal, rate);
      if f.None? then Refused(NoFill)
      else
        var all := f.value.filled == OrdersAt(env, goal.tick);
        var fill := Filled(goal.tick, rate, w.fee.index, w.remaining, f.value.used, f.value.got, f.value.filled, all);
        var booked := w.(book := w.book + [fill]);
        var paid :- Pay(booked, f.value.used, f.value.got);
        if all then
          var crossedLiq := AddNet(w.liq, goal.net.value, env.fee.aToB);
          if crossedLiq.None? then Refused(NetOverflow)
          else Walked(paid.(liqNext := crossedLiq.value, crossed := w.crossed + 1,
                            tick := if env.fee.aToB then goal.tick - 1 else goal.tick))
        else if paid.remaining != 0 then Refused(OrdersLeft)
        else Walked(paid.(tick := if env.fee.aToB then goal.tick else goal.tick - 1))
  }

  function SubStep(env: Env, goal: Goal, w: Walk): Outcome
    requires env.fee.base < FEE_DENOMINATOR
  {
    var plan := PlanStep(env.fee, w.fee, goal.target, w.liq);
    var moved :- MovePrice(env, w, plan);
    var arrived :- if moved.sqrtP == goal.price then Arrive(env, moved, goal, plan.rate) else Walked(moved);
    Walked(arrived.(fee := Advanced(env.fee, Stepped(w.fee), plan.skipped, arrived.sqrtP, goal.price, goal.tick, arrived.tick)))
  }

  // ── the loops ───────────────────────────────────────────────────────────

  /** The first fee period from which every plan reaches the goal: the goal's own, and out of Orca's core range. */
  function LastPeriod(env: Env, goal: Goal, fs: FeeState): int {
    var i := goal.tick / fs.unit;
    if env.fee.aToB then if fs.venue.OrcaFee? && fs.venue.coreUpper.Some? then Min(i, fs.venue.coreUpper.value.index) else i
    else if fs.venue.OrcaFee? && fs.venue.coreLower.Some? then Max(i, fs.venue.coreLower.value.index) else i
  }

  /** Fee periods left before the goal. */
  function Gap(env: Env, goal: Goal, fs: FeeState): nat {
    if env.fee.aToB then Max(fs.index - LastPeriod(env, goal, fs), 0) else Max(LastPeriod(env, goal, fs) - fs.index, 0)
  }

  predicate SameFeeParameters(a: FeeState, b: FeeState) {
    a.venue == b.venue && a.unit == b.unit
  }

  predicate Done(goal: Goal, w: Walk) {
    w.remaining == 0 || w.sqrtP == goal.target
  }

  function Inner(env: Env, goal: Goal, w: Walk): (r: Outcome)
    requires Usable(env) && IsGoal(env, goal)
    ensures r.Walked? ==> SameFeeParameters(w.fee, r.w.fee)
    decreases Gap(env, goal, w.fee)
  {
    var next :- SubStep(env, goal, w);
    if Done(goal, next) then Walked(next)
    else
      GapShrinks(env, goal, w);
      Inner(env, goal, next)
  }

  /** One pass of the outer loop, up to the step of the tick index. */
  function OuterStep(env: Env, w: Walk): (r: Outcome)
    requires Usable(env)
  {
    var goal := GoalOf(env, w.idx);
    if !InBounds(env, w, goal) then Refused(StepBounds)
    else
      var done :- Inner(env, goal, w.(liqNext := w.liq));
      Walked(done.(liq := done.liqNext))
  }

  predicate Stopped(env: Env, w: Walk) {
    w.remaining == 0 || w.sqrtP == env.limit
  }

  function Outer(env: Env, w: Walk, n: nat): Outcome
    requires Usable(env)
    decreases n
  {
    if n == 0 || Stopped(env, w) then Walked(w)
    else
      var next :- OuterStep(env, w);
      if NextTick(env, w.idx).None? then Walked(next)
      else Outer(env, next.(idx := w.idx + if env.fee.aToB then -1 else 1), n - 1)
  }

  // ── termination ─────────────────────────────────────────────────────────

  /** A step that does not stop at its bound spends everything. */
  lemma StopsOrSpends(p: u128, target: u128, liquidity: u128, remaining: u128, rate: u32, aToB: bool, feeOnInput: bool)
    requires rate < FEE_DENOMINATOR
    requires SwapStep(p, target, liquidity, remaining, rate, aToB, feeOnInput).Some?
    ensures var s := SwapStep(p, target, liquidity, remaining, rate, aToB, feeOnInput).value;
      s.next == target || s.used == remaining
  {
  }

  /** Prices order ticks. */
  lemma TickOrder(table: Table, s: int, t: int)
    requires Increasing(table) && MIN_TICK <= s <= MAX_TICK && MIN_TICK <= t <= MAX_TICK
    ensures table.price(s) < table.price(t) <==> s < t
    ensures table.price(s) == table.price(t) <==> s == t
  {
  }

  /** A move that leaves input stops exactly at its bound. */
  lemma MoveStops(env: Env, w: Walk, plan: Plan)
    requires plan.rate < FEE_DENOMINATOR && MovePrice(env, w, plan).Walked?
    ensures var m := MovePrice(env, w, plan).w;
      && m.remaining <= w.remaining && (m.remaining == 0 || m.sqrtP == plan.bounded)
      && m.fee == w.fee && m.tick == w.tick && m.idx == w.idx && m.liq == w.liq && m.liqNext == w.liqNext
  {
    if w.sqrtP != plan.bounded && w.liq != 0 {
      StopsOrSpends(w.sqrtP, plan.bounded, w.liq, w.remaining, plan.rate, env.fee.aToB, env.feeOnInput);
    }
  }

  /** A fee period's edge between the price and the goal lies between them in ticks too. */
  lemma EdgeOrder(env: FeeEnv, unit: pos, i: int, goalTick: int)
    requires Increasing(env.table) && MIN_TICK <= goalTick <= MAX_TICK
    ensures env.table.price(goalTick) < Edge(env, unit, i) ==> goalTick < i * unit
    ensures Edge(env, unit, i) < env.table.price(goalTick) ==> i * unit < goalTick
  {
  }

  /** A plan that stops short of the goal is made in a fee period before the last. */
  lemma PlanApproaches(env: Env, goal: Goal, fs: FeeState, liquidity: u128)
    requires Usable(env) && IsGoal(env, goal)
    requires PlanStep(env.fee, fs, goal.target, liquidity).bounded != goal.target
    ensures 0 < Gap(env, goal, fs)
  {
    var unit, i := fs.unit, goal.tick / fs.unit;
    DivBounds(goal.tick, unit);
    if env.fee.aToB {
      if fs.index <= i {
        MulMono(fs.index, i, unit);
        EdgeOrder(env.fee, unit, fs.index, goal.tick);
      }
    } else {
      if i <= fs.index {
        MulMono(i + 1, fs.index + 1, unit);
        Distribute(i, 1, unit);
        EdgeOrder(env.fee, unit, fs.index + 1, goal.tick);
      }
    }
  }

  /** The next fee period is strictly further along. */
  lemma AdvanceMoves(env: FeeEnv, fs: FeeState, skipped: bool, sqrtP: u128, tickPrice: u128, nextTick: int, tick: int)
    requires !fs.venue.StaticFee? && (fs.venue.RaydiumFee? ==> !skipped)
    ensures var next := Advanced(env, fs, skipped, sqrtP, tickPrice, nextTick, tick);
      SameFeeParameters(fs, next) && (if env.aToB then next.index < fs.index else next.index > fs.index)
  {
  }

  lemma GapShrinks(env: Env, goal: Goal, w: Walk)
    requires Usable(env) && IsGoal(env, goal)
    requires SubStep(env, goal, w).Walked? && !Done(goal, SubStep(env, goal, w).w)
    ensures Gap(env, goal, SubStep(env, goal, w).w.fee) < Gap(env, goal, w.fee)
  {
    var plan := PlanStep(env.fee, w.fee, goal.target, w.liq);
    MoveStops(env, w, plan);
    PlanApproaches(env, goal, w.fee, w.liq);
    var n := SubStep(env, goal, w).w;
    AdvanceMoves(env.fee, Stepped(w.fee), plan.skipped, n.sqrtP, goal.price, goal.tick, n.tick);
  }

  // ── the whole swap ──────────────────────────────────────────────────────

  function FeeOnInput(feeOn: nat, aToB: bool): bool {
    if feeOn == 1 then aToB else if feeOn == 2 then !aToB else true
  }

  /** The pool's fee state at the start of the swap; `None` before trading opens. */
  function InitialFee(pool: Pool): Option<FeeState>
    requires pool.tickSpacing > 0
  {
    if pool.dynamicFee.Some? then Some(NewRaydium(pool.dynamicFee.value, pool.tickCurrent, pool.tickSpacing, pool.now))
    else if pool.adaptiveFee.None? then
      var none := Volatility(0, 0, 0, 0, 0, 0, 0, 0, 0, 0);
      Some(FeeState(StaticFee, pool.tickSpacing, none, 0))
    else if pool.now < pool.adaptiveFee.value.tradeEnable then None
    else Some(NewOrca(pool.adaptiveFee.value.v, pool.adaptiveFee.value.group, pool.tickCurrent, pool.now, pool.table))
  }

  function PriceLimit(layout: Layout, aToB: bool): u128 {
    if layout.RaydiumTicks? then
      if aToB then RAYDIUM_MIN_SQRT_PRICE + 1 else RAYDIUM_MAX_SQRT_PRICE - 1
    else if aToB then RAYDIUM_MIN_SQRT_PRICE else ORCA_MAX_SQRT_PRICE
  }

  /** `partition_point(|t| t <= tick)`: how many ticks come before the first one above `tick`. */
  function CountAtOrBelow(ticks: seq<Tick>, tick: int): (k: nat)
    ensures k <= |ticks|
    ensures forall i | 0 <= i < k :: ticks[i].index <= tick
    ensures k < |ticks| ==> tick < ticks[k].index
  {
    if |ticks| == 0 || tick < ticks[0].index then 0 else 1 + CountAtOrBelow(ticks[1..], tick)
  }

  predicate Acceptable(pool: Pool, amountIn: u64) {
    amountIn != 0 && pool.sqrtPrice != 0 && pool.feePpm < FEE_DENOMINATOR && pool.tickSpacing > 0
  }

  function EnvOf(pool: Pool, data: TickData, aToB: bool, bound: Option<int>): Env {
    Env(FeeEnv(pool.table, pool.feePpm, aToB),
        pool.layout,
        FeeOnInput(pool.feeOn, aToB),
        PriceLimit(pool.layout, aToB),
        data.ticks,
        if bound.Some? && aToB then Max(data.coveredLo, bound.value) else data.coveredLo,
        if bound.Some? && !aToB then Min(data.coveredHi, bound.value) else data.coveredHi,
        data.orders)
  }

  function StartOf(pool: Pool, data: TickData, aToB: bool, amountIn: u64, fs: FeeState): Walk {
    var k := CountAtOrBelow(data.ticks, pool.tickCurrent);
    Walk(amountIn, pool.sqrtPrice, pool.tickCurrent, pool.liquidity, pool.liquidity, 0, 0, if aToB then k - 1 else k, fs, [], [])
  }

  function Quote(w: Walk): Option<WalkResult> {
    if w.remaining != 0 then None
    else
      var out :- ToU64(w.out);
      Some(WalkResult(out, w.crossed, w.sqrtP, |w.log|))
  }

  function SwapExactIn(pool: Pool, data: TickData, aToB: bool, amountIn: u64, bound: Option<int>): Option<WalkResult>
    requires Increasing(pool.table)
  {
    if !Acceptable(pool, amountIn) then None
    else
      var fs :- InitialFee(pool);
      var r := Outer(EnvOf(pool, data, aToB, bound), StartOf(pool, data, aToB, amountIn, fs), MAX_TICK_STEPS);
      if r.Refused? then None else Quote(r.w)
  }

  // ── the loops as the source runs them ───────────────────────────────────

  method RunToGoal(env: Env, goal: Goal, start: Walk, stepFee: StepFee) returns (r: Outcome)
    requires Usable(env) && IsGoal(env, goal)
    requires start.fee == stepFee.State()
    modifies stepFee
    ensures r == Inner(env, goal, start)
    ensures r.Walked? ==> stepFee.State() == r.w.fee
  {
    var w := start;
    while true
      invariant w.fee == stepFee.State()
      invariant Inner(env, goal, start) == Inner(env, goal, w)
      decreases Gap(env, goal, w.fee)
    {
      ghost var before := w;
      var plan := stepFee.Step(env.fee, goal.target, w.liq);
      var moved := MovePrice(env, w, plan);
      if moved.Refused? {
        return moved;
      }
      w := moved.w;
      if w.sqrtP == goal.price {
        var arrived := Arrive(env, w, goal, plan.rate);
        if arrived.Refused? {
          return arrived;
        }
        w := arrived.w;
      }
      stepFee.Advance(env.fee, plan.skipped, w.sqrtP, goal.price, goal.tick, w.tick);
      w := w.(fee := stepFee.State());
      assert SubStep(env, goal, before) == Walked(w);
      if w.remaining == 0 || w.sqrtP == goal.target {
        return Walked(w);
      }
      GapShrinks(env, goal, before);
    }
  }

  method RunPass(env: Env, w: Walk, stepFee: StepFee) returns (r: Outcome)
    requires Usable(env)
    requires w.fee == stepFee.State()
    modifies stepFee
    ensures r == OuterStep(env, w)
    ensures r.Walked? ==> stepFee.State() == r.w.fee
  {
    var goal := GoalOf(env, w.idx);
    if !InBounds(env, w, goal) {
      return Refused(StepBounds);
    }
    var done := RunToGoal(env, goal, w.(liqNext := w.liq), stepFee);
    if done.Refused? {
      return done;
    }
    return Walked(done.w.(liq := done.w.liqNext));
  }

  method RunTicks(env: Env, start: Walk, passes: nat, stepFee: StepFee) returns (r: Outcome)
    requires Usable(env)
    requires start.fee == stepFee.State()
    modifies stepFee
    ensures r == Outer(env, start, passes)
  {
    hide OuterStep;
    var w := start;
    for pass := 0 to passes
      invariant w.fee == stepFee.State()
      invariant Outer(env, start, passes) == Outer(env, w, passes - pass)
    {
      if Stopped(env, w) {
        return Walked(w);
      }
      var idx := w.idx;
      var stepped := RunPass(env, w, stepFee);
      if stepped.Refused? {
        return stepped;
      }
      w := stepped.w;
      if NextTick(env, idx).None? {
        return Walked(w);
      }
      w := w.(idx := idx + if env.fee.aToB then -1 else 1);
    }
    return Walked(w);
  }

  method SwapExactInPoolWithin(pool: Pool, data: TickData, aToB: bool, amountIn: u64, bound: Option<int>)
      returns (r: Option<WalkResult>)
    requires Increasing(pool.table)
    ensures r == SwapExactIn(pool, data, aToB, amountIn, bound)
  {
    if !Acceptable(pool, amountIn) {
      return None;
    }
    var fs := InitialFee(pool);
    if fs.None? {
      return None;
    }
    var stepFee := new StepFee(fs.value);
    var outcome := RunTicks(EnvOf(pool, data, aToB, bound), StartOf(pool, data, aToB, amountIn, fs.value),
        MAX_TICK_STEPS, stepFee);
    if outcome.Refused? {
      return None;
    }
    return Quote(outcome.w);
  }
}

/** The walk's book: every trade of a swap, move by move and fill by fill, against the pool's own data. */
module ClmmLedger {
  import opened Numbers
  import opened ClmmStep
  import opened LimitOrders
  import opened StepFees
  import opened ClmmWalk
  import opened ClmmPeriods
  import opened ClmmLog
  import opened ClmmArea

  // ── sums over the book ──────────────────────────────────────────────────

  function TotalUsed(book: seq<Entry>): nat {
    if book == [] then 0 else TotalUsed(book[..|book| - 1]) + book[|book| - 1].used
  }

  function TotalGot(book: seq<Entry>): nat {
    if book == [] then 0 else TotalGot(book[..|book| - 1]) + book[|book| - 1].got
  }

  /** Ticks arrived at, and those whose liquidity was crossed. */
  function Arrivals(book: seq<Entry>): nat {
    if book == [] then 0 else Arrivals(book[..|book| - 1]) + if book[|book| - 1].Filled? then 1 else 0
  }

  function Crossings(book: seq<Entry>): nat {
    if book == [] then 0
    else Crossings(book[..|book| - 1]) + if book[|book| - 1].Filled? && book[|book| - 1].crossed then 1 else 0
  }

  /** Where the price is after the book's moves. */
  function PriceAfter(start: u128, book: seq<Entry>): u128 {
    if book == [] then start
    else if book[|book| - 1].Traded? then book[|book| - 1].move.to
    else PriceAfter(start, book[..|book| - 1])
  }

  /** The walk's tick: beyond a crossed tick, and at or above one whose orders are left. */
  function TickAfter(start: int, aToB: bool, book: seq<Entry>): int {
    if book == [] then start
    else
      match book[|book| - 1]
      case Traded(_, _, _, _) => TickAfter(start, aToB, book[..|book| - 1])
      case Filled(tick, _, _, _, _, _, _, crossed) => if aToB == crossed then tick - 1 else tick
  }

  /** The moves among the entries. */
  function Moves(book: seq<Entry>): seq<Move> {
    if book == [] then []
    else Moves(book[..|book| - 1]) + if book[|book| - 1].Traded? then [book[|book| - 1].move] else []
  }

  lemma OneMore(book: seq<Entry>, e: Entry, start: u128)
    ensures TotalUsed(book + [e]) == TotalUsed(book) + e.used && TotalGot(book + [e]) == TotalGot(book) + e.got
    ensures Arrivals(book + [e]) == Arrivals(book) + if e.Filled? then 1 else 0
    ensures Crossings(book + [e]) == Crossings(book) + if e.Filled? && e.crossed then 1 else 0
    ensures PriceAfter(start, book + [e]) == if e.Traded? then e.move.to else PriceAfter(start, book)
    ensures Moves(book + [e]) == Moves(book) + if e.Traded? then [e.move] else []
  {
    assert (book + [e])[..|book + [e]| - 1] == book;
  }

  lemma TickOfLast(book: seq<Entry>, e: Entry, start: int, aToB: bool)
    ensures TickAfter(start, aToB, book + [e])
      == if e.Traded? then TickAfter(start, aToB, book) else if aToB == e.crossed then e.tick - 1 else e.tick
  {
    assert (book + [e])[..|book + [e]| - 1] == book;
  }

  // ── one entry ───────────────────────────────────────────────────────────

  /** What rests on a tick. */
  function Resting(orders: map<int, u64>, tick: int): u64 {
    if tick in orders then orders[tick] else 0
  }

  /** A move trades exactly at its liquidity and rate, and without liquidity trades nothing. */
  ghost predicate ExactMove(aToB: bool, feeOnInput: bool, e: Entry)
    requires e.Traded?
  {
    && 0 < e.move.from && 0 < e.move.to && Ahead(e.move.from, e.move.to, aToB) && e.used <= e.left
    && if e.move.liquidity == 0 then e.used == 0 && e.got == 0
       else ExactStep(e.move.from, e.move.liquidity, e.left, e.move.rate, aToB, feeOnInput, Step(e.move.to, e.used, e.got))
  }

  /** A fill is the layout's exact fill of what rests on the tick at sqrt price `p`; the tick is crossed exactly when
      nothing is left there, and on Fusion always. */
  ghost predicate ExactArrival(layout: Layout, p: u128, unfilled: u64, aToB: bool, feeOnInput: bool, e: Entry)
    requires e.Filled?
  {
    && e.rate < FEE_DENOMINATOR && e.used <= e.left
    && if layout.FusionTicks? then
         e.crossed && ExactFusion(unfilled, e.left, p, e.rate, aToB, Fill(e.used, e.got, e.got))
       else
         && ExactMatch(unfilled, e.left, p, e.rate, aToB, feeOnInput, Fill(e.used, e.got, e.filled))
         && (e.crossed <==> e.filled == unfilled) && (!e.crossed ==> e.used == e.left)
  }

  /** The fee period an entry was charged for. */
  function PeriodOf(e: Entry): int {
    if e.Traded? then e.move.index else e.index
  }

  function RateOf(e: Entry): u32 {
    if e.Traded? then e.move.rate else e.rate
  }

  /** The end of the known range, and of what the walk may use. */
  function EdgePrice(env: Env): u128 {
    env.fee.table.price(Clamp(if env.fee.aToB then env.edgeLo else env.edgeHi + 1, MIN_TICK, MAX_TICK))
  }

  /** The tick at which a move charged for period `i` must stop for its rate: the edge of a period whose rate can change, or
      of Orca's core range from outside. */
  function StopTick(fs: FeeState, i: int, aToB: bool): Option<int> {
    var edge := (if aToB then i else i + 1) * fs.unit;
    match fs.venue
    case StaticFee => None
    case RaydiumFee => if AccumulatorAt(fs.v, i) == fs.v.maxAccumulator then None else Some(edge)
    case OrcaFee(lower, upper) =>
      if fs.v.control == 0 then None
      else if lower.Some? && i < lower.value.index then if aToB then None else Some(lower.value.index * fs.unit)
      else if upper.Some? && upper.value.index < i then if aToB then Some((upper.value.index + 1) * fs.unit) else None
      else Some(edge)
  }

  function StopPrice(env: Env, t: int): u128 {
    env.fee.table.price(Clamp(t, MIN_TICK, MAX_TICK))
  }

  /** A move stops where it must for its rate, and one that did not spend its input stopped there, at the price limit, at the
      next tick or at the end of the known range. */
  ghost predicate Stops(env: Env, fs: FeeState, n: int, e: Entry)
    requires e.Traded?
  {
    var stop := if e.move.liquidity == 0 then None else StopTick(fs, e.move.index, env.fee.aToB);
    && (stop.Some? ==> Ahead(e.move.to, StopPrice(env, stop.value), env.fee.aToB))
    && (|| e.used == e.left || e.move.to == env.limit
        || (0 <= n < |env.ticks| && e.move.to == TickPrice(env, n))
        || e.move.to == EdgePrice(env)
        || (stop.Some? && e.move.to == StopPrice(env, stop.value)))
  }

  /** The period a fill is charged for holds the tick, unless a move arrived there, which then was charged for it. */
  ghost predicate ChargedWhereItIs(env: Env, fs: FeeState, before: seq<Entry>, index: int, p: u128) {
    fs.venue.StaticFee? || Within(env.fee, fs.unit, index, p)
    || (before != [] && before[|before| - 1].Traded? && before[|before| - 1].move.index == index)
  }

  /** Entry `e` follows the entries `before` in a walk from `start`. */
  ghost predicate Follows(env: Env, start: Walk, before: seq<Entry>, e: Entry) {
    var n := Crossing(env, start.idx, Arrivals(before));
    && e.left == start.remaining - TotalUsed(before)
    && Arrivals(before) == Crossings(before)
    && RateOf(e) == RateAt(env.fee, start.fee, PeriodOf(e))
    && match e
       case Traded(m, _, _, _) =>
         && m.from == PriceAfter(start.sqrtP, before) && ExactMove(env.fee.aToB, env.feeOnInput, e)
         && m.liquidity == LiquidityAfter(env, start.idx, start.liq, Arrivals(before))
         && (0 <= n < |env.ticks| ==> Ahead(m.to, TickPrice(env, n), env.fee.aToB))
         && Ahead(m.to, env.limit, env.fee.aToB) && Ahead(m.to, EdgePrice(env), env.fee.aToB)
         && (!start.fee.venue.StaticFee? ==> Within(env.fee, start.fee.unit, m.index, m.from))
         && Stops(env, start.fee, n, e)
       case Filled(tick, _, _, _, _, _, _, _) =>
         && 0 <= n < |env.ticks| && tick == Clamp(env.ticks[n].index, MIN_TICK, MAX_TICK)
         && (if env.fee.aToB then env.edgeLo <= env.ticks[n].index else env.ticks[n].index <= env.edgeHi)
         && TickPrice(env, n) == PriceAfter(start.sqrtP, before)
           && ChargedWhereItIs(env, start.fee, before, e.index, TickPrice(env, n))
         && ExactArrival(env.layout, TickPrice(env, n), Resting(env.orders, tick), env.fee.aToB, env.feeOnInput, e)
  }

  /** The walk's variables are its book's. */
  ghost predicate Booked(env: Env, start: Walk, w: Walk) {
    && start.remaining == w.remaining + TotalUsed(w.book) && w.out == TotalGot(w.book)
    && w.sqrtP == PriceAfter(start.sqrtP, w.book) && w.crossed == Crossings(w.book) && w.log == Moves(w.book)
    && w.tick == TickAfter(start.tick, env.fee.aToB, w.book)
    && forall k | 0 <= k < |w.book| :: Follows(env, start, w.book[..k], w.book[k])
  }

  /** Between two ticks, heading for the next one. */
  ghost predicate Heading(env: Env, start: Walk, w: Walk) {
    && Arrivals(w.book) == Crossings(w.book) && w.idx == Crossing(env, start.idx, Arrivals(w.book))
    && w.liq == LiquidityAfter(env, start.idx, start.liq, Arrivals(w.book)) && Schedule(w.fee) == Schedule(start.fee)
  }

  lemma BookGrows(env: Env, start: Walk, w: Walk, e: Entry, r: Walk)
    requires Booked(env, start, w) && Follows(env, start, w.book, e) && e.used <= w.remaining
    requires r.book == w.book + [e] && r.remaining == w.remaining - e.used && r.out == w.out + e.got
    requires r.sqrtP == (if e.Traded? then e.move.to else w.sqrtP)
    requires r.crossed == w.crossed + if e.Filled? && e.crossed then 1 else 0
    requires r.log == w.log + if e.Traded? then [e.move] else []
    requires r.tick == if e.Traded? then w.tick else if env.fee.aToB == e.crossed then e.tick - 1 else e.tick
    ensures Booked(env, start, r)
  {
    hide Follows, TotalUsed, TotalGot, Arrivals, Crossings, PriceAfter, TickAfter, Moves;
    OneMore(w.book, e, start.sqrtP);
    TickOfLast(w.book, e, start.tick, env.fee.aToB);
    forall k | 0 <= k < |r.book| ensures Follows(env, start, r.book[..k], r.book[k]) {
      if k < |w.book| {
        assert r.book[..k] == w.book[..k] && r.book[k] == w.book[k];
      } else {
        assert r.book[..k] == w.book;
      }
    }
  }

  // ── a move is booked ────────────────────────────────────────────────────

  lemma SameRates(env: FeeEnv, a: FeeState, b: FeeState, i: int)
    requires Schedule(a) == Schedule(b)
    ensures a.venue == b.venue && a.unit == b.unit && RateAt(env, a, i) == RateAt(env, b, i)
    ensures StopTick(a, i, env.aToB) == StopTick(b, i, env.aToB)
  {
    hide TotalRate;
  }

  /** Where a goal lies: on the next tick, or at the end of the known range; nearer, at the limit. */
  lemma GoalShape(env: Env, idx: int)
    ensures var goal := GoalOf(env, idx);
      && (goal.target == goal.price || goal.target == env.limit)
      && (goal.net.Some? <==> NextTick(env, idx).Some?)
      && if goal.net.Some? then
           && 0 <= idx < |env.ticks| && goal.price == TickPrice(env, idx) && goal.net.value == env.ticks[idx].net
           && goal.tick == Clamp(env.ticks[idx].index, MIN_TICK, MAX_TICK)
           && (if env.fee.aToB then env.edgeLo <= env.ticks[idx].index else env.ticks[idx].index <= env.edgeHi)
         else goal.price == EdgePrice(env)
  {
  }

  lemma GoalInRange(env: Env, idx: int)
    requires Increasing(env.fee.table)
    ensures Ahead(GoalOf(env, idx).target, env.limit, env.fee.aToB)
      && Ahead(GoalOf(env, idx).target, EdgePrice(env), env.fee.aToB)
  {
    var goal := GoalOf(env, idx);
    var edge := Clamp(if env.fee.aToB then env.edgeLo else env.edgeHi + 1, MIN_TICK, MAX_TICK);
    TickOrder(env.fee.table, goal.tick, edge);
    TickOrder(env.fee.table, edge, goal.tick);
  }

  /** A plan is bounded by its goal and by where its rate must stop. */
  lemma PlanStops(env: Env, fs: FeeState, target: u128, liquidity: u128)
    requires env.fee.base < 1_000_000 && CoreAtEdges(env.fee.table, fs.venue, fs.unit)
    ensures var stop := if liquidity == 0 then None else StopTick(fs, fs.index, env.fee.aToB);
      PlanStep(env.fee, fs, target, liquidity).bounded
        == if stop.None? then target else Nearer(target, StopPrice(env, stop.value), env.fee.aToB)
  {
    hide RateAt;
  }

  lemma MoveStopsWhereItMust(env: Env, start: Walk, w: Walk, plan: Plan, e: Entry)
    requires var goal := GoalOf(env, w.idx);
      OnTheWay(env, goal, w.fee, w.sqrtP) && plan == PlanStep(env.fee, w.fee, goal.target, w.liq)
    requires Schedule(w.fee) == Schedule(start.fee) && e.Traded? && e.move.index == w.fee.index && e.move.liquidity == w.liq
    requires Ahead(e.move.to, plan.bounded, env.fee.aToB) && (e.used == e.left || e.move.to == plan.bounded)
    ensures Stops(env, start.fee, w.idx, e)
  {
    hide PlanStep, RateAt, GoalOf, StopTick, Increasing;
    GoalShape(env, w.idx);
    SameRates(env.fee, w.fee, start.fee, w.fee.index);
    PlanStops(env, w.fee, GoalOf(env, w.idx).target, w.liq);
  }

  lemma StepIsExactMove(w: Walk, plan: Plan, aToB: bool, feeOnInput: bool, e: Entry)
    requires 0 < w.sqrtP && 0 < plan.bounded && Ahead(w.sqrtP, plan.bounded, aToB) && plan.rate < FEE_DENOMINATOR && w.liq != 0
    requires SwapStep(w.sqrtP, plan.bounded, w.liq, w.remaining, plan.rate, aToB, feeOnInput).Some?
    requires var s := SwapStep(w.sqrtP, plan.bounded, w.liq, w.remaining, plan.rate, aToB, feeOnInput).value;
      e.Traded? && e.move.from == w.sqrtP && e.move.to == s.next && e.move.liquidity == w.liq && e.move.rate == plan.rate
        && e.left == w.remaining && e.used == s.used && e.got == s.got
    ensures ExactMove(aToB, feeOnInput, e) && Ahead(e.move.to, plan.bounded, aToB)
      && (e.used == e.left || e.move.to == plan.bounded)
  {
    hide SwapStep, ExactStep, Cost, Yield;
    SwapStepIsSound(w.sqrtP, plan.bounded, w.liq, w.remaining, plan.rate, aToB, feeOnInput);
    SwapStepIsExact(w.sqrtP, plan.bounded, w.liq, w.remaining, plan.rate, aToB, feeOnInput);
  }

  lemma MoveIsBooked(env: Env, start: Walk, w: Walk)
    requires OnTheWay(env, GoalOf(env, w.idx), w.fee, w.sqrtP) && Booked(env, start, w) && Heading(env, start, w)
    requires MovePrice(env, w, PlanStep(env.fee, w.fee, GoalOf(env, w.idx).target, w.liq)).Walked?
    ensures var m := MovePrice(env, w, PlanStep(env.fee, w.fee, GoalOf(env, w.idx).target, w.liq)).w;
      && Booked(env, start, m) && Heading(env, start, m) && m.fee == w.fee && m.idx == w.idx && m.liqNext == w.liqNext
      && ChargedWhereItIs(env, start.fee, m.book, m.fee.index, m.sqrtP)
  {
    hide PlanStep, SwapStep, GoalOf, ExactMove, Stops, RateAt, LiquidityAfter, ExactStep, TotalUsed, TotalGot;
    var goal := GoalOf(env, w.idx);
    InnerPreconditions(env, goal, w);
    var plan := PlanStep(env.fee, w.fee, goal.target, w.liq);
    var m := MovePrice(env, w, plan).w;
    PlanIsAhead(env, goal, w.fee, w.liq, w.sqrtP);
    if w.sqrtP != plan.bounded {
      var e := m.book[|w.book|];
      if w.liq != 0 {
        StepIsExactMove(w, plan, env.fee.aToB, env.feeOnInput, e);
      } else {
        JumpIsExactMove(env.fee.aToB, env.feeOnInput, e);
      }
      MoveFollows(env, start, w, plan, e);
      BookGrows(env, start, w, e, m);
      OneMore(w.book, e, start.sqrtP);
    }
  }

  lemma JumpIsExactMove(aToB: bool, feeOnInput: bool, e: Entry)
    requires e.Traded? && e.move.liquidity == 0 && e.used == 0 && e.got == 0
    requires 0 < e.move.from && 0 < e.move.to && Ahead(e.move.from, e.move.to, aToB)
    ensures ExactMove(aToB, feeOnInput, e)
  {
  }

  lemma MoveFollows(env: Env, start: Walk, w: Walk, plan: Plan, e: Entry)
    requires var goal := GoalOf(env, w.idx);
      OnTheWay(env, goal, w.fee, w.sqrtP) && plan == PlanStep(env.fee, w.fee, goal.target, w.liq)
        && Ahead(plan.bounded, goal.target, env.fee.aToB)
    requires Booked(env, start, w) && Heading(env, start, w) && e.Traded? && ExactMove(env.fee.aToB, env.feeOnInput, e)
    requires e.move.from == w.sqrtP && e.move.liquidity == w.liq && e.move.rate == plan.rate && e.move.index == w.fee.index
    requires e.left == w.remaining && Ahead(e.move.to, plan.bounded, env.fee.aToB)
    requires e.used == e.left || e.move.to == plan.bounded
    ensures Follows(env, start, w.book, e)
  {
    hide PlanStep, GoalOf, ExactMove, Stops, RateAt, LiquidityAfter, TotalUsed, Arrivals, Crossings, PriceAfter, Booked;
    assert start.remaining == w.remaining + TotalUsed(w.book) && w.sqrtP == PriceAfter(start.sqrtP, w.book) by {
      BookedTotals(env, start, w);
    }
    InnerPreconditions(env, GoalOf(env, w.idx), w);
    GoalInRange(env, w.idx);
    PlanRate(env.fee, w.fee, GoalOf(env, w.idx).target, w.liq);
    SameRates(env.fee, w.fee, start.fee, w.fee.index);
    MoveStopsWhereItMust(env, start, w, plan, e);
    if 0 <= w.idx < |env.ticks| {
      NextTickNotPassed(env, w.idx, e.move.to);
    }
  }

  lemma BookedTotals(env: Env, start: Walk, w: Walk)
    requires Booked(env, start, w)
    ensures start.remaining == w.remaining + TotalUsed(w.book) && w.sqrtP == PriceAfter(start.sqrtP, w.book)
  {
  }

  lemma PlanRate(env: FeeEnv, fs: FeeState, target: u128, liquidity: u128)
    requires env.base < 1_000_000
    ensures PlanStep(env, fs, target, liquidity).rate == RateAt(env, fs, fs.index)
  {
  }

  // ── a fill is booked ────────────────────────────────────────────────────

  /** What `FillAt` makes of the orders on the goal's tick. */
  lemma FillIsExactArrival(env: Env, w: Walk, goal: Goal, rate: u32, e: Entry)
    requires rate < FEE_DENOMINATOR && FillAt(env, w, goal, rate).Some? && e.Filled? && e.rate == rate && e.left == w.remaining
    requires var f := FillAt(env, w, goal, rate).value;
      e.used == f.used && e.got == f.got && e.filled == f.filled && (e.crossed <==> f.filled == OrdersAt(env, goal.tick))
    ensures ExactArrival(env.layout, goal.price, Resting(env.orders, goal.tick), env.fee.aToB, env.feeOnInput, e)
  {
    hide MatchLimitOrders, FillFusionOrders, ExactMatch, ExactFusion;
    var unfilled := OrdersAt(env, goal.tick);
    if env.layout.FusionTicks? {
      FusionIsSound(unfilled, w.remaining, goal.price, rate, env.fee.aToB);
      FusionIsExact(unfilled, w.remaining, goal.price, rate, env.fee.aToB);
      FusionGets(unfilled, w.remaining, goal.price, rate, env.fee.aToB);
    } else {
      MatchIsSound(unfilled, w.remaining, goal.price, rate, env.fee.aToB, env.feeOnInput);
      MatchIsExact(unfilled, w.remaining, goal.price, rate, env.fee.aToB, env.feeOnInput);
    }
  }

  lemma FusionGets(unfilled: u64, remaining: u128, p: u128, feePpm: u32, aToB: bool)
    requires feePpm < FEE_DENOMINATOR && FillFusionOrders(unfilled, remaining, p, feePpm, aToB).Some?
    ensures FillFusionOrders(unfilled, remaining, p, feePpm, aToB).value.filled
      == FillFusionOrders(unfilled, remaining, p, feePpm, aToB).value.got
  {
    hide FullFusionInput;
  }

  /** On the goal's tick: its entry, and with input left its net crossed. */
  lemma ArriveIsBooked(env: Env, start: Walk, w: Walk, rate: u32)
    requires Booked(env, start, w) && Heading(env, start, w) && rate < FEE_DENOMINATOR
    requires rate == RateAt(env.fee, w.fee, w.fee.index) && w.sqrtP == GoalOf(env, w.idx).price
    requires Arrive(env, w, GoalOf(env, w.idx), rate).Walked? && ChargedWhereItIs(env, start.fee, w.book, w.fee.index, w.sqrtP)
    ensures var a, goal := Arrive(env, w, GoalOf(env, w.idx), rate).w, GoalOf(env, w.idx);
      && Booked(env, start, a) && a.idx == w.idx && a.fee == w.fee && a.sqrtP == w.sqrtP && a.liq == w.liq
      && (a.remaining != 0 ==>
            && goal.net.Some? && Arrivals(a.book) == Crossings(a.book) == Arrivals(w.book) + 1
            && a.liqNext == w.liq + if env.fee.aToB then -goal.net.value else goal.net.value)
  {
    hide FillAt, GoalOf, ExactArrival, RateAt, LiquidityAfter, TotalUsed, TotalGot, TickAfter, PriceAfter, Arrivals, Crossings,
      Moves, Follows, ChargedWhereItIs;
    var goal := GoalOf(env, w.idx);
    GoalShape(env, w.idx);
    var a := Arrive(env, w, goal, rate).w;
    if goal.net.Some? {
      var e := a.book[|w.book|];
      FillIsExactArrival(env, w, goal, rate, e);
      ArrivalFollows(env, start, w, e);
      BookGrows(env, start, w, e, a);
      OneMore(w.book, e, start.sqrtP);
    }
  }

  lemma ArrivalFollows(env: Env, start: Walk, w: Walk, e: Entry)
    requires Booked(env, start, w) && Heading(env, start, w) && e.Filled? && GoalOf(env, w.idx).net.Some?
    requires w.sqrtP == GoalOf(env, w.idx).price && e.tick == GoalOf(env, w.idx).tick && e.index == w.fee.index
    requires e.rate == RateAt(env.fee, w.fee, w.fee.index) && e.left == w.remaining
    requires ChargedWhereItIs(env, start.fee, w.book, w.fee.index, w.sqrtP)
    requires ExactArrival(env.layout, w.sqrtP, Resting(env.orders, e.tick), env.fee.aToB, env.feeOnInput, e)
    ensures Follows(env, start, w.book, e)
  {
    hide GoalOf, ExactArrival, RateAt, LiquidityAfter, TotalUsed, Arrivals, Crossings, PriceAfter, Booked, ChargedWhereItIs;
    BookedTotals(env, start, w);
    GoalShape(env, w.idx);
    SameRates(env.fee, w.fee, start.fee, w.fee.index);
  }

  // ── the loops ───────────────────────────────────────────────────────────

  /** What an iteration leaves: its book, and with input left the goal's tick crossed, or stopped short of it. */
  ghost predicate BookedTo(env: Env, start: Walk, w: Walk, r: Walk) {
    var goal := GoalOf(env, w.idx);
    && Booked(env, start, r) && r.idx == w.idx && Schedule(r.fee) == Schedule(start.fee) && r.liq == w.liq
    && (r.remaining != 0 && r.sqrtP == goal.price ==>
          && goal.net.Some? && Arrivals(r.book) == Crossings(r.book) == Crossings(w.book) + 1
          && r.liqNext == w.liq + if env.fee.aToB then -goal.net.value else goal.net.value)
  }

  lemma SubStepIsBooked(env: Env, start: Walk, w: Walk)
    requires OnTheWay(env, GoalOf(env, w.idx), w.fee, w.sqrtP) && Booked(env, start, w) && Heading(env, start, w)
    requires SubStep(env, GoalOf(env, w.idx), w).Walked?
    ensures var n := SubStep(env, GoalOf(env, w.idx), w).w;
      && BookedTo(env, start, w, n)
      && (!Done(GoalOf(env, w.idx), n) ==> Heading(env, start, n) && Crossings(n.book) == Crossings(w.book))
  {
    hide PlanStep, MovePrice, Arrive, Advanced, GoalOf, Booked, RateAt, LiquidityAfter, OnTheWay, Arrivals, Crossings;
    var goal := GoalOf(env, w.idx);
    InnerPreconditions(env, goal, w);
    var plan := PlanStep(env.fee, w.fee, goal.target, w.liq);
    PlanRate(env.fee, w.fee, goal.target, w.liq);
    MoveIsBooked(env, start, w);
    MoveKeepsCrossings(env, w, plan);
    var m := MovePrice(env, w, plan).w;
    var a := if m.sqrtP == goal.price then Arrive(env, m, goal, plan.rate).w else m;
    if m.sqrtP == goal.price {
      ArriveIsBooked(env, start, m, plan.rate);
    }
    AdvancedKeepsSchedule(env.fee, w.fee, plan.skipped, a.sqrtP, goal.price, goal.tick, a.tick);
    FeeIsNotBooked(env, start, a, SubStep(env, goal, w).w);
    GoalShape(env, w.idx);
    SubStepIsSound(env, goal, w);
    if !Done(goal, SubStep(env, goal, w).w) {
      GoalNotPassed(env, goal, SubStep(env, goal, w).w);
    }
  }

  lemma MoveKeepsCrossings(env: Env, w: Walk, plan: Plan)
    requires plan.rate < FEE_DENOMINATOR && MovePrice(env, w, plan).Walked?
    ensures Crossings(MovePrice(env, w, plan).w.book) == Crossings(w.book)
    ensures Arrivals(MovePrice(env, w, plan).w.book) == Arrivals(w.book)
  {
    hide SwapStep;
    var m := MovePrice(env, w, plan).w;
    if m.book != w.book {
      OneMore(w.book, m.book[|w.book|], 0);
    }
  }

  lemma FeeIsNotBooked(env: Env, start: Walk, a: Walk, r: Walk)
    requires Booked(env, start, a) && r == a.(fee := r.fee)
    ensures Booked(env, start, r)
  {
  }

  lemma {:induction false} InnerIsBooked(env: Env, start: Walk, w: Walk)
    requires OnTheWay(env, GoalOf(env, w.idx), w.fee, w.sqrtP) && Booked(env, start, w) && Heading(env, start, w)
    requires Usable(env) && Inner(env, GoalOf(env, w.idx), w).Walked?
    ensures BookedTo(env, start, w, Inner(env, GoalOf(env, w.idx), w).w)
    decreases Gap(env, GoalOf(env, w.idx), w.fee)
  {
    hide SubStep, OnTheWay, FairLog, Placed, Booked, GoalOf, LiquidityAfter, Arrivals, Crossings;
    var goal := GoalOf(env, w.idx);
    SubStepIsBooked(env, start, w);
    SubStepIsSound(env, goal, w);
    var n := SubStep(env, goal, w).w;
    if !Done(goal, n) {
      GapShrinks(env, goal, w);
      InnerIsBooked(env, start, n);
    }
  }

  lemma PassIsBooked(env: Env, start: Walk, w: Walk)
    requires Usable(env) && Placed(env, w) && Booked(env, start, w) && Heading(env, start, w) && OuterStep(env, w).Walked?
    ensures var r := OuterStep(env, w).w;
      Booked(env, start, r)
      && (!Stopped(env, r) ==>
            NextTick(env, w.idx).Some? && Heading(env, start, r.(idx := w.idx + if env.fee.aToB then -1 else 1)))
  {
    hide Inner, OnTheWay, FairLog, PlanStep, Within, TickInPeriod, GoalOf, Arrivals, Crossings, Follows;
    var v := w.(liqNext := w.liq);
    GoalIsAhead(env, w);
    GoalShape(env, w.idx);
    InnerIsBooked(env, start, v);
    InnerEnds(env, GoalOf(env, w.idx), v);
  }

  lemma {:induction false} OuterIsBooked(env: Env, start: Walk, w: Walk, n: nat)
    requires Usable(env) && 0 < w.sqrtP && (Stopped(env, w) || (Placed(env, w) && Heading(env, start, w)))
    requires Booked(env, start, w) && Outer(env, w, n).Walked?
    ensures Booked(env, start, Outer(env, w, n).w)
    decreases n
  {
    hide OuterStep, FairLog, Within, TickInPeriod, GoalOf, Heading, Follows, TotalUsed, TotalGot;
    if n != 0 && !Stopped(env, w) {
      PassIsSound(env, w);
      PassIsBooked(env, start, w);
      if NextTick(env, w.idx).Some? {
        OuterIsBooked(env, start, OuterStep(env, w).w.(idx := w.idx + if env.fee.aToB then -1 else 1), n - 1);
      }
    }
  }

  // ── the swap, by the pool's own data ────────────────────────────────────

  /** Mode 1 charges token 0, mode 2 token 1, any other the input. */
  predicate ChargesInput(pool: Pool, aToB: bool) {
    (pool.feeOn == 1 && aToB) || (pool.feeOn == 2 && !aToB) || (pool.feeOn != 1 && pool.feeOn != 2)
  }

  /** Index of the `k`-th tick a swap meets, the first being the one at or below the pool's tick, or the next above it. */
  function Met(pool: Pool, data: TickData, aToB: bool, k: nat): int {
    var below := CountAtOrBelow(data.ticks, pool.tickCurrent);
    if aToB then below - 1 - k else below + k
  }

  function PriceAt(pool: Pool, tick: int): u128 {
    pool.table.price(Clamp(tick, MIN_TICK, MAX_TICK))
  }

  /** The nets of the first `k` ticks a swap meets. */
  function NetsMet(pool: Pool, data: TickData, aToB: bool, k: nat): int {
    if k == 0 || !(0 <= Met(pool, data, aToB, k - 1) < |data.ticks|) then 0
    else NetsMet(pool, data, aToB, k - 1) + data.ticks[Met(pool, data, aToB, k - 1)].net
  }

  /** The last tick of the known range a swap may use. */
  function LastKnown(data: TickData, aToB: bool, bound: Option<int>): int {
    match bound
    case None => if aToB then data.coveredLo else data.coveredHi
    case Some(b) => if aToB then Max(data.coveredLo, b) else Min(data.coveredHi, b)
  }

  /** The sqrt price no swap passes. */
  function Limit(layout: Layout, aToB: bool): u128 {
    match layout
    case RaydiumTicks => if aToB then 4_295_048_017 else 79_226_673_521_066_979_257_578_248_090
    case OrcaTicks => if aToB then 4_295_048_016 else 79_226_673_515_401_279_992_447_579_055
    case FusionTicks => if aToB then 4_295_048_016 else 79_226_673_515_401_279_992_447_579_055
  }

  /** The volatility of fee period `i` from a reference period and what was stored for it, capped. */
  function VolatilityOf(reference: int, stored: nat, cap: nat, i: int): nat {
    Min(stored + 10_000 * (if reference <= i then i - reference else reference - i), cap)
  }

  /** Volatility kept across a new reference. */
  function Kept(v: Volatility, elapsed: nat): nat {
    if elapsed < v.decayPeriod then v.accumulator * v.reductionFactor / 10_000 % Q32 else 0
  }

  /** Where a pool's volatility is measured from. */
  datatype Base = Base(reference: int, stored: nat)

  /** A Raydium pool's reference moves to the current period once the filter period is over. */
  function RaydiumBase(v: Volatility, spacing: pos, tick: int, now: u64): Base {
    var elapsed := if now <= v.lastUpdate then 0 else now - v.lastUpdate;
    if elapsed < v.filterPeriod then Base(v.indexReference, v.volatilityReference) else Base(tick / spacing, Kept(v, elapsed))
  }

  /** An Orca pool's also expires after an hour without an update, and its clock is never behind what it stored. */
  function OrcaBase(a: Adaptive, tick: int, now: u64): Base {
    var v, newest := a.v, Max(a.v.lastUpdate, a.v.lastMajorSwap);
    var clock := Max(now, newest);
    if clock - v.lastUpdate > 3_600 then Base(tick / a.group, 0)
    else if clock - newest < v.filterPeriod then Base(v.indexReference, v.volatilityReference)
    else Base(tick / a.group, Kept(v, clock - newest))
  }

  function RaydiumVolatility(v: Volatility, spacing: pos, tick: int, now: u64, i: int): nat {
    var base := RaydiumBase(v, spacing, tick, now);
    VolatilityOf(base.reference, base.stored, v.maxAccumulator, i)
  }

  function OrcaVolatility(a: Adaptive, tick: int, now: u64, i: int): nat {
    var base := OrcaBase(a, tick, now);
    VolatilityOf(base.reference, base.stored, a.v.maxAccumulator, i)
  }

  /** `rate` is the least that pays for a volatility in fee periods of `unit` ticks. */
  ghost predicate RateFor(rate: nat, base: nat, control: nat, volatility: nat, unit: nat) {
    0 <= volatility * unit && LeastRate(rate, base, control, volatility * unit)
  }

  /** The rate charged for fee period `i`. */
  ghost predicate ChargedRate(pool: Pool, i: int, rate: nat) {
    if pool.dynamicFee.Some? then
      var v := pool.dynamicFee.value;
      pool.tickSpacing > 0
      && RateFor(rate, pool.feePpm, v.control, RaydiumVolatility(v, pool.tickSpacing, pool.tickCurrent, pool.now, i),
        pool.tickSpacing)
    else if pool.adaptiveFee.Some? then
      var a := pool.adaptiveFee.value;
      a.tradeEnable <= pool.now
      && RateFor(rate, pool.feePpm, a.v.control, OrcaVolatility(a, pool.tickCurrent, pool.now, i), a.group)
    else rate == pool.feePpm
  }

  /** Periods from the reference to the least volatile one at the cap. */
  function CoreSteps(stored: nat, cap: nat): nat {
    if cap <= stored then 0 else (cap - stored + 9_999) / 10_000
  }

  /** The tick at which a move charged for period `i` must stop. On Raydium, the edge of a period below the cap. On Orca with
      a control factor, the edge of a period no farther from the reference than the first ones at the cap, and from beyond
      those the edge behind them, as long as that edge is on the table. */
  function StopAt(pool: Pool, aToB: bool, i: int): Option<int> {
    if pool.dynamicFee.Some? then
      var v := pool.dynamicFee.value;
      if pool.tickSpacing <= 0
        || RaydiumVolatility(v, pool.tickSpacing, pool.tickCurrent, pool.now, i) == v.maxAccumulator then None
      else Some((if aToB then i else i + 1) * pool.tickSpacing)
    else if pool.adaptiveFee.Some? && pool.adaptiveFee.value.v.control != 0 then
      var a := pool.adaptiveFee.value;
      var base := OrcaBase(a, pool.tickCurrent, pool.now);
      var steps := CoreSteps(base.stored, a.v.maxAccumulator);
      var first, last := base.reference - steps, base.reference + steps;
      if i < first && -443_636 < first * a.group then if aToB then None else Some(first * a.group)
      else if last < i && (last + 1) * a.group < 443_636 then if aToB then Some((last + 1) * a.group) else None
      else Some((if aToB then i else i + 1) * a.group)
    else None
  }

  /** Ticks per fee period. */
  function PeriodUnit(pool: Pool): int {
    if pool.dynamicFee.None? && pool.adaptiveFee.Some? then pool.adaptiveFee.value.group else pool.tickSpacing
  }

  /** Entry `e` of a swap's book, after the entries `before`. */
  ghost predicate Posted(pool: Pool, data: TickData, aToB: bool, amountIn: nat, bound: Option<int>, before: seq<Entry>,
      e: Entry)
  {
    var k, n := Arrivals(before), Met(pool, data, aToB, Arrivals(before));
    && e.left == amountIn - TotalUsed(before) && k == Crossings(before)
    && ChargedRate(pool, PeriodOf(e), RateOf(e))
    && match e
       case Traded(m, _, _, _) =>
         && m.from == PriceAfter(pool.sqrtPrice, before) && ExactMove(aToB, ChargesInput(pool, aToB), e)
         && m.liquidity == pool.liquidity + (if aToB then -NetsMet(pool, data, aToB, k) else NetsMet(pool, data, aToB, k))
         && (0 <= n < |data.ticks| ==> Ahead(m.to, PriceAt(pool, data.ticks[n].index), aToB))
         && Ahead(m.to, Limit(pool.layout, aToB), aToB)
         && Ahead(m.to, PriceAt(pool, LastKnown(data, aToB, bound) + if aToB then 0 else 1), aToB)
         && (!StaticPool(pool) ==>
               PriceAt(pool, m.index * PeriodUnit(pool)) <= m.from <= PriceAt(pool, (m.index + 1) * PeriodUnit(pool)))
         && StopsAt(pool, data, aToB, bound, n, e)
       case Filled(tick, _, _, _, _, _, _, _) =>
         && 0 <= n < |data.ticks| && tick == Clamp(data.ticks[n].index, MIN_TICK, MAX_TICK)
         && (if aToB then LastKnown(data, aToB, bound) <= data.ticks[n].index
             else data.ticks[n].index <= LastKnown(data, aToB, bound))
         && PriceAt(pool, tick) == PriceAfter(pool.sqrtPrice, before)
         && FilledIn(pool, before, e.index, PriceAt(pool, tick))
         && ExactArrival(pool.layout, PriceAt(pool, tick), if tick in data.orders then data.orders[tick] else 0, aToB,
                         ChargesInput(pool, aToB), e)
  }

  /** A move stops where it must for its rate, and with input left nowhere but there, at the limit, at the next tick or at the
      end of the known range. */
  ghost predicate StopsAt(pool: Pool, data: TickData, aToB: bool, bound: Option<int>, n: int, e: Entry)
    requires e.Traded?
  {
    var stop := if e.move.liquidity == 0 then None else StopAt(pool, aToB, e.move.index);
    && (stop.Some? ==> Ahead(e.move.to, PriceAt(pool, stop.value), aToB))
    && (|| e.used == e.left || e.move.to == Limit(pool.layout, aToB)
        || (0 <= n < |data.ticks| && e.move.to == PriceAt(pool, data.ticks[n].index))
        || e.move.to == PriceAt(pool, LastKnown(data, aToB, bound) + if aToB then 0 else 1)
        || (stop.Some? && e.move.to == PriceAt(pool, stop.value)))
  }

  /** The period a fill is charged for holds the tick's price, or is the one the move that arrived there was charged for. */
  ghost predicate FilledIn(pool: Pool, before: seq<Entry>, index: int, p: u128) {
    || StaticPool(pool) || PriceAt(pool, index * PeriodUnit(pool)) <= p <= PriceAt(pool, (index + 1) * PeriodUnit(pool))
    || (before != [] && before[|before| - 1].Traded? && before[|before| - 1].move.index == index)
  }

  lemma {:induction false} LiquidityIsNets(pool: Pool, data: TickData, aToB: bool, env: Env, idx: int, k: nat)
    requires env.ticks == data.ticks && env.fee.aToB == aToB && idx == Met(pool, data, aToB, 0)
    ensures LiquidityAfter(env, idx, pool.liquidity, k)
      == if aToB then pool.liquidity - NetsMet(pool, data, aToB, k) else pool.liquidity + NetsMet(pool, data, aToB, k)
  {
    if k != 0 {
      LiquidityIsNets(pool, data, aToB, env, idx, k - 1);
    }
  }

  lemma RateIsCharged(pool: Pool, base: FeeEnv, i: int)
    requires pool.tickSpacing > 0 && InitialFee(pool).Some? && base.base == pool.feePpm
    ensures ChargedRate(pool, i, RateAt(base, InitialFee(pool).value, i))
  {
    hide TotalRate, LeastRate, StepsToCap;
    var fs := InitialFee(pool).value;
    TotalRateIsLeast(fs.v.control, AccumulatorAt(fs.v, i), fs.unit, base.base);
  }

  lemma StepsToCapIs(v: Volatility)
    ensures StepsToCap(v) == CoreSteps(v.volatilityReference, v.maxAccumulator)
  {
    if v.volatilityReference < v.maxAccumulator {
      CeilByAdding(v.maxAccumulator - v.volatilityReference, 10_000);
    }
  }

  lemma RaydiumBaseIs(v: Volatility, spacing: pos, tick: int, now: u64)
    ensures var r, base := RaydiumReference(v, tick / spacing, now), RaydiumBase(v, spacing, tick, now);
      r.indexReference == base.reference && r.volatilityReference == base.stored
      && r.maxAccumulator == v.maxAccumulator && r.control == v.control
  {
  }

  lemma OrcaBaseIs(a: Adaptive, tick: int, now: u64)
    ensures var r, base := OrcaReference(a.v, tick / a.group, now), OrcaBase(a, tick, now);
      r.indexReference == base.reference && r.volatilityReference == base.stored
      && r.maxAccumulator == a.v.maxAccumulator && r.control == a.v.control
  {
  }

  lemma StopIsStopAt(pool: Pool, aToB: bool, i: int)
    requires pool.tickSpacing > 0 && InitialFee(pool).Some?
    ensures StopTick(InitialFee(pool).value, i, aToB) == StopAt(pool, aToB, i)
  {
    hide StepsToCap, RaydiumReference, OrcaReference, RaydiumBase, OrcaBase, CoreSteps;
    if pool.dynamicFee.Some? {
      RaydiumBaseIs(pool.dynamicFee.value, pool.tickSpacing, pool.tickCurrent, pool.now);
    } else if pool.adaptiveFee.Some? {
      var a := pool.adaptiveFee.value;
      OrcaBaseIs(a, pool.tickCurrent, pool.now);
      var v := OrcaReference(a.v, pool.tickCurrent / a.group, pool.now);
      StepsToCapIs(v);
      var last := v.indexReference + StepsToCap(v);
      Distribute(last, 1, a.group);
    }
  }

  lemma StopIsStopsAt(pool: Pool, data: TickData, aToB: bool, bound: Option<int>, n: int, e: Entry)
    requires pool.tickSpacing > 0 && InitialFee(pool).Some? && e.Traded?
    requires Stops(EnvOf(pool, data, aToB, bound), InitialFee(pool).value, n, e)
    ensures StopsAt(pool, data, aToB, bound, n, e)
  {
    hide InitialFee, StopTick, StopAt;
    StopIsStopAt(pool, aToB, e.move.index);
  }

  lemma FollowsIsPosted(pool: Pool, data: TickData, aToB: bool, amountIn: u64, bound: Option<int>, before: seq<Entry>, e: Entry)
    requires pool.tickSpacing > 0 && InitialFee(pool).Some?
    requires Follows(EnvOf(pool, data, aToB, bound), StartOf(pool, data, aToB, amountIn, InitialFee(pool).value), before, e)
    ensures Posted(pool, data, aToB, amountIn, bound, before, e)
  {
    hide TotalRate, LeastRate, InitialFee, RateAt, ExactMove, ExactArrival, LiquidityAfter, NetsMet, TotalUsed, Arrivals,
      Crossings, ChargedRate, CountAtOrBelow, Stops, StopsAt;
    var env, start := EnvOf(pool, data, aToB, bound), StartOf(pool, data, aToB, amountIn, InitialFee(pool).value);
    InitialCoreSaturates(pool);
    FeeUnit(pool);
    RateIsCharged(pool, env.fee, PeriodOf(e));
    LiquidityIsNets(pool, data, aToB, env, start.idx, Arrivals(before));
    if e.Traded? {
      StopIsStopsAt(pool, data, aToB, bound, Met(pool, data, aToB, Arrivals(before)), e);
    }
  }

  lemma FeeUnit(pool: Pool)
    requires pool.tickSpacing > 0 && InitialFee(pool).Some?
    ensures InitialFee(pool).value.unit == PeriodUnit(pool)
  {
  }

  /** A pool on its tick table: the table's prices are positive, rise with the tick, and have their ticks back; the pool's
      price is short of the limit; and where the fee moves, the pool's tick is on the table and holds its price, initialised
      ticks are legal and lie between fee periods, and Orca's reference group holds a tick of the table. */
  ghost predicate OnTable(pool: Pool, data: TickData, aToB: bool) {
    && (forall t | -443_636 <= t <= 443_636 :: 0 < pool.table.price(t))
    && (forall s, t | -443_636 <= s < t <= 443_636 :: pool.table.price(s) < pool.table.price(t))
    && (forall t | -443_636 <= t <= 443_636 :: pool.table.tickAt(pool.table.price(t)) == t)
    && (if aToB then Limit(pool.layout, aToB) <= pool.sqrtPrice else 0 < pool.sqrtPrice <= Limit(pool.layout, aToB))
    && (pool.dynamicFee.Some? || pool.adaptiveFee.Some? ==>
          && -443_636 <= pool.tickCurrent <= 443_636
          && PriceAt(pool, pool.tickCurrent) <= pool.sqrtPrice <= PriceAt(pool, pool.tickCurrent + 1)
          && (forall i | 0 <= i < |data.ticks| :: -443_636 <= data.ticks[i].index <= 443_636)
          && (PeriodUnit(pool) > 0 ==> forall i | 0 <= i < |data.ticks| :: data.ticks[i].index % PeriodUnit(pool) == 0))
    && (pool.adaptiveFee.Some? ==>
          var a := pool.adaptiveFee.value;
          a.v.indexReference * a.group <= 443_636 && -443_636 < (a.v.indexReference + 1) * a.group)
  }

  lemma TableIsConsistent(pool: Pool, data: TickData, aToB: bool)
    requires OnTable(pool, data, aToB) && pool.tickSpacing > 0
    ensures WellFormed(pool) && Consistent(pool, data, aToB)
  {
    hide NewOrca, NewRaydium;
    if InitialFee(pool).Some? {
      FeeUnit(pool);
    }
  }

  /** Every quoted swap is a book of exact trades at the pool's own ticks, nets, orders and rates: its inputs are the amount
      paid in, its outputs the amount quoted, and its moves lead from the pool's price to the quote's. */
  lemma SwapIsItsBook(pool: Pool, data: TickData, aToB: bool, amountIn: u64, bound: Option<int>) returns (book: seq<Entry>)
    requires OnTable(pool, data, aToB) && SwapExactIn(pool, data, aToB, amountIn, bound).Some?
    ensures var q := SwapExactIn(pool, data, aToB, amountIn, bound).value;
      && amountIn == TotalUsed(book) && q.amountOut == TotalGot(book) && q.crossed == Crossings(book)
      && q.steps == |Moves(book)| && q.endSqrtPrice == PriceAfter(pool.sqrtPrice, book)
    ensures forall k | 0 <= k < |book| :: Posted(pool, data, aToB, amountIn, bound, book[..k], book[k])
  {
    hide Outer, Placed, Posted, Follows, FairLog, OnTable;
    TableIsConsistent(pool, data, aToB);
    StartIsPlaced(pool, data, aToB, amountIn, bound);
    var env, start := EnvOf(pool, data, aToB, bound), StartOf(pool, data, aToB, amountIn, InitialFee(pool).value);
    OuterIsBooked(env, start, start, MAX_TICK_STEPS);
    book := Outer(env, start, MAX_TICK_STEPS).w.book;
    forall k | 0 <= k < |book| ensures Posted(pool, data, aToB, amountIn, bound, book[..k], book[k]) {
      FollowsIsPosted(pool, data, aToB, amountIn, bound, book[..k], book[k]);
    }
  }
}

/** More input never buys less output, over the whole walk and every kind of fee. */
module ClmmMonotone {
  import opened Numbers
  import opened ClmmStep
  import opened LimitOrders
  import opened StepFees
  import opened ClmmWalk
  import opened ClmmPeriods

  /** Two walks at the same place, the second with `d` more output so far and at least as much input left. A static
      fee does not look at the tick. */
  predicate Alongside(w: Walk, w': Walk, d: nat) {
    && w.remaining <= w'.remaining && w.out + d == w'.out
    && w.sqrtP == w'.sqrtP && (w.tick == w'.tick || w.fee.venue.StaticFee?) && w.liq == w'.liq && w.liqNext == w'.liqNext
    && w.idx == w'.idx && w.fee == w'.fee
  }

  /** Still alongside, or the first walk is spent and the second at least `d` of output ahead. */
  predicate Ordered(w: Walk, w': Walk, d: nat) {
    Alongside(w, w', d) || (w.remaining == 0 && w.out + d <= w'.out)
  }

  lemma MoveTogether(env: Env, goal: Goal, w: Walk, w': Walk, d: nat)
    requires OnTheWay(env, goal, w.fee, w.sqrtP) && Alongside(w, w', d)
    requires var plan := PlanStep(env.fee, w.fee, goal.target, w.liq);
      MovePrice(env, w, plan).Walked? && MovePrice(env, w', plan).Walked?
    ensures var plan := PlanStep(env.fee, w.fee, goal.target, w.liq);
      var m, m' := MovePrice(env, w, plan).w, MovePrice(env, w', plan).w;
      Alongside(m, m', d) || (m.remaining == 0 && m.out + d <= m'.out && m.sqrtP != goal.price)
  {
    hide TotalRate, PlanStep, SwapStep;
    var plan := PlanStep(env.fee, w.fee, goal.target, w.liq);
    PlanIsAhead(env, goal, w.fee, w.liq, w.sqrtP);
    if w.sqrtP != plan.bounded && w.liq != 0 {
      SwapStepMonotone(w.sqrtP, plan.bounded, w.liq, w.remaining, w'.remaining, plan.rate, env.fee.aToB, env.feeOnInput);
      SwapStepIsSound(w.sqrtP, plan.bounded, w.liq, w.remaining, plan.rate, env.fee.aToB, env.feeOnInput);
    }
  }

  lemma FillTogether(env: Env, goal: Goal, w: Walk, w': Walk, d: nat, rate: u32)
    requires rate < FEE_DENOMINATOR && Alongside(w, w', d)
    requires Arrive(env, w, goal, rate).Walked? && Arrive(env, w', goal, rate).Walked?
    ensures Ordered(Arrive(env, w, goal, rate).w, Arrive(env, w', goal, rate).w, d)
  {
    hide MatchLimitOrders, FillFusionOrders;
    if goal.net.Some? {
      var unfilled := OrdersAt(env, goal.tick);
      if env.layout.FusionTicks? {
        FusionIsMonotone(unfilled, w.remaining, w'.remaining, goal.price, rate, env.fee.aToB);
      } else {
        MatchIsMonotone(unfilled, w.remaining, w'.remaining, goal.price, rate, env.fee.aToB, env.feeOnInput);
      }
    }
  }

  /** The two places after the fee has moved on. */
  lemma AdvanceTogether(env: Env, goal: Goal, fs: FeeState, skipped: bool, a: Walk, a': Walk, d: nat)
    requires Ordered(a, a', d) && a.fee == fs == a'.fee
    ensures Ordered(a.(fee := Advanced(env.fee, Stepped(fs), skipped, a.sqrtP, goal.price, goal.tick, a.tick)),
                    a'.(fee := Advanced(env.fee, Stepped(fs), skipped, a'.sqrtP, goal.price, goal.tick, a'.tick)), d)
  {
  }

  lemma StepTogether(env: Env, goal: Goal, w: Walk, w': Walk, d: nat)
    requires OnTheWay(env, goal, w.fee, w.sqrtP) && Alongside(w, w', d)
    requires SubStep(env, goal, w).Walked? && SubStep(env, goal, w').Walked?
    ensures Ordered(SubStep(env, goal, w).w, SubStep(env, goal, w').w, d)
  {
    hide TotalRate, PlanStep, MovePrice, Arrive, Advanced, Stepped;
    var plan := PlanStep(env.fee, w.fee, goal.target, w.liq);
    MoveTogether(env, goal, w, w', d);
    MovePriceIsSound(env, goal, w);
    MovePriceIsSound(env, goal, w');
    var m, m' := MovePrice(env, w, plan).w, MovePrice(env, w', plan).w;
    ArriveIsSound(env, goal, m, plan.rate);
    ArriveIsSound(env, goal, m', plan.rate);
    if Alongside(m, m', d) && m.sqrtP == goal.price {
      FillTogether(env, goal, m, m', d, plan.rate);
    }
    var a := if m.sqrtP == goal.price then Arrive(env, m, goal, plan.rate).w else m;
    var a' := if m'.sqrtP == goal.price then Arrive(env, m', goal, plan.rate).w else m';
    AdvanceTogether(env, goal, w.fee, plan.skipped, a, a', d);
  }

  lemma {:induction false} InnerTogether(env: Env, goal: Goal, w: Walk, w': Walk, d: nat)
    requires OnTheWay(env, goal, w.fee, w.sqrtP) && Alongside(w, w', d)
    requires Inner(env, goal, w).Walked? && Inner(env, goal, w').Walked?
    ensures Ordered(Inner(env, goal, w).w, Inner(env, goal, w').w, d)
    decreases Gap(env, goal, w.fee)
  {
    hide SubStep, OnTheWay, Placed, FairLog;
    InnerPreconditions(env, goal, w);
    SubStepIsSound(env, goal, w);
    SubStepIsSound(env, goal, w');
    StepTogether(env, goal, w, w', d);
    var n, n' := SubStep(env, goal, w).w, SubStep(env, goal, w').w;
    if !Done(goal, n') {
      InnerPreconditions(env, goal, n');
      InnerIsSound(env, goal, n');
    }
    if !Done(goal, n) {
      GapShrinks(env, goal, w);
      InnerTogether(env, goal, n, n', d);
    }
  }

  lemma PassTogether(env: Env, w: Walk, w': Walk, d: nat)
    requires Usable(env) && Placed(env, w) && Alongside(w, w', d)
    requires OuterStep(env, w).Walked? && OuterStep(env, w').Walked?
    ensures Ordered(OuterStep(env, w).w, OuterStep(env, w').w, d)
  {
    hide Inner, OnTheWay, Placed, PlanStep;
    GoalIsAhead(env, w);
    InnerTogether(env, GoalOf(env, w.idx), w.(liqNext := w.liq), w'.(liqNext := w'.liq), d);
  }

  /** The second walk may have fewer passes left, as long as it ends with its input spent. */
  lemma {:induction false} OuterTogether(env: Env, w: Walk, w': Walk, d: nat, n: nat, n': nat)
    requires Usable(env) && n' <= n
    requires 0 < w.sqrtP && (w.sqrtP == env.limit || Placed(env, w)) && Alongside(w, w', d)
    requires Outer(env, w, n).Walked? && Outer(env, w', n').Walked?
    requires n' == n || Outer(env, w', n').w.remaining == 0
    ensures Ordered(Outer(env, w, n).w, Outer(env, w', n').w, d)
    decreases n
  {
    hide OuterStep, FairLog, Within;
    OuterIsSound(env, w', n');
    if n' != 0 && !Stopped(env, w) {
      PassTogether(env, w, w', d);
      PassIsSound(env, w);
      PassIsSound(env, w');
      var r, r' := OuterStep(env, w).w, OuterStep(env, w').w;
      if NextTick(env, w.idx).Some? {
        var idx := w.idx + if env.fee.aToB then -1 else 1;
        SameUnit(env, w, r);
        SameUnit(env, w', r');
        OuterIsSound(env, r'.(idx := idx), n' - 1);
        if r.remaining != 0 {
          OuterTogether(env, r.(idx := idx), r'.(idx := idx), d, n - 1, n' - 1);
        }
      }
    }
  }

  /** For a consistent pool with any fee kind and any limit orders: when both amounts are quoted, the larger pays at
      least as much. */
  lemma MoreInputNeverPaysLess(pool: Pool, data: TickData, aToB: bool, amount: u64, amount': u64, bound: Option<int>)
    requires WellFormed(pool) && amount <= amount'
    requires SwapExactIn(pool, data, aToB, amount, bound).Some? && SwapExactIn(pool, data, aToB, amount', bound).Some?
    requires Consistent(pool, data, aToB)
    ensures SwapExactIn(pool, data, aToB, amount, bound).value.amountOut
      <= SwapExactIn(pool, data, aToB, amount', bound).value.amountOut
  {
    hide Outer, FairLog;
    InitialFeeIsFramed(pool);
    StartIsPlaced(pool, data, aToB, amount, bound);
    var fs, env := InitialFee(pool).value, EnvOf(pool, data, aToB, bound);
    OuterTogether(env, StartOf(pool, data, aToB, amount, fs), StartOf(pool, data, aToB, amount', fs), 0,
                  MAX_TICK_STEPS, MAX_TICK_STEPS);
  }
}

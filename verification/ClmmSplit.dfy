/** With a static fee and no limit orders, two consecutive swaps never pay more than one of the sum. */
module ClmmSplit {
  import opened Numbers
  import opened ClmmStep
  import opened LimitOrders
  import opened StepFees
  import opened ClmmWalk
  import opened ClmmPeriods
  import opened ClmmMonotone
  import SqrtCurve

  // ── consecutive pieces of one liquidity ─────────────────────────────────

  lemma CostsAdd(p: nat, q: nat, r: nat, liquidity: nat, aToB: bool)
    requires 0 < p && 0 < q && 0 < r && Ahead(p, q, aToB) && Ahead(q, r, aToB)
    ensures Cost(p, r, liquidity, aToB) <= Cost(p, q, liquidity, aToB) + Cost(q, r, liquidity, aToB)
  {
    hide Cost;
    var x, y := Cost(p, q, liquidity, aToB), Cost(q, r, liquidity, aToB);
    CostIff(p, q, liquidity, aToB, x);
    CostIff(q, r, liquidity, aToB, y);
    CostIff(p, r, liquidity, aToB, x + y);
    if aToB {
      SqrtCurve.BaseCoversBoth(liquidity * Q64, r, q, p, x, y);
    } else {
      Distribute(q - p, r - q, liquidity);
      assert r - p == (q - p) + (r - q);
    }
  }

  lemma YieldsAdd(p: nat, q: nat, r: nat, liquidity: nat, aToB: bool)
    requires 0 < p && 0 < q && 0 < r && Ahead(p, q, aToB) && Ahead(q, r, aToB)
    ensures Yield(p, q, liquidity, aToB) + Yield(q, r, liquidity, aToB) <= Yield(p, r, liquidity, aToB)
  {
    hide Yield;
    var x, y := Yield(p, q, liquidity, aToB), Yield(q, r, liquidity, aToB);
    YieldIff(p, q, liquidity, aToB, x);
    YieldIff(q, r, liquidity, aToB, y);
    YieldIff(p, r, liquidity, aToB, x + y);
    if aToB {
      Distribute(p - q, q - r, liquidity);
      assert p - r == (p - q) + (q - r);
    } else {
      SqrtCurve.BaseWithinBoth(liquidity * Q64, p, q, r, y, x);
    }
  }

  /** Two landings one after the other, the first short of the target, against one landing of both inputs. */
  lemma LandingSplit(p: u128, target: u128, liquidity: u128, f1: u128, f2: u128, f: u128, aToB: bool)
    requires 0 < p && 0 < target && Ahead(p, target, aToB) && f1 + f2 <= f
    requires Landing(p, target, liquidity, f1, aToB).Some? && Landing(p, target, liquidity, f1, aToB).value.0 != target
    requires Landing(Landing(p, target, liquidity, f1, aToB).value.0, target, liquidity, f2, aToB).Some?
    requires Landing(p, target, liquidity, f, aToB).Some?
    ensures var (n1, in1, out1) := Landing(p, target, liquidity, f1, aToB).value;
      var (n2, in2, out2) := Landing(n1, target, liquidity, f2, aToB).value;
      var (n, inAll, outAll) := Landing(p, target, liquidity, f, aToB).value;
      in1 <= f1 && in2 <= f2 && out1 + out2 <= outAll && (n2 == target ==> n == target && inAll <= in1 + in2)
  {
    hide Landing, Cost, Yield, NextSqrtPrice, DeltasTo;
    LandingIsSound(p, target, liquidity, f1, aToB);
    var n1 := Landing(p, target, liquidity, f1, aToB).value.0;
    LandingIsSound(n1, target, liquidity, f2, aToB);
    var n2 := Landing(n1, target, liquidity, f2, aToB).value.0;
    LandingIsSound(p, target, liquidity, f, aToB);
    var n := Landing(p, target, liquidity, f, aToB).value.0;
    CostsAdd(p, n1, n2, liquidity, aToB);
    YieldsAdd(p, n1, n2, liquidity, aToB);
    if n != target {
      NextPriceIsAffordable(p, liquidity, f, aToB, n, n2);
    }
    FartherCostsMore(p, n2, n, liquidity, aToB);
  }

  // ── one step ────────────────────────────────────────────────────────────

  /** A step short of the target, a second from where it stopped, and one step with both inputs. */
  lemma StepSplit(p: u128, target: u128, liquidity: u128, a: u128, b: u128, feePpm: u32, aToB: bool, feeOnInput: bool)
    requires 0 < p && 0 < target && Ahead(p, target, aToB) && feePpm < FEE_DENOMINATOR && a + b < Q128
    requires SwapStep(p, target, liquidity, a, feePpm, aToB, feeOnInput).Some?
    requires var s1 := SwapStep(p, target, liquidity, a, feePpm, aToB, feeOnInput).value;
      s1.next != target && SwapStep(s1.next, target, liquidity, b, feePpm, aToB, feeOnInput).Some?
    requires SwapStep(p, target, liquidity, a + b, feePpm, aToB, feeOnInput).Some?
    ensures var s1 := SwapStep(p, target, liquidity, a, feePpm, aToB, feeOnInput).value;
      var s2 := SwapStep(s1.next, target, liquidity, b, feePpm, aToB, feeOnInput).value;
      var s := SwapStep(p, target, liquidity, a + b, feePpm, aToB, feeOnInput).value;
      s1.got + s2.got <= s.got && (s2.next == target ==> s.next == target && s.used <= a + s2.used)
  {
    hide Landing, DeltasTo, NextSqrtPrice;
    var k := FEE_DENOMINATOR - feePpm;
    var f1, f2, f := ForPrice(a, feePpm, feeOnInput), ForPrice(b, feePpm, feeOnInput), ForPrice(a + b, feePpm, feeOnInput);
    KeptPartsAdd(a, b, k, FEE_DENOMINATOR);
    LandingSplit(p, target, liquidity, f1, f2, f, aToB);
    var (n1, in1, out1) := Landing(p, target, liquidity, f1, aToB).value;
    var (n2, in2, out2) := Landing(n1, target, liquidity, f2, aToB).value;
    var (n, inAll, outAll) := Landing(p, target, liquidity, f, aToB).value;
    if feeOnInput {
      if n2 == target {
        FeesOnTopAdd(in1, in2, inAll, a, feePpm, FEE_DENOMINATOR);
      }
    } else {
      KeptPartsAdd(out1, out2, k, FEE_DENOMINATOR);
      LessFeeMonotone(out1 + out2, outAll, feePpm);
    }
  }

  // ── one pass of a walk with a static fee and no orders ──────────────────

  /** Nothing rests on any tick, and the fee never moves. */
  predicate Plain(env: Env, fs: FeeState) {
    env.orders == map[] && fs.venue.StaticFee?
  }

  /** The one move of a pass. */
  function PassMove(env: Env, w: Walk): Outcome
    requires Usable(env)
  {
    var goal := GoalOf(env, w.idx);
    MovePrice(env, w.(liqNext := w.liq), Plan(env.fee.base, goal.target, true))
  }

  lemma NothingToFill(env: Env, w: Walk, goal: Goal, rate: u32)
    requires env.orders == map[] && rate < FEE_DENOMINATOR
    ensures FillAt(env, w, goal, rate) == Some(Fill(0, 0, 0))
  {
  }

  /** A pass makes its one move; if that ends on the goal's tick it crosses it, and it can only end past the last tick
      with the input spent. */
  lemma PassShape(env: Env, w: Walk)
    requires Usable(env) && Plain(env, w.fee) && OuterStep(env, w).Walked?
    ensures PassMove(env, w).Walked?
    ensures var goal, m, r := GoalOf(env, w.idx), PassMove(env, w).w, OuterStep(env, w).w;
      && r.remaining == m.remaining && r.out == m.out && r.sqrtP == m.sqrtP && r.idx == w.idx && r.fee == w.fee
      && r.liqNext == r.liq && (r.remaining == 0 || r.sqrtP == goal.target)
      && if r.sqrtP == goal.price && goal.net.Some? then
           && AddNet(w.liq, goal.net.value, env.fee.aToB) == Some(r.liq)
           && r.crossed == w.crossed + 1 && r.tick == if env.fee.aToB then goal.tick - 1 else goal.tick
         else
           && r.liq == w.liq && (r.sqrtP == goal.price ==> r.remaining == 0)
           && r.crossed == w.crossed && r.tick == w.tick
  {
    hide SwapStep, FillAt;
    var goal, v := GoalOf(env, w.idx), w.(liqNext := w.liq);
    var plan := PlanStep(env.fee, v.fee, goal.target, v.liq);
    MoveStops(env, v, plan);
    var m := MovePrice(env, v, plan).w;
    NothingToFill(env, m, goal, plan.rate);
  }

  /** Two walks at the same place with the same output so far, the second with `b` more input. */
  predicate Beside(w: Walk, all: Walk, b: nat) {
    && all.remaining == w.remaining + b && all.out == w.out
    && all.sqrtP == w.sqrtP && all.liq == w.liq && all.idx == w.idx && all.fee == w.fee
  }

  /** A pass that reaches its target leaves them at the same place. */
  lemma PassBeside(env: Env, w: Walk, all: Walk, b: nat)
    requires Usable(env) && Plain(env, w.fee) && Placed(env, w) && Beside(w, all, b)
    requires OuterStep(env, w).Walked? && OuterStep(env, all).Walked?
    requires OuterStep(env, w).w.sqrtP == GoalOf(env, w.idx).target
    ensures Beside(OuterStep(env, w).w, OuterStep(env, all).w, b)
  {
    hide SwapStep, OuterStep, GoalOf;
    PassShape(env, w);
    PassShape(env, all);
    PassTarget(env, w);
    var target := GoalOf(env, w.idx).target;
    if w.sqrtP != target && w.liq != 0 {
      SwapStepMonotone(w.sqrtP, target, w.liq, w.remaining, all.remaining, env.fee.base, env.fee.aToB, env.feeOnInput);
    }
  }

  lemma PassTarget(env: Env, w: Walk)
    requires Usable(env) && Placed(env, w) && OuterStep(env, w).Walked?
    ensures var target := GoalOf(env, w.idx).target;
      && 0 < target && Ahead(w.sqrtP, target, env.fee.aToB) && Ahead(target, env.limit, env.fee.aToB)
      && 0 < OuterStep(env, w).w.sqrtP && Ahead(OuterStep(env, w).w.sqrtP, target, env.fee.aToB)
  {
    hide Inner, FairLog, Placed, OnTheWay;
    GoalIsAhead(env, w);
    TargetIsAhead(env, GoalOf(env, w.idx), w);
    InnerIsSound(env, GoalOf(env, w.idx), w.(liqNext := w.liq));
  }

  lemma TargetIsAhead(env: Env, goal: Goal, w: Walk)
    requires OnTheWay(env, goal, w.fee, w.sqrtP)
    ensures 0 < goal.target && Ahead(w.sqrtP, goal.target, env.fee.aToB) && Ahead(goal.target, env.limit, env.fee.aToB)
  {
  }

  /** A pass that stops short, then a pass of the second swap from there, against the pass of both inputs. */
  lemma PassSplit(env: Env, w: Walk, all: Walk, second: Walk)
    requires Usable(env) && Plain(env, w.fee) && Placed(env, w) && Beside(w, all, second.remaining)
    requires OuterStep(env, w).Walked? && OuterStep(env, all).Walked? && OuterStep(env, second).Walked?
    requires OuterStep(env, w).w.sqrtP != GoalOf(env, w.idx).target
    requires second.sqrtP == OuterStep(env, w).w.sqrtP && second.liq == OuterStep(env, w).w.liq
    requires second.idx == w.idx && second.fee == w.fee && second.out == 0
    ensures var r, x, y := OuterStep(env, w).w, OuterStep(env, second).w, OuterStep(env, all).w;
      && r.out + x.out <= y.out
      && (x.remaining != 0 ==> x.fee == w.fee && Alongside(x, y, y.out - x.out))
  {
    hide SwapStep, OuterStep, GoalOf;
    PassShape(env, w);
    PassShape(env, all);
    PassShape(env, second);
    PassTarget(env, w);
    var target := GoalOf(env, w.idx).target;
    assert OuterStep(env, w).w.sqrtP != GoalOf(env, w.idx).price;
    StepSplit(w.sqrtP, target, w.liq, w.remaining, second.remaining, env.fee.base, env.fee.aToB, env.feeOnInput);
  }

  // ── the whole walk ──────────────────────────────────────────────────────

  /** The tick a walk set out for first, from the one it is heading for and the ticks it has crossed. */
  function Origin(aToB: bool, idx: int, crossed: nat): int {
    if aToB then idx + crossed else idx - crossed
  }

  /** `second` sets out where a walk that set out like `w` has ended. */
  predicate Resumes(env: Env, w: Walk, end: Walk, second: Walk) {
    && second.sqrtP == end.sqrtP && second.liq == second.liqNext == end.liq && second.fee == w.fee && second.out == 0
    && Origin(env.fee.aToB, second.idx, end.crossed) == Origin(env.fee.aToB, w.idx, w.crossed)
  }

  lemma PlacedToo(env: Env, w: Walk, w': Walk)
    requires Placed(env, w) && w.fee.venue.StaticFee? && w'.fee == w.fee
    requires 0 < w'.sqrtP && Ahead(w'.sqrtP, env.limit, env.fee.aToB)
    ensures Placed(env, w')
  {
  }

  /** The walk of a pass whose next tick exists. */
  function NextPass(env: Env, w: Walk): Walk
    requires Usable(env) && OuterStep(env, w).Walked?
  {
    OuterStep(env, w).w.(idx := w.idx + if env.fee.aToB then -1 else 1)
  }

  lemma NextIsPlaced(env: Env, w: Walk)
    requires Usable(env) && Placed(env, w) && OuterStep(env, w).Walked? && NextTick(env, w.idx).Some?
    ensures 0 < NextPass(env, w).sqrtP && OuterStep(env, w).w.out <= NextPass(env, w).out
    ensures Stopped(env, NextPass(env, w)) || Placed(env, NextPass(env, w))
  {
    hide OuterStep, FairLog, FeeReady;
    PassIsSound(env, w);
  }

  /** The first pass of a run, and what follows it. */
  lemma RunUnfolds(env: Env, w: Walk, n: nat)
    requires Usable(env) && 0 < n && !Stopped(env, w) && Outer(env, w, n).Walked?
    ensures OuterStep(env, w).Walked?
    ensures Outer(env, w, n) == if NextTick(env, w.idx).None? then OuterStep(env, w) else Outer(env, NextPass(env, w), n - 1)
  {
    hide OuterStep;
  }

  lemma RunEnds(env: Env, w: Walk, n: nat)
    requires Usable(env) && (n == 0 || Stopped(env, w))
    ensures Outer(env, w, n) == Walked(w)
  {
  }

  /** The second swap sets out from a tick the first has just crossed. */
  lemma SplitAtTick(env: Env, all: Walk, second: Walk, d: nat, n: nat, m: nat)
    requires Usable(env) && second.fee.venue.StaticFee? && n <= m && Alongside(second, all, d)
    requires 0 < second.sqrtP && (all.sqrtP == env.limit || Placed(env, all))
    requires Outer(env, second, m).Walked? && Outer(env, all, n).Walked? && Outer(env, all, n).w.remaining == 0
    ensures Outer(env, second, m).w.out + d <= Outer(env, all, n).w.out
  {
    hide Outer, FairLog;
    if all.sqrtP != env.limit {
      PlacedToo(env, all, second);
    }
    OuterTogether(env, second, all, d, m, n);
  }

  /** The first swap ended between ticks, and the second sets out from there. */
  lemma SplitInside(env: Env, w: Walk, all: Walk, second: Walk, n: nat, m: nat)
    requires Usable(env) && Plain(env, w.fee) && Placed(env, w) && Placed(env, all) && Beside(w, all, second.remaining)
    requires 0 < n <= m && !Stopped(env, w) && !Stopped(env, all) && !Stopped(env, second)
    requires OuterStep(env, w).Walked? && OuterStep(env, w).w.sqrtP != GoalOf(env, w.idx).target
    requires second.sqrtP == OuterStep(env, w).w.sqrtP && second.liq == OuterStep(env, w).w.liq
    requires second.idx == w.idx && second.fee == w.fee && second.out == 0
    requires Outer(env, second, m).Walked? && Outer(env, all, n).Walked? && Outer(env, all, n).w.remaining == 0
    ensures OuterStep(env, w).w.out + Outer(env, second, m).w.out <= Outer(env, all, n).w.out
  {
    hide OuterStep, FairLog, Outer, Placed, GoalOf;
    PassTarget(env, w);
    RunUnfolds(env, all, n);
    RunUnfolds(env, second, m);
    PassSplit(env, w, all, second);
    var x, y := OuterStep(env, second).w, OuterStep(env, all).w;
    if NextTick(env, w.idx).Some? {
      NextIsPlaced(env, all);
      if x.remaining == 0 {
        RunEnds(env, NextPass(env, second), m - 1);
        OuterIsSound(env, NextPass(env, all), n - 1);
      } else {
        SplitAtTick(env, NextPass(env, all), NextPass(env, second), y.out - x.out, n - 1, m - 1);
      }
    }
  }

  /** With input left on the target, a walk that ends spent crosses its tick and goes on. */
  lemma GoesOn(env: Env, w: Walk, n: nat)
    requires Usable(env) && OuterStep(env, w).Walked? && 0 < n && !Stopped(env, w)
    requires OuterStep(env, w).w.sqrtP == GoalOf(env, w.idx).target && OuterStep(env, w).w.remaining != 0
    requires Ends(env, w, n)
    ensures NextTick(env, w.idx).Some? && OuterStep(env, w).w.sqrtP != env.limit && n != 1
    ensures Outer(env, w, n) == Outer(env, NextPass(env, w), n - 1)
    ensures GoalOf(env, w.idx).target == GoalOf(env, w.idx).price && GoalOf(env, w.idx).net.Some?
  {
    hide OuterStep, Outer;
    RunUnfolds(env, w, n);
    if NextTick(env, w.idx).Some? && (n == 1 || OuterStep(env, w).w.sqrtP == env.limit) {
      RunEnds(env, NextPass(env, w), n - 1);
    }
  }

  /** A walk, the same walk with the input of `second` on top, and `second` from where the first ended. */
  ghost predicate Splits(env: Env, w: Walk, all: Walk, second: Walk, n: nat, m: nat) {
    && Usable(env) && Plain(env, w.fee) && n <= m && w.remaining != 0 && second.remaining != 0
    && 0 < w.sqrtP && (w.sqrtP == env.limit || Placed(env, w)) && Beside(w, all, second.remaining)
    && Ends(env, w, n) && Ends(env, all, n) && Ends(env, second, m)
    && Resumes(env, w, Outer(env, w, n).w, second)
  }

  ghost predicate Ends(env: Env, w: Walk, n: nat)
    requires Usable(env)
  {
    Outer(env, w, n).Walked? && Outer(env, w, n).w.remaining == 0
  }

  lemma FirstPass(env: Env, w: Walk, all: Walk, second: Walk, n: nat, m: nat)
    requires Splits(env, w, all, second, n, m)
    ensures 0 < n && !Stopped(env, w) && !Stopped(env, all) && Placed(env, w) && Placed(env, all)
    ensures OuterStep(env, w).Walked? && OuterStep(env, all).Walked?
  {
    hide OuterStep, Outer;
    if n == 0 || Stopped(env, w) {
      RunEnds(env, w, n);
    }
    RunUnfolds(env, w, n);
    if Stopped(env, all) {
      RunEnds(env, all, n);
    }
    RunUnfolds(env, all, n);
    PlacedToo(env, w, all);
  }

  /** Both walks crossed the tick with input left. */
  lemma SplitLater(env: Env, w: Walk, all: Walk, second: Walk, n: nat, m: nat)
    requires Splits(env, w, all, second, n, m) && 0 < n && OuterStep(env, w).Walked? && OuterStep(env, all).Walked?
    requires OuterStep(env, w).w.sqrtP == GoalOf(env, w.idx).target && OuterStep(env, w).w.remaining != 0
    ensures Splits(env, NextPass(env, w), NextPass(env, all), second, n - 1, m)
    ensures Outer(env, w, n) == Outer(env, NextPass(env, w), n - 1)
    ensures Outer(env, all, n) == Outer(env, NextPass(env, all), n - 1)
  {
    hide OuterStep, FairLog, Placed, GoalOf, Outer;
    FirstPass(env, w, all, second, n, m);
    PassShape(env, w);
    PassBeside(env, w, all, second.remaining);
    GoesOn(env, w, n);
    GoesOn(env, all, n);
    NextIsPlaced(env, w);
  }

  /** A pass that spends everything is the last. */
  lemma SpentAfter(env: Env, w: Walk, n: nat)
    requires Usable(env) && 0 < n && !Stopped(env, w) && OuterStep(env, w).Walked? && OuterStep(env, w).w.remaining == 0
    requires Outer(env, w, n).Walked?
    ensures var r := OuterStep(env, w).w; Outer(env, w, n) == Walked(if NextTick(env, w.idx).None? then r else NextPass(env, w))
  {
    hide OuterStep, Outer;
    RunUnfolds(env, w, n);
    if NextTick(env, w.idx).Some? {
      RunEnds(env, NextPass(env, w), n - 1);
    }
  }

  /** The first walk ended on a tick it crossed. */
  lemma SplitHere(env: Env, w: Walk, all: Walk, second: Walk, n: nat, m: nat)
    requires Splits(env, w, all, second, n, m) && 0 < n && OuterStep(env, w).Walked? && OuterStep(env, all).Walked?
    requires OuterStep(env, w).w.sqrtP == GoalOf(env, w.idx).target && OuterStep(env, w).w.remaining == 0
    ensures Outer(env, w, n).w.out + Outer(env, second, m).w.out <= Outer(env, all, n).w.out
  {
    hide OuterStep, FairLog, Placed, GoalOf, Outer;
    FirstPass(env, w, all, second, n, m);
    SpentAfter(env, w, n);
    PassShape(env, w);
    PassShape(env, all);
    PassBeside(env, w, all, second.remaining);
    GoesOn(env, all, n);
    NextIsPlaced(env, all);
    SplitAtTick(env, NextPass(env, all), second, OuterStep(env, w).w.out, n - 1, m);
  }

  lemma {:induction false} OuterSplit(env: Env, w: Walk, all: Walk, second: Walk, n: nat, m: nat)
    requires Splits(env, w, all, second, n, m)
    ensures Outer(env, w, n).w.out + Outer(env, second, m).w.out <= Outer(env, all, n).w.out
    decreases n
  {
    hide OuterStep, FairLog, Placed, GoalOf, Outer;
    FirstPass(env, w, all, second, n, m);
    PassShape(env, w);
    if OuterStep(env, w).w.sqrtP != GoalOf(env, w.idx).target {
      SpentAfter(env, w, n);
      PassTarget(env, w);
      SplitInside(env, w, all, second, n, m);
    } else if OuterStep(env, w).w.remaining == 0 {
      SplitHere(env, w, all, second, n, m);
    } else {
      SplitLater(env, w, all, second, n, m);
      OuterSplit(env, NextPass(env, w), NextPass(env, all), second, n - 1, m);
    }
  }

  // ── the whole swap ──────────────────────────────────────────────────────

  /** The walk behind a quote. */
  function RunOf(pool: Pool, data: TickData, aToB: bool, amountIn: u64, bound: Option<int>): Outcome
    requires Increasing(pool.table) && Acceptable(pool, amountIn) && InitialFee(pool).Some?
  {
    Outer(EnvOf(pool, data, aToB, bound), StartOf(pool, data, aToB, amountIn, InitialFee(pool).value), MAX_TICK_STEPS)
  }

  /** `crossed` ticks lie between the places with `from` and `to` ticks below them. */
  predicate Passed(aToB: bool, from: nat, to: nat, crossed: int) {
    to == if aToB then from - crossed else from + crossed
  }

  /** The pool as the swap leaves it: at the walk's price and liquidity, on a tick on the far side of exactly the ticks
      the walk crossed. */
  ghost predicate Leaves(pool: Pool, data: TickData, aToB: bool, w: Walk, after: Pool) {
    && after == pool.(sqrtPrice := w.sqrtP, liquidity := w.liq, tickCurrent := after.tickCurrent)
    && Passed(aToB, CountAtOrBelow(data.ticks, pool.tickCurrent), CountAtOrBelow(data.ticks, after.tickCurrent), w.crossed)
  }

  /** With a static fee and no limit orders, two consecutive swaps never pay more than one of the sum. */
  lemma SplitNeverPaysMore(pool: Pool, data: TickData, aToB: bool, a: u64, b: u64, bound: Option<int>, after: Pool)
    requires WellFormed(pool) && StaticPool(pool) && data.orders == map[] && a + b < Q64
    requires SwapExactIn(pool, data, aToB, a, bound).Some? && SwapExactIn(pool, data, aToB, a + b, bound).Some?
    requires Consistent(pool, data, aToB) && Leaves(pool, data, aToB, RunOf(pool, data, aToB, a, bound).w, after)
    requires SwapExactIn(after, data, aToB, b, bound).Some?
    ensures SwapExactIn(pool, data, aToB, a, bound).value.amountOut + SwapExactIn(after, data, aToB, b, bound).value.amountOut
      <= SwapExactIn(pool, data, aToB, a + b, bound).value.amountOut
  {
    hide Outer, FairLog, Placed;
    StartIsPlaced(pool, data, aToB, a, bound);
    var env, fs := EnvOf(pool, data, aToB, bound), InitialFee(pool).value;
    assert InitialFee(after) == Some(fs) && EnvOf(after, data, aToB, bound) == env;
    var first, all := StartOf(pool, data, aToB, a, fs), StartOf(pool, data, aToB, a + b, fs);
    var second := StartOf(after, data, aToB, b, fs);
    assert Ends(env, first, MAX_TICK_STEPS) && Ends(env, all, MAX_TICK_STEPS) && Ends(env, second, MAX_TICK_STEPS);
    assert Resumes(env, first, RunOf(pool, data, aToB, a, bound).w, second);
    assert Beside(first, all, b);
    OuterSplit(env, first, all, second, MAX_TICK_STEPS, MAX_TICK_STEPS);
  }

  // ── the tick the walk keeps ─────────────────────────────────────────────

  /** Strictly ascending legal ticks. */
  predicate Ascending(ticks: seq<Tick>) {
    && (forall i | 0 <= i < |ticks| :: MIN_TICK <= ticks[i].index <= MAX_TICK)
    && (forall i, j | 0 <= i < j < |ticks| :: ticks[i].index < ticks[j].index)
  }

  /** The walk's tick lies between the tick it is heading for and the one behind. */
  predicate TickInStep(env: Env, w: Walk) {
    CountAtOrBelow(env.ticks, w.tick) == if env.fee.aToB then w.idx + 1 else w.idx
  }

  lemma CountIs(ticks: seq<Tick>, t: int, k: nat)
    requires Ascending(ticks) && k <= |ticks|
    requires (0 < k ==> ticks[k - 1].index <= t) && (k < |ticks| ==> t < ticks[k].index)
    ensures CountAtOrBelow(ticks, t) == k
  {
  }

  lemma PassTick(env: Env, w: Walk)
    requires Usable(env) && Plain(env, w.fee) && Ascending(env.ticks) && TickInStep(env, w) && OuterStep(env, w).Walked?
    ensures var r := OuterStep(env, w).w;
      if r.crossed == w.crossed then r.tick == w.tick && (NextTick(env, w.idx).Some? ==> Stopped(env, r))
      else r.crossed == w.crossed + 1 && TickInStep(env, NextPass(env, w))
    ensures OuterStep(env, w).w.fee == w.fee
  {
    hide OuterStep, CountAtOrBelow;
    PassShape(env, w);
    if OuterStep(env, w).w.crossed != w.crossed {
      CountIs(env.ticks, OuterStep(env, w).w.tick, if env.fee.aToB then w.idx else w.idx + 1);
    }
  }

  lemma {:induction false} RunTick(env: Env, w: Walk, n: nat)
    requires Usable(env) && Plain(env, w.fee) && Ascending(env.ticks) && TickInStep(env, w) && Outer(env, w, n).Walked?
    ensures var end := Outer(env, w, n).w;
      Passed(env.fee.aToB, CountAtOrBelow(env.ticks, w.tick), CountAtOrBelow(env.ticks, end.tick), end.crossed - w.crossed)
    decreases n
  {
    hide Outer, OuterStep, CountAtOrBelow, Ascending, NextTick;
    if n == 0 || Stopped(env, w) {
      RunEnds(env, w, n);
    } else {
      RunUnfolds(env, w, n);
      PassTick(env, w);
      if NextTick(env, w.idx).Some? {
        if OuterStep(env, w).w.crossed == w.crossed {
          RunEnds(env, NextPass(env, w), n - 1);
        } else {
          RunTick(env, NextPass(env, w), n - 1);
        }
      }
    }
  }

  /** The walk's own tick is such a tick. */
  lemma WalkLeaves(pool: Pool, data: TickData, aToB: bool, amountIn: u64, bound: Option<int>)
    requires WellFormed(pool) && StaticPool(pool) && data.orders == map[] && Ascending(data.ticks)
    requires Acceptable(pool, amountIn) && InitialFee(pool).Some? && RunOf(pool, data, aToB, amountIn, bound).Walked?
    ensures var w := RunOf(pool, data, aToB, amountIn, bound).w;
      Leaves(pool, data, aToB, w, pool.(sqrtPrice := w.sqrtP, liquidity := w.liq, tickCurrent := w.tick))
  {
    hide Outer;
    RunTick(EnvOf(pool, data, aToB, bound), StartOf(pool, data, aToB, amountIn, InitialFee(pool).value), MAX_TICK_STEPS);
  }
}

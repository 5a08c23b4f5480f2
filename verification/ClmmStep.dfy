/** One concentrated-liquidity swap step and the limit-order fills (`src/quote/clmm.rs`). */
module ClmmStep {
  import opened Numbers
  import opened WideMath

  const FEE_DENOMINATOR: int := 1_000_000

  // ── token deltas and next price ─────────────────────────────────────────

  /** Token-0 amount between two sqrt prices, rounded once. */
  function Amount0Delta(a: u128, b: u128, liquidity: u128, roundUp: bool): Option<u128> {
    var lo, hi := Min(a, b), Max(a, b);
    if lo == 0 then None
    else
      WideProduct(liquidity, hi - lo);
      WideProduct(lo, hi);
      var r :- MulDiv256(WideMul(liquidity, hi - lo).Value(), Q64, WideMul(lo, hi).Value(), roundUp);
      ToU128(r)
  }

  /** Token-1 amount between two sqrt prices. */
  function Amount1Delta(a: u128, b: u128, liquidity: u128, roundUp: bool): Option<u128> {
    var lo, hi := Min(a, b), Max(a, b);
    if roundUp then MulDivCeil(liquidity, hi - lo, Q64) else MulDivFloor(liquidity, hi - lo, Q64)
  }

  /** Sqrt price after `amount` of the input token has gone in. */
  function NextSqrtPrice(sqrtP: u128, liquidity: u128, amount: u128, aToB: bool): Option<u128> {
    if liquidity == 0 || sqrtP == 0 then None
    else if amount == 0 then Some(sqrtP)
    else if aToB then
      WideProduct(amount, sqrtP);
      var denom :- ToU256(liquidity * Q64 + WideMul(amount, sqrtP).Value());
      var r :- MulDiv256(liquidity * Q64, sqrtP, denom, true);
      ToU128(r)
    else
      var d :- MulDivFloor(amount, Q64, liquidity);
      ToU128(sqrtP + d)
  }

  /** Input to the target (rounded up) and its output (rounded down); both must fit u64. */
  function DeltasTo(sqrtP: u128, target: u128, liquidity: u128, aToB: bool): Option<(u64, u64)> {
    var amountIn :- if aToB then Amount0Delta(target, sqrtP, liquidity, true) else Amount1Delta(sqrtP, target, liquidity, true);
    var amountOut :- if aToB then Amount1Delta(target, sqrtP, liquidity, false)
                     else Amount0Delta(sqrtP, target, liquidity, false);
    if amountIn <= U64_MAX && amountOut <= U64_MAX then Some((amountIn, amountOut)) else None
  }

  // ── the swap step ───────────────────────────────────────────────────────

  datatype Step = Step(next: u128, used: u128, got: u128)

  /** Where the step stops and what crosses the curve there, before the guard and the fees. */
  function Landing(sqrtP: u128, target: u128, liquidity: u128, forPrice: u128, aToB: bool): Option<(u128, u64, u64)> {
    var toTarget := DeltasTo(sqrtP, target, liquidity, aToB);
    if toTarget.Some? && forPrice >= toTarget.value.0 then
      Some((target, toTarget.value.0, toTarget.value.1))
    else
      var next :- NextSqrtPrice(sqrtP, liquidity, forPrice, aToB);
      var d :- DeltasTo(sqrtP, next, liquidity, aToB);
      Some((next, d.0, d.1))
  }

  /** The part of `remaining` that moves the price. */
  function ForPrice(remaining: u128, feePpm: u32, feeOnInput: bool): (r: u128)
    requires feePpm < FEE_DENOMINATOR
    ensures r <= remaining
  {
    if feeOnInput then
      KeptPart(remaining, feePpm);
      remaining * (FEE_DENOMINATOR - feePpm) / FEE_DENOMINATOR
    else remaining
  }

  lemma KeptPart(x: nat, feePpm: u32)
    requires feePpm < FEE_DENOMINATOR
    ensures 0 <= x * feePpm && 0 <= x * (FEE_DENOMINATOR - feePpm) / FEE_DENOMINATOR <= x
    ensures CeilDiv(x * feePpm, FEE_DENOMINATOR) == x - x * (FEE_DENOMINATOR - feePpm) / FEE_DENOMINATOR
  {
    MulNonneg(x, feePpm);
    MulNonneg(x, FEE_DENOMINATOR - feePpm);
    assert x * (FEE_DENOMINATOR - feePpm) + x * feePpm == x * FEE_DENOMINATOR;
    SplitRounding(x * (FEE_DENOMINATOR - feePpm), x * feePpm, x, FEE_DENOMINATOR);
  }

  /** What is left of `x` after a fee of ceil(x·fee/10⁶). */
  function LessFee(x: nat, feePpm: u32): (r: nat)
    requires feePpm < FEE_DENOMINATOR
    ensures r <= x
    ensures r == x * (FEE_DENOMINATOR - feePpm) / FEE_DENOMINATOR
  {
    MulNonneg(x, feePpm);
    KeptPart(x, feePpm);
    x - CeilDiv(x * feePpm, FEE_DENOMINATOR)
  }

  function SwapStep(sqrtP: u128, target: u128, liquidity: u128, remaining: u128, feePpm: u32, aToB: bool,
      feeOnInput: bool): Option<Step>
    requires feePpm < FEE_DENOMINATOR
  {
    var forPrice := ForPrice(remaining, feePpm, feeOnInput);
    var landing :- Landing(sqrtP, target, liquidity, forPrice, aToB);
    var (next, amountIn, amountOut) := landing;
    if (aToB && next < target) || (!aToB && next > target) then None
    else Charge(next, next == target, amountIn, amountOut, remaining, feePpm, feeOnInput)
  }

  /** The fee on a step that stopped at `next`. */
  function Charge(next: u128, reached: bool, amountIn: u64, amountOut: u64, remaining: u128, feePpm: u32,
      feeOnInput: bool): Option<Step>
    requires feePpm < FEE_DENOMINATOR
  {
    if feeOnInput then
      var fee :- if reached then MulDivCeil(amountIn, feePpm, FEE_DENOMINATOR - feePpm) else ToU128(remaining - amountIn);
      var used :- ToU128(amountIn + fee);
      Some(Step(next, used, amountOut))
    else
      Some(Step(next, if reached then amountIn else remaining, LessFee(amountOut, feePpm)))
  }

  // ── exact curve inequalities ────────────────────────────────────────────

  lemma SpanOrder(lo: nat, lo2: nat, hi2: nat, hi: nat)
    requires lo <= lo2 <= hi2 <= hi
    ensures (hi2 - lo2) * (lo * hi) <= (hi - lo) * (lo2 * hi2)
  {
    var a, b := lo2 - lo, hi - hi2;
    MulNonneg(hi * hi2, a);
    MulNonneg(lo * lo2, b);
    calc {
      (hi - lo) * (lo2 * hi2) - (hi2 - lo2) * (lo * hi);
      hi * lo2 * hi2 - lo * lo2 * hi2 - hi2 * lo * hi + lo2 * lo * hi;
      hi * hi2 * a + lo * lo2 * b;
    }
  }

  /** Comparing fractions `k·n/d` with `q` when `n/d <= n'/d'`. */
  lemma FractionOrder(k: nat, q: int, n: nat, d: nat, n': nat, d': nat)
    requires 0 < d && 0 < d' && n * d' <= n' * d
    ensures k * n' <= q * d' ==> k * n <= q * d
    ensures q * d <= k * n ==> q * d' <= k * n'
  {
  }

  /** `k·(hi−lo)/(lo·hi)` grows with the interval. */
  lemma NarrowSpan(k: nat, q: int, lo: nat, lo2: nat, hi2: nat, hi: nat)
    requires 0 < lo <= lo2 <= hi2 <= hi
    ensures k * (hi - lo) <= q * (lo * hi) ==> k * (hi2 - lo2) <= q * (lo2 * hi2)
    ensures q * (lo2 * hi2) <= k * (hi2 - lo2) ==> q * (lo * hi) <= k * (hi - lo)
  {
    SpanOrder(lo, lo2, hi2, hi);
    MulPos(lo, hi);
    MulPos(lo2, hi2);
    FractionOrder(k, q, hi2 - lo2, lo2 * hi2, hi - lo, lo * hi);
  }

  // ── the exact meaning of the deltas ─────────────────────────────────────

  /** `t` lies at or beyond `p` in the swap direction. */
  predicate Ahead(p: nat, t: nat, aToB: bool) {
    if aToB then t <= p else p <= t
  }

  /** Exact input to move from `p` to `t`, rounded up. */
  function Cost(p: nat, t: nat, liquidity: nat, aToB: bool): nat
    requires 0 < p && 0 < t && Ahead(p, t, aToB)
  {
    if aToB then
      MulPos(t, p);
      MulNonneg(liquidity * Q64, p - t);
      CeilDiv(liquidity * Q64 * (p - t), t * p)
    else
      MulNonneg(liquidity, t - p);
      CeilDiv(liquidity * (t - p), Q64)
  }

  /** Exact output of moving from `p` to `t`, rounded down. */
  function Yield(p: nat, t: nat, liquidity: nat, aToB: bool): nat
    requires 0 < p && 0 < t && Ahead(p, t, aToB)
  {
    if aToB then
      MulNonneg(liquidity, p - t);
      liquidity * (p - t) / Q64
    else
      MulPos(p, t);
      MulNonneg(liquidity * Q64, t - p);
      FloorIff(liquidity * Q64 * (t - p), p * t, 0);
      liquidity * Q64 * (t - p) / (p * t)
  }

  lemma CostIff(p: nat, t: nat, liquidity: nat, aToB: bool, q: int)
    requires 0 < p && 0 < t && Ahead(p, t, aToB)
    ensures Cost(p, t, liquidity, aToB) <= q <==>
            if aToB then liquidity * Q64 * (p - t) <= q * (t * p) else liquidity * (t - p) <= q * Q64
  {
    if aToB {
      MulPos(t, p);
      CeilIff(liquidity * Q64 * (p - t), t * p, q);
    } else {
      CeilIff(liquidity * (t - p), Q64, q);
    }
  }

  lemma YieldIff(p: nat, t: nat, liquidity: nat, aToB: bool, q: int)
    requires 0 < p && 0 < t && Ahead(p, t, aToB)
    ensures q <= Yield(p, t, liquidity, aToB) <==>
            if aToB then q * Q64 <= liquidity * (p - t) else q * (p * t) <= liquidity * Q64 * (t - p)
  {
    if aToB {
      FloorIff(liquidity * (p - t), Q64, q);
    } else {
      MulPos(p, t);
      FloorIff(liquidity * Q64 * (t - p), p * t, q);
    }
  }

  lemma Amount0Exact(p: u128, t: u128, liquidity: u128, roundUp: bool)
    requires 0 < p && 0 < t
    ensures var k, d := liquidity * Q64 * Abs(p - t), t * p;
      && 0 < d && 0 <= k
      && Amount0Delta(p, t, liquidity, roundUp) == Amount0Delta(t, p, liquidity, roundUp) == ToU128(RoundDiv(k, d, roundUp))
  {
    hide MulDiv256, WideMul, RoundDiv;
    var lo, hi := Min(p, t), Max(p, t);
    MulPos(lo, hi);
    WideProduct(liquidity, hi - lo);
    WideProduct(lo, hi);
    var x: u256, y: u256 := WideMul(liquidity, hi - lo).Value(), WideMul(lo, hi).Value();
    MulDivExact(x, Q64, y, roundUp);
    SwapFactors(liquidity, hi - lo, Q64);
    SwapFactors(1, lo, hi);
  }

  lemma SwapFactors(x: int, y: int, z: int)
    ensures x * y * z == x * z * y
  {
  }

  lemma Amount1Exact(p: u128, t: u128, liquidity: u128, roundUp: bool)
    ensures 0 <= liquidity * Abs(p - t)
    ensures Amount1Delta(p, t, liquidity, roundUp) == Amount1Delta(t, p, liquidity, roundUp)
      == ToU128(RoundDiv(liquidity * Abs(p - t), Q64, roundUp))
  {
    MulNonneg(liquidity, Abs(p - t));
  }

  lemma DeltasExact(p: u128, t: u128, liquidity: u128, aToB: bool)
    requires 0 < p && 0 < t && Ahead(p, t, aToB)
    ensures var c, y := Cost(p, t, liquidity, aToB), Yield(p, t, liquidity, aToB);
      DeltasTo(p, t, liquidity, aToB) == if c <= U64_MAX && y <= U64_MAX then Some((c, y)) else None
  {
    hide Amount0Delta, Amount1Delta;
    Amount0Exact(p, t, liquidity, aToB);
    Amount1Exact(p, t, liquidity, !aToB);
  }

  lemma {:induction false} FartherCostsMore(p: nat, t: nat, t': nat, liquidity: nat, aToB: bool)
    requires 0 < p && 0 < t && 0 < t' && Ahead(p, t, aToB) && Ahead(t, t', aToB)
    ensures Cost(p, t, liquidity, aToB) <= Cost(p, t', liquidity, aToB)
    ensures Yield(p, t, liquidity, aToB) <= Yield(p, t', liquidity, aToB)
  {
    var c, y := Cost(p, t', liquidity, aToB), Yield(p, t, liquidity, aToB);
    CostIff(p, t', liquidity, aToB, c);
    CostIff(p, t, liquidity, aToB, c);
    YieldIff(p, t, liquidity, aToB, y);
    YieldIff(p, t', liquidity, aToB, y);
    if aToB {
      NarrowSpan(liquidity * Q64, c, t', t, p, p);
      MulMono(p - t, p - t', liquidity);
    } else {
      NarrowSpan(liquidity * Q64, y, p, p, t, t');
      MulMono(t - p, t' - p, liquidity);
    }
  }

  lemma OnlyStayingIsFree(p: nat, t: nat, liquidity: nat, aToB: bool)
    requires 0 < p && 0 < t && 0 < liquidity && Ahead(p, t, aToB)
    ensures Cost(p, t, liquidity, aToB) <= 0 <==> t == p
  {
    hide Cost;
    CostIff(p, t, liquidity, aToB, 0);
    if t != p { MulPos(liquidity, Abs(p - t)); }
  }

  /** The rounded next price never runs ahead of its input, and it reaches `t` exactly when the input covers the way to `t`. */
  lemma {:induction false} NextPriceIsAffordable(p: u128, liquidity: u128, amount: u128, aToB: bool, next: u128, t: u128)
    requires 0 < p && NextSqrtPrice(p, liquidity, amount, aToB) == Some(next)
    ensures 0 < next && Ahead(p, next, aToB)
    ensures Cost(p, next, liquidity, aToB) <= amount
    ensures 0 < t && Ahead(p, t, aToB) && amount < Cost(p, t, liquidity, aToB) ==> next != t && Ahead(next, t, aToB)
    ensures 0 < t && Ahead(p, t, aToB) && Cost(p, t, liquidity, aToB) <= amount ==> Ahead(t, next, aToB)
  {
    hide Cost;
    if amount == 0 {
      CostIff(p, p, liquidity, aToB, 0);
      if 0 < t && Ahead(p, t, aToB) { OnlyStayingIsFree(p, t, liquidity, aToB); }
    } else if aToB {
      NextPriceDown(p, liquidity * Q64, amount, next, t);
      CostIff(p, next, liquidity, aToB, amount);
      if 0 < t <= p { CostIff(p, t, liquidity, aToB, amount); }
    } else {
      NextPriceUp(p, liquidity, amount, next, t);
      CostIff(p, next, liquidity, aToB, amount);
      if p <= t { CostIff(p, t, liquidity, aToB, amount); }
    }
  }

  lemma NextPriceUp(p: nat, liquidity: nat, amount: nat, next: nat, t: nat)
    requires 0 < p && 0 < liquidity && next == p + amount * Q64 / liquidity
    ensures p <= next && liquidity * (next - p) <= amount * Q64
    ensures p <= t ==> (t <= next <==> liquidity * (t - p) <= amount * Q64)
  {
    MulNonneg(amount, Q64);
    FloorIff(amount * Q64, liquidity, 0);
    FloorIff(amount * Q64, liquidity, next - p);
    FloorIff(amount * Q64, liquidity, t - p);
    assert liquidity * (next - p) == (next - p) * liquidity;
    assert liquidity * (t - p) == (t - p) * liquidity;
  }

  /** `x·(n + a·p)` against `n·p`, rearranged around the distance `p − x`. */
  lemma AroundDistance(p: int, n: int, a: int, x: int)
    ensures x * (n + a * p) - n * p == a * (x * p) - n * (p - x)
  {
  }

  lemma NextPriceDown(p: nat, n: nat, amount: nat, next: nat, t: nat)
    requires 0 < p && 0 < n && next == CeilDiv(n * p, n + amount * p)
    ensures 0 < next <= p
    ensures n * (p - next) <= amount * (next * p)
    ensures 0 < t <= p ==> (next <= t <==> n * (p - t) <= amount * (t * p))
  {
    MulPos(n, p);
    MulNonneg(amount, p);
    MulNonneg(amount, p * p);
    forall x: nat
      ensures next <= x <==> n * (p - x) <= amount * (x * p)
    {
      CeilIff(n * p, n + amount * p, x);
      AroundDistance(p, n, amount, x);
    }
    assert next <= p;
    assert !(next <= 0);
  }

  // ── the step's contract ─────────────────────────────────────────────────

  /** A landing is affordable, stays between start and target (so the guard behind it never
      fires), and lands on the target exactly when the target was affordable. */
  lemma {:induction false} LandingIsSound(p: u128, target: u128, liquidity: u128, forPrice: u128, aToB: bool)
    requires 0 < p && 0 < target && Ahead(p, target, aToB)
    requires Landing(p, target, liquidity, forPrice, aToB).Some?
    ensures var (next, amountIn, amountOut) := Landing(p, target, liquidity, forPrice, aToB).value;
      && 0 < next && Ahead(p, next, aToB) && Ahead(next, target, aToB)
      && amountIn == Cost(p, next, liquidity, aToB) <= forPrice
      && amountOut == Yield(p, next, liquidity, aToB)
      && (next == target <==> DeltasTo(p, target, liquidity, aToB).Some? && Cost(p, target, liquidity, aToB) <= forPrice)
      && (next != target ==> NextSqrtPrice(p, liquidity, forPrice, aToB) == Some(next))
  {
    var next := Landing(p, target, liquidity, forPrice, aToB).value.0;
    DeltasExact(p, target, liquidity, aToB);
    if DeltasTo(p, target, liquidity, aToB).Some? && forPrice >= Cost(p, target, liquidity, aToB) {
    } else {
      NextPriceIsAffordable(p, liquidity, forPrice, aToB, next, target);
      DeltasExact(p, next, liquidity, aToB);
      if Ahead(target, next, aToB) {
        FartherCostsMore(p, target, next, liquidity, aToB);
      }
    }
  }

  /** The fee on top of an affordable input still fits, and it is at least `fee/10⁶` of the total. */
  lemma FeeFits(amountIn: nat, remaining: u128, feePpm: u32)
    requires feePpm < FEE_DENOMINATOR
    requires amountIn <= ForPrice(remaining, feePpm, true)
    ensures amountIn * FEE_DENOMINATOR <= remaining * (FEE_DENOMINATOR - feePpm)
    ensures var fee := CeilDiv(amountIn * feePpm, FEE_DENOMINATOR - feePpm);
      && amountIn + fee <= remaining
      && amountIn * FEE_DENOMINATOR <= (amountIn + fee) * (FEE_DENOMINATOR - feePpm)
  {
    MulNonneg(remaining, FEE_DENOMINATOR - feePpm);
    FeeOnTop(amountIn, remaining, feePpm, FEE_DENOMINATOR);
  }

  /** What one step may do: stay in its interval, spend at most `remaining`, spend all of it unless it
      reached the target, and charge the curve and the fee in the pool's favour. */
  ghost predicate SoundStep(p: u128, target: u128, liquidity: u128, remaining: u128, feePpm: u32, aToB: bool,
      feeOnInput: bool, s: Step)
    requires 0 < p && feePpm < FEE_DENOMINATOR && Ahead(p, target, aToB)
  {
    && 0 < s.next && Ahead(p, s.next, aToB) && Ahead(s.next, target, aToB)
    && s.used <= remaining
    && (s.next == target || s.used == remaining)
    && var amountIn, amountOut := Cost(p, s.next, liquidity, aToB), Yield(p, s.next, liquidity, aToB);
      if feeOnInput then
        && amountIn * FEE_DENOMINATOR <= s.used * (FEE_DENOMINATOR - feePpm)
        && s.got == amountOut
      else
        && amountIn <= s.used
        && s.got == amountOut * (FEE_DENOMINATOR - feePpm) / FEE_DENOMINATOR
  }

  lemma {:induction false} SwapStepIsSound(p: u128, target: u128, liquidity: u128, remaining: u128, feePpm: u32,
      aToB: bool, feeOnInput: bool)
    requires 0 < p && 0 < target && Ahead(p, target, aToB) && feePpm < FEE_DENOMINATOR
    requires SwapStep(p, target, liquidity, remaining, feePpm, aToB, feeOnInput).Some?
    ensures SoundStep(p, target, liquidity, remaining, feePpm, aToB, feeOnInput,
                      SwapStep(p, target, liquidity, remaining, feePpm, aToB, feeOnInput).value)
  {
    LandingIsSound(p, target, liquidity, ForPrice(remaining, feePpm, feeOnInput), aToB);
    if feeOnInput {
      var (next, amountIn, _) := Landing(p, target, liquidity, ForPrice(remaining, feePpm, feeOnInput), aToB).value;
      FeeFits(amountIn, remaining, feePpm);
    }
  }

  // ── the step's exact meaning ────────────────────────────────────────────

  /** `x` pays `cost` and, where the fee is on the input, a fee of `fee/10⁶` of itself. */
  predicate Affords(x: int, cost: nat, feePpm: u32, feeOnInput: bool) {
    if feeOnInput then cost * FEE_DENOMINATOR <= x * (FEE_DENOMINATOR - feePpm) else cost <= x
  }

  /** The step used the least input that affords its way. */
  ghost predicate LeastInput(p: nat, liquidity: nat, feePpm: u32, aToB: bool, feeOnInput: bool, s: Step)
    requires 0 < p && 0 < s.next && Ahead(p, s.next, aToB)
  {
    forall u: nat :: s.used <= u <==> Affords(u, Cost(p, s.next, liquidity, aToB), feePpm, feeOnInput)
  }

  /** The step used everything, and went as far as that affords. */
  ghost predicate FarthestPrice(p: nat, liquidity: nat, remaining: nat, feePpm: u32, aToB: bool, feeOnInput: bool, s: Step)
    requires 0 < p
  {
    s.used == remaining
    && forall t: u128 | 0 < t && Ahead(p, t, aToB) ::
      Ahead(t, s.next, aToB) <==> Affords(remaining, Cost(p, t, liquidity, aToB), feePpm, feeOnInput)
  }

  /** What one step trades: the exact output, for the least input to where it stopped or for everything. */
  ghost predicate ExactStep(p: nat, liquidity: nat, remaining: nat, feePpm: u32, aToB: bool, feeOnInput: bool, s: Step) {
    && 0 < p && 0 < s.next && Ahead(p, s.next, aToB) && feePpm < FEE_DENOMINATOR
    && s.got == (var y := Yield(p, s.next, liquidity, aToB);
                 if feeOnInput then y else y * (FEE_DENOMINATOR - feePpm) / FEE_DENOMINATOR)
    && (LeastInput(p, liquidity, feePpm, aToB, feeOnInput, s)
        || FarthestPrice(p, liquidity, remaining, feePpm, aToB, feeOnInput, s))
  }

  lemma AffordsIff(remaining: u128, cost: nat, feePpm: u32, feeOnInput: bool)
    requires feePpm < FEE_DENOMINATOR
    ensures Affords(remaining, cost, feePpm, feeOnInput) <==> cost <= ForPrice(remaining, feePpm, feeOnInput)
  {
    FloorIff(remaining * (FEE_DENOMINATOR - feePpm), FEE_DENOMINATOR, cost);
  }

  /** The fee on top is the least that leaves its rate of the total. */
  lemma LeastTotal(cost: nat, feePpm: u32, u: int)
    requires feePpm < FEE_DENOMINATOR
    ensures 0 <= cost * feePpm
    ensures cost + CeilDiv(cost * feePpm, FEE_DENOMINATOR - feePpm) <= u <==> Affords(u, cost, feePpm, true)
  {
    var k := FEE_DENOMINATOR - feePpm;
    MulNonneg(cost, feePpm);
    CeilIff(cost * feePpm, k, u - cost);
    Distribute(u, cost, k);
    Distribute(feePpm, k, cost);
    assert cost * feePpm + cost * k == cost * FEE_DENOMINATOR;
  }

  /** A step trades exactly: it stops at its target for the least input, or as far short of it as its input affords. */
  lemma {:induction false} SwapStepIsExact(p: u128, target: u128, liquidity: u128, remaining: u128, feePpm: u32,
      aToB: bool, feeOnInput: bool)
    requires 0 < p && 0 < target && Ahead(p, target, aToB) && feePpm < FEE_DENOMINATOR
    requires SwapStep(p, target, liquidity, remaining, feePpm, aToB, feeOnInput).Some?
    ensures var s := SwapStep(p, target, liquidity, remaining, feePpm, aToB, feeOnInput).value;
      && ExactStep(p, liquidity, remaining, feePpm, aToB, feeOnInput, s)
      && (if s.next == target then LeastInput(p, liquidity, feePpm, aToB, feeOnInput, s)
          else FarthestPrice(p, liquidity, remaining, feePpm, aToB, feeOnInput, s))
  {
    hide Landing, Cost, Yield, NextSqrtPrice, DeltasTo, Affords, ForPrice;
    var forPrice := ForPrice(remaining, feePpm, feeOnInput);
    var s := SwapStep(p, target, liquidity, remaining, feePpm, aToB, feeOnInput).value;
    LandingIsSound(p, target, liquidity, forPrice, aToB);
    if s.next == target {
      forall u: nat ensures s.used <= u <==> Affords(u, Cost(p, target, liquidity, aToB), feePpm, feeOnInput) {
        UsedAtTarget(s, target, liquidity, remaining, feePpm, aToB, feeOnInput, p, u);
      }
    } else {
      forall t: u128 | 0 < t && Ahead(p, t, aToB)
        ensures Ahead(t, s.next, aToB) <==> Affords(remaining, Cost(p, t, liquidity, aToB), feePpm, feeOnInput)
      {
        AffordsIff(remaining, Cost(p, t, liquidity, aToB), feePpm, feeOnInput);
        NextPriceIsAffordable(p, liquidity, forPrice, aToB, s.next, t);
      }
    }
  }

  lemma UsedAtTarget(s: Step, target: u128, liquidity: u128, remaining: u128, feePpm: u32, aToB: bool, feeOnInput: bool,
      p: u128, u: nat)
    requires 0 < p && 0 < target && Ahead(p, target, aToB) && feePpm < FEE_DENOMINATOR && s.next == target
    requires SwapStep(p, target, liquidity, remaining, feePpm, aToB, feeOnInput) == Some(s)
    ensures s.used <= u <==> Affords(u, Cost(p, target, liquidity, aToB), feePpm, feeOnInput)
  {
    hide Landing, Cost, Yield;
    LandingIsSound(p, target, liquidity, ForPrice(remaining, feePpm, feeOnInput), aToB);
    LeastTotal(Cost(p, target, liquidity, aToB), feePpm, u);
  }

  /** The guard on the step's landing is dead code, and the fee arithmetic never refuses:
      a step is refused exactly when its landing does not exist. */
  lemma {:induction false} OnlyTheLandingRefuses(p: u128, target: u128, liquidity: u128, remaining: u128, feePpm: u32,
      aToB: bool, feeOnInput: bool)
    requires 0 < p && 0 < target && Ahead(p, target, aToB) && feePpm < FEE_DENOMINATOR
    ensures SwapStep(p, target, liquidity, remaining, feePpm, aToB, feeOnInput).None? <==>
            Landing(p, target, liquidity, ForPrice(remaining, feePpm, feeOnInput), aToB).None?
  {
    var landing := Landing(p, target, liquidity, ForPrice(remaining, feePpm, feeOnInput), aToB);
    if landing.Some? {
      LandingIsSound(p, target, liquidity, ForPrice(remaining, feePpm, feeOnInput), aToB);
      if feeOnInput {
        FeeFits(landing.value.1, remaining, feePpm);
      }
    }
  }

  // ── when there is a step ────────────────────────────────────────────────

  /** Both amounts on the way to `t` fit 64 bits. */
  ghost predicate Fits(p: nat, t: nat, liquidity: nat, aToB: bool) {
    0 < p && 0 < t && Ahead(p, t, aToB) && Cost(p, t, liquidity, aToB) <= U64_MAX && Yield(p, t, liquidity, aToB) <= U64_MAX
  }

  /** `q` is as far as the input goes, and the arithmetic behind it fits: the divisor going down, the price going up. */
  ghost predicate Reaches(p: nat, liquidity: nat, remaining: u128, feePpm: u32, aToB: bool, feeOnInput: bool, q: nat)
    requires 0 < p && feePpm < FEE_DENOMINATOR
  {
    && 0 < q < Q128 && FarthestPrice(p, liquidity, remaining, feePpm, aToB, feeOnInput, Step(q, remaining, 0))
    && if aToB then
         liquidity * Q64 + (if feeOnInput then remaining * (FEE_DENOMINATOR - feePpm) / FEE_DENOMINATOR else remaining) * p < Q256
       else p < Q128 && !Affords(remaining, Cost(p, Q128, liquidity, aToB), feePpm, feeOnInput)
  }

  lemma NextPriceExists(p: u128, liquidity: u128, amount: u128, aToB: bool)
    requires 0 < p && 0 < liquidity
    ensures NextSqrtPrice(p, liquidity, amount, aToB).Some?
      <==> if aToB then liquidity * Q64 + amount * p < Q256 else amount < Cost(p, Q128, liquidity, aToB)
  {
    hide Cost, WideMul, MulDiv256;
    CostIff(p, Q128, liquidity, false, amount);
    NextPriceUp(p, liquidity, amount, p + amount * Q64 / liquidity, Q128);
    if amount == 0 {
      OnlyStayingIsFree(p, Q128, liquidity, false);
    } else if aToB {
      MulNonneg(amount, p);
      WideProduct(amount, p);
      var denom := liquidity * Q64 + amount * p;
      if denom < Q256 {
        MulDivExact(liquidity * Q64, p, denom, true);
        NextPriceDown(p, liquidity * Q64, amount, CeilDiv(liquidity * Q64 * p, denom), p);
      }
    } else {
      MulNonneg(amount, Q64);
      FloorIff(amount * Q64, liquidity, 0);
    }
  }

  lemma ForPriceIs(remaining: u128, feePpm: u32, feeOnInput: bool)
    requires feePpm < FEE_DENOMINATOR
    ensures ForPrice(remaining, feePpm, feeOnInput)
      == if feeOnInput then remaining * (FEE_DENOMINATOR - feePpm) / FEE_DENOMINATOR else remaining
  {
  }

  /** The next price, where there is one, is where the input reaches. */
  lemma NextIsReached(p: u128, liquidity: u128, remaining: u128, feePpm: u32, aToB: bool, feeOnInput: bool, next: u128)
    requires 0 < p && 0 < liquidity && feePpm < FEE_DENOMINATOR
    requires NextSqrtPrice(p, liquidity, ForPrice(remaining, feePpm, feeOnInput), aToB) == Some(next)
    ensures 0 < next && Ahead(p, next, aToB) && Reaches(p, liquidity, remaining, feePpm, aToB, feeOnInput, next)
  {
    hide Cost, NextSqrtPrice, Affords, ForPrice;
    var amount := ForPrice(remaining, feePpm, feeOnInput);
    ForPriceIs(remaining, feePpm, feeOnInput);
    NextPriceExists(p, liquidity, amount, aToB);
    NextPriceIsAffordable(p, liquidity, amount, aToB, next, p);
    if !aToB { AffordsIff(remaining, Cost(p, Q128, liquidity, aToB), feePpm, feeOnInput); }
    forall t: u128 | 0 < t && Ahead(p, t, aToB)
      ensures Ahead(t, next, aToB) <==> Affords(remaining, Cost(p, t, liquidity, aToB), feePpm, feeOnInput)
    {
      AffordsIff(remaining, Cost(p, t, liquidity, aToB), feePpm, feeOnInput);
      NextPriceIsAffordable(p, liquidity, amount, aToB, next, t);
    }
  }

  /** Nothing else is. */
  lemma ReachedIsNext(p: u128, liquidity: u128, remaining: u128, feePpm: u32, aToB: bool, feeOnInput: bool, q: u128)
    requires 0 < p && 0 < q && 0 < liquidity && feePpm < FEE_DENOMINATOR && Ahead(p, q, aToB)
    requires Reaches(p, liquidity, remaining, feePpm, aToB, feeOnInput, q)
    ensures NextSqrtPrice(p, liquidity, ForPrice(remaining, feePpm, feeOnInput), aToB) == Some(q)
  {
    hide Cost, NextSqrtPrice, Affords, ForPrice;
    var amount := ForPrice(remaining, feePpm, feeOnInput);
    ForPriceIs(remaining, feePpm, feeOnInput);
    NextPriceExists(p, liquidity, amount, aToB);
    if !aToB { AffordsIff(remaining, Cost(p, Q128, liquidity, aToB), feePpm, feeOnInput); }
    var next := NextSqrtPrice(p, liquidity, amount, aToB).value;
    NextIsReached(p, liquidity, remaining, feePpm, aToB, feeOnInput, next);
    assert Affords(remaining, Cost(p, q, liquidity, aToB), feePpm, feeOnInput);
    assert Affords(remaining, Cost(p, next, liquidity, aToB), feePpm, feeOnInput);
  }

  /** The target is affordable in 64-bit amounts, or the input reaches a price in such amounts. */
  ghost predicate HasStep(p: nat, target: nat, liquidity: nat, remaining: u128, feePpm: u32, aToB: bool, feeOnInput: bool) {
    && feePpm < FEE_DENOMINATOR
    && (|| (Fits(p, target, liquidity, aToB) && Affords(remaining, Cost(p, target, liquidity, aToB), feePpm, feeOnInput))
        || exists q: u128 :: Fits(p, q, liquidity, aToB) && Reaches(p, liquidity, remaining, feePpm, aToB, feeOnInput, q))
  }

  /** There is a step exactly then. */
  lemma StepExistsIff(p: u128, target: u128, liquidity: u128, remaining: u128, feePpm: u32, aToB: bool, feeOnInput: bool)
    requires 0 < p && 0 < target && 0 < liquidity && Ahead(p, target, aToB) && feePpm < FEE_DENOMINATOR
    ensures SwapStep(p, target, liquidity, remaining, feePpm, aToB, feeOnInput).Some?
      <==> HasStep(p, target, liquidity, remaining, feePpm, aToB, feeOnInput)
  {
    hide Cost, Yield, Affords, ForPrice, NextSqrtPrice, DeltasTo, SwapStep, Reaches;
    var forPrice := ForPrice(remaining, feePpm, feeOnInput);
    OnlyTheLandingRefuses(p, target, liquidity, remaining, feePpm, aToB, feeOnInput);
    AffordsIff(remaining, Cost(p, target, liquidity, aToB), feePpm, feeOnInput);
    DeltasExact(p, target, liquidity, aToB);
    if NextSqrtPrice(p, liquidity, forPrice, aToB).Some? {
      var next := NextSqrtPrice(p, liquidity, forPrice, aToB).value;
      NextIsReached(p, liquidity, remaining, feePpm, aToB, feeOnInput, next);
      DeltasExact(p, next, liquidity, aToB);
    }
    forall q: u128 | Fits(p, q, liquidity, aToB) && Reaches(p, liquidity, remaining, feePpm, aToB, feeOnInput, q)
      ensures NextSqrtPrice(p, liquidity, forPrice, aToB) == Some(q)
    {
      ReachedIsNext(p, liquidity, remaining, feePpm, aToB, feeOnInput, q);
    }
  }

  // ── more input, more output ─────────────────────────────────────────────

  lemma NextPriceMonotone(p: u128, liquidity: u128, a: u128, b: u128, aToB: bool, na: u128, nb: u128)
    requires 0 < p && a <= b
    requires NextSqrtPrice(p, liquidity, a, aToB) == Some(na)
    requires NextSqrtPrice(p, liquidity, b, aToB) == Some(nb)
    ensures Ahead(na, nb, aToB)
  {
    if a == 0 {
      NextPriceIsAffordable(p, liquidity, b, aToB, nb, p);
    } else if aToB {
      var n := liquidity * Q64;
      MulNonneg(a, p);
      MulMono(a, b, p);
      CeilIff(n * p, n + b * p, na);
      CeilIff(n * p, n + a * p, na);
      MulMono(n + a * p, n + b * p, na);
    } else {
      MulMono(a, b, Q64);
      FloorIff(a * Q64, liquidity, a * Q64 / liquidity);
      FloorIff(b * Q64, liquidity, a * Q64 / liquidity);
    }
  }

  lemma LessFeeMonotone(x: nat, y: nat, feePpm: u32)
    requires x <= y && feePpm < FEE_DENOMINATOR
    ensures LessFee(x, feePpm) <= LessFee(y, feePpm)
  {
    MulMono(x, y, FEE_DENOMINATOR - feePpm);
  }

  lemma ForPriceMonotone(x: u128, y: u128, feePpm: u32, feeOnInput: bool)
    requires x <= y && feePpm < FEE_DENOMINATOR
    ensures ForPrice(x, feePpm, feeOnInput) <= ForPrice(y, feePpm, feeOnInput)
  {
    MulMono(x, y, FEE_DENOMINATOR - feePpm);
  }

  /** With more input the step is the same step, or the smaller input is used up and pays out no more. */
  lemma {:induction false} SwapStepMonotone(p: u128, target: u128, liquidity: u128, r: u128, r': u128, feePpm: u32,
      aToB: bool, feeOnInput: bool)
    requires 0 < p && 0 < target && Ahead(p, target, aToB) && feePpm < FEE_DENOMINATOR && r <= r'
    requires SwapStep(p, target, liquidity, r, feePpm, aToB, feeOnInput).Some?
    requires SwapStep(p, target, liquidity, r', feePpm, aToB, feeOnInput).Some?
    ensures var s, s' := SwapStep(p, target, liquidity, r, feePpm, aToB, feeOnInput).value,
      SwapStep(p, target, liquidity, r', feePpm, aToB, feeOnInput).value;
      s == s' || (s.used == r && s.next != target && s.got <= s'.got)
  {
    var f, f' := ForPrice(r, feePpm, feeOnInput), ForPrice(r', feePpm, feeOnInput);
    ForPriceMonotone(r, r', feePpm, feeOnInput);
    LandingIsSound(p, target, liquidity, f, aToB);
    LandingIsSound(p, target, liquidity, f', aToB);
    var (next, amountIn, amountOut) := Landing(p, target, liquidity, f, aToB).value;
    var (next', amountIn', amountOut') := Landing(p, target, liquidity, f', aToB).value;
    if next != target {
      if next' != target {
        NextPriceMonotone(p, liquidity, f, f', aToB, next, next');
      }
      FartherCostsMore(p, next, next', liquidity, aToB);
      LessFeeMonotone(amountOut, amountOut', feePpm);
    }
  }
}

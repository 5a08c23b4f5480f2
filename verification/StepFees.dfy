/** The per-step fee of a concentrated-liquidity swap: static, Raydium's dynamic fee
    (re-read every tick spacing) or Orca's adaptive fee (re-read every tick group)
    (`src/quote/clmm.rs`). */
module StepFees {
  import opened Numbers

  const MIN_TICK: int := -443_636
  const MAX_TICK: int := 443_636
  const VOLATILITY_SCALE: int := 10_000
  const MAX_DYNAMIC_RATE: int := 100_000
  const RATE_DIVISOR: int := 10_000_000_000_000
  const MAX_REFERENCE_AGE: int := 3_600

  /** A program's tick → sqrt price table and its inverse, taken as given. */
  datatype Table = Table(price: int -> u128, tickAt: u128 -> int)

  /** What the programs' constants guarantee: prices are positive, strictly increasing,
      and the inverse finds a tick from its own price. */
  ghost predicate Increasing(table: Table) {
    && (forall t | MIN_TICK <= t <= MAX_TICK :: 0 < table.price(t))
    && (forall s, t | MIN_TICK <= s < t <= MAX_TICK :: table.price(s) < table.price(t))
    && (forall t | MIN_TICK <= t <= MAX_TICK :: table.tickAt(table.price(t)) == t)
  }

  // ── volatility state ────────────────────────────────────────────────────

  /** Fields shared by Raydium's `DynamicFeeInfo` and Orca's `Oracle`. */
  datatype Volatility = Volatility(
    filterPeriod: u16,
    decayPeriod: u16,
    reductionFactor: u16,
    control: u32,
    maxAccumulator: u32,
    indexReference: int,
    volatilityReference: u32,
    accumulator: u32,
    lastUpdate: u64,
    lastMajorSwap: u64)

  /** Accumulator after moving to `index`: grows with the distance from the reference, capped. */
  function AccumulatorAt(v: Volatility, index: int): u32 {
    Min(v.volatilityReference + Abs(v.indexReference - index) * VOLATILITY_SCALE, v.maxAccumulator)
  }

  function UpdateAccumulator(v: Volatility, index: int): Volatility {
    v.(accumulator := AccumulatorAt(v, index))
  }

  /** Re-anchor on `index`, decaying the accumulated volatility inside `decayPeriod`. */
  function Reanchor(v: Volatility, index: int, elapsed: nat, now: u64): Volatility {
    v.(indexReference := index,
       volatilityReference := if elapsed < v.decayPeriod then v.accumulator * v.reductionFactor / 10_000 % Q32 else 0,
       lastUpdate := now)
  }

  function RaydiumReference(v: Volatility, index: int, now: u64): Volatility {
    var elapsed := Max(now - v.lastUpdate, 0);
    if elapsed < v.filterPeriod then v else Reanchor(v, index, elapsed, now)
  }

  function OrcaReference(v: Volatility, index: int, now0: u64): Volatility {
    var newest := Max(v.lastUpdate, v.lastMajorSwap);
    var now: u64 := Max(now0, newest);
    if now - v.lastUpdate > MAX_REFERENCE_AGE then
      v.(indexReference := index, volatilityReference := 0, lastUpdate := now)
    else
      var elapsed := now - newest;
      if elapsed < v.filterPeriod then v else Reanchor(v, index, elapsed, now)
  }

  /** The stored accumulator is no more than the distance of `index` explains, and reductions are at most 100 %. */
  predicate Settled(v: Volatility, index: int) {
    v.reductionFactor <= 10_000 && v.accumulator <= v.volatilityReference + Abs(v.indexReference - index) * VOLATILITY_SCALE
  }

  /** Period `i` is no nearer the reference than `index`: the swap moves away from it. */
  predicate MovesAway(v: Volatility, index: int, i: int) {
    Abs(v.indexReference - i) == Abs(v.indexReference - index) + Abs(index - i)
  }

  /** Re-anchoring never finds more volatility in a period the swap moves away to, and less the later it happens. */
  lemma ReanchoredIsLess(v: Volatility, index: int, elapsed: nat, elapsed': nat, now: u64, now': u64, i: int)
    requires Settled(v, index) && MovesAway(v, index, i) && elapsed <= elapsed'
    ensures AccumulatorAt(Reanchor(v, index, elapsed', now'), i) <= AccumulatorAt(Reanchor(v, index, elapsed, now), i)
      <= AccumulatorAt(v, i)
  {
    ReducedIsLess(v.accumulator, v.reductionFactor);
  }

  /** Moving away from the reference, a later clock never finds more volatility on Raydium. */
  lemma RaydiumVolatilityDecays(v: Volatility, index: int, early: u64, late: u64, i: int)
    requires early <= late && Settled(v, index) && MovesAway(v, index, i)
    ensures AccumulatorAt(RaydiumReference(v, index, late), i) <= AccumulatorAt(RaydiumReference(v, index, early), i)
  {
    hide Reanchor, AccumulatorAt, Settled, MovesAway;
    ReanchoredIsLess(v, index, Max(early - v.lastUpdate, 0), Max(late - v.lastUpdate, 0), early, late, i);
  }

  /** Nor on Orca, whose reference also expires. */
  lemma OrcaVolatilityDecays(v: Volatility, index: int, early: u64, late: u64, i: int)
    requires early <= late && Settled(v, index) && MovesAway(v, index, i)
    ensures AccumulatorAt(OrcaReference(v, index, late), i) <= AccumulatorAt(OrcaReference(v, index, early), i)
  {
    hide Settled, MovesAway;
    var newest := Max(v.lastUpdate, v.lastMajorSwap);
    var e, l := Max(early, newest), Max(late, newest);
    ReanchoredIsLess(v, index, e - newest, l - newest, e, l, i);
    assert Abs(v.indexReference - i) >= Abs(index - i) by { Farther(v, index, i); }
  }

  /** Whether a clock reading gives a Raydium pool a new reference. */
  predicate RaydiumReanchors(v: Volatility, now: u64) {
    v.filterPeriod <= Max(now - v.lastUpdate, 0)
  }

  /** And an Orca pool, whose reference also expires. */
  predicate OrcaReanchors(v: Volatility, now: u64) {
    Expires(v, now) || v.filterPeriod <= OrcaElapsed(v, now)
  }

  function OrcaElapsed(v: Volatility, now: u64): nat {
    Max(now - Max(v.lastUpdate, v.lastMajorSwap), 0)
  }

  predicate Expires(v: Volatility, now: u64) {
    Max(now, Max(v.lastUpdate, v.lastMajorSwap)) - v.lastUpdate > MAX_REFERENCE_AGE
  }

  /** Volatility of period `i` seen from a new reference in period `index`, which keeps the decayed accumulator or nothing. */
  function FreshVolatility(v: Volatility, index: int, decays: bool, i: int): u32 {
    Min((if decays then v.accumulator * v.reductionFactor / 10_000 % Q32 else 0) + Abs(index - i) * VOLATILITY_SCALE,
        v.maxAccumulator)
  }

  /** A later clock finds more volatility in a period of a Raydium pool exactly when it alone gives a new reference, and
      the period is more volatile from there than from the stored one. */
  lemma LaterRaydiumFindsMore(v: Volatility, index: int, early: u64, late: u64, i: int)
    requires early <= late
    ensures AccumulatorAt(RaydiumReference(v, index, early), i) < AccumulatorAt(RaydiumReference(v, index, late), i)
            <==> (!RaydiumReanchors(v, early) && RaydiumReanchors(v, late)
                  && AccumulatorAt(v, i) < FreshVolatility(v, index, Max(late - v.lastUpdate, 0) < v.decayPeriod, i))
  {
  }

  /** The same of an Orca pool. */
  lemma LaterOrcaFindsMore(v: Volatility, index: int, early: u64, late: u64, i: int)
    requires early <= late
    ensures AccumulatorAt(OrcaReference(v, index, early), i) < AccumulatorAt(OrcaReference(v, index, late), i)
            <==> (!OrcaReanchors(v, early) && OrcaReanchors(v, late)
                  && AccumulatorAt(v, i)
                     < FreshVolatility(v, index, !Expires(v, late) && OrcaElapsed(v, late) < v.decayPeriod, i))
  {
  }

  lemma Farther(v: Volatility, index: int, i: int)
    requires MovesAway(v, index, i)
    ensures Abs(index - i) <= Abs(v.indexReference - i)
  {
  }

  /** `base + ceil(control·(accumulator·unit)²/1e13)`, capped at 10 %. */
  function TotalRate(control: u32, accumulator: u32, unit: nat, base: u32): (r: u32)
    ensures r <= MAX_DYNAMIC_RATE
    ensures Min(base, MAX_DYNAMIC_RATE) <= r
  {
    var crossed := accumulator * unit;
    MulNonneg(control * crossed, crossed);
    Min(base + CeilDiv(control * crossed * crossed, RATE_DIVISOR), MAX_DYNAMIC_RATE)
  }

  /** A rate of at most 10 %: below that the least at or above `base` that pays `control·crossed²/10¹³` on top of it. */
  ghost predicate LeastRate(rate: nat, base: nat, control: nat, crossed: nat) {
    rate <= 100_000 && forall x: nat | x < 100_000 :: rate <= x <==> CoversVolatility(x, base, control, crossed)
  }

  predicate CoversVolatility(rate: nat, base: nat, control: nat, crossed: nat) {
    base <= rate && control * (crossed * crossed) <= (rate - base) * 10_000_000_000_000
  }

  lemma TotalRateIsLeast(control: u32, accumulator: u32, unit: nat, base: u32)
    ensures 0 <= accumulator * unit
    ensures LeastRate(TotalRate(control, accumulator, unit, base), base, control, accumulator * unit)
  {
    var crossed := accumulator * unit;
    MulNonneg(accumulator, unit);
    MulNonneg(control * crossed, crossed);
    assert control * crossed * crossed == control * (crossed * crossed);
    forall x: nat | x < 100_000
      ensures TotalRate(control, accumulator, unit, base) <= x <==> CoversVolatility(x, base, control, crossed)
    {
      CeilIff(control * crossed * crossed, RATE_DIVISOR, x - base);
    }
  }

  // ── the step fee ────────────────────────────────────────────────────────

  type pos = x: int | 0 < x witness 1

  /** An index past which every tick group is saturated, with the price of that edge. */
  datatype Core = Core(index: int, price: u128)

  datatype Venue =
    | StaticFee
    | RaydiumFee
    | OrcaFee(coreLower: Option<Core>, coreUpper: Option<Core>)

  /** `index` numbers the fee period the price is in: `unit` ticks (Raydium's tick spacing,
      Orca's tick group). A static fee ignores everything but `venue`. */
  datatype FeeState = FeeState(venue: Venue, unit: pos, v: Volatility, index: int)

  /** The swap's fixed inputs the fee needs. */
  datatype FeeEnv = FeeEnv(table: Table, base: u32, aToB: bool)

  /** Price of the lower edge of fee period `i`. */
  function Edge(env: FeeEnv, unit: pos, i: int): u128 {
    env.table.price(Clamp(i * unit, MIN_TICK, MAX_TICK))
  }

  /** The rate fee period `i` is charged on its own. */
  function RateAt(env: FeeEnv, fs: FeeState, i: int): u32 {
    if fs.venue.StaticFee? then env.base
    else TotalRate(fs.v.control, AccumulatorAt(fs.v, i), fs.unit, env.base)
  }

  /** Fee periods from the reference until the accumulator is at its cap. */
  function StepsToCap(v: Volatility): nat {
    CeilDiv(Max(v.maxAccumulator - v.volatilityReference, 0), VOLATILITY_SCALE)
  }

  function NewRaydium(v: Volatility, tickCurrent: int, spacing: pos, now: u64): FeeState {
    var index := tickCurrent / spacing;
    FeeState(RaydiumFee, spacing, RaydiumReference(v, index, now), index)
  }

  function NewOrca(v0: Volatility, group: pos, tickCurrent: int, now: u64, table: Table): FeeState {
    var index := tickCurrent / group;
    var v := OrcaReference(v0, index, now);
    var lo, hi := v.indexReference - StepsToCap(v), v.indexReference + StepsToCap(v);
    var lower := if lo * group > MIN_TICK then Some(Core(lo, table.price(lo * group))) else None;
    var upper := if hi * group + group < MAX_TICK then Some(Core(hi, table.price(hi * group + group))) else None;
    FeeState(OrcaFee(lower, upper), group, v, index)
  }

  /** Rate, bounded target, and whether re-pricing was skipped. */
  datatype Plan = Plan(rate: u32, bounded: u128, skipped: bool)

  /** The closer of two prices ahead. */
  function Nearer(a: u128, b: u128, aToB: bool): u128 {
    if aToB then Max(a, b) else Min(a, b)
  }

  predicate BelowCore(fs: FeeState) {
    fs.venue.OrcaFee? && fs.venue.coreLower.Some? && fs.index < fs.venue.coreLower.value.index
  }

  predicate AboveCore(fs: FeeState) {
    fs.venue.OrcaFee? && fs.venue.coreUpper.Some? && fs.index > fs.venue.coreUpper.value.index
  }

  /** No liquidity to charge, or a fee that cannot change. */
  predicate NothingToReprice(fs: FeeState, liquidity: u128) {
    match fs.venue
    case StaticFee => true
    case RaydiumFee => liquidity == 0 || AccumulatorAt(fs.v, fs.index) == fs.v.maxAccumulator
    case OrcaFee(_, _) => liquidity == 0 || fs.v.control == 0
  }

  function PlanStep(env: FeeEnv, fs: FeeState, target: u128, liquidity: u128): (p: Plan)
    requires env.base < 1_000_000
    ensures p.rate < 1_000_000
  {
    var rate := RateAt(env, fs, fs.index);
    if NothingToReprice(fs, liquidity) then Plan(rate, target, true)
    else if BelowCore(fs) then
      Plan(rate, if env.aToB then target else Min(target, fs.venue.coreLower.value.price), true)
    else if AboveCore(fs) then
      Plan(rate, if env.aToB then Max(target, fs.venue.coreUpper.value.price) else target, true)
    else
      Plan(rate, Nearer(target, Edge(env, fs.unit, if env.aToB then fs.index else fs.index + 1), env.aToB), false)
  }

  /** The state `PlanStep` leaves behind. */
  function Stepped(fs: FeeState): FeeState {
    if fs.venue.StaticFee? then fs else fs.(v := UpdateAccumulator(fs.v, fs.index))
  }

  /** Fee period the price landed in when re-pricing was skipped. */
  function LandedIndex(env: FeeEnv, fs: FeeState, sqrtP: u128, tickPrice: u128, nextTick: int, tick: int): int {
    if fs.venue.RaydiumFee? then
      var t := if sqrtP == tickPrice then nextTick else tick;
      if !env.aToB && t % fs.unit == 0 then t / fs.unit - 1 else t / fs.unit
    else
      var t := if sqrtP == tickPrice then nextTick else env.table.tickAt(sqrtP);
      var onBoundary := t % fs.unit == 0 && (sqrtP == tickPrice || sqrtP == env.table.price(t));
      if onBoundary && !env.aToB then t / fs.unit - 1 else t / fs.unit
  }

  /** After a step to `sqrtP`: the next fee period, or where the price landed when re-pricing was skipped. */
  function Advanced(env: FeeEnv, fs: FeeState, skipped: bool, sqrtP: u128, tickPrice: u128, nextTick: int,
      tick: int): FeeState {
    var dir := if env.aToB then -1 else 1;
    if fs.venue.StaticFee? then fs
    else if !skipped then fs.(index := fs.index + dir)
    else
      var i := LandedIndex(env, fs, sqrtP, tickPrice, nextTick, tick);
      if fs.venue.RaydiumFee? then
        fs.(v := if fs.v.accumulator != fs.v.maxAccumulator then UpdateAccumulator(fs.v, i) else fs.v, index := i + dir)
      else if (env.aToB && i < fs.index) || (!env.aToB && i > fs.index) then
        fs.(v := UpdateAccumulator(fs.v, i), index := i + dir)
      else fs.(index := fs.index + dir)
  }

  /** Orca's core bounds are priced at fee-period edges inside the table. */
  ghost predicate CoreAtEdges(table: Table, venue: Venue, unit: pos) {
    venue.OrcaFee? ==>
      && (venue.coreLower.Some? ==>
            var lo := venue.coreLower.value;
            MIN_TICK <= lo.index * unit <= MAX_TICK && lo.price == table.price(lo.index * unit))
      && (venue.coreUpper.Some? ==>
            var hi := venue.coreUpper.value;
            MIN_TICK <= (hi.index + 1) * unit <= MAX_TICK && hi.price == table.price((hi.index + 1) * unit))
  }

  // ── the state the source updates in place ───────────────────────────────

  class StepFee {
    const venue: Venue
    const unit: pos
    var v: Volatility
    var index: int

    function State(): FeeState
      reads this
    {
      FeeState(venue, unit, v, index)
    }

    constructor (fs: FeeState)
      ensures State() == fs
    {
      venue, unit, v, index := fs.venue, fs.unit, fs.v, fs.index;
    }

    method Step(env: FeeEnv, target: u128, liquidity: u128) returns (p: Plan)
      requires env.base < 1_000_000
      modifies this
      ensures p == PlanStep(env, old(State()), target, liquidity)
      ensures State() == Stepped(old(State()))
    {
      if venue.StaticFee? {
        return Plan(env.base, target, true);
      }
      v := UpdateAccumulator(v, index);
      var rate := TotalRate(v.control, v.accumulator, unit, env.base);
      var edge := Edge(env, unit, if env.aToB then index else index + 1);
      if venue.RaydiumFee? {
        if liquidity == 0 || v.accumulator == v.maxAccumulator {
          return Plan(rate, target, true);
        }
        var pastEdge := if env.aToB then target <= edge else target >= edge;
        return Plan(rate, if pastEdge then edge else target, false);
      }
      if v.control == 0 || liquidity == 0 {
        return Plan(rate, target, true);
      }
      if venue.coreLower.Some? && index < venue.coreLower.value.index {
        return Plan(rate, if env.aToB then target else Min(target, venue.coreLower.value.price), true);
      }
      if venue.coreUpper.Some? && index > venue.coreUpper.value.index {
        return Plan(rate, if env.aToB then Max(target, venue.coreUpper.value.price) else target, true);
      }
      return Plan(rate, if env.aToB then Max(target, edge) else Min(target, edge), false);
    }

    method Advance(env: FeeEnv, skipped: bool, sqrtP: u128, tickPrice: u128, nextTick: int, tick: int)
      modifies this
      ensures State() == Advanced(env, old(State()), skipped, sqrtP, tickPrice, nextTick, tick)
    {
      if venue.StaticFee? {
        return;
      }
      if skipped {
        if venue.RaydiumFee? {
          var t := if sqrtP == tickPrice then nextTick else tick;
          index := t / unit;
          if !env.aToB && t % unit == 0 {
            index := index - 1;
          }
          if v.accumulator != v.maxAccumulator {
            v := UpdateAccumulator(v, index);
          }
        } else {
          var t := nextTick;
          var onBoundary := nextTick % unit == 0;
          if sqrtP != tickPrice {
            t := env.table.tickAt(sqrtP);
            onBoundary := t % unit == 0 && sqrtP == env.table.price(t);
          }
          var last := if onBoundary && !env.aToB then t / unit - 1 else t / unit;
          if (env.aToB && last < index) || (!env.aToB && last > index) {
            index := last;
            v := UpdateAccumulator(v, index);
          }
        }
      }
      index := index + if env.aToB then -1 else 1;
    }
  }
}

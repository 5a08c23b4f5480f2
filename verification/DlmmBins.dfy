/** One DLMM bin: its fee rate and the fill of its liquidity layers (`src/quote/dlmm.rs`). */
module DlmmBins {
  import opened Numbers
  import opened WideMath

  const FEE_PRECISION: int := 1_000_000_000
  const MAX_FEE_RATE: int := 100_000_000

  /** The LbPair fields a swap reads. */
  datatype Pair = Pair(
    baseFactor: u16,
    filterPeriod: u16,
    decayPeriod: u16,
    reductionFactor: u16,
    variableFeeControl: u32,
    maxVolatility: u32,
    baseFeePower: nat,
    functionType: nat,
    collectFeeMode: nat,
    volatilityAccumulator: u32,
    volatilityReference: u32,
    indexReference: int,
    lastUpdate: int,
    pairType: nat,
    activeId: int,
    binStep: u16,
    status: nat,
    activationType: nat,
    activationPoint: u64,
    hasRewards: bool)

  /** Re-anchor an idle pair on its active bin, decaying or clearing its volatility. */
  function UpdateReferences(p: Pair, now: int): Pair {
    var elapsed := now - p.lastUpdate;
    if elapsed < p.filterPeriod then p
    else p.(indexReference := p.activeId,
            volatilityReference := if elapsed < p.decayPeriod then p.volatilityAccumulator * p.reductionFactor / 10_000 % Q32 else 0)
  }

  /** The volatility accumulator at bin `id`: it grows with the distance walked from the reference. */
  function VolatilityAt(p: Pair, id: int): u32 {
    Min(p.volatilityReference + Abs(p.indexReference - id) * 10_000, p.maxVolatility)
  }

  function UpdateVolatility(p: Pair): Pair {
    p.(volatilityAccumulator := VolatilityAt(p, p.activeId))
  }

  function TenTo(n: nat): (r: nat)
    ensures r > 0
  {
    if n == 0 then 1 else 10 * TenTo(n - 1)
  }

  function BaseFeeRate(p: Pair): Option<u128> {
    if TenTo(p.baseFeePower) >= Q128 then None
    else ToU128(p.baseFactor * p.binStep * 10 * TenTo(p.baseFeePower))
  }

  function VariableFeeRate(p: Pair, volatility: u32): Option<u128> {
    if p.variableFeeControl == 0 then Some(0)
    else
      var v := volatility * p.binStep;
      var scaled :- ToU128(p.variableFeeControl * (v * v));
      var padded :- ToU128(scaled + 99_999_999_999);
      Some(padded / 100_000_000_000)
  }

  /** Fee rate per 10⁹ at a given volatility, capped at 10 %. */
  function RateOf(p: Pair, volatility: u32): (r: Option<u128>)
    ensures r.Some? ==> r.value <= MAX_FEE_RATE
  {
    var base :- BaseFeeRate(p);
    var variable :- VariableFeeRate(p, volatility);
    var sum :- ToU128(base + variable);
    Some(Min(sum, MAX_FEE_RATE))
  }

  /** Fee rate charged in bin `id`. */
  function RateAt(p: Pair, id: int): (r: Option<u128>)
    ensures r.Some? ==> r.value <= MAX_FEE_RATE
  {
    RateOf(p, VolatilityAt(p, id))
  }

  predicate SupportsLimitOrders(p: Pair) {
    p.functionType == 2 || (p.functionType == 0 && !p.hasRewards)
  }

  predicate FeeOnInput(p: Pair, swapForY: bool) {
    p.collectFeeMode != 1 || !swapForY
  }

  predicate Tradable(p: Pair, now: int, slot: u64) {
    p.binStep > 0 && p.status == 0
    && (p.pairType == 1 || p.pairType == 2 ==> (if p.activationType == 1 then Max(now, 0) else slot) >= p.activationPoint)
  }

  // ── the rate and the clock ──────────────────────────────────────────────

  /** The stored accumulator is no more than the active bin's distance explains, and reductions are at most 100 %. */
  predicate Settled(p: Pair) {
    p.reductionFactor <= 10_000
    && p.volatilityAccumulator <= p.volatilityReference + Abs(p.indexReference - p.activeId) * 10_000
  }

  /** Only the later of two clock readings re-anchors the pair. */
  predicate Straddles(p: Pair, early: int, late: int) {
    early - p.lastUpdate < p.filterPeriod <= late - p.lastUpdate
  }

  /** Volatility of bin `id` once the pair re-anchors on its active bin at clock `now`. */
  function FreshVolatility(p: Pair, now: int, id: int): u32 {
    var decayed := if now - p.lastUpdate < p.decayPeriod then p.volatilityAccumulator * p.reductionFactor / 10_000 % Q32 else 0;
    Min(decayed + Abs(p.activeId - id) * 10_000, p.maxVolatility)
  }

  /** Bin `id` is no nearer the reference than the active bin: the swap moves away from it. */
  predicate MovesAway(p: Pair, id: int) {
    Abs(p.indexReference - id) == Abs(p.indexReference - p.activeId) + Abs(p.activeId - id)
  }

  /** An earlier clock finds less volatility in a bin exactly when it alone keeps the stored reference and the bin is
      less volatile from there than from the active bin; for a settled pair, in no bin the swap moves away to. */
  lemma EarlyClockFindsLess(p: Pair, early: int, late: int, id: int)
    requires early <= late
    ensures VolatilityAt(UpdateReferences(p, early), id) < VolatilityAt(UpdateReferences(p, late), id)
            <==> (Straddles(p, early, late) && VolatilityAt(p, id) < FreshVolatility(p, late, id))
    ensures Settled(p) && MovesAway(p, id) ==> FreshVolatility(p, late, id) <= VolatilityAt(p, id)
  {
    if Settled(p) {
      ReducedIsLess(p.volatilityAccumulator, p.reductionFactor);
    }
  }

  lemma RateFollowsVolatility(p: Pair, v: u32, w: u32)
    requires v <= w && RateOf(p, v).Some? && RateOf(p, w).Some?
    ensures RateOf(p, v).value <= RateOf(p, w).value
  {
    var x, y := v * p.binStep, w * p.binStep;
    MulMono(v, w, p.binStep);
    MulNonneg(v, p.binStep);
    MulMono(x, y, x);
    MulMono(x, y, y);
    MulMono(x * x, y * y, p.variableFeeControl);
  }

  /** Re-anchoring changes neither the base nor the variable fee's parameters. */
  lemma SameParameters(p: Pair, now: int, v: u32)
    ensures RateOf(UpdateReferences(p, now), v) == RateOf(p, v)
  {
  }

  /** Reading the clock early charges a bin less exactly when only the later reading re-anchors and the rate of the
      bin's volatility is lower from the stored reference than from the active bin. */
  lemma EarlyClockUndercharges(p: Pair, early: int, late: int, id: int)
    requires early <= late
    requires RateAt(UpdateReferences(p, early), id).Some? && RateAt(UpdateReferences(p, late), id).Some?
    ensures Straddles(p, early, late) ==>
            RateOf(p, VolatilityAt(p, id)).Some? && RateOf(p, FreshVolatility(p, late, id)).Some?
    ensures RateAt(UpdateReferences(p, early), id).value < RateAt(UpdateReferences(p, late), id).value
            <==> (Straddles(p, early, late)
                  && RateOf(p, VolatilityAt(p, id)).value < RateOf(p, FreshVolatility(p, late, id)).value)
    ensures Settled(p) && MovesAway(p, id) ==>
            RateAt(UpdateReferences(p, late), id).value <= RateAt(UpdateReferences(p, early), id).value
  {
    hide RateOf;
    var v, w := VolatilityAt(UpdateReferences(p, early), id), VolatilityAt(UpdateReferences(p, late), id);
    EarlyClockFindsLess(p, early, late, id);
    SameParameters(p, early, v);
    SameParameters(p, late, w);
    if w <= v { RateFollowsVolatility(p, w, v); }
  }

  /** A pair two bins from its reference, at the volatility that distance leaves. */
  predicate NearReference(p: Pair) {
    && p.filterPeriod == 10 && p.decayPeriod == 20 && p.reductionFactor == 10_000 && p.lastUpdate == 0
    && p.volatilityAccumulator == 20_000 && p.volatilityReference == 0 && p.indexReference == 0
    && p.activeId == 2 && p.maxVolatility == 100_000
    && p.baseFactor == 1_000 && p.binStep == 10 && p.baseFeePower == 0 && p.variableFeeControl == 1_000
  }

  /** It happens: swapping back to its reference bin, such a pair charges 0.0100 % by a clock one second early, and
      0.0102 % on time. */
  lemma UnderchargedExample(p: Pair, early: int, late: int, id: int)
    requires NearReference(p) && early == 9 && late == 10 && id == 0
    ensures Settled(p) && Straddles(p, early, late)
    ensures RateAt(UpdateReferences(p, early), id) == Some(100_000) && RateAt(UpdateReferences(p, late), id) == Some(101_600)
  {
    hide RateOf, UpdateReferences, VolatilityAt;
    var v, w := VolatilityAt(UpdateReferences(p, early), id), VolatilityAt(UpdateReferences(p, late), id);
    ExampleVolatility(p, early, late, id);
    SameParameters(p, early, v);
    SameParameters(p, late, w);
    ExampleRates(p, v, w);
  }

  lemma ExampleVolatility(p: Pair, early: int, late: int, id: int)
    requires NearReference(p) && early == 9 && late == 10 && id == 0
    ensures VolatilityAt(UpdateReferences(p, early), id) == 0 && VolatilityAt(UpdateReferences(p, late), id) == 40_000
  {
  }

  lemma ExampleRates(p: Pair, v: u32, w: u32)
    requires NearReference(p) && v == 0 && w == 40_000
    ensures RateOf(p, v) == Some(100_000) && RateOf(p, w) == Some(101_600)
  {
    assert TenTo(0) == 1;
    assert BaseFeeRate(p) == Some(100_000);
    assert VariableFeeRate(p, v) == Some(0);
    assert VariableFeeRate(p, w) == Some(1_600);
  }

  datatype Bin = Bin(amountX: u64, amountY: u64, price: u128, openOrders: u64, processedOrders: u64, askSide: bool)

  /** What the layers of a bin can pay out, in fill order: market makers, processed orders, open orders. */
  datatype Layers = Layers(maker: u64, processed: u64, open: u64) {
    function Total(): nat {
      maker + processed + open
    }
  }

  function LayersOf(bin: Bin, swapForY: bool, limitOrders: bool): Layers {
    var maker := if swapForY then bin.amountY else bin.amountX;
    if limitOrders && swapForY != bin.askSide then Layers(maker, bin.processedOrders, bin.openOrders) else Layers(maker, 0, 0)
  }

  /** `max_amount_out`: the total, saturating at u64. */
  function MaxAmountOut(bin: Bin, swapForY: bool, limitOrders: bool): u64 {
    Min(LayersOf(bin, swapForY, limitOrders).Total(), U64_MAX)
  }

  // ── fills ───────────────────────────────────────────────────────────────

  function AmountInFor(out: u64, price: u128, swapForY: bool): Option<u64> {
    var v :- if swapForY then MulDivCeil(out, Q64, price) else MulDivCeil(out, price, Q64);
    ToU64(v)
  }

  function AmountOutFor(amount: u64, price: u128, swapForY: bool): Option<u64> {
    var v :- if swapForY then MulDivFloor(price, amount, Q64) else MulDivFloor(amount, Q64, price);
    ToU64(v)
  }

  /** Input used and raw output. */
  datatype Fill = Fill(used: nat, out: nat)

  /** Fill up to `maxOut` of one layer. */
  function FillLayer(amount: u64, maxOut: u64, price: u128, swapForY: bool): Option<Fill> {
    if maxOut == 0 || amount == 0 then Some(Fill(0, 0))
    else
      var maxIn :- AmountInFor(maxOut, price, swapForY);
      if amount >= maxIn then Some(Fill(maxIn, maxOut))
      else
        var out :- AmountOutFor(amount, price, swapForY);
        Some(Fill(amount, out))
  }

  /** What is left after a fill of a layer, filled from the next one. */
  function ThenFill(f: Fill, amount: u64, maxOut: u64, price: u128, swapForY: bool): Option<Fill>
    requires f.used <= amount
  {
    if f.used == amount then Some(f)
    else
      var next :- FillLayer(amount - f.used, maxOut, price, swapForY);
      Some(Fill(f.used + next.used, f.out + next.out))
  }

  lemma FillUsesAmount(amount: u64, maxOut: u64, price: u128, swapForY: bool)
    requires FillLayer(amount, maxOut, price, swapForY).Some?
    ensures FillLayer(amount, maxOut, price, swapForY).value.used <= amount
  {
  }

  /** All layers of a bin in order. */
  function FillBin(layers: Layers, amount: u64, price: u128, swapForY: bool): (r: Option<Fill>)
    ensures r.Some? ==> r.value.used <= amount
  {
    var f :- FillLayer(amount, layers.maker, price, swapForY);
    FillUsesAmount(amount, layers.maker, price, swapForY);
    var g :- ThenFill(f, amount, layers.processed, price, swapForY);
    ThenFill(g, amount, layers.open, price, swapForY)
  }

  /** Input consumed with the fee, output net of the fee, and the fee. */
  datatype BinSwap = BinSwap(consumed: nat, out: nat, fee: nat)

  /** Input left for the bin once the fee of a partial fill is taken. */
  function Excluded(amount: u64, rate: u128, feeOnInput: bool): Option<u64>
    requires rate <= MAX_FEE_RATE
  {
    if !feeOnInput then Some(amount)
    else
      MulNonneg(amount, rate);
      var fee :- ToU64(CeilDiv(amount * rate, FEE_PRECISION));
      if fee > amount then None else Some(amount - fee)
  }

  function SwapInBin(layers: Layers, price: u128, rate: u128, amount: u64, swapForY: bool, feeOnInput: bool): Option<BinSwap>
    requires rate <= MAX_FEE_RATE
  {
    var excluded :- Excluded(amount, rate, feeOnInput);
    var f :- FillBin(layers, excluded, price, swapForY);
    MulNonneg(f.used, rate);
    MulNonneg(f.out, rate);
    if feeOnInput then
      if f.used < excluded then
        var fee :- ToU64(CeilDiv(f.used * rate, FEE_PRECISION - rate));
        var consumed :- ToU64(f.used + fee);
        Some(BinSwap(consumed, f.out, fee))
      else Some(BinSwap(amount, f.out, amount - excluded))
    else
      var fee :- ToU64(CeilDiv(f.out * rate, FEE_PRECISION));
      if fee > f.out then None
      else Some(BinSwap(f.used, f.out - fee, fee))
  }

  // ── one layer ───────────────────────────────────────────────────────────

  /** `out` for `used` is no better than the bin's price. */
  predicate AtPrice(f: Fill, price: u128, swapForY: bool) {
    if swapForY then f.out * Q64 <= f.used * price else f.out * price <= f.used * Q64
  }

  /** A fill takes at most what is there, at no better than the price, and leaves input only by draining it. */
  predicate SoundFill(f: Fill, amount: nat, maxOut: nat, price: u128, swapForY: bool) {
    f.used <= amount && f.out <= maxOut && (f.used < amount ==> f.out == maxOut) && AtPrice(f, price, swapForY)
  }

  /** With `a <= a'`: the same fill, or the smaller amount is used up for no more. */
  predicate MonotoneFill(a: nat, f: Fill, f': Fill) {
    f == f' || (f.used == a && f.out <= f'.out)
  }

  /** An amount short of the full price buys no more than everything. */
  lemma ShortOfFull(amount: nat, maxOut: nat, unit: nat, per: nat)
    requires 0 < per && 0 < unit && amount < CeilDiv(maxOut * unit, per)
    ensures 0 <= amount * per && amount * per / unit <= maxOut
  {
    MulNonneg(amount, per);
    CeilIff(maxOut * unit, per, amount);
    FloorIff(amount * per, unit, maxOut + 1);
    assert (maxOut + 1) * unit == maxOut * unit + unit;
  }

  lemma LayerIsSound(amount: u64, maxOut: u64, price: u128, swapForY: bool)
    requires FillLayer(amount, maxOut, price, swapForY).Some?
    ensures SoundFill(FillLayer(amount, maxOut, price, swapForY).value, amount, maxOut, price, swapForY)
  {
    if maxOut != 0 && amount != 0 {
      var maxIn := AmountInFor(maxOut, price, swapForY).value;
      if swapForY {
        CeilIff(maxOut * Q64, price, maxIn);
        if amount < maxIn {
          ShortOfFull(amount, maxOut, Q64, price);
          FloorIff(amount * price, Q64, amount * price / Q64);
        }
      } else {
        CeilIff(maxOut * price, Q64, maxIn);
        if amount < maxIn && price > 0 {
          ShortOfFull(amount, maxOut, price, Q64);
          FloorIff(amount * Q64, price, amount * Q64 / price);
        }
      }
    }
  }

  lemma LayerIsMonotone(a: u64, a': u64, maxOut: u64, price: u128, swapForY: bool)
    requires a <= a'
    requires FillLayer(a, maxOut, price, swapForY).Some? && FillLayer(a', maxOut, price, swapForY).Some?
    ensures MonotoneFill(a, FillLayer(a, maxOut, price, swapForY).value, FillLayer(a', maxOut, price, swapForY).value)
  {
    LayerIsSound(a, maxOut, price, swapForY);
    if maxOut != 0 && a != 0 {
      var maxIn := AmountInFor(maxOut, price, swapForY).value;
      if a' < maxIn {
        if swapForY {
          MulMono(a, a', price);
          FloorMono(a * price, a' * price, Q64);
        } else {
          FloorMono(a * Q64, a' * Q64, price);
        }
      }
    }
  }

  // ── all layers ──────────────────────────────────────────────────────────

  lemma NextLayerIsSound(f: Fill, amount: u64, sofar: nat, maxOut: u64, price: u128, swapForY: bool)
    requires SoundFill(f, amount, sofar, price, swapForY) && ThenFill(f, amount, maxOut, price, swapForY).Some?
    ensures SoundFill(ThenFill(f, amount, maxOut, price, swapForY).value, amount, sofar + maxOut, price, swapForY)
  {
    hide FillLayer;
    if f.used != amount {
      LayerIsSound(amount - f.used, maxOut, price, swapForY);
      var g := FillLayer(amount - f.used, maxOut, price, swapForY).value;
      assert (f.out + g.out) * price == f.out * price + g.out * price;
      assert (f.used + g.used) * price == f.used * price + g.used * price;
    }
  }

  lemma NextLayerIsMonotone(f: Fill, f': Fill, a: u64, a': u64, maxOut: u64, price: u128, swapForY: bool)
    requires a <= a' && f.used <= a && f'.used <= a' && MonotoneFill(a, f, f')
    requires ThenFill(f, a, maxOut, price, swapForY).Some? && ThenFill(f', a', maxOut, price, swapForY).Some?
    ensures MonotoneFill(a, ThenFill(f, a, maxOut, price, swapForY).value, ThenFill(f', a', maxOut, price, swapForY).value)
  {
    hide FillLayer;
    if f == f' && f.used != a {
      LayerIsMonotone(a - f.used, a' - f.used, maxOut, price, swapForY);
    }
  }

  lemma BinIsSound(layers: Layers, amount: u64, price: u128, swapForY: bool)
    requires FillBin(layers, amount, price, swapForY).Some?
    ensures SoundFill(FillBin(layers, amount, price, swapForY).value, amount, layers.Total(), price, swapForY)
  {
    hide FillLayer, ThenFill, AtPrice;
    var f := FillLayer(amount, layers.maker, price, swapForY).value;
    LayerIsSound(amount, layers.maker, price, swapForY);
    var g := ThenFill(f, amount, layers.processed, price, swapForY).value;
    NextLayerIsSound(f, amount, layers.maker, layers.processed, price, swapForY);
    NextLayerIsSound(g, amount, layers.maker + layers.processed, layers.open, price, swapForY);
  }

  lemma BinIsMonotone(layers: Layers, a: u64, a': u64, price: u128, swapForY: bool)
    requires a <= a' && FillBin(layers, a, price, swapForY).Some? && FillBin(layers, a', price, swapForY).Some?
    ensures MonotoneFill(a, FillBin(layers, a, price, swapForY).value, FillBin(layers, a', price, swapForY).value)
  {
    hide FillLayer, ThenFill, AtPrice;
    BinIsSound(layers, a, price, swapForY);
    var f, f' := FillLayer(a, layers.maker, price, swapForY).value, FillLayer(a', layers.maker, price, swapForY).value;
    LayerIsSound(a, layers.maker, price, swapForY);
    LayerIsSound(a', layers.maker, price, swapForY);
    LayerIsMonotone(a, a', layers.maker, price, swapForY);
    var g, g' := ThenFill(f, a, layers.processed, price, swapForY).value,
        ThenFill(f', a', layers.processed, price, swapForY).value;
    NextLayerIsSound(f, a, layers.maker, layers.processed, price, swapForY);
    NextLayerIsSound(f', a', layers.maker, layers.processed, price, swapForY);
    NextLayerIsMonotone(f, f', a, a', layers.processed, price, swapForY);
    NextLayerIsMonotone(g, g', a, a', layers.open, price, swapForY);
  }

  // ── the bin with its fee ────────────────────────────────────────────────

  /** Output before an output-side fee. */
  function Gross(s: BinSwap, feeOnInput: bool): nat {
    if feeOnInput then s.out else s.out + s.fee
  }

  /** Input that paid for liquidity rather than the fee. */
  function Principal(s: BinSwap, feeOnInput: bool): int {
    if feeOnInput then s.consumed - s.fee else s.consumed
  }

  /** What a bin swap may do: consume at most `amount` and leave some only by draining the bin, take at most
      what it holds at no better than its price, and charge at least the rate on the fee side. */
  predicate SoundSwap(layers: Layers, price: u128, rate: u128, amount: nat, swapForY: bool, feeOnInput: bool, s: BinSwap) {
    && s.consumed <= amount && s.fee <= (if feeOnInput then s.consumed else Gross(s, feeOnInput))
    && Gross(s, feeOnInput) <= layers.Total() && (s.consumed < amount ==> Gross(s, feeOnInput) == layers.Total())
    && AtPrice(Fill(Max(Principal(s, feeOnInput), 0), Gross(s, feeOnInput)), price, swapForY)
    && (if feeOnInput then s.consumed else Gross(s, feeOnInput)) * rate <= s.fee * FEE_PRECISION
  }

  lemma ExcludedIsFloor(amount: u64, rate: u128, feeOnInput: bool)
    requires rate <= MAX_FEE_RATE
    ensures Excluded(amount, rate, feeOnInput).Some?
    ensures feeOnInput ==>
      0 <= amount * (FEE_PRECISION - rate)
      && Excluded(amount, rate, true).value == amount * (FEE_PRECISION - rate) / FEE_PRECISION
    ensures feeOnInput ==> amount * rate <= (amount - Excluded(amount, rate, true).value) * FEE_PRECISION
  {
    MulNonneg(amount, FEE_PRECISION - rate);
    MulNonneg(amount, rate);
    assert amount * (FEE_PRECISION - rate) + amount * rate == amount * FEE_PRECISION;
    SplitRounding(amount * (FEE_PRECISION - rate), amount * rate, amount, FEE_PRECISION);
    CeilIff(amount * rate, FEE_PRECISION, CeilDiv(amount * rate, FEE_PRECISION));
  }

  /** The fee on top of a drained bin fits the input and is at least the rate on the total. */
  lemma DrainedFee(used: nat, amount: u64, rate: u128)
    requires rate <= MAX_FEE_RATE && Excluded(amount, rate, true).Some? && used < Excluded(amount, rate, true).value
    ensures 0 <= used * rate
    ensures var fee := CeilDiv(used * rate, FEE_PRECISION - rate);
      used + fee <= amount && (used + fee) * rate <= fee * FEE_PRECISION
  {
    ExcludedIsFloor(amount, rate, true);
    FeeOnTop(used, amount, rate, FEE_PRECISION);
    var fee := CeilDiv(used * rate, FEE_PRECISION - rate);
    var total := used + fee;
    assert total * (FEE_PRECISION - rate) == total * FEE_PRECISION - total * rate;
  }

  lemma SwapIsSound(layers: Layers, price: u128, rate: u128, amount: u64, swapForY: bool, feeOnInput: bool)
    requires rate <= MAX_FEE_RATE && SwapInBin(layers, price, rate, amount, swapForY, feeOnInput).Some?
    ensures SoundSwap(layers, price, rate, amount, swapForY, feeOnInput,
      SwapInBin(layers, price, rate, amount, swapForY, feeOnInput).value)
  {
    hide FillBin, AtPrice, Excluded;
    ExcludedIsFloor(amount, rate, feeOnInput);
    var excluded := Excluded(amount, rate, feeOnInput).value;
    var f := FillBin(layers, excluded, price, swapForY).value;
    BinIsSound(layers, excluded, price, swapForY);
    if feeOnInput {
      if f.used < excluded {
        DrainedFee(f.used, amount, rate);
      }
    } else {
      NoExclusion(amount, rate);
      MulNonneg(f.out, rate);
      CeilIff(f.out * rate, FEE_PRECISION, CeilDiv(f.out * rate, FEE_PRECISION));
    }
  }

  lemma NoExclusion(amount: u64, rate: u128)
    requires rate <= MAX_FEE_RATE
    ensures Excluded(amount, rate, false) == Some(amount)
  {
  }

  /** With more input: the same swap, or the smaller input is consumed whole and pays no more. */
  lemma SwapIsMonotone(layers: Layers, price: u128, rate: u128, a: u64, a': u64, swapForY: bool, feeOnInput: bool)
    requires rate <= MAX_FEE_RATE && a <= a'
    requires SwapInBin(layers, price, rate, a, swapForY, feeOnInput).Some?
      && SwapInBin(layers, price, rate, a', swapForY, feeOnInput).Some?
    ensures var s, s' := SwapInBin(layers, price, rate, a, swapForY, feeOnInput).value,
      SwapInBin(layers, price, rate, a', swapForY, feeOnInput).value;
      s == s' || (s.consumed == a && s.out <= s'.out)
  {
    hide FillBin, AtPrice, Excluded;
    ExcludedIsFloor(a, rate, feeOnInput);
    ExcludedIsFloor(a', rate, feeOnInput);
    var e, e' := Excluded(a, rate, feeOnInput).value, Excluded(a', rate, feeOnInput).value;
    if feeOnInput {
      MulMono(a, a', FEE_PRECISION - rate);
      FloorMono(a * (FEE_PRECISION - rate), a' * (FEE_PRECISION - rate), FEE_PRECISION);
    } else {
      NoExclusion(a, rate);
      NoExclusion(a', rate);
    }
    BinIsMonotone(layers, e, e', price, swapForY);
    BinIsSound(layers, e, price, swapForY);
    if !feeOnInput {
      NetMonotone(FillBin(layers, e, price, swapForY).value.out, FillBin(layers, e', price, swapForY).value.out, rate);
    }
  }

  lemma NetMonotone(x: nat, y: nat, rate: u128)
    requires rate <= MAX_FEE_RATE
    ensures 0 <= x * rate && 0 <= y * rate
    ensures x <= y ==> x - CeilDiv(x * rate, FEE_PRECISION) <= y - CeilDiv(y * rate, FEE_PRECISION)
  {
    var k := FEE_PRECISION - rate;
    MulNonneg(x, rate);
    MulNonneg(y, rate);
    MulNonneg(x, k);
    MulNonneg(y, k);
    assert x * k + x * rate == x * FEE_PRECISION && y * k + y * rate == y * FEE_PRECISION;
    SplitRounding(x * k, x * rate, x, FEE_PRECISION);
    SplitRounding(y * k, y * rate, y, FEE_PRECISION);
    if x <= y {
      MulMono(x, y, k);
      FloorMono(x * k, y * k, FEE_PRECISION);
    }
  }
}

/** A DLMM bin's fee rate and price, from the pair's own fields. */
module DlmmRates {
  import opened Numbers
  import FixedPow
  import FeeSchedules
  import opened DlmmBins

  /** Volatility of bin `id`, from the stored reference or, once the filter period is over, from the active bin with what
      is kept of the accumulator inside the decay period. */
  function Volatility(pair: Pair, now: int, id: int): int {
    var elapsed := now - pair.lastUpdate;
    var stays := elapsed < pair.filterPeriod;
    var reference := if stays then pair.indexReference else pair.activeId;
    var stored := if stays then pair.volatilityReference
      else if elapsed < pair.decayPeriod then pair.volatilityAccumulator * pair.reductionFactor / 10_000 % Q32 else 0;
    var volatility := stored + 10_000 * (if reference <= id then id - reference else reference - id);
    if volatility < pair.maxVolatility then volatility else pair.maxVolatility
  }

  /** The base fee per 10⁹. */
  ghost function BaseRate(pair: Pair): real {
    (10 * pair.baseFactor * pair.binStep) as real * FixedPow.Pow(10.0, pair.baseFeePower)
  }

  /** `rate` per 10⁹ pays the base fee and `control·crossed²/10¹¹` on top of it. */
  ghost predicate CoversFees(rate: nat, base: real, control: nat, crossed: nat) {
    base <= rate as real && (control * (crossed * crossed)) as real <= (rate as real - base) * 100_000_000_000.0
  }

  /** A rate of at most 10 %: below that the least that pays both fees. */
  ghost predicate LeastRate(rate: nat, base: real, control: nat, crossed: nat) {
    rate <= 100_000_000 && forall x: nat | x < 100_000_000 :: rate <= x <==> CoversFees(x, base, control, crossed)
  }

  /** The fees fit 128 bits on their own and together. */
  ghost predicate RateFits(pair: Pair, crossed: nat) {
    && FixedPow.Pow(10.0, pair.baseFeePower) < Q128 as real && BaseRate(pair) < Q128 as real
    && (pair.variableFeeControl != 0 ==> pair.variableFeeControl * (crossed * crossed) + 99_999_999_999 < Q128)
    && exists rate: nat :: rate < Q128 && CoversFees(rate, BaseRate(pair), pair.variableFeeControl, crossed)
  }

  /** The rate of bin `id`: the least that pays its base fee and its volatility. */
  ghost predicate ChargedRate(pair: Pair, now: int, id: int, rate: nat) {
    var crossed := Volatility(pair, now, id) * pair.binStep;
    0 <= crossed && RateFits(pair, crossed) && LeastRate(rate, BaseRate(pair), pair.variableFeeControl, crossed)
  }

  /** `price` is what bin `id` trades at: its stored price, or its own power of the step where none is stored. */
  ghost predicate TradesAt(pair: Pair, id: int, bin: Bin, price: nat) {
    if bin.price != 0 then price == bin.price
    else FeeSchedules.PriceFromId(id, pair.binStep) == Some(price) && FeeSchedules.NearBinPrice(price, id, pair.binStep)
  }

  lemma {:induction false} TenToIsPower(n: nat)
    ensures TenTo(n) as real == FixedPow.Pow(10.0, n)
  {
    if n != 0 {
      TenToIsPower(n - 1);
    }
  }

  lemma BaseIsExact(pair: Pair)
    ensures BaseFeeRate(pair).Some? <==> FixedPow.Pow(10.0, pair.baseFeePower) < Q128 as real && BaseRate(pair) < Q128 as real
    ensures BaseFeeRate(pair).Some? ==> BaseFeeRate(pair).value as real == BaseRate(pair)
  {
    TenToIsPower(pair.baseFeePower);
    ProductAsReal(pair.baseFactor * pair.binStep * 10, TenTo(pair.baseFeePower));
    MulNonneg(pair.baseFactor, pair.binStep);
    MulNonneg(pair.baseFactor * pair.binStep * 10, TenTo(pair.baseFeePower));
  }

  lemma VariableExists(pair: Pair, volatility: u32)
    ensures VariableFeeRate(pair, volatility).Some?
      <==> (pair.variableFeeControl != 0 ==>
              pair.variableFeeControl * ((volatility * pair.binStep) * (volatility * pair.binStep)) + 99_999_999_999 < Q128)
  {
    var v := volatility * pair.binStep;
    MulNonneg(volatility, pair.binStep);
    MulNonneg(v, v);
    MulNonneg(pair.variableFeeControl, v * v);
  }

  lemma VariableIsLeast(pair: Pair, volatility: u32, x: int)
    requires VariableFeeRate(pair, volatility).Some?
    ensures var crossed := volatility * pair.binStep;
      VariableFeeRate(pair, volatility).value <= x
      <==> 0 <= x && pair.variableFeeControl * (crossed * crossed) <= x * 100_000_000_000
  {
    var crossed := volatility * pair.binStep;
    var scaled := pair.variableFeeControl * (crossed * crossed);
    if pair.variableFeeControl != 0 {
      CeilByAdding(scaled, 100_000_000_000);
      CeilIff(scaled, 100_000_000_000, x);
    }
  }

  lemma RateIsLeast(pair: Pair, volatility: u32)
    requires RateOf(pair, volatility).Some?
    ensures 0 <= volatility * pair.binStep
    ensures LeastRate(RateOf(pair, volatility).value, BaseRate(pair), pair.variableFeeControl, volatility * pair.binStep)
  {
    hide BaseFeeRate, VariableFeeRate, BaseRate;
    MulNonneg(volatility, pair.binStep);
    var base, variable := BaseFeeRate(pair).value, VariableFeeRate(pair, volatility).value;
    var crossed := volatility * pair.binStep;
    BaseIsExact(pair);
    forall x: nat | x < 100_000_000
      ensures RateOf(pair, volatility).value <= x <==> CoversFees(x, BaseRate(pair), pair.variableFeeControl, crossed)
    {
      VariableIsLeast(pair, volatility, x - base);
    }
  }

  lemma SumCovers(pair: Pair, volatility: u32, rate: nat)
    requires BaseFeeRate(pair).Some? && VariableFeeRate(pair, volatility).Some?
    ensures 0 <= volatility * pair.binStep
    ensures BaseFeeRate(pair).value + VariableFeeRate(pair, volatility).value <= rate
      <==> CoversFees(rate, BaseRate(pair), pair.variableFeeControl, volatility * pair.binStep)
  {
    hide BaseFeeRate, VariableFeeRate, BaseRate;
    MulNonneg(volatility, pair.binStep);
    BaseIsExact(pair);
    VariableIsLeast(pair, volatility, rate - BaseFeeRate(pair).value);
  }

  lemma RateExists(pair: Pair, volatility: u32)
    ensures 0 <= volatility * pair.binStep
    ensures RateOf(pair, volatility).Some? <==> RateFits(pair, volatility * pair.binStep)
  {
    hide BaseFeeRate, VariableFeeRate, BaseRate, CoversFees, FixedPow.Pow;
    MulNonneg(volatility, pair.binStep);
    BaseIsExact(pair);
    VariableExists(pair, volatility);
    if BaseFeeRate(pair).Some? && VariableFeeRate(pair, volatility).Some? {
      var crossed, sum := volatility * pair.binStep, BaseFeeRate(pair).value + VariableFeeRate(pair, volatility).value;
      SumCovers(pair, volatility, sum);
      if RateFits(pair, crossed) {
        var rate: nat :| rate < Q128 && CoversFees(rate, BaseRate(pair), pair.variableFeeControl, crossed);
        SumCovers(pair, volatility, rate);
      }
    }
  }

  lemma LeastRateIsUnique(r: nat, q: nat, base: real, control: nat, crossed: nat)
    requires LeastRate(r, base, control, crossed) && LeastRate(q, base, control, crossed)
    ensures r == q
  {
    hide CoversFees;
    assert r < 100_000_000 ==> CoversFees(r, base, control, crossed);
    assert q < 100_000_000 ==> CoversFees(q, base, control, crossed);
  }

  lemma VolatilityIsRaw(pair: Pair, now: int, id: int)
    ensures VolatilityAt(UpdateReferences(pair, now), id) == Volatility(pair, now, id)
  {
  }

  /** A bin's rate is the one its pair's own fields give, and exists exactly when they give one. */
  lemma RateIff(pair: Pair, now: int, id: int, rate: u128)
    ensures RateAt(UpdateReferences(pair, now), id) == Some(rate) <==> ChargedRate(pair, now, id, rate)
  {
    hide RateOf, LeastRate, RateFits, VolatilityAt, Volatility, UpdateReferences;
    var v := VolatilityAt(UpdateReferences(pair, now), id);
    SameParameters(pair, now, v);
    VolatilityIsRaw(pair, now, id);
    RateExists(pair, v);
    if RateOf(pair, v).Some? {
      RateIsLeast(pair, v);
      if ChargedRate(pair, now, id, rate) {
        LeastRateIsUnique(rate, RateOf(pair, v).value, BaseRate(pair), pair.variableFeeControl, v * pair.binStep);
      }
    }
  }
}

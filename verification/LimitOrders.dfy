/** Limit orders resting on a tick, filled at the tick's price (`src/quote/clmm.rs`). */
module LimitOrders {
  import opened Numbers
  import opened WideMath
  import opened ClmmStep

  /** Input consumed including the fee, output net of the fee, order amount filled. */
  datatype Fill = Fill(used: u128, got: u128, filled: u128)

  /** Token-1 per token-0 price of a tick, rounded up when token 1 is paid in. */
  function OrderPrice(tickSqrtPrice: u128, aToB: bool): Option<u128> {
    WideProduct(tickSqrtPrice, tickSqrtPrice);
    ToU128((tickSqrtPrice * tickSqrtPrice + if aToB then 0 else Q64 - 1) / Q64)
  }

  /** Raydium: orders fill at the tick's price up to the input left. */
  function MatchLimitOrders(unfilled: u64, remaining: u128, tickSqrtPrice: u128, feePpm: u32, aToB: bool,
      feeOnInput: bool): Option<Fill>
    requires feePpm < FEE_DENOMINATOR
  {
    if unfilled == 0 || remaining == 0 then Some(Fill(0, 0, 0))
    else
      var price :- OrderPrice(tickSqrtPrice, aToB);
      var amountIn := ForPrice(remaining, feePpm, feeOnInput);
      var matched :- if aToB then MulDivFloor(amountIn, price, Q64) else MulDivFloor(amountIn, Q64, price);
      Matched(unfilled, remaining, amountIn, matched, price, feePpm, aToB, feeOnInput)
  }

  /** Outcome of a match once the price and the matched amount are known. */
  function Matched(unfilled: u64, remaining: u128, amountIn: u128, matched: u128, price: u128, feePpm: u32, aToB: bool,
      feeOnInput: bool): Option<Fill>
    requires feePpm < FEE_DENOMINATOR && amountIn <= remaining
  {
    if matched > unfilled then
      var fullIn :- if aToB then MulDivCeil(unfilled, Q64, price) else MulDivCeil(unfilled, price, Q64);
      var fee :- if feeOnInput then MulDivCeil(fullIn, feePpm, FEE_DENOMINATOR - feePpm) else Some(0);
      Paid(fullIn, fee, unfilled, feePpm, feeOnInput)
    else
      Paid(amountIn, remaining - amountIn, matched, feePpm, feeOnInput)
  }

  function Paid(amountIn: u128, fee: nat, amountOut: u128, feePpm: u32, feeOnInput: bool): Option<Fill>
    requires feePpm < FEE_DENOMINATOR
  {
    if feeOnInput then
      var used :- ToU128(amountIn + fee);
      Some(Fill(used, amountOut, amountOut))
    else Some(Fill(amountIn, LessFee(amountOut, feePpm), amountOut))
  }

  /** Fusion: the input that buys every order token, rounded up. */
  function FullFusionInput(unfilled: u64, tickSqrtPrice: u128, aToB: bool): Option<u128> {
    var square := tickSqrtPrice * tickSqrtPrice;
    if aToB then
      if tickSqrtPrice == 0 then None
      else MulPos(tickSqrtPrice, tickSqrtPrice); ToU128(CeilDiv(unfilled * Q128, square))
    else
      MulNonneg(tickSqrtPrice, tickSqrtPrice);
      MulNonneg(unfilled, square / Q64);
      ToU128(CeilDiv(unfilled * (square / Q64), Q64))
  }

  /** Fusion: orders fill with the fee on the input; the tick is crossed whatever is left of them. */
  function FillFusionOrders(unfilled: u64, remaining: u128, tickSqrtPrice: u128, feePpm: u32, aToB: bool): Option<Fill>
    requires feePpm < FEE_DENOMINATOR
  {
    if unfilled == 0 then Some(Fill(0, 0, 0))
    else
      var fullIn :- FullFusionInput(unfilled, tickSqrtPrice, aToB);
      BuyOrders(unfilled, fullIn, remaining, feePpm)
  }

  /** Buy orders whose whole price is `fullIn`, all of them or a share. */
  function BuyOrders(unfilled: u64, fullIn: u128, remaining: u128, feePpm: u32): Option<Fill>
    requires feePpm < FEE_DENOMINATOR
  {
    var fee :- MulDivCeil(fullIn, feePpm, FEE_DENOMINATOR - feePpm);
    if remaining >= fullIn + fee then Some(Fill(fullIn + fee, unfilled, unfilled))
    else
      var got :- MulDivFloor(unfilled, LessFee(remaining, feePpm), fullIn);
      Some(Fill(remaining, got, got))
  }

  /** Uses at most `remaining`, fills at most what rests, and spends everything if orders are left. */
  predicate SoundFill(unfilled: nat, remaining: nat, f: Fill) {
    && f.used <= remaining
    && f.got <= f.filled <= unfilled
    && (f.filled == unfilled || f.used == remaining)
  }

  /** With `r <= r'`: the same fill, or the smaller input is used up and gets no more. */
  predicate MonotoneFill(r: nat, f: Fill, f': Fill) {
    f == f' || (f.used == r && f.got <= f'.got)
  }

  // ── Raydium ─────────────────────────────────────────────────────────────

  /** When more than the orders would match, paying for exactly the orders costs no more. */
  lemma FullFillIsCheaper(unfilled: u64, price: u128, amountIn: u128, aToB: bool)
    requires 0 < price
    requires unfilled < (if aToB then amountIn * price / Q64 else amountIn * Q64 / price)
    ensures (if aToB then CeilDiv(unfilled * Q64, price) else CeilDiv(unfilled * price, Q64)) <= amountIn
  {
    if aToB {
      FloorIff(amountIn * price, Q64, unfilled);
      CeilIff(unfilled * Q64, price, amountIn);
    } else {
      FloorIff(amountIn * Q64, price, unfilled);
      CeilIff(unfilled * price, Q64, amountIn);
    }
  }

  lemma {:induction false} MatchIsSound(unfilled: u64, remaining: u128, p: u128, feePpm: u32, aToB: bool, feeOnInput: bool)
    requires feePpm < FEE_DENOMINATOR
    requires MatchLimitOrders(unfilled, remaining, p, feePpm, aToB, feeOnInput).Some?
    ensures SoundFill(unfilled, remaining, MatchLimitOrders(unfilled, remaining, p, feePpm, aToB, feeOnInput).value)
  {
    if unfilled != 0 && remaining != 0 {
      var price := OrderPrice(p, aToB).value;
      var amountIn := ForPrice(remaining, feePpm, feeOnInput);
      var matched := if aToB then MulDivFloor(amountIn, price, Q64) else MulDivFloor(amountIn, Q64, price);
      if matched.value > unfilled && price > 0 {
        FullFillIsCheaper(unfilled, price, amountIn, aToB);
        var fullIn := if aToB then CeilDiv(unfilled * Q64, price) else CeilDiv(unfilled * price, Q64);
        if feeOnInput {
          FeeFits(fullIn, remaining, feePpm);
        }
      }
    }
  }

  lemma MatchIsMonotone(unfilled: u64, r: u128, r': u128, p: u128, feePpm: u32, aToB: bool, feeOnInput: bool)
    requires feePpm < FEE_DENOMINATOR && r <= r'
    requires MatchLimitOrders(unfilled, r, p, feePpm, aToB, feeOnInput).Some?
    requires MatchLimitOrders(unfilled, r', p, feePpm, aToB, feeOnInput).Some?
    ensures MonotoneFill(r, MatchLimitOrders(unfilled, r, p, feePpm, aToB, feeOnInput).value,
                         MatchLimitOrders(unfilled, r', p, feePpm, aToB, feeOnInput).value)
  {
    if unfilled != 0 && r != 0 {
      var price := OrderPrice(p, aToB).value;
      ForPriceMonotone(r, r', feePpm, feeOnInput);
      var a, a' := ForPrice(r, feePpm, feeOnInput), ForPrice(r', feePpm, feeOnInput);
      MatchedMonotone(a, a', price, aToB);
      var m, m' := MatchedAmount(a, price, aToB), MatchedAmount(a', price, aToB);
      MatchedOrder(unfilled, r, r', a, a', m, m', price, feePpm, aToB, feeOnInput);
    }
  }

  lemma MatchedOrder(unfilled: u64, r: u128, r': u128, a: u128, a': u128, m: u128, m': u128, price: u128, feePpm: u32,
      aToB: bool, feeOnInput: bool)
    requires feePpm < FEE_DENOMINATOR && m <= m' && a <= r && a' <= r'
    requires !feeOnInput ==> a == r
    requires Matched(unfilled, r, a, m, price, feePpm, aToB, feeOnInput).Some?
    requires Matched(unfilled, r', a', m', price, feePpm, aToB, feeOnInput).Some?
    ensures MonotoneFill(r, Matched(unfilled, r, a, m, price, feePpm, aToB, feeOnInput).value,
                         Matched(unfilled, r', a', m', price, feePpm, aToB, feeOnInput).value)
  {
    if m <= unfilled {
      LessFeeMonotone(m, Min(m', unfilled), feePpm);
    }
  }

  function MatchedAmount(amountIn: nat, price: nat, aToB: bool): nat {
    if aToB then amountIn * price / Q64 else if price == 0 then 0 else amountIn * Q64 / price
  }

  lemma MatchedMonotone(a: nat, a': nat, price: nat, aToB: bool)
    requires a <= a'
    ensures MatchedAmount(a, price, aToB) <= MatchedAmount(a', price, aToB)
  {
    var m := MatchedAmount(a, price, aToB);
    if aToB {
      MulMono(a, a', price);
    } else if price > 0 {
      FloorIff(a * Q64, price, m);
      FloorIff(a' * Q64, price, m);
    }
  }

  // ── Fusion ──────────────────────────────────────────────────────────────

  /** An input that cannot pay for every order leaves, after its fee, less than their price. */
  lemma ShortInput(fullIn: u128, remaining: u128, feePpm: u32)
    requires feePpm < FEE_DENOMINATOR
    requires remaining < fullIn + CeilDiv(fullIn * feePpm, FEE_DENOMINATOR - feePpm)
    ensures LessFee(remaining, feePpm) < fullIn
  {
    if fullIn <= LessFee(remaining, feePpm) {
      FeeFits(fullIn, remaining, feePpm);
    }
  }

  lemma ShareFits(whole: nat, part: nat, full: nat)
    requires part < full
    ensures whole * part / full <= whole
  {
  }

  lemma ShareMonotone(whole: nat, a: nat, b: nat, full: nat)
    requires a <= b && 0 < full
    ensures whole * a / full <= whole * b / full
  {
    MulMono(a, b, whole);
    FloorIff(whole * a, full, whole * a / full);
    FloorIff(whole * b, full, whole * a / full);
  }

  lemma BuyIsSound(unfilled: u64, fullIn: u128, remaining: u128, feePpm: u32)
    requires feePpm < FEE_DENOMINATOR && BuyOrders(unfilled, fullIn, remaining, feePpm).Some?
    ensures SoundFill(unfilled, remaining, BuyOrders(unfilled, fullIn, remaining, feePpm).value)
  {
    var fee := CeilDiv(fullIn * feePpm, FEE_DENOMINATOR - feePpm);
    if remaining < fullIn + fee {
      ShortInput(fullIn, remaining, feePpm);
      ShareFits(unfilled, LessFee(remaining, feePpm), fullIn);
    }
  }

  lemma BuyIsMonotone(unfilled: u64, fullIn: u128, r: u128, r': u128, feePpm: u32)
    requires feePpm < FEE_DENOMINATOR && r <= r'
    requires BuyOrders(unfilled, fullIn, r, feePpm).Some? && BuyOrders(unfilled, fullIn, r', feePpm).Some?
    ensures MonotoneFill(r, BuyOrders(unfilled, fullIn, r, feePpm).value, BuyOrders(unfilled, fullIn, r', feePpm).value)
  {
    hide LessFee, CeilDiv, WideMul;
    var full := fullIn + MulDivCeil(fullIn, feePpm, FEE_DENOMINATOR - feePpm).value;
    if r < full {
      if r' < full {
        LessFeeMonotone(r, r', feePpm);
        ShareMonotone(unfilled, LessFee(r, feePpm), LessFee(r', feePpm), fullIn);
      } else {
        BuyIsSound(unfilled, fullIn, r, feePpm);
      }
    }
  }

  lemma FusionIsSound(unfilled: u64, remaining: u128, p: u128, feePpm: u32, aToB: bool)
    requires feePpm < FEE_DENOMINATOR
    requires FillFusionOrders(unfilled, remaining, p, feePpm, aToB).Some?
    ensures SoundFill(unfilled, remaining, FillFusionOrders(unfilled, remaining, p, feePpm, aToB).value)
  {
    if unfilled != 0 {
      BuyIsSound(unfilled, FullFusionInput(unfilled, p, aToB).value, remaining, feePpm);
    }
  }

  lemma FusionIsMonotone(unfilled: u64, r: u128, r': u128, p: u128, feePpm: u32, aToB: bool)
    requires feePpm < FEE_DENOMINATOR && r <= r'
    requires FillFusionOrders(unfilled, r, p, feePpm, aToB).Some?
    requires FillFusionOrders(unfilled, r', p, feePpm, aToB).Some?
    ensures MonotoneFill(r, FillFusionOrders(unfilled, r, p, feePpm, aToB).value,
                         FillFusionOrders(unfilled, r', p, feePpm, aToB).value)
  {
    if unfilled != 0 {
      BuyIsMonotone(unfilled, FullFusionInput(unfilled, p, aToB).value, r, r', feePpm);
    }
  }

  // ── what a fill pays ────────────────────────────────────────────────────

  /** `net` pays for `filled` at `price` or worse for the taker. */
  predicate PaidFor(net: nat, filled: nat, price: nat, aToB: bool) {
    if aToB then filled * Q64 <= net * price else filled * price <= net * Q64
  }

  /** The fee is at least its rate: of the whole input, or of the whole order amount filled. */
  predicate FeeCharged(f: Fill, net: nat, feePpm: u32, feeOnInput: bool)
    requires feePpm < FEE_DENOMINATOR
  {
    net <= f.used
    && (if feeOnInput then net * FEE_DENOMINATOR <= f.used * (FEE_DENOMINATOR - feePpm)
        else net == f.used && f.got * FEE_DENOMINATOR <= f.filled * (FEE_DENOMINATOR - feePpm))
  }

  /** The order price is the tick's squared price rounded against the taker, by less than one unit. */
  lemma OrderPriceBounds(p: u128, aToB: bool)
    requires OrderPrice(p, aToB).Some?
    ensures var price := OrderPrice(p, aToB).value;
      if aToB then price * Q64 <= p * p < (price + 1) * Q64 else (price - 1) * Q64 < p * p <= price * Q64
  {
    MulNonneg(p, p);
    DivBounds(p * p + if aToB then 0 else Q64 - 1, Q64);
  }

  lemma MatchedPays(amountIn: nat, price: nat, aToB: bool)
    ensures PaidFor(amountIn, MatchedAmount(amountIn, price, aToB), price, aToB)
  {
  }

  lemma FullPricePays(unfilled: u64, price: u128, aToB: bool)
    requires 0 < price
    ensures PaidFor(if aToB then CeilDiv(unfilled * Q64, price) else CeilDiv(unfilled * price, Q64), unfilled, price, aToB)
  {
  }

  lemma RateOfInput(remaining: u128, feePpm: u32)
    requires feePpm < FEE_DENOMINATOR
    ensures ForPrice(remaining, feePpm, true) * FEE_DENOMINATOR <= remaining * (FEE_DENOMINATOR - feePpm)
  {
  }

  lemma RateOfOutput(x: nat, feePpm: u32)
    requires feePpm < FEE_DENOMINATOR
    ensures LessFee(x, feePpm) * FEE_DENOMINATOR <= x * (FEE_DENOMINATOR - feePpm)
  {
  }

  /** What a match makes of its price and of the amount it matches. */
  lemma MatchShape(unfilled: u64, remaining: u128, p: u128, feePpm: u32, aToB: bool, feeOnInput: bool)
    requires feePpm < FEE_DENOMINATOR && unfilled != 0 && remaining != 0
    requires MatchLimitOrders(unfilled, remaining, p, feePpm, aToB, feeOnInput).Some?
    ensures OrderPrice(p, aToB).Some?
    ensures var price, amountIn := OrderPrice(p, aToB).value, ForPrice(remaining, feePpm, feeOnInput);
      var matched := MatchedAmount(amountIn, price, aToB);
      && matched < Q128 && (price == 0 ==> aToB)
      && MatchLimitOrders(unfilled, remaining, p, feePpm, aToB, feeOnInput)
         == Matched(unfilled, remaining, amountIn, matched, price, feePpm, aToB, feeOnInput)
  {
    hide OrderPrice, ForPrice, Matched, MulDivFloor;
    MulNonneg(ForPrice(remaining, feePpm, feeOnInput), OrderPrice(p, aToB).value);
  }

  /** Raydium orders never fill better than the tick's price, and the fee is charged on everything. */
  lemma MatchIsFair(unfilled: u64, remaining: u128, p: u128, feePpm: u32, aToB: bool, feeOnInput: bool) returns (net: nat)
    requires feePpm < FEE_DENOMINATOR
    requires MatchLimitOrders(unfilled, remaining, p, feePpm, aToB, feeOnInput).Some?
    ensures var f := MatchLimitOrders(unfilled, remaining, p, feePpm, aToB, feeOnInput).value;
      && FeeCharged(f, net, feePpm, feeOnInput)
      && (f.filled != 0 ==> OrderPrice(p, aToB).Some? && PaidFor(net, f.filled, OrderPrice(p, aToB).value, aToB))
  {
    hide OrderPrice, PaidFor, ForPrice, LessFee, Matched, MatchedAmount, MulDivFloor;
    net := 0;
    if unfilled != 0 && remaining != 0 {
      MatchShape(unfilled, remaining, p, feePpm, aToB, feeOnInput);
      var price, amountIn := OrderPrice(p, aToB).value, ForPrice(remaining, feePpm, feeOnInput);
      net := MatchedIsFair(unfilled, remaining, MatchedAmount(amountIn, price, aToB), price, feePpm, aToB, feeOnInput);
    }
  }

  lemma MatchedIsFair(unfilled: u64, remaining: u128, matched: u128, price: u128, feePpm: u32, aToB: bool, feeOnInput: bool)
      returns (net: nat)
    requires feePpm < FEE_DENOMINATOR && matched == MatchedAmount(ForPrice(remaining, feePpm, feeOnInput), price, aToB)
    requires Matched(unfilled, remaining, ForPrice(remaining, feePpm, feeOnInput), matched, price, feePpm, aToB, feeOnInput).Some?
    requires price == 0 ==> aToB
    ensures var f := Matched(unfilled, remaining, ForPrice(remaining, feePpm, feeOnInput), matched, price, feePpm, aToB,
        feeOnInput).value;
      FeeCharged(f, net, feePpm, feeOnInput) && PaidFor(net, f.filled, price, aToB)
  {
    hide PaidFor, ForPrice, LessFee, MatchedAmount, MulDivCeil;
    var amountIn := ForPrice(remaining, feePpm, feeOnInput);
    net := amountIn;
    MatchedPays(amountIn, price, aToB);
    if feeOnInput { RateOfInput(remaining, feePpm); } else { NoInputFee(remaining, feePpm); }
    RateOfOutput(Min(matched, unfilled), feePpm);
    if matched > unfilled {
      PositivePrice(amountIn, price, aToB);
      FullPricePays(unfilled, price, aToB);
      MatchedInFull(unfilled, price, amountIn, aToB);
      net := if aToB then CeilDiv(unfilled * Q64, price) else CeilDiv(unfilled * price, Q64);
      if feeOnInput { FeeFits(net, remaining, feePpm); }
    }
  }

  lemma MatchedInFull(unfilled: u64, price: u128, amountIn: u128, aToB: bool)
    requires 0 < price && unfilled < MatchedAmount(amountIn, price, aToB)
    ensures (if aToB then CeilDiv(unfilled * Q64, price) else CeilDiv(unfilled * price, Q64)) <= amountIn
  {
    FullFillIsCheaper(unfilled, price, amountIn, aToB);
  }

  lemma NoInputFee(remaining: u128, feePpm: u32)
    requires feePpm < FEE_DENOMINATOR
    ensures ForPrice(remaining, feePpm, false) == remaining
  {
  }

  lemma PositivePrice(amountIn: nat, price: nat, aToB: bool)
    requires 0 < MatchedAmount(amountIn, price, aToB)
    ensures 0 < price
  {
  }

  /** A share of orders that cost `fullIn` in all costs its share. */
  lemma SharePays(unfilled: nat, net: nat, fullIn: nat, unit: nat, per: nat)
    requires 0 < fullIn && unfilled * unit <= fullIn * per
    ensures 0 <= unfilled * net && unfilled * net / fullIn * unit <= net * per
  {
  }

  /** Orders that cost at least `unit/per` each in all cost that much each in part, and the fee is charged on the rest. */
  lemma BuyIsFair(unfilled: u64, fullIn: u128, remaining: u128, feePpm: u32, unit: nat, per: nat) returns (net: nat)
    requires feePpm < FEE_DENOMINATOR && BuyOrders(unfilled, fullIn, remaining, feePpm).Some?
    requires unfilled * unit <= fullIn * per
    ensures var f := BuyOrders(unfilled, fullIn, remaining, feePpm).value;
      FeeCharged(f, net, feePpm, true) && f.filled * unit <= net * per
  {
    hide LessFee, WideMul;
    net := fullIn;
    FusionFee(fullIn, feePpm);
    if remaining < fullIn + CeilDiv(fullIn * feePpm, FEE_DENOMINATOR - feePpm) {
      net := LessFee(remaining, feePpm);
      RateOfOutput(remaining, feePpm);
      SharePays(unfilled, net, fullIn, unit, per);
    }
  }

  /** Fusion orders never fill better than the tick's squared price when token 0 is paid in. When token 1 is, they fill
      at that price rounded down to Q64.64, and better than the price itself by less than one unit of token 1. */
  lemma FusionIsFair(unfilled: u64, remaining: u128, p: u128, feePpm: u32, aToB: bool) returns (net: nat)
    requires feePpm < FEE_DENOMINATOR
    requires FillFusionOrders(unfilled, remaining, p, feePpm, aToB).Some?
    ensures var f := FillFusionOrders(unfilled, remaining, p, feePpm, aToB).value;
      && FeeCharged(f, net, feePpm, true)
      && 0 <= p * p
      && (aToB ==> f.filled * Q128 <= net * (p * p))
      && (!aToB ==> f.filled * (p * p / Q64) <= net * Q64 && f.filled * (p * p) < (net + 1) * Q128)
  {
    hide FullFusionInput, BuyOrders;
    net := 0;
    MulNonneg(p, p);
    FusionIsSound(unfilled, remaining, p, feePpm, aToB);
    if unfilled != 0 {
      var fullIn := FullFusionInput(unfilled, p, aToB).value;
      FullFusionPays(unfilled, p, aToB);
      net := BuyIsFair(unfilled, fullIn, remaining, feePpm, if aToB then Q128 else p * p / Q64, if aToB then p * p else Q64);
      if !aToB {
        LessThanOneUnit(BuyOrders(unfilled, fullIn, remaining, feePpm).value.filled, p * p, net);
      }
    }
  }

  /** Rounding a price down by less than one unit of 2⁻⁶⁴ saves less than one unit on up to 2⁶⁴ orders. */
  lemma LessThanOneUnit(filled: nat, square: nat, net: nat)
    requires filled < Q64 && filled * (square / Q64) <= net * Q64
    ensures filled * square < (net + 1) * Q128
  {
    var price, rest := square / Q64, square % Q64;
    SplitSquare(filled, price, rest);
    assert square == price * Q64 + rest;
    MulMono(filled * price, net * Q64, Q64);
    ProductBound(filled, rest, Q64 - 1);
    assert net * Q64 * Q64 == net * Q128;
  }

  lemma SplitSquare(x: int, price: int, rest: int)
    ensures x * (price * Q64 + rest) == x * price * Q64 + x * rest
  {
    assert x * (price * Q64) == x * price * Q64;
  }

  /** What rounding the full input up adds, in units of 2⁻⁶⁴. */
  function RoundingUp(unfilled: u64, p: u128): nat {
    MulNonneg(p, p);
    MulNonneg(unfilled, p * p / Q64);
    (Q64 - unfilled * (p * p / Q64) % Q64) % Q64
  }

  /** With token 1 paid in, filling every order beats the tick's squared price exactly when what rounding the input up
      adds is less than what rounding the price down saves. */
  lemma FullFillBeatsPrice(unfilled: u64, p: u128)
    requires FullFusionInput(unfilled, p, false).Some?
    ensures FullFusionInput(unfilled, p, false).value * Q128 < unfilled * (p * p)
            <==> RoundingUp(unfilled, p) * Q64 < unfilled * (p * p % Q64)
  {
    MulNonneg(p, p);
    var price, rest := p * p / Q64, p * p % Q64;
    MulNonneg(unfilled, price);
    var fullIn := FullFusionInput(unfilled, p, false).value;
    assert p * p == price * Q64 + rest;
    SplitSquare(unfilled, price, rest);
    CeilGap(unfilled * price, fullIn);
    assert fullIn * Q128 == fullIn * Q64 * Q64;
    assert (unfilled * price + RoundingUp(unfilled, p)) * Q64 == unfilled * price * Q64 + RoundingUp(unfilled, p) * Q64;
  }

  lemma CeilGap(a: nat, q: nat)
    requires q == CeilDiv(a, Q64)
    ensures q * Q64 == a + (Q64 - a % Q64) % Q64
  {
    assert a == a / Q64 * Q64 + a % Q64;
  }

  /** What the fee leaves of a fill's input pays for its orders at the squared price. */
  predicate PaysSquare(f: Fill, p: u128, feePpm: u32)
    requires feePpm < FEE_DENOMINATOR
  {
    f.filled * (p * p) <= LessFee(f.used, feePpm) * Q128
  }

  /** With token 1 paid in, no fill of a tick's orders, full or partial, at any input and fee, beats its squared price
      exactly when the full one does not. */
  lemma NoFillBeatsPrice(unfilled: u64, p: u128)
    requires FullFusionInput(unfilled, p, false).Some?
    ensures (forall remaining: u128, feePpm: u32
               | feePpm < FEE_DENOMINATOR && FillFusionOrders(unfilled, remaining, p, feePpm, false).Some? ::
               PaysSquare(FillFusionOrders(unfilled, remaining, p, feePpm, false).value, p, feePpm))
            <==> unfilled * (p * p % Q64) <= RoundingUp(unfilled, p) * Q64
  {
    hide FullFusionInput, RoundingUp, PaysSquare, BuyOrders;
    FullFillBeatsPrice(unfilled, p);
    var fullIn := FullFusionInput(unfilled, p, false).value;
    if unfilled * (p * p % Q64) <= RoundingUp(unfilled, p) * Q64 {
      forall remaining: u128, feePpm: u32
        | feePpm < FEE_DENOMINATOR && FillFusionOrders(unfilled, remaining, p, feePpm, false).Some?
        ensures PaysSquare(FillFusionOrders(unfilled, remaining, p, feePpm, false).value, p, feePpm)
      {
        FairFillPaysSquare(unfilled, p, remaining, feePpm);
      }
    } else {
      FullFillWithoutFee(unfilled, p);
      assert !PaysSquare(FillFusionOrders(unfilled, fullIn, p, 0, false).value, p, 0);
    }
  }

  lemma FairFillPaysSquare(unfilled: u64, p: u128, remaining: u128, feePpm: u32)
    requires feePpm < FEE_DENOMINATOR && FillFusionOrders(unfilled, remaining, p, feePpm, false).Some?
    requires FullFusionInput(unfilled, p, false).Some?
    requires unfilled * (p * p) <= FullFusionInput(unfilled, p, false).value * Q128
    ensures PaysSquare(FillFusionOrders(unfilled, remaining, p, feePpm, false).value, p, feePpm)
  {
    hide FullFusionInput, BuyOrders, LessFee;
    MulNonneg(p, p);
    var f := FillFusionOrders(unfilled, remaining, p, feePpm, false).value;
    if unfilled == 0 {
      MulNonneg(LessFee(0, feePpm), Q128);
    } else {
      var net := BuyIsFair(unfilled, FullFusionInput(unfilled, p, false).value, remaining, feePpm, p * p, Q128);
      NetIsLessFee(f.used, net, feePpm);
      MulMono(net, LessFee(f.used, feePpm), Q128);
    }
  }

  lemma NetIsLessFee(used: u128, net: nat, feePpm: u32)
    requires feePpm < FEE_DENOMINATOR && net * FEE_DENOMINATOR <= used * (FEE_DENOMINATOR - feePpm)
    ensures net <= LessFee(used, feePpm)
  {
    FloorIff(used * (FEE_DENOMINATOR - feePpm), FEE_DENOMINATOR, net);
  }

  /** The exact full input, free of a fee, fills everything; it beats the price when the full fill does. */
  lemma FullFillWithoutFee(unfilled: u64, p: u128)
    requires FullFusionInput(unfilled, p, false).Some?
    requires FullFusionInput(unfilled, p, false).value * Q128 < unfilled * (p * p)
    ensures FillFusionOrders(unfilled, FullFusionInput(unfilled, p, false).value, p, 0, false).Some?
    ensures !PaysSquare(FillFusionOrders(unfilled, FullFusionInput(unfilled, p, false).value, p, 0, false).value, p, 0)
  {
    hide FullFusionInput;
    var fullIn := FullFusionInput(unfilled, p, false).value;
    FreeFill(unfilled, p, fullIn);
    assert LessFee(fullIn, 0) == fullIn;
  }

  lemma FreeFill(unfilled: u64, p: u128, fullIn: u128)
    requires 0 < unfilled && FullFusionInput(unfilled, p, false) == Some(fullIn)
    ensures FillFusionOrders(unfilled, fullIn, p, 0, false) == Some(Fill(fullIn, unfilled, unfilled))
  {
    hide FullFusionInput;
    assert fullIn * 0 == 0;
  }

  /** It happens at the price of tick 1 in Orca's table, with no fee to hide it. */
  lemma FullFillExample(unfilled: u64, p: u128)
    requires unfilled == 853_383_793_200_001 && p == 79_232_123_823_359_799_118_286_999_567 / Q32
    ensures FullFusionInput(unfilled, p, false) == Some(853_469_131_579_321)
    ensures 853_469_131_579_321 * Q128 < unfilled * (p * p)
    ensures FillFusionOrders(unfilled, 853_469_131_579_321, p, 0, false) == Some(Fill(853_469_131_579_321, unfilled, unfilled))
  {
    hide FullFusionInput;
    ExampleInput(unfilled, p);
    FreeFill(unfilled, p, 853_469_131_579_321);
  }

  lemma ExampleInput(unfilled: u64, p: u128)
    requires unfilled == 853_383_793_200_001 && p == 79_232_123_823_359_799_118_286_999_567 / Q32
    ensures p * p == 340_316_395_157_630_557_276_665_791_164_812_022_500
      && FullFusionInput(unfilled, p, false) == Some(853_469_131_579_321)
  {
    assert p == 18_447_666_387_855_959_850;
    assert p * p / Q64 == 18_448_588_748_116_922_569;
  }

  lemma FullFusionPays(unfilled: u64, p: u128, aToB: bool)
    requires FullFusionInput(unfilled, p, aToB).Some?
    ensures var fullIn := FullFusionInput(unfilled, p, aToB).value;
      0 <= p * p && (if aToB then unfilled * Q128 <= fullIn * (p * p) else unfilled * (p * p / Q64) <= fullIn * Q64)
  {
    MulNonneg(p, p);
    if aToB {
      MulPos(p, p);
      CeilIff(unfilled * Q128, p * p, CeilDiv(unfilled * Q128, p * p));
    } else {
      MulNonneg(unfilled, p * p / Q64);
      CeilIff(unfilled * (p * p / Q64), Q64, CeilDiv(unfilled * (p * p / Q64), Q64));
    }
  }

  lemma FusionFee(fullIn: u128, feePpm: u32)
    requires feePpm < FEE_DENOMINATOR
    ensures 0 <= fullIn * feePpm
    ensures var fee := CeilDiv(fullIn * feePpm, FEE_DENOMINATOR - feePpm);
      fullIn * FEE_DENOMINATOR <= (fullIn + fee) * (FEE_DENOMINATOR - feePpm)
  {
    var k := FEE_DENOMINATOR - feePpm;
    MulNonneg(fullIn, feePpm);
    var fee := CeilDiv(fullIn * feePpm, k);
    CeilIff(fullIn * feePpm, k, fee);
    Distribute(fullIn, fee, k);
    Distribute(feePpm, k, fullIn);
    assert fullIn * feePpm + fullIn * k == fullIn * FEE_DENOMINATOR;
  }

  // ── the fills, exactly ──────────────────────────────────────────────────

  /** `x` pays for `q` orders at `price`, and its fee where that is on the input. */
  ghost predicate AffordsOrders(x: int, q: nat, price: nat, feePpm: u32, aToB: bool, feeOnInput: bool) {
    exists c: nat :: PaidFor(c, q, price, aToB) && Affords(x, c, feePpm, feeOnInput)
  }

  /** The squared price in Q64.64, rounded down when token 0 is paid in and up when token 1 is. */
  predicate IsOrderPrice(price: nat, p: nat, aToB: bool) {
    if aToB then price * Q64 <= p * p < (price + 1) * Q64 else (price - 1) * Q64 < p * p <= price * Q64
  }

  /** A fill takes as many orders as its input affords; it keeps input only if that would have bought one more than rest,
      and then it uses the least that pays for all. */
  ghost predicate ExactFill(unfilled: nat, remaining: nat, price: nat, feePpm: u32, aToB: bool, feeOnInput: bool, f: Fill)
    requires feePpm < FEE_DENOMINATOR
  {
    && f.filled <= unfilled
    && (forall q: nat | q <= unfilled :: q <= f.filled <==> AffordsOrders(remaining, q, price, feePpm, aToB, feeOnInput))
    && f.got == (if feeOnInput then f.filled else f.filled * (FEE_DENOMINATOR - feePpm) / FEE_DENOMINATOR)
    && if AffordsOrders(remaining, unfilled + 1, price, feePpm, aToB, feeOnInput) then
         forall u: nat :: f.used <= u <==> AffordsOrders(u, unfilled, price, feePpm, aToB, feeOnInput)
       else f.used == remaining
  }

  /** A Raydium or Orca fill of what rests on a tick at sqrt price `p`. */
  ghost predicate ExactMatch(unfilled: nat, remaining: nat, p: nat, feePpm: u32, aToB: bool, feeOnInput: bool, f: Fill)
    requires feePpm < FEE_DENOMINATOR
  {
    if unfilled == 0 || remaining == 0 then f == Fill(0, 0, 0)
    else exists price: nat :: IsOrderPrice(price, p, aToB) && ExactFill(unfilled, remaining, price, feePpm, aToB, feeOnInput, f)
  }

  /** What the fee leaves of `x`. */
  function NetInput(x: nat, feePpm: u32, feeOnInput: bool): nat
    requires feePpm < FEE_DENOMINATOR
  {
    MulNonneg(x, FEE_DENOMINATOR - feePpm);
    if feeOnInput then x * (FEE_DENOMINATOR - feePpm) / FEE_DENOMINATOR else x
  }

  lemma AffordsNet(x: nat, cost: nat, feePpm: u32, feeOnInput: bool)
    requires feePpm < FEE_DENOMINATOR
    ensures Affords(x, cost, feePpm, feeOnInput) <==> cost <= NetInput(x, feePpm, feeOnInput)
  {
    FloorIff(x * (FEE_DENOMINATOR - feePpm), FEE_DENOMINATOR, cost);
  }

  lemma PaidForMore(c: nat, c': nat, q: nat, price: nat, aToB: bool)
    requires c <= c' && PaidFor(c, q, price, aToB)
    ensures PaidFor(c', q, price, aToB)
  {
    MulMono(c, c', price);
    MulMono(c, c', Q64);
  }

  lemma AffordsOrdersIff(x: nat, q: nat, price: nat, feePpm: u32, aToB: bool, feeOnInput: bool)
    requires feePpm < FEE_DENOMINATOR
    ensures AffordsOrders(x, q, price, feePpm, aToB, feeOnInput)
      <==> PaidFor(NetInput(x, feePpm, feeOnInput), q, price, aToB)
  {
    hide PaidFor, Affords, NetInput;
    var net := NetInput(x, feePpm, feeOnInput);
    AffordsNet(x, net, feePpm, feeOnInput);
    if AffordsOrders(x, q, price, feePpm, aToB, feeOnInput) {
      var c: nat :| PaidFor(c, q, price, aToB) && Affords(x, c, feePpm, feeOnInput);
      AffordsNet(x, c, feePpm, feeOnInput);
      PaidForMore(c, net, q, price, aToB);
    }
  }

  lemma MatchedIff(net: nat, price: nat, aToB: bool, q: nat)
    requires price == 0 ==> aToB
    ensures q <= MatchedAmount(net, price, aToB) <==> PaidFor(net, q, price, aToB)
  {
    MulNonneg(net, price);
    MulNonneg(net, Q64);
    if aToB { FloorIff(net * price, Q64, q); } else { FloorIff(net * Q64, price, q); }
  }

  /** The price of all the orders, rounded up. */
  lemma FullPriceIff(unfilled: nat, price: nat, aToB: bool, c: nat)
    requires 0 < price
    ensures 0 <= unfilled * price
    ensures (if aToB then CeilDiv(unfilled * Q64, price) else CeilDiv(unfilled * price, Q64)) <= c
      <==> PaidFor(c, unfilled, price, aToB)
  {
    MulNonneg(unfilled, price);
    if aToB { CeilIff(unfilled * Q64, price, c); } else { CeilIff(unfilled * price, Q64, c); }
  }

  /** The least input that pays for all the orders, the fee on top. */
  lemma FullInputIff(unfilled: nat, price: nat, feePpm: u32, aToB: bool, feeOnInput: bool, fullIn: nat, u: nat)
    requires feePpm < FEE_DENOMINATOR && 0 < price && 0 <= unfilled * price
    requires fullIn == if aToB then CeilDiv(unfilled * Q64, price) else CeilDiv(unfilled * price, Q64)
    ensures 0 <= fullIn * feePpm
    ensures fullIn + (if feeOnInput then CeilDiv(fullIn * feePpm, FEE_DENOMINATOR - feePpm) else 0) <= u
      <==> AffordsOrders(u, unfilled, price, feePpm, aToB, feeOnInput)
  {
    hide PaidFor, CeilDiv, NetInput;
    LeastTotal(fullIn, feePpm, u);
    AffordsNet(u, fullIn, feePpm, feeOnInput);
    AffordsOrdersIff(u, unfilled, price, feePpm, aToB, feeOnInput);
    FullPriceIff(unfilled, price, aToB, NetInput(u, feePpm, feeOnInput));
  }

  lemma MatchedIsExact(unfilled: u64, remaining: u128, matched: u128, price: u128, feePpm: u32, aToB: bool, feeOnInput: bool)
    requires feePpm < FEE_DENOMINATOR && matched == MatchedAmount(ForPrice(remaining, feePpm, feeOnInput), price, aToB)
    requires Matched(unfilled, remaining, ForPrice(remaining, feePpm, feeOnInput), matched, price, feePpm, aToB, feeOnInput).Some?
    requires price == 0 ==> aToB
    ensures ExactFill(unfilled, remaining, price, feePpm, aToB, feeOnInput,
        Matched(unfilled, remaining, ForPrice(remaining, feePpm, feeOnInput), matched, price, feePpm, aToB, feeOnInput).value)
  {
    hide PaidFor, MatchedAmount, AffordsOrders, MulDivCeil;
    var amountIn := ForPrice(remaining, feePpm, feeOnInput);
    assert amountIn == NetInput(remaining, feePpm, feeOnInput);
    var f := Matched(unfilled, remaining, amountIn, matched, price, feePpm, aToB, feeOnInput).value;
    forall q: nat
      ensures q <= matched <==> AffordsOrders(remaining, q, price, feePpm, aToB, feeOnInput)
    {
      MatchedIff(amountIn, price, aToB, q);
      AffordsOrdersIff(remaining, q, price, feePpm, aToB, feeOnInput);
    }
    if matched > unfilled {
      MatchedIff(amountIn, price, aToB, 1);
      NothingForNothing(amountIn, price, aToB);
      forall u: nat ensures f.used <= u <==> AffordsOrders(u, unfilled, price, feePpm, aToB, feeOnInput) {
        MulNonneg(unfilled, price);
        FullInputIff(unfilled, price, feePpm, aToB, feeOnInput,
                     if aToB then CeilDiv(unfilled * Q64, price) else CeilDiv(unfilled * price, Q64), u);
      }
    }
  }

  lemma NothingForNothing(net: nat, price: nat, aToB: bool)
    requires if aToB then PaidFor(net, 1, price, aToB) else price != 0
    ensures price != 0
  {
  }

  /** Raydium's match is the exact fill of what rests, at the tick's squared price rounded against the taker. */
  lemma MatchIsExact(unfilled: u64, remaining: u128, p: u128, feePpm: u32, aToB: bool, feeOnInput: bool)
    requires feePpm < FEE_DENOMINATOR
    requires MatchLimitOrders(unfilled, remaining, p, feePpm, aToB, feeOnInput).Some?
    ensures ExactMatch(unfilled, remaining, p, feePpm, aToB, feeOnInput,
                       MatchLimitOrders(unfilled, remaining, p, feePpm, aToB, feeOnInput).value)
  {
    hide OrderPrice, PaidFor, ForPrice, Matched, MatchedAmount, MulDivFloor, ExactFill;
    if unfilled != 0 && remaining != 0 {
      MatchShape(unfilled, remaining, p, feePpm, aToB, feeOnInput);
      OrderPriceBounds(p, aToB);
      var price, amountIn := OrderPrice(p, aToB).value, ForPrice(remaining, feePpm, feeOnInput);
      MatchedIsExact(unfilled, remaining, MatchedAmount(amountIn, price, aToB), price, feePpm, aToB, feeOnInput);
      assert IsOrderPrice(price, p, aToB);
    }
  }

  /** The least input that pays for all of Fusion's orders, before the fee. */
  ghost predicate IsFullPrice(fullIn: nat, unfilled: nat, p: nat, aToB: bool) {
    forall c: nat ::
      fullIn <= c <==> if aToB then unfilled * Q128 <= c * (p * p) else unfilled * (p * p / Q64) <= c * Q64
  }

  /** A Fusion fill of what rests on a tick: all of it for the least input, or the share of it that the input less its fee
      is of the whole price. */
  ghost predicate ExactFusion(unfilled: nat, remaining: nat, p: nat, feePpm: u32, aToB: bool, f: Fill)
    requires feePpm < FEE_DENOMINATOR
  {
    if unfilled == 0 then f == Fill(0, 0, 0)
    else exists fullIn: nat :: IsFullPrice(fullIn, unfilled, p, aToB) && ExactShare(unfilled, fullIn, remaining, feePpm, f)
  }

  ghost predicate ExactShare(unfilled: nat, fullIn: nat, remaining: nat, feePpm: u32, f: Fill)
    requires feePpm < FEE_DENOMINATOR
  {
    && f.got == f.filled
    && if Affords(remaining, fullIn, feePpm, true) then
         f.filled == unfilled && forall u: nat :: f.used <= u <==> Affords(u, fullIn, feePpm, true)
       else
         f.used == remaining && forall q: nat ::
           q <= f.filled <==> q * fullIn <= unfilled * (remaining * (FEE_DENOMINATOR - feePpm) / FEE_DENOMINATOR)
  }

  lemma BuyIsExact(unfilled: u64, fullIn: u128, remaining: u128, feePpm: u32)
    requires feePpm < FEE_DENOMINATOR && BuyOrders(unfilled, fullIn, remaining, feePpm).Some?
    ensures ExactShare(unfilled, fullIn, remaining, feePpm, BuyOrders(unfilled, fullIn, remaining, feePpm).value)
  {
    hide Affords, MulDivCeil, WideMul;
    LeastTotal(fullIn, feePpm, remaining);
    var f := BuyOrders(unfilled, fullIn, remaining, feePpm).value;
    if Affords(remaining, fullIn, feePpm, true) {
      forall u: nat ensures f.used <= u <==> Affords(u, fullIn, feePpm, true) { LeastTotal(fullIn, feePpm, u); }
    } else {
      var net := LessFee(remaining, feePpm);
      MulNonneg(unfilled, net);
      forall q: nat ensures q <= f.filled <==> q * fullIn <= unfilled * net { FloorIff(unfilled * net, fullIn, q); }
    }
  }

  lemma FullFusionIff(unfilled: u64, p: u128, aToB: bool)
    requires FullFusionInput(unfilled, p, aToB).Some?
    ensures 0 <= p * p && IsFullPrice(FullFusionInput(unfilled, p, aToB).value, unfilled, p, aToB)
  {
    MulNonneg(p, p);
    var fullIn := FullFusionInput(unfilled, p, aToB).value;
    if aToB { MulPos(p, p); } else { MulNonneg(unfilled, p * p / Q64); }
    forall c: nat
      ensures fullIn <= c <==> if aToB then unfilled * Q128 <= c * (p * p) else unfilled * (p * p / Q64) <= c * Q64
    {
      if aToB { CeilIff(unfilled * Q128, p * p, c); } else { CeilIff(unfilled * (p * p / Q64), Q64, c); }
    }
  }

  lemma FusionIsExact(unfilled: u64, remaining: u128, p: u128, feePpm: u32, aToB: bool)
    requires feePpm < FEE_DENOMINATOR && FillFusionOrders(unfilled, remaining, p, feePpm, aToB).Some?
    ensures ExactFusion(unfilled, remaining, p, feePpm, aToB, FillFusionOrders(unfilled, remaining, p, feePpm, aToB).value)
  {
    hide FullFusionInput, BuyOrders, IsFullPrice, ExactShare;
    if unfilled != 0 {
      FullFusionIff(unfilled, p, aToB);
      BuyIsExact(unfilled, FullFusionInput(unfilled, p, aToB).value, remaining, feePpm);
    }
  }

  // ── when there is a fill ────────────────────────────────────────────────

  /** A price in 128 bits, which a payment in token 1 is divided by, and at which the input buys fewer than 2¹²⁸ tokens. */
  ghost predicate HasMatch(remaining: nat, p: nat, price: nat, feePpm: u32, aToB: bool, feeOnInput: bool) {
    && price < Q128 && IsOrderPrice(price, p, aToB) && (aToB || 0 < price)
    && !AffordsOrders(remaining, Q128, price, feePpm, aToB, feeOnInput)
  }

  lemma OrderPriceIff(p: u128, aToB: bool, price: nat)
    ensures price < Q128 && IsOrderPrice(price, p, aToB) <==> OrderPrice(p, aToB) == Some(price)
  {
    MulNonneg(p, p);
    if aToB {
      FloorIff(p * p, Q64, price);
      FloorIff(p * p, Q64, price + 1);
    } else {
      FloorIff(p * p + (Q64 - 1), Q64, price);
      FloorIff(p * p + (Q64 - 1), Q64, price + 1);
    }
    Distribute(price, 1, Q64);
  }

  lemma MatchedExists(unfilled: u64, remaining: u128, matched: u128, price: u128, feePpm: u32, aToB: bool, feeOnInput: bool)
    requires feePpm < FEE_DENOMINATOR && matched == MatchedAmount(ForPrice(remaining, feePpm, feeOnInput), price, aToB)
    requires aToB || 0 < price
    ensures Matched(unfilled, remaining, ForPrice(remaining, feePpm, feeOnInput), matched, price, feePpm, aToB, feeOnInput).Some?
  {
    hide LessFee;
    var amountIn := ForPrice(remaining, feePpm, feeOnInput);
    if matched > unfilled {
      MulNonneg(unfilled, price);
      if price > 0 {
        FullFillIsCheaper(unfilled, price, amountIn, aToB);
        var fullIn := if aToB then CeilDiv(unfilled * Q64, price) else CeilDiv(unfilled * price, Q64);
        if feeOnInput {
          FeeFits(fullIn, remaining, feePpm);
        }
      }
    }
  }

  /** Orders are matched unless there is no such price. */
  lemma MatchExistsIff(unfilled: u64, remaining: u128, p: u128, feePpm: u32, aToB: bool, feeOnInput: bool)
    requires feePpm < FEE_DENOMINATOR
    ensures MatchLimitOrders(unfilled, remaining, p, feePpm, aToB, feeOnInput).Some?
      <==> unfilled == 0 || remaining == 0 || exists price: nat :: HasMatch(remaining, p, price, feePpm, aToB, feeOnInput)
  {
    hide OrderPrice, ForPrice, Matched, IsOrderPrice, AffordsOrders, MatchedAmount;
    if unfilled != 0 && remaining != 0 {
      var amountIn := ForPrice(remaining, feePpm, feeOnInput);
      if OrderPrice(p, aToB).Some? {
        var price := OrderPrice(p, aToB).value;
        OrderPriceIff(p, aToB, price);
        if aToB || 0 < price {
          NetOfRemaining(remaining, feePpm, feeOnInput);
          MatchedIff(amountIn, price, aToB, Q128);
          AffordsOrdersIff(remaining, Q128, price, feePpm, aToB, feeOnInput);
          MatchedFits(amountIn, price, aToB);
          if MatchedAmount(amountIn, price, aToB) < Q128 {
            MatchedExists(unfilled, remaining, MatchedAmount(amountIn, price, aToB), price, feePpm, aToB, feeOnInput);
            assert HasMatch(remaining, p, price, feePpm, aToB, feeOnInput);
          }
        }
      }
      forall price: nat | HasMatch(remaining, p, price, feePpm, aToB, feeOnInput) ensures OrderPrice(p, aToB) == Some(price) {
        OrderPriceIff(p, aToB, price);
      }
    }
  }

  lemma NetOfRemaining(remaining: u128, feePpm: u32, feeOnInput: bool)
    requires feePpm < FEE_DENOMINATOR
    ensures NetInput(remaining, feePpm, feeOnInput) == ForPrice(remaining, feePpm, feeOnInput)
  {
  }

  lemma MatchedFits(amountIn: u128, price: u128, aToB: bool)
    requires aToB || 0 < price
    ensures (if aToB then MulDivFloor(amountIn, price, Q64) else MulDivFloor(amountIn, Q64, price))
      == ToU128(MatchedAmount(amountIn, price, aToB))
  {
  }

  /** A whole price in 128 bits, on which the fee takes fewer than 2¹²⁸ more. */
  ghost predicate HasFullPrice(fullIn: nat, unfilled: nat, p: nat, feePpm: u32, aToB: bool) {
    fullIn < Q128 && IsFullPrice(fullIn, unfilled, p, aToB) && Affords(fullIn + (Q128 - 1), fullIn, feePpm, true)
  }

  lemma PriceIsPositive(unfilled: u64, p: u128, fullIn: nat)
    requires 0 < unfilled && unfilled * Q128 <= fullIn * (p * p)
    ensures 0 < p
  {
  }

  lemma FullPriceIsInput(unfilled: u64, p: u128, aToB: bool, fullIn: u128)
    requires 0 < unfilled && IsFullPrice(fullIn, unfilled, p, aToB)
    ensures FullFusionInput(unfilled, p, aToB) == Some(fullIn)
  {
    MulNonneg(p, p);
    if aToB {
      assert unfilled * Q128 <= fullIn * (p * p);
      PriceIsPositive(unfilled, p, fullIn);
      MulPos(p, p);
      var least := CeilDiv(unfilled * Q128, p * p);
      CeilIff(unfilled * Q128, p * p, least);
      CeilIff(unfilled * Q128, p * p, fullIn);
    } else {
      MulNonneg(unfilled, p * p / Q64);
      var least := CeilDiv(unfilled * (p * p / Q64), Q64);
      CeilIff(unfilled * (p * p / Q64), Q64, least);
      CeilIff(unfilled * (p * p / Q64), Q64, fullIn);
      assert unfilled * (p * p / Q64) <= fullIn * Q64 && unfilled * (p * p / Q64) <= least * Q64;
    }
  }

  lemma BuyExistsIff(unfilled: u64, fullIn: u128, remaining: u128, feePpm: u32)
    requires feePpm < FEE_DENOMINATOR
    ensures BuyOrders(unfilled, fullIn, remaining, feePpm).Some? <==> Affords(fullIn + (Q128 - 1), fullIn, feePpm, true)
  {
    hide Affords;
    LeastTotal(fullIn, feePpm, fullIn + (Q128 - 1));
    LeastTotal(fullIn, feePpm, remaining);
    if remaining < fullIn + CeilDiv(fullIn * feePpm, FEE_DENOMINATOR - feePpm) {
      ShareExists(unfilled, fullIn, remaining, feePpm);
    }
  }

  lemma ShareExists(unfilled: u64, fullIn: u128, remaining: u128, feePpm: u32)
    requires feePpm < FEE_DENOMINATOR && !Affords(remaining, fullIn, feePpm, true)
    ensures 0 < fullIn && MulDivFloor(unfilled, LessFee(remaining, feePpm), fullIn).Some?
  {
    hide LessFee;
    var net := LessFee(remaining, feePpm);
    MulNonneg(unfilled, net);
    MulNonneg(remaining, FEE_DENOMINATOR - feePpm);
    FloorIff(remaining * (FEE_DENOMINATOR - feePpm), FEE_DENOMINATOR, fullIn);
    MulMono(net, fullIn, unfilled);
    FloorIff(unfilled * net, fullIn, 0);
    FloorIff(unfilled * net, fullIn, unfilled + 1);
    assert (unfilled + 1) * fullIn == unfilled * fullIn + fullIn;
  }

  /** Fusion fills its orders unless they have no such price. */
  lemma FusionExistsIff(unfilled: u64, remaining: u128, p: u128, feePpm: u32, aToB: bool)
    requires feePpm < FEE_DENOMINATOR
    ensures FillFusionOrders(unfilled, remaining, p, feePpm, aToB).Some?
      <==> unfilled == 0 || exists fullIn: nat :: HasFullPrice(fullIn, unfilled, p, feePpm, aToB)
  {
    hide FullFusionInput, BuyOrders, IsFullPrice, Affords;
    if unfilled != 0 {
      if FullFusionInput(unfilled, p, aToB).Some? {
        var fullIn := FullFusionInput(unfilled, p, aToB).value;
        FullFusionIff(unfilled, p, aToB);
        BuyExistsIff(unfilled, fullIn, remaining, feePpm);
        if BuyOrders(unfilled, fullIn, remaining, feePpm).Some? {
          assert HasFullPrice(fullIn, unfilled, p, feePpm, aToB);
        }
      }
      forall fullIn: nat | HasFullPrice(fullIn, unfilled, p, feePpm, aToB)
        ensures FullFusionInput(unfilled, p, aToB) == Some(fullIn) && BuyOrders(unfilled, fullIn, remaining, feePpm).Some?
      {
        FullPriceIsInput(unfilled, p, aToB, fullIn);
        BuyExistsIff(unfilled, fullIn, remaining, feePpm);
      }
    }
  }
}

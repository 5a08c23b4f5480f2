/** Exact-input swaps of a DAMM v2 pool on either of its curves (`src/quote/damm_v2.rs`). */
module DammPool {
  import opened Numbers
  import opened SqrtCurve

  datatype Curve =
    | Concentrated(liquidity: u128, price: u128, lowest: u128, highest: u128)
    | Compounding(reserveA: u64, reserveB: u64)

  datatype Quote = Quote(amountOut: u64, fee: u64, nextPrice: u128)

  /** Gross output and the price after it (0 on a compounding pool). */
  datatype Move = Move(out: u64, next: u128)

  predicate FeeOnInput(mode: nat, aToB: bool) {
    (mode == 1 || mode == 2) && !aToB
  }

  function ReserveIn(curve: Curve, aToB: bool): u64
    requires curve.Compounding?
  {
    if aToB then curve.reserveA else curve.reserveB
  }

  function ReserveOut(curve: Curve, aToB: bool): u64
    requires curve.Compounding?
  {
    if aToB then curve.reserveB else curve.reserveA
  }

  /** The curve's answer to `entered`; leaving its price range is refused. */
  function Trade(curve: Curve, aToB: bool, entered: u64): Option<Move> {
    match curve
    case Concentrated(liquidity, price, lowest, highest) =>
      if liquidity == 0 || price == 0 then None
      else if aToB then
        var next :- NextFromA(price, liquidity, entered);
        if next < lowest then None
        else
          var out :- DeltaB(next, price, liquidity, false);
          Some(Move(out, next))
      else
        var next :- NextFromB(price, liquidity, entered);
        if next > highest then None
        else
          var out :- DeltaA(price, next, liquidity, false);
          Some(Move(out, next))
    case Compounding(_, _) =>
      var den := ReserveIn(curve, aToB) + entered;
      if den == 0 then None
      else
        MulNonneg(ReserveOut(curve, aToB), entered);
        var out :- ToU64(ReserveOut(curve, aToB) * entered / den);
        Some(Move(out, 0))
  }

  function SwapExactIn(curve: Curve, numerator: u64, mode: nat, aToB: bool, amount: u64): Option<Quote> {
    if amount == 0 || numerator >= FEE_DENOMINATOR then None
    else
      var inputFee :- if FeeOnInput(mode, aToB) then FeeOf(amount, numerator) else Some(0);
      var entered :- ToU64(amount - inputFee);
      var move :- Trade(curve, aToB, entered);
      var outputFee :- if FeeOnInput(mode, aToB) then Some(0) else FeeOf(move.out, numerator);
      var amountOut :- ToU64(move.out - outputFee);
      Some(Quote(amountOut, inputFee + outputFee, move.next))
  }

  // ── soundness ───────────────────────────────────────────────────────────

  /** What entered the curve and what left it, by the quote's own figures. */
  function Entered(mode: nat, aToB: bool, amount: u64, q: Quote): int {
    amount - (if FeeOnInput(mode, aToB) then q.fee else 0)
  }

  function Gross(mode: nat, aToB: bool, q: Quote): int {
    q.amountOut + (if FeeOnInput(mode, aToB) then 0 else q.fee)
  }

  /** A trade favours the pool: on a price range it stays inside it, is paid for and pays at most the exact area;
      on tracked reserves it keeps their product from falling. */
  predicate FavoursPool(curve: Curve, aToB: bool, entered: nat, gross: nat, next: u128) {
    match curve
    case Concentrated(liquidity, price, lowest, highest) =>
      if aToB then
        lowest <= next <= price && BaseCovers(liquidity, next, price, entered) && QuoteWithin(liquidity, next, price, gross)
      else
        price <= next <= highest && QuoteCovers(liquidity, price, next, entered) && BaseWithin(liquidity, price, next, gross)
    case Compounding(reserveA, reserveB) =>
      if aToB then gross <= reserveB && KeepsProduct(reserveA, reserveB, entered, gross)
      else gross <= reserveA && KeepsProduct(reserveB, reserveA, entered, gross)
  }

  lemma ProductHolds(x: nat, y: nat, entered: nat, out: nat)
    requires 0 < x + entered && 0 <= y * entered && out == y * entered / (x + entered)
    ensures out <= y && x * y <= (x + entered) * (y - out)
  {
    FloorIff(y * entered, x + entered, out);
    FloorIff(y * entered, x + entered, y + 1);
    assert (y + 1) * (x + entered) == y * x + x + entered + y * entered;
    MulNonneg(y, x);
    assert (x + entered) * (y - out) == x * y + y * entered - out * (x + entered);
  }

  lemma TradeFavoursPool(curve: Curve, aToB: bool, entered: u64)
    requires Trade(curve, aToB, entered).Some?
    ensures var m := Trade(curve, aToB, entered).value; FavoursPool(curve, aToB, entered, m.out, m.next)
  {
    hide NextFromA, NextFromB, BaseBetween, QuoteBetween, BaseCovers, QuoteCovers, BaseWithin, QuoteWithin;
    var m := Trade(curve, aToB, entered).value;
    match curve
    case Concentrated(liquidity, price, lowest, highest) =>
      if aToB {
        NextFromAIff(price, liquidity, entered, 0);
        NextFromAIff(price, liquidity, entered, m.next);
        QuoteBetweenIff(m.next, price, liquidity, m.out);
      } else {
        NextFromBIff(price, liquidity, entered, price);
        NextFromBIff(price, liquidity, entered, m.next);
        BaseBetweenIff(price, m.next, liquidity, m.out);
      }
    case Compounding(_, _) =>
      ProductHolds(ReserveIn(curve, aToB), ReserveOut(curve, aToB), entered, m.out);
  }

  /** Every quoted swap favours the pool on what enters and leaves the curve, and its fee is at least the rate on the
      side that pays it. */
  lemma SwapFavoursPool(curve: Curve, numerator: u64, mode: nat, aToB: bool, amount: u64)
    requires SwapExactIn(curve, numerator, mode, aToB, amount).Some?
    ensures var q := SwapExactIn(curve, numerator, mode, aToB, amount).value;
      && 0 <= Entered(mode, aToB, amount, q) <= amount && 0 <= Gross(mode, aToB, q)
      && FavoursPool(curve, aToB, Entered(mode, aToB, amount, q), Gross(mode, aToB, q), q.nextPrice)
      && (if FeeOnInput(mode, aToB) then amount else Gross(mode, aToB, q)) * numerator <= q.fee * FEE_DENOMINATOR
  {
    hide Trade, FavoursPool;
    var q := SwapExactIn(curve, numerator, mode, aToB, amount).value;
    TradeFavoursPool(curve, aToB, Entered(mode, aToB, amount, q));
    FeeFits(amount, numerator);
    FeeFits(Gross(mode, aToB, q), numerator);
  }

  // ── the quote, by the pool's own fields ─────────────────────────────────

  /** A trade moves to the farthest price its input covers, inside the range, and pays the most the stretch holds; on
      tracked reserves, the most that keeps the product of token A's and token B's. */
  ghost predicate ExactTrade(curve: Curve, aToB: bool, entered: int, gross: int, next: nat) {
    match curve
    case Concentrated(l, price, lowest, highest) =>
      && 0 < l && 0 < price && 0 <= entered
      && if aToB then
           lowest <= next <= price && LowestCovered(l, price, entered, next) && MostQuote(l, next, price, gross)
         else
           price <= next <= highest && HighestCovered(l, price, entered, next) && MostBase(l, price, next, gross)
    case Compounding(reserveA, reserveB) =>
      && next == 0
      && if aToB then MostOfReserve(reserveA, reserveB, entered, gross)
         else MostOfReserve(reserveB, reserveA, entered, gross)
  }

  lemma TradeIff(curve: Curve, aToB: bool, entered: u64, gross: u64, next: u128)
    ensures Trade(curve, aToB, entered) == Some(Move(gross, next)) <==> ExactTrade(curve, aToB, entered, gross, next)
  {
    hide LowestCovered, HighestCovered, MostQuote, MostBase, NextFromA, NextFromB, DeltaA, DeltaB;
    match curve
    case Concentrated(l, price, lowest, highest) =>
      if 0 < l && 0 < price {
        if aToB {
          SellReaches(price, l, entered, next);
          if next <= price { QuoteIsMost(next, price, l, gross); }
        } else {
          BuyReaches(price, l, entered, next);
          if price <= next { BaseIsMost(price, next, l, gross); }
        }
      }
    case Compounding(_, _) => ReservesIff(curve, aToB, entered, gross);
  }

  lemma ReservesIff(curve: Curve, aToB: bool, entered: u64, gross: u64)
    requires curve.Compounding?
    ensures Trade(curve, aToB, entered) == Some(Move(gross, 0)) <==> ExactTrade(curve, aToB, entered, gross, 0)
  {
    hide KeepsProduct;
    var x, y := ReserveIn(curve, aToB), ReserveOut(curve, aToB);
    if 0 < x + entered {
      ProductIsMost(x, y, entered);
      var most := y * entered / (x + entered);
      if MostOfReserve(x, y, entered, gross) {
        assert KeepsProduct(x, y, entered, gross) && KeepsProduct(x, y, entered, most);
      }
    }
  }

  /** The quote in full: its fee comes out of the input exactly for token B in modes 1 and 2 and is the least whole amount
      at its rate; the rest trades exactly. */
  ghost predicate IsQuote(curve: Curve, numerator: u64, mode: nat, aToB: bool, amount: u64, q: Quote) {
    var onInput := !aToB && (mode == 1 || mode == 2);
    var entered, gross := amount - (if onInput then q.fee else 0), q.amountOut + if onInput then 0 else q.fee;
    && 0 < amount && numerator < 1_000_000_000 && 0 <= q.amountOut && gross <= U64_MAX
    && LeastMultiple(q.fee, (if onInput then amount else gross) * numerator, 1_000_000_000)
    && ExactTrade(curve, aToB, entered, gross, q.nextPrice)
  }

  /** A swap is quoted exactly as the pool's own fields say, and exactly when they say so. */
  lemma SwapIsExact(curve: Curve, numerator: u64, mode: nat, aToB: bool, amount: u64, q: Quote)
    ensures SwapExactIn(curve, numerator, mode, aToB, amount) == Some(q) <==> IsQuote(curve, numerator, mode, aToB, amount, q)
  {
    hide Trade, ExactTrade, FeeOf;
    var onInput := !aToB && (mode == 1 || mode == 2);
    var entered, gross := amount - (if onInput then q.fee else 0), q.amountOut + if onInput then 0 else q.fee;
    if 0 < amount && numerator < 1_000_000_000 {
      FeeFits(amount, numerator);
      if 0 <= entered && gross <= U64_MAX {
        TradeIff(curve, aToB, entered, gross, q.nextPrice);
        FeeIff(if onInput then amount else gross, numerator, q.fee);
      }
    }
  }

  // ── monotone, and no gain from splitting ────────────────────────────────

  lemma ProductMonotone(x: nat, y: nat, a: nat, b: nat)
    requires 0 < x + a && a <= b && 0 <= y * a && 0 <= y * b
    ensures y * a / (x + a) <= y * b / (x + b)
  {
    var out := y * a / (x + a);
    ProductHolds(x, y, a, out);
    FloorIff(y * b, x + b, out);
    MulMono(out, y, b - a);
    FloorIff(y * a, x + a, out);
    assert out * (x + b) == out * (x + a) + out * (b - a);
    assert y * b == y * a + y * (b - a);
  }

  /** A curve that quotes more input quotes less, for no more. */
  lemma TradeMonotone(curve: Curve, aToB: bool, a: u64, b: u64)
    requires a <= b && Trade(curve, aToB, b).Some? && Trade(curve, aToB, a).Some?
    ensures Trade(curve, aToB, a).value.out <= Trade(curve, aToB, b).value.out
  {
    hide NextFromA, NextFromB, BaseBetween, QuoteBetween;
    match curve
    case Concentrated(liquidity, price, lowest, highest) =>
      if aToB {
        NextFromAMonotone(price, liquidity, a, b);
        NextFromAIff(price, liquidity, a, price);
        QuoteOfLess(NextFromA(price, liquidity, b).value, NextFromA(price, liquidity, a).value, price, liquidity);
      } else {
        NextFromBMonotone(price, liquidity, a, b);
        NextFromBIff(price, liquidity, a, price);
        BaseOfLess(price, NextFromB(price, liquidity, a).value, NextFromB(price, liquidity, b).value, liquidity);
      }
    case Compounding(_, _) =>
      MulNonneg(ReserveOut(curve, aToB), a);
      MulNonneg(ReserveOut(curve, aToB), b);
      ProductMonotone(ReserveIn(curve, aToB), ReserveOut(curve, aToB), a, b);
  }

  /** More input never yields less: both curves, both directions, the fee on either side. */
  lemma MoreInputNeverPaysLess(curve: Curve, numerator: u64, mode: nat, aToB: bool, a: u64, b: u64)
    requires a <= b && SwapExactIn(curve, numerator, mode, aToB, a).Some? && SwapExactIn(curve, numerator, mode, aToB, b).Some?
    ensures SwapExactIn(curve, numerator, mode, aToB, a).value.amountOut
      <= SwapExactIn(curve, numerator, mode, aToB, b).value.amountOut
  {
    hide Trade, FeeOf;
    var q, r := SwapExactIn(curve, numerator, mode, aToB, a).value, SwapExactIn(curve, numerator, mode, aToB, b).value;
    NetMonotone(a, b, numerator);
    TradeMonotone(curve, aToB, Entered(mode, aToB, a, q), Entered(mode, aToB, b, r));
    NetMonotone(Gross(mode, aToB, q), Gross(mode, aToB, r), numerator);
  }

  /** Two consecutive trades on a price range take no more than one of the sum. */
  lemma TradeSplit(curve: Curve, aToB: bool, a: u64, b: u64)
    requires curve.Concentrated? && a + b < Q64 && Trade(curve, aToB, a).Some? && Trade(curve, aToB, a + b).Some?
    requires Trade(curve.(price := Trade(curve, aToB, a).value.next), aToB, b).Some?
    ensures Trade(curve, aToB, a).value.out + Trade(curve.(price := Trade(curve, aToB, a).value.next), aToB, b).value.out
         <= Trade(curve, aToB, a + b).value.out
  {
    hide NextFromA, NextFromB, DeltaA, DeltaB;
    var price, liquidity, mid := curve.price, curve.liquidity, Trade(curve, aToB, a).value.next;
    if aToB {
      SellsReachFarther(price, liquidity, a, b);
      NextFromAIff(price, liquidity, a, price);
      NextFromAIff(mid, liquidity, b, mid);
      QuotePieces(NextFromA(price, liquidity, a + b).value, NextFromA(mid, liquidity, b).value, mid, price, liquidity);
    } else {
      BuysReachFarther(price, liquidity, a, b);
      NextFromBIff(price, liquidity, a, price);
      NextFromBIff(mid, liquidity, b, mid);
      BasePieces(price, mid, NextFromB(mid, liquidity, b).value, NextFromB(price, liquidity, a + b).value, liquidity);
    }
  }

  /** On a price range, whatever quotes more input quotes less. */
  lemma LessIsQuoted(curve: Curve, aToB: bool, a: u64, b: u64)
    requires curve.Concentrated? && a <= b && Trade(curve, aToB, b).Some?
    ensures Trade(curve, aToB, a).Some?
  {
    hide DeltaA, DeltaB;
    var price, liquidity := curve.price, curve.liquidity;
    if aToB {
      NextFromAMonotone(price, liquidity, a, b);
      NextFromAIff(price, liquidity, a, price);
      QuoteOfLess(NextFromA(price, liquidity, b).value, NextFromA(price, liquidity, a).value, price, liquidity);
    } else {
      FloorMono(a * Q128, b * Q128, liquidity);
      FloorIff(a * Q128, liquidity, 0);
      BaseOfLess(price, NextFromB(price, liquidity, a).value, NextFromB(price, liquidity, b).value, liquidity);
    }
  }

  /** Net of fees, two consecutive swaps on a price range never pay out more than one of the sum. */
  lemma SplitNeverPaysMore(curve: Curve, numerator: u64, mode: nat, aToB: bool, a: u64, b: u64)
    requires curve.Concentrated? && a + b < Q64
    requires SwapExactIn(curve, numerator, mode, aToB, a).Some? && SwapExactIn(curve, numerator, mode, aToB, a + b).Some?
    requires SwapExactIn(curve.(price := SwapExactIn(curve, numerator, mode, aToB, a).value.nextPrice), numerator, mode,
      aToB, b).Some?
    ensures var q, whole := SwapExactIn(curve, numerator, mode, aToB, a).value,
      SwapExactIn(curve, numerator, mode, aToB, a + b).value;
      var r := SwapExactIn(curve.(price := q.nextPrice), numerator, mode, aToB, b).value;
      q.amountOut + r.amountOut <= whole.amountOut
  {
    hide Trade, FeeOf;
    var q, whole := SwapExactIn(curve, numerator, mode, aToB, a).value, SwapExactIn(curve, numerator, mode, aToB, a + b).value;
    var mid := curve.(price := q.nextPrice);
    var r := SwapExactIn(mid, numerator, mode, aToB, b).value;
    NetOfParts(a, b, numerator);
    var e1, e2, e := Entered(mode, aToB, a, q), Entered(mode, aToB, b, r), Entered(mode, aToB, a + b, whole);
    LessIsQuoted(curve, aToB, e1 + e2, e);
    TradeSplit(curve, aToB, e1, e2);
    TradeMonotone(curve, aToB, e1 + e2, e);
    var x, y := Gross(mode, aToB, q), Gross(mode, aToB, r);
    NetOfParts(x, y, numerator);
    NetMonotone(x + y, Gross(mode, aToB, whole), numerator);
  }
}

/** Selling back what a DBC buy delivered is always accepted and never gains. */
module DbcRoundTrip {
  import opened Numbers
  import opened SqrtCurve
  import opened DbcCurve
  import opened DbcAreas
  import opened DbcRuns

  /** An amount worth no more than the segment down to `p` does not cover anything lower. */
  lemma CoversNoLower(liquidity: nat, p: nat, q: nat, cur: nat, amount: nat)
    requires 0 < liquidity && p <= cur && q <= cur && BaseWithin(liquidity, p, cur, amount)
      && BaseCovers(liquidity, q, cur, amount)
    ensures p <= q
  {
  }

  /** The same for the exact areas of the whole curve. */
  lemma StopsAbove(curve: seq<Point>, k: nat, price: u128, q: u128, cur: u128, amount: u64)
    requires Rising(curve) && k < |curve| && 0 < price <= cur && q <= cur <= curve[k].price && Bottom(curve, k) <= q
    requires amount as real <= BaseAbove(curve, price, cur) && BaseCovers(curve[k].liquidity, q, cur, amount)
    ensures price <= q
  {
    hide BaseArea, BaseOf;
    if Bottom(curve, k) <= price {
      AreaOfSegment(curve, |curve|, k, price, cur);
      BaseOfIff(curve[k].liquidity, price, cur, amount);
      CoversNoLower(curve[k].liquidity, price, q, cur, amount);
    }
  }

  /** What is left to sell is worth no more than the base above `price`, and the quote above `price` fits the budget. */
  predicate Affordable(curve: seq<Point>, price: u128, cur: u128, left: u64, out: u64, budget: u64)
    requires Rising(curve) && 0 < price && 0 < cur
  {
    left as real <= BaseAbove(curve, price, cur) && out * Q128 + QuoteBelow(curve, price, cur) <= budget * Q128
  }

  /** A piece that stops at or above `price` has an output that fits the budget and leaves an affordable rest. */
  lemma PieceFits(curve: seq<Point>, k: nat, price: u128, next: u128, cur: u128, paid: u64, left: u64, out: u64, budget: u64)
    requires Rising(curve) && k < |curve| && 0 < price <= next && Bottom(curve, k) <= next <= cur <= curve[k].price
    requires paid <= left && BaseCovers(curve[k].liquidity, next, cur, paid) && Affordable(curve, price, cur, left, out, budget)
    ensures var got := DeltaB(next, cur, curve[k].liquidity, false);
      got.Some? && out + got.value <= budget && Affordable(curve, price, next, left - paid, out + got.value, budget)
  {
    hide QuoteArea, BaseArea, BaseOf, QuoteBetween;
    var liquidity := curve[k].liquidity;
    AreasAdd(curve, |curve|, price, next, cur);
    AreasNonneg(curve, |curve|, price, next);
    AreaOfSegment(curve, |curve|, k, next, cur);
    BaseOfIff(liquidity, next, cur, paid);
    var got := QuoteBetween(next, cur, liquidity, false);
    QuoteBetweenIff(next, cur, liquidity, got);
  }

  /** The last piece of an affordable sell. */
  lemma LastPieceIsAccepted(curve: seq<Point>, start: u128, price: u128, cur: u128, left: u64, out: u64, budget: u64)
    requires Rising(curve) && 0 < |curve| && 0 < start <= price <= cur <= curve[0].price
    requires Affordable(curve, price, cur, left, out, budget)
    ensures SellBelow(curve, start, cur, left, out).Some?
    ensures var t := SellBelow(curve, start, cur, left, out).value; price <= t.price && t.out <= budget
  {
    hide DeltaB, NextFromA, Affordable, BaseCovers;
    if left == 0 {
      NothingLeft(curve, price, cur, out, budget);
    } else {
      NextFromAIff(cur, curve[0].liquidity, left, 0);
      var next := NextFromA(cur, curve[0].liquidity, left).value;
      NextFromAIff(cur, curve[0].liquidity, left, next);
      StopsAboveHere(curve, 0, price, next, cur, left, out, budget);
      PieceFits(curve, 0, price, next, cur, left, left, out, budget);
    }
  }

  /** A piece that stops inside segment `n`. */
  lemma PieceIsAccepted(curve: seq<Point>, n: nat, price: u128, cur: u128, left: u64, out: u64, budget: u64)
    requires Rising(curve) && 0 < n < |curve| && 0 < price <= cur <= curve[n].price && curve[n - 1].price < cur
    requires left < BaseBetween(curve[n - 1].price, cur, curve[n].liquidity, true)
    requires Affordable(curve, price, cur, left, out, budget)
    ensures NextFromA(cur, curve[n].liquidity, left).Some? && price <= NextFromA(cur, curve[n].liquidity, left).value
    ensures var got := DeltaB(NextFromA(cur, curve[n].liquidity, left).value, cur, curve[n].liquidity, false);
      got.Some? && out + got.value <= budget
  {
    hide BaseBetween, DeltaB, NextFromA, Affordable, BaseCovers;
    SellLandsInside(curve[n - 1].price, cur, curve[n].liquidity, left);
    var next := NextFromA(cur, curve[n].liquidity, left).value;
    StopsAboveHere(curve, n, price, next, cur, left, out, budget);
    PieceFits(curve, n, price, next, cur, left, left, out, budget);
  }

  /** A piece that crosses to point `n - 1` is still at or above `price`. */
  lemma CrossingIsAccepted(curve: seq<Point>, n: nat, price: u128, cur: u128, left: u64, out: u64, budget: u64)
    requires Rising(curve) && 0 < n < |curve| && 0 < price <= cur <= curve[n].price && curve[n - 1].price < cur
    requires BaseBetween(curve[n - 1].price, cur, curve[n].liquidity, true) <= left
    requires Affordable(curve, price, cur, left, out, budget)
    ensures price <= curve[n - 1].price
    ensures var maxIn, got := BaseBetween(curve[n - 1].price, cur, curve[n].liquidity, true),
      DeltaB(curve[n - 1].price, cur, curve[n].liquidity, false);
      got.Some? && out + got.value <= budget && Affordable(curve, price, curve[n - 1].price, left - maxIn,
        out + got.value, budget)
  {
    hide BaseBetween, DeltaB, Affordable, BaseCovers;
    var point, liquidity := curve[n - 1].price, curve[n].liquidity;
    var maxIn := BaseBetween(point, cur, liquidity, true);
    BaseBetweenIff(point, cur, liquidity, left);
    BaseBetweenIff(point, cur, liquidity, maxIn);
    StopsAboveHere(curve, n, price, point, cur, left, out, budget);
    PieceFits(curve, n, price, point, cur, maxIn, left, out, budget);
  }

  /** Selling an affordable amount succeeds, stays at or above `price`, and pays within the budget. */
  lemma {:induction false} SellIsAccepted(curve: seq<Point>, start: u128, n: nat, price: u128, cur: u128, left: u64,
      out: u64, budget: u64)
    requires Rising(curve) && n < |curve| && 0 < start <= price <= cur <= curve[n].price && start <= curve[0].price
    requires Affordable(curve, price, cur, left, out, budget)
    ensures SellFrom(curve, start, n, cur, left, out).Some?
    ensures var t := SellFrom(curve, start, n, cur, left, out).value; price <= t.price && t.out <= budget
    decreases n
  {
    hide BaseBetween, DeltaB, NextFromA, Affordable, SellBelow;
    if n == 0 {
      LastPieceIsAccepted(curve, start, price, cur, left, out, budget);
    } else {
      var point, liquidity := curve[n - 1].price, curve[n].liquidity;
      if point >= cur {
        SellIsAccepted(curve, start, n - 1, price, cur, left, out, budget);
      } else if left < BaseBetween(point, cur, liquidity, true) {
        PieceIsAccepted(curve, n, price, cur, left, out, budget);
      } else {
        CrossingIsAccepted(curve, n, price, cur, left, out, budget);
        SellIsAccepted(curve, start, n - 1, price, point, left - BaseBetween(point, cur, liquidity, true),
                       out + DeltaB(point, cur, liquidity, false).value, budget);
      }
    }
  }

  lemma StopsAboveHere(curve: seq<Point>, k: nat, price: u128, q: u128, cur: u128, amount: u64, out: u64, budget: u64)
    requires Rising(curve) && k < |curve| && 0 < price <= cur && q <= cur <= curve[k].price && Bottom(curve, k) <= q
    requires Affordable(curve, price, cur, amount, out, budget) && BaseCovers(curve[k].liquidity, q, cur, amount)
    ensures price <= q
  {
    StopsAbove(curve, k, price, q, cur, amount);
  }

  lemma NothingLeft(curve: seq<Point>, price: u128, cur: u128, out: u64, budget: u64)
    requires Rising(curve) && 0 < price <= cur && Affordable(curve, price, cur, 0, out, budget)
    ensures out <= budget
  {
    hide QuoteArea, BaseArea;
    AreasNonneg(curve, |curve|, price, cur);
  }

  /** The raw walks: after a buy, selling back any part of it is accepted, ends at or above the price before the buy,
      and returns at most what the buy paid. */
  lemma SellingBackNeverGains(config: Config, price: u128, paid: u64, sold: u64)
    requires WellFormed(config) && config.startPrice <= price && QuoteToBase(config, price, paid).Some?
    requires sold <= QuoteToBase(config, price, paid).value.out
    ensures var back := BaseToQuote(config, QuoteToBase(config, price, paid).value.price, sold);
      back.Some? && price <= back.value.price && back.value.out <= paid
  {
    hide BuyFrom, SellFrom, QuoteArea, BaseArea;
    var t := QuoteToBase(config, price, paid).value;
    BuyIsFair(config.curve, Ceiling(config), 0, price, paid, 0);
    SellIsAccepted(config.curve, config.startPrice, Lowest(config.curve), price, t.price, sold, 0, paid);
  }

  /** With fees: selling back what a buy delivered is refused only where the fee eats the whole proceeds; otherwise it
      ends at or above the price before the buy and returns at most what entered the curve. */
  lemma RoundTripNeverGains(pool: Pool, amount: u64, sold: u64, point: u64)
    requires Solvent(pool) && SwapExactIn(pool, true, amount, point).Some?
    requires 0 < sold <= SwapExactIn(pool, true, amount, point).value.amountOut
    ensures var q := SwapExactIn(pool, true, amount, point).value; var next := Settle(pool, true, amount, q);
      && next.Some?
      && (match SwapExactIn(next.value, false, sold, point)
          case Some(r) => pool.price <= r.price && r.amountOut + r.fee <= Entered(pool, true, amount, q)
          case None =>
            var back := BaseToQuote(pool.config, q.price, sold);
            back.Some? && FeeNumerator(next.value, point, false).Some?
            && FeeOf(back.value.out, FeeNumerator(next.value, point, false).value) == Some(back.value.out))
  {
    hide QuoteToBase, BaseToQuote, VariableFeeNumerator, Solvent;
    var q := SwapExactIn(pool, true, amount, point).value;
    BuyFits(pool, amount, point);
    QuoteIsWalk(pool, true, amount, point);
    var next := Settle(pool, true, amount, q).value;
    SellingBackNeverGains(pool.config, pool.price, Entered(pool, true, amount, q), sold);
    SellFeeExists(pool, next, point);
    var back := BaseToQuote(pool.config, q.price, sold).value;
    FeeFits(back.out, FeeNumerator(next, point, false).value);
  }

  lemma BuyFits(pool: Pool, amount: u64, point: u64)
    requires Solvent(pool) && SwapExactIn(pool, true, amount, point).Some?
    ensures WellFormed(pool.config) && pool.config.startPrice <= pool.price
    ensures Settle(pool, true, amount, SwapExactIn(pool, true, amount, point).value).Some?
    ensures Quotable(Settle(pool, true, amount, SwapExactIn(pool, true, amount, point).value).value, point)
  {
    hide SwapExactIn, QuoteArea;
    BuyStep(pool, amount, point);
    QuoteIsWalk(pool, true, amount, point);
    QuotedIsQuotable(pool, amount, point);
  }

  lemma QuotedIsQuotable(pool: Pool, amount: u64, point: u64)
    requires SwapExactIn(pool, true, amount, point).Some?
    ensures Quotable(pool, point)
  {
  }

  /** A pool with a buy fee has a sell fee. */
  lemma SellFeeExists(pool: Pool, next: Pool, point: u64)
    requires FeeNumerator(pool, point, true).Some?
    requires next == pool.(quoteReserve := next.quoteReserve, price := next.price)
    ensures FeeNumerator(next, point, false).Some?
  {
  }
}

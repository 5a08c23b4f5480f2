/** One segment of constant liquidity in square-root-price space: the DAMM v2 primitives that DBC shares
    (`src/quote/damm_v2.rs`, `src/quote/dbc.rs`). */
module SqrtCurve {
  import opened Numbers

  // ── amounts between two prices ──────────────────────────────────────────

  /** Token A (base) between two prices, `L·(upper − lower)/(lower·upper)`, rounded as told. */
  function BaseBetween(lower: u128, upper: u128, liquidity: u128, roundUp: bool): nat
    requires 0 < lower <= upper
  {
    MulPos(lower, upper);
    MulNonneg(liquidity, upper - lower);
    RoundDiv(liquidity * (upper - lower), lower * upper, roundUp)
  }

  /** Token B (quote) between two prices, `L·(upper − lower)/2¹²⁸`, rounded as told. */
  function QuoteBetween(lower: u128, upper: u128, liquidity: u128, roundUp: bool): nat
    requires lower <= upper
  {
    MulNonneg(liquidity, upper - lower);
    RoundDiv(liquidity * (upper - lower), Q128, roundUp)
  }

  function DeltaA(lower: u128, upper: u128, liquidity: u128, roundUp: bool): Option<u64> {
    if lower == 0 || upper < lower then None else ToU64(BaseBetween(lower, upper, liquidity, roundUp))
  }

  function DeltaB(lower: u128, upper: u128, liquidity: u128, roundUp: bool): Option<u64> {
    if upper < lower then None else ToU64(QuoteBetween(lower, upper, liquidity, roundUp))
  }

  // ── the price an input reaches ──────────────────────────────────────────

  function NextFromA(price: u128, liquidity: u128, amount: u64): Option<u128> {
    MulNonneg(amount, price);
    MulNonneg(liquidity, price);
    var denom := liquidity + amount * price;
    if denom == 0 then None else ToU128(CeilDiv(liquidity * price, denom))
  }

  function NextFromB(price: u128, liquidity: u128, amount: u64): Option<u128> {
    if liquidity == 0 then None
    else
      var rise :- ToU128(amount * Q128 / liquidity);
      ToU128(price + rise)
  }

  // ── exact cover ─────────────────────────────────────────────────────────

  /** `amount` of base is worth at least the segment from `lower` to `upper`, exactly. */
  predicate BaseCovers(liquidity: nat, lower: nat, upper: nat, amount: nat) {
    liquidity * (upper - lower) <= amount * (lower * upper)
  }

  /** `amount` of quote is worth at least the segment from `lower` to `upper`, exactly. */
  predicate QuoteCovers(liquidity: nat, lower: nat, upper: nat, amount: nat) {
    liquidity * (upper - lower) <= amount * Q128
  }

  /** `amount` of base is worth at most the segment. */
  predicate BaseWithin(liquidity: nat, lower: nat, upper: nat, amount: nat) {
    amount * (lower * upper) <= liquidity * (upper - lower)
  }

  predicate QuoteWithin(liquidity: nat, lower: nat, upper: nat, amount: nat) {
    amount * Q128 <= liquidity * (upper - lower)
  }

  /** Rounding up gives the least amount that covers; rounding down the greatest within. */
  lemma BaseBetweenIff(lower: u128, upper: u128, liquidity: u128, amount: nat)
    requires 0 < lower <= upper
    ensures BaseBetween(lower, upper, liquidity, true) <= amount <==> BaseCovers(liquidity, lower, upper, amount)
    ensures amount <= BaseBetween(lower, upper, liquidity, false) <==> BaseWithin(liquidity, lower, upper, amount)
  {
    MulPos(lower, upper);
    MulNonneg(liquidity, upper - lower);
    CeilIff(liquidity * (upper - lower), lower * upper, amount);
    FloorIff(liquidity * (upper - lower), lower * upper, amount);
  }

  lemma QuoteBetweenIff(lower: u128, upper: u128, liquidity: u128, amount: nat)
    requires lower <= upper
    ensures QuoteBetween(lower, upper, liquidity, true) <= amount <==> QuoteCovers(liquidity, lower, upper, amount)
    ensures amount <= QuoteBetween(lower, upper, liquidity, false) <==> QuoteWithin(liquidity, lower, upper, amount)
  {
    MulNonneg(liquidity, upper - lower);
    CeilIff(liquidity * (upper - lower), Q128, amount);
    FloorIff(liquidity * (upper - lower), Q128, amount);
  }

  /** Selling `amount` of base lands on the lowest price it covers down to. */
  lemma NextFromAIff(price: u128, liquidity: u128, amount: u64, q: u128)
    requires 0 < price && 0 < liquidity && q <= price
    ensures NextFromA(price, liquidity, amount).Some?
    ensures 0 < NextFromA(price, liquidity, amount).value <= price
    ensures NextFromA(price, liquidity, amount).value <= q <==> BaseCovers(liquidity, q, price, amount)
  {
    MulNonneg(amount, price);
    MulPos(liquidity, price);
    var denom := liquidity + amount * price;
    var next := CeilDiv(liquidity * price, denom);
    CeilIff(liquidity * price, denom, q);
    CeilIff(liquidity * price, denom, price);
    MulNonneg(amount * price, price);
    assert price * denom == liquidity * price + amount * price * price;
    SameCover(liquidity, q, price, amount);
    CeilIff(liquidity * price, denom, 0);
    assert 0 * denom == 0;
  }

  lemma SameCover(liquidity: nat, q: nat, price: nat, amount: nat)
    requires q <= price
    ensures liquidity * price <= q * (liquidity + amount * price) <==> BaseCovers(liquidity, q, price, amount)
  {
  }

  /** Buying with `amount` of quote lands on the highest price it covers up to. */
  lemma NextFromBIff(price: u128, liquidity: u128, amount: u64, q: nat)
    requires NextFromB(price, liquidity, amount).Some? && price <= q
    ensures price <= NextFromB(price, liquidity, amount).value
    ensures q <= NextFromB(price, liquidity, amount).value <==> QuoteCovers(liquidity, price, q, amount)
  {
    FloorIff(amount * Q128, liquidity, q - price);
    assert liquidity * (q - price) == (q - price) * liquidity;
  }

  // ── most and farthest ───────────────────────────────────────────────────

  /** `amount` is the most base the segment holds. */
  ghost predicate MostBase(liquidity: nat, lower: nat, upper: nat, amount: int) {
    0 <= amount && forall x: nat :: x <= amount <==> BaseWithin(liquidity, lower, upper, x)
  }

  ghost predicate MostQuote(liquidity: nat, lower: nat, upper: nat, amount: int) {
    0 <= amount && forall x: nat :: x <= amount <==> QuoteWithin(liquidity, lower, upper, x)
  }

  /** `amount` is the least base that is worth the segment. */
  ghost predicate LeastBase(liquidity: nat, lower: nat, upper: nat, amount: int) {
    0 <= amount && forall x: nat :: amount <= x <==> BaseCovers(liquidity, lower, upper, x)
  }

  ghost predicate LeastQuote(liquidity: nat, lower: nat, upper: nat, amount: int) {
    0 <= amount && forall x: nat :: amount <= x <==> QuoteCovers(liquidity, lower, upper, x)
  }

  /** `next` is the lowest price that `amount` of base covers down to. */
  ghost predicate LowestCovered(liquidity: nat, price: nat, amount: nat, next: nat) {
    forall q: nat | q <= price :: next <= q <==> BaseCovers(liquidity, q, price, amount)
  }

  /** `next` is the highest price that `amount` of quote covers up to. */
  ghost predicate HighestCovered(liquidity: nat, price: nat, amount: nat, next: nat) {
    forall q: nat | price <= q :: q <= next <==> QuoteCovers(liquidity, price, q, amount)
  }

  lemma BaseIsMost(lower: u128, upper: u128, liquidity: u128, amount: u64)
    requires 0 < lower <= upper
    ensures DeltaA(lower, upper, liquidity, false) == Some(amount) <==> MostBase(liquidity, lower, upper, amount)
  {
    hide BaseBetween, BaseWithin;
    var most := BaseBetween(lower, upper, liquidity, false);
    BaseBetweenIff(lower, upper, liquidity, most);
    forall x: nat ensures x <= most <==> BaseWithin(liquidity, lower, upper, x) {
      BaseBetweenIff(lower, upper, liquidity, x);
    }
    if MostBase(liquidity, lower, upper, amount) {
      assert BaseWithin(liquidity, lower, upper, amount) && BaseWithin(liquidity, lower, upper, most);
    }
  }

  lemma QuoteIsMost(lower: u128, upper: u128, liquidity: u128, amount: u64)
    requires lower <= upper
    ensures DeltaB(lower, upper, liquidity, false) == Some(amount) <==> MostQuote(liquidity, lower, upper, amount)
  {
    hide QuoteBetween, QuoteWithin;
    var most := QuoteBetween(lower, upper, liquidity, false);
    forall x: nat ensures x <= most <==> QuoteWithin(liquidity, lower, upper, x) {
      QuoteBetweenIff(lower, upper, liquidity, x);
    }
    if MostQuote(liquidity, lower, upper, amount) {
      assert QuoteWithin(liquidity, lower, upper, amount) && QuoteWithin(liquidity, lower, upper, most);
    }
  }

  lemma BaseIsLeast(lower: u128, upper: u128, liquidity: u128)
    requires 0 < lower <= upper
    ensures LeastBase(liquidity, lower, upper, BaseBetween(lower, upper, liquidity, true))
  {
    hide BaseBetween, BaseCovers;
    forall x: nat ensures BaseBetween(lower, upper, liquidity, true) <= x <==> BaseCovers(liquidity, lower, upper, x) {
      BaseBetweenIff(lower, upper, liquidity, x);
    }
  }

  lemma QuoteIsLeast(lower: u128, upper: u128, liquidity: u128)
    requires lower <= upper
    ensures LeastQuote(liquidity, lower, upper, QuoteBetween(lower, upper, liquidity, true))
  {
    hide QuoteBetween, QuoteCovers;
    forall x: nat ensures QuoteBetween(lower, upper, liquidity, true) <= x <==> QuoteCovers(liquidity, lower, upper, x) {
      QuoteBetweenIff(lower, upper, liquidity, x);
    }
  }

  lemma SellReaches(price: u128, liquidity: u128, amount: u64, next: u128)
    requires 0 < price && 0 < liquidity
    ensures NextFromA(price, liquidity, amount) == Some(next) <==> next <= price && LowestCovered(liquidity, price, amount, next)
  {
    hide NextFromA, BaseCovers;
    NextFromAIff(price, liquidity, amount, price);
    var reached := NextFromA(price, liquidity, amount).value;
    forall q: nat | q <= price ensures reached <= q <==> BaseCovers(liquidity, q, price, amount) {
      NextFromAIff(price, liquidity, amount, q);
    }
    if next <= price && LowestCovered(liquidity, price, amount, next) {
      assert BaseCovers(liquidity, next, price, amount) && BaseCovers(liquidity, reached, price, amount);
    }
  }

  lemma BuyReaches(price: u128, liquidity: u128, amount: u64, next: u128)
    requires 0 < price && 0 < liquidity
    ensures NextFromB(price, liquidity, amount) == Some(next) <==> price <= next && HighestCovered(liquidity, price, amount, next)
  {
    hide NextFromB, QuoteCovers;
    if NextFromB(price, liquidity, amount).Some? {
      var reached := NextFromB(price, liquidity, amount).value;
      NextFromBIff(price, liquidity, amount, price);
      forall q: nat | price <= q ensures q <= reached <==> QuoteCovers(liquidity, price, q, amount) {
        NextFromBIff(price, liquidity, amount, q);
      }
      if price <= next && HighestCovered(liquidity, price, amount, next) {
        assert QuoteCovers(liquidity, price, next, amount) && QuoteCovers(liquidity, price, reached, amount);
      }
    } else {
      BuyOverflows(price, liquidity, amount);
      assert price <= next ==> QuoteCovers(liquidity, price, Q128, amount) && next < Q128;
    }
  }

  lemma BuyOverflows(price: u128, liquidity: u128, amount: u64)
    requires 0 < liquidity && NextFromB(price, liquidity, amount).None?
    ensures QuoteCovers(liquidity, price, Q128, amount)
  {
    FloorIff(amount * Q128, liquidity, Q128 - price);
    assert liquidity * (Q128 - price) == (Q128 - price) * liquidity;
  }

  // ── composing segments ──────────────────────────────────────────────────

  lemma BaseCoversBoth(liquidity: nat, r: nat, q: nat, p: nat, x: nat, y: nat)
    requires r <= q <= p && 0 < q && BaseCovers(liquidity, q, p, x) && BaseCovers(liquidity, r, q, y)
    ensures BaseCovers(liquidity, r, p, x + y)
  {
    MulMono(liquidity * (p - q), x * (q * p), r);
    MulMono(liquidity * (q - r), y * (r * q), p);
    TwoBaseSteps(liquidity, r, q, p, x, y);
    MulCancel(liquidity * (p - r), (x + y) * (r * p), q);
  }

  lemma TwoBaseSteps(l: int, r: int, q: int, p: int, x: int, y: int)
    requires l * (p - q) * r <= x * (q * p) * r && l * (q - r) * p <= y * (r * q) * p
    ensures l * (p - r) * q <= (x + y) * (r * p) * q
  {
  }

  lemma BaseWithinBoth(liquidity: nat, r: nat, q: nat, p: nat, x: nat, y: nat)
    requires r <= q <= p && 0 < q && BaseWithin(liquidity, q, p, x) && BaseWithin(liquidity, r, q, y)
    ensures BaseWithin(liquidity, r, p, x + y)
  {
    MulMono(x * (q * p), liquidity * (p - q), r);
    MulMono(y * (r * q), liquidity * (q - r), p);
    TwoBaseStepsDown(liquidity, r, q, p, x, y);
    MulCancel((x + y) * (r * p), liquidity * (p - r), q);
  }

  lemma TwoBaseStepsDown(l: int, r: int, q: int, p: int, x: int, y: int)
    requires x * (q * p) * r <= l * (p - q) * r && y * (r * q) * p <= l * (q - r) * p
    ensures (x + y) * (r * p) * q <= l * (p - r) * q
  {
  }

  lemma QuoteCoversBoth(liquidity: nat, p: nat, q: nat, r: nat, x: nat, y: nat)
    requires p <= q <= r && QuoteCovers(liquidity, p, q, x) && QuoteCovers(liquidity, q, r, y)
    ensures QuoteCovers(liquidity, p, r, x + y)
  {
  }

  lemma QuoteWithinBoth(liquidity: nat, p: nat, q: nat, r: nat, x: nat, y: nat)
    requires p <= q <= r && QuoteWithin(liquidity, p, q, x) && QuoteWithin(liquidity, q, r, y)
    ensures QuoteWithin(liquidity, p, r, x + y)
  {
  }

  /** A wider segment holds at least as much. */
  lemma BaseWithinWider(liquidity: nat, lower: nat, upper: nat, upper': nat, amount: nat)
    requires 0 < lower <= upper <= upper' && BaseWithin(liquidity, lower, upper, amount)
    ensures BaseWithin(liquidity, lower, upper', amount)
  {
  }

  lemma QuoteWithinWider(liquidity: nat, lower: nat, lower': nat, upper: nat, amount: nat)
    requires lower' <= lower <= upper && QuoteWithin(liquidity, lower, upper, amount)
    ensures QuoteWithin(liquidity, lower', upper, amount)
  {
  }

  // ── where an input lands inside a segment ───────────────────────────────

  /** A buy too small for the segment stops short of its top. */
  lemma BuyLandsInside(cur: u128, top: u128, liquidity: u128, left: u64)
    requires cur < top && left < QuoteBetween(cur, top, liquidity, true) && NextFromB(cur, liquidity, left).Some?
    ensures cur <= NextFromB(cur, liquidity, left).value < top
    ensures QuoteCovers(liquidity, cur, NextFromB(cur, liquidity, left).value, left)
  {
    hide QuoteBetween, NextFromB;
    var next := NextFromB(cur, liquidity, left).value;
    NextFromBIff(cur, liquidity, left, top);
    QuoteBetweenIff(cur, top, liquidity, left);
    NextFromBIff(cur, liquidity, left, next);
  }

  /** A sell too small for the segment stops above its bottom. */
  lemma SellLandsInside(point: u128, cur: u128, liquidity: u128, left: u64)
    requires 0 < point < cur && 0 < liquidity && left < BaseBetween(point, cur, liquidity, true)
    ensures NextFromA(cur, liquidity, left).Some? && point < NextFromA(cur, liquidity, left).value <= cur
    ensures BaseCovers(liquidity, NextFromA(cur, liquidity, left).value, cur, left)
  {
    hide BaseBetween, NextFromA;
    NextFromAIff(cur, liquidity, left, point);
    BaseBetweenIff(point, cur, liquidity, left);
    NextFromAIff(cur, liquidity, left, NextFromA(cur, liquidity, left).value);
  }

  // ── consecutive pieces of a segment ─────────────────────────────────────

  /** Base bought in two pieces is at most the base of a wider piece. */
  lemma BasePieces(p: u128, q: u128, r: u128, wide: u128, liquidity: u128)
    requires p <= q <= r <= wide && DeltaA(p, q, liquidity, false).Some? && DeltaA(q, r, liquidity, false).Some?
      && DeltaA(p, wide, liquidity, false).Some?
    ensures DeltaA(p, q, liquidity, false).value + DeltaA(q, r, liquidity, false).value
      <= DeltaA(p, wide, liquidity, false).value
  {
    hide BaseBetween, BaseWithin;
    var x: nat, y: nat := DeltaA(p, q, liquidity, false).value, DeltaA(q, r, liquidity, false).value;
    BaseBetweenIff(p, q, liquidity, x);
    BaseBetweenIff(q, r, liquidity, y);
    BaseWithinBoth(liquidity, p, q, r, y, x);
    BaseWithinWider(liquidity, p, r, wide, x + y);
    BaseBetweenIff(p, wide, liquidity, x + y);
  }

  /** Quote sold in two pieces is at most the quote of a wider piece. */
  lemma QuotePieces(wide: u128, r: u128, q: u128, p: u128, liquidity: u128)
    requires wide <= r <= q <= p && DeltaB(q, p, liquidity, false).Some? && DeltaB(r, q, liquidity, false).Some?
      && DeltaB(wide, p, liquidity, false).Some?
    ensures DeltaB(q, p, liquidity, false).value + DeltaB(r, q, liquidity, false).value
      <= DeltaB(wide, p, liquidity, false).value
  {
    hide QuoteBetween, QuoteWithin;
    var x: nat, y: nat := DeltaB(q, p, liquidity, false).value, DeltaB(r, q, liquidity, false).value;
    QuoteBetweenIff(q, p, liquidity, x);
    QuoteBetweenIff(r, q, liquidity, y);
    QuoteWithinBoth(liquidity, r, q, p, y, x);
    QuoteWithinWider(liquidity, r, wide, p, x + y);
    QuoteBetweenIff(wide, p, liquidity, x + y);
  }

  lemma BaseOfLess(p: u128, q: u128, wide: u128, liquidity: u128)
    requires 0 < p <= q <= wide && DeltaA(p, wide, liquidity, false).Some?
    ensures DeltaA(p, q, liquidity, false).Some?
      && DeltaA(p, q, liquidity, false).value <= DeltaA(p, wide, liquidity, false).value
  {
    hide BaseBetween, BaseWithin;
    var x := BaseBetween(p, q, liquidity, false);
    BaseBetweenIff(p, q, liquidity, x);
    BaseWithinWider(liquidity, p, q, wide, x);
    BaseBetweenIff(p, wide, liquidity, x);
  }

  lemma QuoteOfLess(wide: u128, q: u128, p: u128, liquidity: u128)
    requires wide <= q <= p && DeltaB(wide, p, liquidity, false).Some?
    ensures DeltaB(q, p, liquidity, false).Some?
      && DeltaB(q, p, liquidity, false).value <= DeltaB(wide, p, liquidity, false).value
  {
    hide QuoteBetween, QuoteWithin;
    var x := QuoteBetween(q, p, liquidity, false);
    QuoteBetweenIff(q, p, liquidity, x);
    QuoteWithinWider(liquidity, q, wide, p, x);
    QuoteBetweenIff(wide, p, liquidity, x);
  }

  /** A buy short of the segment's top has a price inside it. */
  lemma BuyHasPrice(cur: u128, top: u128, liquidity: u128, left: u64)
    requires cur < top && left < QuoteBetween(cur, top, liquidity, true)
    ensures NextFromB(cur, liquidity, left).Some? && cur <= NextFromB(cur, liquidity, left).value < top
  {
    hide QuoteBetween;
    QuoteNeedsLiquidity(cur, top, liquidity, left);
    QuoteBetweenIff(cur, top, liquidity, left);
    RiseIsShort(left, liquidity, top - cur);
  }

  lemma QuoteNeedsLiquidity(cur: u128, top: u128, liquidity: u128, left: u64)
    requires cur < top && left < QuoteBetween(cur, top, liquidity, true)
    ensures 0 < liquidity
  {
  }

  lemma RiseIsShort(left: nat, liquidity: nat, way: nat)
    requires 0 < liquidity && left * Q128 < liquidity * way
    ensures 0 <= left * Q128 / liquidity < way
  {
    FloorIff(left * Q128, liquidity, 0);
    FloorIff(left * Q128, liquidity, way);
  }

  lemma NextFromBMonotone(cur: u128, liquidity: u128, l: u64, l': u64)
    requires l <= l' && NextFromB(cur, liquidity, l).Some? && NextFromB(cur, liquidity, l').Some?
    ensures NextFromB(cur, liquidity, l).value <= NextFromB(cur, liquidity, l').value
  {
    FloorMono(l * Q128, l' * Q128, liquidity);
  }

  lemma NextFromAMonotone(cur: u128, liquidity: u128, l: u64, l': u64)
    requires 0 < cur && 0 < liquidity && l <= l'
    ensures NextFromA(cur, liquidity, l).Some? && NextFromA(cur, liquidity, l').Some?
    ensures NextFromA(cur, liquidity, l').value <= NextFromA(cur, liquidity, l).value
  {
    hide NextFromA;
    NextFromAIff(cur, liquidity, l, 0);
    var next := NextFromA(cur, liquidity, l).value;
    NextFromAIff(cur, liquidity, l, next);
    NextFromAIff(cur, liquidity, l', next);
    MulNonneg(next, cur);
    MulMono(l, l', next * cur);
  }

  /** Two consecutive buys inside a segment reach no farther than one. */
  lemma BuysReachFarther(cur: u128, liquidity: u128, a: u64, b: u64)
    requires a + b < Q64 && NextFromB(cur, liquidity, a).Some? && NextFromB(cur, liquidity, a + b).Some?
    requires NextFromB(NextFromB(cur, liquidity, a).value, liquidity, b).Some?
    ensures NextFromB(NextFromB(cur, liquidity, a).value, liquidity, b).value <= NextFromB(cur, liquidity, a + b).value
  {
    hide NextFromB;
    var n1 := NextFromB(cur, liquidity, a).value;
    NextFromBIff(cur, liquidity, a, cur);
    NextFromBIff(cur, liquidity, a, n1);
    var n2 := NextFromB(n1, liquidity, b).value;
    NextFromBIff(n1, liquidity, b, n1);
    NextFromBIff(n1, liquidity, b, n2);
    QuoteCoversBoth(liquidity, cur, n1, n2, a, b);
    NextFromBIff(cur, liquidity, a + b, n2);
  }

  /** Two consecutive sells inside a segment reach no farther than one. */
  lemma SellsReachFarther(cur: u128, liquidity: u128, a: u64, b: u64)
    requires a + b < Q64 && 0 < cur && 0 < liquidity
    ensures NextFromA(cur, liquidity, a).Some? && NextFromA(cur, liquidity, a + b).Some?
    ensures NextFromA(NextFromA(cur, liquidity, a).value, liquidity, b).Some?
    ensures NextFromA(cur, liquidity, a + b).value <= NextFromA(NextFromA(cur, liquidity, a).value, liquidity, b).value
  {
    hide NextFromA;
    NextFromAIff(cur, liquidity, a, 0);
    var n1 := NextFromA(cur, liquidity, a).value;
    NextFromAIff(cur, liquidity, a, n1);
    NextFromAIff(n1, liquidity, b, 0);
    var n2 := NextFromA(n1, liquidity, b).value;
    NextFromAIff(n1, liquidity, b, n2);
    BaseCoversBoth(liquidity, n2, n1, cur, a, b);
    NextFromAIff(cur, liquidity, a + b, n2);
  }

  /** Stopping on the way to the segment's end never makes the end cheaper. */
  lemma BuyRestCosts(cur: u128, top: u128, liquidity: u128, a: u64)
    requires cur < top && a < QuoteBetween(cur, top, liquidity, true) && NextFromB(cur, liquidity, a).Some?
    requires NextFromB(cur, liquidity, a).value <= top
    ensures QuoteBetween(cur, top, liquidity, true)
      <= a + QuoteBetween(NextFromB(cur, liquidity, a).value, top, liquidity, true)
  {
    hide NextFromB, QuoteBetween;
    var n1 := NextFromB(cur, liquidity, a).value;
    NextFromBIff(cur, liquidity, a, cur);
    NextFromBIff(cur, liquidity, a, n1);
    var rest := QuoteBetween(n1, top, liquidity, true);
    QuoteBetweenIff(n1, top, liquidity, rest);
    QuoteCoversBoth(liquidity, cur, n1, top, a, rest);
    QuoteBetweenIff(cur, top, liquidity, a + rest);
  }

  lemma SellRestCosts(point: u128, cur: u128, liquidity: u128, a: u64)
    requires 0 < point < cur && 0 < liquidity && a < BaseBetween(point, cur, liquidity, true)
    ensures NextFromA(cur, liquidity, a).Some? && point < NextFromA(cur, liquidity, a).value
    ensures BaseBetween(point, cur, liquidity, true)
      <= a + BaseBetween(point, NextFromA(cur, liquidity, a).value, liquidity, true)
  {
    hide NextFromA, BaseBetween;
    SellLandsInside(point, cur, liquidity, a);
    var n1 := NextFromA(cur, liquidity, a).value;
    var rest := BaseBetween(point, n1, liquidity, true);
    BaseBetweenIff(point, n1, liquidity, rest);
    BaseCoversBoth(liquidity, point, n1, cur, a, rest);
    BaseBetweenIff(point, cur, liquidity, a + rest);
  }

  // ── the fee both programs round up ──────────────────────────────────────

  const FEE_DENOMINATOR: int := 1_000_000_000

  /** The fee on `amount`, rounded up. */
  function FeeOf(amount: u64, numerator: u64): Option<u64> {
    MulNonneg(amount, numerator);
    ToU64(CeilDiv(amount * numerator, FEE_DENOMINATOR))
  }

  /** A fee of at most 100 % exists, is at least the rate, and is at most the amount. */
  lemma FeeFits(amount: u64, numerator: u64)
    requires numerator <= FEE_DENOMINATOR
    ensures FeeOf(amount, numerator).Some? && FeeOf(amount, numerator).value <= amount
    ensures amount * numerator <= FeeOf(amount, numerator).value * FEE_DENOMINATOR
  {
    MulNonneg(amount, numerator);
    MulMono(numerator, FEE_DENOMINATOR, amount);
    var fee := CeilDiv(amount * numerator, FEE_DENOMINATOR);
    CeilIff(amount * numerator, FEE_DENOMINATOR, amount);
    CeilIff(amount * numerator, FEE_DENOMINATOR, fee);
  }

  lemma FeeIsLeast(amount: u64, numerator: u64)
    requires FeeOf(amount, numerator).Some?
    ensures LeastMultiple(FeeOf(amount, numerator).value, amount * numerator, 1_000_000_000)
  {
    MulNonneg(amount, numerator);
    CeilIsLeast(amount * numerator, FEE_DENOMINATOR);
  }

  /** Up to 100 % the fee is the least whole amount at its rate. */
  lemma FeeIff(amount: u64, numerator: u64, fee: u64)
    requires numerator <= FEE_DENOMINATOR
    ensures FeeOf(amount, numerator) == Some(fee) <==> LeastMultiple(fee, amount * numerator, 1_000_000_000)
  {
    hide FeeOf;
    FeeFits(amount, numerator);
    FeeIsLeast(amount, numerator);
    var least: nat := FeeOf(amount, numerator).value;
    if LeastMultiple(fee, amount * numerator, 1_000_000_000) {
      assert amount * numerator <= fee * 1_000_000_000 && amount * numerator <= least * 1_000_000_000;
    }
  }

  /** What a fee rounded up leaves, of two parts and of the whole. */
  lemma NetOfParts(a: u64, b: u64, numerator: u64)
    requires a + b < Q64 && numerator <= FEE_DENOMINATOR
    ensures FeeOf(a, numerator).Some? && FeeOf(b, numerator).Some? && FeeOf(a + b, numerator).Some?
    ensures 0 <= a - FeeOf(a, numerator).value && 0 <= b - FeeOf(b, numerator).value
    ensures (a - FeeOf(a, numerator).value) + (b - FeeOf(b, numerator).value) <= a + b - FeeOf(a + b, numerator).value
  {
    var d := FEE_DENOMINATOR;
    MulNonneg(a, numerator);
    MulNonneg(b, numerator);
    MulMono(numerator, d, a);
    MulMono(numerator, d, b);
    assert (a + b) * numerator == a * numerator + b * numerator;
    var x, y := CeilDiv(a * numerator, d), CeilDiv(b * numerator, d);
    CeilIff(a * numerator, d, x);
    CeilIff(b * numerator, d, y);
    CeilIff(a * numerator, d, a);
    CeilIff(b * numerator, d, b);
    CeilIff((a + b) * numerator, d, x + y);
  }

  lemma NetMonotone(a: u64, b: u64, numerator: u64)
    requires a <= b && numerator <= FEE_DENOMINATOR
    ensures FeeOf(a, numerator).Some? && FeeOf(b, numerator).Some?
    ensures a - FeeOf(a, numerator).value <= b - FeeOf(b, numerator).value
  {
    NetOfParts(a, b - a, numerator);
  }
}

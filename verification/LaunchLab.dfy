/** The Raydium LaunchLab bonding curve and its runs (`src/quote/launchlab.rs`). */
module LaunchLab {
  import opened Numbers

  const FEE_RATE_DENOMINATOR: int := 1_000_000

  datatype Curve = Curve(
    status: nat,
    curveType: nat,
    virtualBase: u64,
    virtualQuote: u64,
    realBase: u64,
    realQuote: u64,
    totalBaseSell: u64,
    fundRaising: u64,
    protocolRate: u64,
    platformRate: u64,
    creatorRate: u64)

  datatype Quote = Quote(amountOut: u64, fee: u64)

  /** The summed rate's fee, rounded up once. */
  function TotalFee(c: Curve, amount: u64): Option<u64> {
    var rate :- ToU64(c.protocolRate + c.platformRate + c.creatorRate);
    MulNonneg(amount, rate);
    ToU64(CeilDiv(amount * rate, FEE_RATE_DENOMINATOR))
  }

  predicate Quotable(c: Curve) {
    c.status == 0 && c.curveType == 0 && c.virtualBase > c.realBase
  }

  function QuoteSide(c: Curve): nat {
    c.virtualQuote + c.realQuote
  }

  function BaseSide(c: Curve): int {
    c.virtualBase - c.realBase
  }

  /** Constant product: `amount` against `into`, out of `from`. */
  function Swapped(from: nat, into: nat, amount: nat): nat
    requires 0 < into + amount
  {
    MulNonneg(from, amount);
    from * amount / (into + amount)
  }

  function BuyExactIn(c: Curve, quoteIn: u64): Option<Quote> {
    if !Quotable(c) || quoteIn == 0 then None
    else
      var fee :- TotalFee(c, quoteIn);
      var less :- ToU64(quoteIn - fee);
      var raised :- ToU64(c.realQuote + less);
      if raised > c.fundRaising || QuoteSide(c) + less == 0 then None
      else
        var out :- ToU64(Swapped(BaseSide(c), QuoteSide(c), less));
        var sold :- ToU64(c.realBase + out);
        if out == 0 || sold > c.totalBaseSell then None else Some(Quote(out, fee))
  }

  function GrossOf(c: Curve, baseIn: u64): nat
    requires Quotable(c)
  {
    Swapped(QuoteSide(c), BaseSide(c), baseIn)
  }

  function SellExactIn(c: Curve, baseIn: u64): Option<Quote> {
    if !Quotable(c) || baseIn == 0 || baseIn > c.realBase then None
    else
      var gross :- ToU64(GrossOf(c, baseIn));
      if gross == 0 || gross > c.realQuote then None
      else
        var fee :- TotalFee(c, gross);
        var net :- ToU64(gross - fee);
        Some(Quote(net, fee))
  }

  // ── constant product ────────────────────────────────────────────────────

  /** The product rule pays the most that keeps the product from falling. */
  lemma MostTheProductAllows(from: nat, into: nat, amount: nat, out: int)
    requires 0 < into + amount
    ensures out <= Swapped(from, into, amount) <==> into * from <= (into + amount) * (from - out)
    ensures Swapped(from, into, amount) <= from
  {
    MulNonneg(from, amount);
    FloorIff(from * amount, into + amount, out);
    FloorIff(from * amount, into + amount, from + 1);
    assert (from + 1) * (into + amount) == from * into + into + amount + from * amount;
    MulNonneg(from, into);
    assert (into + amount) * (from - out) == into * from + from * amount - out * (into + amount);
  }

  function Product(c: Curve): int {
    QuoteSide(c) * BaseSide(c)
  }

  /** The curve after a quoted buy: what is left after the fee enters, the output leaves. */
  function AfterBuy(c: Curve, quoteIn: u64, q: Quote): Curve
    requires BuyExactIn(c, quoteIn) == Some(q)
  {
    c.(realQuote := c.realQuote + (quoteIn - q.fee), realBase := c.realBase + q.amountOut)
  }

  function AfterSell(c: Curve, baseIn: u64, q: Quote): Curve
    requires SellExactIn(c, baseIn) == Some(q)
  {
    c.(realBase := c.realBase - baseIn, realQuote := c.realQuote - (q.amountOut + q.fee))
  }

  // ── the quotes, by the curve's own fields ───────────────────────────────

  /** A live constant-product curve with base left to sell. */
  predicate Live(c: Curve) {
    c.status == 0 && c.curveType == 0 && c.realBase < c.virtualBase
  }

  /** The least whole fee at the protocol's, the platform's and the creator's rates together, out of a million. */
  ghost predicate LeastFee(c: Curve, amount: nat, fee: nat) {
    c.protocolRate + c.platformRate + c.creatorRate < Q64
    && LeastMultiple(fee, amount * (c.protocolRate + c.platformRate + c.creatorRate), 1_000_000)
  }

  /** A buy in full: the fee comes out of the quote paid in; the rest buys the most base that keeps the product of virtual
      and real reserves, without passing the raise cap or selling more base than is for sale. */
  ghost predicate IsBuy(c: Curve, quoteIn: u64, q: Quote) {
    var entered := quoteIn - q.fee;
    && Live(c) && 0 < quoteIn && LeastFee(c, quoteIn, q.fee) && 0 <= entered && c.realQuote + entered <= c.fundRaising
    && MostOfReserve(c.virtualQuote + c.realQuote, c.virtualBase - c.realBase, entered, q.amountOut)
    && 0 < q.amountOut && c.realBase + q.amountOut <= c.totalBaseSell
  }

  /** A sell in full: at most the base sold comes back, for the most quote that keeps the product, which the real quote
      must hold; the fee comes out of that. */
  ghost predicate IsSell(c: Curve, baseIn: u64, q: Quote) {
    var gross := q.amountOut + q.fee;
    && Live(c) && 0 < baseIn <= c.realBase && LeastFee(c, gross, q.fee) && 0 < gross <= c.realQuote
    && MostOfReserve(c.virtualBase - c.realBase, c.virtualQuote + c.realQuote, baseIn, gross)
  }

  lemma FeeIff(c: Curve, amount: u64, fee: u64)
    ensures TotalFee(c, amount) == Some(fee) <==> LeastFee(c, amount, fee)
  {
    var rate := c.protocolRate + c.platformRate + c.creatorRate;
    if rate < Q64 {
      MulNonneg(amount, rate);
      CeilIsLeast(amount * rate, 1_000_000);
      if LeastFee(c, amount, fee) {
        LeastIsUnique(fee, CeilDiv(amount * rate, 1_000_000), amount * rate, 1_000_000);
      }
    }
  }

  lemma SwappedIff(from: nat, into: nat, amount: nat, out: nat)
    requires 0 < into + amount
    ensures out == Swapped(from, into, amount) <==> MostOfReserve(into, from, amount, out)
  {
    hide KeepsProduct;
    ProductIsMost(into, from, amount);
    var most := Swapped(from, into, amount);
    if MostOfReserve(into, from, amount, out) {
      assert KeepsProduct(into, from, amount, out) && KeepsProduct(into, from, amount, most);
    }
  }

  /** A buy is quoted exactly as the curve's own fields say, and exactly when they say so. */
  lemma BuyIsExact(c: Curve, quoteIn: u64, q: Quote)
    ensures BuyExactIn(c, quoteIn) == Some(q) <==> IsBuy(c, quoteIn, q)
  {
    hide Swapped, TotalFee, LeastFee, MostOfReserve;
    FeeIff(c, quoteIn, q.fee);
    var entered := quoteIn - q.fee;
    if Quotable(c) && 0 <= entered && 0 < QuoteSide(c) + entered {
      SwappedIff(BaseSide(c), QuoteSide(c), entered, q.amountOut);
    }
    if IsBuy(c, quoteIn, q) {
      NeedsReserve(QuoteSide(c), BaseSide(c), entered, q.amountOut);
    }
  }

  lemma NeedsReserve(into: int, from: int, amount: int, out: int)
    requires MostOfReserve(into, from, amount, out)
    ensures 0 < into + amount && out <= from
  {
  }

  /** A sell is quoted exactly as the curve's own fields say, and exactly when they say so. */
  lemma SellIsExact(c: Curve, baseIn: u64, q: Quote)
    ensures SellExactIn(c, baseIn) == Some(q) <==> IsSell(c, baseIn, q)
  {
    hide Swapped, TotalFee, LeastFee, MostOfReserve;
    var gross: nat := q.amountOut + q.fee;
    if Quotable(c) {
      SwappedIff(QuoteSide(c), BaseSide(c), baseIn, gross);
      if gross <= c.realQuote {
        FeeIff(c, gross, q.fee);
      }
    }
  }

  // ── runs ────────────────────────────────────────────────────────────────

  datatype Order = Buy(quoteIn: u64) | Sell(baseIn: u64)

  /** An order that is not quoted changes nothing. */
  function Execute(c: Curve, o: Order): Curve {
    match o
    case Buy(quoteIn) => (match BuyExactIn(c, quoteIn) case None => c case Some(q) => AfterBuy(c, quoteIn, q))
    case Sell(baseIn) => (match SellExactIn(c, baseIn) case None => c case Some(q) => AfterSell(c, baseIn, q))
  }

  function Run(c: Curve, orders: seq<Order>): Curve
    decreases |orders|
  {
    if orders == [] then c else Run(Execute(c, orders[0]), orders[1..])
  }

  /** A run is its orders one after the other. A quoted buy adds what the fee leaves of it to the real quote and what it
      receives to the real base; a quoted sell takes both sides back, fee included. */
  lemma {:induction false} RunsInOrder(c: Curve, before: seq<Order>, after: seq<Order>, amount: u64)
    ensures Run(c, before + after) == Run(Run(c, before), after)
    ensures Run(c, []) == c
    ensures match BuyExactIn(c, amount)
      case None => Run(c, [Buy(amount)]) == c
      case Some(q) => Run(c, [Buy(amount)]) == c.(realQuote := c.realQuote + amount - q.fee, realBase := c.realBase + q.amountOut)
    ensures match SellExactIn(c, amount)
      case None => Run(c, [Sell(amount)]) == c
      case Some(q) => Run(c, [Sell(amount)]) == c.(realQuote := c.realQuote - q.amountOut - q.fee,
        realBase := c.realBase - amount)
    decreases |before|
  {
    hide BuyExactIn, SellExactIn;
    assert [Buy(amount)][1..] == [] && [Sell(amount)][1..] == [];
    if before == [] {
      assert before + after == after;
    } else {
      RunsInOrder(Execute(c, before[0]), before[1..], after, amount);
      assert (before + after)[1..] == before[1..] + after;
    }
  }

  predicate Fresh(c: Curve) {
    c.realBase == 0 && c.realQuote == 0
  }

  /** What every reachable curve keeps. */
  predicate Backed(c: Curve) {
    && c.realBase <= c.virtualBase && c.realBase <= c.totalBaseSell && c.realQuote <= c.fundRaising
    && c.virtualQuote * c.virtualBase <= Product(c)
  }

  /** The same curve but for its real reserves. */
  predicate SameCurve(c: Curve, d: Curve) {
    d.(realBase := c.realBase, realQuote := c.realQuote) == c
  }

  lemma BuyKeepsBacked(c: Curve, quoteIn: u64)
    requires Backed(c) && BuyExactIn(c, quoteIn).Some?
    ensures var d := AfterBuy(c, quoteIn, BuyExactIn(c, quoteIn).value); Backed(d) && Product(c) <= Product(d)
  {
    hide Swapped, TotalFee;
    var q := BuyExactIn(c, quoteIn).value;
    MostTheProductAllows(BaseSide(c), QuoteSide(c), quoteIn - q.fee, q.amountOut);
  }

  lemma SellKeepsBacked(c: Curve, baseIn: u64)
    requires Backed(c) && SellExactIn(c, baseIn).Some?
    ensures var d := AfterSell(c, baseIn, SellExactIn(c, baseIn).value); Backed(d) && Product(c) <= Product(d)
  {
    hide Swapped, TotalFee;
    var q := SellExactIn(c, baseIn).value;
    MostTheProductAllows(QuoteSide(c), BaseSide(c), baseIn, q.amountOut + q.fee);
  }

  /** However it got there, a curve can pay for what it buys back: the gross never exceeds the real quote. */
  lemma GrossIsCovered(c: Curve, baseIn: u64)
    requires Backed(c) && Quotable(c) && baseIn <= c.realBase
    ensures GrossOf(c, baseIn) <= c.realQuote
  {
    hide Swapped;
    var gross := GrossOf(c, baseIn);
    MostTheProductAllows(QuoteSide(c), BaseSide(c), baseIn, gross);
    var rest := QuoteSide(c) - gross;
    MulMono(BaseSide(c) + baseIn, c.virtualBase, rest);
    MulCancel(c.virtualQuote, rest, c.virtualBase);
  }

  /** On a reachable curve a sell of what was sold is refused only where it earns nothing or the fee exceeds the
      proceeds (or does not exist); the guard on the real quote never fires. */
  lemma SellRefusedOnlyForNothing(c: Curve, baseIn: u64)
    requires Backed(c) && Quotable(c) && 0 < baseIn <= c.realBase
    ensures GrossOf(c, baseIn) <= c.realQuote
    ensures SellExactIn(c, baseIn).None? <==>
            GrossOf(c, baseIn) == 0 || TotalFee(c, GrossOf(c, baseIn)).None?
                || GrossOf(c, baseIn) < TotalFee(c, GrossOf(c, baseIn)).value
  {
    hide Swapped, TotalFee, GrossOf, Backed, Quotable;
    GrossIsCovered(c, baseIn);
  }

  lemma ExecuteKeepsBacked(c: Curve, o: Order)
    requires Backed(c)
    ensures Backed(Execute(c, o)) && Product(c) <= Product(Execute(c, o)) && SameCurve(c, Execute(c, o))
  {
    hide BuyExactIn, SellExactIn;
    match o
    case Buy(quoteIn) => if BuyExactIn(c, quoteIn).Some? { BuyKeepsBacked(c, quoteIn); }
    case Sell(baseIn) => if SellExactIn(c, baseIn).Some? { SellKeepsBacked(c, baseIn); }
  }

  lemma {:induction false} RunKeepsBacked(c: Curve, orders: seq<Order>)
    requires Backed(c)
    ensures Backed(Run(c, orders)) && Product(c) <= Product(Run(c, orders)) && SameCurve(c, Run(c, orders))
    decreases |orders|
  {
    hide Execute, Backed, Product;
    if orders != [] {
      ExecuteKeepsBacked(c, orders[0]);
      RunKeepsBacked(Execute(c, orders[0]), orders[1..]);
    }
  }

  /** From a fresh curve, over any run of buys and sells: the product of virtual-plus-real reserves never falls, the
      real reserves stay within their caps, and any amount up to all the base sold can be bought back in full. */
  lemma EveryRunIsBacked(c: Curve, before: seq<Order>, after: seq<Order>, baseIn: u64)
    requires Fresh(c)
    ensures var mid, end := Run(c, before), Run(Run(c, before), after);
      && c.virtualQuote * c.virtualBase <= Product(mid) <= Product(end)
      && end.realBase <= c.totalBaseSell && end.realQuote <= c.fundRaising
      && (Quotable(end) && baseIn <= end.realBase ==> GrossOf(end, baseIn) <= end.realQuote)
  {
    hide Run, Quotable, GrossOf;
    RunKeepsBacked(c, before);
    RunKeepsBacked(Run(c, before), after);
    var end := Run(Run(c, before), after);
    if Quotable(end) && baseIn <= end.realBase {
      GrossIsCovered(end, baseIn);
    }
  }

  // ── no gain ─────────────────────────────────────────────────────────────

  /** Selling back what a buy delivered grosses at most what entered the curve. */
  lemma RoundTripNeverGains(c: Curve, quoteIn: u64)
    requires BuyExactIn(c, quoteIn).Some?
    ensures var q := BuyExactIn(c, quoteIn).value; var d := AfterBuy(c, quoteIn, q);
      Quotable(d) ==> GrossOf(d, q.amountOut) <= quoteIn - q.fee
  {
    hide Swapped, TotalFee;
    var q := BuyExactIn(c, quoteIn).value;
    var less, base := quoteIn - q.fee, BaseSide(c);
    var d := AfterBuy(c, quoteIn, q);
    if Quotable(d) {
      MostTheProductAllows(base, QuoteSide(c), less, q.amountOut);
      var gross := GrossOf(d, q.amountOut);
      MostTheProductAllows(QuoteSide(d), BaseSide(d), q.amountOut, gross);
      assert base * (QuoteSide(d) - gross) >= QuoteSide(c) * base;
      MulCancel(QuoteSide(c), QuoteSide(d) - gross, base);
    }
  }

  lemma FeesOfParts(c: Curve, a: u64, b: u64)
    requires a + b < Q64 && TotalFee(c, a).Some? && TotalFee(c, b).Some? && TotalFee(c, a + b).Some?
    ensures TotalFee(c, a + b).value <= TotalFee(c, a).value + TotalFee(c, b).value
  {
  }

  /** Two swaps in a row never take more than one of at least both inputs. */
  lemma TwoSwaps(from: nat, into: nat, x: nat, y: nat, all: nat)
    requires 0 < into + x && x + y <= all
    ensures Swapped(from, into, x) <= from
    ensures Swapped(from, into, x) + Swapped(from - Swapped(from, into, x), into + x, y) <= Swapped(from, into, all)
  {
    hide Swapped;
    var out := Swapped(from, into, x);
    MostTheProductAllows(from, into, x, out);
    var more := Swapped(from - out, into + x, y);
    MostTheProductAllows(from - out, into + x, y, more);
    MulMono(into + x + y, into + all, from - out - more);
    MostTheProductAllows(from, into, all, out + more);
  }

  /** Two consecutive buys never deliver more than one of the sum. */
  lemma SplitBuyNeverPaysMore(c: Curve, a: u64, b: u64)
    requires a + b < Q64 && BuyExactIn(c, a).Some? && BuyExactIn(c, a + b).Some?
    requires BuyExactIn(AfterBuy(c, a, BuyExactIn(c, a).value), b).Some?
    ensures var q := BuyExactIn(c, a).value;
      q.amountOut + BuyExactIn(AfterBuy(c, a, q), b).value.amountOut <= BuyExactIn(c, a + b).value.amountOut
  {
    hide Swapped, TotalFee;
    var q, whole := BuyExactIn(c, a).value, BuyExactIn(c, a + b).value;
    var d := AfterBuy(c, a, q);
    var r := BuyExactIn(d, b).value;
    SameFee(c, d, b);
    FeesOfParts(c, a, b);
    TwoSwaps(BaseSide(c), QuoteSide(c), a - q.fee, b - r.fee, a + b - whole.fee);
  }

  lemma SameFee(c: Curve, d: Curve, amount: u64)
    requires SameCurve(c, d)
    ensures TotalFee(c, amount) == TotalFee(d, amount)
  {
  }
}

/** Any run of buys and sells on a DBC curve leaves the reserve able to pay for every sell. */
module DbcRuns {
  import opened Numbers
  import opened SqrtCurve
  import opened DbcCurve
  import opened DbcAreas

  /** An ascending curve whose first segment starts at the start price. */
  predicate WellFormed(config: Config) {
    config.curve != [] && Rising(config.curve) && 0 < config.startPrice <= config.curve[0].price
  }

  function Last(curve: seq<Point>): u128
    requires curve != []
  {
    curve[|curve| - 1].price
  }

  /** A price a pool can be at. */
  predicate OnCurve(config: Config, price: u128)
    requires WellFormed(config)
  {
    config.startPrice <= price <= Last(config.curve) && (price == config.startPrice || price <= Ceiling(config))
  }

  /** The reserve covers the exact area from the start price up. */
  predicate Solvent(pool: Pool) {
    && WellFormed(pool.config) && OnCurve(pool.config, pool.price)
    && QuoteBelow(pool.config.curve, pool.config.startPrice, pool.price) <= pool.quoteReserve * Q128
  }

  predicate Fresh(pool: Pool) {
    WellFormed(pool.config) && pool.price == pool.config.startPrice && pool.quoteReserve == 0
  }

  /** One order, and the volatility the program has accumulated when it arrives. */
  datatype Order = Order(buy: bool, amount: u64, point: u64, volatility: u128)

  /** What entered the curve and what left it, fee included. */
  function Entered(pool: Pool, buy: bool, amount: u64, q: Quote): int {
    amount - (if FeeOnInput(pool, buy) then q.fee else 0)
  }

  function Left(pool: Pool, buy: bool, q: Quote): int {
    q.amountOut + (if FeeOnInput(pool, buy) then 0 else q.fee)
  }

  /** The pool after a quoted swap; `None` if the reserve cannot pay. */
  function Settle(pool: Pool, buy: bool, amount: u64, q: Quote): Option<Pool> {
    var reserve :- ToU64(pool.quoteReserve + if buy then Entered(pool, buy, amount, q) else -Left(pool, buy, q));
    Some(pool.(quoteReserve := reserve, price := q.price))
  }

  /** An order that is not quoted changes nothing. */
  function Execute(pool: Pool, o: Order): Option<Pool> {
    var p := pool.(volatility := o.volatility);
    var q := SwapExactIn(p, o.buy, o.amount, o.point);
    if q.None? then Some(p) else Settle(p, o.buy, o.amount, q.value)
  }

  function Run(pool: Pool, orders: seq<Order>): Option<Pool>
    decreases |orders|
  {
    if orders == [] then Some(pool)
    else
      var next :- Execute(pool, orders[0]);
      Run(next, orders[1..])
  }

  /** What one order leaves: a quoted buy adds what an input-side fee leaves of it to the reserve, a quoted sell takes what it
      pays out and an output-side fee from it, and both move the price. */
  predicate Executed(pool: Pool, o: Order, end: Pool) {
    var p := pool.(volatility := o.volatility);
    match SwapExactIn(p, o.buy, o.amount, o.point)
    case None => end == p
    case Some(q) =>
      && end.config == pool.config && end.price == q.price && end.activationPoint == pool.activationPoint
      && end.migrated == pool.migrated && end.volatility == o.volatility
      && end.quoteReserve == if o.buy then pool.quoteReserve + o.amount - (if pool.config.collectFeeMode == 0 then q.fee else 0)
                             else pool.quoteReserve - q.amountOut - q.fee
  }

  /** A run is its orders one after the other. */
  lemma {:induction false} RunsInOrder(pool: Pool, before: seq<Order>, after: seq<Order>, o: Order)
    ensures Run(pool, before + after) == (match Run(pool, before) case None => None case Some(mid) => Run(mid, after))
    ensures Run(pool, []) == Some(pool)
    ensures Run(pool, [o]).Some? ==> Executed(pool, o, Run(pool, [o]).value)
    decreases |before|
  {
    hide SwapExactIn;
    assert [o][1..] == [];
    if before == [] {
      assert before + after == after;
    } else {
      assert (before + after)[1..] == before[1..] + after;
      if Execute(pool, before[0]).Some? {
        RunsInOrder(Execute(pool, before[0]).value, before[1..], after, o);
      }
    }
  }

  // ── a quote and the walk inside it ──────────────────────────────────────

  lemma QuoteIsWalk(pool: Pool, buy: bool, amount: u64, point: u64)
    requires SwapExactIn(pool, buy, amount, point).Some?
    ensures var q := SwapExactIn(pool, buy, amount, point).value;
      && 0 <= Entered(pool, buy, amount, q) <= amount && 0 <= Left(pool, buy, q) < Q64
      && (buy ==> pool.quoteReserve + Entered(pool, buy, amount, q) < pool.config.threshold)
      && (if buy then QuoteToBase(pool.config, pool.price, Entered(pool, buy, amount, q))
          else BaseToQuote(pool.config, pool.price, Entered(pool, buy, amount, q))) == Some(Trade(Left(pool, buy, q), q.price))
  {
    hide QuoteToBase, BaseToQuote, FeeNumerator, FeeOf;
  }

  /** A buy pays for the area it adds and stops at the migration price. */
  lemma BuyStep(pool: Pool, amount: u64, point: u64)
    requires Solvent(pool) && SwapExactIn(pool, true, amount, point).Some?
    ensures var q := SwapExactIn(pool, true, amount, point).value; var next := Settle(pool, true, amount, q);
      next.Some? && Solvent(next.value) && pool.price <= q.price <= Ceiling(pool.config)
  {
    hide SwapExactIn, BuyFrom, QuoteArea, BaseArea;
    var q := SwapExactIn(pool, true, amount, point).value;
    var config, entered := pool.config, Entered(pool, true, amount, q);
    QuoteIsWalk(pool, true, amount, point);
    BuyIsFair(config.curve, Ceiling(config), 0, pool.price, entered, 0);
    AreasAdd(config.curve, |config.curve|, config.startPrice, pool.price, q.price);
  }

  /** A sell takes at most the area it removes, so the reserve covers it, and ends at or above the start price. */
  lemma SellStep(pool: Pool, amount: u64, point: u64)
    requires Solvent(pool) && SwapExactIn(pool, false, amount, point).Some?
    ensures var q := SwapExactIn(pool, false, amount, point).value; var next := Settle(pool, false, amount, q);
      && Left(pool, false, q) <= pool.quoteReserve && next.Some? && Solvent(next.value)
      && pool.config.startPrice <= q.price <= pool.price
  {
    hide SwapExactIn, SellFrom, QuoteArea, BaseArea;
    var q := SwapExactIn(pool, false, amount, point).value;
    var config, entered := pool.config, Entered(pool, false, amount, q);
    QuoteIsWalk(pool, false, amount, point);
    SellIsFair(config.curve, config.startPrice, Lowest(config.curve), pool.price, entered, 0);
    AreasAdd(config.curve, |config.curve|, config.startPrice, q.price, pool.price);
    AreasNonneg(config.curve, |config.curve|, config.startPrice, q.price);
  }

  lemma ExecuteKeepsSolvent(pool: Pool, o: Order)
    requires Solvent(pool)
    ensures Execute(pool, o).Some? && Solvent(Execute(pool, o).value) && Execute(pool, o).value.config == pool.config
  {
    hide SwapExactIn, QuoteArea, OnCurve;
    var p := pool.(volatility := o.volatility);
    assert Solvent(p);
    if SwapExactIn(p, o.buy, o.amount, o.point).Some? {
      if o.buy { BuyStep(p, o.amount, o.point); } else { SellStep(p, o.amount, o.point); }
    }
  }

  lemma {:induction false} RunKeepsSolvent(pool: Pool, orders: seq<Order>)
    requires Solvent(pool)
    ensures Run(pool, orders).Some? && Solvent(Run(pool, orders).value) && Run(pool, orders).value.config == pool.config
    decreases |orders|
  {
    hide Execute, Solvent;
    if orders != [] {
      ExecuteKeepsSolvent(pool, orders[0]);
      RunKeepsSolvent(Execute(pool, orders[0]).value, orders[1..]);
    }
  }

  /** From a fresh pool, whatever is bought and sold at whatever fees, the reserve pays every sell and still covers
      the exact area down to the start price, and the price stays between the start and the migration price. */
  lemma EveryRunIsSolvent(pool: Pool, orders: seq<Order>)
    requires Fresh(pool)
    ensures Run(pool, orders).Some?
    ensures var end := Run(pool, orders).value;
      && end.config == pool.config && OnCurve(end.config, end.price)
      && QuoteBelow(end.config.curve, end.config.startPrice, end.price) <= end.quoteReserve * Q128
  {
    hide Run, QuoteArea;
    AreasAdd(pool.config.curve, |pool.config.curve|, pool.price, pool.price, pool.price);
    RunKeepsSolvent(pool, orders);
  }
}

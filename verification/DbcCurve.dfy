/** The DBC bonding curve: walking its segments up and down, and the fees around the walk (`src/quote/dbc.rs`). */
module DbcCurve {
  import opened Numbers
  import opened SqrtCurve
  import FeeSchedules

  const MAX_FEE_NUMERATOR: int := 990_000_000

  /** A curve point closes the segment below it, which has its liquidity. */
  datatype Point = Point(price: u128, liquidity: u128)

  datatype Config = Config(
    curve: seq<Point>,
    startPrice: u128,
    migrationPrice: u128,
    threshold: u64,
    collectFeeMode: nat,
    cliff: u64,
    firstFactor: u16,
    secondFactor: u64,
    thirdFactor: u64,
    baseFeeMode: nat,
    dynamicFee: bool,
    variableFeeControl: u32,
    binStep: u16)

  datatype Pool = Pool(config: Config, price: u128, quoteReserve: u64, activationPoint: u64, migrated: bool, volatility: u128)

  /** Gross output and the price a walk ends at. */
  datatype Trade = Trade(out: u64, price: u128)

  datatype Quote = Quote(amountOut: u64, fee: u64, price: u128)

  // ── walking the segments ────────────────────────────────────────────────

  /** The price no buy passes. */
  function Ceiling(config: Config): u128 {
    if config.migrationPrice == 0 then Q128 - 1 else config.migrationPrice
  }

  /** A buy with `left` to spend at price `cur`, from curve point `i` up. */
  function BuyFrom(curve: seq<Point>, stop: u128, i: nat, cur: u128, left: u64, out: u64): Option<Trade>
    requires i <= |curve|
    decreases |curve| - i
  {
    if i == |curve| then None
    else
      var top, liquidity := Min(curve[i].price, stop), curve[i].liquidity;
      if top <= cur then BuyFrom(curve, stop, i + 1, cur, left, out)
      else
        var maxIn := QuoteBetween(cur, top, liquidity, true);
        if left < maxIn then
          var next :- NextFromB(cur, liquidity, left);
          var got :- DeltaA(cur, next, liquidity, false);
          var total :- ToU64(out + got);
          Some(Trade(total, next))
        else
          var got :- DeltaA(cur, top, liquidity, false);
          var total :- ToU64(out + got);
          if left == maxIn then Some(Trade(total, top))
          else if top == stop then None
          else BuyFrom(curve, stop, i + 1, top, left - maxIn, total)
  }

  /** A sell with `left` to sell at price `cur`, with the lowest `n` points still below it. */
  function SellFrom(curve: seq<Point>, start: u128, n: nat, cur: u128, left: u64, out: u64): Option<Trade>
    requires n == 0 || n < |curve|
    decreases n
  {
    if n == 0 then SellBelow(curve, start, cur, left, out)
    else
      var point, liquidity := curve[n - 1].price, curve[n].liquidity;
      if point >= cur then SellFrom(curve, start, n - 1, cur, left, out)
      else if point == 0 then None
      else
        var maxIn := BaseBetween(point, cur, liquidity, true);
        if left < maxIn then
          var next :- NextFromA(cur, liquidity, left);
          var got :- DeltaB(next, cur, liquidity, false);
          var total :- ToU64(out + got);
          Some(Trade(total, next))
        else
          var got :- DeltaB(point, cur, liquidity, false);
          var total :- ToU64(out + got);
          SellFrom(curve, start, n - 1, point, left - maxIn, total)
  }

  /** The last piece of a sell, in the first segment: never below the start price. */
  function SellBelow(curve: seq<Point>, start: u128, cur: u128, left: u64, out: u64): Option<Trade> {
    if left == 0 then Some(Trade(out, cur))
    else if curve == [] then None
    else
      var liquidity := curve[0].liquidity;
      var next :- NextFromA(cur, liquidity, left);
      if next < start then None
      else
        var got :- DeltaB(next, cur, liquidity, false);
        var total :- ToU64(out + got);
        Some(Trade(total, next))
  }

  function Lowest(curve: seq<Point>): nat {
    if curve == [] then 0 else |curve| - 1
  }

  function QuoteToBase(config: Config, price: u128, amount: u64): Option<Trade> {
    BuyFrom(config.curve, Ceiling(config), 0, price, amount, 0)
  }

  function BaseToQuote(config: Config, price: u128, amount: u64): Option<Trade> {
    SellFrom(config.curve, config.startPrice, Lowest(config.curve), price, amount, 0)
  }

  method BuyLoop(config: Config, price: u128, amount: u64) returns (r: Option<Trade>)
    ensures r == QuoteToBase(config, price, amount)
  {
    hide QuoteBetween, NextFromB, DeltaA;
    var out: u64, cur: u128, left: u64 := 0, price, amount;
    var stop := Ceiling(config);
    var i := 0;
    while i < |config.curve|
      invariant 0 <= i <= |config.curve|
      invariant QuoteToBase(config, price, amount) == BuyFrom(config.curve, stop, i, cur, left, out)
    {
      var top, liquidity := Min(config.curve[i].price, stop), config.curve[i].liquidity;
      i := i + 1;
      if top <= cur {
        continue;
      }
      var maxIn := QuoteBetween(cur, top, liquidity, true);
      if left < maxIn {
        var next := NextFromB(cur, liquidity, left);
        if next.None? { return None; }
        var got := DeltaA(cur, next.value, liquidity, false);
        if got.None? || out + got.value > U64_MAX { return None; }
        return Some(Trade(out + got.value, next.value));
      }
      var got := DeltaA(cur, top, liquidity, false);
      if got.None? || out + got.value > U64_MAX { return None; }
      out := out + got.value;
      cur := top;
      left := left - maxIn;
      if left == 0 {
        return Some(Trade(out, cur));
      }
      if cur == stop {
        return None;
      }
    }
    return None;
  }

  method SellLoop(config: Config, price: u128, amount: u64) returns (r: Option<Trade>)
    ensures r == BaseToQuote(config, price, amount)
  {
    hide BaseBetween, NextFromA, DeltaB;
    var curve := config.curve;
    var out: u64, cur: u128, left: u64 := 0, price, amount;
    var n := Lowest(curve);
    while n > 0
      invariant n == 0 || 0 < n < |curve|
      invariant BaseToQuote(config, price, amount) == SellFrom(curve, config.startPrice, n, cur, left, out)
      decreases n
    {
      var point, liquidity := curve[n - 1].price, curve[n].liquidity;
      n := n - 1;
      if point >= cur {
        continue;
      }
      if point == 0 {
        return None;
      }
      var maxIn := BaseBetween(point, cur, liquidity, true);
      if left < maxIn {
        var next := NextFromA(cur, liquidity, left);
        if next.None? { return None; }
        var got := DeltaB(next.value, cur, liquidity, false);
        if got.None? || out + got.value > U64_MAX { return None; }
        return Some(Trade(out + got.value, next.value));
      }
      var got := DeltaB(point, cur, liquidity, false);
      if got.None? || out + got.value > U64_MAX { return None; }
      out := out + got.value;
      cur := point;
      left := left - maxIn;
    }
    if left > 0 {
      if curve == [] { return None; }
      var liquidity := curve[0].liquidity;
      var next := NextFromA(cur, liquidity, left);
      if next.None? || next.value < config.startPrice { return None; }
      var got := DeltaB(next.value, cur, liquidity, false);
      if got.None? || out + got.value > U64_MAX { return None; }
      out := out + got.value;
      cur := next.value;
    }
    return Some(Trade(out, cur));
  }

  // ── fees ────────────────────────────────────────────────────────────────

  /** The scheduler's fee after `period` periods. */
  function ScheduledFee(cliff: u64, reduction: u64, exponential: bool, period: u64): Option<u64> {
    if exponential then FeeSchedules.ExponentialFee(cliff, reduction, period)
    else
      MulNonneg(period, reduction);
      var cut :- ToU64(period * reduction);
      ToU64(cliff - cut)
  }

  /** `None` inside a rate limiter's window, for an unknown mode, or where the schedule underflows. */
  function BaseFeeNumerator(pool: Pool, point: u64, buy: bool): Option<u64> {
    var c := pool.config;
    var elapsed := Max(point - pool.activationPoint, 0);
    if c.baseFeeMode == 0 || c.baseFeeMode == 1 then
      if c.secondFactor == 0 then Some(c.cliff)
      else
        ScheduledFee(c.cliff, c.thirdFactor, c.baseFeeMode == 1, Min(elapsed / c.secondFactor, c.firstFactor))
    else if c.baseFeeMode == 2 then
      if buy && c.thirdFactor > 0 && c.firstFactor > 0 && elapsed <= c.secondFactor then None else Some(c.cliff)
    else None
  }

  /** The volatility fee, saturating at u64; `None` where the 256-bit square overflows. */
  function VariableFeeNumerator(pool: Pool): Option<u64> {
    if !pool.config.dynamicFee then Some(0)
    else
      var vb := pool.volatility * pool.config.binStep;
      var v := vb * vb * pool.config.variableFeeControl;
      if vb * vb >= Q256 || v + 99_999_999_999 >= Q256 then None
      else
        MulNonneg(pool.volatility, pool.config.binStep);
        MulNonneg(vb, vb);
        MulNonneg(vb * vb, pool.config.variableFeeControl);
        Some(Min((v + 99_999_999_999) / 100_000_000_000, U64_MAX))
  }

  function FeeNumerator(pool: Pool, point: u64, buy: bool): (r: Option<u64>)
    ensures r.Some? ==> r.value <= MAX_FEE_NUMERATOR
  {
    var base :- BaseFeeNumerator(pool, point, buy);
    var variable :- VariableFeeNumerator(pool);
    Some(Min(Min(base + variable, U64_MAX), MAX_FEE_NUMERATOR))
  }

  predicate Complete(pool: Pool) {
    pool.migrated || pool.quoteReserve >= pool.config.threshold
  }

  predicate Quotable(pool: Pool, point: u64) {
    pool.config.curve != [] && pool.price != 0 && !Complete(pool) && point >= pool.activationPoint
  }

  predicate FeeOnInput(pool: Pool, buy: bool) {
    buy && pool.config.collectFeeMode == 0
  }

  /** What enters the curve: the input less an input-side fee. */
  function EntersCurve(pool: Pool, buy: bool, amount: u64, numerator: u64): Option<u64> {
    if FeeOnInput(pool, buy) then
      var fee :- FeeOf(amount, numerator);
      ToU64(amount - fee)
    else Some(amount)
  }

  /** The walk itself; a buy that reaches the migration threshold is refused. */
  function Walk(pool: Pool, buy: bool, entered: u64): Option<Trade> {
    if buy then
      var reserve :- ToU64(pool.quoteReserve + entered);
      if reserve >= pool.config.threshold then None else QuoteToBase(pool.config, pool.price, entered)
    else BaseToQuote(pool.config, pool.price, entered)
  }

  function SwapExactIn(pool: Pool, buy: bool, amount: u64, point: u64): Option<Quote> {
    if amount == 0 || !Quotable(pool, point) then None
    else
      var numerator :- FeeNumerator(pool, point, buy);
      var entered :- EntersCurve(pool, buy, amount, numerator);
      var trade :- Walk(pool, buy, entered);
      var fee :- if FeeOnInput(pool, buy) then Some(amount - entered) else FeeOf(trade.out, numerator);
      var amountOut :- if FeeOnInput(pool, buy) then Some(trade.out) else ToU64(trade.out - fee);
      if amountOut == 0 then None else Some(Quote(amountOut, fee, trade.price))
  }
}

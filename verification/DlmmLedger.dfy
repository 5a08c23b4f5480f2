/** A DLMM swap visit by visit, against the pair's and the bins' own fields. */
module DlmmLedger {
  import opened Numbers
  import FeeSchedules
  import opened Bitmaps
  import opened DlmmBitmap
  import opened DlmmBins
  import opened DlmmRates
  import opened DlmmWalk
  import opened DlmmRefinement
  import opened DlmmConservation
  import opened DlmmSplit
  import opened DlmmReach

  // ── one layer and one bin ───────────────────────────────────────────────

  /** `n` input pays for `x` at the bin's price. */
  predicate Buys(n: int, x: int, price: nat, swapForY: bool) {
    if swapForY then x * Q64 <= n * price else x * price <= n * Q64
  }

  /** A layer of `held`, all of which must have a price in 64 bits, gives the most that `amount` buys, and takes the least
      that buys all of it. */
  ghost predicate ExactLayer(amount: int, held: nat, price: nat, swapForY: bool, f: Fill) {
    if amount == 0 || held == 0 then f == Fill(0, 0)
    else
      && Buys(U64_MAX, held, price, swapForY)
      && f.out <= held && (forall x: nat | x <= held :: x <= f.out <==> Buys(amount, x, price, swapForY))
      && if Buys(amount, held, price, swapForY) then forall n: nat :: f.used <= n <==> Buys(n, held, price, swapForY)
         else f.used == amount
  }

  /** Three layers one after the other. */
  ghost predicate ExactFills(amount: int, maker: nat, processed: nat, open: nat, price: nat, swapForY: bool, f: Fill) {
    exists f1: Fill, f2: Fill, f3: Fill :: InTurn(amount, maker, processed, open, price, swapForY, f, f1, f2, f3)
  }

  ghost predicate InTurn(amount: int, maker: nat, processed: nat, open: nat, price: nat, swapForY: bool, f: Fill,
      f1: Fill, f2: Fill, f3: Fill)
  {
    && ExactLayer(amount, maker, price, swapForY, f1) && ExactLayer(amount - f1.used, processed, price, swapForY, f2)
    && ExactLayer(amount - f1.used - f2.used, open, price, swapForY, f3)
    && f.used == f1.used + f2.used + f3.used && f.out == f1.out + f2.out + f3.out
  }

  lemma LayerFills(amount: u64, held: u64, price: u128, swapForY: bool)
    requires FillLayer(amount, held, price, swapForY).Some?
    ensures ExactLayer(amount, held, price, swapForY, FillLayer(amount, held, price, swapForY).value)
  {
    hide FillLayer, Buys;
    var f := FillLayer(amount, held, price, swapForY).value;
    if amount != 0 && held != 0 {
      LayerIsSound(amount, held, price, swapForY);
      LayerHasPrice(amount, held, price, swapForY);
      forall x: nat | x <= held ensures x <= f.out <==> Buys(amount, x, price, swapForY) {
        LayerBuys(amount, held, price, swapForY, x);
      }
      if Buys(amount, held, price, swapForY) {
        forall n: nat ensures f.used <= n <==> Buys(n, held, price, swapForY) {
          LayerUses(amount, held, price, swapForY, n);
        }
      }
      LayerBuys(amount, held, price, swapForY, held);
      LayerKeeps(amount, held, price, swapForY);
    } else {
      EmptyLayer(amount, held, price, swapForY);
    }
  }

  lemma EmptyLayer(amount: u64, held: u64, price: u128, swapForY: bool)
    requires amount == 0 || held == 0
    ensures FillLayer(amount, held, price, swapForY) == Some(Fill(0, 0))
  {
  }

  /** A layer is filled exactly when all of it has a price in 64 bits. */
  lemma LayerHasPrice(amount: u64, held: u64, price: u128, swapForY: bool)
    requires 0 < amount && 0 < held
    ensures FillLayer(amount, held, price, swapForY).Some? <==> Buys(U64_MAX, held, price, swapForY)
  {
    if swapForY {
      if price != 0 {
        CeilIff(held * Q64, price, U64_MAX);
        var full := CeilDiv(held * Q64, price);
        if amount < full <= U64_MAX {
          ShortOfFull(amount, held, Q64, price);
        }
      }
    } else {
      CeilIff(held * price, Q64, U64_MAX);
      var full := CeilDiv(held * price, Q64);
      if amount < full <= U64_MAX {
        if price == 0 {
          NoPrice(held);
        } else {
          ShortOfFull(amount, held, price, Q64);
        }
      }
    }
  }

  lemma NoPrice(held: u64)
    ensures CeilDiv(held * 0, Q64) == 0
  {
  }

  /** A layer fills as it says, and only so. */
  lemma LayerIff(amount: u64, held: u64, price: u128, swapForY: bool, f: Fill)
    ensures FillLayer(amount, held, price, swapForY) == Some(f) <==> ExactLayer(amount, held, price, swapForY, f)
  {
    hide FillLayer, Buys;
    if amount == 0 || held == 0 {
      EmptyLayer(amount, held, price, swapForY);
    } else {
      LayerHasPrice(amount, held, price, swapForY);
      if FillLayer(amount, held, price, swapForY).Some? {
        LayerFills(amount, held, price, swapForY);
        var g := FillLayer(amount, held, price, swapForY).value;
        if ExactLayer(amount, held, price, swapForY, f) {
          assert Buys(amount, f.out, price, swapForY) && Buys(amount, g.out, price, swapForY);
          if Buys(amount, held, price, swapForY) {
            assert Buys(f.used, held, price, swapForY) && Buys(g.used, held, price, swapForY);
          }
        }
      }
    }
  }

  lemma LayerBuys(amount: u64, held: u64, price: u128, swapForY: bool, x: nat)
    requires 0 < amount && 0 < held && FillLayer(amount, held, price, swapForY).Some? && x <= held
    ensures x <= FillLayer(amount, held, price, swapForY).value.out <==> Buys(amount, x, price, swapForY)
  {
    hide FillLayer;
    LayerIsSound(amount, held, price, swapForY);
    var f := FillLayer(amount, held, price, swapForY).value;
    if Buys(amount, x, price, swapForY) {
      LayerIsExact(amount, held, price, swapForY, amount, x);
    } else if x <= f.out {
      if swapForY {
        MulMono(x, f.out, Q64);
        MulMono(f.used, amount, price);
      } else {
        MulMono(x, f.out, price);
        MulMono(f.used, amount, Q64);
      }
    }
  }

  lemma LayerUses(amount: u64, held: u64, price: u128, swapForY: bool, n: nat)
    requires 0 < amount && 0 < held && FillLayer(amount, held, price, swapForY).Some?
    requires Buys(amount, held, price, swapForY)
    ensures FillLayer(amount, held, price, swapForY).value.used <= n <==> Buys(n, held, price, swapForY)
  {
    if swapForY {
      CeilIff(held * Q64, price, n);
      CeilIff(held * Q64, price, amount);
    } else {
      CeilIff(held * price, Q64, n);
      CeilIff(held * price, Q64, amount);
    }
  }

  lemma LayerKeeps(amount: u64, held: u64, price: u128, swapForY: bool)
    requires 0 < amount && 0 < held && FillLayer(amount, held, price, swapForY).Some?
    ensures !Buys(amount, held, price, swapForY) ==> FillLayer(amount, held, price, swapForY).value.used == amount
  {
    hide FillLayer;
    LayerIsSound(amount, held, price, swapForY);
    var f := FillLayer(amount, held, price, swapForY).value;
    if f.used < amount {
      MulMono(f.used, amount, price);
      MulMono(f.used, amount, Q64);
    }
  }

  lemma BinInLayers(layers: Layers, amount: u64, price: u128, swapForY: bool) returns (f1: Fill, f2: Fill, f3: Fill)
    requires FillBin(layers, amount, price, swapForY).Some?
    ensures FillLayer(amount, layers.maker, price, swapForY) == Some(f1) && f1.used <= amount
    ensures FillLayer(amount - f1.used, layers.processed, price, swapForY) == Some(f2) && f2.used <= amount - f1.used
    ensures FillLayer(amount - f1.used - f2.used, layers.open, price, swapForY) == Some(f3)
    ensures FillBin(layers, amount, price, swapForY)
      == Some(Fill(f1.used + (f2.used + f3.used), f1.out + (f2.out + f3.out)))
  {
    hide FillLayer, FillAll, FillBin;
    var l := InOrder(layers);
    BinFillsInOrder(layers, amount, price, swapForY);
    FirstFills(l, amount, price, swapForY);
    f1 := FillLayer(amount, layers.maker, price, swapForY).value;
    assert l[1..] == [layers.processed, layers.open] && l[1..][1..] == [layers.open];
    FirstFills(l[1..], amount - f1.used, price, swapForY);
    f2 := FillLayer(amount - f1.used, layers.processed, price, swapForY).value;
    LastLayer(layers.open, amount - f1.used - f2.used, price, swapForY);
    f3 := FillLayer(amount - f1.used - f2.used, layers.open, price, swapForY).value;
  }

  /** The three layers fill as they say, and only so. */
  lemma BinIff(layers: Layers, amount: u64, price: u128, swapForY: bool, f: Fill)
    ensures FillBin(layers, amount, price, swapForY) == Some(f)
      <==> ExactFills(amount, layers.maker, layers.processed, layers.open, price, swapForY, f)
  {
    hide FillLayer, FillBin, ExactLayer, ExactFills;
    if FillBin(layers, amount, price, swapForY) == Some(f) {
      var f1, f2, f3 := BinInLayers(layers, amount, price, swapForY);
      LayerIff(amount, layers.maker, price, swapForY, f1);
      LayerIff(amount - f1.used, layers.processed, price, swapForY, f2);
      LayerIff(amount - f1.used - f2.used, layers.open, price, swapForY, f3);
      ThreeFills(amount, layers, price, swapForY, f1, f2, f3);
    }
    if ExactFills(amount, layers.maker, layers.processed, layers.open, price, swapForY, f) {
      FillsAreBin(layers, amount, price, swapForY, f);
    }
  }

  lemma FillsAreBin(layers: Layers, amount: u64, price: u128, swapForY: bool, f: Fill)
    requires ExactFills(amount, layers.maker, layers.processed, layers.open, price, swapForY, f)
    ensures FillBin(layers, amount, price, swapForY) == Some(f)
  {
    hide FillLayer, FillBin, ExactLayer;
    var f1: Fill, f2: Fill, f3: Fill :| InTurn(amount, layers.maker, layers.processed, layers.open, price, swapForY, f,
        f1, f2, f3);
    LayerIff(amount, layers.maker, price, swapForY, f1);
    FillUsesAmount(amount, layers.maker, price, swapForY);
    LayerIff(amount - f1.used, layers.processed, price, swapForY, f2);
    FillUsesAmount(amount - f1.used, layers.processed, price, swapForY);
    LayerIff(amount - f1.used - f2.used, layers.open, price, swapForY, f3);
    BinOfFills(layers, amount, price, swapForY, f1, f2, f3);
  }

  lemma BinOfFills(layers: Layers, amount: u64, price: u128, swapForY: bool, f1: Fill, f2: Fill, f3: Fill)
    requires FillLayer(amount, layers.maker, price, swapForY) == Some(f1) && f1.used <= amount
    requires FillLayer(amount - f1.used, layers.processed, price, swapForY) == Some(f2) && f2.used <= amount - f1.used
    requires FillLayer(amount - f1.used - f2.used, layers.open, price, swapForY) == Some(f3)
    ensures FillBin(layers, amount, price, swapForY) == Some(Fill(f1.used + f2.used + f3.used, f1.out + f2.out + f3.out))
  {
    hide FillLayer, FillBin, FillAll;
    BinFillsInOrder(layers, amount, price, swapForY);
    var l := InOrder(layers);
    assert l[1..] == [layers.processed, layers.open] && l[1..][1..] == [layers.open];
    FirstFills(l, amount, price, swapForY);
    FirstFills(l[1..], amount - f1.used, price, swapForY);
    LastLayer(layers.open, amount - f1.used - f2.used, price, swapForY);
  }

  lemma ThreeFills(amount: int, layers: Layers, price: nat, swapForY: bool, f1: Fill, f2: Fill, f3: Fill)
    requires ExactLayer(amount, layers.maker, price, swapForY, f1)
    requires ExactLayer(amount - f1.used, layers.processed, price, swapForY, f2)
    requires ExactLayer(amount - f1.used - f2.used, layers.open, price, swapForY, f3)
    ensures ExactFills(amount, layers.maker, layers.processed, layers.open, price, swapForY,
                       Fill(f1.used + (f2.used + f3.used), f1.out + (f2.out + f3.out)))
  {
    hide ExactLayer;
    assert InTurn(amount, layers.maker, layers.processed, layers.open, price, swapForY,
        Fill(f1.used + (f2.used + f3.used), f1.out + (f2.out + f3.out)), f1, f2, f3);
  }

  // ── one visit, by the pair's and the bin's own fields ───────────────────

  /** What the walk did in bin `id` with `left` input: the price and rate it traded at, its fills, what it paid out and
      the fee. */
  datatype Visit = Visit(id: int, left: nat, price: nat, rate: nat, fill: Fill, out: int, fee: int)

  /** Mode 1 charges token Y: the output of a swap for Y. Any other mode charges the input. */
  predicate ChargesInput(pair: Pair, swapForY: bool) {
    !(pair.collectFeeMode == 1 && swapForY)
  }

  /** Whether the bin's limit orders trade: the pair holds such orders, and these are on the side being bought. */
  predicate OrdersTrade(pair: Pair, bin: Bin, swapForY: bool) {
    (pair.functionType == 2 || (pair.functionType == 0 && !pair.hasRewards)) && (if swapForY then !bin.askSide else bin.askSide)
  }

  /** Nothing in the bin trades. */
  predicate Empty(pair: Pair, bin: Bin, swapForY: bool) {
    && (if swapForY then bin.amountY else bin.amountX) == 0
    && (OrdersTrade(pair, bin, swapForY) ==> bin.processedOrders == 0 && bin.openOrders == 0)
  }

  /** The fills use at most `e`, which a fee inside the input leaves; if they drain the bin with some of it to spare, the
      fee is charged on top of what they used. */
  ghost predicate OnInput(e: nat, maker: nat, processed: nat, open: nat, swapForY: bool, v: Visit) {
    && GreatestMultiple(e, v.left * (1_000_000_000 - v.rate), 1_000_000_000)
    && ExactFills(e, maker, processed, open, v.price, swapForY, v.fill)
    && if v.fill.used < e then LeastMultiple(v.fee, v.fill.used * v.rate, 1_000_000_000 - v.rate) else v.fee == v.left - e
  }

  /** The fills and the fee: a fee on the input is the part of it the fills may not use, unless they drain the bin with
      input to spare, when it is charged on top of what they used; a fee on the output comes out of it. */
  ghost predicate ExactTrade(maker: nat, processed: nat, open: nat, swapForY: bool, chargesInput: bool, v: Visit) {
    if chargesInput then
      v.out == v.fill.out
      && exists e: nat :: OnInput(e, maker, processed, open, swapForY, v)
    else
      ExactFills(v.left, maker, processed, open, v.price, swapForY, v.fill)
      && LeastMultiple(v.fee, v.fill.out * v.rate, 1_000_000_000) && v.out == v.fill.out - v.fee
  }

  /** A visit trades the bin's maker liquidity, then its processed and open orders where these trade, at the stored price
      or else the bin's own, and at the bin's own rate; a bin with nothing to trade is passed. */
  ghost predicate ExactVisit(pair: Pair, now: int, swapForY: bool, bin: Bin, v: Visit) {
    var orders := OrdersTrade(pair, bin, swapForY);
    var maker, processed, open := if swapForY then bin.amountY else bin.amountX, if orders then bin.processedOrders else 0,
      if orders then bin.openOrders else 0;
    if Empty(pair, bin, swapForY) then v.fill == Fill(0, 0) && v.out == 0 && v.fee == 0
    else
      && TradesAt(pair, v.id, bin, v.price) && ChargedRate(pair, now, v.id, v.rate)
      && ExactTrade(maker, processed, open, swapForY, ChargesInput(pair, swapForY), v)
  }

  /** Input a visit takes. */
  function Consumed(v: Visit, chargesInput: bool): int {
    if chargesInput then v.fill.used + v.fee else v.fill.used
  }

  /** `book` visits one legal bin after another from `id` until `left` input is spent, in `end`. */
  ghost predicate Visits(pair: Pair, now: int, swapForY: bool, chain: int -> Bin, id: int, left: nat, book: seq<Visit>, end: int)
    decreases |book|
  {
    if left == 0 then book == [] && end == id
    else
      && book != [] && book[0].id == id && book[0].left == left && ExactVisit(pair, now, swapForY, chain(id), book[0])
      && var rest := left - Consumed(book[0], ChargesInput(pair, swapForY));
         if rest == 0 then |book| == 1 && end == id
         else
           var next := if swapForY then id - 1 else id + 1;
           0 <= rest && -443_636 <= next <= 443_636 && Visits(pair, now, swapForY, chain, next, rest, book[1..], end)
  }

  function TotalOut(book: seq<Visit>): int {
    if book == [] then 0 else book[0].out + TotalOut(book[1..])
  }

  function TotalFee(book: seq<Visit>): int {
    if book == [] then 0 else book[0].fee + TotalFee(book[1..])
  }

  // ── the visit ───────────────────────────────────────────────────────────

  lemma InputTrade(layers: Layers, f: Fill, e: u64, rate: u128, s: BinSwap, swapForY: bool, v: Visit)
    requires rate <= MAX_FEE_RATE && f.used <= e <= v.left < Q64 && Excluded(v.left, rate, true) == Some(e)
    requires Charged(f, e, rate, v.left, true) == Some(s)
    requires v.rate == rate && v.fill == f && v.out == s.out && v.fee == s.fee
    requires ExactFills(e, layers.maker, layers.processed, layers.open, v.price, swapForY, f)
    ensures ExactTrade(layers.maker, layers.processed, layers.open, swapForY, true, v) && s.consumed == f.used + s.fee
  {
    hide ExactFills, LeastMultiple, GreatestMultiple, Excluded;
    MulNonneg(f.used, rate);
    ExcludedIsFloor(v.left, rate, true);
    FloorIsGreatest(v.left * (FEE_PRECISION - rate), FEE_PRECISION);
    CeilIsLeast(f.used * rate, FEE_PRECISION - rate);
    assert OnInput(e, layers.maker, layers.processed, layers.open, swapForY, v);
  }

  lemma OutputTrade(layers: Layers, f: Fill, rate: u128, s: BinSwap, swapForY: bool, v: Visit)
    requires rate <= MAX_FEE_RATE && f.used <= v.left < Q64 && Charged(f, v.left, rate, v.left, false) == Some(s)
    requires v.rate == rate && v.fill == f && v.out == s.out && v.fee == s.fee
    requires ExactFills(v.left, layers.maker, layers.processed, layers.open, v.price, swapForY, f)
    ensures ExactTrade(layers.maker, layers.processed, layers.open, swapForY, false, v) && s.consumed == f.used
  {
    hide ExactFills, LeastMultiple;
    MulNonneg(f.out, rate);
    CeilIsLeast(f.out * rate, FEE_PRECISION);
  }

  lemma TradeIsExact(layers: Layers, price: u128, rate: u128, amount: u64, swapForY: bool, feeOnInput: bool, id: int)
      returns (v: Visit)
    requires rate <= MAX_FEE_RATE && SwapInBin(layers, price, rate, amount, swapForY, feeOnInput).Some?
    ensures v.id == id && v.left == amount && v.price == price && v.rate == rate
    ensures ExactTrade(layers.maker, layers.processed, layers.open, swapForY, feeOnInput, v)
    ensures var s := SwapInBin(layers, price, rate, amount, swapForY, feeOnInput).value;
      s.consumed == Consumed(v, feeOnInput) && s.out == v.out && s.fee == v.fee
  {
    hide FillBin, ExactFills, Excluded, SwapInBin, Charged, ExactTrade;
    var e, f := ChargedFill(layers, price, rate, amount, swapForY, feeOnInput);
    var s := SwapInBin(layers, price, rate, amount, swapForY, feeOnInput).value;
    BinIff(layers, e, price, swapForY, f);
    v := Visit(id, amount, price, rate, f, s.out, s.fee);
    if feeOnInput {
      InputTrade(layers, f, e, rate, s, swapForY, v);
    } else {
      OutputTrade(layers, f, rate, s, swapForY, v);
    }
  }

  lemma ChargedFill(layers: Layers, price: u128, rate: u128, amount: u64, swapForY: bool, feeOnInput: bool)
      returns (e: u64, f: Fill)
    requires rate <= MAX_FEE_RATE && SwapInBin(layers, price, rate, amount, swapForY, feeOnInput).Some?
    ensures Excluded(amount, rate, feeOnInput) == Some(e) && e <= amount && (!feeOnInput ==> e == amount)
    ensures FillBin(layers, e, price, swapForY) == Some(f) && f.used <= e
    ensures SwapInBin(layers, price, rate, amount, swapForY, feeOnInput) == Charged(f, e, rate, amount, feeOnInput)
  {
    hide FillBin, FillAll, Excluded, SwapInBin, Charged;
    NoExclusion(amount, rate);
    SwapIsCharged(layers, price, rate, amount, swapForY, feeOnInput);
    e := Excluded(amount, rate, feeOnInput).value;
    BinFillsInOrder(layers, e, price, swapForY);
    f := FillBin(layers, e, price, swapForY).value;
  }

  lemma SwapOfFill(layers: Layers, price: u128, rate: u128, amount: u64, swapForY: bool, feeOnInput: bool, e: u64, f: Fill)
    requires rate <= MAX_FEE_RATE && f.used <= e <= amount
    requires Excluded(amount, rate, feeOnInput) == Some(e) && FillBin(layers, e, price, swapForY) == Some(f)
    ensures SwapInBin(layers, price, rate, amount, swapForY, feeOnInput) == Charged(f, e, rate, amount, feeOnInput)
  {
    hide FillBin, Excluded;
  }

  lemma ExcludedIs(e: nat, rate: u128, amount: u64)
    requires rate <= MAX_FEE_RATE && GreatestMultiple(e, amount * (1_000_000_000 - rate), 1_000_000_000)
    ensures Excluded(amount, rate, true) == Some(e)
  {
    hide Excluded, GreatestMultiple;
    ExcludedIsFloor(amount, rate, true);
    FloorIsGreatest(amount * (FEE_PRECISION - rate), FEE_PRECISION);
    GreatestIsUnique(e, Excluded(amount, rate, true).value, amount * (1_000_000_000 - rate), 1_000_000_000);
  }

  lemma ChargeOnTop(f: Fill, e: u64, rate: u128, amount: u64, fee: int)
    requires rate <= MAX_FEE_RATE && f.used <= e <= amount && Excluded(amount, rate, true) == Some(e)
    requires if f.used < e then LeastMultiple(fee, f.used * rate, 1_000_000_000 - rate) else fee == amount - e
    ensures 0 <= fee && Charged(f, e, rate, amount, true) == Some(BinSwap(f.used + fee, f.out, fee))
  {
    hide Excluded, LeastMultiple;
    MulNonneg(f.used, rate);
    if f.used < e {
      DrainedFee(f.used, amount, rate);
      CeilIsLeast(f.used * rate, FEE_PRECISION - rate);
      LeastIsUnique(fee, CeilDiv(f.used * rate, FEE_PRECISION - rate), f.used * rate, FEE_PRECISION - rate);
    }
  }

  lemma InputSwap(layers: Layers, e: nat, rate: u128, amount: u64, swapForY: bool, v: Visit)
    requires rate <= MAX_FEE_RATE && v.price < Q128 && v.left == amount && v.rate == rate && v.out == v.fill.out
    requires OnInput(e, layers.maker, layers.processed, layers.open, swapForY, v)
    ensures 0 <= v.fee
    ensures SwapInBin(layers, v.price, rate, amount, swapForY, true) == Some(BinSwap(v.fill.used + v.fee, v.out, v.fee))
  {
    hide FillBin, ExactFills, Excluded, LeastMultiple, GreatestMultiple, SwapInBin, Charged;
    ExcludedIs(e, rate, amount);
    ExcludedAtMost(amount, rate);
    BinIff(layers, e, v.price, swapForY, v.fill);
    SwapOfFill(layers, v.price, rate, amount, swapForY, true, e, v.fill);
    ChargeOnTop(v.fill, e, rate, amount, v.fee);
  }

  lemma ExcludedAtMost(amount: u64, rate: u128)
    requires rate <= MAX_FEE_RATE && Excluded(amount, rate, true).Some?
    ensures Excluded(amount, rate, true).value <= amount
  {
    MulNonneg(amount, rate);
    CeilIff(amount * rate, FEE_PRECISION, 0);
  }

  lemma OutputSwap(layers: Layers, rate: u128, amount: u64, swapForY: bool, v: Visit)
    requires rate <= MAX_FEE_RATE && v.price < Q128 && v.left == amount && v.rate == rate
    requires ExactTrade(layers.maker, layers.processed, layers.open, swapForY, false, v)
    ensures 0 <= v.fee && 0 <= v.out
    ensures SwapInBin(layers, v.price, rate, amount, swapForY, false) == Some(BinSwap(v.fill.used, v.out, v.fee))
  {
    hide FillBin, ExactFills, Excluded, LeastMultiple, SwapInBin, Charged;
    NoExclusion(amount, rate);
    BinIff(layers, amount, v.price, swapForY, v.fill);
    FillTakesAtMost(layers, amount, v.price, swapForY);
    SwapOfFill(layers, v.price, rate, amount, swapForY, false, amount, v.fill);
    ChargeOutput(v.fill, rate, amount, v.fee);
  }

  lemma FillTakesAtMost(layers: Layers, amount: u64, price: u128, swapForY: bool)
    requires FillBin(layers, amount, price, swapForY).Some?
    ensures var f := FillBin(layers, amount, price, swapForY).value; f.used <= amount && f.out <= 3 * U64_MAX
  {
    hide FillBin, AtPrice;
    BinIsSound(layers, amount, price, swapForY);
  }

  lemma ChargeOutput(f: Fill, rate: u128, amount: u64, fee: int)
    requires rate <= MAX_FEE_RATE && f.used <= amount && f.out <= 3 * U64_MAX
    requires LeastMultiple(fee, f.out * rate, 1_000_000_000)
    ensures 0 <= fee <= f.out && Charged(f, amount, rate, amount, false) == Some(BinSwap(f.used, f.out - fee, fee))
  {
    hide LeastMultiple;
    MulNonneg(f.used, rate);
    OutputFeeIsSmall(f.out, rate);
    CeilIsLeast(f.out * rate, FEE_PRECISION);
    LeastIsUnique(fee, CeilDiv(f.out * rate, FEE_PRECISION), f.out * rate, FEE_PRECISION);
  }

  lemma TradeIsSwap(layers: Layers, rate: u128, amount: u64, swapForY: bool, feeOnInput: bool, v: Visit)
    requires rate <= MAX_FEE_RATE && v.price < Q128 && v.left == amount && v.rate == rate
    requires ExactTrade(layers.maker, layers.processed, layers.open, swapForY, feeOnInput, v)
    ensures 0 <= v.fee && 0 <= v.out
    ensures SwapInBin(layers, v.price, rate, amount, swapForY, feeOnInput)
      == Some(BinSwap(if feeOnInput then v.fill.used + v.fee else v.fill.used, v.out, v.fee))
  {
    hide OnInput, SwapInBin;
    if feeOnInput {
      var e: nat :| OnInput(e, layers.maker, layers.processed, layers.open, swapForY, v);
      InputSwap(layers, e, rate, amount, swapForY, v);
    } else {
      OutputSwap(layers, rate, amount, swapForY, v);
    }
  }

  lemma SidesStay(pair: Pair, now: int, swapForY: bool, bin: Bin)
    ensures FeeOnInput(UpdateReferences(pair, now), swapForY) == ChargesInput(pair, swapForY)
    ensures SupportsLimitOrders(UpdateReferences(pair, now)) && swapForY != bin.askSide <==> OrdersTrade(pair, bin, swapForY)
  {
  }

  lemma RawLayers(pair: Pair, env: Env, bin: Bin)
    requires env.limitOrders && env.swapForY != bin.askSide <==> OrdersTrade(pair, bin, env.swapForY)
    ensures var l, orders := LayersOf(bin, env.swapForY, env.limitOrders), OrdersTrade(pair, bin, env.swapForY);
      && l.maker == (if env.swapForY then bin.amountY else bin.amountX)
      && l.processed == (if orders then bin.processedOrders else 0) && l.open == (if orders then bin.openOrders else 0)
      && (HasLiquidity(env, bin) <==> !Empty(pair, bin, env.swapForY))
  {
    hide OrdersTrade;
  }

  lemma VisitIsExact(data: Data, swapForY: bool, now: int, id: int, bin: Bin, t: Totals) returns (v: Visit)
    requires VisitBin(EnvOf(data, swapForY, now), id, bin, t).Ok?
    ensures v.id == id && v.left == t.left && ExactVisit(data.pair, now, swapForY, bin, v)
    ensures var u := VisitBin(EnvOf(data, swapForY, now), id, bin, t).value;
      && u.left == t.left - Consumed(v, ChargesInput(data.pair, swapForY)) && u.out == t.out + v.out
      && v.fee == VisitSwap(EnvOf(data, swapForY, now), id, bin, t).fee
  {
    hide RateAt, SwapInBin, FillBin, LayersOf, ExactTrade, ChargedRate, HasLiquidity, UpdateReferences, OrdersTrade,
      TradesAt, BinPrice, ChargesInput;
    var env := EnvOf(data, swapForY, now);
    SidesStay(data.pair, now, swapForY, bin);
    RawLayers(data.pair, env, bin);
    if !HasLiquidity(env, bin) {
      v := Visit(id, t.left, 0, 0, Fill(0, 0), 0, 0);
    } else {
      var rate, price := RateAt(env.pair, id).value, BinPrice(env, id, bin).value;
      RateIff(data.pair, now, id, rate);
      PriceIsOwn(data, swapForY, now, id, bin);
      v := TradeIsExact(LayersOf(bin, swapForY, env.limitOrders), price, rate, t.left, swapForY, env.feeOnInput, id);
    }
  }

  /** The terms a bin trades on, given its visit. */
  lemma TermsOf(data: Data, swapForY: bool, now: int, id: int, bin: Bin, v: Visit)
    requires v.id == id && TradesAt(data.pair, id, bin, v.price) && ChargedRate(data.pair, now, id, v.rate)
    ensures var env := EnvOf(data, swapForY, now);
      v.price < Q128 && v.rate <= MAX_FEE_RATE && BinPrice(env, id, bin) == Some(v.price) && RateAt(env.pair, id) == Some(v.rate)
  {
    hide RateAt, RateFits, FeeSchedules.NearBinPrice, FeeSchedules.PriceFromId;
    RateIff(data.pair, now, id, v.rate);
  }

  /** An exact visit of a bin with liquidity is what the walk swaps there. */
  lemma ExactIsSwap(data: Data, swapForY: bool, now: int, id: int, bin: Bin, amount: u64, v: Visit)
    requires v.id == id && v.left == amount && ExactVisit(data.pair, now, swapForY, bin, v)
    ensures 0 <= v.fee && 0 <= v.out && 0 <= Consumed(v, ChargesInput(data.pair, swapForY))
    ensures var env := EnvOf(data, swapForY, now);
      if !HasLiquidity(env, bin) then v.fill == Fill(0, 0) && v.out == 0 && v.fee == 0
      else
        && RateAt(env.pair, id) == Some(v.rate) && BinPrice(env, id, bin) == Some(v.price) && v.rate <= MAX_FEE_RATE
        && SwapInBin(LayersOf(bin, swapForY, env.limitOrders), v.price, v.rate, amount, swapForY, env.feeOnInput)
           == Some(BinSwap(Consumed(v, ChargesInput(data.pair, swapForY)), v.out, v.fee))
  {
    hide RateAt, BinPrice, SwapInBin, LayersOf, ExactTrade, ChargedRate, HasLiquidity, UpdateReferences, OrdersTrade, TradesAt,
      ChargesInput;
    var env := EnvOf(data, swapForY, now);
    SidesStay(data.pair, now, swapForY, bin);
    RawLayers(data.pair, env, bin);
    if HasLiquidity(env, bin) {
      TermsOf(data, swapForY, now, id, bin, v);
      TradeIsSwap(LayersOf(bin, swapForY, env.limitOrders), v.rate, amount, swapForY, env.feeOnInput, v);
    }
  }

  lemma VisitIsBin(data: Data, swapForY: bool, now: int, id: int, bin: Bin, t: Totals, v: Visit)
    requires v.id == id && v.left == t.left && ExactVisit(data.pair, now, swapForY, bin, v) && t.out + v.out <= U64_MAX
    ensures VisitBin(EnvOf(data, swapForY, now), id, bin, t).Ok?
    ensures var u := VisitBin(EnvOf(data, swapForY, now), id, bin, t).value;
      && u.left == t.left - Consumed(v, ChargesInput(data.pair, swapForY)) && u.out == t.out + v.out
      && v.fee == VisitSwap(EnvOf(data, swapForY, now), id, bin, t).fee
  {
    hide RateAt, BinPrice, SwapInBin, LayersOf, ExactVisit, HasLiquidity, UpdateReferences, ChargesInput, SoundSwap;
    var env := EnvOf(data, swapForY, now);
    ExactIsSwap(data, swapForY, now, id, bin, t.left, v);
    if HasLiquidity(env, bin) {
      var layers := LayersOf(bin, swapForY, env.limitOrders);
      SwapIsSound(layers, v.price, v.rate, t.left, swapForY, env.feeOnInput);
      ConsumesAtMost(layers, v.price, v.rate, t.left, swapForY, env.feeOnInput,
        SwapInBin(layers, v.price, v.rate, t.left, swapForY, env.feeOnInput).value);
    }
  }

  lemma ConsumesAtMost(layers: Layers, price: u128, rate: u128, amount: nat, swapForY: bool, feeOnInput: bool, s: BinSwap)
    requires SoundSwap(layers, price, rate, amount, swapForY, feeOnInput, s)
    ensures s.consumed <= amount
  {
  }

  // ── the walk ────────────────────────────────────────────────────────────

  lemma {:induction false} WalkIsVisits(data: Data, swapForY: bool, now: int, chain: int -> Bin, id: int, t: Totals, bins: nat)
      returns (book: seq<Visit>)
    requires LegalBin(id) && NaiveWalk(EnvOf(data, swapForY, now), chain, id, t).Ok?
    requires FeeFits(EnvOf(data, swapForY, now), t, bins) && bins <= (if swapForY then MAX_BIN_ID - id else id - MIN_BIN_ID)
    ensures var stop := NaiveWalk(EnvOf(data, swapForY, now), chain, id, t).value;
      && Visits(data.pair, now, swapForY, chain, id, t.left, book, stop.id)
      && stop.totals.out == t.out + TotalOut(book) && stop.totals.fee == t.fee + TotalFee(book)
    decreases if swapForY then Max(id - MIN_BIN_ID, 0) else Max(MAX_BIN_ID - id, 0)
  {
    hide VisitBin, VisitSwap, VisitUsed, BinBill, Holds, Pays, ExactVisit, Consumed, FeeFits, ChargesInput;
    var env := EnvOf(data, swapForY, now);
    book := [];
    if t.left != 0 {
      var v := VisitIsExact(data, swapForY, now, id, chain(id), t);
      var u := VisitBin(env, id, chain(id), t).value;
      var _ := VisitPays(env, id, chain(id), t, bins);
      VisitSpends(env, id, chain(id), t, bins);
      if u.left != 0 {
        book := WalkIsVisits(data, swapForY, now, chain, NextBin(env, id), u, bins + 1);
      }
      var rest := book;
      book := [v] + rest;
      assert book[1..] == rest;
    }
  }

  lemma PaysOut(data: Data, swapForY: bool, now: int, id: int, bin: Bin, amount: u64, v: Visit)
    requires v.id == id && v.left == amount && ExactVisit(data.pair, now, swapForY, bin, v)
    ensures 0 <= v.out && 0 <= Consumed(v, ChargesInput(data.pair, swapForY))
  {
    hide ExactVisit, Consumed, ChargesInput;
    ExactIsSwap(data, swapForY, now, id, bin, amount, v);
  }

  lemma {:induction false} OutputsAdd(data: Data, swapForY: bool, now: int, chain: int -> Bin, id: int, left: nat,
      book: seq<Visit>, end: int)
    requires left < Q64 && Visits(data.pair, now, swapForY, chain, id, left, book, end)
    ensures 0 <= TotalOut(book)
    decreases |book|
  {
    hide ExactVisit, Consumed, ChargesInput;
    if book != [] {
      var v := book[0];
      PaysOut(data, swapForY, now, id, chain(id), left, v);
      if |book| > 1 {
        OutputsAdd(data, swapForY, now, chain, if swapForY then id - 1 else id + 1,
          left - Consumed(v, ChargesInput(data.pair, swapForY)), book[1..], end);
      }
    }
  }

  lemma {:induction false} VisitsAreWalk(data: Data, swapForY: bool, now: int, chain: int -> Bin, id: int, t: Totals, bins: nat,
      book: seq<Visit>, end: int)
    requires LegalBin(id) && Visits(data.pair, now, swapForY, chain, id, t.left, book, end) && t.out + TotalOut(book) <= U64_MAX
    requires FeeFits(EnvOf(data, swapForY, now), t, bins) && bins <= (if swapForY then MAX_BIN_ID - id else id - MIN_BIN_ID)
    ensures NaiveWalk(EnvOf(data, swapForY, now), chain, id, t).Ok?
    ensures var stop := NaiveWalk(EnvOf(data, swapForY, now), chain, id, t).value;
      && stop.id == end && stop.totals.left == 0
      && stop.totals.out == t.out + TotalOut(book) && stop.totals.fee == t.fee + TotalFee(book)
    decreases |book|
  {
    hide VisitBin, VisitSwap, VisitUsed, BinBill, Holds, Pays, ExactVisit, Consumed, FeeFits, ChargesInput;
    var env := EnvOf(data, swapForY, now);
    if t.left != 0 {
      var v, rest := book[0], book[1..];
      var next := t.left - Consumed(v, ChargesInput(data.pair, swapForY));
      ExactIsSwap(data, swapForY, now, id, chain(id), t.left, v);
      if next != 0 {
        OutputsAdd(data, swapForY, now, chain, NextBin(env, id), next, rest, end);
      }
      VisitIsBin(data, swapForY, now, id, chain(id), t, v);
      var u := VisitBin(env, id, chain(id), t).value;
      var _ := VisitPays(env, id, chain(id), t, bins);
      VisitSpends(env, id, chain(id), t, bins);
      if next != 0 {
        VisitsAreWalk(data, swapForY, now, chain, NextBin(env, id), u, bins + 1, rest, end);
      }
    }
  }

  // ── the quote ───────────────────────────────────────────────────────────

  /** The pair is enabled and, where it has an activation point, past it. */
  predicate Active(pair: Pair, now: int, slot: u64) {
    && pair.binStep > 0 && pair.status == 0
    && (pair.pairType == 1 || pair.pairType == 2 ==>
          if pair.activationType == 1 then pair.activationPoint <= now || pair.activationPoint == 0
          else pair.activationPoint <= slot)
  }

  /** A snapshot of the chain: loaded arrays hold its bins, the list of liquid arrays ascends, arrays that are not listed have
      nothing to trade, and listed ones reach into the legal bin range, which holds the active bin. */
  ghost predicate Snapshot(data: Data, chain: int -> Bin, swapForY: bool) {
    && (forall i | i in data.arrays :: |data.arrays[i]| == 70)
    && (forall i, k | i in data.arrays && 0 <= k < 70 :: data.arrays[i][k] == chain(70 * i + k))
    && (forall i, j | 0 <= i < j < |data.liquid| :: data.liquid[i] < data.liquid[j])
    && (forall id: int | -443_636 <= id <= 443_636 && id / 70 !in data.liquid :: Empty(data.pair, chain(id), swapForY))
    && (forall i | i in data.liquid :: -443_636 < 70 * i + 70 && 70 * i <= 443_636)
    && -443_636 <= data.pair.activeId <= 443_636
  }

  lemma SnapshotIsHonest(data: Data, chain: int -> Bin, swapForY: bool, now: int)
    requires Snapshot(data, chain, swapForY)
    ensures ValidData(data) && Agrees(data, chain) && HonestBitmap(EnvOf(data, swapForY, now), data, chain)
      && LegalBin(data.pair.activeId)
  {
    hide UpdateReferences, OrdersTrade, Empty, HasLiquidity;
    var env := EnvOf(data, swapForY, now);
    forall id: int | LegalBin(id) && ArrayIndex(id) !in data.liquid ensures !HasLiquidity(env, chain(id)) {
      SidesStay(data.pair, now, swapForY, chain(id));
      RawLayers(data.pair, env, chain(id));
      assert Empty(data.pair, chain(id), swapForY);
    }
  }

  /** The bin a walk starts in: the active one, or the near edge of the first liquid array. */
  function FirstBin(data: Data, first: int, swapForY: bool): int {
    if first == data.pair.activeId / 70 then data.pair.activeId else if swapForY then 70 * first + 69 else 70 * first
  }

  /** Along the way from the active bin's array, the quote's arrays are loaded and end at its end bin. */
  ghost predicate ArrivesIn(data: Data, swapForY: bool, maxArrays: nat, route: seq<int>, q: Quote) {
    && Route(data.liquid, data.pair.activeId / 70, data.hasExtension, swapForY, maxArrays, route)
    && Reaches(data, route, q.arrays, q.endBin) && q.startBin == FirstBin(data, route[0], swapForY)
  }

  /** The quote in full: an active pair's bins as they are on chain, visited from the active one and traded exactly, with
      the outputs and the fees added up, inside arrays that the snapshot holds. */
  ghost predicate IsQuote(data: Data, chain: int -> Bin, swapForY: bool, amount: u64, now: int, slot: u64, maxArrays: nat,
      book: seq<Visit>, route: seq<int>, q: Quote)
  {
    && Active(data.pair, now, slot) && Visits(data.pair, now, swapForY, chain, data.pair.activeId, amount, book, q.endBin)
    && q.amountOut == TotalOut(book) && q.fee == TotalFee(book)
    && if amount == 0 then q.arrays == 0 && q.startBin == data.pair.activeId else ArrivesIn(data, swapForY, maxArrays, route, q)
  }

  lemma ActiveIff(pair: Pair, now: int, slot: u64)
    ensures Tradable(pair, now, slot) <==> Active(pair, now, slot)
  {
  }

  lemma QuoteArrives(data: Data, swapForY: bool, amount: u64, now: int, slot: u64, maxArrays: nat) returns (route: seq<int>)
    requires ValidData(data) && Ordered(data.liquid, true) && SwapExactIn(data, swapForY, amount, now, slot, maxArrays).Ok?
    ensures var q := SwapExactIn(data, swapForY, amount, now, slot, maxArrays).value;
      if amount == 0 then q.arrays == 0 && q.startBin == data.pair.activeId else ArrivesIn(data, swapForY, maxArrays, route, q)
  {
    hide NextArray, WalkArray, UpdateReferences, ArraysFrom, Route, GuidedWalk, Reaches, FirstBin;
    var env, w := EnvOf(data, swapForY, now), StartOf(data, amount);
    route := ArraysFrom(data.liquid, data.pair.activeId / 70, data.hasExtension, swapForY, maxArrays);
    if amount == 0 {
      NothingToWalk(env, data, w, maxArrays);
    } else {
      EndsInLast(env, data, w, maxArrays);
      VisitsInOrder(env, data, w, maxArrays);
      RouteIff(data.liquid, data.pair.activeId / 70, data.hasExtension, swapForY, maxArrays, route);
      var r := GuidedWalk(env, data, w, maxArrays).value;
      VisitedReach(data, swapForY, r.visited, route, r.id);
      assert EntryBin(env, r.visited[0], w.id) == FirstBin(data, r.visited[0], swapForY) by {
        EntersFirst(env, data, r.visited[0]);
      }
    }
  }

  lemma NothingToWalk(env: Env, data: Data, w: Walk, maxArrays: nat)
    requires ValidData(data) && w.totals.left == 0
    ensures GuidedWalk(env, data, w, maxArrays) == Ok(w)
  {
  }

  lemma EntersFirst(env: Env, data: Data, first: int)
    ensures EntryBin(env, first, data.pair.activeId) == FirstBin(data, first, env.swapForY)
  {
  }

  lemma VisitedReach(data: Data, swapForY: bool, visited: seq<int>, route: seq<int>, end: int)
    requires visited != [] && visited <= route && visited[|visited| - 1] == ArrayIndex(end)
    requires forall k | 0 <= k < |visited| :: visited[k] in data.arrays
    ensures Reaches(data, route, |visited|, end) && route != [] && route[0] == visited[0]
  {
    assert forall k | 0 <= k < |visited| :: route[k] == visited[k];
  }

  lemma SwapIsVisits(data: Data, chain: int -> Bin, swapForY: bool, amount: u64, now: int, slot: u64, maxArrays: nat)
      returns (book: seq<Visit>, route: seq<int>)
    requires ValidData(data) && Agrees(data, chain) && HonestBitmap(EnvOf(data, swapForY, now), data, chain)
      && LegalBin(data.pair.activeId)
    requires SwapExactIn(data, swapForY, amount, now, slot, maxArrays).Ok?
    ensures IsQuote(data, chain, swapForY, amount, now, slot, maxArrays, book, route,
              SwapExactIn(data, swapForY, amount, now, slot, maxArrays).value)
  {
    hide NaiveWalk, GuidedWalk, Agrees, Visits, ArrivesIn, UpdateReferences;
    ActiveIff(data.pair, now, slot);
    SwapIsNaive(data, chain, swapForY, amount, now, slot, maxArrays);
    book := WalkIsVisits(data, swapForY, now, chain, data.pair.activeId, Totals(amount, 0, 0), 0);
    route := QuoteArrives(data, swapForY, amount, now, slot, maxArrays);
  }

  lemma QuoteCompletes(data: Data, chain: int -> Bin, swapForY: bool, amount: u64, now: int, slot: u64, maxArrays: nat,
      book: seq<Visit>, route: seq<int>, q: Quote)
    requires ValidData(data) && Agrees(data, chain) && HonestBitmap(EnvOf(data, swapForY, now), data, chain)
      && LegalBin(data.pair.activeId)
    requires IsQuote(data, chain, swapForY, amount, now, slot, maxArrays, book, route, q)
    ensures SwapExactIn(data, swapForY, amount, now, slot, maxArrays).Ok?
    ensures NaiveWalk(EnvOf(data, swapForY, now), chain, data.pair.activeId, Totals(amount, 0, 0)).Ok?
    ensures var stop := NaiveWalk(EnvOf(data, swapForY, now), chain, data.pair.activeId, Totals(amount, 0, 0)).value;
      stop.id == q.endBin && stop.totals.out == q.amountOut && stop.totals.fee == q.fee
  {
    hide NaiveWalk, GuidedWalk, Agrees, Visits, UpdateReferences, Reaches, Route, ArraysFrom;
    var env := EnvOf(data, swapForY, now);
    ActiveIff(data.pair, now, slot);
    VisitsAreWalk(data, swapForY, now, chain, data.pair.activeId, Totals(amount, 0, 0), 0, book, q.endBin);
    RouteIff(data.liquid, data.pair.activeId / 70, data.hasExtension, swapForY, maxArrays, route);
    GuidedArrives(env, data, chain, StartOf(data, amount), maxArrays, q.arrays);
  }

  lemma SamePlace(data: Data, swapForY: bool, maxArrays: nat, r: seq<int>, p: Quote, route: seq<int>, q: Quote)
    requires Ordered(data.liquid, true) && p.endBin == q.endBin
    requires ArrivesIn(data, swapForY, maxArrays, r, p) && ArrivesIn(data, swapForY, maxArrays, route, q)
    ensures p.arrays == q.arrays && p.startBin == q.startBin
  {
    hide ArraysFrom, Route;
    var at := data.pair.activeId / 70;
    RouteIff(data.liquid, at, data.hasExtension, swapForY, maxArrays, r);
    RouteIff(data.liquid, at, data.hasExtension, swapForY, maxArrays, route);
    if p.arrays < q.arrays {
      ArraysDiffer(data.liquid, at, data.hasExtension, swapForY, maxArrays, p.arrays - 1, q.arrays - 1);
    }
    if q.arrays < p.arrays {
      ArraysDiffer(data.liquid, at, data.hasExtension, swapForY, maxArrays, q.arrays - 1, p.arrays - 1);
    }
  }

  lemma QuoteIsUnique(data: Data, chain: int -> Bin, swapForY: bool, amount: u64, now: int, slot: u64, maxArrays: nat,
      book: seq<Visit>, route: seq<int>, q: Quote)
    requires Snapshot(data, chain, swapForY) && IsQuote(data, chain, swapForY, amount, now, slot, maxArrays, book, route, q)
    ensures SwapExactIn(data, swapForY, amount, now, slot, maxArrays) == Ok(q)
  {
    hide NaiveWalk, GuidedWalk, Agrees, Visits, ArrivesIn, UpdateReferences, Active, SwapExactIn, Snapshot;
    SnapshotIsHonest(data, chain, swapForY, now);
    QuoteCompletes(data, chain, swapForY, amount, now, slot, maxArrays, book, route, q);
    var p := SwapExactIn(data, swapForY, amount, now, slot, maxArrays).value;
    var _, r := SwapIsVisits(data, chain, swapForY, amount, now, slot, maxArrays);
    SwapIsNaive(data, chain, swapForY, amount, now, slot, maxArrays);
    if amount != 0 {
      SamePlace(data, swapForY, maxArrays, r, p, route, q);
    }
  }

  /** A snapshot quotes `q` exactly when a book of exact visits to the bins on chain, along loaded arrays, gives `q`. */
  lemma SwapIsItsVisits(data: Data, chain: int -> Bin, swapForY: bool, amount: u64, now: int, slot: u64, maxArrays: nat, q: Quote)
    requires Snapshot(data, chain, swapForY)
    ensures SwapExactIn(data, swapForY, amount, now, slot, maxArrays) == Ok(q)
      <==> exists book: seq<Visit>, route: seq<int> ::
             IsQuote(data, chain, swapForY, amount, now, slot, maxArrays, book, route, q)
  {
    hide IsQuote, SwapExactIn;
    SnapshotIsHonest(data, chain, swapForY, now);
    if SwapExactIn(data, swapForY, amount, now, slot, maxArrays) == Ok(q) {
      var book, route := SwapIsVisits(data, chain, swapForY, amount, now, slot, maxArrays);
    }
    if exists book: seq<Visit>, route: seq<int> :: IsQuote(data, chain, swapForY, amount, now, slot, maxArrays, book, route, q) {
      var book: seq<Visit>, route: seq<int> :| IsQuote(data, chain, swapForY, amount, now, slot, maxArrays, book, route, q);
      QuoteIsUnique(data, chain, swapForY, amount, now, slot, maxArrays, book, route, q);
    }
  }
}

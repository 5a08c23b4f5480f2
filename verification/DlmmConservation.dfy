/** Where a DLMM swap's input goes: bins drained, prices paid, fees charged. */
module DlmmConservation {
  import opened Numbers
  import FeeSchedules
  import opened DlmmBins
  import opened DlmmRates
  import opened DlmmWalk
  import opened DlmmRefinement

  /** What taking liquidity from bins must cost: the amount taken, its exact value in input units, the exact fee due. */
  datatype Bill = Bill(taken: int, value: real, fee: real) {
    function Plus(b: Bill): Bill {
      Bill(taken + b.taken, value + b.value, fee + b.fee)
    }
  }

  const NOTHING := Bill(0, 0.0, 0.0)

  /** The value of `taken` at `price`, in input units. */
  function ValueOf(taken: int, price: u128, swapForY: bool): real {
    if swapForY then (if price == 0 then 0.0 else taken as real * Q64 as real / price as real)
    else taken as real * price as real / Q64 as real
  }

  /** The fee due at `rate` per 10⁹: on the input including the fee, or on the output. */
  function FeeDue(taken: int, value: real, rate: u128, feeOnInput: bool): real
    requires rate <= MAX_FEE_RATE
  {
    if feeOnInput then value * rate as real / (FEE_PRECISION - rate) as real
    else taken as real * rate as real / FEE_PRECISION as real
  }

  /** The bill for taking `taken` from one bin, at that bin's price and fee rate. */
  function BinBill(env: Env, id: int, bin: Bin, taken: int): Bill {
    var rate, price := RateAt(env.pair, id), BinPrice(env, id, bin);
    if taken == 0 || rate.None? || price.None? then NOTHING
    else
      var value := ValueOf(taken, price.value, env.swapForY);
      Bill(taken, value, FeeDue(taken, value, rate.value, env.feeOnInput))
  }

  function Holds(env: Env, bin: Bin): nat {
    LayersOf(bin, env.swapForY, env.limitOrders).Total()
  }

  /** The bill for draining every bin from `id` up to, and not including, `end`. */
  function DrainBill(env: Env, chain: int -> Bin, id: int, end: int): Bill
    decreases if env.swapForY then Max(id - end, 0) else Max(end - id, 0)
  {
    hide BinBill, Holds;
    if if env.swapForY then id <= end else end <= id then NOTHING
    else BinBill(env, id, chain(id), Holds(env, chain(id))).Plus(DrainBill(env, chain, NextBin(env, id), end))
  }

  /** Output before an output-side fee. */
  function Taken(env: Env, t: Totals): int {
    if env.feeOnInput then t.out else t.out + t.fee
  }

  /** Input not spent on liquidity, counting back the fee. */
  function Unspent(env: Env, t: Totals): int {
    if env.feeOnInput then t.left + t.fee else t.left
  }

  /** From `t` to `u` the walk took exactly the bill, paid at least its value, and charged at least its fee. */
  predicate Pays(env: Env, bill: Bill, t: Totals, u: Totals) {
    && Taken(env, u) - Taken(env, t) == bill.taken
    && (Unspent(env, t) - Unspent(env, u)) as real >= bill.value
    && (u.fee - t.fee) as real >= bill.fee
  }

  // ── one bin ─────────────────────────────────────────────────────────────

  lemma ValuePaid(taken: nat, used: nat, price: u128, swapForY: bool)
    requires AtPrice(Fill(used, taken), price, swapForY)
    ensures ValueOf(taken, price, swapForY) <= used as real
  {
  }

  lemma RealQuotient(x: real, y: real, z: real)
    requires 0.0 < z && x <= y * z
    ensures x / z <= y
  {
  }

  lemma FeePaid(taken: nat, used: nat, fee: nat, value: real, rate: u128, feeOnInput: bool)
    requires rate <= MAX_FEE_RATE && value <= used as real
    requires (if feeOnInput then used + fee else taken) * rate <= fee * FEE_PRECISION
    ensures FeeDue(taken, value, rate, feeOnInput) <= fee as real
  {
    if feeOnInput {
      assert (used + fee) * rate == used * rate + fee * rate;
      InputFeePaid(used, fee, value, rate, FEE_PRECISION - rate);
    } else {
      ProductAsReal(taken, rate);
      RealQuotient(taken as real * rate as real, fee as real, FEE_PRECISION as real);
    }
  }

  lemma InputFeePaid(used: nat, fee: nat, value: real, rate: nat, rest: nat)
    requires 0 < rest && value <= used as real && used * rate <= fee * rest
    ensures value * rate as real / rest as real <= fee as real
  {
    ProductAsReal(used, rate);
    ProductAsReal(fee, rest);
    RealMono(value, used as real, rate as real);
    RealQuotient(value * rate as real, fee as real, rest as real);
  }

  /** Room left before the running fee could saturate: fees on input come out of the input; fees on output are at
      most a ninth of the output, give or take one per bin. */
  predicate FeeFits(env: Env, t: Totals, bins: nat) {
    if env.feeOnInput then t.fee + t.left <= U64_MAX else 9 * t.fee <= t.out + 9 * bins
  }

  /** One bin swap pays its bill. */
  lemma SwapPays(env: Env, id: int, bin: Bin, t: Totals, s: BinSwap)
    requires RateAt(env.pair, id).Some? && BinPrice(env, id, bin).Some?
    requires SoundSwap(LayersOf(bin, env.swapForY, env.limitOrders), BinPrice(env, id, bin).value,
      RateAt(env.pair, id).value, t.left, env.swapForY, env.feeOnInput, s)
    ensures var bill := BinBill(env, id, bin, Gross(s, env.feeOnInput));
      bill.taken == Gross(s, env.feeOnInput) && bill.value <= Principal(s, env.feeOnInput) as real && bill.fee <= s.fee as real
  {
    hide RateAt, BinPrice, ValueOf, FeeDue, AtPrice;
    var rate, price := RateAt(env.pair, id).value, BinPrice(env, id, bin).value;
    var taken, used := Gross(s, env.feeOnInput), Principal(s, env.feeOnInput);
    ValuePaid(taken, used, price, env.swapForY);
    FeePaid(taken, used, s.fee, ValueOf(taken, price, env.swapForY), rate, env.feeOnInput);
  }

  /** A fee of at most a tenth, rounded up, is at most a ninth of what it leaves, give or take one. */
  lemma OutputFeeIsSmall(gross: nat, rate: u128)
    requires rate <= MAX_FEE_RATE
    ensures 0 <= gross * rate && 10 * CeilDiv(gross * rate, FEE_PRECISION) <= gross + 9
  {
    MulNonneg(gross, rate);
    MulMono(rate, MAX_FEE_RATE, gross);
    CeilIff(gross * rate, FEE_PRECISION, (gross + 9) / 10);
  }

  lemma OutputFee(layers: Layers, price: u128, rate: u128, amount: u64, swapForY: bool)
    requires rate <= MAX_FEE_RATE && SwapInBin(layers, price, rate, amount, swapForY, false).Some?
    ensures var s := SwapInBin(layers, price, rate, amount, swapForY, false).value; 9 * s.fee <= s.out + 9
  {
    hide FillBin;
    NoExclusion(amount, rate);
    OutputFeeIsSmall(FillBin(layers, amount, price, swapForY).value.out, rate);
  }

  /** Visiting a bin pays its bill exactly, drains the bin if input is left, and keeps the fee from saturating. */
  lemma VisitPays(env: Env, id: int, bin: Bin, t: Totals, bins: nat) returns (taken: nat)
    requires VisitBin(env, id, bin, t).Ok? && FeeFits(env, t, bins) && bins < 1_000_000
    ensures var u := VisitBin(env, id, bin, t).value;
      && Pays(env, BinBill(env, id, bin, taken), t, u) && FeeFits(env, u, bins + 1)
      && taken <= Holds(env, bin) && (u.left != 0 ==> taken == Holds(env, bin))
  {
    hide RateAt, BinPrice, SwapInBin, ValueOf, FeeDue, AtPrice;
    taken := 0;
    if HasLiquidity(env, bin) {
      var layers, rate, price := LayersOf(bin, env.swapForY, env.limitOrders), RateAt(env.pair, id).value,
          BinPrice(env, id, bin).value;
      SwapIsSound(layers, price, rate, t.left, env.swapForY, env.feeOnInput);
      var s := SwapInBin(layers, price, rate, t.left, env.swapForY, env.feeOnInput).value;
      if !env.feeOnInput {
        OutputFee(layers, price, rate, t.left, env.swapForY);
      }
      SwapPays(env, id, bin, t, s);
      taken := Gross(s, env.feeOnInput);
    }
  }

  // ── where the input goes ────────────────────────────────────────────────

  /** The bin swap a visit makes; nothing in a bin without liquidity. */
  function VisitSwap(env: Env, id: int, bin: Bin, t: Totals): BinSwap
    requires VisitBin(env, id, bin, t).Ok?
  {
    if !HasLiquidity(env, bin) then BinSwap(0, 0, 0)
    else
      SwapInBin(LayersOf(bin, env.swapForY, env.limitOrders), BinPrice(env, id, bin).value, RateAt(env.pair, id).value,
                t.left, env.swapForY, env.feeOnInput).value
  }

  /** The input a visit's fills use, before any fee. */
  function VisitUsed(env: Env, id: int, bin: Bin, t: Totals): nat
    requires VisitBin(env, id, bin, t).Ok?
  {
    if !HasLiquidity(env, bin) then 0
    else
      var excluded := Excluded(t.left, RateAt(env.pair, id).value, env.feeOnInput).value;
      FillBin(LayersOf(bin, env.swapForY, env.limitOrders), excluded, BinPrice(env, id, bin).value, env.swapForY).value.used
  }

  /** Input the fills of every bin of a walk use. */
  function Absorbed(env: Env, chain: int -> Bin, id: int, t: Totals): nat
    requires NaiveWalk(env, chain, id, t).Ok?
    decreases if env.swapForY then Max(id - MIN_BIN_ID, 0) else Max(MAX_BIN_ID - id, 0)
  {
    if t.left == 0 then 0
    else
      var u := VisitBin(env, id, chain(id), t).value;
      VisitUsed(env, id, chain(id), t) + if u.left == 0 then 0 else Absorbed(env, chain, NextBin(env, id), u)
  }

  /** The fees of every bin of a walk, added up without saturating. */
  function FeesCharged(env: Env, chain: int -> Bin, id: int, t: Totals): nat
    requires NaiveWalk(env, chain, id, t).Ok?
    decreases if env.swapForY then Max(id - MIN_BIN_ID, 0) else Max(MAX_BIN_ID - id, 0)
  {
    if t.left == 0 then 0
    else
      var u := VisitBin(env, id, chain(id), t).value;
      VisitSwap(env, id, chain(id), t).fee + if u.left == 0 then 0 else FeesCharged(env, chain, NextBin(env, id), u)
  }

  /** A bin swap consumes what its fills use, and with the fee on the input the fee as well. */
  lemma ConsumedIsUsed(layers: Layers, price: u128, rate: u128, amount: u64, swapForY: bool, feeOnInput: bool)
    requires rate <= MAX_FEE_RATE && SwapInBin(layers, price, rate, amount, swapForY, feeOnInput).Some?
    ensures Excluded(amount, rate, feeOnInput).Some?
    ensures var s, excluded := SwapInBin(layers, price, rate, amount, swapForY, feeOnInput).value,
      Excluded(amount, rate, feeOnInput).value;
      && FillBin(layers, excluded, price, swapForY).Some?
      && s.consumed == FillBin(layers, excluded, price, swapForY).value.used + (if feeOnInput then s.fee else 0)
  {
    hide FillBin;
  }

  lemma VisitSpends(env: Env, id: int, bin: Bin, t: Totals, bins: nat)
    requires VisitBin(env, id, bin, t).Ok? && FeeFits(env, t, bins) && bins < 1_000_000
    ensures var u, s := VisitBin(env, id, bin, t).value, VisitSwap(env, id, bin, t);
      && t.left == u.left + VisitUsed(env, id, bin, t) + (if env.feeOnInput then s.fee else 0)
      && u.fee == t.fee + s.fee
  {
    hide RateAt, BinPrice, SwapInBin, FillBin, Excluded, AtPrice;
    if HasLiquidity(env, bin) {
      var layers, rate, price := LayersOf(bin, env.swapForY, env.limitOrders), RateAt(env.pair, id).value,
          BinPrice(env, id, bin).value;
      ConsumedIsUsed(layers, price, rate, t.left, env.swapForY, env.feeOnInput);
      SwapIsSound(layers, price, rate, t.left, env.swapForY, env.feeOnInput);
      if !env.feeOnInput {
        OutputFee(layers, price, rate, t.left, env.swapForY);
      }
    }
  }

  // ── the walk ────────────────────────────────────────────────────────────

  /** The bill of a walk from `id` to `end`: every bin on the way drained, `last` taken from the end bin. */
  function WalkBill(env: Env, chain: int -> Bin, id: int, end: int, last: nat): Bill {
    DrainBill(env, chain, id, end).Plus(BinBill(env, end, chain(end), last))
  }

  function Distance(env: Env, id: int, end: int): int {
    if env.swapForY then id - end else end - id
  }

  lemma BillStarts(env: Env, chain: int -> Bin, id: int, last: nat)
    ensures WalkBill(env, chain, id, id, last) == BinBill(env, id, chain(id), last)
  {
  }

  lemma BillExtends(env: Env, chain: int -> Bin, id: int, end: int, last: nat)
    requires 0 <= Distance(env, NextBin(env, id), end)
    ensures WalkBill(env, chain, id, end, last) ==
            BinBill(env, id, chain(id), Holds(env, chain(id))).Plus(WalkBill(env, chain, NextBin(env, id), end, last))
  {
    hide BinBill, Holds;
  }

  lemma PaysNothing(env: Env, id: int, bin: Bin, t: Totals)
    ensures Pays(env, BinBill(env, id, bin, 0), t, t)
  {
  }

  lemma PaysBoth(env: Env, b: Bill, c: Bill, t: Totals, u: Totals, v: Totals)
    requires Pays(env, b, t, u) && Pays(env, c, u, v)
    ensures Pays(env, b.Plus(c), t, v)
  {
  }

  lemma {:induction false} NaivePays(env: Env, chain: int -> Bin, id: int, t: Totals, bins: nat) returns (last: nat)
    requires LegalBin(id) && NaiveWalk(env, chain, id, t).Ok? && FeeFits(env, t, bins)
    requires bins <= (if env.swapForY then MAX_BIN_ID - id else id - MIN_BIN_ID)
    ensures var stop := NaiveWalk(env, chain, id, t).value;
      && LegalBin(stop.id) && 0 <= Distance(env, id, stop.id)
      && stop.totals.left == 0 && last <= Holds(env, chain(stop.id))
      && Pays(env, WalkBill(env, chain, id, stop.id, last), t, stop.totals)
      && t.left == Absorbed(env, chain, id, t) + (if env.feeOnInput then FeesCharged(env, chain, id, t) else 0)
      && stop.totals.fee == t.fee + FeesCharged(env, chain, id, t)
    decreases if env.swapForY then Max(id - MIN_BIN_ID, 0) else Max(MAX_BIN_ID - id, 0)
  {
    hide VisitBin, VisitUsed, VisitSwap, BinBill, WalkBill, Pays, Holds;
    last := 0;
    BillStarts(env, chain, id, 0);
    PaysNothing(env, id, chain(id), t);
    if t.left != 0 {
      last := VisitPays(env, id, chain(id), t, bins);
      VisitSpends(env, id, chain(id), t, bins);
      BillStarts(env, chain, id, last);
      var u := VisitBin(env, id, chain(id), t).value;
      if u.left != 0 {
        last := NaivePays(env, chain, NextBin(env, id), u, bins + 1);
        var stop := NaiveWalk(env, chain, id, t).value;
        BillExtends(env, chain, id, stop.id, last);
        PaysBoth(env, BinBill(env, id, chain(id), Holds(env, chain(id))),
            WalkBill(env, chain, NextBin(env, id), stop.id, last), t, u, stop.totals);
      }
    }
  }

  lemma PriceIsOwn(data: Data, swapForY: bool, now: int, id: int, bin: Bin)
    requires BinPrice(EnvOf(data, swapForY, now), id, bin).Some?
    ensures TradesAt(data.pair, id, bin, BinPrice(EnvOf(data, swapForY, now), id, bin).value)
  {
    hide FeeSchedules.NearBinPrice, FeeSchedules.PriceFromId;
    if bin.price == 0 {
      FeeSchedules.BinPriceIsNear(id, data.pair.binStep);
    }
  }

  /** The price and rate a bin is billed at are its own. */
  ghost predicate BilledAtOwnTerms(data: Data, swapForY: bool, now: int, id: int, bin: Bin) {
    var env := EnvOf(data, swapForY, now);
    && (BinPrice(env, id, bin).Some? ==> TradesAt(data.pair, id, bin, BinPrice(env, id, bin).value))
    && (RateAt(env.pair, id).Some? ==> ChargedRate(data.pair, now, id, RateAt(env.pair, id).value))
  }

  lemma TermsAreOwn(data: Data, swapForY: bool, now: int, id: int, bin: Bin)
    ensures BilledAtOwnTerms(data, swapForY, now, id, bin)
  {
    hide RateAt, BinPrice, ChargedRate, TradesAt, UpdateReferences;
    var env := EnvOf(data, swapForY, now);
    if BinPrice(env, id, bin).Some? { PriceIsOwn(data, swapForY, now, id, bin); }
    if RateAt(env.pair, id).Some? { RateIff(data.pair, now, id, RateAt(env.pair, id).value); }
  }

  /** Every quoted swap drains each bin it passes and takes `last` from the end bin. What its fills absorb is at least
      the bins' exact prices, and the fee at least each bin's own rate; prices and rates are those of the pair and the
      bins. The fee it reports is the sum of the bins' fees, and with the fee on the input it makes up the input exactly
      with what was absorbed. */
  lemma SwapPaysItsBill(data: Data, chain: int -> Bin, swapForY: bool, amount: u64, now: int, slot: u64, maxArrays: nat)
      returns (last: nat)
    requires ValidData(data) && Agrees(data, chain) && HonestBitmap(EnvOf(data, swapForY, now), data, chain)
      && LegalBin(data.pair.activeId)
    requires SwapExactIn(data, swapForY, amount, now, slot, maxArrays).Ok?
    ensures NaiveWalk(EnvOf(data, swapForY, now), chain, data.pair.activeId, Totals(amount, 0, 0)).Ok?
    ensures var q, env := SwapExactIn(data, swapForY, amount, now, slot, maxArrays).value, EnvOf(data, swapForY, now);
      var id, start := data.pair.activeId, Totals(amount, 0, 0);
      var bill, absorbed := WalkBill(env, chain, id, q.endBin, last), Absorbed(env, chain, id, start);
      && LegalBin(q.endBin) && 0 <= Distance(env, id, q.endBin)
      && last <= Holds(env, chain(q.endBin))
      && bill.taken == q.amountOut + (if env.feeOnInput then 0 else q.fee)
      && q.fee == FeesCharged(env, chain, id, start)
      && amount == absorbed + (if env.feeOnInput then q.fee else 0)
      && bill.value <= absorbed as real
      && bill.fee <= q.fee as real
    ensures forall id: int :: BilledAtOwnTerms(data, swapForY, now, id, chain(id))
  {
    hide BilledAtOwnTerms, GuidedWalk, NaiveWalk, HonestBitmap, Agrees, WalkBill, Absorbed, FeesCharged;
    var env, w := EnvOf(data, swapForY, now), StartOf(data, amount);
    GuidedRefinesNaive(env, data, chain, w, maxArrays);
    last := NaivePays(env, chain, w.id, w.totals, 0);
    forall id: int ensures BilledAtOwnTerms(data, swapForY, now, id, chain(id)) {
      TermsAreOwn(data, swapForY, now, id, chain(id));
    }
  }
}

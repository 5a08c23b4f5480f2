/** The DLMM bin walk: bitmap-guided, against the naive walk over every bin id (`src/quote/dlmm.rs`). */
module DlmmWalk {
  import opened Numbers
  import FeeSchedules
  import opened DlmmBins
  import opened DlmmBitmap

  const MIN_BIN_ID: int := -443_636
  const MAX_BIN_ID: int := 443_636
  const SWAP_ARRAYS: nat := 3

  datatype WalkError = NotTradable | Exhausted | NotLoaded | Math

  datatype Result<+T> = Ok(value: T) | Err(error: WalkError) {
    predicate IsFailure() {
      Err?
    }

    function PropagateFailure<U>(): Result<U>
      requires Err?
    {
      Err(error)
    }

    function Extract(): T
      requires Ok?
    {
      value
    }
  }

  /** One snapshot: the pair, its loaded arrays, the arrays marked liquid, and whether the extension exists. */
  datatype Data = Data(pair: Pair, arrays: map<int, seq<Bin>>, liquid: seq<int>, hasExtension: bool)

  predicate ValidData(data: Data) {
    forall i | i in data.arrays :: |data.arrays[i]| == BINS_PER_ARRAY
  }

  /** What stays fixed during one walk; only the volatility references of `pair` matter. */
  datatype Env = Env(pair: Pair, swapForY: bool, limitOrders: bool, feeOnInput: bool)

  /** Input left and totals so far. */
  datatype Totals = Totals(left: u64, out: u64, fee: u64)

  datatype Quote = Quote(amountOut: u64, fee: u64, startBin: int, endBin: int, arrays: nat)

  // ── one bin ─────────────────────────────────────────────────────────────

  function BinPrice(env: Env, id: int, bin: Bin): Option<u128> {
    if bin.price != 0 then Some(bin.price) else FeeSchedules.PriceFromId(id, env.pair.binStep)
  }

  predicate HasLiquidity(env: Env, bin: Bin) {
    MaxAmountOut(bin, env.swapForY, env.limitOrders) > 0
  }

  /** Visit bin `id`: an empty bin changes nothing and re-prices nothing. */
  function VisitBin(env: Env, id: int, bin: Bin, t: Totals): Result<Totals> {
    if !HasLiquidity(env, bin) then Ok(t)
    else
      var rate := RateAt(env.pair, id);
      var price := BinPrice(env, id, bin);
      if rate.None? || price.None? then Err(Math)
      else Settle(t, SwapInBin(LayersOf(bin, env.swapForY, env.limitOrders), price.value, rate.value, t.left,
          env.swapForY, env.feeOnInput))
  }

  function Settle(t: Totals, swap: Option<BinSwap>): Result<Totals> {
    if swap.None? || swap.value.consumed > t.left || t.out + swap.value.out > U64_MAX then Err(Math)
    else Ok(Totals(t.left - swap.value.consumed, t.out + swap.value.out, Min(t.fee + swap.value.fee, U64_MAX)))
  }

  function NextBin(env: Env, id: int): int {
    if env.swapForY then id - 1 else id + 1
  }

  predicate LegalBin(id: int) {
    MIN_BIN_ID <= id <= MAX_BIN_ID
  }

  // ── the naive walk ──────────────────────────────────────────────────────

  /** Where a walk stopped and what it traded. */
  datatype Stop = Stop(id: int, totals: Totals)

  /** Visit every bin id in turn until the input is spent. */
  function NaiveWalk(env: Env, chain: int -> Bin, id: int, t: Totals): Result<Stop>
    decreases if env.swapForY then Max(id - MIN_BIN_ID, 0) else Max(MAX_BIN_ID - id, 0)
  {
    if t.left == 0 then Ok(Stop(id, t))
    else
      var t' :- VisitBin(env, id, chain(id), t);
      if t'.left == 0 then Ok(Stop(id, t'))
      else if !LegalBin(NextBin(env, id)) then Err(Exhausted)
      else NaiveWalk(env, chain, NextBin(env, id), t')
  }

  // ── the guided walk ─────────────────────────────────────────────────────

  /** `visited` lists the arrays the source counts in `arrays`. */
  datatype Walk = Walk(id: int, totals: Totals, startBin: Option<int>, visited: seq<int>)

  function Lower(index: int): int {
    index * BINS_PER_ARRAY
  }

  predicate InArray(index: int, id: int) {
    Lower(index) <= id < Lower(index) + BINS_PER_ARRAY
  }

  /** The bins of one loaded array, from `id` on. */
  function WalkArray(env: Env, index: int, bins: seq<Bin>, id: int, t: Totals): Result<Stop>
    requires |bins| == BINS_PER_ARRAY
    decreases if env.swapForY then Max(id - Lower(index) + 1, 0) else Max(Lower(index) + BINS_PER_ARRAY - id, 0)
  {
    if t.left == 0 || !InArray(index, id) then Ok(Stop(id, t))
    else
      var t' :- VisitBin(env, id, bins[id - Lower(index)], t);
      if t'.left == 0 then Ok(Stop(id, t'))
      else if !LegalBin(NextBin(env, id)) then Err(Exhausted)
      else WalkArray(env, index, bins, NextBin(env, id), t')
  }

  /** Where the walk enters array `index` when its active bin is `id`: an empty gap is jumped. */
  function EntryBin(env: Env, index: int, id: int): int {
    if index == ArrayIndex(id) then id
    else if env.swapForY then Lower(index) + BINS_PER_ARRAY - 1
    else Lower(index)
  }

  /** The next array to walk, or why there is none. */
  function NextArray(env: Env, data: Data, id: int, visited: nat, maxArrays: nat): Result<int> {
    var from := ArrayIndex(id);
    if NeedsExtension(from) && !data.hasExtension then Err(Exhausted)
    else
      var next := NextLiquid(data.liquid, from, env.swapForY);
      if next.None? || visited + 1 > maxArrays then Err(Exhausted)
      else if next.value !in data.arrays then Err(NotLoaded)
      else Ok(next.value)
  }

  function GuidedWalk(env: Env, data: Data, w: Walk, maxArrays: nat): Result<Walk>
    requires ValidData(data)
    decreases maxArrays - |w.visited|
  {
    if w.totals.left == 0 then Ok(w)
    else
      var index :- NextArray(env, data, w.id, |w.visited|, maxArrays);
      var entry := EntryBin(env, index, w.id);
      var stop :- WalkArray(env, index, data.arrays[index], entry, w.totals);
      GuidedWalk(env, data, Walk(stop.id, stop.totals, if w.startBin.Some? then w.startBin else Some(entry),
          w.visited + [index]), maxArrays)
  }

  function EnvOf(data: Data, swapForY: bool, now: int): Env {
    var pair := UpdateReferences(data.pair, now);
    Env(pair, swapForY, SupportsLimitOrders(pair), FeeOnInput(pair, swapForY))
  }

  function StartOf(data: Data, amount: u64): Walk {
    Walk(data.pair.activeId, Totals(amount, 0, 0), None, [])
  }

  function SwapExactIn(data: Data, swapForY: bool, amount: u64, now: int, slot: u64, maxArrays: nat): Result<Quote>
    requires ValidData(data)
  {
    if !Tradable(data.pair, now, slot) then Err(NotTradable)
    else
      var w :- GuidedWalk(EnvOf(data, swapForY, now), data, StartOf(data, amount), maxArrays);
      Ok(Quote(w.totals.out, w.totals.fee, if w.startBin.Some? then w.startBin.value else w.id, w.id, |w.visited|))
  }

  // ── the pair the source updates in place ────────────────────────────────

  class LbPair {
    const params: Pair
    var activeId: int
    var indexReference: int
    var volatilityReference: u32
    var volatilityAccumulator: u32

    function View(): Pair
      reads this
    {
      params.(activeId := activeId, indexReference := indexReference,
              volatilityReference := volatilityReference, volatilityAccumulator := volatilityAccumulator)
    }

    constructor (p: Pair)
      ensures View() == p && params == p
    {
      params := p;
      activeId, indexReference := p.activeId, p.indexReference;
      volatilityReference, volatilityAccumulator := p.volatilityReference, p.volatilityAccumulator;
    }

    method UpdateReferences(now: int)
      modifies this
      ensures View() == DlmmBins.UpdateReferences(old(View()), now)
    {
      var elapsed := now - params.lastUpdate;
      if elapsed >= params.filterPeriod {
        indexReference := activeId;
        volatilityReference := if elapsed < params.decayPeriod then volatilityAccumulator * params.reductionFactor / 10_000 % Q32 else 0;
      }
    }

    method UpdateVolatilityAccumulator()
      modifies this
      ensures View() == UpdateVolatility(old(View()))
    {
      var va := volatilityReference + Abs(indexReference - activeId) * 10_000;
      volatilityAccumulator := Min(va, params.maxVolatility);
    }

    method MoveTo(id: int)
      modifies this
      ensures View() == old(View()).(activeId := id)
    {
      activeId := id;
    }

    /** The rate at the accumulator just updated. */
    method TotalFeeRate() returns (r: Option<u128>)
      requires volatilityAccumulator == VolatilityAt(View(), activeId)
      ensures r == RateAt(View(), activeId)
    {
      var base := BaseFeeRate(params);
      var variable := VariableFeeRate(params, volatilityAccumulator);
      if base.None? || variable.None? || base.value + variable.value >= Q128 {
        return None;
      }
      return Some(Min(base.value + variable.value, MAX_FEE_RATE));
    }
  }

  // ── the loops as the source runs them ───────────────────────────────────

  /** Same parameters and volatility references: the same rate in every bin. */
  predicate SameFees(p: Pair, q: Pair) {
    p.(activeId := 0, volatilityAccumulator := 0) == q.(activeId := 0, volatilityAccumulator := 0)
  }

  lemma SameRateAs(p: Pair, activeId: int, volatility: u32, id: int)
    ensures RateAt(p.(activeId := activeId, volatilityAccumulator := volatility), id) == RateAt(p, id)
  {
    hide TenTo;
  }

  lemma SameRate(p: Pair, q: Pair, id: int)
    requires SameFees(p, q)
    ensures RateAt(p, id) == RateAt(q, id)
  {
    hide RateAt;
    SameRateAs(p, 0, 0, id);
    SameRateAs(q, 0, 0, id);
  }

  method VisitActive(env: Env, bin: Bin, pair: LbPair, t: Totals) returns (r: Result<Totals>)
    requires SameFees(env.pair, pair.View())
    modifies pair
    ensures r == VisitBin(env, pair.activeId, bin, t)
    ensures SameFees(env.pair, pair.View()) && pair.activeId == old(pair.activeId)
  {
    hide HasLiquidity, BinPrice, SwapInBin, LayersOf, RateAt;
    if !HasLiquidity(env, bin) {
      return Ok(t);
    }
    pair.UpdateVolatilityAccumulator();
    SameRate(env.pair, pair.View(), pair.activeId);
    var rate := pair.TotalFeeRate();
    var price := BinPrice(env, pair.activeId, bin);
    if rate.None? || price.None? {
      return Err(Math);
    }
    var swap := SwapInBin(LayersOf(bin, env.swapForY, env.limitOrders), price.value, rate.value, t.left, env.swapForY,
        env.feeOnInput);
    if swap.None? || swap.value.consumed > t.left || t.out + swap.value.out > U64_MAX {
      return Err(Math);
    }
    return Ok(Totals(t.left - swap.value.consumed, t.out + swap.value.out, Min(t.fee + swap.value.fee, U64_MAX)));
  }

  method SwapThroughArray(env: Env, index: int, bins: seq<Bin>, pair: LbPair, t0: Totals) returns (r: Result<Totals>)
    requires |bins| == BINS_PER_ARRAY && SameFees(env.pair, pair.View())
    modifies pair
    ensures WalkArray(env, index, bins, old(pair.activeId), t0)
         == if r.Ok? then Ok(Stop(pair.activeId, r.value)) else Err(r.error)
    ensures SameFees(env.pair, pair.View())
  {
    hide VisitBin, RateAt;
    var t := t0;
    while t.left > 0 && InArray(index, pair.activeId)
      invariant SameFees(env.pair, pair.View())
      invariant WalkArray(env, index, bins, old(pair.activeId), t0) == WalkArray(env, index, bins, pair.activeId, t)
      decreases if env.swapForY then Max(pair.activeId - Lower(index) + 1, 0)
                else Max(Lower(index) + BINS_PER_ARRAY - pair.activeId, 0)
    {
      var visited := VisitActive(env, bins[pair.activeId - Lower(index)], pair, t);
      if visited.Err? {
        return visited;
      }
      t := visited.value;
      if t.left == 0 {
        return Ok(t);
      }
      var next := NextBin(env, pair.activeId);
      if !LegalBin(next) {
        return Err(Exhausted);
      }
      pair.MoveTo(next);
    }
    return Ok(t);
  }

  method WalkGuided(env: Env, data: Data, pair: LbPair, amount: u64, maxArrays: nat) returns (r: Result<Walk>)
    requires ValidData(data) && SameFees(env.pair, pair.View())
    modifies pair
    ensures r == GuidedWalk(env, data, Walk(old(pair.activeId), Totals(amount, 0, 0), None, []), maxArrays)
  {
    hide WalkArray, NextArray;
    var t, visited: seq<int>, startBin: Option<int> := Totals(amount, 0, 0), [], None;
    ghost var whole := GuidedWalk(env, data, Walk(pair.activeId, t, startBin, visited), maxArrays);
    while t.left > 0
      invariant SameFees(env.pair, pair.View())
      invariant whole == GuidedWalk(env, data, Walk(pair.activeId, t, startBin, visited), maxArrays)
      decreases maxArrays - |visited|
    {
      var next := NextArray(env, data, pair.activeId, |visited|, maxArrays);
      if next.Err? {
        return Err(next.error);
      }
      NextArrayFits(env, data, pair.activeId, |visited|, maxArrays);
      var index := next.value;
      var bins := data.arrays[index];
      if index != ArrayIndex(pair.activeId) {
        pair.MoveTo(if env.swapForY then Lower(index) + BINS_PER_ARRAY - 1 else Lower(index));
      }
      if startBin.None? {
        startBin := Some(pair.activeId);
      }
      var walked := SwapThroughArray(env, index, bins, pair, t);
      if walked.Err? {
        return Err(walked.error);
      }
      t := walked.value;
      visited := visited + [index];
    }
    return Ok(Walk(pair.activeId, t, startBin, visited));
  }

  lemma NextArrayFits(env: Env, data: Data, id: int, visited: nat, maxArrays: nat)
    requires NextArray(env, data, id, visited, maxArrays).Ok?
    ensures visited < maxArrays && NextArray(env, data, id, visited, maxArrays).value in data.arrays
  {
  }

  method Swap(data: Data, swapForY: bool, amount: u64, now: int, slot: u64, maxArrays: nat) returns (r: Result<Quote>)
    requires ValidData(data)
    ensures r == SwapExactIn(data, swapForY, amount, now, slot, maxArrays)
  {
    if !Tradable(data.pair, now, slot) {
      return Err(NotTradable);
    }
    var pair := new LbPair(data.pair);
    pair.UpdateReferences(now);
    var env := EnvOf(data, swapForY, now);
    var w := WalkGuided(env, data, pair, amount, maxArrays);
    if w.Err? {
      return Err(w.error);
    }
    var walk := w.value;
    return Ok(Quote(walk.totals.out, walk.totals.fee, if walk.startBin.Some? then walk.startBin.value else walk.id,
      walk.id, |walk.visited|));
  }
}

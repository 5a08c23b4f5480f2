# Exact-input quotes, proved

A Dafny model of the repository's exact-input quote engines: the integer arithmetic and the loops that walk tick
ranges, bins and curve segments, and the theorems they rest on. `dafny verify dfyconfig.toml` checks everything.

## How it is organised

| file | models |
|---|---|
| `Numbers.dfy`, `WideMath.dfy` | machine-integer ranges, the two roundings, the 256/512-bit multiply-divide kernel |
| `ClmmStep.dfy`, `LimitOrders.dfy`, `StepFees.dfy`, `ClmmWalk.dfy` | the concentrated-liquidity walk: one swap step, orders resting on ticks, the static, Raydium and Orca fee per step, the two nested loops |
| `ClmmPeriods.dfy`, `ClmmLog.dfy`, `ClmmSaturated.dfy` | its moves: what each is charged and which liquidity it used, and the one overcharge |
| `ClmmLedger.dfy`, `ClmmRefusal.dfy` | its book: every move and every fill of a swap against the pool's own ticks, nets, orders and fee fields; and why a swap is refused |
| `ClmmMonotone.dfy`, `ClmmSplit.dfy`, `ClmmArea.dfy`, `ClmmRoundTrip.dfy` | its theorems: monotonicity, splitting, exact areas, swapping back |
| `Bitmaps.dfy` | set bits lowest first, and sorting, for the two bitmap readers |
| `DlmmBins.dfy`, `DlmmRates.dfy`, `DlmmBitmap.dfy`, `DlmmWalk.dfy` | one DLMM bin, its rate and price from the stored fields, the three-part bitmap, the guided and the naive bin walk |
| `DlmmRefinement.dfy`, `DlmmMonotone.dfy`, `DlmmConservation.dfy`, `DlmmSplit.dfy` | its theorems: refinement, monotonicity, where the input goes, splitting |
| `DlmmReach.dfy`, `DlmmLedger.dfy` | which snapshots a walk gets through; its book: every visit of a swap against the bins on chain |
| `SqrtCurve.dfy`, `DammPool.dfy`, `RateLimiter.dfy`, `DammFees.dfy` | one segment of constant liquidity, shared with DBC; DAMM v2's swaps, its rate limiter, and its total fee in every mode |
| `DbcCurve.dfy`, `DbcLedger.dfy` | the DBC segments walked up and down, and the fees around the walk; its book: the pieces of a quote against the config |
| `DbcAreas.dfy`, `DbcRuns.dfy`, `DbcSplit.dfy`, `DbcRoundTrip.dfy` | its theorems: exact areas, solvency of every run, splitting, selling back |
| `FixedPow.dfy`, `FeeSchedules.dfy`, `TimedFees.dfy` | square-and-multiply with a rounding direction, the four schedules built on it, and the time-based base fees of DAMM v2 and DBC |
| `LaunchLab.dfy`, `ConstantProduct.dfy`, `TickBitmap.dfy` | the LaunchLab state machine, two quote/inverse pairs, the tick-array plan |

## How it is modelled

- Values are unbounded integers with the source's ranges written out (`u64`, `u128`, `ToU64`, `ToU128`), so `None`
  means what it means in Rust: a failed conversion or checked operation, or a refusal. A panic (a division by zero, a
  256-bit product that overflows) is modelled as `None`. `as u32` truncation is written out.
- Each loop and each object the source updates in place appears twice: as a method or class in the source's form, and
  as the function its `ensures` equates it with. The theorems are about the functions.
- The tick-to-price tables are a parameter, `Table`, required to be positive and strictly increasing with an inverse
  that is exact on the table's own prices.
- Clocks, slots and snapshots are parameters.
- Runs use the transitions the quotes imply: what is left of the input after an input-side fee enters the reserve, the
  gross output leaves it (`src/quote/dbc.rs:205-216`, `src/quote/launchlab.rs:63-97`).
- A walk over ticks also keeps the list of its price moves, whose length is the `steps` the source counts, and a book of
  those moves and the fills between them; a DLMM walk keeps the list of arrays whose length is its `arrays`.
- The quotes are stated twice. The functions compute them as the source does. The predicates they are proved equal to say
  what they are, from the stored fields: the least or greatest amounts that satisfy an inequality. The only functions of the
  computation these name are the two fixed-point powers, which are themselves bounded against the exact ones.

## Where the code and its documentation, or a simpler reading, part

- A Raydium step taken at saturated volatility runs to the next tick at the saturated rate. Moving back toward the
  reference it passes periods that would charge less on their own: `ClmmSaturated.SaturatedSwapOvercharges` is such a
  swap, at Raydium's own prices. A swap never leaves a saturated period for one ahead that is not exactly when the pool
  starts unsaturated, or with the reference behind, or with one that saturates by itself
  (`ClmmPeriods.NeverDesaturatesIff`); then no move of it overcharges (`ClmmLog.EveryMovePaysItsPeriods`). Moves on the
  other venues always pay exactly their periods' rate.
- A comment on `chain_now` (`src/quote/dlmm.rs:555-559`) calls reading the clock early the conservative side, since
  volatility only decays. It charges a bin less exactly when only the later clock re-anchors the pair and the bin's rate
  is lower seen from the stored reference than from the active bin (`DlmmBins.EarlyClockUndercharges`), as in
  `DlmmBins.UnderchargedExample`; never, for a settled pair, in a bin the swap moves away to from the reference. The two
  other volatility fees have conditions of the same form (`StepFees.LaterRaydiumFindsMore`, `StepFees.LaterOrcaFindsMore`).
- The DBC exponential schedule squares its base in 128 bits once more than it needs, so a reduction of zero overflows
  and is refused where DAMM v2 returns the cliff (`FeeSchedules.SchedulesAgree`, `FeeSchedules.DbcFeeExists`).
- Fusion prices its orders at the tick's price rounded down to Q64.64 when token 1 is paid in. The taker then pays less
  than the price itself, by less than one unit of token 1 (`LimitOrders.FusionIsFair`). A full fill does so exactly when
  what rounding its input up adds is less than what rounding the price down saves (`LimitOrders.FullFillBeatsPrice`), as
  at tick 1 of Orca's table (`LimitOrders.FullFillExample`); otherwise no fill of those orders does, at any input and fee
  (`LimitOrders.NoFillBeatsPrice`).

## Model

| member | source | states |
|---|---|---|
| WideMath.WideMul | src/quote/clmm.rs:57-66 | four 64-bit limb products add up to the exact product, with no intermediate leaving 128 bits |
| WideMath.MulDivFloor | src/quote/clmm.rs:104-113 | narrow and wide path alike: exactly the floor of a·b/d, `None` exactly when d is 0 or the quotient does not fit |
| WideMath.MulDivCeil | src/quote/clmm.rs:116-126 | the same for the ceiling, where the rounded-up quotient must fit |
| WideMath.MulDiv512 | src/quote/clmm.rs:90-101 | the 512-bit path answers with the greatest quotient not above a·b/d, or rounding up the least not below it; `None` exactly when d is 0 or that quotient needs more than 256 bits |
| WideMath.MulDiv256 | src/quote/clmm.rs:76-87 | dividing a product that fits 256 bits gives what the 512-bit path gives, its incremented quotient included |
| ClmmStep.NextPriceIsAffordable | src/quote/clmm.rs:228-246 | the next price costs at most the input, rounded up, and it reaches a price ahead exactly when the input covers the rounded-up way there |
| ClmmStep.LandingIsSound | src/quote/clmm.rs:262-275 | a step lands between start and target, at the target or with nothing affordable beyond, and its rounded-up cost never exceeds what is left after the fee |
| ClmmStep.SwapStepIsSound | src/quote/clmm.rs:262-283 | a step uses at most `remaining`, stays in its interval, reaches the target or uses everything, charges the fee at least its rate, and pays the rounded-down output |
| ClmmStep.SwapStepIsExact | src/quote/clmm.rs:262-283 | a step stops at its target for the least input that pays the way and its fee, or spends everything and stops at the farthest price that affords; its output is the exact yield there less an output-side fee |
| ClmmStep.OnlyTheLandingRefuses | src/quote/clmm.rs:262-283 | the guard on the landing and the checked fee arithmetic never refuse: a step fails exactly when its landing does not exist, because the next price or one of the amounts to it overflows |
| ClmmStep.StepExistsIff | src/quote/clmm.rs:228-283 | there is a step if and only if the target is affordable in 64-bit amounts, or the farthest affordable price is a 128-bit price in such amounts |
| ClmmStep.SwapStepMonotone | src/quote/clmm.rs:262-283 | with more input, the same step, or the smaller input is used up before the target for no more |
| LimitOrders.OrderPriceBounds | src/quote/clmm.rs:638-641 | the order price is the tick's squared price rounded against the taker, by less than one unit either way |
| LimitOrders.MatchIsSound | src/quote/clmm.rs:634-664 | a Raydium fill uses at most `remaining`, fills at most what rests, and spends everything if orders are left |
| LimitOrders.MatchIsMonotone | src/quote/clmm.rs:634-664 | with more input, the same fill, or the smaller input is used up for no more |
| LimitOrders.MatchIsFair | src/quote/clmm.rs:634-664 | orders never fill better than the tick's price rounded against the taker, and the fee is at least its rate |
| LimitOrders.MatchIsExact | src/quote/clmm.rs:634-664 | a Raydium or Orca fill takes the most orders its input pays for at the squared price rounded against the taker, and keeps input only if that would buy one more than rest; then it uses the least that pays for all |
| LimitOrders.MatchExistsIff | src/quote/clmm.rs:634-664 | orders are matched if and only if the rounded squared price fits 128 bits, is not a zero divisor, and the input buys fewer than 2^128 tokens at it |
| LimitOrders.FusionIsSound | src/quote/clmm.rs:285-311 | a Fusion fill keeps the same three bounds |
| LimitOrders.FusionIsMonotone | src/quote/clmm.rs:285-311 | with more input, the same fill, or the smaller input is used up for no more |
| LimitOrders.FusionIsFair | src/quote/clmm.rs:285-311 | the input net of a full-rate fee pays for what is filled at the tick's squared price when token 0 is paid in; when token 1 is, at that price rounded down, and short of the exact price by less than one unit in all |
| LimitOrders.FusionIsExact | src/quote/clmm.rs:285-311 | a Fusion fill takes every order for the least input, or the share of them that the input less its fee is of the whole price, rounded down |
| LimitOrders.FusionExistsIff | src/quote/clmm.rs:285-311 | Fusion fills its orders if and only if their whole price, and the fee on it, fit 128 bits |
| LimitOrders.FullFillBeatsPrice | src/quote/clmm.rs:292-303 | with token 1 paid in, a full fill beats the tick's exact price if and only if what rounding its input up adds is less than what rounding the price down saves |
| LimitOrders.NoFillBeatsPrice | src/quote/clmm.rs:285-311 | no fill of a tick's orders, full or partial, at any input and fee rate, beats the tick's exact price if and only if rounding the full input up adds at least what rounding the price down saves |
| LimitOrders.FullFillExample | src/quote/clmm.rs:285-311 | a full fill at the price of Orca's tick 1 that pays less than the exact price |
| StepFees.RaydiumVolatilityDecays | src/quote/clmm.rs:375-393 | moving away from the reference, a later clock never finds more volatility in a period |
| StepFees.OrcaVolatilityDecays | src/quote/clmm.rs:460-486 | the same with a reference that also expires |
| StepFees.LaterRaydiumFindsMore | src/quote/clmm.rs:375-393 | a later clock finds more volatility in a period if and only if it alone gives a new reference and the period is more volatile from there than from the stored one |
| StepFees.LaterOrcaFindsMore | src/quote/clmm.rs:460-486 | the same with a reference that also expires and a clock clamped to the stored timestamps |
| StepFees.TotalRateIsLeast | src/quote/clmm.rs:395-400 | below 100 000 the rate is the least integer at or above the base with control·(accumulator·unit)² ≤ (rate − base)·10^13, and 100 000 exactly where that integer is not below it |
| StepFees.StepFee.Step | src/quote/clmm.rs:548-584 | the in-place step leaves the accumulator of the current period and returns that period's rate, its bound, and whether re-pricing was skipped |
| StepFees.StepFee.Advance | src/quote/clmm.rs:588-623 | the in-place advance moves one period on, or from where the price landed when re-pricing was skipped |
| ClmmWalk.GapShrinks | src/quote/clmm.rs:996-1052 | every inner iteration that leaves input short of its target brings the fee period strictly closer to the last one before the goal, so the loop ends, on every pool |
| ClmmWalk.RunToGoal | src/quote/clmm.rs:996-1052 | the inner loop with its mutable fee state computes the function `Inner` |
| ClmmWalk.RunTicks | src/quote/clmm.rs:977-1057 | the outer loop computes `Outer`, at most 512 passes |
| ClmmWalk.SwapExactInPoolWithin | src/quote/clmm.rs:940-1062 | the whole swap computes `SwapExactIn` |
| ClmmPeriods.StopsAtEdge | src/quote/clmm.rs:548-584 | a plan bounded short of the target stops on an edge of the current period, or of Orca's core range |
| ClmmPeriods.CoveredIsOutsideCore | src/quote/clmm.rs:482-492 | every group that a step outside Orca's core range covers, in either direction, has the same saturated rate |
| ClmmPeriods.MoveIsFair | src/quote/clmm.rs:548-584 | a re-priced move stays inside one period and pays its rate; a skipped one starts inside its period and pays exactly what each period it covers would have charged, or, for a Raydium move that starts saturated, at least that in a covered period that is not |
| ClmmPeriods.StaysSaturated | src/quote/clmm.rs:389-393 | from a saturated period, every period ahead is saturated if and only if the reference is at or behind it in the swap direction or saturates the volatility alone |
| ClmmPeriods.NeverDesaturatesIff | src/quote/clmm.rs:389-393 | from a start period on, every saturated period is followed by saturated ones only, if and only if the start is not saturated, or the reference is at or behind it, or saturates the volatility alone |
| ClmmLog.EveryMovePaysItsPeriods | src/quote/clmm.rs:940-1062 | over a whole swap of any venue, with limit orders: every move is charged fairly in that sense, with equality for every covered period of every move unless a Raydium pool starts saturated and short of a reference that does not saturate by itself; neither the subtraction of what was used nor the guard after a partial fill ever fires |
| ClmmLog.EveryMoveUsesItsLiquidity | src/quote/clmm.rs:976-1057 | every move of a swap used the starting liquidity adjusted by the nets of exactly the ticks the price had crossed before it |
| ClmmLedger.SwapIsItsBook | src/quote/clmm.rs:940-1062 | every quoted swap is a book of exact moves and fills: the inputs add up to the amount paid in and the outputs to the amount quoted; the k-th tick met is filled from `data.orders` at its own price and crossed exactly when nothing rests there; each move has the liquidity that the nets leave, is charged the least rate of its own fee period by `tickSpacing` or the Orca group, and stops exactly at the next tick, the known range, the limit, or the period edge where its rate can change; the fee side follows `feeOn` |
| ClmmRefusal.RefusedForAReason | src/quote/clmm.rs:940-1062 | a swap is refused only before it starts, or after a book of exact trades of its own: with the next tick behind it, where no step exists or an amount overflows, on a tick whose orders have no fill or whose net leaves 128 bits, or with input left at the end of the known range, at the price limit or behind 512 ticks |
| ClmmSaturated.SaturatedSwapOvercharges | src/quote/clmm.rs:554-558 | a quoted swap of a consistent Raydium pool at Raydium's own tick prices, one of whose moves pays more than a period it covers would charge |
| ClmmMonotone.MoreInputNeverPaysLess | src/quote/clmm.rs:940-1062 | more input never yields less output, for every fee kind and with limit orders, when both are quoted |
| ClmmSplit.StepSplit | src/quote/clmm.rs:262-283 | a step short of its target and a second step from there pay out no more than one step of both inputs, which reaches the target whenever they do, for no more input |
| ClmmSplit.SplitNeverPaysMore | src/quote/clmm.rs:940-1062 | with a static fee and no limit orders, two consecutive swaps across any number of ticks never pay more than one of the sum, with the fee on either side |
| ClmmSplit.WalkLeaves | src/quote/clmm.rs:1032-1040 | the walk's own tick lies on the far side of exactly the ticks it crossed, so the pool it leaves is one the second swap may start from |
| ClmmArea.CostCoversSpan | src/quote/clmm.rs:206-225 | the rounded deltas bracket the exact area of a constant-liquidity span |
| ClmmArea.WalkIsCovered | src/quote/clmm.rs:940-1062 | without limit orders, the output is at most the exact area under the starting liquidity adjusted by the nets of the ticks crossed, the input at least the exact area in the other token, and the fee side is short of its area by at least the fee rate |
| ClmmRoundTrip.WayBack | src/quote/clmm.rs:976-1057 | from where a run ended, the way back to where it began crosses the same ticks and holds the run's own exact areas with the tokens exchanged |
| ClmmRoundTrip.RoundTripNeverGains | src/quote/clmm.rs:940-1062 | without limit orders and whatever fees either swap is charged: swapping back any part of what a swap delivered, across any number of ticks, returns at most what was put in |
| DlmmBins.EarlyClockFindsLess | src/quote/dlmm.rs:160-177 | an earlier clock finds less volatility in a bin if and only if it alone keeps the stored reference and the bin is less volatile from there than freshly from the active bin; for a settled pair, in no bin the swap moves away to |
| DlmmBins.EarlyClockUndercharges | src/quote/dlmm.rs:555-565 | reading the clock early charges a bin less if and only if only the later reading re-anchors and the rate of the first of those volatilities is below that of the second; for a settled pair, never in a bin the swap moves away to |
| DlmmBins.UnderchargedExample | src/quote/dlmm.rs:555-565 | a concrete pair whose reference bin is charged 100 000 per 10⁹ one second early and 101 600 on time |
| DlmmRates.RateIff | src/quote/dlmm.rs:160-198 | the rate of a bin after re-anchoring is a value if and only if that is the least rate, up to 10 %, that pays baseFactor·binStep·10^(1+power) and control·(volatility·binStep)²/10^11, where the volatility is the capped distance from the reference that the clock gives, and those fit 128 bits |
| DlmmBins.BinIsSound | src/quote/dlmm.rs:471-505 | all layers together take at most the bin, at no better than its price, and leave input only by draining it |
| DlmmBins.SwapIsSound | src/quote/dlmm.rs:485-520 | a bin swap consumes at most its input, so the walk's checked subtraction never fails, leaves some only by draining the bin, never fills better than the price, and charges at least the rate on its fee side |
| DlmmBins.SwapIsMonotone | src/quote/dlmm.rs:485-520 | with more input, the same swap, or the smaller input is consumed whole for no more |
| DlmmBitmap.ListLiquidArrays | src/quote/dlmm.rs:345-370 | the bit-scanning loops compute `LiquidArrays` |
| DlmmBitmap.LiquidArraysExact | src/quote/dlmm.rs:345-370 | every marked array is listed once, ascending, and nothing else, under the three index mappings |
| DlmmBitmap.NextLiquidExact | src/quote/dlmm.rs:373-381 | the nearest listed array at or beyond the current one in the swap direction, `None` exactly when there is none |
| DlmmBitmap.ArraysForSwap | src/quote/dlmm.rs:389-405 | the loop computes `ArraysFrom` |
| DlmmWalk.LbPair.UpdateReferences | src/quote/dlmm.rs:160-170 | the in-place re-anchoring of an idle pair, all fields stated |
| DlmmWalk.LbPair.UpdateVolatilityAccumulator | src/quote/dlmm.rs:173-177 | the in-place accumulator becomes the volatility of the active bin |
| DlmmWalk.LbPair.TotalFeeRate | src/quote/dlmm.rs:179-198 | after that update the rate read is the rate of the active bin alone, whatever was walked before |
| DlmmWalk.SwapThroughArray | src/quote/dlmm.rs:666-687 | the inner loop with its mutable pair computes `WalkArray` |
| DlmmWalk.WalkGuided | src/quote/dlmm.rs:650-688 | the outer loop computes `GuidedWalk` |
| DlmmWalk.Swap | src/quote/dlmm.rs:635-690 | the whole swap computes `SwapExactIn` |
| DlmmRefinement.GapIsNaive | src/quote/dlmm.rs:661-664 | jumping a gap of unmarked arrays is walking it bin by bin |
| DlmmRefinement.GuidedRefinesNaive | src/quote/dlmm.rs:650-688 | every walk the guided form completes is the walk that visits each bin id in turn |
| DlmmRefinement.SwapIsNaive | src/quote/dlmm.rs:635-690 | a quote's output, fee and end bin are the naive walk's, with all input spent, if unmarked arrays are empty and marked ones reach into the legal range |
| DlmmRefinement.VisitsInOrder | src/quote/dlmm.rs:650-660 | the arrays walked are a prefix, in order, of `arrays_for_swap`, and a missing array is one of those |
| DlmmReach.RouteIff | src/quote/dlmm.rs:373-405 | the arrays announced are the one sequence that takes the nearest liquid array each time, up to the limit and inside the bitmap unless there is an extension |
| DlmmRefinement.CoveredNeverNotLoaded | src/quote/dlmm.rs:584-586 | a snapshot that covers both directions never yields `NotLoaded` at `SWAP_ARRAYS` |
| DlmmMonotone.MoreInputNeverPaysLess | src/quote/dlmm.rs:635-690 | more input never yields less over the whole walk, all layers, both fee sides |
| DlmmConservation.SwapPaysItsBill | src/quote/dlmm.rs:666-690 | output (before an output fee) is exactly every bin passed plus a part of the end bin; what the fills absorbed, summed bin by bin, plus an input-side fee is exactly the input and at least the exact price of all of it; the fee reported is the sum of the bins' fees, so its total never saturates, and is at least each bin's own rate; each bin's price is the stored one, or near the exact power of the step, and its rate that of the pair's fields |
| DlmmLedger.BinIff | src/quote/dlmm.rs:471-505 | market makers, processed and open orders fill in turn, each giving the most the input left buys at the bin's price for the least that buys all of it, and refused exactly where a layer in reach has no 64-bit price |
| DlmmLedger.SwapIsItsVisits | src/quote/dlmm.rs:635-690 | over any snapshot of the chain, `q` is quoted if and only if a book of exact visits gives it: one bin after another from the active one, at the stored price or the step's own power, the bin's own rate and layers, the fee inside the input or on top of a drained bin or out of the output by `collectFeeMode`, outputs and fees added up, inside loaded arrays that end at its end bin |
| DlmmSplit.SwapSplit | src/quote/dlmm.rs:471-520 | a bin swap that consumed its input and a second on what it left of the layers pay out no more than one of both inputs, which leaves at least what the second leaves |
| DlmmSplit.SplitNeverPaysMore | src/quote/dlmm.rs:635-690 | with no variable fee, two consecutive swaps over any bins, layers and arrays never pay more than one of the sum, with the fee on either side |
| DlmmSplit.TakingLeaves | src/quote/dlmm.rs:471-505 | the end bin paid out of layer by layer in fill order is a state the second swap may start from |
| FixedPow.WholePowerNear | src/quote/damm_v2.rs:233-248 | square-and-multiply is within `n` units of the exact `n`-th power, on the side its rounding goes |
| FeeSchedules.DammPowLoop | src/quote/damm_v2.rs:233-248 | the nineteen-bit loop computes `DammPow`; below one its checked products never overflow |
| FeeSchedules.ExponentialFeeLoop | src/quote/dbc.rs:321-336 | the DBC loop computes `ExponentialFee` |
| FeeSchedules.DbcFeeExists | src/quote/dbc.rs:321-336 | a DBC scheduled fee exists exactly for period 0 or a reduction of 1 to 10⁴ basis points, and is then the truncated power times the cliff |
| FeeSchedules.DammFeeExists | src/quote/damm_v2.rs:221-230 | DAMM v2 charges the cliff without a reduction or before the first period, refuses reductions above 100 % and a decay rounded to nothing, and otherwise charges the truncated power times the cliff |
| FeeSchedules.SchedulesAgree | src/quote/damm_v2.rs:221-230 | where DAMM v2 quotes, DBC's schedule is the same fee exactly when the reduction is not zero or the period is |
| FeeSchedules.DecayError | src/quote/damm_v2.rs:233-248 | the decay after `n` periods is at most the exact power and at most `n` units of 2⁻⁶⁴ below it |
| FeeSchedules.ScheduledFeeNeverRises | src/quote/damm_v2.rs:221-230 | for a reduction of at least 1 and a cliff of at most 10⁹, no later period has a higher fee, in either program |
| FeeSchedules.ScheduledFeeError | src/quote/dbc.rs:321-336 | the fee is the exact fee rounded down by less than two units |
| FeeSchedules.ExponentialIsNear | src/quote/dbc.rs:321-336 | at any cliff and period, the scheduled fee is the exact decay of the cliff, less than a unit and what the roundings cost below it |
| FeeSchedules.DlmmPowLoop | src/quote/dlmm.rs:416-446 | the loop on the inverted base computes `DlmmPow`; its products never overflow |
| FeeSchedules.BinPriceIsNear | src/quote/dlmm.rs:411-446 | the price of bin `id` is one at 0, below it within three units per bin of the exact (1 + binStep/10^4)^id, and above it the inverse of a number that near to the inverse power |
| FeeSchedules.BinPriceExists | src/quote/dlmm.rs:411-446 | no bin 2^19 or more away has a price, and every other one has unless its inverse power is within the rounding of zero |
| FeeSchedules.DecayFeeRateLoop | src/quote/byreal_fee.rs:180-200 | the rounding-up loop computes `DecayFeeRate` |
| FeeSchedules.DecayFeeError | src/quote/byreal_fee.rs:180-200 | the rate never undercuts the exact decay and exceeds it by at most `init`/100 rate units per interval and one rounding |
| FeeSchedules.BaseFeeFollowsDecay | src/quote/byreal_fee.rs:171-176 | the base rate is never below the configured one nor, on a decaying side, the exact decay, and above the configured one only by the decay and its rounding |
| FeeSchedules.BaseFeeExists | src/quote/byreal_fee.rs:171-200 | the base rate is refused if and only if the side decays since its opening and there is no interval or the decrease is above 100 % |
| TimedFees.DammFeeNeverRises | src/quote/damm_v2.rs:102-127 | once active, a DAMM v2 time scheduler, linear or exponential, never raises the fee; before activation it charges its lowest |
| TimedFees.DammFeeIsScheduled | src/quote/damm_v2.rs:102-127 | the base fee is the cliff less a reduction per counted period, refused exactly below zero, or decayed by it; all periods count before activation |
| TimedFees.ProgramsAgree | src/quote/dbc.rs:152-167 | from activation on, wherever DAMM v2 quotes, DBC with the same parameters charges the same base fee, except exactly for an exponential schedule without reduction after its first period |
| TimedFees.DbcFeeNeverRises | src/quote/dbc.rs:152-189 | a DBC pool's total fee, in every base-fee mode, never rises with time at the same volatility |
| DammFees.TotalIsExact | src/quote/damm_v2.rs:102-215 | `rate` is the total fee if and only if it is the least, up to the version's cap, that pays the base fee of the pool's own mode (time, limiter or price schedule) and the volatility's |
| SqrtCurve.BaseBetweenIff | src/quote/damm_v2.rs:274-282 | rounded up, the least amount of A that covers the segment exactly; rounded down, the greatest within it |
| SqrtCurve.QuoteBetweenIff | src/quote/damm_v2.rs:285-293 | the same for B |
| SqrtCurve.NextFromAIff | src/quote/damm_v2.rs:296-301 | the next price exists, is at most the start, and is the lowest one the amount covers down to |
| SqrtCurve.NextFromBIff | src/quote/damm_v2.rs:304-313 | the next price is the highest one the amount covers up to |
| SqrtCurve.NetOfParts | src/quote/damm_v2.rs:352-353 | a fee rounded up on two parts leaves no more than on their sum |
| DammPool.SwapFavoursPool | src/quote/damm_v2.rs:348-395 | a swap stays in the price range, is paid for and pays at most the exact area (or keeps the product of token A's and token B's reserves from falling), and its fee is at least the rate |
| DammPool.SwapIsExact | src/quote/damm_v2.rs:348-395 | `q` is quoted if and only if its fee is the least whole amount at the rate, out of the input exactly for token B in modes 1 and 2, and the rest trades exactly: to the farthest price it covers inside the range for the most that stretch holds, or for the most of the other token's reserve that keeps reserveA·reserveB |
| DammPool.MoreInputNeverPaysLess | src/quote/damm_v2.rs:348-395 | more input never yields less, on both curves and both fee sides |
| DammPool.SplitNeverPaysMore | src/quote/damm_v2.rs:348-395 | net of fees, two consecutive swaps on a price range never pay out more than one of the sum |
| RateLimiter.ClosedFormIsStepSum | src/quote/damm_v2.rs:170-190 | the closed form is the sum that charges chunk `k` at the cliff plus `k` increments and, past the last step, the cap |
| RateLimiter.RateChargesTheStepSum | src/quote/damm_v2.rs:190-197 | the rate it becomes is the least that charges the progressive fee in whole atoms when applied again, and is at least the cliff |
| RateLimiter.RateIsExact | src/quote/damm_v2.rs:167-197 | the rate exists and is a value if and only if that is the cliff up to the reference, or the least that charges the least whole fee covering the chunks at min(cliff + k·increment, cap) in the stored basis points |
| DbcCurve.BuyLoop | src/quote/dbc.rs:229-254 | the upward loop computes `QuoteToBase` |
| DbcCurve.SellLoop | src/quote/dbc.rs:259-288 | the downward loop computes `BaseToQuote` |
| DbcLedger.FeeExistsIff | src/quote/dbc.rs:152-189 | a pool has a fee if and only if its mode is known, no limiter applies, its schedule stays in range, and its volatility fits 256 bits |
| DbcLedger.SwapIsItsBook | src/quote/dbc.rs:152-288 | `q` is quoted if and only if the pool has a fee and a book of exact pieces gives `q` at the least rate, up to 99 %, that pays the configured base fee and volatility: the least whole fee, on the input exactly for a buy in mode 0; the rest spent segment by segment, each crossed for the least input or left at the farthest price, for the most it holds; never past the migration price, below the start, or up to the threshold |
| DbcAreas.BuyIsFair | src/quote/dbc.rs:229-254 | across any number of segments a buy ends between its start and the migration price, pays at least the exact quote area and receives at most the exact base area |
| DbcAreas.SellIsFair | src/quote/dbc.rs:259-288 | a sell ends between the start price and where it began, pays at least the exact base area and receives at most the exact quote area |
| DbcRuns.BuyStep | src/quote/dbc.rs:193-224 | a quoted buy keeps the reserve covering the exact area and ends at or below the migration price |
| DbcRuns.SellStep | src/quote/dbc.rs:193-224 | a quoted sell never takes more than the reserve, keeps it covering the exact area, and ends at or above the start price |
| DbcRuns.RunsInOrder | src/quote/dbc.rs:193-224 | a run is its orders one after the other, and a quoted order changes the reserve by what entered or left the curve and the price to the quote's |
| DbcRuns.EveryRunIsSolvent | src/quote/dbc.rs:193-288 | from a fresh pool, over any run at any fees: every sell can be paid, the reserve covers the exact area down to the start price, and the price stays on the curve |
| DbcSplit.SplitWalkNeverPaysMore | src/quote/dbc.rs:229-288 | two consecutive walks never trade for more, nor reach farther, than one of the sum, in both directions |
| DbcSplit.LessIsQuoted | src/quote/dbc.rs:229-288 | whatever quotes more input quotes less, for no more |
| DbcSplit.SplitSwapNeverPaysMore | src/quote/dbc.rs:193-224 | the same net of fees, with the fee on either side |
| DbcRoundTrip.SellingBackNeverGains | src/quote/dbc.rs:229-288 | selling back any part of what a buy delivered is accepted, ends at or above the price before the buy, and returns at most what it paid |
| DbcRoundTrip.RoundTripNeverGains | src/quote/dbc.rs:193-224 | with fees: it is refused only where the fee eats the whole proceeds, and otherwise gains nothing |
| LaunchLab.MostTheProductAllows | src/quote/launchlab.rs:74-76 | the output is the most that keeps the product of reserves from falling |
| LaunchLab.BuyIsExact | src/quote/launchlab.rs:63-81 | a buy is quoted `q` if and only if the curve is live, the fee is the least whole one at the three rates together, and the rest buys the most base that keeps the product of virtual and real reserves, within the raise cap and the base for sale |
| LaunchLab.SellIsExact | src/quote/launchlab.rs:84-97 | a sell likewise: at most the base sold, for the most quote that keeps the product and the real quote holds, less the fee |
| LaunchLab.SellRefusedOnlyForNothing | src/quote/launchlab.rs:84-97 | on a reachable curve the guard on the real quote never fires: a sell is refused exactly when it earns nothing or its fee exceeds it or does not exist |
| LaunchLab.RunsInOrder | src/quote/launchlab.rs:63-97 | a run is its orders one after the other, and a quoted order moves exactly what entered and left |
| LaunchLab.EveryRunIsBacked | src/quote/launchlab.rs:63-97 | from a fresh curve, over any run: the product never falls, the real reserves stay within their caps, and all the base sold can be bought back |
| LaunchLab.RoundTripNeverGains | src/quote/launchlab.rs:63-97 | selling back what a buy delivered grosses at most what entered the curve |
| LaunchLab.SplitBuyNeverPaysMore | src/quote/launchlab.rs:63-81 | two consecutive buys never deliver more than one of the sum, fees included |
| ConstantProduct.ProductAdjoint | src/quote/math.rs:207-251 | an input reaches the requested output exactly when it is at least the inverse's answer |
| ConstantProduct.ProductInverseDelivers | src/quote/math.rs:14-48 | the inverse's answer, quoted forward, delivers at least the target unless a product, sum or the result overflows |
| ConstantProduct.ProductOutIsMost | src/quote/math.rs:14-48 | the forward quote is a value if and only if that is the most the input buys at 10 000 − fee basis points and no 128-bit product or sum overflows |
| ConstantProduct.ProductInIsLeast | src/quote/math.rs:207-251 | the inverse is a value if and only if that is the least input that buys the output, with its refusals |
| ConstantProduct.CurveAdjoint | src/quote/math.rs:326-382 | the same equivalence through both roundings of the bonding-curve pair |
| ConstantProduct.CurveInverseDelivers | src/quote/math.rs:269-323 | the bonding-curve inverse delivers at least the target unless the forward quote overflows |
| ConstantProduct.CurveOutIsMost | src/quote/math.rs:269-323 | the same for the bonding curve, whose fee rounds the input down first |
| ConstantProduct.CurveInIsLeast | src/quote/math.rs:326-382 | and its inverse, the least input whose net is the least that buys the output |
| TickBitmap.PlanExists | src/pool/ticks.rs:78-91 | there is a plan exactly when the current array is in the bitmap and some array is initialised |
| TickBitmap.PlanIsExact | src/pool/ticks.rs:78-99 | the plan lists, ascending and once, exactly the initialised arrays inside the range it claims to know, and the range holds the current tick |
| TickBitmap.PlanTakesThree | src/pool/ticks.rs:78-99 | at most three of the arrays lie at or below the current one and at most three at or above it, and exactly three where the known range ends short of the bitmap's edge |

## Left out

- The tick-to-price constants and `orca_tick_at_sqrt_price` (`src/quote/clmm.rs:143-200`, `src/quote/clmm.rs:496-514`): closed numeric facts; a monotone table with an inverse is a parameter.
- A pool has one price table: an Orca adaptive fee on a pool of another layout, which would mix two tables, is not modelled.
- The theorems about fee periods, monotonicity and areas take an Orca adaptive pool whose reference group holds a tick of the table, and a moving-fee pool whose tick is one and agrees with its price, as the programs keep them; the swap itself is modelled for every pool.
- Splitting is proved for constant fees, and on the CLMM walk without resting orders: how volatility and orders change between two swaps is not in these quotes. Swapping back is proved for any fees, without orders.
- Unchecked additions the source leaves to Rust (`u64` sums of one bin's layers, `u128` sums in `fill_fusion_orders`, `i32` products of indices) are exact here rather than wrapping or panicking.
- `std` sorting, binary search and partition points are functions with the meaning of the library's, not their algorithms.
- DAMM v2's compounding pools are proved exact per swap, not over runs: how their tracked reserves move is not in this repository.
- FeeSchedules.BinPriceIsNear: bounds the price of a bin above 0 through the inverse it is computed from, not by a distance from the exact power, which for large steps grows with the price.
- Byreal's oracle-driven dynamic fee and pool flags: they depend on external data.
- `parse` functions, account layouts, RPC, caching, routing, instruction building, price-impact strings and the single-tick approximations of `src/quote/math.rs`: no quote arithmetic, or no exact meaning to prove.

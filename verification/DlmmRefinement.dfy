/** The bitmap-guided bin walk refines the naive one, and visits only the arrays it announces. */
module DlmmRefinement {
  import opened Numbers
  import opened DlmmBins
  import opened Bitmaps
  import opened DlmmBitmap
  import opened DlmmWalk

  // ── refinement ──────────────────────────────────────────────────────────

  /** Loaded arrays hold the bins that are on chain. */
  ghost predicate Agrees(data: Data, chain: int -> Bin)
    requires ValidData(data)
  {
    forall i, k | i in data.arrays && 0 <= k < BINS_PER_ARRAY :: data.arrays[i][k] == chain(Lower(i) + k)
  }

  /** The bitmap is ascending, unmarked arrays hold nothing to trade, and marked ones reach into the legal bin range. */
  ghost predicate HonestBitmap(env: Env, data: Data, chain: int -> Bin) {
    && Ordered(data.liquid, true)
    && (forall id | LegalBin(id) && ArrayIndex(id) !in data.liquid :: !HasLiquidity(env, chain(id)))
    && (forall i | i in data.liquid :: MIN_BIN_ID < Lower(i) + BINS_PER_ARRAY && Lower(i) <= MAX_BIN_ID)
  }

  /** Walking one array is the naive walk until it leaves the array. */
  lemma {:induction false} ArrayIsNaive(env: Env, index: int, bins: seq<Bin>, chain: int -> Bin, id: int, t: Totals)
    requires |bins| == BINS_PER_ARRAY && (forall k | 0 <= k < BINS_PER_ARRAY :: bins[k] == chain(Lower(index) + k))
    requires LegalBin(id)
    ensures match WalkArray(env, index, bins, id, t)
      case Err(e) => NaiveWalk(env, chain, id, t) == Err(e)
      case Ok(stop) => LegalBin(stop.id) && NaiveWalk(env, chain, id, t) == NaiveWalk(env, chain, stop.id, stop.totals)
    decreases if env.swapForY then Max(id - Lower(index) + 1, 0) else Max(Lower(index) + BINS_PER_ARRAY - id, 0)
  {
    hide VisitBin;
    if t.left != 0 && InArray(index, id) {
      assert bins[id - Lower(index)] == chain(id);
      var t' := VisitBin(env, id, chain(id), t);
      if t'.Ok? && t'.value.left != 0 && LegalBin(NextBin(env, id)) {
        ArrayIsNaive(env, index, bins, chain, NextBin(env, id), t'.value);
      }
    }
  }

  /** An array left with input remaining is left at its far edge. */
  lemma {:induction false} LeavesAtEdge(env: Env, index: int, bins: seq<Bin>, id: int, t: Totals)
    requires |bins| == BINS_PER_ARRAY && InArray(index, id)
    requires WalkArray(env, index, bins, id, t).Ok? && WalkArray(env, index, bins, id, t).value.totals.left != 0
    ensures ArrayIndex(WalkArray(env, index, bins, id, t).value.id) == if env.swapForY then index - 1 else index + 1
    decreases if env.swapForY then Max(id - Lower(index) + 1, 0) else Max(Lower(index) + BINS_PER_ARRAY - id, 0)
  {
    hide VisitBin;
    var t' := VisitBin(env, id, bins[id - Lower(index)], t).value;
    if InArray(index, NextBin(env, id)) {
      LeavesAtEdge(env, index, bins, NextBin(env, id), t');
    }
  }

  /** Jumping an unmarked gap is walking it bin by bin: nothing trades and no rate is read. */
  lemma {:induction false} GapIsNaive(env: Env, data: Data, chain: int -> Bin, index: int, id: int, t: Totals)
    requires HonestBitmap(env, data, chain) && LegalBin(id) && t.left != 0 && index in data.liquid
    requires if env.swapForY then index <= ArrayIndex(id) else ArrayIndex(id) <= index
    requires forall x | x in data.liquid ::
               if env.swapForY then x <= index || ArrayIndex(id) < x else x < ArrayIndex(id) || index <= x
    ensures LegalBin(EntryBin(env, index, id))
    ensures NaiveWalk(env, chain, id, t) == NaiveWalk(env, chain, EntryBin(env, index, id), t)
    decreases if env.swapForY then Max(id - Lower(index), 0) else Max(Lower(index) - id, 0)
  {
    hide HasLiquidity;
    if ArrayIndex(id) != index {
      assert ArrayIndex(id) !in data.liquid;
      SkipEmpty(env, chain, id, t);
      var next := NextBin(env, id);
      if next != EntryBin(env, index, id) {
        GapIsNaive(env, data, chain, index, next, t);
      }
    }
  }

  lemma SkipEmpty(env: Env, chain: int -> Bin, id: int, t: Totals)
    requires t.left != 0 && !HasLiquidity(env, chain(id)) && LegalBin(NextBin(env, id))
    ensures NaiveWalk(env, chain, id, t) == NaiveWalk(env, chain, NextBin(env, id), t)
  {
  }

  /** Every walk the guided form completes is the naive walk: same bin, same input left, same output and fee. */
  lemma {:induction false} GuidedRefinesNaive(env: Env, data: Data, chain: int -> Bin, w: Walk, maxArrays: nat)
    requires ValidData(data) && Agrees(data, chain) && HonestBitmap(env, data, chain) && LegalBin(w.id)
    requires GuidedWalk(env, data, w, maxArrays).Ok?
    ensures var r := GuidedWalk(env, data, w, maxArrays).value;
      NaiveWalk(env, chain, w.id, w.totals) == Ok(Stop(r.id, r.totals))
    decreases maxArrays - |w.visited|
  {
    hide WalkArray, HonestBitmap, Agrees;
    if w.totals.left != 0 {
      var index := NextArray(env, data, w.id, |w.visited|, maxArrays).value;
      var entry := EntryBin(env, index, w.id);
      EntersByNaive(env, data, chain, index, w.id, w.totals, |w.visited|, maxArrays);
      var stop := WalkArray(env, index, data.arrays[index], entry, w.totals).value;
      GuidedRefinesNaive(env, data, chain, Walk(stop.id, stop.totals,
          if w.startBin.Some? then w.startBin else Some(entry), w.visited + [index]), maxArrays);
    }
  }

  lemma EntersByNaive(env: Env, data: Data, chain: int -> Bin, index: int, id: int, t: Totals, visited: nat, maxArrays: nat)
    requires ValidData(data) && Agrees(data, chain) && HonestBitmap(env, data, chain) && LegalBin(id) && t.left != 0
    requires NextArray(env, data, id, visited, maxArrays) == Ok(index)
    requires WalkArray(env, index, data.arrays[index], EntryBin(env, index, id), t).Ok?
    ensures var stop := WalkArray(env, index, data.arrays[index], EntryBin(env, index, id), t).value;
      LegalBin(stop.id) && NaiveWalk(env, chain, id, t) == NaiveWalk(env, chain, stop.id, stop.totals)
  {
    hide NaiveWalk, WalkArray, HasLiquidity;
    NextLiquidExact(data.liquid, ArrayIndex(id), env.swapForY);
    GapIsNaive(env, data, chain, index, id, t);
    ArrayIsNaive(env, index, data.arrays[index], chain, EntryBin(env, index, id), t);
  }

  /** The quote is the naive walk's: output, fee and end bin. */
  lemma SwapIsNaive(data: Data, chain: int -> Bin, swapForY: bool, amount: u64, now: int, slot: u64, maxArrays: nat)
    requires ValidData(data) && Agrees(data, chain) && HonestBitmap(EnvOf(data, swapForY, now), data, chain)
      && LegalBin(data.pair.activeId)
    requires SwapExactIn(data, swapForY, amount, now, slot, maxArrays).Ok?
    ensures var q := SwapExactIn(data, swapForY, amount, now, slot, maxArrays).value;
      NaiveWalk(EnvOf(data, swapForY, now), chain, data.pair.activeId, Totals(amount, 0, 0))
          == Ok(Stop(q.endBin, Totals(0, q.amountOut, q.fee)))
  {
    hide NaiveWalk, HonestBitmap, Agrees;
    var env, w := EnvOf(data, swapForY, now), StartOf(data, amount);
    GuidedRefinesNaive(env, data, chain, w, maxArrays);
    SpendsAll(env, data, w, maxArrays);
  }

  lemma {:induction false} SpendsAll(env: Env, data: Data, w: Walk, maxArrays: nat)
    requires ValidData(data) && GuidedWalk(env, data, w, maxArrays).Ok?
    ensures GuidedWalk(env, data, w, maxArrays).value.totals.left == 0
    decreases maxArrays - |w.visited|
  {
    hide WalkArray, NextArray;
    if w.totals.left != 0 {
      var index := NextArray(env, data, w.id, |w.visited|, maxArrays).value;
      NextArrayFits(env, data, w.id, |w.visited|, maxArrays);
      var entry := EntryBin(env, index, w.id);
      var stop := WalkArray(env, index, data.arrays[index], entry, w.totals).value;
      SpendsAll(env, data, Walk(stop.id, stop.totals, if w.startBin.Some? then w.startBin else Some(entry),
          w.visited + [index]), maxArrays);
    }
  }

  // ── what is visited ─────────────────────────────────────────────────────

  lemma {:induction false} TakePrefix(liquid: seq<int>, from: int, hasExtension: bool, swapForY: bool, take: nat, more: nat)
    requires take <= more
    ensures ArraysFrom(liquid, from, hasExtension, swapForY, take) <= ArraysFrom(liquid, from, hasExtension, swapForY, more)
    decreases take
  {
    hide NextLiquid;
    var next := NextLiquid(liquid, from, swapForY);
    if take != 0 && next.Some? {
      TakePrefix(liquid, if swapForY then next.value - 1 else next.value + 1, hasExtension, swapForY, take - 1, more - 1);
    }
  }

  /** The arrays still to come, in order. */
  function Ahead(env: Env, data: Data, w: Walk, maxArrays: nat): seq<int> {
    if |w.visited| > maxArrays then []
    else ArraysFrom(data.liquid, ArrayIndex(w.id), data.hasExtension, env.swapForY, maxArrays - |w.visited|)
  }

  lemma {:induction false} WalkingNeedsNoOther(env: Env, index: int, bins: seq<Bin>, id: int, t: Totals)
    requires |bins| == BINS_PER_ARRAY
    ensures WalkArray(env, index, bins, id, t) != Err(NotLoaded)
    decreases if env.swapForY then Max(id - Lower(index) + 1, 0) else Max(Lower(index) + BINS_PER_ARRAY - id, 0)
  {
    hide RateAt, BinPrice, SwapInBin, HasLiquidity;
    if t.left != 0 && InArray(index, id) {
      var t' := VisitBin(env, id, bins[id - Lower(index)], t);
      if t'.Ok? && t'.value.left != 0 && LegalBin(NextBin(env, id)) {
        WalkingNeedsNoOther(env, index, bins, NextBin(env, id), t'.value);
      }
    }
  }

  /** The walk visits the arrays of `arrays_for_swap` in order, and a missing one is among them. */
  lemma {:induction false} VisitsInOrder(env: Env, data: Data, w: Walk, maxArrays: nat)
    requires ValidData(data)
    ensures match GuidedWalk(env, data, w, maxArrays)
      case Ok(r) => w.visited <= r.visited <= w.visited + Ahead(env, data, w, maxArrays)
      case Err(e) => e == NotLoaded ==> exists i :: i in Ahead(env, data, w, maxArrays) && i !in data.arrays
    decreases maxArrays - |w.visited|
  {
    hide NextLiquid, VisitBin, WalkArray;
    var next := NextArray(env, data, w.id, |w.visited|, maxArrays);
    if w.totals.left != 0 && next == Err(NotLoaded) {
      var i := NextLiquid(data.liquid, ArrayIndex(w.id), env.swapForY).value;
      assert Ahead(env, data, w, maxArrays)[0] == i;
    } else if w.totals.left != 0 && next.Ok? {
      var index := next.value;
      var entry := EntryBin(env, index, w.id);
      var stop := WalkArray(env, index, data.arrays[index], entry, w.totals);
      WalkingNeedsNoOther(env, index, data.arrays[index], entry, w.totals);
      if stop.Ok? {
        var w' := Walk(stop.value.id, stop.value.totals, if w.startBin.Some? then w.startBin else Some(entry),
            w.visited + [index]);
        VisitsInOrder(env, data, w', maxArrays);
        if stop.value.totals.left != 0 {
          EntryInArray(env, data, w.id, |w.visited|, maxArrays);
          LeavesAtEdge(env, index, data.arrays[index], entry, w.totals);
          assert Ahead(env, data, w, maxArrays) == [index] + Ahead(env, data, w', maxArrays);
          assert w.visited + [index] + Ahead(env, data, w', maxArrays) == w.visited + Ahead(env, data, w, maxArrays);
        } else {
          assert Ahead(env, data, w, maxArrays)[0] == index;
        }
      }
    }
  }

  lemma EntryInArray(env: Env, data: Data, id: int, visited: nat, maxArrays: nat)
    requires NextArray(env, data, id, visited, maxArrays).Ok?
    ensures var index := NextArray(env, data, id, visited, maxArrays).value; InArray(index, EntryBin(env, index, id))
  {
  }

  /** Every array a swap can walk in either direction is loaded. */
  predicate CoversBothDirections(data: Data) {
    var at := ArrayIndex(data.pair.activeId);
    forall swapForY, i | i in ArraysFrom(data.liquid, at, data.hasExtension, swapForY, SWAP_ARRAYS) :: i in data.arrays
  }

  /** A covering snapshot never sends a swap to an array it lacks. */
  lemma CoveredNeverNotLoaded(data: Data, swapForY: bool, amount: u64, now: int, slot: u64)
    requires ValidData(data) && CoversBothDirections(data)
    ensures SwapExactIn(data, swapForY, amount, now, slot, SWAP_ARRAYS) != Err(NotLoaded)
  {
    hide ArraysFrom, GuidedWalk;
    VisitsInOrder(EnvOf(data, swapForY, now), data, StartOf(data, amount), SWAP_ARRAYS);
  }
}

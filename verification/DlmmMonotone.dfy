/** More input never buys less from a DLMM pair. */
module DlmmMonotone {
  import opened Numbers
  import opened DlmmBins
  import opened DlmmBitmap
  import opened DlmmWalk

  /** Two walks side by side: same trades so far, the first with no more input left. */
  predicate Beside(t: Totals, t': Totals) {
    t.left <= t'.left && t.out == t'.out
  }

  /** The first walk is over and has paid out no more. */
  predicate DoneFirst(t: Totals, t': Totals) {
    t.left == 0 && t.out <= t'.out
  }

  lemma VisitBeside(env: Env, id: int, bin: Bin, t: Totals, t': Totals)
    requires Beside(t, t') && VisitBin(env, id, bin, t).Ok? && VisitBin(env, id, bin, t').Ok?
    ensures var u, u' := VisitBin(env, id, bin, t).value, VisitBin(env, id, bin, t').value; Beside(u, u') || DoneFirst(u, u')
  {
    hide SwapInBin, RateAt, BinPrice;
    if HasLiquidity(env, bin) {
      var layers, rate, price := LayersOf(bin, env.swapForY, env.limitOrders), RateAt(env.pair, id).value,
          BinPrice(env, id, bin).value;
      SwapIsMonotone(layers, price, rate, t.left, t'.left, env.swapForY, env.feeOnInput);
    }
  }

  lemma VisitGrows(env: Env, id: int, bin: Bin, t: Totals)
    requires VisitBin(env, id, bin, t).Ok?
    ensures t.out <= VisitBin(env, id, bin, t).value.out
  {
    hide SwapInBin, RateAt, BinPrice;
  }

  lemma {:induction false} ArrayGrows(env: Env, index: int, bins: seq<Bin>, id: int, t: Totals)
    requires |bins| == BINS_PER_ARRAY && WalkArray(env, index, bins, id, t).Ok?
    ensures t.out <= WalkArray(env, index, bins, id, t).value.totals.out
    decreases if env.swapForY then Max(id - Lower(index) + 1, 0) else Max(Lower(index) + BINS_PER_ARRAY - id, 0)
  {
    hide VisitBin;
    if t.left != 0 && InArray(index, id) {
      VisitGrows(env, id, bins[id - Lower(index)], t);
      var u := VisitBin(env, id, bins[id - Lower(index)], t).value;
      if u.left != 0 {
        ArrayGrows(env, index, bins, NextBin(env, id), u);
      }
    }
  }

  lemma {:induction false} WalkGrows(env: Env, data: Data, w: Walk, maxArrays: nat)
    requires ValidData(data) && GuidedWalk(env, data, w, maxArrays).Ok?
    ensures w.totals.out <= GuidedWalk(env, data, w, maxArrays).value.totals.out
    decreases maxArrays - |w.visited|
  {
    hide WalkArray, NextArray;
    if w.totals.left != 0 {
      var index := NextArray(env, data, w.id, |w.visited|, maxArrays).value;
      NextArrayFits(env, data, w.id, |w.visited|, maxArrays);
      ArrayGrows(env, index, data.arrays[index], EntryBin(env, index, w.id), w.totals);
      WalkGrows(env, data, After(env, data, w, index), maxArrays);
    }
  }

  /** The walk once array `index` is behind it. */
  function After(env: Env, data: Data, w: Walk, index: int): Walk
    requires ValidData(data) && index in data.arrays
    requires WalkArray(env, index, data.arrays[index], EntryBin(env, index, w.id), w.totals).Ok?
  {
    var entry := EntryBin(env, index, w.id);
    var stop := WalkArray(env, index, data.arrays[index], entry, w.totals).value;
    Walk(stop.id, stop.totals, if w.startBin.Some? then w.startBin else Some(entry), w.visited + [index])
  }

  lemma {:induction false} ArrayBeside(env: Env, index: int, bins: seq<Bin>, id: int, t: Totals, t': Totals)
    requires |bins| == BINS_PER_ARRAY && Beside(t, t')
    requires WalkArray(env, index, bins, id, t).Ok? && WalkArray(env, index, bins, id, t').Ok?
    ensures var s, s' := WalkArray(env, index, bins, id, t).value, WalkArray(env, index, bins, id, t').value;
      (s.id == s'.id && Beside(s.totals, s'.totals)) || DoneFirst(s.totals, s'.totals)
    decreases if env.swapForY then Max(id - Lower(index) + 1, 0) else Max(Lower(index) + BINS_PER_ARRAY - id, 0)
  {
    hide VisitBin;
    ArrayGrows(env, index, bins, id, t');
    if t.left != 0 && InArray(index, id) {
      var bin := bins[id - Lower(index)];
      VisitBeside(env, id, bin, t, t');
      var u, u' := VisitBin(env, id, bin, t).value, VisitBin(env, id, bin, t').value;
      if u'.left != 0 {
        ArrayGrows(env, index, bins, NextBin(env, id), u');
        if u.left != 0 {
          ArrayBeside(env, index, bins, NextBin(env, id), u, u');
        }
      }
    }
  }

  lemma {:induction false} WalkBeside(env: Env, data: Data, w: Walk, w': Walk, maxArrays: nat)
    requires ValidData(data) && w'.id == w.id && w'.visited == w.visited && Beside(w.totals, w'.totals)
    requires GuidedWalk(env, data, w, maxArrays).Ok? && GuidedWalk(env, data, w', maxArrays).Ok?
    ensures GuidedWalk(env, data, w, maxArrays).value.totals.out <= GuidedWalk(env, data, w', maxArrays).value.totals.out
    decreases maxArrays - |w.visited|
  {
    hide WalkArray, NextArray;
    if w.totals.left == 0 {
      WalkGrows(env, data, w', maxArrays);
    } else {
      var index := NextArray(env, data, w.id, |w.visited|, maxArrays).value;
      NextArrayFits(env, data, w.id, |w.visited|, maxArrays);
      ArrayBeside(env, index, data.arrays[index], EntryBin(env, index, w.id), w.totals, w'.totals);
      var v, v' := After(env, data, w, index), After(env, data, w', index);
      if DoneFirst(v.totals, v'.totals) {
        WalkGrows(env, data, v', maxArrays);
      } else {
        WalkBeside(env, data, v, v', maxArrays);
      }
    }
  }

  /** Between two inputs that are both quoted, the larger never yields less: every layer, both fee sides, any walk. */
  lemma MoreInputNeverPaysLess(data: Data, swapForY: bool, a: u64, a': u64, now: int, slot: u64, maxArrays: nat)
    requires ValidData(data) && a <= a'
    requires SwapExactIn(data, swapForY, a, now, slot, maxArrays).Ok?
      && SwapExactIn(data, swapForY, a', now, slot, maxArrays).Ok?
    ensures SwapExactIn(data, swapForY, a, now, slot, maxArrays).value.amountOut
      <= SwapExactIn(data, swapForY, a', now, slot, maxArrays).value.amountOut
  {
    hide GuidedWalk;
    WalkBeside(EnvOf(data, swapForY, now), data, StartOf(data, a), StartOf(data, a'), maxArrays);
  }
}

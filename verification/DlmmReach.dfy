/** Which snapshots a DLMM walk gets through: the guided walk arrives exactly when the naive one does, in an array that the
    snapshot reaches. */
module DlmmReach {
  import opened Numbers
  import opened Bitmaps
  import opened DlmmBins
  import opened DlmmBitmap
  import opened DlmmWalk
  import opened DlmmConservation
  import opened DlmmRefinement

  /** The first `n` arrays to walk are loaded, and the last of them holds bin `end`. */
  ghost predicate Reaches(data: Data, arrays: seq<int>, n: nat, end: int) {
    0 < n <= |arrays| && arrays[n - 1] == end / 70 && forall k | 0 <= k < n :: arrays[k] in data.arrays
  }

  /** The way from array `from`: at each turn the nearest liquid array at or beyond it, then on from behind that one, as long
      as some are left to take and to find, and never from outside the pair's own bitmap without an extension. */
  ghost predicate Route(liquid: seq<int>, from: int, hasExtension: bool, swapForY: bool, take: nat, s: seq<int>)
    decreases take
  {
    if take == 0 || (!hasExtension && !(-512 <= from < 512))
      || (forall x | x in liquid :: if swapForY then from < x else x < from)
    then s == []
    else
      && s != [] && s[0] in liquid && (if swapForY then s[0] <= from else from <= s[0])
      && (forall x | x in liquid :: if swapForY then x <= s[0] || from < x else x < from || s[0] <= x)
      && Route(liquid, if swapForY then s[0] - 1 else s[0] + 1, hasExtension, swapForY, take - 1, s[1..])
  }

  lemma {:induction false} ArraysAreRoute(liquid: seq<int>, from: int, hasExtension: bool, swapForY: bool, take: nat)
    requires Ordered(liquid, true)
    ensures Route(liquid, from, hasExtension, swapForY, take, ArraysFrom(liquid, from, hasExtension, swapForY, take))
    decreases take
  {
    hide NextLiquid, Ordered;
    NextLiquidExact(liquid, from, swapForY);
    if take != 0 && (hasExtension || -512 <= from < 512) && NextLiquid(liquid, from, swapForY).Some? {
      var next := NextLiquid(liquid, from, swapForY).value;
      var on := if swapForY then next - 1 else next + 1;
      var rest := ArraysFrom(liquid, on, hasExtension, swapForY, take - 1);
      ArraysAreRoute(liquid, on, hasExtension, swapForY, take - 1);
      assert ([next] + rest)[1..] == rest;
    }
  }

  lemma {:induction false} OneRoute(liquid: seq<int>, from: int, hasExtension: bool, swapForY: bool, take: nat, s: seq<int>,
      r: seq<int>)
    requires Route(liquid, from, hasExtension, swapForY, take, s) && Route(liquid, from, hasExtension, swapForY, take, r)
    ensures s == r
    decreases take
  {
    if s != [] && r != [] {
      OneRoute(liquid, if swapForY then s[0] - 1 else s[0] + 1, hasExtension, swapForY, take - 1, s[1..], r[1..]);
      assert s == [s[0]] + s[1..] && r == [r[0]] + r[1..];
    }
  }

  /** There is one such way, the one `arrays_for_swap` announces. */
  lemma RouteIff(liquid: seq<int>, from: int, hasExtension: bool, swapForY: bool, take: nat, s: seq<int>)
    requires Ordered(liquid, true)
    ensures Route(liquid, from, hasExtension, swapForY, take, s) <==> s == ArraysFrom(liquid, from, hasExtension, swapForY, take)
  {
    hide Route, ArraysFrom;
    var arrays := ArraysFrom(liquid, from, hasExtension, swapForY, take);
    ArraysAreRoute(liquid, from, hasExtension, swapForY, take);
    if Route(liquid, from, hasExtension, swapForY, take, s) {
      OneRoute(liquid, from, hasExtension, swapForY, take, s, arrays);
    }
  }

  // ── arrays in order ─────────────────────────────────────────────────────

  /** The arrays to walk lie ever farther in the swap's direction. */
  lemma {:induction false} FartherOn(liquid: seq<int>, from: int, hasExtension: bool, swapForY: bool, take: nat, j: nat)
    requires Ordered(liquid, true) && j < |ArraysFrom(liquid, from, hasExtension, swapForY, take)|
    ensures var s := ArraysFrom(liquid, from, hasExtension, swapForY, take);
      && (if swapForY then s[j] <= from else from <= s[j])
      && (0 < j ==> if swapForY then s[j] < s[0] else s[0] < s[j])
    decreases take
  {
    hide NextLiquid;
    NextLiquidExact(liquid, from, swapForY);
    if j > 0 {
      var next := NextLiquid(liquid, from, swapForY).value;
      FartherOn(liquid, if swapForY then next - 1 else next + 1, hasExtension, swapForY, take - 1, j - 1);
    }
  }

  /** No array is walked twice. */
  lemma {:induction false} ArraysDiffer(liquid: seq<int>, from: int, hasExtension: bool, swapForY: bool, take: nat,
      i: nat, j: nat)
    requires Ordered(liquid, true) && i < j < |ArraysFrom(liquid, from, hasExtension, swapForY, take)|
    ensures var s := ArraysFrom(liquid, from, hasExtension, swapForY, take); s[i] != s[j]
    decreases take
  {
    hide NextLiquid;
    if i == 0 {
      FartherOn(liquid, from, hasExtension, swapForY, take, j);
    } else {
      var next := NextLiquid(liquid, from, swapForY).value;
      ArraysDiffer(liquid, if swapForY then next - 1 else next + 1, hasExtension, swapForY, take - 1, i - 1, j - 1);
    }
  }

  // ── a walk that arrives ─────────────────────────────────────────────────

  lemma {:induction false} EndsInside(env: Env, index: int, bins: seq<Bin>, id: int, t: Totals)
    requires |bins| == BINS_PER_ARRAY && InArray(index, id) && t.left != 0
    requires WalkArray(env, index, bins, id, t).Ok? && WalkArray(env, index, bins, id, t).value.totals.left == 0
    ensures InArray(index, WalkArray(env, index, bins, id, t).value.id)
    decreases if env.swapForY then Max(id - Lower(index) + 1, 0) else Max(Lower(index) + BINS_PER_ARRAY - id, 0)
  {
    hide VisitBin;
    var t' := VisitBin(env, id, bins[id - Lower(index)], t).value;
    if t'.left != 0 && InArray(index, NextBin(env, id)) {
      EndsInside(env, index, bins, NextBin(env, id), t');
    }
  }

  function Onward(w: Walk, entry: int, index: int, stop: Stop): Walk {
    Walk(stop.id, stop.totals, if w.startBin.Some? then w.startBin else Some(entry), w.visited + [index])
  }

  /** A completed walk ends in the last array it visited, and started where it entered the first. */
  lemma {:induction false} EndsInLast(env: Env, data: Data, w: Walk, maxArrays: nat)
    requires ValidData(data) && w.totals.left != 0 && GuidedWalk(env, data, w, maxArrays).Ok?
    ensures var r := GuidedWalk(env, data, w, maxArrays).value;
      && w.visited < r.visited && r.visited[|r.visited| - 1] == ArrayIndex(r.id)
      && (forall k | |w.visited| <= k < |r.visited| :: r.visited[k] in data.arrays)
      && r.startBin == (if w.startBin.Some? then w.startBin else Some(EntryBin(env, r.visited[|w.visited|], w.id)))
    decreases maxArrays - |w.visited|
  {
    hide WalkArray, NextArray;
    var index := NextArray(env, data, w.id, |w.visited|, maxArrays).value;
    NextArrayFits(env, data, w.id, |w.visited|, maxArrays);
    EntryInArray(env, data, w.id, |w.visited|, maxArrays);
    var entry := EntryBin(env, index, w.id);
    var stop := WalkArray(env, index, data.arrays[index], entry, w.totals).value;
    if stop.totals.left != 0 {
      EndsInLast(env, data, Onward(w, entry, index, stop), maxArrays);
    } else {
      EndsInside(env, index, data.arrays[index], entry, w.totals);
    }
  }

  /** The naive walk never turns back. */
  lemma {:induction false} GoesOn(env: Env, chain: int -> Bin, id: int, t: Totals)
    requires NaiveWalk(env, chain, id, t).Ok?
    ensures 0 <= Distance(env, id, NaiveWalk(env, chain, id, t).value.id)
    decreases if env.swapForY then Max(id - MIN_BIN_ID, 0) else Max(MAX_BIN_ID - id, 0)
  {
    hide VisitBin;
    if t.left != 0 && VisitBin(env, id, chain(id), t).value.left != 0 {
      GoesOn(env, chain, NextBin(env, id), VisitBin(env, id, chain(id), t).value);
    }
  }

  lemma FirstAhead(env: Env, data: Data, w: Walk, maxArrays: nat)
    requires Ahead(env, data, w, maxArrays) != [] && Ahead(env, data, w, maxArrays)[0] in data.arrays
    ensures NextArray(env, data, w.id, |w.visited|, maxArrays) == Ok(Ahead(env, data, w, maxArrays)[0])
  {
    hide NextLiquid;
  }

  /** The first array, entered where the naive walk comes to it, lets the naive walk through. */
  lemma FirstArray(env: Env, data: Data, chain: int -> Bin, index: int, id: int, t: Totals, visited: nat, maxArrays: nat)
    requires ValidData(data) && Agrees(data, chain) && HonestBitmap(env, data, chain) && LegalBin(id) && t.left != 0
    requires NextArray(env, data, id, visited, maxArrays) == Ok(index) && NaiveWalk(env, chain, id, t).Ok?
    ensures WalkArray(env, index, data.arrays[index], EntryBin(env, index, id), t).Ok?
  {
    hide NaiveWalk, WalkArray, HasLiquidity;
    NextLiquidExact(data.liquid, ArrayIndex(id), env.swapForY);
    GapIsNaive(env, data, chain, index, id, t);
    ArrayIsNaive(env, index, data.arrays[index], chain, EntryBin(env, index, id), t);
  }

  /** Where the naive walk arrives in an array the snapshot reaches, so does the guided one. */
  lemma {:induction false} GuidedArrives(env: Env, data: Data, chain: int -> Bin, w: Walk, maxArrays: nat, n: nat)
    requires ValidData(data) && Agrees(data, chain) && HonestBitmap(env, data, chain) && LegalBin(w.id)
    requires NaiveWalk(env, chain, w.id, w.totals).Ok?
    requires w.totals.left != 0 ==> Reaches(data, Ahead(env, data, w, maxArrays), n,
      NaiveWalk(env, chain, w.id, w.totals).value.id)
    ensures GuidedWalk(env, data, w, maxArrays).Ok?
    decreases n
  {
    hide WalkArray, NaiveWalk, NextArray, HonestBitmap, Agrees, NextLiquid;
    if w.totals.left != 0 {
      var ahead := Ahead(env, data, w, maxArrays);
      var index := ahead[0];
      FirstAhead(env, data, w, maxArrays);
      FirstArray(env, data, chain, index, w.id, w.totals, |w.visited|, maxArrays);
      EntersByNaive(env, data, chain, index, w.id, w.totals, |w.visited|, maxArrays);
      NextArrayFits(env, data, w.id, |w.visited|, maxArrays);
      EntryInArray(env, data, w.id, |w.visited|, maxArrays);
      var entry := EntryBin(env, index, w.id);
      var stop := WalkArray(env, index, data.arrays[index], entry, w.totals).value;
      var next := Onward(w, entry, index, stop);
      if stop.totals.left != 0 {
        LeavesAtEdge(env, index, data.arrays[index], entry, w.totals);
        AheadMoves(env, data, w, maxArrays, next, index);
        GoesOn(env, chain, stop.id, stop.totals);
        var end := NaiveWalk(env, chain, w.id, w.totals).value.id;
        BeyondArray(env, stop.id, end);
        RestReached(data, ahead, n, end, index, Ahead(env, data, next, maxArrays));
        GuidedArrives(env, data, chain, next, maxArrays, n - 1);
      } else {
        GuidedArrives(env, data, chain, next, maxArrays, 0);
      }
    }
  }

  lemma RestReached(data: Data, arrays: seq<int>, n: nat, end: int, index: int, rest: seq<int>)
    requires Reaches(data, arrays, n, end) && arrays == [index] + rest && ArrayIndex(end) != index
    ensures 1 < n && Reaches(data, rest, n - 1, end)
  {
    assert forall k | 0 <= k < n - 1 :: rest[k] == arrays[k + 1];
  }

  lemma BeyondArray(env: Env, id: int, end: int)
    requires 0 <= Distance(env, id, end)
    ensures if env.swapForY then ArrayIndex(end) <= ArrayIndex(id) else ArrayIndex(id) <= ArrayIndex(end)
  {
  }

  lemma AheadMoves(env: Env, data: Data, w: Walk, maxArrays: nat, next: Walk, index: int)
    requires Ahead(env, data, w, maxArrays) != [] && Ahead(env, data, w, maxArrays)[0] == index
    requires next.visited == w.visited + [index] && ArrayIndex(next.id) == if env.swapForY then index - 1 else index + 1
    ensures Ahead(env, data, w, maxArrays) == [index] + Ahead(env, data, next, maxArrays)
  {
    hide NextLiquid;
  }
}

/** Which bin arrays hold liquidity, and the order a swap visits them (`src/quote/dlmm.rs`). */
module DlmmBitmap {
  import opened Numbers
  import opened Bitmaps

  const BITMAP_SIZE: int := 512
  const EXT_WORDS: nat := 12
  const BINS_PER_ARRAY: int := 70

  // ── the pushes ──────────────────────────────────────────────────────────

  /** The array indices of one word's set bits, lowest bit first. */
  function WordIndices(word: nat, base: int, up: bool): seq<int>
    decreases word
  {
    if word == 0 then [] else [At(base, up, TrailingZeros(word))] + WordIndices(ClearLowest(word), base, up)
  }

  function BitmapIndices(words: seq<u64>, base: int, up: bool): seq<int> {
    if |words| == 0 then [] else WordIndices(words[0], base, up) + BitmapIndices(words[1..], At(base, up, 64), up)
  }

  /** Position `k` counted up or down from `base`, and back. */
  function At(base: int, up: bool, k: int): int {
    if up then base + k else base - k
  }

  function Offset(x: int, base: int, up: bool): int {
    if up then x - base else base - x
  }

  lemma {:induction false} WordIsExact(word: nat, base: int, up: bool)
    ensures Ordered(WordIndices(word, base, up), up)
    ensures forall x :: x in WordIndices(word, base, up) <==> Offset(x, base, up) >= 0 && Bit(word, Offset(x, base, up))
    decreases word
  {
    if word == 0 {
      forall i: nat ensures !Bit(word, i) { ZeroHasNoBits(i); }
    } else {
      WordIsExact(ClearLowest(word), base, up);
      var rest, b := WordIndices(ClearLowest(word), base, up), TrailingZeros(word);
      forall i: nat
        ensures Bit(ClearLowest(word), i) <==> Bit(word, i) && i != b
        ensures i <= b ==> !Bit(ClearLowest(word), i)
        ensures Bit(word, b)
      {
        LowestBit(word, i);
      }
      forall k | 0 <= k < |rest|
        ensures Before(At(base, up, b), rest[k], up)
      {
        assert rest[k] in rest;
      }
    }
  }

  lemma {:induction false} BitmapIsExact(words: seq<u64>, base: int, up: bool)
    ensures Ordered(BitmapIndices(words, base, up), up)
    ensures forall x :: x in BitmapIndices(words, base, up) <==> Marked(words, Offset(x, base, up))
  {
    hide Bit, Marked, WordIndices;
    if |words| == 0 {
      forall x
        ensures x in BitmapIndices(words, base, up) <==> Marked(words, Offset(x, base, up))
      {
        MarkedInRange(words, Offset(x, base, up));
      }
    } else {
      var tail := At(base, up, 64);
      WordIsExact(words[0], base, up);
      BitmapIsExact(words[1..], tail, up);
      var first, rest := WordIndices(words[0], base, up), BitmapIndices(words[1..], tail, up);
      forall x
        ensures x in first ==> Offset(x, base, up) < 64
        ensures x in rest ==> Offset(x, base, up) >= 64
        ensures x in BitmapIndices(words, base, up) <==> Marked(words, Offset(x, base, up))
      {
        MarkedSplit(words, Offset(x, base, up));
        MarkedInRange(words[1..], Offset(x, tail, up));
        assert Offset(x, tail, up) == Offset(x, base, up) - 64;
      }
      forall i, j | 0 <= i < |first| && 0 <= j < |rest|
        ensures Before(first[i], rest[j], up)
      {
        assert first[i] in first && rest[j] in rest;
      }
    }
  }

  // ── the pair's bitmap and its extension ─────────────────────────────────

  /** Twelve runs of eight words on each side of the pair's own sixteen. */
  datatype Extension = Extension(positive: seq<seq<u64>>, negative: seq<seq<u64>>)

  predicate ValidExtension(e: Extension) {
    && |e.positive| == EXT_WORDS && |e.negative| == EXT_WORDS
    && (forall k | 0 <= k < EXT_WORDS :: |e.positive[k]| == 8 && |e.negative[k]| == 8)
  }

  function NegativeFrom(runs: seq<seq<u64>>, k: nat): seq<int> {
    if |runs| == 0 then [] else BitmapIndices(runs[0], -BITMAP_SIZE * (k + 1) - 1, false) + NegativeFrom(runs[1..], k + 1)
  }

  function PositiveFrom(runs: seq<seq<u64>>, k: nat): seq<int> {
    if |runs| == 0 then [] else BitmapIndices(runs[0], BITMAP_SIZE * (k + 1), true) + PositiveFrom(runs[1..], k + 1)
  }

  /** Every array index marked as holding liquidity. */
  function LiquidArrays(bitmap: seq<u64>, ext: Option<Extension>): seq<int> {
    Sort((if ext.Some? then NegativeFrom(ext.value.negative, 0) else [])
         + BitmapIndices(bitmap, -BITMAP_SIZE, true)
         + (if ext.Some? then PositiveFrom(ext.value.positive, 0) else []))
  }

  /** The three index mappings, each on its own range. */
  predicate ArrayMarked(bitmap: seq<u64>, ext: Option<Extension>, x: int) {
    if -BITMAP_SIZE <= x < BITMAP_SIZE then Marked(bitmap, x + BITMAP_SIZE)
    else if ext.None? then false
    else if x >= BITMAP_SIZE then RunMarked(ext.value.positive, x - BITMAP_SIZE)
    else RunMarked(ext.value.negative, -BITMAP_SIZE - 1 - x)
  }

  predicate RunMarked(runs: seq<seq<u64>>, j: int) {
    0 <= j < BITMAP_SIZE * |runs| && Marked(runs[j / BITMAP_SIZE], j % BITMAP_SIZE)
  }

  lemma DistinctConcat(a: seq<int>, b: seq<int>)
    requires Distinct(a) && Distinct(b) && (forall x | x in a :: x !in b)
    ensures Distinct(a + b)
  {
    forall i, j | 0 <= i < j < |a + b|
      ensures (a + b)[i] != (a + b)[j]
    {
      if i < |a| <= j {
        assert a[i] in a;
      }
    }
  }

  lemma {:induction false} NegativeIsExact(runs: seq<seq<u64>>, k: nat)
    requires forall i | 0 <= i < |runs| :: |runs[i]| == 8
    ensures Distinct(NegativeFrom(runs, k))
    ensures forall x :: x in NegativeFrom(runs, k) <==> RunMarked(runs, -BITMAP_SIZE * (k + 1) - 1 - x)
  {
    if |runs| > 0 {
      var base := -BITMAP_SIZE * (k + 1) - 1;
      BitmapIsExact(runs[0], base, false);
      NegativeIsExact(runs[1..], k + 1);
      var first, rest := BitmapIndices(runs[0], base, false), NegativeFrom(runs[1..], k + 1);
      forall x
        ensures x in first ==> x !in rest
        ensures x in first || x in rest <==> RunMarked(runs, base - x)
      {
        RunSplit(runs, base - x);
      }
      DistinctConcat(first, rest);
    }
  }

  lemma {:induction false} PositiveIsExact(runs: seq<seq<u64>>, k: nat)
    requires forall i | 0 <= i < |runs| :: |runs[i]| == 8
    ensures Distinct(PositiveFrom(runs, k))
    ensures forall x :: x in PositiveFrom(runs, k) <==> RunMarked(runs, x - BITMAP_SIZE * (k + 1))
  {
    if |runs| > 0 {
      var base := BITMAP_SIZE * (k + 1);
      BitmapIsExact(runs[0], base, true);
      PositiveIsExact(runs[1..], k + 1);
      var first, rest := BitmapIndices(runs[0], base, true), PositiveFrom(runs[1..], k + 1);
      forall x
        ensures x in first ==> x !in rest
        ensures x in first || x in rest <==> RunMarked(runs, x - base)
      {
        RunSplit(runs, x - base);
      }
      DistinctConcat(first, rest);
    }
  }

  lemma RunSplit(runs: seq<seq<u64>>, j: int)
    requires |runs| > 0 && |runs[0]| == 8
    ensures RunMarked(runs, j) <==> Marked(runs[0], j) || RunMarked(runs[1..], j - BITMAP_SIZE)
    ensures !(Marked(runs[0], j) && RunMarked(runs[1..], j - BITMAP_SIZE))
  {
    if BITMAP_SIZE <= j < BITMAP_SIZE * |runs| {
      assert runs[1..][(j - BITMAP_SIZE) / BITMAP_SIZE] == runs[j / BITMAP_SIZE];
    }
  }

  /** The list holds each marked array exactly once, ascending, over all three index mappings. */
  lemma LiquidArraysExact(bitmap: seq<u64>, ext: Option<Extension>)
    requires |bitmap| == 16 && (ext.Some? ==> ValidExtension(ext.value))
    ensures Ordered(LiquidArrays(bitmap, ext), true)
    ensures forall x :: x in LiquidArrays(bitmap, ext) <==> ArrayMarked(bitmap, ext, x)
  {
    hide RunMarked, Marked, NegativeFrom, PositiveFrom, BitmapIndices, Sort;
    var neg := if ext.Some? then NegativeFrom(ext.value.negative, 0) else [];
    var mid := BitmapIndices(bitmap, -BITMAP_SIZE, true);
    var pos := if ext.Some? then PositiveFrom(ext.value.positive, 0) else [];
    BitmapIsExact(bitmap, -BITMAP_SIZE, true);
    if ext.Some? {
      NegativeIsExact(ext.value.negative, 0);
      PositiveIsExact(ext.value.positive, 0);
    }
    forall x
      ensures x in neg ==> x < -BITMAP_SIZE
      ensures x in mid ==> -BITMAP_SIZE <= x < BITMAP_SIZE
      ensures x in pos ==> BITMAP_SIZE <= x
      ensures x in neg || x in mid || x in pos <==> ArrayMarked(bitmap, ext, x)
    {
      MarkedInRange(bitmap, x + BITMAP_SIZE);
      if ext.Some? {
        RunInRange(ext.value.negative, -BITMAP_SIZE - 1 - x);
        RunInRange(ext.value.positive, x - BITMAP_SIZE);
      }
    }
    DistinctConcat(neg, mid);
    DistinctConcat(neg + mid, pos);
    SortIsExact(neg + mid + pos);
  }

  lemma RunInRange(runs: seq<seq<u64>>, j: int)
    ensures RunMarked(runs, j) ==> 0 <= j
  {
  }

  // ── the loops that build the list ───────────────────────────────────────

  method PushWord(word: nat, base: int, up: bool, before: seq<int>) returns (out: seq<int>)
    ensures out == before + WordIndices(word, base, up)
  {
    out := before;
    var bits := word;
    while bits != 0
      invariant out + WordIndices(bits, base, up) == before + WordIndices(word, base, up)
    {
      var b := TrailingZeros(bits);
      ghost var rest := WordIndices(ClearLowest(bits), base, up);
      assert out + ([At(base, up, b)] + rest) == out + [At(base, up, b)] + rest;
      bits := ClearLowest(bits);
      out := out + [At(base, up, b)];
    }
  }

  method PushBits(words: seq<u64>, base: int, up: bool, before: seq<int>) returns (out: seq<int>)
    ensures out == before + BitmapIndices(words, base, up)
  {
    out := before;
    var at := base;
    for w := 0 to |words|
      invariant out + BitmapIndices(words[w..], at, up) == before + BitmapIndices(words, base, up)
    {
      ghost var first, rest := WordIndices(words[w], at, up), BitmapIndices(words[w + 1..], At(at, up, 64), up);
      assert words[w..][1..] == words[w + 1..];
      assert out + (first + rest) == out + first + rest;
      out := PushWord(words[w], at, up, out);
      at := At(at, up, 64);
    }
  }

  method PushNegative(runs: seq<seq<u64>>) returns (out: seq<int>)
    ensures out == NegativeFrom(runs, 0)
  {
    hide BitmapIndices;
    out := [];
    for k := 0 to |runs|
      invariant out + NegativeFrom(runs[k..], k) == NegativeFrom(runs, 0)
    {
      ghost var first, rest := BitmapIndices(runs[k], -BITMAP_SIZE * (k + 1) - 1, false), NegativeFrom(runs[k + 1..], k + 1);
      assert runs[k..][1..] == runs[k + 1..];
      assert out + (first + rest) == out + first + rest;
      out := PushBits(runs[k], -BITMAP_SIZE * (k + 1) - 1, false, out);
    }
  }

  method PushPositive(runs: seq<seq<u64>>, before: seq<int>) returns (out: seq<int>)
    ensures out == before + PositiveFrom(runs, 0)
  {
    hide BitmapIndices;
    out := before;
    for k := 0 to |runs|
      invariant out + PositiveFrom(runs[k..], k) == before + PositiveFrom(runs, 0)
    {
      ghost var first, rest := BitmapIndices(runs[k], BITMAP_SIZE * (k + 1), true), PositiveFrom(runs[k + 1..], k + 1);
      assert runs[k..][1..] == runs[k + 1..];
      assert out + (first + rest) == out + first + rest;
      out := PushBits(runs[k], BITMAP_SIZE * (k + 1), true, out);
    }
  }

  method ListLiquidArrays(bitmap: seq<u64>, ext: Option<Extension>) returns (out: seq<int>)
    ensures out == LiquidArrays(bitmap, ext)
  {
    out := [];
    if ext.Some? {
      out := PushNegative(ext.value.negative);
    }
    out := PushBits(bitmap, -BITMAP_SIZE, true, out);
    if ext.Some? {
      out := PushPositive(ext.value.positive, out);
    }
    assert out == out + [];
    out := Sort(out);
  }

  // ── walking the list ────────────────────────────────────────────────────

  /** `partition_point(|x| x <= bound)`. */
  function CountUpTo(s: seq<int>, bound: int): (k: nat)
    ensures k <= |s|
    ensures forall i | 0 <= i < k :: s[i] <= bound
    ensures k < |s| ==> bound < s[k]
  {
    if |s| == 0 || bound < s[0] then 0 else 1 + CountUpTo(s[1..], bound)
  }

  /** The next array with liquidity at or beyond `from` in the swap direction. */
  function NextLiquid(liquid: seq<int>, from: int, swapForY: bool): Option<int> {
    if swapForY then
      var i := CountUpTo(liquid, from);
      if i == 0 then None else Some(liquid[i - 1])
    else
      var i := CountUpTo(liquid, from - 1);
      if i < |liquid| then Some(liquid[i]) else None
  }

  /** Nothing marked lies between `from` and the array found, or beyond `from` when none is found. */
  lemma NextLiquidExact(liquid: seq<int>, from: int, swapForY: bool)
    requires Ordered(liquid, true)
    ensures match NextLiquid(liquid, from, swapForY)
      case None => forall x | x in liquid :: if swapForY then from < x else x < from
      case Some(i) =>
        && i in liquid && (if swapForY then i <= from else from <= i)
        && forall x | x in liquid :: if swapForY then x <= i || from < x else x < from || i <= x
  {
  }

  /** Bin array holding a bin. */
  function ArrayIndex(binId: int): int {
    binId / BINS_PER_ARRAY
  }

  predicate NeedsExtension(index: int) {
    !(-BITMAP_SIZE <= index < BITMAP_SIZE)
  }

  /** Bin arrays a swap starting in array `from` walks, in order, at most `take`. */
  function ArraysFrom(liquid: seq<int>, from: int, hasExtension: bool, swapForY: bool, take: nat): (s: seq<int>)
    ensures |s| <= take
    decreases take
  {
    if take == 0 || (NeedsExtension(from) && !hasExtension) then []
    else
      var next := NextLiquid(liquid, from, swapForY);
      if next.None? then []
      else [next.value] + ArraysFrom(liquid, if swapForY then next.value - 1 else next.value + 1, hasExtension, swapForY,
          take - 1)
  }

  lemma OneMoreArray(out: seq<int>, liquid: seq<int>, from: int, hasExtension: bool, swapForY: bool, take: nat)
    requires take > 0
    ensures var next := NextLiquid(liquid, from, swapForY);
      out + ArraysFrom(liquid, from, hasExtension, swapForY, take)
      == if next.None? || (NeedsExtension(from) && !hasExtension) then out
         else out + [next.value] + ArraysFrom(liquid, if swapForY then next.value - 1 else next.value + 1, hasExtension,
             swapForY, take - 1)
  {
  }

  method ArraysForSwap(liquid: seq<int>, activeId: int, hasExtension: bool, swapForY: bool, take: nat) returns (out: seq<int>)
    ensures out == ArraysFrom(liquid, ArrayIndex(activeId), hasExtension, swapForY, take)
  {
    hide NextLiquid, NeedsExtension, ArraysFrom;
    out := [];
    var from := ArrayIndex(activeId);
    ghost var whole := ArraysFrom(liquid, from, hasExtension, swapForY, take);
    assert [] + whole == whole;
    while |out| < take
      invariant |out| <= take && out + ArraysFrom(liquid, from, hasExtension, swapForY, take - |out|) == whole
      decreases take - |out|
    {
      OneMoreArray(out, liquid, from, hasExtension, swapForY, take - |out|);
      if NeedsExtension(from) && !hasExtension {
        return;
      }
      var next := NextLiquid(liquid, from, swapForY);
      if next.None? {
        return;
      }
      out := out + [next.value];
      from := if swapForY then next.value - 1 else next.value + 1;
    }
    assert out + [] == out;
  }
}

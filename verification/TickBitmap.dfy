/** Which tick arrays a pool's bitmap says to load, and the range they make fully known (`src/pool/ticks.rs`). */
module TickBitmap {
  import opened Numbers
  import opened Bitmaps

  const ARRAYS_EACH_SIDE: nat := 3
  const FIRST_ARRAY: int := -512
  const LAST_ARRAY: int := 511

  /** Start ticks to load, and the first and last tick they make known. */
  datatype Plan = Plan(starts: seq<int>, lo: int, hi: int)

  /** Bit `i + 512` of the sixteen words. */
  predicate Initialised(words: seq<u64>, i: int) {
    Marked(words, i - FIRST_ARRAY)
  }

  /** The first `n` initialised arrays at or below `i`, nearest first. */
  function Below(words: seq<u64>, i: int, n: nat): (r: seq<int>)
    requires |words| == 16
    ensures |r| <= n
    decreases Max(i - FIRST_ARRAY + 1, 0)
  {
    if n == 0 || i < FIRST_ARRAY then []
    else if Initialised(words, i) then [i] + Below(words, i - 1, n - 1)
    else Below(words, i - 1, n)
  }

  function Above(words: seq<u64>, i: int, n: nat): (r: seq<int>)
    requires |words| == 16
    ensures |r| <= n
    decreases Max(LAST_ARRAY - i + 1, 0)
  {
    if n == 0 || i > LAST_ARRAY then []
    else if Initialised(words, i) then [i] + Above(words, i + 1, n - 1)
    else Above(words, i + 1, n)
  }

  function Starts(arrays: seq<int>, span: int): (r: seq<int>)
    ensures |r| == |arrays| && forall k | 0 <= k < |r| :: r[k] == arrays[k] * span
  {
    seq(|arrays|, k requires 0 <= k < |arrays| => arrays[k] * span)
  }

  function BitmapPlan(words: seq<u64>, cur: int, span: int): Option<Plan>
    requires |words| == 16 && 0 < span
  {
    var at := cur / span;
    if !(FIRST_ARRAY <= at <= LAST_ARRAY) then None
    else
      var below, above := Below(words, at, ARRAYS_EACH_SIDE), Above(words, at, ARRAYS_EACH_SIDE);
      if below == [] && above == [] then None
      else
        var lo := if |below| == ARRAYS_EACH_SIDE then below[|below| - 1] else FIRST_ARRAY;
        var hi := if |above| == ARRAYS_EACH_SIDE then above[|above| - 1] else LAST_ARRAY;
        Some(Plan(Dedup(Sort(Starts(below + above, span))), lo * span, hi * span + span - 1))
  }

  // ── the scans ───────────────────────────────────────────────────────────

  /** Where a downward scan has seen everything: its last find when it is full, else the bitmap's edge. */
  function LowEdge(below: seq<int>, n: nat): int {
    if 0 < |below| == n then below[n - 1] else FIRST_ARRAY
  }

  function HighEdge(above: seq<int>, n: nat): int {
    if 0 < |above| == n then above[n - 1] else LAST_ARRAY
  }

  /** A downward scan finds exactly the initialised arrays from its start to its edge. */
  lemma {:induction false} BelowIsExact(words: seq<u64>, i: int, n: nat)
    requires |words| == 16 && 0 < n && i <= LAST_ARRAY
    ensures var below := Below(words, i, n);
      && (forall k :: k in below <==> Initialised(words, k) && LowEdge(below, n) <= k <= i)
      && FIRST_ARRAY <= LowEdge(below, n) && (i >= FIRST_ARRAY ==> LowEdge(below, n) <= i)
    decreases Max(i - FIRST_ARRAY + 1, 0)
  {
    hide Bit, Initialised;
    if i >= FIRST_ARRAY {
      if !Initialised(words, i) {
        BelowIsExact(words, i - 1, n);
      } else if n > 1 {
        BelowIsExact(words, i - 1, n - 1);
        var rest := Below(words, i - 1, n - 1);
        assert Below(words, i, n) == [i] + rest && LowEdge([i] + rest, n) == LowEdge(rest, n - 1);
      } else {
        assert Below(words, i, n) == [i] + Below(words, i - 1, 0) == [i];
      }
    }
  }

  lemma {:induction false} AboveIsExact(words: seq<u64>, i: int, n: nat)
    requires |words| == 16 && 0 < n && FIRST_ARRAY <= i
    ensures var above := Above(words, i, n);
      && (forall k :: k in above <==> Initialised(words, k) && i <= k <= HighEdge(above, n))
      && HighEdge(above, n) <= LAST_ARRAY && (i <= LAST_ARRAY ==> i <= HighEdge(above, n))
    decreases Max(LAST_ARRAY - i + 1, 0)
  {
    hide Bit, Initialised;
    if i <= LAST_ARRAY {
      if !Initialised(words, i) {
        AboveIsExact(words, i + 1, n);
      } else if n > 1 {
        AboveIsExact(words, i + 1, n - 1);
        var rest := Above(words, i + 1, n - 1);
        assert Above(words, i, n) == [i] + rest && HighEdge([i] + rest, n) == HighEdge(rest, n - 1);
      } else {
        assert Above(words, i, n) == [i] + Above(words, i + 1, 0) == [i];
      }
    }
  }

  /** A downward scan descends; an upward one ascends. */
  lemma {:induction false} BelowFalls(words: seq<u64>, i: int, n: nat)
    requires |words| == 16
    ensures Ordered(Below(words, i, n), false) && forall k | k in Below(words, i, n) :: k <= i
    decreases Max(i - FIRST_ARRAY + 1, 0)
  {
    hide Bit, Initialised;
    if i >= FIRST_ARRAY && n > 0 {
      var m := if Initialised(words, i) then n - 1 else n;
      BelowFalls(words, i - 1, m);
      var rest := Below(words, i - 1, m);
      assert forall k | 0 <= k < |rest| :: rest[k] in rest && rest[k] < i;
    }
  }

  lemma {:induction false} AboveRises(words: seq<u64>, i: int, n: nat)
    requires |words| == 16
    ensures Ordered(Above(words, i, n), true) && forall k | k in Above(words, i, n) :: i <= k
    decreases Max(LAST_ARRAY - i + 1, 0)
  {
    hide Bit, Initialised;
    if i <= LAST_ARRAY && n > 0 {
      var m := if Initialised(words, i) then n - 1 else n;
      AboveRises(words, i + 1, m);
      var rest := Above(words, i + 1, m);
      assert forall k | 0 <= k < |rest| :: rest[k] in rest && i < rest[k];
    }
  }

  // ── three on each side ──────────────────────────────────────────────────

  /** No four neighbours of an ascending list are among three. */
  lemma NotFour(s: seq<int>, few: seq<int>, k: nat)
    requires Ordered(s, true) && |few| <= 3 && k + 3 < |s|
    ensures !(s[k] in few && s[k + 1] in few && s[k + 2] in few && s[k + 3] in few)
  {
    assert s[k] < s[k + 1] < s[k + 2] < s[k + 3];
    if s[k] in few && s[k + 1] in few && s[k + 2] in few {
      var a :| 0 <= a < |few| && few[a] == s[k];
      var b :| 0 <= b < |few| && few[b] == s[k + 1];
      var c :| 0 <= c < |few| && few[c] == s[k + 2];
      assert forall d | 0 <= d < |few| :: few[d] != s[k + 3];
    }
  }

  /** Three different members of an ascending list: the third is not above the greatest, nor the third last below the
      least. */
  lemma ThreeMembers(s: seq<int>, x: int, y: int, z: int)
    requires Ordered(s, true) && x in s && y in s && z in s && x < y < z
    ensures 3 <= |s| && s[2] <= z && x <= s[|s| - 3]
  {
    var a :| 0 <= a < |s| && s[a] == x;
    var b :| 0 <= b < |s| && s[b] == y;
    var c :| 0 <= c < |s| && s[c] == z;
    assert a < b < c;
  }

  // ── the plan ────────────────────────────────────────────────────────────

  /** There is a plan exactly when the current array is in the bitmap and some array is initialised. */
  lemma PlanExists(words: seq<u64>, cur: int, span: int)
    requires |words| == 16 && 0 < span
    ensures BitmapPlan(words, cur, span).Some? <==> -512 <= cur / span < 512 && exists i :: Set(words, i)
  {
    hide Bit, Set, Initialised, Below, Above;
    forall i ensures Initialised(words, i) <==> Set(words, i + 512) {
      InitialisedIsSet(words, i);
    }
    if exists i :: Set(words, i) {
      var i :| Set(words, i);
      assert Initialised(words, i - 512);
    }
    var at := cur / span;
    if FIRST_ARRAY <= at <= LAST_ARRAY {
      var below, above := Below(words, at, ARRAYS_EACH_SIDE), Above(words, at, ARRAYS_EACH_SIDE);
      BelowIsExact(words, at, ARRAYS_EACH_SIDE);
      AboveIsExact(words, at, ARRAYS_EACH_SIDE);
      if below != [] { assert below[0] in below; }
      if above != [] { assert above[0] in above; }
      forall i | Initialised(words, i) ensures below != [] || above != [] {
        InitialisedInRange(words, i);
        var found := i in below || i in above;
      }
    }
  }

  lemma InitialisedInRange(words: seq<u64>, i: int)
    requires |words| == 16 && Initialised(words, i)
    ensures FIRST_ARRAY <= i <= LAST_ARRAY
  {
  }

  /** Array `i` has bit `i + 512`. */
  lemma InitialisedIsSet(words: seq<u64>, i: int)
    ensures Initialised(words, i) <==> Set(words, i + 512)
  {
    MarkedIsSet(words, i + 512);
  }

  /** `s` starts an initialised array that lies in the range the plan claims to know. */
  predicate Known(words: seq<u64>, span: int, plan: Plan, s: int)
    requires 0 < span
  {
    exists i | -512 <= i < 512 :: s == i * span && Set(words, i + 512) && plan.lo <= s && s + span - 1 <= plan.hi
  }

  /** The plan lists, in ascending order, exactly the initialised arrays inside the range it claims to know; the range
      holds the current tick, and each end is at an initialised array or at the bitmap's edge. */
  lemma PlanIsExact(words: seq<u64>, cur: int, span: int)
    requires |words| == 16 && 0 < span && BitmapPlan(words, cur, span).Some?
    ensures var plan := BitmapPlan(words, cur, span).value;
      && Ordered(plan.starts, true) && |plan.starts| <= 2 * ARRAYS_EACH_SIDE
      && (forall s :: s in plan.starts <==> Known(words, span, plan, s))
      && plan.lo <= cur <= plan.hi
      && (plan.lo == -512 * span || Known(words, span, plan, plan.lo))
      && (plan.hi == 511 * span + span - 1 || Known(words, span, plan, plan.hi - span + 1))
  {
    hide Bit, Set, Initialised, Below, Above, Sort, Dedup;
    forall i ensures Initialised(words, i) <==> Set(words, i + 512) {
      InitialisedIsSet(words, i);
    }
    var at := cur / span;
    var below, above := Below(words, at, ARRAYS_EACH_SIDE), Above(words, at, ARRAYS_EACH_SIDE);
    BelowIsExact(words, at, ARRAYS_EACH_SIDE);
    AboveIsExact(words, at, ARRAYS_EACH_SIDE);
    var plan := BitmapPlan(words, cur, span).value;
    var lo, hi := LowEdge(below, ARRAYS_EACH_SIDE), HighEdge(above, ARRAYS_EACH_SIDE);
    assert plan.lo == lo * span && plan.hi == hi * span + span - 1;
    DivBounds(cur, span);
    MulMono(lo, at, span);
    MulMono(at, hi, span);
    MulMono(lo, hi, span);
    if lo != FIRST_ARRAY { assert lo in below && Initialised(words, lo); }
    if hi != LAST_ARRAY { assert hi in above && Initialised(words, hi); }
    var arrays := below + above;
    SortRises(Starts(arrays, span));
    DedupIsStrict(Sort(Starts(arrays, span)));
    forall s ensures s in plan.starts <==> Known(words, span, plan, s) {
      if s in plan.starts {
        var k :| 0 <= k < |arrays| && s == Starts(arrays, span)[k];
        var i := arrays[k];
        assert i in below || i in above;
        MulMono(lo, i, span);
        MulMono(i, hi, span);
        assert s == i * span && Initialised(words, i);
      }
      if Known(words, span, plan, s) {
        var i :| s == i * span && Set(words, i + 512) && plan.lo <= s && s + span - 1 <= plan.hi;
        MulCancel(lo, i, span);
        MulCancel(i, hi, span);
        assert i in below || i in above;
        assert i in arrays;
        var k :| 0 <= k < |arrays| && arrays[k] == i;
        assert Starts(arrays, span)[k] == s;
      }
    }
  }

  /** The current array is among those scanned downwards exactly if it is among those scanned upwards. */
  lemma SidesMeet(words: seq<u64>, at: int, span: int, i: int)
    requires |words| == 16 && 0 < span && FIRST_ARRAY <= at <= LAST_ARRAY
    requires i in Below(words, at, ARRAYS_EACH_SIDE) || i in Above(words, at, ARRAYS_EACH_SIDE)
    ensures i * span <= at * span ==> i in Below(words, at, ARRAYS_EACH_SIDE)
    ensures at * span <= i * span ==> i in Above(words, at, ARRAYS_EACH_SIDE)
  {
    hide Bit, Initialised, Below, Above;
    BelowIsExact(words, at, ARRAYS_EACH_SIDE);
    AboveIsExact(words, at, ARRAYS_EACH_SIDE);
    if i * span <= at * span { MulCancel(i, at, span); }
    if at * span <= i * span { MulCancel(at, i, span); }
  }

  lemma InStarts(arrays: seq<int>, span: int, i: int)
    requires i in arrays
    ensures i * span in Starts(arrays, span)
  {
    var k :| 0 <= k < |arrays| && arrays[k] == i;
    assert Starts(arrays, span)[k] == i * span;
  }

  /** The starts on one side of the current array are those its scan found. */
  lemma SideOf(words: seq<u64>, cur: int, span: int, s: int)
    requires |words| == 16 && 0 < span && BitmapPlan(words, cur, span).Some? && s in BitmapPlan(words, cur, span).value.starts
    ensures s <= cur / span * span ==> s in Starts(Below(words, cur / span, ARRAYS_EACH_SIDE), span)
    ensures cur / span * span <= s ==> s in Starts(Above(words, cur / span, ARRAYS_EACH_SIDE), span)
  {
    hide Below, Above, Sort, Dedup;
    var at := cur / span;
    var below, above := Below(words, at, ARRAYS_EACH_SIDE), Above(words, at, ARRAYS_EACH_SIDE);
    var arrays := below + above;
    SortRises(Starts(arrays, span));
    DedupIsStrict(Sort(Starts(arrays, span)));
    var k :| 0 <= k < |arrays| && s == Starts(arrays, span)[k];
    assert arrays[k] in below || arrays[k] in above;
    SidesMeet(words, at, span, arrays[k]);
    if s <= at * span { InStarts(below, span, arrays[k]); }
    if at * span <= s { InStarts(above, span, arrays[k]); }
  }

  /** Three neighbours of a scan, started, are in the plan. */
  lemma ThreeStarts(words: seq<u64>, cur: int, span: int, x: int, y: int, z: int)
    requires |words| == 16 && 0 < span && BitmapPlan(words, cur, span).Some? && x < y < z
    requires forall i | i == x || i == y || i == z ::
               i in Below(words, cur / span, ARRAYS_EACH_SIDE) || i in Above(words, cur / span, ARRAYS_EACH_SIDE)
    ensures var s := BitmapPlan(words, cur, span).value.starts;
      3 <= |s| && s[2] <= z * span && x * span <= s[|s| - 3]
  {
    hide Below, Above, Sort, Dedup;
    var arrays := Below(words, cur / span, ARRAYS_EACH_SIDE) + Above(words, cur / span, ARRAYS_EACH_SIDE);
    SortRises(Starts(arrays, span));
    DedupIsStrict(Sort(Starts(arrays, span)));
    InStarts(arrays, span, x);
    InStarts(arrays, span, y);
    InStarts(arrays, span, z);
    MulStrict(x, y, span);
    MulStrict(y, z, span);
    ThreeMembers(BitmapPlan(words, cur, span).value.starts, x * span, y * span, z * span);
  }

  lemma AtMostThree(words: seq<u64>, cur: int, span: int)
    requires |words| == 16 && 0 < span && BitmapPlan(words, cur, span).Some?
    requires Ordered(BitmapPlan(words, cur, span).value.starts, true)
    ensures var s, at := BitmapPlan(words, cur, span).value.starts, cur / span * span;
      3 < |s| ==> at < s[3] && s[|s| - 4] < at
  {
    hide Below, Above, BitmapPlan, Initialised;
    var s, at := BitmapPlan(words, cur, span).value.starts, cur / span;
    var n := |s|;
    if 3 < n {
      NotFour(s, Starts(Below(words, at, ARRAYS_EACH_SIDE), span), 0);
      NotFour(s, Starts(Above(words, at, ARRAYS_EACH_SIDE), span), n - 4);
      assert s[0] < s[1] < s[2] < s[3] && s[n - 4] < s[n - 3] < s[n - 2] < s[n - 1];
      if s[3] <= at * span {
        SideOf(words, cur, span, s[0]);
        SideOf(words, cur, span, s[1]);
        SideOf(words, cur, span, s[2]);
        SideOf(words, cur, span, s[3]);
      }
      if at * span <= s[n - 4] {
        SideOf(words, cur, span, s[n - 4]);
        SideOf(words, cur, span, s[n - 3]);
        SideOf(words, cur, span, s[n - 2]);
        SideOf(words, cur, span, s[n - 1]);
      }
    }
  }

  /** At most three of the arrays are at or below the current one and at most three at or above it, and exactly three where
      the range ends short of the bitmap's edge. */
  lemma PlanTakesThree(words: seq<u64>, cur: int, span: int)
    requires |words| == 16 && 0 < span && BitmapPlan(words, cur, span).Some?
    ensures var plan, at := BitmapPlan(words, cur, span).value, cur / span * span;
      var s, n := plan.starts, |plan.starts|;
      && (3 < n ==> at < s[3] && s[n - 4] < at)
      && (plan.lo != -512 * span ==> 3 <= n && s[2] <= at) && (plan.hi != 511 * span + span - 1 ==> 3 <= n && at <= s[n - 3])
  {
    hide Below, Above, BitmapPlan, Initialised, Known;
    PlanIsExact(words, cur, span);
    AtMostThree(words, cur, span);
    EdgesOf(words, cur, span);
    var plan, at := BitmapPlan(words, cur, span).value, cur / span;
    if plan.lo != -512 * span {
      var below := Below(words, at, ARRAYS_EACH_SIDE);
      BelowFalls(words, at, ARRAYS_EACH_SIDE);
      assert below[2] < below[1] < below[0];
      ThreeStarts(words, cur, span, below[2], below[1], below[0]);
      assert below[0] in below;
      MulMono(below[0], at, span);
    }
    if plan.hi != 511 * span + span - 1 {
      var above := Above(words, at, ARRAYS_EACH_SIDE);
      AboveRises(words, at, ARRAYS_EACH_SIDE);
      assert above[0] < above[1] < above[2];
      ThreeStarts(words, cur, span, above[0], above[1], above[2]);
      assert above[0] in above;
      MulMono(at, above[0], span);
    }
  }

  /** A range that ends short of the bitmap's edge has a full scan behind it. */
  lemma EdgesOf(words: seq<u64>, cur: int, span: int)
    requires |words| == 16 && 0 < span && BitmapPlan(words, cur, span).Some?
    ensures var plan := BitmapPlan(words, cur, span).value;
      && (plan.lo != -512 * span ==> |Below(words, cur / span, ARRAYS_EACH_SIDE)| == 3)
      && (plan.hi != 511 * span + span - 1 ==> |Above(words, cur / span, ARRAYS_EACH_SIDE)| == 3)
  {
    hide Below, Above, Sort, Dedup, Starts;
  }
}

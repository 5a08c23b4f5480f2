/** The exact areas under the DBC curve, and what a walk pays and receives against them. */
module DbcAreas {
  import opened Numbers
  import opened SqrtCurve
  import opened DbcCurve

  /** Ascending points with liquidity, the curve a config describes. */
  predicate Rising(curve: seq<Point>) {
    && (forall i | 0 <= i < |curve| :: 0 < curve[i].price && 0 < curve[i].liquidity)
    && (forall i, j | 0 <= i < j < |curve| :: curve[i].price < curve[j].price)
  }

  /** Segment `i` runs from here to its point. */
  function Bottom(curve: seq<Point>, i: nat): u128
    requires i < |curve|
  {
    if i == 0 then 0 else curve[i - 1].price
  }

  /** The price `x` seen inside segment `i`. */
  function Within(curve: seq<Point>, i: nat, x: int): (r: int)
    requires i < |curve| && Rising(curve)
    ensures 0 < x ==> 0 < r
  {
    Clamp(x, Bottom(curve, i), curve[i].price)
  }

  /** Quote held between two prices by the first `n` segments, times 2¹²⁸, exactly. */
  function QuoteArea(curve: seq<Point>, n: nat, lo: int, hi: int): int
    requires n <= |curve| && Rising(curve)
  {
    if n == 0 then 0
    else QuoteArea(curve, n - 1, lo, hi) + curve[n - 1].liquidity * (Within(curve, n - 1, hi) - Within(curve, n - 1, lo))
  }

  /** Base of one segment between two prices, exactly. */
  function BaseOf(liquidity: int, lo: int, hi: int): real
    requires 0 < lo && 0 < hi
  {
    liquidity as real / lo as real - liquidity as real / hi as real
  }

  /** Base held between two prices by the first `n` segments, exactly. */
  function BaseArea(curve: seq<Point>, n: nat, lo: int, hi: int): real
    requires n <= |curve| && Rising(curve) && 0 < lo && 0 < hi
  {
    if n == 0 then 0.0
    else BaseArea(curve, n - 1, lo, hi) + BaseOf(curve[n - 1].liquidity, Within(curve, n - 1, lo), Within(curve, n - 1, hi))
  }

  // ── areas add up, segment by segment ────────────────────────────────────

  lemma {:induction false} AreasAdd(curve: seq<Point>, n: nat, lo: int, mid: int, hi: int)
    requires n <= |curve| && Rising(curve)
    ensures QuoteArea(curve, n, lo, mid) + QuoteArea(curve, n, mid, hi) == QuoteArea(curve, n, lo, hi)
    ensures 0 < lo && 0 < mid && 0 < hi ==>
            BaseArea(curve, n, lo, mid) + BaseArea(curve, n, mid, hi) == BaseArea(curve, n, lo, hi)
    decreases n
  {
    if n > 0 {
      AreasAdd(curve, n - 1, lo, mid, hi);
      var l, a, b, c := curve[n - 1].liquidity, Within(curve, n - 1, lo), Within(curve, n - 1, mid), Within(curve, n - 1, hi);
      assert l * (b - a) + l * (c - b) == l * (c - a);
    }
  }

  lemma {:induction false} AreasNonneg(curve: seq<Point>, n: nat, lo: int, hi: int)
    requires n <= |curve| && Rising(curve) && lo <= hi
    ensures 0 <= QuoteArea(curve, n, lo, hi)
    ensures 0 < lo ==> 0.0 <= BaseArea(curve, n, lo, hi)
    decreases n
  {
    if n > 0 {
      AreasNonneg(curve, n - 1, lo, hi);
      var l, a, b := curve[n - 1].liquidity, Within(curve, n - 1, lo), Within(curve, n - 1, hi);
      MulNonneg(l, b - a);
      if 0 < lo { BaseOfNonneg(l, a, b); }
    }
  }

  lemma BaseOfNonneg(liquidity: nat, lo: nat, hi: nat)
    requires 0 < lo <= hi
    ensures 0.0 <= BaseOf(liquidity, lo, hi)
  {
  }

  /** Cover by an integer amount, against the exact base. */
  lemma BaseOfIff(liquidity: nat, lo: nat, hi: nat, amount: nat)
    requires 0 < lo <= hi
    ensures BaseCovers(liquidity, lo, hi, amount) <==> BaseOf(liquidity, lo, hi) <= amount as real
    ensures BaseWithin(liquidity, lo, hi, amount) <==> amount as real <= BaseOf(liquidity, lo, hi)
  {
  }

  /** A segment both prices lie on one side of adds nothing. */
  lemma OutsideSegment(curve: seq<Point>, n: nat, lo: int, hi: int)
    requires 0 < n <= |curve| && Rising(curve) && Within(curve, n - 1, lo) == Within(curve, n - 1, hi)
    ensures QuoteArea(curve, n, lo, hi) == QuoteArea(curve, n - 1, lo, hi)
    ensures 0 < lo && 0 < hi ==> BaseArea(curve, n, lo, hi) == BaseArea(curve, n - 1, lo, hi)
  {
    var l, x := curve[n - 1].liquidity, Within(curve, n - 1, lo);
    assert l * (x - x) == 0;
  }

  /** Between two prices of one segment, the areas are that segment's. */
  lemma {:induction false} AreaOfSegment(curve: seq<Point>, n: nat, k: nat, lo: int, hi: int)
    requires k < n <= |curve| && Rising(curve) && Bottom(curve, k) <= lo <= hi <= curve[k].price
    ensures QuoteArea(curve, n, lo, hi) == curve[k].liquidity * (hi - lo)
    ensures 0 < lo ==> BaseArea(curve, n, lo, hi) == BaseOf(curve[k].liquidity, lo, hi)
    decreases n
  {
    hide BaseOf;
    if k < n - 1 {
      OutsideSegment(curve, n, lo, hi);
      AreaOfSegment(curve, n - 1, k, lo, hi);
    } else {
      NothingBelow(curve, k, lo, hi);
    }
  }

  lemma {:induction false} NothingBelow(curve: seq<Point>, n: nat, lo: int, hi: int)
    requires n <= |curve| && Rising(curve) && lo <= hi && (n == 0 || curve[n - 1].price <= lo)
    ensures QuoteArea(curve, n, lo, hi) == 0
    ensures 0 < lo ==> BaseArea(curve, n, lo, hi) == 0.0
    decreases n
  {
    if n > 0 {
      OutsideSegment(curve, n, lo, hi);
      NothingBelow(curve, n - 1, lo, hi);
    }
  }

  function QuoteBelow(curve: seq<Point>, lo: int, hi: int): int
    requires Rising(curve)
  {
    QuoteArea(curve, |curve|, lo, hi)
  }

  function BaseAbove(curve: seq<Point>, lo: int, hi: int): real
    requires Rising(curve) && 0 < lo && 0 < hi
  {
    BaseArea(curve, |curve|, lo, hi)
  }

  // ── one piece of a walk ─────────────────────────────────────────────────

  /** A piece of a buy: it pays for the quote area it crosses and receives no more than the base area. */
  predicate FairBuy(curve: seq<Point>, lo: int, hi: int, paid: int, got: int)
    requires Rising(curve)
  {
    0 < lo <= hi && QuoteBelow(curve, lo, hi) <= paid * Q128 && got as real <= BaseAbove(curve, lo, hi)
  }

  /** A piece of a sell, the other way round. */
  predicate FairSell(curve: seq<Point>, lo: int, hi: int, paid: int, got: int)
    requires Rising(curve)
  {
    0 < lo <= hi && BaseAbove(curve, lo, hi) <= paid as real && got * Q128 <= QuoteBelow(curve, lo, hi)
  }

  lemma FairBuysAdd(curve: seq<Point>, lo: int, mid: int, hi: int, paid: int, got: int, paid': int, got': int)
    requires Rising(curve) && FairBuy(curve, lo, mid, paid, got) && FairBuy(curve, mid, hi, paid', got')
    ensures FairBuy(curve, lo, hi, paid + paid', got + got')
  {
    hide QuoteArea, BaseArea;
    AreasAdd(curve, |curve|, lo, mid, hi);
  }

  lemma FairSellsAdd(curve: seq<Point>, lo: int, mid: int, hi: int, paid: int, got: int, paid': int, got': int)
    requires Rising(curve) && FairSell(curve, lo, mid, paid, got) && FairSell(curve, mid, hi, paid', got')
    ensures FairSell(curve, lo, hi, paid + paid', got + got')
  {
    hide QuoteArea, BaseArea;
    AreasAdd(curve, |curve|, lo, mid, hi);
  }

  lemma PieceOfBuy(curve: seq<Point>, k: nat, lo: u128, hi: u128, paid: nat, got: nat)
    requires Rising(curve) && k < |curve| && 0 < lo && Bottom(curve, k) <= lo <= hi <= curve[k].price
    requires QuoteCovers(curve[k].liquidity, lo, hi, paid) && DeltaA(lo, hi, curve[k].liquidity, false) == Some(got)
    ensures FairBuy(curve, lo, hi, paid, got)
  {
    hide QuoteArea, BaseArea, BaseBetween, BaseOf;
    AreaOfSegment(curve, |curve|, k, lo, hi);
    BaseBetweenIff(lo, hi, curve[k].liquidity, got);
    BaseOfIff(curve[k].liquidity, lo, hi, got);
  }

  lemma PieceOfSell(curve: seq<Point>, k: nat, lo: u128, hi: u128, paid: nat, got: nat)
    requires Rising(curve) && k < |curve| && 0 < lo && Bottom(curve, k) <= lo <= hi <= curve[k].price
    requires BaseCovers(curve[k].liquidity, lo, hi, paid) && DeltaB(lo, hi, curve[k].liquidity, false) == Some(got)
    ensures FairSell(curve, lo, hi, paid, got)
  {
    hide QuoteArea, BaseArea, QuoteBetween, BaseOf;
    AreaOfSegment(curve, |curve|, k, lo, hi);
    QuoteBetweenIff(lo, hi, curve[k].liquidity, got);
    BaseOfIff(curve[k].liquidity, lo, hi, paid);
  }

  // ── whole walks ─────────────────────────────────────────────────────────

  predicate BelowCeiling(curve: seq<Point>, stop: u128, price: int) {
    curve != [] && price <= stop && price <= curve[|curve| - 1].price
  }

  /** Every buy ends at or above where it began, at most at the ceiling and the last point, and trades fairly. */
  lemma {:induction false} BuyIsFair(curve: seq<Point>, stop: u128, i: nat, cur: u128, left: u64, out: u64)
    requires Rising(curve) && i <= |curve| && 0 < cur && (i == 0 || Min(curve[i - 1].price, stop) <= cur)
    requires BuyFrom(curve, stop, i, cur, left, out).Some?
    ensures var t := BuyFrom(curve, stop, i, cur, left, out).value;
      BelowCeiling(curve, stop, t.price) && FairBuy(curve, cur, t.price, left, t.out - out)
    decreases |curve| - i
  {
    hide QuoteBetween, DeltaA, NextFromB, FairBuy;
    var top, liquidity := Min(curve[i].price, stop), curve[i].liquidity;
    if top <= cur {
      BuyIsFair(curve, stop, i + 1, cur, left, out);
    } else {
      var maxIn := QuoteBetween(cur, top, liquidity, true);
      if left < maxIn {
        BuyLandsInside(cur, top, liquidity, left);
        var next := NextFromB(cur, liquidity, left).value;
        PieceOfBuy(curve, i, cur, next, left, DeltaA(cur, next, liquidity, false).value);
      } else {
        QuoteBetweenIff(cur, top, liquidity, maxIn);
        var got := DeltaA(cur, top, liquidity, false).value;
        PieceOfBuy(curve, i, cur, top, maxIn, got);
        if left != maxIn {
          BuyIsFair(curve, stop, i + 1, top, left - maxIn, out + got);
          var t := BuyFrom(curve, stop, i, cur, left, out).value;
          FairBuysAdd(curve, cur, top, t.price, maxIn, got, left - maxIn, t.out - (out + got));
        }
      }
    }
  }

  lemma NoPieceOfSell(curve: seq<Point>, cur: u128)
    requires Rising(curve) && 0 < cur
    ensures FairSell(curve, cur, cur, 0, 0)
  {
    hide QuoteArea, BaseArea;
    AreasAdd(curve, |curve|, cur, cur, cur);
  }

  /** Every sell ends at or below where it began, never below the start price, and trades fairly. */
  lemma {:induction false} SellIsFair(curve: seq<Point>, start: u128, n: nat, cur: u128, left: u64, out: u64)
    requires Rising(curve) && n < |curve| && 0 < start <= curve[0].price && start <= cur <= curve[n].price
    requires SellFrom(curve, start, n, cur, left, out).Some?
    ensures var t := SellFrom(curve, start, n, cur, left, out).value;
      start <= t.price && FairSell(curve, t.price, cur, left, t.out - out)
    decreases n
  {
    hide BaseBetween, DeltaB, NextFromA, FairSell;
    if n == 0 {
      NoPieceOfSell(curve, cur);
      if left != 0 {
        var next := NextFromA(cur, curve[0].liquidity, left).value;
        NextFromAIff(cur, curve[0].liquidity, left, 0);
        NextFromAIff(cur, curve[0].liquidity, left, next);
        PieceOfSell(curve, 0, next, cur, left, DeltaB(next, cur, curve[0].liquidity, false).value);
      }
    } else {
      var point, liquidity := curve[n - 1].price, curve[n].liquidity;
      if point >= cur {
        SellIsFair(curve, start, n - 1, cur, left, out);
      } else {
        var maxIn := BaseBetween(point, cur, liquidity, true);
        if left < maxIn {
          SellLandsInside(point, cur, liquidity, left);
          var next := NextFromA(cur, liquidity, left).value;
          PieceOfSell(curve, n, next, cur, left, DeltaB(next, cur, liquidity, false).value);
        } else {
          BaseBetweenIff(point, cur, liquidity, maxIn);
          var got := DeltaB(point, cur, liquidity, false).value;
          PieceOfSell(curve, n, point, cur, maxIn, got);
          SellIsFair(curve, start, n - 1, point, left - maxIn, out + got);
          var t := SellFrom(curve, start, n, cur, left, out).value;
          FairSellsAdd(curve, t.price, point, cur, left - maxIn, t.out - (out + got), maxIn, got);
        }
      }
    }
  }
}

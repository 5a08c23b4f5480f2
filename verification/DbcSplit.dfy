/** Splitting an input into two consecutive swaps never pays more on a DBC curve. */
module DbcSplit {
  import opened Numbers
  import opened SqrtCurve
  import opened DbcCurve
  import opened DbcRuns

  /** Points are read up to the first without liquidity. */
  predicate Liquid(curve: seq<Point>) {
    forall i | 0 <= i < |curve| :: 0 < curve[i].liquidity
  }

  // ── buys ────────────────────────────────────────────────────────────────

  lemma {:induction false} BuyGrows(curve: seq<Point>, stop: u128, i: nat, cur: u128, left: u64, out: u64)
    requires i <= |curve| && BuyFrom(curve, stop, i, cur, left, out).Some?
    ensures out <= BuyFrom(curve, stop, i, cur, left, out).value.out
      && cur <= BuyFrom(curve, stop, i, cur, left, out).value.price
    decreases |curve| - i
  {
    hide QuoteBetween, DeltaA, NextFromB;
    var top, liquidity := Min(curve[i].price, stop), curve[i].liquidity;
    if top <= cur {
      BuyGrows(curve, stop, i + 1, cur, left, out);
    } else {
      var maxIn := QuoteBetween(cur, top, liquidity, true);
      if left < maxIn {
        NextFromBIff(cur, liquidity, left, cur);
      } else if left > maxIn {
        BuyGrows(curve, stop, i + 1, top, left - maxIn, out + DeltaA(cur, top, liquidity, false).value);
      }
    }
  }

  /** Less input is quoted whenever more is, and buys no more and reaches no farther. */
  lemma {:induction false} BuyDominates(curve: seq<Point>, stop: u128, i: nat, cur: u128, l: u64, o: u64, l': u64, o': u64)
    requires i <= |curve| && 0 < cur && l <= l' && o <= o' && BuyFrom(curve, stop, i, cur, l', o').Some?
    ensures BuyFrom(curve, stop, i, cur, l, o).Some?
    ensures var t, t' := BuyFrom(curve, stop, i, cur, l, o).value, BuyFrom(curve, stop, i, cur, l', o').value;
      t.out - o <= t'.out - o' && t.price <= t'.price
    decreases |curve| - i
  {
    hide QuoteBetween, DeltaA, NextFromB;
    var top, liquidity := Min(curve[i].price, stop), curve[i].liquidity;
    if top <= cur {
      BuyDominates(curve, stop, i + 1, cur, l, o, l', o');
    } else {
      var maxIn := QuoteBetween(cur, top, liquidity, true);
      if l' < maxIn {
        BuyHasPrice(cur, top, liquidity, l);
        NextFromBMonotone(cur, liquidity, l, l');
        BaseOfLess(cur, NextFromB(cur, liquidity, l).value, NextFromB(cur, liquidity, l').value, liquidity);
      } else {
        var got := DeltaA(cur, top, liquidity, false).value;
        if l' > maxIn {
          BuyGrows(curve, stop, i + 1, top, l' - maxIn, o' + got);
        }
        if l < maxIn {
          BuyHasPrice(cur, top, liquidity, l);
          BaseOfLess(cur, NextFromB(cur, liquidity, l).value, top, liquidity);
        } else if l > maxIn {
          BuyDominates(curve, stop, i + 1, top, l - maxIn, o + got, l' - maxIn, o' + got);
        }
      }
    }
  }

  /** The first swap stopped inside segment `i`. */
  lemma BuySplitInside(curve: seq<Point>, stop: u128, i: nat, cur: u128, a: u64, o: u64, b: u64)
    requires i < |curve| && 0 < cur < Min(curve[i].price, stop) && a + b < Q64
    requires a < QuoteBetween(cur, Min(curve[i].price, stop), curve[i].liquidity, true)
    requires BuyFrom(curve, stop, i, cur, a, o).Some? && BuyFrom(curve, stop, i, cur, a + b, o).Some?
    requires BuyFrom(curve, stop, i, BuyFrom(curve, stop, i, cur, a, o).value.price, b, 0).Some?
    ensures var t1, t := BuyFrom(curve, stop, i, cur, a, o).value, BuyFrom(curve, stop, i, cur, a + b, o).value;
      var t2 := BuyFrom(curve, stop, i, t1.price, b, 0).value;
      t1.out + t2.out <= t.out && t2.price <= t.price
  {
    hide QuoteBetween, DeltaA, NextFromB;
    var top, liquidity := Min(curve[i].price, stop), curve[i].liquidity;
    var maxIn := QuoteBetween(cur, top, liquidity, true);
    BuyHasPrice(cur, top, liquidity, a);
    var n1 := NextFromB(cur, liquidity, a).value;
    var rest := QuoteBetween(n1, top, liquidity, true);
    BuyRestCosts(cur, top, liquidity, a);
    if b < rest {
      BuyHasPrice(n1, top, liquidity, b);
      var n2 := NextFromB(n1, liquidity, b).value;
      if a + b < maxIn {
        BuysReachFarther(cur, liquidity, a, b);
        BasePieces(cur, n1, n2, NextFromB(cur, liquidity, a + b).value, liquidity);
      } else {
        BasePieces(cur, n1, n2, top, liquidity);
        if a + b > maxIn {
          BuyGrows(curve, stop, i + 1, top, a + b - maxIn, o + DeltaA(cur, top, liquidity, false).value);
        }
      }
    } else {
      var g2, g := DeltaA(n1, top, liquidity, false).value, DeltaA(cur, top, liquidity, false).value;
      BasePieces(cur, n1, top, top, liquidity);
      if b == rest {
        if a + b > maxIn {
          BuyGrows(curve, stop, i + 1, top, a + b - maxIn, o + g);
        }
      } else {
        BuyDominates(curve, stop, i + 1, top, b - rest, g2, a + b - maxIn, o + g);
      }
    }
  }

  lemma {:induction false} BuySplit(curve: seq<Point>, stop: u128, i: nat, cur: u128, a: u64, o: u64, b: u64)
    requires i <= |curve| && Liquid(curve) && 0 < cur && a + b < Q64
    requires BuyFrom(curve, stop, i, cur, a, o).Some? && BuyFrom(curve, stop, i, cur, a + b, o).Some?
    requires BuyFrom(curve, stop, i, BuyFrom(curve, stop, i, cur, a, o).value.price, b, 0).Some?
    ensures var t1, t := BuyFrom(curve, stop, i, cur, a, o).value, BuyFrom(curve, stop, i, cur, a + b, o).value;
      var t2 := BuyFrom(curve, stop, i, t1.price, b, 0).value;
      t1.out + t2.out <= t.out && t2.price <= t.price
    decreases |curve| - i
  {
    hide QuoteBetween, DeltaA, NextFromB;
    var top, liquidity := Min(curve[i].price, stop), curve[i].liquidity;
    BuyGrows(curve, stop, i, cur, a, o);
    if top <= cur {
      BuySplit(curve, stop, i + 1, cur, a, o, b);
    } else {
      var maxIn := QuoteBetween(cur, top, liquidity, true);
      if a < maxIn {
        BuySplitInside(curve, stop, i, cur, a, o, b);
      } else {
        var total := o + DeltaA(cur, top, liquidity, false).value;
        if a > maxIn {
          BuyGrows(curve, stop, i + 1, top, a - maxIn, total);
          BuySplit(curve, stop, i + 1, top, a - maxIn, total, b);
        } else if b > 0 {
          BuyDominates(curve, stop, i + 1, top, b, 0, b, total);
        } else {
          BuyOfNothing(curve, stop, i + 1, top);
        }
      }
    }
  }

  lemma {:induction false} BuyOfNothing(curve: seq<Point>, stop: u128, i: nat, cur: u128)
    requires i <= |curve| && Liquid(curve) && BuyFrom(curve, stop, i, cur, 0, 0).Some?
    ensures BuyFrom(curve, stop, i, cur, 0, 0) == Some(Trade(0, cur))
    decreases |curve| - i
  {
    hide QuoteBetween, DeltaA, NextFromB;
    var top, liquidity := Min(curve[i].price, stop), curve[i].liquidity;
    if top <= cur {
      BuyOfNothing(curve, stop, i + 1, cur);
    } else {
      MulPos(liquidity, top - cur);
      QuoteBetweenIff(cur, top, liquidity, 0);
      NothingBuysNothing(cur, liquidity);
    }
  }

  lemma NothingBuysNothing(cur: u128, liquidity: u128)
    requires 0 < liquidity
    ensures NextFromB(cur, liquidity, 0) == Some(cur)
    ensures DeltaA(cur, cur, liquidity, false).Some? ==> DeltaA(cur, cur, liquidity, false) == Some(0)
  {
  }

  // ── sells ───────────────────────────────────────────────────────────────

  lemma {:induction false} SellFalls(curve: seq<Point>, start: u128, n: nat, cur: u128, left: u64, out: u64)
    requires (n == 0 || n < |curve|) && Liquid(curve) && 0 < cur && SellFrom(curve, start, n, cur, left, out).Some?
    ensures var t := SellFrom(curve, start, n, cur, left, out).value; out <= t.out && 0 < t.price <= cur
    decreases n
  {
    hide BaseBetween, DeltaB, NextFromA;
    if n == 0 {
      if left != 0 { NextFromAIff(cur, curve[0].liquidity, left, cur); }
    } else {
      var point, liquidity := curve[n - 1].price, curve[n].liquidity;
      if point >= cur {
        SellFalls(curve, start, n - 1, cur, left, out);
      } else {
        var maxIn := BaseBetween(point, cur, liquidity, true);
        if left < maxIn {
          NextFromAIff(cur, liquidity, left, cur);
        } else {
          SellFalls(curve, start, n - 1, point, left - maxIn, out + DeltaB(point, cur, liquidity, false).value);
        }
      }
    }
  }

  /** Less input is quoted whenever more is, and sells for no more and falls no farther. */
  lemma {:induction false} SellDominates(curve: seq<Point>, start: u128, n: nat, cur: u128, l: u64, o: u64, l': u64, o': u64)
    requires (n == 0 || n < |curve|) && Liquid(curve) && 0 < cur && l <= l' && o <= o'
      && SellFrom(curve, start, n, cur, l', o').Some?
    ensures SellFrom(curve, start, n, cur, l, o).Some?
    ensures var t, t' := SellFrom(curve, start, n, cur, l, o).value, SellFrom(curve, start, n, cur, l', o').value;
      t.out - o <= t'.out - o' && t'.price <= t.price
    decreases n
  {
    hide BaseBetween, DeltaB, NextFromA;
    SellFalls(curve, start, n, cur, l', o');
    if n == 0 {
      if l' != 0 {
        NextFromAMonotone(cur, curve[0].liquidity, l, l');
        NextFromAIff(cur, curve[0].liquidity, l, cur);
        QuoteOfLess(NextFromA(cur, curve[0].liquidity, l').value, NextFromA(cur, curve[0].liquidity, l).value, cur,
            curve[0].liquidity);
      }
    } else {
      var point, liquidity := curve[n - 1].price, curve[n].liquidity;
      if point >= cur {
        SellDominates(curve, start, n - 1, cur, l, o, l', o');
      } else {
        var maxIn := BaseBetween(point, cur, liquidity, true);
        if l' < maxIn {
          NextFromAMonotone(cur, liquidity, l, l');
          NextFromAIff(cur, liquidity, l, cur);
          QuoteOfLess(NextFromA(cur, liquidity, l').value, NextFromA(cur, liquidity, l).value, cur, liquidity);
        } else {
          var got := DeltaB(point, cur, liquidity, false).value;
          SellFalls(curve, start, n - 1, point, l' - maxIn, o' + got);
          if l < maxIn {
            SellLandsInside(point, cur, liquidity, l);
            QuoteOfLess(point, NextFromA(cur, liquidity, l).value, cur, liquidity);
          } else {
            SellDominates(curve, start, n - 1, point, l - maxIn, o + got, l' - maxIn, o' + got);
          }
        }
      }
    }
  }

  /** The first swap stopped inside the segment above point `n - 1`. */
  lemma SellSplitInside(curve: seq<Point>, start: u128, n: nat, cur: u128, a: u64, o: u64, b: u64)
    requires 0 < n < |curve| && Liquid(curve) && 0 < curve[n - 1].price < cur && a + b < Q64
    requires a < BaseBetween(curve[n - 1].price, cur, curve[n].liquidity, true)
    requires SellFrom(curve, start, n, cur, a, o).Some? && SellFrom(curve, start, n, cur, a + b, o).Some?
    requires SellFrom(curve, start, n, SellFrom(curve, start, n, cur, a, o).value.price, b, 0).Some?
    ensures var t1, t := SellFrom(curve, start, n, cur, a, o).value, SellFrom(curve, start, n, cur, a + b, o).value;
      var t2 := SellFrom(curve, start, n, t1.price, b, 0).value;
      t1.out + t2.out <= t.out && t.price <= t2.price
  {
    hide BaseBetween, DeltaB, NextFromA;
    var point, liquidity := curve[n - 1].price, curve[n].liquidity;
    var maxIn := BaseBetween(point, cur, liquidity, true);
    SellRestCosts(point, cur, liquidity, a);
    SellLandsInside(point, cur, liquidity, a);
    var n1 := NextFromA(cur, liquidity, a).value;
    var rest := BaseBetween(point, n1, liquidity, true);
    if b < rest {
      SellLandsInside(point, n1, liquidity, b);
      var n2 := NextFromA(n1, liquidity, b).value;
      SellsReachFarther(cur, liquidity, a, b);
      if a + b < maxIn {
        QuotePieces(NextFromA(cur, liquidity, a + b).value, n2, n1, cur, liquidity);
      } else {
        QuotePieces(point, n2, n1, cur, liquidity);
        SellFalls(curve, start, n - 1, point, a + b - maxIn, o + DeltaB(point, cur, liquidity, false).value);
      }
    } else {
      var g2, g := DeltaB(point, n1, liquidity, false).value, DeltaB(point, cur, liquidity, false).value;
      QuotePieces(point, point, n1, cur, liquidity);
      SellDominates(curve, start, n - 1, point, b - rest, g2, a + b - maxIn, o + g);
    }
  }

  lemma SellSplitLast(curve: seq<Point>, start: u128, cur: u128, a: u64, o: u64, b: u64)
    requires Liquid(curve) && 0 < cur && a + b < Q64
    requires SellBelow(curve, start, cur, a, o).Some? && SellBelow(curve, start, cur, a + b, o).Some?
    requires SellBelow(curve, start, SellBelow(curve, start, cur, a, o).value.price, b, 0).Some?
    ensures var t1, t := SellBelow(curve, start, cur, a, o).value, SellBelow(curve, start, cur, a + b, o).value;
      var t2 := SellBelow(curve, start, t1.price, b, 0).value;
      t1.out + t2.out <= t.out && t.price <= t2.price
  {
    hide DeltaB, NextFromA;
    if a != 0 && b != 0 {
      var liquidity := curve[0].liquidity;
      SellsReachFarther(cur, liquidity, a, b);
      NextFromAIff(cur, liquidity, a, cur);
      var n1 := NextFromA(cur, liquidity, a).value;
      NextFromAIff(n1, liquidity, b, n1);
      QuotePieces(NextFromA(cur, liquidity, a + b).value, NextFromA(n1, liquidity, b).value, n1, cur, liquidity);
    }
  }

  lemma {:induction false} SellSplit(curve: seq<Point>, start: u128, n: nat, cur: u128, a: u64, o: u64, b: u64)
    requires (n == 0 || n < |curve|) && Liquid(curve) && 0 < cur && a + b < Q64
    requires SellFrom(curve, start, n, cur, a, o).Some? && SellFrom(curve, start, n, cur, a + b, o).Some?
    requires SellFrom(curve, start, n, SellFrom(curve, start, n, cur, a, o).value.price, b, 0).Some?
    ensures var t1, t := SellFrom(curve, start, n, cur, a, o).value, SellFrom(curve, start, n, cur, a + b, o).value;
      var t2 := SellFrom(curve, start, n, t1.price, b, 0).value;
      t1.out + t2.out <= t.out && t.price <= t2.price
    decreases n
  {
    hide BaseBetween, DeltaB, NextFromA, SellBelow;
    SellFalls(curve, start, n, cur, a, o);
    if n == 0 {
      SellSplitLast(curve, start, cur, a, o, b);
    } else {
      var point, liquidity := curve[n - 1].price, curve[n].liquidity;
      if point >= cur {
        SellSplit(curve, start, n - 1, cur, a, o, b);
      } else {
        var maxIn := BaseBetween(point, cur, liquidity, true);
        if a < maxIn {
          SellSplitInside(curve, start, n, cur, a, o, b);
        } else {
          var total := o + DeltaB(point, cur, liquidity, false).value;
          SellFalls(curve, start, n - 1, point, a - maxIn, total);
          SellSplit(curve, start, n - 1, point, a - maxIn, total, b);
        }
      }
    }
  }

  // ── with the fee ────────────────────────────────────────────────────────

  /** The raw walks: two consecutive ones never trade for more than one of the sum. */
  lemma SplitWalkNeverPaysMore(config: Config, buy: bool, price: u128, a: u64, b: u64)
    requires Liquid(config.curve) && 0 < price && a + b < Q64
    requires RawWalk(config, buy, price, a).Some? && RawWalk(config, buy, price, a + b).Some?
    requires RawWalk(config, buy, RawWalk(config, buy, price, a).value.price, b).Some?
    ensures var t1, t := RawWalk(config, buy, price, a).value, RawWalk(config, buy, price, a + b).value;
      var t2 := RawWalk(config, buy, t1.price, b).value;
      t1.out + t2.out <= t.out && (if buy then t2.price <= t.price else t.price <= t2.price)
  {
    hide BuyFrom, SellFrom;
    if buy {
      BuySplit(config.curve, Ceiling(config), 0, price, a, 0, b);
    } else {
      SellSplit(config.curve, config.startPrice, Lowest(config.curve), price, a, 0, b);
    }
  }

  function RawWalk(config: Config, buy: bool, price: u128, amount: u64): Option<Trade> {
    if buy then QuoteToBase(config, price, amount) else BaseToQuote(config, price, amount)
  }

  lemma LessIsQuoted(config: Config, buy: bool, price: u128, a: u64, b: u64)
    requires Liquid(config.curve) && 0 < price && a <= b && RawWalk(config, buy, price, b).Some?
    ensures RawWalk(config, buy, price, a).Some?
      && RawWalk(config, buy, price, a).value.out <= RawWalk(config, buy, price, b).value.out
  {
    hide BuyFrom, SellFrom;
    if buy {
      BuyDominates(config.curve, Ceiling(config), 0, price, a, 0, b, 0);
    } else {
      SellDominates(config.curve, config.startPrice, Lowest(config.curve), price, a, 0, b, 0);
    }
  }

  /** Net of fees as well: with the fee unchanged between them, two consecutive swaps of `a` and `b` never pay out
      more than one swap of `a + b`, in either direction and with the fee on either side. */
  lemma SplitSwapNeverPaysMore(pool: Pool, buy: bool, a: u64, b: u64, point: u64)
    requires Liquid(pool.config.curve) && a + b < Q64
    requires SwapExactIn(pool, buy, a, point).Some? && Settle(pool, buy, a, SwapExactIn(pool, buy, a, point).value).Some?
    requires SwapExactIn(Settle(pool, buy, a, SwapExactIn(pool, buy, a, point).value).value, buy, b, point).Some?
    requires SwapExactIn(pool, buy, a + b, point).Some?
    ensures var q1, q := SwapExactIn(pool, buy, a, point).value, SwapExactIn(pool, buy, a + b, point).value;
      var q2 := SwapExactIn(Settle(pool, buy, a, q1).value, buy, b, point).value;
      q1.amountOut + q2.amountOut <= q.amountOut
  {
    hide QuoteToBase, BaseToQuote, FeeOf, VariableFeeNumerator;
    var q1 := SwapExactIn(pool, buy, a, point).value;
    var pool' := Settle(pool, buy, a, q1).value;
    var f := FeeNumerator(pool, point, buy).value;
    assert FeeNumerator(pool', point, buy) == Some(f) by { SameFee(pool, pool', point, buy); }
    var e1, e2, e := EntersCurve(pool, buy, a, f).value, EntersCurve(pool', buy, b, f).value,
        EntersCurve(pool, buy, a + b, f).value;
    NetOfParts(a, b, f);
    var t := RawWalk(pool.config, buy, pool.price, e).value;
    LessIsQuoted(pool.config, buy, pool.price, e1 + e2, e);
    SplitWalkNeverPaysMore(pool.config, buy, pool.price, e1, e2);
    if !FeeOnInput(pool, buy) {
      var x, y := RawWalk(pool.config, buy, pool.price, e1).value.out, RawWalk(pool.config, buy, q1.price, e2).value.out;
      NetOfParts(x, y, f);
      NetMonotone(x + y, t.out, f);
    }
  }

  /** The fee depends on neither the price nor the reserve. */
  lemma SameFee(p: Pool, q: Pool, point: u64, buy: bool)
    requires q == p.(quoteReserve := q.quoteReserve, price := q.price)
    ensures FeeNumerator(q, point, buy) == FeeNumerator(p, point, buy)
  {
  }
}

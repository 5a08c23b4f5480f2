/** A DBC quote, written out: its fee from the config's own fields, and its walk as a book of exact pieces. */
module DbcLedger {
  import opened Numbers
  import FeeSchedules
  import opened SqrtCurve
  import opened DbcCurve

  // ── the fee ─────────────────────────────────────────────────────────────

  function SinceActivation(pool: Pool, point: u64): nat {
    if point <= pool.activationPoint then 0 else point - pool.activationPoint
  }

  /** Whole periods since activation, at most the schedule's number of them. */
  function Periods(pool: Pool, point: u64): nat
    requires pool.config.secondFactor != 0
  {
    Min(SinceActivation(pool, point) / pool.config.secondFactor, pool.config.firstFactor)
  }

  /** The base fee: the cliff, less a fixed amount a period in mode 0, decayed by a fixed part a period in mode 1. */
  ghost predicate BaseFee(pool: Pool, point: u64, base: nat) {
    var c := pool.config;
    && c.baseFeeMode <= 2
    && if c.baseFeeMode == 2 || c.secondFactor == 0 then base == c.cliff
       else if c.baseFeeMode == 0 then base == c.cliff - Periods(pool, point) * c.thirdFactor
       else FeeSchedules.NearDecayed(base, c.cliff, c.thirdFactor, Periods(pool, point))
  }

  /** `rate` per 10⁹ pays the base fee and, with a dynamic fee, `control·(volatility·binStep)²/10¹¹` on top of it. */
  predicate CoversFees(pool: Pool, base: nat, rate: nat) {
    var c, crossed := pool.config, pool.volatility * pool.config.binStep;
    base <= rate && (c.dynamicFee ==> crossed * crossed * c.variableFeeControl <= (rate - base) * 100_000_000_000)
  }

  /** A rate of at most 99 %: below that the least that pays both fees. */
  ghost predicate LeastRate(pool: Pool, base: nat, rate: nat) {
    rate <= 990_000_000 && forall x: nat | x < 990_000_000 :: rate <= x <==> CoversFees(pool, base, x)
  }

  /** A rate limiter's window, in which buys are not quoted. */
  predicate Limited(pool: Pool, point: u64) {
    var c := pool.config;
    c.baseFeeMode == 2 && c.thirdFactor > 0 && c.firstFactor > 0 && SinceActivation(pool, point) <= c.secondFactor
  }

  lemma VariableIsLeast(pool: Pool, base: nat, x: nat)
    requires VariableFeeNumerator(pool).Some? && x < 990_000_000
    ensures base + VariableFeeNumerator(pool).value <= x <==> CoversFees(pool, base, x)
  {
    if pool.config.dynamicFee {
      var crossed := pool.volatility * pool.config.binStep;
      MulNonneg(pool.volatility, pool.config.binStep);
      MulNonneg(crossed, crossed);
      MulNonneg(crossed * crossed, pool.config.variableFeeControl);
      PaddedIff(crossed * crossed * pool.config.variableFeeControl, 100_000_000_000, x - base);
    }
  }

  lemma BaseIsRaw(pool: Pool, point: u64, buy: bool)
    requires BaseFeeNumerator(pool, point, buy).Some?
    ensures BaseFee(pool, point, BaseFeeNumerator(pool, point, buy).value) && !(buy && Limited(pool, point))
  {
    hide FeeSchedules.ExponentialFee, FeeSchedules.NearDecayed;
    var c := pool.config;
    if c.baseFeeMode <= 1 && c.secondFactor != 0 {
      FloorIff(SinceActivation(pool, point), c.secondFactor, 0);
      if c.baseFeeMode == 1 {
        FeeSchedules.ExponentialIsNear(c.cliff, c.thirdFactor, Periods(pool, point));
      }
    }
  }

  /** The rate of every quote is the base fee and the least variable fee of the pool's own fields, capped at 99 %. */
  lemma RateIsLeast(pool: Pool, point: u64, buy: bool) returns (base: nat)
    requires FeeNumerator(pool, point, buy).Some?
    ensures BaseFee(pool, point, base) && LeastRate(pool, base, FeeNumerator(pool, point, buy).value)
    ensures !(buy && Limited(pool, point))
  {
    hide BaseFeeNumerator, VariableFeeNumerator, BaseFee, CoversFees;
    BaseIsRaw(pool, point, buy);
    base := BaseFeeNumerator(pool, point, buy).value;
    forall x: nat | x < 990_000_000
      ensures FeeNumerator(pool, point, buy).value <= x <==> CoversFees(pool, base, x)
    {
      VariableIsLeast(pool, base, x);
    }
  }

  // ── the pieces of a walk ────────────────────────────────────────────────

  /** A stretch of one segment, named by its point. */
  datatype Piece = Piece(segment: nat, from: nat, to: nat, paid: nat, got: nat)

  function TotalPaid(book: seq<Piece>): nat {
    if book == [] then 0 else book[0].paid + TotalPaid(book[1..])
  }

  function TotalGot(book: seq<Piece>): nat {
    if book == [] then 0 else book[0].got + TotalGot(book[1..])
  }

  /** The first segment that ends above `price`. */
  predicate SegmentAbove(curve: seq<Point>, price: nat, k: nat) {
    k < |curve| && price < curve[k].price && forall j | 0 <= j < k :: curve[j].price <= price
  }

  /** The last segment that begins below `price`, or the first one. */
  predicate SegmentBelow(curve: seq<Point>, price: nat, k: nat) {
    k < |curve| && (0 < k ==> curve[k - 1].price < price) && forall j | k <= j < |curve| - 1 :: price <= curve[j].price
  }

  /** A piece of a buy receives the most base the stretch holds. Where `left` covers the segment up to `top` it pays the
      least that does; otherwise it pays all of `left`, for the highest price that covers. */
  ghost predicate ExactBuy(liquidity: nat, top: nat, left: nat, p: Piece) {
    && p.from <= p.to <= top && MostBase(liquidity, p.from, p.to, p.got)
    && if QuoteCovers(liquidity, p.from, top, left) then p.to == top && LeastQuote(liquidity, p.from, top, p.paid)
       else p.paid == left && HighestCovered(liquidity, p.from, left, p.to)
  }

  /** A piece of a sell, the other way down to `bottom`. */
  ghost predicate ExactSell(liquidity: nat, bottom: nat, left: nat, p: Piece) {
    && bottom <= p.to <= p.from && MostQuote(liquidity, p.to, p.from, p.got)
    && if BaseCovers(liquidity, bottom, p.from, left) then p.to == bottom && LeastBase(liquidity, bottom, p.from, p.paid)
       else p.paid == left && LowestCovered(liquidity, p.from, left, p.to)
  }

  /** `book` spends exactly `left` from price `cur` up, never past `stop`, and ends at `end`. */
  ghost predicate Bought(curve: seq<Point>, stop: nat, cur: nat, left: nat, book: seq<Piece>, end: nat)
    decreases |book|
  {
    && book != [] && cur < stop
    && var p := book[0];
       && p.from == cur && SegmentAbove(curve, cur, p.segment)
       && ExactBuy(curve[p.segment].liquidity, Min(curve[p.segment].price, stop), left, p)
       && if p.paid == left then |book| == 1 && end == p.to
          else p.paid < left && p.to < stop && Bought(curve, stop, p.to, left - p.paid, book[1..], end)
  }

  /** `book` sells exactly `left` from price `cur` down. Below the lowest point it pays in all that is left, and stays at or
      above `start`. */
  ghost predicate Sold(curve: seq<Point>, start: nat, cur: nat, left: nat, book: seq<Piece>, end: nat)
    decreases |book|
  {
    if book == [] then left == 0 && end == cur && forall j | 0 <= j < |curve| - 1 :: cur <= curve[j].price
    else
      var p := book[0];
      && p.from == cur && SegmentBelow(curve, cur, p.segment)
      && var liquidity := curve[p.segment].liquidity;
         if p.segment == 0 then
           && 0 < left && |book| == 1 && end == p.to && start <= p.to <= cur && p.paid == left
           && LowestCovered(liquidity, cur, left, p.to) && MostQuote(liquidity, p.to, cur, p.got)
         else
           var bottom := curve[p.segment - 1].price;
           && 0 < bottom && ExactSell(liquidity, bottom, left, p)
           && if bottom < p.to then |book| == 1 && end == p.to
              else p.paid <= left && Sold(curve, start, bottom, left - p.paid, book[1..], end)
  }

  lemma FullBuy(cur: u128, top: u128, liquidity: u128, left: u64, k: nat, got: u64) returns (p: Piece)
    requires 0 < cur < top && QuoteBetween(cur, top, liquidity, true) <= left && DeltaA(cur, top, liquidity, false) == Some(got)
    ensures p == Piece(k, cur, top, QuoteBetween(cur, top, liquidity, true), got) && ExactBuy(liquidity, top, left, p)
  {
    hide QuoteBetween, DeltaA, MostBase, LeastQuote, QuoteCovers;
    p := Piece(k, cur, top, QuoteBetween(cur, top, liquidity, true), got);
    QuoteBetweenIff(cur, top, liquidity, left);
    BaseIsMost(cur, top, liquidity, got);
    QuoteIsLeast(cur, top, liquidity);
  }

  lemma PartBuy(cur: u128, top: u128, liquidity: u128, left: u64, k: nat, next: u128, got: u64) returns (p: Piece)
    requires 0 < cur < top && left < QuoteBetween(cur, top, liquidity, true)
    requires NextFromB(cur, liquidity, left) == Some(next) && DeltaA(cur, next, liquidity, false) == Some(got)
    ensures p == Piece(k, cur, next, left, got) && next < top && ExactBuy(liquidity, top, left, p)
  {
    hide QuoteBetween, DeltaA, MostBase, QuoteCovers, NextFromB, HighestCovered;
    p := Piece(k, cur, next, left, got);
    QuoteBetweenIff(cur, top, liquidity, left);
    BuyLandsInside(cur, top, liquidity, left);
    BaseIsMost(cur, next, liquidity, got);
    SomeLiquidity(cur, top, liquidity, left);
    BuyReaches(cur, liquidity, left, next);
  }

  lemma SomeLiquidity(cur: u128, top: u128, liquidity: u128, left: u64)
    requires cur < top && left < QuoteBetween(cur, top, liquidity, true)
    ensures 0 < liquidity
  {
  }

  lemma {:induction false} BuyIsBooked(curve: seq<Point>, stop: u128, i: nat, cur: u128, left: u64, out: u64)
      returns (book: seq<Piece>)
    requires i <= |curve| && 0 < cur && BuyFrom(curve, stop, i, cur, left, out).Some?
    requires forall j | 0 <= j < i :: curve[j].price <= cur || stop <= cur
    ensures var t := BuyFrom(curve, stop, i, cur, left, out).value;
      Bought(curve, stop, cur, left, book, t.price) && TotalPaid(book) == left && TotalGot(book) == t.out - out
    decreases |curve| - i
  {
    hide QuoteBetween, DeltaA, NextFromB, ExactBuy;
    var top, liquidity := Min(curve[i].price, stop), curve[i].liquidity;
    if top <= cur {
      book := BuyIsBooked(curve, stop, i + 1, cur, left, out);
    } else {
      var maxIn := QuoteBetween(cur, top, liquidity, true);
      if left < maxIn {
        var next := NextFromB(cur, liquidity, left).value;
        var p := PartBuy(cur, top, liquidity, left, i, next, DeltaA(cur, next, liquidity, false).value);
        book := [p];
      } else {
        var got := DeltaA(cur, top, liquidity, false).value;
        var p := FullBuy(cur, top, liquidity, left, i, got);
        book := [p];
        if left != maxIn {
          var rest := BuyIsBooked(curve, stop, i + 1, top, left - maxIn, out + got);
          book := [p] + rest;
          assert book[1..] == rest;
        }
      }
    }
  }

  lemma FullSell(point: u128, cur: u128, liquidity: u128, left: u64, k: nat, got: u64) returns (p: Piece)
    requires 0 < point < cur && BaseBetween(point, cur, liquidity, true) <= left
      && DeltaB(point, cur, liquidity, false) == Some(got)
    ensures p == Piece(k, cur, point, BaseBetween(point, cur, liquidity, true), got) && ExactSell(liquidity, point, left, p)
  {
    hide BaseBetween, DeltaB, MostQuote, LeastBase, BaseCovers;
    p := Piece(k, cur, point, BaseBetween(point, cur, liquidity, true), got);
    BaseBetweenIff(point, cur, liquidity, left);
    QuoteIsMost(point, cur, liquidity, got);
    BaseIsLeast(point, cur, liquidity);
  }

  lemma PartSell(point: u128, cur: u128, liquidity: u128, left: u64, k: nat, next: u128, got: u64) returns (p: Piece)
    requires 0 < point < cur && left < BaseBetween(point, cur, liquidity, true)
    requires NextFromA(cur, liquidity, left) == Some(next) && DeltaB(next, cur, liquidity, false) == Some(got)
    ensures p == Piece(k, cur, next, left, got) && point < next && ExactSell(liquidity, point, left, p)
  {
    hide BaseBetween, DeltaB, MostQuote, BaseCovers, NextFromA, LowestCovered;
    p := Piece(k, cur, next, left, got);
    BaseBetweenIff(point, cur, liquidity, left);
    HasLiquidity(point, cur, liquidity, left);
    SellLandsInside(point, cur, liquidity, left);
    QuoteIsMost(next, cur, liquidity, got);
    SellReaches(cur, liquidity, left, next);
  }

  lemma HasLiquidity(point: u128, cur: u128, liquidity: u128, left: u64)
    requires 0 < point < cur && left < BaseBetween(point, cur, liquidity, true)
    ensures 0 < liquidity
  {
  }

  /** Without liquidity there is nothing to cover, down to price 0. */
  lemma LowestPrice(cur: u128, liquidity: u128, left: u64, next: u128)
    requires 0 < cur && NextFromA(cur, liquidity, left) == Some(next)
    ensures next <= cur && LowestCovered(liquidity, cur, left, next)
  {
    hide NextFromA, BaseCovers;
    if 0 < liquidity {
      SellReaches(cur, liquidity, left, next);
    } else {
      NoLiquidity(cur, left);
      forall q: nat | q <= cur ensures BaseCovers(0, q, cur, left) {
        NothingCovered(q, cur, left);
      }
    }
  }

  lemma NoLiquidity(cur: u128, left: u64)
    requires NextFromA(cur, 0, left).Some?
    ensures NextFromA(cur, 0, left) == Some(0)
  {
  }

  lemma NothingCovered(q: nat, cur: nat, left: nat)
    ensures BaseCovers(0, q, cur, left)
  {
    MulNonneg(q, cur);
    MulNonneg(left, q * cur);
  }

  lemma {:induction false} SellIsBooked(curve: seq<Point>, start: u128, n: nat, cur: u128, left: u64, out: u64)
      returns (book: seq<Piece>)
    requires (n == 0 || n < |curve|) && 0 < cur && SellFrom(curve, start, n, cur, left, out).Some?
    requires forall j | n <= j < |curve| - 1 :: cur <= curve[j].price
    ensures var t := SellFrom(curve, start, n, cur, left, out).value;
      Sold(curve, start, cur, left, book, t.price) && TotalPaid(book) == left && TotalGot(book) == t.out - out
    decreases n
  {
    hide BaseBetween, DeltaB, NextFromA, ExactSell, Sold, SellBelow, TotalPaid, TotalGot;
    book := [];
    if n == 0 {
      if left != 0 {
        var p := BottomSell(curve, start, cur, left, out);
        book := [p];
        OnePiece(p);
      } else {
        NothingSold(curve, start, cur, out);
      }
    } else {
      var point, liquidity := curve[n - 1].price, curve[n].liquidity;
      if point >= cur {
        book := SellIsBooked(curve, start, n - 1, cur, left, out);
      } else {
        var maxIn := BaseBetween(point, cur, liquidity, true);
        if left < maxIn {
          var next := NextFromA(cur, liquidity, left).value;
          var p := PartSell(point, cur, liquidity, left, n, next, DeltaB(next, cur, liquidity, false).value);
          book := [p];
          OnePiece(p);
          SoldFirst(curve, start, left, p, [], next);
          assert [p] + [] == [p];
        } else {
          var got := DeltaB(point, cur, liquidity, false).value;
          var p := FullSell(point, cur, liquidity, left, n, got);
          var rest := SellIsBooked(curve, start, n - 1, point, left - maxIn, out + got);
          book := [p] + rest;
          SoldFirst(curve, start, left, p, rest, SellFrom(curve, start, n, cur, left, out).value.price);
        }
      }
    }
  }

  lemma OnePiece(p: Piece)
    ensures TotalPaid([p]) == p.paid && TotalGot([p]) == p.got
  {
    assert [p][1..] == [];
  }

  lemma NothingSold(curve: seq<Point>, start: u128, cur: u128, out: u64)
    requires forall j | 0 <= j < |curve| - 1 :: cur <= curve[j].price
    ensures SellBelow(curve, start, cur, 0, out) == Some(Trade(out, cur)) && Sold(curve, start, cur, 0, [], cur)
    ensures TotalPaid([]) == 0 && TotalGot([]) == 0
  {
  }

  /** A piece above the lowest segment, and what follows it where it reached its bottom. */
  lemma SoldFirst(curve: seq<Point>, start: nat, left: nat, p: Piece, rest: seq<Piece>, end: nat)
    requires SegmentBelow(curve, p.from, p.segment) && 0 < p.segment && 0 < curve[p.segment - 1].price
    requires ExactSell(curve[p.segment].liquidity, curve[p.segment - 1].price, left, p)
    requires if curve[p.segment - 1].price < p.to then rest == [] && end == p.to
             else p.to == curve[p.segment - 1].price && p.paid <= left && Sold(curve, start, p.to, left - p.paid, rest, end)
    ensures Sold(curve, start, p.from, left, [p] + rest, end)
    ensures TotalPaid([p] + rest) == p.paid + TotalPaid(rest) && TotalGot([p] + rest) == p.got + TotalGot(rest)
  {
    hide ExactSell, SegmentBelow;
    assert ([p] + rest)[1..] == rest;
  }

  lemma BottomSell(curve: seq<Point>, start: u128, cur: u128, left: u64, out: u64) returns (p: Piece)
    requires 0 < cur && 0 < left && SellBelow(curve, start, cur, left, out).Some?
    requires forall j | 0 <= j < |curve| - 1 :: cur <= curve[j].price
    ensures var t := SellBelow(curve, start, cur, left, out).value;
      p.paid == left && p.got == t.out - out && Sold(curve, start, cur, left, [p], t.price)
  {
    hide DeltaB, NextFromA, LowestCovered, MostQuote;
    var t, liquidity := SellBelow(curve, start, cur, left, out).value, curve[0].liquidity;
    p := Piece(0, cur, t.price, left, t.out - out);
    LowestPrice(cur, liquidity, left, t.price);
    QuoteIsMost(t.price, cur, liquidity, p.got);
  }

  // ── every such book is a walk ───────────────────────────────────────────

  lemma BuyPieceIs(cur: u128, top: u128, liquidity: u128, left: u64, p: Piece)
    requires 0 < cur < top && p.from == cur && p.got <= U64_MAX && ExactBuy(liquidity, top, left, p)
    ensures DeltaA(cur, p.to, liquidity, false) == Some(p.got)
    ensures if QuoteBetween(cur, top, liquidity, true) <= left then
        p.to == top && p.paid == QuoteBetween(cur, top, liquidity, true)
      else p.to < top && p.paid == left && NextFromB(cur, liquidity, left) == Some(p.to)
  {
    hide QuoteBetween, DeltaA, MostBase, QuoteCovers, NextFromB, HighestCovered;
    var maxIn := QuoteBetween(cur, top, liquidity, true);
    QuoteBetweenIff(cur, top, liquidity, left);
    BaseIsMost(cur, p.to, liquidity, p.got);
    if maxIn <= left {
      QuoteBetweenIff(cur, top, liquidity, maxIn);
      QuoteBetweenIff(cur, top, liquidity, p.paid);
      assert QuoteCovers(liquidity, cur, top, maxIn) && QuoteCovers(liquidity, cur, top, p.paid);
    } else {
      SomeLiquidity(cur, top, liquidity, left);
      BuyReaches(cur, liquidity, left, p.to);
      BuyLandsInside(cur, top, liquidity, left);
    }
  }

  lemma {:induction false} BookIsBuy(curve: seq<Point>, stop: u128, i: nat, cur: u128, left: u64, out: u64,
      book: seq<Piece>, end: u128)
    requires i <= |curve| && 0 < cur && Bought(curve, stop, cur, left, book, end) && out + TotalGot(book) <= U64_MAX
    requires forall j | 0 <= j < i :: curve[j].price <= cur
    ensures BuyFrom(curve, stop, i, cur, left, out) == Some(Trade(out + TotalGot(book), end))
    decreases |curve| - i
  {
    hide QuoteBetween, DeltaA, NextFromB, ExactBuy;
    var p := book[0];
    if i < p.segment {
      BookIsBuy(curve, stop, i + 1, cur, left, out, book, end);
    } else {
      var top := Min(curve[i].price, stop);
      BuyPieceIs(cur, top, curve[i].liquidity, left, p);
      if p.paid != left {
        BookIsBuy(curve, stop, i + 1, top, left - p.paid, out + p.got, book[1..], end);
      }
    }
  }

  lemma SellPieceIs(bottom: u128, cur: u128, liquidity: u128, left: u64, p: Piece)
    requires 0 < bottom < cur && p.from == cur && p.got <= U64_MAX && ExactSell(liquidity, bottom, left, p)
    ensures DeltaB(p.to, cur, liquidity, false) == Some(p.got)
    ensures if BaseBetween(bottom, cur, liquidity, true) <= left then
        p.to == bottom && p.paid == BaseBetween(bottom, cur, liquidity, true)
      else bottom < p.to && p.paid == left && NextFromA(cur, liquidity, left) == Some(p.to)
  {
    hide BaseBetween, DeltaB, MostQuote, BaseCovers, NextFromA;
    var maxIn := BaseBetween(bottom, cur, liquidity, true);
    BaseBetweenIff(bottom, cur, liquidity, left);
    QuoteIsMost(p.to, cur, liquidity, p.got);
    if maxIn <= left {
      BaseBetweenIff(bottom, cur, liquidity, maxIn);
      BaseBetweenIff(bottom, cur, liquidity, p.paid);
      assert BaseCovers(liquidity, bottom, cur, maxIn) && BaseCovers(liquidity, bottom, cur, p.paid);
    } else {
      HasLiquidity(bottom, cur, liquidity, left);
      SellReaches(cur, liquidity, left, p.to);
    }
  }

  lemma BottomPieceIs(cur: u128, liquidity: u128, left: u64, p: Piece)
    requires 0 < cur && 0 < left && p.to <= cur && p.got <= U64_MAX
    requires LowestCovered(liquidity, cur, left, p.to) && MostQuote(liquidity, p.to, cur, p.got)
    ensures NextFromA(cur, liquidity, left) == Some(p.to) && DeltaB(p.to, cur, liquidity, false) == Some(p.got)
  {
    hide NextFromA, DeltaB, MostQuote, BaseCovers;
    QuoteIsMost(p.to, cur, liquidity, p.got);
    if 0 < liquidity {
      SellReaches(cur, liquidity, left, p.to);
    } else {
      NothingCovered(0, cur, left);
      NothingHeld(cur, left);
    }
  }

  lemma NothingHeld(cur: u128, left: u64)
    requires 0 < cur && 0 < left
    ensures NextFromA(cur, 0, left) == Some(0)
  {
    MulPos(left, cur);
  }

  lemma {:induction false} BookIsSell(curve: seq<Point>, start: u128, n: nat, cur: u128, left: u64, out: u64,
      book: seq<Piece>, end: u128)
    requires (n == 0 || n < |curve|) && 0 < cur && Sold(curve, start, cur, left, book, end) && out + TotalGot(book) <= U64_MAX
    requires forall j | n <= j < |curve| - 1 :: cur <= curve[j].price
    ensures SellFrom(curve, start, n, cur, left, out) == Some(Trade(out + TotalGot(book), end))
    decreases n
  {
    hide BaseBetween, DeltaB, NextFromA, ExactSell, LowestCovered, MostQuote;
    if book == [] {
      if n > 0 {
        BookIsSell(curve, start, n - 1, cur, left, out, book, end);
      }
    } else if book[0].segment < n {
      BookIsSell(curve, start, n - 1, cur, left, out, book, end);
    } else {
      var p := book[0];
      var liquidity := curve[p.segment].liquidity;
      if n == 0 {
        BottomPieceIs(cur, liquidity, left, p);
      } else {
        var bottom := curve[n - 1].price;
        SellPieceIs(bottom, cur, liquidity, left, p);
        if p.to == bottom {
          BookIsSell(curve, start, n - 1, bottom, left - p.paid, out + p.got, book[1..], end);
        }
      }
    }
  }

  // ── the quote ───────────────────────────────────────────────────────────

  /** The pool's own fields give a fee: a known mode outside the limiter's window, a schedule that stays at or above zero,
      a decay between nothing and 100 %, and a volatility whose square fits 256 bits. */
  predicate HasFee(pool: Pool, point: u64, buy: bool) {
    var c, crossed := pool.config, pool.volatility * pool.config.binStep;
    && c.baseFeeMode <= 2 && !(buy && Limited(pool, point))
    && (c.baseFeeMode == 0 && c.secondFactor != 0 ==> Periods(pool, point) * c.thirdFactor <= c.cliff)
    && (c.baseFeeMode == 1 && c.secondFactor != 0 && Periods(pool, point) != 0 ==> 1 <= c.thirdFactor <= 10_000)
    && (c.dynamicFee ==> crossed * crossed < Q256 && crossed * crossed * c.variableFeeControl + 99_999_999_999 < Q256)
  }

  lemma FeeExistsIff(pool: Pool, point: u64, buy: bool)
    ensures FeeNumerator(pool, point, buy).Some? <==> HasFee(pool, point, buy)
  {
    hide FeeSchedules.ExponentialFee;
    var c := pool.config;
    if c.baseFeeMode <= 1 && c.secondFactor != 0 {
      FloorIff(SinceActivation(pool, point), c.secondFactor, 0);
      MulNonneg(Periods(pool, point), c.thirdFactor);
      FeeSchedules.DbcFeeExists(c.cliff, c.thirdFactor, Periods(pool, point));
    }
  }

  /** The quote in full, at a given rate: the least fee, on the input exactly for a buy in mode 0; the rest traded as a book
      of exact pieces of the curve's own segments, up to the migration price or down to the start price; and never where
      the pool is complete, not yet active, would reach its threshold, or would pay nothing. */
  ghost predicate IsQuote(pool: Pool, buy: bool, amount: u64, point: u64, rate: nat, book: seq<Piece>, q: Quote) {
    var c, onInput := pool.config, buy && pool.config.collectFeeMode == 0;
    var entered, gross := amount - (if onInput then q.fee else 0), q.amountOut + if onInput then 0 else q.fee;
    && 0 < amount && c.curve != [] && pool.price != 0 && pool.activationPoint <= point
    && !pool.migrated && pool.quoteReserve < c.threshold && (buy ==> pool.quoteReserve + entered < c.threshold)
    && LeastMultiple(q.fee, (if onInput then amount else gross) * rate, 1_000_000_000)
    && 0 < q.amountOut && gross <= U64_MAX && 0 <= entered && TotalPaid(book) == entered && TotalGot(book) == gross
    && if buy then
         Bought(c.curve, if c.migrationPrice == 0 then Q128 - 1 else c.migrationPrice, pool.price, entered, book, q.price)
       else Sold(c.curve, c.startPrice, pool.price, entered, book, q.price)
  }

  /** What the walk must give for a quote `q` at `rate`. */
  predicate Walks(pool: Pool, buy: bool, amount: u64, point: u64, rate: u64, q: Quote) {
    var c, onInput := pool.config, buy && pool.config.collectFeeMode == 0;
    var entered, gross := amount - (if onInput then q.fee else 0), q.amountOut + if onInput then 0 else q.fee;
    && 0 < amount && c.curve != [] && pool.price != 0 && pool.activationPoint <= point
    && !pool.migrated && pool.quoteReserve < c.threshold && (buy ==> pool.quoteReserve + entered < c.threshold)
    && 0 < q.amountOut && gross <= U64_MAX && 0 <= entered && FeeOf(if onInput then amount else gross, rate) == Some(q.fee)
    && (if buy then QuoteToBase(c, pool.price, entered) else BaseToQuote(c, pool.price, entered)) == Some(Trade(gross, q.price))
  }

  lemma QuoteIsWalk(pool: Pool, buy: bool, amount: u64, point: u64, rate: u64, q: Quote)
    requires FeeNumerator(pool, point, buy) == Some(rate)
    ensures SwapExactIn(pool, buy, amount, point) == Some(q) <==> Walks(pool, buy, amount, point, rate, q)
  {
    hide FeeNumerator, QuoteToBase, BaseToQuote, FeeOf;
  }

  lemma WalkIsBook(pool: Pool, buy: bool, amount: u64, point: u64, rate: u64, q: Quote) returns (book: seq<Piece>)
    requires rate <= MAX_FEE_NUMERATOR && Walks(pool, buy, amount, point, rate, q)
    ensures IsQuote(pool, buy, amount, point, rate, book, q)
  {
    hide BuyFrom, SellFrom, Bought, Sold, FeeOf;
    var c, onInput := pool.config, buy && pool.config.collectFeeMode == 0;
    var entered, gross := amount - (if onInput then q.fee else 0), q.amountOut + if onInput then 0 else q.fee;
    FeeIff(if onInput then amount else gross, rate, q.fee);
    if buy {
      book := BuyIsBooked(c.curve, Ceiling(c), 0, pool.price, entered, 0);
    } else {
      book := SellIsBooked(c.curve, c.startPrice, Lowest(c.curve), pool.price, entered, 0);
    }
  }

  lemma BookIsWalk(pool: Pool, buy: bool, amount: u64, point: u64, rate: u64, book: seq<Piece>, q: Quote)
    requires rate <= MAX_FEE_NUMERATOR && IsQuote(pool, buy, amount, point, rate, book, q)
    ensures Walks(pool, buy, amount, point, rate, q)
  {
    hide BuyFrom, SellFrom, Bought, Sold, FeeOf;
    var c, onInput := pool.config, buy && pool.config.collectFeeMode == 0;
    var entered, gross := amount - (if onInput then q.fee else 0), q.amountOut + if onInput then 0 else q.fee;
    FeeIff(if onInput then amount else gross, rate, q.fee);
    if buy {
      BookIsBuy(c.curve, Ceiling(c), 0, pool.price, entered, 0, book, q.price);
    } else {
      BookIsSell(c.curve, c.startPrice, Lowest(c.curve), pool.price, entered, 0, book, q.price);
    }
  }

  lemma QuoteIff(pool: Pool, buy: bool, amount: u64, point: u64, rate: u64, q: Quote)
    requires FeeNumerator(pool, point, buy) == Some(rate) && rate <= MAX_FEE_NUMERATOR
    ensures SwapExactIn(pool, buy, amount, point) == Some(q)
      <==> exists book: seq<Piece> :: IsQuote(pool, buy, amount, point, rate, book, q)
  {
    hide SwapExactIn, FeeNumerator, Walks, IsQuote;
    QuoteIsWalk(pool, buy, amount, point, rate, q);
    if Walks(pool, buy, amount, point, rate, q) {
      var book := WalkIsBook(pool, buy, amount, point, rate, q);
    }
    if exists book: seq<Piece> :: IsQuote(pool, buy, amount, point, rate, book, q) {
      var book: seq<Piece> :| IsQuote(pool, buy, amount, point, rate, book, q);
      BookIsWalk(pool, buy, amount, point, rate, book, q);
    }
  }

  /** A pool quotes `q` exactly when its own fields have a fee, and a book at the least rate that pays both parts of it
      gives `q`. */
  lemma SwapIsItsBook(pool: Pool, buy: bool, amount: u64, point: u64, q: Quote) returns (base: nat, rate: nat)
    ensures HasFee(pool, point, buy) ==> BaseFee(pool, point, base) && LeastRate(pool, base, rate)
    ensures SwapExactIn(pool, buy, amount, point) == Some(q)
      <==> HasFee(pool, point, buy) && exists book: seq<Piece> :: IsQuote(pool, buy, amount, point, rate, book, q)
  {
    hide SwapExactIn, FeeNumerator, IsQuote, BaseFee, LeastRate, HasFee;
    FeeExistsIff(pool, point, buy);
    base, rate := 0, 0;
    if HasFee(pool, point, buy) {
      rate := FeeNumerator(pool, point, buy).value;
      base := RateIsLeast(pool, point, buy);
      QuoteIff(pool, buy, amount, point, rate, q);
    } else {
      NoFeeNoQuote(pool, buy, amount, point);
    }
  }

  lemma NoFeeNoQuote(pool: Pool, buy: bool, amount: u64, point: u64)
    requires FeeNumerator(pool, point, buy).None?
    ensures SwapExactIn(pool, buy, amount, point).None?
  {
    hide FeeNumerator;
  }
}

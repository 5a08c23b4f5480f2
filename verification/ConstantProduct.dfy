/** The constant-product and bonding-curve quotes and their inverses (`src/quote/math.rs`). */
module ConstantProduct {
  import opened Numbers

  const BPS: int := 10_000

  // ── constant product with a fee in basis points ─────────────────────────

  function Kept(feeBps: u16): nat {
    BPS - Min(feeBps, BPS)
  }

  function ProductOut(reserveIn: u128, reserveOut: u128, amountIn: u64, feeBps: u16): Option<u64> {
    if reserveIn == 0 || reserveOut == 0 || amountIn == 0 then None
    else
      MulNonneg(amountIn, Kept(feeBps));
      var net :- ToU128(amountIn * Kept(feeBps));
      MulNonneg(reserveOut, net);
      var numerator :- ToU128(reserveOut * net);
      var scaled :- ToU128(reserveIn * BPS);
      var denominator :- ToU128(scaled + net);
      ToU64(numerator / denominator)
  }

  function ProductIn(reserveIn: u128, reserveOut: u128, amountOut: u64, feeBps: u16): Option<u64> {
    if reserveIn == 0 || reserveOut == 0 || amountOut == 0 || Kept(feeBps) == 0 || amountOut >= reserveOut then None
    else
      MulNonneg(reserveIn, amountOut);
      var product :- ToU128(reserveIn * amountOut);
      var numerator :- ToU128(product * BPS);
      MulPos(reserveOut - amountOut, Kept(feeBps));
      var denominator :- ToU128((reserveOut - amountOut) * Kept(feeBps));
      var padded :- ToU128(numerator + (denominator - 1));
      ToU64(padded / denominator)
  }

  /** A buyer gets at least `wanted` exactly when the input is worth it. */
  predicate Buys(reserveIn: nat, reserveOut: nat, amountIn: nat, kept: nat, wanted: nat) {
    wanted * (reserveIn * BPS + amountIn * kept) <= reserveOut * (amountIn * kept)
  }

  lemma OutBuys(reserveIn: u128, reserveOut: u128, amountIn: u64, feeBps: u16, wanted: nat)
    requires ProductOut(reserveIn, reserveOut, amountIn, feeBps).Some?
    ensures wanted <= ProductOut(reserveIn, reserveOut, amountIn, feeBps).value
      <==> Buys(reserveIn, reserveOut, amountIn, Kept(feeBps), wanted)
  {
    hide Kept;
    MulNonneg(amountIn, Kept(feeBps));
    var net := amountIn * Kept(feeBps);
    FloorIff(reserveOut * net, reserveIn * BPS + net, wanted);
  }

  lemma InBuys(reserveIn: u128, reserveOut: u128, amountOut: u64, feeBps: u16, amountIn: nat)
    requires ProductIn(reserveIn, reserveOut, amountOut, feeBps).Some?
    ensures ProductIn(reserveIn, reserveOut, amountOut, feeBps).value <= amountIn
      <==> Buys(reserveIn, reserveOut, amountIn, Kept(feeBps), amountOut)
  {
    hide Kept;
    var kept := Kept(feeBps);
    MulNonneg(reserveIn, amountOut);
    MulPos(reserveOut - amountOut, kept);
    var numerator, denominator := reserveIn * amountOut * BPS, (reserveOut - amountOut) * kept;
    CeilByAdding(numerator, denominator);
    CeilIff(numerator, denominator, amountIn);
    SameTrade(reserveIn, reserveOut, amountOut, amountIn, kept);
  }

  lemma SameTrade(x: int, y: int, o: int, a: int, k: int)
    ensures x * o * BPS <= a * ((y - o) * k) <==> o * (x * BPS + a * k) <= y * (a * k)
  {
  }

  /** The inverse is the least input that reaches the output: an input that is quoted reaches it exactly when it is at
      least the inverse's answer. */
  lemma ProductAdjoint(reserveIn: u128, reserveOut: u128, amountOut: u64, feeBps: u16, amountIn: u64)
    requires ProductIn(reserveIn, reserveOut, amountOut, feeBps).Some?
      && ProductOut(reserveIn, reserveOut, amountIn, feeBps).Some?
    ensures ProductIn(reserveIn, reserveOut, amountOut, feeBps).value <= amountIn
            <==> amountOut <= ProductOut(reserveIn, reserveOut, amountIn, feeBps).value
  {
    hide ProductIn, ProductOut, Buys;
    OutBuys(reserveIn, reserveOut, amountIn, feeBps, amountOut);
    InBuys(reserveIn, reserveOut, amountOut, feeBps, amountIn);
  }

  /** Where a forward quote overflows: a 128-bit product or sum, or the 64-bit result. */
  predicate Overflows(scaledIn: nat, reserveOut: nat, net: nat) {
    reserveOut * net >= Q128 || scaledIn + net >= Q128 || (0 < scaledIn + net && reserveOut * net / (scaledIn + net) >= Q64)
  }

  lemma ProductOutRefusal(reserveIn: u128, reserveOut: u128, amountIn: u64, feeBps: u16)
    requires 0 < reserveIn && 0 < reserveOut && 0 < amountIn
    ensures 0 <= amountIn * Kept(feeBps)
    ensures ProductOut(reserveIn, reserveOut, amountIn, feeBps).None?
      ==> Overflows(reserveIn * BPS, reserveOut, amountIn * Kept(feeBps))
  {
    hide Kept;
    NetFits(amountIn, feeBps);
    var net := amountIn * Kept(feeBps);
    MulNonneg(reserveOut, net);
    FloorIff(reserveOut * net, reserveIn * BPS + net, 0);
  }

  /** The inverse's answer, quoted forward, delivers at least the target unless the forward quote overflows. */
  lemma ProductInverseDelivers(reserveIn: u128, reserveOut: u128, amountOut: u64, feeBps: u16)
    requires ProductIn(reserveIn, reserveOut, amountOut, feeBps).Some?
    ensures var least := ProductIn(reserveIn, reserveOut, amountOut, feeBps).value;
      && 0 < least && 0 <= least * Kept(feeBps)
      && (match ProductOut(reserveIn, reserveOut, least, feeBps)
          case Some(out) => amountOut <= out
          case None => Overflows(reserveIn * BPS, reserveOut, least * Kept(feeBps)))
  {
    hide Kept, Overflows, Buys, ProductOut;
    var least := ProductIn(reserveIn, reserveOut, amountOut, feeBps).value;
    InBuys(reserveIn, reserveOut, amountOut, feeBps, 0);
    NothingBuysNothing(reserveIn, reserveOut, Kept(feeBps), amountOut);
    ProductOutRefusal(reserveIn, reserveOut, least, feeBps);
    if ProductOut(reserveIn, reserveOut, least, feeBps).Some? {
      ProductAdjoint(reserveIn, reserveOut, amountOut, feeBps, least);
    }
  }

  lemma NothingBuysNothing(reserveIn: nat, reserveOut: nat, kept: nat, wanted: nat)
    requires 0 < reserveIn && 0 < wanted
    ensures !Buys(reserveIn, reserveOut, 0, kept, wanted)
  {
  }

  lemma NetFits(amount: u64, feeBps: u16)
    ensures 0 <= amount * Kept(feeBps) < Q128
  {
  }

  // ── bonding curve with a fee as a fraction ──────────────────────────────

  /** What the fee leaves, rounded down. */
  function NetOfFee(amountIn: u64, feeNum: u64, feeDen: u64): (r: nat)
    requires feeNum < feeDen
    ensures r <= amountIn
  {
    ScaledDown(amountIn, feeDen - feeNum, feeDen);
    amountIn * (feeDen - feeNum) / feeDen
  }

  lemma ScaledDown(a: nat, k: nat, d: nat)
    requires k <= d && 0 < d
    ensures 0 <= a * k / d <= a
  {
    MulNonneg(a, k);
    MulMono(k, d, a);
    FloorIff(a * k, d, 0);
    FloorIff(a * k, d, a + 1);
    assert (a + 1) * d == a * d + d;
  }

  function CurveOut(reserveIn: u128, reserveOut: u128, amountIn: u64, feeNum: u64, feeDen: u64): Option<u64> {
    if reserveIn == 0 || reserveOut == 0 || amountIn == 0 || feeDen == 0 || feeNum >= feeDen then None
    else
      MulNonneg(amountIn, feeDen - feeNum);
      var charged :- ToU128(amountIn * (feeDen - feeNum));
      var net := NetOfFee(amountIn, feeNum, feeDen);
      if net == 0 then None
      else
        MulNonneg(reserveOut, net);
        var numerator :- ToU128(reserveOut * net);
        var denominator :- ToU128(reserveIn + net);
        ToU64(numerator / denominator)
  }

  function CurveIn(reserveIn: u128, reserveOut: u128, amountOut: u64, feeNum: u64, feeDen: u64): Option<u64> {
    if reserveIn == 0 || reserveOut == 0 || amountOut == 0 || feeDen == 0 || feeNum >= feeDen
        || amountOut >= reserveOut then None
    else
      MulNonneg(reserveIn, amountOut);
      var numerator :- ToU128(reserveIn * amountOut);
      var denominator := reserveOut - amountOut;
      var padded :- ToU128(numerator + (denominator - 1));
      var net := padded / denominator;
      MulNonneg(net, feeDen);
      var scaled :- ToU128(net * feeDen);
      var charged :- ToU128(scaled + (feeDen - feeNum - 1));
      ToU64(charged / (feeDen - feeNum))
  }

  /** The net input reaches `wanted`. */
  predicate NetBuys(reserveIn: nat, reserveOut: nat, net: nat, wanted: nat) {
    wanted * (reserveIn + net) <= reserveOut * net
  }

  lemma CurveOutBuys(reserveIn: u128, reserveOut: u128, amountIn: u64, feeNum: u64, feeDen: u64, wanted: nat)
    requires CurveOut(reserveIn, reserveOut, amountIn, feeNum, feeDen).Some?
    ensures wanted <= CurveOut(reserveIn, reserveOut, amountIn, feeNum, feeDen).value
            <==> NetBuys(reserveIn, reserveOut, NetOfFee(amountIn, feeNum, feeDen), wanted)
  {
    hide NetOfFee;
    var net := NetOfFee(amountIn, feeNum, feeDen);
    MulNonneg(reserveOut, net);
    FloorIff(reserveOut * net, reserveIn + net, wanted);
  }

  /** The least net input for an output. */
  function LeastNet(reserveIn: u128, reserveOut: u128, amountOut: u64): nat
    requires amountOut < reserveOut
  {
    MulNonneg(reserveIn, amountOut);
    CeilDiv(reserveIn * amountOut, reserveOut - amountOut)
  }

  lemma LeastNetBuys(reserveIn: u128, reserveOut: u128, amountOut: u64, net: nat)
    requires amountOut < reserveOut
    ensures LeastNet(reserveIn, reserveOut, amountOut) <= net <==> NetBuys(reserveIn, reserveOut, net, amountOut)
  {
    MulNonneg(reserveIn, amountOut);
    CeilIff(reserveIn * amountOut, reserveOut - amountOut, net);
    assert net * (reserveOut - amountOut) == reserveOut * net - amountOut * net;
    assert amountOut * (reserveIn + net) == reserveIn * amountOut + amountOut * net;
  }

  /** Undoing the fee rounds up to the least input whose net reaches `net`. */
  lemma FeeAdjoint(net: nat, amountIn: u64, feeNum: u64, feeDen: u64)
    requires feeNum < feeDen
    ensures 0 <= net * feeDen && (CeilDiv(net * feeDen, feeDen - feeNum) <= amountIn
      <==> net <= NetOfFee(amountIn, feeNum, feeDen))
  {
    MulNonneg(net, feeDen);
    CeilIff(net * feeDen, feeDen - feeNum, amountIn);
    FloorIff(amountIn * (feeDen - feeNum), feeDen, net);
  }

  lemma CurveInIs(reserveIn: u128, reserveOut: u128, amountOut: u64, feeNum: u64, feeDen: u64)
    requires CurveIn(reserveIn, reserveOut, amountOut, feeNum, feeDen).Some?
    ensures var net := LeastNet(reserveIn, reserveOut, amountOut);
      0 <= net * feeDen
      && CurveIn(reserveIn, reserveOut, amountOut, feeNum, feeDen).value == CeilDiv(net * feeDen, feeDen - feeNum)
  {
    MulNonneg(reserveIn, amountOut);
    CeilByAdding(reserveIn * amountOut, reserveOut - amountOut);
    var net := LeastNet(reserveIn, reserveOut, amountOut);
    MulNonneg(net, feeDen);
    CeilByAdding(net * feeDen, feeDen - feeNum);
  }

  /** The inverse is the least input that reaches the output, through both roundings. */
  lemma CurveAdjoint(reserveIn: u128, reserveOut: u128, amountOut: u64, feeNum: u64, feeDen: u64, amountIn: u64)
    requires CurveIn(reserveIn, reserveOut, amountOut, feeNum, feeDen).Some?
      && CurveOut(reserveIn, reserveOut, amountIn, feeNum, feeDen).Some?
    ensures CurveIn(reserveIn, reserveOut, amountOut, feeNum, feeDen).value <= amountIn
            <==> amountOut <= CurveOut(reserveIn, reserveOut, amountIn, feeNum, feeDen).value
  {
    hide NetBuys, LeastNet, NetOfFee;
    var net := LeastNet(reserveIn, reserveOut, amountOut);
    CurveInIs(reserveIn, reserveOut, amountOut, feeNum, feeDen);
    FeeAdjoint(net, amountIn, feeNum, feeDen);
    LeastNetBuys(reserveIn, reserveOut, amountOut, NetOfFee(amountIn, feeNum, feeDen));
    CurveOutBuys(reserveIn, reserveOut, amountIn, feeNum, feeDen, amountOut);
  }

  lemma CurveOutRefusal(reserveIn: u128, reserveOut: u128, amountIn: u64, feeNum: u64, feeDen: u64)
    requires 0 < reserveIn && 0 < reserveOut && 0 < amountIn && feeNum < feeDen && 0 < NetOfFee(amountIn, feeNum, feeDen)
    ensures CurveOut(reserveIn, reserveOut, amountIn, feeNum, feeDen).None?
      ==> Overflows(reserveIn, reserveOut, NetOfFee(amountIn, feeNum, feeDen))
  {
  }

  /** The inverse's answer, quoted forward, delivers at least the target unless the forward quote overflows. */
  lemma CurveInverseDelivers(reserveIn: u128, reserveOut: u128, amountOut: u64, feeNum: u64, feeDen: u64)
    requires CurveIn(reserveIn, reserveOut, amountOut, feeNum, feeDen).Some?
    ensures var least := CurveIn(reserveIn, reserveOut, amountOut, feeNum, feeDen).value;
      && 0 < least
      && (match CurveOut(reserveIn, reserveOut, least, feeNum, feeDen)
          case Some(out) => amountOut <= out
          case None => Overflows(reserveIn, reserveOut, NetOfFee(least, feeNum, feeDen)))
  {
    hide LeastNet, NetOfFee, Overflows, CurveOut;
    var least := CurveIn(reserveIn, reserveOut, amountOut, feeNum, feeDen).value;
    var net := LeastNet(reserveIn, reserveOut, amountOut);
    CurveInIs(reserveIn, reserveOut, amountOut, feeNum, feeDen);
    LeastNetBuys(reserveIn, reserveOut, amountOut, 0);
    MulPos(amountOut, reserveIn);
    FeeAdjoint(net, least, feeNum, feeDen);
    FeeAdjoint(net, 0, feeNum, feeDen);
    NothingIsNetOfNothing(feeNum, feeDen);
    CurveOutRefusal(reserveIn, reserveOut, least, feeNum, feeDen);
    if CurveOut(reserveIn, reserveOut, least, feeNum, feeDen).Some? {
      CurveAdjoint(reserveIn, reserveOut, amountOut, feeNum, feeDen, least);
    }
  }

  lemma NothingIsNetOfNothing(feeNum: u64, feeDen: u64)
    requires feeNum < feeDen
    ensures NetOfFee(0, feeNum, feeDen) == 0
  {
  }

  // ── the four quotes in full ─────────────────────────────────────────────

  /** What 10 000 basis points less the fee leave; nothing above 100 %. */
  predicate Keeps(feeBps: nat, kept: int) {
    if feeBps < 10_000 then kept == 10_000 - feeBps else kept == 0
  }

  /** `out` is the most that the input buys. */
  ghost predicate MostBought(reserveIn: nat, reserveOut: nat, amountIn: nat, kept: nat, out: nat) {
    forall wanted: nat :: wanted <= out <==> Buys(reserveIn, reserveOut, amountIn, kept, wanted)
  }

  /** `paid` is the least input that buys `wanted`. */
  ghost predicate LeastPaid(reserveIn: nat, reserveOut: nat, kept: nat, wanted: nat, paid: nat) {
    forall amountIn: nat :: paid <= amountIn <==> Buys(reserveIn, reserveOut, amountIn, kept, wanted)
  }

  ghost predicate MostOfNet(reserveIn: nat, reserveOut: nat, net: nat, out: nat) {
    forall wanted: nat :: wanted <= out <==> NetBuys(reserveIn, reserveOut, net, wanted)
  }

  ghost predicate LeastOfNet(reserveIn: nat, reserveOut: nat, wanted: nat, net: nat) {
    forall n: nat :: net <= n <==> NetBuys(reserveIn, reserveOut, n, wanted)
  }

  lemma QuotientIsMost(reserveIn: nat, reserveOut: nat, amountIn: nat, kept: nat, out: nat)
    requires 0 < reserveIn && 0 <= amountIn * kept
    ensures 0 <= reserveOut * (amountIn * kept) / (reserveIn * 10_000 + amountIn * kept)
    ensures out == reserveOut * (amountIn * kept) / (reserveIn * 10_000 + amountIn * kept)
      <==> MostBought(reserveIn, reserveOut, amountIn, kept, out)
  {
    hide Buys;
    var net := amountIn * kept;
    MulNonneg(reserveOut, net);
    FloorIff(reserveOut * net, reserveIn * 10_000 + net, 0);
    var most := reserveOut * net / (reserveIn * 10_000 + net);
    forall wanted: nat ensures wanted <= most <==> Buys(reserveIn, reserveOut, amountIn, kept, wanted) {
      QuotientBuys(reserveIn, reserveOut, amountIn, kept, wanted);
    }
    if MostBought(reserveIn, reserveOut, amountIn, kept, out) {
      assert Buys(reserveIn, reserveOut, amountIn, kept, out) && Buys(reserveIn, reserveOut, amountIn, kept, most);
    }
  }

  /** The forward quote is the most the input buys after a fee in basis points; it is refused for an empty side, for no
      input, and where a 128-bit product or sum overflows. */
  lemma ProductOutIsMost(reserveIn: u128, reserveOut: u128, amountIn: u64, feeBps: u16, kept: nat, out: u64)
    requires Keeps(feeBps, kept)
    ensures 0 <= amountIn * kept
    ensures ProductOut(reserveIn, reserveOut, amountIn, feeBps) == Some(out)
      <==> && 0 < reserveIn && 0 < reserveOut && 0 < amountIn
           && reserveOut * (amountIn * kept) < Q128 && reserveIn * 10_000 + amountIn * kept < Q128
           && MostBought(reserveIn, reserveOut, amountIn, kept, out)
  {
    hide MostBought;
    assert Kept(feeBps) == kept;
    MulNonneg(amountIn, kept);
    MulNonneg(reserveOut, amountIn * kept);
    NetFits(amountIn, feeBps);
    if 0 < reserveIn {
      QuotientIsMost(reserveIn, reserveOut, amountIn, kept, out);
    }
  }

  lemma QuotientBuys(reserveIn: nat, reserveOut: nat, amountIn: nat, kept: nat, wanted: nat)
    requires 0 < reserveIn && 0 <= amountIn * kept
    ensures wanted <= reserveOut * (amountIn * kept) / (reserveIn * 10_000 + amountIn * kept)
      <==> Buys(reserveIn, reserveOut, amountIn, kept, wanted)
  {
    FloorIff(reserveOut * (amountIn * kept), reserveIn * 10_000 + amountIn * kept, wanted);
  }

  /** The inverse quote is the least input that buys the output; it is refused for an empty side, for no output or one the
      reserve cannot give, for a fee of 100 %, and where a product overflows. */
  lemma ProductInIsLeast(reserveIn: u128, reserveOut: u128, amountOut: u64, feeBps: u16, kept: nat, paid: u64)
    requires Keeps(feeBps, kept)
    ensures ProductIn(reserveIn, reserveOut, amountOut, feeBps) == Some(paid)
      <==> && 0 < reserveIn && 0 < amountOut < reserveOut && 0 < kept && (reserveOut - amountOut) * kept < Q128
           && reserveIn * amountOut * 10_000 + (reserveOut - amountOut) * kept - 1 < Q128
           && LeastPaid(reserveIn, reserveOut, kept, amountOut, paid)
  {
    hide Buys;
    assert Kept(feeBps) == kept;
    if 0 < reserveIn && 0 < amountOut < reserveOut && 0 < kept && (reserveOut - amountOut) * kept < Q128
      && reserveIn * amountOut * 10_000 + (reserveOut - amountOut) * kept - 1 < Q128 {
      MulPos(reserveIn, amountOut);
      MulPos(reserveOut - amountOut, kept);
      var denominator := (reserveOut - amountOut) * kept;
      CeilByAdding(reserveIn * amountOut * 10_000, denominator);
      var least := CeilDiv(reserveIn * amountOut * 10_000, denominator);
      forall amountIn: nat ensures least <= amountIn <==> Buys(reserveIn, reserveOut, amountIn, kept, amountOut) {
        QuotientPays(reserveIn, reserveOut, amountIn, kept, amountOut);
      }
      if LeastPaid(reserveIn, reserveOut, kept, amountOut, paid) {
        assert Buys(reserveIn, reserveOut, paid, kept, amountOut) && Buys(reserveIn, reserveOut, least, kept, amountOut);
      }
    }
  }

  lemma QuotientPays(reserveIn: nat, reserveOut: nat, amountIn: nat, kept: nat, amountOut: nat)
    requires 0 <= reserveIn * amountOut * 10_000 && 0 < (reserveOut - amountOut) * kept
    ensures CeilDiv(reserveIn * amountOut * 10_000, (reserveOut - amountOut) * kept) <= amountIn
      <==> Buys(reserveIn, reserveOut, amountIn, kept, amountOut)
  {
    CeilIff(reserveIn * amountOut * 10_000, (reserveOut - amountOut) * kept, amountIn);
    SameTrade(reserveIn, reserveOut, amountOut, amountIn, kept);
  }

  /** The bonding curve's forward quote is the most that the input buys once the fee has rounded it down. */
  lemma CurveOutIsMost(reserveIn: u128, reserveOut: u128, amountIn: u64, feeNum: u64, feeDen: u64, net: nat, out: u64)
    requires feeNum < feeDen ==> GreatestMultiple(net, amountIn * (feeDen - feeNum), feeDen)
    ensures CurveOut(reserveIn, reserveOut, amountIn, feeNum, feeDen) == Some(out)
      <==> && 0 < reserveIn && 0 < reserveOut && 0 < amountIn && feeNum < feeDen && 0 < net
           && reserveOut * net < Q128 && reserveIn + net < Q128 && MostOfNet(reserveIn, reserveOut, net, out)
  {
    hide NetBuys;
    if feeNum < feeDen {
      NetIsGreatest(amountIn, feeNum, feeDen, net);
      if 0 < reserveIn && 0 < reserveOut && 0 < amountIn && 0 < net && reserveOut * net < Q128 && reserveIn + net < Q128 {
        ChargedFits(amountIn, feeDen - feeNum);
        MulNonneg(reserveOut, net);
        var most := reserveOut * net / (reserveIn + net);
        FloorIff(reserveOut * net, reserveIn + net, 0);
        forall wanted: nat ensures wanted <= most <==> NetBuys(reserveIn, reserveOut, net, wanted) {
          NetQuotientBuys(reserveIn, reserveOut, net, wanted);
        }
        if MostOfNet(reserveIn, reserveOut, net, out) {
          assert NetBuys(reserveIn, reserveOut, net, out) && NetBuys(reserveIn, reserveOut, net, most);
        }
      }
    }
  }

  lemma NetIsGreatest(amountIn: u64, feeNum: u64, feeDen: u64, net: nat)
    requires feeNum < feeDen && GreatestMultiple(net, amountIn * (feeDen - feeNum), feeDen)
    ensures net == NetOfFee(amountIn, feeNum, feeDen)
  {
    var rounded: nat := NetOfFee(amountIn, feeNum, feeDen);
    MulNonneg(amountIn, feeDen - feeNum);
    FloorIsGreatest(amountIn * (feeDen - feeNum), feeDen);
    GreatestIsUnique(net, rounded, amountIn * (feeDen - feeNum), feeDen);
  }

  lemma ChargedFits(amountIn: u64, k: u64)
    ensures 0 <= amountIn * k < Q128
  {
    ProductBound(amountIn, k, U64_MAX);
  }

  lemma NetQuotientBuys(reserveIn: nat, reserveOut: nat, net: nat, wanted: nat)
    requires 0 < reserveIn && 0 <= reserveOut * net
    ensures wanted <= reserveOut * net / (reserveIn + net) <==> NetBuys(reserveIn, reserveOut, net, wanted)
  {
    FloorIff(reserveOut * net, reserveIn + net, wanted);
  }

  /** Its inverse is the least input whose net, after the fee, is the least that buys the output. */
  lemma CurveInIsLeast(reserveIn: u128, reserveOut: u128, amountOut: u64, feeNum: u64, feeDen: u64, net: nat, paid: u64)
    requires amountOut < reserveOut ==> LeastOfNet(reserveIn, reserveOut, amountOut, net)
    ensures CurveIn(reserveIn, reserveOut, amountOut, feeNum, feeDen) == Some(paid)
      <==> && 0 < reserveIn && 0 < amountOut < reserveOut && feeNum < feeDen
           && reserveIn * amountOut + (reserveOut - amountOut) - 1 < Q128 && net * feeDen + (feeDen - feeNum) - 1 < Q128
           && LeastMultiple(paid, net * feeDen, feeDen - feeNum)
  {
    hide NetBuys;
    if amountOut < reserveOut && feeNum < feeDen {
      MulNonneg(reserveIn, amountOut);
      NetIsLeast(reserveIn, reserveOut, amountOut, net);
      CeilByAdding(reserveIn * amountOut, reserveOut - amountOut);
      MulNonneg(net, feeDen);
      CeilByAdding(net * feeDen, feeDen - feeNum);
      CeilIsLeast(net * feeDen, feeDen - feeNum);
      if LeastMultiple(paid, net * feeDen, feeDen - feeNum) {
        LeastIsUnique(paid, CeilDiv(net * feeDen, feeDen - feeNum), net * feeDen, feeDen - feeNum);
      }
    }
  }

  lemma NetIsLeast(reserveIn: u128, reserveOut: u128, amountOut: u64, net: nat)
    requires amountOut < reserveOut && LeastOfNet(reserveIn, reserveOut, amountOut, net)
    ensures net == LeastNet(reserveIn, reserveOut, amountOut)
  {
    hide NetBuys, LeastNet;
    var least := LeastNet(reserveIn, reserveOut, amountOut);
    LeastNetBuys(reserveIn, reserveOut, amountOut, net);
    LeastNetBuys(reserveIn, reserveOut, amountOut, least);
  }
}

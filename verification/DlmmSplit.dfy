/** At a constant fee, two consecutive swaps of a DLMM pair never pay more than one of the sum. */
module DlmmSplit {
  import opened Numbers
  import opened DlmmBins
  import opened DlmmWalk
  import opened DlmmRefinement
  import opened DlmmConservation

  // ── layers one after the other ──────────────────────────────────────────

  /** Any number of layers in fill order. */
  function FillAll(layers: seq<u64>, amount: u64, price: u128, swapForY: bool): (r: Option<Fill>)
    ensures r.Some? ==> r.value.used <= amount
  {
    if layers == [] then Some(Fill(0, 0))
    else
      var f :- FillLayer(amount, layers[0], price, swapForY);
      FillUsesAmount(amount, layers[0], price, swapForY);
      var rest :- FillAll(layers[1..], amount - f.used, price, swapForY);
      Some(Fill(f.used + rest.used, f.out + rest.out))
  }

  function InOrder(layers: Layers): seq<u64> {
    [layers.maker, layers.processed, layers.open]
  }

  /** What is left of the layers once `taken` is paid out in fill order. */
  function Rest(layers: seq<u64>, taken: nat): (rest: seq<u64>)
    ensures |rest| == |layers|
  {
    if layers == [] then []
    else if taken < layers[0] then [layers[0] - taken] + layers[1..]
    else [0] + Rest(layers[1..], taken - layers[0])
  }

  lemma {:induction false} RestOfNothing(layers: seq<u64>)
    ensures Rest(layers, 0) == layers
  {
    if layers != [] && layers[0] == 0 {
      RestOfNothing(layers[1..]);
    }
  }

  function Sum(layers: seq<u64>): nat {
    if layers == [] then 0 else layers[0] + Sum(layers[1..])
  }

  lemma {:induction false} RestSums(layers: seq<u64>, taken: nat)
    ensures Sum(Rest(layers, taken)) == Max(Sum(layers) - taken, 0)
  {
    if layers != [] {
      var rest := Rest(layers, taken);
      if taken < layers[0] {
        assert rest[1..] == layers[1..];
      } else {
        RestSums(layers[1..], taken - layers[0]);
        assert rest[1..] == Rest(layers[1..], taken - layers[0]);
      }
    }
  }

  lemma TotalIsSum(layers: Layers)
    ensures Sum(InOrder(layers)) == layers.Total()
  {
    var l := InOrder(layers);
    assert l[1..] == [layers.processed, layers.open] && l[1..][1..] == [layers.open] && l[1..][1..][1..] == [];
    assert Sum([layers.open]) == layers.open;
  }

  lemma {:induction false} NothingFills(layers: seq<u64>, price: u128, swapForY: bool)
    ensures FillAll(layers, 0, price, swapForY) == Some(Fill(0, 0))
  {
    if layers != [] {
      NothingFills(layers[1..], price, swapForY);
    }
  }

  lemma FirstFills(layers: seq<u64>, amount: u64, price: u128, swapForY: bool)
    requires layers != []
    ensures match FillLayer(amount, layers[0], price, swapForY)
      case None => FillAll(layers, amount, price, swapForY) == None
      case Some(f) =>
        f.used <= amount
        && match FillAll(layers[1..], amount - f.used, price, swapForY)
           case None => FillAll(layers, amount, price, swapForY) == None
           case Some(rest) => FillAll(layers, amount, price, swapForY) == Some(Fill(f.used + rest.used, f.out + rest.out))
  {
    hide FillLayer;
    if FillLayer(amount, layers[0], price, swapForY).Some? {
      FillUsesAmount(amount, layers[0], price, swapForY);
    }
  }

  lemma BinFillsInOrder(layers: Layers, amount: u64, price: u128, swapForY: bool)
    ensures FillBin(layers, amount, price, swapForY) == FillAll(InOrder(layers), amount, price, swapForY)
  {
    hide FillLayer, FillAll;
    assert InOrder(layers)[1..] == [layers.processed, layers.open];
    FirstFills(InOrder(layers), amount, price, swapForY);
    var f := FillLayer(amount, layers.maker, price, swapForY);
    if f.Some? {
      FillUsesAmount(amount, layers.maker, price, swapForY);
      var left := amount - f.value.used;
      if left == 0 {
        NothingFills([layers.processed, layers.open], price, swapForY);
      } else {
        LastLayers(layers.processed, layers.open, left, price, swapForY);
      }
    }
  }

  lemma LastLayers(maxOut: u64, last: u64, amount: u64, price: u128, swapForY: bool)
    ensures match FillLayer(amount, maxOut, price, swapForY)
      case None => FillAll([maxOut, last], amount, price, swapForY) == None
      case Some(f) =>
        f.used <= amount && FillAll([maxOut, last], amount, price, swapForY) == ThenFill(f, amount, last, price, swapForY)
  {
    hide FillLayer;
    assert [maxOut, last][1..] == [last];
    var f := FillLayer(amount, maxOut, price, swapForY);
    if f.Some? {
      FillUsesAmount(amount, maxOut, price, swapForY);
      EmptyInput(last, price, swapForY);
      LastLayer(last, amount - f.value.used, price, swapForY);
    }
  }

  lemma LastLayer(maxOut: u64, amount: u64, price: u128, swapForY: bool)
    ensures FillAll([maxOut], amount, price, swapForY) == FillLayer(amount, maxOut, price, swapForY)
  {
    hide FillLayer;
    assert [maxOut][1..] == [];
  }

  lemma EmptyInput(maxOut: u64, price: u128, swapForY: bool)
    ensures FillLayer(0, maxOut, price, swapForY) == Some(Fill(0, 0))
  {
  }

  // ── one layer, split ────────────────────────────────────────────────────

  /** A layer pays the most its input buys of it, for the least that buys all of it. */
  lemma LayerIsExact(amount: u64, maxOut: u64, price: u128, swapForY: bool, n: nat, x: nat)
    requires 0 < amount && FillLayer(amount, maxOut, price, swapForY).Some? && AtPrice(Fill(n, x), price, swapForY)
    requires n <= amount && x <= maxOut
    ensures x <= FillLayer(amount, maxOut, price, swapForY).value.out
    ensures x == maxOut ==> FillLayer(amount, maxOut, price, swapForY).value.used <= n
  {
    if maxOut != 0 {
      if swapForY {
        CeilIff(maxOut * Q64, price, n);
        MulMono(n, amount, price);
        FloorIff(price * amount, Q64, x);
      } else {
        CeilIff(maxOut * price, Q64, n);
        MulMono(n, amount, Q64);
        if price > 0 { FloorIff(amount * Q64, price, x); }
      }
    }
  }

  lemma PricesAdd(n: nat, x: nat, n': nat, x': nat, price: u128, swapForY: bool)
    requires AtPrice(Fill(n, x), price, swapForY) && AtPrice(Fill(n', x'), price, swapForY)
    ensures AtPrice(Fill(n + n', x + x'), price, swapForY)
  {
    Distribute(n, n', price);
    Distribute(x, x', price);
  }

  /** Two fills of one layer, the first out of input, against one of both inputs. */
  lemma LayerSplit(a: u64, b: u64, c: u64, maxOut: u64, price: u128, swapForY: bool)
    requires 0 < a && a + b <= c && FillLayer(a, maxOut, price, swapForY).Some? && FillLayer(c, maxOut, price, swapForY).Some?
    requires FillLayer(a, maxOut, price, swapForY).value.used == a
    requires FillLayer(a, maxOut, price, swapForY).value.out <= maxOut
    requires FillLayer(b, maxOut - FillLayer(a, maxOut, price, swapForY).value.out, price, swapForY).Some?
    ensures var f1, f := FillLayer(a, maxOut, price, swapForY).value, FillLayer(c, maxOut, price, swapForY).value;
      var f2 := FillLayer(b, maxOut - f1.out, price, swapForY).value;
      f1.out + f2.out <= f.out && (f2.used < b ==> f.used <= a + f2.used && f2.out == maxOut - f1.out)
  {
    hide FillLayer, AtPrice;
    LayerIsSound(a, maxOut, price, swapForY);
    var f1 := FillLayer(a, maxOut, price, swapForY).value;
    LayerIsSound(b, maxOut - f1.out, price, swapForY);
    var f2 := FillLayer(b, maxOut - f1.out, price, swapForY).value;
    PricesAdd(a, f1.out, f2.used, f2.out, price, swapForY);
    LayerIsExact(c, maxOut, price, swapForY, a + f2.used, f1.out + f2.out);
  }

  // ── all layers, split ───────────────────────────────────────────────────

  lemma {:induction false} AllMonotone(layers: seq<u64>, a: u64, a': u64, price: u128, swapForY: bool)
    requires a <= a' && FillAll(layers, a, price, swapForY).Some? && FillAll(layers, a', price, swapForY).Some?
    ensures MonotoneFill(a, FillAll(layers, a, price, swapForY).value, FillAll(layers, a', price, swapForY).value)
  {
    hide FillLayer, AtPrice;
    if layers != [] {
      LayerIsSound(a, layers[0], price, swapForY);
      LayerIsMonotone(a, a', layers[0], price, swapForY);
      var f, f' := FillLayer(a, layers[0], price, swapForY).value, FillLayer(a', layers[0], price, swapForY).value;
      FillUsesAmount(a', layers[0], price, swapForY);
      if f == f' {
        AllMonotone(layers[1..], a - f.used, a' - f.used, price, swapForY);
      } else {
        NothingFills(layers[1..], price, swapForY);
      }
    }
  }

  lemma FirstRest(layers: seq<u64>, taken: nat)
    requires layers != []
    ensures Rest(layers, taken) != []
    ensures taken <= layers[0] ==> Rest(layers, taken)[0] == layers[0] - taken && Rest(layers, taken)[1..] == layers[1..]
    ensures layers[0] <= taken ==>
      Rest(layers, taken)[0] == 0 && Rest(layers, taken)[1..] == Rest(layers[1..], taken - layers[0])
  {
    RestOfNothing(layers[1..]);
  }

  /** Two fills one after the other, the first out of input, against one of both inputs. */
  lemma {:induction false} AllSplit(layers: seq<u64>, a: u64, b: u64, c: u64, price: u128, swapForY: bool)
    requires a + b <= c && FillAll(layers, a, price, swapForY).Some? && FillAll(layers, c, price, swapForY).Some?
    requires FillAll(layers, a, price, swapForY).value.used == a
    requires FillAll(Rest(layers, FillAll(layers, a, price, swapForY).value.out), b, price, swapForY).Some?
    ensures var f1, f := FillAll(layers, a, price, swapForY).value, FillAll(layers, c, price, swapForY).value;
      var f2 := FillAll(Rest(layers, f1.out), b, price, swapForY).value;
      f1.out + f2.out <= f.out && (f2.used < b ==> f.used <= a + f2.used)
  {
    hide FillLayer, AtPrice, FillAll, Rest, MonotoneFill;
    if layers == [] {
      NoLayersFill(layers, a, price, swapForY);
    }
    if a == 0 {
      NothingFills(layers, price, swapForY);
      RestOfNothing(layers);
      NoMoreThan(layers, b, c, price, swapForY);
    } else {
      FirstFills(layers, a, price, swapForY);
      var h1 := FillLayer(a, layers[0], price, swapForY).value;
      if h1.used == a {
        SplitInLayer(layers, a, b, c, price, swapForY);
      } else {
        FirstFills(layers, c, price, swapForY);
        DrainedFirst(layers[0], a, c, price, swapForY);
        BehindFirst(layers, FillAll(layers, a, price, swapForY).value.out, b, price, swapForY);
        AllSplit(layers[1..], a - h1.used, b, c - h1.used, price, swapForY);
      }
    }
  }

  lemma NoMoreThan(layers: seq<u64>, b: u64, c: u64, price: u128, swapForY: bool)
    requires b <= c && FillAll(layers, b, price, swapForY).Some? && FillAll(layers, c, price, swapForY).Some?
    ensures var f2, f := FillAll(layers, b, price, swapForY).value, FillAll(layers, c, price, swapForY).value;
      f2.out <= f.out && (f2.used < b ==> f.used == f2.used)
  {
    hide FillAll;
    AllMonotone(layers, b, c, price, swapForY);
  }

  /** A fill that leaves input is the same fill with more. */
  lemma DrainedFirst(maxOut: u64, a: u64, c: u64, price: u128, swapForY: bool)
    requires a <= c && FillLayer(a, maxOut, price, swapForY).Some? && FillLayer(c, maxOut, price, swapForY).Some?
    requires FillLayer(a, maxOut, price, swapForY).value.used < a
    ensures FillLayer(c, maxOut, price, swapForY) == FillLayer(a, maxOut, price, swapForY)
    ensures FillLayer(a, maxOut, price, swapForY).value.out == maxOut
  {
    hide FillLayer, AtPrice;
    LayerIsSound(a, maxOut, price, swapForY);
    LayerIsMonotone(a, c, maxOut, price, swapForY);
  }

  /** Behind a drained layer. */
  lemma BehindFirst(layers: seq<u64>, taken: nat, amount: u64, price: u128, swapForY: bool)
    requires layers != [] && layers[0] <= taken
    ensures FillAll(Rest(layers, taken), amount, price, swapForY)
         == FillAll(Rest(layers[1..], taken - layers[0]), amount, price, swapForY)
  {
    hide FillLayer, Rest;
    FirstRest(layers, taken);
    NothingHeld(amount, price, swapForY);
  }

  lemma NothingHeld(amount: u64, price: u128, swapForY: bool)
    ensures FillLayer(amount, 0, price, swapForY) == Some(Fill(0, 0))
  {
  }

  /** The first fill ran out of input in the first layer. */
  lemma SplitInLayer(layers: seq<u64>, a: u64, b: u64, c: u64, price: u128, swapForY: bool)
    requires 0 < a && a + b <= c && layers != []
    requires FillAll(layers, a, price, swapForY).Some? && FillAll(layers, c, price, swapForY).Some?
    requires FillLayer(a, layers[0], price, swapForY).Some? && FillLayer(a, layers[0], price, swapForY).value.used == a
    requires FillAll(Rest(layers, FillAll(layers, a, price, swapForY).value.out), b, price, swapForY).Some?
    ensures var f1, f := FillAll(layers, a, price, swapForY).value, FillAll(layers, c, price, swapForY).value;
      var f2 := FillAll(Rest(layers, f1.out), b, price, swapForY).value;
      f1.out + f2.out <= f.out && (f2.used < b ==> f.used <= a + f2.used)
  {
    hide FillLayer, AtPrice, FillAll, Rest;
    var m, x := layers[0], FillLayer(a, layers[0], price, swapForY).value.out;
    LayerIsSound(a, m, price, swapForY);
    FirstFills(layers, a, price, swapForY);
    FirstFills(layers, c, price, swapForY);
    NothingFills(layers[1..], price, swapForY);
    FirstRest(layers, x);
    FirstFills(Rest(layers, x), b, price, swapForY);
    LayerSplit(a, b, c, m, price, swapForY);
    var g, h := FillLayer(b, m - x, price, swapForY).value, FillLayer(c, m, price, swapForY).value;
    if g.used < b {
      AllMonotone(layers[1..], b - g.used, c - h.used, price, swapForY);
    }
  }

  // ── one bin with its fee, split ─────────────────────────────────────────

  lemma {:induction false} NoLayersFill(layers: seq<u64>, amount: u64, price: u128, swapForY: bool)
    requires forall i | 0 <= i < |layers| :: layers[i] == 0
    ensures FillAll(layers, amount, price, swapForY) == Some(Fill(0, 0))
  {
    if layers != [] {
      NothingHeld(amount, price, swapForY);
      NoLayersFill(layers[1..], amount, price, swapForY);
    }
  }

  lemma NetIsFloor(x: nat, rate: u128)
    requires rate <= MAX_FEE_RATE
    ensures 0 <= x * rate && x - CeilDiv(x * rate, FEE_PRECISION) == x * (FEE_PRECISION - rate) / FEE_PRECISION
  {
    var k := FEE_PRECISION - rate;
    MulNonneg(x, rate);
    MulNonneg(x, k);
    Distribute(k, rate, x);
    assert x * k + x * rate == x * FEE_PRECISION;
    SplitRounding(x * k, x * rate, x, FEE_PRECISION);
  }

  /** An output-side fee on two parts leaves no more than the fee on at least both. */
  lemma NetsAdd(x: nat, y: nat, z: nat, rate: u128)
    requires rate <= MAX_FEE_RATE && x + y <= z
    ensures 0 <= x * rate && 0 <= y * rate && 0 <= z * rate
    ensures x - CeilDiv(x * rate, FEE_PRECISION) + (y - CeilDiv(y * rate, FEE_PRECISION)) <= z - CeilDiv(z * rate, FEE_PRECISION)
  {
    NetIsFloor(x, rate);
    NetIsFloor(y, rate);
    NetIsFloor(x + y, rate);
    KeptPartsAdd(x, y, FEE_PRECISION - rate, FEE_PRECISION);
    NetMonotone(x + y, z, rate);
  }

  /** What the fee leaves for a bin, of two inputs and of both. */
  lemma ExclusionsAdd(a: u64, b: u64, rate: u128, feeOnInput: bool)
    requires rate <= MAX_FEE_RATE && a + b < Q64
    ensures Excluded(a, rate, feeOnInput).Some? && Excluded(b, rate, feeOnInput).Some? && Excluded(a + b, rate, feeOnInput).Some?
    ensures Excluded(a, rate, feeOnInput).value + Excluded(b, rate, feeOnInput).value <= Excluded(a + b, rate, feeOnInput).value
    ensures !feeOnInput ==>
      && Excluded(a, rate, false).value == a && Excluded(b, rate, false).value == b
      && Excluded(a + b, rate, false).value == a + b
  {
    hide Excluded;
    ExcludedIsFloor(a, rate, feeOnInput);
    ExcludedIsFloor(b, rate, feeOnInput);
    ExcludedIsFloor(a + b, rate, feeOnInput);
    if feeOnInput {
      KeptPartsAdd(a, b, FEE_PRECISION - rate, FEE_PRECISION);
    } else {
      NoExclusion(a, rate);
      NoExclusion(b, rate);
      NoExclusion(a + b, rate);
    }
  }

  /** A bin swap from the fill behind it. */
  function Charged(f: Fill, excluded: u64, rate: u128, amount: u64, feeOnInput: bool): Option<BinSwap>
    requires rate <= MAX_FEE_RATE && f.used <= excluded <= amount
  {
    MulNonneg(f.used, rate);
    MulNonneg(f.out, rate);
    if feeOnInput then
      if f.used < excluded then
        var fee :- ToU64(CeilDiv(f.used * rate, FEE_PRECISION - rate));
        var consumed :- ToU64(f.used + fee);
        Some(BinSwap(consumed, f.out, fee))
      else Some(BinSwap(amount, f.out, amount - excluded))
    else
      var fee :- ToU64(CeilDiv(f.out * rate, FEE_PRECISION));
      if fee > f.out then None
      else Some(BinSwap(f.used, f.out - fee, fee))
  }

  lemma SwapIsCharged(layers: Layers, price: u128, rate: u128, amount: u64, swapForY: bool, feeOnInput: bool)
    requires rate <= MAX_FEE_RATE && SwapInBin(layers, price, rate, amount, swapForY, feeOnInput).Some?
    ensures Excluded(amount, rate, feeOnInput).Some?
    ensures var e := Excluded(amount, rate, feeOnInput).value;
      && e <= amount && FillAll(InOrder(layers), e, price, swapForY).Some?
      && var f := FillAll(InOrder(layers), e, price, swapForY).value;
        && SwapInBin(layers, price, rate, amount, swapForY, feeOnInput) == Charged(f, e, rate, amount, feeOnInput)
        && Gross(SwapInBin(layers, price, rate, amount, swapForY, feeOnInput).value, feeOnInput) == f.out
  {
    hide FillBin, FillAll, InOrder;
    BinFillsInOrder(layers, Excluded(amount, rate, feeOnInput).value, price, swapForY);
  }

  /** The three charges compare as the fills do. */
  lemma ChargesSplit(f1: Fill, f2: Fill, f: Fill, e1: u64, e2: u64, e: u64, rate: u128, a: u64, b: u64, feeOnInput: bool)
    requires rate <= MAX_FEE_RATE && a + b < Q64 && f1.used == e1 <= a && f2.used <= e2 <= b && f.used <= e <= a + b
    requires Excluded(a, rate, feeOnInput) == Some(e1) && Excluded(b, rate, feeOnInput) == Some(e2)
    requires Excluded(a + b, rate, feeOnInput) == Some(e)
    requires f1.out + f2.out <= f.out && (f2.used < e2 ==> f.used <= e1 + f2.used)
    requires Charged(f1, e1, rate, a, feeOnInput).Some? && Charged(f2, e2, rate, b, feeOnInput).Some?
    requires Charged(f, e, rate, a + b, feeOnInput).Some?
    ensures var s1, s2 := Charged(f1, e1, rate, a, feeOnInput).value, Charged(f2, e2, rate, b, feeOnInput).value;
      var s := Charged(f, e, rate, a + b, feeOnInput).value;
      s1.out + s2.out <= s.out && (s2.consumed < b ==> s.consumed <= a + s2.consumed)
  {
    hide Excluded;
    ExclusionsAdd(a, b, rate, feeOnInput);
    if feeOnInput {
      ExcludedIsFloor(a, rate, true);
      if f2.used < e2 {
        FeesOnTopAdd(e1, f2.used, f.used, a, rate, FEE_PRECISION);
      }
    } else {
      NetsAdd(f1.out, f2.out, f.out, rate);
    }
  }

  /** A bin swap that consumed its input, a second on what it left of the layers, and one of both inputs. */
  lemma SwapSplit(layers: Layers, rest: Layers, price: u128, rate: u128, a: u64, b: u64, swapForY: bool, feeOnInput: bool)
    requires rate <= MAX_FEE_RATE && a + b < Q64
    requires SwapInBin(layers, price, rate, a, swapForY, feeOnInput).Some?
    requires SwapInBin(rest, price, rate, b, swapForY, feeOnInput).Some?
    requires SwapInBin(layers, price, rate, a + b, swapForY, feeOnInput).Some?
    requires var s1 := SwapInBin(layers, price, rate, a, swapForY, feeOnInput).value;
      s1.consumed == a && InOrder(rest) == Rest(InOrder(layers), Gross(s1, feeOnInput))
    ensures var s1, s2 := SwapInBin(layers, price, rate, a, swapForY, feeOnInput).value,
      SwapInBin(rest, price, rate, b, swapForY, feeOnInput).value;
      var s := SwapInBin(layers, price, rate, a + b, swapForY, feeOnInput).value;
      s1.out + s2.out <= s.out && (s2.consumed < b ==> s.consumed <= a + s2.consumed)
  {
    hide SwapInBin, FillAll, Excluded, Charged, InOrder, Rest;
    SwapIsCharged(layers, price, rate, a, swapForY, feeOnInput);
    SwapIsCharged(rest, price, rate, b, swapForY, feeOnInput);
    SwapIsCharged(layers, price, rate, a + b, swapForY, feeOnInput);
    ExclusionsAdd(a, b, rate, feeOnInput);
    var e1, e2, e := Excluded(a, rate, feeOnInput).value, Excluded(b, rate, feeOnInput).value,
        Excluded(a + b, rate, feeOnInput).value;
    var f1 := FillAll(InOrder(layers), e1, price, swapForY).value;
    var f2 := FillAll(InOrder(rest), e2, price, swapForY).value;
    var f := FillAll(InOrder(layers), e, price, swapForY).value;
    if f1.used == e1 {
      AllSplit(InOrder(layers), e1, e2, e, price, swapForY);
      ChargesSplit(f1, f2, f, e1, e2, e, rate, a, b, feeOnInput);
    } else {
      AllMonotone(InOrder(layers), e1, e, price, swapForY);
      BinFillsInOrder(layers, e1, price, swapForY);
      BinIsSound(layers, e1, price, swapForY);
      EmptyRest(layers);
      NoLayersFill(InOrder(rest), e2, price, swapForY);
      DrainedAgain(f, e1, e, rate, a, b, feeOnInput);
      DrainedSecond(e2, rate, b, feeOnInput);
    }
  }

  /** A fill that left input is charged the same whatever more there was. */
  lemma DrainedAgain(f: Fill, e1: u64, e: u64, rate: u128, a: u64, b: u64, feeOnInput: bool)
    requires rate <= MAX_FEE_RATE && a + b < Q64 && f.used < e1 <= e && e1 <= a && e <= a + b
    requires Charged(f, e1, rate, a, feeOnInput).Some? && Charged(f, e, rate, a + b, feeOnInput).Some?
    ensures Charged(f, e, rate, a + b, feeOnInput) == Charged(f, e1, rate, a, feeOnInput)
  {
  }

  lemma DrainedSecond(e2: u64, rate: u128, b: u64, feeOnInput: bool)
    requires rate <= MAX_FEE_RATE && e2 <= b && Charged(Fill(0, 0), e2, rate, b, feeOnInput).Some?
    ensures Charged(Fill(0, 0), e2, rate, b, feeOnInput).value.out == 0
  {
  }

  /** A bin swap that consumed its input by taking everything, against one of more input: it consumes no more either, or
      the fee takes all that the input had over. */
  lemma SwapDrains(layers: Layers, price: u128, rate: u128, a: u64, b: u64, swapForY: bool, feeOnInput: bool)
    requires rate <= MAX_FEE_RATE && a + b < Q64
    requires SwapInBin(layers, price, rate, a, swapForY, feeOnInput).Some?
    requires SwapInBin(layers, price, rate, a + b, swapForY, feeOnInput).Some?
    requires var s1 := SwapInBin(layers, price, rate, a, swapForY, feeOnInput).value;
      s1.consumed == a && Gross(s1, feeOnInput) == layers.Total()
    ensures Excluded(b, rate, feeOnInput).Some?
    ensures var s1, s := SwapInBin(layers, price, rate, a, swapForY, feeOnInput).value,
      SwapInBin(layers, price, rate, a + b, swapForY, feeOnInput).value;
      s1.out <= s.out && (s.consumed <= a || Excluded(b, rate, feeOnInput).value == 0)
  {
    hide SwapInBin, FillAll, Excluded, Charged, InOrder, Rest;
    SwapIsCharged(layers, price, rate, a, swapForY, feeOnInput);
    SwapIsCharged(layers, price, rate, a + b, swapForY, feeOnInput);
    SwapIsMonotone(layers, price, rate, a, a + b, swapForY, feeOnInput);
    ExclusionsAdd(a, b, rate, feeOnInput);
    var e1, e := Excluded(a, rate, feeOnInput).value, Excluded(a + b, rate, feeOnInput).value;
    var f1, f := FillAll(InOrder(layers), e1, price, swapForY).value, FillAll(InOrder(layers), e, price, swapForY).value;
    if f1.used == e1 && e1 < e {
      var zeros := Layers(0, 0, 0);
      EmptyRest(layers);
      NoLayersFill(InOrder(zeros), e - e1, price, swapForY);
      AllSplit(InOrder(layers), e1, e - e1, e, price, swapForY);
      DrainedCharge(f, e1, e, rate, a, a + b, feeOnInput);
    } else if f1.used < e1 {
      AllMonotone(InOrder(layers), e1, e, price, swapForY);
      DrainedAgain(f, e1, e, rate, a, b, feeOnInput);
    }
  }

  lemma EmptyRest(layers: Layers)
    ensures Rest(InOrder(layers), layers.Total()) == InOrder(Layers(0, 0, 0))
    ensures forall i | 0 <= i < |InOrder(Layers(0, 0, 0))| :: InOrder(Layers(0, 0, 0))[i] == 0
  {
    var l := InOrder(layers);
    assert l[1..] == [layers.processed, layers.open];
    assert Rest([layers.open], layers.open) == [0] by { assert [layers.open][1..] == []; }
    assert Rest([layers.processed, layers.open], layers.processed + layers.open) == [0, 0] by {
      assert [layers.processed, layers.open][1..] == [layers.open];
    }
  }

  /** A bin drained by what a smaller input left for it costs no more than that input. */
  lemma DrainedCharge(f: Fill, e1: u64, e: u64, rate: u128, a: u64, c: u64, feeOnInput: bool)
    requires rate <= MAX_FEE_RATE && e1 <= a && f.used <= e1 < e <= c
    requires Excluded(a, rate, feeOnInput) == Some(e1) && Charged(f, e, rate, c, feeOnInput).Some?
    ensures Charged(f, e, rate, c, feeOnInput).value.consumed <= a
  {
    hide Excluded;
    if feeOnInput {
      ExcludedIsFloor(a, rate, true);
      FeeOnTopIff(f.used, a, rate, FEE_PRECISION);
    }
  }

  // ── walks side by side ──────────────────────────────────────────────────

  /** The same rate in every bin, and nothing else that matters differs. */
  ghost predicate SameTerms(env: Env, env': Env) {
    && env'.swapForY == env.swapForY && env'.limitOrders == env.limitOrders && env'.feeOnInput == env.feeOnInput
    && env'.pair.binStep == env.pair.binStep
    && forall i, j :: RateAt(env'.pair, i) == RateAt(env.pair, j)
  }

  predicate SameBin(env: Env, x: Bin, y: Bin) {
    LayersOf(x, env.swapForY, env.limitOrders) == LayersOf(y, env.swapForY, env.limitOrders) && x.price == y.price
  }

  lemma {:induction false} SameWalk(env: Env, env': Env, chain: int -> Bin, chain': int -> Bin, id: int, t: Totals)
    requires SameTerms(env, env') && forall x | 0 <= Distance(env, id, x) :: SameBin(env, chain'(x), chain(x))
    ensures NaiveWalk(env', chain', id, t) == NaiveWalk(env, chain, id, t)
    decreases if env.swapForY then Max(id - MIN_BIN_ID, 0) else Max(MAX_BIN_ID - id, 0)
  {
    if t.left != 0 {
      SameVisit(env, env', id, chain(id), chain'(id), t);
      hide VisitBin, RateAt;
      var u := VisitBin(env, id, chain(id), t);
      if u.Ok? && u.value.left != 0 && LegalBin(NextBin(env, id)) {
        SameWalk(env, env', chain, chain', NextBin(env, id), u.value);
      }
    }
  }

  lemma SameVisit(env: Env, env': Env, id: int, bin: Bin, bin': Bin, t: Totals)
    requires SameTerms(env, env') && SameBin(env, bin', bin)
    ensures VisitBin(env', id, bin', t) == VisitBin(env, id, bin, t)
  {
    hide RateAt, SwapInBin, LayersOf;
    assert RateAt(env'.pair, id) == RateAt(env.pair, id);
  }

  lemma VisitTogether(env: Env, id: int, bin: Bin, t: Totals, t': Totals)
    requires t.left <= t'.left && VisitBin(env, id, bin, t).Ok? && VisitBin(env, id, bin, t').Ok?
    ensures var u, u' := VisitBin(env, id, bin, t).value, VisitBin(env, id, bin, t').value;
      && u.out - t.out <= u'.out - t'.out && t'.out <= u'.out
      && (u.left != 0 ==> u.out - t.out == u'.out - t'.out && u'.left - u.left == t'.left - t.left)
  {
    hide SwapInBin, RateAt, BinPrice;
    if HasLiquidity(env, bin) {
      var layers, rate, price := LayersOf(bin, env.swapForY, env.limitOrders), RateAt(env.pair, id).value,
          BinPrice(env, id, bin).value;
      SwapIsMonotone(layers, price, rate, t.left, t'.left, env.swapForY, env.feeOnInput);
    }
  }

  lemma {:induction false} NaiveGrows(env: Env, chain: int -> Bin, id: int, t: Totals)
    requires NaiveWalk(env, chain, id, t).Ok?
    ensures t.out <= NaiveWalk(env, chain, id, t).value.totals.out
    decreases if env.swapForY then Max(id - MIN_BIN_ID, 0) else Max(MAX_BIN_ID - id, 0)
  {
    hide VisitBin;
    if t.left != 0 {
      VisitTogether(env, id, chain(id), t, t);
      var u := VisitBin(env, id, chain(id), t).value;
      if u.left != 0 {
        NaiveGrows(env, chain, NextBin(env, id), u);
      }
    }
  }

  /** A walk with more input, and `d` more output so far, stays at least `d` ahead. */
  lemma {:induction false} NaiveTogether(env: Env, chain: int -> Bin, id: int, t: Totals, t': Totals, d: int)
    requires t.left <= t'.left && t.out + d <= t'.out
    requires NaiveWalk(env, chain, id, t).Ok? && NaiveWalk(env, chain, id, t').Ok?
    ensures NaiveWalk(env, chain, id, t).value.totals.out + d <= NaiveWalk(env, chain, id, t').value.totals.out
    decreases if env.swapForY then Max(id - MIN_BIN_ID, 0) else Max(MAX_BIN_ID - id, 0)
  {
    hide VisitBin;
    NaiveGrows(env, chain, id, t');
    if t.left != 0 {
      VisitTogether(env, id, chain(id), t, t');
      var u, u' := VisitBin(env, id, chain(id), t).value, VisitBin(env, id, chain(id), t').value;
      if u.left != 0 {
        NaiveTogether(env, chain, NextBin(env, id), u, u', d);
      } else if u'.left != 0 {
        NaiveGrows(env, chain, NextBin(env, id), u');
      }
    }
  }

  /** An input the fee takes whole buys nothing anywhere. */
  lemma {:induction false} WorthlessWalk(env: Env, chain: int -> Bin, id: int, t: Totals, rate: u128)
    requires NaiveWalk(env, chain, id, t).Ok? && rate <= MAX_FEE_RATE && forall i :: RateAt(env.pair, i) == Some(rate)
    requires Excluded(t.left, rate, env.feeOnInput) == Some(0)
    ensures NaiveWalk(env, chain, id, t).value.totals.out == t.out
    decreases if env.swapForY then Max(id - MIN_BIN_ID, 0) else Max(MAX_BIN_ID - id, 0)
  {
    hide VisitBin, RateAt;
    if t.left != 0 {
      WorthlessVisit(env, id, chain(id), t, rate);
      var u := VisitBin(env, id, chain(id), t).value;
      if u.left != 0 {
        WorthlessWalk(env, chain, NextBin(env, id), u, rate);
      }
    }
  }

  lemma WorthlessVisit(env: Env, id: int, bin: Bin, t: Totals, rate: u128)
    requires VisitBin(env, id, bin, t).Ok? && rate <= MAX_FEE_RATE && RateAt(env.pair, id) == Some(rate)
    requires Excluded(t.left, rate, env.feeOnInput) == Some(0)
    ensures var u := VisitBin(env, id, bin, t).value; u.out == t.out && (u.left == 0 || u == t)
  {
    hide RateAt, BinPrice, FillAll, InOrder, Excluded;
    if HasLiquidity(env, bin) {
      var layers, price := LayersOf(bin, env.swapForY, env.limitOrders), BinPrice(env, id, bin).value;
      SwapIsCharged(layers, price, rate, t.left, env.swapForY, env.feeOnInput);
      NothingFills(InOrder(layers), price, env.swapForY);
      if !env.feeOnInput { NoExclusion(t.left, rate); }
    }
  }

  // ── the walk, split ─────────────────────────────────────────────────────

  /** What a walk takes from the bin it ends in, before an output-side fee. */
  function EndTaken(env: Env, chain: int -> Bin, id: int, t: Totals): int
    requires NaiveWalk(env, chain, id, t).Ok?
    decreases if env.swapForY then Max(id - MIN_BIN_ID, 0) else Max(MAX_BIN_ID - id, 0)
  {
    if t.left == 0 then 0
    else
      var u := VisitBin(env, id, chain(id), t).value;
      if u.left == 0 then Gross(VisitSwap(env, id, chain(id), t), env.feeOnInput)
      else EndTaken(env, chain, NextBin(env, id), u)
  }

  /** The bins from `end` on once `taken` has been taken from bin `end`, layer by layer in fill order. */
  ghost predicate TakenFrom(env: Env, chain: int -> Bin, end: int, taken: int, chain': int -> Bin) {
    && 0 <= taken && chain'(end).price == chain(end).price
    && InOrder(LayersOf(chain'(end), env.swapForY, env.limitOrders))
       == Rest(InOrder(LayersOf(chain(end), env.swapForY, env.limitOrders)), taken)
    && forall x | 0 <= Distance(env, NextBin(env, end), x) :: SameBin(env, chain'(x), chain(x))
  }

  /** Bin `end` paid out of in that order, the others untouched. */
  function AfterTaking(env: Env, chain: int -> Bin, end: int, taken: nat): int -> Bin {
    var bin := chain(end);
    var rest := Rest(InOrder(LayersOf(bin, env.swapForY, env.limitOrders)), taken);
    var paid := if env.swapForY then bin.(amountY := rest[0]) else bin.(amountX := rest[0]);
    var after := if env.limitOrders && env.swapForY != bin.askSide
                 then paid.(processedOrders := rest[1], openOrders := rest[2]) else paid;
    x => if x == end then after else chain(x)
  }

  lemma TakingLeaves(env: Env, chain: int -> Bin, end: int, taken: nat)
    ensures TakenFrom(env, chain, end, taken, AfterTaking(env, chain, end, taken))
  {
    var bin := chain(end);
    var layers := InOrder(LayersOf(bin, env.swapForY, env.limitOrders));
    var rest := Rest(layers, taken);
    assert rest == [rest[0], rest[1], rest[2]];
    if !(env.limitOrders && env.swapForY != bin.askSide) {
      assert layers[1..] == [0, 0];
      FirstRest(layers, taken);
      assert rest[1] == rest[1..][0] && rest[2] == rest[1..][1];
      NoRest(layers[1..], Max(taken - layers[0], 0));
    }
  }

  lemma {:induction false} NoRest(layers: seq<u64>, taken: nat)
    requires forall i | 0 <= i < |layers| :: layers[i] == 0
    ensures Rest(layers, taken) == layers
  {
    if layers != [] {
      NoRest(layers[1..], taken);
    }
  }

  /** The visit that ended the first walk, what the second finds there, and the visit of both inputs. */
  ghost predicate EndsHere(env: Env, id: int, bin: Bin, bin': Bin, t: Totals, b: u64, all: Totals) {
    && 0 < t.left && all.left == t.left + b && all.out == t.out
    && VisitBin(env, id, bin, t).Ok? && VisitBin(env, id, bin, t).value.left == 0
    && bin'.price == bin.price && 0 <= Gross(VisitSwap(env, id, bin, t), env.feeOnInput)
    && InOrder(LayersOf(bin', env.swapForY, env.limitOrders))
       == Rest(InOrder(LayersOf(bin, env.swapForY, env.limitOrders)), Gross(VisitSwap(env, id, bin, t), env.feeOnInput))
    && VisitBin(env, id, bin', Totals(b, 0, 0)).Ok? && VisitBin(env, id, bin, all).Ok?
  }

  lemma EndHasLiquidity(env: Env, id: int, bin: Bin, t: Totals)
    requires VisitBin(env, id, bin, t).Ok? && 0 < t.left && VisitBin(env, id, bin, t).value.left == 0
    ensures HasLiquidity(env, bin) && RateAt(env.pair, id).Some? && BinPrice(env, id, bin).Some?
  {
  }

  /** The second walk finds liquidity left in the end bin. */
  lemma VisitSplit(env: Env, id: int, bin: Bin, bin': Bin, t: Totals, b: u64, all: Totals)
    requires EndsHere(env, id, bin, bin', t, b, all) && HasLiquidity(env, bin')
    ensures var u, x, y := VisitBin(env, id, bin, t).value, VisitBin(env, id, bin', Totals(b, 0, 0)).value,
      VisitBin(env, id, bin, all).value;
      u.out + x.out <= y.out && (x.left != 0 ==> x.left <= y.left)
  {
    hide SwapInBin, RateAt, InOrder, Rest, HasLiquidity;
    EndHasLiquidity(env, id, bin, t);
    SwapSplit(LayersOf(bin, env.swapForY, env.limitOrders), LayersOf(bin', env.swapForY, env.limitOrders),
              BinPrice(env, id, bin).value, RateAt(env.pair, id).value, t.left, b, env.swapForY, env.feeOnInput);
  }

  lemma EmptyBin(env: Env, bin: Bin)
    requires !HasLiquidity(env, bin)
    ensures LayersOf(bin, env.swapForY, env.limitOrders).Total() == 0
  {
  }

  /** The second walk finds the end bin empty. */
  lemma VisitDrained(env: Env, id: int, bin: Bin, bin': Bin, t: Totals, b: u64, all: Totals)
    requires EndsHere(env, id, bin, bin', t, b, all) && !HasLiquidity(env, bin')
    ensures RateAt(env.pair, id).Some? && Excluded(b, RateAt(env.pair, id).value, env.feeOnInput).Some?
    ensures var u, y := VisitBin(env, id, bin, t).value, VisitBin(env, id, bin, all).value;
      u.out <= y.out && (b <= y.left || Excluded(b, RateAt(env.pair, id).value, env.feeOnInput).value == 0)
  {
    hide SwapInBin, RateAt, InOrder, Rest, Excluded, AtPrice, LayersOf, HasLiquidity, BinPrice;
    EndHasLiquidity(env, id, bin, t);
    EmptyBin(env, bin');
    var layers, rate := LayersOf(bin, env.swapForY, env.limitOrders), RateAt(env.pair, id).value;
    var price := BinPrice(env, id, bin).value;
    SwapIsSound(layers, price, rate, t.left, env.swapForY, env.feeOnInput);
    NothingRests(layers, LayersOf(bin', env.swapForY, env.limitOrders), Gross(VisitSwap(env, id, bin, t), env.feeOnInput));
    SwapDrains(layers, price, rate, t.left, b, env.swapForY, env.feeOnInput);
  }

  lemma NothingRests(layers: Layers, rest: Layers, taken: nat)
    requires InOrder(rest) == Rest(InOrder(layers), taken) && rest.Total() == 0 && taken <= layers.Total()
    ensures taken == layers.Total()
  {
    hide InOrder, Rest, Sum;
    RestSums(InOrder(layers), taken);
    TotalIsSum(layers);
    TotalIsSum(rest);
  }

  /** From the end bin on. */
  lemma SplitFromEnd(env: Env, env': Env, chain: int -> Bin, chain': int -> Bin, id: int, t: Totals, b: u64, all: Totals)
    requires SameTerms(env, env') && EndsHere(env, id, chain(id), chain'(id), t, b, all) && b != 0
    requires forall x | 0 <= Distance(env, NextBin(env, id), x) :: SameBin(env, chain'(x), chain(x))
    requires NaiveWalk(env', chain', id, Totals(b, 0, 0)).Ok? && NaiveWalk(env, chain, id, all).Ok?
    ensures VisitBin(env, id, chain(id), t).value.out + NaiveWalk(env', chain', id, Totals(b, 0, 0)).value.totals.out
      <= NaiveWalk(env, chain, id, all).value.totals.out
  {
    hide VisitBin, RateAt, Excluded, HasLiquidity;
    var second := Totals(b, 0, 0);
    SameVisit(env, env', id, chain'(id), chain'(id), second);
    var u, x := VisitBin(env, id, chain(id), t).value, VisitBin(env, id, chain'(id), second).value;
    var y := VisitBin(env, id, chain(id), all).value;
    NaiveGrows(env, chain, id, all);
    if HasLiquidity(env, chain'(id)) {
      VisitSplit(env, id, chain(id), chain'(id), t, b, all);
    } else {
      EmptyVisit(env, id, chain'(id), second);
      VisitDrained(env, id, chain(id), chain'(id), t, b, all);
    }
    var next := NextBin(env, id);
    if x.left != 0 {
      SameWalk(env, env', chain, chain', next, x);
      if x.left <= y.left {
        NaiveTogether(env, chain, next, x, y, y.out - x.out);
      } else {
        forall i ensures RateAt(env.pair, i) == RateAt(env.pair, id) {
          assert RateAt(env'.pair, 0) == RateAt(env.pair, i);
        }
        WorthlessWalk(env, chain, next, x, RateAt(env.pair, id).value);
      }
    }
    if y.left != 0 {
      NaiveGrows(env, chain, next, y);
    }
  }

  lemma EmptyVisit(env: Env, id: int, bin: Bin, t: Totals)
    requires !HasLiquidity(env, bin)
    ensures VisitBin(env, id, bin, t) == Ok(t)
  {
  }

  lemma {:induction false} NaiveSplit(env: Env, env': Env, chain: int -> Bin, chain': int -> Bin, id: int, t: Totals, b: u64,
      all: Totals)
    requires SameTerms(env, env') && all.left == t.left + b && all.out == t.out
    requires NaiveWalk(env, chain, id, t).Ok? && NaiveWalk(env, chain, id, all).Ok?
    requires TakenFrom(env, chain, NaiveWalk(env, chain, id, t).value.id, EndTaken(env, chain, id, t), chain')
    requires NaiveWalk(env', chain', NaiveWalk(env, chain, id, t).value.id, Totals(b, 0, 0)).Ok?
    ensures var end := NaiveWalk(env, chain, id, t).value;
      end.totals.out + NaiveWalk(env', chain', end.id, Totals(b, 0, 0)).value.totals.out
      <= NaiveWalk(env, chain, id, all).value.totals.out
    decreases if env.swapForY then Max(id - MIN_BIN_ID, 0) else Max(MAX_BIN_ID - id, 0)
  {
    hide VisitBin, VisitSwap, RateAt, InOrder, Rest, LayersOf;
    if b == 0 {
      NaiveTogether(env, chain, id, t, all, 0);
    } else if t.left == 0 {
      RestOfNothing(InOrder(LayersOf(chain(id), env.swapForY, env.limitOrders)));
      SameLayers(env, chain(id), chain'(id));
      SameWalk(env, env', chain, chain', id, Totals(b, 0, 0));
      NaiveTogether(env, chain, id, Totals(b, 0, 0), all, t.out);
    } else {
      VisitTogether(env, id, chain(id), t, all);
      var u := VisitBin(env, id, chain(id), t).value;
      if u.left == 0 {
        SameVisit(env, env', id, chain'(id), chain'(id), Totals(b, 0, 0));
        SplitFromEnd(env, env', chain, chain', id, t, b, all);
      } else {
        NaiveSplit(env, env', chain, chain', NextBin(env, id), u, b, VisitBin(env, id, chain(id), all).value);
      }
    }
  }

  lemma SameLayers(env: Env, x: Bin, y: Bin)
    requires InOrder(LayersOf(x, env.swapForY, env.limitOrders)) == InOrder(LayersOf(y, env.swapForY, env.limitOrders))
    requires x.price == y.price
    ensures SameBin(env, x, y) && SameBin(env, y, x)
  {
    var l, m := LayersOf(x, env.swapForY, env.limitOrders), LayersOf(y, env.swapForY, env.limitOrders);
    assert InOrder(l)[0] == InOrder(m)[0] && InOrder(l)[1] == InOrder(m)[1] && InOrder(l)[2] == InOrder(m)[2];
  }

  // ── the swap, split ─────────────────────────────────────────────────────

  /** The same pair but for its place and its volatility, which a constant fee ignores. */
  predicate SameButVolatility(p: Pair, q: Pair) {
    q == p.(activeId := q.activeId, volatilityAccumulator := q.volatilityAccumulator,
            volatilityReference := q.volatilityReference, indexReference := q.indexReference, lastUpdate := q.lastUpdate)
  }

  lemma ConstantFee(data: Data, data': Data, swapForY: bool, now: int, now': int)
    requires SameButVolatility(data.pair, data'.pair) && data.pair.variableFeeControl == 0
    ensures SameTerms(EnvOf(data, swapForY, now), EnvOf(data', swapForY, now'))
  {
    var p, q := EnvOf(data, swapForY, now).pair, EnvOf(data', swapForY, now').pair;
    forall i, j ensures RateAt(q, i) == RateAt(p, j) {
      ConstantRate(q, p, VolatilityAt(q, i), VolatilityAt(p, j));
    }
  }

  lemma ConstantRate(p: Pair, q: Pair, v: u32, w: u32)
    requires p.variableFeeControl == 0 && q.variableFeeControl == 0
    requires p.baseFactor == q.baseFactor && p.binStep == q.binStep && p.baseFeePower == q.baseFeePower
    ensures RateOf(p, v) == RateOf(q, w)
  {
    hide TenTo;
  }

  /** With a constant fee, two consecutive swaps never pay more than one of the sum: any bins and layers, both fee sides. */
  lemma SplitNeverPaysMore(data: Data, data': Data, chain: int -> Bin, chain': int -> Bin, swapForY: bool, a: u64, b: u64,
      now: int, now': int, slot: u64, slot': u64, maxArrays: nat)
    requires ValidData(data) && Agrees(data, chain) && HonestBitmap(EnvOf(data, swapForY, now), data, chain)
    requires ValidData(data') && Agrees(data', chain') && HonestBitmap(EnvOf(data', swapForY, now'), data', chain')
    requires LegalBin(data.pair.activeId) && LegalBin(data'.pair.activeId) && a + b < Q64
    requires SwapExactIn(data, swapForY, a, now, slot, maxArrays).Ok?
    requires SwapExactIn(data, swapForY, a + b, now, slot, maxArrays).Ok?
    requires SwapExactIn(data', swapForY, b, now', slot', maxArrays).Ok?
    requires SameButVolatility(data.pair, data'.pair) && data.pair.variableFeeControl == 0
    requires data'.pair.activeId == SwapExactIn(data, swapForY, a, now, slot, maxArrays).value.endBin
    requires var env := EnvOf(data, swapForY, now);
      && NaiveWalk(env, chain, data.pair.activeId, Totals(a, 0, 0)).Ok?
      && TakenFrom(env, chain, data'.pair.activeId, EndTaken(env, chain, data.pair.activeId, Totals(a, 0, 0)), chain')
    ensures SwapExactIn(data, swapForY, a, now, slot, maxArrays).value.amountOut
      + SwapExactIn(data', swapForY, b, now', slot', maxArrays).value.amountOut
      <= SwapExactIn(data, swapForY, a + b, now, slot, maxArrays).value.amountOut
  {
    hide SwapExactIn, NaiveWalk, HonestBitmap, Agrees, EndTaken, TakenFrom, EnvOf;
    SwapIsNaive(data, chain, swapForY, a, now, slot, maxArrays);
    SwapIsNaive(data, chain, swapForY, a + b, now, slot, maxArrays);
    SwapIsNaive(data', chain', swapForY, b, now', slot', maxArrays);
    ConstantFee(data, data', swapForY, now, now');
    NaiveSplit(EnvOf(data, swapForY, now), EnvOf(data', swapForY, now'), chain, chain', data.pair.activeId,
               Totals(a, 0, 0), b, Totals(a + b, 0, 0));
  }
}

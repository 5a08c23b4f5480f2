/** The DAMM v2 rate limiter: a fee rate that climbs with the size of the swap (`src/quote/damm_v2.rs`). */
module RateLimiter {
  import opened Numbers
  import opened SqrtCurve

  /** Cliff rate, reference amount, increment and cap in basis points, as the pool stores them. */
  datatype Limiter = Limiter(cliff: u64, reference: u64, incrementBps: u16, maxBps: u32)

  /** Basis points to a rate per 10⁹. */
  function ToNumerator(bps: u32): u64 {
    bps * FEE_DENOMINATOR / 10_000
  }

  /** The last whole step below the cap. */
  function MaxIndex(l: Limiter): (r: Option<nat>)
    ensures r.Some? <==> l.cliff <= ToNumerator(l.maxBps) && l.incrementBps != 0
  {
    if l.cliff > ToNumerator(l.maxBps) || l.incrementBps == 0 then None
    else
      FloorIff(ToNumerator(l.maxBps) - l.cliff, ToNumerator(l.incrementBps), 0);
      Some((ToNumerator(l.maxBps) - l.cliff) / ToNumerator(l.incrementBps))
  }

  // ── the closed form ─────────────────────────────────────────────────────

  /** The fee on `amount` above the reference, times 10⁹, in closed form. */
  function ClosedForm(l: Limiter, amount: u64, maxIndex: nat): int
    requires 0 < l.reference < amount
  {
    var maxFee, inc := ToNumerator(l.maxBps), ToNumerator(l.incrementBps);
    var a, b := (amount - l.reference) / l.reference, (amount - l.reference) % l.reference;
    if a < maxIndex then
      var n1 := l.cliff + l.cliff * a + inc * a * (a + 1) / 2;
      var n2 := l.cliff + inc * (a + 1);
      l.reference * n1 + b * n2
    else
      var n1 := l.cliff + l.cliff * maxIndex + inc * maxIndex * (maxIndex + 1) / 2;
      l.reference * n1 + ((a - maxIndex) * l.reference + b) * maxFee
  }

  lemma ClosedFormNonneg(l: Limiter, amount: u64, maxIndex: nat)
    requires 0 < l.reference < amount
    ensures 0 <= ClosedForm(l, amount, maxIndex)
  {
    var maxFee, inc := ToNumerator(l.maxBps), ToNumerator(l.incrementBps);
    var a, b := (amount - l.reference) / l.reference, (amount - l.reference) % l.reference;
    FloorIff(amount - l.reference, l.reference, 0);
    var m := Min(a, maxIndex);
    MulNonneg(l.cliff, m);
    MulNonneg(inc, m);
    MulNonneg(inc * m, m + 1);
    MulNonneg(l.reference, l.cliff + l.cliff * m + inc * m * (m + 1) / 2);
    if a < maxIndex {
      MulNonneg(inc, a + 1);
      MulNonneg(b, l.cliff + inc * (a + 1));
    } else {
      MulNonneg(a - maxIndex, l.reference);
      MulNonneg((a - maxIndex) * l.reference + b, maxFee);
    }
  }

  /** The rate for `amount`, rounded up twice: to whole atoms of fee, then to a rate. */
  function RateFor(l: Limiter, amount: u64): Option<u64> {
    if amount <= l.reference then Some(l.cliff)
    else
      var maxIndex :- MaxIndex(l);
      if l.reference == 0 then None
      else
        var total := ClosedForm(l, amount, maxIndex);
        ClosedFormNonneg(l, amount, maxIndex);
        var fee :- ToU64(CeilDiv(total, FEE_DENOMINATOR));
        ToU64(CeilDiv(fee * FEE_DENOMINATOR, amount))
  }

  // ── the step sum ────────────────────────────────────────────────────────

  /** Reference-sized chunk `k` pays the cliff plus `k` increments, and the cap past the last step. */
  function ChunkRate(l: Limiter, maxIndex: nat, k: nat): u64
    requires MaxIndex(l) == Some(maxIndex)
  {
    if k <= maxIndex then
      StepBelowCap(l, maxIndex, k);
      l.cliff + k * ToNumerator(l.incrementBps)
    else ToNumerator(l.maxBps)
  }

  lemma StepBelowCap(l: Limiter, maxIndex: nat, k: nat)
    requires MaxIndex(l) == Some(maxIndex) && k <= maxIndex
    ensures 0 <= k * ToNumerator(l.incrementBps) && l.cliff + k * ToNumerator(l.incrementBps) <= ToNumerator(l.maxBps)
  {
  }

  /** Chunk by chunk, from chunk `k` on: the progressive fee times 10⁹. */
  function StepSum(l: Limiter, maxIndex: nat, amount: nat, k: nat): int
    requires MaxIndex(l) == Some(maxIndex) && 0 < l.reference
    decreases amount
  {
    if amount <= l.reference then amount * ChunkRate(l, maxIndex, k)
    else l.reference * ChunkRate(l, maxIndex, k) + StepSum(l, maxIndex, amount - l.reference, k + 1)
  }

  /** The sum of the first `n` chunk rates. */
  function RateSum(l: Limiter, maxIndex: nat, k: nat, n: nat): int
    requires MaxIndex(l) == Some(maxIndex)
    decreases n
  {
    if n == 0 then 0 else ChunkRate(l, maxIndex, k) + RateSum(l, maxIndex, k + 1, n - 1)
  }

  /** `n` whole chunks and a rest. */
  lemma {:induction false} StepSumSplits(l: Limiter, maxIndex: nat, n: nat, rest: nat, k: nat)
    requires MaxIndex(l) == Some(maxIndex) && 0 < l.reference && rest < l.reference && 0 <= n * l.reference
    ensures StepSum(l, maxIndex, n * l.reference + rest, k)
      == l.reference * RateSum(l, maxIndex, k, n) + rest * ChunkRate(l, maxIndex, k + n)
    decreases n
  {
    hide MaxIndex, ChunkRate;
    if n > 0 {
      var r, x, sum := ChunkRate(l, maxIndex, k), l.reference, RateSum(l, maxIndex, k + 1, n - 1);
      OneChunkFewer(n, x);
      StepSumSplits(l, maxIndex, n - 1, rest, k + 1);
      assert x * (r + sum) == x * r + x * sum;
      if n == 1 && rest == 0 {
        assert StepSum(l, maxIndex, x, k) == x * r;
        assert sum == 0;
      } else {
        assert StepSum(l, maxIndex, n * x + rest, k) == x * r + StepSum(l, maxIndex, (n - 1) * x + rest, k + 1);
      }
    }
  }

  lemma OneChunkFewer(n: nat, x: nat)
    requires 0 < n && 0 < x
    ensures n * x == (n - 1) * x + x && 0 <= (n - 1) * x && (1 < n ==> x < n * x)
  {
  }

  /** Below the cap the chunk rates are an arithmetic progression. */
  lemma {:induction false} Climbing(l: Limiter, maxIndex: nat, k: nat, n: nat)
    requires MaxIndex(l) == Some(maxIndex) && k + n <= maxIndex + 1
    ensures 2 * RateSum(l, maxIndex, k, n) == 2 * (n * l.cliff) + ToNumerator(l.incrementBps) * (n * (2 * k + n - 1))
    decreases n
  {
    if n > 0 {
      Climbing(l, maxIndex, k + 1, n - 1);
      OneMoreStep(l.cliff, ToNumerator(l.incrementBps), k, n);
    }
  }

  lemma OneMoreStep(c: int, i: int, k: int, n: int)
    ensures 2 * (c + k * i) + 2 * ((n - 1) * c) + i * ((n - 1) * (2 * (k + 1) + (n - 1) - 1))
      == 2 * (n * c) + i * (n * (2 * k + n - 1))
  {
  }

  /** Past the last step every chunk pays the cap. */
  lemma {:induction false} Capped(l: Limiter, maxIndex: nat, k: nat, n: nat)
    requires MaxIndex(l) == Some(maxIndex) && maxIndex < k
    ensures RateSum(l, maxIndex, k, n) == n * ToNumerator(l.maxBps)
    decreases n
  {
    if n > 0 {
      Capped(l, maxIndex, k + 1, n - 1);
      var m := ToNumerator(l.maxBps);
      assert m + (n - 1) * m == n * m;
    }
  }

  lemma {:induction false} RateSumSplits(l: Limiter, maxIndex: nat, k: nat, m: nat, n: nat)
    requires MaxIndex(l) == Some(maxIndex)
    ensures RateSum(l, maxIndex, k, m + n) == RateSum(l, maxIndex, k, m) + RateSum(l, maxIndex, k + m, n)
    decreases m
  {
    if m > 0 {
      RateSumSplits(l, maxIndex, k + 1, m - 1, n);
    }
  }

  /** The halved term of the closed form is exact. */
  lemma HalfIsExact(i: int, a: nat)
    ensures 2 * (i * a * (a + 1) / 2) == i * (a * (a + 1))
  {
    EvenProduct(a);
    var h := a * (a + 1) / 2;
    assert i * a * (a + 1) == i * (a * (a + 1));
    assert i * (2 * h) == 2 * (i * h);
  }

  lemma {:induction false} EvenProduct(a: nat)
    ensures a * (a + 1) % 2 == 0
    decreases a
  {
    if a > 0 {
      EvenProduct(a - 1);
      assert a * (a + 1) == (a - 1) * a + 2 * a;
    }
  }

  /** The first `a + 1` chunk rates in closed form. */
  lemma FirstChunks(l: Limiter, maxIndex: nat, a: nat)
    requires MaxIndex(l) == Some(maxIndex) && a <= maxIndex
    ensures RateSum(l, maxIndex, 0, a + 1) == l.cliff + l.cliff * a + ToNumerator(l.incrementBps) * a * (a + 1) / 2
  {
    var c, i := l.cliff, ToNumerator(l.incrementBps);
    Climbing(l, maxIndex, 0, a + 1);
    HalfIsExact(i, a);
    assert (a + 1) * c == c + c * a;
    assert (a + 1) * (2 * 0 + (a + 1) - 1) == a * (a + 1);
  }

  /** The closed form is the step-by-step sum. */
  lemma ClosedFormIsStepSum(l: Limiter, amount: u64, maxIndex: nat)
    requires MaxIndex(l) == Some(maxIndex) && 0 < l.reference < amount
    ensures ClosedForm(l, amount, maxIndex) == StepSum(l, maxIndex, amount, 0)
  {
    hide StepSum, RateSum, ToNumerator, MaxIndex;
    var maxFee, inc := ToNumerator(l.maxBps), ToNumerator(l.incrementBps);
    var a, b := (amount - l.reference) / l.reference, (amount - l.reference) % l.reference;
    Chunks(amount, l.reference);
    StepSumSplits(l, maxIndex, a + 1, b, 0);
    if a < maxIndex {
      FirstChunks(l, maxIndex, a);
      assert ChunkRate(l, maxIndex, a + 1) == l.cliff + inc * (a + 1);
    } else {
      var sum, n := RateSum(l, maxIndex, 0, maxIndex + 1), a - maxIndex;
      FirstChunks(l, maxIndex, maxIndex);
      RateSumSplits(l, maxIndex, 0, maxIndex + 1, n);
      Capped(l, maxIndex, maxIndex + 1, n);
      assert ChunkRate(l, maxIndex, a + 1) == maxFee;
      PastTheCap(l.reference, sum, n, b, maxFee);
    }
  }

  lemma Chunks(amount: int, reference: int)
    requires 0 < reference < amount
    ensures var a, b := (amount - reference) / reference, (amount - reference) % reference;
      0 <= a && 0 <= b < reference && 0 <= (a + 1) * reference && (a + 1) * reference + b == amount
  {
  }

  lemma PastTheCap(r: int, sum: int, n: int, b: int, maxFee: int)
    ensures r * (sum + n * maxFee) + b * maxFee == r * sum + (n * r + b) * maxFee
  {
  }

  // ── the rate it becomes ─────────────────────────────────────────────────

  lemma ChunkAtLeastCliff(l: Limiter, maxIndex: nat, k: nat)
    requires MaxIndex(l) == Some(maxIndex)
    ensures l.cliff <= ChunkRate(l, maxIndex, k)
  {
    if k <= maxIndex {
      StepBelowCap(l, maxIndex, k);
    }
  }

  /** Every chunk pays at least the cliff. */
  lemma {:induction false} AtLeastCliff(l: Limiter, maxIndex: nat, amount: nat, k: nat)
    requires MaxIndex(l) == Some(maxIndex) && 0 < l.reference
    ensures amount * l.cliff <= StepSum(l, maxIndex, amount, k)
    decreases amount
  {
    hide MaxIndex, ChunkRate;
    var r := ChunkRate(l, maxIndex, k);
    ChunkAtLeastCliff(l, maxIndex, k);
    if amount <= l.reference {
      MulMono(l.cliff, r, amount);
    } else {
      AtLeastCliff(l, maxIndex, amount - l.reference, k + 1);
      MulMono(l.cliff, r, l.reference);
      Distribute(amount, l.reference, l.cliff);
    }
  }

  /** Above the reference, the limiter answers with the least rate that charges the progressive fee in whole atoms:
      charged again it takes at least that fee, any lower rate takes less, and it is never below the cliff. */
  lemma RateChargesTheStepSum(l: Limiter, amount: u64)
    requires l.reference < amount && RateFor(l, amount).Some?
    ensures MaxIndex(l).Some? && 0 < l.reference
    ensures var rate, due := RateFor(l, amount).value, StepSum(l, MaxIndex(l).value, amount, 0);
      && l.cliff <= rate
      && 0 <= due && 0 <= amount * rate && due <= CeilDiv(amount * rate, FEE_DENOMINATOR) * FEE_DENOMINATOR
      && (forall r: nat | r < rate :: amount * r < CeilDiv(due, FEE_DENOMINATOR) * FEE_DENOMINATOR)
  {
    hide StepSum, ClosedForm;
    var maxIndex, rate := MaxIndex(l).value, RateFor(l, amount).value;
    ClosedFormIsStepSum(l, amount, maxIndex);
    AtLeastCliff(l, maxIndex, amount, 0);
    MulNonneg(amount, l.cliff);
    var due := StepSum(l, maxIndex, amount, 0);
    var fee := CeilDiv(due, FEE_DENOMINATOR);
    CeilIff(due, FEE_DENOMINATOR, fee);
    LeastRate(fee, amount, rate);
    MulNonneg(amount, rate);
    CeilIff(amount * rate, FEE_DENOMINATOR, CeilDiv(amount * rate, FEE_DENOMINATOR));
    MulCancel(l.cliff, rate, amount);
  }

  lemma LeastRate(fee: nat, amount: nat, rate: nat)
    requires 0 < amount && rate == CeilDiv(fee * FEE_DENOMINATOR, amount)
    ensures fee * FEE_DENOMINATOR <= amount * rate
    ensures forall r: nat | r < rate :: amount * r < fee * FEE_DENOMINATOR
  {
    CeilIff(fee * FEE_DENOMINATOR, amount, rate);
    forall r: nat | r < rate ensures amount * r < fee * FEE_DENOMINATOR {
      CeilIff(fee * FEE_DENOMINATOR, amount, r);
    }
  }

  // ── by the stored basis points ──────────────────────────────────────────

  /** Chunk `k` pays the cliff and `k` increments in basis points, as long as that stays within the cap; then the cap. */
  function ChunkByBps(l: Limiter, k: nat): int {
    var step, cap := l.cliff + 100_000 * (k * l.incrementBps), 100_000 * l.maxBps;
    if step <= cap then step else cap
  }

  /** The fee on `amount`, chunk by chunk of the reference amount from chunk `k` on, times 10⁹. */
  function FeeByBps(l: Limiter, amount: nat, k: nat): int
    requires 0 < l.reference
    decreases amount
  {
    if amount <= l.reference then amount * ChunkByBps(l, k)
    else l.reference * ChunkByBps(l, k) + FeeByBps(l, amount - l.reference, k + 1)
  }

  lemma ChunkIsByBps(l: Limiter, maxIndex: nat, k: nat)
    requires MaxIndex(l) == Some(maxIndex)
    ensures ChunkRate(l, maxIndex, k) == ChunkByBps(l, k)
  {
    var inc := 100_000 * l.incrementBps;
    FloorIff(100_000 * l.maxBps - l.cliff, inc, k);
    assert k * inc == 100_000 * (k * l.incrementBps);
  }

  lemma {:induction false} StepSumIsByBps(l: Limiter, maxIndex: nat, amount: nat, k: nat)
    requires MaxIndex(l) == Some(maxIndex) && 0 < l.reference
    ensures StepSum(l, maxIndex, amount, k) == FeeByBps(l, amount, k)
    decreases amount
  {
    hide ChunkRate, ChunkByBps, MaxIndex;
    ChunkIsByBps(l, maxIndex, k);
    if amount > l.reference {
      StepSumIsByBps(l, maxIndex, amount - l.reference, k + 1);
    }
  }

  /** The rate in full: the cliff up to the reference; above it, the least rate that charges the least whole fee that makes
      up the chunks at their own rates. Above the reference there must be one, an increment, and a cap no lower than the
      cliff. */
  ghost predicate IsRate(l: Limiter, amount: nat, rate: nat) {
    if amount <= l.reference then rate == l.cliff
    else
      && 0 < l.reference && 0 < l.incrementBps && l.cliff <= 100_000 * l.maxBps
      && exists fee: nat :: fee <= U64_MAX && LeastMultiple(fee, FeeByBps(l, amount, 0), 1_000_000_000)
                            && LeastMultiple(rate, fee * 1_000_000_000, amount)
  }

  lemma {:induction false} RateIsExact(l: Limiter, amount: u64, rate: u64)
    ensures RateFor(l, amount) == Some(rate) <==> IsRate(l, amount, rate)
  {
    hide StepSum, FeeByBps, ClosedForm;
    if amount > l.reference && MaxIndex(l).Some? && 0 < l.reference {
      var maxIndex := MaxIndex(l).value;
      var total := ClosedForm(l, amount, maxIndex);
      ClosedFormNonneg(l, amount, maxIndex);
      ClosedFormIsStepSum(l, amount, maxIndex);
      StepSumIsByBps(l, maxIndex, amount, 0);
      var least := CeilDiv(total, FEE_DENOMINATOR);
      CeilIsLeast(total, FEE_DENOMINATOR);
      CeilIsLeast(least * FEE_DENOMINATOR, amount);
      if IsRate(l, amount, rate) {
        var fee: nat :| fee <= U64_MAX && LeastMultiple(fee, total, 1_000_000_000)
            && LeastMultiple(rate, fee * 1_000_000_000, amount);
        LeastIsUnique(fee, least, total, 1_000_000_000);
        LeastIsUnique(rate, CeilDiv(least * FEE_DENOMINATOR, amount), least * FEE_DENOMINATOR, amount);
      }
    }
  }
}

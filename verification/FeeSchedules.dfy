/** Exponential fee schedules and bin prices: DAMM v2, DBC, DLMM and Byreal
    (`src/quote/damm_v2.rs`, `src/quote/dbc.rs`, `src/quote/dlmm.rs`, `src/quote/byreal_fee.rs`). */
module FeeSchedules {
  import opened Numbers
  import opened FixedPow

  const BASIS_POINT_MAX: int := 10_000
  const BYREAL_DENOMINATOR: int := 1_000_000
  const EXP_LIMIT: int := 0x80000

  // ── products stay inside u128 ───────────────────────────────────────────

  lemma BelowOne(r: nat, s: nat)
    requires r <= Q64 && s < Q64
    ensures 0 <= r * s < Q128 && r * s / Q64 <= Q64 && (r < Q64 ==> r * s / Q64 < Q64)
  {
    MulMono(r, Q64, s);
    MulNonneg(r, s);
    if r < Q64 {
      MulMono(r, Q64 - 1, s);
    }
  }

  /** One bit of the exponent, for a base below one. */
  lemma OneBit(r: nat, s: nat, e: nat)
    requires r <= Q64 && s < Q64
    ensures 0 <= r * s < Q128 && 0 <= s * s < Q128 && r * s / Q64 <= Q64 && s * s / Q64 < Q64
    ensures SquareMultiply(Q64, false, r, s, e) == SquareMultiply(Q64, false, if e % 2 == 1 then r * s / Q64 else r,
      s * s / Q64, e / 2)
  {
    BelowOne(r, s);
    BelowOne(s, s);
  }

  lemma NoBitsLeft(r: nat, s: nat)
    ensures SquareMultiply(Q64, false, r, s, 0) == r && TwoTo(0) == 1
  {
  }

  lemma OneBitFewer(bits: nat, n: nat)
    requires 0 < n && bits < TwoTo(n)
    ensures bits / 2 < TwoTo(n - 1)
  {
  }

  // ── DAMM v2 ─────────────────────────────────────────────────────────────

  /** Power of a base below one; a zero result is an error. */
  function DammPow(base: u128, exp: u32): Option<nat> {
    if exp == 0 then Some(Q64)
    else if base >= Q64 || exp >= EXP_LIMIT then None
    else
      var r := SquareMultiply(Q64, false, Q64, base, exp);
      if r == 0 then None else Some(r)
  }

  /** The program's nineteen-bit loop; the checked products never overflow. */
  method DammPowLoop(base: u128, exp: u32) returns (r: Option<nat>)
    ensures r == DammPow(base, exp)
  {
    hide SquareMultiply, TwoTo;
    if exp == 0 {
      return Some(Q64);
    }
    if base >= Q64 || exp >= EXP_LIMIT {
      return None;
    }
    var result, squared, bits := Q64, base, exp;
    WordSizes();
    for bit := 0 to 19
      invariant 0 <= result <= Q64 && 0 <= squared < Q64
      invariant 0 <= bits < TwoTo(19 - bit)
      invariant SquareMultiply(Q64, false, Q64, base, exp) == SquareMultiply(Q64, false, result, squared, bits)
    {
      OneBit(result, squared, bits);
      OneBitFewer(bits, 19 - bit);
      if bits % 2 == 1 {
        if result * squared >= Q128 {
          return None;
        }
        result := result * squared / Q64;
      }
      if squared * squared >= Q128 {
        return None;
      }
      squared := squared * squared / Q64;
      bits := bits / 2;
    }
    NoBitsLeft(result, squared);
    return if result == 0 then None else Some(result);
  }

  /** `cliff·(1 − reduction/10⁴)^period`, truncated. */
  function FeeInPeriod(cliff: u64, reduction: u64, period: u16): Option<u64> {
    if reduction == 0 then Some(cliff)
    else
      var bps := reduction * Q64 / BASIS_POINT_MAX;
      if bps > Q64 then None
      else
        var result :- DammPow(Q64 - bps, period);
        if result * cliff >= Q128 then None else ToU64(result * cliff / Q64)
  }

  // ── DBC ─────────────────────────────────────────────────────────────────

  /** The program's loop with its checked products. */
  function DbcDecay(acc: u128, b: u128, e: nat): Option<u128>
    decreases e
  {
    if e == 0 then Some(acc)
    else if (e % 2 == 1 && acc * b >= Q128) || b * b >= Q128 then None
    else
      MulNonneg(acc, b);
      MulNonneg(b, b);
      DbcDecay(if e % 2 == 1 then acc * b / Q64 else acc, b * b / Q64, e / 2)
  }

  function ExponentialFee(cliff: u64, reduction: u64, period: u64): Option<u64> {
    if period == 0 then Some(cliff)
    else
      var bps := reduction * Q64 / BASIS_POINT_MAX;
      if bps > Q64 then None
      else
        var acc :- DbcDecay(Q64, Q64 - bps, period);
        MulNonneg(acc, cliff);
        if acc * cliff >= Q128 then None else ToU64(acc * cliff / Q64)
  }

  method ExponentialFeeLoop(cliff: u64, reduction: u64, period: u64) returns (r: Option<u64>)
    ensures r == ExponentialFee(cliff, reduction, period)
  {
    if period == 0 {
      return Some(cliff);
    }
    var bps := reduction * Q64 / BASIS_POINT_MAX;
    if bps > Q64 {
      return None;
    }
    var acc: u128, b: u128, e := Q64, Q64 - bps, period;
    while e > 0
      invariant 0 <= e && DbcDecay(Q64, Q64 - bps, period) == DbcDecay(acc, b, e)
      decreases e
    {
      MulNonneg(acc, b);
      MulNonneg(b, b);
      if e % 2 == 1 {
        if acc * b >= Q128 {
          return None;
        }
        acc := acc * b / Q64;
      }
      if b * b >= Q128 {
        return None;
      }
      b := b * b / Q64;
      e := e / 2;
    }
    MulNonneg(acc, cliff);
    if acc * cliff >= Q128 {
      return None;
    }
    return ToU64(acc * cliff / Q64);
  }

  // ── what the loops compute ──────────────────────────────────────────────

  /** Below one, no product overflows and the loop is the plain square-and-multiply. */
  lemma {:induction false} DecayIsPower(acc: u128, b: u128, e: nat)
    requires acc <= Q64 && b < Q64
    ensures DbcDecay(acc, b, e) == Some(SquareMultiply(Q64, false, acc, b, e))
    ensures SquareMultiply(Q64, false, acc, b, e) <= Q64
    decreases e
  {
    if e != 0 {
      BelowOne(acc, b);
      BelowOne(b, b);
      DecayIsPower(if e % 2 == 1 then acc * b / Q64 else acc, b * b / Q64, e / 2);
    }
  }

  /** `1 − ⌊reduction·2⁶⁴/10⁴⌋`, the decay per period. */
  function DecayBase(reduction: u64): nat
    requires reduction <= BASIS_POINT_MAX
  {
    Q64 - reduction * Q64 / BASIS_POINT_MAX
  }

  lemma BaseRange(reduction: u64)
    ensures reduction * Q64 / BASIS_POINT_MAX > Q64 <==> reduction > BASIS_POINT_MAX
    ensures 1 <= reduction ==> reduction * Q64 / BASIS_POINT_MAX >= Q64 / BASIS_POINT_MAX
    ensures reduction == 0 ==> reduction * Q64 / BASIS_POINT_MAX == 0
  {
  }

  /** The decay after `n` periods in Q64.64. */
  function Decayed(reduction: u64, n: nat): nat
    requires 1 <= reduction <= BASIS_POINT_MAX
  {
    SquareMultiply(Q64, false, Q64, DecayBase(reduction), n)
  }

  lemma ScaledFee(acc: nat, cliff: u64)
    requires acc <= Q64
    ensures 0 <= acc * cliff < Q128 && acc * cliff / Q64 <= cliff
  {
  }

  /** A reduction of zero squares one in u128 and overflows; any other reduction up to 100 % never does. */
  lemma {:induction false} DbcFeeExists(cliff: u64, reduction: u64, period: u64)
    ensures ExponentialFee(cliff, reduction, period).Some? <==> period == 0 || 1 <= reduction <= BASIS_POINT_MAX
    ensures period != 0 && 1 <= reduction <= BASIS_POINT_MAX ==>
            Decayed(reduction, period) <= Q64
            && ExponentialFee(cliff, reduction, period) == Some(Decayed(reduction, period) * cliff / Q64)
  {
    BaseRange(reduction);
    if period != 0 && reduction <= BASIS_POINT_MAX {
      if reduction == 0 {
        assert DbcDecay(Q64, Q64, period).None?;
      } else {
        DecayIsPower(Q64, DecayBase(reduction), period);
        ScaledFee(Decayed(reduction, period), cliff);
      }
    }
  }

  /** DAMM v2 charges the cliff without a reduction and before the first period, refuses a reduction above 100 % and a decay
      that has vanished, and otherwise charges the truncated power times the cliff. */
  lemma {:induction false} DammFeeExists(cliff: u64, reduction: u64, period: u16)
    ensures reduction > 0 && reduction <= BASIS_POINT_MAX ==> Decayed(reduction, period) <= Q64
    ensures FeeInPeriod(cliff, reduction, period)
      == if reduction == 0 || (period == 0 && reduction <= BASIS_POINT_MAX) then Some(cliff)
         else if reduction > BASIS_POINT_MAX || Decayed(reduction, period) == 0 then None
         else Some(Decayed(reduction, period) * cliff / Q64)
  {
    BaseRange(reduction);
    if 0 < reduction <= BASIS_POINT_MAX {
      DecayIsPower(Q64, DecayBase(reduction), period);
      ScaledFee(Decayed(reduction, period), cliff);
      ScaledFee(Q64, cliff);
    }
  }

  /** Whenever DAMM v2 quotes a scheduled fee, DBC's schedule is the same fee, except that DBC refuses a zero reduction. */
  lemma SchedulesAgree(cliff: u64, reduction: u64, period: u16)
    requires FeeInPeriod(cliff, reduction, period).Some?
    ensures ExponentialFee(cliff, reduction, period) == FeeInPeriod(cliff, reduction, period) <==> reduction != 0 || period == 0
  {
    DbcFeeExists(cliff, reduction, period);
    BaseRange(reduction);
  }

  /** The truncated decay is at most the exact power and within one unit per period of it. */
  lemma DecayError(reduction: u64, n: nat)
    requires 1 <= reduction <= BASIS_POINT_MAX
    ensures Near(Q64, false, Decayed(reduction, n), Pow(DecayBase(reduction) as real / Q64 as real, n), n)
  {
    BaseRange(reduction);
    WholePowerNear(Q64, false, DecayBase(reduction), n);
  }

  // ── the fee never rises ─────────────────────────────────────────────────

  /** One more period multiplies the exact power by the base. */
  lemma DecayStep(reduction: u64, n: nat)
    requires 1 <= reduction <= BASIS_POINT_MAX
    ensures var q, p := Q64 as real, Pow(DecayBase(reduction) as real / Q64 as real, n);
      && 0.0 <= p <= 1.0
      && Decayed(reduction, n) as real >= q * p - n as real
      && Decayed(reduction, n + 1) as real <= q * p - (Q64 - DecayBase(reduction)) as real * p
  {
    hide Near, SquareMultiply;
    var q, base := Q64 as real, DecayBase(reduction);
    var y := base as real / q;
    DecayError(reduction, n);
    DecayError(reduction, n + 1);
    NearBelow(Q64, Decayed(reduction, n), Pow(y, n), n);
    NearBelow(Q64, Decayed(reduction, n + 1), Pow(y, n + 1), n + 1);
    OneFactor(q, base as real, y, Pow(y, n));
  }

  lemma OneFactor(q: real, base: real, y: real, p: real)
    requires 0.0 < q && y == base / q
    ensures q * (y * p) == q * p - (q - base) * p
  {
  }

  lemma NearBelow(one: nat, r: nat, x: real, err: nat)
    requires Near(one, false, r, x, err)
    ensures 0.0 <= x <= 1.0 && one as real * x - err as real <= r as real <= one as real * x
  {
  }

  /** If a period's drop is less than its rounding error, less than `10001·2¹⁶` units are left. */
  lemma LittleIsLeft(gap: real, p: real, n: real)
    requires 0.0 <= p && (Q64 / BASIS_POINT_MAX) as real <= gap && gap * p < n <= 65536.0
    ensures Q64 as real * p < 10001.0 * 65536.0
  {
  }

  lemma NoRise(b: real, whole: real, gap: real, p: real)
    requires b <= whole - gap * p && 0.0 <= gap && 0.0 <= p
    ensures b <= whole
  {
  }

  lemma TooLittleToCharge(left: nat, cliff: nat)
    requires left <= 10001 * 65536 && cliff <= 1_000_000_000
    ensures 0 <= left * cliff && left * cliff / Q64 == 0
  {
    MulNonneg(left, cliff);
    MulMono(left, 10001 * 65536, cliff);
  }

  /** Either the decay itself does not rise, or so little is left that no fee up to 100 % survives. */
  lemma FeeStepDown(cliff: u64, reduction: u64, n: nat)
    requires 1 <= reduction <= BASIS_POINT_MAX && cliff <= 1_000_000_000 && n < 0x1_0000
    ensures 0 <= Decayed(reduction, n + 1) * cliff / Q64 <= Decayed(reduction, n) * cliff / Q64
  {
    hide SquareMultiply, Decayed;
    DecayStep(reduction, n);
    BaseRange(reduction);
    var a, b := Decayed(reduction, n), Decayed(reduction, n + 1);
    var p := Pow(DecayBase(reduction) as real / Q64 as real, n);
    var gap := (Q64 - DecayBase(reduction)) as real;
    MulNonneg(a, cliff);
    MulNonneg(b, cliff);
    if gap * p >= n as real {
      MulMono(b, a, cliff);
      FloorMono(b * cliff, a * cliff, Q64);
    } else {
      LittleIsLeft(gap, p, n as real);
      NoRise(b as real, Q64 as real * p, gap, p);
      TooLittleToCharge(b, cliff);
    }
  }

  /** The schedules decay: with a reduction of at least one basis point and a cliff of at most 100 %, later periods
      never pay more. */
  lemma {:induction false} ScheduledFeeNeverRises(cliff: u64, reduction: u64, n: u16, m: u16)
    requires 1 <= reduction <= BASIS_POINT_MAX && cliff <= 1_000_000_000 && n <= m
    ensures ExponentialFee(cliff, reduction, n).Some? && ExponentialFee(cliff, reduction, m).Some?
    ensures ExponentialFee(cliff, reduction, m).value <= ExponentialFee(cliff, reduction, n).value
    ensures FeeInPeriod(cliff, reduction, n).Some? && FeeInPeriod(cliff, reduction, m).Some? ==>
            FeeInPeriod(cliff, reduction, m).value <= FeeInPeriod(cliff, reduction, n).value
    decreases m - n
  {
    DbcFeeExists(cliff, reduction, n);
    DbcFeeExists(cliff, reduction, m);
    if n < m {
      ScheduledFeeNeverRises(cliff, reduction, n, m - 1);
      DbcFeeExists(cliff, reduction, m - 1);
      if m == 1 {
        ScaledFee(Decayed(reduction, 1), cliff);
      } else {
        FeeStepDown(cliff, reduction, m - 1);
      }
    }
    if FeeInPeriod(cliff, reduction, n).Some? { SchedulesAgree(cliff, reduction, n); }
    if FeeInPeriod(cliff, reduction, m).Some? { SchedulesAgree(cliff, reduction, m); }
  }

  /** A reduction kept per period, as the program rounds it. */
  ghost function DecayRatio(reduction: u64): real {
    (Q64 - reduction * Q64 / 10_000) as real / Q64 as real
  }

  /** `fee` is `cliff` decayed over `n` periods: exactly the cliff at first, then down by less than a unit and what `n`
      roundings of the decay can cost. */
  ghost predicate NearDecayed(fee: nat, cliff: nat, reduction: u64, n: nat) {
    if n == 0 then fee == cliff
    else
      var exact := cliff as real * Pow(DecayRatio(reduction), n);
      exact - 1.0 - n as real * cliff as real / Q64 as real < fee as real <= exact
  }

  lemma ExponentialIsNear(cliff: u64, reduction: u64, n: u64)
    requires ExponentialFee(cliff, reduction, n).Some?
    ensures NearDecayed(ExponentialFee(cliff, reduction, n).value, cliff, reduction, n)
  {
    hide Near, SquareMultiply, Decayed, Pow, ExponentialFee;
    DbcFeeExists(cliff, reduction, n);
    if n == 0 {
      AtTheCliff(cliff, reduction);
    } else {
      DecayError(reduction, n);
      var acc, x := Decayed(reduction, n), Pow(DecayRatio(reduction), n);
      NearBelow(Q64, acc, x, n);
      var fee := acc * cliff / Q64;
      FloorIff(acc * cliff, Q64, fee);
      FloorIff(acc * cliff, Q64, fee + 1);
      ProductAsReal(acc, cliff);
      ScaledError(Q64 as real, acc as real, x, n as real, cliff as real, fee as real);
    }
  }

  lemma AtTheCliff(cliff: u64, reduction: u64)
    ensures ExponentialFee(cliff, reduction, 0) == Some(cliff)
  {
  }

  /** A scheduled fee is the exact fee rounded down by less than two units. */
  lemma ScheduledFeeError(cliff: u64, reduction: u64, n: u16)
    requires 1 <= reduction <= BASIS_POINT_MAX && cliff <= 1_000_000_000 && 0 < n
    ensures ExponentialFee(cliff, reduction, n).Some?
    ensures var exact := cliff as real * Pow(DecayRatio(reduction), n);
      exact - 2.0 < ExponentialFee(cliff, reduction, n).value as real <= exact
  {
    hide Pow, ExponentialFee, DecayRatio;
    DbcFeeExists(cliff, reduction, n);
    ExponentialIsNear(cliff, reduction, n);
    RoundingIsSmall(n as real, cliff as real);
  }

  lemma ScaledError(q: real, acc: real, x: real, n: real, cliff: real, fee: real)
    requires 0.0 < q && 0.0 <= cliff
    requires q * x - n <= acc <= q * x && fee * q <= acc * cliff < (fee + 1.0) * q
    ensures cliff * x - 1.0 - n * cliff / q < fee <= cliff * x
  {
    var exact, charged, lost := cliff * x, acc * cliff, n * cliff / q;
    RealMono(acc, q * x, cliff);
    assert q * x * cliff == exact * q;
    RealCancel(fee, exact, q);
    RealMono(q * x - n, acc, cliff);
    LostProduct(q, x, n, cliff, lost);
    assert (exact - lost) * q <= charged;
    RealCancelStrict(exact - lost, fee + 1.0, q);
  }

  lemma RoundingIsSmall(n: real, cliff: real)
    requires 0.0 <= n <= 65536.0 && 0.0 <= cliff <= 1_000_000_000.0
    ensures n * cliff / Q64 as real <= 1.0
  {
    RealMono(n, 65536.0, cliff);
    RealMono(cliff, 1_000_000_000.0, 65536.0);
  }

  lemma LostProduct(q: real, x: real, n: real, cliff: real, lost: real)
    requires 0.0 < q && lost == n * cliff / q
    ensures (q * x - n) * cliff == (cliff * x - lost) * q
  {
  }

  // ── DLMM bin prices ─────────────────────────────────────────────────────

  /** Power of a base on either side of one: the smaller of base and inverse is raised, then inverted back. */
  function DlmmPow(base: u128, exp: int): Option<u128> {
    if exp == 0 then Some(Q64)
    else if Abs(exp) >= EXP_LIMIT then None
    else
      var inverted := base >= Q64;
      var small := if inverted then (Q128 - 1) / base else base;
      var r := SquareMultiply(Q64, false, Q64, small, Abs(exp));
      if r == 0 then None else ToU128(if inverted != (exp < 0) then (Q128 - 1) / r else r)
  }

  lemma SmallBase(base: u128)
    ensures 0 <= (if base >= Q64 then (Q128 - 1) / base else base) < Q64
  {
  }

  lemma Inverse(r: nat)
    requires 0 < r
    ensures 0 <= (Q128 - 1) / r < Q128
  {
  }

  method DlmmPowLoop(base: u128, exp: int) returns (r: Option<u128>)
    ensures r == DlmmPow(base, exp)
  {
    hide SquareMultiply, TwoTo;
    if exp == 0 {
      return Some(Q64);
    }
    var invert, e := exp < 0, Abs(exp);
    if e >= EXP_LIMIT {
      return None;
    }
    SmallBase(base);
    var squared, result := base, Q64;
    if squared >= result {
      squared := (Q128 - 1) / squared;
      invert := !invert;
    }
    ghost var small := squared;
    var bits := e;
    WordSizes();
    for bit := 0 to 19
      invariant 0 <= result <= Q64 && 0 <= squared < Q64 && 0 <= bits < TwoTo(19 - bit)
      invariant SquareMultiply(Q64, false, Q64, small, e)
             == SquareMultiply(Q64, false, result, if bit > 0 then squared * squared / Q64 else squared, bits)
    {
      BelowOne(squared, squared);
      if bit > 0 {
        if squared * squared >= Q128 {
          return None;
        }
        squared := squared * squared / Q64;
      }
      OneBit(result, squared, bits);
      OneBitFewer(bits, 19 - bit);
      if bits % 2 == 1 {
        if result * squared >= Q128 {
          return None;
        }
        result := result * squared / Q64;
      }
      bits := bits / 2;
    }
    NoBitsLeft(result, squared * squared / Q64);
    if result == 0 {
      return None;
    }
    if invert {
      Inverse(result);
      result := (Q128 - 1) / result;
    }
    return Some(result);
  }

  /** The price of bin `id` at `binStep` basis points. */
  function PriceFromId(id: int, binStep: u16): Option<u128> {
    DlmmPow(Q64 + binStep * Q64 / BASIS_POINT_MAX, id)
  }

  /** The exact price ratio of one bin, downwards. */
  ghost function BinRatio(binStep: u16): real {
    10_000.0 / (10_000 + binStep) as real
  }

  /** `price` is (1 + binStep/10⁴)^id in Q64.64: below bin 0 within three units per bin, above it the inverse of a number
      that near to the inverse power. */
  ghost predicate NearBinPrice(price: nat, id: int, binStep: u16) {
    var n, x := Abs(id) as real, Q64 as real * Pow(BinRatio(binStep), Abs(id));
    if id == 0 then price == Q64
    else if id < 0 then x - 3.0 * n <= price as real <= x + 3.0 * n
    else price as real * (x - 3.0 * n) < Q128 as real <= (price + 1) as real * (x + 3.0 * n)
  }

  /** The inverted base is within two units of the exact ratio. */
  lemma InvertedBase(binStep: u16, base: nat, small: nat)
    requires base == Q64 + binStep * Q64 / BASIS_POINT_MAX && small == (Q128 - 1) / base
    ensures var x := Q64 as real * BinRatio(binStep); small < Q64 && x - 2.0 <= small as real <= x + 2.0
  {
    var k := 10_000 + binStep;
    FloorIff(Q128 - 1, base, small);
    FloorIff(Q128 - 1, base, small + 1);
    FloorIff(Q128 - 1, base, Q64);
    var top := 10_000 * Q64;
    assert base * 10_000 <= Q64 * k < base * 10_000 + 10_000;
    RatioBounds(base, small, k);
    RatioReal(small, k, Q64 as real * BinRatio(binStep));
  }

  lemma RatioBounds(base: nat, small: nat, k: nat)
    requires 10_000 <= k <= 75_535 && Q64 <= base && base * 10_000 <= Q64 * k < base * 10_000 + 10_000
    requires small * base <= Q128 - 1 < (small + 1) * base
    ensures 10_000 * Q64 - 2 * k <= small * k <= 10_000 * Q64 + 2 * k
  {
    UpperRatio(base, small, k);
    LowerRatio(base, small, k);
  }

  lemma LowerRatio(base: nat, small: nat, k: nat)
    requires base * 10_000 <= Q64 * k && Q128 - 1 < (small + 1) * base
    ensures 10_000 * Q64 - 2 * k <= small * k
  {
    MulMono(base * 10_000, Q64 * k, small + 1);
    assert (small + 1) * (base * 10_000) == (small + 1) * base * 10_000;
    assert (small + 1) * (Q64 * k) == (small + 1) * k * Q64;
    assert (small + 1) * k * Q64 >= Q128 * 10_000;
    MulCancel(10_000 * Q64, (small + 1) * k, Q64);
    assert (small + 1) * k == small * k + k;
  }

  lemma UpperRatio(base: nat, small: nat, k: nat)
    requires 10_000 <= k && Q64 * k < base * 10_000 + 10_000 && small * base <= Q128 - 1 && Q64 <= base
    ensures small * k <= 10_000 * Q64 + 2 * k
  {
    MulMono(Q64 * k, base * 10_000 + 10_000, small);
    assert small * (base * 10_000 + 10_000) == small * base * 10_000 + small * 10_000;
    assert small * (Q64 * k) == small * k * Q64;
    if small > Q64 {
      MulMono(Q64 + 1, small, base);
      MulMono(Q64, base, Q64 + 1);
    }
    assert small * k * Q64 <= Q128 * 10_000 + Q64 * 10_000;
    assert (10_000 * Q64 + 2 * k) * Q64 == Q128 * 10_000 + 2 * k * Q64;
    MulCancel(small * k, 10_000 * Q64 + 2 * k, Q64);
  }

  lemma RatioReal(small: nat, k: nat, x: real)
    requires 0 < k && 10_000 * Q64 - 2 * k <= small * k <= 10_000 * Q64 + 2 * k
    requires x == Q64 as real * (10_000.0 / k as real)
    ensures x - 2.0 <= small as real <= x + 2.0
  {
    var s, q, r := small as real, k as real, 10_000.0 / k as real;
    assert r * q == 10_000.0;
    assert x * q == Q64 as real * (r * q);
    ProductAsReal(small, k);
    assert (x - 2.0) * q == x * q - 2.0 * q && (x + 2.0) * q == x * q + 2.0 * q;
    RealCancel(x - 2.0, s, q);
    RealCancel(s, x + 2.0, q);
  }

  /** The power of the inverted base is within three units per bin of the exact one. */
  lemma InvertedPower(binStep: u16, small: nat, n: nat)
    requires small < Q64 && (var x := Q64 as real * BinRatio(binStep); x - 2.0 <= small as real <= x + 2.0)
    ensures var x := Q64 as real * Pow(BinRatio(binStep), n);
      x - 3.0 * n as real <= SquareMultiply(Q64, false, Q64, small, n) as real <= x + 2.0 * n as real
  {
    hide SquareMultiply, Near, Pow, BinRatio;
    var q, t := Q64 as real, BinRatio(binStep);
    var y := small as real / q;
    WholePowerNear(Q64, false, small, n);
    NearBelow(Q64, SquareMultiply(Q64, false, Q64, small, n), Pow(y, n), n);
    RatioIsUnit(binStep);
    SmallReal(q, small as real, y, t);
    PowerOfNear(q, y, t, n);
  }

  lemma PowerOfNear(q: real, y: real, t: real, n: nat)
    requires 0.0 < q && 0.0 <= y <= 1.0 && 0.0 <= t <= 1.0 && t - 2.0 / q <= y <= t + 2.0 / q
    ensures q * Pow(t, n) - 2.0 * n as real <= q * Pow(y, n) <= q * Pow(t, n) + 2.0 * n as real
  {
    hide Pow;
    PowPerturbed(y, t, 2.0 / q, n, n as real * (2.0 / q));
    PerturbedUnits(q, Pow(t, n), Pow(y, n), n as real);
  }

  lemma RatioIsUnit(binStep: u16)
    ensures 0.0 < BinRatio(binStep) <= 1.0
  {
  }

  lemma SmallReal(q: real, s: real, y: real, t: real)
    requires 0.0 < q && y == s / q && q * t - 2.0 <= s <= q * t + 2.0 && 0.0 <= s < q
    ensures 0.0 <= y <= 1.0 && t - 2.0 / q <= y <= t + 2.0 / q
  {
    var d := 2.0 / q;
    assert y * q == s && d * q == 2.0;
    assert (t - d) * q == q * t - 2.0 && (t + d) * q == q * t + 2.0;
    RealCancel(t - d, y, q);
    RealCancel(y, t + d, q);
    RealCancel(0.0, y, q);
    RealCancel(y, 1.0, q);
  }

  lemma PerturbedUnits(q: real, pt: real, py: real, n: real)
    requires 0.0 < q && pt - n * (2.0 / q) <= py <= pt + n * (2.0 / q)
    ensures q * pt - 2.0 * n <= q * py <= q * pt + 2.0 * n
  {
    var e := n * (2.0 / q);
    assert q * (2.0 / q) == 2.0;
    assert q * e == n * (q * (2.0 / q));
    RealMono(pt - e, py, q);
    RealMono(py, pt + e, q);
    assert q * (pt - e) == q * pt - q * e && q * (pt + e) == q * pt + q * e;
  }

  /** A bin's price is the exact power of its step, up to the stated error. */
  lemma BinPriceIsNear(id: int, binStep: u16)
    requires PriceFromId(id, binStep).Some?
    ensures NearBinPrice(PriceFromId(id, binStep).value, id, binStep)
  {
    hide SquareMultiply, Pow, BinRatio;
    if id != 0 {
      var n, base := Abs(id), Q64 + binStep * Q64 / BASIS_POINT_MAX;
      var small := (Q128 - 1) / base;
      InvertedBase(binStep, base, small);
      InvertedPower(binStep, small, n);
      if id > 0 {
        var r := SquareMultiply(Q64, false, Q64, small, n);
        var p: nat := PriceFromId(id, binStep).value;
        FloorIff(Q128 - 1, r, p);
        FloorIff(Q128 - 1, r, p + 1);
        InversePrice(p, r, Q64 as real * Pow(BinRatio(binStep), n), n as real);
      }
    }
  }

  /** There is a price up to 2¹⁹ − 1 bins away, as long as the inverse power has not vanished in the rounding. */
  lemma BinPriceExists(id: int, binStep: u16)
    ensures Abs(id) >= 0x80000 ==> PriceFromId(id, binStep).None?
    ensures Abs(id) < 0x80000 && 3.0 * Abs(id) as real < Q64 as real * Pow(BinRatio(binStep), Abs(id))
      ==> PriceFromId(id, binStep).Some?
  {
    hide SquareMultiply, Pow, BinRatio;
    if 0 < Abs(id) < 0x80000 && 3.0 * Abs(id) as real < Q64 as real * Pow(BinRatio(binStep), Abs(id)) {
      var n, base := Abs(id), Q64 + binStep * Q64 / BASIS_POINT_MAX;
      var small := (Q128 - 1) / base;
      InvertedBase(binStep, base, small);
      InvertedPower(binStep, small, n);
      Inverse(SquareMultiply(Q64, false, Q64, small, n));
      PowerFits(small, n);
    }
  }

  lemma PowerFits(small: nat, n: nat)
    requires small < Q64
    ensures SquareMultiply(Q64, false, Q64, small, n) <= Q64
  {
    DecayIsPower(Q64, small, n);
  }

  lemma InversePrice(p: nat, r: nat, x: real, n: real)
    requires p * r <= Q128 - 1 < (p + 1) * r && x - 3.0 * n <= r as real <= x + 3.0 * n
    ensures p as real * (x - 3.0 * n) < Q128 as real <= (p + 1) as real * (x + 3.0 * n)
  {
    ProductAsReal(p, r);
    ProductAsReal(p + 1, r);
    LowerFactor(p as real, x - 3.0 * n, r as real, Q128 as real);
    UpperFactor((p + 1) as real, r as real, x + 3.0 * n, Q128 as real);
  }

  lemma LowerFactor(p: real, x: real, r: real, k: real)
    requires 0.0 <= p && x <= r && p * r < k
    ensures p * x < k
  {
    RealMono(x, r, p);
  }

  lemma UpperFactor(p: real, r: real, x: real, k: real)
    requires 0.0 <= p && r <= x && k <= p * r
    ensures k <= p * x
  {
    RealMono(r, x, p);
  }

  // ── Byreal's decay, rounding up ─────────────────────────────────────────

  datatype ByrealFee = ByrealFee(
    tradeFeeRate: u32,
    decayOn: bool,
    decaySell0: bool,
    decaySell1: bool,
    initRate: nat,
    decreaseRate: nat,
    interval: nat,
    openTime: u64)

  /** `init% · (1 − decrease%)^n` with every product rounded up. */
  function DecayFeeRate(f: ByrealFee, now: u64): Option<u32> {
    if now < f.openTime then Some(0)
    else if f.interval == 0 || f.decreaseRate * 10_000 > BYREAL_DENOMINATOR then None
    else
      var rate := SquareMultiply(BYREAL_DENOMINATOR, true, BYREAL_DENOMINATOR,
          BYREAL_DENOMINATOR - f.decreaseRate * 10_000, (now - f.openTime) / f.interval);
      MulNonneg(rate, f.initRate);
      var r := CeilDiv(rate * f.initRate, 100);
      if r < Q32 then Some(r) else None
  }

  method DecayFeeRateLoop(f: ByrealFee, now: u64) returns (r: Option<u32>)
    ensures r == DecayFeeRate(f, now)
  {
    if now < f.openTime {
      return Some(0);
    }
    if f.interval == 0 || f.decreaseRate * 10_000 > BYREAL_DENOMINATOR {
      return None;
    }
    var rate: nat, base: nat, exp: nat := BYREAL_DENOMINATOR, BYREAL_DENOMINATOR - f.decreaseRate * 10_000,
        (now - f.openTime) / f.interval;
    ghost var whole := SquareMultiply(BYREAL_DENOMINATOR, true, rate, base, exp);
    while exp > 0
      invariant whole == SquareMultiply(BYREAL_DENOMINATOR, true, rate, base, exp)
      decreases exp
    {
      MulNonneg(rate, base);
      MulNonneg(base, base);
      if exp % 2 == 1 {
        rate := CeilDiv(rate * base, BYREAL_DENOMINATOR);
      }
      base := CeilDiv(base * base, BYREAL_DENOMINATOR);
      exp := exp / 2;
    }
    MulNonneg(rate, f.initRate);
    var whole100 := CeilDiv(rate * f.initRate, 100);
    return if whole100 < Q32 then Some(whole100) else None;
  }

  /** The effective trade fee: the pool's override or the config's, raised to the decay fee on the decaying side. */
  function BaseFeeRate(f: ByrealFee, configRate: u32, zeroForOne: bool, now: u64): Option<u32> {
    var base := if f.tradeFeeRate != 0 then f.tradeFeeRate else configRate;
    var decaySide := if zeroForOne then f.decaySell0 else f.decaySell1;
    var decay :- if f.decayOn && decaySide then DecayFeeRate(f, now) else Some(0);
    Some(Max(base, decay))
  }

  /** `init% · (1 − decrease%)^n`, exactly, in rate units. */
  ghost function ExactDecay(f: ByrealFee, n: nat): real {
    10_000.0 * f.initRate as real * Pow((BYREAL_DENOMINATOR - f.decreaseRate * 10_000) as real / BYREAL_DENOMINATOR as real, n)
  }

  /** After `n` whole intervals the rate never undercuts the exact decay and exceeds it by at most `n·init%` of a rate
      unit and one rounding. */
  lemma DecayFeeError(f: ByrealFee, now: u64)
    requires f.openTime <= now && DecayFeeRate(f, now).Some?
    ensures var n := (now - f.openTime) / f.interval;
      ExactDecay(f, n) <= DecayFeeRate(f, now).value as real <= ExactDecay(f, n) + n as real * f.initRate as real / 100.0 + 1.0
  {
    hide Near, SquareMultiply, Pow, CeilDiv, DecayFeeRate;
    DecayFeeIs(f, now);
    var n, base := (now - f.openTime) / f.interval, BYREAL_DENOMINATOR - f.decreaseRate * 10_000;
    WholePowerNear(BYREAL_DENOMINATOR, true, base, n);
    var rate := SquareMultiply(BYREAL_DENOMINATOR, true, BYREAL_DENOMINATOR, base, n);
    var x, r := Pow(base as real / BYREAL_DENOMINATOR as real, n), DecayFeeRate(f, now).value;
    NearAbove(BYREAL_DENOMINATOR, rate, x, n);
    PercentBounds(rate, f.initRate, r);
    PercentError(rate as real, x, n as real, f.initRate as real, r as real);
  }

  lemma DecayFeeIs(f: ByrealFee, now: u64)
    requires f.openTime <= now && DecayFeeRate(f, now).Some?
    ensures f.interval != 0 && f.decreaseRate * 10_000 <= BYREAL_DENOMINATOR
    ensures var n, base := (now - f.openTime) / f.interval, BYREAL_DENOMINATOR - f.decreaseRate * 10_000;
      var rate := SquareMultiply(BYREAL_DENOMINATOR, true, BYREAL_DENOMINATOR, base, n);
      0 <= rate * f.initRate && DecayFeeRate(f, now).value == CeilDiv(rate * f.initRate, 100)
  {
    hide SquareMultiply, CeilDiv;
  }

  /** The base fee rate is the configured one, raised to the decay on the sides that decay: never below either, and
      above the configured one only by the decay and its rounding. */
  lemma BaseFeeFollowsDecay(f: ByrealFee, configRate: u32, zeroForOne: bool, now: u64)
    requires BaseFeeRate(f, configRate, zeroForOne, now).Some?
    ensures var r, base := BaseFeeRate(f, configRate, zeroForOne, now).value,
      if f.tradeFeeRate != 0 then f.tradeFeeRate else configRate;
      var decays := f.decayOn && (if zeroForOne then f.decaySell0 else f.decaySell1) && f.openTime <= now;
      && base <= r && (!decays ==> r == base)
      && (decays ==>
            var n := (now - f.openTime) / f.interval;
            ExactDecay(f, n) <= r as real
            && (r == base || r as real <= ExactDecay(f, n) + n as real * f.initRate as real / 100.0 + 1.0))
  {
    hide SquareMultiply, CeilDiv, ExactDecay;
    if f.decayOn && (if zeroForOne then f.decaySell0 else f.decaySell1) && f.openTime <= now {
      DecayFeeError(f, now);
    }
  }

  /** It is refused exactly on a side that decays since it opened, without an interval or with a decrease above 100 %. */
  lemma BaseFeeExists(f: ByrealFee, configRate: u32, zeroForOne: bool, now: u64)
    requires f.initRate <= 255
    ensures BaseFeeRate(f, configRate, zeroForOne, now).None?
      <==> && f.decayOn && (if zeroForOne then f.decaySell0 else f.decaySell1) && f.openTime <= now
           && (f.interval == 0 || f.decreaseRate > 100)
  {
    hide SquareMultiply, CeilDiv;
    if f.openTime <= now && f.interval != 0 && f.decreaseRate <= 100 {
      var n, base := (now - f.openTime) / f.interval, BYREAL_DENOMINATOR - f.decreaseRate * 10_000;
      var rate := SquareMultiply(BYREAL_DENOMINATOR, true, BYREAL_DENOMINATOR, base, n);
      WholePowerNear(BYREAL_DENOMINATOR, true, base, n);
      RateOfPercent(rate, f.initRate);
    }
  }

  lemma RateOfPercent(rate: nat, init: nat)
    requires rate <= BYREAL_DENOMINATOR && init <= 255
    ensures 0 <= rate * init && CeilDiv(rate * init, 100) < Q32
  {
    MulMono(rate, BYREAL_DENOMINATOR, init);
    MulNonneg(rate, init);
    CeilIff(rate * init, 100, 2_550_000);
  }

  lemma PercentBounds(rate: nat, init: nat, r: int)
    requires 0 <= rate * init && r == CeilDiv(rate * init, 100)
    ensures rate as real * init as real <= r as real * 100.0 && (r as real - 1.0) * 100.0 < rate as real * init as real
  {
    ProductAsReal(rate, init);
    CeilIff(rate * init, 100, r);
    CeilIff(rate * init, 100, r - 1);
  }

  lemma NearAbove(one: nat, r: nat, x: real, err: nat)
    requires Near(one, true, r, x, err)
    ensures 0.0 <= x <= 1.0 && one as real * x <= r as real <= one as real * x + err as real
  {
  }

  lemma PercentError(rate: real, x: real, n: real, init: real, r: real)
    requires 1_000_000.0 * x <= rate <= 1_000_000.0 * x + n && 0.0 <= init && rate * init <= r * 100.0
      && (r - 1.0) * 100.0 < rate * init
    ensures 10_000.0 * init * x <= r <= 10_000.0 * init * x + n * init / 100.0 + 1.0
  {
  }
}

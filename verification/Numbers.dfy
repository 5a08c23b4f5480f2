/** Machine-integer ranges and the two roundings every quote is built from. */
module Numbers {

  datatype Option<+T> = None | Some(value: T) {
    predicate IsFailure() {
      None?
    }

    function PropagateFailure<U>(): Option<U>
      requires None?
    {
      None
    }

    function Extract(): T
      requires Some?
    {
      value
    }
  }

  const Q32: int := 0x1_0000_0000
  const Q64: int := 0x1_0000_0000_0000_0000
  const Q128: int := 0x1_0000_0000_0000_0000_0000_0000_0000_0000
  const Q256: int := 0x1_0000_0000_0000_0000_0000_0000_0000_0000_0000_0000_0000_0000_0000_0000_0000_0000
  const U64_MAX: int := Q64 - 1

  type u16 = x: int | 0 <= x < 0x1_0000
  type u32 = x: int | 0 <= x < 0x1_0000_0000
  type u64 = x: int | 0 <= x < 0x1_0000_0000_0000_0000
  type u128 = x: int | 0 <= x < 0x1_0000_0000_0000_0000_0000_0000_0000_0000

  /** A result that only exists when it fits the machine type, as `try_from` and the checked operators give it. */
  function ToU64(x: int): (r: Option<u64>)
    ensures r.Some? <==> 0 <= x < Q64
    ensures r.Some? ==> r.value == x
  {
    if 0 <= x < Q64 then Some(x) else None
  }

  function ToU128(x: int): (r: Option<u128>)
    ensures r.Some? <==> 0 <= x < Q128
    ensures r.Some? ==> r.value == x
  {
    if 0 <= x < Q128 then Some(x) else None
  }

  function Min(a: int, b: int): int {
    if a <= b then a else b
  }

  function Max(a: int, b: int): int {
    if a <= b then b else a
  }

  function Abs(a: int): nat {
    if a < 0 then -a else a
  }

  function Clamp(x: int, lo: int, hi: int): int {
    if x < lo then lo else if x > hi then hi else x
  }

  /** `a / d` rounded up (`div_ceil`). */
  function CeilDiv(a: nat, d: nat): (q: nat)
    requires d > 0
  {
    if a % d == 0 then a / d else a / d + 1
  }

  /** Division rounded the way the flag says. */
  function RoundDiv(a: nat, d: nat, roundUp: bool): nat
    requires d > 0
  {
    if roundUp then CeilDiv(a, d) else a / d
  }

  // ── products ────────────────────────────────────────────────────────────

  lemma MulMono(x: int, y: int, z: int)
    requires x <= y && 0 <= z
    ensures x * z <= y * z
    ensures z * x <= z * y
  {
    assert 0 <= (y - x) * z;
    assert (y - x) * z == y * z - x * z;
  }

  lemma MulStrict(x: int, y: int, z: int)
    requires x < y && 0 < z
    ensures x * z < y * z
  {
    assert 0 < (y - x) * z;
    assert (y - x) * z == y * z - x * z;
  }

  lemma MulCancel(x: int, y: int, z: int)
    requires x * z <= y * z && 0 < z
    ensures x <= y
  {
    if y < x {
      MulStrict(y, x, z);
    }
  }

  lemma MulPos(x: int, y: int)
    requires 0 < x && 0 < y
    ensures 0 < x * y
  {
  }

  lemma MulNonneg(x: int, y: int)
    requires 0 <= x && 0 <= y
    ensures 0 <= x * y
  {
  }

  lemma Distribute(x: int, y: int, z: int)
    ensures (x + y) * z == x * z + y * z
    ensures (x - y) * z == x * z - y * z
  {
  }

  /** Factors up to `m` have a product up to `m²`. */
  lemma ProductBound(x: int, y: int, m: int)
    requires 0 <= x <= m && 0 <= y <= m
    ensures 0 <= x * y <= m * m
  {
    MulNonneg(x, y);
    MulMono(x, m, y);
    MulMono(y, m, m);
  }

  // ── the two roundings as Galois connections ─────────────────────────────

  lemma DivBounds(a: int, d: int)
    requires d > 0
    ensures a / d * d <= a < a / d * d + d
  {
  }

  /** `a / d` is the greatest `q` with `q * d <= a`. */
  lemma FloorIff(a: int, d: int, q: int)
    requires d > 0
    ensures q <= a / d <==> q * d <= a
  {
    DivBounds(a, d);
    var f := a / d;
    if q <= f {
      MulMono(q, f, d);
    } else {
      MulMono(f + 1, q, d);
      assert (f + 1) * d == f * d + d;
    }
  }

  /** `CeilDiv(a, d)` is the least `q` with `a <= q * d`. */
  lemma CeilIff(a: nat, d: nat, q: int)
    requires d > 0
    ensures CeilDiv(a, d) <= q <==> a <= q * d
  {
    DivBounds(a, d);
    FloorIff(a, d, q);
    FloorIff(a, d, q + 1);
    assert a == a / d * d + a % d;
    var f := a / d;
    if a % d == 0 {
      if a <= q * d {
        MulCancel(f, q, d);
      } else {
        if f <= q { MulMono(f, q, d); }
      }
    } else {
      if f + 1 <= q {
        MulMono(f + 1, q, d);
        assert (f + 1) * d == f * d + d;
      } else {
        MulMono(q, f, d);
      }
    }
  }

  /** `q` is the least whole number of `d`s that makes up `a`. */
  ghost predicate LeastMultiple(q: int, a: int, d: int) {
    0 <= q && forall x: nat :: q <= x <==> a <= x * d
  }

  /** `q` is the greatest whole number of `d`s that fits into `a`. */
  ghost predicate GreatestMultiple(q: int, a: int, d: int) {
    0 <= q && forall x: nat :: x <= q <==> x * d <= a
  }

  lemma CeilIsLeast(a: nat, d: nat)
    requires d > 0
    ensures LeastMultiple(CeilDiv(a, d), a, d)
  {
    forall x: nat ensures CeilDiv(a, d) <= x <==> a <= x * d {
      CeilIff(a, d, x);
    }
  }

  lemma LeastIsUnique(q: int, p: int, a: int, d: int)
    requires LeastMultiple(q, a, d) && LeastMultiple(p, a, d)
    ensures q == p
  {
    assert a <= q * d && a <= p * d;
  }

  lemma GreatestIsUnique(q: int, p: int, a: int, d: int)
    requires GreatestMultiple(q, a, d) && GreatestMultiple(p, a, d)
    ensures q == p
  {
    assert q * d <= a && p * d <= a;
  }

  lemma FloorIsGreatest(a: nat, d: nat)
    requires d > 0
    ensures GreatestMultiple(a / d, a, d)
  {
    FloorIff(a, d, 0);
    forall x: nat ensures x <= a / d <==> x * d <= a {
      FloorIff(a, d, x);
    }
  }

  /** The source also writes the ceiling as `(a + d - 1) / d`. */
  lemma CeilByAdding(a: nat, d: nat)
    requires d > 0
    ensures (a + (d - 1)) / d == CeilDiv(a, d)
  {
    var c := CeilDiv(a, d);
    CeilIff(a, d, c);
    CeilIff(a, d, c - 1);
    assert (c - 1) * d == c * d - d;
    FloorIff(a + (d - 1), d, c);
    FloorIff(a + (d - 1), d, c + 1);
    assert (c + 1) * d == c * d + d;
  }

  /** The padded quotient is the least that covers. */
  lemma PaddedIff(a: nat, d: nat, q: int)
    requires d > 0
    ensures (a + (d - 1)) / d <= q <==> a <= q * d
  {
    CeilByAdding(a, d);
    CeilIff(a, d, q);
  }

  lemma FloorMono(a: int, b: int, d: int)
    requires a <= b && 0 < d
    ensures a / d <= b / d
  {
    FloorIff(a, d, a / d);
    FloorIff(b, d, a / d);
  }

  lemma CeilMono(a: nat, b: nat, d: nat)
    requires a <= b && 0 < d
    ensures CeilDiv(a, d) <= CeilDiv(b, d)
  {
    CeilIff(a, d, CeilDiv(b, d));
    CeilIff(b, d, CeilDiv(b, d));
  }

  /** Two parts of `x·d`: rounding one down rounds the other up. */
  lemma SplitRounding(a: nat, b: nat, x: nat, d: nat)
    requires 0 < d && a + b == x * d
    ensures a / d <= x && CeilDiv(b, d) == x - a / d
  {
    var q := a / d;
    FloorIff(a, d, q);
    FloorIff(a, d, q + 1);
    FloorIff(a, d, x + 1);
    CeilIff(b, d, x - q);
    CeilIff(b, d, x - q - 1);
    Distribute(x, q, d);
    Distribute(x, q + 1, d);
    Distribute(x, 1, d);
    assert x - q - 1 == x - (q + 1);
  }

  /** A fee of `rate/den` on top of an amount that the fee inside `remaining` leaves room for:
      it fits, and it is at least `rate/den` of the total. */
  lemma FeeOnTop(amount: nat, remaining: nat, rate: nat, den: nat)
    requires rate < den && 0 <= remaining * (den - rate) && amount <= remaining * (den - rate) / den
    ensures 0 <= amount * rate
    ensures amount * den <= remaining * (den - rate)
    ensures var fee := CeilDiv(amount * rate, den - rate);
      amount + fee <= remaining && amount * den <= (amount + fee) * (den - rate)
  {
    var k := den - rate;
    MulNonneg(amount, rate);
    FloorIff(remaining * k, den, amount);
    Distribute(rate, k, amount);
    assert amount * rate + amount * k == amount * den;
    var fee := CeilDiv(amount * rate, k);
    CeilIff(amount * rate, k, fee);
    CeilIff(amount * rate, k, remaining - amount);
    Distribute(remaining, amount, k);
    Distribute(amount, fee, k);
  }

  /** The fee on top of `c` fits into `x` exactly when the fee inside `x` leaves `c`. */
  lemma FeeOnTopIff(c: nat, x: nat, rate: nat, den: nat)
    requires rate < den
    ensures 0 <= c * rate
    ensures c + CeilDiv(c * rate, den - rate) <= x <==> c <= x * (den - rate) / den
  {
    var k := den - rate;
    MulNonneg(c, rate);
    CeilIff(c * rate, k, x - c);
    FloorIff(x * k, den, c);
    Distribute(x, c, k);
    Distribute(rate, k, c);
    assert c * rate + c * k == c * den;
  }

  lemma KeptPartsAdd(x: nat, y: nat, k: nat, d: nat)
    requires 0 < d
    ensures x * k / d + y * k / d <= (x + y) * k / d
  {
    Distribute(x, y, k);
    FloorIff(x * k, d, x * k / d);
    FloorIff(y * k, d, y * k / d);
    Distribute(x * k / d, y * k / d, d);
    FloorIff((x + y) * k, d, x * k / d + y * k / d);
  }

  /** With the fee on top, a whole needs no more than its two parts, the first paid inside `a`. */
  lemma FeesOnTopAdd(c1: nat, c2: nat, c: nat, a: nat, rate: nat, den: nat)
    requires rate < den && c <= c1 + c2 && c1 <= a * (den - rate) / den
    ensures 0 <= c * rate && 0 <= c2 * rate
    ensures c + CeilDiv(c * rate, den - rate) <= a + (c2 + CeilDiv(c2 * rate, den - rate))
  {
    MulNonneg(c2, rate);
    var g := c2 + CeilDiv(c2 * rate, den - rate);
    FeeOnTopIff(c2, g, rate, den);
    KeptPartsAdd(a, g, den - rate, den);
    FeeOnTopIff(c, a + g, rate, den);
  }

  /** A reduction of at most 10⁴ basis points reduces. */
  lemma ReducedIsLess(x: u32, reduction: u16)
    requires reduction <= 10_000
    ensures 0 <= x * reduction / 10_000 % Q32 <= x
  {
    MulMono(reduction, 10_000, x);
    MulNonneg(x, reduction);
    FloorIff(x * reduction, 10_000, x + 1);
  }

  // ── constant product ────────────────────────────────────────────────────

  /** `amount` joining `into` and `out` leaving `from` do not lower the product. */
  predicate KeepsProduct(into: int, from: int, amount: int, out: int) {
    into * from <= (into + amount) * (from - out)
  }

  /** `out` is the most of `from` that keeps the product. */
  ghost predicate MostOfReserve(into: int, from: int, amount: int, out: int) {
    0 < into + amount && 0 <= out <= from
    && forall other: nat | other <= from :: other <= out <==> KeepsProduct(into, from, amount, other)
  }

  lemma ProductIsMost(into: nat, from: nat, amount: nat)
    requires 0 < into + amount
    ensures 0 <= from * amount && MostOfReserve(into, from, amount, from * amount / (into + amount))
  {
    MulNonneg(from, amount);
    var out := from * amount / (into + amount);
    FloorIff(from * amount, into + amount, 0);
    ProductQuotient(into, from, amount, from + 1);
    forall other: nat ensures other <= out <==> KeepsProduct(into, from, amount, other) {
      ProductQuotient(into, from, amount, other);
    }
  }

  lemma ProductQuotient(into: nat, from: nat, amount: nat, out: int)
    requires 0 < into + amount && 0 <= from * amount
    ensures out <= from * amount / (into + amount) <==> KeepsProduct(into, from, amount, out)
    ensures out == from + 1 ==> !KeepsProduct(into, from, amount, out)
  {
    FloorIff(from * amount, into + amount, out);
    MulNonneg(into, from);
    assert (into + amount) * (from - out) == into * from + from * amount - out * (into + amount);
  }

  // ── powers of two ───────────────────────────────────────────────────────

  function TwoTo(n: nat): (p: nat)
    ensures p > 0
  {
    if n == 0 then 1 else 2 * TwoTo(n - 1)
  }

  lemma Doubled(p: int, q: int)
    ensures 2 * (p * q) == (2 * p) * q
  {
  }

  lemma {:induction false} TwoToAdds(a: nat, b: nat)
    ensures TwoTo(a + b) == TwoTo(a) * TwoTo(b)
  {
    if a > 0 {
      TwoToAdds(a - 1, b);
      Doubled(TwoTo(a - 1), TwoTo(b));
    }
  }

  lemma SmallPowers()
    ensures TwoTo(3) == 8 && TwoTo(4) == 16
  {
    assert TwoTo(2) == 4;
  }

  lemma WordSizes()
    ensures TwoTo(19) == 0x80000 && TwoTo(64) == Q64
  {
    hide TwoTo;
    SmallPowers();
    TwoToAdds(4, 4);
    TwoToAdds(8, 8);
    TwoToAdds(16, 16);
    TwoToAdds(32, 32);
    TwoToAdds(16, 3);
  }

  // ── reals ───────────────────────────────────────────────────────────────

  lemma RealMono(x: real, y: real, z: real)
    requires x <= y && 0.0 <= z
    ensures x * z <= y * z && z * x <= z * y
  {
    assert 0.0 <= (y - x) * z;
    assert (y - x) * z == y * z - x * z;
  }

  lemma RealStrict(x: real, y: real, z: real)
    requires x < y && 0.0 < z
    ensures x * z < y * z
  {
    assert 0.0 < (y - x) * z;
    assert (y - x) * z == y * z - x * z;
  }

  lemma RealCancel(x: real, y: real, z: real)
    requires 0.0 < z && x * z <= y * z
    ensures x <= y
  {
    if y < x {
      RealStrict(y, x, z);
    }
  }

  lemma RealCancelStrict(x: real, y: real, z: real)
    requires 0.0 < z && x * z < y * z
    ensures x < y
  {
    if y <= x {
      RealMono(y, x, z);
    }
  }

  lemma ProductAsReal(x: int, y: int)
    ensures (x * y) as real == x as real * y as real
  {
  }
}

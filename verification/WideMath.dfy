/** The 256/512-bit multiply-divide kernel (`src/quote/clmm.rs`). */
module WideMath {
  import opened Numbers

  type u256 = x: int | 0 <= x < Q256
  type u512 = x: int | 0 <= x < Q256 * Q256

  /** A 256-bit number as its two 128-bit halves. */
  datatype Wide = Wide(lo: u128, hi: u128) {
    function Value(): nat {
      hi * Q128 + lo
    }
  }

  function ToU256(x: int): (r: Option<u256>)
    ensures r.Some? <==> 0 <= x < Q256
    ensures r.Some? ==> r.value == x
  {
    if 0 <= x < Q256 then Some(x) else None
  }

  lemma LimbProduct(x: int, y: int)
    requires 0 <= x < Q64 && 0 <= y < Q64
    ensures 0 <= x * y <= (Q64 - 1) * (Q64 - 1)
  {
    ProductBound(x, y, Q64 - 1);
  }

  lemma WideProduct(x: int, y: int)
    requires 0 <= x < Q128 && 0 <= y < Q128
    ensures 0 <= x * y <= (Q128 - 1) * (Q128 - 1)
  {
    ProductBound(x, y, Q128 - 1);
  }

  lemma SplitProduct(a0: int, a1: int, b0: int, b1: int)
    ensures (a1 * Q64 + a0) * (b1 * Q64 + b0)
         == a1 * b1 * Q128 + (a0 * b1 + a1 * b0) * Q64 + a0 * b0
  {
  }

  /** a·b from four 64×64-bit products. Every intermediate is typed `u128`, so
      none of the additions wraps. */
  function WideMul(a: u128, b: u128): (w: Wide)
    ensures w.Value() == a * b
  {
    var a0, a1 := a % Q64, a / Q64;
    var b0, b1 := b % Q64, b / Q64;
    LimbProduct(a0, b0);
    LimbProduct(a0, b1);
    LimbProduct(a1, b0);
    LimbProduct(a1, b1);
    var ll: u128, lh: u128, hl: u128, hh: u128 := a0 * b0, a0 * b1, a1 * b0, a1 * b1;
    var mid: u128 := ll / Q64 + lh % Q64 + hl % Q64;
    var lo: u128 := ll % Q64 + mid % Q64 * Q64;
    SplitProduct(a0, a1, b0, b1);
    WideProduct(a, b);
    var hi: u128 := hh + lh / Q64 + hl / Q64 + mid / Q64;
    Wide(lo, hi)
  }

  /** floor(a·b / d): the 128-bit fast path and the 256-bit path. */
  function MulDivFloor(a: u128, b: u128, d: u128): (r: Option<u128>)
    ensures r == if d == 0 then None else ToU128(a * b / d)
  {
    if d == 0 then None
    else if a * b < Q128 then
      DivBounds(a * b, d);
      FloorIff(a * b, d, Q128);
      MulMono(1, d, Q128);
      Some(a * b / d)
    else ToU128(WideMul(a, b).Value() / d)
  }

  /** ceil(a·b / d), likewise. */
  function MulDivCeil(a: u128, b: u128, d: u128): (r: Option<u128>)
    ensures r == if d == 0 then None else ToU128(CeilDiv(a * b, d))
  {
    if d == 0 then None
    else if a * b < Q128 then
      CeilIff(a * b, d, Q128 - 1);
      MulMono(1, d, Q128 - 1);
      Some(CeilDiv(a * b, d))
    else
      var p := WideMul(a, b).Value();
      var q :- ToU128(p / d);
      if p % d == 0 then Some(q) else ToU128(q + 1)
  }

  /** `q` is `x / d` rounded the way the flag says: the greatest quotient not above it, or the least not below. */
  predicate Rounded(x: nat, d: nat, q: nat, roundUp: bool) {
    if roundUp then (q - 1) * d < x <= q * d else q * d <= x < (q + 1) * d
  }

  lemma RoundedOnce(x: nat, d: nat, roundUp: bool)
    requires d > 0
    ensures Rounded(x, d, x / d + (if roundUp && x % d != 0 then 1 else 0), roundUp)
  {
    var q := x / d;
    DivBounds(x, d);
    assert (q + 1) * d == q * d + d && (q - 1) * d == q * d - d;
    assert x == q * d + x % d;
  }

  /** Where a rounded quotient no longer fits `limit`. */
  lemma QuotientFits(x: nat, d: nat, q: nat, roundUp: bool, limit: nat)
    requires d > 0 && Rounded(x, d, q, roundUp)
    ensures limit <= q <==> (if roundUp then (limit - 1) * d < x else limit * d <= x)
  {
    if limit <= q {
      MulMono(limit - 1, q - 1, d);
      MulMono(limit, q, d);
    } else {
      MulMono(q, limit - 1, d);
      MulMono(q + 1, limit, d);
    }
  }

  lemma Product512(x: u256, y: u256)
    ensures 0 <= x * y <= (Q256 - 1) * (Q256 - 1)
  {
    ProductBound(x, y, Q256 - 1);
  }

  /** a·b / d on 256-bit operands with a 512-bit product: the product and the incremented quotient stay in 512 bits,
      and a set bit in the quotient's upper half refuses. */
  function MulDiv512(a: u256, b: u256, d: u256, roundUp: bool): (r: Option<u256>)
    ensures r.Some? ==> 0 <= a * b && Rounded(a * b, d, r.value, roundUp)
    ensures r.None? <==> d == 0 || (if roundUp then (Q256 - 1) * d < a * b else Q256 * d <= a * b)
  {
    if d == 0 then None
    else
      Product512(a, b);
      var p: u512 := a * b;
      FloorIff(p, d, 0);
      FloorIff(p, d, Q256 * Q256 - 1);
      MulMono(1, d, Q256 * Q256 - 1);
      RoundedOnce(p, d, roundUp);
      var q: u512 := p / d + if roundUp && p % d != 0 then 1 else 0;
      QuotientFits(p, d, q, roundUp, Q256);
      UpperHalf(q);
      if q / Q256 != 0 then None else Some(q % Q256)
  }

  lemma UpperHalf(q: u512)
    ensures q / Q256 == 0 <==> q < Q256
    ensures q < Q256 ==> q % Q256 == q
  {
  }

  lemma OneRounding(x: nat, d: nat, q: nat, q': nat, roundUp: bool)
    requires d > 0 && Rounded(x, d, q, roundUp) && Rounded(x, d, q', roundUp)
    ensures q == q'
  {
    QuotientFits(x, d, q, roundUp, q');
    QuotientFits(x, d, q', roundUp, q);
    QuotientFits(x, d, q, roundUp, q);
    QuotientFits(x, d, q', roundUp, q');
  }

  lemma NarrowAgrees(a: u256, b: u256, d: u256, roundUp: bool)
    requires 0 < d && a * b < Q256
    ensures 0 <= a * b / d && MulDiv512(a, b, d, roundUp) == Some(a * b / d + if roundUp && a * b % d != 0 then 1 else 0)
  {
    hide MulDiv512;
    Product512(a, b);
    FloorIff(a * b, d, 0);
    RoundedOnce(a * b, d, roundUp);
    var q := a * b / d + if roundUp && a * b % d != 0 then 1 else 0;
    MulMono(1, d, Q256 - 1);
    QuotientFits(a * b, d, q, roundUp, Q256);
    OneRounding(a * b, d, q, MulDiv512(a, b, d, roundUp).value, roundUp);
  }

  /** A product that fits 256 bits is divided there, where the quotient's increment cannot overflow; the answer is the
      512-bit path's on every input. */
  function MulDiv256(a: u256, b: u256, d: u256, roundUp: bool): (r: Option<u256>)
    ensures r == MulDiv512(a, b, d, roundUp)
  {
    if d == 0 then None
    else if a * b < Q256 then
      NarrowAgrees(a, b, d, roundUp);
      var q: u256 := a * b / d;
      if roundUp && a * b % d != 0 then ToU256(q + 1) else Some(q)
    else MulDiv512(a, b, d, roundUp)
  }

  lemma MulDivExact(a: u256, b: u256, d: u256, roundUp: bool)
    requires 0 < d
    ensures 0 <= a * b && MulDiv256(a, b, d, roundUp) == ToU256(RoundDiv(a * b, d, roundUp))
  {
    hide MulDiv256, MulDiv512;
    Product512(a, b);
    var q := RoundDiv(a * b, d, roundUp);
    RoundedOnce(a * b, d, roundUp);
    QuotientFits(a * b, d, q, roundUp, Q256);
    if MulDiv256(a, b, d, roundUp).Some? {
      OneRounding(a * b, d, q, MulDiv256(a, b, d, roundUp).value, roundUp);
    }
  }
}

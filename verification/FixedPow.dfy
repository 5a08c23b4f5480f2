/** Fixed-point square-and-multiply, rounding every product one way, against the exact power
    (`src/quote/damm_v2.rs`, `src/quote/dbc.rs`, `src/quote/dlmm.rs`, `src/quote/byreal_fee.rs`). */
module FixedPow {
  import opened Numbers

  /** The exact power. */
  ghost function Pow(y: real, n: nat): real {
    if n == 0 then 1.0 else y * Pow(y, n - 1)
  }

  /** `r · s^e` in units of `1/one`, squaring `s` once per exponent bit and rounding every product the same way. */
  function SquareMultiply(one: nat, roundUp: bool, r: nat, s: nat, e: nat): nat
    requires one > 0
    decreases e
  {
    MulNonneg(r, s);
    MulNonneg(s, s);
    if e == 0 then r
    else SquareMultiply(one, roundUp, if e % 2 == 1 then RoundDiv(r * s, one, roundUp) else r,
        RoundDiv(s * s, one, roundUp), e / 2)
  }

  /** `r` is `m·x` up to `err`, on the side the rounding goes. */
  ghost predicate RealNear(m: real, roundUp: bool, r: real, x: real, err: real) {
    if roundUp then m * x <= r <= m * x + err else m * x - err <= r <= m * x
  }

  /** `r/one` is `x` up to `err` units. */
  ghost predicate Near(one: nat, roundUp: bool, r: nat, x: real, err: nat) {
    0.0 <= x <= 1.0 && r <= one && RealNear(one as real, roundUp, r as real, x, err as real)
  }

  /** `q` is `p/m` rounded to an integer. */
  ghost predicate Rounded(m: real, roundUp: bool, p: real, q: real) {
    if roundUp then (q - 1.0) * m < p <= q * m else q * m <= p < (q + 1.0) * m
  }

  lemma BoundedTerm(e: real, f: real, bound: real, m: real)
    requires 0.0 <= e <= bound && 0.0 <= f <= m
    ensures 0.0 <= e * f <= m * bound
  {
    RealMono(0.0, e, f);
    RealMono(e, bound, f);
    RealMono(f, m, bound);
  }

  lemma UnitProduct(x: real, y: real)
    requires 0.0 <= x <= 1.0 && 0.0 <= y <= 1.0
    ensures 0.0 <= x * y <= 1.0
  {
    BoundedTerm(x, y, 1.0, 1.0);
  }

  lemma SplitProduct(r: real, s: real, u: real, v: real)
    ensures r * s == u * v + (r - u) * s + (s - v) * u
  {
  }

  lemma ScaledProduct(m: real, x: real, y: real)
    ensures m * (m * (x * y)) == (m * x) * (m * y)
  {
  }

  /** The unrounded product: each factor's error times at most `m`. */
  lemma FactorErrors(m: real, roundUp: bool, r: real, s: real, u: real, v: real, i: real, j: real)
    requires 0.0 <= u <= m && 0.0 <= s <= m && 0.0 <= i && 0.0 <= j
    requires if roundUp then u <= r <= u + i && v <= s <= v + j else u - i <= r <= u && v - j <= s <= v
    ensures if roundUp then u * v <= r * s <= u * v + m * (i + j) else u * v - m * (i + j) <= r * s <= u * v
  {
    SplitProduct(r, s, u, v);
    assert m * (i + j) == m * i + m * j;
    if roundUp {
      BoundedTerm(r - u, s, i, m);
      BoundedTerm(s - v, u, j, m);
    } else {
      BoundedTerm(u - r, s, i, m);
      BoundedTerm(v - s, u, j, m);
      assert (r - u) * s == -((u - r) * s) && (s - v) * u == -((v - s) * u);
    }
  }

  /** `q` is the rounding of `r·s/m`; `u`, `v`, `z` are the exact values in units of `1/m`. */
  lemma RoundedProduct(m: real, roundUp: bool, r: real, s: real, p: real, q: real, u: real, v: real, z: real, i: real, j: real)
    requires 0.0 < m && 0.0 <= u <= m && 0.0 <= s <= m && 0.0 <= i && 0.0 <= j && m * z == u * v
    requires if roundUp then u <= r <= u + i && v <= s <= v + j else u - i <= r <= u && v - j <= s <= v
    requires p == r * s && Rounded(m, roundUp, p, q)
    ensures if roundUp then z <= q <= z + (i + j + 1.0) else z - (i + j + 1.0) <= q <= z
  {
    hide Rounded;
    FactorErrors(m, roundUp, r, s, u, v, i, j);
    var lo, hi := if roundUp then z else z - (i + j), if roundUp then z + (i + j) else z;
    assert m * (z + (i + j)) == m * z + m * (i + j);
    assert m * (z - (i + j)) == m * z - m * (i + j);
    QuotientNear(m, roundUp, p, q, lo, hi);
  }

  lemma QuotientNear(m: real, roundUp: bool, p: real, q: real, lo: real, hi: real)
    requires 0.0 < m && Rounded(m, roundUp, p, q) && m * lo <= p <= m * hi
    ensures if roundUp then lo <= q <= hi + 1.0 else lo - 1.0 <= q <= hi
  {
    if roundUp {
      Between(lo, p, q, m);
      Between(q - 1.0, p, hi, m);
    } else {
      Between(q, p, hi, m);
      Between(lo, p, q + 1.0, m);
    }
  }

  /** `x·m <= p <= y·m` orders `x` and `y`. */
  lemma Between(x: real, p: real, y: real, m: real)
    requires 0.0 < m && m * x <= p <= m * y
    ensures x <= y
  {
    if y < x {
      RealStrict(y, x, m);
    }
  }

  lemma RoundingIsReal(a: nat, d: nat, roundUp: bool)
    requires d > 0
    ensures Rounded(d as real, roundUp, a as real, RoundDiv(a, d, roundUp) as real)
  {
  }

  lemma RoundedFits(r: nat, s: nat, one: nat, roundUp: bool)
    requires 0 < one && r <= one && s <= one
    ensures 0 <= r * s && RoundDiv(r * s, one, roundUp) <= one
  {
    MulMono(r, one, s);
    MulMono(s, one, one);
    MulNonneg(r, s);
    CeilIff(r * s, one, one);
    FloorIff(r * s, one, one + 1);
    assert (one + 1) * one == one * one + one;
  }

  lemma UnitScaled(m: real, x: real)
    requires 0.0 < m && 0.0 <= x <= 1.0
    ensures 0.0 <= m * x <= m
  {
  }

  /** `Near`, with the exact value in units. */
  lemma NearUnits(one: nat, roundUp: bool, r: nat, x: real, err: nat) returns (u: real)
    requires 0 < one && Near(one, roundUp, r, x, err)
    ensures 0.0 <= x <= 1.0 && r <= one && u == one as real * x && 0.0 <= u <= one as real
    ensures if roundUp then u <= r as real <= u + err as real else u - err as real <= r as real <= u
  {
    u := one as real * x;
    UnitScaled(one as real, x);
  }

  lemma UnitsNear(one: nat, roundUp: bool, r: nat, x: real, err: nat, u: real)
    requires r <= one && 0.0 <= x <= 1.0 && u == one as real * x
    requires if roundUp then u <= r as real <= u + err as real else u - err as real <= r as real <= u
    ensures Near(one, roundUp, r, x, err)
  {
  }

  /** Rounding one product adds the two errors and one unit. */
  lemma ProductNear(one: nat, roundUp: bool, r: nat, s: nat, x: real, y: real, i: nat, j: nat)
    requires one > 0 && Near(one, roundUp, r, x, i) && Near(one, roundUp, s, y, j)
    ensures 0 <= r * s && Near(one, roundUp, RoundDiv(r * s, one, roundUp), x * y, i + j + 1)
  {
    hide RoundDiv, Rounded;
    RoundedFits(r, s, one, roundUp);
    RoundingIsReal(r * s, one, roundUp);
    ProductAsReal(r, s);
    RealProductNear(one, roundUp, r, s, (r * s) as real, RoundDiv(r * s, one, roundUp), x, y, i, j);
  }

  lemma RealProductNear(one: nat, roundUp: bool, r: nat, s: nat, p: real, q: nat, x: real, y: real, i: nat, j: nat)
    requires one > 0 && Near(one, roundUp, r, x, i) && Near(one, roundUp, s, y, j)
    requires q <= one && p == r as real * s as real && Rounded(one as real, roundUp, p, q as real)
    ensures Near(one, roundUp, q, x * y, i + j + 1)
  {
    hide *;
    var u := NearUnits(one, roundUp, r, x, i);
    var v := NearUnits(one, roundUp, s, y, j);
    UnitProduct(x, y);
    var w := x * y;
    var z := one as real * w;
    ScaledProduct(one as real, x, y);
    RoundedProduct(one as real, roundUp, r as real, s as real, p, q as real, u, v, z, i as real, j as real);
    UnitsNear(one, roundUp, q, w, i + j + 1, z);
  }

  lemma {:induction false} PowSquare(y: real, k: nat)
    ensures Pow(y, 2 * k) == Pow(y * y, k)
  {
    if k > 0 {
      PowSquare(y, k - 1);
      assert Pow(y, 2 * k) == y * (y * Pow(y, 2 * k - 2));
      assert y * (y * Pow(y, 2 * k - 2)) == y * y * Pow(y, 2 * k - 2);
    }
  }

  lemma {:induction false} PowUnit(y: real, n: nat)
    requires 0.0 <= y <= 1.0
    ensures 0.0 <= Pow(y, n) <= 1.0
  {
    if n > 0 {
      PowUnit(y, n - 1);
      UnitProduct(y, Pow(y, n - 1));
    }
  }

  /** Exponent `e` costs `e` units on top of the errors the operands bring, whatever its bits:
      both the exact value and the error bound are what one squaring and one product leave unchanged. */
  lemma {:induction false} PowerNear(one: nat, roundUp: bool, r: nat, s: nat, e: nat, x: real, y: real, i: nat, j: nat,
      z: real, err: nat)
    requires one > 0 && Near(one, roundUp, r, x, i) && Near(one, roundUp, s, y, j)
    requires z == x * Pow(y, e) && err == i + e * (j + 1)
    ensures Near(one, roundUp, SquareMultiply(one, roundUp, r, s, e), z, err)
    decreases e
  {
    hide Near, RoundDiv;
    if e != 0 {
      var h := e / 2;
      ProductNear(one, roundUp, s, s, y, y, j, j);
      ProductNear(one, roundUp, r, s, x, y, i, j);
      SamePower(x, y, i, j, e);
      var s' := RoundDiv(s * s, one, roundUp);
      if e % 2 == 1 {
        PowerNear(one, roundUp, RoundDiv(r * s, one, roundUp), s', h, x * y, y * y, i + j + 1, 2 * j + 1, z, err);
      } else {
        PowerNear(one, roundUp, r, s', h, x, y * y, i, 2 * j + 1, z, err);
      }
    }
  }

  lemma SamePower(x: real, y: real, i: nat, j: nat, e: nat)
    requires e != 0
    ensures x * Pow(y, e) == (if e % 2 == 1 then x * y else x) * Pow(y * y, e / 2)
    ensures i + e * (j + 1) == (if e % 2 == 1 then i + j + 1 else i) + e / 2 * (2 * j + 1 + 1)
    ensures j + j + 1 == 2 * j + 1
  {
    var h := e / 2;
    PowSquare(y, h);
    assert h * (2 * j + 1 + 1) == 2 * h * (j + 1);
    if e % 2 == 1 {
      assert e == 2 * h + 1 && Pow(y, e) == y * Pow(y, 2 * h);
      assert x * (y * Pow(y, 2 * h)) == x * y * Pow(y, 2 * h);
      assert e * (j + 1) == 2 * h * (j + 1) + (j + 1);
    } else {
      assert e == 2 * h;
    }
  }

  /** The whole power: within `n` units of the exact one, on the rounding's side. */
  lemma WholePowerNear(one: nat, roundUp: bool, base: nat, n: nat)
    requires 0 < one && base <= one
    ensures Near(one, roundUp, SquareMultiply(one, roundUp, one, base, n), Pow(base as real / one as real, n), n)
  {
    var m := one as real;
    var y := base as real / m;
    assert y * m == base as real;
    UnitFraction(base as real, m, y);
    UnitsNear(one, roundUp, one, 1.0, 0, m);
    UnitsNear(one, roundUp, base, y, 0, base as real);
    assert n == 0 + n * (0 + 1);
    PowerNear(one, roundUp, one, base, n, 1.0, y, 0, 0, Pow(y, n), n);
  }

  lemma UnitFraction(a: real, m: real, y: real)
    requires 0.0 <= a <= m && 0.0 < m && y * m == a
    ensures 0.0 <= y <= 1.0
  {
  }

  /** Powers of nearby bases are near. */
  lemma {:induction false} PowPerturbed(y: real, t: real, d: real, n: nat, e: real)
    requires 0.0 <= y <= 1.0 && 0.0 <= t <= 1.0 && 0.0 <= d && t - d <= y <= t + d && e == n as real * d
    ensures Pow(t, n) - e <= Pow(y, n) <= Pow(t, n) + e
  {
    hide Pow;
    PowUnrolls(y, n);
    PowUnrolls(t, n);
    if n > 0 {
      OneLess(n, d, e);
      PowPerturbed(y, t, d, n - 1, e - d);
      PowUnit(t, n - 1);
      FactorPerturbed(y, t, d, Pow(y, n - 1), Pow(t, n - 1), e - d);
    }
  }

  lemma PowUnrolls(y: real, n: nat)
    ensures Pow(y, 0) == 1.0 && (n > 0 ==> Pow(y, n) == y * Pow(y, n - 1))
  {
  }

  lemma OneLess(n: nat, d: real, e: real)
    requires 0 < n && 0.0 <= d && e == n as real * d
    ensures e - d == (n - 1) as real * d && 0.0 <= e - d
  {
    RealMono(1.0, n as real, d);
  }

  lemma Shrinks(y: real, u: real, e: real)
    requires 0.0 <= y <= 1.0 && -e <= u <= e
    ensures -e <= y * u <= e
  {
    var p, q := y * u, y * e;
    assert 0.0 <= (e - u) * y && (e - u) * y == q - p;
    assert 0.0 <= (u + e) * y && (u + e) * y == p + q;
    assert 0.0 <= e * (1.0 - y) && e * (1.0 - y) == e - q;
  }

  lemma FactorPerturbed(y: real, t: real, d: real, py: real, pt: real, e: real)
    requires 0.0 <= y <= 1.0 && 0.0 <= pt <= 1.0
    requires t - d <= y <= t + d && pt - e <= py <= pt + e
    ensures t * pt - (e + d) <= y * py <= t * pt + (e + d)
  {
    Shrinks(y, py - pt, e);
    Shrinks(pt, y - t, d);
    SplitFactors(y, t, py, pt);
  }

  lemma SplitFactors(y: real, t: real, py: real, pt: real)
    ensures y * py == t * pt + y * (py - pt) + pt * (y - t)
  {
  }
}

/** Go's integer bit operators on the non-negative values the encoder feeds
    them. Go defines `x << n` as `x * 2^n` and `x >> n` as `x / 2^n` for
    non-negative `x`; `|` and `&` combine the binary digits position by
    position, which is what Or and And do here, one bit per recursive step. */
module Bits {

  /** Go's `byte` (uint8). */
  type byte = b: int | 0 <= b < 0x100

  /** Go's `uint32`, the type of the samples an image returns. */
  type uint32 = x: int | 0 <= x < 0x1_0000_0000

  function Pow2(k: nat): (r: nat)
    ensures r >= 1
  {
    if k == 0 then 1 else 2 * Pow2(k - 1)
  }

  /** `x << k`: `x` moved up by `k` bits, leaving the `k` low bits clear. */
  function ShiftLeft(x: nat, k: nat): (r: nat)
    ensures r >= x
    ensures r % Pow2(k) == 0 && r / Pow2(k) == x
  {
    MulLeq(1, Pow2(k), x);
    ModUnique(x * Pow2(k), Pow2(k), x, 0);
    x * Pow2(k)
  }

  /** `x >> k`: the largest `r` whose shift by `k` bits does not exceed `x`. */
  function ShiftRight(x: nat, k: nat): (r: nat)
    ensures r * Pow2(k) <= x < (r + 1) * Pow2(k)
  {
    DivOfNat(x, Pow2(k));
    x / Pow2(k)
  }

  lemma DivOfNat(x: nat, d: nat)
    requires d >= 1
    ensures x / d >= 0
  {
  }

  /** Bitwise or: the lowest bit is set when either lowest bit is. */
  function Or(a: nat, b: nat): (r: nat)
    ensures a <= r && b <= r && r <= a + b
    decreases a + b
  {
    if a == 0 then b
    else if b == 0 then a
    else 2 * Or(a / 2, b / 2) + (if a % 2 == 1 || b % 2 == 1 then 1 else 0)
  }

  /** Bitwise and: the lowest bit is set when both lowest bits are. */
  function And(a: nat, b: nat): (r: nat)
    ensures r <= a && r <= b
    decreases a + b
  {
    if a == 0 || b == 0 then 0
    else 2 * And(a / 2, b / 2) + (if a % 2 == 1 && b % 2 == 1 then 1 else 0)
  }

  /** Or-ing a value into the zero low bits of a shifted value is addition. */
  lemma {:induction false} OrIntoLowBits(a: nat, k: nat, b: nat)
    requires b < Pow2(k)
    ensures Or(ShiftLeft(a, k), b) == ShiftLeft(a, k) + b
  {
    if k == 0 || a == 0 || b == 0 {
    } else {
      var x := a * Pow2(k);
      assert x == 2 * (a * Pow2(k - 1));
      assert x / 2 == a * Pow2(k - 1) && x % 2 == 0;
      OrIntoLowBits(a, k - 1, b / 2);
    }
  }

  /** And-ing with `2^k - 1` keeps the `k` low bits. */
  lemma {:induction false} AndLowMask(x: nat, k: nat)
    ensures And(x, Pow2(k) - 1) == x % Pow2(k)
  {
    if k == 0 {
      assert Pow2(k) == 1;
    } else if x == 0 {
      ModUnique(0, Pow2(k), 0, 0);
    } else {
      var p := Pow2(k - 1);
      assert Pow2(k) == 2 * p;
      var m := 2 * p - 1;
      ModUnique(m, 2, p - 1, 1);
      AndLowMask(x / 2, k - 1);
      assert And(x, m) == 2 * And(x / 2, p - 1) + x % 2;
      ModHalves(x, p);
    }
  }

  /** `x % 2p` from the low bit and `(x / 2) % p`. */
  lemma ModHalves(x: nat, p: nat)
    requires p >= 1
    ensures x % (2 * p) == 2 * ((x / 2) % p) + x % 2
  {
    var q := (x / 2) / p;
    var t := 2 * ((x / 2) % p) + x % 2;
    assert x == (2 * p) * q + t;
    ModUnique(x, 2 * p, q, t);
  }

  /** Euclidean division leaves one remainder in `[0, k)`. */
  lemma ModUnique(x: int, k: int, q: int, t: int)
    requires k > 0 && 0 <= t < k && x == q * k + t
    ensures x % k == t && x / k == q
  {
    var q', t' := x / k, x % k;
    assert (q - q') * k == t' - t;
    if q > q' {
      assert (q - q') * k >= k by { MulAtLeast(q - q', k); }
    } else if q < q' {
      assert (q' - q) * k >= k by { MulAtLeast(q' - q, k); }
    }
  }

  lemma MulAtLeast(a: int, k: int)
    requires a >= 1 && k > 0
    ensures a * k >= k
  {
  }

  /** Regrouping a two-digit number written in base `m`. */
  lemma Regroup(a: int, b: int, m: int, t: int)
    ensures (a * m + b) * m + t == a * (m * m) + (b * m + t)
  {
    calc {
      (a * m + b) * m + t;
      (a * m) * m + b * m + t;
      a * (m * m) + (b * m + t);
    }
  }

  /** Two base-`m` digits make a value below `m * m`. */
  lemma DigitBound(b: int, t: int, m: int)
    requires 0 <= b < m && 0 <= t < m
    ensures 0 <= b * m + t < m * m
  {
    assert b * m <= (m - 1) * m by {
      MulLeq(b, m - 1, m);
    }
    assert (m - 1) * m == m * m - m;
  }

  lemma MulLeq(a: int, b: int, m: int)
    requires a <= b && m >= 0
    ensures a * m <= b * m
  {
    assert b * m - a * m == (b - a) * m;
  }
}

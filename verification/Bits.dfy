/** Bitwise operators on unbounded naturals, and the masking laws the C, Rust and Python code rely on. */
module Bits {
  import opened Bytes

  function Pow2(k: nat): (r: nat)
    ensures r > 0
  {
    if k == 0 then 1 else 2 * Pow2(k - 1)
  }

  function And(a: nat, b: nat): nat
    decreases a
  {
    if a == 0 || b == 0 then 0 else 2 * And(a / 2, b / 2) + (a % 2) * (b % 2)
  }

  function Or(a: nat, b: nat): nat
    decreases a + b
  {
    if a == 0 then b else if b == 0 then a
    else 2 * Or(a / 2, b / 2) + (if a % 2 == 1 || b % 2 == 1 then 1 else 0)
  }

  function Shl(a: nat, k: nat): nat { a * Pow2(k) }
  function Shr(a: nat, k: nat): nat { DivNonNegative(a, Pow2(k)); a / Pow2(k) }

  lemma DivNonNegative(a: nat, d: nat)
    requires d > 0
    ensures a / d >= 0
  {
    var q := a / d;
    assert a == d * q + a % d;
    if q < 0 { NegativeProduct(d, q); }
  }

  lemma {:induction false} NegativeProduct(d: nat, q: int)
    requires q < 0
    ensures d * q + d <= 0
    decreases -q
  {
    if q < -1 {
      NegativeProduct(d, q + 1);
      assert d * q == d * (q + 1) - d;
    }
  }

  /** `is_power_of_2`. */
  predicate IsPowerOf2(v: nat) {
    v != 0 && And(v, v - 1) == 0
  }

  lemma {:induction false} AndSelf(a: nat)
    ensures And(a, a) == a
    decreases a
  {
    if a > 0 {
      AndSelf(a / 2);
    }
  }

  lemma HalveTest(u: nat)
    requires u > 0
    ensures IsPowerOf2(2 * u) <==> IsPowerOf2(u)
  {
    assert (2 * u - 1) / 2 == u - 1;
    assert And(2 * u, 2 * u - 1) == 2 * And(u, u - 1);
  }

  lemma OddTest(v: nat)
    requires v > 1 && v % 2 == 1
    ensures !IsPowerOf2(v)
  {
    assert (v - 1) / 2 == v / 2;
    AndSelf(v / 2);
    assert And(v, v - 1) == 2 * (v / 2);
  }

  lemma {:induction false} Exponent(v: nat) returns (k: nat)
    requires IsPowerOf2(v)
    ensures v == Pow2(k)
    decreases v
  {
    if v == 1 { return 0; }
    if v % 2 == 1 { OddTest(v); }
    HalveTest(v / 2);
    k := Exponent(v / 2);
    k := k + 1;
  }

  lemma {:induction false} PowersPass(k: nat)
    ensures IsPowerOf2(Pow2(k))
  {
    if k > 0 {
      PowersPass(k - 1);
      HalveTest(Pow2(k - 1));
    }
  }

  /** The bit trick accepts exactly the powers of two. */
  lemma PowerOf2Test(v: nat)
    ensures IsPowerOf2(v) <==> exists k: nat :: v == Pow2(k)
  {
    if IsPowerOf2(v) {
      var k := Exponent(v);
      assert v == Pow2(k);
    } else {
      forall k: nat ensures v != Pow2(k) { PowersPass(k); }
    }
  }

  lemma DoubleMod(n: nat, d: nat)
    requires d > 0
    ensures n % (2 * d) == 2 * ((n / 2) % d) + n % 2
  {
    var q, r := (n / 2) / d, (n / 2) % d;
    assert n / 2 == d * q + r;
    assert n == 2 * (d * q + r) + n % 2;
    assert 2 * (d * q) == (2 * d) * q;
    RemainderUnique(2 * d, n, q, 2 * r + n % 2);
  }

  lemma RemainderUnique(d: nat, n: nat, q: nat, r: nat)
    requires d > 0 && n == d * q + r && r < d
    ensures n % d == r && n / d == q
  {
    var q', r' := n / d, n % d;
    assert n == d * q' + r';
    if q < q' { Gap(d, q, q'); } else if q' < q { Gap(d, q', q); }
  }

  lemma MulMonotone(a: nat, b: nat, n: nat)
    requires a <= b
    ensures a * n <= b * n
  {
    assert b * n == a * n + (b - a) * n;
  }

  lemma {:induction false} Gap(d: nat, lo: nat, hi: nat)
    requires lo < hi
    ensures d * lo + d <= d * hi
    decreases hi
  {
    assert d * hi == d * (hi - 1) + d;
    if lo < hi - 1 { Gap(d, lo, hi - 1); }
  }

  /** Division in two steps. */
  lemma SplitNumber(raw: nat, p: nat, q: nat)
    requires p > 0 && q > 0
    ensures raw % (p * q) == raw % p + raw / p % q * p
  {
    DivNonNegative(raw, p);
    var hi, lo := raw / p, raw % p;
    DivNonNegative(hi, q);
    var a, b := hi / q, hi % q;
    Recompose(raw, p, q, hi, lo, a, b);
    Gap(p, b, q);
    RemainderUnique(p * q, raw, a, lo + p * b);
  }

  lemma Recompose(raw: nat, p: nat, q: nat, hi: nat, lo: nat, a: nat, b: nat)
    requires raw == p * hi + lo && hi == q * a + b
    ensures raw == (p * q) * a + (lo + p * b) && b * p == p * b
  {
    assert p * (q * a + b) == (p * q) * a + p * b;
  }

  /** Masking with 2^k - 1 is remainder by 2^k. */
  lemma {:induction false} LowMask(a: nat, k: nat)
    ensures And(a, Pow2(k) - 1) == a % Pow2(k)
    decreases k
  {
    if k > 0 {
      var h := Pow2(k - 1);
      assert (2 * h - 1) / 2 == h - 1 && (2 * h - 1) % 2 == 1;
      LowMask(a / 2, k - 1);
      DoubleMod(a, h);
    }
  }

  /** For every capacity `btelem_init` accepts, `slot & mask` is `slot mod capacity`. */
  lemma MaskIsMod(capacity: nat, slot: nat)
    requires IsPowerOf2(capacity)
    ensures And(slot, capacity - 1) == slot % capacity
  {
    var k := Exponent(capacity);
    LowMask(slot, k);
  }

  // ------------------------------------------------------------------------------ rounded-up quotients

  function CeilDiv(a: nat, b: nat): (q: nat)
    requires b > 0
    ensures a > 0 ==> q > 0
  {
    DivNonNegative(a, b);
    if a % b == 0 then CeilDivPositive(a, b); a / b else a / b + 1
  }

  lemma CeilDivPositive(a: nat, b: nat)
    requires b > 0 && a % b == 0
    ensures a > 0 ==> a / b > 0
  {
    assert a == b * (a / b);
  }

  lemma CeilDivCovers(a: nat, b: nat)
    requires b > 0
    ensures CeilDiv(a, b) * b >= a && (a > 0 ==> (CeilDiv(a, b) - 1) * b < a)
  {
    assert a == (a / b) * b + a % b;
  }

  /** The quotient is the only number of steps that just covers the length. */
  lemma CeilDivIs(a: nat, b: nat, k: nat)
    requires b > 0 && k * b >= a && (k > 0 ==> (k - 1) * b < a)
    ensures CeilDiv(a, b) == k
  {
    var r := k * b - a;
    if k > 0 {
      assert (k - 1) * b == k * b - b;
      assert b * (k - 1) == (k - 1) * b && b * k == k * b;
      if r == 0 { RemainderUnique(b, a, k, 0); } else { RemainderUnique(b, a, k - 1, b - r); }
    } else {
      assert a == 0;
      RemainderUnique(b, a, 0, 0);
    }
  }
}

/** The part of IEEE 754 binary64 arithmetic that JavaScript's `number`
    multiplication applies to integer operands: the exact product is rounded
    to the nearest double, ties to even. Overflow to infinity (beyond about
    1.8e308) is not modelled. */
module Float64 {

  /** 2^53: below it every integer is a double. */
  const TwoTo53: int := 0x20_0000_0000_0000

  /** 2^e. */
  function Pow2(e: nat): (p: nat)
    ensures p >= 1
  {
    if e == 0 then 1 else 2 * Pow2(e - 1)
  }

  /** The gap between consecutive doubles around the non-negative integer `n`:
      1 below 2^53, and 2^k for `n` in [2^(52+k), 2^(53+k)). */
  function Ulp(n: nat): (u: nat)
    ensures u >= 1
    ensures n < TwoTo53 ==> u == 1
    ensures n >= TwoTo53 ==> u % 2 == 0 && TwoTo53 * u <= 2 * n && n < TwoTo53 * u
    decreases n
  {
    if n < TwoTo53 then 1 else 2 * Ulp(n / 2)
  }

  /** Within the binade [2^(52+k), 2^(53+k)) the gap is exactly 2^k. */
  lemma {:induction false} UlpInBinade(n: nat, k: nat)
    requires k >= 1 && TwoTo53 * Pow2(k - 1) <= n < TwoTo53 * Pow2(k)
    ensures Ulp(n) == Pow2(k)
    decreases k
  {
    if k > 1 {
      UlpInBinade(n / 2, k - 1);
    }
  }

  /** Rounds the non-negative integer `n` to the nearest multiple of its gap, ties to the even multiple. */
  function RoundNat(n: nat): (r: nat)
    ensures var u := Ulp(n); r == n - n % u || r == n - n % u + u
    ensures n - Ulp(n) / 2 <= r <= n + Ulp(n) / 2
    ensures var u := Ulp(n); 2 * (n % u) == u ==> (r == n - n % u <==> (n / u) % 2 == 0)
    ensures n % Ulp(n) == 0 ==> r == n
    ensures n < TwoTo53 ==> r == n
  {
    var u := Ulp(n);
    var rem := n % u;
    var below := n - rem;  // the multiple of u at or below n
    if 2 * rem < u || (2 * rem == u && (n / u) % 2 == 0) then below else below + u
  }

  /** |x|. */
  function Abs(x: int): nat
  {
    if x < 0 then -x else x
  }

  /** The double nearest to the integer `x`: what a JavaScript multiplication yields for an exact product `x`. */
  function Round(x: int): (r: int)
    ensures var a := Abs(x); var u := Ulp(a); Abs(r) == a - a % u || Abs(r) == a - a % u + u
    ensures -(Ulp(Abs(x)) / 2) <= r - x <= Ulp(Abs(x)) / 2
    ensures Abs(x) % Ulp(Abs(x)) == 0 ==> r == x
    ensures -TwoTo53 < x < TwoTo53 ==> r == x
    ensures x >= 0 ==> r >= 0
    ensures x <= 0 ==> r <= 0
  {
    if x < 0 then -(RoundNat(-x) as int) else RoundNat(x)
  }

  /** In the binade [2^(52+k), 2^(53+k)), k <= 9, a multiple of 512 is a multiple of the gap. */
  lemma MultipleOf512InBinade(n: nat, k: nat)
    requires n % 512 == 0 && 1 <= k <= 9
    requires TwoTo53 * Pow2(k - 1) <= n < TwoTo53 * Pow2(k)
    ensures n % Ulp(n) == 0
  {
    UlpInBinade(n, k);
    Pow2Add(k, 9 - k);
    assert Pow2(9) == 512;
    MultipleOfFactor(n, n / 512, Pow2(k), Pow2(9 - k));
  }

  lemma MultipleOfFactor(n: int, m: int, d: nat, c: nat)
    requires d >= 1 && d * c == 512 && n == 512 * m
    ensures n % d == 0
  {
    assert n == d * (c * m);
    ModOfMultiple(d, c * m);
  }

  lemma {:induction false} Pow2Add(a: nat, b: nat)
    ensures Pow2(a + b) == Pow2(a) * Pow2(b)
    decreases a
  {
    if a > 0 {
      Pow2Add(a - 1, b);
    }
  }

  /** d * t moves at least d away from 0 when t is non-zero. */
  lemma {:induction false} MulAway(d: nat, t: int)
    ensures t >= 1 ==> d * t >= d
    ensures t <= -1 ==> d * t <= -(d as int)
    decreases if t < 0 then -t else t
  {
    if t > 1 {
      MulAway(d, t - 1);
      assert d * t == d * (t - 1) + d;
    } else if t < -1 {
      MulAway(d, t + 1);
      assert d * t == d * (t + 1) - d;
    }
  }

  lemma ModOfMultiple(d: nat, q: int)
    requires d >= 1
    ensures (d * q) % d == 0
  {
    var n := d * q;
    var p := n / d;
    assert n == d * p + n % d;
    assert d * (q - p) == n % d;
    MulAway(d, q - p);
  }

  /** A multiple of 512 at or above 2^(52+k) and below 2^62 is a multiple of its gap. */
  lemma {:induction false} MultipleOf512AboveBinade(n: nat, k: nat)
    requires n % 512 == 0 && 1 <= k <= 9
    requires TwoTo53 * Pow2(k - 1) <= n < TwoTo53 * 512
    ensures n % Ulp(n) == 0
    decreases 9 - k
  {
    assert Pow2(9) == 512;
    if n < TwoTo53 * Pow2(k) {
      MultipleOf512InBinade(n, k);
    } else {
      MultipleOf512AboveBinade(n, k + 1);
    }
  }

  /** A multiple of 512 below 2^62 is a double: its gap is at most 512 and divides it. */
  lemma MultipleOf512IsExact(n: nat)
    requires n % 512 == 0 && n < TwoTo53 * 512
    ensures n % Ulp(n) == 0
  {
    if n >= TwoTo53 {
      MultipleOf512AboveBinade(n, 1);
    }
  }
}

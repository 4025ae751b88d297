/** 64-bit by 32-bit division: __div64_32 (div64.c) and the do_div macro (vsprintf.c). */
module Div64 {
  import opened Words

  const TWO64: int := 0x1_0000_0000_0000_0000
  type U64 = x: int | 0 <= x < TWO64

  /** `res` and `rem` are quotient and remainder so far; `d` and `b == base * d` shift right. */
  ghost predicate Reducing(n: U64, base: U32, res: U64, rem: U64) {
    n == res * base + rem
  }

  lemma Subtracted(n: U64, base: U32, res: U64, rem: U64, d: nat)
    requires base > 0 && Reducing(n, base, res, rem) && rem >= base * d
    ensures n == (res + d) * base + (rem - base * d) && res + d <= n
  {
    MulMonotone(1, base, res + d);
  }

  /** Before its bit loops, the routine divides the high word on its own.  The product
      high * base is formed in 32 bits and does not overflow there. */
  method ReduceHigh(n: U64, base: U32) returns (res: U64, rem: U64)
    requires base > 0
    ensures Reducing(n, base, res, rem) && res % TWO32 == 0 && rem < base * TWO32
  {
    rem, res := n, 0;
    var high := n / TWO32;
    if high >= base {
      var q := high / base;
      DivAtMost(high, base);
      HighPart(n, high, base, q);
      res := q * TWO32;
      rem := rem - q * base % TWO32 * TWO32;
    } else {
      MulMonotone(high + 1, base, TWO32);
    }
  }

  lemma HighPart(n: nat, high: nat, base: nat, q: nat)
    requires base > 0 && high == n / TWO32 && q == high / base && high < TWO32
    ensures 0 <= q * base <= high && q * base % TWO32 == q * base
    ensures 0 <= n - q * base * TWO32 < base * TWO32 && n == q * TWO32 * base + (n - q * base * TWO32)
  {
    var r := high % base;
    assert high == q * base + r;
    assert n == high * TWO32 + n % TWO32;
    MulMonotone(r + 1, base, TWO32);
    MulMonotone(0, q, base);
    Associated(q, base);
  }

  lemma Associated(q: nat, base: nat)
    ensures q * TWO32 * base == q * base * TWO32
  {
  }

  /** The two loops.  `b` doubles while it is below `rem` and its top bit is clear, so it never
      overflows; `res += d` does not either, since `res` stays at most n / base. */
  method Div64By32(n: U64, base: U32) returns (q: U64, r: U32)
    requires base > 0
    ensures q == n / base && r == n % base
  {
    hide Pow2, Scaled;
    var res, rem := ReduceHigh(n, base);
    var b: int, d: int := base, 1;
    ghost var k: nat := 0;
    ScaledFacts(base, 0);
    Halved(base, 0);
    while b < 0x8000_0000_0000_0000 && b < rem
      invariant d == Pow2(k) && b == Scaled(base, k) && 0 < b < TWO64
      decreases rem - b
    {
      ScaledFacts(base, k);
      Halved(base, k + 1);
      b, d, k := b + b, d + d, k + 1;
    }
    while true
      invariant d == Pow2(k) && b == Scaled(base, k) && rem < 2 * b
      invariant 0 <= rem < TWO64 && 0 <= res < TWO64 && Reducing(n, base, res, rem)
      decreases k
    {
      if rem >= b {
        assert Scaled(base, k) == base * Pow2(k) by { ScaledIs(base, k); }
        Subtracted(n, base, res, rem, d);
        rem, res := rem - b, res + d;
      }
      Halved(base, k);
      if k == 0 { ScaledFacts(base, 0); }
      b, d := b / 2, d / 2;
      if d == 0 { break; }
      k := k - 1;
    }
    QuotientUnique(n, base, res, rem);
    return res, rem;
  }

  lemma ScaledIs(base: nat, k: nat)
    ensures Scaled(base, k) == base * Pow2(k)
  {
  }

  lemma Halved(base: nat, k: nat)
    requires base > 0
    ensures if k == 0 then Pow2(k) == 1
            else Pow2(k) == 2 * Pow2(k - 1) >= 2 && Scaled(base, k) == 2 * Scaled(base, k - 1)
  {
    if k > 0 { ScaledFacts(base, k - 1); }
  }

  /** do_div: a dividend that fits 32 bits takes the 32-bit operators instead. */
  method DoDiv(n: U64, base: U32) returns (q: U64, r: U32)
    requires base > 0
    ensures q == n / base && r == n % base
  {
    if n / TWO32 == 0 {
      DivAtMost(n, base);
      return n / base, n % base;
    }
    q, r := Div64By32(n, base);
  }
}

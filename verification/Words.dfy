/** 32-bit registers: as numbers where the code calculates with them, as sets of one bits
    where it uses them as bit masks. */
module Words {
  const TWO32: int := 0x1_0000_0000
  type U32 = x: int | 0 <= x < TWO32

  function Pow2(k: nat): (p: nat)
    ensures p >= 1
  {
    if k == 0 then 1 else 2 * Pow2(k - 1)
  }

  lemma {:induction false} Pow2Add(a: nat, b: nat)
    ensures Pow2(a + b) == Pow2(a) * Pow2(b)
  {
    if a > 0 { Pow2Add(a - 1, b); }
  }

  lemma {:induction false} Pow2Monotone(a: nat, b: nat)
    requires a <= b
    ensures Pow2(a) <= Pow2(b)
    decreases b
  {
    if a < b { Pow2Monotone(a, b - 1); }
  }

  lemma MulMonotone(a: int, b: int, m: nat)
    ensures a <= b ==> a * m <= b * m
  {
  }

  lemma QuotientUnique(n: nat, d: nat, q: nat, rem: nat)
    requires d > 0 && n == q * d + rem && rem < d
    ensures q == n / d && rem == n % d
  {
    var p := n / d;
    assert n == p * d + n % d;
    MulMonotone(q + 1, p, d);
    MulMonotone(p + 1, q, d);
    assert (q + 1) * d == q * d + d && (p + 1) * d == p * d + d;
  }

  lemma DivOfMultiple(x: nat, m: nat)
    requires m > 0
    ensures x * m / m == x && x * m % m == 0
  {
    QuotientUnique(x * m, m, x, 0);
  }

  lemma Pow2Literals()
    ensures Pow2(3) == 8 && Pow2(4) == 16 && Pow2(27) == 0x800_0000 && Pow2(28) == 0x1000_0000
    ensures Pow2(29) == 0x2000_0000 && Pow2(30) == 0x4000_0000 && Pow2(31) == 0x8000_0000 && Pow2(32) == TWO32
  {
    assert Pow2(8) == 256;
    assert Pow2(16) == 0x1_0000;
    assert Pow2(24) == 0x100_0000;
  }

  function Lsl(x: U32, s: nat): U32 { x * Pow2(s) % TWO32 }
  function Lsr(x: U32, s: nat): U32 {
    DivAtMost(x, Pow2(s));
    x / Pow2(s)
  }

  lemma DivAtMost(x: nat, m: nat)
    requires m >= 1
    ensures 0 <= x / m <= x
  {
    MulMonotone(1, m, x / m);
    assert x == x / m * m + x % m;
  }

  /** A divisor shifted left by `k`, not cut off to 32 bits. */
  function Scaled(d: nat, k: nat): nat { d * Pow2(k) }

  lemma ScaledFacts(d: nat, k: nat)
    requires d > 0
    ensures Scaled(d, k) >= d && Scaled(d, 0) == d && Scaled(d, k + 1) == 2 * Scaled(d, k)
  {
    MulMonotone(1, Pow2(k), d);
    assert Pow2(0) == 1 && Pow2(k + 1) == 2 * Pow2(k);
  }

  // ----- bit masks

  type BitNo = b: int | 0 <= b < 32
  type Bits = set<BitNo>

  function Singleton(k: int): Bits {
    if 0 <= k < 32 then {k} else {}
  }

  function LslBits(w: Bits, s: nat): Bits { set b: BitNo | b in w && b + s < 32 :: (b + s) as BitNo }
  function LsrBits(w: Bits, s: nat): Bits { set b: BitNo | b in w && b >= s :: (b - s) as BitNo }
  function RorBits(w: Bits, s: nat): Bits { set b: BitNo | b in w :: ((b - s) % 32) as BitNo }

  lemma ShiftSingleton(k: int, s: nat)
    requires 0 <= k < 32
    ensures LslBits(Singleton(k), s) == Singleton(k + s)
    ensures LsrBits(Singleton(k), s) == Singleton(k - s)
    ensures RorBits(Singleton(k), s) == {(k - s) % 32}
  {
  }

  /** The number whose one bits below bit `n` are those of the set. */
  function ValueBelow(w: Bits, n: nat): nat {
    if n == 0 then 0 else ValueBelow(w, n - 1) + (if n - 1 in w then Pow2(n - 1) else 0)
  }

  function Value(w: Bits): nat { ValueBelow(w, 32) }

  lemma {:induction false} ValueOfOr(w: Bits, k: int, n: nat)
    requires 0 <= k < 32 && k !in w
    ensures ValueBelow(w + {k}, n) == ValueBelow(w, n) + (if k < n then Pow2(k) else 0)
  {
    if n > 0 { ValueOfOr(w, k, n - 1); }
  }

  lemma {:induction false} ValueOfEmpty(n: nat)
    ensures ValueBelow({}, n) == 0
  {
    if n > 0 { ValueOfEmpty(n - 1); }
  }
}

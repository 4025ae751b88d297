/** The 32-bit division routines in assembly, _udivsi3.s and _umodsi3.s. */
module Divide {
  import opened Words

  /** Between two trial subtractions: `rem` is what is left of `n`, `q` the quotient bits so
      far, and the next bit to try is bit `k`.  Once `k` is negative the quotient is complete. */
  ghost predicate Dividing(n: U32, d: U32, q: Bits, rem: U32, k: int)
    requires d > 0
  {
    if k >= 0 then
      && n == Value(q) * d + rem && rem < 2 * (Scaled(d, k))
      && (forall b <- q :: b > k)
    else
      Value(q) == n / d
  }

  lemma TakenOff(n: nat, d: nat, v: nat, p: nat, rem: nat)
    requires n == v * d + rem
    ensures n == (v + p) * d + (rem - d * p)
  {
  }

  /** One `cmp`, `subcs`, `orrcs` group, with shifted divisor `dv` and mask `cb`. */
  method TrySubtract(rem: U32, dv: U32, q: Bits, cb: Bits, ghost n: U32, ghost d: U32, ghost k: int)
    returns (rem': U32, q': Bits)
    requires d > 0 && k < 32 && cb == Singleton(k) && Dividing(n, d, q, rem, k)
    requires k >= 0 ==> dv == Scaled(d, k)
    ensures Dividing(n, d, q', rem', k - 1)
    ensures rem' == if rem >= dv then rem - dv else rem
  {
    rem', q' := rem, q;
    if k == 0 { assert Pow2(0) == 1; }
    if rem >= dv {
      rem', q' := rem - dv, q + cb;
      if k >= 0 {
        ValueOfOr(q, k, 32);
        TakenOff(n, d, Value(q), Pow2(k), rem);
      } else {
        assert q' == q;
      }
    }
    if k == 0 {
      assert n == Value(q') * d + rem';
      QuotientUnique(n, d, Value(q'), rem');
    }
  }

  lemma ShiftedDivisor(d: nat, k: nat, s: nat)
    requires s <= k
    ensures Scaled(d, k) / Pow2(s) == Scaled(d, k - s)
  {
    Pow2Add(k - s, s);
    ProductOfThree(d, Pow2(k - s), Pow2(s));
    DivOfMultiple(d * Pow2(k - s), Pow2(s));
  }

  lemma ProductOfThree(a: nat, b: nat, c: nat)
    ensures a * (b * c) == a * b * c
  {
  }

  /** Shifting divisor and mask left in step keeps divisor == d * 2^k, without overflow. */
  lemma ShiftUp(d: U32, divisor: U32, curbit: Bits, k: nat, s: nat)
    requires d > 0 && k < 32 && divisor == Scaled(d, k) && curbit == Singleton(k)
    requires divisor * Pow2(s) < TWO32
    ensures k + s < 32 && LslBits(curbit, s) == Singleton(k + s)
    ensures Lsl(divisor, s) == Scaled(d, k + s) == divisor * Pow2(s)
  {
    NoOverflow(d, k, s);
    ShiftSingleton(k, s);
  }

  lemma NoOverflow(d: nat, k: nat, s: nat)
    requires d > 0 && Scaled(d, k) * Pow2(s) < TWO32
    ensures Scaled(d, k) * Pow2(s) == Scaled(d, k + s) && k + s < 32
  {
    Pow2Add(k, s);
    ProductOfThree(d, Pow2(k), Pow2(s));
    MulMonotone(1, d, Pow2(k + s));
    Pow2Literals();
    if k + s >= 32 { Pow2Monotone(32, k + s); }
  }

  /** Loop1 and Lbignum: shift the divisor up, four bits at a time while it is below 2^28 and
      then bit by bit, until it is no longer below the dividend or has its top bit set. */
  method Normalise(n: U32, d: U32) returns (divisor: U32, curbit: Bits, ghost k: nat)
    requires 0 < d <= n
    ensures k < 32 && curbit == Singleton(k) && divisor == Scaled(d, k)
    ensures n <= divisor || divisor >= 0x8000_0000
    ensures k >= 29 ==> Scaled(d, k - 1) < n
  {
    divisor, curbit, k := d, Singleton(0), 0;
    assert Pow2(0) == 1;
    while divisor < 0x1000_0000 && divisor < n
      invariant k <= 28 && k % 4 == 0 && curbit == Singleton(k) && divisor == Scaled(d, k)
      decreases n - divisor
    {
      assert Pow2(4) == 16;
      ShiftUp(d, divisor, curbit, k, 4);
      divisor, curbit, k := Lsl(divisor, 4), LslBits(curbit, 4), k + 4;
    }
    while divisor < 0x8000_0000 && divisor < n
      invariant k < 32 && curbit == Singleton(k) && divisor == Scaled(d, k)
      invariant k >= 29 ==> Scaled(d, k - 1) < n
      decreases n - divisor
    {
      assert Pow2(1) == 2;
      ShiftUp(d, divisor, curbit, k, 1);
      divisor, curbit, k := Lsl(divisor, 1), LslBits(curbit, 1), k + 1;
    }
  }

  /** __udivsi3.  The loop stops when nothing is left of the dividend or no bit is left of
      the mask; on its last pass it may subtract too often, with an empty mask.  A division
      by zero never returns from __div0. */
  method Udivsi3(n: U32, d: U32) returns (r: U32)
    requires d > 0
    ensures r == n / d
  {
    DivAtMost(n, d);
    ValueOfEmpty(32);
    if n < d { QuotientUnique(n, d, 0, n); return 0; }
    var dividend, result := n, {};
    var divisor, curbit, k0 := Normalise(n, d);
    ghost var k: int := k0;
    while true
      invariant 0 <= k < 32 && curbit == Singleton(k) && divisor == Scaled(d, k)
      invariant Dividing(n, d, result, dividend, k)
      decreases k
    {
      dividend, result := TrySubtract(dividend, divisor, result, curbit, n, d, k);
      Shifted(d, divisor, curbit, k, 1);
      dividend, result := TrySubtract(dividend, Lsr(divisor, 1), result, LsrBits(curbit, 1), n, d, k - 1);
      Shifted(d, divisor, curbit, k, 2);
      dividend, result := TrySubtract(dividend, Lsr(divisor, 2), result, LsrBits(curbit, 2), n, d, k - 2);
      Shifted(d, divisor, curbit, k, 3);
      dividend, result := TrySubtract(dividend, Lsr(divisor, 3), result, LsrBits(curbit, 3), n, d, k - 3);
      if dividend == 0 { break; }
      Shifted(d, divisor, curbit, k, 4);
      curbit := LsrBits(curbit, 4);
      if curbit == {} { break; }
      divisor := Lsr(divisor, 4);
      k := k - 4;
    }
    if k - 4 >= 0 { QuotientUnique(n, d, Value(result), 0); }
    return Value(result);
  }

  lemma Shifted(d: U32, divisor: U32, curbit: Bits, k: nat, s: nat)
    requires k < 32 && divisor == Scaled(d, k) && curbit == Singleton(k)
    ensures LsrBits(curbit, s) == Singleton(k - s)
    ensures k >= s ==> Lsr(divisor, s) == Scaled(d, k - s)
  {
    ShiftSingleton(k, s);
    if k >= s { ShiftedDivisor(d, k, s); }
  }

  /** __aeabi_uidivmod: `mul` and `sub` on 32 bits make the remainder out of the quotient. */
  method Uidivmod(n: U32, d: U32) returns (q: U32, r: U32)
    requires d > 0
    ensures q == n / d && r == n % d
  {
    q := Udivsi3(n, d);
    assert q * d + n % d == n;
    r := (n - q * d % TWO32) % TWO32;
  }

  // ----- __umodsi3

  /** The 22 inputs, all with a divisor below 4, for which __umodsi3 is wrong: the division
      comes out even after its first pass, with one of the top bits of the quotient among the
      last subtractions, which the fix-up at the end then takes for one too many. */
  predicate OverCorrected(n: U32, d: U32)
    requires d > 0
  {
    || (d == 1 && n > 0x4000_0000 && n % 0x1000_0000 == 0 && (n / 0x4000_0000 % 2 == 1 || n / 0x2000_0000 % 2 == 1))
    || (d == 1 && 0x2000_0000 < n <= 0x4000_0000 && n % 0x800_0000 == 0 && n / 0x2000_0000 % 2 == 1)
    || ((d == 2 || d == 3) && n > d * 0x2000_0000 && n % (d * 0x800_0000) == 0 && n / (d * 0x2000_0000) % 2 == 1)
  }

  /** The binary digit of n / m decides the trial subtraction of m. */
  lemma HalfMod(x: nat, m: nat)
    requires m > 0
    ensures x % m == if x % (2 * m) >= m then x % (2 * m) - m else x % (2 * m)
    ensures x / m % 2 == 1 <==> x % (2 * m) >= m
  {
    var q, r := x / (2 * m), x % (2 * m);
    DivAtMost(x, 2 * m);
    HalfProducts(q, m);
    assert x == q * (2 * m) + r;
    if r >= m {
      QuotientUnique(x, m, 2 * q + 1, r - m);
    } else {
      QuotientUnique(x, m, 2 * q, r);
    }
  }

  lemma HalfProducts(q: nat, m: nat)
    ensures q * (2 * m) == (2 * q) * m && (2 * q + 1) * m == (2 * q) * m + m
  {
  }

  lemma ModOfMultiple(x: nat, d: nat, m: nat)
    requires d > 0 && m > 0 && x % (d * m) == 0
    ensures x % d == 0
  {
    assert x == x / (d * m) * (d * m) == (x / (d * m) * m) * d;
    DivOfMultiple(x / (d * m) * m, d);
  }

  /** The trial subtraction of d * 2^k. */
  lemma ModStep(n: U32, d: U32, k: nat, rem: U32)
    requires d > 0 && Scaled(d, k) > 0 && rem == n % (2 * (Scaled(d, k)))
    ensures n % (Scaled(d, k)) == if rem >= Scaled(d, k) then rem - Scaled(d, k) else rem
    ensures rem >= Scaled(d, k) <==> n / (Scaled(d, k)) % 2 == 1
    ensures if k == 0 then Scaled(d, k) == d else Scaled(d, k) == 2 * (Scaled(d, k - 1))
  {
    HalfMod(n, Scaled(d, k));
    if k == 0 { assert Pow2(0) == 1; }
  }

  lemma NotShiftedFar(n: U32, d: U32, k: nat)
    requires 0 < d && k < 30 && (n <= Scaled(d, k) || Scaled(d, k) >= 0x8000_0000)
    ensures !OverCorrected(n, d)
  {
    Pow2Literals();
    Pow2Monotone(k, 29);
    MulMonotone(Pow2(k), 0x2000_0000, d);
  }

  lemma ShiftedFar(d: U32, k: nat)
    requires d > 0 && 30 <= k < 32 && Scaled(d, k) < TWO32
    ensures d < 4 && (k == 31 ==> d == 1)
  {
    Pow2Literals();
  }

  /** The outcome of the upward shifts decides whether an input can be over-corrected. */
  lemma OverCorrectedAt(n: U32, d: U32, k: nat)
    requires 0 < d <= n && k < 32 && Scaled(d, k) < TWO32
    requires n <= Scaled(d, k) || Scaled(d, k) >= 0x8000_0000
    requires k >= 29 ==> Scaled(d, k - 1) < n
    ensures k >= 30 ==> Scaled(d, k - 3) > 0 && Scaled(d, k - 1) > 0 && Scaled(d, k - 2) > 0
    ensures OverCorrected(n, d) <==>
            && k >= 30 && n % (Scaled(d, k - 3)) == 0
            && (n / (Scaled(d, k - 1)) % 2 == 1 || (k == 31 && n / (Scaled(d, k - 2)) % 2 == 1))
  {
    if k < 30 {
      NotShiftedFar(n, d, k);
    } else {
      ShiftedFar(d, k);
      Pow2Literals();
    }
  }

  /** Subtraction number `s` of a pass over bit `k`, if done, is recorded in this bit. */
  function Record(k: int, s: nat, done: bool): Bits {
    if done then {(k - s) % 32} else {}
  }

  /** The recorded bit is among the top three. */
  predicate Top(k: int, s: nat) { (k - s) % 32 >= 29 }

  /** What the fix-up at the end adds back. */
  function FixUp(divisor: U32, k: int, b1: bool, b2: bool, b3: bool): nat {
    (if b1 && Top(k, 1) then Lsr(divisor, 1) else 0) + (if b2 && Top(k, 2) then Lsr(divisor, 2) else 0) +
    (if b3 && Top(k, 3) then Lsr(divisor, 3) else 0)
  }

  /** Before the trial subtraction for bit `j`: `rem` is what is left of `n`, except for `u`, which
      was subtracted although no bit was left. */
  ghost predicate Trying(n: U32, d: U32, j: int, rem: U32, u: nat)
    requires d > 0
  {
    rem + u == n % Modulus(d, j) && (j >= -1 ==> u == 0)
  }

  function Modulus(d: nat, j: int): (m: nat)
    requires d > 0
    ensures m > 0
  {
    if j < 0 then d else ScaledFacts(d, j); 2 * Scaled(d, j)
  }

  ghost predicate IsBit(n: U32, d: U32, j: int, b: bool) {
    j >= 0 ==> Scaled(d, j) > 0 && (b <==> n / Scaled(d, j) % 2 == 1)
  }

  lemma TryStep(n: U32, d: U32, j: int, rem: U32, u: nat, dv: U32)
    requires d > 0 && Trying(n, d, j, rem, u) && (j >= 0 ==> dv == Scaled(d, j))
    ensures rem >= dv ==> Trying(n, d, j - 1, rem - dv, u + if j < 0 then dv else 0)
    ensures rem < dv ==> Trying(n, d, j - 1, rem, u)
    ensures IsBit(n, d, j, rem >= dv)
  {
    if j >= 0 {
      ScaledFacts(d, j);
      ModStep(n, d, j, rem);
    }
  }

  /** `cmp`, `subcs` and `orrcs overdone` of one trial subtraction. */
  method TryMod(rem: U32, dv: U32, overdone: Bits, mark: Bits, ghost n: U32, ghost d: U32, ghost j: int, ghost u: nat)
    returns (rem': U32, over: Bits, ghost done: bool)
    requires d > 0 && Trying(n, d, j, rem, u) && (j >= 0 ==> dv == Scaled(d, j))
    ensures over == overdone + if done then mark else {}
    ensures Trying(n, d, j - 1, rem', u + if done && j < 0 then dv else 0) && IsBit(n, d, j, done)
  {
    TryStep(n, d, j, rem, u, dv);
    hide *;
    rem', over, done := rem, overdone, rem >= dv;
    if rem >= dv { rem', over := rem - dv, overdone + mark; }
  }

  lemma Marked(d: U32, divisor: U32, curbit: Bits, k: nat, s: nat)
    requires k < 32 && divisor == Scaled(d, k) && curbit == Singleton(k)
    ensures forall done :: Record(k, s, done) == if done then RorBits(curbit, s) else {}
    ensures k >= s ==> Lsr(divisor, s) == Scaled(d, k - s)
  {
    Shifted(d, divisor, curbit, k, s);
    ShiftSingleton(k, s);
  }

  lemma PassBegun(n: U32, d: U32, k: nat, rem: U32)
    requires d > 0 && rem == n % (2 * Scaled(d, k))
    ensures Trying(n, d, k, rem, 0)
  {
  }

  lemma Passed(n: U32, d: U32, k: nat, divisor: U32, rem: U32, u: nat, b1: bool, b2: bool, b3: bool)
    requires d > 0 && Trying(n, d, k - 4, rem, u) && IsBit(n, d, k - 1, b1) && IsBit(n, d, k - 2, b2)
    requires u == (if b1 && k < 1 then Lsr(divisor, 1) else 0) + (if b2 && k < 2 then Lsr(divisor, 2) else 0)
               + (if b3 && k < 3 then Lsr(divisor, 3) else 0)
    ensures PassEnd(n, d, k, divisor, rem, b1, b2, b3)
  {
    hide Pow2, Lsr, Scaled;
    if k >= 3 {
      ScaledFacts(d, k - 3);
      if k > 3 { ScaledFacts(d, k - 4); }
    } else {
      assert rem + u == n % d;
      hide Modulus;
    }
  }

  /** One pass of Loop3 of __umodsi3. */
  method ModPass(n0: U32, divisor: U32, curbit: Bits, ghost n: U32, ghost d: U32, ghost k: nat)
    returns (rem: U32, overdone: Bits, ghost b1: bool, ghost b2: bool, ghost b3: bool)
    requires d > 0 && k < 32 && curbit == Singleton(k) && divisor == Scaled(d, k) && n0 == n % (2 * (Scaled(d, k)))
    ensures overdone == Record(k, 1, b1) + Record(k, 2, b2) + Record(k, 3, b3)
    ensures PassEnd(n, d, k, divisor, rem, b1, b2, b3)
  {
    PassBegun(n, d, k, n0);
    hide *;
    ghost var done, u: nat;
    rem, overdone, done := TryMod(n0, divisor, {}, {}, n, d, k, 0);
    Marked(d, divisor, curbit, k, 1);
    rem, overdone, b1 := TryMod(rem, Lsr(divisor, 1), overdone, RorBits(curbit, 1), n, d, k - 1, 0);
    Marked(d, divisor, curbit, k, 2);
    u := if b1 && k < 1 then Lsr(divisor, 1) else 0;
    rem, overdone, b2 := TryMod(rem, Lsr(divisor, 2), overdone, RorBits(curbit, 2), n, d, k - 2, u);
    Marked(d, divisor, curbit, k, 3);
    u := u + if b2 && k < 2 then Lsr(divisor, 2) else 0;
    rem, overdone, b3 := TryMod(rem, Lsr(divisor, 3), overdone, RorBits(curbit, 3), n, d, k - 3, u);
    u := u + if b3 && k < 3 then Lsr(divisor, 3) else 0;
    Passed(n, d, k, divisor, rem, u, b1, b2, b3);
  }

  ghost predicate PassEnd(n: U32, d: U32, k: nat, divisor: U32, rem: U32, b1: bool, b2: bool, b3: bool)
    requires d > 0
  {
    && (k < 3 ==> rem + FixUp(divisor, k, b1, b2, b3) == n % d)
    && (k >= 3 ==> Scaled(d, k - 3) > 0 && rem == n % (Scaled(d, k - 3)))
    && (k >= 2 ==> Scaled(d, k - 1) > 0 && (b1 <==> n / (Scaled(d, k - 1)) % 2 == 1))
    && (k >= 2 ==> Scaled(d, k - 2) > 0 && (b2 <==> n / (Scaled(d, k - 2)) % 2 == 1))
  }

  /** The instructions behind Loop3: undo what the top bits of `overdone` say was too much. */
  method Undo(rem: U32, divisor: U32, overdone: Bits, ip: Bits, ghost k: nat,
              ghost b1: bool, ghost b2: bool, ghost b3: bool)
    returns (r: U32)
    requires k < 32 && ip == Singleton(k)
    requires overdone == Record(k, 1, b1) + Record(k, 2, b2) + Record(k, 3, b3)
    requires rem + FixUp(divisor, k, b1, b2, b3) < TWO32
    ensures r == rem + FixUp(divisor, k, b1, b2, b3)
  {
    var top := overdone * {29, 30, 31};
    r := rem;
    if top == {} {
      assert b1 ==> (k - 1) % 32 in overdone;
      assert b2 ==> (k - 2) % 32 in overdone;
      assert b3 ==> (k - 3) % 32 in overdone;
      return;
    }
    TopRecorded(k, top, overdone, 3, b1, b2, b3);
    TopRecorded(k, top, overdone, 2, b1, b2, b3);
    TopRecorded(k, top, overdone, 1, b1, b2, b3);
    if top * RorBits(ip, 3) != {} { r := r + Lsr(divisor, 3); }
    if top * RorBits(ip, 2) != {} { r := r + Lsr(divisor, 2); }
    if top * RorBits(ip, 1) != {} { r := r + Lsr(divisor, 1); }
  }

  lemma TopRecorded(k: nat, top: Bits, overdone: Bits, s: nat, b1: bool, b2: bool, b3: bool)
    requires k < 32 && 1 <= s <= 3 && top == overdone * {29, 30, 31}
    requires overdone == Record(k, 1, b1) + Record(k, 2, b2) + Record(k, 3, b3)
    ensures top * RorBits(Singleton(k), s) != {} <==> (if s == 1 then b1 else if s == 2 then b2 else b3) && Top(k, s)
  {
    ShiftSingleton(k, s);
    var m: BitNo := (k - s) % 32;
    assert top * RorBits(Singleton(k), s) == if m in top then {m} else {};
  }

  /** Behind the last pass, the fix-up makes a wrong remainder right -- or a right one wrong. */
  lemma LastPass(n: U32, d: U32, k: nat, divisor: U32, rem: U32, b1: bool, b2: bool, b3: bool)
    requires d > 0 && k < 32 && divisor == Scaled(d, k) && PassEnd(n, d, k, divisor, rem, b1, b2, b3)
    requires k < 4 || rem == 0
    ensures rem + FixUp(divisor, k, b1, b2, b3) < TWO32
    ensures rem + FixUp(divisor, k, b1, b2, b3) == n % d <==> !(k >= 30 && (b1 || (k == 31 && b2)))
  {
    hide Pow2, Lsr, Scaled;
    Halves(divisor);
    if k >= 4 {
      EvenDivision(n, d, k);
      if k >= 30 { TopHalves(d, divisor, k); }
    } else {
      ScaledFacts(d, 0);
    }
  }

  lemma EvenDivision(n: U32, d: U32, k: nat)
    requires d > 0 && k >= 3 && Scaled(d, k - 3) > 0 && n % Scaled(d, k - 3) == 0
    ensures n % d == 0
  {
    ModOfMultiple(n, d, Pow2(k - 3));
  }

  lemma Halves(x: U32)
    ensures Lsr(x, 1) + Lsr(x, 2) + Lsr(x, 3) <= x
  {
    assert Pow2(1) == 2 && Pow2(2) == 4 && Pow2(3) == 8;
  }

  lemma TopHalves(d: U32, divisor: U32, k: nat)
    requires d > 0 && 30 <= k < 32 && divisor == Scaled(d, k)
    ensures Lsr(divisor, 1) > 0 && Lsr(divisor, 2) > 0
  {
    Pow2Literals();
    assert Pow2(1) == 2 && Pow2(2) == 4;
    MulMonotone(1, d, Pow2(k));
    Pow2Monotone(30, k);
  }

  lemma NeverFromFour(n: U32, d: U32)
    requires d >= 4
    ensures !OverCorrected(n, d)
  {
  }

  /** What the dividends are multiples by, in units of 2^27 times the divisor. */
  function Factors(d: nat): seq<nat> {
    if d == 1 then [5, 6, 7, 10, 12, 14, 20, 22, 24, 26, 28, 30]
    else if d == 2 then [5, 6, 7, 12, 13, 14, 15]
    else if d == 3 then [5, 6, 7]
    else []
  }

  /** The inputs, one by one: 12 with divisor 1, seven with divisor 2 and three with divisor 3. */
  lemma AllOverCorrected(n: U32, d: U32)
    requires d > 0
    ensures OverCorrected(n, d) <==> exists i :: 0 <= i < |Factors(d)| && n == Factors(d)[i] * (d * 0x800_0000)
    ensures forall i, j :: 0 <= i < j < |Factors(d)| ==> Factors(d)[i] < Factors(d)[j]
    ensures |Factors(1)| + |Factors(2)| + |Factors(3)| == 22
  {
    if d >= 4 {
      NeverFromFour(n, d);
    } else {
      OverCorrectedFactor(n, d);
      FactorsListed(d, n / (d * 0x800_0000));
      hide OverCorrected, IsFactor;
      assert forall i :: 0 <= i < |Factors(d)| ==> (n == Factors(d)[i] * (d * 0x800_0000)
        <==> n % (d * 0x800_0000) == 0 && Factors(d)[i] == n / (d * 0x800_0000));
    }
  }

  predicate IsFactor(d: nat, m: nat) {
    m > 4 && if d == 1 && m > 8 then m % 2 == 0 && (m / 8 % 2 == 1 || m / 4 % 2 == 1) else m / 4 % 2 == 1
  }

  lemma OverCorrectedFactor(n: U32, d: U32)
    requires 0 < d < 4
    ensures OverCorrected(n, d) <==> n % (d * 0x800_0000) == 0 && IsFactor(d, n / (d * 0x800_0000))
    ensures n / (d * 0x800_0000) < if d == 1 then 32 else if d == 2 then 16 else 11
  {
    if d == 1 {} else if d == 2 {} else {}
  }

  lemma FactorsListed(d: nat, m: nat)
    requires d in {1, 2, 3} && m < if d == 1 then 32 else if d == 2 then 16 else 11
    ensures IsFactor(d, m) <==> m in Factors(d)
  {
  }

  /** One of them: here the fix-up adds to a remainder that was right. */
  lemma OverCorrectionHappens()
    ensures OverCorrected(0x3000_0000, 1) && !OverCorrected(0x3000_0001, 1)
  {
  }

  /** __umodsi3 returns n mod d for all inputs but the over-corrected ones. */
  method Umodsi3(n: U32, d: U32) returns (r: U32)
    requires d > 0
    ensures r == n % d <==> !OverCorrected(n, d)
    ensures d >= 4 ==> r == n % d
  {
    if d >= 4 { NeverFromFour(n, d); }
    hide OverCorrected, Pow2, Lsr, Singleton, PassEnd, FixUp, Scaled;
    if n < d { Smaller(n, d); return n; }
    var divisor, curbit, k0 := Normalise(n, d);
    ghost var k: nat := k0;
    OverCorrectedAt(n, d, k);
    FirstPass(n, d, k);
    var dividend := n;
    var overdone, ip;
    ghost var b1, b2, b3;
    while true
      invariant k <= k0 < 32 && curbit == Singleton(k) && divisor == Scaled(d, k)
      invariant Scaled(d, k) > 0 && dividend == n % (2 * Scaled(d, k))
      invariant k == k0 || (k < 30 && !OverCorrected(n, d))
      decreases k
    {
      dividend, overdone, b1, b2, b3 := ModPass(dividend, divisor, curbit, n, d, k);
      ip := curbit;
      if dividend == 0 { break; }
      LoopEnd(n, d, k, divisor, curbit, dividend, b1, b2, b3);
      curbit := LsrBits(curbit, 4);
      if curbit == {} { break; }
      divisor := Lsr(divisor, 4);
      k := k - 4;
    }
    LastPass(n, d, k, divisor, dividend, b1, b2, b3);
    FirstBits(n, d, k, divisor, dividend, b1, b2, b3);
    r := Undo(dividend, divisor, overdone, ip, k, b1, b2, b3);
  }

  lemma Smaller(n: U32, d: U32)
    requires n < d
    ensures n % d == n && !OverCorrected(n, d)
  {
    QuotientUnique(n, d, 0, n);
  }

  lemma FirstPass(n: U32, d: U32, k: nat)
    requires d > 0 && k < 32 && (n <= Scaled(d, k) || Scaled(d, k) >= 0x8000_0000)
    ensures Scaled(d, k) > 0 && n == n % (2 * (Scaled(d, k)))
  {
    MulMonotone(1, d, Pow2(k));
    QuotientUnique(n, 2 * (Scaled(d, k)), 0, n);
  }

  /** From one pass to the next. */
  lemma LoopEnd(n: U32, d: U32, k: nat, divisor: U32, curbit: Bits, rem: U32, b1: bool, b2: bool, b3: bool)
    requires d > 0 && k < 32 && divisor == Scaled(d, k) && curbit == Singleton(k)
    requires PassEnd(n, d, k, divisor, rem, b1, b2, b3)
    ensures LsrBits(curbit, 4) == {} <==> k < 4
    ensures k >= 4 ==>
              && LsrBits(curbit, 4) == Singleton(k - 4) && Lsr(divisor, 4) == Scaled(d, k - 4) > 0
              && rem == n % (2 * (Scaled(d, k - 4)))
    ensures k >= 30 ==> Scaled(d, k - 3) > 0 && n % (Scaled(d, k - 3)) == rem
  {
    hide Lsr, Scaled, FixUp;
    Shifted(d, divisor, curbit, k, 4);
    if k >= 4 { ScaledFacts(d, k - 4); }
  }

  lemma FirstBits(n: U32, d: U32, k: nat, divisor: U32, rem: U32, b1: bool, b2: bool, b3: bool)
    requires d > 0 && PassEnd(n, d, k, divisor, rem, b1, b2, b3)
    ensures k >= 30 ==>
              && Scaled(d, k - 3) > 0 && n % (Scaled(d, k - 3)) == rem
              && Scaled(d, k - 1) > 0 && (b1 <==> n / (Scaled(d, k - 1)) % 2 == 1)
              && Scaled(d, k - 2) > 0 && (b2 <==> n / (Scaled(d, k - 2)) % 2 == 1)
  {
    hide Scaled, FixUp;
  }
}

/** Digits of numbers, and the routines that write decimal digits: put_dec_trunc,
    put_dec_full and put_dec (vsprintf.c), simple_itoa (vsprintf.c) and
    lib_int_RawDoFmtNumber (rawdoformat.c). */
module Digits {
  import opened Words
  import opened Div64

  /** The digits of `n`, least significant first, without superfluous leading zeros. */
  function DigitsOf(n: nat, base: nat): (ds: seq<nat>)
    requires base >= 2
    ensures |ds| >= 1
    ensures forall i :: 0 <= i < |ds| ==> ds[i] < base
  {
    if n < base then [n] else Quotient(n, base); [n % base] + DigitsOf(n / base, base)
  }

  lemma Quotient(n: nat, base: nat)
    requires base >= 2 && n >= base
    ensures 1 <= n / base < n && n == n % base + base * (n / base)
  {
    assert n == n / base * base + n % base;
    MulMonotone(2, base, n / base);
  }

  function ValueOf(ds: seq<nat>, base: nat): nat {
    if ds == [] then 0 else ds[0] + base * ValueOf(ds[1..], base)
  }

  /** The digits determine the number ... */
  lemma {:induction false} DigitsAreExact(n: nat, base: nat)
    requires base >= 2
    ensures ValueOf(DigitsOf(n, base), base) == n
  {
    if n < base {
      assert DigitsOf(n, base)[1..] == [];
    } else {
      Quotient(n, base);
      DigitsAreExact(n / base, base);
      Cons(n % base, DigitsOf(n / base, base), base);
    }
  }

  /** ... and the leading one is no superfluous zero. */
  lemma {:induction false} LeadingDigit(n: nat, base: nat)
    requires base >= 2 && n > 0
    ensures DigitsOf(n, base)[|DigitsOf(n, base)| - 1] != 0
  {
    if n >= base {
      Quotient(n, base);
      LeadingDigit(n / base, base);
    }
  }

  ghost predicate Decimal(ds: seq<nat>) { forall i :: 0 <= i < |ds| ==> ds[i] < 10 }

  lemma Cons(d: nat, ds: seq<nat>, base: nat)
    ensures ValueOf([d] + ds, base) == d + base * ValueOf(ds, base)
  {
    assert ([d] + ds)[1..] == ds;
  }

  /** A number below base^k has at most k digits. */
  lemma {:induction false} DigitCount(n: nat, base: nat, k: nat)
    requires base >= 2 && k >= 1 && n < Power(base, k)
    ensures |DigitsOf(n, base)| <= k
  {
    if n >= base {
      Quotient(n, base);
      assert k > 1;
      assert n / base < Power(base, k - 1) by {
        assert n == n / base * base + n % base;
        MulMonotone(Power(base, k - 1), n / base, base);
      }
      DigitCount(n / base, base, k - 1);
    }
  }

  function Power(b: nat, k: nat): nat {
    if k == 0 then 1 else b * Power(b, k - 1)
  }

  /** `c | 0x20`. */
  function Or20(c: char): char
    requires c < 128 as char
  {
    if c as int / 32 % 2 == 0 then (c as int + 32) as char else c
  }

  function DigitChar(d: nat, locase: bool): char
    requires d < 16
  {
    var c := "0123456789ABCDEF"[d];
    if locase then Or20(c) else c
  }

  function Chars(ds: seq<nat>, locase: bool): (s: string)
    requires forall i :: 0 <= i < |ds| ==> ds[i] < 16
    ensures |s| == |ds|
  {
    seq(|ds|, i requires 0 <= i < |ds| => DigitChar(ds[i], locase))
  }

  /** A decimal digit, or a hexadecimal one of this case. */
  predicate HexChar(c: char, locase: bool) {
    '0' <= c <= '9' || if locase then 'a' <= c <= 'f' else 'A' <= c <= 'F'
  }

  /** Only lower-case letters in the one case, only upper-case letters in the other. */
  lemma DigitCase(ds: seq<nat>, locase: bool)
    requires forall i :: 0 <= i < |ds| ==> ds[i] < 16
    ensures forall i :: 0 <= i < |ds| ==> HexChar(Chars(ds, locase)[i], locase)
  {
  }

  function Reversed<T>(s: seq<T>): (r: seq<T>)
    ensures |r| == |s| && forall i :: 0 <= i < |s| ==> r[i] == s[|s| - 1 - i]
  {
    seq(|s|, i requires 0 <= i < |s| => s[|s| - 1 - i])
  }

  // ----- decimal digits without division

  /** The first five digits of `n`, leading zeros included. */
  function FiveDigits(n: nat): seq<nat> {
    var n1 := n / 10;
    var n2 := n1 / 10;
    var n3 := n2 / 10;
    [n % 10, n1 % 10, n2 % 10, n3 % 10, n3 / 10 % 10]
  }

  /** How many digits a number below 100000 has. */
  function DigitCount10(n: nat): nat {
    if n < 10 then 1 else if n < 100 then 2 else if n < 1000 then 3 else if n < 10000 then 4 else 5
  }

  /** `x * 0xcd >> 11` and `x * 0xd >> 7`. */
  function Mul205(x: nat): nat { x * 0xcd / 2048 }
  function Mul13(x: nat): nat { x * 0xd / 128 }

  /** They divide by ten, on the ranges that are reached. */
  lemma MagicTenths(x: nat)
    ensures x <= 1028 ==> Mul205(x) == x / 10
    ensures x <= 68 ==> Mul13(x) == x / 10
  {
  }

  /** Bits 4k to 4k+3 of a number, for `unit` = 16^k. */
  function Nibble(q: nat, unit: nat): nat
    requires unit > 0
  {
    q / unit % 16
  }

  /** `num` is below 100000 and its hexadecimal digits are `d3` (up to 24), `d2`, `d1`, `l`. */
  ghost predicate Nibbles(num: nat, d3: nat, d2: nat, d1: nat, l: nat) {
    100000 > num == 4096 * d3 + 256 * d2 + 16 * d1 + l && d3 <= 24 && d2 < 16 && d1 < 16 && l < 16
  }

  lemma NibblesOf(q: nat)
    requires q < 100000
    ensures Nibbles(q, q / 4096, Nibble(q, 256), Nibble(q, 16), Nibble(q, 1))
  {
    assert q / 256 / 16 == q / 4096;
    assert q / 16 / 16 == q / 256;
  }

  /** The sums `s` that the code forms digit by digit and their quotients `q` by ten. */
  ghost predicate Sums(d3: nat, d2: nat, d1: nat, l: nat,
                       s0: nat, q0: nat, s1: nat, q1: nat, s2: nat, q2: nat, s3: nat, q3: nat) {
    && s0 == 6 * (d3 + d2 + d1) + l && q0 == Mul205(s0)
    && s1 == q0 + 9 * d3 + 5 * d2 + d1 && q1 == Mul205(s1)
    && s2 == q1 + 2 * d2 && q2 == Mul13(s2)
    && s3 == q2 + 4 * d3 && q3 == Mul205(s3)
  }

  ghost predicate Divided(s: nat, q: nat) { 10 * q <= s < 10 * q + 10 }

  lemma TenthExact(s: nat, q: nat)
    ensures s <= 1028 && q == Mul205(s) ==> Divided(s, q)
    ensures s <= 68 && q == Mul13(s) ==> Divided(s, q)
  {
    MagicTenths(s);
  }

  lemma Tenth(x: nat, q: nat, r: nat)
    requires x == 10 * q + r && r < 10
    ensures x / 10 == q && x % 10 == r
  {
  }

  /** The values that put_dec_trunc and put_dec_full write are the decimal digits one by one,
      each sum standing for the next quotient up to multiples of ten that later digits take
      over; and the tests of put_dec_trunc ask exactly whether there are more digits. */
  lemma NibbleDigits(num: nat, d3: nat, d2: nat, d1: nat, l: nat,
                     s0: nat, q0: nat, s1: nat, q1: nat, s2: nat, q2: nat, s3: nat, q3: nat)
    requires Nibbles(num, d3, d2, d1, l) && Sums(d3, d2, d1, l, s0, q0, s1, q1, s2, q2, s3, q3)
    ensures Divided(s0, q0) && Divided(s1, q1) && Divided(s2, q2) && Divided(s3, q3) && q3 < 10
    ensures FiveDigits(num) == [s0 - 10 * q0, s1 - 10 * q1, s2 - 10 * q2, s3 - 10 * q3, q3]
    ensures DigitCount10(num) == if s1 == 0 then 1 else if s2 == 0 && d3 == 0 then 2 else if s3 == 0 then 3
                                 else if q3 == 0 then 4 else 5
  {
    hide Mul205, Mul13;
    TenthExact(s0, q0);
    TenthExact(s1, q1);
    TenthExact(s2, q2);
    TenthExact(s3, q3);
    var n1, n2, n3 := s1 + 20 * d2 + 400 * d3, s2 + 40 * d3, s3;
    assert num == 10 * n1 + (s0 - 10 * q0) && n1 == 10 * n2 + (s1 - 10 * q1) && n2 == 10 * n3 + (s2 - 10 * q2);
    DigitsChain(num, n1, n2, n3, q3, s0 - 10 * q0, s1 - 10 * q1, s2 - 10 * q2, s3 - 10 * q3);
  }

  /** The sums that will be formed, and the digits they stand for. */
  lemma DigitsAreSums(num: nat) returns (s0: nat, q0: nat, s1: nat, q1: nat, s2: nat, q2: nat, s3: nat, q3: nat)
    requires num < 100000
    ensures Sums(num / 4096, Nibble(num, 256), Nibble(num, 16), Nibble(num, 1), s0, q0, s1, q1, s2, q2, s3, q3)
    ensures Divided(s0, q0) && Divided(s1, q1) && Divided(s2, q2) && Divided(s3, q3) && q3 < 10
    ensures FiveDigits(num) == [s0 - 10 * q0, s1 - 10 * q1, s2 - 10 * q2, s3 - 10 * q3, q3]
    ensures DigitCount10(num) == if s1 == 0 then 1 else if s2 == 0 && num / 4096 == 0 then 2 else if s3 == 0 then 3
                                 else if q3 == 0 then 4 else 5
  {
    hide Nibble, Divided, FiveDigits, DigitCount10, Mul205, Mul13;
    var d1, d2, d3, l := Nibble(num, 16), Nibble(num, 256), num / 4096, Nibble(num, 1);
    NibblesOf(num);
    s0 := 6 * (d3 + d2 + d1) + l;
    q0 := Mul205(s0);
    s1 := q0 + 9 * d3 + 5 * d2 + d1;
    q1 := Mul205(s1);
    s2 := q1 + 2 * d2;
    q2 := Mul13(s2);
    s3 := q2 + 4 * d3;
    q3 := Mul205(s3);
    NibbleDigits(num, d3, d2, d1, l, s0, q0, s1, q1, s2, q2, s3, q3);
  }

  lemma DigitsChain(num: nat, n1: nat, n2: nat, n3: nat, n4: nat, e0: nat, e1: nat, e2: nat, e3: nat)
    requires num == 10 * n1 + e0 && n1 == 10 * n2 + e1 && n2 == 10 * n3 + e2 && n3 == 10 * n4 + e3
    requires e0 < 10 && e1 < 10 && e2 < 10 && e3 < 10 && n4 < 10
    ensures FiveDigits(num) == [e0, e1, e2, e3, n4]
  {
    Tenth(num, n1, e0);
    Tenth(n1, n2, e1);
    Tenth(n2, n3, e2);
    Tenth(n3, n4, e3);
    Tenth(n4, 0, n4);
  }

  // ----- writing into a buffer

  /** `now` is `was` with `text` written at index `at`. */
  ghost predicate Wrote(now: string, was: string, at: nat, text: string) {
    at + |text| <= |was| && now == was[..at] + text + was[at + |text|..]
  }

  lemma WroteMore(now: string, mid: string, was: string, at: nat, text: string, more: string)
    requires Wrote(mid, was, at, text) && Wrote(now, mid, at + |text|, more)
    ensures Wrote(now, was, at, text + more)
  {
  }

  /** `*p++ = c`. */
  method Put(buf: array<char>, at: nat, c: char) returns (p: nat)
    requires at < buf.Length
    modifies buf
    ensures p == at + 1 && Wrote(buf[..], old(buf[..]), at, [c])
  {
    buf[at] := c;
    p := at + 1;
  }

  /** Write the decimal digit `d`, which is number `k` of `ds`, after those before it. */
  method PutDigit(buf: array<char>, at: nat, d: nat, ghost start: nat, ghost was: string,
                  ghost ds: seq<nat>, ghost k: nat)
    returns (p: nat)
    requires at < buf.Length && at == start + k && k < |ds| && d == ds[k] && Decimal(ds)
    requires Wrote(buf[..], was, start, Chars(ds[..k], false))
    modifies buf
    ensures p == at + 1 && Wrote(buf[..], was, start, Chars(ds[..k + 1], false))
  {
    var c := ('0' as int + d) as char;
    p := Put(buf, at, c);
    WroteMore(buf[..], old(buf[..]), was, start, Chars(ds[..k], false), [c]);
    assert Chars(ds[..k + 1], false) == Chars(ds[..k], false) + [DigitChar(d, false)];
  }

  lemma DigitByDigit(n: nat)
    ensures n < 10 ==> DigitsOf(n, 10) == [n % 10]
    ensures n >= 10 ==> DigitsOf(n, 10) == [n % 10] + DigitsOf(n / 10, 10)
  {
  }

  lemma ShortNumber(n: nat)
    requires n < 100000
    ensures DigitsOf(n, 10) == FiveDigits(n)[..DigitCount10(n)]
  {
    var n1 := n / 10;
    var n2 := n1 / 10;
    var n3 := n2 / 10;
    DigitByDigit(n);
    DigitByDigit(n1);
    DigitByDigit(n2);
    DigitByDigit(n3);
    DigitByDigit(n3 / 10);
    hide DigitsOf;
  }

  lemma LongNumber(n: nat)
    requires n >= 100000
    ensures DigitsOf(n, 10) == FiveDigits(n % 100000) + DigitsOf(n / 100000, 10)
  {
    var n1 := n / 10;
    var n2 := n1 / 10;
    var n3 := n2 / 10;
    var n4 := n3 / 10;
    DigitByDigit(n);
    DigitByDigit(n1);
    DigitByDigit(n2);
    DigitByDigit(n3);
    DigitByDigit(n4);
    hide DigitsOf;
    LowDigits(n, n1, n2, n3, n4);
    assert FiveDigits(n) == [n % 10, n1 % 10, n2 % 10, n3 % 10, n4 % 10];
  }

  lemma LowDigits(n: nat, n1: nat, n2: nat, n3: nat, n4: nat)
    requires n1 == n / 10 && n2 == n1 / 10 && n3 == n2 / 10 && n4 == n3 / 10
    ensures FiveDigits(n % 100000) == FiveDigits(n) && n / 100000 == n4 / 10
  {
    var h := n4 / 10;
    var e0, e1, e2, e3, e4 := n % 10, n1 % 10, n2 % 10, n3 % 10, n4 % 10;
    var low := 10 * (10 * (10 * (10 * e4 + e3) + e2) + e1) + e0;
    QuotientUnique(n, 100000, h, low);
    DigitsChain(low, 10 * (10 * (10 * e4 + e3) + e2) + e1, 10 * (10 * e4 + e3) + e2, 10 * e4 + e3, e4, e0, e1, e2, e3);
  }

  /** put_dec_trunc: the decimal digits of a number below 100000. */
  method PutDecTrunc(buf: array<char>, at: nat, num: nat) returns (p: nat)
    requires num < 100000 && at + |DigitsOf(num, 10)| <= buf.Length
    modifies buf
    ensures p == at + |DigitsOf(num, 10)|
    ensures Wrote(buf[..], old(buf[..]), at, Chars(DigitsOf(num, 10), false))
  {
    hide DigitsOf, Chars, Wrote, FiveDigits, Mul205, Mul13, Nibble, Nibbles, DigitCount10, Decimal;
    ghost var was := buf[..];
    ghost var ds := FiveDigits(num);
    ghost var s0, q0, s1, q1, s2, q2, s3, q3 := DigitsAreSums(num);
    FiveLong(num);
    ShortNumber(num);
    Nothing(was, at);
    assert ds[..0] == [];
    var d1, d2, d3 := Nibble(num, 16), Nibble(num, 256), num / 4096;
    var d0 := 6 * (d3 + d2 + d1) + Nibble(num, 1);
    var q := Mul205(d0);
    assert d0 == s0 && q == q0;
    p := PutDigit(buf, at, d0 - 10 * q, at, was, ds, 0);
    d1 := q + 9 * d3 + 5 * d2 + d1;
    if d1 != 0 {
      q := Mul205(d1);
      assert d1 == s1 && q == q1;
      p := PutDigit(buf, p, d1 - 10 * q, at, was, ds, 1);
      d2 := q + 2 * d2;
      if d2 != 0 || d3 != 0 {
        q := Mul13(d2);
        assert d2 == s2 && q == q2;
        p := PutDigit(buf, p, d2 - 10 * q, at, was, ds, 2);
        d3 := q + 4 * d3;
        if d3 != 0 {
          q := Mul205(d3);
          assert d3 == s3 && q == q3;
          p := PutDigit(buf, p, d3 - 10 * q, at, was, ds, 3);
          if q != 0 {
            p := PutDigit(buf, p, q, at, was, ds, 4);
          }
        }
      }
    }
  }

  lemma Nothing(was: string, at: nat)
    requires at <= |was|
    ensures Wrote(was, was, at, Chars([], false))
  {
  }

  /** put_dec_full: the same without the tests, always five digits. */
  method PutDecFull(buf: array<char>, at: nat, num: nat) returns (p: nat)
    requires num < 100000 && at + 5 <= buf.Length
    modifies buf
    ensures p == at + 5 && Wrote(buf[..], old(buf[..]), at, Chars(FiveDigits(num), false))
  {
    hide Chars, Wrote, FiveDigits, Mul205, Mul13, Nibble, Nibbles, DigitCount10, Decimal;
    ghost var was, ds := buf[..], FiveDigits(num);
    ghost var s0, q0, s1, q1, s2, q2, s3, q3 := DigitsAreSums(num);
    FiveLong(num);
    Nothing(was, at);
    assert ds[..0] == [];
    var d1, d2, d3 := Nibble(num, 16), Nibble(num, 256), num / 4096;
    var d0 := 6 * (d3 + d2 + d1) + Nibble(num, 1);
    var q := Mul205(d0);
    p := PutDigit(buf, at, d0 - 10 * q, at, was, ds, 0);
    d1 := q + 9 * d3 + 5 * d2 + d1;
    q := Mul205(d1);
    p := PutDigit(buf, p, d1 - 10 * q, at, was, ds, 1);
    d2 := q + 2 * d2;
    q := Mul13(d2);
    p := PutDigit(buf, p, d2 - 10 * q, at, was, ds, 2);
    d3 := q + 4 * d3;
    q := Mul205(d3);
    p := PutDigit(buf, p, d3 - 10 * q, at, was, ds, 3);
    p := PutDigit(buf, p, q, at, was, ds, 4);
    assert ds[..5] == ds;
  }

  /** put_dec: exactly the decimal digits of any 64-bit number, in reverse. */
  method PutDec(buf: array<char>, at: nat, num: U64) returns (p: nat)
    requires at + |DigitsOf(num, 10)| <= buf.Length
    modifies buf
    ensures p == at + |DigitsOf(num, 10)|
    ensures Wrote(buf[..], old(buf[..]), at, Chars(DigitsOf(num, 10), false))
  {
    hide DigitsOf, Chars, Wrote, FiveDigits;
    ghost var was, ds := buf[..], [];
    Nothing(was, at);
    var left := num;
    p := at;
    while true
      invariant 0 <= left <= num && p == at + |ds| && Decimal(ds)
      invariant DigitsOf(num, 10) == ds + DigitsOf(left, 10)
      invariant Wrote(buf[..], was, at, Chars(ds, false))
      decreases left
    {
      ghost var mid := buf[..];
      if left < 100000 {
        p := PutDecTrunc(buf, p, left);
        Appended(buf[..], mid, was, at, ds, DigitsOf(left, 10));
        return;
      }
      LongNumber(left);
      FiveLong(left % 100000);
      var rem;
      ghost var five := FiveDigits(left % 100000);
      left, rem := DoDiv(left, 100000);
      p := PutDecFull(buf, p, rem);
      Appended(buf[..], mid, was, at, ds, five);
      ds := ds + five;
    }
  }

  lemma FiveLong(n: nat)
    ensures |FiveDigits(n)| == 5 && Decimal(FiveDigits(n))
  {
  }

  lemma Appended(now: string, mid: string, was: string, at: nat, ds: seq<nat>, es: seq<nat>)
    requires Decimal(ds) && Decimal(es)
    requires Wrote(mid, was, at, Chars(ds, false)) && Wrote(now, mid, at + |ds|, Chars(es, false))
    ensures Wrote(now, was, at, Chars(ds + es, false))
  {
    WroteMore(now, mid, was, at, Chars(ds, false), Chars(es, false));
    assert Chars(ds + es, false) == Chars(ds, false) + Chars(es, false);
  }

  // ----- the other two ways of printing a 32-bit number

  /** simple_itoa: fills its 22-byte buffer from the end; the string starts at `p`. */
  method SimpleItoa(buf: array<char>, i: U32) returns (p: nat)
    requires buf.Length == 22
    modifies buf
    ensures p + |DigitsOf(i, 10)| == 21 && buf[21] == 0 as char
    ensures buf[p..21] == Reversed(Chars(DigitsOf(i, 10), false))
  {
    TenDigits(i);
    hide DigitsOf, Power, Chars, Reversed;
    buf[21] := 0 as char;
    var n := i;
    ghost var ds, k := DigitsOf(i, 10), 0;
    p := 21;
    NoChars();
    assert ds[..0] == [] && ds[0..] == ds && buf[21..21] == [];
    while true
      invariant 0 <= n && 0 <= k < |ds| <= 10 && p == 21 - k && buf[21] == 0 as char
      invariant ds[k..] == DigitsOf(n, 10)
      invariant buf[p..21] == Reversed(Chars(ds[..k], false))
      decreases n
    {
      NextDigit(n, 10);
      Split(ds, k);
      CharsMore(ds, k, false);
      ghost var tail := buf[p..21];
      p := p - 1;
      buf[p] := ('0' as int + n % 10) as char;
      assert buf[p..21] == [buf[p]] + tail;
      k := k + 1;
      n := n / 10;
      if n == 0 { break; }
    }
    assert ds[..k] == ds;
  }

  lemma NoChars()
    ensures Reversed(Chars([], false)) == [] && Chars([], true) == [] == Reversed(Chars([], true))
  {
  }

  lemma Split(ds: seq<nat>, k: nat)
    requires k < |ds|
    ensures ds[k..][0] == ds[k] && ds[k..][1..] == ds[k + 1..]
    ensures |ds[k..]| == 1 <==> k + 1 == |ds|
  {
  }

  lemma CharsMore(ds: seq<nat>, k: nat, locase: bool)
    requires k < |ds| && forall i :: 0 <= i < |ds| ==> ds[i] < 16
    ensures Chars(ds[..k + 1], locase) == Chars(ds[..k], locase) + [DigitChar(ds[k], locase)]
    ensures Reversed(Chars(ds[..k + 1], locase)) == [DigitChar(ds[k], locase)] + Reversed(Chars(ds[..k], locase))
    ensures Reversed(Chars(ds[k..], locase)) == Reversed(Chars(ds[k + 1..], locase)) + [DigitChar(ds[k], locase)]
  {
    CharsSplit(ds[..k], [ds[k]], locase);
    CharsSplit([ds[k]], ds[k + 1..], locase);
    assert ds[..k] + [ds[k]] == ds[..k + 1] && [ds[k]] + ds[k + 1..] == ds[k..];
    assert Chars([ds[k]], locase) == [DigitChar(ds[k], locase)];
    hide Chars, DigitChar;
    ReversedEnds(Chars(ds[..k], locase), DigitChar(ds[k], locase));
    ReversedEnds(Chars(ds[k + 1..], locase), DigitChar(ds[k], locase));
  }

  lemma CharsSplit(a: seq<nat>, b: seq<nat>, locase: bool)
    requires (forall i :: 0 <= i < |a| ==> a[i] < 16) && forall i :: 0 <= i < |b| ==> b[i] < 16
    ensures forall i :: 0 <= i < |a + b| ==> (a + b)[i] < 16
    ensures Chars(a + b, locase) == Chars(a, locase) + Chars(b, locase)
  {
  }

  lemma ReversedEnds<T>(s: seq<T>, c: T)
    ensures Reversed(s + [c]) == [c] + Reversed(s)
    ensures Reversed([c] + s) == Reversed(s) + [c]
  {
  }

  lemma TenDigits(n: U32)
    ensures |DigitsOf(n, 10)| <= 10
  {
    assert Power(10, 5) == 100000;
    assert Power(10, 10) == 10_000_000_000;
    DigitCount(n, 10, 10);
  }

  /** The local buffer of lib_int_RawDoFmtNumber: sizeof(long) * 8 / 3 + 1 characters. */
  const RAW_LEN: nat := 4 * 8 / 3 + 1

  /** lib_int_RawDoFmtNumber: digits go into the buffer and come out backwards through PutCh. */
  method RawDoFmtNumber(ul: U32, base: nat) returns (put: string)
    requires 2 <= base <= 16 && |DigitsOf(ul, base)| <= RAW_LEN
    ensures put == Reversed(Chars(DigitsOf(ul, base), true))
    ensures forall i :: 0 <= i < |put| ==> HexChar(put[i], true)
  {
    hide DigitsOf, Chars, Reversed, DigitChar, HexChar;
    NoChars();
    var buf := new char[RAW_LEN];
    var p := FillDigits(buf, ul, base);
    ghost var ds := DigitsOf(ul, base);
    assert ds[p..] == [];
    put := "";
    while true
      invariant 0 < p <= |ds| && put == Reversed(Chars(ds[p..], true)) && buf[..|ds|] == Chars(ds, true)
      decreases p
    {
      p := p - 1;
      CharsMore(ds, p, true);
      CharAt(ds, p, true);
      put := put + [buf[p]];
      if p == 0 { break; }
    }
    assert ds[0..] == ds;
    ReversedCase(ds, true);
  }

  lemma ReversedCase(ds: seq<nat>, locase: bool)
    requires forall i :: 0 <= i < |ds| ==> ds[i] < 16
    ensures forall i :: 0 <= i < |ds| ==> HexChar(Reversed(Chars(ds, locase))[i], locase)
  {
    DigitCase(ds, locase);
  }

  /** Its first loop. */
  method FillDigits(buf: array<char>, ul: U32, base: nat) returns (p: nat)
    requires 2 <= base <= 16 && |DigitsOf(ul, base)| <= buf.Length
    modifies buf
    ensures p == |DigitsOf(ul, base)| && buf[..p] == Chars(DigitsOf(ul, base), true)
  {
    hide DigitsOf, Chars, Reversed, DigitChar;
    NoChars();
    var n := ul;
    ghost var ds := DigitsOf(ul, base);
    assert ds[0..] == ds && ds[..0] == [];
    p := 0;
    while true
      invariant 0 <= n && 0 <= p < |ds| && ds[p..] == DigitsOf(n, base)
      invariant buf[..p] == Chars(ds[..p], true)
      decreases n
    {
      NextDigit(n, base);
      Split(ds, p);
      CharsMore(ds, p, true);
      buf[p] := DigitChar(n % base, true);
      p := p + 1;
      assert buf[..p] == buf[..p - 1] + [buf[p - 1]];
      n := n / base;
      if n == 0 { break; }
    }
    assert ds[..p] == ds;
  }

  lemma CharAt(ds: seq<nat>, k: nat, locase: bool)
    requires k < |ds| && forall i :: 0 <= i < |ds| ==> ds[i] < 16
    ensures Chars(ds, locase)[k] == DigitChar(ds[k], locase)
  {
  }

  lemma NextDigit(n: nat, base: nat)
    requires base >= 2
    ensures DigitsOf(n, base)[0] == n % base && n / base >= 0
    ensures n / base == 0 <==> n < base
    ensures n < base ==> DigitsOf(n, base) == [n]
    ensures n >= base ==> DigitsOf(n, base)[1..] == DigitsOf(n / base, base) && n / base < n
  {
    if n < base {
      QuotientUnique(n, base, 0, n);
    } else {
      Quotient(n, base);
    }
  }

  ghost predicate RawBufferFits(base: nat)
    requires base >= 2
  {
    forall n: U32 :: |DigitsOf(n, base)| <= RAW_LEN
  }

  lemma Fits(n: U32, base: nat)
    requires base >= 2 && RawBufferFits(base)
    ensures |DigitsOf(n, base)| <= RAW_LEN
  {
  }

  /** The 11 characters are enough for every 32-bit number exactly for the bases from 8 up. */
  lemma RawBufferSuffices(base: nat)
    requires base >= 2
    ensures RawBufferFits(base) <==> base >= 8
  {
    if base >= 8 {
      forall n: U32 ensures |DigitsOf(n, base)| <= RAW_LEN {
        assert Power(8, 5) == 32768 && Power(8, 11) == 8_589_934_592;
        PowerMonotone(8, base, 11);
        DigitCount(n, base, 11);
      }
    } else {
      assert Power(7, 5) == 16807 && Power(7, 11) == 1_977_326_743;
      PowerMonotone(base, 7, 11);
      MoreDigits(TWO32 - 1, base, 11);
      var n: U32 := TWO32 - 1;
      assert |DigitsOf(n, base)| > RAW_LEN;
    }
  }

  lemma {:induction false} PowerMonotone(a: nat, b: nat, k: nat)
    requires a <= b
    ensures Power(a, k) <= Power(b, k)
  {
    if k > 0 {
      PowerMonotone(a, b, k - 1);
      MulMonotone(a, b, Power(a, k - 1));
      MulMonotone(Power(a, k - 1), Power(b, k - 1), b);
    }
  }

  /** A number of at least base^k has more than k digits. */
  lemma {:induction false} MoreDigits(n: nat, base: nat, k: nat)
    requires base >= 2 && n >= Power(base, k)
    ensures |DigitsOf(n, base)| > k
  {
    if k > 0 {
      PowerStep(base, k);
      PowerPositive(base, k - 1);
      hide Power, DigitsOf;
      AtLeastQuotient(n, base, Power(base, k - 1));
      NextDigit(n, base);
      MoreDigits(n / base, base, k - 1);
    }
  }

  lemma PowerStep(b: nat, k: nat)
    requires k > 0
    ensures Power(b, k) == b * Power(b, k - 1)
  {
  }

  lemma AtLeastQuotient(n: nat, base: nat, m: nat)
    requires base > 0 && n >= base * m && m > 0
    ensures n / base >= m && n >= base
  {
    assert n == n / base * base + n % base;
    MulMonotone(n / base + 1, m, base);
    MulMonotone(1, m, base);
  }

  lemma {:induction false} PowerPositive(b: nat, k: nat)
    requires b > 0
    ensures Power(b, k) > 0
  {
    if k > 0 { PowerPositive(b, k - 1); }
  }

  /** On 32-bit numbers the three routines print the same text: what put_dec writes, read
      backwards, is what simple_itoa returns and what RawDoFmt sends for base 10. */
  method ThreeWays(i: U32) returns (decimal: string, itoa: string, raw: string)
    ensures decimal == itoa == raw == Reversed(Chars(DigitsOf(i, 10), false))
    ensures 1 <= |raw| <= 10 && (i > 0 ==> raw[0] != '0')
  {
    TenDigits(i);
    if i > 0 { LeadingDigit(i, 10); }
    DecimalText(DigitsOf(i, 10));
    hide DigitsOf, Chars, Reversed, Wrote;
    var buf := new char[22];
    ghost var was := buf[..];
    var p := PutDec(buf, 0, i);
    WroteThere(buf[..], was, 0, Chars(DigitsOf(i, 10), false));
    decimal := Reversed(buf[..p]);
    p := SimpleItoa(buf, i);
    itoa := buf[p..21];
    RawBufferSuffices(10);
    Fits(i, 10);
    raw := RawDoFmtNumber(i, 10);
  }

  lemma WroteThere(now: string, was: string, at: nat, text: string)
    requires Wrote(now, was, at, text)
    ensures |now| == |was| && at + |text| <= |was| && now[at..at + |text|] == text && now[..at] == was[..at]
  {
  }

  lemma DecimalText(ds: seq<nat>)
    requires |ds| > 0 && forall i :: 0 <= i < |ds| ==> ds[i] < 10
    ensures Chars(ds, true) == Chars(ds, false) && |Reversed(Chars(ds, true))| == |ds|
    ensures ds[|ds| - 1] != 0 ==> Reversed(Chars(ds, true))[0] != '0'
  {
  }
}

/** simple_strtoul, simple_strtoull and simple_strtol (vsprintf.c). */
module Parse {
  import opened Words
  import opened Div64
  import opened Digits

  // ----- what is parsed

  /** Character `k` of a C string: NUL behind the last one. */
  function At(s: string, k: nat): char { if k < |s| then s[k] else 0 as char }

  predicate IsDigit(c: char) { '0' <= c <= '9' }
  predicate IsXDigit(c: char) { '0' <= c <= '9' || 'A' <= c <= 'F' || 'a' <= c <= 'f' }

  /** `isdigit(c) ? c - '0' : (islower(c) ? toupper(c) : c) - 'A' + 10` */
  function DigitValue(c: char): (v: nat)
    requires IsXDigit(c)
    ensures v < 16 && (IsDigit(c) <==> v < 10)
  {
    if IsDigit(c) then c as int - '0' as int
    else (if 'a' <= c <= 'z' then c as int - 32 else c as int) - 'A' as int + 10
  }

  predicate HexPrefix(s: string) { At(s, 0) == '0' && At(s, 1) == 'x' && IsXDigit(At(s, 2)) }

  /** Where the digits start ... */
  function Start(s: string): nat { if HexPrefix(s) then 2 else if At(s, 0) == '0' then 1 else 0 }

  /** ... and in which base they are read; a 0x prefix overrides the base that was asked for. */
  function BaseFor(s: string, base: nat): nat {
    if HexPrefix(s) then 16 else if base != 0 then base else if At(s, 0) == '0' then 8 else 10
  }

  predicate IsDigitOf(s: string, k: nat, base: nat) { IsXDigit(At(s, k)) && DigitValue(At(s, k)) < base }

  /** The digits from `k` on, most significant first, up to the first character that is none. */
  function Accepted(s: string, k: nat, base: nat): seq<nat>
    decreases |s| - k
  {
    if k < |s| && IsDigitOf(s, k, base) then [DigitValue(s[k])] + Accepted(s, k + 1, base) else []
  }

  /** The value of digits written most significant first. */
  function Horner(ds: seq<nat>, base: nat): nat { ValueOf(Reversed(ds), base) }

  /** The number at the start of `s`, before it is cut to the width of the result. */
  function Parsed(s: string, base: nat): nat {
    Horner(Accepted(s, Start(s), BaseFor(s, base)), BaseFor(s, base))
  }

  /** Where the number ends. */
  function EndOf(s: string, base: nat): nat { Start(s) + |Accepted(s, Start(s), BaseFor(s, base))| }

  // ----- how it is parsed

  lemma ReversedAppend(ds: seq<nat>, d: nat)
    ensures Reversed(ds + [d]) == [d] + Reversed(ds)
  {
    assert (ds + [d])[..|ds|] == ds;
    assert |Reversed(ds + [d])| == |[d] + Reversed(ds)|;
  }

  lemma HornerStep(ds: seq<nat>, d: nat, base: nat)
    ensures Horner(ds + [d], base) == d + base * Horner(ds, base)
  {
    ReversedAppend(ds, d);
    Cons(d, Reversed(ds), base);
  }

  /** Cutting off intermediate results changes nothing in the low bits of the last one. */
  lemma CutStep(x: nat, d: nat, base: nat, modulus: nat)
    requires modulus > 0
    ensures (x % modulus * base + d) % modulus == (d + base * x) % modulus
  {
    var q, r := x / modulus, x % modulus;
    var p, e := (r * base + d) / modulus, (r * base + d) % modulus;
    Regroup(q, r, base, modulus, d, p, e);
    QuotientUnique(d + base * x, modulus, base * q + p, e);
  }

  lemma Regroup(q: nat, r: nat, base: nat, modulus: nat, d: nat, p: nat, e: nat)
    requires r * base + d == p * modulus + e
    ensures d + base * (q * modulus + r) == (base * q + p) * modulus + e
  {
    assert base * (q * modulus + r) == base * q * modulus + r * base;
    assert (base * q + p) * modulus == base * q * modulus + p * modulus;
  }

  lemma AcceptedStep(s: string, k: nat, base: nat)
    requires IsDigitOf(s, k, base)
    ensures k < |s| && Accepted(s, k, base) == [DigitValue(s[k])] + Accepted(s, k + 1, base)
  {
  }

  /** The common body of simple_strtoul and simple_strtoull: the result is the number modulo
      2^32 or 2^64, and `endp` is behind the last digit. */
  method Strto(s: string, base: nat, modulus: nat) returns (result: nat, endp: nat)
    requires base < TWO32 && modulus > 0
    ensures result == Parsed(s, base) % modulus
    ensures endp == EndOf(s, base) <= |s|
  {
    var cp, radix := 0, base;
    if At(s, cp) == '0' {
      cp := cp + 1;
      if At(s, cp) == 'x' && IsXDigit(At(s, cp + 1)) {
        radix := 16;
        cp := cp + 1;
      }
      if radix == 0 { radix := 8; }
    }
    if radix == 0 { radix := 10; }
    result := 0;
    ghost var done: seq<nat>, all := [], Accepted(s, cp, radix);
    assert cp == Start(s) <= |s| && radix == BaseFor(s, base);
    SmallMod(modulus, radix);
    hide *;
    while IsDigitOf(s, cp, radix)
      invariant cp <= |s| && cp == Start(s) + |done| && all == done + Accepted(s, cp, radix)
      invariant result == Horner(done, radix) % modulus
      decreases |s| - cp
    {
      DigitTaken(s, cp, radix, modulus, all, done, result);
      var value := DigitValue(s[cp]);
      result := (result * radix + value) % modulus;
      done := done + [value];
      cp := cp + 1;
    }
    AcceptedEnds(s, cp, radix);
    assert all == done;
    endp := cp;
  }

  lemma DigitTaken(s: string, cp: nat, radix: nat, modulus: nat, all: seq<nat>, done: seq<nat>, result: nat)
    requires modulus > 0 && IsDigitOf(s, cp, radix)
    requires all == done + Accepted(s, cp, radix) && result == Horner(done, radix) % modulus
    ensures cp < |s| && IsXDigit(s[cp])
    ensures all == done + [DigitValue(s[cp])] + Accepted(s, cp + 1, radix)
    ensures (result * radix + DigitValue(s[cp])) % modulus == Horner(done + [DigitValue(s[cp])], radix) % modulus
  {
    AcceptedStep(s, cp, radix);
    hide Horner, Accepted, DigitValue;
    var value := DigitValue(s[cp]);
    HornerStep(done, value, radix);
    CutStep(Horner(done, radix), value, radix, modulus);
  }

  lemma SmallMod(modulus: nat, base: nat)
    requires modulus > 0
    ensures Horner([], base) % modulus == 0
  {
    QuotientUnique(0, modulus, 0, 0);
  }

  lemma AcceptedEnds(s: string, k: nat, base: nat)
    requires !IsDigitOf(s, k, base)
    ensures Accepted(s, k, base) == []
  {
  }

  function Strtoul(s: string, base: nat): U32 { Parsed(s, base) % TWO32 }
  function Strtoull(s: string, base: nat): U64 { Parsed(s, base) % TWO64 }

  method SimpleStrtoul(s: string, base: U32) returns (result: U32, endp: nat)
    ensures result == Strtoul(s, base)
    ensures endp == EndOf(s, base) <= |s|
  {
    result, endp := Strto(s, base, TWO32);
  }

  method SimpleStrtoull(s: string, base: U32) returns (result: U64, endp: nat)
    ensures result == Strtoull(s, base)
    ensures endp == EndOf(s, base) <= |s|
  {
    result, endp := Strto(s, base, TWO64);
  }

  /** A 32-bit word as a signed number, and the negation of an unsigned long. */
  function Signed32(w: U32): int { if w < 0x8000_0000 then w else w - TWO32 }
  function Negated(w: U32): U32 { if w == 0 then 0 else TWO32 - w }

  function SignedParsed(s: string, base: nat): int {
    if At(s, 0) == '-' then Signed32(Negated(Strtoul(s[1..], base))) else Signed32(Strtoul(s, base))
  }

  method SimpleStrtol(s: string, base: U32) returns (result: int, endp: nat)
    ensures result == SignedParsed(s, base)
    ensures endp == (if At(s, 0) == '-' then 1 + EndOf(s[1..], base) else EndOf(s, base)) <= |s|
  {
    hide Strtoul;
    var ul;
    if At(s, 0) == '-' {
      ul, endp := SimpleStrtoul(s[1..], base);
      endp := endp + 1;
      result := Signed32(Negated(ul));
    } else {
      ul, endp := SimpleStrtoul(s, base);
      result := Signed32(ul);
    }
  }
}

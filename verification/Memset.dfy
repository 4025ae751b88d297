/** asm_memset (_memory.s): word-wise filling.  Its word alignment loop compares the remaining
    count as a signed number, which decides for which counts everything is filled. */
module Memset {
  import opened Words
  import opened Memcpy

  function Copies(c: Byte, n: nat): (s: seq<Byte>)
    ensures |s| == n && forall i :: 0 <= i < n ==> s[i] == c
  {
    seq(n, _ => c)
  }

  /** Exactly the `k` bytes from `d` on have been set to `c`. */
  ghost predicate Filled(now: seq<Byte>, was: seq<Byte>, d: nat, k: nat, c: Byte) {
    Stored(now, was, d, Copies(c, k))
  }

  lemma FilledMore(now: seq<Byte>, mid: seq<Byte>, was: seq<Byte>, d: nat, k: nat, c: Byte, bytes: seq<Byte>)
    requires Filled(mid, was, d, k, c) && Stored(now, mid, d + k, bytes) && bytes == Copies(c, |bytes|)
    ensures Filled(now, was, d, k + |bytes|, c)
  {
    assert Copies(c, k) + bytes == Copies(c, k + |bytes|);
  }

  /** `c` in all four bytes of a register. */
  function Spread(c: Byte): Reg {
    var r1 := Reg(c, 0, 0, 0);
    var r2 := Orr(r1, LslBytes(r1, 1));
    Orr(r2, LslBytes(r2, 2))
  }

  lemma SpreadBytes(c: Byte)
    ensures Bytes(Spread(c)) == Copies(c, 4)
  {
    OrZero(c);
    OrZero(0);
    hide OrByte;
  }

  method FillByte(mem: array<Byte>, ghost was: seq<Byte>, d: nat, k: nat, c: Byte)
    requires d + k < mem.Length == |was| && Filled(mem[..], was, d, k, c)
    modifies mem
    ensures Filled(mem[..], was, d, k + 1, c)
  {
    hide Filled, Stored;
    ghost var mid := mem[..];
    Strb(mem, d + k, c);
    FilledMore(mem[..], mid, was, d, k, c, [c]);
  }

  method FillWord(mem: array<Byte>, ghost was: seq<Byte>, d: nat, k: nat, c: Byte, r1: Reg)
    requires d + k + 4 <= mem.Length == |was| && Filled(mem[..], was, d, k, c) && r1 == Spread(c)
    modifies mem
    ensures Filled(mem[..], was, d, k + 4, c)
  {
    hide Filled, Stored, Spread;
    SpreadBytes(c);
    ghost var mid := mem[..];
    Str(mem, d + k, r1);
    FilledMore(mem[..], mid, was, d, k, c, Bytes(r1));
  }

  /** byte_alignment_loop. */
  method AlignBytes(mem: array<Byte>, ghost was: seq<Byte>, d: nat, n: nat, c: Byte) returns (k: nat)
    requires 0 < n && d + n <= mem.Length == |was| && Filled(mem[..], was, d, 0, c)
    modifies mem
    ensures k == (if n < Gap(d) then n else Gap(d)) && Filled(mem[..], was, d, k, c)
  {
    hide Filled, Gap;
    k := 0;
    GapStep(d);
    while (d + k) % 4 != 0
      invariant k <= n && k + Gap(d + k) == Gap(d) && Filled(mem[..], was, d, k, c)
      invariant (d + k) % 4 == 0 ==> Gap(d + k) == 0
      decreases n - k
    {
      GapStep(d + k);
      GapStep(d + k + 1);
      if k == n { return; }
      FillByte(mem, was, d, k, c);
      k := k + 1;
      if k == n { return; }
    }
  }

  /** The distance to the next word boundary. */
  function Gap(d: nat): nat { (4 - d % 4) % 4 }

  lemma GapStep(a: nat)
    ensures a % 4 == 0 <==> Gap(a) == 0
    ensures a % 4 != 0 ==> Gap(a + 1) == Gap(a) - 1
  {
  }

  /** stray_bytes: the last one to three bytes; a count from 2^31 up is negative to `cmp`. */
  method StrayBytes(mem: array<Byte>, ghost was: seq<Byte>, d: nat, n: U32, c: Byte, k0: nat) returns (k: nat)
    requires k0 < n && d + n <= mem.Length == |was| && Filled(mem[..], was, d, k0, c)
    requires n - k0 < 4 || n - k0 >= 0x8000_0000
    modifies mem
    ensures Filled(mem[..], was, d, k, c) && k == if n - k0 >= 0x8000_0000 then k0 + 1 else n
  {
    hide Filled;
    k := k0;
    var r2 := n - k;
    if 2 < r2 < 0x8000_0000 {
      FillByte(mem, was, d, k, c);
      k := k + 1;
    }
    if 2 <= r2 < 0x8000_0000 {
      FillByte(mem, was, d, k, c);
      k := k + 1;
    }
    FillByte(mem, was, d, k, c);
    k := k + 1;
  }

  /** word_alignment_loop, which ends the routine or reaches a 32-byte boundary. */
  method AlignWords(mem: array<Byte>, ghost was: seq<Byte>, d: nat, n: U32, c: Byte, r1: Reg, k0: nat)
    returns (k: nat, out: bool)
    requires k0 < n && d + n <= mem.Length == |was| && r1 == Spread(c)
    requires Filled(mem[..], was, d, k0, c)
    modifies mem
    ensures Filled(mem[..], was, d, k, c)
    ensures if out then k == (if n - k0 >= 0x8000_0000 && !OnLine(d + k0) then k0 + 1 else n)
            else k0 <= k < n && (n - k0 < 0x8000_0000 || OnLine(d + k0))
  {
    hide Filled, Spread;
    k := k0;
    while (d + k) % 32 != 0
      invariant k0 <= k < n && Filled(mem[..], was, d, k, c)
      invariant k == k0 || n - k0 < 0x8000_0000
      decreases n - k
    {
      if n - k < 4 || n - k >= 0x8000_0000 {
        k := StrayBytes(mem, was, d, n, c, k);
        return k, true;
      }
      FillWord(mem, was, d, k, c, r1);
      k := k + 4;
      if k == n { return k, true; }
    }
    out := false;
  }

  /** A 32-byte boundary. */
  predicate OnLine(a: nat) { a % 32 == 0 }

  /** main_loop, words and bytes. */
  method FillRest(mem: array<Byte>, ghost was: seq<Byte>, d: nat, n: nat, c: Byte, r1: Reg, k0: nat)
    requires k0 < n && d + n <= mem.Length == |was| && r1 == Spread(c) && Filled(mem[..], was, d, k0, c)
    modifies mem
    ensures Filled(mem[..], was, d, n, c)
  {
    hide Filled, Spread;
    var r3, k := (n - k0) % 32, k0;
    while k + r3 != n
      invariant r3 < 32 && k + r3 <= n && (n - k - r3) % 32 == 0 && Filled(mem[..], was, d, k, c)
      decreases n - k
    {
      for j := 0 to 8
        invariant k + 4 * j <= n && Filled(mem[..], was, d, k + 4 * j, c)
      {
        FillWord(mem, was, d, k + 4 * j, c, r1);
      }
      k := k + 32;
    }
    var r4 := r3 - r3 % 4;
    while r4 != 0
      invariant r4 % 4 == 0 && 0 <= r4 && k + r4 + r3 % 4 == n && Filled(mem[..], was, d, k, c)
      decreases r4
    {
      FillWord(mem, was, d, k, c, r1);
      r4, k := r4 - 4, k + 4;
    }
    while k != n
      invariant k <= n && Filled(mem[..], was, d, k, c)
      decreases n - k
    {
      FillByte(mem, was, d, k, c);
      k := k + 1;
    }
  }

  /** How many bytes asm_memset sets. */
  function FillCount(d: nat, n: nat): nat {
    if n >= Gap(d) + 0x8000_0000 && !OnLine(d + Gap(d)) then Gap(d) + 1 else n
  }

  lemma FillCases(d: nat, n: nat)
    ensures n <= Gap(d) ==> FillCount(d, n) == n
    ensures n > Gap(d) ==>
              FillCount(d, n) == if n - Gap(d) >= 0x8000_0000 && !OnLine(d + Gap(d)) then Gap(d) + 1 else n
  {
  }

  lemma FilledNone(was: seq<Byte>, d: nat, c: Byte)
    requires d <= |was|
    ensures Filled(was, was, d, 0, c)
  {
    assert Copies(c, 0) == [];
  }

  /** All n bytes are set unless 2^31 or more of them follow the first word boundary and this is
      no 32-byte boundary; then only one byte behind that boundary is. */
  method AsmMemset(mem: array<Byte>, dest: nat, c: Byte, n: U32)
    requires dest + n <= mem.Length
    modifies mem
    ensures Filled(mem[..], old(mem[..]), dest, FillCount(dest, n), c)
  {
    ghost var was := mem[..];
    FilledNone(was, dest, c);
    FillCases(dest, n);
    hide *;
    if n == 0 { return; }
    var k := AlignBytes(mem, was, dest, n, c);
    if k == n { return; }
    FillAligned(mem, was, dest, n, c, k);
  }

  /** From the first word boundary on. */
  method FillAligned(mem: array<Byte>, ghost was: seq<Byte>, d: nat, n: U32, c: Byte, k0: nat)
    requires d + n <= mem.Length == |was| && k0 == Gap(d) < n && Filled(mem[..], was, d, k0, c)
    modifies mem
    ensures Filled(mem[..], was, d, FillCount(d, n), c)
  {
    FillCases(d, n);
    hide *;
    var r1 := Spread(c);
    var k, out := AlignWords(mem, was, d, n, c, r1, k0);
    if out { return; }
    FillRest(mem, was, d, n, c, r1, k);
  }

  /** In particular the whole range is filled for all counts below 2^31. */
  lemma FillsAll(d: nat, n: U32)
    ensures n < 0x8000_0000 ==> FillCount(d, n) == n
    ensures FillCount(d, n) == n <==> n < Gap(d) + 0x8000_0000 || OnLine(d + Gap(d))
    ensures FillCount(d, n) <= n
  {
  }

  /** Of 2^31 bytes from address 4 on only the first is set. */
  lemma FillCanStopEarly()
    ensures FillCount(4, 0x8000_0000) == 1
  {
  }
}

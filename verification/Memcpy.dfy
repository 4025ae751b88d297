/** asm_memcpy (_memory.s): the word-wise copy refines the plain byte loop that CopyMem keeps
    as a comment (util.c), for every alignment of source and destination. */
module Memcpy {
  import opened Words

  type Byte = x: int | 0 <= x < 256

  /** Bitwise or of two numbers below 2^bits. */
  function Or(x: nat, y: nat, bits: nat): (z: nat)
    ensures z < Pow2(bits)
  {
    if bits == 0 then 0 else 2 * Or(x / 2, y / 2, bits - 1) + (if x % 2 == 1 || y % 2 == 1 then 1 else 0)
  }

  lemma {:induction false} OrNothing(x: nat, bits: nat)
    requires x < Pow2(bits)
    ensures Or(x, 0, bits) == x == Or(0, x, bits)
  {
    if bits > 0 { OrNothing(x / 2, bits - 1); }
  }

  function OrByte(x: Byte, y: Byte): Byte {
    assert Pow2(8) == 256 by { assert Pow2(4) == 16; }
    Or(x, y, 8)
  }

  lemma OrZero(x: Byte)
    ensures OrByte(x, 0) == x == OrByte(0, x)
  {
    assert Pow2(8) == 256 by { assert Pow2(4) == 16; }
    OrNothing(x, 8);
  }

  /** A register as its four bytes, lowest first.  All shifts are by whole bytes. */
  datatype Reg = Reg(b0: Byte, b1: Byte, b2: Byte, b3: Byte)

  function ByteOf(w: Reg, j: nat): Byte {
    if j == 0 then w.b0 else if j == 1 then w.b1 else if j == 2 then w.b2 else if j == 3 then w.b3 else 0
  }

  /** Logical shifts by `k` bytes, and bitwise or. */
  function LsrBytes(w: Reg, k: nat): Reg { Reg(ByteOf(w, k), ByteOf(w, k + 1), ByteOf(w, k + 2), ByteOf(w, k + 3)) }

  function LslBytes(w: Reg, k: nat): Reg
    requires k <= 4
  {
    Reg(if k == 0 then w.b0 else 0, if k <= 1 then ByteOf(w, 1 - k) else 0,
        if k <= 2 then ByteOf(w, 2 - k) else 0, if k <= 3 then ByteOf(w, 3 - k) else 0)
  }

  function Orr(v: Reg, w: Reg): Reg {
    Reg(OrByte(v.b0, w.b0), OrByte(v.b1, w.b1), OrByte(v.b2, w.b2), OrByte(v.b3, w.b3))
  }

  function Bytes(w: Reg): (s: seq<Byte>)
    ensures |s| == 4
  {
    [w.b0, w.b1, w.b2, w.b3]
  }

  /** `ldr`, little-endian; on a misaligned address too. */
  function Ldr(m: seq<Byte>, a: nat): (w: Reg)
    requires a + 4 <= |m|
    ensures Bytes(w) == m[a..a + 4]
  {
    Reg(m[a], m[a + 1], m[a + 2], m[a + 3])
  }

  // ----- copying

  /** `now` is `was` with `bytes` stored at address `a`. */
  ghost predicate Stored(now: seq<Byte>, was: seq<Byte>, a: nat, bytes: seq<Byte>) {
    a + |bytes| <= |was| && now == was[..a] + bytes + was[a + |bytes|..]
  }

  /** The meaning of the routine: `now` is `was` with n bytes copied from `s` to `d`. */
  ghost predicate Copied(now: seq<Byte>, was: seq<Byte>, d: nat, s: nat, n: nat) {
    s + n <= |was| && Stored(now, was, d, was[s..s + n])
  }

  /** The plain loop: `while (n-- > 0) *t++ = *f++;`. */
  function ByteLoop(m: seq<Byte>, t: nat, f: nat, n: nat): seq<Byte>
    requires t + n <= |m| && f + n <= |m|
    decreases n
  {
    if n == 0 then m else ByteLoop(m[t := m[f]], t + 1, f + 1, n - 1)
  }

  /** On ranges that do not overlap the plain loop copies, and there is only one way to do so. */
  lemma {:induction false} ByteLoopCopies(m: seq<Byte>, t: nat, f: nat, n: nat)
    requires t + n <= |m| && f + n <= |m| && Apart(t, f, n)
    ensures Copied(ByteLoop(m, t, f, n), m, t, f, n)
    decreases n
  {
    if n > 0 {
      var next := m[t := m[f]];
      ByteLoopCopies(next, t + 1, f + 1, n - 1);
      LoopStep(ByteLoop(m, t, f, n), next, m, t, f, n);
    }
  }

  lemma LoopStep(now: seq<Byte>, next: seq<Byte>, m: seq<Byte>, t: nat, f: nat, n: nat)
    requires n > 0 && t + n <= |m| && f + n <= |m| && Apart(t, f, n) && next == m[t := m[f]]
    requires Copied(now, next, t + 1, f + 1, n - 1)
    ensures Copied(now, m, t, f, n)
  {
    assert next[f + 1..f + n] == m[f + 1..f + n];
    assert m[f..f + n] == [m[f]] + m[f + 1..f + n];
  }

  lemma SameAsLoop(now: seq<Byte>, was: seq<Byte>, d: nat, s: nat, n: nat)
    requires d + n <= |was| && s + n <= |was| && Apart(d, s, n) && Copied(now, was, d, s, n)
    ensures now == ByteLoop(was, d, s, n)
  {
    ByteLoopCopies(was, d, s, n);
  }

  ghost predicate Apart(d: nat, s: nat, n: nat) { d + n <= s || s + n <= d || n == 0 }

  /** The first `k` bytes of a copy of n bytes are done. */
  ghost predicate Doing(now: seq<Byte>, was: seq<Byte>, d: nat, s: nat, n: nat, k: nat) {
    k <= n && d + n <= |was| && s + n <= |was| && Apart(d, s, n) && Copied(now, was, d, s, k)
  }

  /** The source is still what it was. */
  lemma SourceIntact(now: seq<Byte>, was: seq<Byte>, d: nat, s: nat, n: nat, k: nat)
    requires Doing(now, was, d, s, n, k)
    ensures |now| == |was| && forall a :: s <= a < s + n ==> now[a] == was[a]
  {
  }

  lemma SourceAt(now: seq<Byte>, was: seq<Byte>, d: nat, s: nat, n: nat, k: nat, i: nat)
    requires Doing(now, was, d, s, n, k) && i < n
    ensures |now| == |was| && s + n <= |was| && now[s + i] == was[s + i]
  {
    SourceIntact(now, was, d, s, n, k);
  }

  lemma Slice(now: seq<Byte>, was: seq<Byte>, d: nat, s: nat, n: nat, k: nat, lo: nat, hi: nat)
    requires Doing(now, was, d, s, n, k) && s <= lo <= hi <= s + n
    ensures |now| == |was| && now[lo..hi] == was[lo..hi]
  {
    SourceIntact(now, was, d, s, n, k);
  }

  lemma Bounds(now: seq<Byte>, was: seq<Byte>, d: nat, s: nat, n: nat, k: nat)
    requires Doing(now, was, d, s, n, k)
    ensures k <= n && |now| == |was| && d + n <= |was| && s + n <= |was|
  {
  }

  lemma Advance(now: seq<Byte>, mid: seq<Byte>, was: seq<Byte>, d: nat, s: nat, n: nat, k: nat, bytes: seq<Byte>)
    requires Doing(mid, was, d, s, n, k) && Stored(now, mid, d + k, bytes)
    requires k + |bytes| <= n && bytes == was[s + k..s + k + |bytes|]
    ensures Doing(now, was, d, s, n, k + |bytes|)
  {
    assert was[s..s + k] + bytes == was[s..s + k + |bytes|];
  }

  lemma Begin(was: seq<Byte>, d: nat, s: nat, n: nat)
    requires d + n <= |was| && s + n <= |was| && Apart(d, s, n)
    ensures Doing(was, was, d, s, n, 0)
  {
  }

  // ----- stores

  method Strb(mem: array<Byte>, a: nat, b: Byte)
    requires a < mem.Length
    modifies mem
    ensures Stored(mem[..], old(mem[..]), a, [b])
  {
    mem[a] := b;
  }

  method Str(mem: array<Byte>, a: nat, w: Reg)
    requires a + 4 <= mem.Length
    modifies mem
    ensures Stored(mem[..], old(mem[..]), a, Bytes(w))
  {
    mem[a], mem[a + 1], mem[a + 2], mem[a + 3] := w.b0, w.b1, w.b2, w.b3;
  }

  // ----- the simple cases

  /** The last bytes of the copy, those from index `r` on, are done. */
  ghost predicate DoneFrom(now: seq<Byte>, was: seq<Byte>, d: nat, s: nat, n: nat, r: nat) {
    r <= n && d + n <= |was| && s + n <= |was| && Apart(d, s, n) && Copied(now, was, d + r, s + r, n - r)
  }

  /** byte_at_a_time_no_pld: from the last byte to the first. */
  method ByteAtATime(mem: array<Byte>, dest: nat, src: nat, n: nat)
    requires n > 0 && dest + n <= mem.Length && src + n <= mem.Length && Apart(dest, src, n)
    modifies mem
    ensures Copied(mem[..], old(mem[..]), dest, src, n)
  {
    ghost var was := mem[..];
    var r2 := n;
    assert DoneFrom(mem[..], was, dest, src, n, n);
    AllDone(was, dest, src, n);
    hide Copied, DoneFrom, Apart;
    while true
      invariant 0 < r2 <= n && DoneFrom(mem[..], was, dest, src, n, r2)
      decreases r2
    {
      r2 := r2 - 1;
      CopyByteBefore(mem, was, dest, src, n, r2);
      if r2 == 0 { break; }
    }
  }

  lemma AllDone(was: seq<Byte>, d: nat, s: nat, n: nat)
    ensures forall now :: DoneFrom(now, was, d, s, n, 0) ==> Copied(now, was, d, s, n)
  {
  }

  method CopyByteBefore(mem: array<Byte>, ghost was: seq<Byte>, d: nat, s: nat, ghost n: nat, r2: nat)
    requires r2 < n && d + n <= mem.Length && s + n <= mem.Length && DoneFrom(mem[..], was, d, s, n, r2 + 1)
    modifies mem
    ensures DoneFrom(mem[..], was, d, s, n, r2)
  {
    ghost var mid := mem[..];
    SourceByte(mid, was, d, s, n, r2);
    hide DoneFrom, Stored;
    var r3 := mem[s + r2];
    Strb(mem, d + r2, r3);
    Before(mem[..], mid, was, d, s, n, r2);
  }

  lemma SourceByte(mid: seq<Byte>, was: seq<Byte>, d: nat, s: nat, n: nat, r: nat)
    requires r < n && DoneFrom(mid, was, d, s, n, r + 1)
    ensures |mid| == |was| && s + n <= |was| && mid[s + r] == was[s + r]
  {
  }

  lemma Before(now: seq<Byte>, mid: seq<Byte>, was: seq<Byte>, d: nat, s: nat, n: nat, r: nat)
    requires r < n && DoneFrom(mid, was, d, s, n, r + 1) && Stored(now, mid, d + r, [was[s + r]])
    ensures DoneFrom(now, was, d, s, n, r)
  {
    FrontOfSlice(was, s + r, s + n);
  }

  lemma FrontOfSlice(was: seq<Byte>, i: nat, j: nat)
    requires i < j <= |was|
    ensures was[i..j] == [was[i]] + was[i + 1..j]
  {
  }

  /** `strb b, [r0], #1` of byte `k` of the copy. */
  method PostStrb(mem: array<Byte>, ghost was: seq<Byte>, ghost d: nat, ghost s: nat, ghost n: nat, ghost k: nat,
                  r0: nat, b: Byte)
    returns (p: nat)
    requires k < n && r0 == d + k && Doing(mem[..], was, d, s, n, k) && b == was[s + k]
    modifies mem
    ensures p == r0 + 1 && Doing(mem[..], was, d, s, n, k + 1)
  {
    ghost var mid := mem[..];
    Bounds(mid, was, d, s, n, k);
    hide Doing, Stored;
    Strb(mem, r0, b);
    Advance(mem[..], mid, was, d, s, n, k, [b]);
    p := r0 + 1;
  }

  /** One byte or one word further. */
  method CopyByte(mem: array<Byte>, ghost was: seq<Byte>, d: nat, s: nat, ghost n: nat, k: nat)
    requires k < n && Doing(mem[..], was, d, s, n, k)
    modifies mem
    ensures Doing(mem[..], was, d, s, n, k + 1)
  {
    Bounds(mem[..], was, d, s, n, k);
    SourceIntact(mem[..], was, d, s, n, k);
    hide Doing;
    var r3 := mem[s + k];
    var r0 := PostStrb(mem, was, d, s, n, k, d + k, r3);
  }

  method CopyWord(mem: array<Byte>, ghost was: seq<Byte>, d: nat, s: nat, ghost n: nat, k: nat)
    requires k + 4 <= n && Doing(mem[..], was, d, s, n, k)
    modifies mem
    ensures Doing(mem[..], was, d, s, n, k + 4)
  {
    ghost var mid := mem[..];
    Bounds(mid, was, d, s, n, k);
    Slice(mid, was, d, s, n, k, s + k, s + k + 4);
    hide Doing, Stored, Bytes;
    var r3 := Ldr(mem[..], s + k);
    Str(mem, d + k, r3);
    Advance(mem[..], mid, was, d, s, n, k, Bytes(r3));
  }

  // ----- the long copies

  /** skip_byte_realignment's other branch: one to three bytes, first all loaded ... */
  method LoadHead(mem: array<Byte>, ghost was: seq<Byte>, ghost d: nat, s: nat, ghost n: nat, r4: nat)
    returns (r5: Byte, r6: Byte, r7: Byte)
    requires 1 <= r4 <= 3 && r4 <= n && Doing(mem[..], was, d, s, n, 0)
    ensures s + n <= |was| && r7 == was[s + r4 - 1]
    ensures (r4 >= 2 ==> r6 == was[s + r4 - 2]) && (r4 > 2 ==> r5 == was[s])
  {
    Bounds(mem[..], was, d, s, n, 0);
    SourceAt(mem[..], was, d, s, n, 0, 0);
    SourceAt(mem[..], was, d, s, n, 0, r4 - 1);
    if r4 >= 2 { SourceAt(mem[..], was, d, s, n, 0, r4 - 2); }
    hide Doing;
    var r1 := s;
    r5, r6 := 0, 0;
    if r4 > 2 { r5, r1 := mem[r1], r1 + 1; }
    if r4 >= 2 { r6, r1 := mem[r1], r1 + 1; }
    r7, r1 := mem[r1], r1 + 1;
  }

  /** ... then all stored, so that the destination is on a word boundary. */
  method Realign(mem: array<Byte>, ghost was: seq<Byte>, d: nat, s: nat, ghost n: nat, r4: nat)
    requires 1 <= r4 <= 3 && r4 <= n && Doing(mem[..], was, d, s, n, 0)
    modifies mem
    ensures Doing(mem[..], was, d, s, n, r4)
  {
    hide Doing;
    var r5, r6, r7 := LoadHead(mem, was, d, s, n, r4);
    var r0 := d;
    ghost var k := 0;
    if r4 > 2 {
      r0 := PostStrb(mem, was, d, s, n, k, r0, r5);
      k := k + 1;
    }
    if r4 >= 2 {
      r0 := PostStrb(mem, was, d, s, n, k, r0, r6);
      k := k + 1;
    }
    r0 := PostStrb(mem, was, d, s, n, k, r0, r7);
  }

  /** The next 32-byte boundary is a number of words away and lies inside the range. */
  predicate RoomToLine(d: nat, n: nat, k: nat) {
    (d + k) % 4 == 0 && ((d + k) % 32 != 0 ==> n - k > 32 - (d + k) % 32)
  }

  lemma RoomStep(d: nat, n: nat, k: nat)
    requires RoomToLine(d, n, k) && (d + k) % 32 != 0
    ensures k + 4 <= n && RoomToLine(d, n, k + 4)
  {
  }

  /** align_up: single words until the destination is on a 32-byte boundary. */
  method AlignUp(mem: array<Byte>, ghost was: seq<Byte>, d: nat, s: nat, n: nat, k0: nat) returns (k: nat)
    requires Doing(mem[..], was, d, s, n, k0) && (d + k0) % 4 == 0 && n - k0 >= 29
    modifies mem
    ensures k0 <= k <= n && Doing(mem[..], was, d, s, n, k) && (d + k) % 32 == 0
  {
    k := k0;
    assert RoomToLine(d, n, k);
    hide Doing, RoomToLine;
    while (d + k) % 32 != 0
      invariant k0 <= k <= n && Doing(mem[..], was, d, s, n, k) && RoomToLine(d, n, k)
      decreases n - k
    {
      RoomStep(d, n, k);
      CopyWord(mem, was, d, s, n, k);
      k := k + 4;
    }
  }

  /** ldmia of eight registers. */
  function Ldmia(m: seq<Byte>, a: nat): (ws: seq<Reg>)
    requires a + 32 <= |m|
    ensures |ws| == 8
  {
    seq(8, i requires 0 <= i < 8 => Ldr(m, a + 4 * i))
  }

  /** stmia, one register after the other. */
  method Stmia(mem: array<Byte>, ghost was: seq<Byte>, d: nat, ghost s: nat, ghost n: nat, k: nat, regs: seq<Reg>)
    requires Doing(mem[..], was, d, s, n, k) && k + 4 * |regs| <= n
    requires WordsOf(regs, was, s + k)
    modifies mem
    ensures Doing(mem[..], was, d, s, n, k + 4 * |regs|)
  {
    hide Doing, Stored, Bytes;
    for i := 0 to |regs|
      invariant Doing(mem[..], was, d, s, n, k + 4 * i)
    {
      ghost var mid := mem[..];
      Bounds(mid, was, d, s, n, k + 4 * i);
      Str(mem, d + k + 4 * i, regs[i]);
      Advance(mem[..], mid, was, d, s, n, k + 4 * i, Bytes(regs[i]));
    }
  }

  /** fast_loop: eight words at a time. */
  method FastLoop(mem: array<Byte>, ghost was: seq<Byte>, d: nat, s: nat, ghost n: nat, k0: nat, count: nat)
    requires count % 32 == 0 && k0 + count <= n && Doing(mem[..], was, d, s, n, k0)
    modifies mem
    ensures Doing(mem[..], was, d, s, n, k0 + count)
  {
    hide Doing, Stored;
    var k, r3 := k0, count;
    while r3 != 0
      invariant r3 >= 0 && r3 % 32 == 0 && k + r3 == k0 + count && Doing(mem[..], was, d, s, n, k)
      decreases r3
    {
      Bounds(mem[..], was, d, s, n, k);
      LdmiaBytes(mem[..], was, d, s, n, k, s + k);
      var regs := Ldmia(mem[..], s + k);
      r3 := r3 - 32;
      Stmia(mem, was, d, s, n, k, regs);
      k := k + 32;
    }
  }

  /** tail_fast_loop: single words. */
  method TailWords(mem: array<Byte>, ghost was: seq<Byte>, d: nat, s: nat, ghost n: nat, k0: nat, count: nat)
    requires count % 4 == 0 && k0 + count <= n && Doing(mem[..], was, d, s, n, k0)
    modifies mem
    ensures Doing(mem[..], was, d, s, n, k0 + count)
  {
    hide Doing, Stored;
    var k, r3 := k0, count;
    while r3 != 0
      invariant r3 >= 0 && r3 % 4 == 0 && k + r3 == k0 + count && Doing(mem[..], was, d, s, n, k)
      decreases r3
    {
      CopyWord(mem, was, d, s, n, k);
      r3, k := r3 - 4, k + 4;
    }
  }

  /** fast_loop and its tails, for a source on a word boundary. */
  method CopyAligned(mem: array<Byte>, ghost was: seq<Byte>, d: nat, s: nat, n: nat, k0: nat)
    requires k0 <= n && Doing(mem[..], was, d, s, n, k0)
    modifies mem
    ensures Doing(mem[..], was, d, s, n, n)
  {
    hide Doing;
    var k, r2 := k0, n - k0;
    var r3 := r2 - r2 % 32;
    r2 := r2 % 32;
    FastLoop(mem, was, d, s, n, k, r3);
    k := k + r3;
    r3 := r2 - r2 % 4;
    r2 := r2 % 4;
    TailWords(mem, was, d, s, n, k, r3);
    k := k + r3;
    while r2 != 0
      invariant r2 >= 0 && k + r2 == n && Doing(mem[..], was, d, s, n, k)
      decreases r2
    {
      CopyByte(mem, was, d, s, n, k);
      r2, k := r2 - 1, k + 1;
    }
  }

  /** The registers hold consecutive words of `was` from address `a` on. */
  ghost predicate WordsOf(regs: seq<Reg>, was: seq<Byte>, a: nat) {
    forall i :: 0 <= i < |regs| ==> WordAt(regs[i], was, a + 4 * i)
  }

  ghost predicate WordAt(w: Reg, was: seq<Byte>, a: nat) { a + 4 <= |was| && Bytes(w) == was[a..a + 4] }

  lemma LdmiaBytes(now: seq<Byte>, was: seq<Byte>, d: nat, s: nat, n: nat, k: nat, a: nat)
    requires Doing(now, was, d, s, n, k) && s <= a && a + 32 <= s + n
    ensures |now| == |was| && a + 32 <= |was| && WordsOf(Ldmia(now, a), was, a)
  {
    forall i | 0 <= i < 8 ensures WordAt(Ldmia(now, a)[i], was, a + 4 * i) {
      Slice(now, was, d, s, n, k, a + 4 * i, a + 4 * i + 4);
    }
  }

  // ----- a source off the word boundary

  /** The bytes of `w`, loaded from address `a`, are those of the source as far as they belong to it. */
  ghost predicate Holds(w: Reg, was: seq<Byte>, a: nat, s: nat, n: nat) {
    s + n <= |was| && forall j :: 0 <= j < 4 && s <= a + j < s + n ==> ByteOf(w, j) == was[a + j]
  }

  lemma LoadHolds(now: seq<Byte>, was: seq<Byte>, d: nat, s: nat, n: nat, k: nat, a: nat)
    requires Doing(now, was, d, s, n, k) && a + 4 <= |now|
    ensures Holds(Ldr(now, a), was, a, s, n)
  {
    SourceIntact(now, was, d, s, n, k);
  }

  /** `lsr` of one word, `orr` with the `lsl` of the next: four bytes from the middle of both. */
  function Merge(v: Reg, w: Reg, m: nat): Reg
    requires m <= 4
  {
    Orr(LsrBytes(v, m), LslBytes(w, 4 - m))
  }

  lemma MergeCases(v: Reg, w: Reg)
    ensures Merge(v, w, 1) == Reg(v.b1, v.b2, v.b3, w.b0)
    ensures Merge(v, w, 2) == Reg(v.b2, v.b3, w.b0, w.b1)
    ensures Merge(v, w, 3) == Reg(v.b3, w.b0, w.b1, w.b2)
  {
    hide OrByte;
    OrZero(v.b1);
    OrZero(v.b2);
    OrZero(v.b3);
    OrZero(w.b0);
    OrZero(w.b1);
    OrZero(w.b2);
  }

  lemma MergeBytes(v: Reg, w: Reg, was: seq<Byte>, a: nat, m: nat, s: nat, n: nat)
    requires 1 <= m <= 3 && Holds(v, was, a, s, n) && Holds(w, was, a + 4, s, n)
    requires s <= a + m && a + m + 4 <= s + n
    ensures Bytes(Merge(v, w, m)) == was[a + m..a + m + 4]
  {
    MergeCases(v, w);
    hide Merge;
    HeldByte(v, was, a, s, n, 1);
    HeldByte(v, was, a, s, n, 2);
    HeldByte(v, was, a, s, n, 3);
    HeldByte(w, was, a + 4, s, n, 0);
    HeldByte(w, was, a + 4, s, n, 1);
    HeldByte(w, was, a + 4, s, n, 2);
    hide Holds, ByteOf;
  }

  lemma HeldByte(w: Reg, was: seq<Byte>, a: nat, s: nat, n: nat, j: nat)
    requires j < 4 && Holds(w, was, a, s, n)
    ensures s <= a + j < s + n ==> Bytes(w)[j] == was[a + j]
  {
    assert Bytes(w)[j] == ByteOf(w, j);
  }

  /** The eight merged words of one pass, from the word before and eight new ones. */
  function MergeAll(v: Reg, ws: seq<Reg>, m: nat): (rs: seq<Reg>)
    requires m <= 4
    ensures |rs| == |ws|
  {
    seq(|ws|, i requires 0 <= i < |ws| => Merge(if i == 0 then v else ws[i - 1], ws[i], m))
  }

  lemma MergeAllBytes(v: Reg, now: seq<Byte>, was: seq<Byte>, d: nat, s: nat, n: nat, k: nat, a: nat, m: nat)
    requires 1 <= m <= 3 && Doing(now, was, d, s, n, k) && Holds(v, was, a, s, n)
    requires s <= a + m && a + m + 32 <= s + n && a + 36 <= |now|
    ensures WordsOf(MergeAll(v, Ldmia(now, a + 4), m), was, a + m)
    ensures Holds(Ldmia(now, a + 4)[7], was, a + 32, s, n)
  {
    Bounds(now, was, d, s, n, k);
    hide Doing, Holds, Merge, WordAt;
    forall i | 0 <= i < 8 ensures WordAt(MergeAll(v, Ldmia(now, a + 4), m)[i], was, a + m + 4 * i) {
      MergeOne(v, now, was, d, s, n, k, a, m, i, a + 4 * i);
    }
    LoadHolds(now, was, d, s, n, k, a + 32);
  }

  lemma MergeOne(v: Reg, now: seq<Byte>, was: seq<Byte>, d: nat, s: nat, n: nat, k: nat, a: nat, m: nat, i: nat, b: nat)
    requires 1 <= m <= 3 && Doing(now, was, d, s, n, k) && Holds(v, was, a, s, n)
    requires s <= a + m && a + m + 32 <= s + n && a + 36 <= |now| && i < 8 && b == a + 4 * i
    ensures WordAt(MergeAll(v, Ldmia(now, a + 4), m)[i], was, b + m)
  {
    hide Doing, Holds, Merge;
    if i > 0 { LoadHolds(now, was, d, s, n, k, b); }
    LoadHolds(now, was, d, s, n, k, b + 4);
    MergeBytes(if i == 0 then v else Ldr(now, b), Ldr(now, b + 4), was, b, m, s, n);
  }

  /** The registers of the merging loop: `k` bytes are copied, r11 was loaded from address `a`. */
  ghost predicate Merging(now: seq<Byte>, was: seq<Byte>, d: nat, s: nat, n: nat, k: nat, m: nat, a: nat, r11: Reg) {
    a + m == s + k && OnWord(a) && OnWord(|now|) && Holds(r11, was, a, s, n) && Doing(now, was, d, s, n, k)
  }

  /** misaligned_1, misaligned_2 and misaligned_3 up to the last pass of 32 bytes; the three differ
      only in the shift.  The last word loaded stays in r11, and r1 is behind it. */
  method MergeLoop(mem: array<Byte>, ghost was: seq<Byte>, d: nat, s: nat, n: nat, k0: nat, m: nat)
    returns (k: nat, r1: nat, r11: Reg)
    requires 1 <= m <= 3 && k0 < n && m <= s + k0 && OnWord(s + k0 - m) && OnWord(mem.Length)
    requires Doing(mem[..], was, d, s, n, k0)
    modifies mem
    ensures k0 <= k <= n < k + 32 && r1 == s + k - m + 4 && m <= s + k
    ensures Merging(mem[..], was, d, s, n, k, m, s + k - m, r11)
  {
    k := k0;
    var a: nat := s + k - m;
    Bounds(mem[..], was, d, s, n, k);
    InsideWord(a, mem.Length);
    LoadHolds(mem[..], was, d, s, n, k, a);
    hide Doing, Holds, OnWord;
    r11 := Ldr(mem[..], a);
    assert Merging(mem[..], was, d, s, n, k, m, a, r11);
    hide Merging;
    while n - k >= 32
      invariant k0 <= k <= n && a + m == s + k && Merging(mem[..], was, d, s, n, k, m, a, r11)
      decreases n - k
    {
      r11 := MergePass(mem, was, d, s, n, k, m, a, r11);
      k, a := k + 32, a + 32;
    }
    r1 := a + 4;
  }

  /** One pass: load eight words, shift and merge them, store eight words. */
  method MergePass(mem: array<Byte>, ghost was: seq<Byte>, d: nat, s: nat, ghost n: nat, k: nat, m: nat,
                   a: nat, r11: Reg)
    returns (last: Reg)
    requires 1 <= m <= 3 && k + 32 <= n && Merging(mem[..], was, d, s, n, k, m, a, r11)
    modifies mem
    ensures Merging(mem[..], was, d, s, n, k + 32, m, a + 32, last)
  {
    Bounds(mem[..], was, d, s, n, k);
    WordSteps(a);
    InsideWord(a + 32, mem.Length);
    hide Doing, Holds, Merge, WordsOf, OnWord;
    MergeAllBytes(r11, mem[..], was, d, s, n, k, a, m);
    var ws := Ldmia(mem[..], a + 4);
    var regs := MergeAll(r11, ws, m);
    last := ws[7];
    assert a + m == s + k;
    Stmia(mem, was, d, s, n, k, regs);
  }

  ghost predicate OnWord(a: int) { a % 4 == 0 }

  lemma WordSteps(a: nat)
    ensures OnWord(a) ==> OnWord(a + 4) && OnWord(a + 32)
  {
  }

  /** A word whose address is aligned and inside memory is all inside. */
  lemma InsideWord(a: nat, length: nat)
    requires OnWord(a) && OnWord(length) && a < length
    ensures a + 4 <= length
  {
  }

  /** The low `count` bytes of `w` are the next bytes of the source, as far as they belong to it. */
  ghost predicate Next(w: Reg, count: nat, was: seq<Byte>, a: nat, s: nat, n: nat) {
    s + n <= |was| && count <= 4 && forall j :: 0 <= j < count && s <= a + j < s + n ==> ByteOf(w, j) == was[a + j]
  }

  lemma HoldsNext(w: Reg, was: seq<Byte>, a: nat, s: nat, n: nat, m: nat)
    requires Holds(w, was, a, s, n) && m <= 4
    ensures Next(LsrBytes(w, m), 4 - m, was, a + m, s, n)
  {
    forall j | 0 <= j < 4 - m && s <= a + m + j < s + n ensures ByteOf(LsrBytes(w, m), j) == was[a + m + j] {
      assert ByteOf(w, m + j) == was[a + (m + j)];
    }
  }

  lemma NextShifted(w: Reg, count: nat, was: seq<Byte>, a: nat, s: nat, n: nat)
    requires 0 < count && Next(w, count, was, a, s, n)
    ensures s <= a < s + n ==> w.b0 == was[a]
    ensures Next(LsrBytes(w, 1), count - 1, was, a + 1, s, n)
  {
    assert s <= a + 0 < s + n ==> ByteOf(w, 0) == was[a + 0];
    forall j | 0 <= j < count - 1 && s <= a + 1 + j < s + n ensures ByteOf(LsrBytes(w, 1), j) == was[a + 1 + j] {
      assert ByteOf(w, j + 1) == was[a + (j + 1)];
    }
  }

  lemma Refill(now: seq<Byte>, was: seq<Byte>, d: nat, s: nat, n: nat, k: nat, a: nat)
    requires Doing(now, was, d, s, n, k) && OnWord(a) && OnWord(|now|) && a < |now|
    ensures a + 4 <= |now| && Next(Ldr(now, a), 4, was, a, s, n)
  {
    InsideWord(a, |now|);
    LoadHolds(now, was, d, s, n, k, a);
  }

  /** The registers of the last loop: `k` bytes are copied, r3 more wait in r11. */
  ghost predicate Rest(now: seq<Byte>, was: seq<Byte>, d: nat, s: nat, n: nat, k: nat,
                       r0: nat, r1: nat, r3: nat, r11: Reg) {
    && r0 == d + k && r1 == s + k + r3 && OnWord(r1) && OnWord(|now|)
    && Next(r11, r3, was, s + k, s, n) && Doing(now, was, d, s, n, k)
  }

  /** post_misalignment: byte by byte. */
  method PostMisalignment(mem: array<Byte>, ghost was: seq<Byte>, d: nat, ghost s: nat, n: nat, k0: nat, m: nat,
                          a: nat, w: Reg)
    requires 1 <= m <= 3 && k0 < n && a == s + k0 - m + 4 && OnWord(a) && OnWord(mem.Length)
    requires Holds(w, was, s + k0 - m, s, n) && Doing(mem[..], was, d, s, n, k0)
    modifies mem
    ensures Doing(mem[..], was, d, s, n, n)
  {
    HoldsNext(w, was, s + k0 - m, s, n, m);
    var r1: nat, r3: nat, r11, r0: nat := a, 4 - m, LsrBytes(w, m), d + k0;
    ghost var k := k0;
    hide Doing, Holds, Next, LsrBytes, OnWord;
    assert Rest(mem[..], was, d, s, n, k, r0, r1, r3, r11);
    hide Rest;
    while r0 != d + n
      invariant k0 <= k <= n && r0 == d + k && Rest(mem[..], was, d, s, n, k, r0, r1, r3, r11)
      decreases n - k
    {
      r0, r1, r3, r11 := RestByte(mem, was, d, s, n, k, r0, r1, r3, r11);
      k := k + 1;
    }
    assert Doing(mem[..], was, d, s, n, n) by { RestDone(mem[..], was, d, s, n, k, r0, r1, r3, r11); }
  }

  lemma RestDone(now: seq<Byte>, was: seq<Byte>, d: nat, s: nat, n: nat, k: nat, r0: nat, r1: nat, r3: nat, r11: Reg)
    requires Rest(now, was, d, s, n, k, r0, r1, r3, r11)
    ensures Doing(now, was, d, s, n, k)
  {
  }

  /** One byte, after loading a new word if the register is used up. */
  method RestByte(mem: array<Byte>, ghost was: seq<Byte>, ghost d: nat, ghost s: nat, ghost n: nat, ghost k: nat,
                  r0: nat, r1: nat, r3: nat, r11: Reg)
    returns (p0: nat, p1: nat, p3: nat, p11: Reg)
    requires k < n && Rest(mem[..], was, d, s, n, k, r0, r1, r3, r11)
    modifies mem
    ensures p0 == d + (k + 1) && Rest(mem[..], was, d, s, n, k + 1, p0, p1, p3, p11)
  {
    p1, p3, p11 := r1, r3, r11;
    Bounds(mem[..], was, d, s, n, k);
    hide Doing, Next, LsrBytes, OnWord, Ldr;
    if p3 == 0 {
      Refill(mem[..], was, d, s, n, k, p1);
      p11 := Ldr(mem[..], p1);
      WordSteps(p1);
      p1, p3 := p1 + 4, 4;
    }
    NextShifted(p11, p3, was, s + k, s, n);
    p0 := PostStrb(mem, was, d, s, n, k, r0, p11.b0);
    p3, p11 := p3 - 1, LsrBytes(p11, 1);
  }

  /** The part of asm_memcpy for 32 bytes and more. */
  method CopyLong(mem: array<Byte>, ghost was: seq<Byte>, dest: nat, src: nat, n: nat)
    requires n >= 32 && Doing(mem[..], was, dest, src, n, 0) && OnWord(mem.Length)
    modifies mem
    ensures Doing(mem[..], was, dest, src, n, n)
  {
    hide Doing, Holds;
    var k := 0;
    var r3 := dest % 4;
    if r3 != 0 {
      Realign(mem, was, dest, src, n, 4 - r3);
      k := 4 - r3;
    }
    assert (dest + k) % 4 == 0;
    var m := (src + k) % 4;
    if m == 0 {
      k := AlignUp(mem, was, dest, src, n, k);
      CopyAligned(mem, was, dest, src, n, k);
    } else {
      CopyMisaligned(mem, was, dest, src, n, k, m);
    }
  }

  method CopyMisaligned(mem: array<Byte>, ghost was: seq<Byte>, d: nat, s: nat, n: nat, k0: nat, m: nat)
    requires 1 <= m <= 3 && k0 < n && m <= s + k0 && OnWord(s + k0 - m) && OnWord(mem.Length)
    requires Doing(mem[..], was, d, s, n, k0)
    modifies mem
    ensures Doing(mem[..], was, d, s, n, n)
  {
    hide Doing, Holds;
    var k, r1, r11 := MergeLoop(mem, was, d, s, n, k0, m);
    if k < n {
      PostMisalignment(mem, was, d, s, n, k, m, r1, r11);
    }
  }

  /** asm_memcpy: for every length and every alignment of the two ranges exactly the n bytes at
      `dest` change, to what the n bytes at `src` were.  Memory is a whole number of words. */
  method AsmMemcpy(mem: array<Byte>, dest: nat, src: nat, n: U32)
    requires dest + n <= mem.Length && src + n <= mem.Length && OnWord(mem.Length) && Apart(dest, src, n)
    modifies mem
    ensures mem[..] == ByteLoop(old(mem[..]), dest, src, n)
    ensures Copied(mem[..], old(mem[..]), dest, src, n)
  {
    ghost var was := mem[..];
    Begin(was, dest, src, n);
    hide Doing, Copied, ByteLoop, Apart;
    if n == 0 {
    } else if n == 4 {
      CopyWord(mem, was, dest, src, n, 0);
    } else if n == 8 {
      CopyWord(mem, was, dest, src, n, 0);
      CopyWord(mem, was, dest, src, n, 4);
    } else if n < 32 || n >= 0x8000_0000 {
      // `blt` compares signed: lengths from 2^31 up go byte by byte as well
      ByteAtATime(mem, dest, src, n);
      SameAsLoop(mem[..], was, dest, src, n);
      return;
    } else {
      CopyLong(mem, was, dest, src, n);
    }
    Finished(mem[..], was, dest, src, n);
    SameAsLoop(mem[..], was, dest, src, n);
  }

  lemma Finished(now: seq<Byte>, was: seq<Byte>, d: nat, s: nat, n: nat)
    requires Doing(now, was, d, s, n, n)
    ensures Copied(now, was, d, s, n)
  {
  }
}

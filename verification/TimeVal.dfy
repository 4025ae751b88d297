/** Time arithmetic of timer.device: timer_CmpTime, timer_AddTime and timer_SubTime
    (timerfuncs.c) and FastAddTime (_timerirq.c), on 32-bit seconds and microseconds. */
module TimeVals {
  import opened Words

  const MICROS := 1_000_000

  datatype Time = Time(secs: U32, micro: U32)

  function Micros(t: Time): nat { t.secs * MICROS + t.micro }

  ghost predicate Normal(t: Time) { t.micro < MICROS }

  // ----- what the operations compute

  /** The low 32 bits. */
  function Word(n: int): U32 { n % TWO32 }

  lemma WordCases(n: int)
    requires -2 * TWO32 <= n < 2 * TWO32
    ensures Word(n) == if n < -TWO32 then n + 2 * TWO32 else if n < 0 then n + TWO32
                       else if n < TWO32 then n else n - TWO32
  {
  }

  /** Seconds wrap around at 2^32, and so does the sum of the microseconds. */
  function Carried(secs: nat, micro: nat): (t: Time)
    ensures Normal(t)
  {
    Time(Word(secs + micro / MICROS), micro % MICROS)
  }

  function Sum(x: Time, y: Time): (t: Time)
    ensures Normal(t)
  {
    Carried(x.secs + y.secs, Word(x.micro + y.micro))
  }

  /** `dest - src`, both normalised first. */
  function Difference(src: Time, dest: Time): Time {
    var s, d := Carried(src.secs, src.micro), Carried(dest.secs, dest.micro);
    if d.micro < s.micro then Time(Word(d.secs - 1 - s.secs), d.micro + MICROS - s.micro)
    else Time(Word(d.secs - s.secs), d.micro - s.micro)
  }

  function Int32(w: int): int { if Word(w) < 0x8000_0000 then Word(w) else Word(w) - TWO32 }

  function Sign(x: int): int { if x < 0 then -1 else if x > 0 then 1 else 0 }

  /** timer_CmpTime: the difference is taken in a signed 32-bit integer. */
  function CmpTime(src: Time, dest: Time): int {
    Sign(if dest.secs == src.secs then Int32(src.micro - dest.micro) else Int32(src.secs - dest.secs))
  }

  // ----- what that means

  /** The sum is exact when neither the microseconds nor the seconds run over 32 bits. */
  ghost predicate SumFits(x: Time, y: Time) {
    x.micro + y.micro < TWO32 && x.secs + y.secs + (x.micro + y.micro) / MICROS < TWO32
  }

  lemma CarriedValue(secs: nat, micro: nat)
    ensures Micros(Carried(secs, micro)) == secs * MICROS + micro - (secs + micro / MICROS) / TWO32 * TWO32 * MICROS
  {
    assert micro == micro / MICROS * MICROS + micro % MICROS;
    var n := secs + micro / MICROS;
    assert n == n / TWO32 * TWO32 + n % TWO32;
  }

  /** AddTime always normalises; it preserves the total exactly when nothing overflows. */
  lemma SumExact(x: Time, y: Time)
    ensures Micros(Sum(x, y)) == Micros(x) + Micros(y) <==> SumFits(x, y)
  {
    var m := Word(x.micro + y.micro);
    CarriedValue(x.secs + y.secs, m);
    var over := (x.secs + y.secs + m / MICROS) / TWO32;
    assert x.micro + y.micro == m || x.micro + y.micro == m + TWO32;
    assert over == 0 <==> x.secs + y.secs + m / MICROS < TWO32;
  }

  /** On normalised times SubTime undoes AddTime, even when the seconds have wrapped. */
  lemma SubtractUndoesAdd(x: Time, y: Time)
    requires Normal(x) && Normal(y)
    ensures Difference(x, Sum(x, y)) == y
  {
    var n := x.secs + y.secs;
    SumNormal(x, y);
    CarriedNormal(x);
    CarriedNormal(Sum(x, y));
    hide Carried, Word, Sum;
    WordCases(n);
    WordCases(n + 1);
    WordCases(Word(n + 1) - 1 - x.secs);
    WordCases(Word(n) - x.secs);
  }

  lemma CarriedNormal(x: Time)
    requires Normal(x)
    ensures Carried(x.secs, x.micro) == x
  {
  }

  lemma SumNormal(x: Time, y: Time)
    requires Normal(x) && Normal(y)
    ensures Sum(x, y) == if x.micro + y.micro >= MICROS
                         then Time(Word(x.secs + y.secs + 1), x.micro + y.micro - MICROS)
                         else Time(Word(x.secs + y.secs), x.micro + y.micro)
  {
    var m := x.micro + y.micro;
    CarriedOnce(x.secs + y.secs, m);
    hide Carried;
  }

  lemma CarriedOnce(secs: nat, micro: nat)
    requires micro < 2 * MICROS
    ensures Carried(secs, micro) == if micro >= MICROS then Time(Word(secs + 1), micro - MICROS)
                                    else Time(Word(secs), micro)
  {
    hide Word;
  }

  lemma CompareNormal(x: Time, y: Time)
    requires Normal(x) && Normal(y)
    ensures Sign(Micros(x) - Micros(y)) == if x.secs == y.secs then Sign(x.micro - y.micro) else Sign(x.secs - y.secs)
  {
    if x.secs < y.secs { assert (y.secs - x.secs - 1) * MICROS >= 0; }
    if x.secs > y.secs { assert (x.secs - y.secs - 1) * MICROS >= 0; }
  }

  /** CmpTime orders normalised times correctly exactly if they are less than 2^31 seconds apart
      (or just 2^31 in the negative direction). */
  lemma CompareExact(x: Time, y: Time)
    requires Normal(x) && Normal(y)
    ensures CmpTime(x, y) == Sign(Micros(x) - Micros(y)) <==> -0x8000_0000 <= x.secs - y.secs < 0x8000_0000
  {
    CompareNormal(x, y);
  }

  // ----- how it is computed

  class TimeVal {
    var secs: U32
    var micro: U32

    function Value(): Time
      reads this
    {
      Time(secs, micro)
    }

    constructor (secs: U32, micro: U32)
      ensures Value() == Time(secs, micro)
    {
      this.secs, this.micro := secs, micro;
    }

    /** The loop that carries microseconds over into seconds. */
    method Normalise()
      modifies this
      ensures Value() == old(Carried(secs, micro))
    {
      while micro > 999999
        invariant Carried(secs, micro) == old(Carried(secs, micro))
        decreases micro
      {
        CarryOne(secs, micro);
        secs := Word(secs + 1);
        micro := micro - 1000000;
      }
      assert Carried(secs, micro) == Value();
    }
  }

  lemma CarryOne(secs: U32, micro: U32)
    requires micro >= MICROS
    ensures Carried(Word(secs + 1), micro - MICROS) == Carried(secs, micro)
  {
    assert micro == (micro - MICROS) + MICROS;
    assert (micro - MICROS) / MICROS == micro / MICROS - 1 && (micro - MICROS) % MICROS == micro % MICROS;
  }

  /** timer_AddTime. */
  method AddTime(src: TimeVal, dst: TimeVal)
    modifies dst
    ensures dst.Value() == old(Sum(src.Value(), dst.Value()))
  {
    ghost var x, y := src.Value(), dst.Value();
    dst.micro := Word(dst.micro + src.micro);
    dst.secs := Word(dst.secs + src.secs);
    CarriedWraps(x.secs + y.secs, dst.micro);
    dst.Normalise();
  }

  lemma CarriedWraps(secs: nat, micro: nat)
    ensures Carried(Word(secs), micro) == Carried(secs, micro)
  {
  }

  /** timer_SubTime: normalises both arguments before it subtracts. */
  method SubTime(src: TimeVal, dest: TimeVal)
    modifies src, dest
    ensures src != dest ==> src.Value() == old(Carried(src.secs, src.micro))
    ensures dest.Value() == old(Difference(src.Value(), dest.Value()))
  {
    CarriedNormal(Carried(src.secs, src.micro));
    src.Normalise();
    dest.Normalise();
    hide Carried, Word;
    ghost var d: int, x: int := dest.secs, src.secs;
    if dest.micro < src.micro {
      dest.micro := dest.micro + 1000000;
      dest.secs := Word(dest.secs - 1);
      WordTwice(d - 1, x);
    }
    dest.micro := dest.micro - src.micro;
    dest.secs := Word(dest.secs - src.secs);
  }

  lemma WordTwice(n: int, x: int)
    ensures Word(Word(n) - x) == Word(n - x) && Word(Word(n) + x) == Word(n + x)
  {
  }

  /** The FastAddTime macro carries at most once. */
  method FastAddTime(d: TimeVal, s: TimeVal)
    requires Normal(d.Value()) && Normal(s.Value())
    modifies d
    ensures d.Value() == old(Sum(s.Value(), d.Value()))
  {
    SumNormal(s.Value(), d.Value());
    WordTwice(d.secs + s.secs, 1);
    hide Word, Sum;
    d.micro := d.micro + s.micro;
    d.secs := Word(d.secs + s.secs);
    if d.micro > 999999 {
      d.secs := Word(d.secs + 1);
      d.micro := d.micro - 1000000;
    }
  }
}

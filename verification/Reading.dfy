/** What the strtoul family reads, on the characters, and decimal text read with base 0. */
module Reading {
  import opened Words
  import opened Div64
  import opened Digits
  import opened Format
  import opened Parse
  import opened RoundTrip

  // ----- the digits that are read

  predicate DigitIn(c: char, base: nat) { IsXDigit(c) && DigitValue(c) < base }

  ghost predicate AllDigits(t: string, base: nat) { forall i :: 0 <= i < |t| ==> DigitIn(t[i], base) }

  function ValuesIn(t: string): (ds: seq<nat>)
    ensures |ds| == |t|
  {
    seq(|t|, i requires 0 <= i < |t| => if IsXDigit(t[i]) then DigitValue(t[i]) else 0)
  }

  /** Characters `from` to `end - 1` are all the digits in this base that stand there, and `v` is their
      value. */
  ghost predicate MaximalRun(s: string, from: nat, end: nat, base: nat, v: nat) {
    && from <= end <= |s|
    && AllDigits(s[from..end], base)
    && (end < |s| ==> !DigitIn(s[end], base))
    && v == Horner(ValuesIn(s[from..end]), base)
  }

  lemma {:induction false} AcceptedRun(s: string, k: nat, base: nat)
    requires k <= |s|
    ensures var e := k + |Accepted(s, k, base)|;
            && e <= |s| && AllDigits(s[k..e], base) && (e < |s| ==> !DigitIn(s[e], base))
            && ValuesIn(s[k..e]) == Accepted(s, k, base)
    decreases |s| - k
  {
    if k < |s| && IsDigitOf(s, k, base) {
      AcceptedRun(s, k + 1, base);
      AcceptedStep(s, k, base);
      var e := k + |Accepted(s, k, base)|;
      hide *;
      OneMore(s[k], s[k + 1..e], base);
      assert s[k..e] == [s[k]] + s[k + 1..e];
      DigitHere(s, k, base);
    } else {
      AcceptedNone(s, k, base);
    }
  }

  lemma AcceptedNone(s: string, k: nat, base: nat)
    requires k <= |s| && (k < |s| ==> !IsDigitOf(s, k, base))
    ensures Accepted(s, k, base) == [] && (k < |s| ==> !DigitIn(s[k], base))
    ensures AllDigits(s[k..k], base) && ValuesIn(s[k..k]) == []
  {
  }

  lemma DigitHere(s: string, k: nat, base: nat)
    requires k < |s| && IsDigitOf(s, k, base)
    ensures IsXDigit(s[k]) && DigitIn(s[k], base)
  {
  }

  lemma OneMore(c: char, t: string, base: nat)
    ensures DigitIn(c, base) && AllDigits(t, base) ==> AllDigits([c] + t, base)
    ensures IsXDigit(c) ==> ValuesIn([c] + t) == [DigitValue(c)] + ValuesIn(t)
  {
  }

  /** The end pointer stands behind a maximal run of digits, and the result is its value.  The run
      begins at the start of the text, or behind "0x" if a hexadecimal digit follows; it is read in base
      16 then, in the base asked for otherwise, and with base 0 in base 8 or 10 as the first character
      is a zero or not. */
  lemma ReadsMaximalRun(s: string, base: nat)
    ensures var e, v := EndOf(s, base), Parsed(s, base);
            if |s| >= 3 && s[..2] == "0x" && IsXDigit(s[2]) then e >= 3 && MaximalRun(s, 2, e, 16, v)
            else if base != 0 then MaximalRun(s, 0, e, base, v)
            else if |s| >= 1 && s[0] == '0' then MaximalRun(s, 0, e, 8, v)
            else MaximalRun(s, 0, e, 10, v)
  {
    assert |s| >= 3 ==> (s[..2] == "0x" <==> s[0] == '0' && s[1] == 'x');
    var k, radix := Start(s), BaseFor(s, base);
    AcceptedRun(s, k, radix);
    if k == 1 {
      hide Horner, ValuesIn, AllDigits;
      SkippedZero(s, EndOf(s, base), radix, Parsed(s, base));
    }
  }

  lemma SkippedZero(s: string, e: nat, base: nat, v: nat)
    requires |s| >= 1 && s[0] == '0' && base >= 1 && MaximalRun(s, 1, e, base, v)
    ensures MaximalRun(s, 0, e, base, v)
  {
    assert s[0..e] == ['0'] + s[1..e];
    OneMore('0', s[1..e], base);
    assert ValuesIn(s[0..e])[1..] == ValuesIn(s[1..e]);
    hide Horner;
    LeadingZero(ValuesIn(s[0..e]), base);
  }

  // ----- decimal text and base 0

  /** The digits in front of the first one that base `base` does not have. */
  function RunBelow(ms: seq<nat>, base: nat): seq<nat> {
    if ms == [] || ms[0] >= base then [] else [ms[0]] + RunBelow(ms[1..], base)
  }

  lemma {:induction false} SpelledRun(s: string, k: nat, ms: seq<nat>, small: bool, base: nat)
    requires Spells(s, k, ms, small)
    ensures Accepted(s, k, base) == RunBelow(ms, base)
    decreases |ms|
  {
    if ms != [] {
      SpellsTail(s, k, ms, small);
      DigitCharReads(ms[0], small);
      SpelledRun(s, k + 1, ms[1..], small, base);
    }
  }

  lemma {:induction false} RunAppend(ms: seq<nat>, d: nat, base: nat)
    ensures RunBelow(ms + [d], base)
         == if RunBelow(ms, base) == ms && d < base then ms + [d] else RunBelow(ms, base)
  {
    if ms == [] {
    } else {
      RunAppend(ms[1..], d, base);
      assert (ms + [d])[1..] == ms[1..] + [d];
    }
  }

  /** Read in base 8, decimal digits mean less, unless the number is below 8. */
  lemma {:induction false} OctalIsLess(ms: seq<nat>)
    requires DigitsBelow(ms, 10)
    ensures var r, v := Horner(RunBelow(ms, 8), 8), Horner(ms, 10);
            && r <= v && (r == v <==> v < 8) && (RunBelow(ms, 8) != ms ==> v >= 8)
    decreases |ms|
  {
    if ms != [] {
      var init, d := ms[..|ms| - 1], ms[|ms| - 1];
      assert ms == init + [d];
      OctalIsLess(init);
      RunAppend(init, d, 8);
      hide *;
      HornerStep(init, d, 10);
      HornerStep(init, d, 8);
    } else {
      assert Horner([], 8) == 0 && Horner([], 10) == 0;
    }
  }

  /** A leading zero makes base 0 octal. */
  lemma DecimalReads(s: string, ms: seq<nat>, small: bool)
    requires Spells(s, 0, ms, small) && DigitsBelow(ms, 10) && ms != []
    ensures Parsed(s, 0) == if ms[0] == 0 then Horner(RunBelow(ms, 8), 8) else Horner(ms, 10)
  {
    NoHexPrefix(s, ms, small);
    SpellsTail(s, 0, ms, small);
    DigitCharReads(ms[0], small);
    hide Horner;
    if ms[0] == 0 {
      SpelledRun(s, 1, ms[1..], small, 8);
      assert RunBelow(ms, 8)[1..] == RunBelow(ms[1..], 8);
      LeadingZero(RunBelow(ms, 8), 8);
    } else {
      SpelledDigitsAccepted(s, 0, ms, small, 10);
    }
  }

  /** Padding or precision put zeros in front of the digits. */
  ghost predicate ZeroFilled(num: U64, base: Base, size: int, precision: int, f: Flags) {
    || (f.zeroPad && !f.left && Padding(num, base, size, precision, f) > 0)
    || precision > |DigitsOf(Magnitude(num, f), base)|
  }

  lemma FirstIsZero(num: U64, base: Base, size: int, precision: int, f: Flags)
    ensures FieldDigits(num, base, size, precision, f) != []
    ensures FieldDigits(num, base, size, precision, f)[0] == 0
       <==> Magnitude(num, f) == 0 || ZeroFilled(num, base, size, precision, f)
  {
    var ds := DigitsOf(Magnitude(num, f), base);
    if Magnitude(num, f) > 0 { LeadingDigit(Magnitude(num, f), base); }
    hide Magnitude, Padding;
  }

  /** What is read of decimal text that starts at its digits. */
  lemma DigitsParsed(s: string, num: U64, size: int, precision: int, f: Flags)
    requires Spells(s, 0, FieldDigits(num, 10, size, precision, f), f.small)
    ensures Parsed(s, 0) <= Magnitude(num, f)
    ensures Parsed(s, 0) == Magnitude(num, f)
       <==> Magnitude(num, f) < 8 || !ZeroFilled(num, 10, size, precision, f)
  {
    hide *;
    var ms := FieldDigits(num, 10, size, precision, f);
    FieldValue(num, 10, size, precision, f);
    FirstIsZero(num, 10, size, precision, f);
    DecimalReads(s, ms, f.small);
    OctalIsLess(ms);
  }

  lemma DecimalParsed(num: U64, size: int, precision: int, f: Flags)
    requires SignText(num, f) == ""
    ensures var p, m := Parsed(Field(num, 10, size, precision, f), 0), Magnitude(num, f);
            if Blanked(num, 10, size, precision, f) then p == 0
            else p <= m && (p == m <==> m < 8 || !ZeroFilled(num, 10, size, precision, f))
  {
    NoPrefix(f);
    hide *;
    if Blanked(num, 10, size, precision, f) {
      BlankedReads(num, 10, size, precision, f, 0);
    } else {
      FieldSpells(num, 10, size, precision, f);
      DigitsParsed(Field(num, 10, size, precision, f), num, size, precision, f);
    }
  }

  lemma NoPrefix(f: Flags)
    ensures PrefixText(10, f) == ""
  {
  }

  /** Cutting off what does not fit changes nothing that is not larger than `num`. */
  lemma CutBelow(p: nat, num: U64)
    requires p <= num
    ensures p % TWO64 == p && (num < TWO32 ==> p % TWO32 == p)
  {
  }

  /** An unsigned number printed in decimal reads back with base 0 if and only if it is 0, or no blanks
      stand in front of it, and no zeros either unless it is below 8. */
  lemma DecimalRoundTrip(num: U64, size: int, precision: int, f: Flags)
    requires !f.signed
    ensures var s := Field(num, 10, size, precision, f);
            var clean := !Blanked(num, 10, size, precision, f)
                         && (num < 8 || !ZeroFilled(num, 10, size, precision, f));
            && (Strtoull(s, 0) == num <==> num == 0 || clean)
            && (num < TWO32 ==> (Strtoul(s, 0) == num <==> num == 0 || clean))
  {
    DecimalParsed(num, size, precision, f);
    hide Field, Parsed, Blanked, ZeroFilled;
    CutBelow(Parsed(Field(num, 10, size, precision, f), 0), num);
  }

  lemma NegativeDecimal(num: U64, size: int, precision: int, f: Flags)
    requires Negative(num, f)
    ensures var s, m := Field(num, 10, size, precision, f), Magnitude(num, f);
            if Blanked(num, 10, size, precision, f) then s != [] && s[0] == ' ' && Parsed(s, 0) == 0
            else
              && s != [] && s[0] == '-' && Parsed(s[1..], 0) <= m
              && (Parsed(s[1..], 0) == m <==> m < 8 || !ZeroFilled(num, 10, size, precision, f))
  {
    hide *;
    if Blanked(num, 10, size, precision, f) {
      BlankedReads(num, 10, size, precision, f, 0);
    } else {
      NegativeSpells(num, size, precision, f);
      DigitsParsed(Field(num, 10, size, precision, f)[1..], num, size, precision, f);
    }
  }

  lemma SignedResult(s: string, v: int)
    requires -0x8000_0000 <= v < 0x8000_0000
    ensures v < 0 && s != [] && s[0] == '-' && Parsed(s[1..], 0) <= -v ==>
              SignedParsed(s, 0) == 0 - Parsed(s[1..], 0)
    ensures At(s, 0) != '-' && Parsed(s, 0) <= v ==> SignedParsed(s, 0) == Parsed(s, 0)
    ensures At(s, 0) != '-' && Parsed(s, 0) == 0 ==> SignedParsed(s, 0) == 0
  {
    hide Parsed;
  }

  /** A signed number printed in decimal reads back by strtol with base 0 if and only if it is 0, or the
      text starts neither with a blank nor with a plus, nor with zeros unless it is one digit below 8. */
  lemma SignedDecimalRoundTrip(v: int, size: int, precision: int, f: Flags)
    requires -0x8000_0000 <= v < 0x8000_0000 && f.signed
    ensures SignedParsed(Field(Word64(v), 10, size, precision, f), 0) == v
       <==> v == 0 || (!Blanked(Word64(v), 10, size, precision, f) && (v < 0 || (!f.plus && !f.space))
                       && (-8 < v < 8 || !ZeroFilled(Word64(v), 10, size, precision, f)))
  {
    var num := Word64(v);
    var s := Field(num, 10, size, precision, f);
    if v < 0 {
      NegativeDecimal(num, size, precision, f);
    } else if f.plus || f.space {
      PlusParsed(num, size, precision, f, 0);
    } else {
      DecimalParsed(num, size, precision, f);
      NoMinus(num, size, precision, f);
    }
    hide Field, Parsed, Blanked, ZeroFilled, SignedParsed;
    SignedResult(s, v);
  }
}

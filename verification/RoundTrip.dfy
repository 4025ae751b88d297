/** What number() prints, the strtoul family reads back: when exactly. */
module RoundTrip {
  import opened Words
  import opened Div64
  import opened Digits
  import opened Format
  import opened Parse

  // ----- values of digit sequences, most significant first

  lemma {:induction false} TrailingZero(ds: seq<nat>, base: nat)
    ensures ValueOf(ds + [0], base) == ValueOf(ds, base)
  {
    if ds == [] {
      Cons(0, [], base);
    } else {
      TrailingZero(ds[1..], base);
      assert ds + [0] == [ds[0]] + (ds[1..] + [0]);
      Cons(ds[0], ds[1..] + [0], base);
    }
  }

  lemma LeadingZero(ms: seq<nat>, base: nat)
    requires |ms| > 0 && ms[0] == 0
    ensures Horner(ms[1..], base) == Horner(ms, base)
  {
    TrailingZero(Reversed(ms[1..]), base);
    assert Reversed(ms) == Reversed(ms[1..]) + [0];
  }

  function Zeros(n: nat): (z: seq<nat>)
    ensures |z| == n && forall i :: 0 <= i < n ==> z[i] == 0
  {
    seq(n, _ => 0)
  }

  lemma {:induction false} LeadingZeros(n: nat, ms: seq<nat>, base: nat)
    ensures Horner(Zeros(n) + ms, base) == Horner(ms, base)
    decreases n
  {
    if n == 0 {
      assert Zeros(0) + ms == ms;
    } else {
      LeadingZero(Zeros(n) + ms, base);
      assert (Zeros(n) + ms)[1..] == Zeros(n - 1) + ms;
      LeadingZeros(n - 1, ms, base);
    }
  }

  // ----- the text of a digit sequence

  ghost predicate DigitsBelow(ms: seq<nat>, base: nat) { forall i :: 0 <= i < |ms| ==> ms[i] < base }

  lemma DigitCharReads(d: nat, small: bool)
    requires d < 16
    ensures IsXDigit(DigitChar(d, small)) && DigitValue(DigitChar(d, small)) == d
    ensures DigitChar(d, small) == '0' <==> d == 0
  {
  }

  predicate Ends(c: char) { c == 0 as char || c == ' ' }

  /** From position `k` on, `s` spells the digits `ms` and then ends or goes on with blanks. */
  ghost predicate Spells(s: string, k: nat, ms: seq<nat>, small: bool)
  {
    DigitsBelow(ms, 16) && k + |ms| <= |s| && s[k..k + |ms|] == Chars(ms, small) && Ends(At(s, k + |ms|))
  }

  lemma {:induction false} SpelledDigitsAccepted(s: string, k: nat, ms: seq<nat>, small: bool, base: nat)
    requires Spells(s, k, ms, small) && DigitsBelow(ms, base)
    ensures Accepted(s, k, base) == ms
    decreases |ms|
  {
    if ms != [] {
      DigitCharReads(ms[0], small);
      assert s[k] == s[k..k + |ms|][0] == DigitChar(ms[0], small);
      SpellsTail(s, k, ms, small);
      SpelledDigitsAccepted(s, k + 1, ms[1..], small, base);
    }
  }

  lemma SpellsTail(s: string, k: nat, ms: seq<nat>, small: bool)
    requires Spells(s, k, ms, small) && ms != []
    ensures Spells(s, k + 1, ms[1..], small) && s[k] == DigitChar(ms[0], small)
  {
    assert s[k + 1..k + |ms|] == s[k..k + |ms|][1..];
    assert Chars(ms[1..], small) == Chars(ms, small)[1..];
    assert s[k] == s[k..k + |ms|][0];
  }

  // ----- the three shapes of text

  lemma NoHexPrefix(s: string, ms: seq<nat>, small: bool)
    requires Spells(s, 0, ms, small)
    ensures !HexPrefix(s)
  {
    if |ms| > 1 {
      assert s[1] == s[0..0 + |ms|][1] == DigitChar(ms[1], small);
      DigitCharReads(ms[1], small);
    } else {
      assert |ms| == 1 ==> Ends(At(s, 1));
      assert |ms| == 0 ==> Ends(At(s, 0));
    }
  }

  /** Digits alone are read in the base asked for; the first one is skipped if it is zero. */
  lemma BareReads(s: string, ms: seq<nat>, small: bool, base: nat)
    requires Spells(s, 0, ms, small) && DigitsBelow(ms, base) && 0 < base
    ensures Parsed(s, base) == Horner(ms, base)
  {
    hide Horner;
    NoHexPrefix(s, ms, small);
    if ms == [] {
      SpelledDigitsAccepted(s, 0, ms, small, base);
    } else {
      SpellsTail(s, 0, ms, small);
      DigitCharReads(ms[0], small);
      if ms[0] == 0 {
        SpelledDigitsAccepted(s, 1, ms[1..], small, base);
        LeadingZero(ms, base);
      } else {
        SpelledDigitsAccepted(s, 0, ms, small, base);
      }
    }
  }

  /** After "0x" they are read in base 16 whatever base was asked for. */
  lemma HexReads(s: string, ms: seq<nat>, small: bool, base: nat)
    requires |s| >= 2 && s[..2] == "0x" && Spells(s, 2, ms, small) && ms != []
    ensures Parsed(s, base) == Horner(ms, 16)
  {
    assert s[0] == s[..2][0] && s[1] == s[..2][1];
    SpellsTail(s, 2, ms, small);
    DigitCharReads(ms[0], small);
    SpelledDigitsAccepted(s, 2, ms, small, 16);
  }

  /** After a further "0", base 0 means octal. */
  lemma OctalReads(s: string, ms: seq<nat>, small: bool)
    requires |s| >= 1 && s[0] == '0' && Spells(s, 1, ms, small) && DigitsBelow(ms, 8) && ms != []
    ensures Parsed(s, 0) == Horner(ms, 8)
  {
    SpellsTail(s, 1, ms, small);
    DigitCharReads(ms[0], small);
    SpelledDigitsAccepted(s, 1, ms, small, 8);
  }

  /** Text that starts with no digit reads as 0; so does "0X". */
  lemma NothingReads(s: string, base: nat)
    requires s != [] && !IsXDigit(s[0])
    ensures Parsed(s, base) == 0
  {
  }

  lemma CapitalReads(s: string, base: nat)
    requires |s| >= 2 && s[..2] == "0X"
    ensures Parsed(s, base) == 0
  {
    assert s[0] == s[..2][0] && s[1] == s[..2][1];
  }

  // ----- the text of a field

  ghost predicate Blanked(num: U64, base: Base, size: int, precision: int, f: Flags) {
    !f.left && !f.zeroPad && Padding(num, base, size, precision, f) > 0
  }

  /** The zeros that padding and precision put before the digits. */
  function PadZeros(num: U64, base: Base, size: int, precision: int, f: Flags): nat {
    if !f.left && f.zeroPad then Max(0, Padding(num, base, size, precision, f)) else 0
  }

  function PrecisionZeros(num: U64, base: Base, precision: int, f: Flags): nat {
    Max(0, precision - |DigitsOf(Magnitude(num, f), base)|)
  }

  /** All the digits of a field, most significant first. */
  function FieldDigits(num: U64, base: Base, size: int, precision: int, f: Flags): seq<nat> {
    Zeros(PadZeros(num, base, size, precision, f))
    + (Zeros(PrecisionZeros(num, base, precision, f)) + Reversed(DigitsOf(Magnitude(num, f), base)))
  }

  lemma FieldValue(num: U64, base: Base, size: int, precision: int, f: Flags)
    ensures var ms := FieldDigits(num, base, size, precision, f);
            ms != [] && DigitsBelow(ms, base) && Horner(ms, base) == Magnitude(num, f)
  {
    var z, y, ds := PadZeros(num, base, size, precision, f), PrecisionZeros(num, base, precision, f),
                    Reversed(DigitsOf(Magnitude(num, f), base));
    NumberValue(Magnitude(num, f), base);
    assert FieldDigits(num, base, size, precision, f) == Zeros(z) + (Zeros(y) + ds);
    ZerosBelow(y, ds, base);
    ZerosBelow(z, Zeros(y) + ds, base);
    hide *;
    LeadingZeros(y, ds, base);
    LeadingZeros(z, Zeros(y) + ds, base);
  }

  lemma ZerosBelow(n: nat, ms: seq<nat>, base: Base)
    requires ms != [] && DigitsBelow(ms, base)
    ensures Zeros(n) + ms != [] && DigitsBelow(Zeros(n) + ms, base)
  {
  }

  lemma NumberValue(n: nat, base: nat)
    requires base >= 2
    ensures var ms := Reversed(DigitsOf(n, base)); ms != [] && DigitsBelow(ms, base) && Horner(ms, base) == n
  {
    DigitsAreExact(n, base);
    assert Reversed(Reversed(DigitsOf(n, base))) == DigitsOf(n, base);
  }

  /** Without leading blanks a field is sign, prefix, these digits, and perhaps blanks. */
  lemma FieldSpells(num: U64, base: Base, size: int, precision: int, f: Flags)
    requires !Blanked(num, base, size, precision, f)
    ensures var s := Field(num, base, size, precision, f);
            var start := SignText(num, f) + PrefixText(base, f);
            |start| <= |s| && s[..|start|] == start
            && Spells(s, |start|, FieldDigits(num, base, size, precision, f), f.small)
  {
    var w := Padding(num, base, size, precision, f);
    var start := SignText(num, f) + PrefixText(base, f);
    var ds := DigitsOf(Magnitude(num, f), base);
    var z, y := PadZeros(num, base, size, precision, f), PrecisionZeros(num, base, precision, f);
    assert Field(num, base, size, precision, f)
        == Laid(w, SignText(num, f), PrefixText(base, f), Body(num, base, precision, f), f.zeroPad, f.left);
    hide Field, SignText, PrefixText;
    BodyText(num, base, precision, f);
    LaidUnblanked(w, SignText(num, f), PrefixText(base, f), Body(num, base, precision, f), f.zeroPad, f.left);
    hide Body, Laid, Padding, DigitsOf, Magnitude, PrecisionZeros, Chars, Spells, Reversed, Zeros, Repeat;
    var blanks := if f.left then Repeat(' ', w) else "";
    ReversedChars(ds, f.small);
    TextOfDigits(z, y, Reversed(ds), f.small);
    SpellsText(start, Zeros(z) + (Zeros(y) + Reversed(ds)), f.small, blanks);
  }

  lemma LaidUnblanked(w: int, sign: string, prefix: string, body: string, zeroPad: bool, left: bool)
    requires left || zeroPad || w <= 0
    ensures Laid(w, sign, prefix, body, zeroPad, left)
         == sign + prefix + (Repeat('0', if !left && zeroPad then Max(0, w) else 0) + body)
            + (if left then Repeat(' ', w) else "")
  {
  }

  lemma BodyText(num: U64, base: Base, precision: int, f: Flags)
    ensures Body(num, base, precision, f)
         == Repeat('0', PrecisionZeros(num, base, precision, f))
            + Reversed(Chars(DigitsOf(Magnitude(num, f), base), f.small))
  {
  }

  lemma SpellsText(start: string, ms: seq<nat>, small: bool, blanks: string)
    requires DigitsBelow(ms, 16) && forall i :: 0 <= i < |blanks| ==> blanks[i] == ' '
    ensures var s := start + Chars(ms, small) + blanks; s[..|start|] == start && Spells(s, |start|, ms, small)
  {
  }

  lemma ReversedChars(ds: seq<nat>, small: bool)
    requires DigitsBelow(ds, 16)
    ensures DigitsBelow(Reversed(ds), 16) && Reversed(Chars(ds, small)) == Chars(Reversed(ds), small)
  {
  }

  lemma TextOfDigits(z: nat, y: nat, ms: seq<nat>, small: bool)
    requires DigitsBelow(ms, 16)
    ensures DigitsBelow(Zeros(z) + (Zeros(y) + ms), 16)
    ensures Repeat('0', z) + (Repeat('0', y) + Chars(ms, small)) == Chars(Zeros(z) + (Zeros(y) + ms), small)
  {
  }

  lemma BlankedReads(num: U64, base: Base, size: int, precision: int, f: Flags, asked: nat)
    requires Blanked(num, base, size, precision, f)
    ensures var s := Field(num, base, size, precision, f); s != [] && s[0] == ' ' && Parsed(s, asked) == 0
  {
    var s := Field(num, base, size, precision, f);
    assert s == Laid(Padding(num, base, size, precision, f), SignText(num, f), PrefixText(base, f),
                     Body(num, base, precision, f), f.zeroPad, f.left);
    hide Field, Padding, SignText, PrefixText, Body, Parsed;
    assert s[0] == ' ';
    NothingReads(s, asked);
  }

  // ----- what is read, before it is cut to 32 or 64 bits

  lemma BareParsed(num: U64, base: Base, size: int, precision: int, f: Flags)
    requires SignText(num, f) == "" && PrefixText(base, f) == ""
    ensures Parsed(Field(num, base, size, precision, f), base)
         == if Blanked(num, base, size, precision, f) then 0 else Magnitude(num, f)
  {
    hide Field, FieldDigits, Spells, Parsed, Blanked, SignText, PrefixText, Horner, DigitsOf, Magnitude;
    if Blanked(num, base, size, precision, f) {
      BlankedReads(num, base, size, precision, f, base);
    } else {
      FieldSpells(num, base, size, precision, f);
      FieldValue(num, base, size, precision, f);
      BareReads(Field(num, base, size, precision, f), FieldDigits(num, base, size, precision, f), f.small, base);
    }
  }

  lemma HexParsed(num: U64, size: int, precision: int, f: Flags, asked: nat)
    requires !f.signed && f.special
    ensures Parsed(Field(num, 16, size, precision, f), asked)
         == if f.small && !Blanked(num, 16, size, precision, f) then num else 0
  {
    var s, ms := Field(num, 16, size, precision, f), FieldDigits(num, 16, size, precision, f);
    hide Field, FieldDigits, Spells, Parsed, Blanked, Horner, DigitsOf;
    if Blanked(num, 16, size, precision, f) {
      BlankedReads(num, 16, size, precision, f, asked);
    } else {
      FieldSpells(num, 16, size, precision, f);
      FieldValue(num, 16, size, precision, f);
      assert "" + PrefixText(16, f) == PrefixText(16, f);
      if f.small {
        HexReads(s, ms, true, asked);
      } else {
        CapitalReads(s, asked);
      }
    }
  }

  lemma OctalParsed(num: U64, size: int, precision: int, f: Flags)
    requires !f.signed && f.special
    ensures Parsed(Field(num, 8, size, precision, f), 0) == if Blanked(num, 8, size, precision, f) then 0 else num
  {
    var s, ms := Field(num, 8, size, precision, f), FieldDigits(num, 8, size, precision, f);
    hide Field, FieldDigits, Spells, Parsed, Blanked, Horner, DigitsOf;
    if Blanked(num, 8, size, precision, f) {
      BlankedReads(num, 8, size, precision, f, 0);
    } else {
      FieldSpells(num, 8, size, precision, f);
      FieldValue(num, 8, size, precision, f);
      assert "" + PrefixText(8, f) == PrefixText(8, f);
      assert s[0] == s[..1][0];
      OctalReads(s, ms, f.small);
    }
  }

  lemma NegativeParsed(num: U64, size: int, precision: int, f: Flags)
    requires Negative(num, f)
    ensures var s := Field(num, 10, size, precision, f);
            if Blanked(num, 10, size, precision, f) then s != [] && s[0] == ' ' && Parsed(s, 10) == 0
            else s != [] && s[0] == '-' && Parsed(s[1..], 10) == Magnitude(num, f)
  {
    hide Field, FieldDigits, Spells, Parsed, Blanked, Horner, DigitsOf, Magnitude;
    if Blanked(num, 10, size, precision, f) {
      BlankedReads(num, 10, size, precision, f, 10);
    } else {
      NegativeSpells(num, size, precision, f);
      FieldValue(num, 10, size, precision, f);
      BareReads(Field(num, 10, size, precision, f)[1..], FieldDigits(num, 10, size, precision, f), f.small, 10);
    }
  }

  lemma NegativeSpells(num: U64, size: int, precision: int, f: Flags)
    requires Negative(num, f) && !Blanked(num, 10, size, precision, f)
    ensures var s := Field(num, 10, size, precision, f);
            s != [] && s[0] == '-' && Spells(s[1..], 0, FieldDigits(num, 10, size, precision, f), f.small)
  {
    var s := Field(num, 10, size, precision, f);
    hide Field, FieldDigits, Spells, Blanked, DigitsOf, Magnitude;
    FieldSpells(num, 10, size, precision, f);
    assert SignText(num, f) + "" == SignText(num, f);
    assert s[0] == s[..1][0];
    SpellsBehind(s, FieldDigits(num, 10, size, precision, f), f.small);
  }

  lemma PlusParsed(num: U64, size: int, precision: int, f: Flags, asked: nat)
    requires !Negative(num, f) && f.signed && (f.plus || f.space)
    ensures var s := Field(num, 10, size, precision, f); s != [] && s[0] != '-' && Parsed(s, asked) == 0
  {
    var s := Field(num, 10, size, precision, f);
    hide Field, Parsed, Blanked, Spells;
    if Blanked(num, 10, size, precision, f) {
      BlankedReads(num, 10, size, precision, f, asked);
    } else {
      FieldSpells(num, 10, size, precision, f);
      assert SignText(num, f) + "" == SignText(num, f);
      assert s[0] == s[..1][0];
      NothingReads(s, asked);
    }
  }

  lemma NoMinus(num: U64, size: int, precision: int, f: Flags)
    requires !Negative(num, f) && SignText(num, f) == ""
    ensures At(Field(num, 10, size, precision, f), 0) != '-'
  {
    var s, ms := Field(num, 10, size, precision, f), FieldDigits(num, 10, size, precision, f);
    hide Field, FieldDigits, Spells, Blanked;
    if Blanked(num, 10, size, precision, f) {
      BlankedReads(num, 10, size, precision, f, 10);
    } else {
      FieldSpells(num, 10, size, precision, f);
      FieldValue(num, 10, size, precision, f);
      FirstDigit(s, ms, f.small);
    }
  }

  /** A number that fits is not changed by the cut, and 0 stays 0. */
  lemma Cut(p: nat, num: U64)
    requires p == num || p == 0
    ensures p % TWO64 == num <==> p == num
    ensures num < TWO32 ==> (p % TWO32 == num <==> p == num)
  {
  }

  // ----- the round trips

  /** An unsigned number printed without a prefix reads back in the base it was printed in,
      whatever zeros and trailing blanks surround it; leading blanks are not skipped. */
  lemma BareRoundTrip(num: U64, base: Base, size: int, precision: int, f: Flags)
    requires !f.signed && (!f.special || base == 10)
    ensures var s := Field(num, base, size, precision, f);
            && (Strtoull(s, base) == num <==> num == 0 || !Blanked(num, base, size, precision, f))
            && (num < TWO32 ==> (Strtoul(s, base) == num <==> num == 0 || !Blanked(num, base, size, precision, f)))
  {
    BareParsed(num, base, size, precision, f);
    hide Field, Parsed, Blanked;
    Cut(Parsed(Field(num, base, size, precision, f), base), num);
  }

  /** A hexadecimal number with its prefix reads back if the prefix is "0x", in base 0 and whatever
      other base is asked for. */
  lemma HexRoundTrip(num: U64, size: int, precision: int, f: Flags, asked: nat)
    requires !f.signed && f.special
    ensures var s := Field(num, 16, size, precision, f);
            && (Strtoull(s, asked) == num <==> num == 0 || (f.small && !Blanked(num, 16, size, precision, f)))
            && (num < TWO32 ==>
                  (Strtoul(s, asked) == num <==> num == 0 || (f.small && !Blanked(num, 16, size, precision, f))))
  {
    HexParsed(num, size, precision, f, asked);
    hide Field, Parsed, Blanked;
    Cut(Parsed(Field(num, 16, size, precision, f), asked), num);
  }

  /** "0XF" reads as 0. */
  lemma CapitalPrefixFails(f: Flags)
    requires f == Flags(false, false, false, false, false, false, true)
    ensures Strtoul(Field(15, 16, -1, -1, f), 0) != 15
  {
    HexRoundTrip(15, -1, -1, f, 0);
    hide *;
  }

  /** An octal number with its prefix reads back in base 0. */
  lemma OctalRoundTrip(num: U64, size: int, precision: int, f: Flags)
    requires !f.signed && f.special
    ensures var s := Field(num, 8, size, precision, f);
            && (Strtoull(s, 0) == num <==> num == 0 || !Blanked(num, 8, size, precision, f))
            && (num < TWO32 ==> (Strtoul(s, 0) == num <==> num == 0 || !Blanked(num, 8, size, precision, f)))
  {
    OctalParsed(num, size, precision, f);
    hide Field, Parsed, Blanked;
    Cut(Parsed(Field(num, 8, size, precision, f), 0), num);
  }

  /** The 64-bit word that stands for `v`. */
  function Word64(v: int): U64
    requires -0x8000_0000 <= v < 0x8000_0000
  {
    if v < 0 then TWO64 + v else v
  }

  /** A signed decimal number reads back with strtol unless it starts with a blank or a '+'. */
  lemma SignedRoundTrip(v: int, size: int, precision: int, f: Flags)
    requires -0x8000_0000 <= v < 0x8000_0000 && f.signed
    ensures SignedParsed(Field(Word64(v), 10, size, precision, f), 10) == v
       <==> v == 0 || (!Blanked(Word64(v), 10, size, precision, f) && (v < 0 || (!f.plus && !f.space)))
  {
    var num := Word64(v);
    var s := Field(num, 10, size, precision, f);
    if v < 0 {
      NegativeParsed(num, size, precision, f);
    } else if f.plus || f.space {
      PlusParsed(num, size, precision, f, 10);
    } else {
      BareParsed(num, 10, size, precision, f);
      NoMinus(num, size, precision, f);
    }
    hide Field, Parsed, Blanked, SignedParsed;
    SignedReads(s, v);
  }

  lemma SignedReads(s: string, v: int)
    requires -0x8000_0000 <= v < 0x8000_0000
    ensures s != [] && s[0] == '-' && Parsed(s[1..], 10) == -v ==> SignedParsed(s, 10) == v
    ensures At(s, 0) != '-' && Parsed(s, 10) == v ==> SignedParsed(s, 10) == v
    ensures At(s, 0) != '-' && Parsed(s, 10) == 0 ==> SignedParsed(s, 10) == 0
  {
    hide Parsed;
  }

  lemma SpellsBehind(s: string, ms: seq<nat>, small: bool)
    requires |s| >= 1 && Spells(s, 1, ms, small)
    ensures Spells(s[1..], 0, ms, small)
  {
    assert s[1..][0..|ms|] == s[1..1 + |ms|];
  }

  lemma FirstDigit(s: string, ms: seq<nat>, small: bool)
    requires Spells(s, 0, ms, small) && ms != []
    ensures At(s, 0) != '-'
  {
    SpellsTail(s, 0, ms, small);
    DigitCharReads(ms[0], small);
  }
}

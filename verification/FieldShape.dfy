/** What a field looks like, character by character. */
module FieldShape {
  import opened Digits
  import opened Div64
  import opened Format
  import opened Parse

  /** Whether there is a sign, a plus or a blank in its place. */
  predicate Signs(num: U64, f: Flags) { f.signed && (num >= TWO63 || f.plus || f.space) }

  /** How many characters the number takes without padding. */
  function Width(num: U64, base: Base, precision: int, f: Flags): nat {
    (if Signs(num, f) then 1 else 0) + PrefixWidth(base, f) + Max(|DigitsOf(Magnitude(num, f), base)|, precision)
  }

  function PrefixWidth(base: Base, f: Flags): nat {
    if f.special && base == 16 then 2 else if f.special && base == 8 then 1 else 0
  }

  /** How many blanks the flags ask for in front of everything, how many zeros in front of the digits. */
  function Lead(num: U64, base: Base, size: int, precision: int, f: Flags): nat {
    if f.left || f.zeroPad then 0 else Max(0, size - Width(num, base, precision, f))
  }

  function FillZeros(num: U64, base: Base, size: int, precision: int, f: Flags): nat {
    if f.zeroPad && !f.left then Max(0, size - Width(num, base, precision, f)) else 0
  }

  function DigitsAt(num: U64, base: Base, size: int, precision: int, f: Flags): nat {
    Lead(num, base, size, precision, f) + (if Signs(num, f) then 1 else 0) + PrefixWidth(base, f)
  }

  function DigitsEnd(num: U64, base: Base, size: int, precision: int, f: Flags): nat {
    DigitsAt(num, base, size, precision, f) + FillZeros(num, base, size, precision, f)
    + Max(|DigitsOf(Magnitude(num, f), base)|, precision)
  }

  lemma Parts(num: U64, base: Base, size: int, precision: int, f: Flags)
    ensures |SignText(num, f)| == (if Signs(num, f) then 1 else 0) && |PrefixText(base, f)| == PrefixWidth(base, f)
    ensures |Body(num, base, precision, f)| == Max(|DigitsOf(Magnitude(num, f), base)|, precision)
    ensures Padding(num, base, size, precision, f) == size - Width(num, base, precision, f)
  {
    BodyLength(num, base, precision, f);
    hide DigitsOf, Magnitude, Body;
  }

  /** The sign: it comes right behind the leading blanks that the flags ask for, and nothing else can
      stand there but a prefix or a digit. */
  lemma SignIff(num: U64, base: Base, size: int, precision: int, f: Flags)
    ensures var s, lead := Field(num, base, size, precision, f), Lead(num, base, size, precision, f);
            && lead < |s| && (forall i :: 0 <= i < lead ==> s[i] == ' ')
            && (s[lead] == '-' <==> f.signed && num >= TWO63)
            && (s[lead] == '+' <==> f.signed && num < TWO63 && f.plus)
            && (s[lead] == ' ' <==> f.signed && num < TWO63 && f.space && !f.plus)
            && (HexChar(s[lead], f.small) <==> !Signs(num, f))
  {
    var w := Padding(num, base, size, precision, f);
    Parts(num, base, size, precision, f);
    BodyChars(num, base, precision, f);
    hide Padding, Body, DigitsOf, Magnitude;
  }

  lemma BodyChars(num: U64, base: Base, precision: int, f: Flags)
    ensures var b := Body(num, base, precision, f);
            |b| >= 1 && forall i :: 0 <= i < |b| ==> DigitOf(b[i], base, f.small)
  {
    var ds := DigitsOf(Magnitude(num, f), base);
    DigitsLook(ds, base, f.small);
    assert Body(num, base, precision, f) == Repeat('0', precision - |ds|) + Reversed(Chars(ds, f.small));
    assert DigitOf('0', base, f.small);
    hide DigitOf, Body, Chars, DigitsOf, Magnitude;
  }

  lemma DigitsLook(ds: seq<nat>, base: Base, small: bool)
    requires forall i :: 0 <= i < |ds| ==> ds[i] < base
    ensures forall i :: 0 <= i < |ds| ==> DigitOf(Reversed(Chars(ds, small))[i], base, small)
  {
    forall i | 0 <= i < |ds| ensures DigitOf(Reversed(Chars(ds, small))[i], base, small) {
      DigitLooks(ds[|ds| - 1 - i], base, small);
    }
  }

  lemma DigitLooks(d: nat, base: Base, small: bool)
    requires d < base
    ensures DigitOf(DigitChar(d, small), base, small)
  {
  }

  /** A digit in this base, in the case that the flags ask for. */
  predicate DigitOf(c: char, base: Base, small: bool) { HexChar(c, small) && DigitValue(c) < base }

  /** The parts of a field, each in its place. */
  ghost predicate InPlaces(s: string, a: string, b: string, c: string, d: string, e: string, g: string) {
    var i, j := |a| + |b|, |a| + |b| + |c| + |d|;
    && |s| == j + |e| + |g|
    && s[..|a|] == a && s[|a|..i] == b && s[i..i + |c|] == c && s[i + |c|..j] == d
    && s[j..j + |e|] == e && s[j + |e|..] == g
  }

  lemma Placed(a: string, b: string, c: string, d: string, e: string, g: string)
    ensures InPlaces(a + b + c + d + e + g, a, b, c, d, e, g)
  {
    var s, i, j := a + b + c + d + e + g, |a| + |b|, |a| + |b| + |c| + |d|;
    forall k | 0 <= k < |a| ensures s[k] == a[k] {}
    forall k | 0 <= k < |b| ensures s[|a| + k] == b[k] {}
    forall k | 0 <= k < |c| ensures s[i + k] == c[k] {}
    forall k | 0 <= k < |d| ensures s[i + |c| + k] == d[k] {}
    forall k | 0 <= k < |e| ensures s[j + k] == e[k] {}
    forall k | 0 <= k < |g| ensures s[j + |e| + k] == g[k] {}
    Slices(s, a, b, c, d, e, g);
  }

  lemma Slices(s: string, a: string, b: string, c: string, d: string, e: string, g: string)
    requires |s| == |a| + |b| + |c| + |d| + |e| + |g|
    requires forall k :: 0 <= k < |a| ==> s[k] == a[k]
    requires forall k :: 0 <= k < |b| ==> s[|a| + k] == b[k]
    requires forall k :: 0 <= k < |c| ==> s[|a| + |b| + k] == c[k]
    requires forall k :: 0 <= k < |d| ==> s[|a| + |b| + |c| + k] == d[k]
    requires forall k :: 0 <= k < |e| ==> s[|a| + |b| + |c| + |d| + k] == e[k]
    requires forall k :: 0 <= k < |g| ==> s[|a| + |b| + |c| + |d| + |e| + k] == g[k]
    ensures InPlaces(s, a, b, c, d, e, g)
  {
  }

  lemma FieldInPlaces(num: U64, base: Base, size: int, precision: int, f: Flags)
    ensures InPlaces(Field(num, base, size, precision, f),
                     Repeat(' ', Lead(num, base, size, precision, f)), SignText(num, f), PrefixText(base, f),
                     Repeat('0', FillZeros(num, base, size, precision, f)), Body(num, base, precision, f),
                     if f.left then Repeat(' ', size - Width(num, base, precision, f)) else "")
  {
    Parts(num, base, size, precision, f);
    hide Padding, Body, DigitsOf, Magnitude, SignText, PrefixText, Width, InPlaces;
    Placed(Repeat(' ', Lead(num, base, size, precision, f)), SignText(num, f), PrefixText(base, f),
           Repeat('0', FillZeros(num, base, size, precision, f)), Body(num, base, precision, f),
           if f.left then Repeat(' ', size - Width(num, base, precision, f)) else "");
  }

  /** What the pieces say about the characters from the prefix on. */
  lemma PiecesSay(s: string, a: string, b: string, c: string, d: string, e: string, g: string,
                  base: Base, small: bool)
    requires InPlaces(s, a, b, c, d, e, g)
    requires (forall i :: 0 <= i < |d| ==> d[i] == '0') && (forall i :: 0 <= i < |g| ==> g[i] == ' ')
    requires forall i :: 0 <= i < |e| ==> DigitOf(e[i], base, small)
    ensures var from, to := |a| + |b| + |c|, |a| + |b| + |c| + |d| + |e|;
            && |s| == to + |g| && s[|a| + |b|..from] == c
            && (forall i :: from <= i < to ==> DigitOf(s[i], base, small))
            && (forall i :: to <= i < |s| ==> s[i] == ' ')
  {
    var from, mid, to := |a| + |b| + |c|, |a| + |b| + |c| + |d|, |a| + |b| + |c| + |d| + |e|;
    assert DigitOf('0', base, small);
    hide DigitOf;
    forall i | from <= i < to ensures DigitOf(s[i], base, small) {
      if i < mid { assert s[i] == s[from..mid][i - from]; } else { assert s[i] == s[mid..to][i - mid]; }
    }
    forall i | to <= i < |s| ensures s[i] == ' ' { assert s[i] == s[to..][i - to]; }
  }

  /** Behind the sign come the prefix, the digits, and nothing but blanks, none unless LEFT is set. */
  lemma PrefixAndDigits(num: U64, base: Base, size: int, precision: int, f: Flags)
    ensures var s := Field(num, base, size, precision, f);
            var d, e := DigitsAt(num, base, size, precision, f), DigitsEnd(num, base, size, precision, f);
            && d < e <= |s| && (e < |s| ==> f.left) && PrefixWidth(base, f) <= d
            && s[d - PrefixWidth(base, f)..d]
            == (if f.special && base == 16 then if f.small then "0x" else "0X"
                else if f.special && base == 8 then "0" else "")
            && (forall i :: d <= i < e ==> DigitOf(s[i], base, f.small))
            && (forall i :: e <= i < |s| ==> s[i] == ' ')
  {
    Parts(num, base, size, precision, f);
    BodyChars(num, base, precision, f);
    FieldInPlaces(num, base, size, precision, f);
    hide Field, SignText, Body, Width, Magnitude, DigitsOf, DigitOf, Padding, InPlaces, Signs;
    PiecesSay(Field(num, base, size, precision, f),
              Repeat(' ', Lead(num, base, size, precision, f)), SignText(num, f), PrefixText(base, f),
              Repeat('0', FillZeros(num, base, size, precision, f)), Body(num, base, precision, f),
              if f.left then Repeat(' ', size - Width(num, base, precision, f)) else "", base, f.small);
  }

  /** What the padding does to any text of these parts. */
  lemma LaidIsPadded(w: int, sign: string, prefix: string, body: string, zeroPad: bool, left: bool)
    ensures var t, d := sign + prefix + body, |sign| + |prefix|;
            Laid(w, sign, prefix, body, zeroPad, left)
            == if left then t + Repeat(' ', w) else if !zeroPad then Repeat(' ', w) + t
               else t[..d] + Repeat('0', w) + t[d..]
  {
    var t, d := sign + prefix + body, |sign| + |prefix|;
    assert t[..d] == sign + prefix && t[d..] == body;
    if left {
    } else if zeroPad {
    } else {
      assert Repeat(' ', w) + sign + prefix + body == Repeat(' ', w) + t;
    }
  }

  /** The field width only adds padding: blanks behind, blanks in front, or zeros before the digits. */
  lemma WidthOnlyPads(num: U64, base: Base, size: int, precision: int, f: Flags)
    ensures var s, t := Field(num, base, size, precision, f), Field(num, base, 0, precision, f);
            var k, d := size - |t|, DigitsAt(num, base, 0, precision, f);
            && |t| == Width(num, base, precision, f) && d <= |t|
            && s == if f.left then t + Repeat(' ', k) else if !f.zeroPad then Repeat(' ', k) + t
                    else t[..d] + Repeat('0', k) + t[d..]
  {
    hide *;
    FieldLaid(num, base, size, precision, f);
    Unpadded(num, base, precision, f);
    LaidIsPadded(size - Width(num, base, precision, f), SignText(num, f), PrefixText(base, f),
                 Body(num, base, precision, f), f.zeroPad, f.left);
  }

  lemma Unpadded(num: U64, base: Base, precision: int, f: Flags)
    ensures var t := SignText(num, f) + PrefixText(base, f) + Body(num, base, precision, f);
            && Field(num, base, 0, precision, f) == t && |t| == Width(num, base, precision, f)
            && DigitsAt(num, base, 0, precision, f) == |SignText(num, f)| + |PrefixText(base, f)|
  {
    hide *;
    var sign, prefix, body := SignText(num, f), PrefixText(base, f), Body(num, base, precision, f);
    var w := 0 - Width(num, base, precision, f);
    FieldLaid(num, base, 0, precision, f);
    LaidIsPadded(w, sign, prefix, body, f.zeroPad, f.left);
    NoPadding(w, sign + prefix + body, |sign| + |prefix|);
  }

  lemma NoPadding(w: int, t: string, d: nat)
    requires w <= 0 && d <= |t|
    ensures t + Repeat(' ', w) == t && Repeat(' ', w) + t == t && t[..d] + Repeat('0', w) + t[d..] == t
  {
  }

  lemma FieldLaid(num: U64, base: Base, size: int, precision: int, f: Flags)
    ensures var sign, prefix, body := SignText(num, f), PrefixText(base, f), Body(num, base, precision, f);
            && Field(num, base, size, precision, f)
            == Laid(size - Width(num, base, precision, f), sign, prefix, body, f.zeroPad, f.left)
            && Width(num, base, precision, f) == |sign| + |prefix| + |body|
            && (size == 0 ==> DigitsAt(num, base, size, precision, f) == |sign| + |prefix|)
  {
    Parts(num, base, size, precision, f);
    hide Padding, Body, DigitsOf, Magnitude, SignText, PrefixText, Signs, Laid;
  }
}

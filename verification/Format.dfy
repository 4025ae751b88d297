/** number() (vsprintf.c): one converted number with sign, prefix, precision and padding.
    ADDCH stores unconditionally, as in a build without CONFIG_SYS_VSNPRINTF. */
module Format {
  import opened Words
  import opened Div64
  import opened Digits

  /** The bits of `type`. */
  datatype Flags = Flags(zeroPad: bool, signed: bool, plus: bool, space: bool, left: bool, small: bool, special: bool)

  type Base = b: nat | b == 8 || b == 10 || b == 16 witness 10

  const TWO63: int := 0x8000_0000_0000_0000

  // ----- what is to be written

  function Negative(num: U64, f: Flags): bool { f.signed && num >= TWO63 }

  /** The absolute value of the two's complement number, or the number itself if unsigned. */
  function Magnitude(num: U64, f: Flags): U64 { if Negative(num, f) then TWO64 - num else num }

  function SignText(num: U64, f: Flags): string {
    if Negative(num, f) then "-" else if f.signed && f.plus then "+" else if f.signed && f.space then " " else ""
  }

  function Prefix(needed: bool, base: Base, small: bool): string {
    if !needed then "" else if base == 16 then if small then "0x" else "0X" else "0"
  }

  function PrefixText(base: Base, f: Flags): string { Prefix(f.special && base != 10, base, f.small) }

  function DigitText(num: U64, base: Base, f: Flags): string {
    Reversed(Chars(DigitsOf(Magnitude(num, f), base), f.small))
  }

  function Repeat(c: char, n: int): (s: string)
    ensures |s| == Max(n, 0) && forall i :: 0 <= i < |s| ==> s[i] == c
  {
    if n <= 0 then "" else seq(n, _ => c)
  }

  function Max(a: int, b: int): int { if a > b then a else b }

  /** The digits with as many zeros before them as the precision asks for. */
  function Body(num: U64, base: Base, precision: int, f: Flags): string {
    var ds := DigitText(num, base, f);
    Repeat('0', precision - |ds|) + ds
  }

  /** How far the number falls short of the field width. */
  function Padding(num: U64, base: Base, size: int, precision: int, f: Flags): int {
    size - |SignText(num, f)| - |PrefixText(base, f)| - |Body(num, base, precision, f)|
  }

  /** The parts of a field in order, with `w` characters of padding in the place that the flags
      say: before everything, after everything, or as zeros before the digits. */
  function Laid(w: int, sign: string, prefix: string, body: string, zeroPad: bool, left: bool): string {
    (if left || zeroPad then "" else Repeat(' ', w)) + sign + prefix + (if !left && zeroPad then Repeat('0', w) else "")
    + body + (if left then Repeat(' ', w) else "")
  }

  function Field(num: U64, base: Base, size: int, precision: int, f: Flags): string {
    Laid(Padding(num, base, size, precision, f), SignText(num, f), PrefixText(base, f), Body(num, base, precision, f),
         f.zeroPad, f.left)
  }

  /** For all flags the text is exactly as wide as the field, or as the number if that is wider. */
  lemma FieldLength(num: U64, base: Base, size: int, precision: int, f: Flags)
    ensures |Field(num, base, size, precision, f)|
         == Max(size, |SignText(num, f)| + |PrefixText(base, f)| + Max(|DigitsOf(Magnitude(num, f), base)|, precision))
  {
    hide DigitsOf, Magnitude, SignText, PrefixText, Chars;
  }

  // ----- how it is written

  /** ADDCH. */
  method AddCh(buf: array<char>, at: nat, c: char, ghost start: nat, ghost was: string, ghost text: string)
    returns (p: nat)
    requires at < buf.Length && at == start + |text| && Wrote(buf[..], was, start, text)
    modifies buf
    ensures p == at + 1 && Wrote(buf[..], was, start, text + [c])
  {
    p := Put(buf, at, c);
    WroteMore(buf[..], old(buf[..]), was, start, text, [c]);
  }

  /** `while (--size >= 0) ADDCH(buf, c);` which leaves `size` negative. */
  method Pad(buf: array<char>, at: nat, size: int, c: char, ghost start: nat, ghost was: string, ghost text: string)
    returns (p: nat, left: int)
    requires at == start + |text| && at + Max(size, 0) <= buf.Length && Wrote(buf[..], was, start, text)
    modifies buf
    ensures left < 0 && (size < 0 ==> left == size - 1)
    ensures p == at + Max(size, 0) && Wrote(buf[..], was, start, text + Repeat(c, size))
  {
    hide Wrote;
    ghost var n := Max(size, 0);
    p, left := at, size - 1;
    assert text + Repeat(c, 0) == text;
    while left >= 0
      invariant left == size - 1 - (p - at) && at <= p <= at + n
      invariant Wrote(buf[..], was, start, text + Repeat(c, p - at))
      decreases left
    {
      ghost var more := text + Repeat(c, p - at);
      p := AddCh(buf, p, c, start, was, more);
      assert more + [c] == text + Repeat(c, p - at);
      left := left - 1;
    }
  }

  /** The digits of a number in base 8 or 16, least significant first, by mask and shift. */
  method MaskDigits(tmp: array<char>, num: U64, base: Base, locase: bool) returns (i: nat)
    requires base != 10 && |DigitsOf(num, base)| <= tmp.Length
    modifies tmp
    ensures i == |DigitsOf(num, base)| && tmp[..i] == Chars(DigitsOf(num, base), locase)
  {
    hide DigitsOf, Chars, Reversed, DigitChar;
    NoChars();
    var n := num;
    ghost var ds := DigitsOf(num, base);
    assert ds[0..] == ds && ds[..0] == [] && Chars([], locase) == [];
    i := 0;
    while true
      invariant 0 <= n && 0 <= i < |ds| && ds[i..] == DigitsOf(n, base)
      invariant tmp[..i] == Chars(ds[..i], locase)
      decreases n
    {
      NextDigit(n, base);
      LowByte(n, base);
      Split(ds, i);
      CharsMore(ds, i, locase);
      tmp[i] := DigitChar(n % 256 % base, locase);
      i := i + 1;
      assert tmp[..i] == tmp[..i - 1] + [tmp[i - 1]];
      n := n / base;
      if n == 0 { break; }
    }
    assert ds[..i] == ds;
  }

  lemma LowByte(n: nat, base: Base)
    requires base != 10
    ensures n % 256 % base == n % base
  {
    var high, low := n / 256, n % 256;
    if base == 8 {
      QuotientUnique(n, 8, 32 * high + low / 8, low % 8);
    } else {
      QuotientUnique(n, 16, 16 * high + low / 16, low % 16);
    }
  }

  /** No 64-bit number has more than 22 digits in base 8 or above. */
  lemma FitsTmp(n: U64, base: Base)
    ensures |DigitsOf(n, base)| <= 22
  {
    assert Power(8, 11) == 8_589_934_592;
    assert Power(8, 22) == 73_786_976_294_838_206_464;
    PowerMonotone(8, base, 22);
    DigitCount(n, base, 22);
  }

  /** The digits, least significant first, go into the local buffer. */
  method Convert(tmp: array<char>, num: U64, base: Base, locase: bool) returns (i: nat)
    requires tmp.Length == 66
    modifies tmp
    ensures 1 <= i == |DigitsOf(num, base)| <= 22 && tmp[..i] == Chars(DigitsOf(num, base), locase)
  {
    FitsTmp(num, base);
    hide Chars, Wrote, Power;
    if num == 0 {
      ZeroText(base, locase);
      tmp[0], i := '0', 1;
    } else if base != 10 {
      hide DigitsOf;
      i := MaskDigits(tmp, num, base, locase);
    } else {
      DecimalText(DigitsOf(num, 10));
      hide DigitsOf;
      ghost var was := tmp[..];
      i := PutDec(tmp, 0, num);
      WroteThere(tmp[..], was, 0, Chars(DigitsOf(num, 10), false));
    }
  }

  lemma ZeroText(base: Base, locase: bool)
    ensures Chars(DigitsOf(0, base), locase) == "0"
  {
  }

  /** Copy the converted digits out, last one first. */
  method EmitDigits(buf: array<char>, at: nat, tmp: array<char>, count: nat, ghost start: nat, ghost was: string,
                ghost text: string)
    returns (p: nat)
    requires buf != tmp && count <= tmp.Length && at == start + |text| && at + count <= buf.Length
    requires Wrote(buf[..], was, start, text)
    modifies buf
    ensures p == at + count && Wrote(buf[..], was, start, text + Reversed(tmp[..count]))
  {
    hide Wrote;
    var i := count - 1;
    p := at;
    assert text + Reversed(tmp[..count])[..0] == text;
    while i >= 0
      invariant -1 <= i < count && p == at + count - 1 - i && tmp[..] == old(tmp[..])
      invariant Wrote(buf[..], was, start, text + Reversed(tmp[..count])[..count - 1 - i])
      decreases i
    {
      ghost var done := Reversed(tmp[..count])[..count - 1 - i];
      p := AddCh(buf, p, tmp[i], start, was, text + done);
      assert text + done + [tmp[i]] == text + Reversed(tmp[..count])[..count - i];
      i := i - 1;
    }
    assert Reversed(tmp[..count])[..count] == Reversed(tmp[..count]);
  }

  /** number(): writes the field, and nothing else. */
  method Number(buf: array<char>, at: nat, num: U64, base: Base, size: int, precision: int, f: Flags) returns (p: nat)
    requires at + |Field(num, base, size, precision, f)| <= buf.Length
    modifies buf
    ensures p == at + |Field(num, base, size, precision, f)|
    ensures Wrote(buf[..], old(buf[..]), at, Field(num, base, size, precision, f))
  {
    BodyLength(num, base, precision, f);
    hide Wrote, Chars, DigitsOf, Reversed, Repeat, Laid, Body;
    var locase, zeroPad, needPfx := f.small, f.zeroPad && !f.left, f.special && base != 10;
    var sign, n, width, prec := "", num, size, precision;
    if f.signed {
      if num >= TWO63 {
        sign, n, width := "-", TWO64 - num, width - 1;
      } else if f.plus {
        sign, width := "+", width - 1;
      } else if f.space {
        sign, width := " ", width - 1;
      }
    }
    if needPfx {
      width := width - 1;
      if base == 16 { width := width - 1; }
    }
    var tmp := new char[66];
    var i := Convert(tmp, n, base, locase);
    if i > prec { prec := i; }
    width := width - prec;
    LeftBeatsZero(width, sign, PrefixText(base, f), Body(num, base, precision, f), f.zeroPad, f.left);
    p := WriteOut(buf, at, width, sign, needPfx, base, locase, zeroPad, f.left, tmp, i, prec);
  }

  lemma BodyLength(num: U64, base: Base, precision: int, f: Flags)
    ensures var n := |DigitsOf(Magnitude(num, f), base)|;
            && |Body(num, base, precision, f)| == Max(precision, n)
            && Body(num, base, precision, f) == Repeat('0', Max(precision, n) - n) + DigitText(num, base, f)
  {
  }

  lemma LeftBeatsZero(w: int, sign: string, prefix: string, body: string, zeroPad: bool, left: bool)
    ensures Laid(w, sign, prefix, body, zeroPad && !left, left) == Laid(w, sign, prefix, body, zeroPad, left)
  {
  }

  /** The second half of number(): the padding loops. */
  method WriteOut(buf: array<char>, at: nat, size: int, sign: string, needPfx: bool, base: Base, locase: bool,
                  zeroPad: bool, left: bool, tmp: array<char>, i: nat, precision: int)
    returns (p: nat)
    requires buf != tmp && i <= tmp.Length && |sign| <= 1 && !(zeroPad && left)
    requires at + |Laid(size, sign, Prefix(needPfx, base, locase),
                        Repeat('0', precision - i) + Reversed(tmp[..i]), zeroPad, left)| <= buf.Length
    modifies buf
    ensures var text := Laid(size, sign, Prefix(needPfx, base, locase),
                             Repeat('0', precision - i) + Reversed(old(tmp[..i])), zeroPad, left);
            p == at + |text| && Wrote(buf[..], old(buf[..]), at, text)
  {
    hide Wrote, Repeat, Reversed;
    ghost var was, digits := buf[..], Reversed(tmp[..i]);
    Empty(was, at);
    ghost var text := if left || zeroPad then "" else Repeat(' ', size);
    var width := size;
    p := at;
    if !(zeroPad || left) {
      assert text == "" + Repeat(' ', size);
      p, width := Pad(buf, p, width, ' ', at, was, "");
    }
    assert Wrote(buf[..], was, at, text);
    p, text := WritePrefix(buf, p, sign, needPfx, base, locase, at, was, text);
    ghost var zeros := if !left && zeroPad then Repeat('0', size) else "";
    if !left {
      assert text + zeros == text + Repeat(if zeroPad then '0' else ' ', width);
      p, width := Pad(buf, p, width, if zeroPad then '0' else ' ', at, was, text);
    } else {
      assert text + zeros == text;
    }
    text := text + zeros;
    assert Wrote(buf[..], was, at, text);
    var none;
    p, none := Pad(buf, p, precision - i, '0', at, was, text);
    text := text + Repeat('0', precision - i);
    p := EmitDigits(buf, p, tmp, i, at, was, text);
    text := text + digits;
    ghost var blanks := if left then Repeat(' ', size) else "";
    assert text + blanks == text + Repeat(' ', width);
    p, width := Pad(buf, p, width, ' ', at, was, text);
    text := text + blanks;
    Associate(if left || zeroPad then "" else Repeat(' ', size), sign, Prefix(needPfx, base, locase), zeros,
              Repeat('0', precision - i), digits, blanks);
  }

  lemma Empty(was: string, at: nat)
    requires at <= |was|
    ensures Wrote(was, was, at, "")
  {
  }

  lemma Associate(a: string, b: string, c: string, d: string, e: string, f: string, g: string)
    ensures a + b + c + d + e + f + g == a + b + c + d + (e + f) + g
  {
  }

  /** The sign and the "0x" or "0" prefix. */
  method WritePrefix(buf: array<char>, at: nat, sign: string, needPfx: bool, base: Base, locase: bool,
                     ghost start: nat, ghost was: string, ghost text: string)
    returns (p: nat, ghost more: string)
    requires |sign| <= 1 && at == start + |text| && Wrote(buf[..], was, start, text)
    requires at + |sign| + |Prefix(needPfx, base, locase)| <= buf.Length
    modifies buf
    ensures more == text + sign + Prefix(needPfx, base, locase)
    ensures p == start + |more| && Wrote(buf[..], was, start, more)
  {
    hide Wrote;
    p, more := at, text;
    assert sign == "" ==> text + sign == text;
    if sign != "" {
      p := AddCh(buf, p, sign[0], start, was, more);
      assert [sign[0]] == sign;
    }
    more := text + sign;
    if needPfx {
      p := AddCh(buf, p, '0', start, was, more);
      if base == 16 {
        p := AddCh(buf, p, if locase then Or20('X') else 'X', start, was, more + ['0']);
        assert more + ['0'] + [if locase then Or20('X') else 'X'] == more + Prefix(needPfx, base, locase);
      } else {
        assert more + ['0'] == more + Prefix(needPfx, base, locase);
      }
    } else {
      assert more + "" == more;
    }
    more := more + Prefix(needPfx, base, locase);
  }
}

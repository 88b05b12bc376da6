/** The two number printers of the HAL: the general one of alt_log_printf and the hexadecimal
    one of alt_printf. */
module Printing {
  import opened Common
  import opened Numerals

  /** How a conversion is to be printed; width is -1 when none is given. */
  datatype Format = Format(base: int, signed: bool, zeroPad: bool, width: int, upper: bool)

  predicate GoodFormat(f: Format) {
    f.base == 8 || f.base == 10 || f.base == 16
  }

  /** The argument as the reader of the output should understand it. */
  function Meaning(v: U32, f: Format): int {
    if f.signed && v >= 0x8000_0000 then v - 0x1_0000_0000 else v
  }

  /** Zeros go between the sign and the digits, spaces before the sign. */
  function Layout(digits: string, negative: bool, zeroPad: bool, pad: int): string {
    var sign := if negative then "-" else "";
    if zeroPad then sign + Repeat('0', pad) + digits else Repeat(' ', pad) + sign + digits
  }

  function Magnitude(v: U32, f: Format): nat {
    if Meaning(v, f) < 0 then -Meaning(v, f) else Meaning(v, f)
  }

  /** What is printed: sign, padding and digits in one of two arrangements. */
  function Printed(v: U32, f: Format): string
    requires GoodFormat(f)
  {
    var digits := Glyphs(Digits(Magnitude(v, f), f.base), f.upper);
    var negative := Meaning(v, f) < 0;
    Layout(digits, negative, f.zeroPad, f.width - |digits| - (if negative then 1 else 0))
  }

  lemma ParseDigits(n: nat, base: int, upper: bool)
    requires base == 8 || base == 10 || base == 16
    ensures var digits := Glyphs(Digits(n, base), upper);
            && digits != [] && digits[0] != ' ' && digits[0] != '-'
            && ParseNat(digits, base) == Some(n)
  {
    ParseGlyphs(Digits(n, base), base, upper);
    DigitsHaveValue(n, base);
    DigitOfGlyph(Digits(n, base)[0], upper);
  }

  lemma ParseSigned(digits: string, n: nat, base: int, negative: bool)
    requires base > 0 && digits != [] && digits[0] != ' ' && digits[0] != '-'
    requires ParseNat(digits, base) == Some(n)
    ensures Parse((if negative then "-" else "") + digits, base)
            == Some(if negative then -(n as int) else n)
  {
    hide ParseNat;
    if negative {
      assert ("-" + digits)[1..] == digits;
    } else {
      assert "" + digits == digits;
    }
  }

  lemma ParseZeroPadded(digits: string, n: nat, base: int, negative: bool, pad: int)
    requires base > 0 && digits != [] && digits[0] != ' ' && digits[0] != '-'
    requires ParseNat(digits, base) == Some(n)
    ensures Parse((if negative then "-" else "") + Repeat('0', pad) + digits, base)
            == Some(if negative then -(n as int) else n)
  {
    hide Parse, ParseNat;
    var zeros := Repeat('0', pad);
    ParseZeros(pad, digits, base);
    assert (zeros + digits)[0] == if pad > 0 then zeros[0] else digits[0];
    ParseSigned(zeros + digits, n, base, negative);
    assert (if negative then "-" else "") + zeros + digits == (if negative then "-" else "") + (zeros + digits);
  }

  lemma ParseSpacePadded(digits: string, n: nat, base: int, negative: bool, pad: int)
    requires base > 0 && digits != [] && digits[0] != ' ' && digits[0] != '-'
    requires ParseNat(digits, base) == Some(n)
    ensures Parse(Repeat(' ', pad) + (if negative then "-" else "") + digits, base)
            == Some(if negative then -(n as int) else n)
  {
    hide Parse, ParseNat;
    var signed := (if negative then "-" else "") + digits;
    ParseSigned(digits, n, base, negative);
    ParseSpaces(pad, signed, base);
    assert Repeat(' ', pad) + (if negative then "-" else "") + digits == Repeat(' ', pad) + signed;
  }

  lemma ParseLayout(digits: string, n: nat, base: int, negative: bool, zeroPad: bool, pad: int)
    requires base > 0 && digits != [] && digits[0] != ' ' && digits[0] != '-'
    requires ParseNat(digits, base) == Some(n)
    ensures Parse(Layout(digits, negative, zeroPad, pad), base) == Some(if negative then -(n as int) else n)
  {
    hide Parse, ParseNat, Repeat;
    if zeroPad {
      ParseZeroPadded(digits, n, base, negative, pad);
    } else {
      ParseSpacePadded(digits, n, base, negative, pad);
    }
  }

  /** Round trip: every 32-bit argument, the most negative included, is read back from what was
      printed, whatever the base, width and padding. */
  lemma PrintedParses(v: U32, f: Format)
    requires GoodFormat(f)
    ensures Parse(Printed(v, f), f.base) == Some(Meaning(v, f))
  {
    hide Digits, Glyphs, Parse, ParseNat, Layout;
    var n := Magnitude(v, f);
    var digits := Glyphs(Digits(n, f.base), f.upper);
    var negative := Meaning(v, f) < 0;
    ParseDigits(n, f.base, f.upper);
    ParseLayout(digits, n, f.base, negative, f.zeroPad, f.width - |digits| - (if negative then 1 else 0));
  }

  /** The width is honoured exactly: padding fills up to it, and longer numerals are never cut. */
  lemma PrintedLength(v: U32, f: Format)
    requires GoodFormat(f)
    ensures var least := |Digits(Magnitude(v, f), f.base)| + (if Meaning(v, f) < 0 then 1 else 0);
            |Printed(v, f)| == if f.width > least then f.width else least
  {
  }

  /** So what is read back is the one number in the range of the conversion that the 32-bit
      argument can stand for. */
  lemma ReadsBack(v: U32, f: Format)
    requires GoodFormat(f)
    ensures var r := Parse(Printed(v, f), f.base);
            && r.Some? && r.value % 0x1_0000_0000 == v
            && (if f.signed then -0x8000_0000 <= r.value < 0x8000_0000 else 0 <= r.value < 0x1_0000_0000)
  {
    MeaningInRange(v, f);
    hide Printed, Parse, Meaning, ParseNat;
    PrintedParses(v, f);
  }

  lemma MeaningInRange(v: U32, f: Format)
    ensures Meaning(v, f) % 0x1_0000_0000 == v
    ensures if f.signed then -0x8000_0000 <= Meaning(v, f) < 0x8000_0000 else 0 <= Meaning(v, f) < 0x1_0000_0000
  {
  }

  function Sign(v: U32, f: Format): string {
    if Meaning(v, f) < 0 then "-" else ""
  }

  function Numeral(v: U32, f: Format): string
    requires GoodFormat(f)
  {
    Glyphs(Digits(Magnitude(v, f), f.base), f.upper)
  }

  lemma PrintedIs(v: U32, f: Format)
    requires GoodFormat(f)
    ensures var pad := f.width - |Numeral(v, f)| - |Sign(v, f)|;
            Printed(v, f) == if f.zeroPad then Sign(v, f) + Repeat('0', pad) + Numeral(v, f)
                             else Repeat(' ', pad) + Sign(v, f) + Numeral(v, f)
  {
    hide Digits, Glyphs, Repeat, Magnitude;
  }

  lemma PlainIs(v: U32, f: Format)
    requires GoodFormat(f)
    ensures Printed(v, f.(width := -1)) == Sign(v, f) + Numeral(v, f)
  {
    PrintedIs(v, f.(width := -1));
    assert Magnitude(v, f.(width := -1)) == Magnitude(v, f);
    hide Digits, Glyphs, Repeat, Magnitude, Printed;
    var pad := -1 - |Numeral(v, f)| - |Sign(v, f)|;
    assert |Repeat('0', pad)| == |Repeat(' ', pad)| == 0;
  }

  /** The numeral without padding: a minus sign if the number is negative, then digits of which
      the first is not zero, unless it is the only one. */
  lemma PlainNumeral(v: U32, f: Format)
    requires GoodFormat(f)
    ensures var plain, n := Printed(v, f.(width := -1)), |Sign(v, f)|;
            && |plain| > n && plain[..n] == Sign(v, f)
            && (plain[n] == '0' <==> v == 0) && (v == 0 ==> plain == "0")
            && forall i | n <= i < |plain| :: IsNumeral(plain[i], f.upper)
  {
    PlainIs(v, f);
    NumeralShape(v, f);
    Joined(Sign(v, f), Numeral(v, f));
    hide Printed, Numeral, Sign;
  }

  lemma Joined(sign: string, digits: string)
    ensures var plain := sign + digits;
            && plain[..|sign|] == sign
            && forall i | |sign| <= i < |plain| :: plain[i] == digits[i - |sign|]
  {
  }

  lemma NumeralShape(v: U32, f: Format)
    requires GoodFormat(f)
    ensures var s := Numeral(v, f);
            && s != [] && (s[0] == '0' <==> v == 0) && (v == 0 ==> s == "0" && Sign(v, f) == "")
            && forall i | 0 <= i < |s| :: IsNumeral(s[i], f.upper)
  {
    var n := Magnitude(v, f);
    NoLeadingZero(n, f.base);
    GlyphIsNumeral(Digits(n, f.base), f.upper);
    if v == 0 {
      assert Digits(0, f.base) == [0];
    }
    hide Digits;
  }

  /** The digits of one case only. */
  predicate IsNumeral(c: char, upper: bool) {
    '0' <= c <= '9' || (if upper then 'A' <= c <= 'F' else 'a' <= c <= 'f')
  }

  lemma GlyphIsNumeral(ds: seq<nat>, upper: bool)
    requires forall i | 0 <= i < |ds| :: ds[i] < 16
    ensures forall i | 0 <= i < |ds| ::
              IsNumeral(Glyphs(ds, upper)[i], upper) && (Glyphs(ds, upper)[i] == '0' <==> ds[i] == 0)
  {
  }

  /** Padding: spaces go in front of the plain numeral, zeros behind its sign. */
  lemma PaddingSide(v: U32, f: Format)
    requires GoodFormat(f)
    ensures var plain, n := Printed(v, f.(width := -1)), |Sign(v, f)|;
            && n <= |plain|
            && Printed(v, f)
            == if f.zeroPad then plain[..n] + Repeat('0', f.width - |plain|) + plain[n..]
               else Repeat(' ', f.width - |plain|) + plain
  {
    PlainIs(v, f);
    PrintedIs(v, f);
    hide Printed, Numeral, Sign, Repeat;
    Padded(Sign(v, f), Numeral(v, f), f.zeroPad, f.width);
  }

  lemma Padded(sign: string, digits: string, zeroPad: bool, width: int)
    ensures var plain, pad := sign + digits, width - |digits| - |sign|;
            && plain[..|sign|] == sign && plain[|sign|..] == digits && width - |plain| == pad
            && Repeat(' ', pad) + sign + digits == Repeat(' ', pad) + plain
  {
    hide Repeat;
  }

  // ---------------------------------------------------------------- alt_log_private_printf

  /** alt_log_repchar. */
  method RepChar(c: char, r: int, out: string) returns (s: string)
    ensures s == out + Repeat(c, r)
  {
    s := out;
    var left := r;
    while left > 0
      invariant left <= r || r < 0
      invariant left >= 0 || left == r
      invariant s == out + Repeat(c, r - (if left > 0 then left else 0))
    {
      left := left - 1;
      s := s + [c];
      assert Repeat(c, r - left) == Repeat(c, r - left - 1) + [c];
    }
  }

  function Power(b: nat, k: nat): nat {
    if k == 0 then 1 else Power(b, k - 1) * b
  }

  /** The digit count and the largest place value; p stays within 32 bits. */
  method CountDigits(v: U32, base: int) returns (digitCount: nat, p: U32)
    requires base == 8 || base == 10 || base == 16
    ensures digitCount == |Digits(v, base)|
    ensures p > 0 && v < p * base && (digitCount > 1 ==> p <= v)
    ensures p == Power(base, digitCount - 1)
  {
    hide Digits;
    var shrink: U32 := v / base;
    digitCount, p := 1, 1;
    FirstShrink(v, base);
    while shrink > 0
      invariant p == Power(base, digitCount - 1) && (digitCount > 1 ==> p <= v)
      invariant p > 0 && p * base > 0 && shrink == v / (p * base)
      invariant shrink > 0 ==> digitCount + |Digits(shrink, base)| == |Digits(v, base)|
      invariant shrink == 0 ==> digitCount == |Digits(v, base)|
      decreases shrink
    {
      NextShrink(v, p, base);
      digitCount := digitCount + 1;
      p := p * base;
      shrink := shrink / base;
    }
    BelowNext(v, p * base);
  }

  lemma FirstShrink(v: nat, base: nat)
    requires base >= 2
    ensures v / base > 0 ==> 1 + |Digits(v / base, base)| == |Digits(v, base)|
    ensures v / base == 0 ==> |Digits(v, base)| == 1
  {
    DigitsStep(v, 1, base);
  }

  lemma NextShrink(v: nat, p: nat, base: nat)
    requires base >= 2 && p > 0 && p * base > 0 && v / (p * base) > 0
    ensures (v / (p * base)) / base == v / (p * base * base)
    ensures p * base <= v
    ensures var s := v / (p * base);
            && s / base < s
            && (s / base > 0 ==> |Digits(s, base)| == 1 + |Digits(s / base, base)|)
            && (s / base == 0 ==> |Digits(s, base)| == 1)
  {
    DivDiv(v, p * base, base);
    ShrinksTo(v, p * base, base);
  }

  lemma ShrinksTo(v: nat, q: nat, base: nat)
    requires base >= 2 && q > 0 && v / q > 0
    ensures q <= v
    ensures var s := v / q;
            && s / base < s
            && (s / base > 0 ==> |Digits(s, base)| == 1 + |Digits(s / base, base)|)
            && (s / base == 0 ==> |Digits(s, base)| == 1)
  {
    var s := v / q;
    FirstShrink(s, base);
    hide Digits;
    assert v == q * s + v % q;
    MulMonotone(1, s, q);
    if s >= base {
      DivLess(s, base);
    }
  }

  lemma BelowNext(v: nat, q: nat)
    requires q > 0 && v / q == 0
    ensures v < q
  {
    assert v == q * (v / q) + v % q;
  }

  /** Between two turns of the digit loop: ds are the digits of v0 down to place value q, and v
      is what is left; nothing has been printed while v0 is below q for the first time. */
  ghost predicate Emitted(v0: nat, base: nat, q: nat, v: nat, ds: seq<nat>)
    requires base >= 2
  {
    && q > 0 && v == v0 % q
    && (ds == [] ==> v0 / q == 0)
    && (ds != [] ==> ds == Digits(v0 / q, base) && (q > 1 ==> v0 / q > 0))
    && (forall i | 0 <= i < |ds| :: ds[i] < base)
  }

  lemma EmitOne(v0: nat, base: nat, p: nat, q: nat, v: nat, ds: seq<nat>)
    requires 2 <= base <= 16 && p > 0 && q == p * base && Emitted(v0, base, q, v, ds)
    requires ds == [] && p > 1 ==> p <= v0
    ensures v / p < base && Emitted(v0, base, p, v % p, ds + [v / p])
  {
    hide Digits, Emitted;
    PlaceStep(v0, p, base);
    MoreThanOne(p, base);
    EmitAt(v0, base, p, q, v, ds);
  }

  /** The same for any place value q above p, as far as the digits are concerned. */
  lemma EmitAt(v0: nat, base: nat, p: nat, q: nat, v: nat, ds: seq<nat>)
    requires base >= 2 && p > 0 && q > 1 && Emitted(v0, base, q, v, ds)
    requires (v0 % q) / p < base && (v0 % q) % p == v0 % p
    requires v0 / q > 0 ==> v0 / p > 0 && Digits(v0 / p, base) == Digits(v0 / q, base) + [(v0 % q) / p]
    requires v0 / q == 0 ==> Digits(v0 / p, base) == [(v0 % q) / p]
    requires ds == [] && p > 1 ==> p <= v0
    ensures v / p < base && Emitted(v0, base, p, v % p, ds + [v / p])
  {
    hide Digits;
    if ds == [] && p > 1 {
      AtLeastOne(v0, p);
    }
  }

  lemma MoreThanOne(p: nat, base: nat)
    requires p > 0 && base >= 2
    ensures p * base > 1
  {
    MulMonotone(1, p, base);
  }

  lemma Shrinks(v: nat, p: nat, base: nat)
    requires p > 0 && base >= 2
    ensures v / p >= 0 && v % p >= 0 && 0 <= p / base < p
  {
    QuotientNonNegative(v, p);
    if p >= base {
      DivLess(p, base);
    } else {
      DivUnique(p, base, 0, p);
    }
  }

  lemma QuotientNonNegative(v: nat, p: nat)
    requires p > 0
    ensures v / p >= 0
  {
    var q := v / p;
    assert v == p * q + v % p;
  }

  lemma AtLeastOne(v: nat, p: nat)
    requires 0 < p <= v
    ensures v / p > 0
  {
    if v / p == 0 {
      BelowNext(v, p);
    }
  }

  lemma NothingEmitted(v0: nat, base: nat, q: nat)
    requires base >= 2 && v0 < q
    ensures Emitted(v0, base, q, v0, [])
  {
    DivUnique(v0, q, 0, v0);
  }

  lemma AllEmitted(v0: nat, base: nat, v: nat, ds: seq<nat>)
    requires base >= 2 && Emitted(v0, base, 1, v, ds) && ds != []
    ensures ds == Digits(v0, base)
  {
  }

  /** The digit loop: p runs down from the largest place value to zero. */
  method EmitDigits(v0: U32, p0: U32, base: int, upper: bool, out: string, ghost k0: nat) returns (s: string)
    requires base == 8 || base == 10 || base == 16
    requires p0 == Power(base, k0) && p0 > 0 && v0 < p0 * base && (k0 > 0 ==> p0 <= v0)
    ensures s == out + Glyphs(Digits(v0, base), upper)
  {
    hide Digits, Power, Glyph, Emitted;
    s := out;
    var v: nat, p: nat := v0, p0;
    ghost var ds: seq<nat> := [];
    ghost var k, q := k0 + 1, p0 * base;
    PowerStep(base, k0);
    NothingEmitted(v0, base, q);
    assert Glyphs(ds, upper) == [];
    while p > 0
      invariant 0 <= k <= k0 + 1 && (k <= k0 ==> ds != [])
      invariant if k > 0 then p == Power(base, k - 1) > 0 && q == p * base else p == 0 && q == 1
      invariant Emitted(v0, base, q, v, ds) && (ds == [] && p > 1 ==> p <= v0)
      invariant forall i | 0 <= i < |ds| :: ds[i] < 16
      invariant s == out + Glyphs(ds, upper)
      decreases p
    {
      EmitOne(v0, base, p, q, v, ds);
      Shrinks(v, p, base);
      PowerStep(base, k - 1);
      var d := v / p;
      s := s + [Glyph(d, upper)];
      GlyphsMore(out, ds, d, upper);
      ds := ds + [d];
      v := v % p;
      k, q := k - 1, p;
      p := p / base;
    }
    AllEmitted(v0, base, v, ds);
  }

  lemma GlyphsMore(out: string, ds: seq<nat>, d: nat, upper: bool)
    requires d < 16 && forall i | 0 <= i < |ds| :: ds[i] < 16
    ensures out + Glyphs(ds, upper) + [Glyph(d, upper)] == out + Glyphs(ds + [d], upper)
  {
    assert Glyphs(ds + [d], upper) == Glyphs(ds, upper) + [Glyph(d, upper)];
  }

  /** One turn of the digit loop at place value p. */
  lemma PlaceStep(v: nat, p: nat, base: nat)
    requires 2 <= base <= 16 && p > 0
    ensures p * base > 0
    ensures (v % (p * base)) / p < base
    ensures (v % (p * base)) % p == v % p
    ensures v / (p * base) > 0 ==>
              v / p > 0 && Digits(v / p, base) == Digits(v / (p * base), base) + [(v % (p * base)) / p]
    ensures v / (p * base) == 0 ==> Digits(v / p, base) == [(v % (p * base)) / p]
  {
    hide Digits;
    DivDiv(v, p, base);
    DigitsStep(v, p, base);
  }

  lemma PowerStep(b: nat, k: nat)
    requires b > 0 && Power(b, k) > 0
    ensures if k > 0 then
              Power(b, k - 1) > 0 && Power(b, k) == Power(b, k - 1) * b && Power(b, k) / b == Power(b, k - 1)
            else Power(b, k) == 1 && (b > 1 ==> Power(b, k) / b == 0)
  {
    if k > 0 {
      PowerPositive(b, k - 1);
      DivUnique(Power(b, k), b, Power(b, k - 1), 0);
    }
  }

  lemma {:induction false} PowerPositive(b: nat, k: nat)
    requires b > 0
    ensures Power(b, k) > 0
  {
    if k > 0 {
      PowerPositive(b, k - 1);
    }
  }

  /** The integer conversion of alt_log_private_printf. */
  method LogInteger(arg: U32, f: Format, out: string) returns (s: string)
    requires GoodFormat(f)
    ensures s == out + Printed(arg, f)
  {
    hide Digits, Glyphs, Repeat, Power;
    var v, sign := arg, false;
    if f.signed && v >= 0x8000_0000 {
      // the complement plus one, modulo 2^32
      v := (0xFFFF_FFFF - v + 1) % 0x1_0000_0000;
      sign := true;
    }
    var digitCount, p := CountDigits(v, f.base);
    var fill := f.width - digitCount;
    s := out;
    if f.zeroPad {
      if sign {
        s := s + "-";
        fill := fill - 1;
      }
      s := RepChar('0', fill, s);
    } else {
      if sign {
        fill := fill - 1;
      }
      s := RepChar(' ', fill, s);
      if sign {
        s := s + "-";
      }
    }
    s := EmitDigits(v, p, f.base, f.upper, s, digitCount - 1);
    Arranged(arg, f, out, Repeat(if f.zeroPad then '0' else ' ', fill), s);
  }

  /** The pieces in the order they are sent. */
  lemma Arranged(arg: U32, f: Format, out: string, padding: string, s: string)
    requires GoodFormat(f)
    requires var digits := Glyphs(Digits(Magnitude(arg, f), f.base), f.upper);
             var sign := if Meaning(arg, f) < 0 then "-" else "";
             && padding == Repeat(if f.zeroPad then '0' else ' ', f.width - |digits| - |sign|)
             && s == if f.zeroPad then out + sign + padding + digits else out + padding + sign + digits
    ensures s == out + Printed(arg, f)
  {
    hide Digits, Glyphs, Repeat;
  }

  // ---------------------------------------------------------------- alt_printf

  /** The unsigned hexadecimal numeral without padding. */
  function HexFormat(): Format {
    Format(16, false, false, -1, false)
  }

  /** v & (0xF << shift), and the same shifted back down. */
  function Masked(v: U32, shift: nat): nat {
    PowerPositive(2, shift);
    v / Power(2, shift) % 16 * Power(2, shift)
  }

  function Nibble(v: U32, shift: nat): nat {
    PowerPositive(2, shift);
    Masked(v, shift) / Power(2, shift)
  }

  lemma FourBits(shift: nat)
    ensures Power(2, shift) > 0 && Power(2, shift + 4) == Power(2, shift) * 16
  {
    PowerPositive(2, shift);
    assert Power(2, shift + 4) == Power(2, shift + 3) * 2 == Power(2, shift + 2) * 4 == Power(2, shift + 1) * 8;
  }

  /** The masked nibble is the hexadecimal digit of weight 2^shift. */
  lemma NibbleIsDigit(v: U32, shift: nat)
    ensures var p := Power(2, shift);
            && p > 0 && p * 16 > 0
            && Nibble(v, shift) == (v % (p * 16)) / p
            && (Masked(v, shift) == 0 <==> Nibble(v, shift) == 0)
  {
    hide Power;
    PowerPositive(2, shift);
    var p := Power(2, shift);
    var d := v / p % 16;
    DivDiv(v, p, 16);
    DivUnique(d * p, p, d, 0);
  }

  /** A zero nibble above which there is nothing: the number is smaller still. */
  lemma SkipNibble(v: U32, shift: nat)
    requires v < Power(2, shift + 4) && Masked(v, shift) == 0
    ensures v < Power(2, shift)
  {
    hide Power, Masked, Nibble;
    FourBits(shift);
    NibbleIsDigit(v, shift);
    var p := Power(2, shift);
    DivUnique(v, p * 16, 0, v);
    BelowNext(v, p);
  }

  lemma TopNibble(v: U32, shift: nat)
    requires Masked(v, shift) != 0
    ensures Power(2, shift) <= v
  {
    hide Power, Masked, Nibble;
    NibbleIsDigit(v, shift);
    var p := Power(2, shift);
    if v < p {
      MulMonotone(1, 16, p);
      DivUnique(v, p * 16, 0, v);
      DivUnique(v, p, 0, v);
    }
  }

  lemma Power32()
    ensures Power(2, 32) == 0x1_0000_0000
  {
    FourBits(0);
    FourBits(4);
    FourBits(8);
    FourBits(12);
    FourBits(16);
    FourBits(20);
    FourBits(24);
    FourBits(28);
  }

  /** The first loop of the %x branch: the position of the highest non-zero digit. */
  method FindDigit(v: U32) returns (shift: nat)
    requires v != 0
    ensures shift <= 28 && shift % 4 == 0
    ensures Masked(v, shift) != 0 && v < Power(2, shift + 4)
  {
    hide Power, Masked;
    Power32();
    shift := 28;
    while Masked(v, shift) == 0
      invariant shift <= 28 && shift % 4 == 0 && v < Power(2, shift + 4)
      decreases shift
    {
      SkipNibble(v, shift);
      assert Power(2, 0) == 1 by { Whole(1, 2); }
      shift := shift - 4;
    }
  }

  /** The %x branch of alt_printf. */
  method PrintHex(v: U32, out: string) returns (s: string)
    ensures s == out + Printed(v, HexFormat())
  {
    hide Digits, Power, Glyph, Emitted, Masked, Nibble;
    if v == 0 {
      s := out + ['0'];
      ZeroHex();
      return;
    }
    s := out;
    var first := FindDigit(v);
    TopNibble(v, first);
    var shift: int := first;
    ghost var ds: seq<nat> := [];
    NothingEmitted(v, 16, Power(2, first + 4));
    DivUnique(v, Power(2, first + 4), 0, v);
    assert Glyphs(ds, false) == [];
    while shift >= 0
      invariant -4 <= shift <= first && shift % 4 == 0
      invariant Power(2, shift + 4) > 0 && Emitted(v, 16, Power(2, shift + 4), v % Power(2, shift + 4), ds)
      invariant shift < first ==> ds != []
      invariant shift >= 0 && ds == [] ==> Power(2, shift) <= v
      invariant forall i | 0 <= i < |ds| :: ds[i] < 16
      invariant s == out + Glyphs(ds, false)
      decreases shift + 4
    {
      HexTurn(v, shift, ds, out);
      var digit := Nibble(v, shift);
      var c := if digit <= 9 then '0' + digit as char else 'a' + (digit - 10) as char;
      s := s + [c];
      ds := ds + [digit];
      shift := shift - 4;
    }
    assert Power(2, 0) == 1 by { Whole(1, 2); }
    AllEmitted(v, 16, v % 1, ds);
    Arranged(v, HexFormat(), out, Repeat(' ', -1 - |ds|), s);
  }

  /** One turn of the digit loop: the nibble is the next digit, and its character that digit's. */
  lemma HexTurn(v: U32, shift: nat, ds: seq<nat>, out: string)
    requires Power(2, shift + 4) > 0 && forall i | 0 <= i < |ds| :: ds[i] < 16
    requires Emitted(v, 16, Power(2, shift + 4), v % Power(2, shift + 4), ds)
    requires ds == [] ==> Power(2, shift) <= v
    ensures var d := Nibble(v, shift);
            && d < 16 && Power(2, shift) > 0
            && Emitted(v, 16, Power(2, shift), v % Power(2, shift), ds + [d])
            && out + Glyphs(ds, false) + [if d <= 9 then '0' + d as char else 'a' + (d - 10) as char]
            == out + Glyphs(ds + [d], false)
  {
    hide Digits, Power, Glyph, Emitted, Masked, Nibble, Glyphs;
    FourBits(shift);
    NextNibble(v, shift, ds);
    LowerGlyph(Nibble(v, shift));
    GlyphsMore(out, ds, Nibble(v, shift), false);
  }

  lemma NextNibble(v: U32, shift: nat, ds: seq<nat>)
    requires Power(2, shift + 4) > 0 && Power(2, shift) > 0
    requires Emitted(v, 16, Power(2, shift + 4), v % Power(2, shift + 4), ds)
    requires ds == [] ==> Power(2, shift) <= v
    ensures Nibble(v, shift) < 16
    ensures Emitted(v, 16, Power(2, shift), v % Power(2, shift), ds + [Nibble(v, shift)])
  {
    hide Digits, Power, Masked, Nibble, Emitted;
    FourBits(shift);
    NibbleIsDigit(v, shift);
    var p := Power(2, shift);
    EmitOne(v, 16, p, p * 16, v % (p * 16), ds);
    DivDiv(v, p, 16);
  }

  lemma LowerGlyph(d: nat)
    requires d < 16
    ensures Glyph(d, false) == if d <= 9 then '0' + d as char else 'a' + (d - 10) as char
  {
  }

  lemma ZeroHex()
    ensures Printed(0, HexFormat()) == "0"
  {
    assert Digits(0, 16) == [0];
    assert Glyphs([0], false) == "0";
  }

  lemma Whole(v: nat, base: nat)
    ensures Power(base, 0) == 1 && v / Power(base, 0) == v
  {
  }

  /** The two hexadecimal printers send the same characters for every 32-bit argument. */
  method HexPrintersAgree(v: U32) returns (a: string, b: string)
    ensures a == b == Printed(v, HexFormat())
    ensures Parse(a, 16) == Some(v)
  {
    hide Printed, Parse;
    a := LogInteger(v, HexFormat(), []);
    b := PrintHex(v, []);
    assert [] + Printed(v, HexFormat()) == Printed(v, HexFormat());
    PrintedParses(v, HexFormat());
  }
}

/** Numerals in a base: digits, their value, and the characters they are printed with. */
module Numerals {
  import opened Common

  /** Most significant digit first; zero has one digit. */
  function Digits(v: nat, b: nat): (ds: seq<nat>)
    requires b >= 2
    ensures |ds| > 0
    ensures forall i | 0 <= i < |ds| :: ds[i] < b
    decreases v
  {
    if v < b then [v]
    else
      DivLess(v, b);
      Digits(v / b, b) + [v % b]
  }

  function ValueOf(ds: seq<nat>, b: nat): nat {
    if ds == [] then 0 else ValueOf(ds[..|ds| - 1], b) * b + ds[|ds| - 1]
  }

  lemma DivLess(v: nat, b: nat)
    requires b >= 2 && v >= b
    ensures 0 < v / b < v
    ensures v == b * (v / b) + v % b
  {
    var q := v / b;
    assert v == b * q + v % b;
    MulMonotone(2, b, q);
  }

  lemma MulMonotone(x: nat, y: nat, k: nat)
    requires x <= y
    ensures x * k <= y * k
  {
  }

  lemma ValueOfMore(ds: seq<nat>, d: nat, b: nat)
    ensures ValueOf(ds + [d], b) == ValueOf(ds, b) * b + d
  {
    assert (ds + [d])[..|ds|] == ds;
  }

  lemma LastDigit(v: nat, b: nat)
    requires b >= 2
    ensures v < b ==> ValueOf(Digits(v, b), b) == v
    ensures v >= b ==> v / b < v && Digits(v, b) == Digits(v / b, b) + [v % b] && v == (v / b) * b + v % b
  {
    if v >= b {
      DivLess(v, b);
    } else {
      ValueOfMore([], v, b);
      assert [] + [v] == Digits(v, b);
    }
  }

  lemma {:induction false} DigitsHaveValue(v: nat, b: nat)
    requires b >= 2
    ensures ValueOf(Digits(v, b), b) == v
    decreases v
  {
    hide ValueOf, Digits;
    LastDigit(v, b);
    if v >= b {
      DigitsHaveValue(v / b, b);
      ValueOfMore(Digits(v / b, b), v % b, b);
    }
  }

  /** Only zero begins with the digit zero. */
  lemma {:induction false} NoLeadingZero(v: nat, b: nat)
    requires b >= 2
    ensures Digits(v, b)[0] == 0 <==> v == 0
    decreases v
  {
    if v >= b {
      DivLess(v, b);
      NoLeadingZero(v / b, b);
    }
  }

  /** Quotient and remainder are determined by their defining equation. */
  lemma DivUnique(x: nat, y: nat, q: nat, r: nat)
    requires y > 0 && x == y * q + r && r < y
    ensures x / y == q && x % y == r
  {
    var q2, r2 := x / y, x % y;
    assert y * q2 + r2 == y * q + r;
    if q < q2 {
      MulMonotone(q + 1, q2, y);
    } else if q2 < q {
      MulMonotone(q2 + 1, q, y);
    }
  }

  lemma Regroup(p: nat, b: nat, q: nat, d: nat)
    ensures (p * b) * q + p * d == p * (b * q + d)
  {
    assert (p * b) * q == p * (b * q);
  }

  lemma SmallDigit(r: nat, p: nat, b: nat)
    requires p > 0 && r < p * b
    ensures 0 <= r / p < b && 0 <= r % p < p && r == p * (r / p) + r % p
  {
    var d := r / p;
    assert r == p * d + r % p;
    if d >= b {
      MulMonotone(b, d, p);
    }
  }

  /** Dividing by p and then by b is dividing by their product; and the digit of weight p. */
  lemma DivDiv(v: nat, p: nat, b: nat)
    requires p > 0 && b > 0
    ensures p * b > 0
    ensures (v / p) / b == v / (p * b)
    ensures (v / p) % b == (v % (p * b)) / p
    ensures (v % (p * b)) % p == v % p
  {
    MulMonotone(1, b, p);
    var pb := p * b;
    var q, r := v / pb, v % pb;
    assert v == pb * q + r;
    SmallDigit(r, p, b);
    var d, e := r / p, r % p;
    Regroup(p, b, q, d);
    assert v == p * (b * q + d) + e;
    DivUnique(v, p, b * q + d, e);
    DivUnique(b * q + d, b, q, d);
  }

  /** Reading one more digit of v. */
  lemma DigitsStep(v: nat, p: nat, b: nat)
    requires p > 0 && b >= 2
    ensures p * b > 0
    ensures v / (p * b) > 0 ==> Digits(v / p, b) == Digits(v / (p * b), b) + [(v % (p * b)) / p]
    ensures v / (p * b) == 0 ==> Digits(v / p, b) == [(v % (p * b)) / p]
  {
    DivDiv(v, p, b);
    var x := v / p;
    if x >= b {
      DivLess(x, b);
    } else {
      DivUnique(x, b, 0, x);
    }
  }

  // ---------------------------------------------------------------- characters

  function Glyph(d: nat, upper: bool): char
    requires d < 16
  {
    if d <= 9 then '0' + d as char else (if upper then 'A' else 'a') + (d - 10) as char
  }

  function Glyphs(ds: seq<nat>, upper: bool): (s: string)
    requires forall i | 0 <= i < |ds| :: ds[i] < 16
    ensures |s| == |ds|
    ensures forall i | 0 <= i < |ds| :: s[i] == Glyph(ds[i], upper)
  {
    seq(|ds|, i requires 0 <= i < |ds| => Glyph(ds[i], upper))
  }

  /** The digit a character stands for. */
  function DigitOf(c: char): Option<nat> {
    if '0' <= c <= '9' then Some((c - '0') as nat)
    else if 'a' <= c <= 'f' then Some((c - 'a') as nat + 10)
    else if 'A' <= c <= 'F' then Some((c - 'A') as nat + 10)
    else None
  }

  lemma DigitOfGlyph(d: nat, upper: bool)
    requires d < 16
    ensures DigitOf(Glyph(d, upper)) == Some(d)
  {
  }

  /** The value of an unsigned numeral. */
  function ParseNat(s: string, b: nat): Option<nat> {
    if s == [] then Some(0)
    else
      var rest := ParseNat(s[..|s| - 1], b);
      var last := DigitOf(s[|s| - 1]);
      if rest.Some? && last.Some? && last.value < b then Some(rest.value * b + last.value) else None
  }

  function Negated(v: Option<int>): Option<int> {
    if v.None? then None else Some(-v.value)
  }

  /** Leading spaces, an optional minus sign, then at least one digit. */
  function Parse(s: string, b: nat): Option<int> {
    if s == [] then None
    else if s[0] == ' ' then Parse(s[1..], b)
    else if s[0] == '-' then
      if |s| == 1 then None
      else Negated(ParseNat(s[1..], b))
    else ParseNat(s, b)
  }

  function Repeat(c: char, n: int): (s: string)
    ensures |s| == if n > 0 then n else 0
    ensures forall i | 0 <= i < |s| :: s[i] == c
  {
    if n <= 0 then [] else Repeat(c, n - 1) + [c]
  }

  lemma {:induction false} ParseGlyphs(ds: seq<nat>, b: nat, upper: bool)
    requires 0 < b <= 16 && forall i | 0 <= i < |ds| :: ds[i] < b
    ensures ParseNat(Glyphs(ds, upper), b) == Some(ValueOf(ds, b))
  {
    if ds != [] {
      var init := ds[..|ds| - 1];
      ParseGlyphs(init, b, upper);
      DigitOfGlyph(ds[|ds| - 1], upper);
      assert Glyphs(ds, upper)[..|ds| - 1] == Glyphs(init, upper);
    }
  }

  /** Leading zeros do not change the value. */
  lemma {:induction false} ParseZeros(n: int, s: string, b: nat)
    requires b > 0
    ensures ParseNat(Repeat('0', n) + s, b) == ParseNat(s, b)
    decreases |s|, n
  {
    var t := Repeat('0', n) + s;
    if s != [] {
      ParseZeros(n, s[..|s| - 1], b);
      assert t[..|t| - 1] == Repeat('0', n) + s[..|s| - 1];
    } else if n > 0 {
      ParseZeros(n - 1, s, b);
      assert t[..|t| - 1] == Repeat('0', n - 1) + s;
    } else {
      assert t == s;
    }
  }

  lemma {:induction false} ParseSpaces(n: int, s: string, b: nat)
    requires s != []
    ensures Parse(Repeat(' ', n) + s, b) == Parse(s, b)
    decreases n
  {
    var t := Repeat(' ', n) + s;
    if n > 0 {
      ParseSpaces(n - 1, s, b);
      assert t[1..] == Repeat(' ', n - 1) + s;
    } else {
      assert t == s;
    }
  }
}

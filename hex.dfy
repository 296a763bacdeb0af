// Fixed-width lowercase hexadecimal text, shared by the entity identifier
// (UUID) form and by RGB colours.

module Hex {

  const Digits: string := "0123456789abcdef"

  /** 16 to the power w: the number of values that fit in w hex digits. */
  function Pow16(w: nat): (p: nat)
    ensures p >= 1
  {
    if w == 0 then 1 else 16 * Pow16(w - 1)
  }

  /** Any hex digit, either case (what a hex parser accepts). */
  predicate IsHexDigit(c: char) {
    ('0' <= c <= '9') || ('a' <= c <= 'f') || ('A' <= c <= 'F')
  }

  /** A lowercase hex digit (what a hex formatter emits). */
  predicate IsLowerHexDigit(c: char) {
    ('0' <= c <= '9') || ('a' <= c <= 'f')
  }

  predicate AllHex(s: string) {
    forall i :: 0 <= i < |s| ==> IsHexDigit(s[i])
  }

  predicate AllLowerHex(s: string) {
    forall i :: 0 <= i < |s| ==> IsLowerHexDigit(s[i])
  }

  function Digit(n: nat): (c: char)
    requires n < 16
    ensures IsLowerHexDigit(c)
  {
    Digits[n]
  }

  function DigitValue(c: char): (v: nat)
    requires IsHexDigit(c)
    ensures v < 16
  {
    if '0' <= c <= '9' then c as int - '0' as int
    else if 'a' <= c <= 'f' then c as int - 'a' as int + 10
    else c as int - 'A' as int + 10
  }

  lemma DigitValueOfDigit(n: nat)
    requires n < 16
    ensures DigitValue(Digit(n)) == n
  {
  }

  /** The value n written as exactly `width` lowercase hex digits, most significant first. */
  function ToHex(n: nat, width: nat): (s: string)
    requires n < Pow16(width)
    ensures |s| == width
  {
    if width == 0 then "" else ToHex(n / 16, width - 1) + [Digit(n % 16)]
  }

  /** ToHex emits lowercase hex digits only. */
  lemma {:induction false} ToHexLower(n: nat, width: nat)
    requires n < Pow16(width)
    ensures AllLowerHex(ToHex(n, width))
    ensures AllHex(ToHex(n, width))
  {
    if width > 0 {
      ToHexLower(n / 16, width - 1);
    }
  }

  /** One digit of ToHex, for evaluating it on given values. */
  lemma ToHexStep(n: nat, width: nat, q: nat, r: nat)
    requires 0 < width && n < Pow16(width) && q == n / 16 && r == n % 16
    ensures ToHex(n, width) == ToHex(q, width - 1) + [Digit(r)]
  {
  }

  /** The value of a string of hex digits, most significant first. */
  function FromHex(s: string): (n: nat)
    requires AllHex(s)
    ensures n < Pow16(|s|)
  {
    if s == [] then 0 else FromHex(s[..|s| - 1]) * 16 + DigitValue(s[|s| - 1])
  }

  /** Reading back what ToHex wrote gives the original value. */
  lemma {:induction false} FromToHex(n: nat, width: nat)
    requires n < Pow16(width)
    ensures AllHex(ToHex(n, width))
    ensures FromHex(ToHex(n, width)) == n
  {
    ToHexLower(n, width);
    if width > 0 {
      var s := ToHex(n, width);
      assert s[..|s| - 1] == ToHex(n / 16, width - 1);
      FromToHex(n / 16, width - 1);
      DigitValueOfDigit(n % 16);
    }
  }

  /** Every lowercase digit is what Digit writes for its value. */
  lemma DigitOfValue(c: char)
    requires IsLowerHexDigit(c)
    ensures Digit(DigitValue(c)) == c
  {
    var v := DigitValue(c);
    if v < 8 {
      if v < 4 {
        if v < 2 { assert v == 0 || v == 1; } else { assert v == 2 || v == 3; }
      } else {
        if v < 6 { assert v == 4 || v == 5; } else { assert v == 6 || v == 7; }
      }
    } else {
      if v < 12 {
        if v < 10 { assert v == 8 || v == 9; } else { assert v == 10 || v == 11; }
      } else {
        if v < 14 { assert v == 12 || v == 13; } else { assert v == 14 || v == 15; }
      }
    }
  }

  lemma DivMod16(n: nat, q: nat, d: nat)
    requires d < 16 && n == q * 16 + d
    ensures n / 16 == q && n % 16 == d
  {
  }

  /** Writing back the value of lowercase hex digits gives the same digits. */
  lemma {:induction false} ToFromHex(s: string)
    requires AllLowerHex(s)
    ensures AllHex(s) && FromHex(s) < Pow16(|s|) && ToHex(FromHex(s), |s|) == s
  {
    if s != [] {
      var t := s[..|s| - 1];
      var c := s[|s| - 1];
      ToFromHex(t);
      var q, d := FromHex(t), DigitValue(c);
      assert FromHex(s) == q * 16 + d;
      DivMod16(FromHex(s), q, d);
      DigitOfValue(c);
      ToHexStep(FromHex(s), |s|, q, d);
      assert s == t + [c];
    }
  }

  /** The powers used by 16-bit, 32-bit and 48-bit fields. */
  lemma Pow16Values()
    ensures Pow16(4) == 0x10000
    ensures Pow16(8) == 0x1_0000_0000
    ensures Pow16(12) == 0x1_0000_0000_0000
  {
  }

  /** The powers used by 64-bit, 96-bit and 128-bit values. */
  lemma Pow16Wide()
    ensures Pow16(16) == 0x1_0000_0000_0000_0000
    ensures Pow16(24) == 0x1_0000_0000_0000_0000_0000_0000
    ensures Pow16(32) == 0x1_0000_0000_0000_0000_0000_0000_0000_0000
  {
    Pow16Values();
    Pow16Add(8, 8);
    Pow16Add(16, 8);
    Pow16Add(24, 8);
  }

  lemma Pow16Add(v: nat, w: nat)
    ensures Pow16(v + w) == Pow16(v) * Pow16(w)
  {
    if w > 0 {
      Pow16Add(v, w - 1);
    }
  }

  lemma MulBound(a: nat, pa: nat, m: nat, b: nat)
    requires a < pa && b < m
    ensures a * m + b < pa * m
  {
    assert a * m <= (pa - 1) * m;
  }

  /** a shifted left by w hex digits, written without a product so that proofs stay linear. */
  function Shift(a: nat, w: nat): (r: nat)
  {
    if w == 0 then a else 16 * Shift(a, w - 1)
  }

  lemma {:induction false} ShiftIsMul(a: nat, w: nat)
    ensures Shift(a, w) == a * Pow16(w)
  {
    if w > 0 {
      ShiftIsMul(a, w - 1);
      assert 16 * (a * Pow16(w - 1)) == a * (16 * Pow16(w - 1));
    }
  }

  lemma ShiftBound(a: nat, v: nat, b: nat, w: nat)
    requires a < Pow16(v) && b < Pow16(w)
    ensures Shift(a, w) + b < Pow16(v + w)
  {
    ShiftIsMul(a, w);
    Pow16Add(v, w);
    MulBound(a, Pow16(v), Pow16(w), b);
  }

  /** The last digit of the joined value is the last digit of the low part. */
  lemma SplitStep(n: nat, a: nat, v: nat, b: nat, w: nat)
    requires w > 0 && n < Pow16(v + w) && a < Pow16(v) && b < Pow16(w)
    requires n % 16 == b % 16 && b / 16 < Pow16(w - 1) && n / 16 < Pow16(v + w - 1)
    requires ToHex(n / 16, v + w - 1) == ToHex(a, v) + ToHex(b / 16, w - 1)
    ensures ToHex(n, v + w) == ToHex(a, v) + ToHex(b, w)
  {
    var d := [Digit(b % 16)];
    calc {
      ToHex(n, v + w);
      ToHex(n / 16, v + w - 1) + d;
      (ToHex(a, v) + ToHex(b / 16, w - 1)) + d;
      ToHex(a, v) + (ToHex(b / 16, w - 1) + d);
      ToHex(a, v) + ToHex(b, w);
    }
  }

  lemma {:induction false} ToHexSplit(n: nat, a: nat, v: nat, b: nat, w: nat)
    requires a < Pow16(v) && b < Pow16(w)
    requires n == Shift(a, w) + b
    ensures n < Pow16(v + w)
    ensures ToHex(n, v + w) == ToHex(a, v) + ToHex(b, w)
  {
    ShiftBound(a, v, b, w);
    if w > 0 {
      ToHexSplit(n / 16, a, v, b / 16, w - 1);
      SplitStep(n, a, v, b, w);
    }
  }

  /** Hex digits of a value split into a high and a low part are the two parts' digits side by side. */
  lemma ToHexConcat(a: nat, v: nat, b: nat, w: nat)
    requires a < Pow16(v) && b < Pow16(w)
    ensures a * Pow16(w) + b < Pow16(v + w)
    ensures ToHex(a * Pow16(w) + b, v + w) == ToHex(a, v) + ToHex(b, w)
  {
    ShiftIsMul(a, w);
    ToHexSplit(a * Pow16(w) + b, a, v, b, w);
  }

  /** One hex digit written at width 1. */
  lemma ToHexOne(n: nat)
    requires n < 16
    ensures n < Pow16(1) && ToHex(n, 1) == [Digit(n)]
  {
    assert Pow16(1) == 16;
    ToHexStep(n, 1, 0, n);
  }

  /** Four given digits, most significant first, are what ToHex writes for their value. */
  lemma ToHexFour(n: nat, a: nat, b: nat, c: nat, d: nat)
    requires a < 16 && b < 16 && c < 16 && d < 16
    requires n == ((a * 16 + b) * 16 + c) * 16 + d
    ensures n < Pow16(4) && ToHex(n, 4) == [Digit(a), Digit(b), Digit(c), Digit(d)]
  {
    var n2 := a * 16 + b;
    var n3 := n2 * 16 + c;
    assert n / 16 == n3 && n % 16 == d;
    assert n3 / 16 == n2 && n3 % 16 == c;
    assert n2 / 16 == a && n2 % 16 == b;
    assert Pow16(2) == 256 && Pow16(3) == 4096 && Pow16(4) == 65536;
    ToHexOne(a);
    ToHexStep(n2, 2, a, b);
    ToHexStep(n3, 3, n2, c);
    ToHexStep(n, 4, n3, d);
  }

  /** A 32-bit value written at width 8 is its high and its low 16 bits written at width 4, side by side. */
  lemma ToHexEight(n: nat, hi: nat, lo: nat, s: string, t: string)
    requires hi < 0x10000 && lo < 0x10000 && n == hi * 0x10000 + lo
    requires hi < Pow16(4) && lo < Pow16(4) && ToHex(hi, 4) == s && ToHex(lo, 4) == t
    ensures n < Pow16(8) && ToHex(n, 8) == s + t
  {
    Pow16Values();
    ToHexConcat(hi, 4, lo, 4);
  }
}

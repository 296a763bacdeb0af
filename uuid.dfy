// Entity identifiers in hover content: the four signed 32-bit words of the
// array form and the dashed 8-4-4-4-12 lowercase hex form they canonicalise to.

module Uuid {
  import Hex

  const TwoTo32: nat := 0x1_0000_0000

  /** A Java `int`. */
  predicate IsInt32(x: int) {
    -0x8000_0000 <= x < 0x8000_0000
  }

  predicate IsWordArray(w: seq<int>) {
    |w| == 4 && forall i :: 0 <= i < 4 ==> IsInt32(w[i])
  }

  /** The 32-bit pattern of a signed word, read unsigned (`x & 0xFFFFFFFFL`). */
  function Unsigned(x: int): (u: nat)
    requires IsInt32(x)
    ensures u < TwoTo32
  {
    if x < 0 then x + TwoTo32 else x
  }

  /** The unsigned reading has the same bit pattern: it agrees with the word modulo 2^32. */
  lemma UnsignedCongruent(x: int)
    requires IsInt32(x)
    ensures (Unsigned(x) - x) % TwoTo32 == 0
    ensures x >= 0 ==> Unsigned(x) == x
  {
  }

  /** The signed word with a given 32-bit pattern (the inverse of Unsigned). */
  function Signed(u: nat): (x: int)
    requires u < TwoTo32
    ensures IsInt32(x)
    ensures Unsigned(x) == u
  {
    if u >= 0x8000_0000 then u - TwoTo32 else u
  }

  lemma SignedUnsigned(x: int)
    requires IsInt32(x)
    ensures Signed(Unsigned(x)) == x
  {
  }

  /** Places a 32-bit word below the bits of a higher part. */
  function Cat(hi: nat, u: nat): nat
  {
    hi * TwoTo32 + u
  }

  /** The 128-bit identifier the words stand for, first word most significant. */
  function Value(w: seq<int>): nat
    requires IsWordArray(w)
  {
    Cat(Cat(Cat(Unsigned(w[0]), Unsigned(w[1])), Unsigned(w[2])), Unsigned(w[3]))
  }

  /** Eight hex digits of one word's bit pattern. */
  function Hex8(x: int): (s: string)
    requires IsInt32(x)
    ensures |s| == 8
  {
    Hex.Pow16Values();
    Hex.ToHex(Unsigned(x), 8)
  }

  /** Inserts the dashes of the 8-4-4-4-12 layout into 32 hex digits. */
  function Dashed(h: string): (s: string)
    requires |h| == 32
    ensures |s| == 36
  {
    h[..8] + "-" + h[8..12] + "-" + h[12..16] + "-" + h[16..20] + "-" + h[20..]
  }

  predicate IsDashPosition(i: int) {
    i == 8 || i == 13 || i == 18 || i == 23
  }

  /** The canonical textual form: 36 characters, dashes at 8, 13, 18 and 23, lowercase hex elsewhere. */
  predicate IsCanonical(s: string) {
    && |s| == 36
    && (forall i :: 0 <= i < 36 && IsDashPosition(i) ==> s[i] == '-')
    && (forall i :: 0 <= i < 36 && !IsDashPosition(i) ==> Hex.IsLowerHexDigit(s[i]))
  }

  /** The dashed form of the word array, as the array form of an entity id is read. */
  function FromWords(w: seq<int>): (s: string)
    requires IsWordArray(w)
    ensures |s| == 36
  {
    Dashed(Hex8(w[0]) + Hex8(w[1]) + Hex8(w[2]) + Hex8(w[3]))
  }

  /** Dashing 32 lowercase hex digits gives a canonical form. */
  lemma DashedCanonical(h: string)
    requires |h| == 32 && Hex.AllLowerHex(h)
    ensures IsCanonical(Dashed(h))
  {
    var s := Dashed(h);
    forall i | 0 <= i < 36 && !IsDashPosition(i) ensures Hex.IsLowerHexDigit(s[i]) {
      var j := if i < 8 then i else if i < 13 then i - 1 else if i < 18 then i - 2
               else if i < 23 then i - 3 else i - 4;
      assert s[i] == h[j];
    }
  }

  /** The array form always reads as a canonical dashed form. */
  lemma FromWordsCanonical(w: seq<int>)
    requires IsWordArray(w)
    ensures IsCanonical(FromWords(w))
  {
    var h := Hex8(w[0]) + Hex8(w[1]) + Hex8(w[2]) + Hex8(w[3]);
    Hex.Pow16Values();
    forall k | 0 <= k < 4 ensures Hex.AllLowerHex(Hex8(w[k])) {
      Hex.ToHexLower(Unsigned(w[k]), 8);
    }
    forall i | 0 <= i < 32 ensures Hex.IsLowerHexDigit(h[i]) {
      var k := i / 8;
      assert h[i] == Hex8(w[k])[i - 8 * k];
    }
    DashedCanonical(h);
  }

  /** The 32 hex digits of a canonical form, dashes removed. */
  function Undashed(s: string): (h: string)
    requires |s| == 36
    ensures |h| == 32
  {
    s[..8] + s[9..13] + s[14..18] + s[19..23] + s[24..]
  }

  lemma UndashedDashed(h: string)
    requires |h| == 32
    ensures Undashed(Dashed(h)) == h
  {
    var s := Dashed(h);
    assert s[..8] == h[..8];
    assert s[9..13] == h[8..12];
    assert s[14..18] == h[12..16];
    assert s[19..23] == h[16..20];
    assert s[24..] == h[20..];
    assert h == h[..8] + h[8..12] + h[12..16] + h[16..20] + h[20..];
  }

  /** Reads the four words back from a canonical form. */
  function ToWords(s: string): (w: seq<int>)
    requires IsCanonical(s)
    ensures IsWordArray(w)
  {
    var h := Undashed(s);
    assert Hex.AllHex(h) by {
      forall i | 0 <= i < 32 ensures Hex.IsHexDigit(h[i]) {
        var j := if i < 8 then i else if i < 12 then i + 1 else if i < 16 then i + 2
                 else if i < 20 then i + 3 else i + 4;
        assert h[i] == s[j];
      }
    }
    Hex.Pow16Values();
    [Signed(Hex.FromHex(h[..8])), Signed(Hex.FromHex(h[8..16])),
     Signed(Hex.FromHex(h[16..24])), Signed(Hex.FromHex(h[24..]))]
  }

  /** One word's eight digits read back as the same word. */
  lemma WordBack(x: int)
    requires IsInt32(x)
    ensures Hex.AllHex(Hex8(x)) && Hex.FromHex(Hex8(x)) < TwoTo32 && Signed(Hex.FromHex(Hex8(x))) == x
  {
    Hex.Pow16Values();
    Hex.FromToHex(Unsigned(x), 8);
    SignedUnsigned(x);
  }

  /** Reading the canonical form back yields the same four words. */
  lemma WordsRoundTrip(w: seq<int>)
    requires IsWordArray(w)
    ensures IsCanonical(FromWords(w))
    ensures ToWords(FromWords(w)) == w
  {
    var a, b, c, d := Hex8(w[0]), Hex8(w[1]), Hex8(w[2]), Hex8(w[3]);
    var h := a + b + c + d;
    FromWordsCanonical(w);
    UndashedDashed(h);
    assert h[..8] == a && h[8..16] == b && h[16..24] == c && h[24..] == d;
    WordBack(w[0]);
    WordBack(w[1]);
    WordBack(w[2]);
    WordBack(w[3]);
    assert w == [w[0], w[1], w[2], w[3]];
  }

  /** Eight lowercase digits read as a word are written back as the same digits. */
  lemma Hex8Back(t: string)
    requires |t| == 8 && Hex.AllLowerHex(t)
    ensures Hex.AllHex(t) && Hex.FromHex(t) < TwoTo32 && Hex8(Signed(Hex.FromHex(t))) == t
  {
    Hex.Pow16Values();
    Hex.ToFromHex(t);
  }

  /** Removing and reinserting the dashes of a canonical form changes nothing. */
  lemma DashedUndashed(s: string)
    requires IsCanonical(s)
    ensures Dashed(Undashed(s)) == s
  {
    var h := Undashed(s);
    assert h[..8] == s[..8] && h[8..12] == s[9..13] && h[12..16] == s[14..18];
    assert h[16..20] == s[19..23] && h[20..] == s[24..];
    assert s[8] == '-' && s[13] == '-' && s[18] == '-' && s[23] == '-';
    assert s == s[..8] + "-" + s[9..13] + "-" + s[14..18] + "-" + s[19..23] + "-" + s[24..];
  }

  /** The digits of a canonical form, dashes removed, are lowercase hex. */
  lemma UndashedLower(s: string)
    requires IsCanonical(s)
    ensures Hex.AllLowerHex(Undashed(s))
  {
    var h := Undashed(s);
    forall i | 0 <= i < 32 ensures Hex.IsLowerHexDigit(h[i]) {
      var j := if i < 8 then i else if i < 12 then i + 1 else if i < 16 then i + 2
               else if i < 20 then i + 3 else i + 4;
      assert h[i] == s[j];
    }
  }

  /** Reading the words from a canonical form and writing them again gives the same form. */
  lemma CanonicalRoundTrip(s: string)
    requires IsCanonical(s)
    ensures FromWords(ToWords(s)) == s
  {
    var h := Undashed(s);
    var w := ToWords(s);
    UndashedLower(s);
    DigitsBack(h, w);
    DashedUndashed(s);
  }

  /** The words read from 32 lowercase digits write back as those digits. */
  lemma DigitsBack(h: string, w: seq<int>)
    requires |h| == 32 && Hex.AllLowerHex(h) && Hex.AllHex(h)
    requires w == [Signed(Hex.FromHex(h[..8])), Signed(Hex.FromHex(h[8..16])),
                   Signed(Hex.FromHex(h[16..24])), Signed(Hex.FromHex(h[24..]))]
    ensures IsWordArray(w) && Hex8(w[0]) + Hex8(w[1]) + Hex8(w[2]) + Hex8(w[3]) == h
  {
    var t0, t1, t2, t3 := h[..8], h[8..16], h[16..24], h[24..];
    assert Hex.AllLowerHex(t0) && Hex.AllLowerHex(t1) && Hex.AllLowerHex(t2) && Hex.AllLowerHex(t3);
    Hex8Back(t0);
    Hex8Back(t1);
    Hex8Back(t2);
    Hex8Back(t3);
    assert h == t0 + t1 + t2 + t3;
  }

  /** Appending one word's eight digits to the digits of a higher part. */
  lemma AppendWord(hi: nat, v: nat, u: nat)
    requires hi < Hex.Pow16(v) && u < Hex.Pow16(8)
    ensures Cat(hi, u) < Hex.Pow16(v + 8)
    ensures Hex.ToHex(Cat(hi, u), v + 8) == Hex.ToHex(hi, v) + Hex.ToHex(u, 8)
  {
    Hex.Pow16Values();
    Hex.ShiftIsMul(hi, 8);
    Hex.ToHexSplit(Cat(hi, u), hi, v, u, 8);
  }

  lemma WordsDigits(u0: nat, u1: nat, u2: nat, u3: nat)
    requires u0 < Hex.Pow16(8) && u1 < Hex.Pow16(8) && u2 < Hex.Pow16(8) && u3 < Hex.Pow16(8)
    ensures Cat(Cat(Cat(u0, u1), u2), u3) < Hex.Pow16(32)
    ensures Hex.ToHex(Cat(Cat(Cat(u0, u1), u2), u3), 32)
         == Hex.ToHex(u0, 8) + Hex.ToHex(u1, 8) + Hex.ToHex(u2, 8) + Hex.ToHex(u3, 8)
  {
    AppendWord(u0, 8, u1);
    AppendWord(Cat(u0, u1), 16, u2);
    AppendWord(Cat(Cat(u0, u1), u2), 24, u3);
  }

  /** The canonical form is the 128-bit identifier written as 32 hex digits, with dashes. */
  lemma FromWordsIsValue(w: seq<int>)
    requires IsWordArray(w)
    ensures Value(w) < Hex.Pow16(32)
    ensures FromWords(w) == Dashed(Hex.ToHex(Value(w), 32))
  {
    Hex.Pow16Values();
    WordsDigits(Unsigned(w[0]), Unsigned(w[1]), Unsigned(w[2]), Unsigned(w[3]));
  }

  /** The dashed form of four eight-digit groups, written without slicing. */
  lemma DashedWords(a: string, b: string, c: string, d: string)
    requires |a| == 8 && |b| == 8 && |c| == 8 && |d| == 8
    ensures Dashed(a + b + c + d) == a + "-" + b[..4] + "-" + b[4..] + "-" + c[..4] + "-" + (c[4..] + d)
  {
    var h := a + b + c + d;
    assert h[..8] == a && h[8..12] == b[..4] && h[12..16] == b[4..];
    assert h[16..20] == c[..4] && h[20..] == c[4..] + d;
  }

  /** Digits of word 0 of the example id: the high and the low 16 bits side by side. */
  lemma ExampleWord0(n: nat, hi: nat, lo: nat)
    requires hi == 0x4f30 && lo == 0x295e && n == hi * 0x10000 + lo
    ensures n < Hex.Pow16(8) && Hex.ToHex(n, 8) == "4f30295e"
  {
    ExampleWord0High(hi);
    ExampleWord0Low(lo);
    Hex.ToHexEight(n, hi, lo, "4f30", "295e");
    assert "4f30" + "295e" == "4f30295e";
  }

  lemma ExampleWord0High(n: nat)
    requires n == 0x4f30
    ensures n < Hex.Pow16(4) && Hex.ToHex(n, 4) == "4f30"
  {
    Hex.ToHexFour(n, 4, 15, 3, 0);
    assert [Hex.Digit(4), Hex.Digit(15), Hex.Digit(3), Hex.Digit(0)] == "4f30";
  }

  lemma ExampleWord0Low(n: nat)
    requires n == 0x295e
    ensures n < Hex.Pow16(4) && Hex.ToHex(n, 4) == "295e"
  {
    Hex.ToHexFour(n, 2, 9, 5, 14);
    assert [Hex.Digit(2), Hex.Digit(9), Hex.Digit(5), Hex.Digit(14)] == "295e";
  }

  /** Digits of word 1 of the example id: the high and the low 16 bits side by side. */
  lemma ExampleWord1(n: nat, hi: nat, lo: nat)
    requires hi == 0x8084 && lo == 0x45f7 && n == hi * 0x10000 + lo
    ensures n < Hex.Pow16(8) && Hex.ToHex(n, 8) == "808445f7"
  {
    ExampleWord1High(hi);
    ExampleWord1Low(lo);
    Hex.ToHexEight(n, hi, lo, "8084", "45f7");
    assert "8084" + "45f7" == "808445f7";
  }

  lemma ExampleWord1High(n: nat)
    requires n == 0x8084
    ensures n < Hex.Pow16(4) && Hex.ToHex(n, 4) == "8084"
  {
    Hex.ToHexFour(n, 8, 0, 8, 4);
    assert [Hex.Digit(8), Hex.Digit(0), Hex.Digit(8), Hex.Digit(4)] == "8084";
  }

  lemma ExampleWord1Low(n: nat)
    requires n == 0x45f7
    ensures n < Hex.Pow16(4) && Hex.ToHex(n, 4) == "45f7"
  {
    Hex.ToHexFour(n, 4, 5, 15, 7);
    assert [Hex.Digit(4), Hex.Digit(5), Hex.Digit(15), Hex.Digit(7)] == "45f7";
  }

  /** Digits of word 2 of the example id: the high and the low 16 bits side by side. */
  lemma ExampleWord2(n: nat, hi: nat, lo: nat)
    requires hi == 0x8f00 && lo == 0x48d3 && n == hi * 0x10000 + lo
    ensures n < Hex.Pow16(8) && Hex.ToHex(n, 8) == "8f0048d3"
  {
    ExampleWord2High(hi);
    ExampleWord2Low(lo);
    Hex.ToHexEight(n, hi, lo, "8f00", "48d3");
    assert "8f00" + "48d3" == "8f0048d3";
  }

  lemma ExampleWord2High(n: nat)
    requires n == 0x8f00
    ensures n < Hex.Pow16(4) && Hex.ToHex(n, 4) == "8f00"
  {
    Hex.ToHexFour(n, 8, 15, 0, 0);
    assert [Hex.Digit(8), Hex.Digit(15), Hex.Digit(0), Hex.Digit(0)] == "8f00";
  }

  lemma ExampleWord2Low(n: nat)
    requires n == 0x48d3
    ensures n < Hex.Pow16(4) && Hex.ToHex(n, 4) == "48d3"
  {
    Hex.ToHexFour(n, 4, 8, 13, 3);
    assert [Hex.Digit(4), Hex.Digit(8), Hex.Digit(13), Hex.Digit(3)] == "48d3";
  }

  /** Digits of word 3 of the example id: the high and the low 16 bits side by side. */
  lemma ExampleWord3(n: nat, hi: nat, lo: nat)
    requires hi == 0xc203 && lo == 0x6c5f && n == hi * 0x10000 + lo
    ensures n < Hex.Pow16(8) && Hex.ToHex(n, 8) == "c2036c5f"
  {
    ExampleWord3High(hi);
    ExampleWord3Low(lo);
    Hex.ToHexEight(n, hi, lo, "c203", "6c5f");
    assert "c203" + "6c5f" == "c2036c5f";
  }

  lemma ExampleWord3High(n: nat)
    requires n == 0xc203
    ensures n < Hex.Pow16(4) && Hex.ToHex(n, 4) == "c203"
  {
    Hex.ToHexFour(n, 12, 2, 0, 3);
    assert [Hex.Digit(12), Hex.Digit(2), Hex.Digit(0), Hex.Digit(3)] == "c203";
  }

  lemma ExampleWord3Low(n: nat)
    requires n == 0x6c5f
    ensures n < Hex.Pow16(4) && Hex.ToHex(n, 4) == "6c5f"
  {
    Hex.ToHexFour(n, 6, 12, 5, 15);
    assert [Hex.Digit(6), Hex.Digit(12), Hex.Digit(5), Hex.Digit(15)] == "6c5f";
  }

  lemma ExampleJoin()
    ensures "4f30295e" + "-" + "8084" + "-" + "45f7" + "-" + "8f00" + "-" + "48d3c2036c5f"
         == "4f30295e-8084-45f7-8f00-48d3c2036c5f"
  {
  }

  lemma ExampleWords()
    ensures Hex8(1328556382) == "4f30295e" && Hex8(-2138814985) == "808445f7"
    ensures Hex8(-1895806765) == "8f0048d3" && Hex8(-1039963041) == "c2036c5f"
  {
    Hex.Pow16Values();
    assert Unsigned(1328556382) == 0x4f30295e;
    assert Unsigned(-2138814985) == 0x808445f7;
    assert Unsigned(-1895806765) == 0x8f0048d3;
    assert Unsigned(-1039963041) == 0xc2036c5f;
    ExampleWord0(Unsigned(1328556382), 0x4f30, 0x295e);
    ExampleWord1(Unsigned(-2138814985), 0x8084, 0x45f7);
    ExampleWord2(Unsigned(-1895806765), 0x8f00, 0x48d3);
    ExampleWord3(Unsigned(-1039963041), 0xc203, 0x6c5f);
  }

  lemma ExampleSlices(b: string, c: string, d: string)
    requires b == "808445f7" && c == "8f0048d3" && d == "c2036c5f"
    ensures b[..4] == "8084" && b[4..] == "45f7" && c[..4] == "8f00" && c[4..] + d == "48d3c2036c5f"
  {
  }

  /** The array id of the show_entity hover in ComponentsTest.testArrayUUIDParse. */
  lemma JoinedPlayerExample()
    ensures FromWords([1328556382, -2138814985, -1895806765, -1039963041])
         == "4f30295e-8084-45f7-8f00-48d3c2036c5f"
  {
    var w := [1328556382, -2138814985, -1895806765, -1039963041];
    ExampleWords();
    var a, b, c, d := Hex8(w[0]), Hex8(w[1]), Hex8(w[2]), Hex8(w[3]);
    DashedWords(a, b, c, d);
    ExampleSlices(b, c, d);
    ExampleJoin();
  }
}

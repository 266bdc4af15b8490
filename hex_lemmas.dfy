// Facts about the hex colour codes of colorspace.ts: decoding reads the colour groups back
// out of the parsed number, and encoding and decoding are inverse up to quantisation.
module HexLemmas {
  import opened Results
  import opened JsBuiltins
  import opened Arithmetic
  import opened Colorspace

  // The colour groups of a string of 3, 4, 6 or 8 hex digits, as bit fields of its value.

  lemma DigitGroups(r: string, g: string, b: string)
    requires |r| == 1 && |g| == 1 && |b| == 1
    requires AllHexDigits(r) && AllHexDigits(g) && AllHexDigits(b)
    ensures BitField(Finite(HexNumeralValue(r + g + b) as real), 8, 4) == HexNumeralValue(r)
    ensures BitField(Finite(HexNumeralValue(r + g + b) as real), 4, 4) == HexNumeralValue(g)
    ensures BitField(Finite(HexNumeralValue(r + g + b) as real), 0, 4) == HexNumeralValue(b)
  {
    LeadingField(r, g + b);
    assert r + (g + b) == r + g + b;
    BitFieldOfParts(r, g, b);
    TrailingField(r + g, b);
  }


  lemma DigitWithAlphaRed(r: string, g: string, b: string, alpha: string)
    requires |r| == 1 && |g| == 1 && |b| == 1 && |alpha| == 1
    requires AllHexDigits(r) && AllHexDigits(g) && AllHexDigits(b) && AllHexDigits(alpha)
    ensures BitField(Finite(HexNumeralValue(r + g + b + alpha) as real), 12, 4) == HexNumeralValue(r)
  {
    var e: string := [];
    var gba := g + b + alpha;
    assert r + g + b + alpha == e + r + gba;
    BitFieldOfParts(e, r, gba);
  }

  lemma DigitWithAlphaGreen(r: string, g: string, b: string, alpha: string)
    requires |r| == 1 && |g| == 1 && |b| == 1 && |alpha| == 1
    requires AllHexDigits(r) && AllHexDigits(g) && AllHexDigits(b) && AllHexDigits(alpha)
    ensures BitField(Finite(HexNumeralValue(r + g + b + alpha) as real), 8, 4) == HexNumeralValue(g)
  {
    var ba := b + alpha;
    assert r + g + b + alpha == r + g + ba;
    BitFieldOfParts(r, g, ba);
  }

  lemma DigitWithAlphaBlue(r: string, g: string, b: string, alpha: string)
    requires |r| == 1 && |g| == 1 && |b| == 1 && |alpha| == 1
    requires AllHexDigits(r) && AllHexDigits(g) && AllHexDigits(b) && AllHexDigits(alpha)
    ensures BitField(Finite(HexNumeralValue(r + g + b + alpha) as real), 4, 4) == HexNumeralValue(b)
  {
    BitFieldOfParts(r + g, b, alpha);
  }

  lemma PairGroups(r: string, g: string, b: string)
    requires |r| == 2 && |g| == 2 && |b| == 2
    requires AllHexDigits(r) && AllHexDigits(g) && AllHexDigits(b)
    ensures BitField(Finite(HexNumeralValue(r + g + b) as real), 16, 8) == HexNumeralValue(r)
    ensures BitField(Finite(HexNumeralValue(r + g + b) as real), 8, 8) == HexNumeralValue(g)
    ensures BitField(Finite(HexNumeralValue(r + g + b) as real), 0, 8) == HexNumeralValue(b)
  {
    LeadingField(r, g + b);
    assert r + (g + b) == r + g + b;
    BitFieldOfParts(r, g, b);
    TrailingField(r + g, b);
  }


  lemma PairWithAlphaRed(r: string, g: string, b: string, alpha: string)
    requires |r| == 2 && |g| == 2 && |b| == 2 && |alpha| == 2
    requires AllHexDigits(r) && AllHexDigits(g) && AllHexDigits(b) && AllHexDigits(alpha)
    ensures BitField(Finite(HexNumeralValue(r + g + b + alpha) as real), 24, 8) == HexNumeralValue(r)
  {
    var e: string := [];
    var gba := g + b + alpha;
    assert r + g + b + alpha == e + r + gba;
    BitFieldOfParts(e, r, gba);
  }

  lemma PairWithAlphaGreen(r: string, g: string, b: string, alpha: string)
    requires |r| == 2 && |g| == 2 && |b| == 2 && |alpha| == 2
    requires AllHexDigits(r) && AllHexDigits(g) && AllHexDigits(b) && AllHexDigits(alpha)
    ensures BitField(Finite(HexNumeralValue(r + g + b + alpha) as real), 16, 8) == HexNumeralValue(g)
  {
    var ba := b + alpha;
    assert r + g + b + alpha == r + g + ba;
    BitFieldOfParts(r, g, ba);
  }

  lemma PairWithAlphaBlue(r: string, g: string, b: string, alpha: string)
    requires |r| == 2 && |g| == 2 && |b| == 2 && |alpha| == 2
    requires AllHexDigits(r) && AllHexDigits(g) && AllHexDigits(b) && AllHexDigits(alpha)
    ensures BitField(Finite(HexNumeralValue(r + g + b + alpha) as real), 8, 8) == HexNumeralValue(b)
  {
    BitFieldOfParts(r + g, b, alpha);
  }

  lemma SplitThree(d: string, i: nat, j: nat)
    requires i <= j <= |d|
    ensures d == d[0..i] + d[i..j] + d[j..|d|]
  {
  }

  lemma SplitFour(d: string, i: nat, j: nat, k: nat)
    requires i <= j <= k <= |d|
    ensures d == d[0..i] + d[i..j] + d[j..k] + d[k..|d|]
  {
    SplitThree(d[..k], i, j);
    assert d[..k][0..i] == d[0..i] && d[..k][i..j] == d[i..j] && d[..k][j..k] == d[j..k];
    assert d == d[..k] + d[k..|d|];
  }

  lemma Fields3(d: string)
    requires |d| == 3 && AllHexDigits(d)
    ensures BitField(Finite(HexNumeralValue(d) as real), 8, 4) == HexNumeralValue(d[0..1])
    ensures BitField(Finite(HexNumeralValue(d) as real), 4, 4) == HexNumeralValue(d[1..2])
    ensures BitField(Finite(HexNumeralValue(d) as real), 0, 4) == HexNumeralValue(d[2..3])
  {
    SplitThree(d, 1, 2);
    DigitGroups(d[0..1], d[1..2], d[2..3]);
  }

  lemma Fields4(d: string)
    requires |d| == 4 && AllHexDigits(d)
    ensures BitField(Finite(HexNumeralValue(d) as real), 12, 4) == HexNumeralValue(d[0..1])
    ensures BitField(Finite(HexNumeralValue(d) as real), 8, 4) == HexNumeralValue(d[1..2])
    ensures BitField(Finite(HexNumeralValue(d) as real), 4, 4) == HexNumeralValue(d[2..3])
  {
    SplitFour(d, 1, 2, 3);
    DigitWithAlphaRed(d[0..1], d[1..2], d[2..3], d[3..4]);
    DigitWithAlphaGreen(d[0..1], d[1..2], d[2..3], d[3..4]);
    DigitWithAlphaBlue(d[0..1], d[1..2], d[2..3], d[3..4]);
  }

  lemma Fields6(d: string)
    requires |d| == 6 && AllHexDigits(d)
    ensures BitField(Finite(HexNumeralValue(d) as real), 16, 8) == HexNumeralValue(d[0..2])
    ensures BitField(Finite(HexNumeralValue(d) as real), 8, 8) == HexNumeralValue(d[2..4])
    ensures BitField(Finite(HexNumeralValue(d) as real), 0, 8) == HexNumeralValue(d[4..6])
  {
    SplitThree(d, 2, 4);
    PairGroups(d[0..2], d[2..4], d[4..6]);
  }

  lemma Fields8(d: string)
    requires |d| == 8 && AllHexDigits(d)
    ensures BitField(Finite(HexNumeralValue(d) as real), 24, 8) == HexNumeralValue(d[0..2])
    ensures BitField(Finite(HexNumeralValue(d) as real), 16, 8) == HexNumeralValue(d[2..4])
    ensures BitField(Finite(HexNumeralValue(d) as real), 8, 8) == HexNumeralValue(d[4..6])
  {
    SplitFour(d, 2, 4, 6);
    PairWithAlphaRed(d[0..2], d[2..4], d[4..6], d[6..8]);
    PairWithAlphaGreen(d[0..2], d[2..4], d[4..6], d[6..8]);
    PairWithAlphaBlue(d[0..2], d[2..4], d[4..6], d[6..8]);
  }

  /**
   * A well-formed code decodes group by group: after the '#', red, green and blue as two
   * hex digits each over 255 (seven or nine characters), or one digit each over 15 (four or
   * five characters); the trailing alpha group of the long forms is ignored.
   */
  lemma ParseTail(hex: string)
    requires |hex| >= 2 && AllHexDigits(hex[1..])
    ensures ParseInt16(hex[1..]) == Finite(HexNumeralValue(hex[1..]) as real)
  {
    ParseInt16OfDigits(hex[1..]);
  }

  lemma UnfoldLength7(hex: string)
    requires |hex| == 7
    ensures HexToRgb(hex).Ok?
    ensures HexToRgb(hex).value.x0 == BitField(ParseInt16(hex[1..]), 16, 8) as real / 255.0
    ensures HexToRgb(hex).value.x1 == BitField(ParseInt16(hex[1..]), 8, 8) as real / 255.0
    ensures HexToRgb(hex).value.x2 == BitField(ParseInt16(hex[1..]), 0, 8) as real / 255.0
  {
  }

  lemma TailFieldsLength7(hex: string)
    requires |hex| == 7 && AllHexDigits(hex[1..])
    ensures BitField(Finite(HexNumeralValue(hex[1..]) as real), 16, 8) == HexNumeralValue(hex[1..3])
    ensures BitField(Finite(HexNumeralValue(hex[1..]) as real), 8, 8) == HexNumeralValue(hex[3..5])
    ensures BitField(Finite(HexNumeralValue(hex[1..]) as real), 0, 8) == HexNumeralValue(hex[5..7])
  {
    Fields6(hex[1..]);
    assert hex[1..][0..2] == hex[1..3];
    assert hex[1..][2..4] == hex[3..5];
    assert hex[1..][4..6] == hex[5..7];
  }

  lemma HexToRgbOfLength7(hex: string)
    requires |hex| == 7 && AllHexDigits(hex[1..])
    ensures AllHexDigits(hex[1..3]) && AllHexDigits(hex[3..5]) && AllHexDigits(hex[5..7])
    ensures HexToRgb(hex).Ok?
    ensures HexToRgb(hex).value.x0 == HexNumeralValue(hex[1..3]) as real / 255.0
    ensures HexToRgb(hex).value.x1 == HexNumeralValue(hex[3..5]) as real / 255.0
    ensures HexToRgb(hex).value.x2 == HexNumeralValue(hex[5..7]) as real / 255.0
  {
    HexDigitsSlice(hex[1..], 0, 2);
    assert hex[1..][0..2] == hex[1..3];
    HexDigitsSlice(hex[1..], 2, 4);
    assert hex[1..][2..4] == hex[3..5];
    HexDigitsSlice(hex[1..], 4, 6);
    assert hex[1..][4..6] == hex[5..7];
    ParseTail(hex);
    TailFieldsLength7(hex);
    UnfoldLength7(hex);
  }

  lemma UnfoldLength9(hex: string)
    requires |hex| == 9
    ensures HexToRgb(hex).Ok?
    ensures HexToRgb(hex).value.x0 == BitField(ParseInt16(hex[1..]), 24, 8) as real / 255.0
    ensures HexToRgb(hex).value.x1 == BitField(ParseInt16(hex[1..]), 16, 8) as real / 255.0
    ensures HexToRgb(hex).value.x2 == BitField(ParseInt16(hex[1..]), 8, 8) as real / 255.0
  {
  }

  lemma TailFieldsLength9(hex: string)
    requires |hex| == 9 && AllHexDigits(hex[1..])
    ensures BitField(Finite(HexNumeralValue(hex[1..]) as real), 24, 8) == HexNumeralValue(hex[1..3])
    ensures BitField(Finite(HexNumeralValue(hex[1..]) as real), 16, 8) == HexNumeralValue(hex[3..5])
    ensures BitField(Finite(HexNumeralValue(hex[1..]) as real), 8, 8) == HexNumeralValue(hex[5..7])
  {
    Fields8(hex[1..]);
    assert hex[1..][0..2] == hex[1..3];
    assert hex[1..][2..4] == hex[3..5];
    assert hex[1..][4..6] == hex[5..7];
  }

  lemma HexToRgbOfLength9(hex: string)
    requires |hex| == 9 && AllHexDigits(hex[1..])
    ensures AllHexDigits(hex[1..3]) && AllHexDigits(hex[3..5]) && AllHexDigits(hex[5..7])
    ensures HexToRgb(hex).Ok?
    ensures HexToRgb(hex).value.x0 == HexNumeralValue(hex[1..3]) as real / 255.0
    ensures HexToRgb(hex).value.x1 == HexNumeralValue(hex[3..5]) as real / 255.0
    ensures HexToRgb(hex).value.x2 == HexNumeralValue(hex[5..7]) as real / 255.0
  {
    HexDigitsSlice(hex[1..], 0, 2);
    assert hex[1..][0..2] == hex[1..3];
    HexDigitsSlice(hex[1..], 2, 4);
    assert hex[1..][2..4] == hex[3..5];
    HexDigitsSlice(hex[1..], 4, 6);
    assert hex[1..][4..6] == hex[5..7];
    ParseTail(hex);
    TailFieldsLength9(hex);
    UnfoldLength9(hex);
  }

  lemma UnfoldLength4(hex: string)
    requires |hex| == 4
    ensures HexToRgb(hex).Ok?
    ensures HexToRgb(hex).value.x0 == BitField(ParseInt16(hex[1..]), 8, 4) as real / 15.0
    ensures HexToRgb(hex).value.x1 == BitField(ParseInt16(hex[1..]), 4, 4) as real / 15.0
    ensures HexToRgb(hex).value.x2 == BitField(ParseInt16(hex[1..]), 0, 4) as real / 15.0
  {
  }

  lemma TailFieldsLength4(hex: string)
    requires |hex| == 4 && AllHexDigits(hex[1..])
    ensures BitField(Finite(HexNumeralValue(hex[1..]) as real), 8, 4) == HexNumeralValue(hex[1..2])
    ensures BitField(Finite(HexNumeralValue(hex[1..]) as real), 4, 4) == HexNumeralValue(hex[2..3])
    ensures BitField(Finite(HexNumeralValue(hex[1..]) as real), 0, 4) == HexNumeralValue(hex[3..4])
  {
    Fields3(hex[1..]);
    assert hex[1..][0..1] == hex[1..2];
    assert hex[1..][1..2] == hex[2..3];
    assert hex[1..][2..3] == hex[3..4];
  }

  lemma HexToRgbOfLength4(hex: string)
    requires |hex| == 4 && AllHexDigits(hex[1..])
    ensures AllHexDigits(hex[1..2]) && AllHexDigits(hex[2..3]) && AllHexDigits(hex[3..4])
    ensures HexToRgb(hex).Ok?
    ensures HexToRgb(hex).value.x0 == HexNumeralValue(hex[1..2]) as real / 15.0
    ensures HexToRgb(hex).value.x1 == HexNumeralValue(hex[2..3]) as real / 15.0
    ensures HexToRgb(hex).value.x2 == HexNumeralValue(hex[3..4]) as real / 15.0
  {
    HexDigitsSlice(hex[1..], 0, 1);
    assert hex[1..][0..1] == hex[1..2];
    HexDigitsSlice(hex[1..], 1, 2);
    assert hex[1..][1..2] == hex[2..3];
    HexDigitsSlice(hex[1..], 2, 3);
    assert hex[1..][2..3] == hex[3..4];
    ParseTail(hex);
    TailFieldsLength4(hex);
    UnfoldLength4(hex);
  }

  lemma UnfoldLength5(hex: string)
    requires |hex| == 5
    ensures HexToRgb(hex).Ok?
    ensures HexToRgb(hex).value.x0 == BitField(ParseInt16(hex[1..]), 12, 4) as real / 15.0
    ensures HexToRgb(hex).value.x1 == BitField(ParseInt16(hex[1..]), 8, 4) as real / 15.0
    ensures HexToRgb(hex).value.x2 == BitField(ParseInt16(hex[1..]), 4, 4) as real / 15.0
  {
  }

  lemma TailFieldsLength5(hex: string)
    requires |hex| == 5 && AllHexDigits(hex[1..])
    ensures BitField(Finite(HexNumeralValue(hex[1..]) as real), 12, 4) == HexNumeralValue(hex[1..2])
    ensures BitField(Finite(HexNumeralValue(hex[1..]) as real), 8, 4) == HexNumeralValue(hex[2..3])
    ensures BitField(Finite(HexNumeralValue(hex[1..]) as real), 4, 4) == HexNumeralValue(hex[3..4])
  {
    Fields4(hex[1..]);
    assert hex[1..][0..1] == hex[1..2];
    assert hex[1..][1..2] == hex[2..3];
    assert hex[1..][2..3] == hex[3..4];
  }

  lemma HexToRgbOfLength5(hex: string)
    requires |hex| == 5 && AllHexDigits(hex[1..])
    ensures AllHexDigits(hex[1..2]) && AllHexDigits(hex[2..3]) && AllHexDigits(hex[3..4])
    ensures HexToRgb(hex).Ok?
    ensures HexToRgb(hex).value.x0 == HexNumeralValue(hex[1..2]) as real / 15.0
    ensures HexToRgb(hex).value.x1 == HexNumeralValue(hex[2..3]) as real / 15.0
    ensures HexToRgb(hex).value.x2 == HexNumeralValue(hex[3..4]) as real / 15.0
  {
    HexDigitsSlice(hex[1..], 0, 1);
    assert hex[1..][0..1] == hex[1..2];
    HexDigitsSlice(hex[1..], 1, 2);
    assert hex[1..][1..2] == hex[2..3];
    HexDigitsSlice(hex[1..], 2, 3);
    assert hex[1..][2..3] == hex[3..4];
    ParseTail(hex);
    TailFieldsLength5(hex);
    UnfoldLength5(hex);
  }

  /** Decoding an encoded colour gives back each channel quantised to a byte, over 255. */
  lemma RgbToHexToRgb(r: real, g: real, b: real)
    ensures var v := HexToRgb(RgbToHex(r, g, b));
      && v.Ok?
      && v.value.x0 == Quantize(r, true) / 255.0
      && v.value.x1 == Quantize(g, true) / 255.0
      && v.value.x2 == Quantize(b, true) / 255.0
  {
    var s := RgbToHex(r, g, b);
    HexToRgbOfLength7(s);
  }

  function LowerCase(c: char): (l: char)
    ensures IsHexDigit(c) ==> IsHexDigit(l) && !('A' <= l <= 'F') && HexDigitValue(l) == HexDigitValue(c)
  {
    if 'A' <= c <= 'F' then (c as int + 32) as char else c
  }

  function LowerCaseString(s: string): (l: string)
    ensures |l| == |s| && forall i :: 0 <= i < |s| ==> l[i] == LowerCase(s[i])
  {
    if s == [] then [] else [LowerCase(s[0])] + LowerCaseString(s[1..])
  }

  lemma LowerHexDigitUnique(c: char, e: char)
    requires IsHexDigit(c) && !('A' <= c <= 'F') && IsHexDigit(e) && !('A' <= e <= 'F')
    requires HexDigitValue(c) == HexDigitValue(e)
    ensures c == e
  {
  }

  /** Two-digit lower-case hex numerals are determined by their value. */
  lemma LowerHexPairUnique(s: string, t: string)
    requires |s| == 2 && |t| == 2 && IsLowerHex(s) && IsLowerHex(t)
    requires HexNumeralValue(s) == HexNumeralValue(t)
    ensures s == t
  {
    assert s[..1][..0] == [] && t[..1][..0] == [];
    var s0, s1 := HexDigitValue(s[0]), HexDigitValue(s[1]);
    var t0, t1 := HexDigitValue(t[0]), HexDigitValue(t[1]);
    assert HexNumeralValue(s) == 16 * s0 + s1;
    assert HexNumeralValue(t) == 16 * t0 + t1;
    DivModUnique(s0, s1, 16);
    DivModUnique(t0, t1, 16);
    LowerHexDigitUnique(s[0], t[0]);
    LowerHexDigitUnique(s[1], t[1]);
  }

  /** A seven-character code decoded and encoded again comes back in lower case. */
  lemma HexToRgbToHex(hex: string)
    requires |hex| == 7 && hex[0] == '#' && AllHexDigits(hex[1..])
    ensures HexToRgb(hex).Ok?
    ensures var v := HexToRgb(hex).value;
      RgbToHex(v.x0, v.x1, v.x2) == "#" + LowerCaseString(hex[1..])
  {
    HexToRgbOfLength7(hex);
    var v := HexToRgb(hex).value;
    Reencodes(hex, v.x0, v.x1, v.x2, RgbToHex(v.x0, v.x1, v.x2));
  }

  /** A code whose channels are those read from `hex` is `hex` in lower case. */
  lemma Reencodes(hex: string, x0: real, x1: real, x2: real, s: string)
    requires |hex| == 7
    requires AllHexDigits(hex[1..3]) && AllHexDigits(hex[3..5]) && AllHexDigits(hex[5..7])
    requires x0 == HexNumeralValue(hex[1..3]) as real / 255.0
    requires x1 == HexNumeralValue(hex[3..5]) as real / 255.0
    requires x2 == HexNumeralValue(hex[5..7]) as real / 255.0
    requires |s| == 7 && s[0] == '#' && IsLowerHex(s[1..])
    requires HexNumeralValue(s[1..3]) as real == Quantize(x0, true)
    requires HexNumeralValue(s[3..5]) as real == Quantize(x1, true)
    requires HexNumeralValue(s[5..7]) as real == Quantize(x2, true)
    ensures s == "#" + LowerCaseString(hex[1..])
  {
    var l := LowerCaseString(hex[1..]);
    LowerHexSlice(s, 1, 3);
    LowerHexSlice(s, 3, 5);
    LowerHexSlice(s, 5, 7);
    ChannelReencodes(hex, 1, x0, s[1..3]);
    ChannelReencodes(hex, 3, x1, s[3..5]);
    ChannelReencodes(hex, 5, x2, s[5..7]);
    JoinPairs(s, l);
  }

  lemma LowerHexSlice(s: string, i: nat, j: nat)
    requires 1 <= i <= j <= |s| && IsLowerHex(s[1..])
    ensures IsLowerHex(s[i..j])
  {
    forall k | 0 <= k < j - i ensures IsHexDigit(s[i..j][k]) && !('A' <= s[i..j][k] <= 'F') {
      assert s[i..j][k] == s[1..][i - 1 + k];
    }
  }

  lemma JoinPairs(s: string, l: string)
    requires |s| == 7 && |l| == 6 && s[0] == '#'
    requires s[1..3] == l[0..2] && s[3..5] == l[2..4] && s[5..7] == l[4..6]
    ensures s == "#" + l
  {
    assert s == [s[0]] + s[1..3] + s[3..5] + s[5..7];
    assert l == l[0..2] + l[2..4] + l[4..6];
  }

  /** The two characters a decoded channel encodes to are the lower-cased originals. */
  lemma ChannelReencodes(hex: string, i: nat, x: real, e: string)
    requires |hex| == 7 && (i == 1 || i == 3 || i == 5)
    requires AllHexDigits(hex[i..i + 2]) && x == HexNumeralValue(hex[i..i + 2]) as real / 255.0
    requires |e| == 2 && IsLowerHex(e) && HexNumeralValue(e) as real == Quantize(x, true)
    ensures e == LowerCaseString(hex[1..])[i - 1..i + 1]
  {
    var l := LowerCaseString(hex[1..]);
    var p, lp := hex[i..i + 2], l[i - 1..i + 1];
    assert lp[0] == LowerCase(p[0]) by {
      assert lp[0] == l[i - 1] && l[i - 1] == LowerCase(hex[1..][i - 1]);
      assert hex[1..][i - 1] == hex[i] == p[0];
    }
    assert lp[1] == LowerCase(p[1]) by {
      assert lp[1] == l[i] && l[i] == LowerCase(hex[1..][i]);
      assert hex[1..][i] == hex[i + 1] == p[1];
    }
    PairReencodes(p, lp, e, x);
  }

  lemma PairReencodes(p: string, l: string, e: string, x: real)
    requires |p| == 2 && AllHexDigits(p)
    requires |l| == 2 && l[0] == LowerCase(p[0]) && l[1] == LowerCase(p[1])
    requires x == HexNumeralValue(p) as real / 255.0
    requires |e| == 2 && IsLowerHex(e) && HexNumeralValue(e) as real == Quantize(x, true)
    ensures e == l
  {
    var n := HexNumeralValue(p);
    assert n < 256 by { assert Pow16(2) == 256; }
    assert x * 255.0 == n as real;
    RoundOfInteger(n);
    assert l[..1][..0] == [] && p[..1][..0] == [];
    assert HexNumeralValue(l) == n;
    LowerHexPairUnique(e, l);
  }
}

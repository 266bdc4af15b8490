/**
 * The Munsell colour code: reading 'H V/C' and 'N V' strings into Munsell HVC, printing
 * Munsell HVC back as a code, and the conversions that start from a code.
 * (src/convert.ts, munsellToMhvc, mhvcToMunsell and the munsellTo* wrappers.)
 */
module MunsellCode {
  import opened Results
  import opened JsBuiltins
  import opened Arithmetic
  import opened Colorspace
  import opened Convert

  /** The ten hue designators, in the order of the hue circle starting from red. */
  const HueNames: seq<string> := ["R", "YR", "Y", "GY", "G", "BG", "B", "PB", "P", "RP"]

  // ---------------------------------------------------------------- scanning

  /** The two character classes the code is scanned with. */
  datatype CharClass =
    | TokenChars  // [a-z0-9.-]: the characters numbers are made of
    | UpperChars  // [A-Z]: the characters hue designators are made of

  predicate InClass(c: char, cls: CharClass)
  {
    match cls
    case TokenChars => 'a' <= c <= 'z' || '0' <= c <= '9' || c == '.' || c == '-'
    case UpperChars => 'A' <= c <= 'Z'
  }

  predicate AllIn(s: string, cls: CharClass)
  {
    forall i :: 0 <= i < |s| ==> InClass(s[i], cls)
  }

  predicate NoneIn(s: string, cls: CharClass)
  {
    forall i :: 0 <= i < |s| ==> !InClass(s[i], cls)
  }

  /** The length of the longest prefix of s inside the class. */
  function RunLength(s: string, cls: CharClass): (n: nat)
    ensures n <= |s| && AllIn(s[..n], cls)
    ensures n < |s| ==> !InClass(s[n], cls)
  {
    if s == [] || !InClass(s[0], cls) then 0
    else
      var k := RunLength(s[1..], cls);
      assert s[..k + 1] == [s[0]] + s[1..][..k];
      k + 1
  }

  /** The position of the first character of s inside the class, or |s| when there is none. */
  function FirstIn(s: string, cls: CharClass): (i: nat)
    ensures i <= |s| && NoneIn(s[..i], cls)
    ensures i < |s| ==> InClass(s[i], cls)
  {
    if s == [] || InClass(s[0], cls) then 0
    else
      var k := FirstIn(s[1..], cls);
      assert s[..k + 1] == [s[0]] + s[1..][..k];
      k + 1
  }

  /**
   * `s.split(/[^a-z0-9.-]+/).filter(Boolean)`: the maximal runs of token characters,
   * left to right.
   */
  function Tokens(s: string): (ts: seq<string>)
    ensures forall i :: 0 <= i < |ts| ==> ts[i] != [] && AllIn(ts[i], TokenChars)
    decreases |s|
  {
    if s == [] then []
    else if !InClass(s[0], TokenChars) then Tokens(s[1..])
    else
      var n := RunLength(s, TokenChars);
      [s[..n]] + Tokens(s[n..])
  }

  /** `s.match(/[A-Z]+/)`, first element: the leftmost maximal run of capital letters. */
  function FirstUpperRun(s: string): (r: Option<string>)
    ensures r.None? <==> NoneIn(s, UpperChars)
    ensures r.Some? ==> exists i :: UpperRunAt(s, i, r.value)
  {
    var i := FirstIn(s, UpperChars);
    if i == |s| then
      assert s[..i] == s;
      None
    else
      var w := s[i..][..RunLength(s[i..], UpperChars)];
      assert UpperRunAt(s, i, w);
      Some(w)
  }

  /** w is a maximal run of capitals starting at i, and no capital comes before i. */
  predicate UpperRunAt(s: string, i: nat, w: string)
  {
    && w != [] && i + |w| <= |s| && s[i..i + |w|] == w && AllIn(w, UpperChars)
    && NoneIn(s[..i], UpperChars)
    && (i + |w| < |s| ==> !InClass(s[i + |w|], UpperChars))
  }

  /** Array.prototype.indexOf: the first position holding name, or -1. */
  function IndexOf(names: seq<string>, name: string): (i: int)
    ensures -1 <= i < |names|
    ensures i == -1 <==> name !in names
    ensures i >= 0 ==> names[i] == name && forall j :: 0 <= j < i ==> names[j] != name
  {
    if names == [] then -1
    else if names[0] == name then 0
    else
      var k := IndexOf(names[1..], name);
      if k == -1 then -1 else k + 1
  }

  // ---------------------------------------------------------------- reading a code

  /** A Munsell HVC triple as the parser yields it: each number may be NaN. */
  datatype Mhvc = Mhvc(hue100: Num, value: Num, chroma: Num)

  /** `base + x` for a number x that may be NaN. */
  function Plus(base: real, x: Num): (r: Num)
    ensures r.NaN? <==> x.NaN?
    ensures r.Finite? ==> r.r - x.r == base
  {
    match x
    case Finite(v) => Finite(base + v)
    case NaN => NaN
  }

  /**
   * munsellToMhvc. The numbers are the token-character runs read by `toNumber` (the
   * global Number); the hue designator is the first run of capitals. 'N' gives an
   * achromatic colour whose value is the first number (NaN when there is none); any
   * other designator needs exactly three numbers and must be one of the ten hue names.
   */
  function MunsellToMhvc(code: string, toNumber: string -> Num): (r: Result<Mhvc>)
    ensures r.Fail? ==> r.error == SyntaxError
    ensures r.Ok? <==>
      var word := FirstUpperRun(code);
      word.Some? && (word.value == "N" || (|Tokens(code)| == 3 && word.value in HueNames))
    ensures FirstUpperRun(code) == Some("N") ==> r.Ok? && r.value.hue100 == Finite(0.0) && r.value.chroma == Finite(0.0)
    ensures FirstUpperRun(code) == Some("N") ==>
      r.value.value == (var tokens := Tokens(code); if |tokens| > 0 then toNumber(tokens[0]) else NaN)
  {
    match FirstUpperRun(code)
    case None => Fail(SyntaxError)
    case Some(hueName) => ReadDesignated(HueNames, hueName, Tokens(code), toNumber)
  }

  /**
   * The part of munsellToMhvc after the designator is found: its numbers read from the tokens,
   * the hue's sector looked up in names.
   */
  function ReadDesignated(names: seq<string>, hueName: string, tokens: seq<string>, toNumber: string -> Num): (r: Result<Mhvc>)
    ensures r.Fail? ==> r.error == SyntaxError
    ensures r.Ok? <==> hueName == "N" || (|tokens| == 3 && hueName in names)
    ensures hueName == "N" ==> r.Ok? && r.value.hue100 == Finite(0.0) && r.value.chroma == Finite(0.0)
    ensures hueName == "N" ==> r.value.value == (if |tokens| > 0 then toNumber(tokens[0]) else NaN)
  {
    if hueName == "N" then
      Ok(Mhvc(Finite(0.0), if |tokens| > 0 then toNumber(tokens[0]) else NaN, Finite(0.0)))
    else if |tokens| != 3 then
      Fail(SyntaxError)
    else
      var hueNumber := IndexOf(names, hueName);
      if hueNumber == -1 then
        Fail(SyntaxError)
      else
        Ok(Mhvc(Plus(Times(hueNumber, 10.0), toNumber(tokens[0])), toNumber(tokens[1]), toNumber(tokens[2])))
  }

  /** A parsed code whose three numbers are all finite, or NotANumber. */
  function FiniteMhvc(code: string, toNumber: string -> Num): (r: Result<Vec3>)
    ensures r.Fail? <==> MunsellToMhvc(code, toNumber).Fail? || !AllFinite(MunsellToMhvc(code, toNumber).value)
    ensures r.Ok? ==> MunsellToMhvc(code, toNumber) == Ok(Mhvc(Finite(r.value.x0), Finite(r.value.x1), Finite(r.value.x2)))
    ensures r.Fail? && MunsellToMhvc(code, toNumber).Ok? ==> r.error == NotANumber
  {
    match MunsellToMhvc(code, toNumber)
    case Fail(e) => Fail(e)
    case Ok(c) =>
      if AllFinite(c) then Ok(Vec3(c.hue100.r, c.value.r, c.chroma.r)) else Fail(NotANumber)
  }

  predicate AllFinite(c: Mhvc)
  {
    c.hue100.Finite? && c.value.Finite? && c.chroma.Finite?
  }

  // ---------------------------------------------------------------- printing a code

  /** `mod(hue100, 100) % 10`: the position inside the hue's sector. */
  function HuePrefix(hue100: real): (p: real)
    ensures 0.0 <= p < 10.0
  {
    var canonical := Mod(hue100, 100.0);
    JsRemBounds(canonical, 10.0);
    JsRem(canonical, 10.0)
  }

  /** `Math.round((canonical - prefix) / 10)`: the sector, which with the prefix rebuilds the canonical hue. */
  function HueNumber(hue100: real): (n: int)
    ensures 0 <= n < 10
    ensures Mod(hue100, 100.0) == Times(n, 10.0) + HuePrefix(hue100)
  {
    var canonical := Mod(hue100, 100.0);
    var t := Trunc(canonical / 10.0);
    assert canonical - HuePrefix(hue100) == t as real * 10.0;
    SectorOfCanonical(canonical, t);
    RoundOfInteger(t);
    Round((canonical - HuePrefix(hue100)) / 10.0)
  }

  lemma SectorOfCanonical(canonical: real, t: int)
    requires 0.0 <= canonical < 100.0 && t == Trunc(canonical / 10.0)
    ensures 0 <= t < 10
    ensures (t as real * 10.0) / 10.0 == t as real
  {
  }

  /** Digits after the point in the hue prefix: one fewer than elsewhere, at least none. */
  function HueDigits(digits: nat): nat
  {
    if digits >= 1 then digits - 1 else 0
  }

  /** The prefix as it is printed: 10 in place of 0. */
  function ShownPrefix(hue100: real): (p: real)
    ensures 0.0 < p <= 10.0
  {
    if HuePrefix(hue100) == 0.0 then 10.0 else HuePrefix(hue100)
  }

  /** The designator as it is printed: the previous one when the prefix is 0. */
  function ShownSector(hue100: real): (k: nat)
    ensures k < |HueNames|
  {
    if HuePrefix(hue100) == 0.0 then (HueNumber(hue100) - 1) % 10 else HueNumber(hue100)
  }

  /** The most fraction digits Number.prototype.toFixed accepts; more raise a RangeError. */
  const MAX_FIXED_DIGITS: nat := 100

  /**
   * mhvcToMunsell: 'H V/C' with value and chroma printed to `digits` places, or 'N V'
   * when the chroma prints as zero. More digits than toFixed accepts raise a RangeError
   * (the prefix's toFixed asks for one digit fewer, so the chroma's is the one that fails).
   */
  function MhvcToMunsell(hue100: real, value: real, chroma: real, digits: nat := 1): (s: Result<string>)
    ensures s.Fail? <==> digits > MAX_FIXED_DIGITS
    ensures s.Fail? ==> s.error == RangeError
    ensures s.Ok? ==> |s.value| >= 3 && (s.value[0] == 'N' <==> FixedMagnitude(chroma, digits) == 0)
  {
    if digits > MAX_FIXED_DIGITS then Fail(RangeError)
    else Ok(PrintCode(ShownPrefix(hue100), ShownSector(hue100), value, chroma, digits))
  }

  /** The code for a hue shown as prefix and designator, a value and a chroma. */
  function PrintCode(prefix: real, sector: nat, value: real, chroma: real, digits: nat): (s: string)
    requires sector < |HueNames|
    ensures |s| >= 3 && (s[0] == 'N' <==> FixedMagnitude(chroma, digits) == 0)
  {
    var chromaStr := ToFixed(chroma, digits);
    var valueStr := ToFixed(value, digits);
    FixedZeroNumeral(chroma, digits);
    if IsZeroNumeral(chromaStr) then "N " + valueStr
    else
      var s := ToFixed(prefix, HueDigits(digits)) + HueNames[sector] + " " + valueStr + "/" + chromaStr;
      assert IsFixedChar(s[0]);
      s
  }

  // ---------------------------------------------------------------- scanning lemmas

  /** A run of class characters ended by the end of the string or by a character outside the class. */
  lemma {:induction false} RunLengthOfRun(a: string, b: string, cls: CharClass)
    requires AllIn(a, cls) && (b == [] || !InClass(b[0], cls))
    ensures RunLength(a + b, cls) == |a|
    decreases |a|
  {
    if a == [] {
      assert a + b == b;
    } else {
      assert (a + b)[0] == a[0];
      assert (a + b)[1..] == a[1..] + b;
      RunLengthOfRun(a[1..], b, cls);
    }
  }

  /** The first class character is the first one after a stretch with none. */
  lemma {:induction false} FirstInAfter(a: string, b: string, cls: CharClass)
    requires NoneIn(a, cls) && b != [] && InClass(b[0], cls)
    ensures FirstIn(a + b, cls) == |a|
    decreases |a|
  {
    if a == [] {
      assert a + b == b;
    } else {
      assert (a + b)[0] == a[0];
      assert (a + b)[1..] == a[1..] + b;
      FirstInAfter(a[1..], b, cls);
    }
  }

  /** A run of capitals after a stretch with none, and ended by a non-capital, is what match finds. */
  lemma UpperRunAfter(a: string, w: string, b: string)
    requires NoneIn(a, UpperChars) && w != [] && AllIn(w, UpperChars)
    requires b == [] || !InClass(b[0], UpperChars)
    ensures FirstUpperRun(a + w + b) == Some(w)
  {
    var s := a + w + b;
    assert s == a + (w + b);
    FirstInAfter(a, w + b, UpperChars);
    assert s[|a|..] == w + b;
    RunLengthOfRun(w, b, UpperChars);
    assert (w + b)[..|w|] == w;
  }

  /** A whole string of token characters is one token. */
  lemma TokensOfRun(a: string)
    requires a != [] && AllIn(a, TokenChars)
    ensures Tokens(a) == [a]
  {
    RunLengthOfRun(a, [], TokenChars);
    assert a + [] == a;
    assert a[|a|..] == [];
  }

  /** A token followed by a separator character comes first. */
  lemma TokensLead(a: string, b: string)
    requires a != [] && AllIn(a, TokenChars) && b != [] && !InClass(b[0], TokenChars)
    ensures Tokens(a + b) == [a] + Tokens(b)
  {
    var s := a + b;
    RunLengthOfRun(a, b, TokenChars);
    assert s[0] == a[0];
    assert s[..|a|] == a && s[|a|..] == b;
  }

  /** Leading separator characters are dropped. */
  lemma {:induction false} TokensSkip(a: string, b: string)
    requires NoneIn(a, TokenChars)
    ensures Tokens(a + b) == Tokens(b)
    decreases |a|
  {
    if a == [] {
      assert a + b == b;
    } else {
      assert (a + b)[0] == a[0];
      assert (a + b)[1..] == a[1..] + b;
      TokensSkip(a[1..], b);
    }
  }

  /** The tokens, joined, are exactly the token characters of the string, in order. */
  lemma {:induction false} TokensKeepTokenChars(s: string)
    ensures Concat(Tokens(s)) == Keep(s, TokenChars)
    decreases |s|
  {
    if s == [] {
    } else if !InClass(s[0], TokenChars) {
      TokensKeepTokenChars(s[1..]);
    } else {
      var n := RunLength(s, TokenChars);
      TokensKeepTokenChars(s[n..]);
      assert s == s[..n] + s[n..];
      KeepConcat(s[..n], s[n..], TokenChars);
      KeepAll(s[..n], TokenChars);
      var ts := [s[..n]] + Tokens(s[n..]);
      assert ts[0] == s[..n] && ts[1..] == Tokens(s[n..]);
    }
  }

  function Concat(ts: seq<string>): string
  {
    if ts == [] then "" else ts[0] + Concat(ts[1..])
  }

  /** The characters of s inside the class, in order. */
  function Keep(s: string, cls: CharClass): (r: string)
    ensures AllIn(r, cls)
  {
    if s == [] then "" else (if InClass(s[0], cls) then [s[0]] else "") + Keep(s[1..], cls)
  }

  lemma {:induction false} KeepConcat(a: string, b: string, cls: CharClass)
    ensures Keep(a + b, cls) == Keep(a, cls) + Keep(b, cls)
    decreases |a|
  {
    if a == [] {
      assert a + b == b;
    } else {
      var head := if InClass(a[0], cls) then [a[0]] else "";
      assert (a + b)[0] == a[0] && (a + b)[1..] == a[1..] + b;
      assert Keep(a + b, cls) == head + Keep(a[1..] + b, cls);
      KeepConcat(a[1..], b, cls);
      assert head + (Keep(a[1..], cls) + Keep(b, cls)) == (head + Keep(a[1..], cls)) + Keep(b, cls);
    }
  }

  lemma {:induction false} KeepAll(a: string, cls: CharClass)
    requires AllIn(a, cls)
    ensures Keep(a, cls) == a
    decreases |a|
  {
    if a != [] {
      KeepAll(a[1..], cls);
      assert a == [a[0]] + a[1..];
    }
  }

  /** The ten designators are distinct. */
  lemma HueNamesDistinct()
    ensures forall i, j :: 0 <= i < j < |HueNames| ==> HueNames[i] != HueNames[j]
  {
  }

  /** Each designator is a non-empty run of capitals other than 'N'. */
  lemma HueNamesCapitals()
    ensures forall k :: 0 <= k < |HueNames| ==> HueNames[k] != [] && AllIn(HueNames[k], UpperChars) && HueNames[k] != "N"
  {
  }

  /** In a list without repeats, indexOf finds each element at its own position. */
  lemma IndexOfDistinct(names: seq<string>, k: nat)
    requires k < |names| && forall i, j :: 0 <= i < j < |names| ==> names[i] != names[j]
    ensures IndexOf(names, names[k]) == k
  {
  }

  /** What toFixed prints is made of token characters and holds no capital. */
  lemma FixedIsToken(x: real, f: nat)
    ensures AllIn(ToFixed(x, f), TokenChars) && NoneIn(ToFixed(x, f), UpperChars)
  {
  }

  // ---------------------------------------------------------------- round trip

  /** Number reads back the value that toFixed prints. */
  ghost predicate ReadsFixed(toNumber: string -> Num)
  {
    forall x: real, f: nat :: toNumber(ToFixed(x, f)) == Finite(FixedValue(x, f))
  }

  /** The hue a printed code reads back as: the sector's start plus the printed prefix. */
  function PrintedHue(hue100: real, digits: nat): real
  {
    Times(ShownSector(hue100), 10.0) + FixedValue(ShownPrefix(hue100), HueDigits(digits))
  }

  /** h is within the tolerance of the canonical hue c or of c + 100, the same point of the hue circle. */
  predicate HueWithin(h: real, c: real, tolerance: real)
  {
    Abs(h - c) <= tolerance || Abs(h - (c + 100.0)) <= tolerance
  }

  /** An achromatic code reads back as hue 0, the printed value and chroma 0. */
  lemma AchromaticCodeRoundTrip(hue100: real, value: real, chroma: real, digits: nat, toNumber: string -> Num)
    requires ReadsFixed(toNumber) && FixedMagnitude(chroma, digits) == 0 && digits <= MAX_FIXED_DIGITS
    ensures MhvcToMunsell(hue100, value, chroma, digits).Ok?
    ensures MunsellToMhvc(MhvcToMunsell(hue100, value, chroma, digits).value, toNumber)
      == Ok(Mhvc(Finite(0.0), Finite(FixedValue(value, digits)), Finite(0.0)))
  {
    var v := ToFixed(value, digits);
    FixedZeroNumeral(chroma, digits);
    assert MhvcToMunsell(hue100, value, chroma, digits) == Ok("N " + v);
    FixedIsToken(value, digits);
    ReadAchromaticCode(v, toNumber);
  }

  /** 'N V' reads as hue 0, the number V and chroma 0. */
  lemma ReadAchromaticCode(v: string, toNumber: string -> Num)
    requires v != [] && AllIn(v, TokenChars) && NoneIn(v, UpperChars)
    ensures MunsellToMhvc("N " + v, toNumber) == Ok(Mhvc(Finite(0.0), toNumber(v), Finite(0.0)))
  {
    UpperRunAfter("", "N", " " + v);
    assert "" + "N" + (" " + v) == "N " + v;
    TokensSkip("N ", v);
    TokensOfRun(v);
  }

  /** The numbers of 'HW V/C' are H, V and C when they are runs of token characters and W of capitals. */
  lemma ChromaticCodeTokens(h: string, w: string, v: string, c: string)
    requires h != [] && AllIn(h, TokenChars) && v != [] && AllIn(v, TokenChars) && c != [] && AllIn(c, TokenChars)
    requires w != [] && AllIn(w, UpperChars)
    ensures Tokens(h + w + " " + v + "/" + c) == [h, v, c]
  {
    CodeParts(h, w, v, c);
    HueThenRest(h, w, v + ("/" + c));
    ValueChromaTokens(v, c);
  }

  lemma CodeParts(h: string, w: string, v: string, c: string)
    ensures h + w + " " + v + "/" + c == h + ((w + " ") + (v + ("/" + c)))
  {
  }

  lemma HueThenRest(h: string, w: string, t: string)
    requires h != [] && AllIn(h, TokenChars) && w != [] && AllIn(w, UpperChars)
    ensures Tokens(h + ((w + " ") + t)) == [h] + Tokens(t)
  {
    var sep := w + " ";
    assert forall i :: 0 <= i < |sep| ==> sep[i] == ' ' || InClass(sep[i], UpperChars);
    assert (sep + t)[0] == w[0];
    TokensLead(h, sep + t);
    TokensSkip(sep, t);
  }

  lemma ValueChromaTokens(v: string, c: string)
    requires v != [] && AllIn(v, TokenChars) && c != [] && AllIn(c, TokenChars)
    ensures Tokens(v + ("/" + c)) == [v, c]
  {
    TokensLead(v, "/" + c);
    TokensSkip("/", c);
    TokensOfRun(c);
  }

  /** The designator of 'HW V/C' is W when H holds no capital. */
  lemma ChromaticCodeName(h: string, w: string, v: string, c: string)
    requires NoneIn(h, UpperChars) && w != [] && AllIn(w, UpperChars)
    ensures FirstUpperRun(h + w + " " + v + "/" + c) == Some(w)
  {
    assert h + w + " " + v + "/" + c == h + w + (" " + v + "/" + c);
    UpperRunAfter(h, w, " " + v + "/" + c);
  }

  /**
   * A chromatic code reads back as the printed hue, value and chroma; prefix and sector are the
   * ones mhvcToMunsell shows, and the hue read back is the canonical hue to within half a unit
   * of the prefix's last printed place, on the hue circle.
   */
  lemma ChromaticCodeRoundTrip(hue100: real, prefix: real, sector: nat, value: real, chroma: real, digits: nat,
                               toNumber: string -> Num)
    requires prefix == ShownPrefix(hue100) && sector == ShownSector(hue100)
    requires FixedMagnitude(chroma, digits) != 0 && digits <= MAX_FIXED_DIGITS
    requires toNumber(ToFixed(prefix, HueDigits(digits))) == Finite(FixedValue(prefix, HueDigits(digits)))
    requires toNumber(ToFixed(value, digits)) == Finite(FixedValue(value, digits))
    requires toNumber(ToFixed(chroma, digits)) == Finite(FixedValue(chroma, digits))
    ensures MhvcToMunsell(hue100, value, chroma, digits).Ok?
    ensures MunsellToMhvc(MhvcToMunsell(hue100, value, chroma, digits).value, toNumber)
      == Ok(Mhvc(Finite(Times(sector, 10.0) + FixedValue(prefix, HueDigits(digits))),
                 Finite(FixedValue(value, digits)), Finite(FixedValue(chroma, digits))))
    ensures HueWithin(Times(sector, 10.0) + FixedValue(prefix, HueDigits(digits)), Mod(hue100, 100.0),
                      0.5 / Pow10(HueDigits(digits)) as real)
  {
    PrintedCodeRoundTrip(prefix, sector, value, chroma, digits, toNumber);
    PrintedHueClose(hue100, digits);
  }

  /** Reading back a chromatic code printed from a prefix, a designator's position, a value and a chroma. */
  lemma PrintedCodeRoundTrip(prefix: real, sector: nat, value: real, chroma: real, digits: nat, toNumber: string -> Num)
    requires sector < |HueNames| && FixedMagnitude(chroma, digits) != 0
    requires toNumber(ToFixed(prefix, HueDigits(digits))) == Finite(FixedValue(prefix, HueDigits(digits)))
    requires toNumber(ToFixed(value, digits)) == Finite(FixedValue(value, digits))
    requires toNumber(ToFixed(chroma, digits)) == Finite(FixedValue(chroma, digits))
    ensures MunsellToMhvc(PrintCode(prefix, sector, value, chroma, digits), toNumber)
      == Ok(Mhvc(Finite(Times(sector, 10.0) + FixedValue(prefix, HueDigits(digits))),
                 Finite(FixedValue(value, digits)), Finite(FixedValue(chroma, digits))))
  {
    ChromaticPrintCode(prefix, sector, value, chroma, digits);
    var f := HueDigits(digits);
    ReadPrintedParts(prefix, sector, value, chroma, digits, ToFixed(prefix, f), ToFixed(value, digits), ToFixed(chroma, digits), toNumber);
  }

  /** The printed parts of a chromatic code read back as the sector plus the prefix, the value and the chroma. */
  lemma ReadPrintedParts(prefix: real, sector: nat, value: real, chroma: real, digits: nat, h: string, v: string, c: string,
                         toNumber: string -> Num)
    requires sector < |HueNames|
    requires h == ToFixed(prefix, HueDigits(digits)) && v == ToFixed(value, digits) && c == ToFixed(chroma, digits)
    requires toNumber(h) == Finite(FixedValue(prefix, HueDigits(digits)))
    ensures MunsellToMhvc(h + HueNames[sector] + " " + v + "/" + c, toNumber)
      == Ok(Mhvc(Finite(Times(sector, 10.0) + FixedValue(prefix, HueDigits(digits))), toNumber(v), toNumber(c)))
  {
    FixedIsToken(prefix, HueDigits(digits));
    FixedIsToken(value, digits);
    FixedIsToken(chroma, digits);
    ReadChromaticCode(h, sector, v, c, FixedValue(prefix, HueDigits(digits)), toNumber);
  }

  /** A chroma that does not print as zero gives the chromatic form 'HW V/C'. */
  lemma ChromaticPrintCode(prefix: real, sector: nat, value: real, chroma: real, digits: nat)
    requires sector < |HueNames| && FixedMagnitude(chroma, digits) != 0
    ensures PrintCode(prefix, sector, value, chroma, digits)
      == ToFixed(prefix, HueDigits(digits)) + HueNames[sector] + " " + ToFixed(value, digits) + "/" + ToFixed(chroma, digits)
  {
    FixedZeroNumeral(chroma, digits);
  }

  /** Reading 'HW V/C' for a hue name W: the name's sector plus H, then V and C. */
  lemma ReadChromaticCode(h: string, k: nat, v: string, c: string, prefix: real, toNumber: string -> Num)
    requires k < |HueNames| && toNumber(h) == Finite(prefix)
    requires h != [] && AllIn(h, TokenChars) && NoneIn(h, UpperChars)
    requires v != [] && AllIn(v, TokenChars) && c != [] && AllIn(c, TokenChars)
    ensures MunsellToMhvc(h + HueNames[k] + " " + v + "/" + c, toNumber)
      == Ok(Mhvc(Finite(Times(k, 10.0) + prefix), toNumber(v), toNumber(c)))
  {
    var w := HueNames[k];
    assert w != [] && AllIn(w, UpperChars) && w != "N" by {
      HueNamesCapitals();
    }
    assert IndexOf(HueNames, w) == k by {
      HueNamesDistinct();
      IndexOfDistinct(HueNames, k);
    }
    var code := h + w + " " + v + "/" + c;
    ChromaticCodeName(h, w, v, c);
    ChromaticCodeTokens(h, w, v, c);
    ReadParsedCode(code, w, k, h, v, c, prefix, toNumber);
  }

  /** A code whose first capital run is a designator other than 'N' and whose tokens are H, V and C. */
  lemma ReadParsedCode(code: string, w: string, k: nat, h: string, v: string, c: string, prefix: real, toNumber: string -> Num)
    requires FirstUpperRun(code) == Some(w) && w != "N" && Tokens(code) == [h, v, c] && IndexOf(HueNames, w) == k
    requires toNumber(h) == Finite(prefix)
    ensures MunsellToMhvc(code, toNumber) == Ok(Mhvc(Finite(Times(k, 10.0) + prefix), toNumber(v), toNumber(c)))
  {
    ReadDesignatedNumbers(HueNames, w, k, h, v, c, prefix, toNumber);
  }

  /** A designator other than 'N' at position k of names, followed by the numbers H, V and C. */
  lemma ReadDesignatedNumbers(names: seq<string>, w: string, k: nat, h: string, v: string, c: string, prefix: real,
                              toNumber: string -> Num)
    requires w != "N" && IndexOf(names, w) == k && toNumber(h) == Finite(prefix)
    ensures ReadDesignated(names, w, [h, v, c], toNumber) == Ok(Mhvc(Finite(Times(k, 10.0) + prefix), toNumber(v), toNumber(c)))
  {
    var start := Times(k, 10.0);
    assert Plus(start, Finite(prefix)) == Finite(start + prefix);
  }

  /** The printed hue is the canonical hue to within half a unit of the prefix's last printed place. */
  lemma PrintedHueClose(hue100: real, digits: nat)
    ensures HueWithin(PrintedHue(hue100, digits), Mod(hue100, 100.0), 0.5 / Pow10(HueDigits(digits)) as real)
  {
    var f := HueDigits(digits);
    var p := HuePrefix(hue100);
    var n := HueNumber(hue100);
    var c := Mod(hue100, 100.0);
    var h := PrintedHue(hue100, digits);
    if p == 0.0 {
      assert h == Times((n - 1) % 10, 10.0) + FixedValue(10.0, f);
      PrintedHueAtStart(n, c, h, f);
    } else {
      assert h == Times(n, 10.0) + FixedValue(p, f);
      PrintedHueInside(n, p, c, h, f);
    }
  }

  /** A zero prefix prints as '10' of the previous designator: exactly the canonical hue, or one lap above it. */
  lemma PrintedHueAtStart(n: int, c: real, h: real, f: nat)
    requires 0 <= n < 10 && c == Times(n, 10.0) && h == Times((n - 1) % 10, 10.0) + FixedValue(10.0, f)
    ensures HueWithin(h, c, 0.5 / Pow10(f) as real)
  {
    FixedValueOfInteger(10, f);
    SectorStartHue(n, c);
    HalfUnitPositive(f);
  }

  lemma HalfUnitPositive(f: nat)
    ensures 0.0 < 0.5 / Pow10(f) as real
  {
  }

  /** A nonzero prefix is printed in its own sector, off by the rounding of the prefix alone. */
  lemma PrintedHueInside(n: int, p: real, c: real, h: real, f: nat)
    requires c == Times(n, 10.0) + p && h == Times(n, 10.0) + FixedValue(p, f)
    ensures HueWithin(h, c, 0.5 / Pow10(f) as real)
  {
    FixedValueClose(p, f);
    assert h - c == FixedValue(p, f) - p;
  }

  /** '10' of the previous designator lands on the sector's start, one lap up for the first sector. */
  lemma SectorStartHue(n: int, canonical: real)
    requires 0 <= n < 10 && canonical == Times(n, 10.0)
    ensures var h := Times((n - 1) % 10, 10.0) + 10.0;
      h == canonical || h == canonical + 100.0
  {
    if n == 0 {
      assert (n - 1) % 10 == 9;
    } else {
      assert (n - 1) % 10 == n - 1;
      LapsAdd(n - 1, 1, 10.0);
    }
  }

  // ---------------------------------------------------------------- conversions from a code

  /** munsellToLchab; a NaN number in the code is reported instead of propagated. */
  function MunsellToLchab(m: Transcendental, table: Renotation, code: string, toNumber: string -> Num): (r: Result<Vec3>)
    requires table.Valid()
    ensures r.Ok? <==> FiniteMhvc(code, toNumber).Ok?
    ensures r.Ok? ==> var c := FiniteMhvc(code, toNumber).value;
      r.value == MhvcToLchab(m, table, c.x0, c.x1, c.x2) && 0.0 <= r.value.x2 < 360.0
  {
    match FiniteMhvc(code, toNumber)
    case Fail(e) => Fail(e)
    case Ok(c) => Ok(MhvcToLchab(m, table, c.x0, c.x1, c.x2))
  }

  function MunsellToLab(m: Transcendental, table: Renotation, code: string, toNumber: string -> Num): (r: Result<Vec3>)
    requires table.Valid()
    ensures r.Ok? <==> FiniteMhvc(code, toNumber).Ok?
    ensures r.Ok? ==> var c := FiniteMhvc(code, toNumber).value; r.value == MhvcToLab(m, table, c.x0, c.x1, c.x2)
  {
    match FiniteMhvc(code, toNumber)
    case Fail(e) => Fail(e)
    case Ok(c) => Ok(MhvcToLab(m, table, c.x0, c.x1, c.x2))
  }

  function MunsellToXyz(m: Transcendental, table: Renotation, code: string, toNumber: string -> Num,
                        illuminant: Illuminant := ILLUMINANT_D65): (r: Result<Vec3>)
    requires table.Valid()
    ensures r.Ok? <==> FiniteMhvc(code, toNumber).Ok?
    ensures r.Ok? ==> var c := FiniteMhvc(code, toNumber).value; r.value == MhvcToXyz(m, table, c.x0, c.x1, c.x2, illuminant)
  {
    match FiniteMhvc(code, toNumber)
    case Fail(e) => Fail(e)
    case Ok(c) => Ok(MhvcToXyz(m, table, c.x0, c.x1, c.x2, illuminant))
  }

  function MunsellToLinearRgb(m: Transcendental, table: Renotation, code: string, toNumber: string -> Num, rgbSpace: RgbSpace): (r: Result<Vec3>)
    requires table.Valid()
    ensures r.Ok? <==> FiniteMhvc(code, toNumber).Ok?
    ensures r.Ok? ==> var c := FiniteMhvc(code, toNumber).value; r.value == MhvcToLinearRgb(m, table, c.x0, c.x1, c.x2, rgbSpace)
  {
    match FiniteMhvc(code, toNumber)
    case Fail(e) => Fail(e)
    case Ok(c) => Ok(MhvcToLinearRgb(m, table, c.x0, c.x1, c.x2, rgbSpace))
  }

  function MunsellToRgb(m: Transcendental, table: Renotation, code: string, toNumber: string -> Num, rgbSpace: RgbSpace): (r: Result<Vec3>)
    requires table.Valid()
    ensures r.Ok? <==> FiniteMhvc(code, toNumber).Ok?
    ensures r.Ok? ==> var c := FiniteMhvc(code, toNumber).value; r.value == MhvcToRgb(m, table, c.x0, c.x1, c.x2, rgbSpace)
  {
    match FiniteMhvc(code, toNumber)
    case Fail(e) => Fail(e)
    case Ok(c) => Ok(MhvcToRgb(m, table, c.x0, c.x1, c.x2, rgbSpace))
  }

  function MunsellToRgb255(m: Transcendental, table: Renotation, code: string, toNumber: string -> Num, clamp: bool, rgbSpace: RgbSpace): (r: Result<Vec3>)
    requires table.Valid()
    ensures r.Ok? <==> FiniteMhvc(code, toNumber).Ok?
    ensures r.Ok? ==> var c := FiniteMhvc(code, toNumber).value; r.value == MhvcToRgb255(m, table, c.x0, c.x1, c.x2, clamp, rgbSpace)
    ensures r.Ok? ==> IsInteger(r.value.x0) && IsInteger(r.value.x1) && IsInteger(r.value.x2)
    ensures r.Ok? && clamp ==> 0.0 <= r.value.x0 <= 255.0 && 0.0 <= r.value.x1 <= 255.0 && 0.0 <= r.value.x2 <= 255.0
  {
    match FiniteMhvc(code, toNumber)
    case Fail(e) => Fail(e)
    case Ok(c) => Ok(MhvcToRgb255(m, table, c.x0, c.x1, c.x2, clamp, rgbSpace))
  }

  function MunsellToHex(m: Transcendental, table: Renotation, code: string, toNumber: string -> Num, rgbSpace: RgbSpace): (r: Result<string>)
    requires table.Valid()
    ensures r.Ok? <==> FiniteMhvc(code, toNumber).Ok?
    ensures r.Ok? ==> var c := FiniteMhvc(code, toNumber).value; r.value == MhvcToHex(m, table, c.x0, c.x1, c.x2, rgbSpace)
    ensures r.Ok? ==> |r.value| == 7 && r.value[0] == '#' && IsLowerHex(r.value[1..])
  {
    match FiniteMhvc(code, toNumber)
    case Fail(e) => Fail(e)
    case Ok(c) => Ok(MhvcToHex(m, table, c.x0, c.x1, c.x2, rgbSpace))
  }
}
